/** The Memory model: a geotagged record with a JSON `tags` column, and the
    three helpers that read and update that column. */
module Models {
  import opened Seqs

  /** The value held by the `tags` JSON column: normally a list of strings,
      but the column accepts any JSON value, represented by `JsonOther`. */
  datatype TagsJson = JsonList(items: seq<string>) | JsonOther {

    /** `get_tags_list`: the list itself, or an empty list for any other value. */
    function GetTagsList(): (r: seq<string>)
      ensures JsonList? ==> r == items
      ensures !JsonList? ==> r == []
    {
      if JsonList? then items else []
    }
  }

  /** A memory row as the query views read it. Coordinates are stored with 8
      decimal places, so they are kept as integers scaled by 10^8; `owner` is
      the id of the user the row belongs to. */
  datatype MemoryRecord = MemoryRecord(id: nat, owner: nat, latE8: int, lngE8: int, tags: TagsJson)

  /** Python's `list.remove(t)` on a list holding `t`: drops its first occurrence. */
  function RemoveFirst(s: seq<string>, t: string): seq<string> {
    if s == [] then []
    else if s[0] == t then s[1..]
    else [s[0]] + RemoveFirst(s[1..], t)
  }

  /** Position of the first occurrence of `t`. */
  function FirstIndex(s: seq<string>, t: string): (i: nat)
    requires t in s
    ensures i < |s| && s[i] == t && t !in s[..i]
  {
    if s[0] == t then 0
    else
      var i := 1 + FirstIndex(s[1..], t);
      assert s[..i] == [s[0]] + s[1..][..i - 1];
      i
  }

  lemma {:induction false} RemoveAt(s: seq<string>, t: string, i: nat)
    requires i < |s| && s[i] == t && t !in s[..i]
    ensures RemoveFirst(s, t) == s[..i] + s[i + 1..]
  {
    if i > 0 {
      assert s[0] in s[..i];
      assert s[1..][..i - 1] == s[1..i];
      assert t !in s[1..][..i - 1];
      RemoveAt(s[1..], t, i - 1);
      assert s[..i] == [s[0]] + s[1..][..i - 1];
      assert s[i + 1..] == s[1..][i..];
    } else {
      assert s[..0] == [];
    }
  }

  /** Removal deletes exactly the first occurrence and keeps the rest in order. */
  lemma RemoveFirstDeletesFirst(s: seq<string>, t: string)
    requires t in s
    ensures exists i :: 0 <= i < |s| && s[i] == t && t !in s[..i] &&
                        RemoveFirst(s, t) == s[..i] + s[i + 1..]
  {
    var i := FirstIndex(s, t);
    RemoveAt(s, t, i);
  }

  /** Removing from a duplicate-free list keeps it duplicate-free and leaves no `t`. */
  lemma {:induction false} RemoveFirstKeepsNoDups(s: seq<string>, t: string)
    requires NoDups(s)
    ensures NoDups(RemoveFirst(s, t))
    ensures t !in RemoveFirst(s, t)
    ensures forall x :: x in RemoveFirst(s, t) <==> x in s && x != t
  {
    if s != [] {
      assert NoDups(s[1..]);
      RemoveFirstKeepsNoDups(s[1..], t);
      if s[0] == t {
        assert t !in s[1..];
      } else {
        assert s[0] !in s[1..];
      }
    }
  }

  /** Removing a tag that was just appended gives back the list before the append. */
  lemma {:induction false} RemoveAppended(s: seq<string>, t: string)
    requires t !in s
    ensures RemoveFirst(s + [t], t) == s
  {
    if s != [] {
      assert (s + [t])[1..] == s[1..] + [t];
      RemoveAppended(s[1..], t);
    }
  }

  /** The value of `tags` after `add_tag(t)`. */
  function WithTag(tags: TagsJson, t: string): TagsJson {
    var l := tags.GetTagsList();
    if t in l then JsonList(l) else JsonList(l + [t])
  }

  /** The value of `tags` after `remove_tag(t)`. */
  function WithoutTag(tags: TagsJson, t: string): TagsJson {
    if tags.JsonList? && t in tags.items then JsonList(RemoveFirst(tags.items, t)) else tags
  }

  /** `add_tag` keeps a duplicate-free tag list duplicate-free. */
  lemma WithTagKeepsNoDups(tags: TagsJson, t: string)
    requires NoDups(tags.GetTagsList())
    ensures NoDups(WithTag(tags, t).items)
  {
  }

  /** On a list without `t`, `add_tag(t)` then `remove_tag(t)` restores the list. */
  lemma AddThenRemove(tags: TagsJson, t: string)
    requires tags.JsonList? && t !in tags.items
    ensures WithoutTag(WithTag(tags, t), t) == tags
  {
    RemoveAppended(tags.items, t);
  }

  /** A Memory object; only its `tags` column is updated by the helpers. */
  class Memory {
    const id: nat
    const owner: nat
    const latE8: int
    const lngE8: int
    var tags: TagsJson

    constructor (id: nat, owner: nat, latE8: int, lngE8: int, tags: TagsJson)
      ensures this.id == id && this.owner == owner
      ensures this.latE8 == latE8 && this.lngE8 == lngE8 && this.tags == tags
    {
      this.id, this.owner, this.latE8, this.lngE8, this.tags := id, owner, latE8, lngE8, tags;
    }

    /** `add_tag`: a non-list value is first reset to an empty list; the tag is
        appended unless already present. */
    method AddTag(t: string)
      modifies this
      ensures tags == WithTag(old(tags), t)
      ensures tags.JsonList? && t in tags.items
      ensures old(tags).JsonList? && t in old(tags).items ==> tags == old(tags)
      ensures old(tags).JsonList? && t !in old(tags).items ==> tags.items == old(tags).items + [t]
      ensures !old(tags).JsonList? ==> tags.items == [t]
      ensures NoDups(old(tags).GetTagsList()) ==> NoDups(tags.items)
    {
      if !tags.JsonList? {
        tags := JsonList([]);
      }
      if t !in tags.items {
        tags := JsonList(tags.items + [t]);
      }
    }

    /** `remove_tag`: deletes the first occurrence of `t` when the value is a
        list holding it, and otherwise changes nothing. */
    method RemoveTag(t: string)
      modifies this
      ensures tags == WithoutTag(old(tags), t)
      ensures !old(tags).JsonList? || t !in old(tags).items ==> tags == old(tags)
      ensures old(tags).JsonList? && t in old(tags).items ==>
        tags.JsonList? &&
        exists i :: 0 <= i < |old(tags).items| && old(tags).items[i] == t &&
                    t !in old(tags).items[..i] &&
                    tags.items == old(tags).items[..i] + old(tags).items[i + 1..]
      ensures NoDups(old(tags).GetTagsList()) ==>
        NoDups(tags.GetTagsList()) && t !in tags.GetTagsList()
    {
      if tags.JsonList? && t in tags.items {
        RemoveFirstDeletesFirst(tags.items, t);
        if NoDups(tags.items) {
          RemoveFirstKeepsNoDups(tags.items, t);
        }
        tags := JsonList(RemoveFirst(tags.items, t));
      }
    }
  }

  /** A client of the class: on a duplicate-free list without `t`, adding and
      then removing `t` leaves the object as it was. */
  method AddThenRemoveTag(m: Memory, t: string)
    requires m.tags.JsonList? && NoDups(m.tags.items) && t !in m.tags.items
    modifies m
    ensures m.tags == old(m.tags)
  {
    m.AddTag(t);
    m.RemoveTag(t);
    AddThenRemove(old(m.tags), t);
  }
}
