/** String operations the tag queries rely on: lowercasing, the substring test
    of Python's `needle in haystack`, the code-point order Python's `sorted`
    uses on strings, and `sorted(set(xs))` for a list of strings. */
module Text {
  import opened Seqs

  /** Lowercasing of one character, restricted to ASCII A-Z. */
  function LowerChar(c: char): char {
    if 'A' <= c <= 'Z' then (c as int - 'A' as int + 'a' as int) as char else c
  }

  /** `s.lower()` with ASCII case folding. */
  function Lower(s: string): (r: string)
    ensures |r| == |s|
  {
    if s == [] then [] else Lower(s[..|s| - 1]) + [LowerChar(s[|s| - 1])]
  }

  /** Lowercasing works character by character. */
  lemma {:induction false} LowerAt(s: string)
    ensures forall i :: 0 <= i < |s| ==> Lower(s)[i] == LowerChar(s[i])
  {
    if s != [] {
      LowerAt(s[..|s| - 1]);
    }
  }

  /** Lowercasing leaves no upper-case letter and is idempotent. */
  lemma LowerProperties(s: string)
    ensures forall i :: 0 <= i < |s| ==> !('A' <= Lower(s)[i] <= 'Z')
    ensures Lower(Lower(s)) == Lower(s)
  {
    var l := Lower(s);
    LowerAt(s);
    LowerAt(l);
    forall i | 0 <= i < |l| ensures Lower(l)[i] == l[i] {
      assert l[i] == LowerChar(s[i]);
    }
  }

  /** `needle` occurs in `hay` starting at position `i`. */
  ghost predicate OccursAt(hay: string, needle: string, i: nat) {
    i + |needle| <= |hay| && hay[i..i + |needle|] == needle
  }

  /** `hay` begins with `needle`. */
  predicate StartsWith(hay: string, needle: string) {
    |needle| <= |hay| && hay[..|needle|] == needle
  }

  /** Python's `needle in hay` on strings: scans each start position. */
  function Contains(hay: string, needle: string): bool
  {
    StartsWith(hay, needle) || (hay != [] && Contains(hay[1..], needle))
  }

  /** The scan finds an occurrence exactly when one exists. */
  lemma {:induction false} ContainsIff(hay: string, needle: string)
    ensures Contains(hay, needle) <==> exists i: nat :: OccursAt(hay, needle, i)
  {
    if StartsWith(hay, needle) {
      assert OccursAt(hay, needle, 0);
    } else if hay == [] {
    } else {
      ContainsIff(hay[1..], needle);
      if Contains(hay[1..], needle) {
        var i: nat :| OccursAt(hay[1..], needle, i);
        assert hay[i + 1..i + 1 + |needle|] == hay[1..][i..i + |needle|];
        assert OccursAt(hay, needle, i + 1);
      }
      if exists i: nat :: OccursAt(hay, needle, i) {
        var i: nat :| OccursAt(hay, needle, i);
        assert i != 0;
        assert hay[1..][i - 1..i - 1 + |needle|] == hay[i..i + |needle|];
        assert OccursAt(hay[1..], needle, i - 1);
      }
    }
  }

  /** Python's `a < b` on strings: lexicographic by code point, a proper prefix
      coming first. */
  predicate Less(a: string, b: string) {
    if a == [] then b != []
    else if b == [] then false
    else if a[0] != b[0] then a[0] < b[0]
    else Less(a[1..], b[1..])
  }

  lemma {:induction false} LessIrreflexive(a: string)
    ensures !Less(a, a)
  {
    if a != [] { LessIrreflexive(a[1..]); }
  }

  lemma {:induction false} LessTransitive(a: string, b: string, c: string)
    requires Less(a, b) && Less(b, c)
    ensures Less(a, c)
  {
    if a != [] && b != [] && c != [] && a[0] == b[0] && b[0] == c[0] {
      LessTransitive(a[1..], b[1..], c[1..]);
    }
  }

  /** Distinct strings are always ordered one way or the other. */
  lemma {:induction false} LessTotal(a: string, b: string)
    requires a != b
    ensures Less(a, b) || Less(b, a)
  {
    if a != [] && b != [] && a[0] == b[0] {
      assert a == [a[0]] + a[1..] && b == [b[0]] + b[1..];
      LessTotal(a[1..], b[1..]);
    }
  }

  lemma LessAsymmetric(a: string, b: string)
    requires Less(a, b)
    ensures !Less(b, a)
  {
    if Less(b, a) {
      LessTransitive(a, b, a);
      LessIrreflexive(a);
    }
  }

  /** Every earlier element is below every later one; hence duplicate-free. */
  ghost predicate StrictlyAscending(s: seq<string>) {
    forall i, j :: 0 <= i < j < |s| ==> Less(s[i], s[j])
  }

  lemma AscendingHasNoDups(s: seq<string>)
    requires StrictlyAscending(s)
    ensures NoDups(s)
  {
    forall i, j | 0 <= i < j < |s| ensures s[i] != s[j] {
      LessIrreflexive(s[i]);
    }
  }

  /** Puts `x` into its place in an ascending sequence, unless it is there already. */
  function Insert(x: string, s: seq<string>): seq<string> {
    if s == [] then [x]
    else if x == s[0] then s
    else if Less(x, s[0]) then [x] + s
    else [s[0]] + Insert(x, s[1..])
  }

  lemma {:induction false} InsertKeepsAscending(x: string, s: seq<string>)
    requires StrictlyAscending(s)
    ensures StrictlyAscending(Insert(x, s))
    ensures forall y :: y in Insert(x, s) <==> y == x || y in s
  {
    if s != [] && x != s[0] && !Less(x, s[0]) {
      var tail := s[1..];
      InsertKeepsAscending(x, tail);
      LessTotal(x, s[0]);
      var r := Insert(x, s);
      assert r == [s[0]] + Insert(x, tail);
      forall j | 0 < j < |r| ensures Less(s[0], r[j]) {
        assert r[j] in Insert(x, tail);
      }
    } else if s != [] && x != s[0] {
      forall j | 1 <= j < |s| ensures Less(x, s[j]) {
        LessTransitive(x, s[0], s[j]);
      }
    }
  }

  /** Python's `sorted(list(set(xs)))` on strings. */
  function SortedSet(xs: seq<string>): (r: seq<string>)
    ensures StrictlyAscending(r)
    ensures forall y :: y in r <==> y in xs
  {
    if xs == [] then []
    else
      var rest := SortedSet(xs[1..]);
      InsertKeepsAscending(xs[0], rest);
      assert xs == [xs[0]] + xs[1..];
      Insert(xs[0], rest)
  }

  /** A strictly ascending sequence is determined by its elements, so any
      correct sort of the deduplicated tags yields this very sequence. */
  lemma {:induction false} AscendingUnique(a: seq<string>, b: seq<string>)
    requires StrictlyAscending(a) && StrictlyAscending(b)
    requires forall y :: y in a <==> y in b
    ensures a == b
  {
    assert a != [] ==> a[0] in b;
    assert b != [] ==> b[0] in a;
    if a != [] && b != [] {
      if a[0] != b[0] {
        assert b[0] in a;
        var i :| 0 <= i < |a| && a[i] == b[0];
        assert a[0] in b;
        var j :| 0 <= j < |b| && b[j] == a[0];
        assert Less(a[0], b[0]);
        assert Less(b[0], a[0]);
        LessAsymmetric(a[0], b[0]);
      }
      forall y ensures y in a[1..] <==> y in b[1..] {
        if y in a[1..] {
          var i :| 1 <= i < |a| && a[i] == y;
          LessIrreflexive(a[0]);
          assert y in b;
          assert y != b[0];
        }
        if y in b[1..] {
          var i :| 1 <= i < |b| && b[i] == y;
          LessIrreflexive(b[0]);
          assert y in a;
          assert y != a[0];
        }
      }
      AscendingUnique(a[1..], b[1..]);
      assert a == [a[0]] + a[1..] && b == [b[0]] + b[1..];
    }
  }
}
