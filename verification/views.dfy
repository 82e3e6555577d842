/** The query views over the memories table: the bounding-box search, the
    tag search, the listing of all tags and the closest-memory search. Each
    view sees the whole table and keeps the rows of the requesting user, as
    the ORM filter `user=request.user` does; rows keep the table's order. */
module Views {
  import opened Wrappers
  import opened Seqs
  import opened Text
  import opened Decimals
  import opened Models

  /** A query-string parameter: absent, or present with its raw text. */
  type Param = Option<string>

  /** Python's `not value` on a parameter: absent or the empty string. */
  predicate Blank(p: Param) {
    p.None? || p.value == ""
  }

  /** The three error responses (HTTP 400) the views produce, with the messages
      "lat and lng parameters are required", "Invalid coordinate format" and
      "tag parameter is required". */
  datatype QueryError = CoordinatesRequired | InvalidCoordinateFormat | TagRequired

  /** The requesting user's rows, in table order. */
  function OwnedBy(table: seq<MemoryRecord>, user: nat): (r: seq<MemoryRecord>)
    ensures forall m :: m in r <==> m in table && m.owner == user
    ensures IsSubseq(r, table)
  {
    FilterIsSubseq(table, (m: MemoryRecord) => m.owner == user);
    Filter(table, (m: MemoryRecord) => m.owner == user)
  }

  // ---------------------------------------------------------------- location

  /** The inclusive square of half-width `tol` degrees around (lat, lng). */
  predicate InBox(m: MemoryRecord, lat: real, lng: real, tol: real) {
    lat - tol <= Degrees(m.latE8) <= lat + tol &&
    lng - tol <= Degrees(m.lngE8) <= lng + tol
  }

  /** The rows of `ms` inside the square, in order. */
  function WithinBox(ms: seq<MemoryRecord>, lat: real, lng: real, tol: real): (r: seq<MemoryRecord>)
    ensures forall m :: m in r <==> m in ms && InBox(m, lat, lng, tol)
    ensures IsSubseq(r, ms)
  {
    FilterIsSubseq(ms, (m: MemoryRecord) => InBox(m, lat, lng, tol));
    Filter(ms, (m: MemoryRecord) => InBox(m, lat, lng, tol))
  }

  /** The text of the `tolerance` parameter, "0.001" when it is absent. */
  function ToleranceText(p: Param): string {
    if p.Some? then p.value else "0.001"
  }

  /** `memories_by_location_view`. */
  function LocationView(table: seq<MemoryRecord>, user: nat, latP: Param, lngP: Param, tolP: Param)
    : (r: Result<seq<MemoryRecord>, QueryError>)
    ensures r == Failure(CoordinatesRequired) <==> Blank(latP) || Blank(lngP)
    ensures r == Failure(InvalidCoordinateFormat) <==>
      !Blank(latP) && !Blank(lngP) &&
      (ParseDecimal(latP.value).None? || ParseDecimal(lngP.value).None? ||
       ParseDecimal(ToleranceText(tolP)).None?)
    ensures r.Success? <==>
      !Blank(latP) && !Blank(lngP) && ParseDecimal(latP.value).Some? &&
      ParseDecimal(lngP.value).Some? && ParseDecimal(ToleranceText(tolP)).Some?
    ensures r.Success? ==>
      var lat, lng, tol := ParseDecimal(latP.value).value, ParseDecimal(lngP.value).value,
                           ParseDecimal(ToleranceText(tolP)).value;
      forall m :: m in r.value <==> m in table && m.owner == user && InBox(m, lat, lng, tol)
    ensures r.Success? ==> IsSubseq(r.value, table)
  {
    if Blank(latP) || Blank(lngP) then
      Failure(CoordinatesRequired)
    else
      var lat, lng, tol := ParseDecimal(latP.value), ParseDecimal(lngP.value),
                           ParseDecimal(ToleranceText(tolP));
      if lat.None? || lng.None? || tol.None? then
        Failure(InvalidCoordinateFormat)
      else
        var owned := OwnedBy(table, user);
        var found := WithinBox(owned, lat.value, lng.value, tol.value);
        SubseqTransitive(found, owned, table);
        Success(found)
  }

  /** Without a `tolerance` parameter the square has half-width 0.001. */
  lemma DefaultTolerance(table: seq<MemoryRecord>, user: nat, latP: Param, lngP: Param)
    ensures var r := LocationView(table, user, latP, lngP, None);
            r.Success? ==>
              forall m :: m in r.value <==>
                m in table && m.owner == user &&
                InBox(m, ParseDecimal(latP.value).value, ParseDecimal(lngP.value).value, 0.001)
  {
    DefaultToleranceValue();
  }

  /** The tolerance is not checked for sign: a negative one selects nothing. */
  lemma NegativeToleranceSelectsNothing(ms: seq<MemoryRecord>, lat: real, lng: real, tol: real)
    requires tol < 0.0
    ensures WithinBox(ms, lat, lng, tol) == []
  {
  }

  /** Querying with a row's own coordinates, written with their 8 stored
      decimals, finds that row whatever non-negative tolerance is given. */
  lemma OwnCoordinatesFindRow(table: seq<MemoryRecord>, m: MemoryRecord, tolP: Param)
    requires m in table
    requires ParseDecimal(ToleranceText(tolP)).Some? && ParseDecimal(ToleranceText(tolP)).value >= 0.0
    ensures var r := LocationView(table, m.owner, Some(RenderE8(m.latE8)), Some(RenderE8(m.lngE8)), tolP);
            r.Success? && m in r.value
  {
    RenderRoundTrip(m.latE8);
    RenderRoundTrip(m.lngE8);
  }

  /** Two rows of one user: (25.1234, 80.5678) tagged "test", "list" and
      (25.2, 80.6) tagged "other". */
  function SampleRows(): seq<MemoryRecord> {
    [MemoryRecord(1, 1, 2512340000, 8056780000, JsonList(["test", "list"])),
     MemoryRecord(2, 1, 2520000000, 8060000000, JsonList(["other"]))]
  }

  /** The square of half-width 0.001 around the first row holds only that row. */
  lemma SampleLocationQuery()
    ensures WithinBox(SampleRows(), 25.1234, 80.5678, 0.001) == [SampleRows()[0]]
  {
    var ms := SampleRows();
    assert InBox(ms[0], 25.1234, 80.5678, 0.001);
    assert !InBox(ms[1], 25.1234, 80.5678, 0.001);
    assert ms[..1] == [ms[0]];
  }

  // --------------------------------------------------------------------- tags

  /** Some tag of the row, lowercased, contains `q` as a substring. */
  predicate MatchesTag(m: MemoryRecord, q: string) {
    var tags := m.tags.GetTagsList();
    exists i | 0 <= i < |tags| :: Contains(Lower(tags[i]), q)
  }

  /** `tag in memory_tag for memory_tag in memory_tags` as a test on rows. */
  function TagMatcher(q: string): MemoryRecord -> bool {
    m => MatchesTag(m, q)
  }

  /** The lowercased `tag` parameter; an absent parameter reads as "". */
  function SearchQuery(tagP: Param): string {
    Lower(if tagP.Some? then tagP.value else "")
  }

  /** `search_memories_by_tag_view`: the query is lowercased and must not be
      empty; each of the user's rows with a matching tag is appended in turn. */
  method TagSearchView(table: seq<MemoryRecord>, user: nat, tagP: Param)
    returns (r: Result<seq<MemoryRecord>, QueryError>)
    ensures r.Failure? <==> Blank(tagP)
    ensures r.Failure? ==> r.error == TagRequired
    ensures r.Success? ==> r.value == Filter(OwnedBy(table, user), TagMatcher(SearchQuery(tagP)))
    ensures r.Success? ==>
      forall m :: m in r.value <==> m in table && m.owner == user && MatchesTag(m, SearchQuery(tagP))
    ensures r.Success? ==> IsSubseq(r.value, table)
  {
    var tag := SearchQuery(tagP);
    if tag == "" {
      return Failure(TagRequired);
    }
    var memories := OwnedBy(table, user);
    var filtered := [];
    for i := 0 to |memories|
      invariant filtered == Filter(memories[..i], TagMatcher(tag))
    {
      assert memories[..i + 1] == memories[..i] + [memories[i]];
      FilterSnoc(memories[..i], memories[i], TagMatcher(tag));
      if MatchesTag(memories[i], tag) {
        filtered := filtered + [memories[i]];
      }
    }
    assert memories[..|memories|] == memories;
    FilterIsSubseq(memories, TagMatcher(tag));
    SubseqTransitive(filtered, memories, table);
    r := Success(filtered);
  }

  /** Matching ignores case on both sides: "Vacation2024" matches "VACATION". */
  lemma CaseInsensitiveMatch()
    ensures MatchesTag(MemoryRecord(1, 1, 0, 0, JsonList(["Vacation2024"])), Lower("VACATION"))
  {
    var t := "Vacation2024";
    var m := MemoryRecord(1, 1, 0, 0, JsonList([t]));
    LowerAt("VACATION");
    LowerAt(t);
    assert m.tags.GetTagsList()[0] == t;
    assert Lower("VACATION") == "vacation";
    assert Lower(t) == "vacation2024";
    assert StartsWith(Lower(t), "vacation");
    assert Contains(Lower(m.tags.GetTagsList()[0]), Lower("VACATION"));
  }

  /** Searching the sample rows for "li" finds the row tagged "list" only. */
  lemma SampleTagQuery()
    ensures Filter(SampleRows(), TagMatcher("li")) == [SampleRows()[0]]
  {
    var ms := SampleRows();
    SampleFirstMatches();
    SampleSecondMisses();
    assert ms == [] + [ms[0]] + [ms[1]];
    FilterSnoc([], ms[0], TagMatcher("li"));
    FilterSnoc([ms[0]], ms[1], TagMatcher("li"));
  }

  lemma SampleFirstMatches()
    ensures MatchesTag(SampleRows()[0], "li")
  {
    LowerAt("list");
    assert Lower("list") == "list";
    assert StartsWith(Lower("list"), "li");
    assert SampleRows()[0].tags.GetTagsList()[1] == "list";
  }

  lemma SampleSecondMisses()
    ensures !MatchesTag(SampleRows()[1], "li")
  {
    LowerAt("other");
    assert Lower("other") == "other";
    assert !Contains("r", "li");
    assert !Contains("er", "li") by { assert "er"[1..] == "r"; }
    assert !Contains("her", "li") by { assert "her"[1..] == "er"; }
    assert !Contains("ther", "li") by { assert "ther"[1..] == "her"; }
    assert !Contains("other", "li") by { assert "other"[1..] == "ther"; }
    assert SampleRows()[1].tags.GetTagsList() == ["other"];
  }

  /** All tags of the rows, row after row (`all_tags.extend(...)`). */
  function Flatten(ms: seq<MemoryRecord>): seq<string> {
    if ms == [] then [] else Flatten(ms[..|ms| - 1]) + ms[|ms| - 1].tags.GetTagsList()
  }

  /** A tag is in the flattened list exactly when some row carries it. */
  lemma {:induction false} FlattenMembers(ms: seq<MemoryRecord>)
    ensures forall t :: t in Flatten(ms) <==> exists m :: m in ms && t in m.tags.GetTagsList()
  {
    if ms != [] {
      var init := ms[..|ms| - 1];
      FlattenMembers(init);
      assert ms == init + [ms[|ms| - 1]];
    }
  }

  /** `get_all_tags_view`: every tag of the user's rows, without duplicates
      (exact comparison, so case variants all stay) and in code-point order. */
  method AllTagsView(table: seq<MemoryRecord>, user: nat) returns (r: seq<string>)
    ensures StrictlyAscending(r)
    ensures forall t :: t in r <==> exists m :: m in table && m.owner == user && t in m.tags.GetTagsList()
    ensures r == SortedSet(Flatten(OwnedBy(table, user)))
  {
    var memories := OwnedBy(table, user);
    var allTags := [];
    for i := 0 to |memories|
      invariant allTags == Flatten(memories[..i])
    {
      assert memories[..i + 1][..i] == memories[..i];
      allTags := allTags + memories[i].tags.GetTagsList();
    }
    assert memories[..|memories|] == memories;
    FlattenMembers(memories);
    r := SortedSet(allTags);
  }

  /** Tags that differ only in case are listed separately. */
  lemma CaseSensitiveListing()
    ensures SortedSet(Flatten([MemoryRecord(1, 1, 0, 0, JsonList(["Vacation", "beach"])),
                               MemoryRecord(2, 1, 0, 0, JsonList(["vacation", "sun"]))]))
         == ["Vacation", "beach", "sun", "vacation"]
  {
    var ms := [MemoryRecord(1, 1, 0, 0, JsonList(["Vacation", "beach"])),
               MemoryRecord(2, 1, 0, 0, JsonList(["vacation", "sun"]))];
    assert ms[..1] == [ms[0]];
    assert Flatten(ms) == ["Vacation", "beach", "vacation", "sun"];
    var expected := ["Vacation", "beach", "sun", "vacation"];
    assert Less("Vacation", "beach");
    assert Less("beach", "sun");
    assert Less("sun", "vacation");
    forall i, j | 0 <= i < j < 4 ensures Less(expected[i], expected[j]) {
      if j > i + 1 {
        LessTransitive(expected[i], expected[i + 1], expected[j]);
      }
    }
    AscendingUnique(SortedSet(Flatten(ms)), expected);
  }

  // ------------------------------------------------------------------ closest

  /** A distance, in the order (query lat, query lng, row lat, row lng). */
  type DistanceFn = (real, real, real, real) -> real

  function DistanceTo(dist: DistanceFn, lat: real, lng: real, m: MemoryRecord): real {
    dist(lat, lng, Degrees(m.latE8), Degrees(m.lngE8))
  }

  /** Row `k` is nearest, and every earlier row is strictly farther. */
  ghost predicate FirstNearest(ms: seq<MemoryRecord>, k: int, dist: DistanceFn, lat: real, lng: real) {
    0 <= k < |ms| &&
    (forall j :: 0 <= j < |ms| ==> DistanceTo(dist, lat, lng, ms[k]) <= DistanceTo(dist, lat, lng, ms[j])) &&
    (forall j :: 0 <= j < k ==> DistanceTo(dist, lat, lng, ms[k]) < DistanceTo(dist, lat, lng, ms[j]))
  }

  /** At most one row is the first nearest. */
  lemma FirstNearestUnique(ms: seq<MemoryRecord>, k1: int, k2: int, dist: DistanceFn, lat: real, lng: real)
    requires FirstNearest(ms, k1, dist, lat, lng) && FirstNearest(ms, k2, dist, lat, lng)
    ensures k1 == k2
  {
    var d1, d2 := DistanceTo(dist, lat, lng, ms[k1]), DistanceTo(dist, lat, lng, ms[k2]);
    assert k1 < k2 ==> d2 < d1;
    assert k2 < k1 ==> d1 < d2;
  }

  /** `min_distance`, which starts at `float('inf')`. */
  datatype Bound = Infinity | Finite(value: real)

  predicate Below(d: real, b: Bound) {
    b.Infinity? || d < b.value
  }

  /** The loop of `get_closest_memory_view` over the user's rows: a row
      replaces the current choice only when strictly closer, so the first row
      at the minimum distance is kept. */
  method ScanClosest(memories: seq<MemoryRecord>, lat: real, lng: real, dist: DistanceFn)
    returns (closest: Option<MemoryRecord>)
    ensures closest.None? <==> memories == []
    ensures closest.Some? ==>
      exists k :: FirstNearest(memories, k, dist, lat, lng) && memories[k] == closest.value
  {
    closest := None;
    var minDistance := Infinity;
    ghost var best := 0;
    for i := 0 to |memories|
      invariant closest.None? <==> i == 0
      invariant minDistance.Infinity? <==> i == 0
      invariant i > 0 ==> best < i && closest == Some(memories[best]) &&
                          minDistance == Finite(DistanceTo(dist, lat, lng, memories[best]))
      invariant i > 0 ==> forall j :: 0 <= j < i ==> minDistance.value <= DistanceTo(dist, lat, lng, memories[j])
      invariant i > 0 ==> forall j :: 0 <= j < best ==> minDistance.value < DistanceTo(dist, lat, lng, memories[j])
    {
      var distance := dist(lat, lng, Degrees(memories[i].latE8), Degrees(memories[i].lngE8));
      if Below(distance, minDistance) {
        minDistance := Finite(distance);
        closest := Some(memories[i]);
        best := i;
      }
    }
    if closest.Some? {
      assert FirstNearest(memories, best, dist, lat, lng);
    }
  }

  /** `get_closest_memory_view`: both coordinates are required and must be
      numbers; a user without rows gets no memory. */
  method ClosestMemoryView(table: seq<MemoryRecord>, user: nat, latP: Param, lngP: Param, dist: DistanceFn)
    returns (r: Result<Option<MemoryRecord>, QueryError>)
    ensures r == Failure(CoordinatesRequired) <==> Blank(latP) || Blank(lngP)
    ensures r == Failure(InvalidCoordinateFormat) <==>
      !Blank(latP) && !Blank(lngP) &&
      (ParseDecimal(latP.value).None? || ParseDecimal(lngP.value).None?)
    ensures r.Success? <==>
      !Blank(latP) && !Blank(lngP) && ParseDecimal(latP.value).Some? && ParseDecimal(lngP.value).Some?
    ensures r.Success? ==> (r.value.None? <==> OwnedBy(table, user) == [])
    ensures r.Success? && r.value.Some? ==>
      exists k :: FirstNearest(OwnedBy(table, user), k, dist,
                               ParseDecimal(latP.value).value, ParseDecimal(lngP.value).value) &&
                  OwnedBy(table, user)[k] == r.value.value
  {
    if Blank(latP) || Blank(lngP) {
      return Failure(CoordinatesRequired);
    }
    var targetLat, targetLng := ParseDecimal(latP.value), ParseDecimal(lngP.value);
    if targetLat.None? || targetLng.None? {
      return Failure(InvalidCoordinateFormat);
    }
    var memories := OwnedBy(table, user);
    if |memories| == 0 {
      return Success(None);
    }
    var closest := ScanClosest(memories, targetLat.value, targetLng.value, dist);
    r := Success(closest);
  }
}
