# MemoryMap query engine in Dafny

This project models the query engine of the MemoryMap Django backend. The
backend stores geotagged "memories": a title, free-form tags and a latitude and
longitude with 8 decimal places. Users search their memories in four ways.

- By location: every memory inside an inclusive square of half-width
  `tolerance` degrees around a point. The tolerance defaults to 0.001.
- By tag: every memory with a tag that contains the query as a substring,
  ignoring case.
- All tags: every distinct tag of the user, in code-point order.
- Closest: the memory nearest to a point under a distance function. The first
  one met wins a tie.

The `Memory` model also has three helpers for its JSON `tags` column:
`get_tags_list`, `add_tag` and `remove_tag`.

Files and modules:

- `wrappers.dfy` (`Wrappers`): `Option` and `Result`.
- `seqs.dfy` (`Seqs`): order-preserving `Filter`, the subsequence relation `IsSubseq` and `NoDups`.
- `text.dfy` (`Text`): ASCII `Lower` and the substring test `Contains` (Python's `in`).
  Also Python's string order `Less` and `SortedSet`, which models `sorted(list(set(xs)))`.
- `decimals.dfy` (`Decimals`): `ParseDecimal` models `Decimal(text)` / `float(text)` on query parameters.
  `RenderE8` writes a stored coordinate with its 8 decimals.
- `models.dfy` (`Models`): the `tags` value `TagsJson` and the row value `MemoryRecord`.
  The class `Memory` updates `tags` in place with `AddTag` and `RemoveTag`.
- `views.dfy` (`Views`): the four query views.
  Each view takes the whole table and the requesting user's id.
  It keeps that user's rows, as the ORM filter `user=request.user` does.

Stored coordinates are integers scaled by 10^8. This is exact for a
`DecimalField` with 8 decimal places. Query values are reals.

The distance function is a parameter of the closest-memory view.
The views return the selected rows and leave serialisation out.

The model follows the code on these points:

- Only an empty tag query is rejected. A query of blanks is accepted and
  searched for as a substring.
- The tolerance is never checked for sign. A negative tolerance selects
  nothing (`NegativeToleranceSelectsNothing`), and a zero tolerance selects
  exact matches.
- Results keep the order of the table they are given; the store's
  newest-first ordering is part of that input.

## Model

| member | source | states |
|---|---|---|
| `Seqs.Filter` | BackEnd/Nothing/memories/views.py:127-131 | the list built by appending each element that passes the test: no longer than the input, and an element is in it iff it is in the input and passes |
| `Seqs.FilterIsSubseq` | BackEnd/Nothing/memories/views.py:127-131 | the appended list keeps the input's order (it is a subsequence) |
| `Seqs.SubseqTransitive` | BackEnd/Nothing/memories/views.py:98-104 | a subsequence of the user's rows is a subsequence of the whole table |
| `Text.Lower` | BackEnd/Nothing/memories/views.py:112 | ASCII lowercasing keeps the length of the string |
| `Text.LowerAt` | BackEnd/Nothing/memories/views.py:129 | lowercasing maps each character on its own (ASCII A-Z to a-z) |
| `Text.LowerProperties` | BackEnd/Nothing/memories/views.py:129 | a lowercased tag holds no ASCII upper-case letter, and lowercasing twice equals lowercasing once |
| `Text.ContainsIff` | BackEnd/Nothing/memories/views.py:130 | the scan for `tag in memory_tag` succeeds iff the query occurs in the tag at some position |
| `Text.LessIrreflexive` | BackEnd/Nothing/memories/views.py:146 | no string sorts before itself |
| `Text.LessTransitive` | BackEnd/Nothing/memories/views.py:146 | the string order used by `sorted` is transitive |
| `Text.LessTotal` | BackEnd/Nothing/memories/views.py:146 | of two distinct strings, one sorts before the other |
| `Text.LessAsymmetric` | BackEnd/Nothing/memories/views.py:146 | two strings never sort before each other |
| `Text.AscendingHasNoDups` | BackEnd/Nothing/memories/views.py:146 | a strictly ascending list of tags has no duplicates |
| `Text.InsertKeepsAscending` | BackEnd/Nothing/memories/views.py:146 | inserting a tag into an ascending list keeps it ascending, and the elements become the old ones plus that tag |
| `Text.SortedSet` | BackEnd/Nothing/memories/views.py:146 | `sorted(list(set(xs)))` is strictly ascending and holds exactly the elements of `xs` |
| `Text.AscendingUnique` | BackEnd/Nothing/memories/views.py:146 | two strictly ascending lists with the same elements are equal, so any correct sort of the set gives this result |
| `Decimals.ParseDecimalChars` | BackEnd/Nothing/memories/views.py:87-95 | `Decimal(text)` (and `float(text)` at views.py:161-168) on a plain literal: text that is accepted consists of digits and points, with at most a leading '+' or '-' besides; anything else is the exception the views report as "Invalid coordinate format" |
| `Decimals.NegativeNeedsMinus` | BackEnd/Nothing/memories/views.py:87-95 | in the plain-literal grammar, text reads as a negative number only when it starts with '-' |
| `Decimals.NoDigitNoNumber` | BackEnd/Nothing/memories/views.py:87-95 | in the plain-literal grammar, text without a digit is never accepted as a number |
| `Decimals.DefaultToleranceValue` | BackEnd/Nothing/memories/views.py:79 | the default tolerance text "0.001" reads as 0.001 |
| `Decimals.DigitsValueAppend` | BackEnd/Nothing/memories/models.py:28-29 | the digits of a concatenation are worth the first part shifted by the second's length plus the second |
| `Decimals.UnsignedRoundTrip` | BackEnd/Nothing/memories/models.py:28-29 | a non-negative stored coordinate written with 8 decimals starts with a digit and reads back as its value |
| `Decimals.RenderRoundTrip` | BackEnd/Nothing/memories/models.py:28-29 | any stored coordinate written with its 8 decimals (and a '-' when negative) reads back as exactly that coordinate |
| `Models.TagsJson.GetTagsList` | BackEnd/Nothing/memories/models.py:45-49 | `get_tags_list` returns the list unchanged when `tags` holds a list, and `[]` for any other JSON value |
| `Models.RemoveAt` | BackEnd/Nothing/memories/models.py:58-61 | when `t` first occurs at position i, `list.remove(t)` gives the tags before i followed by the tags after i |
| `Models.RemoveFirstDeletesFirst` | BackEnd/Nothing/memories/models.py:58-61 | `list.remove(t)` deletes the first occurrence of `t` and keeps the other tags in order |
| `Models.RemoveFirstKeepsNoDups` | BackEnd/Nothing/memories/models.py:58-61 | removing from a duplicate-free list keeps it duplicate-free, removes `t` entirely and keeps every other tag |
| `Models.RemoveAppended` | BackEnd/Nothing/memories/models.py:55-61 | removing a tag just appended to a list without it gives back that list |
| `Models.WithTagKeepsNoDups` | BackEnd/Nothing/memories/models.py:53-56 | `add_tag` keeps a duplicate-free tag list duplicate-free |
| `Models.AddThenRemove` | BackEnd/Nothing/memories/models.py:51-61 | on a list without `t`, `add_tag(t)` then `remove_tag(t)` restores `tags` exactly |
| `Models.Memory.constructor` | BackEnd/Nothing/memories/models.py:21-33 | a new memory has the given id, owner, coordinates and tags |
| `Models.Memory.AddTag` | BackEnd/Nothing/memories/models.py:51-56 | afterwards `tags` is a list holding `t`. It is unchanged if `t` was present. Otherwise `t` is appended after the old entries in order. A non-list value becomes `[t]`. No duplicates appear |
| `Models.Memory.RemoveTag` | BackEnd/Nothing/memories/models.py:58-61 | on a list holding `t`, exactly the first occurrence is deleted and the rest keeps its order. Otherwise nothing changes. A duplicate-free list stays so and loses `t` |
| `Models.AddThenRemoveTag` | BackEnd/Nothing/memories/models.py:51-61 | on an object whose duplicate-free list lacks `t`, adding and then removing `t` leaves `tags` as it was |
| `Views.OwnedBy` | BackEnd/Nothing/memories/views.py:98-99 | the user's rows: exactly the table rows owned by the user, in table order |
| `Views.WithinBox` | BackEnd/Nothing/memories/views.py:98-104 | a row is kept iff `lat-tol <= lat' <= lat+tol` and `lng-tol <= lng' <= lng+tol` (edges included), in order |
| `Views.LocationView` | BackEnd/Nothing/memories/views.py:76-107 | a missing or empty lat or lng gives "lat and lng parameters are required". Otherwise a non-numeric lat, lng or tolerance gives "Invalid coordinate format". The view succeeds exactly when neither error applies, and then a row is returned iff it is the user's and lies in the inclusive square, in table order |
| `Views.DefaultTolerance` | BackEnd/Nothing/memories/views.py:79-104 | when the tolerance parameter is omitted, the rows returned are exactly the user's rows in the square of half-width 0.001 |
| `Views.NegativeToleranceSelectsNothing` | BackEnd/Nothing/memories/views.py:100-103 | a negative tolerance, which the view does not reject, selects no row |
| `Views.OwnCoordinatesFindRow` | BackEnd/Nothing/memories/views.py:87-104 | querying with a row's own coordinates, written with 8 decimals, and any non-negative tolerance returns that row |
| `Views.SampleLocationQuery` | BackEnd/Nothing/memories/views.py:98-104 | around (25.1234, 80.5678) with tolerance 0.001, of rows at (25.1234, 80.5678) and (25.2, 80.6) only the first is found |
| `Views.TagSearchView` | BackEnd/Nothing/memories/views.py:109-134 | an absent or empty query gives "tag parameter is required". Otherwise the result is the user's rows with a tag whose lowercase form contains the lowercased query, in table order |
| `Views.CaseInsensitiveMatch` | BackEnd/Nothing/memories/views.py:112-130 | a row tagged "Vacation2024" matches the query "VACATION" |
| `Views.SampleTagQuery` | BackEnd/Nothing/memories/views.py:127-131 | the query "li" keeps the row tagged "test", "list" and drops the row tagged "other" |
| `Views.FlattenMembers` | BackEnd/Nothing/memories/views.py:140-143 | a tag is in the extended list iff some row carries it |
| `Views.AllTagsView` | BackEnd/Nothing/memories/views.py:136-147 | the result is strictly ascending (hence duplicate-free) and holds exactly the tags of the user's rows |
| `Views.CaseSensitiveListing` | BackEnd/Nothing/memories/views.py:146 | tags "Vacation", "beach" and "vacation", "sun" list as "Vacation", "beach", "sun", "vacation": case variants stay distinct |
| `Views.FirstNearestUnique` | BackEnd/Nothing/memories/views.py:185-187 | at most one row is the first at minimum distance, so the choice is determined |
| `Views.ScanClosest` | BackEnd/Nothing/memories/views.py:175-187 | no row is chosen iff there are no rows. Otherwise the chosen row is in the list, no row is closer, and every earlier row is strictly farther (first-seen wins ties) |
| `Views.ClosestMemoryView` | BackEnd/Nothing/memories/views.py:151-193 | same coordinate errors as the location view (tolerance aside), and success exactly when neither applies. Then no memory iff the user has no rows, else the user's first row at minimum distance from the query point |

## Left out

- `calculate_distance` (the Haversine formula with radius 6371 km) is not modelled. The closest-memory view takes the distance function as a parameter, so properties of the formula (symmetry, zero distance to itself, triangle inequality) are not stated.
- Views.ClosestMemoryView: floating point is left out. The view reads its coordinates with the same exact parser as the location view, where the source uses `float`. Rounding is not modelled, and neither is a NaN distance. A NaN would never compare below `min_distance`, so the source could answer `None` for a non-empty collection.
- Views.LocationView: Decimal arithmetic is exact in the model. Python rounds `lat - tolerance` and `lat + tolerance` to 28 significant digits, which matters only for longer inputs.
- Decimals.NegativeNeedsMinus: holds of the plain-literal grammar only. `Decimal` and `float` strip surrounding whitespace, so they read " -5" as negative, while the model rejects that text.
- Decimals.NoDigitNoNumber: holds of the plain-literal grammar only. `Decimal` and `float` accept the digit-free "NaN", "Infinity" and "inf", which the model rejects.
- Decimals.ParseDecimal: accepts plain literals only: an optional sign, digits and an optional point. Exponents, "NaN"/"Infinity", surrounding whitespace, underscores and non-ASCII digits, which `Decimal` and `float` also accept, are rejected by the model.
- Views.TagSearchView: the database prefilter `tags__icontains` is not modelled. The model assumes it keeps every row the Python filter keeps. That holds for tags that JSON encoding does not escape.
- Text.Lower: folds ASCII A-Z only; the rest of Unicode case mapping is not modelled.
- A tags list holding non-string entries is not modelled. The source would fail on `.lower()` for such an entry.
- The `max_digits` bounds of the coordinate fields are not enforced.
- The other Memory fields (title, description, uploaded_by, timestamps, file data) are not carried, since no query reads them. Serialisation of the results is left out too.
- Left out as framework glue or I/O:
  - registration, login, profile and JWT issuance;
  - file upload;
  - the generic list/detail views and the serializers;
  - URL routing;
  - the Express/Mongoose server;
  - the Selenium UI tests.
