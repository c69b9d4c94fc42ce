# Time-range query extents and byte-range headers

This project models two sequential pieces of a caching reverse proxy for
time-series queries, and proves properties of the model.

1. **Time-range queries** (`timeseries.dfy`, module `Timeseries`). An
   `Extent` is a closed interval `[start, end]` of epoch seconds. A
   `TimeRangeQuery` is a class holding a statement, an extent, a step in
   seconds and an origin request template. `NormalizeExtent(now)` works in
   place: it clamps the end to `now`, then floors both edges to the step
   grid. `CalculateDeltas(have)` walks the grid points `start, start+step,
   …, end` of the extent. It keeps the points that no covered extent
   contains and groups consecutive ones into extents: the sub-ranges that
   still have to be fetched. `Clone` makes an independent copy. `String`
   renders the canonical text `{ "statement": …, "step": "5s", "extent":
   "5-10" }`. `NormalizeExtent` and `CalculateDeltas` are specified by
   functions (`Normalize`, `Deltas`). The lemmas prove what the deltas mean:
   they lie inside the extent and their edges are grid points. They come in
   order with a gap between neighbours. They hold only uncovered grid points,
   and all of them. The tabled cases of the package's tests are proved as
   lemmas.
2. **The byte-range simulator's headers** (`rangesim.dfy`, module
   `RangeSim`). `ParseRangeHeader` parses a `Range: bytes=…` value, a
   simplified byte-ranges-specifier of section 2.1 of RFC 7233. `Validate`
   checks the parsed ranges against the 1222-byte body. `ContentRangeHeader`
   renders a `Content-Range` value as in section 4.2 of RFC 7233. A missing
   side of a range is the sentinel -1, which never validates. A parsing round
   trip is proved for non-empty lists of ranges. Each side must be -1 or a
   non-negative int64. Parsing the header written for such a list gives back
   that list. The empty list is written as the bare `bytes=`, which the
   parser rejects.
   The parser reads an explicit end of `-1` exactly as an empty end: `5--1`
   and `5-` both give the range (5, -1) (`ExplicitMinusOneEnd`). Both fail
   validation, so the server answers them alike.

`decimal.dfy` (module `Decimal`) models the number conversions both parts
use: Go's `%d` and `strconv.ParseInt(s, 10, 64)`. `wrappers.dfy` holds the
`Option` type; `None` stands for Go's `nil` result.

The implementation of the timeseries package is not part of this model.
Its behaviour is taken from its tests, `internal/timeseries/timerangequery_test.go`,
and from the description of the extent algebra the package is built on:

- A grid point is missing when no covered extent `[c.start, c.end]` contains
  it, whatever the order of the covered list.
- Normalisation uses floor division (Dafny's `/` with a positive divisor).
  The test's expected value at line 84 uses Go's truncating `/` on a positive
  clock, where the two agree.
- The extent algebra describes the delta calculation as a cursor over a
  sorted, compressed covered list; the implementation itself is not among
  the source files. This model follows a walk over the grid points
  instead. Both give the tabled results. They differ in two places:
  - When a covered edge falls between grid points, the cursor cuts deltas at
    that edge. The grid walk cuts them at grid points, and it never reports a
    grid point inside a covered extent.
  - For an empty covered list, the cursor returns the whole extent as one
    delta, even an inverted one. The grid walk returns no delta for an
    inverted extent, such as (20, 10) with step 10.
- An inverted extent is not turned into a special empty value. It has no grid
  points, so its delta list is empty whatever the covered list
  (`DeltasInverted`).

## Model

| member | source | states |
|---|---|---|
| `Decimal.NatToString` | pkg/rangesim/rangesim.go:90 | `%d` of a non-negative value: non-empty, digits only, no leading zero, and it denotes the value again |
| `Decimal.IntToString` | pkg/rangesim/rangesim.go:90 | `%d` of any int: the digits of a non-negative value denote it; a negative value is a minus sign before the digits of its magnitude; the digits never start with a zero unless the magnitude is 0 |
| `Decimal.ParseInt` | pkg/rangesim/rangesim.go:135-145 | `strconv.ParseInt` base 10, 64 bits: a result is an int64, is non-negative unless the text starts with `-`, and comes only from text that is one optional sign followed by digits |
| `Decimal.ParseIntOfNumeral` | pkg/rangesim/rangesim.go:135-145 | any optional sign plus digits, canonical or not (`007`, `+5`), gives its signed value when that fits in an int64, and fails when it is out of range |
| `Decimal.ParseIntOfIntToString` | pkg/rangesim/rangesim.go:135-145 | every int64 rendered in decimal parses back to itself |
| `Decimal.ParseIntOfNatToString` | pkg/rangesim/rangesim.go:135-145 | the same round trip for the non-negative values the range syntax writes |
| `Decimal.ParseIntRejects` | pkg/rangesim/rangesim.go:135-145 | the empty text, a lone sign, and any text holding a non-digit other than one leading sign fail to parse |
| `Timeseries.Floor` | internal/timeseries/timerangequery_test.go:97-101 | the result is the grid point at or below `t`: a multiple of the step, within one step of `t` |
| `Timeseries.Normalize` | internal/timeseries/timerangequery_test.go:83-108 | both edges land on the step grid; start is floored; the end lies at or below both the requested end and `now` and within one step of the smaller |
| `Timeseries.NormalizeIdempotent` | internal/timeseries/timerangequery_test.go:91-102 | normalising a normalised extent changes nothing |
| `Timeseries.NormalizeGridStable` | internal/timeseries/timerangequery_test.go:97-102 | extents whose edges fall in the same grid cells normalise to the same extent |
| `Timeseries.NormalizeTable` | internal/timeseries/timerangequery_test.go:86-109 | `(1,100)` step 1 stays; `(1,103)` step 10 becomes `(0,100)`; an end of tomorrow becomes `(now/10)*10` with start 0 |
| `Timeseries.TimeRangeQuery.constructor` | internal/timeseries/timerangequery_test.go:114 | a query holds exactly the statement, extent, step and template it was built from |
| `Timeseries.TimeRangeQuery.NormalizeExtent` | internal/timeseries/timerangequery_test.go:114-121 | in place, the extent becomes `Normalize(old extent, step, now)`; no other field changes |
| `Timeseries.TimeRangeQuery.CalculateDeltas` | internal/timeseries/timerangequery_test.go:60-62 | the grid walk returns exactly `Deltas(extent, step, have)` |
| `Timeseries.FindCovering` | internal/timeseries/timerangequery_test.go:40-54 | true iff some covered extent contains the timestamp |
| `Timeseries.RunsBounds` | internal/timeseries/timerangequery_test.go:64-76 | runs lie between the first and last grid point walked, and each ends more than one step before the next starts |
| `Timeseries.RunsUncovered` | internal/timeseries/timerangequery_test.go:50-54 | no grid point inside a run is covered |
| `Timeseries.RunsComplete` | internal/timeseries/timerangequery_test.go:35-49 | every uncovered grid point lies in some run |
| `Timeseries.DeltasSpec` | internal/timeseries/timerangequery_test.go:64-76 | deltas lie inside the extent with both edges on the step grid, ascend by start with a gap, hold only uncovered grid points and hold all of them |
| `Timeseries.RunsOnGrid` | internal/timeseries/timerangequery_test.go:64-76 | both edges of every run are grid points of the walk |
| `Timeseries.GridPointsMissing` | internal/timeseries/timerangequery_test.go:40-54 | a grid point inside a delta is covered by no extent of the covered list |
| `Timeseries.DeltasMissGridCovered` | internal/timeseries/timerangequery_test.go:40-54 | for any step, no delta overlaps a covered extent that starts on the query's grid |
| `Timeseries.DeltasDisjointUnitStep` | internal/timeseries/timerangequery_test.go:50-54 | with a one-second step no timestamp of a delta is inside a covered extent |
| `Timeseries.DeltasInverted` | internal/timeseries/timerangequery_test.go:26-28 | an extent whose start is after its end has no deltas, whatever the covered list |
| `Timeseries.RunsNoneCovered` | internal/timeseries/timerangequery_test.go:35-39 | uncovered grid points form one run from the first to the last |
| `Timeseries.RunsCoveredTail` | internal/timeseries/timerangequery_test.go:50-54 | covered grid points add no run |
| `Timeseries.DeltasNothingCovered` | internal/timeseries/timerangequery_test.go:35-39 | with nothing covered the delta is the whole extent, up to its last grid point |
| `Timeseries.DeltasOfNormalizedEmptyCover` | internal/timeseries/timerangequery_test.go:35-39 | with nothing covered, a normalised extent whose start is not after its end is its own single delta, for every step and clock |
| `Timeseries.CalculateDeltasEmptyCover` | internal/timeseries/timerangequery_test.go:35-39 | `[1,100]` against nothing gives `[[1,100]]` |
| `Timeseries.CalculateDeltasGapBefore` | internal/timeseries/timerangequery_test.go:40-44 | `[1,100]` against `[[50,100]]` gives `[[1,49]]` |
| `Timeseries.CalculateDeltasGapsAround` | internal/timeseries/timerangequery_test.go:45-49 | `[1,101]` against `[[50,100]]` gives `[[1,49],[101,101]]` in that order |
| `Timeseries.CalculateDeltasCoveredPrefix` | internal/timeseries/timerangequery_test.go:50-54 | `[1,101]` against `[[1,100]]` gives `[[101,101]]` |
| `Timeseries.DurationString` | internal/timeseries/timerangequery_test.go:139 | a whole-second duration ends in `s`; under a minute it is the decimal count of seconds then `s` |
| `Timeseries.TimeRangeQuery.Clone` | internal/timeseries/timerangequery_test.go:128-135 | a fresh query equal to the original in every field, template included |
| `Timeseries.TimeRangeQuery.String` | internal/timeseries/timerangequery_test.go:137-148 | the text opens with the statement and the step key, holds the step with its unit (`DurationString`) in between, and closes with the extent text `start-end` |
| `Timeseries.ExtentTextRoundTrip` | internal/timeseries/timerangequery_test.go:139 | the extent text determines the extent: for a start that is not negative, the first `-` separates the edges and each parses back |
| `Timeseries.CloneIsIndependent` | internal/timeseries/timerangequery_test.go:128-135 | the clone equals the original, and normalising the clone leaves the original's extent as it was |
| `Timeseries.CalculateDeltasExamples` | internal/timeseries/timerangequery_test.go:26-28 | a query built, normalised and asked for deltas gives `[[1,49],[101,101]]`; the inverted query of the test returns no deltas |
| `Timeseries.StringTable` | internal/timeseries/timerangequery_test.go:137-148 | statement `1234`, step 5 s, extent `[5,10]` render exactly `{ "statement": "1234", "step": "5s", "extent": "5-10" }` |
| `RangeSim.RemoveSpaces` | pkg/rangesim/rangesim.go:119 | the result holds no space and text without spaces is unchanged |
| `RangeSim.RemoveSpacesPrefix` | pkg/rangesim/rangesim.go:119 | removing spaces from a value with the `bytes=` prefix keeps that prefix in front |
| `RangeSim.IndexOf` | pkg/rangesim/rangesim.go:125 | -1 iff the character is absent, otherwise the position of its first occurrence |
| `RangeSim.Split` | pkg/rangesim/rangesim.go:120 | at least one part, none holding the separator, and the parts join back to the input |
| `RangeSim.SplitJoin` | pkg/rangesim/rangesim.go:120 | splitting the join of separator-free parts gives the parts back |
| `RangeSim.ParseRangeSpec` | pkg/rangesim/rangesim.go:125-146 | a part without `-`, or holding a character that is neither a digit nor a sign, is rejected; a parsed start is -1 exactly when the part starts with `-`, and is never below -1; a part ending in `-` has end -1 |
| `RangeSim.SidesReject` | pkg/rangesim/rangesim.go:134-146 | with the first `-` at `j`, a stray character makes the start or the end text fail to parse, and so does a second `-` at the end |
| `RangeSim.ExplicitMinusOneEnd` | pkg/rangesim/rangesim.go:130-146 | `5--1` parses exactly as `5-`: an explicit end of -1 is the empty-end sentinel |
| `RangeSim.ParseSpecs` | pkg/rangesim/rangesim.go:121-152 | a list iff every part parses, then one range per part in order; never a partial list |
| `RangeSim.RangeHeader` | pkg/rangesim/rangesim.go:113-153 | an accepted value yields at least one range |
| `RangeSim.ParseRangeHeader` | pkg/rangesim/rangesim.go:113-120 | the parser returns exactly `RangeHeader(input)` |
| `RangeSim.ParseParts` | pkg/rangesim/rangesim.go:121-152 | the loop over the parts returns exactly `ParseSpecs(parts)` |
| `RangeSim.ParsePart` | pkg/rangesim/rangesim.go:125-149 | the loop body for one part returns exactly `ParseRangeSpec(p)` |
| `RangeSim.ParseSpecsRejected` | pkg/rangesim/rangesim.go:126-145 | one rejected part makes the whole list nil |
| `RangeSim.ParseSpecsAccepted` | pkg/rangesim/rangesim.go:148-152 | parts that all parse give the list of their ranges |
| `RangeSim.Validate` | pkg/rangesim/rangesim.go:75-82 | true iff every range has `0 <= start <= end < 1222`; an empty list is valid |
| `RangeSim.ContentLengthText` | pkg/rangesim/rangesim.go:29 | the body length renders as `1222` |
| `RangeSim.ContentRangeHeader` | pkg/rangesim/rangesim.go:89-91 | the value starts with `bytes ` and ends with `/1222` |
| `RangeSim.RangeSpecText` | pkg/rangesim/rangesim.go:130-146 | the request syntax of a range holds no space and no comma |
| `RangeSim.ParseRangeSpecRoundTrip` | pkg/rangesim/rangesim.go:125-149 | parsing the request text of a range with sides -1 or int64 gives the range back |
| `RangeSim.RangeHeaderRoundTrip` | pkg/rangesim/rangesim.go:113-153 | parsing the header written for a non-empty list of such ranges gives the list back in order |
| `RangeSim.RangeHeaderIgnoresSpaces` | pkg/rangesim/rangesim.go:119 | spaces after the prefix never change the result |
| `RangeSim.RangeHeaderRejectsForm` | pkg/rangesim/rangesim.go:115-118 | nil for the empty value, for `items=0-5` and for the bare `bytes=` |
| `RangeSim.RangeHeaderRejectsUnit` | pkg/rangesim/rangesim.go:115-118 | nil for any value not starting with `bytes=` |
| `RangeSim.RangeHeaderRejects` | pkg/rangesim/rangesim.go:120-146 | nil for any list with one rejected part, however well formed the others are |
| `RangeSim.RemoveSpacesKeeps` | pkg/rangesim/rangesim.go:119 | removing spaces keeps every character that is not a space |
| `RangeSim.RangeHeaderRejectsStray` | pkg/rangesim/rangesim.go:119-146 | a character after `bytes=` that is no digit, sign, space or comma makes the whole value nil |
| `RangeSim.OpenEndedRange` | pkg/rangesim/rangesim.go:130-146 | `bytes=500-` parses to `[(500,-1)]`, which does not validate |
| `RangeSim.SuffixRange` | pkg/rangesim/rangesim.go:130-146 | `bytes=-500` parses to `[(-1,500)]`, which does not validate |
| `RangeSim.SeveralRanges` | pkg/rangesim/rangesim.go:120-123 | `bytes=0-9,500-` parses to two ranges in input order |
| `RangeSim.ContentRangeOfSatisfiable` | pkg/rangesim/rangesim.go:89-91 | for a valid range the value is `bytes `, the range in request syntax, then `/1222`, and that middle parses back to the range |
| `RangeSim.ContentRangeExample` | pkg/rangesim/rangesim.go:89-91 | bytes 0 to 99 render as `bytes 0-99/1222` |
| `RangeSim.SatisfiableWithinBody` | pkg/rangesim/rangesim.go:107 | a validated range has `0 <= start < end + 1 <= 1222`, the bounds of the slice `[start, end + 1)`; the body text is not modelled, so in-bounds rests on the Body literal (rangesim.go:39-58) being 1222 bytes long, which counting its text confirms |

## Left out

- The clock: `time.Now` is the parameter `now` of `NormalizeExtent`.
- Timestamps are whole seconds. Sub-second parts of `time.Time` and of the step are not modelled.
- `Timeseries.DurationString`: models Go's `Duration.String` only for whole seconds. Fractional forms (`ms`, `µs`) are not modelled.
- `Timeseries.TimeRangeQuery.Clone`: the template URL is an immutable value, so a copy is a deep copy by construction. Aliasing through a shared `*url.URL` is not modelled.
- The Go zero-value `Extent{}` in the inverted-extent test is written `Extent(0, 0)`. An inverted extent walks no grid points, so no covered extent is ever inspected.
- A non-positive step: `NormalizeExtent` and `CalculateDeltas` require a positive step. With a zero step a grid walk would never advance.
- `writeMultipartResponse` writes through an `io.Writer` with the `mime/multipart` library, so it is I/O and is left out. The body text, the `Last-Modified` time and the cache-control constants are left out with it.
- `RangeSim.ParseRangeHeader`: the loop over the parts is the separate method `ParseParts`. `strings.Replace`, `strings.Split` and `strings.Index` are modelled for the single characters the parser uses.
- `Decimal.ParseInt`: failures are only `None`. The error values and messages of `strconv.ParseInt` are not modelled.
- Extent-list compression and cropping, fetching from the origin, merging samples, the cache store and index, fast-forward and backfill policies, per-key serialisation and fetch timeouts are not part of this model. Their code is not among the source files, and they are driven by I/O and concurrency.
- Configuration loading (`internal/config`) and the ping handler (`internal/proxy/handlers`) are not part of this model.
- `Timeseries.Deltas`: follows the grid walk, not the cursor over a sorted, compressed covered list that the extent algebra describes (the package's implementation is not available to compare with). The two differ when a covered edge falls between grid points, and for an inverted extent against an empty covered list (see above).
- `RangeSim.RangeHeaderRoundTrip`: proved only for non-empty lists whose sides are -1 or non-negative int64 values. An empty list writes the bare `bytes=`, which parses to nil. A negative end other than -1 (such as `5--3`) parses but is not written back in the same form.
