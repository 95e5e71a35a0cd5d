# Rooflayout: face-loop reconstruction

Rooflayout reads a roof survey document made of POINT, LINE and FACE/POLYGON
elements and turns it into drawable polygons. This project models the
table builders behind that conversion and proves properties of them:

- **`get_lines`** resolves each LINE's point ids against the point table into
  a coordinate path. Unknown point ids are dropped. The path is stored under
  the line id, and a later duplicate id overwrites an earlier one. The function
  is the same in `polygons.py`, `3D.py` and `lines.py`.
- **The chain-stitching `get_polygons`** comes from `polygons.py`; `3D.py`
  repeats it word for word. A polygon lists its line ids in no meaningful
  order, and the builder works through them like this:
  - It seeds the loop with the path of the first listed id.
  - It repeatedly scans the unused listed ids in order. It splices on the first
    line that starts at the current tail (laid forwards, minus its first point)
    or ends at it (laid reversed, minus its last point).
  - It stops when nothing matches.
  - Finally it closes the loop.
- **The naive `get_polygons` of `lines.py`** concatenates the resolved line
  paths. **`get_faces`** links each FACE to the polygon table entry of its
  first POLYGON child.

The modules are:

- `Survey` (`survey.dfy`) holds the typed element records, the table entries
  and the `Result` type.
- `LineTable` (`line_table.dfy`) models `get_lines`.
- `ChainStitch` (`chain_stitch.dfy`) specifies the stitching builder and holds
  its imperative model.
- `ChainProperties` (`chain_properties.dfy`) states what that builder promises.
- `NaiveCatalog` (`naive_catalog.dfy`) models the `lines.py` builder and
  linker.

Each builder loop is an imperative `method` proved equal to a specification
function. The properties are proved as lemmas about that function.

Coordinates are a type parameter `C`. The builders only ever compare
coordinates with `==` (the source joins lines on exact equality), so the
model does nothing else with them. Numeric attributes are `real`.

A resolvable, unused line whose resolved path is empty makes
`line_points[0]` raise `IndexError` (`polygons.py:92`). The exception leaves
the whole of `get_polygons`. The model returns this as the error outcome
`EmptyLinePath(lineId)`, and the polygon table builder propagates the first
such error.

## Model

| member | source | states |
|---|---|---|
| LineTable.Resolve | polygons.py:33-38 | the resolved path is never longer than the list of point ids, and it is exactly as long precisely when every id is in the point table |
| LineTable.ResolveSkipsMissing | polygons.py:34-38 | an unknown point id is dropped without disturbing the points before and after it; it never aborts the line |
| LineTable.ResolveConcat | 3D.py:35-40 | resolution keeps listed order: resolving a concatenation resolves each part in turn |
| LineTable.ResolveAllPresent | lines.py:36-41 | when every id resolves, position `i` of the path is the coordinate of the `i`-th listed point id |
| LineTable.ResolvePath | polygons.py:33-38 | the appending loop produces exactly `Resolve` of the ids |
| LineTable.ToLine | polygons.py:40-48 | a table entry holds the resolved path and the line's type, length, unit, pitch list, pitch unit and storey verbatim |
| LineTable.LineTableKeys | polygons.py:22-48 | the line table has exactly one key per line id in the document |
| LineTable.LineTableLastWins | lines.py:43-51 | for a duplicated line id the entry is built from the last LINE element carrying it |
| LineTable.GetLines | polygons.py:20-50 | the dictionary-filling loop produces the table of `LineTableOf`, whose keys and last-wins entries the two lemmas above describe (the same code is at 3D.py:22-52 and lines.py:23-53) |
| ChainStitch.Piece | polygons.py:92-102 | a forward splice appends the line without its first point; a reversed splice appends the line reversed without its last point; either way, its length minus one |
| ChainStitch.Scan | polygons.py:87-103 | the scan returns the first listed id that is unused, is in the table and touches the tail; the start is tested before the end (forward exactly when the start equals the tail); every id before it is passed over; a first qualifying line with an empty path is reported as the raising line |
| ChainStitch.FindNext | polygons.py:87-103 | the inner `for`/`break` scan returns exactly `Scan` from position 0 |
| ChainStitch.Close | polygons.py:109-110 | closure appends at most one point, keeps the path as a prefix, leaves an empty or already closed path unchanged, and yields a path whose first and last points are equal |
| ChainStitch.Stitch | 3D.py:111-112 | a non-empty stitched path starts and ends at the same coordinate |
| ChainStitch.SeedPath | polygons.py:73-80 | the seed path is the first listed line's full resolved path when the table has that id, and empty otherwise: no later id is tried as a seed |
| ChainStitch.SeedUsed | polygons.py:73-80 | the seed marks exactly the first listed id as used when the table has it, and nothing otherwise |
| ChainStitch.ChaseFrom | polygons.py:83-106 | the loop only extends: the used set only grows, and the path it ends with begins with the path it started from |
| ChainStitch.Chase | polygons.py:73-106 | the chase from the seed keeps the seed as a prefix of its path and the seed's id among the used ids |
| ChainStitch.StitchFace | polygons.py:66-110 | the seed, the `while` loop with its scan and the closure step produce exactly `Stitch`; each match extends the path by the splice's `Piece` (the source's `line_points[1:]` or `line_points[-2::-1]`), and a non-empty result is closed |
| ChainStitch.FailureSticks | polygons.py:91-92 | once a polygon's stitching raises, the build of the whole table ends with that error |
| ChainStitch.PolygonTableSucceeds | polygons.py:54-124 | the polygon table is built exactly when every polygon stitches without raising |
| ChainStitch.PolygonTableFailure | 3D.py:93-94 | a failed build reports the line of the first polygon in document order that raises; every earlier polygon stitched |
| ChainStitch.PolygonTableKeys | polygons.py:112-122 | a built table has exactly one key per polygon id |
| ChainStitch.PolygonTableLastWins | 3D.py:114-124 | for a duplicated polygon id the entry holds the stitched path and the metadata of the last element carrying it |
| ChainStitch.GetPolygons | polygons.py:52-124 | the builder's loop over the POLYGON elements yields exactly `PolygonTableOf` over each polygon's stitching outcome |
| ChainProperties.SpliceTail | polygons.py:92-102 | after a splice whose matched endpoint is the tail, the new tail is `line[-1]` for a forward splice and `line[0]` for a reversed one, and the path grew by the line's length minus one |
| ChainProperties.ChaseKeeps | polygons.py:83-106 | each iteration keeps the loop invariant: the splices are table lines laid end to end, the path is the seed plus their pieces, and one new id is used per splice |
| ChainProperties.ChaseStops | polygons.py:83-106 | the loop ends on an empty path, on every listed slot used, or on no unused listed line touching the tail; a raise names an unused listed table line with an empty path |
| ChainProperties.SeedUnresolved | polygons.py:73-83 | when the first listed id is not in the table, no other id is tried as a seed: the loop never runs and the path is empty, unclosed |
| ChainProperties.SeedPrefix | polygons.py:74-78 | when the first listed id resolves, the output begins with that line's full resolved path |
| ChainProperties.UsedOnce | polygons.py:83-106 | used ids are listed ids of the table; each splice adds one id that was not used before, so no id is used twice |
| ChainProperties.SpliceLengths | polygons.py:92-102 | before closure, the path length is the seed length plus the sum of (length − 1) over the spliced lines; closure adds at most one point |
| ChainProperties.SplicesJoined | 3D.py:94-105 | the first spliced line meets the seed's last point, each later one starts where the one before it ended, and the path ends at the last splice's exit |
| ChainProperties.BrokenChainKept | polygons.py:104-110 | when no unused listed line touches the tail, the partial path is kept: every listed id is passed over at the tail, and the result is that path closed |
| ChainProperties.CrashOnlyOnEmptyLine | polygons.py:90-92 | stitching raises only on a listed table line with an empty path, so it always succeeds when every listed table line has points |
| ChainProperties.UnresolvedForcesBreak | 3D.py:85-108 | unresolved listed ids are never used; with one of them, or with an id listed twice, the loop can only end through the no-continuation break (or not run at all) |
| ChainProperties.NoExtraClosure | 3D.py:111 | a path the loop leaves already closed gets no extra copy of its first point |
| ChainProperties.WorkedExample | 3D.py:76-112 | the square S1=A→B, S2=B→C, S3=D→C, S4=A→D listed in that order splices S2 forwards and S3, S4 reversed, stops with every line used and yields [A, B, C, D, A] with no point appended |
| ChainProperties.CycleChaseFrom | polygons.py:83-106 | on a simple cycle, a chase standing at the next vertex of the cycle makes one splice per remaining line, uses every line of the cycle, and stops because every slot is used, back at the first vertex |
| ChainProperties.CycleCompleteness | polygons.py:73-110 | when the listed lines form a simple cycle (distinct ids and vertices, the first listed line laid forwards), stitching uses every line, splices each line after the first exactly once, stops because every slot is used, and returns the chased path, already closed, with no point appended |
| ChainProperties.CycleOrderFrom | polygons.py:83-106 | on a simple cycle, a chase standing at the next vertex splices the remaining lines in cycle order, each laid in the direction the cycle runs; with two-point lines its path is then every vertex of the cycle once, followed by the first again |
| ChainProperties.CycleOrder | polygons.py:73-110 | on a simple cycle the splices after the seed are the cycle's lines in cycle order (splice m is line `cyc[m + 1]`); when every line is a two-point edge, the polygon is the cycle's vertices, each exactly once, then the first vertex again |
| ChainProperties.CycleListingIndependent | polygons.py:73-110 | two listings of the same simple cycle that start with the same line give the same polygon, whatever order the remaining lines are listed in |
| ChainProperties.OpenSquareChase | polygons.py:83-106 | the square without its fourth side, listed S1, S2, S3, splices S2 forwards and S3 reversed and stops with every listed line used at D |
| ChainProperties.MissingEdgeClosed | polygons.py:104-110 | for that open chain the "no continuation" break is never reached (the loop ends because every listed line is used), and closure supplies the unlisted side D→A: the result is [A, B, C, D, A] |
| Survey.PolygonOf | lines.py:76-86 | a polygon entry holds the given path and the element's size, units, pitch, orientation, type, material and storey verbatim |
| NaiveCatalog.Concatenated | lines.py:69-74 | the naive path invents no point: each of its points is on some listed line the table resolves; and every point of every such line is in it |
| NaiveCatalog.ConcatenatedSplit | lines.py:70-74 | the naive path keeps listed order: concatenating a split list concatenates the two parts |
| NaiveCatalog.UnresolvedContributesNothing | lines.py:70-74 | a line id missing from the table contributes nothing to the naive path |
| NaiveCatalog.ConcatenatedLength | lines.py:69-72 | the naive path is exactly as long as the listed lines' resolved paths together; nothing is removed at shared endpoints |
| NaiveCatalog.NotDeduplicatedNorClosed | lines.py:76-77 | lines 1-2 and 2-3 give 1, 2, 2, 3: the shared point is kept twice and the path is not closed |
| NaiveCatalog.ConcatenatePaths | lines.py:69-74 | the extending loop produces exactly the concatenation of the resolved paths |
| NaiveCatalog.PolygonTableKeys | lines.py:57-86 | the naive polygon table has exactly one key per polygon id |
| NaiveCatalog.PolygonTableLastWins | lines.py:76-86 | for a duplicated polygon id the entry is the naive path and verbatim metadata of the last element carrying it |
| NaiveCatalog.GetPolygons | lines.py:55-88 | the builder's loop yields exactly `PolygonTableOf` |
| NaiveCatalog.CatalogKeys | lines.py:96-106 | a face id has an entry exactly when some face with that id has a POLYGON child whose id is a key of the polygon table; other faces are omitted |
| NaiveCatalog.CatalogLastWins | lines.py:100-101 | a face id's entry is, unchanged, the polygon record of the last linking face with that id |
| NaiveCatalog.GetFaces | lines.py:90-108 | the linking loop yields exactly `CatalogOf` |

## Left out

- XML parsing (`ET.parse`, `findall`, attribute access), the `split(',')` of PATH attributes and the `float` conversions are left out. The builders take typed records whose PATH is already a list of ids. An empty PATH attribute splits to one empty id, so the `if polygon_path:` guard at polygons.py:73 is always true in the source. The model takes the list as given and also covers an empty list.
- `get_points` is left out. The point table is an input map.
- Every `print` diagnostic is console output and is left out. This includes the warnings for unknown points, lines and polygons, and the "no continuation" warning.
- The `print` after the loop at lines.py:52 refers to `line_id`. When a document has no LINE elements it would raise an unbound-name error. `LineTable.GetLines` returns the empty table in that case, because this is a diagnostic line rather than table logic.
- Floating-point semantics are not modelled. Coordinates are compared only with an abstract `==`, so NaN and signed zeros are not represented, and numeric attributes are `real`.
- Rendering is left out: reportlab PDF drawing, matplotlib 3D plotting, colour palettes, material colour maps and random colours. So are the module-level example invocations and `myproject/api/urls.py`.
- `get_polygons` has no fallback seed when the first listed line is unresolved, returns no list of diagnostics and flags no degenerate loop. The model follows the code in each of these.
- `IndexError` from an empty resolved line path is modelled as the error value `EmptyLinePath`, not as an exception. Any other exception the source could raise is out of scope, because the inputs are already typed: missing attributes and malformed numbers are among these.
- CycleListingIndependent: the lemma covers listings that share their first line. A listing that starts with another line of the cycle yields the same cycle from a different start vertex, perhaps in the other direction. The model does not state that rotation.
