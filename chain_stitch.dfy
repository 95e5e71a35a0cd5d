/**
 * The chain-stitching polygon builder (`get_polygons` of polygons.py, which
 * 3D.py repeats word for word).
 *
 * A face lists its line ids in no meaningful order. The builder seeds the loop
 * with the path of the first listed line, then repeatedly scans the unused
 * listed lines in order for the first whose start or end equals the current
 * tail, splices it on (forwards or reversed), stops when nothing matches, and
 * finally closes the loop.
 *
 * `Scan`, `ChaseFrom` and `Stitch` specify the builder; `StitchFace` is the
 * builder's loop, proved equal to `Stitch`; the lemmas state what the builder
 * promises.
 */
module ChainStitch {
  import opened Survey

  /** Which way a line is laid onto the loop. */
  datatype Direction = Forward | Reversed

  /** One splice made by the chase: the line chosen, its direction, and its resolved path. */
  datatype Splice<C> = Splice(id: string, dir: Direction, line: seq<C>)

  /** The outcome of one scan over the listed line ids. */
  datatype ScanResult = Match(at: nat, dir: Direction) | NoMatch | EmptyLine(at: nat)

  /** Why the chase stopped. */
  datatype Stop = EmptyPath | AllUsed | NoContinuation

  /** The final state of a chase, or the line whose empty path made `line_points[0]` raise. */
  datatype ChaseResult<C> =
    | Chased(path: seq<C>, splices: seq<Splice<C>>, used: set<string>, stop: Stop)
    | Crashed(lineId: string)

  function Last<C>(s: seq<C>): C
    requires |s| > 0
  {
    s[|s| - 1]
  }

  /** The elements of `s` in reverse order. */
  function Reverse<C>(s: seq<C>): (r: seq<C>)
    ensures |r| == |s|
    ensures forall i :: 0 <= i < |s| ==> r[i] == s[|s| - 1 - i]
  {
    if s == [] then [] else Reverse(s[1..]) + [s[0]]
  }

  /**
   * What a splice appends: the line without its first point when laid forwards
   * (`line_points[1:]`), or the line reversed without its last point when laid
   * reversed (`line_points[-2::-1]`).
   */
  function Piece<C>(line: seq<C>, dir: Direction): (r: seq<C>)
    requires |line| > 0
    ensures |r| == |line| - 1
    ensures dir == Forward ==> forall i :: 0 <= i < |r| ==> r[i] == line[i + 1]
    ensures dir == Reversed ==> forall i :: 0 <= i < |r| ==> r[i] == line[|line| - 2 - i]
  {
    match dir
    case Forward => line[1..]
    case Reversed => Reverse(line[..|line| - 1])
  }

  /** The endpoint of a spliced line that met the tail. */
  function Entry<C>(s: Splice<C>): C
    requires |s.line| > 0
  {
    if s.dir == Forward then s.line[0] else Last(s.line)
  }

  /** The endpoint of a spliced line that becomes the new tail. */
  function Exit<C>(s: Splice<C>): C
    requires |s.line| > 0
  {
    if s.dir == Forward then Last(s.line) else s.line[0]
  }

  /** Every spliced line has a non-empty path. */
  predicate NonEmptyLines<C>(splices: seq<Splice<C>>)
  {
    forall i :: 0 <= i < |splices| ==> |splices[i].line| > 0
  }

  /** The concatenated pieces of a run of splices, in order. */
  function Pieces<C>(splices: seq<Splice<C>>): seq<C>
    requires NonEmptyLines(splices)
  {
    if splices == [] then []
    else Pieces(splices[..|splices| - 1]) + Piece(Last(splices).line, Last(splices).dir)
  }

  /** The total length the splices add: each line contributes its length minus one. */
  function AddedLength<C>(splices: seq<Splice<C>>): int
  {
    if splices == [] then 0
    else AddedLength(splices[..|splices| - 1]) + |Last(splices).line| - 1
  }

  /**
   * The scan passes over listed id `j`: it is used, it is not in the line
   * table, or its path neither starts nor ends at `tail`.
   */
  predicate Passes<C(==)>(ids: seq<string>, lines: map<string, Line<C>>, used: set<string>, tail: C, j: int)
    requires 0 <= j < |ids|
  {
    || ids[j] in used
    || ids[j] !in lines
    || (|lines[ids[j]].path| > 0 && lines[ids[j]].path[0] != tail && Last(lines[ids[j]].path) != tail)
  }

  /**
   * The scan over the listed ids from position `from`: the first unused line
   * in the table whose start (tested first) or end equals `tail`, or the first
   * unused line in the table with an empty path, where the source raises.
   */
  function Scan<C(==)>(ids: seq<string>, lines: map<string, Line<C>>, used: set<string>, tail: C, from: nat): (r: ScanResult)
    requires from <= |ids|
    ensures r.Match? ==>
      && from <= r.at < |ids| && ids[r.at] !in used && ids[r.at] in lines
      && |lines[ids[r.at]].path| > 0
      && (r.dir == Forward <==> lines[ids[r.at]].path[0] == tail)
      && (r.dir == Reversed ==> Last(lines[ids[r.at]].path) == tail)
    ensures r.EmptyLine? ==>
      && from <= r.at < |ids| && ids[r.at] !in used && ids[r.at] in lines
      && |lines[ids[r.at]].path| == 0
    ensures forall j :: from <= j < |ids| && (r.NoMatch? || j < r.at) ==> Passes(ids, lines, used, tail, j)
    decreases |ids| - from
  {
    if from == |ids| then NoMatch
    else if ids[from] in used || ids[from] !in lines then Scan(ids, lines, used, tail, from + 1)
    else
      var p := lines[ids[from]].path;
      if |p| == 0 then EmptyLine(from)
      else if p[0] == tail then Match(from, Forward)
      else if Last(p) == tail then Match(from, Reversed)
      else Scan(ids, lines, used, tail, from + 1)
  }

  /**
   * The chase from a given state: while the path is non-empty and fewer ids
   * are used than are listed, splice the scan's match, stop when there is none.
   * The chase only ever extends: the path it starts from stays a prefix, and
   * no used id is released.
   */
  function ChaseFrom<C(==)>(ids: seq<string>, lines: map<string, Line<C>>, used: set<string>,
                            path: seq<C>, splices: seq<Splice<C>>): (r: ChaseResult<C>)
    ensures r.Chased? ==> used <= r.used && |path| <= |r.path| && r.path[..|path|] == path
    decreases |ids| - |used|
  {
    if |path| == 0 then Chased(path, splices, used, EmptyPath)
    else if |used| >= |ids| then Chased(path, splices, used, AllUsed)
    else
      match Scan(ids, lines, used, Last(path), 0)
      case NoMatch => Chased(path, splices, used, NoContinuation)
      case EmptyLine(k) => Crashed(ids[k])
      case Match(k, dir) =>
        var s := Splice(ids[k], dir, lines[ids[k]].path);
        var next := path + Piece(s.line, dir);
        var r := ChaseFrom(ids, lines, used + {ids[k]}, next, splices + [s]);
        if r.Chased? then PrefixOfPrefix(path, next, r.path); r else r
  }

  /** A prefix of a prefix is a prefix. */
  lemma PrefixOfPrefix<C>(a: seq<C>, b: seq<C>, c: seq<C>)
    requires |a| <= |b| && b[..|a|] == a
    requires |b| <= |c| && c[..|b|] == b
    ensures |a| <= |c| && c[..|a|] == a
  {
    assert c[..|a|] == c[..|b|][..|a|];
  }

  /**
   * The seed: the path of the first listed id if it is in the line table, else
   * nothing; no later id is tried in its place.
   */
  function SeedPath<C>(ids: seq<string>, lines: map<string, Line<C>>): (r: seq<C>)
    ensures |ids| > 0 && ids[0] in lines ==> r == lines[ids[0]].path
    ensures (|ids| == 0 || ids[0] !in lines) ==> r == []
  {
    if |ids| > 0 && ids[0] in lines then lines[ids[0]].path else []
  }

  /** The ids used by the seed: the first listed id when it is in the line table, else none. */
  function SeedUsed<C>(ids: seq<string>, lines: map<string, Line<C>>): (r: set<string>)
    ensures |ids| > 0 && ids[0] in lines ==> r == {ids[0]}
    ensures (|ids| == 0 || ids[0] !in lines) ==> r == {}
  {
    if |ids| > 0 && ids[0] in lines then {ids[0]} else {}
  }

  /** The whole chase of a face, from its seed; a finished chase keeps the seed's id and path as a prefix. */
  function Chase<C(==)>(ids: seq<string>, lines: map<string, Line<C>>): (r: ChaseResult<C>)
    ensures r.Chased? ==> SeedUsed(ids, lines) <= r.used
    ensures r.Chased? ==> |SeedPath(ids, lines)| <= |r.path| && r.path[..|SeedPath(ids, lines)|] == SeedPath(ids, lines)
  {
    ChaseFrom(ids, lines, SeedUsed(ids, lines), SeedPath(ids, lines), [])
  }

  /** Closure: append the first point unless the path is empty or already ends where it starts. */
  function Close<C(==)>(p: seq<C>): (r: seq<C>)
    ensures r != [] ==> r[0] == Last(r)
    ensures |p| <= |r| <= |p| + 1 && r[..|p|] == p
    ensures p == [] ==> r == []
    ensures p != [] && p[0] == Last(p) ==> r == p
  {
    if p != [] && p[0] != Last(p) then p + [p[0]] else p
  }

  /** The path the builder stores for a face, or the line whose empty path raised. */
  function Stitch<C(==)>(ids: seq<string>, lines: map<string, Line<C>>): (r: Result<seq<C>>)
    ensures r.Ok? && r.value != [] ==> r.value[0] == Last(r.value)
  {
    match Chase(ids, lines)
    case Crashed(id) => EmptyLinePath(id)
    case Chased(p, _, _, _) => Ok(Close(p))
  }

  /** Unfolds one step of the chase that splices the scan's match. */
  lemma ChaseStep<C>(ids: seq<string>, lines: map<string, Line<C>>, used: set<string>,
                         path: seq<C>, splices: seq<Splice<C>>, k: nat, dir: Direction)
    requires |path| > 0 && |used| < |ids|
    requires Scan(ids, lines, used, Last(path), 0) == Match(k, dir)
    ensures k < |ids| && ids[k] in lines && |lines[ids[k]].path| > 0
    ensures ChaseFrom(ids, lines, used, path, splices)
         == ChaseFrom(ids, lines, used + {ids[k]}, path + Piece(lines[ids[k]].path, dir),
                      splices + [Splice(ids[k], dir, lines[ids[k]].path)])
  {
  }

  /** Unfolds the chase where it stops: the path it ends with is the current one. */
  lemma ChaseHalts<C>(ids: seq<string>, lines: map<string, Line<C>>, used: set<string>,
                          path: seq<C>, splices: seq<Splice<C>>)
    requires |path| == 0 || |used| >= |ids| || Scan(ids, lines, used, Last(path), 0) == NoMatch
    ensures ChaseFrom(ids, lines, used, path, splices).Chased?
    ensures ChaseFrom(ids, lines, used, path, splices).path == path
  {
  }

  /** Unfolds the chase where the scan meets a line with an empty path. */
  lemma ChaseCrashes<C>(ids: seq<string>, lines: map<string, Line<C>>, used: set<string>,
                            path: seq<C>, splices: seq<Splice<C>>, k: nat)
    requires |path| > 0 && |used| < |ids|
    requires Scan(ids, lines, used, Last(path), 0) == EmptyLine(k)
    ensures k < |ids| && ChaseFrom(ids, lines, used, path, splices) == Crashed(ids[k])
  {
  }

  /** The inner scan of the builder: the listed ids in order, stopping at the first hit. */
  method FindNext<C(==)>(ids: seq<string>, lines: map<string, Line<C>>, used: set<string>, tail: C)
    returns (r: ScanResult)
    ensures r == Scan(ids, lines, used, tail, 0)
  {
    for i := 0 to |ids|
      invariant Scan(ids, lines, used, tail, i) == Scan(ids, lines, used, tail, 0)
    {
      var id := ids[i];
      if id !in used && id in lines {
        var line := lines[id].path;
        if |line| == 0 {
          return EmptyLine(i);
        }
        if line[0] == tail {
          return Match(i, Forward);
        } else if line[|line| - 1] == tail {
          return Match(i, Reversed);
        }
      }
    }
    return NoMatch;
  }

  /** The builder's loop for one face, as the source runs it. */
  method StitchFace<C(==)>(ids: seq<string>, lines: map<string, Line<C>>) returns (r: Result<seq<C>>)
    ensures r == Stitch(ids, lines)
    ensures r.Ok? && r.value != [] ==> r.value[0] == r.value[|r.value| - 1]
  {
    var path: seq<C> := [];
    var used: set<string> := {};
    ghost var splices: seq<Splice<C>> := [];
    if |ids| > 0 {
      var first := ids[0];
      if first in lines {
        path := lines[first].path;
        used := used + {first};
      }
    }
    while |path| > 0 && |used| < |ids|
      invariant ChaseFrom(ids, lines, used, path, splices) == Chase(ids, lines)
      decreases |ids| - |used|
    {
      var tail := path[|path| - 1];
      var next := FindNext(ids, lines, used, tail);
      match next
      case EmptyLine(k) =>
        ChaseCrashes(ids, lines, used, path, splices, k);
        return EmptyLinePath(ids[k]);
      case NoMatch =>
        ChaseHalts(ids, lines, used, path, splices);
        break;
      case Match(k, dir) =>
        var line := lines[ids[k]].path;
        ChaseStep(ids, lines, used, path, splices, k, dir);
        path := path + Piece(line, dir);
        used := used + {ids[k]};
        splices := splices + [Splice(ids[k], dir, line)];
    }
    if |path| == 0 || |used| >= |ids| {
      ChaseHalts(ids, lines, used, path, splices);
    }
    assert Stitch(ids, lines) == Ok(Close(path));
    if |path| > 0 && path[0] != path[|path| - 1] {
      path := path + [path[0]];
    }
    r := Ok(path);
  }

  /** The stitching outcome of each polygon element, in document order. */
  function Outcomes<C(==)>(elems: seq<PolygonElem>, lines: map<string, Line<C>>): (r: seq<Result<seq<C>>>)
    ensures |r| == |elems|
    ensures forall i :: 0 <= i < |elems| ==> r[i] == Stitch(elems[i].lineIds, lines)
  {
    seq(|elems|, i requires 0 <= i < |elems| => Stitch(elems[i].lineIds, lines))
  }

  /**
   * The polygon table after storing each element with its stitching outcome
   * in turn, a later id overwriting an earlier one; the first outcome that is
   * an error ends the build with that error.
   */
  function PolygonTableOf<C>(elems: seq<PolygonElem>, outcomes: seq<Result<seq<C>>>): Result<map<string, Polygon<C>>>
    requires |outcomes| == |elems|
  {
    if elems == [] then Ok(map[])
    else
      var n := |elems| - 1;
      match PolygonTableOf(elems[..n], outcomes[..n])
      case EmptyLinePath(id) => EmptyLinePath(id)
      case Ok(before) =>
        match outcomes[n]
        case EmptyLinePath(id) => EmptyLinePath(id)
        case Ok(path) => Ok(before[elems[n].id := PolygonOf(elems[n], path)])
  }

  /** Once a prefix of the document fails, the whole build fails the same way. */
  lemma {:induction false} FailureSticks<C>(elems: seq<PolygonElem>, outcomes: seq<Result<seq<C>>>, k: nat)
    requires |outcomes| == |elems| && k <= |elems|
    requires PolygonTableOf(elems[..k], outcomes[..k]).EmptyLinePath?
    ensures PolygonTableOf(elems, outcomes) == PolygonTableOf(elems[..k], outcomes[..k])
    decreases |elems|
  {
    if k == |elems| {
      assert elems[..k] == elems && outcomes[..k] == outcomes;
    } else {
      var n := |elems| - 1;
      assert elems[..n][..k] == elems[..k] && outcomes[..n][..k] == outcomes[..k];
      FailureSticks(elems[..n], outcomes[..n], k);
    }
  }

  /** The build succeeds exactly when every polygon stitches. */
  lemma {:induction false} PolygonTableSucceeds<C>(elems: seq<PolygonElem>, outcomes: seq<Result<seq<C>>>)
    requires |outcomes| == |elems|
    ensures PolygonTableOf(elems, outcomes).Ok? <==> forall i :: 0 <= i < |outcomes| ==> outcomes[i].Ok?
    decreases |elems|
  {
    if elems != [] {
      var n := |elems| - 1;
      PolygonTableSucceeds(elems[..n], outcomes[..n]);
      assert forall i :: 0 <= i < n ==> outcomes[..n][i] == outcomes[i];
    }
  }

  /**
   * A failed build reports the error of the first polygon, in document order,
   * whose stitching raises: every polygon before it stitches.
   */
  lemma {:induction false} PolygonTableFailure<C>(elems: seq<PolygonElem>, outcomes: seq<Result<seq<C>>>)
    requires |outcomes| == |elems| && PolygonTableOf(elems, outcomes).EmptyLinePath?
    ensures exists i :: && 0 <= i < |outcomes|
                        && outcomes[i] == EmptyLinePath(PolygonTableOf(elems, outcomes).lineId)
                        && forall j :: 0 <= j < i ==> outcomes[j].Ok?
    decreases |elems|
  {
    var n := |elems| - 1;
    var front := outcomes[..n];
    if PolygonTableOf(elems[..n], front).EmptyLinePath? {
      PolygonTableFailure(elems[..n], front);
      var i :| && 0 <= i < n
               && front[i] == EmptyLinePath(PolygonTableOf(elems[..n], front).lineId)
               && forall j :: 0 <= j < i ==> front[j].Ok?;
      assert forall j :: 0 <= j <= i ==> front[j] == outcomes[j];
    } else {
      PolygonTableSucceeds(elems[..n], front);
      assert forall j :: 0 <= j < n ==> front[j] == outcomes[j];
    }
  }

  /** The table has one key per polygon id in the document, when the build succeeds. */
  lemma {:induction false} PolygonTableKeys<C>(elems: seq<PolygonElem>, outcomes: seq<Result<seq<C>>>)
    requires |outcomes| == |elems| && PolygonTableOf(elems, outcomes).Ok?
    ensures PolygonTableOf(elems, outcomes).value.Keys == set i | 0 <= i < |elems| :: elems[i].id
    decreases |elems|
  {
    if elems != [] {
      var n := |elems| - 1;
      PolygonTableKeys(elems[..n], outcomes[..n]);
      assert (set i | 0 <= i < n :: elems[..n][i].id) == (set i | 0 <= i < n :: elems[i].id);
      assert (set i | 0 <= i < n + 1 :: elems[i].id) == (set i | 0 <= i < n :: elems[i].id) + {elems[n].id};
    }
  }

  /**
   * Last write wins: when the build succeeds, a polygon id's entry is the
   * stitched path and the metadata of the last element with that id.
   */
  lemma {:induction false} PolygonTableLastWins<C>(elems: seq<PolygonElem>, outcomes: seq<Result<seq<C>>>, i: int)
    requires |outcomes| == |elems| && PolygonTableOf(elems, outcomes).Ok? && LastOccurrence(PolygonIds(elems), i)
    ensures outcomes[i].Ok?
    ensures elems[i].id in PolygonTableOf(elems, outcomes).value
    ensures PolygonTableOf(elems, outcomes).value[elems[i].id] == PolygonOf(elems[i], outcomes[i].value)
    decreases |elems|
  {
    var n := |elems| - 1;
    if i < n {
      assert elems[n].id != elems[i].id;
      assert LastOccurrence(PolygonIds(elems[..n]), i);
      PolygonTableLastWins(elems[..n], outcomes[..n], i);
    }
  }

  /** Extending a built prefix by one polygon either stores its entry or fails with its error. */
  lemma PolygonTableStep<C>(elems: seq<PolygonElem>, outcomes: seq<Result<seq<C>>>, k: nat,
                            polygons: map<string, Polygon<C>>)
    requires |outcomes| == |elems| && k < |elems|
    requires PolygonTableOf(elems[..k], outcomes[..k]) == Ok(polygons)
    ensures outcomes[k].Ok? ==>
      PolygonTableOf(elems[..k + 1], outcomes[..k + 1]) == Ok(polygons[elems[k].id := PolygonOf(elems[k], outcomes[k].value)])
    ensures outcomes[k].EmptyLinePath? ==>
      PolygonTableOf(elems[..k + 1], outcomes[..k + 1]) == EmptyLinePath(outcomes[k].lineId)
  {
    assert elems[..k + 1][..k] == elems[..k] && outcomes[..k + 1][..k] == outcomes[..k];
  }

  /**
   * Builds the polygon table by stitching and storing each POLYGON element in
   * document order; an empty line path in any polygon aborts the whole build.
   */
  method GetPolygons<C(==)>(elems: seq<PolygonElem>, lines: map<string, Line<C>>)
    returns (r: Result<map<string, Polygon<C>>>)
    ensures r == PolygonTableOf(elems, Outcomes(elems, lines))
  {
    ghost var outcomes := Outcomes(elems, lines);
    var polygons: map<string, Polygon<C>> := map[];
    for k := 0 to |elems|
      invariant PolygonTableOf(elems[..k], outcomes[..k]) == Ok(polygons)
    {
      var e := elems[k];
      var stitched := StitchFace(e.lineIds, lines);
      PolygonTableStep(elems, outcomes, k, polygons);
      if stitched.EmptyLinePath? {
        FailureSticks(elems, outcomes, k + 1);
        return EmptyLinePath(stitched.lineId);
      }
      polygons := polygons[e.id := PolygonOf(e, stitched.value)];
    }
    assert elems[..|elems|] == elems && outcomes[..|elems|] == outcomes;
    r := Ok(polygons);
  }
}
