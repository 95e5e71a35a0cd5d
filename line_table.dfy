/**
 * The line table builder (`get_lines`, the same in polygons.py, 3D.py and
 * lines.py): each LINE's point ids are resolved against the point table into
 * a coordinate path, and the line is stored under its id.
 */
module LineTable {
  import opened Survey

  /** The coordinate of `id` as a path of length one, or nothing when the point table lacks it. */
  function Lookup<C>(id: string, points: map<string, C>): (r: seq<C>)
    ensures |r| <= 1
    ensures |r| == 1 <==> id in points
    ensures id in points ==> r == [points[id]]
  {
    if id in points then [points[id]] else []
  }

  /**
   * The resolved path of a line: the coordinates of the listed point ids that
   * the point table knows, in listed order; the other ids are dropped.
   */
  function Resolve<C>(ids: seq<string>, points: map<string, C>): (r: seq<C>)
    ensures |r| <= |ids|
    ensures |r| == |ids| <==> forall i :: 0 <= i < |ids| ==> ids[i] in points
  {
    if ids == [] then []
    else Resolve(ids[..|ids| - 1], points) + Lookup(ids[|ids| - 1], points)
  }

  /** Resolving a concatenation resolves each part in turn. */
  lemma {:induction false} ResolveConcat<C>(a: seq<string>, b: seq<string>, points: map<string, C>)
    ensures Resolve(a + b, points) == Resolve(a, points) + Resolve(b, points)
    decreases |b|
  {
    if b == [] {
      assert a + b == a;
    } else {
      var n := |b| - 1;
      assert (a + b)[..|a + b| - 1] == a + b[..n];
      assert (a + b)[|a + b| - 1] == b[n];
      calc {
        Resolve(a + b, points);
        Resolve(a + b[..n], points) + Lookup(b[n], points);
        { ResolveConcat(a, b[..n], points); }
        Resolve(a, points) + Resolve(b[..n], points) + Lookup(b[n], points);
        Resolve(a, points) + Resolve(b, points);
      }
    }
  }

  /** A missing point id is dropped without affecting the points around it. */
  lemma {:induction false} ResolveSkipsMissing<C>(a: seq<string>, id: string, b: seq<string>, points: map<string, C>)
    requires id !in points
    ensures Resolve(a + [id] + b, points) == Resolve(a, points) + Resolve(b, points)
  {
    ResolveConcat(a + [id], b, points);
    ResolveConcat(a, [id], points);
    ResolveMissing(id, points);
    assert Resolve(a, points) + [] == Resolve(a, points);
  }

  /** A single missing point id resolves to nothing. */
  lemma ResolveMissing<C>(id: string, points: map<string, C>)
    requires id !in points
    ensures Resolve([id], points) == []
  {
    assert [id][..0] == [];
  }

  /** When every point id resolves, the path is exactly their coordinates, position by position. */
  lemma {:induction false} ResolveAllPresent<C>(ids: seq<string>, points: map<string, C>)
    requires forall i :: 0 <= i < |ids| ==> ids[i] in points
    ensures |Resolve(ids, points)| == |ids|
    ensures forall i :: 0 <= i < |ids| ==> Resolve(ids, points)[i] == points[ids[i]]
    decreases |ids|
  {
    if ids != [] {
      var n := |ids| - 1;
      ResolveAllPresent(ids[..n], points);
    }
  }

  /** Builds the resolved path with a loop that appends each known point. */
  method ResolvePath<C>(ids: seq<string>, points: map<string, C>) returns (path: seq<C>)
    ensures path == Resolve(ids, points)
  {
    path := [];
    for i := 0 to |ids|
      invariant path == Resolve(ids[..i], points)
    {
      assert ids[..i + 1][..i] == ids[..i];
      if ids[i] in points {
        path := path + [points[ids[i]]];
      }
    }
    assert ids[..|ids|] == ids;
  }

  /** The table entry built from a LINE element: its resolved path and its metadata verbatim. */
  function ToLine<C>(e: LineElem, points: map<string, C>): (l: Line<C>)
    ensures l.path == Resolve(e.pointIds, points)
    ensures l.kind == e.kind && l.length == e.length && l.uom == e.uom
    ensures l.pitch == e.pitch && l.pitchUom == e.pitchUom && l.storey == e.storey
  {
    Line(Resolve(e.pointIds, points), e.kind, e.length, e.uom, e.pitch, e.pitchUom, e.storey)
  }

  /** The line table after storing each element in turn, a later id overwriting an earlier one. */
  function LineTableOf<C>(elems: seq<LineElem>, points: map<string, C>): map<string, Line<C>>
  {
    if elems == [] then map[]
    else
      var e := elems[|elems| - 1];
      LineTableOf(elems[..|elems| - 1], points)[e.id := ToLine(e, points)]
  }

  /** The table has one key per line id in the document. */
  lemma {:induction false} LineTableKeys<C>(elems: seq<LineElem>, points: map<string, C>)
    ensures LineTableOf(elems, points).Keys == set i | 0 <= i < |elems| :: elems[i].id
    decreases |elems|
  {
    if elems != [] {
      var n := |elems| - 1;
      LineTableKeys(elems[..n], points);
      assert (set i | 0 <= i < n :: elems[..n][i].id) == (set i | 0 <= i < n :: elems[i].id);
      assert (set i | 0 <= i < n + 1 :: elems[i].id) == (set i | 0 <= i < n :: elems[i].id) + {elems[n].id};
    }
  }

  /** Last write wins: a line id's entry is built from the last element with that id. */
  lemma {:induction false} LineTableLastWins<C>(elems: seq<LineElem>, points: map<string, C>, i: int)
    requires LastOccurrence(LineIds(elems), i)
    ensures elems[i].id in LineTableOf(elems, points)
    ensures LineTableOf(elems, points)[elems[i].id] == ToLine(elems[i], points)
    decreases |elems|
  {
    var n := |elems| - 1;
    if i < n {
      assert elems[n].id != elems[i].id;
      assert LastOccurrence(LineIds(elems[..n]), i);
      LineTableLastWins(elems[..n], points, i);
    }
  }

  /** Builds the line table by resolving and storing each LINE element in document order. */
  method GetLines<C>(elems: seq<LineElem>, points: map<string, C>) returns (lines: map<string, Line<C>>)
    ensures lines == LineTableOf(elems, points)
  {
    lines := map[];
    for k := 0 to |elems|
      invariant lines == LineTableOf(elems[..k], points)
    {
      var e := elems[k];
      var path := ResolvePath(e.pointIds, points);
      assert elems[..k + 1][..k] == elems[..k];
      lines := lines[e.id := Line(path, e.kind, e.length, e.uom, e.pitch, e.pitchUom, e.storey)];
    }
    assert elems[..|elems|] == elems;
  }
}
