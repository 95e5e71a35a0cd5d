/**
 * The polygon builder and face linker of lines.py.
 *
 * This `get_polygons` does no stitching: a polygon's path is the resolved
 * paths of its listed lines laid one after another, unresolved ids
 * contributing nothing, with no de-duplication of shared endpoints and no
 * closure. `get_faces` then links each FACE to the polygon table entry of its
 * first POLYGON child.
 */
module NaiveCatalog {
  import opened Survey

  /** The path of one listed line id: its resolved path, or nothing when the table lacks it. */
  function LinePath<C>(id: string, lines: map<string, Line<C>>): (r: seq<C>)
    ensures id !in lines ==> r == []
    ensures id in lines ==> r == lines[id].path
  {
    if id in lines then lines[id].path else []
  }

  /**
   * The naive polygon path: the paths of the listed lines, concatenated in
   * listed order. It invents no point, and it holds every point of every
   * listed line the table resolves.
   */
  function Concatenated<C>(ids: seq<string>, lines: map<string, Line<C>>): (r: seq<C>)
    ensures forall x :: x in r ==> exists i :: 0 <= i < |ids| && ids[i] in lines && x in lines[ids[i]].path
    ensures forall i, x :: 0 <= i < |ids| && ids[i] in lines && x in lines[ids[i]].path ==> x in r
  {
    if ids == [] then [] else Concatenated(ids[..|ids| - 1], lines) + LinePath(ids[|ids| - 1], lines)
  }

  /** The number of points the listed lines hold: the sum of their resolved path lengths. */
  function TotalPoints<C>(ids: seq<string>, lines: map<string, Line<C>>): nat
  {
    if ids == [] then 0
    else TotalPoints(ids[1..], lines) + (if ids[0] in lines then |lines[ids[0]].path| else 0)
  }

  /** Concatenating the lines of a split list is concatenating the two parts. */
  lemma {:induction false} ConcatenatedSplit<C>(a: seq<string>, b: seq<string>, lines: map<string, Line<C>>)
    ensures Concatenated(a + b, lines) == Concatenated(a, lines) + Concatenated(b, lines)
    decreases |b|
  {
    if b == [] {
      assert a + b == a;
    } else {
      var n := |b| - 1;
      assert (a + b)[..|a + b| - 1] == a + b[..n];
      assert (a + b)[|a + b| - 1] == b[n];
      calc {
        Concatenated(a + b, lines);
        Concatenated(a + b[..n], lines) + LinePath(b[n], lines);
        { ConcatenatedSplit(a, b[..n], lines); }
        Concatenated(a, lines) + Concatenated(b[..n], lines) + LinePath(b[n], lines);
        Concatenated(a, lines) + Concatenated(b, lines);
      }
    }
  }

  /** An unresolved line id contributes nothing to the naive path. */
  lemma UnresolvedContributesNothing<C>(a: seq<string>, id: string, b: seq<string>, lines: map<string, Line<C>>)
    requires id !in lines
    ensures Concatenated(a + [id] + b, lines) == Concatenated(a + b, lines)
  {
    ConcatenatedSplit(a + [id], b, lines);
    ConcatenatedSplit(a, [id], lines);
    ConcatenatedSplit(a, b, lines);
    assert [id][..0] == [];
    assert Concatenated([id], lines) == [];
  }

  /**
   * The naive path holds exactly as many points as the listed lines'
   * resolved paths together: nothing is removed where lines share endpoints
   * and nothing is added to close the loop.
   */
  lemma {:induction false} ConcatenatedLength<C>(ids: seq<string>, lines: map<string, Line<C>>)
    ensures |Concatenated(ids, lines)| == TotalPoints(ids, lines)
    decreases |ids|
  {
    if ids != [] {
      ConcatenatedSplit([ids[0]], ids[1..], lines);
      assert [ids[0]] + ids[1..] == ids;
      assert [ids[0]][..0] == [];
      ConcatenatedLength(ids[1..], lines);
    }
  }

  /** Lines 1-2 and 2-3 give 1, 2, 2, 3: the shared endpoint is kept twice and the path is left open. */
  lemma NotDeduplicatedNorClosed()
    ensures
      var lines := map["L1" := Line([1, 2], "", 0.0, "", [], "", ""), "L2" := Line([2, 3], "", 0.0, "", [], "", "")];
      Concatenated(["L1", "L2"], lines) == [1, 2, 2, 3]
  {
    var lines := map["L1" := Line([1, 2], "", 0.0, "", [], "", ""), "L2" := Line([2, 3], "", 0.0, "", [], "", "")];
    var ids := ["L1", "L2"];
    assert ids[..1] == ["L1"] && ids[..1][..0] == [];
  }

  /** The builder's loop for one polygon: extend the path with each resolved line. */
  method ConcatenatePaths<C>(ids: seq<string>, lines: map<string, Line<C>>) returns (path: seq<C>)
    ensures path == Concatenated(ids, lines)
  {
    path := [];
    for i := 0 to |ids|
      invariant path == Concatenated(ids[..i], lines)
    {
      assert ids[..i + 1][..i] == ids[..i];
      if ids[i] in lines {
        path := path + lines[ids[i]].path;
      } else {
        assert ids[..i + 1] == ids[..i] + [ids[i]];
      }
    }
    assert ids[..|ids|] == ids;
  }

  /** The polygon table after storing each element in turn, a later id overwriting an earlier one. */
  function PolygonTableOf<C>(elems: seq<PolygonElem>, lines: map<string, Line<C>>): map<string, Polygon<C>>
  {
    if elems == [] then map[]
    else
      var e := elems[|elems| - 1];
      PolygonTableOf(elems[..|elems| - 1], lines)[e.id := PolygonOf(e, Concatenated(e.lineIds, lines))]
  }

  /** The table has one key per polygon id in the document. */
  lemma {:induction false} PolygonTableKeys<C>(elems: seq<PolygonElem>, lines: map<string, Line<C>>)
    ensures PolygonTableOf(elems, lines).Keys == set i | 0 <= i < |elems| :: elems[i].id
    decreases |elems|
  {
    if elems != [] {
      var n := |elems| - 1;
      PolygonTableKeys(elems[..n], lines);
      assert (set i | 0 <= i < n :: elems[..n][i].id) == (set i | 0 <= i < n :: elems[i].id);
      assert (set i | 0 <= i < n + 1 :: elems[i].id) == (set i | 0 <= i < n :: elems[i].id) + {elems[n].id};
    }
  }

  /**
   * Last write wins: a polygon id's entry is the naive path and the metadata
   * of the last element with that id, stored verbatim.
   */
  lemma {:induction false} PolygonTableLastWins<C>(elems: seq<PolygonElem>, lines: map<string, Line<C>>, i: int)
    requires LastOccurrence(PolygonIds(elems), i)
    ensures elems[i].id in PolygonTableOf(elems, lines)
    ensures PolygonTableOf(elems, lines)[elems[i].id] == PolygonOf(elems[i], Concatenated(elems[i].lineIds, lines))
    decreases |elems|
  {
    var n := |elems| - 1;
    if i < n {
      assert elems[n].id != elems[i].id;
      assert LastOccurrence(PolygonIds(elems[..n]), i);
      PolygonTableLastWins(elems[..n], lines, i);
    }
  }

  /** Builds the polygon table by concatenating and storing each POLYGON element in document order. */
  method GetPolygons<C>(elems: seq<PolygonElem>, lines: map<string, Line<C>>) returns (polygons: map<string, Polygon<C>>)
    ensures polygons == PolygonTableOf(elems, lines)
  {
    polygons := map[];
    for k := 0 to |elems|
      invariant polygons == PolygonTableOf(elems[..k], lines)
    {
      var e := elems[k];
      var path := ConcatenatePaths(e.lineIds, lines);
      assert elems[..k + 1][..k] == elems[..k];
      polygons := polygons[e.id := PolygonOf(e, path)];
    }
    assert elems[..|elems|] == elems;
  }

  /** The face links to a polygon: it has a POLYGON child whose ID is a key of the table. */
  predicate Links<C>(f: FaceElem, polygons: map<string, Polygon<C>>)
  {
    f.polygon.Some? && f.polygon.value.id.Some? && f.polygon.value.id.value in polygons
  }

  /** Face `i` links, and no later face with its id does. */
  ghost predicate LastLinkingFace<C>(faces: seq<FaceElem>, polygons: map<string, Polygon<C>>, i: int)
  {
    && 0 <= i < |faces| && Links(faces[i], polygons)
    && forall j :: i < j < |faces| && faces[j].id == faces[i].id ==> !Links(faces[j], polygons)
  }

  /** The catalogue after handling each face in turn: a linking face stores its polygon, others change nothing. */
  function CatalogOf<C>(faces: seq<FaceElem>, polygons: map<string, Polygon<C>>): map<Option<string>, Polygon<C>>
  {
    if faces == [] then map[]
    else
      var f := faces[|faces| - 1];
      var before := CatalogOf(faces[..|faces| - 1], polygons);
      if Links(f, polygons) then before[f.id := polygons[f.polygon.value.id.value]] else before
  }

  /** A face id has an entry exactly when some face with that id links to a polygon. */
  lemma {:induction false} CatalogKeys<C>(faces: seq<FaceElem>, polygons: map<string, Polygon<C>>)
    ensures CatalogOf(faces, polygons).Keys == set i | 0 <= i < |faces| && Links(faces[i], polygons) :: faces[i].id
    decreases |faces|
  {
    if faces != [] {
      var n := |faces| - 1;
      CatalogKeys(faces[..n], polygons);
      assert (set i | 0 <= i < n && Links(faces[..n][i], polygons) :: faces[..n][i].id)
          == (set i | 0 <= i < n && Links(faces[i], polygons) :: faces[i].id);
      if Links(faces[n], polygons) {
        assert (set i | 0 <= i < n + 1 && Links(faces[i], polygons) :: faces[i].id)
            == (set i | 0 <= i < n && Links(faces[i], polygons) :: faces[i].id) + {faces[n].id};
      } else {
        assert (set i | 0 <= i < n + 1 && Links(faces[i], polygons) :: faces[i].id)
            == (set i | 0 <= i < n && Links(faces[i], polygons) :: faces[i].id);
      }
    }
  }

  /** A face id's entry is, unchanged, the polygon record of the last face with that id that links. */
  lemma {:induction false} CatalogLastWins<C>(faces: seq<FaceElem>, polygons: map<string, Polygon<C>>, i: int)
    requires LastLinkingFace(faces, polygons, i)
    ensures faces[i].id in CatalogOf(faces, polygons)
    ensures CatalogOf(faces, polygons)[faces[i].id] == polygons[faces[i].polygon.value.id.value]
    decreases |faces|
  {
    var n := |faces| - 1;
    if i < n {
      assert faces[n].id != faces[i].id || !Links(faces[n], polygons);
      assert LastLinkingFace(faces[..n], polygons, i);
      CatalogLastWins(faces[..n], polygons, i);
    }
  }

  /** Builds the face catalogue by linking each FACE in document order. */
  method GetFaces<C>(faces: seq<FaceElem>, polygons: map<string, Polygon<C>>)
    returns (catalog: map<Option<string>, Polygon<C>>)
    ensures catalog == CatalogOf(faces, polygons)
  {
    catalog := map[];
    for k := 0 to |faces|
      invariant catalog == CatalogOf(faces[..k], polygons)
    {
      var face := faces[k];
      assert faces[..k + 1][..k] == faces[..k];
      if face.polygon.Some? {
        var polygonId := face.polygon.value.id;
        if polygonId.Some? && polygonId.value in polygons {
          catalog := catalog[face.id := polygons[polygonId.value]];
        }
      }
    }
    assert faces[..|faces|] == faces;
  }
}
