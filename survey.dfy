/**
 * The typed records of a roof survey document.
 *
 * The survey file holds POINT, LINE and FACE/POLYGON elements whose attributes
 * are strings. Here every element arrives already parsed: comma-separated
 * attributes are split into sequences and numeric attributes converted.
 * Coordinates are a type parameter `C` compared only with `==`, because the
 * builders join lines on exact coordinate equality and never compute with them.
 */
module Survey {

  datatype Option<T> = None | Some(value: T)

  /**
   * Outcome of a builder that indexes `line_points[0]`: a line whose resolved
   * path is empty makes that index raise, and the exception ends the whole
   * polygon build. `EmptyLinePath` names the line that raised.
   */
  datatype Result<T> = Ok(value: T) | EmptyLinePath(lineId: string)

  /** A LINE element: its id, the point ids of its PATH, and its metadata. */
  datatype LineElem = LineElem(
    id: string,
    pointIds: seq<string>,
    kind: string,
    length: real,
    uom: string,
    pitch: seq<real>,
    pitchUom: string,
    storey: string)

  /** An entry of the line table: the resolved coordinate path and the metadata. */
  datatype Line<C> = Line(
    path: seq<C>,
    kind: string,
    length: real,
    uom: string,
    pitch: seq<real>,
    pitchUom: string,
    storey: string)

  /** A POLYGON element nested in a FACE: its id, the line ids of its PATH, and its metadata. */
  datatype PolygonElem = PolygonElem(
    id: string,
    lineIds: seq<string>,
    size: real,
    sizeUom: string,
    pitch: real,
    pitchUom: string,
    orientation: string,
    kind: string,
    material: string,
    storey: string)

  /** An entry of the polygon table: a coordinate path and the polygon's metadata. */
  datatype Polygon<C> = Polygon(
    path: seq<C>,
    size: real,
    sizeUom: string,
    pitch: real,
    pitchUom: string,
    orientation: string,
    kind: string,
    material: string,
    storey: string)

  /** The record stored for a polygon element: the given path beside the element's metadata. */
  function PolygonOf<C>(e: PolygonElem, path: seq<C>): (p: Polygon<C>)
    ensures p.path == path
    ensures p.size == e.size && p.sizeUom == e.sizeUom
    ensures p.pitch == e.pitch && p.pitchUom == e.pitchUom
    ensures p.orientation == e.orientation && p.kind == e.kind
    ensures p.material == e.material && p.storey == e.storey
  {
    Polygon(path, e.size, e.sizeUom, e.pitch, e.pitchUom, e.orientation, e.kind, e.material, e.storey)
  }

  /** A reference to the first POLYGON child of a FACE; its ID attribute may be absent. */
  datatype PolygonRef = PolygonRef(id: Option<string>)

  /** A FACE element: an ID attribute that may be absent, and its first POLYGON child, if any. */
  datatype FaceElem = FaceElem(id: Option<string>, polygon: Option<PolygonRef>)

  /** The ids of the LINE elements, in document order. */
  function LineIds(elems: seq<LineElem>): (r: seq<string>)
    ensures |r| == |elems| && forall j :: 0 <= j < |elems| ==> r[j] == elems[j].id
  {
    seq(|elems|, j requires 0 <= j < |elems| => elems[j].id)
  }

  /** The ids of the POLYGON elements, in document order. */
  function PolygonIds(elems: seq<PolygonElem>): (r: seq<string>)
    ensures |r| == |elems| && forall j :: 0 <= j < |elems| ==> r[j] == elems[j].id
  {
    seq(|elems|, j requires 0 <= j < |elems| => elems[j].id)
  }

  /**
   * Position `i` holds the last occurrence of its key: the element there is
   * the one whose entry a dictionary filled in document order keeps.
   */
  ghost predicate LastOccurrence(keys: seq<string>, i: int)
  {
    0 <= i < |keys| && forall j :: i < j < |keys| ==> keys[j] != keys[i]
  }
}
