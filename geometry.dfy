/** `AreaOfInterest.validate_geometry`: a loose check that a raw JSON value has
    the shape of a GeoJSON MultiPolygon (section 3.1.7 of RFC 7946), with the
    four-position minimum of a linear ring (section 3.1.6). Ring closure, the
    arity of a position and coordinate ranges are not checked. */
module AreaOfInterest {
  import opened Wrappers
  import opened JsonValues

  /** The four `ValueError`s the validator raises, in the order it checks. */
  datatype GeometryError =
    | NotADictionary          // "geometry must be a dictionary"
    | NotMultiPolygon         // "Only 'MultiPolygon' geometry type is allowed"
    | MissingCoordinatesList  // "geometry must contain a 'coordinates' list"
    | InvalidStructure        // "Invalid 'MultiPolygon' structure. ..."

  const MultiPolygonType: string := "MultiPolygon"
  const MinRingPositions: nat := 4

  /** `isinstance(area, list) and len(area) >= 4` */
  predicate RingOk(area: Json) {
    area.JArray? && |area.items| >= MinRingPositions
  }

  /** `isinstance(polygon, list) and all(... for area in polygon)` */
  predicate PolygonOk(polygon: Json) {
    polygon.JArray? && forall i :: 0 <= i < |polygon.items| ==> RingOk(polygon.items[i])
  }

  /** `all(... for polygon in v["coordinates"])` */
  predicate CoordinatesOk(coordinates: seq<Json>) {
    forall i :: 0 <= i < |coordinates| ==> PolygonOk(coordinates[i])
  }

  /** The validator: the checks run in order and the first one that fails
      decides the error; an accepted value is returned unchanged. */
  function ValidateGeometry(v: Json): (r: Result<Json, GeometryError>)
    ensures r.Success? ==> r.value == v
    ensures !v.JObject? ==> r == Failure(NotADictionary)
  {
    if !v.JObject? then
      Failure(NotADictionary)
    else if Get(v.fields, "type") != JString(MultiPolygonType) then
      Failure(NotMultiPolygon)
    else if "coordinates" !in v.fields || !v.fields["coordinates"].JArray? then
      Failure(MissingCoordinatesList)
    else if !CoordinatesOk(v.fields["coordinates"].items) then
      Failure(InvalidStructure)
    else
      Success(v)
  }

  // ---------------------------------------------------------------------------
  // An independent reading of the accepted shape: the coordinates decode into
  // a typed multipolygon (a list of polygons, each a list of rings, each a list
  // of positions that are never looked into) whose rings all have 4+ positions.

  type Ring = seq<Json>
  type Polygon = seq<Ring>
  type MultiPolygon = seq<Polygon>

  /** Reads a JSON list of rings; fails exactly when some element is not a list. */
  function DecodePolygon(items: seq<Json>): (r: Option<Polygon>)
    ensures r.Some? <==> forall i :: 0 <= i < |items| ==> items[i].JArray?
    ensures r.Some? ==> |r.value| == |items|
    ensures r.Some? ==> forall i :: 0 <= i < |items| ==> items[i] == JArray(r.value[i])
  {
    if items == [] then Some([])
    else if !items[0].JArray? then None
    else match DecodePolygon(items[1..])
      case None => None
      case Some(rest) => Some([items[0].items] + rest)
  }

  /** Reads a JSON list of polygons; fails exactly when some polygon or some
      ring is not a list. */
  function DecodeMultiPolygon(items: seq<Json>): (r: Option<MultiPolygon>)
    ensures r.Some? <==> forall i :: 0 <= i < |items| ==>
      items[i].JArray? && DecodePolygon(items[i].items).Some?
    ensures r.Some? ==> |r.value| == |items|
    ensures r.Some? ==> forall i :: 0 <= i < |items| ==>
      items[i].JArray? && DecodePolygon(items[i].items) == Some(r.value[i])
  {
    if items == [] then Some([])
    else if !items[0].JArray? then None
    else match (DecodePolygon(items[0].items), DecodeMultiPolygon(items[1..]))
      case (Some(p), Some(rest)) => Some([p] + rest)
      case _ => None
  }

  function EncodePolygon(p: Polygon): seq<Json> {
    if p == [] then [] else [JArray(p[0])] + EncodePolygon(p[1..])
  }

  function EncodeMultiPolygon(mp: MultiPolygon): seq<Json> {
    if mp == [] then [] else [JArray(EncodePolygon(mp[0]))] + EncodeMultiPolygon(mp[1..])
  }

  /** Every ring of every polygon has at least four positions. */
  predicate RingsLongEnough(mp: MultiPolygon) {
    forall i, j :: 0 <= i < |mp| && 0 <= j < |mp[i]| ==> |mp[i][j]| >= MinRingPositions
  }

  lemma {:induction false} PolygonRoundTrip(p: Polygon)
    ensures DecodePolygon(EncodePolygon(p)) == Some(p)
  {
    if p != [] {
      PolygonRoundTrip(p[1..]);
      assert [p[0]] + p[1..] == p;
    }
  }

  lemma {:induction false} MultiPolygonRoundTrip(mp: MultiPolygon)
    ensures DecodeMultiPolygon(EncodeMultiPolygon(mp)) == Some(mp)
  {
    if mp != [] {
      PolygonRoundTrip(mp[0]);
      MultiPolygonRoundTrip(mp[1..]);
      assert [mp[0]] + mp[1..] == mp;
    }
  }

  /** Decoding loses nothing: what decodes is exactly the encoding of its result. */
  lemma {:induction false} DecodeMultiPolygonInverse(items: seq<Json>, mp: MultiPolygon)
    requires DecodeMultiPolygon(items) == Some(mp)
    ensures EncodeMultiPolygon(mp) == items
  {
    if items != [] {
      var p :| DecodePolygon(items[0].items) == Some(p);
      DecodePolygonInverse(items[0].items, p);
      DecodeMultiPolygonInverse(items[1..], mp[1..]);
      assert items == [items[0]] + items[1..];
    }
  }

  lemma {:induction false} DecodePolygonInverse(items: seq<Json>, p: Polygon)
    requires DecodePolygon(items) == Some(p)
    ensures EncodePolygon(p) == items
  {
    if items != [] {
      DecodePolygonInverse(items[1..], p[1..]);
      assert items == [items[0]] + items[1..];
    }
  }

  /** The nested `all(...)` of the validator holds exactly when the coordinates
      decode into a multipolygon whose rings all have four or more positions. */
  lemma CoordinatesOkDecodes(items: seq<Json>)
    ensures CoordinatesOk(items) <==>
      DecodeMultiPolygon(items).Some? && RingsLongEnough(DecodeMultiPolygon(items).value)
  {
  }

  /** What the validator accepts, stated without its nested `all(...)`: a
      dictionary whose "type" is exactly "MultiPolygon" and whose "coordinates"
      list decodes into a multipolygon with every ring of four or more positions. */
  lemma AcceptsExactly(v: Json)
    ensures ValidateGeometry(v).Success? <==>
      v.JObject?
      && Get(v.fields, "type") == JString(MultiPolygonType)
      && "coordinates" in v.fields && v.fields["coordinates"].JArray?
      && DecodeMultiPolygon(v.fields["coordinates"].items).Some?
      && RingsLongEnough(DecodeMultiPolygon(v.fields["coordinates"].items).value)
  {
  }

  /** Any typed multipolygon whose rings have four or more positions, written
      out as JSON under "coordinates" with type "MultiPolygon", is accepted and
      returned unchanged, whatever else the dictionary holds. */
  lemma AcceptsEveryEncoding(fields: map<string, Json>, mp: MultiPolygon)
    requires RingsLongEnough(mp)
    ensures var g := JObject(fields["type" := JString(MultiPolygonType)]
                                    ["coordinates" := JArray(EncodeMultiPolygon(mp))]);
            ValidateGeometry(g) == Success(g)
  {
    var g := JObject(fields["type" := JString(MultiPolygonType)]
                            ["coordinates" := JArray(EncodeMultiPolygon(mp))]);
    MultiPolygonRoundTrip(mp);
    AcceptsExactly(g);
  }

  /** Positions inside rings are never inspected: two coordinate lists with the
      same polygon and ring counts get the same verdict. */
  lemma PositionsNotInspected(fields: map<string, Json>, a: MultiPolygon, b: MultiPolygon)
    requires |a| == |b|
    requires forall i :: 0 <= i < |a| ==> |a[i]| == |b[i]|
    requires forall i, j :: 0 <= i < |a| && 0 <= j < |a[i]| ==> |a[i][j]| == |b[i][j]|
    ensures ValidateGeometry(JObject(fields["coordinates" := JArray(EncodeMultiPolygon(a))])).Success?
        == ValidateGeometry(JObject(fields["coordinates" := JArray(EncodeMultiPolygon(b))])).Success?
  {
    MultiPolygonRoundTrip(a);
    MultiPolygonRoundTrip(b);
    AcceptsExactly(JObject(fields["coordinates" := JArray(EncodeMultiPolygon(a))]));
    AcceptsExactly(JObject(fields["coordinates" := JArray(EncodeMultiPolygon(b))]));
  }

  /** The order of the checks decides the error: a dictionary with the wrong
      type gets the type error even with no coordinates; a MultiPolygon with no
      coordinates list gets the coordinates error however the rest looks. */
  lemma RejectionOrder(fields: map<string, Json>)
    ensures Get(fields, "type") != JString(MultiPolygonType) ==>
      ValidateGeometry(JObject(fields)) == Failure(NotMultiPolygon)
    ensures Get(fields, "type") == JString(MultiPolygonType)
            && ("coordinates" !in fields || !fields["coordinates"].JArray?) ==>
      ValidateGeometry(JObject(fields)) == Failure(MissingCoordinatesList)
    ensures Get(fields, "type") == JString(MultiPolygonType)
            && "coordinates" in fields && fields["coordinates"].JArray? ==>
      ValidateGeometry(JObject(fields)) != Failure(NotMultiPolygon)
      && ValidateGeometry(JObject(fields)) != Failure(MissingCoordinatesList)
  {
  }

  /** A ring with fewer than four positions, or a polygon or ring that is not a
      list, anywhere in the coordinates rejects the whole geometry. */
  lemma OneBadRingRejects(fields: map<string, Json>, i: nat, j: nat)
    requires Get(fields, "type") == JString(MultiPolygonType)
    requires "coordinates" in fields && fields["coordinates"].JArray?
    requires i < |fields["coordinates"].items|
    requires var polygon := fields["coordinates"].items[i];
      !polygon.JArray? || (j < |polygon.items| && !RingOk(polygon.items[j]))
    ensures ValidateGeometry(JObject(fields)) == Failure(InvalidStructure)
  {
  }

  /** The structure check is vacuous on empty lists: no polygons, or a polygon
      with no rings, is accepted although the error message asks for at least
      one area per polygon. */
  lemma EmptyListsAccepted(fields: map<string, Json>, polygons: nat)
    requires Get(fields, "type") == JString(MultiPolygonType)
    ensures var g := JObject(fields["coordinates" := JArray(seq(polygons, _ => JArray([])))]);
            ValidateGeometry(g) == Success(g)
  {
  }
}
