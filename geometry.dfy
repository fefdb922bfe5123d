/**
 * The geometry vocabulary of the converter and the small pure helpers around the planar
 * geometry library. The library itself (polygon construction, validity, zero buffer,
 * line merging, union, difference, orientation) is a `Kernel` of uninterpreted functions;
 * only the control flow around those calls is modelled.
 */
module Geometry {
  import opened PyCore

  /** A coordinate pair in GeoJSON order: x is the longitude, y the latitude. */
  datatype Pos = Pos(x: real, y: real)

  datatype Poly = Poly(shell: seq<Pos>, holes: seq<seq<Pos>>)

  /** The GeoJSON geometry types of section 3.1 of RFC 7946 that the converter produces. */
  datatype Geometry =
    | Point(p: Pos)
    | LineString(coords: seq<Pos>)
    | Polygon(poly: Poly)
    | MultiPolygon(polys: seq<Poly>)
    | MultiLineString(lines: seq<seq<Pos>>)
    | GeometryCollection(geoms: seq<Geometry>)

  /**
   * The planar geometry library, as the functions the converter calls.
   * `makePolygon` is `Polygon(coords)`, None where the library raises;
   * `lineMerge` is `linemerge(MultiLineString(lines))`;
   * `linesToMultipolygon` is `_convert_lines_to_multipolygon(lines)`.
   */
  datatype Kernel = Kernel(
    makePolygon: seq<Pos> -> Option<Poly>,
    isValid: Geometry -> bool,
    buffer0: Geometry -> Geometry,
    lineMerge: seq<Geometry> -> Outcome<Geometry>,
    linesToMultipolygon: seq<Geometry> -> Outcome<Option<Geometry>>,
    difference: (Geometry, Geometry) -> Geometry,
    orient: Poly -> Poly)

  /** `fix_invalid_polygon`: a valid geometry is kept, an invalid one is replaced by its zero buffer. */
  function FixInvalid(k: Kernel, g: Geometry): (r: Geometry)
    ensures k.isValid(g) ==> r == g
    ensures !k.isValid(g) ==> r == k.buffer0(g)
  {
    if !k.isValid(g) then k.buffer0(g) else g
  }

  predicate IsPolygonGeom(g: Geometry) {
    g.Polygon?
  }

  /**
   * The polygons of a geometry collection, in collection order: one for each polygon
   * member, repeats included, as the list comprehension keeps them.
   */
  function PolysOf(gs: seq<Geometry>): (ps: seq<Poly>)
    ensures |ps| <= |gs|
    ensures forall p :: p in ps <==> Polygon(p) in gs
    ensures |ps| == |Filter(gs, IsPolygonGeom)|
    ensures forall i :: 0 <= i < |ps| ==> Polygon(ps[i]) == Filter(gs, IsPolygonGeom)[i]
  {
    if gs == [] then []
    else
      var rest := PolysOf(gs[1..]);
      var ps := if gs[0].Polygon? then [gs[0].poly] + rest else rest;
      PolysStep(gs, rest, ps);
      ps
  }

  /** One step of `PolysOf`: a leading polygon goes in front, anything else is skipped. */
  lemma PolysStep(gs: seq<Geometry>, rest: seq<Poly>, ps: seq<Poly>)
    requires gs != []
    requires |rest| <= |gs[1..]|
    requires forall p :: p in rest <==> Polygon(p) in gs[1..]
    requires |rest| == |Filter(gs[1..], IsPolygonGeom)|
    requires forall i :: 0 <= i < |rest| ==> Polygon(rest[i]) == Filter(gs[1..], IsPolygonGeom)[i]
    requires ps == if gs[0].Polygon? then [gs[0].poly] + rest else rest
    ensures |ps| <= |gs|
    ensures forall p :: p in ps <==> Polygon(p) in gs
    ensures |ps| == |Filter(gs, IsPolygonGeom)|
    ensures forall i :: 0 <= i < |ps| ==> Polygon(ps[i]) == Filter(gs, IsPolygonGeom)[i]
  {
    assert forall g :: g in gs <==> g == gs[0] || g in gs[1..];
    if gs[0].Polygon? {
      assert Filter(gs, IsPolygonGeom) == [gs[0]] + Filter(gs[1..], IsPolygonGeom);
      assert forall i :: 1 <= i < |ps| ==> ps[i] == rest[i - 1];
    } else {
      assert Filter(gs, IsPolygonGeom) == Filter(gs[1..], IsPolygonGeom);
    }
  }

  /**
   * `to_multipolygon`: a multipolygon as it is, a collection reduced to its polygons, a
   * polygon wrapped; anything else is None.
   */
  function ToMultipolygon(g: Geometry): (r: Option<Geometry>)
    ensures r.Some? <==> g.MultiPolygon? || g.GeometryCollection? || g.Polygon?
    ensures r.Some? ==> r.value.MultiPolygon?
    ensures g.MultiPolygon? ==> r == Some(g)
    ensures g.Polygon? ==> r == Some(MultiPolygon([g.poly]))
    ensures g.GeometryCollection? ==>
      (forall p :: p in r.value.polys <==> Polygon(p) in g.geoms) &&
      |r.value.polys| == |Filter(g.geoms, IsPolygonGeom)| &&
      forall i :: 0 <= i < |r.value.polys| ==> Polygon(r.value.polys[i]) == Filter(g.geoms, IsPolygonGeom)[i]
  {
    match g
    case MultiPolygon(_) => Some(g)
    case GeometryCollection(gs) => Some(MultiPolygon(PolysOf(gs)))
    case Polygon(p) => Some(MultiPolygon([p]))
    case _ => None
  }

  /** Reducing to a multipolygon twice is reducing once. */
  lemma ToMultipolygonIdempotent(g: Geometry)
    requires ToMultipolygon(g).Some?
    ensures ToMultipolygon(ToMultipolygon(g).value) == ToMultipolygon(g)
  {
  }

  /** The polygons a polygonal geometry stands for. */
  function Polygons(g: Geometry): seq<Poly>
    requires g.Polygon? || g.MultiPolygon?
  {
    if g.Polygon? then [g.poly] else g.polys
  }

  /**
   * `get_polygon_or_multipolygon`: a single polygon comes out as a Polygon, any other
   * count as a MultiPolygon, and the polygons are the same either way.
   */
  function GetPolygonOrMultipolygon(ps: seq<Poly>): (r: Geometry)
    ensures r.Polygon? <==> |ps| == 1
    ensures r.Polygon? || r.MultiPolygon?
    ensures Polygons(r) == ps
  {
    if |ps| == 1 then Polygon(ps[0]) else MultiPolygon(ps)
  }

  /** `orient_multipolygon`: every polygon oriented, in order. */
  function OrientAll(k: Kernel, ps: seq<Poly>): (r: seq<Poly>)
    ensures |r| == |ps|
    ensures forall i :: 0 <= i < |ps| ==> r[i] == k.orient(ps[i])
  {
    if ps == [] then [] else [k.orient(ps[0])] + OrientAll(k, ps[1..])
  }

  /**
   * `convert_ways_to_multipolygon(outer, inner)`: no outer line means no shape; the inner
   * lines, when there are some and they convert, are subtracted from the outer polygon.
   */
  function ConvertWaysToMultipolygon(k: Kernel, outer: seq<Geometry>, inner: seq<Geometry>)
    : (r: Outcome<Option<Geometry>>)
    ensures |outer| == 0 ==> r == Returned(None)
    ensures |outer| > 0 && |inner| == 0 ==> r == k.linesToMultipolygon(outer)
    ensures |outer| > 0 && k.linesToMultipolygon(outer) == Returned(None) ==> r == Returned(None)
    // A failing inner conversion falls back to the outer polygon.
    ensures |outer| > 0 && |inner| > 0 && k.linesToMultipolygon(inner) == Returned(None) ==>
      r == k.linesToMultipolygon(outer)
    // A raising conversion of the outer lines, or of the inner ones after the outer
    // converted, raises.
    ensures |outer| > 0 && k.linesToMultipolygon(outer).Raised? ==> r.Raised?
    ensures |outer| > 0 && |inner| > 0 && k.linesToMultipolygon(outer).Returned? &&
            k.linesToMultipolygon(outer).value.Some? && k.linesToMultipolygon(inner).Raised? ==>
      r.Raised?
    // Both converted: the inner polygon is subtracted from the outer one.
    ensures |outer| > 0 && |inner| > 0 && k.linesToMultipolygon(outer).Returned? &&
            k.linesToMultipolygon(outer).value.Some? && k.linesToMultipolygon(inner).Returned? &&
            k.linesToMultipolygon(inner).value.Some? ==>
      r == Returned(ToMultipolygon(k.difference(k.linesToMultipolygon(outer).value.value,
                                                k.linesToMultipolygon(inner).value.value)))
    // A successful difference is always a multipolygon.
    ensures (r.Returned? && r.value.Some? && |inner| > 0 && k.linesToMultipolygon(inner).Returned? &&
             k.linesToMultipolygon(inner).value.Some?) ==> r.value.value.MultiPolygon?
  {
    if |outer| < 1 then Returned(None)
    else
      match k.linesToMultipolygon(outer)
      case Raised => Raised
      case Returned(None) => Returned(None)
      case Returned(Some(outerPolygon)) =>
        if |inner| < 1 then Returned(Some(outerPolygon))
        else
          match k.linesToMultipolygon(inner)
          case Raised => Raised
          case Returned(None) => Returned(Some(outerPolygon))
          case Returned(Some(innerPolygon)) =>
            Returned(ToMultipolygon(k.difference(outerPolygon, innerPolygon)))
  }

  /**
   * The tail of `multipolygon_relation_to_shape`: repair, reduce to a multipolygon,
   * orient, and unwrap a single polygon. A geometry that does not reduce to a
   * multipolygon makes `orient_multipolygon(None)` raise.
   */
  function AssembleMultipolygon(k: Kernel, g: Geometry): (r: Outcome<Geometry>)
    ensures r.Returned? <==> ToMultipolygon(FixInvalid(k, g)).Some?
    ensures r.Returned? ==> r.value.Polygon? || r.value.MultiPolygon?
    ensures r.Returned? ==>
      Polygons(r.value) == OrientAll(k, ToMultipolygon(FixInvalid(k, g)).value.polys)
  {
    match ToMultipolygon(FixInvalid(k, g))
    case None => Raised
    case Some(mp) => Returned(GetPolygonOrMultipolygon(OrientAll(k, mp.polys)))
  }

  /** A polygon member shape is used through its exterior ring as a line. */
  function AsLine(g: Geometry): (r: Geometry)
    ensures !r.Polygon?
    ensures g.Polygon? ==> r == LineString(g.poly.shell)
    ensures !g.Polygon? ==> r == g
  {
    if g.Polygon? then LineString(g.poly.shell) else g
  }

  /**
   * `.coords` of the shape of a referenced way (the exterior of a polygon); None where
   * the library raises because the geometry has no coordinate sequence.
   */
  function CoordsOf(g: Geometry): (r: Option<seq<Pos>>)
    ensures r.Some? <==> g.Point? || g.LineString? || g.Polygon?
    ensures g.Point? ==> r == Some([g.p])
    ensures g.LineString? ==> r == Some(g.coords)
    ensures g.Polygon? ==> r == Some(g.poly.shell)
  {
    match g
    case Point(p) => Some([p])
    case LineString(cs) => Some(cs)
    case Polygon(p) => Some(p.shell)
    case _ => None
  }

  // ---------------------------------------------------------------------------
  // convert_coords_to_lists
  // ---------------------------------------------------------------------------

  /** The `coordinates` of a mapped geometry: floats nested in tuples and lists. */
  datatype Coord = Num(x: real) | Tuple(items: seq<Coord>) | List(items: seq<Coord>)

  /**
   * `convert_coords_to_lists(coords)`: an empty sequence becomes an empty list, a
   * sequence of floats is copied into a list, any other sequence is converted element by
   * element. Taking the length of a float raises.
   */
  function ConvertCoordsToLists(c: Coord): (r: Outcome<Coord>)
    ensures r.Returned? ==> r.value.List?
    ensures c.Num? ==> r == Raised
    decreases c
  {
    if c.Num? then Raised
    else if |c.items| < 1 then Returned(List([]))
    else if c.items[0].Num? then Returned(List(c.items))
    else
      var rs := seq(|c.items|, i requires 0 <= i < |c.items| => ConvertCoordsToLists(c.items[i]));
      if forall i :: 0 <= i < |rs| ==> rs[i].Returned? then
        Returned(List(seq(|rs|, i requires 0 <= i < |rs| && rs[i].Returned? => rs[i].value)))
      else
        Raised
  }

  /** Nested to the same depth everywhere: floats at depth 0, sequences of depth d-1 at d. */
  predicate Nested(c: Coord, d: nat)
    decreases c
  {
    if d == 0 then c.Num?
    else !c.Num? && forall i :: 0 <= i < |c.items| ==> Nested(c.items[i], d - 1)
  }

  predicate NoTuples(c: Coord)
    decreases c
  {
    !c.Tuple? && (c.List? ==> forall i :: 0 <= i < |c.items| ==> NoTuples(c.items[i]))
  }

  /** The same floats in the same nesting, whether in tuples or lists. */
  predicate SameValues(a: Coord, b: Coord)
    decreases a
  {
    if a.Num? || b.Num? then a == b
    else |a.items| == |b.items| &&
         forall i :: 0 <= i < |a.items| ==> SameValues(a.items[i], b.items[i])
  }

  /**
   * On a uniformly nested coordinate value (which is what a geometry mapping produces),
   * the conversion succeeds, leaves no tuple anywhere and keeps every float in place.
   */
  lemma {:induction false} ConvertCoordsToListsKeepsValues(c: Coord, d: nat)
    requires d >= 1 && Nested(c, d)
    ensures ConvertCoordsToLists(c).Returned?
    ensures NoTuples(ConvertCoordsToLists(c).value)
    ensures SameValues(ConvertCoordsToLists(c).value, c)
    decreases c
  {
    if |c.items| >= 1 && !c.items[0].Num? {
      forall i | 0 <= i < |c.items|
        ensures ConvertCoordsToLists(c.items[i]).Returned?
        ensures NoTuples(ConvertCoordsToLists(c.items[i]).value)
        ensures SameValues(ConvertCoordsToLists(c.items[i]).value, c.items[i])
      {
        ConvertCoordsToListsKeepsValues(c.items[i], d - 1);
      }
    } else if |c.items| >= 1 {
      forall i | 0 <= i < |c.items| ensures c.items[i].Num? {
        assert Nested(c.items[i], d - 1);
        if d >= 2 {
          assert Nested(c.items[0], d - 1);
        }
      }
    }
  }
}
