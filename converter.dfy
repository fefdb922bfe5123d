/**
 * The converter as the program runs it: the conversions write `used` marks into the
 * indexed elements as they go, and `_json2shapes` reads the marks back to filter the
 * shapes. A `Converter` holds what the conversions share: the index, tables and kernel,
 * which no conversion changes, and the `used` values written so far. Every method is
 * proved to return what its specification function in `ShapeSpec` returns and to leave
 * `used` as the old values with that function's marks written over them in order.
 */
module Conversion {
  import opened PyCore
  import opened Elements
  import opened Classifier
  import opened RefIndex
  import opened Geometry
  import opened ShapeSpec

  class Converter {
    const env: Env
    /** `el['used']` of every indexed element that has one, by index key. */
    var used: Used

    constructor (env: Env)
      ensures this.env == env && used == map[]
    {
      this.env := env;
      used := map[];
    }

    /** Writes `el['used'] = consumer` into the indexed element under `key`. */
    method SetUsed(key: RefKey, consumer: Id, ghost marks: seq<Mark>, ghost used0: Used)
      modifies this
      requires used == ApplyMarks(used0, marks)
      ensures used == ApplyMarks(used0, marks + [Mark(key, consumer)])
      ensures used == old(used)[key := consumer]
    {
      used := used[key := consumer];
      ApplyMarksAppend(used0, marks, [Mark(key, consumer)]);
    }

    /**
     * The loop over `way['nodes']` in `way_to_shape`: each node found in the index is
     * marked used by the way and contributes its coordinates; a node missing from the
     * index ends the loop with None.
     */
    method NodeCoords(nodes: seq<Id>, wayId: Option<Id>) returns (r: Outcome<Option<seq<Pos>>>)
      modifies this
      ensures r == NodeCoordsFrom(env.index, nodes, wayId, 0, [], []).out
      ensures used == ApplyMarks(old(used), NodeCoordsFrom(env.index, nodes, wayId, 0, [], []).marks)
    {
      ghost var spec := NodeCoordsFrom(env.index, nodes, wayId, 0, [], []);
      ghost var marks: seq<Mark> := [];
      ghost var used0 := used;
      var coords := [];
      var i := 0;
      while i < |nodes|
        invariant i <= |nodes|
        invariant NodeCoordsFrom(env.index, nodes, wayId, i, coords, marks) == spec
        invariant used == ApplyMarks(used0, marks)
      {
        var node := GetRef(env.index, "node", nodes[i]);
        if node.None? {
          return Returned(None);
        }
        if wayId.None? {
          return Raised;
        }
        SetUsed(NodeKey(nodes[i]), wayId.value, marks, used0);
        marks := marks + [Mark(NodeKey(nodes[i]), wayId.value)];
        if node.value.lat.None? || node.value.lon.None? {
          return Raised;
        }
        coords := coords + [Pos(node.value.lon.value, node.value.lat.value)];
        i := i + 1;
      }
      return Returned(Some(coords));
    }

    /**
     * `way_to_shape(way, refs_index, area_keys, polygon_features)`; `consumer` is what
     * `way['used']` holds, and `depth` how many reference hops are left before the
     * interpreter's recursion limit.
     */
    method WayToShape(given: Overrides, way: Element, consumer: Option<Id>, depth: nat)
      returns (r: Outcome<Option<Shape>>)
      modifies this
      ensures r == WayRun(env, given, way, consumer, depth).out
      ensures used == ApplyMarks(old(used), WayRun(env, given, way, consumer, depth).marks)
      decreases depth, 1
    {
      if way.center.Some? {
        return Returned(Some(Shape(Point(PosOf(way.center.value)), ElementProps(way))));
      }
      var coords: seq<Pos>;
      if HasGeometry(way) {
        coords := GeometryCoords(way.geometry.value);
      } else if HasNodes(way) {
        var nodeCoords := NodeCoords(way.nodes.value, way.id);
        if nodeCoords.Raised? {
          return Raised;
        }
        if nodeCoords.value.None? {
          return Returned(None);
        }
        coords := nodeCoords.value.value;
      } else if way.ref.Some? {
        var refCoords := RefCoords(given, way, consumer, depth);
        if refCoords.Raised? {
          return Raised;
        }
        if refCoords.value.None? {
          return Returned(None);
        }
        coords := refCoords.value.value;
      } else {
        return Returned(None);
      }
      r := WayShape(env, given, way, coords);
    }

    /** The `ref` branch of `way_to_shape`: the referenced element's coordinates. */
    method RefCoords(given: Overrides, way: Element, consumer: Option<Id>, depth: nat)
      returns (r: Outcome<Option<seq<Pos>>>)
      requires way.ref.Some?
      modifies this
      ensures r == RefCoordsRun(env, given, way, consumer, depth).out
      ensures used == ApplyMarks(old(used), RefCoordsRun(env, given, way, consumer, depth).marks)
      decreases depth, 0
    {
      var target := GetRef(env.index, way.etype, way.ref.value);
      if target.None? {
        return Returned(None);
      }
      ghost var used0 := used;
      ghost var marks: seq<Mark> := [];
      var c := RefConsumer(way, consumer);
      if c.Some? {
        SetUsed(RefKey(way.etype, way.ref.value), c.value, [], used0);
        marks := [Mark(RefKey(way.etype, way.ref.value), c.value)];
      }
      if depth == 0 {
        return Raised;
      }
      ghost var targetRun := WayRun(env, given, target.value, None, depth - 1);
      var refWay := WayToShape(given, target.value, None, depth - 1);
      ApplyMarksAppend(used0, marks, targetRun.marks);
      r := ShapeCoords(refWay);
    }

    /**
     * `multipolygon_relation_to_shape(rel, refs_index)`: every way member is converted,
     * with the relation's id as its `used`, and its line goes to the inner or the outer
     * list by role; the lists are then assembled into a polygon or multipolygon.
     */
    method MultipolygonRelationToShape(rel: Element, depth: nat) returns (r: Outcome<Option<Shape>>)
      modifies this
      ensures r == MultipolygonRun(env, rel, depth).out
      ensures used == ApplyMarks(old(used), MultipolygonRun(env, rel, depth).marks)
    {
      var members := MembersOf(env, rel);
      if members.Raised? {
        return Raised;
      }
      if members.value.None? {
        return Returned(None);
      }
      var ms := members.value.value;
      ghost var spec := MpMembersFrom(env, rel.id, ms, 0, [], [], [], depth);
      ghost var marks: seq<Mark> := [];
      ghost var used0 := used;
      var outer, inner := [], [];
      var i := 0;
      while i < |ms|
        invariant i <= |ms|
        invariant MpMembersFrom(env, rel.id, ms, i, outer, inner, marks, depth) == spec
        invariant used == ApplyMarks(used0, marks)
      {
        var m := ms[i];
        if m.etype == "way" {
          if rel.id.None? {
            return Raised;
          }
          ghost var w := WayRun(env, NoOverrides, m, rel.id, depth);
          var wayShape := WayToShape(NoOverrides, m, rel.id, depth);
          ApplyMarksAppend(used0, marks, w.marks);
          marks := marks + w.marks;
          if wayShape.Raised? {
            return Raised;
          }
          if wayShape.value.Some? {
            if m.role.None? {
              return Raised;
            }
            var line := AsLine(wayShape.value.value.geom);
            if m.role.value == "inner" {
              inner := inner + [line];
            } else {
              outer := outer + [line];
            }
          }
        }
        i := i + 1;
      }
      var multipolygon := ConvertWaysToMultipolygon(env.kernel, outer, inner);
      if multipolygon.Raised? {
        return Raised;
      }
      if multipolygon.value.None? {
        return Returned(None);
      }
      var shape := AssembleMultipolygon(env.kernel, multipolygon.value.value);
      if shape.Raised? {
        return Raised;
      }
      r := Returned(Some(Shape(shape.value, ElementProps(rel))));
    }

    /**
     * `relation_to_shape(rel, refs_index)`: a center is a point; otherwise the default
     * tables pick the conversion, and whatever it raises is caught and gives None.
     */
    method RelationToShape(rel: Element, depth: nat) returns (r: Outcome<Option<Shape>>)
      modifies this
      ensures r == RelationRun(env, rel, depth).out
      ensures used == ApplyMarks(old(used), RelationRun(env, rel, depth).marks)
      decreases depth, 3
    {
      if rel.center.Some? {
        return Returned(Some(Shape(Point(PosOf(rel.center.value)), ElementProps(rel))));
      }
      var isPolygon := IsGeometryPolygon(rel, NoOverrides, env.defaults);
      if isPolygon.Raised? {
        return Returned(None);
      }
      if isPolygon.value {
        r := MultipolygonRelationToShape(rel, depth);
      } else {
        r := MultilineRelationToShape(rel, depth);
      }
      if r.Raised? {
        r := Returned(None);
      }
    }

    /**
     * `multiline_realation_to_shape(rel, refs_index)`: way members are converted, relation
     * members are marked used by this relation when indexed and converted as elements; the
     * lines are merged.
     */
    method MultilineRelationToShape(rel: Element, depth: nat) returns (r: Outcome<Option<Shape>>)
      modifies this
      ensures r == MultilineRun(env, rel, depth).out
      ensures used == ApplyMarks(old(used), MultilineRun(env, rel, depth).marks)
      decreases depth, 2
    {
      var members := MembersOf(env, rel);
      if members.Raised? {
        return Raised;
      }
      if members.value.None? {
        return Returned(None);
      }
      var ms := members.value.value;
      ghost var spec := MlMembersFrom(env, rel, ms, 0, [], [], depth);
      ghost var marks: seq<Mark> := [];
      ghost var used0 := used;
      var lines := [];
      var i := 0;
      while i < |ms|
        invariant i <= |ms|
        invariant MlMembersFrom(env, rel, ms, i, lines, marks, depth) == spec
        invariant used == ApplyMarks(used0, marks)
      {
        ghost var step := MlMemberRun(env, rel, ms[i], depth);
        var line := MultilineMember(rel, ms[i], depth);
        ApplyMarksAppend(used0, marks, step.marks);
        marks := marks + step.marks;
        if line.Raised? {
          return Raised;
        }
        if line.value.Some? {
          lines := lines + [line.value.value];
        }
        i := i + 1;
      }
      if |lines| < 1 {
        return Returned(None);
      }
      var merged := env.kernel.lineMerge(lines);
      if merged.Raised? {
        return Raised;
      }
      r := Returned(Some(Shape(merged.value, ElementProps(rel))));
    }

    /** One pass of the member loop of `multiline_realation_to_shape`. */
    method MultilineMember(rel: Element, m: Element, depth: nat) returns (r: Outcome<Option<Geometry>>)
      modifies this
      ensures r == MlMemberRun(env, rel, m, depth).out
      ensures used == ApplyMarks(old(used), MlMemberRun(env, rel, m, depth).marks)
      decreases depth, 1
    {
      if m.etype == "way" {
        var wayShape := WayToShape(NoOverrides, m, None, depth);
        r := LineOf(wayShape);
      } else if m.etype == "relation" {
        if m.ref.None? {
          return Raised;
        }
        var found := GetRef(env.index, m.etype, m.ref.value);
        ghost var used0 := used;
        ghost var marks: seq<Mark> := [];
        if found.Some? {
          if rel.id.None? {
            return Raised;
          }
          SetUsed(RefKey(m.etype, m.ref.value), rel.id.value, [], used0);
          marks := [Mark(RefKey(m.etype, m.ref.value), rel.id.value)];
        }
        if depth == 0 {
          return Raised;
        }
        ghost var sub := RelationRun(env, m, depth - 1);
        var subShape := RelationToShape(m, depth - 1);
        ApplyMarksAppend(used0, marks, sub.marks);
        r := LineOf(subShape);
      } else {
        r := Returned(None);
      }
    }

    /** `element_to_shape(el, refs_index, area_keys, polygon_features)` */
    method ElementToShape(given: Overrides, el: Element, depth: nat) returns (r: Outcome<Option<Shape>>)
      modifies this
      ensures r == ElementRun(env, given, el, depth).out
      ensures used == ApplyMarks(old(used), ElementRun(env, given, el, depth).marks)
    {
      if el.etype == "node" {
        if el.lat.None? || el.lon.None? {
          return Raised;
        }
        return Returned(Some(Shape(Point(Pos(el.lon.value, el.lat.value)), ElementProps(el))));
      } else if el.etype == "way" {
        r := WayToShape(given, el, None, depth);
      } else if el.etype == "relation" {
        r := RelationToShape(el, depth);
      } else {
        return Returned(None);
      }
    }
    /** The loop over `data['elements']` in `_json2shapes`, keeping the shapes made. */
    method ConvertElements(given: Overrides, els: seq<Element>, depth: nat) returns (r: Outcome<seq<Shape>>)
      modifies this
      ensures r == ConvertFrom(env, given, els, 0, [], [], depth).out
      ensures used == ApplyMarks(old(used), ConvertFrom(env, given, els, 0, [], [], depth).marks)
    {
      ghost var spec := ConvertFrom(env, given, els, 0, [], [], depth);
      ghost var marks: seq<Mark> := [];
      ghost var used0 := used;
      var shapes := [];
      for i := 0 to |els|
        invariant ConvertFrom(env, given, els, i, shapes, marks, depth) == spec
        invariant used == ApplyMarks(used0, marks)
      {
        ghost var e := ElementRun(env, given, els[i], depth);
        var shape := ElementToShape(given, els[i], depth);
        ApplyMarksAppend(used0, marks, e.marks);
        marks := marks + e.marks;
        if shape.Raised? {
          return Raised;
        }
        if shape.value.Some? {
          shapes := shapes + [shape.value.value];
        }
      }
      return Returned(shapes);
    }
  }

  /** The filter loop at the end of `_json2shapes`. */
  method FilterUsed(shapes: seq<Shape>, ids: set<Id>) returns (r: Outcome<seq<Shape>>)
    ensures r == DropUsed(shapes, ids)
  {
    var kept := [];
    for j := 0 to |shapes|
      invariant forall l :: 0 <= l < j ==> shapes[l].props.id.Some?
      invariant kept == Filter(shapes[..j], KeepUnused(ids))
    {
      if shapes[j].props.id.None? {
        return Raised;
      }
      var shape := shapes[j];
      assert shapes[..j + 1] == shapes[..j] + [shape];
      FilterSnoc(shapes[..j], shape, KeepUnused(ids));
      if shape.props.id.value !in ids {
        kept := kept + [shape];
      }
    }
    assert shapes[..|shapes|] == shapes;
    return Returned(kept);
  }

  /**
   * `_json2shapes(data, filter_used_refs, log_level, area_keys, polygon_features)` for
   * `data['elements']`, with `depth` standing for the interpreter's recursion limit.
   */
  method Json2Shapes(els: seq<Element>, filterUsedRefs: bool, given: Overrides, defaults: Tables,
                     kernel: Kernel, depth: nat) returns (r: Outcome<seq<Shape>>)
    ensures r == Json2ShapesSpec(els, filterUsedRefs, given, defaults, kernel, depth)
  {
    var refs := Filter(els, IsRefType);
    var refsIndex := BuildRefsIndex(refs);
    if refsIndex.Raised? {
      return Raised;
    }
    var converter := new Converter(Env(refsIndex.value, defaults, kernel));
    var shapes := converter.ConvertElements(given, els, depth);
    if shapes.Raised? || !filterUsedRefs {
      return shapes;
    }
    r := FilterUsed(shapes.value, UsedIds(converter.env.index, converter.used));
  }
}
