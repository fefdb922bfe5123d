/**
 * What converting OSM elements to shapes computes, as functions: the way, relation and
 * element conversions and `_json2shapes`. Each conversion returns its outcome together
 * with the `used` marks it writes, in order, into indexed elements; the marks do not
 * depend on the marks already written, so a conversion is a function of its inputs.
 */
module ShapeSpec {
  import opened PyCore
  import opened Elements
  import opened Classifier
  import opened RefIndex
  import opened Geometry

  /** What every conversion reads and none changes: the index, the tables, the kernel. */
  datatype Env = Env(index: Index, defaults: Tables, kernel: Kernel)

  /** `{'shape': ..., 'properties': ...}` */
  datatype Shape = Shape(geom: Geometry, props: Props)

  /** `el['used'] = consumer`, written into the indexed element stored under `key`. */
  datatype Mark = Mark(key: RefKey, consumer: Id)

  /** The outcome of a conversion and the marks it wrote, in order. */
  datatype Run<+T> = Run(out: Outcome<T>, marks: seq<Mark>)

  /** The `used` values of indexed elements, by index key. */
  type Used = map<RefKey, Id>

  ghost predicate MarksKey(ms: seq<Mark>, k: RefKey) {
    exists i :: 0 <= i < |ms| && ms[i].key == k
  }

  predicate MarksWithin(ms: seq<Mark>, index: Index) {
    forall i :: 0 <= i < |ms| ==> ms[i].key in index
  }

  /** No later mark has the same key as mark `i`. */
  predicate LastMarkOf(ms: seq<Mark>, i: int)
    requires 0 <= i < |ms|
  {
    forall j :: i < j < |ms| ==> ms[j].key != ms[i].key
  }

  /** The marks written one after the other into the `used` values. */
  function ApplyMarks(used: Used, ms: seq<Mark>): Used
    decreases |ms|
  {
    if ms == [] then used else ApplyMarks(used[ms[0].key := ms[0].consumer], ms[1..])
  }

  /**
   * After the marks are written, a key has a `used` value exactly when it had one or is
   * marked; an unmarked key keeps its value; a marked key holds its last mark's consumer.
   */
  lemma {:induction false} ApplyMarksMeaning(used: Used, ms: seq<Mark>)
    ensures forall k :: k in ApplyMarks(used, ms) <==> k in used || MarksKey(ms, k)
    ensures forall k :: k in ApplyMarks(used, ms) && !MarksKey(ms, k) ==> ApplyMarks(used, ms)[k] == used[k]
    ensures forall i :: 0 <= i < |ms| && LastMarkOf(ms, i) ==>
      ms[i].key in ApplyMarks(used, ms) && ApplyMarks(used, ms)[ms[i].key] == ms[i].consumer
    decreases |ms|
  {
    if ms != [] {
      ApplyMarksMeaning(used[ms[0].key := ms[0].consumer], ms[1..]);
      assert forall k :: MarksKey(ms, k) <==> k == ms[0].key || MarksKey(ms[1..], k) by {
        forall k | MarksKey(ms, k) && k != ms[0].key ensures MarksKey(ms[1..], k) {
          var i :| 0 <= i < |ms| && ms[i].key == k;
          assert ms[1..][i - 1].key == k;
        }
        forall k | MarksKey(ms[1..], k) ensures MarksKey(ms, k) {
          var i :| 0 <= i < |ms[1..]| && ms[1..][i].key == k;
          assert ms[i + 1].key == k;
        }
      }
      assert forall i :: 1 <= i < |ms| && LastMarkOf(ms, i) ==> LastMarkOf(ms[1..], i - 1);
      assert LastMarkOf(ms, 0) ==> !MarksKey(ms[1..], ms[0].key);
    }
  }

  lemma {:induction false} ApplyMarksAppend(used: Used, a: seq<Mark>, b: seq<Mark>)
    ensures ApplyMarks(used, a + b) == ApplyMarks(ApplyMarks(used, a), b)
    decreases |a|
  {
    if a == [] {
      assert a + b == b;
    } else {
      assert (a + b)[1..] == a[1..] + b;
      ApplyMarksAppend(used[a[0].key := a[0].consumer], a[1..], b);
    }
  }

  // ---------------------------------------------------------------------------
  // Coordinates of a way
  // ---------------------------------------------------------------------------

  /** `[lon, lat]` */
  function PosOf(ll: LatLon): Pos {
    Pos(ll.lon, ll.lat)
  }

  /** `[[nd['lon'], nd['lat']] for nd in way['geometry']]` */
  function GeometryCoords(g: seq<LatLon>): (cs: seq<Pos>)
    ensures |cs| == |g|
    ensures forall i :: 0 <= i < |g| ==> cs[i] == Pos(g[i].lon, g[i].lat)
  {
    seq(|g|, i requires 0 <= i < |g| => PosOf(g[i]))
  }

  function NodeKey(id: Id): RefKey {
    RefKey("node", id)
  }

  /** The node is indexed and has both coordinates. */
  predicate Resolvable(index: Index, id: Id) {
    NodeKey(id) in index && index[NodeKey(id)].lat.Some? && index[NodeKey(id)].lon.Some?
  }

  function NodePos(index: Index, id: Id): Pos
    requires Resolvable(index, id)
  {
    Pos(index[NodeKey(id)].lon.value, index[NodeKey(id)].lat.value)
  }

  /** The positions of resolvable nodes, in node-list order. */
  function NodePositions(index: Index, ids: seq<Id>): (ps: seq<Pos>)
    requires forall j :: 0 <= j < |ids| ==> Resolvable(index, ids[j])
    ensures |ps| == |ids|
    ensures forall j :: 0 <= j < |ids| ==> ps[j] == NodePos(index, ids[j])
  {
    seq(|ids|, j requires 0 <= j < |ids| => NodePos(index, ids[j]))
  }

  /** One mark per node, by the way's id. */
  function NodeMarks(ids: seq<Id>, wayId: Id): (ms: seq<Mark>)
    ensures |ms| == |ids|
    ensures forall j :: 0 <= j < |ids| ==> ms[j] == Mark(NodeKey(ids[j]), wayId)
  {
    seq(|ids|, j requires 0 <= j < |ids| => Mark(NodeKey(ids[j]), wayId))
  }

  /**
   * The loop over `way['nodes']` from position `i`, with the coordinates and marks so far:
   * a missing node ends it with None; a found node is marked by the way's id (a way without
   * id raises) and then contributes its coordinates (a node without them raises).
   */
  function NodeCoordsFrom(index: Index, nodes: seq<Id>, wayId: Option<Id>, i: nat,
                          coords: seq<Pos>, marks: seq<Mark>): (r: Run<Option<seq<Pos>>>)
    requires i <= |nodes|
    ensures MarksWithin(marks, index) ==> MarksWithin(r.marks, index)
    decreases |nodes| - i
  {
    if i == |nodes| then Run(Returned(Some(coords)), marks)
    else
      match GetRef(index, "node", nodes[i])
      case None => Run(Returned(None), marks)
      case Some(node) =>
        if wayId.None? then Run(Raised, marks)
        else
          var marks' := marks + [Mark(NodeKey(nodes[i]), wayId.value)];
          if node.lat.None? || node.lon.None? then Run(Raised, marks')
          else NodeCoordsFrom(index, nodes, wayId, i + 1,
                              coords + [Pos(node.lon.value, node.lat.value)], marks')
  }

  /**
   * When every node from `i` on resolves, the loop adds their coordinates in node-list
   * order, one per id, and marks each of them by the way's id.
   */
  lemma {:induction false} NodeCoordsAllResolved(index: Index, nodes: seq<Id>, wayId: Id, i: nat,
                                                 coords: seq<Pos>, marks: seq<Mark>)
    requires i <= |nodes|
    requires forall j :: i <= j < |nodes| ==> Resolvable(index, nodes[j])
    ensures NodeCoordsFrom(index, nodes, Some(wayId), i, coords, marks) ==
            Run(Returned(Some(coords + NodePositions(index, nodes[i..]))),
                marks + NodeMarks(nodes[i..], wayId))
    decreases |nodes| - i
  {
    if i == |nodes| {
      assert coords + NodePositions(index, nodes[i..]) == coords;
      assert marks + NodeMarks(nodes[i..], wayId) == marks;
    } else {
      var p := NodePos(index, nodes[i]);
      var m := Mark(NodeKey(nodes[i]), wayId);
      assert GetRef(index, "node", nodes[i]) == Some(index[NodeKey(nodes[i])]);
      NodeCoordsAllResolved(index, nodes, wayId, i + 1, coords + [p], marks + [m]);
      var rest := nodes[i + 1..];
      assert nodes[i..] == [nodes[i]] + rest;
      SeqAppendAssoc(coords, [p], NodePositions(index, rest));
      SeqAppendAssoc(marks, [m], NodeMarks(rest, wayId));
      NodePositionsCons(index, nodes[i], rest);
      NodeMarksCons(nodes[i], rest, wayId);
    }
  }

  lemma NodePositionsCons(index: Index, id: Id, ids: seq<Id>)
    requires Resolvable(index, id)
    requires forall j :: 0 <= j < |ids| ==> Resolvable(index, ids[j])
    ensures NodePositions(index, [id] + ids) == [NodePos(index, id)] + NodePositions(index, ids)
  {
  }

  lemma NodeMarksCons(id: Id, ids: seq<Id>, wayId: Id)
    ensures NodeMarks([id] + ids, wayId) == [Mark(NodeKey(id), wayId)] + NodeMarks(ids, wayId)
  {
  }

  /**
   * When node `miss` is the first one missing from the index, the loop gives None, and
   * the nodes before it stay marked.
   */
  lemma {:induction false} NodeCoordsFirstMiss(index: Index, nodes: seq<Id>, wayId: Id, i: nat,
                                               miss: nat, coords: seq<Pos>, marks: seq<Mark>)
    requires i <= miss < |nodes|
    requires forall j :: i <= j < miss ==> Resolvable(index, nodes[j])
    requires NodeKey(nodes[miss]) !in index
    ensures NodeCoordsFrom(index, nodes, Some(wayId), i, coords, marks) ==
            Run(Returned(None), marks + NodeMarks(nodes[i..miss], wayId))
    decreases |nodes| - i
  {
    if i == miss {
      assert marks + NodeMarks(nodes[i..miss], wayId) == marks;
    } else {
      var p := NodePos(index, nodes[i]);
      var m := Mark(NodeKey(nodes[i]), wayId);
      assert GetRef(index, "node", nodes[i]) == Some(index[NodeKey(nodes[i])]);
      NodeCoordsFirstMiss(index, nodes, wayId, i + 1, miss, coords + [p], marks + [m]);
      assert NodeMarks(nodes[i..miss], wayId) == [m] + NodeMarks(nodes[i + 1..miss], wayId);
      assert marks + [m] + NodeMarks(nodes[i + 1..miss], wayId) ==
             marks + NodeMarks(nodes[i..miss], wayId);
    }
  }

  // ---------------------------------------------------------------------------
  // way_to_shape
  // ---------------------------------------------------------------------------

  /**
   * The end of `way_to_shape` once coordinates are known: too few make no shape; the
   * classifier picks a (repaired) polygon or a line; a polygon the library refuses makes
   * no shape.
   */
  function WayShape(env: Env, given: Overrides, way: Element, coords: seq<Pos>): (r: Outcome<Option<Shape>>)
    ensures |coords| < 2 ==> r == Returned(None)
    ensures |coords| >= 2 ==>
      (r == Raised <==> IsGeometryPolygon(way, given, env.defaults) == Raised)
    ensures |coords| >= 2 && IsGeometryPolygon(way, given, env.defaults) == Returned(false) ==>
      r == Returned(Some(Shape(LineString(coords), ElementProps(way))))
    ensures |coords| >= 2 && IsGeometryPolygon(way, given, env.defaults) == Returned(true) ==>
      (r == Returned(None) <==> env.kernel.makePolygon(coords).None?) &&
      (r.Returned? && r.value.Some? ==> r.value.value.geom == FixInvalid(env.kernel, Polygon(env.kernel.makePolygon(coords).value)))
    ensures r.Returned? && r.value.Some? ==> r.value.value.props == ElementProps(way)
  {
    if |coords| < 2 then Returned(None)
    else
      match IsGeometryPolygon(way, given, env.defaults)
      case Raised => Raised
      case Returned(isPolygon) =>
        if isPolygon then
          match env.kernel.makePolygon(coords)
          case None => Returned(None)
          case Some(p) => Returned(Some(Shape(FixInvalid(env.kernel, Polygon(p)), ElementProps(way))))
        else
          Returned(Some(Shape(LineString(coords), ElementProps(way))))
  }

  predicate HasGeometry(way: Element) {
    way.geometry.Some? && |way.geometry.value| > 0
  }

  predicate HasNodes(way: Element) {
    way.nodes.Some? && |way.nodes.value| > 0
  }

  /** The way takes its coordinates from the element it references. */
  predicate UsesRef(way: Element) {
    way.center.None? && !HasGeometry(way) && !HasNodes(way) && way.ref.Some?
  }

  predicate NoCoordinateSource(way: Element) {
    way.center.None? && !HasGeometry(way) && !HasNodes(way) && way.ref.None?
  }

  /** Who a referenced element is marked used by: the way's id, else the way's own `used`. */
  function RefConsumer(way: Element, consumer: Option<Id>): Option<Id> {
    if way.id.Some? then way.id else consumer
  }

  /**
   * `way_to_shape(way, refs_index, area_keys, polygon_features)`. `consumer` is the value
   * of `way['used']` (set on relation members before they are converted); `depth` is how
   * many more reference hops the interpreter allows.
   */
  function WayRun(env: Env, given: Overrides, way: Element, consumer: Option<Id>, depth: nat)
    : (r: Run<Option<Shape>>)
    ensures MarksWithin(r.marks, env.index)
    ensures r.out.Returned? && r.out.value.Some? ==> r.out.value.value.props == ElementProps(way)
    // Source priority: center, then geometry, then nodes, then ref, else nothing.
    ensures way.center.Some? ==>
      r == Run(Returned(Some(Shape(Point(PosOf(way.center.value)), ElementProps(way)))), [])
    ensures way.center.None? && HasGeometry(way) ==>
      r == Run(WayShape(env, given, way, GeometryCoords(way.geometry.value)), [])
    ensures way.center.None? && !HasGeometry(way) && HasNodes(way) ==>
      var nodeRun := NodeCoordsFrom(env.index, way.nodes.value, way.id, 0, [], []);
      r.marks == nodeRun.marks &&
      (nodeRun.out.Returned? && nodeRun.out.value.Some? ==>
         r.out == WayShape(env, given, way, nodeRun.out.value.value)) &&
      (nodeRun.out == Returned(None) ==> r.out == Returned(None)) &&
      (nodeRun.out.Raised? ==> r.out.Raised?)
    ensures NoCoordinateSource(way) ==> r == Run(Returned(None), [])
    // A reference that is not indexed makes no shape; one that is gets marked first.
    ensures UsesRef(way) && GetRef(env.index, way.etype, way.ref.value).None? ==>
      r == Run(Returned(None), [])
    ensures UsesRef(way) && GetRef(env.index, way.etype, way.ref.value).Some? &&
            RefConsumer(way, consumer).Some? ==>
      |r.marks| > 0 &&
      r.marks[0] == Mark(RefKey(way.etype, way.ref.value), RefConsumer(way, consumer).value)
    decreases depth, 1
  {
    if way.center.Some? then
      Run(Returned(Some(Shape(Point(PosOf(way.center.value)), ElementProps(way)))), [])
    else if HasGeometry(way) then
      Run(WayShape(env, given, way, GeometryCoords(way.geometry.value)), [])
    else if HasNodes(way) then
      var nodeRun := NodeCoordsFrom(env.index, way.nodes.value, way.id, 0, [], []);
      match nodeRun.out
      case Raised => Run(Raised, nodeRun.marks)
      case Returned(None) => Run(Returned(None), nodeRun.marks)
      case Returned(Some(coords)) => Run(WayShape(env, given, way, coords), nodeRun.marks)
    else if way.ref.Some? then
      var refRun := RefCoordsRun(env, given, way, consumer, depth);
      match refRun.out
      case Raised => Run(Raised, refRun.marks)
      case Returned(None) => Run(Returned(None), refRun.marks)
      case Returned(Some(coords)) => Run(WayShape(env, given, way, coords), refRun.marks)
    else
      Run(Returned(None), [])
  }

  /**
   * The `ref` branch of `way_to_shape`: the referenced element is looked up (None when it
   * is not indexed), marked used by the way's id or else by the way's own `used` (not
   * marked when it has neither), converted in turn, and its coordinates taken.
   */
  function RefCoordsRun(env: Env, given: Overrides, way: Element, consumer: Option<Id>, depth: nat)
    : (r: Run<Option<seq<Pos>>>)
    requires way.ref.Some?
    ensures MarksWithin(r.marks, env.index)
    ensures GetRef(env.index, way.etype, way.ref.value).None? ==> r == Run(Returned(None), [])
    ensures GetRef(env.index, way.etype, way.ref.value).Some? && RefConsumer(way, consumer).Some? ==>
      |r.marks| > 0 &&
      r.marks[0] == Mark(RefKey(way.etype, way.ref.value), RefConsumer(way, consumer).value)
    decreases depth, 0
  {
    match GetRef(env.index, way.etype, way.ref.value)
    case None => Run(Returned(None), [])
    case Some(target) =>
      var marks := match RefConsumer(way, consumer)
                   case None => []
                   case Some(c) => [Mark(RefKey(way.etype, way.ref.value), c)];
      if depth == 0 then Run(Raised, marks)
      else
        // Indexed elements all have ids, so their own `used` is never consulted.
        var targetRun := WayRun(env, given, target, None, depth - 1);
        Run(ShapeCoords(targetRun.out), marks + targetRun.marks)
  }

  /**
   * The `ref` branch in full: an indexed element is marked, then converted in turn with no
   * consumer, and its coordinates are taken; the hop past the interpreter's budget raises.
   */
  lemma {:induction false} RefCoordsResult(env: Env, given: Overrides, way: Element, consumer: Option<Id>, depth: nat)
    requires way.ref.Some?
    ensures var r := RefCoordsRun(env, given, way, consumer, depth);
            var found := GetRef(env.index, way.etype, way.ref.value);
            var mark := if RefConsumer(way, consumer).Some?
                        then [Mark(RefKey(way.etype, way.ref.value), RefConsumer(way, consumer).value)]
                        else [];
            (found.Some? && depth == 0 ==> r == Run(Raised, mark)) &&
            (found.Some? && depth > 0 ==>
               var target := WayRun(env, given, found.value, None, depth - 1);
               r.out == ShapeCoords(target.out) && r.marks == mark + target.marks)
  {
  }

  /**
   * A way whose source is a `ref` takes its shape from the referenced coordinates: a raise
   * or a missing shape passes through, and coordinates go to `WayShape`.
   */
  lemma {:induction false} WayRefSource(env: Env, given: Overrides, way: Element, consumer: Option<Id>, depth: nat)
    requires UsesRef(way)
    ensures var r := WayRun(env, given, way, consumer, depth);
            var refRun := RefCoordsRun(env, given, way, consumer, depth);
            r.marks == refRun.marks &&
            (refRun.out.Raised? ==> r.out.Raised?) &&
            (refRun.out == Returned(None) ==> r.out == Returned(None)) &&
            (refRun.out.Returned? && refRun.out.value.Some? ==>
               r.out == WayShape(env, given, way, refRun.out.value.value))
  {
  }

  /**
   * The coordinates of the referenced way's shape: None when it made no shape, the
   * exterior ring of a polygon, and a raise for a geometry without a coordinate sequence.
   */
  function ShapeCoords(refWay: Outcome<Option<Shape>>): (r: Outcome<Option<seq<Pos>>>)
    ensures refWay.Raised? ==> r.Raised?
    ensures refWay == Returned(None) ==> r == Returned(None)
    ensures refWay.Returned? && refWay.value.Some? ==>
      (r.Returned? <==> CoordsOf(refWay.value.value.geom).Some?) &&
      (r.Returned? ==> r.value == CoordsOf(refWay.value.value.geom))
  {
    match refWay
    case Raised => Raised
    case Returned(None) => Returned(None)
    case Returned(Some(s)) =>
      match CoordsOf(s.geom)
      case None => Raised
      case Some(coords) => Returned(Some(coords))
  }

  /**
   * A way whose nodes all resolve takes their coordinates in node-list order, one per id,
   * and marks every one of them used by its id.
   */
  lemma WayNodesResolved(env: Env, given: Overrides, way: Element, consumer: Option<Id>, depth: nat)
    requires way.center.None? && !HasGeometry(way) && HasNodes(way) && way.id.Some?
    requires forall j :: 0 <= j < |way.nodes.value| ==> Resolvable(env.index, way.nodes.value[j])
    ensures WayRun(env, given, way, consumer, depth) ==
            Run(WayShape(env, given, way, NodePositions(env.index, way.nodes.value)),
                NodeMarks(way.nodes.value, way.id.value))
  {
    var nodes := way.nodes.value;
    NodeCoordsAllResolved(env.index, nodes, way.id.value, 0, [], []);
    assert nodes[0..] == nodes;
    assert [] + NodePositions(env.index, nodes) == NodePositions(env.index, nodes);
    assert [] + NodeMarks(nodes, way.id.value) == NodeMarks(nodes, way.id.value);
  }

  /**
   * A way with a node missing from the index makes no shape, and the nodes before the
   * first missing one stay marked used by the way.
   */
  lemma WayNodeMissing(env: Env, given: Overrides, way: Element, consumer: Option<Id>, depth: nat,
                       miss: nat)
    requires way.center.None? && !HasGeometry(way) && HasNodes(way) && way.id.Some?
    requires miss < |way.nodes.value| && NodeKey(way.nodes.value[miss]) !in env.index
    requires forall j :: 0 <= j < miss ==> Resolvable(env.index, way.nodes.value[j])
    ensures WayRun(env, given, way, consumer, depth) ==
            Run(Returned(None), NodeMarks(way.nodes.value[..miss], way.id.value))
  {
    NodeCoordsFirstMiss(env.index, way.nodes.value, way.id.value, 0, miss, [], []);
    assert way.nodes.value[0..miss] == way.nodes.value[..miss];
  }

  // ---------------------------------------------------------------------------
  // Relations
  // ---------------------------------------------------------------------------

  /** A `try: ... except Exception:` around a conversion: raising becomes None, marks stay. */
  function Caught<T>(run: Run<Option<T>>): (r: Run<Option<T>>)
    ensures r.out.Returned? && r.marks == run.marks
    ensures run.out.Returned? ==> r == run
    ensures run.out.Raised? ==> r.out == Returned(None)
  {
    if run.out.Raised? then Run(Returned(None), run.marks) else run
  }

  /**
   * The members of a relation: its own, or those of the indexed relation it references
   * (None when that is not indexed); a missing `ref` or `members` key raises.
   */
  function MembersOf(env: Env, rel: Element): (r: Outcome<Option<seq<Element>>>)
    ensures rel.members.Some? ==> r == Returned(rel.members)
    ensures rel.members.None? && rel.ref.Some? && GetRef(env.index, rel.etype, rel.ref.value).None? ==>
      r == Returned(None)
    ensures rel.members.None? && rel.ref.Some? && GetRef(env.index, rel.etype, rel.ref.value).Some? ==>
      var found := GetRef(env.index, rel.etype, rel.ref.value).value;
      r == (if found.members.None? then Raised else Returned(found.members))
    ensures rel.members.None? && rel.ref.None? ==> r == Raised
  {
    if rel.members.Some? then Returned(rel.members)
    else if rel.ref.None? then Raised
    else
      match GetRef(env.index, rel.etype, rel.ref.value)
      case None => Returned(None)
      case Some(found) => if found.members.None? then Raised else Returned(found.members)
  }

  /**
   * The member loop of `multipolygon_relation_to_shape` from member `i`, with the outer
   * and inner lines and the marks so far.
   */
  function MpMembersFrom(env: Env, relId: Option<Id>, ms: seq<Element>, i: nat,
                         outer: seq<Geometry>, inner: seq<Geometry>, marks: seq<Mark>, depth: nat)
    : (r: Run<(seq<Geometry>, seq<Geometry>)>)
    requires i <= |ms|
    ensures MarksWithin(marks, env.index) ==> MarksWithin(r.marks, env.index)
    decreases |ms| - i
  {
    if i == |ms| then Run(Returned((outer, inner)), marks)
    else
      var m := ms[i];
      if m.etype != "way" then MpMembersFrom(env, relId, ms, i + 1, outer, inner, marks, depth)
      else if relId.None? then Run(Raised, marks)
      else
        var w := WayRun(env, NoOverrides, m, relId, depth);
        var marks' := marks + w.marks;
        match w.out
        case Raised => Run(Raised, marks')
        case Returned(None) => MpMembersFrom(env, relId, ms, i + 1, outer, inner, marks', depth)
        case Returned(Some(s)) =>
          if m.role.None? then Run(Raised, marks')
          else if m.role.value == "inner" then
            MpMembersFrom(env, relId, ms, i + 1, outer, inner + [AsLine(s.geom)], marks', depth)
          else
            MpMembersFrom(env, relId, ms, i + 1, outer + [AsLine(s.geom)], inner, marks', depth)
  }

  /**
   * The lines of the way members from `i` on that convert, whose role is `inner` (or,
   * for `wantInner` false, is anything else), in member order.
   */
  function RoleLinesFrom(env: Env, relId: Option<Id>, ms: seq<Element>, i: nat, depth: nat,
                         wantInner: bool): seq<Geometry>
    requires i <= |ms|
    decreases |ms| - i
  {
    if i == |ms| then []
    else
      var m := ms[i];
      var w := WayRun(env, NoOverrides, m, relId, depth);
      var rest := RoleLinesFrom(env, relId, ms, i + 1, depth, wantInner);
      if m.etype == "way" && w.out.Returned? && w.out.value.Some? && m.role.Some? &&
         (m.role.value == "inner") == wantInner
      then [AsLine(w.out.value.value.geom)] + rest
      else rest
  }

  /**
   * When the member loop completes, the outer list holds the lines of the non-`inner`
   * way members and the inner list those of the `inner` ones, each in member order.
   */
  lemma {:induction false} MpMembersPartition(env: Env, relId: Option<Id>, ms: seq<Element>, i: nat,
                                              outer: seq<Geometry>, inner: seq<Geometry>,
                                              marks: seq<Mark>, depth: nat)
    requires i <= |ms|
    requires MpMembersFrom(env, relId, ms, i, outer, inner, marks, depth).out.Returned?
    ensures var parts := MpMembersFrom(env, relId, ms, i, outer, inner, marks, depth).out.value;
            parts.0 == outer + RoleLinesFrom(env, relId, ms, i, depth, false) &&
            parts.1 == inner + RoleLinesFrom(env, relId, ms, i, depth, true)
    decreases |ms| - i
  {
    if i < |ms| {
      var m := ms[i];
      if m.etype != "way" {
        MpMembersPartition(env, relId, ms, i + 1, outer, inner, marks, depth);
      } else {
        var w := WayRun(env, NoOverrides, m, relId, depth);
        var marks' := marks + w.marks;
        if w.out == Returned(None) {
          MpMembersPartition(env, relId, ms, i + 1, outer, inner, marks', depth);
        } else {
          var line := AsLine(w.out.value.value.geom);
          if m.role.value == "inner" {
            MpMembersPartition(env, relId, ms, i + 1, outer, inner + [line], marks', depth);
            SeqAppendAssoc(inner, [line], RoleLinesFrom(env, relId, ms, i + 1, depth, true));
          } else {
            MpMembersPartition(env, relId, ms, i + 1, outer + [line], inner, marks', depth);
            SeqAppendAssoc(outer, [line], RoleLinesFrom(env, relId, ms, i + 1, depth, false));
          }
        }
      }
    } else {
      assert outer + [] == outer && inner + [] == inner;
    }
  }

  /** The marks converting the way members from `i` on writes, member after member. */
  function MpWayMarksFrom(env: Env, relId: Option<Id>, ms: seq<Element>, i: nat, depth: nat): seq<Mark>
    requires i <= |ms|
    decreases |ms| - i
  {
    if i == |ms| then []
    else if ms[i].etype == "way" then
      WayRun(env, NoOverrides, ms[i], relId, depth).marks + MpWayMarksFrom(env, relId, ms, i + 1, depth)
    else MpWayMarksFrom(env, relId, ms, i + 1, depth)
  }

  /**
   * When the multipolygon member loop completes, it has written exactly the marks of
   * converting each way member, with the relation's id as the member's `used`, in order.
   */
  lemma {:induction false} MpMembersMarks(env: Env, relId: Option<Id>, ms: seq<Element>, i: nat,
                                          outer: seq<Geometry>, inner: seq<Geometry>,
                                          marks: seq<Mark>, depth: nat)
    requires i <= |ms|
    ensures var r := MpMembersFrom(env, relId, ms, i, outer, inner, marks, depth);
            r.out.Returned? ==> r.marks == marks + MpWayMarksFrom(env, relId, ms, i, depth)
    decreases |ms| - i
  {
    if i == |ms| {
      assert marks + [] == marks;
    } else {
      var m := ms[i];
      if m.etype != "way" {
        MpMembersMarks(env, relId, ms, i + 1, outer, inner, marks, depth);
      } else if relId.Some? {
        var w := WayRun(env, NoOverrides, m, relId, depth);
        var marks' := marks + w.marks;
        var rest := MpWayMarksFrom(env, relId, ms, i + 1, depth);
        SeqAppendAssoc(marks, w.marks, rest);
        if w.out == Returned(None) {
          MpMembersMarks(env, relId, ms, i + 1, outer, inner, marks', depth);
        } else if w.out.Returned? && m.role.Some? {
          var line := AsLine(w.out.value.value.geom);
          if m.role.value == "inner" {
            MpMembersMarks(env, relId, ms, i + 1, outer, inner + [line], marks', depth);
          } else {
            MpMembersMarks(env, relId, ms, i + 1, outer + [line], inner, marks', depth);
          }
        }
      }
    }
  }

  /** A relation without an id raises at its first way member (`member['used'] = rel['id']`). */
  lemma {:induction false} MpMembersNeedRelId(env: Env, ms: seq<Element>, i: nat,
                                              outer: seq<Geometry>, inner: seq<Geometry>,
                                              marks: seq<Mark>, depth: nat, j: nat)
    requires i <= j < |ms| && ms[j].etype == "way"
    ensures MpMembersFrom(env, None, ms, i, outer, inner, marks, depth).out.Raised?
    decreases |ms| - i
  {
    if ms[i].etype != "way" {
      MpMembersNeedRelId(env, ms, i + 1, outer, inner, marks, depth, j);
    }
  }

  /**
   * A way member that takes its coordinates from an indexed element, and has no id of
   * its own, marks that element as used by the relation.
   */
  lemma {:induction false} MpWayMarkWritten(env: Env, relId: Option<Id>, ms: seq<Element>, i: nat,
                                            depth: nat, j: nat)
    requires i <= j < |ms| && relId.Some?
    requires ms[j].etype == "way" && UsesRef(ms[j]) && ms[j].id.None?
    requires GetRef(env.index, ms[j].etype, ms[j].ref.value).Some?
    ensures Mark(RefKey(ms[j].etype, ms[j].ref.value), relId.value) in MpWayMarksFrom(env, relId, ms, i, depth)
    decreases |ms| - i
  {
    var mark := Mark(RefKey(ms[j].etype, ms[j].ref.value), relId.value);
    if i < j {
      MpWayMarkWritten(env, relId, ms, i + 1, depth, j);
      if ms[i].etype == "way" {
        var rest := MpWayMarksFrom(env, relId, ms, i + 1, depth);
        var w := WayRun(env, NoOverrides, ms[i], relId, depth);
        assert mark in w.marks + rest;
      }
    } else {
      var w := WayRun(env, NoOverrides, ms[j], relId, depth);
      assert RefConsumer(ms[j], relId) == relId;
      assert w.marks[0] == mark;
      assert mark in w.marks + MpWayMarksFrom(env, relId, ms, i + 1, depth);
    }
  }

  /**
   * At relation level: the member loop's marks are the relation's marks, every way member
   * that references an indexed element marks it with the relation's id, and a relation
   * without id but with a way member raises.
   */
  lemma MultipolygonMarks(env: Env, rel: Element, depth: nat)
    ensures var r := MultipolygonRun(env, rel, depth);
            MembersOf(env, rel).Returned? && MembersOf(env, rel).value.Some? && rel.id.Some? &&
            MpMembersFrom(env, rel.id, MembersOf(env, rel).value.value, 0, [], [], [], depth).out.Returned? ==>
              var ms := MembersOf(env, rel).value.value;
              r.marks == MpWayMarksFrom(env, rel.id, ms, 0, depth) &&
              forall j :: 0 <= j < |ms| && ms[j].etype == "way" && UsesRef(ms[j]) && ms[j].id.None? &&
                          GetRef(env.index, ms[j].etype, ms[j].ref.value).Some? ==>
                Mark(RefKey(ms[j].etype, ms[j].ref.value), rel.id.value) in r.marks
    ensures MembersOf(env, rel).Returned? && MembersOf(env, rel).value.Some? && rel.id.None? &&
            (exists j :: 0 <= j < |MembersOf(env, rel).value.value| &&
                         MembersOf(env, rel).value.value[j].etype == "way") ==>
              MultipolygonRun(env, rel, depth).out.Raised?
  {
    var mo := MembersOf(env, rel);
    if mo.Returned? && mo.value.Some? {
      var ms := mo.value.value;
      if rel.id.Some? {
        MpMembersMarks(env, rel.id, ms, 0, [], [], [], depth);
        assert [] + MpWayMarksFrom(env, rel.id, ms, 0, depth) == MpWayMarksFrom(env, rel.id, ms, 0, depth);
        forall j | 0 <= j < |ms| && ms[j].etype == "way" && UsesRef(ms[j]) && ms[j].id.None? &&
                   GetRef(env.index, ms[j].etype, ms[j].ref.value).Some?
          ensures Mark(RefKey(ms[j].etype, ms[j].ref.value), rel.id.value) in MpWayMarksFrom(env, rel.id, ms, 0, depth)
        {
          MpWayMarkWritten(env, rel.id, ms, 0, depth, j);
        }
      } else if j :| 0 <= j < |ms| && ms[j].etype == "way" {
        MpMembersNeedRelId(env, ms, 0, [], [], [], depth, j);
      }
    }
  }

  /**
   * The outcome of `multipolygon_relation_to_shape` once its members are known and the
   * member loop completes: the outer and inner lines of the way members go to
   * `_convert_ways_to_multipolygon`; no result means no shape, and a result is fixed,
   * reduced to a multipolygon, oriented and unwrapped into the relation's shape.
   */
  lemma {:induction false} MultipolygonResult(env: Env, rel: Element, depth: nat)
    ensures MembersOf(env, rel).Returned? && MembersOf(env, rel).value.Some? &&
            MpMembersFrom(env, rel.id, MembersOf(env, rel).value.value, 0, [], [], [], depth).out.Returned? ==>
              var ms := MembersOf(env, rel).value.value;
              var outer := RoleLinesFrom(env, rel.id, ms, 0, depth, false);
              var inner := RoleLinesFrom(env, rel.id, ms, 0, depth, true);
              var c := ConvertWaysToMultipolygon(env.kernel, outer, inner);
              var r := MultipolygonRun(env, rel, depth);
              (c.Raised? ==> r.out.Raised?) &&
              (c == Returned(None) ==> r.out == Returned(None)) &&
              (c.Returned? && c.value.Some? ==>
                 (r.out.Raised? <==> AssembleMultipolygon(env.kernel, c.value.value).Raised?) &&
                 (r.out.Returned? ==>
                    r.out == Returned(Some(Shape(AssembleMultipolygon(env.kernel, c.value.value).value,
                                                 ElementProps(rel))))))
    ensures MembersOf(env, rel).Returned? && MembersOf(env, rel).value.Some? &&
            MpMembersFrom(env, rel.id, MembersOf(env, rel).value.value, 0, [], [], [], depth).out.Raised? ==>
              MultipolygonRun(env, rel, depth).out.Raised?
    ensures MembersOf(env, rel) == Returned(None) ==> MultipolygonRun(env, rel, depth) == Run(Returned(None), [])
    ensures MembersOf(env, rel).Raised? ==> MultipolygonRun(env, rel, depth) == Run(Raised, [])
  {
    var mo := MembersOf(env, rel);
    if mo.Returned? && mo.value.Some? {
      var ms := mo.value.value;
      if MpMembersFrom(env, rel.id, ms, 0, [], [], [], depth).out.Returned? {
        MpMembersPartition(env, rel.id, ms, 0, [], [], [], depth);
        assert [] + RoleLinesFrom(env, rel.id, ms, 0, depth, false) == RoleLinesFrom(env, rel.id, ms, 0, depth, false);
        assert [] + RoleLinesFrom(env, rel.id, ms, 0, depth, true) == RoleLinesFrom(env, rel.id, ms, 0, depth, true);
      }
    }
  }

  /** `multipolygon_relation_to_shape(rel, refs_index)` */
  function MultipolygonRun(env: Env, rel: Element, depth: nat): (r: Run<Option<Shape>>)
    ensures MarksWithin(r.marks, env.index)
    ensures r.out.Returned? && r.out.value.Some? ==>
      r.out.value.value.props == ElementProps(rel) &&
      (r.out.value.value.geom.Polygon? || r.out.value.value.geom.MultiPolygon?)
    // No outer line means no shape.
    ensures MembersOf(env, rel).Returned? && MembersOf(env, rel).value.Some? &&
            MpMembersFrom(env, rel.id, MembersOf(env, rel).value.value, 0, [], [], [], depth).out.Returned? &&
            RoleLinesFrom(env, rel.id, MembersOf(env, rel).value.value, 0, depth, false) == [] ==>
      r.out == Returned(None)
    // The marks are those the member loop writes; without members there are none.
    ensures MembersOf(env, rel).Returned? && MembersOf(env, rel).value.Some? ==>
      r.marks == MpMembersFrom(env, rel.id, MembersOf(env, rel).value.value, 0, [], [], [], depth).marks
    ensures !(MembersOf(env, rel).Returned? && MembersOf(env, rel).value.Some?) ==> r.marks == []
  {
    match MembersOf(env, rel)
    case Raised => Run(Raised, [])
    case Returned(None) => Run(Returned(None), [])
    case Returned(Some(ms)) =>
      var parts := MpMembersFrom(env, rel.id, ms, 0, [], [], [], depth);
      match parts.out
      case Raised => Run(Raised, parts.marks)
      case Returned((outer, inner)) =>
        MpMembersPartition(env, rel.id, ms, 0, [], [], [], depth);
        match ConvertWaysToMultipolygon(env.kernel, outer, inner)
        case Raised => Run(Raised, parts.marks)
        case Returned(None) => Run(Returned(None), parts.marks)
        case Returned(Some(g)) =>
          match AssembleMultipolygon(env.kernel, g)
          case Raised => Run(Raised, parts.marks)
          case Returned(shape) => Run(Returned(Some(Shape(shape, ElementProps(rel)))), parts.marks)
  }

  /**
   * `relation_to_shape(rel, refs_index)`: a center is a point; otherwise the default
   * tables pick the multipolygon or the multiline conversion, and anything either raises
   * makes no shape (the marks written before stay).
   */
  function RelationRun(env: Env, rel: Element, depth: nat): (r: Run<Option<Shape>>)
    ensures r.out.Returned?
    ensures MarksWithin(r.marks, env.index)
    ensures r.out.value.Some? ==> r.out.value.value.props == ElementProps(rel)
    // A center is a point; otherwise the classification picks the conversion.
    ensures rel.center.Some? ==>
      r == Run(Returned(Some(Shape(Point(PosOf(rel.center.value)), ElementProps(rel)))), [])
    ensures rel.center.None? && IsGeometryPolygon(rel, NoOverrides, env.defaults).Raised? ==>
      r == Run(Returned(None), [])
    ensures rel.center.None? && IsGeometryPolygon(rel, NoOverrides, env.defaults) == Returned(true) ==>
      r == Caught(MultipolygonRun(env, rel, depth))
    ensures rel.center.None? && IsGeometryPolygon(rel, NoOverrides, env.defaults) == Returned(false) ==>
      r == Caught(MultilineRun(env, rel, depth))
    decreases depth, 3, 0
  {
    if rel.center.Some? then
      Run(Returned(Some(Shape(Point(PosOf(rel.center.value)), ElementProps(rel)))), [])
    else
      match IsGeometryPolygon(rel, NoOverrides, env.defaults)
      case Raised => Run(Returned(None), [])
      case Returned(isPolygon) =>
        if isPolygon then Caught(MultipolygonRun(env, rel, depth))
        else Caught(MultilineRun(env, rel, depth))
  }

  /** `multiline_realation_to_shape(rel, refs_index)` */
  function MultilineRun(env: Env, rel: Element, depth: nat): (r: Run<Option<Shape>>)
    ensures MarksWithin(r.marks, env.index)
    ensures r.out.Returned? && r.out.value.Some? ==> r.out.value.value.props == ElementProps(rel)
    // The marks are those the member loop writes; without members there are none.
    ensures MembersOf(env, rel).Returned? && MembersOf(env, rel).value.Some? ==>
      r.marks == MlMembersFrom(env, rel, MembersOf(env, rel).value.value, 0, [], [], depth).marks
    ensures !(MembersOf(env, rel).Returned? && MembersOf(env, rel).value.Some?) ==> r.marks == []
    decreases depth, 2, 0
  {
    match MembersOf(env, rel)
    case Raised => Run(Raised, [])
    case Returned(None) => Run(Returned(None), [])
    case Returned(Some(ms)) =>
      var lineRun := MlMembersFrom(env, rel, ms, 0, [], [], depth);
      match lineRun.out
      case Raised => Run(Raised, lineRun.marks)
      case Returned(lines) =>
        if |lines| < 1 then Run(Returned(None), lineRun.marks)
        else
          match env.kernel.lineMerge(lines)
          case Raised => Run(Raised, lineRun.marks)
          case Returned(g) => Run(Returned(Some(Shape(g, ElementProps(rel)))), lineRun.marks)
  }

  /** The line a converted member adds: a polygon's exterior ring, any other shape as it is. */
  function LineOf(o: Outcome<Option<Shape>>): (r: Outcome<Option<Geometry>>)
    ensures o.Raised? <==> r.Raised?
    ensures r.Returned? ==> (r.value.Some? <==> o.value.Some?)
    ensures r.Returned? && r.value.Some? ==> r.value.value == AsLine(o.value.value.geom)
  {
    match o
    case Raised => Raised
    case Returned(None) => Returned(None)
    case Returned(Some(s)) => Returned(Some(AsLine(s.geom)))
  }

  /**
   * One member of a multiline relation: a way is converted directly; a relation is looked
   * up (a missing `ref` raises), marked used by this relation when indexed (a relation
   * without id then raises), and converted as an element; other members add nothing.
   */
  function MlMemberRun(env: Env, rel: Element, m: Element, depth: nat): (r: Run<Option<Geometry>>)
    ensures MarksWithin(r.marks, env.index)
    ensures m.etype != "way" && m.etype != "relation" ==> r == Run(Returned(None), [])
    ensures m.etype == "way" ==> r.marks == WayRun(env, NoOverrides, m, None, depth).marks
    ensures m.etype == "relation" && m.ref.Some? && GetRef(env.index, m.etype, m.ref.value).Some? ==>
      (rel.id.None? <==> r == Run(Raised, [])) &&
      (rel.id.Some? ==> |r.marks| > 0 && r.marks[0] == Mark(RefKey(m.etype, m.ref.value), rel.id.value))
    // Whatever converting a nested relation raises is caught inside it.
    ensures (m.etype == "relation" && depth > 0 && m.ref.Some? &&
             (GetRef(env.index, m.etype, m.ref.value).None? || rel.id.Some?)) ==> r.out.Returned?
    // The line a way adds is the line of its shape.
    ensures m.etype == "way" ==> r.out == LineOf(WayRun(env, NoOverrides, m, None, depth).out)
    // A relation without `ref` raises; otherwise the line is that of the converted relation.
    ensures m.etype == "relation" && m.ref.None? ==> r == Run(Raised, [])
    ensures m.etype == "relation" && m.ref.Some? && depth > 0 &&
            (GetRef(env.index, m.etype, m.ref.value).None? || rel.id.Some?) ==>
      r.out == LineOf(RelationRun(env, m, depth - 1).out)
    decreases depth, 0
  {
    if m.etype == "way" then
      var w := WayRun(env, NoOverrides, m, None, depth);
      Run(LineOf(w.out), w.marks)
    else if m.etype == "relation" then
      if m.ref.None? then Run(Raised, [])
      else
        var found := GetRef(env.index, m.etype, m.ref.value);
        if found.Some? && rel.id.None? then Run(Raised, [])
        else
          var marks := if found.Some? then [Mark(RefKey(m.etype, m.ref.value), rel.id.value)] else [];
          if depth == 0 then Run(Raised, marks)
          else
            var sub := RelationRun(env, m, depth - 1);
            Run(LineOf(sub.out), marks + sub.marks)
    else
      Run(Returned(None), [])
  }

  /** The member loop of `multiline_realation_to_shape` from member `i`. */
  function MlMembersFrom(env: Env, rel: Element, ms: seq<Element>, i: nat,
                         lines: seq<Geometry>, marks: seq<Mark>, depth: nat)
    : (r: Run<seq<Geometry>>)
    requires i <= |ms|
    ensures MarksWithin(marks, env.index) ==> MarksWithin(r.marks, env.index)
    decreases depth, 1, |ms| - i
  {
    if i == |ms| then Run(Returned(lines), marks)
    else
      var step := MlMemberRun(env, rel, ms[i], depth);
      var marks' := marks + step.marks;
      match step.out
      case Raised => Run(Raised, marks')
      case Returned(None) => MlMembersFrom(env, rel, ms, i + 1, lines, marks', depth)
      case Returned(Some(line)) => MlMembersFrom(env, rel, ms, i + 1, lines + [line], marks', depth)
  }

  /** The lines of the members from `i` on, in member order. */
  function MlLinesFrom(env: Env, rel: Element, ms: seq<Element>, i: nat, depth: nat): seq<Geometry>
    requires i <= |ms|
    decreases |ms| - i
  {
    if i == |ms| then []
    else
      var rest := MlLinesFrom(env, rel, ms, i + 1, depth);
      var step := MlMemberRun(env, rel, ms[i], depth);
      if step.out.Returned? && step.out.value.Some? then [step.out.value.value] + rest else rest
  }

  /** When the multiline member loop completes, its lines are the members' lines in order. */
  lemma {:induction false} MlMembersOrder(env: Env, rel: Element, ms: seq<Element>, i: nat,
                                          lines: seq<Geometry>, marks: seq<Mark>, depth: nat)
    requires i <= |ms|
    requires MlMembersFrom(env, rel, ms, i, lines, marks, depth).out.Returned?
    ensures MlMembersFrom(env, rel, ms, i, lines, marks, depth).out.value ==
            lines + MlLinesFrom(env, rel, ms, i, depth)
    decreases |ms| - i
  {
    if i == |ms| {
      assert lines + [] == lines;
    } else {
      var step := MlMemberRun(env, rel, ms[i], depth);
      if step.out == Returned(None) {
        MlMembersOrder(env, rel, ms, i + 1, lines, marks + step.marks, depth);
      } else {
        var line := step.out.value.value;
        MlMembersOrder(env, rel, ms, i + 1, lines + [line], marks + step.marks, depth);
        SeqAppendAssoc(lines, [line], MlLinesFrom(env, rel, ms, i + 1, depth));
      }
    }
  }

  /**
   * The outcome of `multiline_realation_to_shape` once its members are known and the
   * member loop completes: no member lines means no shape; otherwise the shape is the
   * kernel's merge of exactly the member lines, in member order, with the relation's props.
   */
  lemma {:induction false} MultilineResult(env: Env, rel: Element, depth: nat)
    ensures MembersOf(env, rel).Returned? && MembersOf(env, rel).value.Some? &&
            MlMembersFrom(env, rel, MembersOf(env, rel).value.value, 0, [], [], depth).out.Returned? ==>
              var lines := MlLinesFrom(env, rel, MembersOf(env, rel).value.value, 0, depth);
              var r := MultilineRun(env, rel, depth);
              (|lines| == 0 ==> r.out == Returned(None)) &&
              (|lines| > 0 ==> (r.out.Raised? <==> env.kernel.lineMerge(lines).Raised?)) &&
              (|lines| > 0 && env.kernel.lineMerge(lines).Returned? ==>
                 r.out == Returned(Some(Shape(env.kernel.lineMerge(lines).value, ElementProps(rel)))))
    ensures MembersOf(env, rel) == Returned(None) ==> MultilineRun(env, rel, depth) == Run(Returned(None), [])
    ensures MembersOf(env, rel).Raised? ==> MultilineRun(env, rel, depth) == Run(Raised, [])
  {
    var mo := MembersOf(env, rel);
    if mo.Returned? && mo.value.Some? {
      var ms := mo.value.value;
      if MlMembersFrom(env, rel, ms, 0, [], [], depth).out.Returned? {
        MultilineLoopLines(env, rel, ms, depth);
        MultilineOfLines(env, rel, ms, MlLinesFrom(env, rel, ms, 0, depth), depth);
      }
    } else {
      MultilineNoMembers(env, rel, depth);
    }
  }

  /** The completed multiline member loop returns exactly the member lines. */
  lemma {:induction false} MultilineLoopLines(env: Env, rel: Element, ms: seq<Element>, depth: nat)
    requires MlMembersFrom(env, rel, ms, 0, [], [], depth).out.Returned?
    ensures MlMembersFrom(env, rel, ms, 0, [], [], depth).out == Returned(MlLinesFrom(env, rel, ms, 0, depth))
  {
    MlMembersOrder(env, rel, ms, 0, [], [], depth);
    assert [] + MlLinesFrom(env, rel, ms, 0, depth) == MlLinesFrom(env, rel, ms, 0, depth);
  }

  /** Without members, the multiline conversion writes nothing and passes the outcome on. */
  lemma {:induction false} MultilineNoMembers(env: Env, rel: Element, depth: nat)
    requires !(MembersOf(env, rel).Returned? && MembersOf(env, rel).value.Some?)
    ensures MembersOf(env, rel) == Returned(None) ==> MultilineRun(env, rel, depth) == Run(Returned(None), [])
    ensures MembersOf(env, rel).Raised? ==> MultilineRun(env, rel, depth) == Run(Raised, [])
  {
  }

  /** `MultilineResult` for given member lines. */
  lemma {:induction false} MultilineOfLines(env: Env, rel: Element, ms: seq<Element>, lines: seq<Geometry>, depth: nat)
    requires MembersOf(env, rel) == Returned(Some(ms))
    requires MlMembersFrom(env, rel, ms, 0, [], [], depth).out == Returned(lines)
    ensures var r := MultilineRun(env, rel, depth);
            (|lines| == 0 ==> r.out == Returned(None)) &&
            (|lines| > 0 ==> (r.out.Raised? <==> env.kernel.lineMerge(lines).Raised?)) &&
            (|lines| > 0 && env.kernel.lineMerge(lines).Returned? ==>
               r.out == Returned(Some(Shape(env.kernel.lineMerge(lines).value, ElementProps(rel)))))
  {
  }


  // ---------------------------------------------------------------------------
  // element_to_shape and _json2shapes
  // ---------------------------------------------------------------------------

  /** `element_to_shape(el, refs_index, area_keys, polygon_features)` */
  function ElementRun(env: Env, given: Overrides, el: Element, depth: nat): (r: Run<Option<Shape>>)
    ensures MarksWithin(r.marks, env.index)
    ensures r.out.Returned? && r.out.value.Some? ==> r.out.value.value.props == ElementProps(el)
    ensures el.etype !in ["node", "way", "relation"] ==> r == Run(Returned(None), [])
    // A node is the point at its coordinates, and one missing either raises.
    ensures el.etype == "node" && el.lat.Some? && el.lon.Some? ==>
      r == Run(Returned(Some(Shape(Point(Pos(el.lon.value, el.lat.value)), ElementProps(el)))), [])
    ensures el.etype == "node" && (el.lat.None? || el.lon.None?) ==> r == Run(Raised, [])
    ensures el.etype == "way" ==> r == WayRun(env, given, el, None, depth)
    ensures el.etype == "relation" ==> r == RelationRun(env, el, depth)
  {
    if el.etype == "node" then
      if el.lat.None? || el.lon.None? then Run(Raised, [])
      else Run(Returned(Some(Shape(Point(Pos(el.lon.value, el.lat.value)), ElementProps(el)))), [])
    else if el.etype == "way" then WayRun(env, given, el, None, depth)
    else if el.etype == "relation" then RelationRun(env, el, depth)
    else Run(Returned(None), [])
  }

  /** The loop over `data['elements']` from `i`, with the shapes and marks so far. */
  function ConvertFrom(env: Env, given: Overrides, els: seq<Element>, i: nat,
                       shapes: seq<Shape>, marks: seq<Mark>, depth: nat): (r: Run<seq<Shape>>)
    requires i <= |els|
    ensures MarksWithin(marks, env.index) ==> MarksWithin(r.marks, env.index)
    decreases |els| - i
  {
    if i == |els| then Run(Returned(shapes), marks)
    else
      var e := ElementRun(env, given, els[i], depth);
      var marks' := marks + e.marks;
      match e.out
      case Raised => Run(Raised, marks')
      case Returned(None) => ConvertFrom(env, given, els, i + 1, shapes, marks', depth)
      case Returned(Some(s)) => ConvertFrom(env, given, els, i + 1, shapes + [s], marks', depth)
  }

  /** The shapes of the elements from `i` on that convert, in element order. */
  function ShapesFrom(env: Env, given: Overrides, els: seq<Element>, i: nat, depth: nat): seq<Shape>
    requires i <= |els|
    decreases |els| - i
  {
    if i == |els| then []
    else
      var rest := ShapesFrom(env, given, els, i + 1, depth);
      var e := ElementRun(env, given, els[i], depth);
      if e.out.Returned? && e.out.value.Some? then [e.out.value.value] + rest else rest
  }

  /** When no element raises, the shapes are those of the converted elements, in order. */
  lemma {:induction false} ConvertOrder(env: Env, given: Overrides, els: seq<Element>, i: nat,
                                        shapes: seq<Shape>, marks: seq<Mark>, depth: nat)
    requires i <= |els|
    requires ConvertFrom(env, given, els, i, shapes, marks, depth).out.Returned?
    ensures ConvertFrom(env, given, els, i, shapes, marks, depth).out.value ==
            shapes + ShapesFrom(env, given, els, i, depth)
    decreases |els| - i
  {
    if i == |els| {
      assert shapes + [] == shapes;
    } else {
      var e := ElementRun(env, given, els[i], depth);
      if e.out == Returned(None) {
        ConvertOrder(env, given, els, i + 1, shapes, marks + e.marks, depth);
      } else {
        var s := e.out.value.value;
        ConvertOrder(env, given, els, i + 1, shapes + [s], marks + e.marks, depth);
        SeqAppendAssoc(shapes, [s], ShapesFrom(env, given, els, i + 1, depth));
      }
    }
  }

  predicate IsRefType(el: Element) {
    el.etype == "node" || el.etype == "way" || el.etype == "relation"
  }

  /** The ids of the indexed elements that carry a `used` mark. */
  function UsedIds(index: Index, used: Used): set<Id> {
    set k | k in used && k in index && index[k].id.Some? :: index[k].id.value
  }

  /** The shape's id was not marked used. */
  predicate Unused(ids: set<Id>, s: Shape) {
    !(s.props.id.Some? && s.props.id.value in ids)
  }

  /** The filter's test: keep a shape whose id was not marked used. */
  function KeepUnused(ids: set<Id>): Shape -> bool {
    s => Unused(ids, s)
  }

  /**
   * The filter at the end of `_json2shapes`: a shape without an id raises; the others are
   * kept, in order, when their id was not marked used.
   */
  function DropUsed(shapes: seq<Shape>, ids: set<Id>): (r: Outcome<seq<Shape>>)
    ensures r.Raised? <==> exists j :: 0 <= j < |shapes| && shapes[j].props.id.None?
    ensures r.Returned? ==> r.value == Filter(shapes, KeepUnused(ids))
  {
    if exists j :: 0 <= j < |shapes| && shapes[j].props.id.None? then Raised
    else Returned(Filter(shapes, KeepUnused(ids)))
  }

  /**
   * The result of `_json2shapes(data, filter_used_refs, ...)` for `data['elements']`:
   * index the nodes, ways and relations, convert every element in order, and, when
   * filtering, drop the shapes whose id some indexed element was marked used with.
   */
  function Json2ShapesSpec(els: seq<Element>, filterUsedRefs: bool, given: Overrides,
                           defaults: Tables, kernel: Kernel, depth: nat): (r: Outcome<seq<Shape>>)
  {
    var refs := Filter(els, IsRefType);
    match BuildRefsIndex(refs)
    case Raised => Raised
    case Returned(index) =>
      var env := Env(index, defaults, kernel);
      var run := ConvertFrom(env, given, els, 0, [], [], depth);
      match run.out
      case Raised => Raised
      case Returned(shapes) =>
        if !filterUsedRefs then Returned(shapes)
        else DropUsed(shapes, UsedIds(index, ApplyMarks(map[], run.marks)))
  }

  /**
   * Without filtering, the result is every shape the elements convert to, in element
   * order; with filtering, it is the subsequence of those whose id was not marked used.
   */
  lemma Json2ShapesResult(els: seq<Element>, filterUsedRefs: bool, given: Overrides,
                          defaults: Tables, kernel: Kernel, depth: nat)
    requires Json2ShapesSpec(els, filterUsedRefs, given, defaults, kernel, depth).Returned?
    ensures var refs := Filter(els, IsRefType);
            var index := BuildRefsIndex(refs).value;
            var env := Env(index, defaults, kernel);
            var shapes := ShapesFrom(env, given, els, 0, depth);
            var marks := ConvertFrom(env, given, els, 0, [], [], depth).marks;
            var r := Json2ShapesSpec(els, filterUsedRefs, given, defaults, kernel, depth).value;
            (!filterUsedRefs ==> r == shapes) &&
            (filterUsedRefs ==>
               r == Filter(shapes, KeepUnused(UsedIds(index, ApplyMarks(map[], marks)))) &&
               Subsequence(r, shapes) &&
               (forall s :: s in r <==> s in shapes && Unused(UsedIds(index, ApplyMarks(map[], marks)), s)) &&
               forall s :: multiset(r)[s] ==
                 if Unused(UsedIds(index, ApplyMarks(map[], marks)), s) then multiset(shapes)[s] else 0)
  {
    var refs := Filter(els, IsRefType);
    var index := BuildRefsIndex(refs).value;
    var env := Env(index, defaults, kernel);
    ConvertOrder(env, given, els, 0, [], [], depth);
    FilterCounts(ShapesFrom(env, given, els, 0, depth),
                 KeepUnused(UsedIds(index, ApplyMarks(map[], ConvertFrom(env, given, els, 0, [], [], depth).marks))));
    assert [] + ShapesFrom(env, given, els, 0, depth) == ShapesFrom(env, given, els, 0, depth);
  }
}
