/**
 * The reading of an OSM XML tree into Overpass-style elements, as mutually recursive
 * functions: `parse_xml_node` dispatches the children of an element, `parse_node_type`
 * and the `parse_*` functions build one element each, `format_ojson` assembles the
 * document header and `parse` checks the root.
 */
module XmlSpec {
  import opened PyCore
  import opened XmlFields
  import opened Decimal

  /**
   * What `parse_xml_node` collects while it walks the children: the last bounds, the last
   * count, the tags as (k, v) pairs, the parsed items and the unhandled children.
   */
  datatype Parsed = Parsed(bounds: Option<Obj>, count: Option<Obj>, tags: seq<(string, string)>,
                           items: seq<JValue>, unhandled: seq<XNode>)

  const Nothing := Parsed(None, None, [], [], [])

  /** `node_types or default_types` */
  function EffectiveTypes(nodeTypes: seq<string>): seq<string> {
    if nodeTypes == [] then DefaultTypes else nodeTypes
  }

  const NodeFields: seq<string> := ["role", "id:int", "ref:int", "lat:float", "lon:float"]
  const WayFields: seq<string> := ["ref:int", "id:int", "role"]
  const RelationFields: seq<string> := ["id:int", "ref:int", "role"]
  const ElementTypes: seq<string> := ["node", "way", "relation", "count"]

  /** `parse_bounds(node)` */
  function ParseBoundsSpec(node: XNode): Outcome<Obj> {
    CopyFieldsSpec(node.attrib, ["minlat:float", "minlon:float", "maxlat:float", "maxlon:float"], [])
  }

  /** `parse_tag(node)`, as the pair of its `k` and `v` attributes. */
  function ParseTagSpec(node: XNode): Outcome<(string, string)> {
    if "k" in node.attrib && "v" in node.attrib then Returned((node.attrib["k"], node.attrib["v"])) else Raised
  }

  /** The dict `parse_tag` builds for a pair. */
  function TagObj(t: (string, string)): Obj {
    [("k", JStr(t.0)), ("v", JStr(t.1))]
  }

  /** `parse_tag` is `copy_fields(node, ["k", "v"])`: the pair form loses nothing. */
  lemma ParseTagIsCopyFields(node: XNode)
    ensures CopyFieldsSpec(node.attrib, ["k", "v"], []) ==
            match ParseTagSpec(node) case Raised => Raised case Returned(t) => Returned(TagObj(t))
  {
    var a := node.attrib;
    assert Name("k") == "k" && Kind("k") == "string";
    assert Name("v") == "v" && Kind("v") == "string";
    if "k" in a && "v" in a {
      var o1: Obj := Put([], "k", JStr(a["k"]));
      assert o1 == [("k", JStr(a["k"]))];
      assert CopyKeysFrom(a, ["k", "v"], true, 0, []) == CopyKeysFrom(a, ["k", "v"], true, 1, o1);
      assert Put(o1, "v", JStr(a["v"])) == TagObj((a["k"], a["v"]));
    }
  }

  /** `parse_nd(node)` */
  function ParseNdSpec(node: XNode): Outcome<Obj> {
    CopyFieldsSpec(node.attrib, [], ["ref:int", "lat:float", "lon:float"])
  }

  /** `item["tags"] = tags_to_obj(tags)` when there are tags. */
  function WithTags(item: Obj, tags: seq<(string, string)>): Obj {
    if |tags| > 0 then Put(item, "tags", JObj(TagsToObj(tags))) else item
  }

  /** `item["type"] = t`, then the tags when there are any. */
  function Typed(item: Obj, t: string, tags: seq<(string, string)>): Obj {
    WithTags(Put(item, "type", JStr(t)), tags)
  }

  function AsValue(o: Outcome<Obj>): Outcome<JValue> {
    match o
    case Raised => Raised
    case Returned(obj) => Returned(JObj(obj))
  }

  // ---------------------------------------------------------------------------
  // The keys the parse functions set themselves
  // ---------------------------------------------------------------------------

  /** The keys `parse_node`, `parse_way` and `parse_relation` set after copying the attributes. */
  const SetKeys: seq<string> := ["type", "tags", "geometry", "nodes", "members", "bounds"]

  /** No key of the list copies into a key the parse functions set themselves. */
  predicate PlainKeys(keys: seq<string>) {
    forall j :: 0 <= j < |keys| ==> Name(keys[j]) !in SetKeys
  }

  /** A key whose first two letters differ from those of `n` does not name `n`. */
  lemma NotNamed(key: string, n: string)
    requires 2 <= |key| && 2 <= |n| && (key[0] != n[0] || key[1] != n[1])
    ensures Name(key) != n
  {
    var m := Name(key);
    assert m == key[..|m|];
    if 2 <= |m| {
      assert m[0] == key[0] && m[1] == key[1];
    }
  }

  /** The key has a first or second letter that no set key has in that place. */
  predicate DiffersEarly(key: string) {
    2 <= |key| && forall m :: 0 <= m < |SetKeys| ==> key[0] != SetKeys[m][0] || key[1] != SetKeys[m][1]
  }

  /** Every key of the list differs early from the set keys. */
  predicate EarlyKeys(keys: seq<string>) {
    forall j :: 0 <= j < |keys| ==> DiffersEarly(keys[j])
  }

  lemma EarlyKeysPlain(keys: seq<string>)
    requires EarlyKeys(keys)
    ensures PlainKeys(keys)
  {
    forall j, m | 0 <= j < |keys| && 0 <= m < |SetKeys| ensures Name(keys[j]) != SetKeys[m] {
      NotNamed(keys[j], SetKeys[m]);
    }
  }

  lemma MetaFieldsEarly()
    ensures EarlyKeys(OptionalMetaFields)
  {
  }

  lemma ElementFieldsEarly()
    ensures EarlyKeys(NodeFields) && EarlyKeys(WayFields) && EarlyKeys(RelationFields)
  {
  }

  /** Adding the meta fields keeps every key differing early. */
  lemma WithMetaFieldsEarly(fields: seq<string>)
    requires EarlyKeys(fields)
    ensures EarlyKeys(WithMetaFieldsSpec(fields))
  {
    MetaFieldsEarly();
    WithMetaFieldsExtends(fields);
    var r := WithMetaFieldsSpec(fields);
    forall j | 0 <= j < |r| ensures DiffersEarly(r[j]) {
      if j < |fields| {
        assert r[j] == r[..|fields|][j] == fields[j];
      } else {
        var m :| 0 <= m < |OptionalMetaFields| && OptionalMetaFields[m] == r[j];
      }
    }
  }

  /** Copying such keys sets none of the keys the parse functions set themselves. */
  lemma CopiedPlain(attrib: map<string, string>, base: seq<string>, optional: seq<string>)
    requires EarlyKeys(base) && EarlyKeys(optional) && CopyFieldsSpec(attrib, base, optional).Returned?
    ensures forall n :: n in SetKeys ==> !HasKey(CopyFieldsSpec(attrib, base, optional).value, n)
  {
    EarlyKeysPlain(base);
    EarlyKeysPlain(optional);
    CopyFieldsNames(attrib, base, optional);
  }

  // ---------------------------------------------------------------------------
  // The recursive reader
  // ---------------------------------------------------------------------------

  /**
   * `parse_node_type(node, node_type)`. A `member` is parsed as the type its `type`
   * attribute names (a missing attribute raises KeyError; a member of type `member`
   * recurses without end, which Python stops with RecursionError); an unknown type gives None.
   */
  function ParseNodeTypeSpec(node: XNode, nodeType: string): Outcome<JValue>
    decreases node, 3, if nodeType == "member" then 1 else 0
  {
    if nodeType == "bounds" then AsValue(ParseBoundsSpec(node))
    else if nodeType == "tag" then AsValue(CopyFieldsSpec(node.attrib, ["k", "v"], []))
    else if nodeType == "node" then AsValue(ParseNodeSpec(node))
    else if nodeType == "way" then AsValue(ParseWaySpec(node))
    else if nodeType == "relation" then AsValue(ParseRelationSpec(node))
    else if nodeType == "member" then
      if "type" !in node.attrib || node.attrib["type"] == "member" then Raised
      else ParseNodeTypeSpec(node, node.attrib["type"])
    else if nodeType == "nd" then AsValue(ParseNdSpec(node))
    else Returned(JNull)
  }

  /** `parse_node(node)`: its children are parsed (and may raise) but only the tags are kept. */
  function ParseNodeSpec(node: XNode): Outcome<Obj>
    decreases node, 2
  {
    match ParseXmlNodeSpec(node, [])
    case Raised => Raised
    case Returned(p) =>
      match CopyFieldsSpec(node.attrib, [], WithMetaFieldsSpec(NodeFields))
      case Raised => Raised
      case Returned(item) => Returned(Typed(item, "node", p.tags))
  }

  /** `parse_way(node)`: the `nd` children split into `nodes` refs and `geometry` points. */
  function ParseWaySpec(node: XNode): Outcome<Obj>
    decreases node, 2
  {
    match ParseXmlNodeSpec(node, ["nd"])
    case Raised => Raised
    case Returned(p) =>
      match PartitionFrom(p.items, 0, [], [])
      case Raised => Raised
      case Returned(split) =>
        match CopyFieldsSpec(node.attrib, [], WithMetaFieldsSpec(WayFields))
        case Raised => Raised
        case Returned(way) => Returned(WayObj(way, p.tags, split.0, split.1))
  }

  /** The fields `parse_way` adds to the copied attributes. */
  function WayObj(way: Obj, tags: seq<(string, string)>, nodes: seq<JValue>, geometry: seq<JValue>): Obj {
    var w := Typed(way, "way", tags);
    var w' := if |geometry| > 0 then Put(w, "geometry", JList(geometry)) else w;
    if |nodes| > 0 then Put(w', "nodes", JList(nodes)) else w'
  }

  /**
   * The keys `parse_way` sets: `type` is "way", and `tags`, `geometry` and `nodes` are
   * there exactly when non-empty; every other key is the copied attribute.
   */
  lemma WayObjShape(way: Obj, tags: seq<(string, string)>, nodes: seq<JValue>, geometry: seq<JValue>)
    requires forall n :: n in SetKeys ==> !HasKey(way, n)
    ensures var w := WayObj(way, tags, nodes, geometry);
      Get(w, "type") == Some(JStr("way")) &&
      Get(w, "tags") == (if |tags| > 0 then Some(JObj(TagsToObj(tags))) else None) &&
      Get(w, "geometry") == (if |geometry| > 0 then Some(JList(geometry)) else None) &&
      Get(w, "nodes") == (if |nodes| > 0 then Some(JList(nodes)) else None) &&
      forall k :: k != "type" && k != "tags" && k != "geometry" && k != "nodes" ==> Get(w, k) == Get(way, k)
  {
    forall k | k != "type" && k != "tags" && k != "geometry" && k != "nodes"
      ensures Get(WayObj(way, tags, nodes, geometry), k) == Get(way, k)
    {
      WayObjGet(way, tags, nodes, geometry, k);
    }
    WayObjGet(way, tags, nodes, geometry, "type");
    WayObjGet(way, tags, nodes, geometry, "tags");
    WayObjGet(way, tags, nodes, geometry, "geometry");
    WayObjGet(way, tags, nodes, geometry, "nodes");
  }

  /** Reading one key of the way: the last write to it, or the copied attribute. */
  lemma WayObjGet(way: Obj, tags: seq<(string, string)>, nodes: seq<JValue>, geometry: seq<JValue>, k: string)
    ensures Get(WayObj(way, tags, nodes, geometry), k) ==
        if |nodes| > 0 && k == "nodes" then Some(JList(nodes))
        else if |geometry| > 0 && k == "geometry" then Some(JList(geometry))
        else if |tags| > 0 && k == "tags" then Some(JObj(TagsToObj(tags)))
        else if k == "type" then Some(JStr("way"))
        else Get(way, k)
  {
    TypedGet(way, "way", tags, k);
    var w := Typed(way, "way", tags);
    var w' := if |geometry| > 0 then Put(w, "geometry", JList(geometry)) else w;
    GetMaybePut(w, |geometry| > 0, "geometry", JList(geometry), k);
    GetMaybePut(w', |nodes| > 0, "nodes", JList(nodes), k);
  }

  /** Reading one key after the type and the tags are set. */
  lemma TypedGet(item: Obj, t: string, tags: seq<(string, string)>, k: string)
    ensures Get(Typed(item, t, tags), k) ==
        if |tags| > 0 && k == "tags" then Some(JObj(TagsToObj(tags)))
        else if k == "type" then Some(JStr(t))
        else Get(item, k)
  {
    GetMaybePut(item, true, "type", JStr(t), k);
    GetMaybePut(Put(item, "type", JStr(t)), |tags| > 0, "tags", JObj(TagsToObj(tags)), k);
  }

  /**
   * The keys `parse_node` and `parse_count` set: `type`, and `tags` exactly when non-empty;
   * every other key is the copied attribute.
   */
  lemma TypedShape(item: Obj, t: string, tags: seq<(string, string)>)
    requires !HasKey(item, "tags")
    ensures var r := Typed(item, t, tags);
      Get(r, "type") == Some(JStr(t)) &&
      Get(r, "tags") == (if |tags| > 0 then Some(JObj(TagsToObj(tags))) else None) &&
      forall k :: k != "type" && k != "tags" ==> Get(r, k) == Get(item, k)
  {
    forall k | k != "type" && k != "tags" ensures Get(Typed(item, t, tags), k) == Get(item, k) {
      TypedGet(item, t, tags, k);
    }
    TypedGet(item, t, tags, "type");
    TypedGet(item, t, tags, "tags");
  }

  /** Reading one key of the relation: the last write to it, or the copied attribute. */
  lemma RelationObjGet(relation: Obj, members: seq<JValue>, bounds: Option<Obj>, tags: seq<(string, string)>, k: string)
    ensures Get(RelationObj(relation, members, bounds, tags), k) ==
        if |tags| > 0 && k == "tags" then Some(JObj(TagsToObj(tags)))
        else if bounds.Some? && k == "bounds" then Some(JObj(bounds.value))
        else if |members| > 0 && k == "members" then Some(JList(members))
        else if k == "type" then Some(JStr("relation"))
        else Get(relation, k)
  {
    var r := Put(relation, "type", JStr("relation"));
    var r' := if |members| > 0 then Put(r, "members", JList(members)) else r;
    var r'' := if bounds.Some? then Put(r', "bounds", JObj(bounds.value)) else r';
    GetMaybePut(relation, true, "type", JStr("relation"), k);
    GetMaybePut(r, |members| > 0, "members", JList(members), k);
    if bounds.Some? {
      GetMaybePut(r', true, "bounds", JObj(bounds.value), k);
    }
    GetMaybePut(r'', |tags| > 0, "tags", JObj(TagsToObj(tags)), k);
  }

  /**
   * The keys `parse_relation` sets: `type` is "relation", and `members`, `bounds` and
   * `tags` are there exactly when there is something to put there.
   */
  lemma RelationObjShape(relation: Obj, members: seq<JValue>, bounds: Option<Obj>, tags: seq<(string, string)>)
    requires forall n :: n in SetKeys ==> !HasKey(relation, n)
    ensures var r := RelationObj(relation, members, bounds, tags);
      Get(r, "type") == Some(JStr("relation")) &&
      Get(r, "members") == (if |members| > 0 then Some(JList(members)) else None) &&
      Get(r, "bounds") == (if bounds.Some? then Some(JObj(bounds.value)) else None) &&
      Get(r, "tags") == (if |tags| > 0 then Some(JObj(TagsToObj(tags))) else None) &&
      forall k :: k != "type" && k != "members" && k != "bounds" && k != "tags" ==> Get(r, k) == Get(relation, k)
  {
    forall k | k != "type" && k != "members" && k != "bounds" && k != "tags"
      ensures Get(RelationObj(relation, members, bounds, tags), k) == Get(relation, k)
    {
      RelationObjGet(relation, members, bounds, tags, k);
    }
    RelationObjGet(relation, members, bounds, tags, "type");
    RelationObjGet(relation, members, bounds, tags, "members");
    RelationObjGet(relation, members, bounds, tags, "bounds");
    RelationObjGet(relation, members, bounds, tags, "tags");
  }

  /** Reading a key after a conditional `d[k] = v`. */
  lemma GetMaybePut<V>(d: Dict<V>, c: bool, k: string, v: V, k': string)
    ensures Get(if c then Put(d, k, v) else d, k') == if c && k' == k then Some(v) else Get(d, k')
  {
    if c && k' != k {
      GetPutOther(d, k, v, k');
    }
  }

  /** `parse_relation(node)`: the `member` children, the bounds and the tags. */
  function ParseRelationSpec(node: XNode): Outcome<Obj>
    decreases node, 2
  {
    match ParseXmlNodeSpec(node, ["member"])
    case Raised => Raised
    case Returned(p) =>
      match CopyFieldsSpec(node.attrib, [], WithMetaFieldsSpec(RelationFields))
      case Raised => Raised
      case Returned(relation) => Returned(RelationObj(relation, p.items, p.bounds, p.tags))
  }

  /** The fields `parse_relation` adds to the copied attributes. */
  function RelationObj(relation: Obj, members: seq<JValue>, bounds: Option<Obj>, tags: seq<(string, string)>): Obj {
    var r := Put(relation, "type", JStr("relation"));
    var r' := if |members| > 0 then Put(r, "members", JList(members)) else r;
    var r'' := if bounds.Some? then Put(r', "bounds", JObj(bounds.value)) else r';
    WithTags(r'', tags)
  }

  /** `parse_count(node)`: a required integer id, the type and the tags. */
  function ParseCountSpec(node: XNode): Outcome<Obj>
    decreases node, 2
  {
    match ParseXmlNodeSpec(node, [])
    case Raised => Raised
    case Returned(p) =>
      match CopyFieldsSpec(node.attrib, ["id:int"], [])
      case Raised => Raised
      case Returned(item) => Returned(Typed(item, "count", p.tags))
  }

  /** A child that `parse_xml_node` sets aside as unhandled. */
  predicate IsUnhandled(child: XNode) {
    child.tag != "bounds" && child.tag != "count" && child.tag != "tag" && child.tag !in DefaultTypes
  }

  /** A child that `parse_xml_node` parses into an item. */
  predicate IsItem(child: XNode, types: seq<string>) {
    child.tag in DefaultTypes && child.tag in types
  }

  /** The branch of the loop of `parse_xml_node` that a child takes, with what it parsed. */
  datatype Child =
    | BoundsChild(bounds: Obj)
    | CountChild(count: Obj)
    | TagChild(tag: (string, string))
    | UnhandledChild(node: XNode)
    | ItemChild(item: JValue)
    | Ignored

  /** The work the loop of `parse_xml_node` does for one child, which may raise. */
  function ParseChild(child: XNode, types: seq<string>): Outcome<Child>
    decreases child, 4
  {
    if child.tag == "bounds" then
      match ParseBoundsSpec(child)
      case Raised => Raised
      case Returned(b) => Returned(BoundsChild(b))
    else if child.tag == "count" then
      match ParseCountSpec(child)
      case Raised => Raised
      case Returned(c) => Returned(CountChild(c))
    else if child.tag == "tag" then
      match ParseTagSpec(child)
      case Raised => Raised
      case Returned(t) => Returned(TagChild(t))
    else if child.tag !in DefaultTypes then
      Returned(UnhandledChild(child))
    else if child.tag in types then
      match ParseNodeTypeSpec(child, child.tag)
      case Raised => Raised
      case Returned(v) => Returned(ItemChild(v))
    else
      Returned(Ignored)
  }

  /** Every child of `root` parsed, in document order. */
  function ParseChildren(root: XNode, types: seq<string>): (rs: seq<Outcome<Child>>)
    ensures |rs| == |root.children|
    ensures forall j :: 0 <= j < |rs| ==> rs[j] == ParseChild(root.children[j], types)
    decreases root, 0
  {
    seq(|root.children|, j requires 0 <= j < |root.children| => ParseChild(root.children[j], types))
  }

  /**
   * `parse_xml_node(root, node_types)`: the children in document order, then the last
   * count appended to the items when counts were asked for.
   */
  function ParseXmlNodeSpec(root: XNode, nodeTypes: seq<string>): Outcome<Parsed>
    decreases root, 1
  {
    var types := EffectiveTypes(nodeTypes);
    match CollectFrom(ParseChildren(root, types), 0, Nothing)
    case Raised => Raised
    case Returned(p) => Returned(WithCount(p, types))
  }

  /** How the loop records one parsed child. */
  function AddChild(acc: Parsed, c: Child): Parsed {
    match c
    case BoundsChild(b) => acc.(bounds := Some(b))
    case CountChild(n) => acc.(count := Some(n))
    case TagChild(t) => acc.(tags := acc.tags + [t])
    case UnhandledChild(n) => acc.(unhandled := acc.unhandled + [n])
    case ItemChild(v) => acc.(items := acc.items + [v])
    case Ignored => acc
  }

  /** The loop of `parse_xml_node` from child `i` on: the first child that raises stops it. */
  function CollectFrom(rs: seq<Outcome<Child>>, i: nat, acc: Parsed): Outcome<Parsed>
    requires i <= |rs|
    decreases |rs| - i
  {
    if i == |rs| then Returned(acc)
    else
      match rs[i]
      case Raised => Raised
      case Returned(c) => CollectFrom(rs, i + 1, AddChild(acc, c))
  }

  /** One turn of the loop on a child that parsed. */
  lemma CollectStep(rs: seq<Outcome<Child>>, i: nat, acc: Parsed)
    requires i < |rs| && rs[i].Returned?
    ensures CollectFrom(rs, i, acc) == CollectFrom(rs, i + 1, AddChild(acc, rs[i].value))
  {
  }

  /** `if "count" in node_types and count is not None: items.append(count)` */
  function WithCount(p: Parsed, types: seq<string>): Parsed {
    if "count" in types && p.count.Some? then p.(items := p.items + [JObj(p.count.value)]) else p
  }

  // ---------------------------------------------------------------------------
  // What parse_xml_node collects
  // ---------------------------------------------------------------------------

  /** The unhandled child one parsed result records, if any. */
  function UnhandledPick(r: Outcome<Child>): seq<XNode> {
    if r.Returned? && r.value.UnhandledChild? then [r.value.node] else []
  }

  /** The tag one parsed result records, if any. */
  function TagPick(r: Outcome<Child>): seq<(string, string)> {
    if r.Returned? && r.value.TagChild? then [r.value.tag] else []
  }

  /** The item one parsed result records, if any. */
  function ItemPick(r: Outcome<Child>): seq<JValue> {
    if r.Returned? && r.value.ItemChild? then [r.value.item] else []
  }

  /** The unhandled children among the parsed results, in order. */
  function UnhandledOf(rs: seq<Outcome<Child>>): seq<XNode> {
    if rs == [] then [] else UnhandledPick(rs[0]) + UnhandledOf(rs[1..])
  }

  /** The tags among the parsed results, in order. */
  function TagResults(rs: seq<Outcome<Child>>): seq<(string, string)> {
    if rs == [] then [] else TagPick(rs[0]) + TagResults(rs[1..])
  }

  /** The items among the parsed results, in order. */
  function ItemResults(rs: seq<Outcome<Child>>): seq<JValue> {
    if rs == [] then [] else ItemPick(rs[0]) + ItemResults(rs[1..])
  }

  predicate IsBoundsResult(r: Outcome<Child>) {
    r.Returned? && r.value.BoundsChild?
  }

  predicate IsCountResult(r: Outcome<Child>) {
    r.Returned? && r.value.CountChild?
  }

  /** The position of the last result the predicate holds for, or -1. */
  function LastResult(rs: seq<Outcome<Child>>, p: Outcome<Child> -> bool): (k: int)
    ensures -1 <= k < |rs|
    ensures k >= 0 ==> p(rs[k])
    ensures forall l :: k < l < |rs| ==> !p(rs[l])
  {
    if rs == [] then -1
    else if p(rs[|rs| - 1]) then |rs| - 1
    else LastResult(rs[..|rs| - 1], p)
  }

  /** The loop raises exactly when some remaining child raises. */
  lemma {:induction false} CollectRaises(rs: seq<Outcome<Child>>, i: nat, acc: Parsed)
    requires i <= |rs|
    ensures CollectFrom(rs, i, acc).Returned? <==> forall j :: i <= j < |rs| ==> rs[j].Returned?
    decreases |rs| - i
  {
    if i < |rs| && rs[i].Returned? {
      CollectRaises(rs, i + 1, AddChild(acc, rs[i].value));
    }
  }

  /** Splitting off the first result. */
  lemma ResultsCons(rs: seq<Outcome<Child>>, i: nat)
    requires i < |rs|
    ensures UnhandledOf(rs[i..]) == UnhandledPick(rs[i]) + UnhandledOf(rs[i + 1..])
    ensures TagResults(rs[i..]) == TagPick(rs[i]) + TagResults(rs[i + 1..])
    ensures ItemResults(rs[i..]) == ItemPick(rs[i]) + ItemResults(rs[i + 1..])
  {
    var t := rs[i..];
    assert t[0] == rs[i] && t[1..] == rs[i + 1..];
  }

  /** The loop appends the unhandled children, the tags and the items in the order of the children. */
  lemma {:induction false} CollectLists(rs: seq<Outcome<Child>>, i: nat, acc: Parsed)
    requires i <= |rs|
    requires CollectFrom(rs, i, acc).Returned?
    ensures var p := CollectFrom(rs, i, acc).value;
      p.unhandled == acc.unhandled + UnhandledOf(rs[i..]) &&
      p.tags == acc.tags + TagResults(rs[i..]) &&
      p.items == acc.items + ItemResults(rs[i..])
    decreases |rs| - i
  {
    if i == |rs| {
      assert rs[i..] == [];
    } else {
      var acc' := AddChild(acc, rs[i].value);
      assert acc'.unhandled == acc.unhandled + UnhandledPick(rs[i]);
      assert acc'.tags == acc.tags + TagPick(rs[i]);
      assert acc'.items == acc.items + ItemPick(rs[i]);
      CollectLists(rs, i + 1, acc');
      ResultsCons(rs, i);
      SeqAppendAssoc(acc.unhandled, UnhandledPick(rs[i]), UnhandledOf(rs[i + 1..]));
      SeqAppendAssoc(acc.tags, TagPick(rs[i]), TagResults(rs[i + 1..]));
      SeqAppendAssoc(acc.items, ItemPick(rs[i]), ItemResults(rs[i + 1..]));
    }
  }

  /** The loop keeps the bounds and the count of the last such child, or what it had before. */
  lemma {:induction false} CollectLast(rs: seq<Outcome<Child>>, i: nat, acc: Parsed)
    requires i <= |rs|
    requires CollectFrom(rs, i, acc).Returned?
    ensures var p := CollectFrom(rs, i, acc).value;
            var kb := LastResult(rs, IsBoundsResult);
            var kc := LastResult(rs, IsCountResult);
      (kb >= i ==> p.bounds == Some(rs[kb].value.bounds)) && (kb < i ==> p.bounds == acc.bounds) &&
      (kc >= i ==> p.count == Some(rs[kc].value.count)) && (kc < i ==> p.count == acc.count)
    decreases |rs| - i
  {
    if i < |rs| {
      CollectLast(rs, i + 1, AddChild(acc, rs[i].value));
    }
  }

  /** A `bounds` child, and only it, records its parsed bounds. */
  lemma ChildKindBounds(child: XNode, types: seq<string>)
    requires ParseChild(child, types).Returned?
    ensures var c := ParseChild(child, types).value;
      (c.BoundsChild? <==> child.tag == "bounds") && (c.BoundsChild? ==> c.bounds == ParseBoundsSpec(child).value)
  {
  }

  /** A `count` child, and only it, records its parsed count. */
  lemma ChildKindCount(child: XNode, types: seq<string>)
    requires ParseChild(child, types).Returned?
    ensures var c := ParseChild(child, types).value;
      (c.CountChild? <==> child.tag == "count") && (c.CountChild? ==> c.count == ParseCountSpec(child).value)
  {
  }

  /** A `tag` child, and only it, records its (k, v) pair. */
  lemma ChildKindTag(child: XNode, types: seq<string>)
    requires ParseChild(child, types).Returned?
    ensures var c := ParseChild(child, types).value;
      (c.TagChild? <==> child.tag == "tag") && (c.TagChild? ==> c.tag == ParseTagSpec(child).value)
  {
  }

  /** A child outside the default types, and only it, is recorded as unhandled, as it is. */
  lemma ChildKindUnhandled(child: XNode, types: seq<string>)
    requires ParseChild(child, types).Returned?
    ensures var c := ParseChild(child, types).value;
      (c.UnhandledChild? <==> IsUnhandled(child)) && (c.UnhandledChild? ==> c.node == child)
  {
  }

  /** A child of a requested default type, and only it, records its parsed item. */
  lemma ChildKindItem(child: XNode, types: seq<string>)
    requires ParseChild(child, types).Returned?
    ensures var c := ParseChild(child, types).value;
      (c.ItemChild? <==> IsItem(child, types)) && (c.ItemChild? ==> c.item == ParseNodeTypeSpec(child, child.tag).value)
  {
  }

  /** The (k, v) pairs of the `tag` children, in document order. */
  function TagsOf(cs: seq<XNode>): seq<(string, string)> {
    if cs == [] then []
    else (if cs[0].tag == "tag" && ParseTagSpec(cs[0]).Returned? then [ParseTagSpec(cs[0]).value] else []) + TagsOf(cs[1..])
  }

  /** The parsed item children, in document order. */
  function ItemsOf(cs: seq<XNode>, types: seq<string>): seq<JValue> {
    if cs == [] then []
    else
      var v := ParseNodeTypeSpec(cs[0], cs[0].tag);
      (if IsItem(cs[0], types) && v.Returned? then [v.value] else []) + ItemsOf(cs[1..], types)
  }

  /** The position of the last child with this tag, or -1. */
  function LastTagged(cs: seq<XNode>, tag: string): (k: int)
    ensures -1 <= k < |cs|
    ensures k >= 0 ==> cs[k].tag == tag
    ensures forall l :: k < l < |cs| ==> cs[l].tag != tag
  {
    if cs == [] then -1
    else if cs[|cs| - 1].tag == tag then |cs| - 1
    else LastTagged(cs[..|cs| - 1], tag)
  }

  /** The results of children that all parse, read back as children. */
  lemma {:induction false} ResultsAsChildren(rs: seq<Outcome<Child>>, cs: seq<XNode>, types: seq<string>)
    requires |rs| == |cs|
    requires forall j :: 0 <= j < |cs| ==> rs[j] == ParseChild(cs[j], types) && rs[j].Returned?
    ensures UnhandledOf(rs) == Filter(cs, IsUnhandled)
    ensures TagResults(rs) == TagsOf(cs)
    ensures ItemResults(rs) == ItemsOf(cs, types)
  {
    if cs != [] {
      ChildKindUnhandled(cs[0], types);
      ChildKindTag(cs[0], types);
      ChildKindItem(cs[0], types);
      ResultsAsChildren(rs[1..], cs[1..], types);
    }
  }

  /** The last bounds (or count) result is the result of the last child with that tag. */
  lemma {:induction false} LastResultIsLastTagged(rs: seq<Outcome<Child>>, cs: seq<XNode>, types: seq<string>, tag: string)
    requires |rs| == |cs| && (tag == "bounds" || tag == "count")
    requires forall j :: 0 <= j < |cs| ==> rs[j] == ParseChild(cs[j], types) && rs[j].Returned?
    ensures LastResult(rs, if tag == "bounds" then IsBoundsResult else IsCountResult) == LastTagged(cs, tag)
  {
    if cs != [] {
      var n := |cs| - 1;
      ChildKindBounds(cs[n], types);
      ChildKindCount(cs[n], types);
      LastResultIsLastTagged(rs[..n], cs[..n], types, tag);
    }
  }

  /**
   * `parse_xml_node` raises exactly when some child raises; an empty list of node types
   * means the default types.
   */
  lemma ParseXmlNodeRaises(root: XNode, nodeTypes: seq<string>)
    ensures ParseXmlNodeSpec(root, nodeTypes).Returned? <==>
            forall j :: 0 <= j < |root.children| ==> ParseChild(root.children[j], EffectiveTypes(nodeTypes)).Returned?
    ensures nodeTypes == [] ==> ParseXmlNodeSpec(root, nodeTypes) == ParseXmlNodeSpec(root, DefaultTypes)
  {
    CollectRaises(ParseChildren(root, EffectiveTypes(nodeTypes)), 0, Nothing);
  }

  /** The items of the finished loop: the item results, then the last count when asked for. */
  lemma CollectItems(rs: seq<Outcome<Child>>, types: seq<string>)
    requires CollectFrom(rs, 0, Nothing).Returned?
    ensures var p := WithCount(CollectFrom(rs, 0, Nothing).value, types);
            var kc := LastResult(rs, IsCountResult);
      ("count" in types && kc >= 0 ==> p.items == ItemResults(rs) + [JObj(rs[kc].value.count)]) &&
      (!("count" in types && kc >= 0) ==> p.items == ItemResults(rs))
  {
    CollectLists(rs, 0, Nothing);
    CollectLast(rs, 0, Nothing);
    assert rs[0..] == rs;
  }

  /**
   * `parse_xml_node`: `tag` children become the tags and children outside the default
   * types the unhandled list, both in document order.
   */
  lemma ParseXmlNodeLists(root: XNode, nodeTypes: seq<string>)
    requires ParseXmlNodeSpec(root, nodeTypes).Returned?
    ensures ParseXmlNodeSpec(root, nodeTypes).value.unhandled == Filter(root.children, IsUnhandled)
    ensures ParseXmlNodeSpec(root, nodeTypes).value.tags == TagsOf(root.children)
  {
    var types := EffectiveTypes(nodeTypes);
    var rs := ParseChildren(root, types);
    CollectRaises(rs, 0, Nothing);
    CollectLists(rs, 0, Nothing);
    assert rs[0..] == rs;
    ResultsAsChildren(rs, root.children, types);
  }

  /**
   * `parse_xml_node`: the items are the children whose tag was asked for, in document
   * order, followed by the last count when counts were asked for.
   */
  lemma ParseXmlNodeItems(root: XNode, nodeTypes: seq<string>)
    requires ParseXmlNodeSpec(root, nodeTypes).Returned?
    ensures var p := ParseXmlNodeSpec(root, nodeTypes).value;
            var cs := root.children;
            var types := EffectiveTypes(nodeTypes);
            var kc := LastTagged(cs, "count");
      ("count" in types && kc >= 0 ==>
        ParseCountSpec(cs[kc]).Returned? && p.items == ItemsOf(cs, types) + [JObj(ParseCountSpec(cs[kc]).value)]) &&
      (!("count" in types && kc >= 0) ==> p.items == ItemsOf(cs, types))
  {
    var types := EffectiveTypes(nodeTypes);
    var cs := root.children;
    var rs := ParseChildren(root, types);
    CollectRaises(rs, 0, Nothing);
    CollectItems(rs, types);
    ResultsAsChildren(rs, cs, types);
    LastResultIsLastTagged(rs, cs, types, "count");
    var kc := LastTagged(cs, "count");
    if kc >= 0 {
      ChildKindCount(cs[kc], types);
    }
  }

  /** `parse_xml_node`: the bounds are those of the last `bounds` child, None without one. */
  lemma ParseXmlNodeBounds(root: XNode, nodeTypes: seq<string>)
    requires ParseXmlNodeSpec(root, nodeTypes).Returned?
    ensures var p := ParseXmlNodeSpec(root, nodeTypes).value;
            var cs := root.children;
            var kb := LastTagged(cs, "bounds");
      (kb >= 0 ==> ParseBoundsSpec(cs[kb]).Returned? && p.bounds == Some(ParseBoundsSpec(cs[kb]).value)) &&
      (kb < 0 ==> p.bounds == None)
  {
    var types := EffectiveTypes(nodeTypes);
    var cs := root.children;
    var rs := ParseChildren(root, types);
    CollectRaises(rs, 0, Nothing);
    CollectLast(rs, 0, Nothing);
    LastResultIsLastTagged(rs, cs, types, "bounds");
    var kb := LastTagged(cs, "bounds");
    if kb >= 0 {
      ChildKindBounds(cs[kb], types);
    }
  }

  /**
   * `parse_way`: every parsed `nd` child is a dict; `nodes` holds the refs of the entries
   * that carry `ref` and neither `lat` nor `lon`, `geometry` every other entry, both in
   * document order and each only when non-empty; `tags` is there only when non-empty,
   * `type` is "way", and every other key is a copied attribute.
   */
  lemma ParseWayShape(node: XNode)
    requires ParseWaySpec(node).Returned?
    ensures ParseXmlNodeSpec(node, ["nd"]).Returned?
    ensures CopyFieldsSpec(node.attrib, [], WithMetaFieldsSpec(WayFields)).Returned?
    ensures var w := ParseWaySpec(node).value;
            var p := ParseXmlNodeSpec(node, ["nd"]).value;
            var nodes := RefsOf(p.items);
            var geometry := Filter(p.items, IsGeometryEntry);
      AllObjects(p.items) && |nodes| + |geometry| == |p.items| &&
      Get(w, "type") == Some(JStr("way")) &&
      Get(w, "tags") == (if |p.tags| > 0 then Some(JObj(TagsToObj(p.tags))) else None) &&
      Get(w, "geometry") == (if |geometry| > 0 then Some(JList(geometry)) else None) &&
      Get(w, "nodes") == (if |nodes| > 0 then Some(JList(nodes)) else None)
    ensures forall k :: k != "type" && k != "tags" && k != "geometry" && k != "nodes" ==>
      Get(ParseWaySpec(node).value, k) == Get(CopyFieldsSpec(node.attrib, [], WithMetaFieldsSpec(WayFields)).value, k)
  {
    var p := ParseXmlNodeSpec(node, ["nd"]).value;
    var keys := WithMetaFieldsSpec(WayFields);
    var way := CopyFieldsSpec(node.attrib, [], keys).value;
    PartitionFromRaises(p.items, 0, [], []);
    PartitionSplits(p.items);
    ElementFieldsEarly();
    WithMetaFieldsEarly(WayFields);
    CopiedPlain(node.attrib, [], keys);
    WayObjShape(way, p.tags, RefsOf(p.items), Filter(p.items, IsGeometryEntry));
  }

  /**
   * `parse_node`: `type` is "node", `tags` is there only when the node has `tag` children,
   * and every other key is a copied attribute.
   */
  lemma ParseNodeShape(node: XNode)
    requires ParseNodeSpec(node).Returned?
    ensures ParseXmlNodeSpec(node, []).Returned?
    ensures CopyFieldsSpec(node.attrib, [], WithMetaFieldsSpec(NodeFields)).Returned?
    ensures var r := ParseNodeSpec(node).value;
            var p := ParseXmlNodeSpec(node, []).value;
      Get(r, "type") == Some(JStr("node")) &&
      Get(r, "tags") == (if |p.tags| > 0 then Some(JObj(TagsToObj(p.tags))) else None) &&
      forall k :: k != "type" && k != "tags" ==>
        Get(r, k) == Get(CopyFieldsSpec(node.attrib, [], WithMetaFieldsSpec(NodeFields)).value, k)
  {
    var p := ParseXmlNodeSpec(node, []).value;
    var keys := WithMetaFieldsSpec(NodeFields);
    ElementFieldsEarly();
    WithMetaFieldsEarly(NodeFields);
    CopiedPlain(node.attrib, [], keys);
    TypedShape(CopyFieldsSpec(node.attrib, [], keys).value, "node", p.tags);
  }

  /**
   * `parse_count`: it needs an integer `id` attribute, which it keeps; `type` is "count" and
   * `tags` is there only when the count has `tag` children.
   */
  lemma ParseCountShape(node: XNode)
    requires ParseCountSpec(node).Returned?
    ensures ParseXmlNodeSpec(node, []).Returned?
    ensures "id" in node.attrib && ParseInt(node.attrib["id"]).Some?
    ensures var r := ParseCountSpec(node).value;
            var p := ParseXmlNodeSpec(node, []).value;
      Get(r, "type") == Some(JStr("count")) &&
      Get(r, "tags") == (if |p.tags| > 0 then Some(JObj(TagsToObj(p.tags))) else None) &&
      Get(r, "id") == Some(JInt(ParseInt(node.attrib["id"]).value))
  {
    var p := ParseXmlNodeSpec(node, []).value;
    CountObjShape(node.attrib, p.tags);
  }

  /** The count object built from the node's attributes and tags. */
  lemma CountObjShape(attrib: map<string, string>, tags: seq<(string, string)>)
    requires CopyFieldsSpec(attrib, ["id:int"], []).Returned?
    ensures "id" in attrib && ParseInt(attrib["id"]).Some?
    ensures var r := Typed(CopyFieldsSpec(attrib, ["id:int"], []).value, "count", tags);
      Get(r, "type") == Some(JStr("count")) &&
      Get(r, "tags") == (if |tags| > 0 then Some(JObj(TagsToObj(tags))) else None) &&
      Get(r, "id") == Some(JInt(ParseInt(attrib["id"]).value))
  {
    var item := CopyFieldsSpec(attrib, ["id:int"], []).value;
    CountId(attrib);
    TypedGet(item, "count", tags, "type");
    TypedGet(item, "count", tags, "tags");
    TypedGet(item, "count", tags, "id");
  }

  /** Copying the required `id:int` field: it raises unless `id` is an integer, which it keeps. */
  lemma CountId(attrib: map<string, string>)
    ensures CopyFieldsSpec(attrib, ["id:int"], []).Returned? <==> "id" in attrib && ParseInt(attrib["id"]).Some?
    ensures CopyFieldsSpec(attrib, ["id:int"], []).Returned? ==>
            Get(CopyFieldsSpec(attrib, ["id:int"], []).value, "id") == Some(JInt(ParseInt(attrib["id"]).value))
    ensures CopyFieldsSpec(attrib, ["id:int"], []).Returned? ==>
            forall n :: HasKey(CopyFieldsSpec(attrib, ["id:int"], []).value, n) <==> n == "id"
  {
    ParseKeyRoundTrip("id", "int", "");
    assert "id" + ":" + "int" + "" == "id:int";
    CopyFieldsRaises(attrib, ["id:int"], []);
    CopyFieldsValues(attrib, ["id:int"], []);
    CopyFieldsNames(attrib, ["id:int"], []);
  }

  /**
   * `parse_relation`: `type` is "relation"; `members` holds the parsed `member` children
   * and `bounds` the last bounds, each only when there is one; `tags` only when non-empty;
   * every other key is a copied attribute.
   */
  lemma ParseRelationShape(node: XNode)
    requires ParseRelationSpec(node).Returned?
    ensures ParseXmlNodeSpec(node, ["member"]).Returned?
    ensures CopyFieldsSpec(node.attrib, [], WithMetaFieldsSpec(RelationFields)).Returned?
    ensures var r := ParseRelationSpec(node).value;
            var p := ParseXmlNodeSpec(node, ["member"]).value;
      Get(r, "type") == Some(JStr("relation")) &&
      Get(r, "members") == (if |p.items| > 0 then Some(JList(p.items)) else None) &&
      Get(r, "bounds") == (if p.bounds.Some? then Some(JObj(p.bounds.value)) else None) &&
      Get(r, "tags") == (if |p.tags| > 0 then Some(JObj(TagsToObj(p.tags))) else None) &&
      forall k :: k != "type" && k != "members" && k != "bounds" && k != "tags" ==>
        Get(r, k) == Get(CopyFieldsSpec(node.attrib, [], WithMetaFieldsSpec(RelationFields)).value, k)
  {
    var p := ParseXmlNodeSpec(node, ["member"]).value;
    var keys := WithMetaFieldsSpec(RelationFields);
    ElementFieldsEarly();
    WithMetaFieldsEarly(RelationFields);
    CopiedPlain(node.attrib, [], keys);
    RelationObjShape(CopyFieldsSpec(node.attrib, [], keys).value, p.items, p.bounds, p.tags);
  }

  // ---------------------------------------------------------------------------
  // format_ojson and parse
  // ---------------------------------------------------------------------------

  /** The header values `format_ojson` collects from the unhandled elements. */
  datatype Header = Header(version: JValue, generator: Option<string>, osmBase: Option<string>,
                           copyright: Option<string>)

  /** `version = 0.6` and the other header values unset. */
  const Unset := Header(JFloat("0.6"), None, None, None)

  /** One iteration of the loop of `format_ojson`. */
  function ScanNode(h: Header, node: XNode): Header {
    if node.tag == "meta" && "osm_base" in node.attrib then h.(osmBase := Some(node.attrib["osm_base"]))
    else if node.tag == "note" then h.(copyright := node.text)
    else if node.tag == "osm" then
      h.(version := if "version" in node.attrib then JFloat(node.attrib["version"]) else h.version,
         generator := if "generator" in node.attrib then Some(node.attrib["generator"]) else h.generator)
    else h
  }

  /** The loop of `format_ojson` from element `i` on. */
  function ScanFrom(us: seq<XNode>, i: nat, h: Header): Header
    requires i <= |us|
    decreases |us| - i
  {
    if i == |us| then h else ScanFrom(us, i + 1, ScanNode(h, us[i]))
  }

  /** `format_ojson(elements, unhandled)` */
  function FormatOjsonSpec(elements: seq<JValue>, unhandled: seq<XNode>): Obj {
    Assemble(ScanFrom(unhandled, 0, Unset), elements)
  }

  /** The document `format_ojson` builds from the collected header values. */
  function Assemble(h: Header, elements: seq<JValue>): Obj {
    var item: Obj := [("version", h.version), ("elements", JList(elements))];
    var item' := if h.generator.Some? then Put(item, "generator", JStr(h.generator.value)) else item;
    if Osm3s(h) != [] then Put(item', "osm3s", JObj(Osm3s(h))) else item'
  }

  /** The `osm3s` object: the copyright, then the base timestamp, each when set. */
  function Osm3s(h: Header): Obj {
    (if h.copyright.Some? then [("copyright", JStr(h.copyright.value))] else []) +
    (if h.osmBase.Some? then [("timestamp_osm_base", JStr(h.osmBase.value))] else [])
  }

  /**
   * `parse(xml_str)` on the parsed tree: None when the root is not `osm`; otherwise the
   * elements of the root with the root itself scanned last for the header.
   */
  function ParseSpec(root: XNode): (r: Outcome<Option<Obj>>)
    ensures root.tag != "osm" ==> r == Returned(None)
  {
    if root.tag != "osm" then Returned(None)
    else
      match ParseXmlNodeSpec(root, ElementTypes)
      case Raised => Raised
      case Returned(p) => Returned(Some(FormatOjsonSpec(p.items, p.unhandled + [root])))
  }

  /** A `meta` element with an `osm_base` attribute. */
  predicate SetsOsmBase(n: XNode) {
    n.tag == "meta" && "osm_base" in n.attrib
  }

  predicate IsNote(n: XNode) {
    n.tag == "note"
  }

  /** An `osm` element with a `version` attribute. */
  predicate SetsVersion(n: XNode) {
    n.tag == "osm" && "version" in n.attrib
  }

  /** An `osm` element with a `generator` attribute. */
  predicate SetsGenerator(n: XNode) {
    n.tag == "osm" && "generator" in n.attrib
  }

  /** The position of the last element the predicate holds for, or -1. */
  function LastWhere(us: seq<XNode>, p: XNode -> bool): (k: int)
    ensures -1 <= k < |us|
    ensures k >= 0 ==> p(us[k])
    ensures forall l :: k < l < |us| ==> !p(us[l])
  {
    if us == [] then -1
    else if p(us[|us| - 1]) then |us| - 1
    else LastWhere(us[..|us| - 1], p)
  }

  /**
   * The loop of `format_ojson`, for the `osm3s` values: the base timestamp and the
   * copyright are those of the last element that sets them, and stay as they were when no
   * remaining element does.
   */
  lemma {:induction false} ScanOsm3s(us: seq<XNode>, i: nat, h: Header)
    requires i <= |us|
    ensures var r := ScanFrom(us, i, h);
            var kb := LastWhere(us, SetsOsmBase);
            var kn := LastWhere(us, IsNote);
      (kb >= i ==> r.osmBase == Some(us[kb].attrib["osm_base"])) && (kb < i ==> r.osmBase == h.osmBase) &&
      (kn >= i ==> r.copyright == us[kn].text) && (kn < i ==> r.copyright == h.copyright)
    decreases |us| - i
  {
    if i < |us| {
      ScanOsm3s(us, i + 1, ScanNode(h, us[i]));
    }
  }

  /**
   * The loop of `format_ojson`, for the `osm` attributes: the version and the generator
   * are those of the last `osm` element that has them, and stay as they were otherwise.
   */
  lemma {:induction false} ScanOsmAttributes(us: seq<XNode>, i: nat, h: Header)
    requires i <= |us|
    ensures var r := ScanFrom(us, i, h);
            var kv := LastWhere(us, SetsVersion);
            var kg := LastWhere(us, SetsGenerator);
      (kv >= i ==> r.version == JFloat(us[kv].attrib["version"])) && (kv < i ==> r.version == h.version) &&
      (kg >= i ==> r.generator == Some(us[kg].attrib["generator"])) && (kg < i ==> r.generator == h.generator)
    decreases |us| - i
  {
    if i < |us| {
      ScanOsmAttributes(us, i + 1, ScanNode(h, us[i]));
    }
  }

  /**
   * `format_ojson`: `version` and `elements` come first, `elements` unchanged;
   * `generator` is there exactly when one was found, and `osm3s` exactly when a copyright
   * or a base timestamp was found.
   */
  lemma AssembleShape(h: Header, elements: seq<JValue>)
    ensures var r := Assemble(h, elements);
      |r| >= 2 && r[0] == ("version", h.version) && r[1] == ("elements", JList(elements)) &&
      Get(r, "generator") == (if h.generator.Some? then Some(JStr(h.generator.value)) else None) &&
      Get(r, "osm3s") == (if h.copyright.Some? || h.osmBase.Some? then Some(JObj(Osm3s(h))) else None)
  {
    var item: Obj := [("version", h.version), ("elements", JList(elements))];
    var item' := if h.generator.Some? then Put(item, "generator", JStr(h.generator.value)) else item;
    assert !HasKey(item, "generator") && !HasKey(item, "osm3s");
    assert item'[..2] == item;
    if h.generator.Some? {
      GetPutOther(item, "generator", JStr(h.generator.value), "osm3s");
    }
    GetMaybePut(item', Osm3s(h) != [], "osm3s", JObj(Osm3s(h)), "generator");
  }

  /** The `osm3s` object holds the copyright and the base timestamp that were found, and nothing else. */
  lemma Osm3sFields(h: Header)
    ensures Get(Osm3s(h), "copyright") == (if h.copyright.Some? then Some(JStr(h.copyright.value)) else None)
    ensures Get(Osm3s(h), "timestamp_osm_base") == (if h.osmBase.Some? then Some(JStr(h.osmBase.value)) else None)
    ensures forall k :: HasKey(Osm3s(h), k) ==> k == "copyright" || k == "timestamp_osm_base"
  {
    var o := Osm3s(h);
    if h.copyright.Some? {
      IndexOfFirst(o, "copyright", 0);
    }
    if h.osmBase.Some? {
      IndexOfFirst(o, "timestamp_osm_base", |o| - 1);
    }
  }

  /**
   * `parse` on an `osm` root: the elements are the items `parse_xml_node` collected, and
   * the root, scanned after the unhandled children, decides the version and the generator
   * when it has them; with no version anywhere the version stays 0.6.
   */
  lemma ParseHeader(root: XNode)
    requires root.tag == "osm" && ParseSpec(root).Returned?
    ensures ParseXmlNodeSpec(root, ElementTypes).Returned? && ParseSpec(root).value.Some?
    ensures var doc := ParseSpec(root).value.value;
            var p := ParseXmlNodeSpec(root, ElementTypes).value;
      |doc| >= 2 && doc[1] == ("elements", JList(p.items)) &&
      ("version" in root.attrib ==> doc[0] == ("version", JFloat(root.attrib["version"]))) &&
      ("version" !in root.attrib && (forall u :: u in p.unhandled ==> !SetsVersion(u)) ==>
        doc[0] == ("version", JFloat("0.6"))) &&
      ("generator" in root.attrib ==> Get(doc, "generator") == Some(JStr(root.attrib["generator"])))
  {
    var p := ParseXmlNodeSpec(root, ElementTypes).value;
    var us := p.unhandled + [root];
    ScanOsmAttributes(us, 0, Unset);
    AssembleShape(ScanFrom(us, 0, Unset), p.items);
    if "version" !in root.attrib && (forall u :: u in p.unhandled ==> !SetsVersion(u)) {
      assert forall l :: 0 <= l < |us| ==> !SetsVersion(us[l]) by {
        forall l | 0 <= l < |us| ensures !SetsVersion(us[l]) {
          if l < |p.unhandled| {
            assert us[l] in p.unhandled;
          }
        }
      }
    }
  }

  /**
   * `parse_node_type` on a `member`: it is parsed as the type its `type` attribute names;
   * a missing attribute raises, and a type no branch handles gives None.
   */
  lemma ParseMemberAs(node: XNode, nodeType: string)
    ensures nodeType == "member" && "type" in node.attrib && node.attrib["type"] != "member" ==>
            ParseNodeTypeSpec(node, nodeType) == ParseNodeTypeSpec(node, node.attrib["type"])
    ensures nodeType == "member" && "type" !in node.attrib ==> ParseNodeTypeSpec(node, nodeType).Raised?
    ensures nodeType !in ["bounds", "tag", "node", "way", "relation", "member", "nd"] ==>
            ParseNodeTypeSpec(node, nodeType) == Returned(JNull)
  {
  }
}
