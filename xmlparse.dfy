/**
 * The reader of `parse_xml.py` as the program runs it: loops that fill lists and dicts and
 * overwrite local variables, each method proved to compute its function in XmlFields or
 * XmlSpec.
 */
module XmlParse {
  import opened PyCore
  import opened XmlFields
  import opened XmlSpec

  /** `with_meta_fields(fields)`: the list with each missing optional meta field appended. */
  method WithMetaFields(fields: seq<string>) returns (r: seq<string>)
    ensures r == WithMetaFieldsSpec(fields)
  {
    r := fields;
    MetaFieldsDistinct();
    for i := 0 to |OptionalMetaFields|
      invariant r == fields + Filter(OptionalMetaFields[..i], Absent(fields))
    {
      var field := OptionalMetaFields[i];
      // The fields appended so far come before `field` in a list without repetitions.
      assert field !in OptionalMetaFields[..i];
      assert field !in r <==> field !in fields;
      FilterSnoc(OptionalMetaFields[..i], field, Absent(fields));
      assert OptionalMetaFields[..i + 1] == OptionalMetaFields[..i] + [field];
      if field !in r {
        r := r + [field];
      }
    }
    assert OptionalMetaFields[..|OptionalMetaFields|] == OptionalMetaFields;
  }

  /** `copy_fields(node, base, optional)`, on the node's attributes. */
  method CopyFields(attrib: map<string, string>, base: seq<string>, optional: seq<string>) returns (r: Outcome<Obj>)
    ensures r == CopyFieldsSpec(attrib, base, optional)
  {
    var obj: Obj := [];
    for i := 0 to |base|
      invariant CopyKeysFrom(attrib, base, true, i, obj) == CopyKeysFrom(attrib, base, true, 0, [])
    {
      var (key, t) := ParseKey(base[i]);
      assert CopyKey(attrib, base[i], true, obj) ==
        if key !in attrib then Raised else
        match ToType(attrib[key], t) case Raised => Raised case Returned(v) => Returned(Put(obj, key, v));
      if key !in attrib {
        return Raised;
      }
      var v := ToType(attrib[key], t);
      if v.Raised? {
        return Raised;
      }
      obj := Put(obj, key, v.value);
    }
    ghost var copied := obj;
    for i := 0 to |optional|
      invariant CopyKeysFrom(attrib, optional, false, i, obj) == CopyKeysFrom(attrib, optional, false, 0, copied)
    {
      var (key, t) := ParseKey(optional[i]);
      assert CopyKey(attrib, optional[i], false, obj) ==
        if key !in attrib then Returned(obj) else
        match ToType(attrib[key], t) case Raised => Raised case Returned(v) => Returned(Put(obj, key, v));
      if key in attrib {
        var v := ToType(attrib[key], t);
        if v.Raised? {
          return Raised;
        }
        obj := Put(obj, key, v.value);
      }
    }
    return Returned(obj);
  }

  /** `parse_bounds(node)` */
  method ParseBounds(node: XNode) returns (r: Outcome<Obj>)
    ensures r == ParseBoundsSpec(node)
  {
    r := CopyFields(node.attrib, ["minlat:float", "minlon:float", "maxlat:float", "maxlon:float"], []);
  }

  /** `parse_tag(node)`, kept as the pair of the copied `k` and `v`. */
  method ParseTag(node: XNode) returns (r: Outcome<(string, string)>)
    ensures r == ParseTagSpec(node)
  {
    var o := CopyFields(node.attrib, ["k", "v"], []);
    ParseTagIsCopyFields(node);
    if o.Raised? {
      return Raised;
    }
    var t := ParseTagSpec(node).value;
    assert Get(o.value, "k") == Some(JStr(t.0)) && Get(o.value, "v") == Some(JStr(t.1)) by {
      IndexOfFirst(o.value, "k", 0);
      IndexOfFirst(o.value, "v", 1);
    }
    return Returned((Get(o.value, "k").value.s, Get(o.value, "v").value.s));
  }

  /** `parse_nd(node)` */
  method ParseNd(node: XNode) returns (r: Outcome<Obj>)
    ensures r == ParseNdSpec(node)
  {
    r := CopyFields(node.attrib, [], ["ref:int", "lat:float", "lon:float"]);
  }

  /** `parse_node_type(node, node_type)`; a member of type `member` stands for RecursionError. */
  method ParseNodeType(node: XNode, nodeType: string) returns (r: Outcome<JValue>)
    ensures r == ParseNodeTypeSpec(node, nodeType)
    decreases node, 3, if nodeType == "member" then 1 else 0
  {
    if nodeType == "bounds" {
      var b := ParseBounds(node);
      return AsValue(b);
    }
    if nodeType == "tag" {
      var t := CopyFields(node.attrib, ["k", "v"], []);
      return AsValue(t);
    }
    if nodeType == "node" {
      var n := ParseNode(node);
      return AsValue(n);
    }
    if nodeType == "way" {
      var w := ParseWay(node);
      return AsValue(w);
    }
    if nodeType == "relation" {
      var rel := ParseRelation(node);
      return AsValue(rel);
    }
    if nodeType == "member" {
      if "type" !in node.attrib || node.attrib["type"] == "member" {
        return Raised;
      }
      r := ParseNodeType(node, node.attrib["type"]);
      return;
    }
    if nodeType == "nd" {
      var nd := ParseNd(node);
      return AsValue(nd);
    }
    return Returned(JNull);
  }

  /** `parse_node(node)` */
  method ParseNode(node: XNode) returns (r: Outcome<Obj>)
    ensures r == ParseNodeSpec(node)
    decreases node, 2
  {
    var p := ParseXmlNode(node, []);
    if p.Raised? {
      return Raised;
    }
    var fields := WithMetaFields(NodeFields);
    var item := CopyFields(node.attrib, [], fields);
    if item.Raised? {
      return Raised;
    }
    var obj := Put(item.value, "type", JStr("node"));
    if |p.value.tags| > 0 {
      obj := Put(obj, "tags", JObj(TagsToObj(p.value.tags)));
    }
    return Returned(obj);
  }

  /** The `nd` loop of `parse_way`: node references to `nodes`, everything else to `geometry`. */
  method PartitionNds(nds: seq<JValue>) returns (r: Outcome<(seq<JValue>, seq<JValue>)>)
    ensures r == PartitionFrom(nds, 0, [], [])
  {
    var nodes: seq<JValue> := [];
    var geometry: seq<JValue> := [];
    for i := 0 to |nds|
      invariant PartitionFrom(nds, i, nodes, geometry) == PartitionFrom(nds, 0, [], [])
    {
      match nds[i]
      case JObj(nd) =>
        if HasKey(nd, "ref") && !HasKey(nd, "lat") && !HasKey(nd, "lon") {
          nodes := nodes + [Get(nd, "ref").value];
        } else {
          geometry := geometry + [nds[i]];
        }
      case _ =>
        return Raised;
    }
    return Returned((nodes, geometry));
  }

  /** `parse_way(node)` */
  method ParseWay(node: XNode) returns (r: Outcome<Obj>)
    ensures r == ParseWaySpec(node)
    decreases node, 2
  {
    var p := ParseXmlNode(node, ["nd"]);
    if p.Raised? {
      return Raised;
    }
    var split := PartitionNds(p.value.items);
    if split.Raised? {
      return Raised;
    }
    var (nodes, geometry) := split.value;
    var fields := WithMetaFields(WayFields);
    var copied := CopyFields(node.attrib, [], fields);
    if copied.Raised? {
      return Raised;
    }
    var way := Put(copied.value, "type", JStr("way"));
    if |p.value.tags| > 0 {
      way := Put(way, "tags", JObj(TagsToObj(p.value.tags)));
    }
    if |geometry| > 0 {
      way := Put(way, "geometry", JList(geometry));
    }
    if |nodes| > 0 {
      way := Put(way, "nodes", JList(nodes));
    }
    return Returned(way);
  }

  /** `parse_relation(node)` */
  method ParseRelation(node: XNode) returns (r: Outcome<Obj>)
    ensures r == ParseRelationSpec(node)
    decreases node, 2
  {
    var p := ParseXmlNode(node, ["member"]);
    if p.Raised? {
      return Raised;
    }
    var fields := WithMetaFields(RelationFields);
    var copied := CopyFields(node.attrib, [], fields);
    if copied.Raised? {
      return Raised;
    }
    var relation := Put(copied.value, "type", JStr("relation"));
    if |p.value.items| > 0 {
      relation := Put(relation, "members", JList(p.value.items));
    }
    if p.value.bounds.Some? {
      relation := Put(relation, "bounds", JObj(p.value.bounds.value));
    }
    if |p.value.tags| > 0 {
      relation := Put(relation, "tags", JObj(TagsToObj(p.value.tags)));
    }
    return Returned(relation);
  }

  /** `parse_count(node)` */
  method ParseCount(node: XNode) returns (r: Outcome<Obj>)
    ensures r == ParseCountSpec(node)
    decreases node, 2
  {
    var p := ParseXmlNode(node, []);
    if p.Raised? {
      return Raised;
    }
    var item := CopyFields(node.attrib, ["id:int"], []);
    if item.Raised? {
      return Raised;
    }
    var obj := Put(item.value, "type", JStr("count"));
    if |p.value.tags| > 0 {
      obj := Put(obj, "tags", JObj(TagsToObj(p.value.tags)));
    }
    return Returned(obj);
  }

  /** `parse_xml_node(root, node_types)` */
  method ParseXmlNode(root: XNode, nodeTypes: seq<string>) returns (r: Outcome<Parsed>)
    ensures r == ParseXmlNodeSpec(root, nodeTypes)
    decreases root, 1
  {
    var types := if nodeTypes == [] then DefaultTypes else nodeTypes;
    var collected := CollectChildren(root, types);
    if collected.Raised? {
      return Raised;
    }
    var Parsed(bounds, count, tags, items, unhandled) := collected.value;
    if "count" in types && count.Some? {
      items := items + [JObj(count.value)];
    }
    return Returned(Parsed(bounds, count, tags, items, unhandled));
  }

  /** The loop of `parse_xml_node` over the children of `root`, in document order. */
  method CollectChildren(root: XNode, types: seq<string>) returns (r: Outcome<Parsed>)
    ensures r == CollectFrom(ParseChildren(root, types), 0, Nothing)
    decreases root, 0
  {
    ghost var rs := ParseChildren(root, types);
    var bounds: Option<Obj> := None;
    var count: Option<Obj> := None;
    var tags: seq<(string, string)> := [];
    var items: seq<JValue> := [];
    var unhandled: seq<XNode> := [];
    for i := 0 to |root.children|
      invariant CollectFrom(rs, i, Parsed(bounds, count, tags, items, unhandled)) == CollectFrom(rs, 0, Nothing)
    {
      var c := HandleChild(root.children[i], types);
      assert c == rs[i];
      if c.Raised? {
        return Raised;
      }
      ghost var acc := Parsed(bounds, count, tags, items, unhandled);
      CollectStep(rs, i, acc);
      bounds, count, tags, items, unhandled := Record(c.value, bounds, count, tags, items, unhandled);
    }
    return Returned(Parsed(bounds, count, tags, items, unhandled));
  }

  /**
   * The body of the loop of `parse_xml_node` for one child: bounds, counts and tags are
   * parsed, a tag outside the default types is set aside, a requested type is parsed into
   * an item and any other child is skipped.
   */
  method HandleChild(child: XNode, types: seq<string>) returns (r: Outcome<Child>)
    ensures r == ParseChild(child, types)
    decreases child, 4
  {
    if child.tag == "bounds" {
      var b := ParseBounds(child);
      if b.Raised? {
        return Raised;
      }
      return Returned(BoundsChild(b.value));
    } else if child.tag == "count" {
      var c := ParseCount(child);
      if c.Raised? {
        return Raised;
      }
      return Returned(CountChild(c.value));
    } else if child.tag == "tag" {
      var t := ParseTag(child);
      if t.Raised? {
        return Raised;
      }
      return Returned(TagChild(t.value));
    } else if child.tag !in DefaultTypes {
      return Returned(UnhandledChild(child));
    } else if child.tag in types {
      var v := ParseNodeType(child, child.tag);
      if v.Raised? {
        return Raised;
      }
      return Returned(ItemChild(v.value));
    }
    return Returned(Ignored);
  }

  /** Where the loop of `parse_xml_node` keeps what one child gave. */
  method Record(c: Child, bounds: Option<Obj>, count: Option<Obj>, tags: seq<(string, string)>, items: seq<JValue>,
                unhandled: seq<XNode>)
    returns (bounds': Option<Obj>, count': Option<Obj>, tags': seq<(string, string)>, items': seq<JValue>,
             unhandled': seq<XNode>)
    ensures Parsed(bounds', count', tags', items', unhandled') == AddChild(Parsed(bounds, count, tags, items, unhandled), c)
  {
    bounds', count', tags', items', unhandled' := bounds, count, tags, items, unhandled;
    match c {
      case BoundsChild(b) =>
        bounds' := Some(b);
      case CountChild(n) =>
        count' := Some(n);
      case TagChild(t) =>
        tags' := tags + [t];
      case UnhandledChild(u) =>
        unhandled' := unhandled + [u];
      case ItemChild(v) =>
        items' := items + [v];
      case Ignored =>
    }
  }

  /** `format_ojson(elements, unhandled)` */
  method FormatOjson(elements: seq<JValue>, unhandled: seq<XNode>) returns (r: Obj)
    ensures r == FormatOjsonSpec(elements, unhandled)
  {
    var version := JFloat("0.6");
    var generator: Option<string> := None;
    var timestampOsmBase: Option<string> := None;
    var copyright: Option<string> := None;
    for i := 0 to |unhandled|
      invariant ScanFrom(unhandled, i, Header(version, generator, timestampOsmBase, copyright)) ==
                ScanFrom(unhandled, 0, Unset)
    {
      var node := unhandled[i];
      if node.tag == "meta" && "osm_base" in node.attrib {
        timestampOsmBase := Some(node.attrib["osm_base"]);
      } else if node.tag == "note" {
        copyright := node.text;
      } else if node.tag == "osm" {
        if "version" in node.attrib {
          version := JFloat(node.attrib["version"]);
        }
        if "generator" in node.attrib {
          generator := Some(node.attrib["generator"]);
        }
      }
    }
    ghost var h := Header(version, generator, timestampOsmBase, copyright);
    assert h == ScanFrom(unhandled, |unhandled|, h);
    r := [("version", version), ("elements", JList(elements))];
    if generator.Some? {
      r := Put(r, "generator", JStr(generator.value));
    }
    var osm3s: Obj := [];
    if copyright.Some? {
      osm3s := Put(osm3s, "copyright", JStr(copyright.value));
    }
    if timestampOsmBase.Some? {
      osm3s := Put(osm3s, "timestamp_osm_base", JStr(timestampOsmBase.value));
    }
    assert osm3s == Osm3s(h) by {
      if copyright.Some? && timestampOsmBase.Some? {
        assert IndexOf(osm3s[..1], "timestamp_osm_base").None?;
      }
    }
    if osm3s != [] {
      r := Put(r, "osm3s", JObj(osm3s));
    }
  }

  /** `parse(xml_str)`, given the tree `ElementTree.fromstring` builds. */
  method Parse(root: XNode) returns (r: Outcome<Option<Obj>>)
    ensures r == ParseSpec(root)
  {
    if root.tag != "osm" {
      return Returned(None);
    }
    var p := ParseXmlNode(root, ["node", "way", "relation", "count"]);
    if p.Raised? {
      return Raised;
    }
    var unhandled := p.value.unhandled + [root];
    var doc := FormatOjson(p.value.items, unhandled);
    return Returned(Some(doc));
  }
}
