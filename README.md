# osm2geojson — a verified model of the element-to-shape pipeline and the OSM XML reader

osm2geojson turns OpenStreetMap data into GeoJSON. It does this in two steps, and this project models both in Dafny:

- **The XML reader** (`osm2geojson/parse_xml.py`) reads an OSM XML element tree and produces a document in Overpass JSON form. That is a dictionary with `version`, `elements` and, when present, `generator` and `osm3s`.
- **The shape pipeline** (`osm2geojson/main.py`) takes the `elements` list of an Overpass JSON document and does four things:
  - it indexes every node, way and relation under the name `"<type>/<id>"`;
  - it converts each element into a shape and its properties: a point, a line string, a polygon, a multipolygon or a merged multiline;
  - it records in the index which elements another element consumed (the `used` mark);
  - it can drop the shapes of consumed elements from the result.

## Module layout

| file | module | what it holds |
|---|---|---|
| `pycore.dfy` | `PyCore` | Python's raise-or-return as `Outcome`, `Option`, and insertion-ordered dictionaries `Dict` with `Get`/`Put`, `Filter` and `Subsequence` |
| `decimal.dfy` | `Decimal` | `str(int)` and `int(str)` on decimal text, with their round trip |
| `elements.dfy` | `Elements` | the Overpass JSON element record and `get_element_props` |
| `refindex.dfy` | `RefIndex` | `build_refs_index`, `_get_ref_name` and `_get_ref` |
| `classifier.dfy` | `Classifier` | `is_exception`, the polygon-feature rule scan and `is_geometry_polygon` |
| `geometry.dfy` | `Geometry` | the geometry datatype; the Shapely operations the code calls are a `Kernel` of functions given as a parameter |
| `shapespec.dfy` | `ShapeSpec` | the conversion as functions. Each returns its outcome together with the list of `used` marks it writes, in order |
| `converter.dfy` | `Conversion` | class `Converter`, whose `used` map the methods update in place, proved equal to the `ShapeSpec` functions; `_json2shapes` |
| `xmlfields.dfy` | `XmlFields` | `parse_key`, `to_type`, `with_meta_fields`, `copy_fields`, `tags_to_obj`, `filter_items_by_type` and the split of `nd` children |
| `xmlspec.dfy` | `XmlSpec` | the XML reader as functions over an element tree, with lemmas about the objects it builds |
| `xmlparse.dfy` | `XmlParse` | the reader's loops as methods, each proved equal to its `XmlSpec` function |

## How the code is modelled

**Exceptions.** An operation that Python would abort with `KeyError`, `ValueError` or `RecursionError` returns `Raised`. Callers that catch it are modelled as catching it: `relation_to_shape` uses `Caught`.

**Dictionaries.** A Python dict is an insertion-ordered association list.

- `is_exception` looks at the *first* tag, in tag order, that is an area key, so the order matters.
- `tags_to_obj` keeps the first position of a key and the last value written to it.

**The `used` mark.** The code stores `used` inside the indexed element dictionaries.

- In the model it is the `used` field of a `Converter`: a map from index name to the consumer's id.
- Each operation's specification function returns its outcome and the marks it wrote. The method's `ensures` states that the new map is the old map with those marks applied in order.
- Member dictionaries of a relation are not indexed. The `used` value such a dictionary carries is the `consumer` parameter of `WayRun`.

**Two behaviours of the code worth noting.** The model follows the code in both.

- The polygon-feature scan does not stop at the first rule whose key is present. A whitelist rule whose values do not match falls through to the next rule; see `Classifier.WhitelistMissFallsThrough`.
- The final filter drops every shape whose `id` appears among the used elements' ids, whatever the shape's type (main.py:116-128).

**The geometry engine.** Shapely's operations enter through a `Kernel` record of functions. This covers `is_valid`, `buffer(0)`, `orient`, polygon construction from a ring, and the line-merging `_convert_lines_to_multipolygon`. Every property proved holds for every kernel.

## Model

| member | source | states |
|---|---|---|
| Decimal.NatToString | osm2geojson/main.py:143-144 | the decimal text of a natural number is non-empty and all digits |
| Decimal.IntToString | osm2geojson/main.py:143-144 | `str(id)` is non-empty and never contains `/`, so it cannot collide with the separator of an index name |
| Decimal.NatToStringValue | osm2geojson/main.py:143-144 | reading the digits of `str(n)` back gives `n` |
| Decimal.IntRoundTrip | osm2geojson/parse_xml.py:39-40 | `int(str(i)) == i` for every integer, negative ones included |
| Decimal.IntToStringInjective | osm2geojson/main.py:143-144 | distinct ids have distinct decimal text |
| Elements.ElementProps | osm2geojson/main.py:181-196 | the properties are exactly type, id, tags, nodes, timestamp, user, uid and version of the element, each present iff present in the element |
| Elements.PropsIgnoreCoordinates | osm2geojson/main.py:181-196 | two elements that agree on those eight keys have equal properties, whatever their coordinates, members or refs |
| RefIndex.RefNameMatches | osm2geojson/main.py:143-144 | two index names `type/id` are equal iff the types and the ids are equal (types without `/`) |
| RefIndex.BuildRefsIndex | osm2geojson/main.py:167-171 | building the index raises iff some element lacks an id; each entry is an element of the input stored under its own name |
| RefIndex.IndexKeys | osm2geojson/main.py:167-171 | a name is in the index iff some input element has that name |
| RefIndex.LaterWins | osm2geojson/main.py:167-171 | with repeated names, the index holds the last element carrying the name |
| RefIndex.GetRef | osm2geojson/main.py:151-156 | a lookup finds an element iff its name is indexed, and returns the indexed element |
| RefIndex.GetRefFinds | osm2geojson/main.py:151-160 | a lookup by type and id succeeds iff some indexed element has that type and id, and returns the last such element |
| Classifier.IsException | osm2geojson/main.py:314-320 | the result is true iff the first tag, in tag order, that is an area key has a value listed as an exception for that key |
| Classifier.PolygonByRules | osm2geojson/main.py:357-368 | the result is true iff the first rule that decides (key present, and blacklist or value whitelisted or `all`) says polygon |
| Classifier.NoRuleKeyPresentIsLine | osm2geojson/main.py:357-368 | with no rule key among the tags, the way is not a polygon |
| Classifier.BlacklistedFirstIsLine | osm2geojson/main.py:357-368 | a blacklisted value under the first present rule key means not a polygon |
| Classifier.WhitelistMissFallsThrough | osm2geojson/main.py:357-368 | a whitelist rule whose values miss does not decide; the following blacklist rule for the same key makes the way a polygon when the value is not banned |
| Classifier.IsSameCoords | osm2geojson/main.py:323-324 | true iff both latitude and longitude agree |
| Classifier.IsGeometryPolygonMeaning | osm2geojson/main.py:327-354 | no tags or `area=no` means not a polygon; polygon iff `area=yes`, `type=multipolygon`, or a closed outline that the rules call a polygon and no area-key exception excludes; raises iff the tags force no decision and the outline is empty |
| Geometry.FixInvalid | osm2geojson/main.py:226-232 | a valid geometry is kept; an invalid one becomes its zero buffer |
| Geometry.PolysOf | osm2geojson/main.py:501-506 | keeps exactly the polygons of a collection, in collection order and with their count |
| Geometry.ToMultipolygon | osm2geojson/main.py:497-513 | defined exactly on multipolygons, collections and polygons; always yields a multipolygon; a multipolygon is unchanged, a polygon becomes a one-element multipolygon, a collection keeps its polygons, in order and with their count |
| Geometry.ToMultipolygonIdempotent | osm2geojson/main.py:497-513 | converting a converted geometry again changes nothing |
| Geometry.GetPolygonOrMultipolygon | osm2geojson/main.py:491-494 | a single polygon comes out as a polygon, any other count as a multipolygon, and the polygons are kept in order |
| Geometry.OrientAll | osm2geojson/main.py:221-223 | each polygon is oriented, in order, and none is added or lost |
| Geometry.ConvertWaysToMultipolygon | osm2geojson/main.py:541-561 | no outer lines means no shape; without inner lines, or when the inner ones do not convert, the outer conversion is the result; a raising outer conversion, or a raising inner one after the outer converted, raises; when both convert the result is `to_multipolygon` of their difference, which is a multipolygon |
| Geometry.AssembleMultipolygon | osm2geojson/main.py:480-483 | succeeds iff the fixed geometry converts to a multipolygon; the result is a polygon or multipolygon whose polygons are the oriented polygons of that multipolygon |
| Geometry.AsLine | osm2geojson/main.py:421-423 | a polygon becomes the line along its exterior ring; anything else is unchanged; the result is never a polygon |
| Geometry.CoordsOf | osm2geojson/main.py:282-285 | `.coords` exists exactly for points, lines and polygon exteriors, and yields their positions |
| Geometry.ConvertCoordsToLists | osm2geojson/main.py:199-206 | a successful conversion yields a list; a bare number raises |
| Geometry.ConvertCoordsToListsKeepsValues | osm2geojson/main.py:199-206 | on nested coordinate tuples the conversion never raises, leaves no tuples, and keeps every number in place |
| ShapeSpec.ApplyMarksMeaning | osm2geojson/main.py:253-262 | after a sequence of marks, a name is marked iff it was before or some mark names it; unmarked names keep their consumer; a marked name holds the consumer of its last mark |
| ShapeSpec.ApplyMarksAppend | osm2geojson/main.py:253-262 | applying two mark sequences one after the other is applying their concatenation |
| ShapeSpec.GeometryCoords | osm2geojson/main.py:247-251 | inline geometry becomes `[lon, lat]` positions, one per entry, in order |
| ShapeSpec.NodeCoordsFrom | osm2geojson/main.py:253-262 | every mark written names an indexed element |
| ShapeSpec.NodeCoordsAllResolved | osm2geojson/main.py:253-262 | when every node ref is indexed, the coordinates are the node positions in order and every node is marked as used by the way |
| ShapeSpec.NodeCoordsFirstMiss | osm2geojson/main.py:253-262 | at the first missing node the way makes no shape, and only the nodes before it have been marked |
| ShapeSpec.WayShape | osm2geojson/main.py:292-311 | fewer than two positions means no shape; otherwise it raises iff classification raises; a line keeps the positions; a polygon is the fixed polygon, or no shape when the ring does not form one; props are the way's |
| ShapeSpec.WayRun | osm2geojson/main.py:235-311 | the coordinate source is chosen in the order center, inline geometry, node refs, ref, and without a source there is no shape; a raising node loop raises; an unindexed ref gives no shape; an indexed one is marked with its consumer before anything else |
| ShapeSpec.WayRefSource | osm2geojson/main.py:264-294 | a way whose source is a ref writes the ref branch's marks; a raise or a missing shape there passes through, and the referenced coordinates are built into the way's shape by `WayShape` |
| ShapeSpec.RefCoordsRun | osm2geojson/main.py:264-285 | an unindexed ref makes no shape and writes no mark; an indexed ref is marked first with the way's id, or else with the way's own `used` |
| ShapeSpec.RefCoordsResult | osm2geojson/main.py:264-285 | an indexed ref is marked, then the referenced element is converted with the same tables and no `used` of its own, and the coordinates are those `ShapeCoords` takes from its shape, after its marks; a hop past the recursion budget raises |
| ShapeSpec.ShapeCoords | osm2geojson/main.py:281-285 | the referenced shape's coordinates are its exterior for a polygon and its own positions for a point or line; a failed reference passes through |
| ShapeSpec.WayNodesResolved | osm2geojson/main.py:253-262 | a way whose node refs are all indexed has the shape built from the node positions, and marks each node as used by the way |
| ShapeSpec.WayNodeMissing | osm2geojson/main.py:253-262 | a way with a missing node makes no shape, after marking the nodes before it |
| ShapeSpec.Caught | osm2geojson/main.py:379-386 | an exception becomes "no shape", the marks written before it stay, and a normal result passes unchanged |
| ShapeSpec.MembersOf | osm2geojson/main.py:395-402 | a relation's own members are used; without them the referenced relation's members are used, raising when it has none; an unindexed reference gives no shape; no members and no ref raises |
| ShapeSpec.MpMembersPartition | osm2geojson/main.py:454-473 | for the member loop `MpMembersFrom`: outer and inner are the lines of the way members in member order, split by role `inner`, with polygons reduced to their exterior |
| ShapeSpec.MultipolygonRun | osm2geojson/main.py:438-488 | a shape is a polygon or multipolygon with the relation's props; with no outer line there is no shape; the marks are those of the member loop, none without members |
| ShapeSpec.MpMembersMarks | osm2geojson/main.py:454-473 | a completed member loop writes exactly the marks of converting each way member with the relation's id as consumer, in member order |
| ShapeSpec.MpMembersNeedRelId | osm2geojson/main.py:454-459 | a relation without an id raises at its first way member |
| ShapeSpec.MpWayMarkWritten | osm2geojson/main.py:459-461 | a way member without id of its own that references an indexed element marks that element with the relation's id |
| ShapeSpec.MultipolygonResult | osm2geojson/main.py:475-488 | once the member loop completes, its outer and inner lines go to `_convert_ways_to_multipolygon`; no result is no shape, a raise raises, and a result becomes the relation's shape through `AssembleMultipolygon`, raising iff that does; missing members give no shape and no marks |
| ShapeSpec.MultipolygonMarks | osm2geojson/main.py:454-473 | at relation level: every way member's referenced element is marked used by the relation's id, and a relation without id but with a way member raises |
| ShapeSpec.RelationRun | osm2geojson/main.py:371-386 | a relation never raises out of the conversion; a center is a point with the relation's props and no marks; otherwise a raising classification gives no shape, and a polygon or line classification gives the caught multipolygon or multiline conversion |
| ShapeSpec.MultilineRun | osm2geojson/main.py:389-435 | a shape carries the relation's props; the marks are those of the member loop, none without members |
| ShapeSpec.MultilineResult | osm2geojson/main.py:404-435 | no member lines means no shape; otherwise the shape is the kernel's merge of exactly the member lines, in member order, raising iff the merge raises |
| ShapeSpec.LineOf | osm2geojson/main.py:416-424 | failure and absence pass through; a shape becomes its line |
| ShapeSpec.MlMemberRun | osm2geojson/main.py:404-424 | members other than ways and relations are skipped; a way member adds the line of its shape and writes exactly the marks of converting it; a relation member without `ref` raises, and otherwise adds the line of the converted relation; an indexed relation member is marked with the relation's id, which raises when the relation has none |
| ShapeSpec.MlMembersOrder | osm2geojson/main.py:404-424 | for the member loop `MlMembersFrom`: the lines are the converted members' lines in member order |
| ShapeSpec.ElementRun | osm2geojson/main.py:131-140 | a node is the point at its coordinates and raises without one (`node_to_shape`, main.py:175-179); a way is `WayRun` and a relation `RelationRun`; other types give no shape; a shape carries the element's own props |
| ShapeSpec.ConvertOrder | osm2geojson/main.py:106-111 | the shapes are the converted elements' shapes in element order, with the elements that make no shape omitted |
| ShapeSpec.DropUsed | osm2geojson/main.py:116-128 | filtering raises iff some shape has no id; otherwise it keeps, in order, exactly the shapes whose id is not a used id |
| ShapeSpec.Json2ShapesResult | osm2geojson/main.py:91-128 | without filtering the result is every shape in element order; with filtering it is the filter of those shapes by the unused-id test, keeping their order and every occurrence |
| Conversion.Converter.constructor | osm2geojson/main.py:98-104 | a converter starts with the given index and no element marked used |
| Conversion.Converter.SetUsed | osm2geojson/main.py:256-258 | marking records the consumer under the element's name and changes nothing else |
| Conversion.Converter.NodeCoords | osm2geojson/main.py:253-262 | the node loop yields the specified coordinates and leaves the index marked as the specification says |
| Conversion.Converter.WayToShape | osm2geojson/main.py:235-311 | `way_to_shape` returns the shape of `ShapeSpec.WayRun` and applies exactly its marks |
| Conversion.Converter.RefCoords | osm2geojson/main.py:264-285 | the ref branch returns the coordinates of `ShapeSpec.RefCoordsRun` and applies exactly its marks |
| Conversion.Converter.MultipolygonRelationToShape | osm2geojson/main.py:438-488 | returns the shape of `ShapeSpec.MultipolygonRun` and applies exactly its marks |
| Conversion.Converter.RelationToShape | osm2geojson/main.py:371-386 | returns the shape of `ShapeSpec.RelationRun` and applies exactly its marks |
| Conversion.Converter.MultilineRelationToShape | osm2geojson/main.py:389-435 | returns the shape of `ShapeSpec.MultilineRun` and applies exactly its marks |
| Conversion.Converter.MultilineMember | osm2geojson/main.py:404-424 | one member step of the multiline loop returns the line of `ShapeSpec.MlMemberRun` and applies exactly its marks |
| Conversion.Converter.ElementToShape | osm2geojson/main.py:131-140 | returns the shape of `ShapeSpec.ElementRun` and applies exactly its marks |
| Conversion.Converter.ConvertElements | osm2geojson/main.py:106-111 | the element loop returns the shapes of `ShapeSpec.ConvertFrom` and applies exactly its marks |
| Conversion.FilterUsed | osm2geojson/main.py:116-128 | the filter loop computes `ShapeSpec.DropUsed` |
| Conversion.Json2Shapes | osm2geojson/main.py:91-128 | the whole pipeline computes the specification that `ShapeSpec.Json2ShapesResult` characterises |
| XmlFields.UpToColon | osm2geojson/parse_xml.py:21 | the first `:`-separated part is a colon-free prefix ending at the first colon or at the end |
| XmlFields.ParseKey | osm2geojson/parse_xml.py:11-24 | the name is the text before the first colon; without a colon the type is `string`; otherwise it is the second colon-separated part |
| XmlFields.ParseKeyRoundTrip | osm2geojson/parse_xml.py:11-24 | `name:type`, with anything after a further colon, parses back to `(name, type)` |
| XmlFields.ToType | osm2geojson/parse_xml.py:27-43 | conversion raises iff the type is `int` and the text is not an integer; types other than int and float keep the text |
| XmlFields.ToTypeIntRoundTrip | osm2geojson/parse_xml.py:39-40 | an integer's decimal text converts back to that integer |
| XmlFields.MetaFieldsDistinct | osm2geojson/parse_xml.py:8 | the optional metadata fields are pairwise distinct |
| XmlFields.WithMetaFieldsExtends | osm2geojson/parse_xml.py:46-59 | the given fields stay first; every metadata field is present afterwards; the appended ones are new, in metadata order, and distinct fields stay distinct |
| XmlFields.WithMetaFieldsIdempotent | osm2geojson/parse_xml.py:46-59 | adding the metadata fields twice is the same as once |
| XmlFields.CopyKey | osm2geojson/parse_xml.py:79-87 | copying one key raises iff it is a missing required attribute or its value does not convert |
| XmlFields.CopyKeysRaises | osm2geojson/parse_xml.py:79-87 | a key loop raises iff some remaining key fails |
| XmlFields.CopyKeysUntouched | osm2geojson/parse_xml.py:79-87 | names no remaining key copies keep their value, and distinct names stay distinct |
| XmlFields.CopyKeysNames | osm2geojson/parse_xml.py:79-87 | after the loop, a name is present iff it was before or a remaining key copies it |
| XmlFields.CopyKeysValues | osm2geojson/parse_xml.py:79-87 | each copied name holds the converted value of the last key carrying that name |
| XmlFields.CopyFieldsRaises | osm2geojson/parse_xml.py:62-88 | `copy_fields` raises iff a base attribute is missing or fails to convert, or a present optional attribute fails to convert |
| XmlFields.CopyFieldsNames | osm2geojson/parse_xml.py:62-88 | the object has distinct names; every base name; an optional name iff its attribute exists; and nothing else |
| XmlFields.CopyFieldsValues | osm2geojson/parse_xml.py:62-88 | each name holds the converted attribute of its last optional key when that attribute exists, and of its last base key otherwise |
| XmlFields.TagsToObjUnique | osm2geojson/parse_xml.py:104-113 | the tag object has no repeated key |
| XmlFields.TagsToObjKeys | osm2geojson/parse_xml.py:104-113 | a key is in the tag object iff some tag has it |
| XmlFields.TagsToObjLastWins | osm2geojson/parse_xml.py:104-113 | a key holds the value of the last tag with that key |
| PyCore.FilterCounts | osm2geojson/main.py:98-102 | a list comprehension with a condition keeps every occurrence of an item that passes, and none of one that fails |
| XmlFields.FilterItemsByTypeCounts | osm2geojson/parse_xml.py:101 | every occurrence of a matching item is kept, and no other item |
| XmlFields.FilterItemsByType | osm2geojson/parse_xml.py:91-101 | raises iff some item has no `type`; otherwise it keeps, in order, exactly the items whose type is listed |
| XmlFields.PartitionFromMeaning | osm2geojson/parse_xml.py:200-204 | the `nd` loop appends node refs to `nodes` and geometry entries to `geometry`, in order |
| XmlFields.PartitionFromRaises | osm2geojson/parse_xml.py:200-204 | the loop raises iff some `nd` item is not a dictionary |
| XmlFields.PartitionCounts | osm2geojson/parse_xml.py:200-204 | every `nd` entry lands in exactly one of the two lists |
| XmlFields.PartitionSplits | osm2geojson/parse_xml.py:200-204 | on dictionaries the split succeeds, gives the refs and the geometry entries, and loses nothing |
| XmlSpec.ParseTagIsCopyFields | osm2geojson/parse_xml.py:145-154 | a tag read as a pair is the object `copy_fields` builds from `k` and `v` |
| XmlSpec.CopiedPlain | osm2geojson/parse_xml.py:169-236 | the element fields never produce `type`, `tags`, `nodes`, `geometry`, `members` or `bounds`, so the later assignments add those keys |
| XmlSpec.WayObjShape | osm2geojson/parse_xml.py:206-214 | a way object has type `way`, tags iff any, geometry iff any, nodes iff any, and the copied fields otherwise |
| XmlSpec.TypedShape | osm2geojson/parse_xml.py:179-185 | a node or count object has its type, tags iff any, and the copied fields otherwise |
| XmlSpec.RelationObjShape | osm2geojson/parse_xml.py:226-236 | a relation object has type `relation`, members iff any, bounds iff present, tags iff any, and the copied fields otherwise |
| XmlSpec.ParseChildren | osm2geojson/parse_xml.py:350 | one child result per child, in document order |
| XmlSpec.CollectRaises | osm2geojson/parse_xml.py:350-369 | the child loop raises iff some child's parse raises |
| XmlSpec.CollectLists | osm2geojson/parse_xml.py:350-369 | the loop appends the unhandled children, the tags and the items in child order |
| XmlSpec.CollectLast | osm2geojson/parse_xml.py:351-358 | the bounds and the count are those of the last bounds and count child |
| XmlSpec.ChildKindBounds | osm2geojson/parse_xml.py:351-354 | a child is read as bounds iff its tag is `bounds`, and then `parse_bounds` reads it |
| XmlSpec.ChildKindCount | osm2geojson/parse_xml.py:355-358 | a child is read as a count iff its tag is `count`, and then `parse_count` reads it |
| XmlSpec.ChildKindTag | osm2geojson/parse_xml.py:360-362 | a child is read as a tag iff its tag is `tag`, and then `parse_tag` reads it |
| XmlSpec.ChildKindUnhandled | osm2geojson/parse_xml.py:364-366 | a child is kept unhandled iff its tag is none of the handled kinds, and then it is kept as is |
| XmlSpec.ChildKindItem | osm2geojson/parse_xml.py:368-369 | a child is an item iff its tag is a known kind that is requested, and then `parse_node_type` reads it under its own tag |
| XmlSpec.ParseXmlNodeRaises | osm2geojson/parse_xml.py:343-373 | `parse_xml_node` raises iff some child's parse raises; an empty type list means the default types |
| XmlSpec.CollectItems | osm2geojson/parse_xml.py:371-372 | the last count is appended to the items iff counts are requested and one was read |
| XmlSpec.ParseXmlNodeLists | osm2geojson/parse_xml.py:350-369 | the unhandled list is exactly the children of unknown kind, and the tags are every tag child's pair, in order |
| XmlSpec.ParseXmlNodeItems | osm2geojson/parse_xml.py:364-372 | the items are the requested children, parsed in order, followed by the last count when counts are requested |
| XmlSpec.ParseXmlNodeBounds | osm2geojson/parse_xml.py:351-354 | the bounds are those of the last bounds child, and absent without one |
| XmlSpec.ParseWayShape | osm2geojson/parse_xml.py:188-214 | a parsed way has type `way`, its tag object, its geometry entries and its node refs (each iff non-empty, together every `nd`), and its copied fields |
| XmlSpec.ParseNodeShape | osm2geojson/parse_xml.py:169-185 | a parsed node has type `node`, its tag object iff any, and its copied fields |
| XmlSpec.ParseCountShape | osm2geojson/parse_xml.py:128-142 | a parsed count has type `count`, its tag object iff any, and its integer id |
| XmlSpec.CountObjShape | osm2geojson/parse_xml.py:128-142 | the count object built from the copied id has type `count`, tags iff any, and the id as an integer |
| XmlSpec.CountId | osm2geojson/parse_xml.py:138 | copying `id:int` succeeds iff the id attribute exists and is an integer, and yields an object holding exactly that id |
| XmlSpec.ParseRelationShape | osm2geojson/parse_xml.py:217-236 | a parsed relation has type `relation`, its members, its last bounds, its tag object (each iff present) and its copied fields |
| XmlSpec.ParseSpec | osm2geojson/parse_xml.py:286-289 | a root that is not `osm` gives no document |
| XmlSpec.ScanOsm3s | osm2geojson/parse_xml.py:254-258 | `osm_base` comes from the last `meta` carrying it, and the copyright from the last `note` |
| XmlSpec.ScanOsmAttributes | osm2geojson/parse_xml.py:259-263 | version and generator come from the last `osm` element that carries them |
| XmlSpec.AssembleShape | osm2geojson/parse_xml.py:265-274 | the document starts with version and elements; generator iff known; `osm3s` iff copyright or base timestamp is known |
| XmlSpec.Osm3sFields | osm2geojson/parse_xml.py:269-272 | `osm3s` holds copyright and `timestamp_osm_base` exactly when known, and nothing else |
| XmlSpec.ParseHeader | osm2geojson/parse_xml.py:277-293 | the document's elements are the root's parsed nodes, ways, relations and count; the root's version and generator win, and the version defaults to 0.6 |
| XmlSpec.ParseMemberAs | osm2geojson/parse_xml.py:296-328 | a member is parsed as the type it names, a member without a type raises, and an unknown kind gives null |
| XmlParse.WithMetaFields | osm2geojson/parse_xml.py:46-59 | the loop computes `XmlFields.WithMetaFieldsSpec`, characterised by `WithMetaFieldsExtends` |
| XmlParse.CopyFields | osm2geojson/parse_xml.py:62-88 | the two loops compute `XmlFields.CopyFieldsSpec`, characterised by `CopyFieldsRaises`, `CopyFieldsNames` and `CopyFieldsValues` |
| XmlParse.ParseBounds | osm2geojson/parse_xml.py:116-125 | computes `copy_fields` with the required keys `minlat`, `minlon`, `maxlat` and `maxlon` as floats, so it raises iff one of them is missing (`XmlFields.CopyFieldsRaises`) |
| XmlParse.ParseTag | osm2geojson/parse_xml.py:145-154 | raises iff `k` or `v` is missing, and otherwise yields their values; `XmlSpec.ParseTagIsCopyFields` ties the pair to the `copy_fields` object |
| XmlParse.ParseNd | osm2geojson/parse_xml.py:157-166 | computes `copy_fields` with the optional keys `ref:int`, `lat:float` and `lon:float`, so each is present iff its attribute is, and it raises iff `ref` is not an integer |
| XmlParse.ParseNodeType | osm2geojson/parse_xml.py:296-328 | dispatches as `XmlSpec.ParseMemberAs` characterises |
| XmlParse.ParseNode | osm2geojson/parse_xml.py:169-185 | builds the object `XmlSpec.ParseNodeShape` describes |
| XmlParse.PartitionNds | osm2geojson/parse_xml.py:200-204 | the `nd` loop computes the split `XmlFields.PartitionSplits` describes |
| XmlParse.ParseWay | osm2geojson/parse_xml.py:188-214 | builds the object `XmlSpec.ParseWayShape` describes |
| XmlParse.ParseRelation | osm2geojson/parse_xml.py:217-236 | builds the object `XmlSpec.ParseRelationShape` describes |
| XmlParse.ParseCount | osm2geojson/parse_xml.py:128-142 | builds the object `XmlSpec.ParseCountShape` describes |
| XmlParse.ParseXmlNode | osm2geojson/parse_xml.py:331-373 | returns the bounds, tags, items and unhandled children the `XmlSpec.ParseXmlNode*` lemmas describe |
| XmlParse.CollectChildren | osm2geojson/parse_xml.py:350-369 | the child loop accumulates exactly what the specification's fold over the child results does |
| XmlParse.HandleChild | osm2geojson/parse_xml.py:351-369 | one child is classified as the `XmlSpec.ChildKind*` lemmas describe |
| XmlParse.Record | osm2geojson/parse_xml.py:351-369 | one result is recorded: bounds and count are replaced, and tags, items and unhandled children are appended |
| XmlParse.FormatOjson | osm2geojson/parse_xml.py:239-274 | the scan and assembly compute the document `XmlSpec.AssembleShape` and `XmlSpec.Osm3sFields` describe |
| XmlParse.Parse | osm2geojson/parse_xml.py:277-293 | reading a root gives the document `XmlSpec.ParseHeader` describes |

## Left out

- Shapely itself is not modelled. Validity, `buffer(0)`, `orient`, ring-to-polygon construction, `linemerge`, `unary_union` and `difference` are functions of the `Kernel` parameter. `_convert_lines_to_multipolygon` (main.py:516-538) is one of them, so the model proves no geometric property of its result.
- Geometry.ConvertWaysToMultipolygon: the difference of outer and inner is the kernel's `difference`; its polygons are whatever the kernel computes.
- ShapeSpec.MultilineRun: the merged multiline is the kernel's `linemerge` of the member lines; its geometry is whatever the kernel computes, because the merge is Shapely's.
- The index is a Dafny map keyed by the pair `(type, id)` rather than by the string `"type/id"`. `RefIndex.RefNameMatches` shows that the two keyings identify the same elements.
- A relation member dictionary that still carries `used` from an earlier pass over the same relation (main.py:272-273) is not modelled. The multiline path passes no consumer.
- Input elements that already carry a `used` key are not modelled: `used` starts empty.
- Python's recursion limit is a `depth` budget, and running out of it is `Raised`. The budget does not match the interpreter's limit.
- Decimal.IntRoundTrip: `int()` is modelled on an optional minus sign followed by decimal digits. A leading plus sign is accepted as well. Python also accepts surrounding whitespace, underscores between digits and non-ASCII Unicode digits; those inputs are modelled as raising.
- `float()` is not modelled. Its results are kept as the unparsed text (`JFloat`), and it never raises. Coordinates in the shape pipeline are reals.
- Inline geometry entries of a way (main.py:247-251) are assumed to carry `lat` and `lon`; the model does not raise for a missing coordinate there. A node referenced by a way that lacks one does raise, as main.py:259 does.
- An element or member without `type` cannot be written as an `Element`, whose type is a plain string. The `KeyError` it raises at main.py:101, 132, 405 and 455 is therefore not modelled.
- A `center` is a pair of coordinates, so one without `lat` or `lon` cannot be written either. The `KeyError` at main.py:243 and 375 is not modelled.
- `shape_to_feature`, `_json2geojson`, `json2geojson`, `xml2geojson`, `xml2shapes` and `json2shapes` are the public wrappers around the modelled core and are not part of this model. Only `convert_coords_to_lists` from them is modelled.
- `helpers.py`, `__main__.py`, logging, `print` and `warning` calls are not part of this model. This includes the "bounds/count should be unique" messages; their only effect is the message.
- The default area-key and polygon-feature tables are read from JSON files at import time. They are a `Tables` parameter here, and reading the files is not modelled.
- XmlParse.WithMetaFields returns a new list. The Python function appends to the caller's list in place; every caller passes a fresh literal, so that aliasing is not modelled.
- `ElementTree.fromstring` (parse_xml.py:286) is not modelled. The reader starts from an already-built element tree `XNode`.
- XmlSpec.ParseMemberAs: a member whose `type` is itself `member` would recurse without end in Python. The model returns `Raised` for it, standing for the `RecursionError`.
- XmlSpec.ParseTagIsCopyFields: a tag is kept as its `(k, v)` pair. The dictionary `parse_tag` builds is related to the pair by this lemma rather than stored.
- `parse_xml_node`'s loop body is split into `HandleChild`, which classifies and parses one child, and `Record`, which updates the accumulators. Together they do what one iteration does.
