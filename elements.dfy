/**
 * The Overpass-style element model that the converter works on. A JSON element is a
 * dictionary whose keys are optional; each key the converter reads is a field here,
 * and an absent key is `None`. Relation members are elements too: the converter hands a
 * member dictionary (`{type, ref, role, ...}`) to the same way conversion as a way.
 */
module Elements {
  import opened PyCore

  type Id = int

  /** An element's `tags`: tag key to tag value, in the order of the input. */
  type Tags = Dict<string>

  /** A `{lat, lon}` entry of `geometry` or `center`. */
  datatype LatLon = LatLon(lat: real, lon: real)

  /** The optional metadata keys of an element. */
  datatype Meta = Meta(
    timestamp: Option<string>,
    user: Option<string>,
    uid: Option<int>,
    version: Option<int>,
    changeset: Option<int>)

  datatype Element = Element(
    etype: string,                  // 'type': "node", "way", "relation", or anything else
    id: Option<Id>,
    ref: Option<Id>,                // a way or relation that only points at another one
    role: Option<string>,           // set on relation members
    tags: Option<Tags>,
    nodes: Option<seq<Id>>,         // node ids of a way
    geometry: Option<seq<LatLon>>,  // inline coordinates of a way
    center: Option<LatLon>,         // "out center" summary
    lat: Option<real>,              // coordinates of a node
    lon: Option<real>,
    members: Option<seq<Element>>,
    meta: Meta)

  /** The `properties` of a shape: the keys `get_element_props` copies when present. */
  datatype Props = Props(
    etype: string,
    id: Option<Id>,
    tags: Option<Tags>,
    nodes: Option<seq<Id>>,
    timestamp: Option<string>,
    user: Option<string>,
    uid: Option<int>,
    version: Option<int>)

  /**
   * `get_element_props(el)`: type, id, tags, nodes, timestamp, user, uid and version,
   * each exactly when the element has it.
   */
  function ElementProps(el: Element): (p: Props)
    ensures p.etype == el.etype && p.id == el.id && p.tags == el.tags && p.nodes == el.nodes
    ensures p.timestamp == el.meta.timestamp && p.user == el.meta.user
    ensures p.uid == el.meta.uid && p.version == el.meta.version
  {
    Props(el.etype, el.id, el.tags, el.nodes,
          el.meta.timestamp, el.meta.user, el.meta.uid, el.meta.version)
  }

  /**
   * The properties do not depend on where an element's coordinates come from, on its
   * members, its role or its changeset.
   */
  lemma PropsIgnoreCoordinates(a: Element, b: Element)
    requires a.etype == b.etype && a.id == b.id && a.tags == b.tags && a.nodes == b.nodes
    requires a.meta.timestamp == b.meta.timestamp && a.meta.user == b.meta.user
    requires a.meta.uid == b.meta.uid && a.meta.version == b.meta.version
    ensures ElementProps(a) == ElementProps(b)
  {
  }
}
