/**
 * The polygon-vs-line decision (`is_geometry_polygon` and its helpers): a layered
 * precedence over an element's tags, its outline, an ordered rule table and an
 * area-key exception table.
 */
module Classifier {
  import opened PyCore
  import opened Elements

  /** The `polygon` field of a rule; any other string makes the rule undecisive. */
  datatype Mode = All | Whitelist | Blacklist | OtherMode(name: string)

  /** One entry of the polygon-features table. */
  datatype Rule = Rule(key: string, polygon: Mode, values: seq<string>)

  /** The area-keys table: tag key to tag value to "this value is not an area". */
  type AreaKeys = map<string, map<string, bool>>

  /** The tables loaded from disk at import time. */
  datatype Tables = Tables(areaKeys: AreaKeys, rules: seq<Rule>)

  /** The optional `area_keys` and `polygon_features` arguments of a call. */
  datatype Overrides = Overrides(areaKeys: Option<AreaKeys>, rules: Option<seq<Rule>>)

  const NoOverrides := Overrides(None, None)

  /** `area_keys or _default_area_keys`: an absent or empty table means the default one. */
  function EffectiveAreaKeys(given: Overrides, defaults: Tables): AreaKeys {
    if given.areaKeys.None? || given.areaKeys.value == map[] then defaults.areaKeys
    else given.areaKeys.value
  }

  /** `polygon_features or _default_polygon_features` */
  function EffectiveRules(given: Overrides, defaults: Tables): seq<Rule> {
    if given.rules.None? || given.rules.value == [] then defaults.rules
    else given.rules.value
  }

  // ---------------------------------------------------------------------------
  // Area-key exceptions
  // ---------------------------------------------------------------------------

  /** `tags[i]` is the first tag, in tag order, whose key the area-key table lists. */
  ghost predicate FirstAreaKeyAt(tags: Tags, areaKeys: AreaKeys, i: int) {
    0 <= i < |tags| && tags[i].0 in areaKeys &&
    forall j :: 0 <= j < i ==> tags[j].0 !in areaKeys
  }

  /** The table marks this value of this key as an exception. */
  predicate ExceptionValue(areaKeys: AreaKeys, key: string, value: string) {
    key in areaKeys && value in areaKeys[key] && areaKeys[key][value]
  }

  /** Only the first listed tag is consulted, and its value must map to true. */
  ghost predicate AreaKeyException(tags: Tags, areaKeys: AreaKeys) {
    exists i :: FirstAreaKeyAt(tags, areaKeys, i) && ExceptionValue(areaKeys, tags[i].0, tags[i].1)
  }

  /** `is_exception`, given the effective area-key table. */
  function IsException(tags: Tags, areaKeys: AreaKeys): (r: bool)
    ensures r <==> AreaKeyException(tags, areaKeys)
  {
    if tags == [] then false
    else if tags[0].0 in areaKeys then ExceptionValue(areaKeys, tags[0].0, tags[0].1)
    else
      var r := IsException(tags[1..], areaKeys);
      assert r ==> AreaKeyException(tags, areaKeys) by {
        if r {
          var i :| FirstAreaKeyAt(tags[1..], areaKeys, i) &&
                   ExceptionValue(areaKeys, tags[1..][i].0, tags[1..][i].1);
          assert FirstAreaKeyAt(tags, areaKeys, i + 1);
        }
      }
      assert AreaKeyException(tags, areaKeys) ==> r by {
        if AreaKeyException(tags, areaKeys) {
          var i :| FirstAreaKeyAt(tags, areaKeys, i) &&
                   ExceptionValue(areaKeys, tags[i].0, tags[i].1);
          assert i > 0;
          assert FirstAreaKeyAt(tags[1..], areaKeys, i - 1);
        }
      }
      r
  }

  // ---------------------------------------------------------------------------
  // Rule table
  // ---------------------------------------------------------------------------

  /**
   * A rule whose key is present ends the scan when it is an `all` rule, a `blacklist`
   * rule, or a `whitelist` rule that lists the value; a `whitelist` rule that does not
   * list the value, and a rule of an unknown mode, let the scan go on.
   */
  predicate Decides(rule: Rule, tags: Tags) {
    HasKey(tags, rule.key) &&
    (rule.polygon.All? || rule.polygon.Blacklist? ||
     (rule.polygon.Whitelist? && Get(tags, rule.key).value in rule.values))
  }

  /** What a deciding rule decides: polygon, except for a blacklisted value. */
  predicate SaysPolygon(rule: Rule, tags: Tags)
    requires Decides(rule, tags)
  {
    !(rule.polygon.Blacklist? && Get(tags, rule.key).value in rule.values)
  }

  ghost predicate FirstDecidingRule(tags: Tags, rules: seq<Rule>, i: int) {
    0 <= i < |rules| && Decides(rules[i], tags) &&
    forall j :: 0 <= j < i ==> !Decides(rules[j], tags)
  }

  /** The rule table makes the tags a polygon: its first deciding rule says so. */
  ghost predicate RulesSayPolygon(tags: Tags, rules: seq<Rule>) {
    exists i :: FirstDecidingRule(tags, rules, i) && SaysPolygon(rules[i], tags)
  }

  /** `is_geometry_polygon_without_exceptions`, given the effective rule table. */
  function PolygonByRules(tags: Tags, rules: seq<Rule>): (r: bool)
    ensures r <==> RulesSayPolygon(tags, rules)
  {
    if rules == [] then false
    else if Decides(rules[0], tags) then SaysPolygon(rules[0], tags)
    else
      var r := PolygonByRules(tags, rules[1..]);
      assert r ==> RulesSayPolygon(tags, rules) by {
        if r {
          var i :| FirstDecidingRule(tags, rules[1..], i) && SaysPolygon(rules[1..][i], tags);
          assert FirstDecidingRule(tags, rules, i + 1);
        }
      }
      assert RulesSayPolygon(tags, rules) ==> r by {
        if RulesSayPolygon(tags, rules) {
          var i :| FirstDecidingRule(tags, rules, i) && SaysPolygon(rules[i], tags);
          assert i > 0;
          assert FirstDecidingRule(tags, rules[1..], i - 1);
        }
      }
      r
  }

  /** The rule scan is undecided, hence false, when no rule's key is present. */
  lemma NoRuleKeyPresentIsLine(tags: Tags, rules: seq<Rule>)
    requires forall i :: 0 <= i < |rules| ==> !HasKey(tags, rules[i].key)
    ensures !PolygonByRules(tags, rules)
  {
  }

  // ---------------------------------------------------------------------------
  // The whole decision
  // ---------------------------------------------------------------------------

  /** `is_same_coords` */
  function IsSameCoords(a: LatLon, b: LatLon): (r: bool)
    ensures r <==> a == b
  {
    a.lat == b.lat && a.lon == b.lon
  }

  predicate HasTag(tags: Tags, key: string, value: string) {
    Get(tags, key) == Some(value)
  }

  /** The tags settle the question before the outline is looked at. */
  predicate TagOverride(tags: Tags) {
    HasTag(tags, "area", "no") || HasTag(tags, "area", "yes") || HasTag(tags, "type", "multipolygon")
  }

  /**
   * Neither the inline geometry nor the node list, where present and non-empty, is open.
   */
  predicate ClosedOutline(el: Element) {
    (el.geometry.None? ||
     (|el.geometry.value| > 0 && el.geometry.value[0] == el.geometry.value[|el.geometry.value| - 1])) &&
    (el.nodes.None? ||
     (|el.nodes.value| > 0 && el.nodes.value[0] == el.nodes.value[|el.nodes.value| - 1]))
  }

  /**
   * Where `geometry[0]` or `nodes[0]` is read from an empty list (an IndexError): an empty
   * geometry, or a closed or absent geometry followed by an empty node list.
   */
  predicate EmptyOutline(el: Element) {
    el.geometry == Some([]) ||
    ((el.geometry.None? || el.geometry.value[0] == el.geometry.value[|el.geometry.value| - 1]) &&
     el.nodes == Some([]))
  }

  /** `is_geometry_polygon(el, area_keys, polygon_features)` */
  function IsGeometryPolygon(el: Element, given: Overrides, defaults: Tables): Outcome<bool> {
    if el.tags.None? then Returned(false)
    else
      var tags := el.tags.value;
      if HasTag(tags, "area", "no") then Returned(false)
      else if HasTag(tags, "area", "yes") then Returned(true)
      else if HasTag(tags, "type", "multipolygon") then Returned(true)
      else if el.geometry.Some? && |el.geometry.value| == 0 then Raised
      else if el.geometry.Some? &&
              !IsSameCoords(el.geometry.value[0], el.geometry.value[|el.geometry.value| - 1]) then
        Returned(false)
      else if el.nodes.Some? && |el.nodes.value| == 0 then Raised
      else if el.nodes.Some? && el.nodes.value[0] != el.nodes.value[|el.nodes.value| - 1] then
        Returned(false)
      else if PolygonByRules(tags, EffectiveRules(given, defaults)) then
        Returned(!IsException(tags, EffectiveAreaKeys(given, defaults)))
      else
        Returned(false)
  }

  /**
   * An element is a polygon exactly when it has tags, no area=no, and either area=yes,
   * type=multipolygon, or a closed outline that the rules call a polygon and no area-key
   * exception applies to; it raises exactly on an empty outline without an override tag.
   */
  lemma IsGeometryPolygonMeaning(el: Element, given: Overrides, defaults: Tables)
    // An element without tags is never a polygon.
    ensures el.tags.None? ==> IsGeometryPolygon(el, given, defaults) == Returned(false)
    // area=no wins over everything, area=yes and type=multipolygon over the outline and tables.
    ensures el.tags.Some? && HasTag(el.tags.value, "area", "no") ==> IsGeometryPolygon(el, given, defaults) == Returned(false)
    ensures el.tags.Some? && TagOverride(el.tags.value) ==> IsGeometryPolygon(el, given, defaults).Returned?
    // Without an override tag, an open outline is a line.
    ensures el.tags.Some? && !TagOverride(el.tags.value) && !ClosedOutline(el) ==>
      IsGeometryPolygon(el, given, defaults) != Returned(true)
    ensures var r := IsGeometryPolygon(el, given, defaults);
      r == Returned(true) <==>
        el.tags.Some? && !HasTag(el.tags.value, "area", "no") &&
        (HasTag(el.tags.value, "area", "yes") || HasTag(el.tags.value, "type", "multipolygon") ||
         (ClosedOutline(el) &&
          RulesSayPolygon(el.tags.value, EffectiveRules(given, defaults)) &&
          !AreaKeyException(el.tags.value, EffectiveAreaKeys(given, defaults))))
    ensures IsGeometryPolygon(el, given, defaults) == Raised <==>
      el.tags.Some? && !TagOverride(el.tags.value) && EmptyOutline(el)
  {
  }

  /**
   * A blacklist rule that lists the tag's value and comes before every other rule whose
   * key is present makes the element a line, whatever later rules say.
   */
  lemma {:induction false} BlacklistedFirstIsLine(tags: Tags, rules: seq<Rule>, i: nat)
    requires i < |rules| && rules[i].polygon.Blacklist? && HasKey(tags, rules[i].key)
    requires Get(tags, rules[i].key).value in rules[i].values
    requires forall j :: 0 <= j < i ==> !HasKey(tags, rules[j].key)
    ensures !PolygonByRules(tags, rules)
  {
    assert FirstDecidingRule(tags, rules, i);
    forall k | FirstDecidingRule(tags, rules, k) ensures k == i {
    }
  }

  /**
   * A whitelist rule that does not list the value does not stop the scan: a later
   * blacklist rule for the same key that does not list it either makes a polygon.
   */
  lemma WhitelistMissFallsThrough(tags: Tags, key: string, listed: seq<string>, banned: seq<string>)
    requires HasKey(tags, key)
    requires Get(tags, key).value !in listed && Get(tags, key).value !in banned
    ensures PolygonByRules(tags, [Rule(key, Whitelist, listed), Rule(key, Blacklist, banned)])
  {
    var rules := [Rule(key, Whitelist, listed), Rule(key, Blacklist, banned)];
    assert rules[1..] == [Rule(key, Blacklist, banned)];
  }
}
