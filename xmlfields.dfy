/**
 * The value level of the XML reader: the element tree it reads, the JSON-like values it
 * builds, and the pure helpers that turn XML attributes into element fields
 * (`parse_key`, `to_type`, `with_meta_fields`, `copy_fields`, `tags_to_obj`,
 * `filter_items_by_type` and the `nd` partition of `parse_way`), each as a function with
 * the properties it promises.
 */
module XmlFields {
  import opened PyCore
  import opened Decimal

  /** An element of the parsed XML tree: its tag, its attributes, its children and its text. */
  datatype XNode = XNode(tag: string, attrib: map<string, string>, children: seq<XNode>, text: Option<string>)

  /**
   * The values the reader builds. A float is kept as the attribute text it was converted
   * from; the reader only stores floats, it never computes with them.
   */
  datatype JValue =
    | JStr(s: string)
    | JInt(i: int)
    | JFloat(text: string)
    | JList(items: seq<JValue>)
    | JObj(fields: Dict<JValue>)
    | JNull

  /** A parsed element: a dict from field name to value. */
  type Obj = Dict<JValue>

  /** `default_types` */
  const DefaultTypes: seq<string> := ["node", "way", "relation", "member", "nd"]

  /** `optional_meta_fields` */
  const OptionalMetaFields: seq<string> := ["timestamp", "version:int", "changeset:int", "user", "uid:int"]

  // ---------------------------------------------------------------------------
  // parse_key and to_type
  // ---------------------------------------------------------------------------

  /** The text before the first colon, or all of `s` when it has none. */
  function UpToColon(s: string): (r: string)
    ensures ':' !in r
    ensures |r| <= |s| && r == s[..|r|]
    ensures |r| < |s| ==> s[|r|] == ':'
  {
    if s == [] || s[0] == ':' then "" else [s[0]] + UpToColon(s[1..])
  }

  /**
   * `parse_key(key)`: the field name and the type name of a field key such as `id:int`;
   * the type is the second colon-separated segment, `string` when there is no colon.
   */
  function ParseKey(key: string): (r: (string, string))
    ensures r.0 == UpToColon(key)
    ensures ':' !in key ==> r == (key, "string")
    ensures ':' in key ==> |r.0| < |key| && r.1 == UpToColon(key[|r.0| + 1..])
  {
    var name := UpToColon(key);
    if |name| == |key| then
      assert name == key;
      (name, "string")
    else
      assert key[|name|] == ':';
      (name, UpToColon(key[|name| + 1..]))
  }

  function Name(key: string): string {
    ParseKey(key).0
  }

  function Kind(key: string): string {
    ParseKey(key).1
  }

  /** The colon-free prefix of a string that goes on with a colon is exactly that prefix. */
  lemma {:induction false} UpToColonOf(a: string, rest: string)
    requires ':' !in a
    requires rest == [] || rest[0] == ':'
    ensures UpToColon(a + rest) == a
  {
    if a == [] {
      assert a + rest == rest;
    } else {
      assert (a + rest)[0] == a[0] && (a + rest)[1..] == a[1..] + rest;
      UpToColonOf(a[1..], rest);
      assert a == [a[0]] + a[1..];
    }
  }

  /**
   * A key written `name:type`, possibly followed by further `:segments`, splits into
   * that name and that type.
   */
  lemma ParseKeyRoundTrip(name: string, t: string, extra: string)
    requires ':' !in name && ':' !in t
    requires extra == [] || extra[0] == ':'
    ensures ParseKey(name + ":" + t + extra) == (name, t)
  {
    var tail := t + extra;
    var rest := ":" + tail;
    var key := name + rest;
    assert name + ":" + t + extra == key;
    UpToColonOf(name, rest);
    assert key[|name|] == ':';
    assert key[|name| + 1..] == tail;
    UpToColonOf(t, extra);
    assert ParseKey(key).1 == UpToColon(tail);
  }

  /**
   * `to_type(v, t)`: `int` parses the decimal text (a malformed one raises ValueError),
   * `float` keeps the text as an opaque float, and `string` or any other type name gives
   * the string unchanged.
   */
  function ToType(v: string, t: string): (r: Outcome<JValue>)
    ensures r.Raised? <==> t == "int" && ParseInt(v).None?
    ensures t != "int" && t != "float" ==> r == Returned(JStr(v))
  {
    if t == "string" then Returned(JStr(v))
    else if t == "int" then
      match ParseInt(v)
      case None => Raised
      case Some(i) => Returned(JInt(i))
    else if t == "float" then Returned(JFloat(v))
    else Returned(JStr(v))
  }

  /** Converting the decimal text of an integer with type `int` gives back the integer. */
  lemma ToTypeIntRoundTrip(i: int)
    ensures ToType(IntToString(i), "int") == Returned(JInt(i))
  {
    IntRoundTrip(i);
  }

  // ---------------------------------------------------------------------------
  // with_meta_fields
  // ---------------------------------------------------------------------------

  predicate Distinct<T(==)>(s: seq<T>) {
    forall i, j :: 0 <= i < j < |s| ==> s[i] != s[j]
  }

  /** Not among `fields`. */
  function Absent(fields: seq<string>): string -> bool {
    f => f !in fields
  }

  /**
   * What `with_meta_fields(fields)` leaves in the list: the fields, then every optional
   * meta field that is not among them, in declared order.
   */
  function WithMetaFieldsSpec(fields: seq<string>): seq<string> {
    fields + Filter(OptionalMetaFields, Absent(fields))
  }

  lemma MetaFieldsDistinct()
    ensures Distinct(OptionalMetaFields)
  {
  }

  /** Filtering a sequence without repetitions gives one without repetitions. */
  lemma {:induction false} FilterDistinct<T(!new)>(s: seq<T>, p: T -> bool)
    requires Distinct(s)
    ensures Distinct(Filter(s, p))
  {
    if s != [] {
      FilterDistinct(s[1..], p);
      assert s[0] !in s[1..];
    }
  }

  /**
   * The original fields keep their place and order, every optional meta field ends up in
   * the list, what is appended is a subsequence of the meta fields none of which was
   * there already, and no field is added twice.
   */
  lemma WithMetaFieldsExtends(fields: seq<string>)
    ensures var r := WithMetaFieldsSpec(fields);
      r[..|fields|] == fields &&
      (forall f :: f in OptionalMetaFields ==> f in r) &&
      (forall j :: |fields| <= j < |r| ==> r[j] in OptionalMetaFields && r[j] !in fields) &&
      Subsequence(r[|fields|..], OptionalMetaFields) &&
      (Distinct(fields) ==> Distinct(r))
  {
    var added := Filter(OptionalMetaFields, Absent(fields));
    var r := fields + added;
    assert r[|fields|..] == added;
    forall j | |fields| <= j < |r| ensures r[j] in OptionalMetaFields && r[j] !in fields {
      assert r[j] == added[j - |fields|];
    }
    forall f | f in OptionalMetaFields ensures f in r {
      if f !in fields {
        assert f in added;
      }
    }
    MetaFieldsDistinct();
    FilterDistinct(OptionalMetaFields, Absent(fields));
  }

  /** Once every meta field is present nothing is added, so applying it twice is applying it once. */
  lemma WithMetaFieldsIdempotent(fields: seq<string>)
    ensures WithMetaFieldsSpec(WithMetaFieldsSpec(fields)) == WithMetaFieldsSpec(fields)
  {
    var r := WithMetaFieldsSpec(fields);
    WithMetaFieldsExtends(fields);
    FilterNone(OptionalMetaFields, Absent(r));
    assert r + [] == r;
  }

  // ---------------------------------------------------------------------------
  // copy_fields
  // ---------------------------------------------------------------------------

  /**
   * Copying one key raises: a required attribute is missing (KeyError) or the value does
   * not convert to the key's type (ValueError).
   */
  predicate KeyFails(attrib: map<string, string>, key: string, required: bool) {
    if Name(key) in attrib then ToType(attrib[Name(key)], Kind(key)).Raised? else required
  }

  /** One iteration of a loop of `copy_fields`; an optional key whose attribute is missing is skipped. */
  function CopyKey(attrib: map<string, string>, key: string, required: bool, obj: Obj): (r: Outcome<Obj>)
    ensures r.Raised? <==> KeyFails(attrib, key, required)
  {
    var name := Name(key);
    if name !in attrib then (if required then Raised else Returned(obj))
    else
      match ToType(attrib[name], Kind(key))
      case Raised => Raised
      case Returned(v) => Returned(Put(obj, name, v))
  }

  /** The keys from position `i` on, copied into `obj` in order. */
  function CopyKeysFrom(attrib: map<string, string>, keys: seq<string>, required: bool, i: nat, obj: Obj)
    : Outcome<Obj>
    requires i <= |keys|
    decreases |keys| - i
  {
    if i == |keys| then Returned(obj)
    else
      match CopyKey(attrib, keys[i], required, obj)
      case Raised => Raised
      case Returned(o) => CopyKeysFrom(attrib, keys, required, i + 1, o)
  }

  /** `copy_fields(node, base, optional)`, on the node's attributes. */
  function CopyFieldsSpec(attrib: map<string, string>, base: seq<string>, optional: seq<string>): Outcome<Obj> {
    match CopyKeysFrom(attrib, base, true, 0, [])
    case Raised => Raised
    case Returned(obj) => CopyKeysFrom(attrib, optional, false, 0, obj)
  }

  /** Some key from position `i` on names the attribute `n`, and the node has it. */
  ghost predicate Copies(attrib: map<string, string>, keys: seq<string>, i: nat, n: string) {
    exists j :: i <= j < |keys| && Name(keys[j]) == n && n in attrib
  }

  /** No later key has the same field name as `keys[j]`. */
  predicate LastNamed(keys: seq<string>, j: nat)
    requires j < |keys|
  {
    forall l :: j < l < |keys| ==> Name(keys[l]) != Name(keys[j])
  }

  /** The value `keys[j]` copies, when it does not raise. */
  function Converted(attrib: map<string, string>, key: string): JValue
    requires Name(key) in attrib && ToType(attrib[Name(key)], Kind(key)).Returned?
  {
    ToType(attrib[Name(key)], Kind(key)).value
  }

  /** One loop of `copy_fields` raises exactly when some key from position `i` on fails. */
  lemma {:induction false} CopyKeysRaises(attrib: map<string, string>, keys: seq<string>, required: bool,
                                          i: nat, obj: Obj)
    requires i <= |keys|
    ensures CopyKeysFrom(attrib, keys, required, i, obj).Raised? <==>
      exists j :: i <= j < |keys| && KeyFails(attrib, keys[j], required)
    decreases |keys| - i
  {
    if i < |keys| {
      match CopyKey(attrib, keys[i], required, obj)
      case Raised =>
      case Returned(o) =>
        CopyKeysRaises(attrib, keys, required, i + 1, o);
        assert !KeyFails(attrib, keys[i], required);
    }
  }

  /**
   * A field that no key from position `i` on copies keeps its value, and copying keeps the
   * field names distinct.
   */
  lemma {:induction false} CopyKeysUntouched(attrib: map<string, string>, keys: seq<string>, required: bool,
                                             i: nat, obj: Obj)
    requires i <= |keys|
    ensures var r := CopyKeysFrom(attrib, keys, required, i, obj);
      r.Returned? ==>
        (forall n :: !Copies(attrib, keys, i, n) ==> Get(r.value, n) == Get(obj, n)) &&
        (UniqueKeys(obj) ==> UniqueKeys(r.value))
    decreases |keys| - i
  {
    if i < |keys| {
      var key := keys[i];
      match CopyKey(attrib, key, required, obj)
      case Raised =>
      case Returned(o) =>
        CopyKeysUntouched(attrib, keys, required, i + 1, o);
        var r := CopyKeysFrom(attrib, keys, required, i, obj);
        assert r == CopyKeysFrom(attrib, keys, required, i + 1, o);
        if Name(key) in attrib {
          assert o == Put(obj, Name(key), Converted(attrib, key));
          if UniqueKeys(obj) {
            PutKeepsUniqueKeys(obj, Name(key), Converted(attrib, key));
          }
        }
        if r.Returned? {
          forall n | !Copies(attrib, keys, i, n) ensures Get(r.value, n) == Get(obj, n) {
            assert !Copies(attrib, keys, i + 1, n);
            assert Name(key) != n || n !in attrib;
            if Name(key) in attrib {
              GetPutOther(obj, Name(key), Converted(attrib, key), n);
            }
          }
        }
    }
  }

  /** The copied names are those of the keys from position `i` on whose attribute is present. */
  lemma {:induction false} CopyKeysNames(attrib: map<string, string>, keys: seq<string>, required: bool,
                                         i: nat, obj: Obj)
    requires i <= |keys|
    ensures var r := CopyKeysFrom(attrib, keys, required, i, obj);
      r.Returned? ==> forall n :: HasKey(r.value, n) <==> HasKey(obj, n) || Copies(attrib, keys, i, n)
    decreases |keys| - i
  {
    if i < |keys| {
      var key := keys[i];
      match CopyKey(attrib, key, required, obj)
      case Raised =>
      case Returned(o) =>
        CopyKeysNames(attrib, keys, required, i + 1, o);
        var r := CopyKeysFrom(attrib, keys, required, i, obj);
        assert r == CopyKeysFrom(attrib, keys, required, i + 1, o);
        if r.Returned? {
          forall n ensures HasKey(r.value, n) <==> HasKey(obj, n) || Copies(attrib, keys, i, n) {
            if Name(key) in attrib {
              assert o == Put(obj, Name(key), Converted(attrib, key));
              if n != Name(key) {
                GetPutOther(obj, Name(key), Converted(attrib, key), n);
              }
            }
            if Copies(attrib, keys, i, n) && !Copies(attrib, keys, i + 1, n) {
              assert Name(key) == n;
            }
            if Copies(attrib, keys, i + 1, n) {
              var j :| i + 1 <= j < |keys| && Name(keys[j]) == n && n in attrib;
              assert i <= j;
            }
          }
        }
    }
  }

  /** Each copied field holds its attribute converted by the last key with that name. */
  lemma {:induction false} CopyKeysValues(attrib: map<string, string>, keys: seq<string>, required: bool,
                                          i: nat, obj: Obj)
    requires i <= |keys|
    ensures var r := CopyKeysFrom(attrib, keys, required, i, obj);
      r.Returned? ==>
        forall j :: i <= j < |keys| && LastNamed(keys, j) && !KeyFails(attrib, keys[j], false) &&
                    Name(keys[j]) in attrib ==>
          Get(r.value, Name(keys[j])) == Some(Converted(attrib, keys[j]))
    decreases |keys| - i
  {
    if i < |keys| {
      var key := keys[i];
      match CopyKey(attrib, key, required, obj)
      case Raised =>
      case Returned(o) =>
        CopyKeysValues(attrib, keys, required, i + 1, o);
        var r := CopyKeysFrom(attrib, keys, required, i, obj);
        assert r == CopyKeysFrom(attrib, keys, required, i + 1, o);
        if r.Returned? && LastNamed(keys, i) && Name(key) in attrib {
          assert o == Put(obj, Name(key), Converted(attrib, key));
          assert !Copies(attrib, keys, i + 1, Name(key));
          CopyKeysUntouched(attrib, keys, required, i + 1, o);
        }
    }
  }

  /** `copy_fields` raises exactly when a base attribute is missing or a present value does not convert. */
  lemma CopyFieldsRaises(attrib: map<string, string>, base: seq<string>, optional: seq<string>)
    ensures CopyFieldsSpec(attrib, base, optional).Raised? <==>
      (exists j :: 0 <= j < |base| && KeyFails(attrib, base[j], true)) ||
      (exists j :: 0 <= j < |optional| && KeyFails(attrib, optional[j], false))
  {
    CopyKeysRaises(attrib, base, true, 0, []);
    match CopyKeysFrom(attrib, base, true, 0, [])
    case Raised =>
    case Returned(obj) =>
      CopyKeysRaises(attrib, optional, false, 0, obj);
  }

  /**
   * The fields `copy_fields` sets: every base field name, an optional field name exactly
   * when the node has that attribute, and no field that no key names, each once.
   */
  lemma CopyFieldsNames(attrib: map<string, string>, base: seq<string>, optional: seq<string>)
    ensures var r := CopyFieldsSpec(attrib, base, optional);
      r.Returned? ==>
        UniqueKeys(r.value) &&
        (forall j :: 0 <= j < |base| ==> HasKey(r.value, Name(base[j]))) &&
        (forall j :: 0 <= j < |optional| ==> (HasKey(r.value, Name(optional[j])) <==> Name(optional[j]) in attrib)) &&
        (forall n :: HasKey(r.value, n) <==> Copies(attrib, base, 0, n) || Copies(attrib, optional, 0, n))
  {
    CopyKeysRaises(attrib, base, true, 0, []);
    CopyKeysNames(attrib, base, true, 0, []);
    CopyKeysUntouched(attrib, base, true, 0, []);
    match CopyKeysFrom(attrib, base, true, 0, [])
    case Raised =>
    case Returned(obj) =>
      CopyKeysNames(attrib, optional, false, 0, obj);
      CopyKeysUntouched(attrib, optional, false, 0, obj);
      var r := CopyFieldsSpec(attrib, base, optional);
      if r.Returned? {
        forall j | 0 <= j < |base| ensures HasKey(r.value, Name(base[j])) {
          assert !KeyFails(attrib, base[j], true);
          assert Copies(attrib, base, 0, Name(base[j]));
        }
        forall j | 0 <= j < |optional| ensures HasKey(r.value, Name(optional[j])) <==> Name(optional[j]) in attrib {
          if Name(optional[j]) in attrib {
            assert Copies(attrib, optional, 0, Name(optional[j]));
          }
        }
        forall n ensures HasKey(r.value, n) <==> Copies(attrib, base, 0, n) || Copies(attrib, optional, 0, n) {
          var empty: Obj := [];
          assert !HasKey(empty, n);
        }
      }
  }

  /**
   * The values `copy_fields` sets: each is the attribute converted by the type of the last
   * key with its name, an optional key overriding a base key.
   */
  lemma CopyFieldsValues(attrib: map<string, string>, base: seq<string>, optional: seq<string>)
    ensures var r := CopyFieldsSpec(attrib, base, optional);
      r.Returned? ==>
        (forall j :: 0 <= j < |optional| && LastNamed(optional, j) && Name(optional[j]) in attrib ==>
          !KeyFails(attrib, optional[j], false) &&
          Get(r.value, Name(optional[j])) == Some(Converted(attrib, optional[j]))) &&
        (forall j :: 0 <= j < |base| && LastNamed(base, j) && !Copies(attrib, optional, 0, Name(base[j])) ==>
          !KeyFails(attrib, base[j], true) &&
          Get(r.value, Name(base[j])) == Some(Converted(attrib, base[j])))
  {
    CopyFieldsRaises(attrib, base, optional);
    CopyKeysRaises(attrib, base, true, 0, []);
    CopyKeysValues(attrib, base, true, 0, []);
    match CopyKeysFrom(attrib, base, true, 0, [])
    case Raised =>
    case Returned(obj) =>
      CopyKeysValues(attrib, optional, false, 0, obj);
      CopyKeysUntouched(attrib, optional, false, 0, obj);
      var r := CopyFieldsSpec(attrib, base, optional);
      if r.Returned? {
        forall j | 0 <= j < |base| && LastNamed(base, j) && !Copies(attrib, optional, 0, Name(base[j]))
          ensures !KeyFails(attrib, base[j], true)
          ensures Get(r.value, Name(base[j])) == Some(Converted(attrib, base[j]))
        {
          assert !KeyFails(attrib, base[j], true);
        }
      }
  }

  // ---------------------------------------------------------------------------
  // Tags, item filtering and the nd partition
  // ---------------------------------------------------------------------------

  /** `tags_to_obj(tags)`, on the (k, v) pairs of the parsed tags, one tag at a time. */
  function TagsToObj(tags: seq<(string, string)>): Obj
    decreases |tags|
  {
    if tags == [] then []
    else Put(TagsToObj(tags[..|tags| - 1]), tags[|tags| - 1].0, JStr(tags[|tags| - 1].1))
  }

  /** Each step puts one key, leaving every other key's value alone. */
  lemma TagsToObjStep(tags: seq<(string, string)>, k: string)
    requires tags != [] && k != tags[|tags| - 1].0
    ensures Get(TagsToObj(tags), k) == Get(TagsToObj(tags[..|tags| - 1]), k)
  {
    GetPutOther(TagsToObj(tags[..|tags| - 1]), tags[|tags| - 1].0, JStr(tags[|tags| - 1].1), k);
  }

  /** `tags_to_obj` never repeats a key. */
  lemma {:induction false} TagsToObjUnique(tags: seq<(string, string)>)
    ensures UniqueKeys(TagsToObj(tags))
    decreases |tags|
  {
    if tags != [] {
      TagsToObjUnique(tags[..|tags| - 1]);
      PutKeepsUniqueKeys(TagsToObj(tags[..|tags| - 1]), tags[|tags| - 1].0, JStr(tags[|tags| - 1].1));
    }
  }

  /** `tags_to_obj` has a key exactly when some tag has it. */
  lemma {:induction false} TagsToObjKeys(tags: seq<(string, string)>, k: string)
    ensures HasKey(TagsToObj(tags), k) <==> exists i :: 0 <= i < |tags| && tags[i].0 == k
    decreases |tags|
  {
    if tags != [] {
      var last := |tags| - 1;
      var init := tags[..last];
      if k == tags[last].0 {
        assert Get(TagsToObj(tags), k).Some?;
      } else {
        TagsToObjKeys(init, k);
        TagsToObjStep(tags, k);
        KeyBeforeLast(tags, init, k);
      }
    }
  }

  /** A key other than the last tag's is among the tags exactly when it is among all but the last. */
  lemma KeyBeforeLast(tags: seq<(string, string)>, init: seq<(string, string)>, k: string)
    requires tags != [] && init == tags[..|tags| - 1] && tags[|tags| - 1].0 != k
    ensures (exists i :: 0 <= i < |tags| && tags[i].0 == k) <==> (exists i :: 0 <= i < |init| && init[i].0 == k)
  {
    if exists i :: 0 <= i < |tags| && tags[i].0 == k {
      var i :| 0 <= i < |tags| && tags[i].0 == k;
      assert i < |init| && init[i].0 == k;
    }
    if exists i :: 0 <= i < |init| && init[i].0 == k {
      var i :| 0 <= i < |init| && init[i].0 == k;
      assert tags[i] == init[i];
    }
  }

  /** When a key repeats, the later tag wins: each key holds the value of its last tag. */
  lemma {:induction false} TagsToObjLastWins(tags: seq<(string, string)>, i: nat)
    requires i < |tags|
    requires forall j :: i < j < |tags| ==> tags[j].0 != tags[i].0
    ensures Get(TagsToObj(tags), tags[i].0) == Some(JStr(tags[i].1))
    decreases |tags|
  {
    var init := tags[..|tags| - 1];
    if i < |tags| - 1 {
      TagsToObjStep(tags, tags[i].0);
      TagsToObjLastWins(init, i);
    }
  }

  /** `i["type"] in types`: the item's type is one of the names (a non-string type never is). */
  function TypeIn(types: seq<string>): Obj -> bool {
    (item: Obj) => var t := Get(item, "type"); t.Some? && t.value.JStr? && t.value.s in types
  }

  /**
   * `filter_items_by_type(items, types)`: an item without a type raises KeyError;
   * otherwise the items whose type is listed, in their order.
   */
  function FilterItemsByType(items: seq<Obj>, types: seq<string>): (r: Outcome<seq<Obj>>)
    ensures r.Raised? <==> exists i :: 0 <= i < |items| && !HasKey(items[i], "type")
    ensures r.Returned? ==> Subsequence(r.value, items)
    ensures r.Returned? ==> forall x :: x in r.value <==> x in items && TypeIn(types)(x)
  {
    if exists i :: 0 <= i < |items| && !HasKey(items[i], "type") then Raised
    else Returned(Filter(items, TypeIn(types)))
  }

  /** The comprehension keeps every occurrence of a matching item, and only those. */
  lemma FilterItemsByTypeCounts(items: seq<Obj>, types: seq<string>)
    ensures var r := FilterItemsByType(items, types);
            r.Returned? ==>
              forall x :: multiset(r.value)[x] == if TypeIn(types)(x) then multiset(items)[x] else 0
  {
    FilterCounts(items, TypeIn(types));
  }

  /** An `nd` that only refers to a node: it has `ref` and neither `lat` nor `lon`. */
  predicate IsNodeRef(nd: Obj) {
    HasKey(nd, "ref") && !HasKey(nd, "lat") && !HasKey(nd, "lon")
  }

  /** An `nd` entry that `parse_way` keeps as a geometry point. */
  predicate IsGeometryEntry(v: JValue) {
    v.JObj? && !IsNodeRef(v.fields)
  }

  /** The refs of the node-reference entries, in order. */
  function RefsOf(nds: seq<JValue>): seq<JValue> {
    if nds == [] then []
    else if nds[0].JObj? && IsNodeRef(nds[0].fields) then [Get(nds[0].fields, "ref").value] + RefsOf(nds[1..])
    else RefsOf(nds[1..])
  }

  /**
   * The loop of `parse_way` over the parsed `nd` children from position `i` on; testing
   * `"ref" in nd` on an entry that is not a dict raises TypeError.
   */
  function PartitionFrom(nds: seq<JValue>, i: nat, nodes: seq<JValue>, geometry: seq<JValue>)
    : Outcome<(seq<JValue>, seq<JValue>)>
    requires i <= |nds|
    decreases |nds| - i
  {
    if i == |nds| then Returned((nodes, geometry))
    else
      match nds[i]
      case JObj(nd) =>
        if IsNodeRef(nd) then PartitionFrom(nds, i + 1, nodes + [Get(nd, "ref").value], geometry)
        else PartitionFrom(nds, i + 1, nodes, geometry + [nds[i]])
      case _ => Raised
  }

  predicate AllObjects(vs: seq<JValue>) {
    forall i :: 0 <= i < |vs| ==> vs[i].JObj?
  }

  lemma {:induction false} PartitionFromMeaning(nds: seq<JValue>, i: nat, nodes: seq<JValue>, geometry: seq<JValue>)
    requires i <= |nds| && AllObjects(nds)
    ensures PartitionFrom(nds, i, nodes, geometry) ==
            Returned((nodes + RefsOf(nds[i..]), geometry + Filter(nds[i..], IsGeometryEntry)))
    decreases |nds| - i
  {
    if i == |nds| {
      assert nds[i..] == [];
      assert nodes + [] == nodes && geometry + [] == geometry;
    } else {
      var nd := nds[i];
      assert nds[i..][1..] == nds[i + 1..];
      assert nds[i..][0] == nd;
      if IsNodeRef(nd.fields) {
        PartitionFromMeaning(nds, i + 1, nodes + [Get(nd.fields, "ref").value], geometry);
        SeqAppendAssoc(nodes, [Get(nd.fields, "ref").value], RefsOf(nds[i + 1..]));
      } else {
        PartitionFromMeaning(nds, i + 1, nodes, geometry + [nd]);
        SeqAppendAssoc(geometry, [nd], Filter(nds[i + 1..], IsGeometryEntry));
      }
    }
  }

  /** The loop raises exactly when some remaining entry is not a dict. */
  lemma {:induction false} PartitionFromRaises(nds: seq<JValue>, i: nat, nodes: seq<JValue>, geometry: seq<JValue>)
    requires i <= |nds|
    ensures PartitionFrom(nds, i, nodes, geometry).Returned? <==> forall j :: i <= j < |nds| ==> nds[j].JObj?
    decreases |nds| - i
  {
    if i < |nds| && nds[i].JObj? {
      var nd := nds[i].fields;
      if IsNodeRef(nd) {
        PartitionFromRaises(nds, i + 1, nodes + [Get(nd, "ref").value], geometry);
      } else {
        PartitionFromRaises(nds, i + 1, nodes, geometry + [nds[i]]);
      }
    }
  }

  /** Every entry gives either a ref or a geometry point, never both. */
  lemma {:induction false} PartitionCounts(nds: seq<JValue>)
    requires AllObjects(nds)
    ensures |RefsOf(nds)| + |Filter(nds, IsGeometryEntry)| == |nds|
  {
    if nds != [] {
      PartitionCounts(nds[1..]);
    }
  }

  /**
   * The `nd` loop of `parse_way`: each node-reference entry contributes its ref to
   * `nodes`, every other entry goes to `geometry` as it is, both in document order, and
   * each entry lands in exactly one of the two lists.
   */
  lemma PartitionSplits(nds: seq<JValue>)
    requires AllObjects(nds)
    ensures PartitionFrom(nds, 0, [], []).Returned?
    ensures var (nodes, geometry) := PartitionFrom(nds, 0, [], []).value;
      nodes == RefsOf(nds) && geometry == Filter(nds, IsGeometryEntry) &&
      |nodes| + |geometry| == |nds|
  {
    PartitionFromMeaning(nds, 0, [], []);
    assert nds[0..] == nds;
    PartitionCounts(nds);
  }
}
