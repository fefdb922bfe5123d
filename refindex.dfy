/**
 * The reference index: node, way and relation elements looked up by the key "type/id".
 */
module RefIndex {
  import opened PyCore
  import opened Decimal
  import opened Elements

  /**
   * An index key. The source keys its index by the string `_get_ref_name(type, id)`;
   * `RefNameMatches` shows that a lookup string equals an indexed element's string
   * exactly when the (type, id) pairs are equal, so the model keys the index by the pair.
   */
  datatype RefKey = RefKey(etype: string, id: Id)

  type Index = map<RefKey, Element>

  /** `_get_ref_name(type, id)`: `'%s/%s' % (type, id)`. */
  function RefName(etype: string, id: Id): string {
    etype + "/" + IntToString(id)
  }

  /**
   * The key looked up for `(etype, id)` is the key of `(t, i)`, for a type `t` without a
   * slash (every indexed type), exactly when `etype == t` and `id == i`, whatever `etype`.
   */
  lemma {:induction false} RefNameMatches(etype: string, id: Id, t: string, i: Id)
    requires '/' !in t
    ensures RefName(etype, id) == RefName(t, i) <==> etype == t && id == i
  {
    if RefName(etype, id) == RefName(t, i) {
      var key := RefName(t, i);
      assert key == etype + "/" + IntToString(id) == t + "/" + IntToString(i);
      // Both types end where the key has its first slash: `t` has none, and a longer
      // `etype` would put its closing slash among the digits of `i`.
      assert key[|t| + 1..] == IntToString(i);
      assert key[|etype|] == '/';
      assert |etype| == |t|;
      assert etype == key[..|t|] == t;
      assert IntToString(id) == key[|t| + 1..] == IntToString(i);
      IntToStringInjective(id, i);
    }
  }

  /** `get_ref_name(el)`, for an element that has an id. */
  function KeyOf(el: Element): RefKey
    requires el.id.Some?
  {
    RefKey(el.etype, el.id.value)
  }

  predicate AllHaveIds(els: seq<Element>) {
    forall i :: 0 <= i < |els| ==> els[i].id.Some?
  }

  /**
   * `build_refs_index(elements)`: each element stored under its key, later elements
   * replacing earlier ones with the same key; an element without id raises.
   */
  function BuildRefsIndex(els: seq<Element>): (r: Outcome<Index>)
    ensures r.Returned? <==> AllHaveIds(els)
    ensures r.Returned? ==> forall k :: k in r.value ==> r.value[k] in els && KeyOf(r.value[k]) == k
  {
    if els == [] then Returned(map[])
    else
      var last := els[|els| - 1];
      match BuildRefsIndex(els[..|els| - 1])
      case Raised => Raised
      case Returned(index) =>
        if last.id.None? then Raised
        else
          assert forall i :: 0 <= i < |els| - 1 ==> els[..|els| - 1][i] == els[i];
          Returned(index[KeyOf(last) := last])
  }

  /** The index has a key exactly when some element has that key. */
  lemma {:induction false} IndexKeys(els: seq<Element>, k: RefKey)
    requires AllHaveIds(els)
    ensures k in BuildRefsIndex(els).value <==> exists i :: 0 <= i < |els| && KeyOf(els[i]) == k
  {
    if els != [] {
      var init := els[..|els| - 1];
      assert forall i :: 0 <= i < |init| ==> init[i] == els[i];
      IndexKeys(init, k);
      if exists i :: 0 <= i < |els| && KeyOf(els[i]) == k {
        var i :| 0 <= i < |els| && KeyOf(els[i]) == k;
        if i < |init| {
          assert KeyOf(init[i]) == k;
        }
      }
    }
  }

  /** The position of the last element with key `k`, scanning back from the end. */
  function LastWithKey(els: seq<Element>, k: RefKey): (j: int)
    requires AllHaveIds(els)
    ensures -1 <= j < |els|
    ensures j >= 0 ==> KeyOf(els[j]) == k
    ensures forall l :: j < l < |els| ==> KeyOf(els[l]) != k
  {
    if els == [] then -1
    else if KeyOf(els[|els| - 1]) == k then |els| - 1
    else
      var init := els[..|els| - 1];
      assert forall l :: 0 <= l < |init| ==> init[l] == els[l];
      LastWithKey(init, k)
  }

  /** Each key holds the last element, in input order, that has this key. */
  lemma {:induction false} LaterWins(els: seq<Element>, i: nat)
    requires AllHaveIds(els) && i < |els|
    ensures KeyOf(els[i]) in BuildRefsIndex(els).value
    ensures var j := LastWithKey(els, KeyOf(els[i]));
            i <= j < |els| && BuildRefsIndex(els).value[KeyOf(els[i])] == els[j]
  {
    var init := els[..|els| - 1];
    assert forall l :: 0 <= l < |init| ==> init[l] == els[l];
    if i < |els| - 1 && KeyOf(els[|els| - 1]) != KeyOf(els[i]) {
      LaterWins(init, i);
      assert init[i] == els[i];
    }
  }

  /** `_get_ref(type, id, refs_index)`: the indexed element, or None. */
  function GetRef(index: Index, etype: string, id: Id): (r: Option<Element>)
    ensures r.Some? <==> RefKey(etype, id) in index
    ensures r.Some? ==> r.value == index[RefKey(etype, id)]
  {
    if RefKey(etype, id) in index then Some(index[RefKey(etype, id)]) else None
  }

  /**
   * A lookup in a built index finds an element exactly when one of that type and id was
   * indexed, and what it finds has that type and id and is the last such element.
   */
  lemma GetRefFinds(els: seq<Element>, etype: string, id: Id)
    requires AllHaveIds(els)
    ensures GetRef(BuildRefsIndex(els).value, etype, id).Some? <==>
            exists i :: 0 <= i < |els| && els[i].etype == etype && els[i].id == Some(id)
    ensures GetRef(BuildRefsIndex(els).value, etype, id).Some? ==>
            var found := GetRef(BuildRefsIndex(els).value, etype, id).value;
            var j := LastWithKey(els, RefKey(etype, id));
            found.etype == etype && found.id == Some(id) && 0 <= j && found == els[j]
  {
    var key := RefKey(etype, id);
    IndexKeys(els, key);
    if key in BuildRefsIndex(els).value {
      var i :| 0 <= i < |els| && KeyOf(els[i]) == key;
      LaterWins(els, i);
    }
  }
}
