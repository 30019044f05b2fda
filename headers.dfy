/**
 * Spring's `HttpHeaders`: a `LinkedCaseInsensitiveMap` from header names to
 * the ordered list of each header's values.
 */
module Headers {
  import opened Wrappers
  import opened Text
  import opened CaseInsensitiveMaps

  type HeaderSet = CiMap<seq<string>>

  /**
   * The values of header `name` in any casing, as `get` returns them, with
   * an absent header read as no values.
   */
  function ValuesOf(h: HeaderSet, name: string): (values: seq<string>)
    ensures (forall j :: 0 <= j < |h| ==> !EqualsIgnoreCase(h[j].key, name)) ==> values == []
    ensures UniqueKeys(h) ==>
      forall j :: 0 <= j < |h| && EqualsIgnoreCase(h[j].key, name) ==> values == h[j].value
  {
    match Get(h, name)
    case Some(values) => values
    case None => []
  }

  /**
   * `addAll(name, values)`: the values are appended to the list of the
   * header `name` if present, which keeps its spelling and its place;
   * otherwise a header spelled `name` is added at the end.
   */
  function AddAll(h: HeaderSet, name: string, values: seq<string>): (r: HeaderSet)
    requires UniqueKeys(h)
    ensures UniqueKeys(r)
    ensures forall k :: Get(r, k) == if EqualsIgnoreCase(k, name) then Some(ValuesOf(h, name) + values) else Get(h, k)
    ensures |h| <= |r| && forall j :: 0 <= j < |h| ==> r[j].key == h[j].key
    ensures forall j :: 0 <= j < |h| && !EqualsIgnoreCase(h[j].key, name) ==> r[j] == h[j]
    ensures |r| == |h| || (|r| == |h| + 1 && r[|h|] == Entry(name, values))
  {
    var i := Find(h, name);
    if i == |h| then
      var r := h + [Entry(name, values)];
      AddAllAppends(h, name, values, r);
      r
    else
      var r := h[i := Entry(h[i].key, h[i].value + values)];
      AddAllExtends(h, name, values, i, r);
      r
  }

  /** `add(name, value)`: `addAll` of a single value. */
  function Add(h: HeaderSet, name: string, value: string): (r: HeaderSet)
    requires UniqueKeys(h)
    ensures UniqueKeys(r)
    ensures forall k :: Get(r, k) == if EqualsIgnoreCase(k, name) then Some(ValuesOf(h, name) + [value]) else Get(h, k)
    ensures |h| <= |r| && forall j :: 0 <= j < |h| ==> r[j].key == h[j].key
    ensures forall j :: 0 <= j < |h| && !EqualsIgnoreCase(h[j].key, name) ==> r[j] == h[j]
    ensures |r| == |h| || (|r| == |h| + 1 && r[|h|] == Entry(name, [value]))
  {
    AddAll(h, name, [value])
  }

  lemma AddAllAppends(h: HeaderSet, name: string, values: seq<string>, r: HeaderSet)
    requires Find(h, name) == |h| && r == h + [Entry(name, values)]
    requires UniqueKeys(h)
    ensures UniqueKeys(r)
    ensures forall k :: Get(r, k) == if EqualsIgnoreCase(k, name) then Some(ValuesOf(h, name) + values) else Get(h, k)
    ensures forall j :: 0 <= j < |h| ==> r[j].key == h[j].key
    ensures forall j :: 0 <= j < |h| && !EqualsIgnoreCase(h[j].key, name) ==> r[j] == h[j]
    ensures |r| == |h| + 1 && r[|h|] == Entry(name, values)
  {
    var e := Entry(name, values);
    assert ValuesOf(h, name) + values == values;
    AppendFresh(h, e);
    forall k ensures Get(r, k) == if EqualsIgnoreCase(k, name) then Some(ValuesOf(h, name) + values) else Get(h, k) {
      assert Get(h + [e], k) == if EqualsIgnoreCase(k, e.key) then Some(e.value) else Get(h, k);
    }
  }

  lemma AddAllExtends(h: HeaderSet, name: string, values: seq<string>, i: nat, r: HeaderSet)
    requires Find(h, name) == i < |h| && r == h[i := Entry(h[i].key, h[i].value + values)]
    requires UniqueKeys(h)
    ensures UniqueKeys(r)
    ensures forall k :: Get(r, k) == if EqualsIgnoreCase(k, name) then Some(ValuesOf(h, name) + values) else Get(h, k)
    ensures forall j :: 0 <= j < |h| ==> r[j].key == h[j].key
    ensures forall j :: 0 <= j < |h| && !EqualsIgnoreCase(h[j].key, name) ==> r[j] == h[j]
    ensures |r| == |h|
  {
    AddAllExtendsLookup(h, name, values, i, r);
    AddAllExtendsPlace(h, name, values, i, r);
  }

  lemma AddAllExtendsPlace(h: HeaderSet, name: string, values: seq<string>, i: nat, r: HeaderSet)
    requires i < |h| && EqualsIgnoreCase(h[i].key, name) && r == h[i := Entry(h[i].key, h[i].value + values)]
    ensures forall j :: 0 <= j < |h| ==> r[j].key == h[j].key
    ensures forall j :: 0 <= j < |h| && !EqualsIgnoreCase(h[j].key, name) ==> r[j] == h[j]
    ensures |r| == |h|
  {
  }

  lemma AddAllExtendsLookup(h: HeaderSet, name: string, values: seq<string>, i: nat, r: HeaderSet)
    requires Find(h, name) == i < |h| && r == h[i := Entry(h[i].key, h[i].value + values)]
    requires UniqueKeys(h)
    ensures EqualsIgnoreCase(h[i].key, name)
    ensures UniqueKeys(r)
    ensures forall k :: Get(r, k) == if EqualsIgnoreCase(k, name) then Some(ValuesOf(h, name) + values) else Get(h, k)
  {
    assert ValuesOf(h, name) == h[i].value;
    ReplaceAt(h, i, h[i].value + values);
    forall k ensures Get(r, k) == if EqualsIgnoreCase(k, name) then Some(ValuesOf(h, name) + values) else Get(h, k) {
      assert Get(r, k) == if EqualsIgnoreCase(k, h[i].key) then Some(h[i].value + values) else Get(h, k);
    }
  }

}
