/**
 * Spring's `LinkedCaseInsensitiveMap`: a map from `String` keys that keeps
 * its entries in insertion order, stores each key with the casing it was
 * last put with, and looks keys up ignoring case. It is modelled as the
 * sequence of its entries.
 */
module CaseInsensitiveMaps {
  import opened Wrappers
  import opened Text

  datatype Entry<V> = Entry(key: string, value: V)

  /** The entries of a map, in iteration order. */
  type CiMap<V> = seq<Entry<V>>

  /** No two keys are equal ignoring case: the invariant every such map keeps. */
  ghost predicate UniqueKeys<V>(m: CiMap<V>)
  {
    forall i, j :: 0 <= i < j < |m| ==> !EqualsIgnoreCase(m[i].key, m[j].key)
  }

  /** The position of the first entry whose key equals `key` ignoring case, or `|m|`. */
  function Find<V>(m: CiMap<V>, key: string): (i: nat)
    ensures i <= |m|
    ensures i < |m| ==> EqualsIgnoreCase(m[i].key, key)
    ensures forall j :: 0 <= j < i ==> !EqualsIgnoreCase(m[j].key, key)
  {
    if m == [] then 0
    else if EqualsIgnoreCase(m[0].key, key) then 0
    else 1 + Find(m[1..], key)
  }

  /** `get(key)`: the value stored under `key` in any casing, or `null`. */
  function Get<V>(m: CiMap<V>, key: string): (r: Option<V>)
    ensures r.None? <==> forall j :: 0 <= j < |m| ==> !EqualsIgnoreCase(m[j].key, key)
    ensures UniqueKeys(m) ==>
      forall j :: 0 <= j < |m| && EqualsIgnoreCase(m[j].key, key) ==> r == Some(m[j].value)
  {
    var i := Find(m, key);
    if i < |m| then Some(m[i].value) else None
  }

  /** Looking a key up in `m + [e]` finds `m`'s entry first, and `e` only when `m` has none. */
  lemma GetAppend<V>(m: CiMap<V>, e: Entry<V>, key: string)
    ensures Get(m + [e], key) ==
      if Get(m, key).Some? then Get(m, key)
      else if EqualsIgnoreCase(e.key, key) then Some(e.value)
      else None
  {
    var r := m + [e];
    var i, t := Find(m, key), Find(r, key);
    assert forall j :: 0 <= j < |m| ==> r[j] == m[j];
    if i < |m| {
      assert t <= i;
    } else {
      assert r[|m|] == e;
    }
  }

  /** `GetAppend` read from the other side: a lookup in a non-empty `m` through its last entry. */
  lemma GetLast<V>(m: CiMap<V>, key: string)
    requires m != []
    ensures var n := |m| - 1;
      Get(m, key) ==
        if Get(m[..n], key).Some? then Get(m[..n], key)
        else if EqualsIgnoreCase(m[n].key, key) then Some(m[n].value)
        else None
  {
    var n := |m| - 1;
    assert m == m[..n] + [m[n]];
    GetAppend(m[..n], m[n], key);
  }

  /** Looking a key up does not depend on its casing. */
  lemma GetIgnoresCase<V>(m: CiMap<V>, k1: string, k2: string)
    requires EqualsIgnoreCase(k1, k2)
    ensures Get(m, k1) == Get(m, k2)
  {
  }

  /**
   * `put(key, value)`. An entry whose key is spelled exactly `key` has its
   * value replaced where it stands; an entry whose key differs from `key`
   * only in case is removed, and the new entry is appended, as is an entry
   * for a key not present at all. Either way the other entries keep their
   * order.
   */
  function Put<V>(m: CiMap<V>, key: string, value: V): (r: CiMap<V>)
    ensures UniqueKeys(m) ==> UniqueKeys(r)
    ensures UniqueKeys(m) ==>
      forall k :: Get(r, k) == if EqualsIgnoreCase(k, key) then Some(value) else Get(m, k)
    ensures |r| == if Get(m, key).None? then |m| + 1 else |m|
    ensures forall e :: e in r ==> e in m || e == Entry(key, value)
    ensures Entry(key, value) in r
    ensures var i := Find(m, key);
      i < |m| && m[i].key == key ==>
        |r| == |m| && r[i] == Entry(key, value) && forall j :: 0 <= j < |m| && j != i ==> r[j] == m[j]
    ensures var i := Find(m, key);
      !(i < |m| && m[i].key == key) ==>
        r != [] && r[|r| - 1] == Entry(key, value) &&
        r[..|r| - 1] == if i == |m| then m else m[..i] + m[i + 1..]
  {
    var i := Find(m, key);
    var r :=
      if i == |m| then m + [Entry(key, value)]
      else if m[i].key == key then m[i := Entry(key, value)]
      else m[..i] + m[i + 1..] + [Entry(key, value)];
    PutFacts(m, key, value, i, r);
    r
  }

  lemma PutFacts<V>(m: CiMap<V>, key: string, value: V, i: nat, r: CiMap<V>)
    requires i == Find(m, key)
    requires r == if i == |m| then m + [Entry(key, value)]
                  else if m[i].key == key then m[i := Entry(key, value)]
                  else m[..i] + m[i + 1..] + [Entry(key, value)]
    ensures UniqueKeys(m) ==> UniqueKeys(r)
    ensures UniqueKeys(m) ==>
      forall k :: Get(r, k) == if EqualsIgnoreCase(k, key) then Some(value) else Get(m, k)
  {
    if UniqueKeys(m) {
      if i == |m| {
        AppendFresh(m, Entry(key, value));
      } else if m[i].key == key {
        ReplaceAt(m, i, value);
      } else {
        RemoveAt(m, i);
        AppendFresh(m[..i] + m[i + 1..], Entry(key, value));
      }
    }
  }

  /** A non-empty map is its entries before the last, then the last. */
  lemma InitLast<V>(m: CiMap<V>)
    requires m != []
    ensures m == m[..|m| - 1] + [m[|m| - 1]]
  {
  }

  /** `put` of a key not present appends its entry. */
  lemma PutFresh<V>(m: CiMap<V>, key: string, value: V)
    requires Get(m, key).None?
    ensures Put(m, key, value) == m + [Entry(key, value)]
  {
    assert Find(m, key) == |m|;
  }

  /** Appending an entry for a key not yet present. */
  lemma AppendFresh<V>(m: CiMap<V>, e: Entry<V>)
    requires UniqueKeys(m) && Get(m, e.key).None?
    ensures UniqueKeys(m + [e])
    ensures forall k :: Get(m + [e], k) == if EqualsIgnoreCase(k, e.key) then Some(e.value) else Get(m, k)
  {
    var r := m + [e];
    assert forall j :: 0 <= j < |m| ==> r[j] == m[j];
    forall i, j | 0 <= i < j < |r| ensures !EqualsIgnoreCase(r[i].key, r[j].key) {
      if j == |m| {
        assert r[j] == e && !EqualsIgnoreCase(m[i].key, e.key);
      }
    }
    forall k ensures Get(r, k) == if EqualsIgnoreCase(k, e.key) then Some(e.value) else Get(m, k) {
      if EqualsIgnoreCase(k, e.key) {
        assert r[|m|] == e;
      }
    }
  }

  /** Overwriting the value of entry `i`, its key unchanged. */
  lemma ReplaceAt<V>(m: CiMap<V>, i: nat, value: V)
    requires UniqueKeys(m) && i < |m|
    ensures UniqueKeys(m[i := Entry(m[i].key, value)])
    ensures forall k ::
      Get(m[i := Entry(m[i].key, value)], k) == if EqualsIgnoreCase(k, m[i].key) then Some(value) else Get(m, k)
  {
    var r := m[i := Entry(m[i].key, value)];
    assert forall j :: 0 <= j < |m| ==> r[j].key == m[j].key;
  }

  /** Removing entry `i` keeps the keys unique and every other lookup. */
  lemma RemoveAt<V>(m: CiMap<V>, i: nat)
    requires UniqueKeys(m) && i < |m|
    ensures UniqueKeys(m[..i] + m[i + 1..])
    ensures forall k :: Get(m[..i] + m[i + 1..], k) == if EqualsIgnoreCase(k, m[i].key) then None else Get(m, k)
  {
    var r := m[..i] + m[i + 1..];
    assert forall j :: 0 <= j < |r| ==> r[j] == if j < i then m[j] else m[j + 1];
    forall k ensures Get(r, k) == if EqualsIgnoreCase(k, m[i].key) then None else Get(m, k) {
      if !EqualsIgnoreCase(k, m[i].key) && Get(m, k).Some? {
        var t := Find(m, k);
        assert r[if t < i then t else t - 1] == m[t];
      }
    }
  }

  // ---------------------------------------------------------------------
  // `toString`, inherited from `java.util.AbstractMap`

  /** Each entry rendered as `key=value`, in iteration order. */
  function EntryStrings(m: CiMap<string>): (r: seq<string>)
    ensures |r| == |m|
  {
    seq(|m|, i requires 0 <= i < |m| => m[i].key + "=" + m[i].value)
  }

  /**
   * `AbstractMap.toString`: `{k1=v1, k2=v2}`, in iteration order. It is
   * braced, and it is `{}` exactly for the empty map.
   */
  function MapToString(m: CiMap<string>): (s: string)
    ensures |s| >= 2 && s[0] == '{' && s[|s| - 1] == '}'
    ensures s == "{}" <==> m == []
  {
    var pieces := EntryStrings(m);
    if m != [] then
      assert pieces[0][|m[0].key|] == '=';
      JoinNonEmpty(pieces, ", ");
      "{" + Join(pieces, ", ") + "}"
    else
      "{" + Join(pieces, ", ") + "}"
  }

  /** `put` into a one-entry map of a key equal to its key ignoring case leaves only the new entry. */
  lemma PutOverOnly<V>(e: Entry<V>, key: string, value: V)
    requires EqualsIgnoreCase(e.key, key)
    ensures Put([e], key, value) == [Entry(key, value)]
  {
    assert Find([e], key) == 0;
    assert [e][..0] + [e][1..] == [];
  }

  /** The `k=v` string of an entry with trimmed key and value, both free of `c` (not `=`), is non-empty, trimmed and free of `c`. */
  lemma EntryStringShape(e: Entry<string>, c: char)
    requires IsTrimmed(e.key) && IsTrimmed(e.value) && c != '='
    requires c !in e.key && c !in e.value
    ensures var s := e.key + "=" + e.value; s != [] && IsTrimmed(s) && c !in s
  {
    var s := e.key + "=" + e.value;
    assert s[|e.key|] == '=';
    if e.key != [] { assert s[0] == e.key[0]; }
    if e.value != [] { assert s[|s| - 1] == e.value[|e.value| - 1]; }
  }

  /**
   * `toString` lists the entries as `k=v` in iteration order, separated by
   * `, `: when keys and values are trimmed and hold no `,`, cutting the text
   * inside the braces at `,` and trimming each piece gives the `k=v`
   * strings back, in order.
   */
  lemma MapToStringLists(m: CiMap<string>)
    requires forall i :: 0 <= i < |m| ==> IsTrimmed(m[i].key) && IsTrimmed(m[i].value)
    requires forall i :: 0 <= i < |m| ==> ',' !in m[i].key && ',' !in m[i].value
    ensures var s := MapToString(m);
      s == "{" + s[1..|s| - 1] + "}" && Tokenize(s[1..|s| - 1], ',') == EntryStrings(m)
  {
    var pieces := EntryStrings(m);
    forall k | 0 <= k < |pieces| ensures pieces[k] != [] && IsTrimmed(pieces[k]) && ',' !in pieces[k] {
      EntryStringShape(m[k], ',');
    }
    TokenizeJoined(pieces, ',');
    var s := MapToString(m);
    assert ", " == [',', ' '];
    assert s[1..|s| - 1] == Join(pieces, ", ");
  }
}
