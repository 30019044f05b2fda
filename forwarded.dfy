/**
 * `ForwardedHeadersFilter`: the filter that rewrites the `Forwarded`
 * request header. It copies every other header, parses each value of
 * `Forwarded` into a `Forwarded` record (a loose reading of one
 * `forwarded-element = [ forwarded-pair ] *( ";" [ forwarded-pair ] )`
 * of section 4 of RFC 7239, where the header is `1#forwarded-element`),
 * and adds each record's `toString` back under `Forwarded`.
 */
module ForwardedHeaders {
  import opened Wrappers
  import opened Text
  import opened CaseInsensitiveMaps
  import opened Headers

  /** `FORWARDED_HEADER`. */
  const ForwardedHeader: string := "Forwarded"

  /** `Ordered.HIGHEST_PRECEDENCE` and `Ordered.LOWEST_PRECEDENCE`: `Integer.MIN_VALUE` and `Integer.MAX_VALUE`. */
  const HighestPrecedence: int := -0x8000_0000
  const LowestPrecedence: int := 0x7fff_ffff

  /**
   * `getOrder()`: the filter's place among `Ordered` components, 0, which
   * sorts it strictly after every component of highest precedence and
   * strictly before every component of lowest.
   */
  function GetOrder(): (order: int)
    ensures order == 0
    ensures HighestPrecedence < order < LowestPrecedence
  {
    0
  }

  /** What the filter throws: it dereferences `null`. */
  datatype Fault = NullPointer

  /** One parsed value of the header: its pairs, keyed case-insensitively, in insertion order. */
  datatype Forwarded = Forwarded(values: CiMap<string>)
  {
    /** `get(key)`: `null` exactly when no key matches ignoring case, otherwise the matching pair's value. */
    function Get(key: string): (r: Option<string>)
      ensures r.None? <==> forall j :: 0 <= j < |values| ==> !EqualsIgnoreCase(values[j].key, key)
      ensures UniqueKeys(values) ==>
        forall j :: 0 <= j < |values| && EqualsIgnoreCase(values[j].key, key) ==> r == Some(values[j].value)
    {
      CaseInsensitiveMaps.Get(values, key)
    }

    /** `toString()`: `Forwarded{values={k1=v1, k2=v2}}`. */
    function ToString(): (s: string)
      ensures |s| >= 20 && s[..18] == "Forwarded{values={" && s[|s| - 2..] == "}}"
    {
      "Forwarded{values=" + MapToString(values) + "}"
    }
  }

  /** `get` finds the pair `For=192.0.2.60` under `fOR`, and nothing under `by`. */
  lemma GetFindsOtherCasing()
    ensures Forwarded([Entry("For", "192.0.2.60")]).Get("fOR") == Some("192.0.2.60")
    ensures Forwarded([Entry("For", "192.0.2.60")]).Get("by").None?
  {
  }

  /** `Forwarded.get` finds a key whatever its casing. */
  lemma GetIgnoresCase(f: Forwarded, k1: string, k2: string)
    requires EqualsIgnoreCase(k1, k2)
    ensures f.Get(k1) == f.Get(k2)
  {
    CaseInsensitiveMaps.GetIgnoresCase(f.values, k1, k2);
  }

  // ---------------------------------------------------------------------
  // Parsing

  /**
   * The map that `splitIntoCaseInsensitiveMap` fills from `pairs`: each
   * pair is cut at its first `=` and its trimmed key and value are `put`,
   * in order; a pair without `=` is skipped.
   */
  function PairsToMap(pairs: seq<string>): (m: CiMap<string>)
    ensures UniqueKeys(m)
  {
    if pairs == [] then []
    else
      var m := PairsToMap(pairs[..|pairs| - 1]);
      match PairOf(pairs[|pairs| - 1])
      case None => m
      case Some(pair) => Put(m, pair.key, pair.value)
  }

  /**
   * One token cut at its first `=`, key and value trimmed: `null` exactly
   * when it holds no `=`, and otherwise a trimmed key free of `=` and a
   * trimmed value.
   */
  function PairOf(token: string): (r: Option<Entry<string>>)
    ensures r.None? <==> '=' !in token
    ensures r.Some? ==> IsTrimmed(r.value.key) && IsTrimmed(r.value.value) && '=' !in r.value.key
  {
    match SplitAtFirst(token, '=')
    case None => None
    case Some((key, value)) =>
      TrimInside(key, '=');
      Some(Entry(Trim(key), Trim(value)))
  }

  /** `splitIntoCaseInsensitiveMap(pairs)`: `null` for no pairs, else the map of the pairs. */
  method SplitIntoCaseInsensitiveMap(pairs: seq<string>) returns (result: Option<CiMap<string>>)
    ensures result == if pairs == [] then None else Some(PairsToMap(pairs))
  {
    if |pairs| == 0 {
      return None;
    }
    var m: CiMap<string> := [];
    for i := 0 to |pairs|
      invariant m == PairsToMap(pairs[..i])
    {
      assert pairs[..i + 1][..i] == pairs[..i];
      var splitted := SplitAtFirst(pairs[i], '=');
      if splitted.None? {
        continue;
      }
      m := Put(m, Trim(splitted.value.0), Trim(splitted.value.1));
    }
    assert pairs[..|pairs|] == pairs;
    return Some(m);
  }

  /**
   * `parse(String)`: the value's `;`-separated tokens made into a record, or
   * `null` when there is none. That is `null` exactly for values made only
   * of `;` and blanks, such as `""`, `"  "` and `";;"`; every record it
   * returns is well formed.
   */
  function Parse(value: string): (r: Option<Forwarded>)
    ensures r.None? <==> !HasContent(value)
    ensures r.Some? ==> WellFormed(r.value)
  {
    TokenizeEmptyIff(value, ';');
    PairsToMapWellFormed(Tokenize(value, ';'));
    var pairs := Tokenize(value, ';');
    if pairs == [] then None else Some(Forwarded(PairsToMap(pairs)))
  }

  /** `parse(String)`, as the method runs it: tokenize, then build the map. */
  method ParseValue(value: string) returns (forwarded: Option<Forwarded>)
    ensures forwarded == Parse(value)
    ensures forwarded.None? <==> Tokenize(value, ';') == []
  {
    var pairs := Tokenize(value, ';');
    var values := SplitIntoCaseInsensitiveMap(pairs);
    if values.None? {
      return None;
    }
    return Some(Forwarded(values.value));
  }

  /** `parse(List)`: one result per value, in order, `null` results kept in place. */
  method ParseList(values: seq<string>) returns (forwardeds: seq<Option<Forwarded>>)
    ensures |forwardeds| == |values|
    ensures forall i :: 0 <= i < |values| ==> forwardeds[i] == Parse(values[i])
  {
    ghost var expected := Parsed(values);
    forwardeds := [];
    for i := 0 to |values|
      invariant forwardeds == expected[..i]
    {
      var forwarded := ParseValue(values[i]);
      PrefixGrows(forwardeds, expected, i);
      forwardeds := forwardeds + [forwarded];
    }
    assert expected[..|values|] == expected;
  }

  /** A prefix extended by the next element is the next prefix. */
  lemma PrefixGrows<T>(prefix: seq<T>, s: seq<T>, i: nat)
    requires i < |s| && prefix == s[..i]
    ensures prefix + [s[i]] == s[..i + 1]
  {
  }

  /** Some character of `value` is neither `;` nor one that `trim` removes. */
  ghost predicate HasContent(value: string)
  {
    exists i :: 0 <= i < |value| && value[i] != ';' && value[i] > ' '
  }

  /** The blank values `""`, `"  "`, `";;"` and `" ; \t;"` parse to `null`. */
  lemma BlankValuesParseToNull()
    ensures Parse("").None? && Parse("  ").None? && Parse(";;").None? && Parse(" ; \t;").None?
  {
    NoContent("");
    NoContent("  ");
    NoContent(";;");
    NoContent(" ; \t;");
  }

  /** A value made only of `;` and blanks has no content. */
  lemma NoContent(value: string)
    requires forall i :: 0 <= i < |value| ==> value[i] in {';', ' ', '\t'}
    ensures !HasContent(value)
  {
  }

  /** Token `j` holds a `=` and its trimmed key is `key`, ignoring case. */
  ghost predicate Defines(pairs: seq<string>, j: int, key: string)
  {
    0 <= j < |pairs| && PairOf(pairs[j]).Some? && EqualsIgnoreCase(PairOf(pairs[j]).value.key, key)
  }

  /** Token `j` defines `key` and no later token does. */
  ghost predicate IsLastDefinition(pairs: seq<string>, j: int, key: string)
  {
    Defines(pairs, j, key) && forall t :: j < t < |pairs| ==> !Defines(pairs, t, key)
  }

  /** Token `j` before the last defines `key` in `pairs` exactly when it does among the tokens before the last. */
  lemma DefinesInit(pairs: seq<string>, j: int, key: string)
    requires 0 <= j < |pairs| - 1
    ensures Defines(pairs, j, key) == Defines(pairs[..|pairs| - 1], j, key)
  {
    assert pairs[j] == pairs[..|pairs| - 1][j];
  }

  /** No token defines `key` exactly when the last does not and no token before it does. */
  lemma NoneDefinesStep(pairs: seq<string>, key: string)
    requires pairs != []
    ensures var n := |pairs| - 1;
      (forall j :: 0 <= j < |pairs| ==> !Defines(pairs, j, key)) <==>
      !Defines(pairs, n, key) && forall j :: 0 <= j < n ==> !Defines(pairs[..n], j, key)
  {
    var n := |pairs| - 1;
    if forall j :: 0 <= j < |pairs| ==> !Defines(pairs, j, key) {
      assert !Defines(pairs, n, key);
      forall j | 0 <= j < n ensures !Defines(pairs[..n], j, key) {
        DefinesInit(pairs, j, key);
      }
    }
    if !Defines(pairs, n, key) && forall j :: 0 <= j < n ==> !Defines(pairs[..n], j, key) {
      forall j | 0 <= j < |pairs| ensures !Defines(pairs, j, key) {
        if j < n {
          DefinesInit(pairs, j, key);
        } else {
          assert j == n;
        }
      }
    }
  }

  /** Looking `key` up in the map of `pairs` finds nothing exactly when no token defines `key`. */
  lemma {:induction false} LookupFindsNothing(pairs: seq<string>, key: string)
    ensures CaseInsensitiveMaps.Get(PairsToMap(pairs), key).None? <==>
      forall j :: 0 <= j < |pairs| ==> !Defines(pairs, j, key)
  {
    if pairs != [] {
      var n := |pairs| - 1;
      var init := pairs[..n];
      LookupStep(pairs, key);
      LookupFindsNothing(init, key);
      NoneDefinesStep(pairs, key);
    }
  }

  /**
   * Looking `key` up in the map of `pairs` finds the trimmed value of the
   * last token that defines `key` in any casing: tokens without `=` are
   * skipped, and a later duplicate key overwrites an earlier one.
   */
  lemma {:induction false} LookupFindsLastDefinition(pairs: seq<string>, key: string, j: int)
    requires IsLastDefinition(pairs, j, key)
    ensures CaseInsensitiveMaps.Get(PairsToMap(pairs), key) == Some(PairOf(pairs[j]).value.value)
  {
    var n := |pairs| - 1;
    var init := pairs[..n];
    LookupStep(pairs, key);
    if j < n {
      assert pairs[j] == init[j];
      forall t | j < t < n ensures !Defines(init, t, key) {
        assert !Defines(pairs, t, key);
        assert pairs[t] == init[t];
      }
      LookupFindsLastDefinition(init, key, j);
    }
  }

  /** The last token either defines `key`, and its value is found, or the lookup is as before it. */
  lemma LookupStep(pairs: seq<string>, key: string)
    requires pairs != []
    ensures var n := |pairs| - 1;
      CaseInsensitiveMaps.Get(PairsToMap(pairs), key) ==
        if Defines(pairs, n, key) then Some(PairOf(pairs[n]).value.value)
        else CaseInsensitiveMaps.Get(PairsToMap(pairs[..n]), key)
  {
    var n := |pairs| - 1;
    var m := PairsToMap(pairs[..n]);
    match PairOf(pairs[n])
    case None =>
    case Some(pair) =>
      assert PairsToMap(pairs) == Put(m, pair.key, pair.value);
  }

  /** A record built from tokens free of `;` has keys and values free of `;` and trimmed, keys free of `=`. */
  ghost predicate WellFormedPair(e: Entry<string>)
  {
    IsTrimmed(e.key) && IsTrimmed(e.value) && ';' !in e.key && '=' !in e.key && ';' !in e.value
  }

  ghost predicate WellFormed(f: Forwarded)
  {
    UniqueKeys(f.values) && forall i :: 0 <= i < |f.values| ==> WellFormedPair(f.values[i])
  }

  /** A token free of `;` that holds a `=` gives a well-formed pair. */
  lemma PairOfWellFormed(token: string)
    requires ';' !in token && PairOf(token).Some?
    ensures WellFormedPair(PairOf(token).value)
  {
    var (key, value) := SplitAtFirst(token, '=').value;
    assert ';' !in key && ';' !in value by {
      assert token == key + ['='] + value;
    }
    TrimInside(key, ';');
    TrimInside(key, '=');
    TrimInside(value, ';');
  }

  /** A `put` of a well-formed pair keeps every entry well formed. */
  lemma PutWellFormed(m: CiMap<string>, e: Entry<string>)
    requires forall i :: 0 <= i < |m| ==> WellFormedPair(m[i])
    requires WellFormedPair(e)
    ensures var r := Put(m, e.key, e.value);
      forall i :: 0 <= i < |r| ==> WellFormedPair(r[i])
  {
    var r := Put(m, e.key, e.value);
    forall i | 0 <= i < |r| ensures WellFormedPair(r[i]) {
      assert r[i] in r;
    }
  }

  lemma {:induction false} PairsToMapWellFormed(pairs: seq<string>)
    requires forall k :: 0 <= k < |pairs| ==> ';' !in pairs[k]
    ensures WellFormed(Forwarded(PairsToMap(pairs)))
  {
    if pairs != [] {
      var n := |pairs| - 1;
      PairsToMapWellFormed(pairs[..n]);
      match PairOf(pairs[n])
      case None =>
      case Some(pair) =>
        PairOfWellFormed(pairs[n]);
        PairsToMapLast(pairs, pair);
        PutWellFormed(PairsToMap(pairs[..n]), pair);
    }
  }

  // ---------------------------------------------------------------------
  // Serializing as `forwarded-pair`s

  /** The `k1=v1; k2=v2` rendering of a record: empty exactly for a record with no pairs. */
  function Serialize(f: Forwarded): (s: string)
    ensures s == [] <==> f.values == []
  {
    var pieces := EntryStrings(f.values);
    if f.values != [] then
      assert pieces[0][|f.values[0].key|] == '=';
      Join(pieces, "; ")
    else
      Join(pieces, "; ")
  }

  lemma {:induction false} PairsToMapOfEntries(m: CiMap<string>)
    requires UniqueKeys(m)
    requires forall i :: 0 <= i < |m| ==> WellFormedPair(m[i])
    ensures PairsToMap(EntryStrings(m)) == m
  {
    if m != [] {
      var n := |m| - 1;
      var init, e := m[..n], m[n];
      var pieces := EntryStrings(m);
      WellFormedInit(m);
      PairsToMapOfEntries(init);
      EntryStringsInit(m);
      PairOfEntryString(e);
      PairsToMapLast(pieces, e);
      PutFresh(init, e.key, e.value);
      InitLast(m);
    }
  }

  /** The rendering of the entries before the last, and of the last. */
  lemma EntryStringsInit(m: CiMap<string>)
    requires m != []
    ensures var n := |m| - 1;
      EntryStrings(m)[..n] == EntryStrings(m[..n]) && EntryStrings(m)[n] == m[n].key + "=" + m[n].value
  {
  }

  /** A last token that reads as `pair` is `put` into the map of the tokens before it. */
  lemma PairsToMapLast(pairs: seq<string>, pair: Entry<string>)
    requires pairs != [] && PairOf(pairs[|pairs| - 1]) == Some(pair)
    ensures PairsToMap(pairs) == Put(PairsToMap(pairs[..|pairs| - 1]), pair.key, pair.value)
  {
  }

  /** The entries before the last of a well-formed map are well formed, and do not hold the last key. */
  lemma WellFormedInit(m: CiMap<string>)
    requires m != [] && UniqueKeys(m)
    requires forall i :: 0 <= i < |m| ==> WellFormedPair(m[i])
    ensures var init := m[..|m| - 1];
      && UniqueKeys(init)
      && (forall i :: 0 <= i < |init| ==> WellFormedPair(init[i]))
      && CaseInsensitiveMaps.Get(init, m[|m| - 1].key).None?
  {
    var init := m[..|m| - 1];
    assert forall i :: 0 <= i < |init| ==> init[i] == m[i];
  }

  /** The token `k=v` of a well-formed pair is read back as that pair. */
  lemma PairOfEntryString(e: Entry<string>)
    requires WellFormedPair(e)
    ensures PairOf(e.key + "=" + e.value) == Some(e)
  {
    SplitAtFirstOf(e.key, '=', e.value);
    TrimmedIsFixpoint(e.key);
    TrimmedIsFixpoint(e.value);
  }

  /** Each entry string `k=v` of a well-formed record is non-empty, trimmed and free of `;`. */
  lemma EntryStringFacts(e: Entry<string>)
    requires WellFormedPair(e)
    ensures var s := e.key + "=" + e.value; s != [] && IsTrimmed(s) && ';' !in s
  {
    EntryStringShape(e, ';');
  }

  /** Parsing the `forwarded-pair` rendering of a non-empty well-formed record gives the record back. */
  lemma SerializeThenParse(f: Forwarded)
    requires WellFormed(f) && f.values != []
    ensures Parse(Serialize(f)) == Some(f)
  {
    var pieces := EntryStrings(f.values);
    forall k | 0 <= k < |pieces| ensures pieces[k] != [] && IsTrimmed(pieces[k]) && ';' !in pieces[k] {
      EntryStringFacts(f.values[k]);
    }
    TokenizeJoined(pieces, ';');
    assert "; " == [';', ' '];
    assert Tokenize(Serialize(f), ';') == pieces;
    PairsToMapOfEntries(f.values);
  }

  /**
   * `toString` lists the record's pairs as `k=v` in map order, separated by
   * `, `, between `Forwarded{values={` and `}}`: for a well-formed record
   * whose keys and values hold no `,`, cutting the text in between at `,`
   * and trimming each piece gives the `k=v` strings, whose map is the record.
   */
  lemma ToStringLists(f: Forwarded)
    requires WellFormed(f)
    requires forall i :: 0 <= i < |f.values| ==> ',' !in f.values[i].key && ',' !in f.values[i].value
    ensures var s := f.ToString(); var inner := s[18..|s| - 2];
      && s == s[..18] + inner + s[|s| - 2..]
      && Tokenize(inner, ',') == EntryStrings(f.values)
      && PairsToMap(Tokenize(inner, ',')) == f.values
  {
    MapToStringLists(f.values);
    ToStringInner(f);
    PairsToMapOfEntries(f.values);
  }

  /** The text between `Forwarded{values={` and `}}` is the text inside the braces of the map's `toString`. */
  lemma ToStringInner(f: Forwarded)
    ensures var s, m := f.ToString(), MapToString(f.values);
      s == s[..18] + s[18..|s| - 2] + s[|s| - 2..] && s[18..|s| - 2] == m[1..|m| - 1]
  {
    var s, m := f.ToString(), MapToString(f.values);
    assert s == s[..18] + s[18..|s| - 2] + s[|s| - 2..];
    assert s == "Forwarded{values=" + m + "}";
  }

  /** Re-parsing a record after one more parse-and-render cycle gives the same record. */
  lemma ParseSerializeParse(value: string)
    requires Parse(value).Some? && Parse(value).value.values != []
    ensures Parse(Serialize(Parse(value).value)) == Parse(value)
  {
    SerializeThenParse(Parse(value).value);
  }

  lemma SinglePair(key: string, value: string)
    requires WellFormedPair(Entry(key, value))
    ensures Parse(key + "=" + value) == Some(Forwarded([Entry(key, value)]))
  {
    var f := Forwarded([Entry(key, value)]);
    assert Serialize(f) == key + "=" + value;
    SerializeThenParse(f);
  }

  /** The facts about one example pair that the examples below need, apart from parsing. */
  lemma ExamplePair(key: string, value: string, text: string)
    requires key + "=" + value == text
    requires forall i :: 0 <= i < |key| ==> ' ' < key[i] && key[i] != ';' && key[i] != '='
    requires value != [] && value[0] > ' ' && value[|value| - 1] > ' ' && ';' !in value
    ensures WellFormedPair(Entry(key, value)) && key + "=" + value == text
  {
  }

  /** Only the first `=` of a pair cuts it: `a=b=c` gives key `a` and value `b=c`. */
  lemma FirstEqualsCuts()
    ensures Parse("a=b=c") == Some(Forwarded([Entry("a", "b=c")]))
  {
    ExamplePair("a", "b=c", "a=b=c");
    SinglePair("a", "b=c");
  }

  /** A comma separates nothing: `for=a, for=b` gives the one pair `for` = `a, for=b`. */
  lemma CommaIsNotASeparator()
    ensures Parse("for=a, for=b") == Some(Forwarded([Entry("for", "a, for=b")]))
  {
    ExamplePair("for", "a, for=b", "for=a, for=b");
    SinglePair("for", "a, for=b");
  }

  /** A trailing `;` after a well-formed pair adds nothing. */
  lemma TrailingSemicolonIgnored(e: Entry<string>)
    requires WellFormedPair(e)
    ensures Parse(e.key + "=" + e.value + ";") == Some(Forwarded([e]))
  {
    var s := e.key + "=" + e.value;
    SinglePair(e.key, e.value);
    JoinTrailingEmpty(s, ";");
    JoinSplit([s, ""], ';');
    EntryStringFacts(e);
    TrimmedNonEmptyCons(s, [""]);
    assert TrimmedNonEmpty([""]) == [];
    assert [s] + [""] == [s, ""];
  }

  /** A trailing `;` adds nothing: `for=1.2.3.4;` gives the single pair `for=1.2.3.4`. */
  lemma TrailingSemicolon()
    ensures Parse("for=1.2.3.4;") == Some(Forwarded([Entry("for", "1.2.3.4")]))
  {
    ExamplePair("for", "1.2.3.4", "for=1.2.3.4");
    assert "for=1.2.3.4" + ";" == "for=1.2.3.4;";
    TrailingSemicolonIgnored(Entry("for", "1.2.3.4"));
  }

  /** The tokens of two well-formed pairs joined by `;` are the two pairs as written. */
  lemma TwoPairsTokens(e1: Entry<string>, e2: Entry<string>)
    requires WellFormedPair(e1) && WellFormedPair(e2)
    ensures var p1, p2 := e1.key + "=" + e1.value, e2.key + "=" + e2.value;
      Tokenize(p1 + ";" + p2, ';') == [p1, p2]
  {
    var p1, p2 := e1.key + "=" + e1.value, e2.key + "=" + e2.value;
    EntryStringFacts(e1);
    EntryStringFacts(e2);
    assert Split(p1 + ";" + p2, ';') == [p1, p2] by {
      assert Join([p1, p2], ";") == p1 + ";" + p2;
      JoinSplit([p1, p2], ';');
    }
    assert TrimmedNonEmpty([p1, p2]) == [p1, p2] by {
      TrimmedIsFixpoint(p1);
      TrimmedIsFixpoint(p2);
      TrimmedNonEmptyAll([p1, p2], [p1, p2]);
    }
  }

  /** The map of a well-formed pair's rendering holds that pair alone. */
  lemma OnePairMap(e: Entry<string>)
    requires WellFormedPair(e)
    ensures PairsToMap([e.key + "=" + e.value]) == [e]
  {
    var p := e.key + "=" + e.value;
    PairOfEntryString(e);
    PairsToMapLast([p], e);
    PutFresh([], e.key, e.value);
    assert [p][..0] == [];
  }

  /** The map of two well-formed pairs' renderings is the first pair, then a `put` of the second. */
  lemma TwoPairsMap(e1: Entry<string>, e2: Entry<string>)
    requires WellFormedPair(e1) && WellFormedPair(e2)
    ensures PairsToMap([e1.key + "=" + e1.value, e2.key + "=" + e2.value]) == Put([e1], e2.key, e2.value)
  {
    var p1, p2 := e1.key + "=" + e1.value, e2.key + "=" + e2.value;
    OnePairMap(e1);
    PairOfEntryString(e2);
    PairsToMapLast([p1, p2], e2);
    assert [p1, p2][..1] == [p1];
  }

  /** Two well-formed pairs joined by `;` give the first pair, then a `put` of the second. */
  lemma TwoPairs(e1: Entry<string>, e2: Entry<string>)
    requires WellFormedPair(e1) && WellFormedPair(e2)
    ensures Parse(e1.key + "=" + e1.value + ";" + e2.key + "=" + e2.value)
      == Some(Forwarded(Put([e1], e2.key, e2.value)))
  {
    var p1, p2 := e1.key + "=" + e1.value, e2.key + "=" + e2.value;
    assert p1 + ";" + p2 == e1.key + "=" + e1.value + ";" + e2.key + "=" + e2.value;
    TwoPairsTokens(e1, e2);
    TwoPairsMap(e1, e2);
  }

  /**
   * A later key equal to an earlier one ignoring case replaces the earlier
   * pair, and the map keeps the later spelling: `for=a;For=b` gives the one
   * pair `For`=`b`.
   */
  lemma DuplicateKeyOverwrites(e1: Entry<string>, e2: Entry<string>)
    requires WellFormedPair(e1) && WellFormedPair(e2)
    requires EqualsIgnoreCase(e1.key, e2.key)
    ensures Parse(e1.key + "=" + e1.value + ";" + e2.key + "=" + e2.value) == Some(Forwarded([e2]))
  {
    TwoPairs(e1, e2);
    PutOverOnly(e1, e2.key, e2.value);
  }

  /** Tokens without `=` are skipped; a value with content but no `=` gives an empty, non-null record. */
  lemma {:induction false} PairsWithoutEquals(pairs: seq<string>)
    requires forall k :: 0 <= k < |pairs| ==> '=' !in pairs[k]
    ensures PairsToMap(pairs) == []
  {
    if pairs != [] {
      PairsWithoutEquals(pairs[..|pairs| - 1]);
    }
  }

  lemma ValueWithoutEquals(value: string)
    requires '=' !in value
    ensures Parse(value) == if HasContent(value) then Some(Forwarded([])) else None
  {
    TokenizeAvoids(value, ';', '=');
    PairsWithoutEquals(Tokenize(value, ';'));
  }

  /**
   * Re-parsing what the filter emits never gives the record back: the whole
   * `Forwarded{values={...}}` string becomes one pair whose key is
   * `Forwarded{values`.
   */
  lemma ReparseEmitted(f: Forwarded)
    requires WellFormed(f)
    ensures Parse(f.ToString()) == Some(Forwarded([Entry("Forwarded{values", MapToString(f.values) + "}")]))
    ensures Parse(f.ToString()) != Some(f)
  {
    var key, body := "Forwarded{values", MapToString(f.values) + "}";
    EmittedShape(f);
    SinglePair(key, body);
    assert |body| > |MapToString(f.values)|;
  }

  /** The emitted string is one pair: key `Forwarded{values`, value the rest. */
  lemma EmittedShape(f: Forwarded)
    requires WellFormed(f)
    ensures var key, body := "Forwarded{values", MapToString(f.values) + "}";
      f.ToString() == key + "=" + body && WellFormedPair(Entry(key, body))
  {
    var m := MapToString(f.values);
    var key, body := "Forwarded{values", m + "}";
    assert ';' !in m by {
      forall k | 0 <= k < |EntryStrings(f.values)| ensures ';' !in EntryStrings(f.values)[k] {
        EntryStringFacts(f.values[k]);
      }
      JoinAvoids(EntryStrings(f.values), ", ", ';');
    }
    assert body[0] == '{' && body[|body| - 1] == '}' by {
      assert body[0] == m[0];
    }
    RecordKeyShape();
  }

  /** The key `toString` gives its one pair is trimmed and holds no `=` and no `;`. */
  lemma RecordKeyShape()
    ensures var key := "Forwarded{values"; IsTrimmed(key) && '=' !in key && ';' !in key
  {
  }

  // ---------------------------------------------------------------------
  // The filter

  /**
   * The test of line 48: the header name lower-cased, then compared with
   * `Forwarded` ignoring case. A header is stripped exactly when its name
   * is `Forwarded` in some casing, `forwarded` included.
   */
  predicate IsForwarded(name: string)
    ensures IsForwarded(name) <==> EqualsIgnoreCase(name, ForwardedHeader)
  {
    LowerThenIgnoreCase(name, ForwardedHeader);
    EqualsIgnoreCase(Lower(name), ForwardedHeader)
  }

  /** `forwarded` and `FORWARDED` are stripped like `Forwarded`; `X-Forwarded` is kept. */
  lemma ForwardedSpellings()
    ensures IsForwarded("forwarded") && IsForwarded("FORWARDED")
    ensures !IsForwarded("X-Forwarded")
  {
    assert |"X-Forwarded"| != |ForwardedHeader|;
    assert Lower("FORWARDED") == Lower("forwarded") == Lower(ForwardedHeader);
  }

  /** The headers not named `Forwarded`, in order: never more than the input holds. */
  function Others(h: HeaderSet): (r: HeaderSet)
    ensures |r| <= |h|
  {
    if h == [] then []
    else Others(h[..|h| - 1]) + (if IsForwarded(h[|h| - 1].key) then [] else [h[|h| - 1]])
  }

  /**
   * The `Forwarded` header the filter adds: at most one header, present
   * exactly when there are values, spelled `Forwarded` and holding exactly
   * the values.
   */
  function Emitted(values: seq<string>): (r: HeaderSet)
    ensures |r| <= 1 && (r == [] <==> values == [])
    ensures forall j :: 0 <= j < |r| ==> r[j] == Entry(ForwardedHeader, values)
  {
    if values == [] then [] else [Entry(ForwardedHeader, values)]
  }

  /**
   * The outcome of `filter(original)`, as a function of `original`: it
   * throws when `Forwarded` is missing, and on success adds at most one
   * header. `FilteredIff` and `FilteredOutput` give the rest.
   */
  ghost function Filtered(h: HeaderSet): (r: Result<HeaderSet, Fault>)
    ensures CaseInsensitiveMaps.Get(h, ForwardedHeader).None? ==> r == Failure(NullPointer)
    ensures r.Success? ==> |r.value| <= |h| + 1
  {
    match CaseInsensitiveMaps.Get(h, ForwardedHeader)
    case None => Failure(NullPointer)
    case Some(raw) =>
      if None in Parsed(raw) then Failure(NullPointer)
      else Success(Others(h) + Emitted(ToStrings(NonNull(Parsed(raw)))))
  }

  /**
   * `filter(original)`: copies the other headers with `addAll`, then `add`s
   * the `toString` of each parsed record under `Forwarded`. It throws when
   * `Forwarded` is absent and when one of its values parses to `null`.
   */
  method Filter(original: HeaderSet) returns (result: Result<HeaderSet, Fault>)
    requires UniqueKeys(original)
    ensures result == Filtered(original)
  {
    var updated := CopyOthers(original);
    var raw := Get(original, ForwardedHeader);
    if raw.None? {
      return Failure(NullPointer);
    }
    var forwardeds := ParseList(raw.value);
    assert forwardeds == Parsed(raw.value);
    OthersWithout(original);
    result := AddRecords(updated, forwardeds);
  }

  /** Lines 44-49 of `filter`: a new header set, filled with `addAll` of every header not named `Forwarded`. */
  method CopyOthers(original: HeaderSet) returns (updated: HeaderSet)
    requires UniqueKeys(original)
    ensures updated == Others(original)
    ensures UniqueKeys(updated)
  {
    updated := [];
    for i := 0 to |original|
      invariant updated == Others(original[..i])
      invariant UniqueKeys(updated)
    {
      OthersStep(original, i);
      var entry := original[i];
      if !IsForwarded(entry.key) {
        updated := AddAll(updated, entry.key, entry.value);
      }
    }
    assert original[..|original|] == original;
  }

  /**
   * Lines 54-56 of `filter`: `add` the `toString` of each record under
   * `Forwarded`, in order; a `null` record throws.
   */
  method AddRecords(others: HeaderSet, forwardeds: seq<Option<Forwarded>>) returns (result: Result<HeaderSet, Fault>)
    requires UniqueKeys(others)
    requires CaseInsensitiveMaps.Get(others, ForwardedHeader).None?
    ensures result == if None in forwardeds then Failure(NullPointer)
                      else Success(others + Emitted(ToStrings(NonNull(forwardeds))))
  {
    var updated := others;
    for k := 0 to |forwardeds|
      invariant None !in forwardeds[..k]
      invariant updated == others + Emitted(ToStrings(NonNull(forwardeds[..k])))
    {
      var forwarded := forwardeds[k];
      if forwarded.None? {
        assert forwardeds[k] in forwardeds;
        return Failure(NullPointer);
      }
      var s := forwarded.value.ToString();
      RecordStep(forwardeds, k);
      AddForwarded(others, ToStrings(NonNull(forwardeds[..k])), s);
      updated := Add(updated, ForwardedHeader, s);
    }
    assert forwardeds[..|forwardeds|] == forwardeds;
    return Success(updated);
  }

  /** One more non-`null` result adds its record's `toString`. */
  lemma RecordStep(fs: seq<Option<Forwarded>>, k: nat)
    requires k < |fs| && fs[k].Some?
    ensures None !in fs[..k] ==> None !in fs[..k + 1]
    ensures ToStrings(NonNull(fs[..k + 1])) == ToStrings(NonNull(fs[..k])) + [fs[k].value.ToString()]
  {
    var pre := fs[..k + 1];
    assert pre[..k] == fs[..k] && pre[k] == fs[k];
    assert pre == fs[..k] + [fs[k]];
    assert NonNull(pre) == NonNull(fs[..k]) + [fs[k].value];
  }

  /** One step of the copying loop: header `i` is kept exactly when it is not `Forwarded`, and it is new. */
  lemma OthersStep(h: HeaderSet, i: nat)
    requires UniqueKeys(h) && i < |h|
    ensures Others(h[..i + 1]) == Others(h[..i]) + (if IsForwarded(h[i].key) then [] else [h[i]])
    ensures !IsForwarded(h[i].key) ==> Get(Others(h[..i]), h[i].key).None?
  {
    assert h[..i + 1][..i] == h[..i];
    OthersFrom(h[..i]);
    var o := Others(h[..i]);
    forall j | 0 <= j < |o| ensures !EqualsIgnoreCase(o[j].key, h[i].key) {
      assert o[j] in h[..i];
    }
  }

  /** The entries of `Others(h)` are entries of `h` not named `Forwarded`. */
  lemma {:induction false} OthersFrom(h: HeaderSet)
    ensures forall e :: e in Others(h) ==> e in h && !EqualsIgnoreCase(e.key, ForwardedHeader)
  {
    if h != [] {
      var n := |h| - 1;
      OthersFrom(h[..n]);
      var last := if IsForwarded(h[n].key) then [] else [h[n]];
      assert Others(h) == Others(h[..n]) + last;
      forall e | e in Others(h) ensures e in h && !EqualsIgnoreCase(e.key, ForwardedHeader) {
        if e in Others(h[..n]) {
          assert e in h[..n];
        } else {
          assert e == h[n];
        }
      }
    }
  }

  /** Dropping headers keeps the names unique. */
  lemma {:induction false} OthersUnique(h: HeaderSet)
    requires UniqueKeys(h)
    ensures UniqueKeys(Others(h))
  {
    if h != [] {
      var n := |h| - 1;
      OthersUnique(h[..n]);
      OthersFrom(h[..n]);
      var o := Others(h[..n]);
      forall j | 0 <= j < |o| ensures !EqualsIgnoreCase(o[j].key, h[n].key) {
        assert o[j] in h[..n];
      }
    }
  }

  /** `add` of a `Forwarded` value after the other headers extends the one `Forwarded` entry at the end. */
  lemma AddForwarded(others: HeaderSet, emitted: seq<string>, value: string)
    requires UniqueKeys(others)
    requires CaseInsensitiveMaps.Get(others, ForwardedHeader).None?
    ensures UniqueKeys(others + Emitted(emitted))
    ensures Add(others + Emitted(emitted), ForwardedHeader, value) == others + Emitted(emitted + [value])
  {
    if emitted == [] {
      AddFirstForwarded(others, value);
      assert emitted + [value] == [value];
    } else {
      AddMoreForwarded(others, emitted, value);
    }
  }

  /** The first `add` of a `Forwarded` value appends the header. */
  lemma AddFirstForwarded(others: HeaderSet, value: string)
    requires UniqueKeys(others)
    requires CaseInsensitiveMaps.Get(others, ForwardedHeader).None?
    ensures Add(others, ForwardedHeader, value) == others + [Entry(ForwardedHeader, [value])]
  {
    assert Find(others, ForwardedHeader) == |others|;
  }

  /** A later `add` of a `Forwarded` value extends the header at the end. */
  lemma AddMoreForwarded(others: HeaderSet, emitted: seq<string>, value: string)
    requires UniqueKeys(others) && emitted != []
    requires CaseInsensitiveMaps.Get(others, ForwardedHeader).None?
    ensures UniqueKeys(others + [Entry(ForwardedHeader, emitted)])
    ensures Add(others + [Entry(ForwardedHeader, emitted)], ForwardedHeader, value) ==
      others + [Entry(ForwardedHeader, emitted + [value])]
  {
    var h := others + [Entry(ForwardedHeader, emitted)];
    AppendFresh(others, Entry(ForwardedHeader, emitted));
    assert h[|others|].key == ForwardedHeader;
    assert Find(h, ForwardedHeader) == |others|;
    assert AddAll(h, ForwardedHeader, [value]) == h[|others| := Entry(ForwardedHeader, emitted + [value])];
    ReplaceLast(others, Entry(ForwardedHeader, emitted), Entry(ForwardedHeader, emitted + [value]));
  }

  /** Replacing the last entry of `others + [e]`. */
  lemma ReplaceLast(others: HeaderSet, e: Entry<seq<string>>, e': Entry<seq<string>>)
    ensures (others + [e])[|others| := e'] == others + [e']
  {
  }

  // ---------------------------------------------------------------------
  // What the filter does to the headers

  /** `Others` distributes over concatenation. */
  lemma {:induction false} OthersConcat(a: HeaderSet, b: HeaderSet)
    ensures Others(a + b) == Others(a) + Others(b)
  {
    if b != [] {
      var n := |b| - 1;
      assert (a + b)[..|a + b| - 1] == a + b[..n];
      assert (a + b)[|a + b| - 1] == b[n];
      OthersConcat(a, b[..n]);
    } else {
      assert a + b == a;
    }
  }

  /** Stripping `Forwarded` twice strips nothing more. */
  lemma {:induction false} OthersIdempotent(h: HeaderSet)
    ensures Others(Others(h)) == Others(h)
  {
    if h != [] {
      var n := |h| - 1;
      OthersIdempotent(h[..n]);
      var tail := if IsForwarded(h[n].key) then [] else [h[n]];
      OthersConcat(Others(h[..n]), tail);
      assert Others(tail) == tail by {
        assert tail != [] ==> tail[..0] == [];
      }
    }
  }

  /** A header set without a `Forwarded` entry is left as it is. */
  lemma {:induction false} OthersOfNone(h: HeaderSet)
    requires CaseInsensitiveMaps.Get(h, ForwardedHeader).None?
    ensures Others(h) == h
  {
    if h != [] {
      var n := |h| - 1;
      assert CaseInsensitiveMaps.Get(h[..n], ForwardedHeader).None? by {
        forall j | 0 <= j < n ensures !EqualsIgnoreCase(h[..n][j].key, ForwardedHeader) {
          assert h[..n][j] == h[j];
        }
      }
      OthersOfNone(h[..n]);
      assert h == h[..n] + [h[n]];
    }
  }

  /** Stripping `Forwarded` keeps every lookup of another name. */
  lemma {:induction false} OthersLookup(h: HeaderSet, key: string)
    requires !EqualsIgnoreCase(key, ForwardedHeader)
    ensures CaseInsensitiveMaps.Get(Others(h), key) == CaseInsensitiveMaps.Get(h, key)
    decreases |h|, 1
  {
    if h != [] {
      var n := |h| - 1;
      if IsForwarded(h[n].key) {
        OthersLookupDropped(h, key);
      } else {
        OthersLookupKept(h, key);
      }
    }
  }

  /** The step of `OthersLookup` when the last header is not `Forwarded`. */
  lemma OthersLookupKept(h: HeaderSet, key: string)
    requires h != [] && !IsForwarded(h[|h| - 1].key)
    requires !EqualsIgnoreCase(key, ForwardedHeader)
    ensures CaseInsensitiveMaps.Get(Others(h), key) == CaseInsensitiveMaps.Get(h, key)
    decreases |h|, 0
  {
    var n := |h| - 1;
    OthersLookup(h[..n], key);
    assert Others(h) == Others(h[..n]) + [h[n]];
    GetLast(h, key);
    GetAppend(Others(h[..n]), h[n], key);
  }

  /** The step of `OthersLookup` when the last header is `Forwarded` and `key` is another name. */
  lemma OthersLookupDropped(h: HeaderSet, key: string)
    requires h != [] && EqualsIgnoreCase(h[|h| - 1].key, ForwardedHeader) && IsForwarded(h[|h| - 1].key)
    requires !EqualsIgnoreCase(key, ForwardedHeader)
    ensures CaseInsensitiveMaps.Get(Others(h), key) == CaseInsensitiveMaps.Get(h, key)
    decreases |h|, 0
  {
    var n := |h| - 1;
    OthersLookup(h[..n], key);
    assert Others(h) == Others(h[..n]);
    assert !EqualsIgnoreCase(h[n].key, key);
    GetLast(h, key);
  }

  /**
   * The other headers followed by one `Forwarded` entry holding `values`:
   * names stay unique, every other header reads as before, `Forwarded`
   * reads as exactly `values`, and stripping it gives the other headers back.
   */
  lemma Rewritten(h: HeaderSet, values: seq<string>)
    requires UniqueKeys(h)
    ensures var r := Others(h) + Emitted(values);
      && UniqueKeys(r)
      && (forall k :: !EqualsIgnoreCase(k, ForwardedHeader) ==> CaseInsensitiveMaps.Get(r, k) == CaseInsensitiveMaps.Get(h, k))
      && ValuesOf(r, ForwardedHeader) == values
      && Others(r) == Others(h)
  {
    var o := Others(h);
    var r := o + Emitted(values);
    OthersUnique(h);
    OthersWithout(h);
    RewrittenOthers(h, values);
    forall k | !EqualsIgnoreCase(k, ForwardedHeader)
      ensures CaseInsensitiveMaps.Get(r, k) == CaseInsensitiveMaps.Get(h, k)
    {
      OthersLookup(h, k);
      if values != [] {
        GetAppend(o, Entry(ForwardedHeader, values), k);
        assert !EqualsIgnoreCase(ForwardedHeader, k);
      } else {
        assert r == o;
      }
    }
    if values != [] {
      AppendFresh(o, Entry(ForwardedHeader, values));
    }
  }

  /** No header left by `Others` is named `Forwarded`. */
  lemma OthersWithout(h: HeaderSet)
    ensures CaseInsensitiveMaps.Get(Others(h), ForwardedHeader).None?
  {
    var o := Others(h);
    OthersFrom(h);
    forall j | 0 <= j < |o| ensures !EqualsIgnoreCase(o[j].key, ForwardedHeader) {
      assert o[j] in o;
    }
  }

  /** Stripping `Forwarded` from the rewritten headers gives the other headers. */
  lemma RewrittenOthers(h: HeaderSet, values: seq<string>)
    ensures Others(Others(h) + Emitted(values)) == Others(h)
  {
    OthersIdempotent(h);
    OthersConcat(Others(h), Emitted(values));
    if values != [] {
      assert Emitted(values)[..0] == [];
    }
  }

  // ---------------------------------------------------------------------
  // The records of a header, and the two renderings of them

  /** What `parse(List)` returns for `raw`: one result per value. */
  function Parsed(raw: seq<string>): (fs: seq<Option<Forwarded>>)
    ensures |fs| == |raw|
  {
    seq(|raw|, i requires 0 <= i < |raw| => Parse(raw[i]))
  }

  /** The records among `fs`, in order, `null`s dropped. */
  function NonNull(fs: seq<Option<Forwarded>>): (rs: seq<Forwarded>)
    ensures |rs| <= |fs|
  {
    if fs == [] then []
    else
      var n := |fs| - 1;
      NonNull(fs[..n]) + if fs[n].Some? then [fs[n].value] else []
  }

  /** One more result keeps its record at the end when it is not `null`, and adds nothing when it is. */
  lemma NonNullStep(fs: seq<Option<Forwarded>>, o: Option<Forwarded>)
    ensures NonNull(fs + [o]) == NonNull(fs) + if o.Some? then [o.value] else []
  {
    assert (fs + [o])[..|fs|] == fs;
  }

  /** The records that the values of `Forwarded` parse to, in order, `null`s dropped: at most one per value. */
  function Records(raw: seq<string>): (rs: seq<Forwarded>)
    ensures |rs| <= |raw|
  {
    NonNull(Parsed(raw))
  }

  /** The `toString` of each record. */
  function ToStrings(rs: seq<Forwarded>): (s: seq<string>)
    ensures |s| == |rs|
  {
    seq(|rs|, i requires 0 <= i < |rs| => rs[i].ToString())
  }

  /** The `forwarded-pair` rendering of each record. */
  function SerializeAll(rs: seq<Forwarded>): (s: seq<string>)
    ensures |s| == |rs|
  {
    seq(|rs|, i requires 0 <= i < |rs| => Serialize(rs[i]))
  }

  /** Without `null`s nothing is dropped. */
  lemma {:induction false} NonNullAll(fs: seq<Option<Forwarded>>)
    requires forall j :: 0 <= j < |fs| ==> fs[j].Some?
    ensures |NonNull(fs)| == |fs|
    ensures forall j :: 0 <= j < |fs| ==> Some(NonNull(fs)[j]) == fs[j]
  {
    if fs != [] {
      var n := |fs| - 1;
      var init := fs[..n];
      NonNullAll(init);
      var rs := NonNull(init) + [fs[n].value];
      assert NonNull(fs) == rs;
      forall j | 0 <= j < |fs| ensures Some(rs[j]) == fs[j] {
        if j < n {
          assert rs[j] == NonNull(init)[j];
          assert init[j] == fs[j];
        }
      }
    }
  }

  /** Every record kept is one of the results. */
  lemma {:induction false} NonNullFrom(fs: seq<Option<Forwarded>>)
    ensures forall r :: r in NonNull(fs) ==> Some(r) in fs
  {
    if fs != [] {
      var n := |fs| - 1;
      NonNullFrom(fs[..n]);
      assert forall o :: o in fs[..n] ==> o in fs;
    }
  }

  /** When no value parses to `null`, there is one record per value. */
  lemma RecordsAllParsed(raw: seq<string>)
    requires forall j :: 0 <= j < |raw| ==> Parse(raw[j]).Some?
    ensures |Records(raw)| == |raw|
    ensures forall j :: 0 <= j < |raw| ==> Some(Records(raw)[j]) == Parse(raw[j])
  {
    NonNullAll(Parsed(raw));
  }

  /** Every record is well formed. */
  lemma RecordsWellFormed(raw: seq<string>)
    ensures forall i :: 0 <= i < |Records(raw)| ==> WellFormed(Records(raw)[i])
  {
    var rs := Records(raw);
    NonNullFrom(Parsed(raw));
    forall i | 0 <= i < |rs| ensures WellFormed(rs[i]) {
      assert Some(rs[i]) in Parsed(raw);
      var j :| 0 <= j < |raw| && Parsed(raw)[j] == Some(rs[i]);
    }
  }

  /** Parsing the `forwarded-pair` renderings of non-empty records gives the records back. */
  lemma RecordsOfSerialized(rs: seq<Forwarded>)
    requires forall i :: 0 <= i < |rs| ==> WellFormed(rs[i]) && rs[i].values != []
    ensures Records(SerializeAll(rs)) == rs
  {
    var fs := Parsed(SerializeAll(rs));
    forall i | 0 <= i < |rs| ensures fs[i] == Some(rs[i]) {
      SerializeThenParse(rs[i]);
    }
    NonNullAll(fs);
  }

  // ---------------------------------------------------------------------
  // The filter as written

  /** `filter` returns normally exactly when `Forwarded` is present and each of its values has content. */
  lemma FilteredIff(h: HeaderSet)
    ensures Filtered(h).Success? <==>
      CaseInsensitiveMaps.Get(h, ForwardedHeader).Some? &&
      forall j :: 0 <= j < |ValuesOf(h, ForwardedHeader)| ==> HasContent(ValuesOf(h, ForwardedHeader)[j])
  {
    var raw := ValuesOf(h, ForwardedHeader);
    var fs := Parsed(raw);
    forall j | 0 <= j < |raw| ensures fs[j].None? <==> !HasContent(raw[j]) {
    }
    if None in fs {
      var j :| 0 <= j < |fs| && fs[j] == None;
      assert !HasContent(raw[j]);
    }
  }

  /**
   * When `filter` returns normally, its headers are the other headers,
   * unchanged and in order, followed, when `Forwarded` has at least one
   * value, by one `Forwarded` header holding the `toString` of each record.
   */
  lemma FilteredOutput(h: HeaderSet)
    requires UniqueKeys(h) && Filtered(h).Success?
    ensures var out := Filtered(h).value;
      && out == Others(h) + Emitted(ToStrings(Records(ValuesOf(h, ForwardedHeader))))
      && |Records(ValuesOf(h, ForwardedHeader))| == |ValuesOf(h, ForwardedHeader)|
      && UniqueKeys(out)
      && (forall k :: !EqualsIgnoreCase(k, ForwardedHeader) ==> CaseInsensitiveMaps.Get(out, k) == CaseInsensitiveMaps.Get(h, k))
      && ValuesOf(out, ForwardedHeader) == ToStrings(Records(ValuesOf(h, ForwardedHeader)))
      && Others(out) == Others(h)
  {
    var raw := ValuesOf(h, ForwardedHeader);
    forall j | 0 <= j < |raw| ensures Parse(raw[j]).Some? {
      assert Parsed(raw)[j] in Parsed(raw);
    }
    RecordsAllParsed(raw);
    Rewritten(h, ToStrings(Records(raw)));
  }

  /** A request without `Forwarded` makes `filter` throw. */
  lemma MissingHeaderThrows()
    ensures Filtered([Entry("Host", ["example.com"])]) == Failure(NullPointer)
  {
  }

  /** A blank value of `Forwarded` makes `filter` throw. */
  lemma BlankValueThrows()
    ensures Filtered([Entry("Forwarded", ["for=a", " "])]) == Failure(NullPointer)
  {
    assert Parsed(["for=a", " "])[1] == Parse(" ");
  }

  // ---------------------------------------------------------------------
  // The filter as intended

  /**
   * `filter` as it is evidently meant to behave: a missing `Forwarded`
   * header counts as no records, `null` records are skipped, and each
   * record is rendered in `forwarded-pair` syntax.
   */
  function FilterCorrected(h: HeaderSet): (r: HeaderSet)
    ensures |r| <= |h| + 1
    ensures ValuesOf(h, ForwardedHeader) == [] ==> r == Others(h)
  {
    Others(h) + Emitted(SerializeAll(Records(ValuesOf(h, ForwardedHeader))))
  }

  /** The corrected filter keeps the other headers and emits one `forwarded-pair` value per non-`null` record. */
  lemma FilterCorrectedOutput(h: HeaderSet)
    requires UniqueKeys(h)
    ensures var out := FilterCorrected(h);
      && UniqueKeys(out)
      && (forall k :: !EqualsIgnoreCase(k, ForwardedHeader) ==> CaseInsensitiveMaps.Get(out, k) == CaseInsensitiveMaps.Get(h, k))
      && ValuesOf(out, ForwardedHeader) == SerializeAll(Records(ValuesOf(h, ForwardedHeader)))
      && Others(out) == Others(h)
  {
    Rewritten(h, SerializeAll(Records(ValuesOf(h, ForwardedHeader))));
  }

  /** Without a `Forwarded` header the corrected filter changes nothing. */
  lemma FilterCorrectedWithoutHeader(h: HeaderSet)
    requires CaseInsensitiveMaps.Get(h, ForwardedHeader).None?
    ensures FilterCorrected(h) == h
  {
    OthersOfNone(h);
  }

  /** The corrected filter agrees with `filter` wherever `filter` returns, but for the rendering of each record. */
  lemma FilterCorrectedAgrees(h: HeaderSet)
    requires UniqueKeys(h) && Filtered(h).Success?
    ensures Others(Filtered(h).value) == Others(FilterCorrected(h))
    ensures |ValuesOf(Filtered(h).value, ForwardedHeader)| == |ValuesOf(FilterCorrected(h), ForwardedHeader)|
  {
    FilteredOutput(h);
    FilterCorrectedOutput(h);
  }

  /** Once every record has a pair, running the corrected filter again changes nothing. */
  lemma FilterCorrectedIdempotent(h: HeaderSet)
    requires UniqueKeys(h)
    requires forall i :: 0 <= i < |Records(ValuesOf(h, ForwardedHeader))| ==> Records(ValuesOf(h, ForwardedHeader))[i].values != []
    ensures FilterCorrected(FilterCorrected(h)) == FilterCorrected(h)
  {
    var rs := Records(ValuesOf(h, ForwardedHeader));
    FilterCorrectedOutput(h);
    RecordsWellFormed(ValuesOf(h, ForwardedHeader));
    RecordsOfSerialized(rs);
  }
}
