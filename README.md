# Forwarded header filter and header-filter combinator, in Dafny

This project models two pieces of the header handling of Spring Cloud
Gateway:

- `ForwardedHeadersFilter`. It copies every request header except
  `Forwarded` into a new header set. It then parses each `Forwarded` value
  into a record of pairs and adds each record's `toString` back under
  `Forwarded`. The model covers:
  - `filter`, `parse(List)`, `parse(String)` and `splitIntoCaseInsensitiveMap`;
  - the record class `Forwarded` (`get`, `getValues`, `toString`);
  - `getOrder`.
- `HttpHeadersFilter.filter(List, ServerHttpRequest)`. It runs a list of
  header filters on a request.

The library code these rely on is modelled too:
- the JDK's `String.trim`, `toLowerCase` and `equalsIgnoreCase`;
- Spring's `StringUtils.tokenizeToStringArray` and `StringUtils.split`;
- `LinkedCaseInsensitiveMap` with `put`, `get` and `toString`;
- `HttpHeaders` with `get`, `addAll` and `add`.

Files:

- `wrappers.dfy` (`Wrappers`): `Option` and `Result`.
- `text.dfy` (`Text`): ASCII case folding, trimming, splitting at a
  character, `tokenizeToStringArray` and `split`.
- `case_insensitive_map.dfy` (`CaseInsensitiveMaps`): `LinkedCaseInsensitiveMap`.
  - It is an insertion-ordered sequence of entries.
  - No two keys in it are equal ignoring case.
  - `put`, `get` and `AbstractMap.toString` are modelled.
- `headers.dfy` (`Headers`): `HttpHeaders`.
  - It is a case-insensitive map from a name to its list of values.
  - `addAll` and `add` are modelled.
- `forwarded.dfy` (`ForwardedHeaders`) covers the filter, in four parts:
  - its parser and the `Forwarded` record;
  - the filter as written;
  - lemmas about both;
  - the corrected filter.
- `filter_chain.dfy` (`FilterChain`) covers the combinator, as written and
  as corrected.

Where the code changes state step by step, the model does so too:
- `splitIntoCaseInsensitiveMap`, `parse(List)`, `filter` and the combinator
  are methods with loops;
- each method is proved against a function that says what it computes;
- the properties are then proved about those functions.

The header sets, maps and lists that these methods fill are fresh locals of
the method. Nothing else sees them, so they are values that the loops
reassign.

`filter` dereferences `null` in two cases: when the request has no
`Forwarded` header, and when a value of it parses to `null`. Both are
modelled as a `Failure(NullPointer)` result rather than excluded by a
precondition. `ForwardedHeaders.FilteredIff` gives the exact condition under
which `filter` returns normally.

In three places the source itself shows that the code does not do what
was meant. The model follows the code:
- `HttpHeadersFilter.filter` assigns each filter's output to `filtered`
  (HttpHeadersFilter.java:17) but hands every filter the original request,
  so all outputs but the last are computed and thrown away. The variable
  only makes sense if each filter was meant to work on the previous one's
  output.
- `filter` re-emits each record with `Forwarded.toString`
  (ForwardedHeadersFilter.java:55), a debug rendering
  `Forwarded{values={k1=v1, k2=v2}}`. The class also holds a serializer,
  `appendList` (lines 123-131), that writes `k=v` pairs, and the header's
  syntax in section 4 of RFC 7239 is `Forwarded = 1#forwarded-element`
  with `forwarded-element = [ forwarded-pair ] *( ";" [ forwarded-pair ] )`.
- `filter` reads the header without checking it is there, under the
  comment `TODO: read Forwarded if exists` (line 51). A missing header and
  a value that parses to `null` both end in a `NullPointerException`.

The intended behaviour is modelled beside the code's, under "## Findings".

## Model

| member | source | states |
|---|---|---|
| `Text.Lower` | spring-cloud-gateway-core/src/main/java/org/springframework/cloud/gateway/filter/ForwardedHeadersFilter.java:48 | `toLowerCase` keeps the length, turns each upper-case letter into its lower-case counterpart (32 code points on) and leaves every other character unchanged. |
| `Text.EqualsIgnoreCase` | spring-cloud-gateway-core/src/main/java/org/springframework/cloud/gateway/filter/ForwardedHeadersFilter.java:48 | `equalsIgnoreCase` is `toLowerCase` on both sides compared. It holds of equal strings, and only of strings of one length. |
| `Text.EqualsIgnoreCaseChars` | spring-cloud-gateway-core/src/main/java/org/springframework/cloud/gateway/filter/ForwardedHeadersFilter.java:48 | `equalsIgnoreCase` holds exactly when the strings have one length and, at each position, the characters are equal or one is the upper-case form of the other. |
| `Text.LowerThenIgnoreCase` | spring-cloud-gateway-core/src/main/java/org/springframework/cloud/gateway/filter/ForwardedHeadersFilter.java:48 | Lower-casing a name before `equalsIgnoreCase` does not change the comparison. |
| `Text.Trim` | spring-cloud-gateway-core/src/main/java/org/springframework/cloud/gateway/filter/ForwardedHeadersFilter.java:93 | `trim` leaves no character ≤ U+0020 at either end. Its result is empty exactly when the input is blank. |
| `Text.TrimRemovesOnlyEnds` | spring-cloud-gateway-core/src/main/java/org/springframework/cloud/gateway/filter/ForwardedHeadersFilter.java:93 | The input is the result with only blank characters before and after it: `trim` removes nothing else. |
| `Text.TrimmedIsFixpoint` | spring-cloud-gateway-core/src/main/java/org/springframework/cloud/gateway/filter/ForwardedHeadersFilter.java:93 | `trim` leaves an already trimmed string unchanged. |
| `Text.FirstIndex` | spring-cloud-gateway-core/src/main/java/org/springframework/cloud/gateway/filter/ForwardedHeadersFilter.java:89 | The result is the position of the first `=`, or the length when there is none. No earlier character is `=`. |
| `Text.SplitJoin` | spring-cloud-gateway-core/src/main/java/org/springframework/cloud/gateway/filter/ForwardedHeadersFilter.java:71 | The pieces between `;`s hold no `;`. Joined back with `;`, they give the original string. |
| `Text.JoinSplit` | spring-cloud-gateway-core/src/main/java/org/springframework/cloud/gateway/filter/ForwardedHeadersFilter.java:71 | Pieces free of `;`, joined with `;` and split again, come back unchanged. |
| `Text.Split` | spring-cloud-gateway-core/src/main/java/org/springframework/cloud/gateway/filter/ForwardedHeadersFilter.java:71 | `tokenizeToStringArray` first cuts the value at every delimiter: there is always at least one piece, and no piece holds the delimiter. `Text.JoinSplit` shows that splitting a join on the delimiter gives the pieces back. |
| `Text.Join` | spring-cloud-gateway-core/src/main/java/org/springframework/cloud/gateway/filter/ForwardedHeadersFilter.java:119 | The map rendering puts a separator between two entries: joining no pieces gives the empty string, and a join starts with its first piece. |
| `Text.TrimmedNonEmpty` | spring-cloud-gateway-core/src/main/java/org/springframework/cloud/gateway/filter/ForwardedHeadersFilter.java:71 | `tokenizeToStringArray` trims every piece and drops the empty ones: there are never more tokens than pieces, and each token is non-empty and trimmed. |
| `Text.Tokenize` | spring-cloud-gateway-core/src/main/java/org/springframework/cloud/gateway/filter/ForwardedHeadersFilter.java:71 | Every token of `tokenizeToStringArray` is non-empty, trimmed and free of `;`. |
| `Text.TokenizeEmpty` | spring-cloud-gateway-core/src/main/java/org/springframework/cloud/gateway/filter/ForwardedHeadersFilter.java:71 | The empty string has no tokens. |
| `Text.TokenizeJoined` | spring-cloud-gateway-core/src/main/java/org/springframework/cloud/gateway/filter/ForwardedHeadersFilter.java:71 | Tokenizing a join with `d` and a space of non-empty, trimmed, `d`-free pieces gives the pieces back, in order. |
| `Text.TokenizeEmptyIff` | spring-cloud-gateway-core/src/main/java/org/springframework/cloud/gateway/filter/ForwardedHeadersFilter.java:71 | There are no tokens exactly when every character is `;` or blank. |
| `Text.TokenizeNoDelimiter` | spring-cloud-gateway-core/src/main/java/org/springframework/cloud/gateway/filter/ForwardedHeadersFilter.java:71 | A value without the delimiter is a single token, its trimmed form, unless it is blank, when it has no tokens. |
| `Text.TrimmedNonEmptyAll` | spring-cloud-gateway-core/src/main/java/org/springframework/cloud/gateway/filter/ForwardedHeadersFilter.java:71 | When every piece trims to a non-empty token, all the tokens are kept, in order. |
| `Text.JoinNonEmpty` | spring-cloud-gateway-core/src/main/java/org/springframework/cloud/gateway/filter/ForwardedHeadersFilter.java:119 | A join whose first piece is non-empty is non-empty. |
| `Text.SplitAtFirst` | spring-cloud-gateway-core/src/main/java/org/springframework/cloud/gateway/filter/ForwardedHeadersFilter.java:89 | `split` returns non-`null` exactly when the string holds `=`. It cuts at the first `=`: before, `=`, after give the string back, and before holds no `=`. |
| `Text.SplitAtFirstOf` | spring-cloud-gateway-core/src/main/java/org/springframework/cloud/gateway/filter/ForwardedHeadersFilter.java:89 | `split` undoes `before + "=" + after` whenever `before` holds no `=`. |
| `CaseInsensitiveMaps.Find` | spring-cloud-gateway-core/src/main/java/org/springframework/cloud/gateway/filter/ForwardedHeadersFilter.java:93 | The result is the first entry whose key equals the given key ignoring case, or the size when there is none. |
| `CaseInsensitiveMaps.Get` | spring-cloud-gateway-core/src/main/java/org/springframework/cloud/gateway/filter/ForwardedHeadersFilter.java:108-110 | `get` gives `null` exactly when no key matches ignoring case. Otherwise it gives the value of the matching entry. |
| `CaseInsensitiveMaps.GetIgnoresCase` | spring-cloud-gateway-core/src/main/java/org/springframework/cloud/gateway/filter/ForwardedHeadersFilter.java:108-110 | Keys that differ only in case look up the same value. |
| `CaseInsensitiveMaps.GetAppend` | spring-cloud-gateway-core/src/main/java/org/springframework/cloud/gateway/filter/ForwardedHeadersFilter.java:47-49 | A lookup in a map with one more entry at the end finds the earlier entry first. |
| `CaseInsensitiveMaps.Put` | spring-cloud-gateway-core/src/main/java/org/springframework/cloud/gateway/filter/ForwardedHeadersFilter.java:93 | After `put`, keys are still unique. The key maps to the new value and every other lookup is unchanged. The size grows exactly when the key was absent. No entry appears but the old ones and the new one. When an entry is spelled exactly `key`, its value is replaced where it stands. Otherwise any entry matching ignoring case is removed and `key` with its value goes last. The other entries keep their order. |
| `CaseInsensitiveMaps.PutOverOnly` | spring-cloud-gateway-core/src/main/java/org/springframework/cloud/gateway/filter/ForwardedHeadersFilter.java:93 | `put` into a one-entry map of a key equal to its key ignoring case leaves only the new entry, spelled as given. |
| `CaseInsensitiveMaps.EntryStrings` | spring-cloud-gateway-core/src/main/java/org/springframework/cloud/gateway/filter/ForwardedHeadersFilter.java:117-121 | There is one `key=value` string per entry of the map. |
| `CaseInsensitiveMaps.MapToString` | spring-cloud-gateway-core/src/main/java/org/springframework/cloud/gateway/filter/ForwardedHeadersFilter.java:119 | The map renders inside braces, and as `{}` exactly when it is empty. `MapToStringLists` gives the pairs inside. |
| `CaseInsensitiveMaps.MapToStringLists` | spring-cloud-gateway-core/src/main/java/org/springframework/cloud/gateway/filter/ForwardedHeadersFilter.java:119 | When keys and values are trimmed and hold no `,`, the text inside the braces, cut at `,` and trimmed, is each entry's `k=v`, in iteration order. |
| `Headers.ValuesOf` | spring-cloud-gateway-core/src/main/java/org/springframework/cloud/gateway/filter/ForwardedHeadersFilter.java:52 | The values of the header whose name matches ignoring case, or none when no name matches. |
| `Headers.AddAll` | spring-cloud-gateway-core/src/main/java/org/springframework/cloud/gateway/filter/ForwardedHeadersFilter.java:49 | Header names stay unique. The named header's values become its old values followed by the new ones. Every other header reads as before. Every existing header keeps its name and its place, and any that does not match `name` is unchanged. The result has the same length, or one more header at the end, spelled `name` and holding exactly the new values. |
| `Headers.Add` | spring-cloud-gateway-core/src/main/java/org/springframework/cloud/gateway/filter/ForwardedHeadersFilter.java:55 | Header names stay unique. The named header gains the value at the end of its list. Every other header reads as before. Every existing header keeps its name and place, and any that does not match `name` is unchanged. The result has the same length, or one more header at the end, spelled `name` and holding only the value. |
| `ForwardedHeaders.Forwarded.ToString` | spring-cloud-gateway-core/src/main/java/org/springframework/cloud/gateway/filter/ForwardedHeadersFilter.java:117-121 | A record's string starts with `Forwarded{values={` and ends with `}}`. `ToStringLists` gives the pairs in between. |
| `ForwardedHeaders.ToStringLists` | spring-cloud-gateway-core/src/main/java/org/springframework/cloud/gateway/filter/ForwardedHeadersFilter.java:117-121 | For a well-formed record whose keys and values hold no `,`, the text between `Forwarded{values={` and `}}`, cut at `,` and trimmed, is each pair's `k=v` in map order, and the map built from those strings is the record. |
| `ForwardedHeaders.ToStringInner` | spring-cloud-gateway-core/src/main/java/org/springframework/cloud/gateway/filter/ForwardedHeadersFilter.java:117-121 | The text between `Forwarded{values={` and `}}` is the text inside the braces of the map's string. |
| `ForwardedHeaders.Forwarded.Get` | spring-cloud-gateway-core/src/main/java/org/springframework/cloud/gateway/filter/ForwardedHeadersFilter.java:108-110 | `get` gives `null` exactly when no key matches ignoring case, and otherwise the matching pair's value. |
| `ForwardedHeaders.GetFindsOtherCasing` | spring-cloud-gateway-core/src/main/java/org/springframework/cloud/gateway/filter/ForwardedHeadersFilter.java:108-110 | `get("fOR")` on the pair `For=192.0.2.60` finds `192.0.2.60`, and `get("by")` finds nothing. |
| `ForwardedHeaders.GetOrder` | spring-cloud-gateway-core/src/main/java/org/springframework/cloud/gateway/filter/ForwardedHeadersFilter.java:38-40 | `getOrder` returns 0, strictly between highest and lowest precedence. |
| `ForwardedHeaders.GetIgnoresCase` | spring-cloud-gateway-core/src/main/java/org/springframework/cloud/gateway/filter/ForwardedHeadersFilter.java:108-110 | `Forwarded.get` finds a key whatever its casing. |
| `ForwardedHeaders.PairsToMap` | spring-cloud-gateway-core/src/main/java/org/springframework/cloud/gateway/filter/ForwardedHeadersFilter.java:87-95 | The map built from the tokens has keys that are unique ignoring case. |
| `ForwardedHeaders.SplitIntoCaseInsensitiveMap` | spring-cloud-gateway-core/src/main/java/org/springframework/cloud/gateway/filter/ForwardedHeadersFilter.java:81-96 | The loop returns `null` when there are no tokens. Otherwise it returns the map of the tokens: each is cut at its first `=` with key and value trimmed, `put` in order, and tokens without `=` are skipped. |
| `ForwardedHeaders.ParseValue` | spring-cloud-gateway-core/src/main/java/org/springframework/cloud/gateway/filter/ForwardedHeadersFilter.java:70-79 | `parse(String)` gives the record of the value's tokens. It gives `null` exactly when tokenizing leaves no token. |
| `ForwardedHeaders.ParseList` | spring-cloud-gateway-core/src/main/java/org/springframework/cloud/gateway/filter/ForwardedHeadersFilter.java:61-68 | `parse(List)` returns one entry per value, in order. Entry `i` is `parse(values[i])`, `null`s kept in place. |
| `ForwardedHeaders.Parse` | spring-cloud-gateway-core/src/main/java/org/springframework/cloud/gateway/filter/ForwardedHeadersFilter.java:70-79 | `parse` gives `null` exactly when the value holds nothing but `;` and blanks. Every record it returns has unique keys, trimmed `;`-free keys and values, and `=`-free keys. |
| `ForwardedHeaders.BlankValuesParseToNull` | spring-cloud-gateway-core/src/main/java/org/springframework/cloud/gateway/filter/ForwardedHeadersFilter.java:83-85 | `""`, `"  "`, `";;"` and `" ; \t;"` each parse to `null`. |
| `ForwardedHeaders.NoContent` | spring-cloud-gateway-core/src/main/java/org/springframework/cloud/gateway/filter/ForwardedHeadersFilter.java:70-79 | A value made only of `;`, spaces and tabs has no content. |
| `ForwardedHeaders.LookupFindsNothing` | spring-cloud-gateway-core/src/main/java/org/springframework/cloud/gateway/filter/ForwardedHeadersFilter.java:87-95 | A key is missing from the record exactly when no token with `=` has that key, ignoring case. |
| `ForwardedHeaders.LookupFindsLastDefinition` | spring-cloud-gateway-core/src/main/java/org/springframework/cloud/gateway/filter/ForwardedHeadersFilter.java:87-95 | Looking a key up finds the trimmed value of the last token defining it in any casing. A later duplicate overwrites an earlier one. |
| `ForwardedHeaders.LookupStep` | spring-cloud-gateway-core/src/main/java/org/springframework/cloud/gateway/filter/ForwardedHeadersFilter.java:88-94 | One more token either defines the key, and its value is found, or leaves the lookup as it was. |
| `ForwardedHeaders.PairsToMapLast` | spring-cloud-gateway-core/src/main/java/org/springframework/cloud/gateway/filter/ForwardedHeadersFilter.java:88-94 | A last token that holds a `=` is `put` into the map of the tokens before it. |
| `ForwardedHeaders.NoneDefinesStep` | spring-cloud-gateway-core/src/main/java/org/springframework/cloud/gateway/filter/ForwardedHeadersFilter.java:87-95 | No token defines a key exactly when the last one does not and none before it does. |
| `ForwardedHeaders.PairsToMapWellFormed` | spring-cloud-gateway-core/src/main/java/org/springframework/cloud/gateway/filter/ForwardedHeadersFilter.java:87-95 | From `;`-free tokens, every pair has trimmed, `;`-free key and value. The key is also `=`-free. Keys are unique. |
| `ForwardedHeaders.PairOf` | spring-cloud-gateway-core/src/main/java/org/springframework/cloud/gateway/filter/ForwardedHeadersFilter.java:89-93 | `split(element, "=")` gives `null`, and the element is skipped, exactly when it holds no `=`. Otherwise the key and value put in the map are trimmed, and the key holds no `=`. |
| `ForwardedHeaders.PairOfWellFormed` | spring-cloud-gateway-core/src/main/java/org/springframework/cloud/gateway/filter/ForwardedHeadersFilter.java:89-93 | A `;`-free token with a `=` gives a pair whose key and value are trimmed and `;`-free, and whose key is `=`-free. |
| `ForwardedHeaders.PutWellFormed` | spring-cloud-gateway-core/src/main/java/org/springframework/cloud/gateway/filter/ForwardedHeadersFilter.java:93 | `put` of a well-formed pair keeps every entry well formed. |
| `ForwardedHeaders.TwoPairs` | spring-cloud-gateway-core/src/main/java/org/springframework/cloud/gateway/filter/ForwardedHeadersFilter.java:88-94 | `k1=v1;k2=v2` parses to the first pair followed by a `put` of the second. |
| `ForwardedHeaders.TwoPairsTokens` | spring-cloud-gateway-core/src/main/java/org/springframework/cloud/gateway/filter/ForwardedHeadersFilter.java:71 | Two well-formed pairs joined by `;` tokenize to exactly those two pairs. |
| `ForwardedHeaders.OnePairMap` | spring-cloud-gateway-core/src/main/java/org/springframework/cloud/gateway/filter/ForwardedHeadersFilter.java:87-95 | The map of a single well-formed `k=v` token holds that one pair. |
| `ForwardedHeaders.TwoPairsMap` | spring-cloud-gateway-core/src/main/java/org/springframework/cloud/gateway/filter/ForwardedHeadersFilter.java:87-95 | The map of two well-formed tokens is the first pair followed by a `put` of the second. |
| `ForwardedHeaders.DuplicateKeyOverwrites` | spring-cloud-gateway-core/src/main/java/org/springframework/cloud/gateway/filter/ForwardedHeadersFilter.java:93 | When the second key equals the first ignoring case, only the second pair remains, with the second key's spelling (`for=a;For=b` gives `For`=`b`). |
| `ForwardedHeaders.SinglePair` | spring-cloud-gateway-core/src/main/java/org/springframework/cloud/gateway/filter/ForwardedHeadersFilter.java:88-94 | A single well-formed `key=value` parses to that one pair. |
| `ForwardedHeaders.FirstEqualsCuts` | spring-cloud-gateway-core/src/main/java/org/springframework/cloud/gateway/filter/ForwardedHeadersFilter.java:89 | `a=b=c` gives key `a` and value `b=c`. |
| `ForwardedHeaders.CommaIsNotASeparator` | spring-cloud-gateway-core/src/main/java/org/springframework/cloud/gateway/filter/ForwardedHeadersFilter.java:71 | `for=a, for=b` gives the one pair `for` = `a, for=b`. |
| `ForwardedHeaders.TrailingSemicolon` | spring-cloud-gateway-core/src/main/java/org/springframework/cloud/gateway/filter/ForwardedHeadersFilter.java:71 | `for=1.2.3.4;` gives just `for` = `1.2.3.4`. |
| `ForwardedHeaders.TrailingSemicolonIgnored` | spring-cloud-gateway-core/src/main/java/org/springframework/cloud/gateway/filter/ForwardedHeadersFilter.java:71 | A trailing `;` after any well-formed pair leaves the record of that pair alone. |
| `ForwardedHeaders.PairsWithoutEquals` | spring-cloud-gateway-core/src/main/java/org/springframework/cloud/gateway/filter/ForwardedHeadersFilter.java:89-92 | Tokens without `=` are all skipped. |
| `ForwardedHeaders.ValueWithoutEquals` | spring-cloud-gateway-core/src/main/java/org/springframework/cloud/gateway/filter/ForwardedHeadersFilter.java:87-95 | A value with content but no `=` gives an empty, non-`null` record. A blank one gives `null`. |
| `ForwardedHeaders.EmittedShape` | spring-cloud-gateway-core/src/main/java/org/springframework/cloud/gateway/filter/ForwardedHeadersFilter.java:117-121 | A record's `toString` is one pair: key `Forwarded{values`, then `=`, then the rest. |
| `ForwardedHeaders.ReparseEmitted` | spring-cloud-gateway-core/src/main/java/org/springframework/cloud/gateway/filter/ForwardedHeadersFilter.java:117-121 | Parsing a record's `toString` gives the single pair `Forwarded{values` = `{...}}`, never the record itself. |
| `ForwardedHeaders.IsForwarded` | spring-cloud-gateway-core/src/main/java/org/springframework/cloud/gateway/filter/ForwardedHeadersFilter.java:48 | Line 48 drops a header whose name, lower-cased, equals `Forwarded` ignoring case. That holds exactly when the name itself equals `Forwarded` ignoring case. |
| `ForwardedHeaders.ForwardedSpellings` | spring-cloud-gateway-core/src/main/java/org/springframework/cloud/gateway/filter/ForwardedHeadersFilter.java:48 | `forwarded` and `FORWARDED` are stripped like `Forwarded`, and `X-Forwarded` is kept. |
| `ForwardedHeaders.Filter` | spring-cloud-gateway-core/src/main/java/org/springframework/cloud/gateway/filter/ForwardedHeadersFilter.java:43-59 | The two loops of `filter` compute `Filtered`: the other headers, then the `toString` of each record, or `NullPointer`. |
| `ForwardedHeaders.Others` | spring-cloud-gateway-core/src/main/java/org/springframework/cloud/gateway/filter/ForwardedHeadersFilter.java:47-49 | The headers that line 48 lets through, never more than the input has. `OthersFrom`, `OthersUnique` and `OthersLookup` say which ones, and that they keep their values. |
| `ForwardedHeaders.Emitted` | spring-cloud-gateway-core/src/main/java/org/springframework/cloud/gateway/filter/ForwardedHeadersFilter.java:54-56 | The header the loop adds: at most one, present exactly when there are values, named `Forwarded` and holding exactly those values. |
| `ForwardedHeaders.OthersStep` | spring-cloud-gateway-core/src/main/java/org/springframework/cloud/gateway/filter/ForwardedHeadersFilter.java:47-49 | Each header is copied exactly when it is not `Forwarded`, and its name is not yet in the copy. |
| `ForwardedHeaders.CopyOthers` | spring-cloud-gateway-core/src/main/java/org/springframework/cloud/gateway/filter/ForwardedHeadersFilter.java:44-49 | The first loop of `filter` leaves exactly the headers not named `Forwarded`, in order. Their names stay unique, as the input's are. |
| `ForwardedHeaders.AddRecords` | spring-cloud-gateway-core/src/main/java/org/springframework/cloud/gateway/filter/ForwardedHeadersFilter.java:54-56 | The second loop of `filter` throws `NullPointer` exactly when some record is `null`. Otherwise, when there is at least one record, it appends one `Forwarded` header holding each record's `toString`, in order. |
| `ForwardedHeaders.RecordStep` | spring-cloud-gateway-core/src/main/java/org/springframework/cloud/gateway/filter/ForwardedHeadersFilter.java:54-56 | One more non-`null` record adds exactly its `toString` at the end of the emitted values. |
| `ForwardedHeaders.OthersFrom` | spring-cloud-gateway-core/src/main/java/org/springframework/cloud/gateway/filter/ForwardedHeadersFilter.java:47-49 | Every copied header comes from the input and is not named `Forwarded`. |
| `ForwardedHeaders.OthersUnique` | spring-cloud-gateway-core/src/main/java/org/springframework/cloud/gateway/filter/ForwardedHeadersFilter.java:47-49 | The copied header names are unique. |
| `ForwardedHeaders.AddForwarded` | spring-cloud-gateway-core/src/main/java/org/springframework/cloud/gateway/filter/ForwardedHeadersFilter.java:54-56 | Each `add` of a record's string extends the one `Forwarded` header at the end of the output. |
| `ForwardedHeaders.OthersConcat` | spring-cloud-gateway-core/src/main/java/org/springframework/cloud/gateway/filter/ForwardedHeadersFilter.java:47-49 | Copying distributes over concatenation of header lists. |
| `ForwardedHeaders.OthersIdempotent` | spring-cloud-gateway-core/src/main/java/org/springframework/cloud/gateway/filter/ForwardedHeadersFilter.java:47-49 | Stripping `Forwarded` twice is stripping it once. |
| `ForwardedHeaders.OthersOfNone` | spring-cloud-gateway-core/src/main/java/org/springframework/cloud/gateway/filter/ForwardedHeadersFilter.java:47-49 | Without a `Forwarded` header, the copy is the input itself. |
| `ForwardedHeaders.OthersLookup` | spring-cloud-gateway-core/src/main/java/org/springframework/cloud/gateway/filter/ForwardedHeadersFilter.java:47-49 | Every header not named `Forwarded` reads the same in the copy as in the input. |
| `ForwardedHeaders.OthersWithout` | spring-cloud-gateway-core/src/main/java/org/springframework/cloud/gateway/filter/ForwardedHeadersFilter.java:48 | The copy has no `Forwarded` header. |
| `ForwardedHeaders.RewrittenOthers` | spring-cloud-gateway-core/src/main/java/org/springframework/cloud/gateway/filter/ForwardedHeadersFilter.java:46-56 | Stripping `Forwarded` from the output gives the stripped input. |
| `ForwardedHeaders.Rewritten` | spring-cloud-gateway-core/src/main/java/org/springframework/cloud/gateway/filter/ForwardedHeadersFilter.java:46-56 | In the output, names are unique and every other header reads as in the input. `Forwarded` reads as exactly the added values, and the other headers keep their relative order. |
| `ForwardedHeaders.Parsed` | spring-cloud-gateway-core/src/main/java/org/springframework/cloud/gateway/filter/ForwardedHeadersFilter.java:61-68 | `parse(List)` gives one result per value. `ParseList` shows the loop computes it value by value. |
| `ForwardedHeaders.Records` | spring-cloud-gateway-core/src/main/java/org/springframework/cloud/gateway/filter/ForwardedHeadersFilter.java:52-55 | The records the loop of lines 54-55 walks over: at most one per value of `Forwarded`. |
| `ForwardedHeaders.ToStrings` | spring-cloud-gateway-core/src/main/java/org/springframework/cloud/gateway/filter/ForwardedHeadersFilter.java:55 | Line 55 adds one `toString` per record, so there are as many values as records. |
| `ForwardedHeaders.NonNull` | spring-cloud-gateway-core/src/main/java/org/springframework/cloud/gateway/filter/ForwardedHeadersFilter.java:54 | Dropping `null` records never lengthens the list. |
| `ForwardedHeaders.NonNullAll` | spring-cloud-gateway-core/src/main/java/org/springframework/cloud/gateway/filter/ForwardedHeadersFilter.java:54 | Without `null`s, every record is kept, in order. |
| `ForwardedHeaders.NonNullFrom` | spring-cloud-gateway-core/src/main/java/org/springframework/cloud/gateway/filter/ForwardedHeadersFilter.java:54 | Every kept record is one of the parse results. |
| `ForwardedHeaders.NonNullStep` | spring-cloud-gateway-core/src/main/java/org/springframework/cloud/gateway/filter/ForwardedHeadersFilter.java:54 | One more parse result adds its record at the end when it is not `null`, and adds nothing when it is. |
| `ForwardedHeaders.RecordsAllParsed` | spring-cloud-gateway-core/src/main/java/org/springframework/cloud/gateway/filter/ForwardedHeadersFilter.java:61-68 | When no value parses to `null`, there is one record per value, in order. |
| `ForwardedHeaders.RecordsWellFormed` | spring-cloud-gateway-core/src/main/java/org/springframework/cloud/gateway/filter/ForwardedHeadersFilter.java:61-68 | Every parsed record is well formed. |
| `ForwardedHeaders.Filtered` | spring-cloud-gateway-core/src/main/java/org/springframework/cloud/gateway/filter/ForwardedHeadersFilter.java:43-59 | `filter` throws `NullPointerException` when `Forwarded` is absent, because line 52 passes `null` to `parse(List)`. When it returns, it has added at most one header to the other headers. |
| `ForwardedHeaders.FilteredIff` | spring-cloud-gateway-core/src/main/java/org/springframework/cloud/gateway/filter/ForwardedHeadersFilter.java:52-55 | `filter` returns normally exactly when `Forwarded` is present and each of its values has a character other than `;` and blanks. |
| `ForwardedHeaders.FilteredOutput` | spring-cloud-gateway-core/src/main/java/org/springframework/cloud/gateway/filter/ForwardedHeadersFilter.java:43-59 | When it returns, the output is the other headers, unchanged and in order, then, when there is at least one value, one `Forwarded` header. That header holds the `toString` of each record, one per input value, in order. Names are unique. |
| `ForwardedHeaders.MissingHeaderThrows` | spring-cloud-gateway-core/src/main/java/org/springframework/cloud/gateway/filter/ForwardedHeadersFilter.java:52 | A request with only a `Host` header makes `filter` throw. |
| `ForwardedHeaders.BlankValueThrows` | spring-cloud-gateway-core/src/main/java/org/springframework/cloud/gateway/filter/ForwardedHeadersFilter.java:55 | A `Forwarded` header with a blank value makes `filter` throw. |
| `ForwardedHeaders.PairOfEntryString` | spring-cloud-gateway-core/src/main/java/org/springframework/cloud/gateway/filter/ForwardedHeadersFilter.java:89-93 | The token `k=v` of a well-formed pair reads back as that pair. |
| `ForwardedHeaders.EntryStringFacts` | spring-cloud-gateway-core/src/main/java/org/springframework/cloud/gateway/filter/ForwardedHeadersFilter.java:117-121 | The `k=v` string of a well-formed pair is non-empty, trimmed and free of `;`. |
| `ForwardedHeaders.PairsToMapOfEntries` | spring-cloud-gateway-core/src/main/java/org/springframework/cloud/gateway/filter/ForwardedHeadersFilter.java:87-95 | Building the map from the `k=v` strings of a well-formed map gives the map back. |
| `ForwardedHeaders.Serialize` | spring-cloud-gateway-core/src/main/java/org/springframework/cloud/gateway/filter/ForwardedHeadersFilter.java:55 | The corrected rendering of a record, `k1=v1; k2=v2`: empty exactly when the record has no pairs. `SerializeThenParse` shows that parsing it gives the record back. |
| `ForwardedHeaders.SerializeAll` | spring-cloud-gateway-core/src/main/java/org/springframework/cloud/gateway/filter/ForwardedHeadersFilter.java:54-55 | The corrected loop renders every record, one value per record. |
| `ForwardedHeaders.SerializeThenParse` | spring-cloud-gateway-core/src/main/java/org/springframework/cloud/gateway/filter/ForwardedHeadersFilter.java:70-79 | A non-empty well-formed record, rendered as `k1=v1; k2=v2`, parses back to itself. |
| `ForwardedHeaders.ParseSerializeParse` | spring-cloud-gateway-core/src/main/java/org/springframework/cloud/gateway/filter/ForwardedHeadersFilter.java:70-79 | Parse, render, parse gives the first parse's record. |
| `ForwardedHeaders.RecordsOfSerialized` | spring-cloud-gateway-core/src/main/java/org/springframework/cloud/gateway/filter/ForwardedHeadersFilter.java:61-68 | Parsing the renderings of non-empty well-formed records gives the records back. |
| `ForwardedHeaders.FilterCorrected` | spring-cloud-gateway-core/src/main/java/org/springframework/cloud/gateway/filter/ForwardedHeadersFilter.java:43-59 | The corrected filter adds at most one header. When `Forwarded` has no values, it gives exactly the other headers. |
| `ForwardedHeaders.FilterCorrectedOutput` | spring-cloud-gateway-core/src/main/java/org/springframework/cloud/gateway/filter/ForwardedHeadersFilter.java:43-59 | The corrected filter keeps the other headers. It emits one `forwarded-pair` rendering per non-`null` record. |
| `ForwardedHeaders.FilterCorrectedWithoutHeader` | spring-cloud-gateway-core/src/main/java/org/springframework/cloud/gateway/filter/ForwardedHeadersFilter.java:51-52 | Without a `Forwarded` header, the corrected filter returns the headers unchanged. |
| `ForwardedHeaders.FilterCorrectedAgrees` | spring-cloud-gateway-core/src/main/java/org/springframework/cloud/gateway/filter/ForwardedHeadersFilter.java:43-59 | Where `filter` returns, the corrected filter has the same other headers and the same number of `Forwarded` values. |
| `ForwardedHeaders.FilterCorrectedIdempotent` | spring-cloud-gateway-core/src/main/java/org/springframework/cloud/gateway/filter/ForwardedHeadersFilter.java:43-59 | When every record has a pair, running the corrected filter on its own output changes nothing. |
| `FilterChain.FilterAll` | spring-cloud-gateway-core/src/main/java/org/springframework/cloud/gateway/filter/HttpHeadersFilter.java:13-21 | The result is the request's headers for a `null` or empty list, and otherwise the last filter's output on the request. Each filter is called once, in order, on the original request. |
| `FilterChain.Overwrite` | spring-cloud-gateway-core/src/main/java/org/springframework/cloud/gateway/filter/HttpHeadersFilter.java:16-18 | Overwriting the result with each filter's output leaves the last one's, or the start value when there is no filter. |
| `FilterChain.Combined` | spring-cloud-gateway-core/src/main/java/org/springframework/cloud/gateway/filter/HttpHeadersFilter.java:13-21 | The combinator gives the request's headers for a `null` or empty list, otherwise the last filter's output on the original request. |
| `FilterChain.EarlierOutputsDiscarded` | spring-cloud-gateway-core/src/main/java/org/springframework/cloud/gateway/filter/HttpHeadersFilter.java:17 | Whatever filters come first, the result is that of the last filter alone. |
| `FilterChain.Chained` | spring-cloud-gateway-core/src/main/java/org/springframework/cloud/gateway/filter/HttpHeadersFilter.java:16-18 | The chain as intended: with no filters the headers are unchanged, and with one filter they are that filter's output. `ChainedAppend` and `ChainedStep` give longer chains. |
| `FilterChain.ChainedAppend` | spring-cloud-gateway-core/src/main/java/org/springframework/cloud/gateway/filter/HttpHeadersFilter.java:16-18 | A corrected chain split in two runs the second part on the first part's output. |
| `FilterChain.ChainedStep` | spring-cloud-gateway-core/src/main/java/org/springframework/cloud/gateway/filter/HttpHeadersFilter.java:16-18 | In the corrected chain, one more filter runs on the chain's output. |
| `FilterChain.FilterChained` | spring-cloud-gateway-core/src/main/java/org/springframework/cloud/gateway/filter/HttpHeadersFilter.java:13-21 | The corrected loop hands each filter the previous output. It returns the request's headers for a `null` list. |
| `FilterChain.DroppedHeadersComeBack` | spring-cloud-gateway-core/src/main/java/org/springframework/cloud/gateway/filter/HttpHeadersFilter.java:17 | Take a filter that drops all headers, then one that keeps its input. As written the headers come back; chained, none do. |

## Left out

- `Forwarded.appendList` (ForwardedHeadersFilter.java:123-131): it is private and never called, and its comma flag is never set.
- `Forwarded.getValues` has no member of its own. It is the record's `values` field.
- Sorting filters by `getOrder` happens outside this code. Only the value `getOrder` returns is modelled, as `ForwardedHeaders.GetOrder`.
- Case folding is ASCII only. Java's `toLowerCase` and `equalsIgnoreCase` on non-ASCII letters are not modelled.
- The reactive request type is reduced to `FilterChain.Request`, which holds headers and an opaque rest. `HttpHeaders` is reduced to `get`, `addAll` and `add`.
- The combinator is not wired to `ForwardedHeadersFilter`. That class declares `filter(HttpHeaders)`, while the interface asks for `filter(ServerHttpRequest)`.
- Filters in the combinator are pure total functions. Side effects, exceptions and `null` entries in the list are not modelled.
- In-place updates of `HttpHeaders`, `LinkedCaseInsensitiveMap` and `ArrayList` are modelled as values reassigned in the loops. The source builds each one fresh inside the method and shares it with nothing, so aliasing does not arise.
- The only failure modelled is the `NullPointerException` of `filter`. Header values are assumed never to be `null`.
- RFC 7239 features the code does not implement are not modelled: quoted-string values, comma-separated `forwarded-element`s, and parameter validation.

## Findings

| source | as written | input that shows it | evidently intended | confidence | as-written member | corrected member |
|---|---|---|---|---|---|---|
| spring-cloud-gateway-core/src/main/java/org/springframework/cloud/gateway/filter/HttpHeadersFilter.java:17 | Every filter is called on the original request, so each output is overwritten and only the last filter counts. | Filters [drop every header, keep the headers given] on a request with a `Host` header: the result still has `Host`. | Each filter works on the previous filter's output. | medium, not executed | `FilterChain.DroppedHeadersComeBack` | `FilterChain.FilterChained` |
| spring-cloud-gateway-core/src/main/java/org/springframework/cloud/gateway/filter/ForwardedHeadersFilter.java:52-55 | A request without `Forwarded` makes `parse(List)` iterate `null`. A blank `Forwarded` value gives a `null` record that `f.toString()` dereferences. | Headers `{Host: [example.com]}`, or `{Forwarded: [for=a, " "]}`. | A missing header counts as no records, and `null` records are skipped. | high, not executed | `ForwardedHeaders.MissingHeaderThrows` | `ForwardedHeaders.FilterCorrectedWithoutHeader` |
| spring-cloud-gateway-core/src/main/java/org/springframework/cloud/gateway/filter/ForwardedHeadersFilter.java:55 | Each record is re-emitted as its debug `toString`, `Forwarded{values={for=a}}`. | The value `for=a` goes out as `Forwarded{values={for=a}}`, which parses back as the pair `Forwarded{values` = `{for=a}}`. | Each record is re-emitted in `forwarded-pair` syntax, `for=a`, and parses back to itself. | medium, not executed | `ForwardedHeaders.ReparseEmitted` | `ForwardedHeaders.SerializeThenParse` |
