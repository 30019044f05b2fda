/**
 * The string operations of the Java and Spring libraries that the filter
 * relies on: `String.toLowerCase`, `String.equalsIgnoreCase` and
 * `String.trim` from the JDK, `StringUtils.tokenizeToStringArray` and
 * `StringUtils.split` from Spring. Case folding is ASCII only.
 */
module Text {
  import opened Wrappers

  // ---------------------------------------------------------------------
  // Case folding

  function LowerChar(c: char): char
  {
    if 'A' <= c <= 'Z' then (c as int - 'A' as int + 'a' as int) as char else c
  }

  /**
   * `String.toLowerCase`, restricted to ASCII letters: the same length, each
   * upper-case letter replaced by its lower-case counterpart (32 code points
   * on), every other character unchanged, and so no upper-case letter left.
   */
  function Lower(s: string): (r: string)
    ensures |r| == |s|
    ensures forall i :: 0 <= i < |s| && 'A' <= s[i] <= 'Z' ==> r[i] as int == s[i] as int + 32
    ensures forall i :: 0 <= i < |s| && !('A' <= s[i] <= 'Z') ==> r[i] == s[i]
    ensures forall i :: 0 <= i < |r| ==> !('A' <= r[i] <= 'Z')
  {
    seq(|s|, i requires 0 <= i < |s| => LowerChar(s[i]))
  }

  /** Two characters equal ignoring ASCII case: the same, or one is the upper-case form of the other. */
  predicate SameIgnoringCase(c: char, d: char)
  {
    c == d || ('A' <= c <= 'Z' && d as int == c as int + 32) || ('A' <= d <= 'Z' && c as int == d as int + 32)
  }

  /**
   * `String.equalsIgnoreCase`, restricted to ASCII letters: equal strings
   * match, and only strings of one length do. `EqualsIgnoreCaseChars`
   * gives the character-by-character reading.
   */
  predicate EqualsIgnoreCase(a: string, b: string)
    ensures a == b ==> EqualsIgnoreCase(a, b)
    ensures EqualsIgnoreCase(a, b) ==> |a| == |b|
  {
    Lower(a) == Lower(b)
  }

  /** Strings match ignoring case exactly when they have one length and agree character by character ignoring case. */
  lemma EqualsIgnoreCaseChars(a: string, b: string)
    ensures EqualsIgnoreCase(a, b) <==> |a| == |b| && forall i :: 0 <= i < |a| ==> SameIgnoringCase(a[i], b[i])
  {
    if |a| == |b| && forall i :: 0 <= i < |a| ==> SameIgnoringCase(a[i], b[i]) {
      forall i | 0 <= i < |a| ensures Lower(a)[i] == Lower(b)[i] {
        assert LowerChar(a[i]) == LowerChar(b[i]);
      }
    }
    if EqualsIgnoreCase(a, b) {
      forall i | 0 <= i < |a| ensures SameIgnoringCase(a[i], b[i]) {
        assert LowerChar(a[i]) == LowerChar(b[i]);
      }
    }
  }

  /** Lower-casing a name first does not change a case-insensitive comparison. */
  lemma LowerThenIgnoreCase(a: string, b: string)
    ensures EqualsIgnoreCase(Lower(a), b) <==> EqualsIgnoreCase(a, b)
  {
    assert Lower(Lower(a)) == Lower(a);
  }

  // ---------------------------------------------------------------------
  // Trimming: `String.trim` strips every leading and trailing character
  // whose code is at most U+0020.

  predicate IsBlank(s: string)
  {
    forall i :: 0 <= i < |s| ==> s[i] <= ' '
  }

  /** Neither end of `s` is a character that `trim` removes. */
  predicate IsTrimmed(s: string)
  {
    s == [] || (s[0] > ' ' && s[|s| - 1] > ' ')
  }

  function TrimStart(s: string): string
  {
    if s != [] && s[0] <= ' ' then TrimStart(s[1..]) else s
  }

  function TrimEnd(s: string): string
  {
    if s != [] && s[|s| - 1] <= ' ' then TrimEnd(s[..|s| - 1]) else s
  }

  /**
   * `String.trim`: the result has no blank at either end, and it is empty
   * exactly when `s` is blank. `TrimRemovesOnlyEnds` adds that it is what
   * is left of `s` once blanks are taken off its two ends.
   */
  function Trim(s: string): (r: string)
    ensures IsTrimmed(r)
    ensures r == [] <==> IsBlank(s)
  {
    TrimStartFacts(s);
    TrimEndFacts(TrimStart(s));
    TrimEnd(TrimStart(s))
  }

  lemma {:induction false} TrimStartFacts(s: string)
    ensures TrimStart(s) == [] <==> IsBlank(s)
    ensures TrimStart(s) != [] ==> TrimStart(s)[0] > ' '
    ensures TrimStart(s) != [] ==> TrimStart(s)[|TrimStart(s)| - 1] == s[|s| - 1]
    ensures |TrimStart(s)| <= |s|
    ensures TrimStart(s) == s[|s| - |TrimStart(s)|..] && IsBlank(s[..|s| - |TrimStart(s)|])
  {
    if s != [] && s[0] <= ' ' {
      TrimStartFacts(s[1..]);
      var k := |s| - |TrimStart(s)|;
      assert s[k..] == s[1..][k - 1..];
      assert s[..k] == [s[0]] + s[1..][..k - 1];
      assert IsBlank(s[1..]) ==> IsBlank(s) by {
        if IsBlank(s[1..]) {
          forall i | 0 <= i < |s| ensures s[i] <= ' ' {
            if i > 0 { assert s[i] == s[1..][i - 1]; }
          }
        }
      }
    }
  }

  lemma {:induction false} TrimEndFacts(s: string)
    ensures TrimEnd(s) == [] <==> IsBlank(s)
    ensures TrimEnd(s) != [] ==> TrimEnd(s)[|TrimEnd(s)| - 1] > ' '
    ensures TrimEnd(s) != [] ==> TrimEnd(s)[0] == s[0]
    ensures |TrimEnd(s)| <= |s|
    ensures TrimEnd(s) == s[..|TrimEnd(s)|] && IsBlank(s[|TrimEnd(s)|..])
  {
    if s != [] && s[|s| - 1] <= ' ' {
      var p := s[..|s| - 1];
      TrimEndFacts(p);
      var k := |TrimEnd(s)|;
      assert s[..k] == p[..k];
      assert s[k..] == p[k..] + [s[|s| - 1]];
      assert IsBlank(p) ==> IsBlank(s) by {
        if IsBlank(p) {
          forall i | 0 <= i < |s| ensures s[i] <= ' ' {
            if i < |s| - 1 { assert s[i] == p[i]; }
          }
        }
      }
    }
  }

  /** `trim` takes blanks off the two ends of `s` and nothing else. */
  lemma TrimRemovesOnlyEnds(s: string)
    ensures exists a, b :: s == a + Trim(s) + b && IsBlank(a) && IsBlank(b)
  {
    var t := TrimStart(s);
    TrimStartFacts(s);
    TrimEndFacts(t);
    var a, r := s[..|s| - |t|], TrimEnd(t);
    var b := t[|r|..];
    assert s == a + t;
    assert t == r + b;
    assert s == a + r + b by {
      assert a + (r + b) == a + r + b;
    }
    assert Trim(s) == r && IsBlank(a) && IsBlank(b);
  }

  /** `trim` does nothing to a string that is already trimmed. */
  lemma TrimmedIsFixpoint(s: string)
    requires IsTrimmed(s)
    ensures Trim(s) == s
  {
  }

  /** `trim` removes one leading space from a non-empty trimmed string. */
  lemma TrimLeadingSpace(s: string)
    requires IsTrimmed(s) && s != []
    ensures Trim(" " + s) == s
  {
    assert (" " + s)[0] == ' ' && (" " + s)[1..] == s;
    assert TrimStart(" " + s) == TrimStart(s) == s;
  }

  // ---------------------------------------------------------------------
  // Splitting and joining at a delimiter character

  /** The index of the first `d` in `s`, or `|s|` when there is none (`String.indexOf`, with `|s|` for -1). */
  function FirstIndex(s: string, d: char): (i: nat)
    ensures i <= |s|
    ensures i < |s| ==> s[i] == d
    ensures d !in s[..i]
  {
    if s == [] then 0
    else if s[0] == d then 0
    else
      var j := FirstIndex(s[1..], d);
      assert s[..j + 1] == [s[0]] + s[1..][..j];
      1 + j
  }

  /** Every piece of `s` between occurrences of `d`, empty pieces included: at least one, none holding `d`. */
  function Split(s: string, d: char): (pieces: seq<string>)
    ensures pieces != [] && forall k :: 0 <= k < |pieces| ==> d !in pieces[k]
    decreases |s|
  {
    var i := FirstIndex(s, d);
    if i == |s| then [s] else [s[..i]] + Split(s[i + 1..], d)
  }

  /** The pieces with `sep` between each two: empty for no pieces, and starting with the first piece. */
  function Join(pieces: seq<string>, sep: string): (s: string)
    ensures pieces == [] ==> s == []
    ensures pieces != [] ==> |pieces[0]| <= |s| && s[..|pieces[0]|] == pieces[0]
  {
    if |pieces| == 0 then ""
    else if |pieces| == 1 then pieces[0]
    else pieces[0] + sep + Join(pieces[1..], sep)
  }

  /** A join that starts with a non-empty piece is non-empty. */
  lemma JoinNonEmpty(pieces: seq<string>, sep: string)
    requires pieces != [] && pieces[0] != []
    ensures Join(pieces, sep) != []
  {
    if |pieces| > 1 {
      assert |Join(pieces, sep)| >= |pieces[0]|;
    }
  }

  /** Joining a piece and an empty piece leaves the separator at the end. */
  lemma JoinTrailingEmpty(s: string, sep: string)
    ensures Join([s, ""], sep) == s + sep
  {
    assert [s, ""][1..] == [""];
  }

  /** Splitting at `d` and joining back with `d` gives the original string; no piece holds `d`. */
  lemma {:induction false} SplitJoin(s: string, d: char)
    ensures |Split(s, d)| > 0
    ensures forall k :: 0 <= k < |Split(s, d)| ==> d !in Split(s, d)[k]
    ensures Join(Split(s, d), [d]) == s
  {
    var i := FirstIndex(s, d);
    if i < |s| {
      var rest := s[i + 1..];
      SplitJoin(rest, d);
      assert Split(s, d) == [s[..i]] + Split(rest, d);
      assert s == s[..i] + [d] + rest;
    }
  }

  /** Joining pieces free of `d` with `d` and splitting at `d` gives the pieces back. */
  lemma {:induction false} JoinSplit(pieces: seq<string>, d: char)
    requires |pieces| > 0
    requires forall k :: 0 <= k < |pieces| ==> d !in pieces[k]
    ensures Split(Join(pieces, [d]), d) == pieces
  {
    var p := pieces[0];
    if |pieces| == 1 {
      assert FirstIndex(p, d) == |p|;
    } else {
      var rest := Join(pieces[1..], [d]);
      var s := p + [d] + rest;
      assert FirstIndex(s, d) == |p| by {
        var i := FirstIndex(s, d);
        assert s[|p|] == d;
      }
      assert s[..|p|] == p;
      assert s[|p| + 1..] == rest;
      JoinSplit(pieces[1..], d);
    }
  }

  /** A character absent from `s` is absent from every piece of it. */
  lemma {:induction false} SplitAvoids(s: string, d: char, c: char)
    requires c !in s
    ensures forall k :: 0 <= k < |Split(s, d)| ==> c !in Split(s, d)[k]
  {
    var i := FirstIndex(s, d);
    if i < |s| {
      assert c !in s[..i];
      assert c !in s[i + 1..];
      SplitAvoids(s[i + 1..], d, c);
    }
  }

  /** A character absent from the pieces and the separator is absent from their join. */
  lemma {:induction false} JoinAvoids(pieces: seq<string>, sep: string, c: char)
    requires c !in sep
    requires forall k :: 0 <= k < |pieces| ==> c !in pieces[k]
    ensures c !in Join(pieces, sep)
  {
    if |pieces| > 1 {
      JoinAvoids(pieces[1..], sep, c);
    }
  }

  /** Each piece after the first, with a space in front. */
  function Spaced(pieces: seq<string>): seq<string>
  {
    seq(|pieces|, i requires 0 <= i < |pieces| => if i == 0 then pieces[0] else " " + pieces[i])
  }

  /** Joining with `d` and a space is joining with `d` the pieces after the first prefixed by a space. */
  lemma {:induction false} JoinSpaced(pieces: seq<string>, d: char)
    ensures Join(pieces, [d, ' ']) == Join(Spaced(pieces), [d])
  {
    if |pieces| > 1 {
      var rest := pieces[1..];
      JoinSpaced(rest, d);
      var sr := Spaced(rest);
      var sp := Spaced(pieces);
      assert sp[1..] == [" " + sr[0]] + sr[1..];
      JoinPrefix(sr, " ", [d]);
      calc {
        Join(pieces, [d, ' ']);
        pieces[0] + [d, ' '] + Join(rest, [d, ' ']);
        pieces[0] + [d] + (" " + Join(sr, [d]));
        pieces[0] + [d] + Join(sp[1..], [d]);
        Join(sp, [d]);
      }
    }
  }

  /** A prefix on the join is a prefix on its first piece. */
  lemma JoinPrefix(pieces: seq<string>, prefix: string, sep: string)
    requires |pieces| > 0
    ensures prefix + Join(pieces, sep) == Join([prefix + pieces[0]] + pieces[1..], sep)
  {
    var q := [prefix + pieces[0]] + pieces[1..];
    assert q[1..] == pieces[1..];
  }

  // ---------------------------------------------------------------------
  // Spring's StringUtils

  /** The trimmed, non-empty pieces, in order: no more of them than there are pieces, each non-empty and trimmed. */
  function TrimmedNonEmpty(pieces: seq<string>): (tokens: seq<string>)
    ensures |tokens| <= |pieces|
    ensures forall k :: 0 <= k < |tokens| ==> tokens[k] != [] && IsTrimmed(tokens[k])
  {
    if pieces == [] then []
    else
      var t := Trim(pieces[0]);
      (if t == [] then [] else [t]) + TrimmedNonEmpty(pieces[1..])
  }

  /**
   * `StringUtils.tokenizeToStringArray(s, [d])`: the pieces of `s` between
   * occurrences of `d`, each trimmed, blank ones dropped.
   */
  function Tokenize(s: string, d: char): (tokens: seq<string>)
    ensures forall k :: 0 <= k < |tokens| ==> tokens[k] != [] && IsTrimmed(tokens[k]) && d !in tokens[k]
  {
    SplitJoin(s, d);
    TrimmedNonEmptyTokens(Split(s, d), d);
    TrimmedNonEmpty(Split(s, d))
  }

  /** Tokens are non-empty, trimmed and free of the delimiter. */
  lemma {:induction false} TrimmedNonEmptyTokens(pieces: seq<string>, d: char)
    requires forall k :: 0 <= k < |pieces| ==> d !in pieces[k]
    ensures forall k :: 0 <= k < |TrimmedNonEmpty(pieces)| ==>
      TrimmedNonEmpty(pieces)[k] != [] && IsTrimmed(TrimmedNonEmpty(pieces)[k]) && d !in TrimmedNonEmpty(pieces)[k]
  {
    if pieces != [] {
      TrimmedNonEmptyTokens(pieces[1..], d);
      TrimInside(pieces[0], d);
    }
  }

  /** `trim` removes characters and never adds one. */
  lemma {:induction false} TrimInside(s: string, c: char)
    requires c !in s
    ensures c !in Trim(s)
  {
    TrimStartInside(s, c);
    TrimEndInside(TrimStart(s), c);
  }

  lemma {:induction false} TrimStartInside(s: string, c: char)
    requires c !in s
    ensures c !in TrimStart(s)
  {
    if s != [] && s[0] <= ' ' { TrimStartInside(s[1..], c); }
  }

  lemma {:induction false} TrimEndInside(s: string, c: char)
    requires c !in s
    ensures c !in TrimEnd(s)
  {
    if s != [] && s[|s| - 1] <= ' ' { TrimEndInside(s[..|s| - 1], c); }
  }

  /** A character absent from `s` is absent from every token of it. */
  lemma {:induction false} TokenizeAvoids(s: string, d: char, c: char)
    requires c !in s
    ensures forall k :: 0 <= k < |Tokenize(s, d)| ==> c !in Tokenize(s, d)[k]
  {
    SplitAvoids(s, d, c);
    TrimmedNonEmptyTokens(Split(s, d), c);
  }

  /** Pieces that all trim to non-empty strings keep their number and order. */
  lemma {:induction false} TrimmedNonEmptyAll(pieces: seq<string>, tokens: seq<string>)
    requires |pieces| == |tokens|
    requires forall k :: 0 <= k < |pieces| ==> Trim(pieces[k]) == tokens[k] && tokens[k] != []
    ensures TrimmedNonEmpty(pieces) == tokens
  {
    if pieces != [] {
      TrimmedNonEmptyAll(pieces[1..], tokens[1..]);
    }
  }

  /** The empty string has no tokens. */
  lemma TokenizeEmpty(d: char)
    ensures Tokenize("", d) == []
  {
    assert Split("", d) == [""];
    assert Trim("") == "";
    assert TrimmedNonEmpty([""]) == [];
  }

  /** A string without the delimiter is one token, its trimmed form, unless it is blank. */
  lemma TokenizeNoDelimiter(s: string, d: char)
    requires d !in s
    ensures Tokenize(s, d) == if Trim(s) == [] then [] else [Trim(s)]
  {
    assert FirstIndex(s, d) == |s|;
    assert Split(s, d) == [s];
    assert TrimmedNonEmpty([s]) == (if Trim(s) == [] then [] else [Trim(s)]) + TrimmedNonEmpty([]);
  }

  /**
   * Tokenizing a `d`-and-space join of non-empty, trimmed, `d`-free pieces
   * gives the pieces back.
   */
  lemma TokenizeJoined(pieces: seq<string>, d: char)
    requires d != ' '
    requires forall k :: 0 <= k < |pieces| ==> pieces[k] != [] && IsTrimmed(pieces[k]) && d !in pieces[k]
    ensures Tokenize(Join(pieces, [d, ' ']), d) == pieces
  {
    var s := Join(pieces, [d, ' ']);
    if pieces == [] {
      TokenizeEmpty(d);
    } else {
      JoinSpaced(pieces, d);
      var spaced := Spaced(pieces);
      forall k | 0 <= k < |spaced| ensures d !in spaced[k] && Trim(spaced[k]) == pieces[k] {
        if k == 0 {
          TrimmedIsFixpoint(pieces[0]);
        } else {
          TrimLeadingSpace(pieces[k]);
        }
      }
      JoinSplit(spaced, d);
      assert Split(s, d) == spaced;
      TrimmedNonEmptyAll(spaced, pieces);
      assert Tokenize(s, d) == TrimmedNonEmpty(spaced);
    }
  }

  /** Every character of `s` is the delimiter `d` or one that `trim` removes. */
  ghost predicate DelimitersOrBlanks(s: string, d: char)
  {
    forall i :: 0 <= i < |s| ==> s[i] == d || s[i] <= ' '
  }

  /** Around its first delimiter, `s` is delimiters and blanks exactly when both sides are. */
  lemma DelimitersOrBlanksAround(s: string, i: nat, d: char)
    requires i < |s| && s[i] == d && d !in s[..i]
    ensures DelimitersOrBlanks(s, d) <==> IsBlank(s[..i]) && DelimitersOrBlanks(s[i + 1..], d)
  {
    var rest := s[i + 1..];
    if DelimitersOrBlanks(s, d) {
      forall j | 0 <= j < i ensures s[..i][j] <= ' ' {
        assert s[..i][j] == s[j] && s[j] != d;
      }
      forall j | 0 <= j < |rest| ensures rest[j] == d || rest[j] <= ' ' {
        assert rest[j] == s[i + 1 + j];
      }
    }
    if IsBlank(s[..i]) && DelimitersOrBlanks(rest, d) {
      forall j | 0 <= j < |s| ensures s[j] == d || s[j] <= ' ' {
        if j < i { assert s[j] == s[..i][j]; }
        else if j > i { assert s[j] == rest[j - i - 1]; }
      }
    }
  }

  /** The tokens of `s` are those of the piece before its first delimiter, then those of the rest. */
  lemma TokenizeAtFirst(s: string, d: char)
    requires FirstIndex(s, d) < |s|
    ensures var i := FirstIndex(s, d);
      Tokenize(s, d) == (if Trim(s[..i]) == [] then [] else [Trim(s[..i])]) + Tokenize(s[i + 1..], d)
  {
    var i := FirstIndex(s, d);
    var rest := Split(s[i + 1..], d);
    assert Split(s, d) == [s[..i]] + rest;
    TrimmedNonEmptyCons(s[..i], rest);
    assert Tokenize(s[i + 1..], d) == TrimmedNonEmpty(rest);
  }

  /** Trimming and dropping blanks works piece by piece. */
  lemma TrimmedNonEmptyCons(piece: string, rest: seq<string>)
    ensures TrimmedNonEmpty([piece] + rest) ==
      (if Trim(piece) == [] then [] else [Trim(piece)]) + TrimmedNonEmpty(rest)
  {
    assert ([piece] + rest)[1..] == rest;
  }

  /** No token is left exactly when every character is the delimiter or a blank. */
  lemma {:induction false} TokenizeEmptyIff(s: string, d: char)
    ensures Tokenize(s, d) == [] <==> forall i :: 0 <= i < |s| ==> s[i] == d || s[i] <= ' '
  {
    var i := FirstIndex(s, d);
    if i < |s| {
      TokenizeEmptyIff(s[i + 1..], d);
      TokenizeAtFirst(s, d);
      DelimitersOrBlanksAround(s, i, d);
    } else {
      assert s[..i] == s;
      assert Split(s, d) == [s];
      assert TrimmedNonEmpty([s]) == (if Trim(s) == [] then [] else [Trim(s)]) + TrimmedNonEmpty([]);
    }
  }

  /**
   * `StringUtils.split(s, [d])`: the parts before and after the first `d`,
   * or `null` when `s` is empty or holds no `d`.
   */
  function SplitAtFirst(s: string, d: char): (r: Option<(string, string)>)
    ensures r.Some? <==> d in s
    ensures r.Some? ==> s == r.value.0 + [d] + r.value.1 && d !in r.value.0
  {
    if s == [] then None
    else
      var i := FirstIndex(s, d);
      if i == |s| then
        assert s[..i] == s;
        None
      else
        assert s == s[..i] + [d] + s[i + 1..];
        Some((s[..i], s[i + 1..]))
  }

  /** A string made of a `d`-free part, `d`, and anything else is split back into those parts. */
  lemma SplitAtFirstOf(before: string, d: char, after: string)
    requires d !in before
    ensures SplitAtFirst(before + [d] + after, d) == Some((before, after))
  {
    var s := before + [d] + after;
    var i := FirstIndex(s, d);
    assert s[|before|] == d;
    assert s[..|before|] == before;
    assert s[|before| + 1..] == after;
  }
}
