/** The string primitives of ECMAScript that the dashboard relies on:
    `String.prototype.trim`, `String.prototype.split` with a one-character
    separator, and `Array.prototype.join` as its inverse. */
module JsText {

  /** StrWhiteSpaceChar of ECMAScript: the WhiteSpace code points (tab, vertical
      tab, form feed, the byte order mark and every space separator) and the
      LineTerminator code points. Both `trim` and `parseInt` skip exactly these. */
  predicate IsJsWhitespace(c: char)
  {
    || c == '\t' || c == '\U{000B}' || c == '\U{000C}' || c == ' '
    || c == '\U{00A0}' || c == '\U{1680}' || ('\U{2000}' <= c <= '\U{200A}')
    || c == '\U{202F}' || c == '\U{205F}' || c == '\U{3000}' || c == '\U{FEFF}'
    || c == '\n' || c == '\r' || c == '\U{2028}' || c == '\U{2029}'
  }

  predicate AllWhitespace(s: string)
  {
    forall k :: 0 <= k < |s| ==> IsJsWhitespace(s[k])
  }

  /** A string that `trim` leaves as it is. */
  predicate IsTrimmed(s: string)
  {
    s == [] || (!IsJsWhitespace(s[0]) && !IsJsWhitespace(s[|s| - 1]))
  }

  /** Drops the leading whitespace (see `TrimStartSpec`). */
  function TrimStart(s: string): string
  {
    if s != [] && IsJsWhitespace(s[0]) then TrimStart(s[1..]) else s
  }

  /** `TrimStart` yields the longest suffix of `s` that does not start with
      whitespace: what it drops is all whitespace, what it keeps starts with
      something else. */
  lemma {:induction false} TrimStartSpec(s: string)
    ensures var r := TrimStart(s);
      && |r| <= |s| && r == s[|s| - |r|..]
      && AllWhitespace(s[..|s| - |r|])
      && (r != [] ==> !IsJsWhitespace(r[0]))
    decreases |s|
  {
    if s != [] && IsJsWhitespace(s[0]) {
      TrimStartSpec(s[1..]);
      var r := TrimStart(s);
      var dropped := s[..|s| - |r|];
      assert dropped == [s[0]] + s[1..][..|s| - 1 - |r|];
    }
  }

  /** Drops the trailing whitespace: the result is the longest prefix of `s`
      that does not end with whitespace. */
  function TrimEnd(s: string): (r: string)
    ensures |r| <= |s| && r == s[..|r|]
    ensures AllWhitespace(s[|r|..])
    ensures r != [] ==> !IsJsWhitespace(r[|r| - 1])
  {
    if s != [] && IsJsWhitespace(s[|s| - 1]) then TrimEnd(s[..|s| - 1]) else s
  }

  /** `s.trim()`. */
  function Trim(s: string): (r: string)
    ensures IsTrimmed(r)
    ensures r == [] <==> AllWhitespace(s)
  {
    TrimStartSpec(s);
    TrimEmptyIff(s, TrimStart(s));
    TrimEnd(TrimStart(s))
  }

  /** `trim` cuts `s` into three: whitespace, the result, whitespace. */
  lemma TrimIsInfix(s: string)
    ensures exists i, j :: 0 <= i <= j <= |s| && Trim(s) == s[i..j] && AllWhitespace(s[..i]) && AllWhitespace(s[j..])
  {
    TrimStartSpec(s);
    var t := TrimStart(s);
    var r := Trim(s);
    var i := |s| - |t|;
    var j := i + |r|;
    assert t == s[i..];
    assert r == t[..|r|];
    assert r == s[i..j];
    assert s[j..] == t[|r|..];
  }

  lemma TrimKeepsChars(s: string, t: string)
    requires t == TrimStart(s)
    ensures forall k :: 0 <= k < |TrimEnd(t)| ==> TrimEnd(t)[k] in s
  {
    TrimStartSpec(s);
    var r := TrimEnd(t);
    forall k | 0 <= k < |r|
      ensures r[k] in s
    {
      assert r[k] == t[k];
      assert t[k] == s[|s| - |t| + k];
    }
  }

  lemma TrimEmptyIff(s: string, t: string)
    requires t == TrimStart(s)
    ensures TrimEnd(t) == [] <==> AllWhitespace(s)
  {
    TrimStartSpec(s);
    if AllWhitespace(s) {
      AllWhitespaceTrimStart(s);
    }
    if TrimEnd(t) == [] {
      assert s[..|s| - |t|] == s;
    }
  }

  /** `trim` adds no character. */
  lemma TrimAvoids(s: string, c: char)
    requires c !in s
    ensures c !in Trim(s)
  {
    TrimKeepsChars(s, TrimStart(s));
  }

  lemma {:induction false} TrimOfTrimmed(s: string)
    requires IsTrimmed(s)
    ensures Trim(s) == s
  {
    if s != [] {
      assert TrimStart(s) == s;
      assert TrimEnd(s) == s;
    }
  }

  /** Whitespace around a string does not survive `trim`. */
  lemma {:induction false} TrimIgnoresPadding(lead: string, s: string, trail: string)
    requires AllWhitespace(lead) && AllWhitespace(trail)
    ensures Trim(lead + s + trail) == Trim(s)
  {
    assert lead + s + trail == lead + (s + trail);
    TrimStartSkipsPadding(lead, s + trail);
    if AllWhitespace(s) {
      assert AllWhitespace(s + trail);
      AllWhitespaceTrimStart(s + trail);
      AllWhitespaceTrimStart(s);
    } else {
      TrimStartKeepsTail(s, trail);
      TrimEndSkipsPadding(TrimStart(s), trail);
    }
  }

  lemma {:induction false} TrimStartSkipsPadding(lead: string, s: string)
    requires AllWhitespace(lead)
    ensures TrimStart(lead + s) == TrimStart(s)
    decreases |lead|
  {
    if lead != [] {
      assert (lead + s)[1..] == lead[1..] + s;
      TrimStartSkipsPadding(lead[1..], s);
    } else {
      assert lead + s == s;
    }
  }

  lemma {:induction false} TrimStartKeepsTail(s: string, trail: string)
    requires !AllWhitespace(s)
    ensures TrimStart(s + trail) == TrimStart(s) + trail
    decreases |s|
  {
    if IsJsWhitespace(s[0]) {
      assert (s + trail)[1..] == s[1..] + trail;
      TrimStartKeepsTail(s[1..], trail);
    }
  }

  lemma AllWhitespaceTrimStart(s: string)
    ensures AllWhitespace(s) ==> TrimStart(s) == []
  {
    TrimStartSpec(s);
  }

  lemma {:induction false} TrimEndSkipsPadding(s: string, trail: string)
    requires AllWhitespace(trail)
    ensures TrimEnd(s + trail) == TrimEnd(s)
    decreases |trail|
  {
    if trail != [] {
      var t := trail[..|trail| - 1];
      assert (s + trail)[..|s + trail| - 1] == s + t;
      TrimEndSkipsPadding(s, t);
    } else {
      assert s + trail == s;
    }
  }

  /** `parts.join(sep)`. */
  function Join(parts: seq<string>, sep: char): string
  {
    if |parts| == 0 then []
    else if |parts| == 1 then parts[0]
    else parts[0] + [sep] + Join(parts[1..], sep)
  }

  /** The number of occurrences of `c` in `s`. */
  function Occurrences(s: string, c: char): nat
  {
    if s == [] then 0 else (if s[0] == c then 1 else 0) + Occurrences(s[1..], c)
  }

  /** `s.split(sep)` for a one-character separator: the pieces between the
      occurrences of `sep`, in order, including the empty ones, so one more
      piece than there are separators (`JoinSplit` and `SplitJoin` relate it
      to `Join`). */
  function Split(s: string, sep: char): (parts: seq<string>)
    ensures |parts| == Occurrences(s, sep) + 1
  {
    if s == [] then [[]]
    else
      var rest := Split(s[1..], sep);
      if s[0] == sep then [[]] + rest
      else [[s[0]] + rest[0]] + rest[1..]
  }

  /** No piece holds the separator, nor any character absent from `s`. */
  lemma {:induction false} SplitAvoids(s: string, sep: char, c: char)
    requires c == sep || c !in s
    ensures forall i :: 0 <= i < |Split(s, sep)| ==> c !in Split(s, sep)[i]
    decreases |s|
  {
    if s != [] {
      SplitAvoids(s[1..], sep, c);
      var rest := Split(s[1..], sep);
      var parts := Split(s, sep);
      if s[0] == sep {
        assert forall i :: 1 <= i < |parts| ==> parts[i] == rest[i - 1];
      } else {
        assert forall i :: 1 <= i < |parts| ==> parts[i] == rest[i];
        assert parts[0] == [s[0]] + rest[0];
      }
    }
  }

  /** Joining the pieces with the separator gives back the string. */
  lemma {:induction false} JoinSplit(s: string, sep: char)
    ensures Join(Split(s, sep), sep) == s
    decreases |s|
  {
    if s != [] {
      JoinSplit(s[1..], sep);
      var rest := Split(s[1..], sep);
      var parts := Split(s, sep);
      if s[0] == sep {
        assert parts[1..] == rest;
      } else {
        assert parts[1..] == rest[1..];
        assert s == [s[0]] + s[1..];
      }
    }
  }

  lemma {:induction false} SplitWithoutSeparator(s: string, sep: char)
    requires sep !in s
    ensures Split(s, sep) == [s]
    decreases |s|
  {
    if s != [] {
      assert sep !in s[1..] && s[0] != sep;
      SplitWithoutSeparator(s[1..], sep);
      assert [s[1..]][1..] == [];
      assert s == [s[0]] + s[1..];
    }
  }

  /** Splitting around one occurrence of the separator splits each side. */
  lemma {:induction false} SplitAround(a: string, sep: char, b: string)
    ensures Split(a + [sep] + b, sep) == Split(a, sep) + Split(b, sep)
    decreases |a|
  {
    var s := a + [sep] + b;
    if a == [] {
      assert s[1..] == b;
    } else {
      assert s[1..] == a[1..] + [sep] + b;
      SplitAround(a[1..], sep, b);
    }
  }

  /** `split` undoes `join` when no part holds the separator. */
  lemma {:induction false} SplitJoin(parts: seq<string>, sep: char)
    requires |parts| >= 1
    requires forall i :: 0 <= i < |parts| ==> sep !in parts[i]
    ensures Split(Join(parts, sep), sep) == parts
    decreases |parts|
  {
    SplitWithoutSeparator(parts[0], sep);
    if |parts| > 1 {
      SplitJoin(parts[1..], sep);
      SplitAround(parts[0], sep, Join(parts[1..], sep));
      assert parts == [parts[0]] + parts[1..];
    }
  }

  /** A character that is neither the separator nor in any part is not in the join. */
  lemma {:induction false} JoinAvoids(parts: seq<string>, sep: char, c: char)
    requires c != sep
    requires forall i :: 0 <= i < |parts| ==> c !in parts[i]
    ensures c !in Join(parts, sep)
    decreases |parts|
  {
    if |parts| > 1 {
      JoinAvoids(parts[1..], sep, c);
    }
  }
}
