/** The conventional optional value. */
module Options {
  datatype Option<T> = None | Some(value: T)
}

/**
  The string built-ins the scripts rely on, with their JavaScript meaning:
  String.prototype.trim, split with a string separator, Array.prototype.join,
  Number.prototype.toString in base 10, String.prototype.padStart(2, '0'),
  and parseInt on a run of decimal digits.
 */
module Strings {

  /** The WhiteSpace and LineTerminator code points that trim removes: space, tab to carriage
      return (U+0009 to U+000D), no-break space, the Ogham space mark, U+2000 to U+200A, the
      line and paragraph separators, narrow no-break space, medium mathematical space,
      ideographic space and the byte order mark. */
  predicate IsWhitespace(c: char) {
    || c == ' ' || '\t' <= c <= '\r' || c == '\U{00A0}' || c == '\U{1680}'
    || '\U{2000}' <= c <= '\U{200A}' || '\U{2028}' <= c <= '\U{2029}'
    || c == '\U{202F}' || c == '\U{205F}' || c == '\U{3000}' || c == '\U{FEFF}'
  }

  predicate IsDigit(c: char) {
    '0' <= c <= '9'
  }

  predicate AllDigits(s: string) {
    forall i :: 0 <= i < |s| ==> IsDigit(s[i])
  }

  /** Drops leading whitespace: the result is a suffix that does not start with whitespace. */
  function TrimStart(s: string): (r: string)
    ensures |r| <= |s|
    ensures r != [] ==> !IsWhitespace(r[0])
  {
    if s != [] && IsWhitespace(s[0]) then TrimStart(s[1..]) else s
  }

  /** TrimStart keeps a suffix. */
  lemma {:induction false} TrimStartSuffix(s: string)
    ensures TrimStart(s) == s[|s| - |TrimStart(s)|..]
    decreases |s|
  {
    if s != [] && IsWhitespace(s[0]) {
      TrimStartSuffix(s[1..]);
      assert s[1..][|s| - 1 - |TrimStart(s)|..] == s[|s| - |TrimStart(s)|..];
    }
  }

  /** Drops trailing whitespace: the result is a prefix that does not end with whitespace. */
  function TrimEnd(s: string): (r: string)
    ensures |r| <= |s|
    ensures r != [] ==> !IsWhitespace(r[|r| - 1])
  {
    if s != [] && IsWhitespace(s[|s| - 1]) then TrimEnd(s[..|s| - 1]) else s
  }

  /** TrimEnd keeps a prefix. */
  lemma {:induction false} TrimEndPrefix(s: string)
    ensures TrimEnd(s) == s[..|TrimEnd(s)|]
    decreases |s|
  {
    if s != [] && IsWhitespace(s[|s| - 1]) {
      TrimEndPrefix(s[..|s| - 1]);
      assert s[..|s| - 1][..|TrimEnd(s)|] == s[..|TrimEnd(s)|];
    }
  }

  /** s[lo..hi] is all whitespace. */
  predicate WhitespaceBetween(s: string, lo: int, hi: int) {
    forall i :: 0 <= lo <= i < hi <= |s| ==> IsWhitespace(s[i])
  }

  /** TrimStart removes only whitespace, so it keeps the longest such suffix. */
  lemma {:induction false} TrimStartRemovesWhitespace(s: string)
    ensures WhitespaceBetween(s, 0, |s| - |TrimStart(s)|)
  {
    if s != [] && IsWhitespace(s[0]) {
      TrimStartRemovesWhitespace(s[1..]);
      forall i | 1 <= i < |s| - |TrimStart(s)|
        ensures IsWhitespace(s[i])
      {
        assert s[i] == s[1..][i - 1];
      }
    }
  }

  /** TrimEnd removes only whitespace, so it keeps the longest such prefix. */
  lemma {:induction false} TrimEndRemovesWhitespace(s: string)
    ensures WhitespaceBetween(s, |TrimEnd(s)|, |s|)
  {
    if s != [] && IsWhitespace(s[|s| - 1]) {
      TrimEndRemovesWhitespace(s[..|s| - 1]);
      forall i | |TrimEnd(s)| <= i < |s| - 1
        ensures IsWhitespace(s[i])
      {
        assert s[i] == s[..|s| - 1][i];
      }
    }
  }

  /** String.prototype.trim. */
  function Trim(s: string): (r: string)
  {
    TrimEnd(TrimStart(s))
  }

  /** Trim removes exactly a whitespace prefix (of length |s| - |TrimStart(s)|) and a
      whitespace suffix, and keeps everything in between. */
  lemma TrimIsInfix(s: string)
    ensures |s| - |TrimStart(s)| + |Trim(s)| <= |s|
    ensures Trim(s) == s[|s| - |TrimStart(s)|..|s| - |TrimStart(s)| + |Trim(s)|]
    ensures WhitespaceBetween(s, 0, |s| - |TrimStart(s)|)
    ensures WhitespaceBetween(s, |s| - |TrimStart(s)| + |Trim(s)|, |s|)
  {
    TrimIsSlice(s);
    TrimDropsWhitespace(s);
  }

  /** What Trim keeps is the slice of s that starts where TrimStart's result starts. */
  lemma TrimIsSlice(s: string)
    ensures |s| - |TrimStart(s)| + |Trim(s)| <= |s|
    ensures Trim(s) == s[|s| - |TrimStart(s)|..|s| - |TrimStart(s)| + |Trim(s)|]
  {
    var t := TrimStart(s);
    var r := TrimEnd(t);
    TrimStartSuffix(s);
    TrimEndPrefix(t);
    SuffixPrefixSlice(s, t, r);
    calc {
      Trim(s);
      r;
      s[|s| - |t|..|s| - |t| + |r|];
    }
  }

  /** A prefix r of a suffix t of s is the slice of s where t starts. */
  lemma SuffixPrefixSlice(s: string, t: string, r: string)
    requires |t| <= |s| && t == s[|s| - |t|..] && |r| <= |t| && r == t[..|r|]
    ensures |s| - |t| + |r| <= |s| && r == s[|s| - |t|..|s| - |t| + |r|]
  {
  }

  /** What Trim drops on either side is whitespace. */
  lemma TrimDropsWhitespace(s: string)
    ensures WhitespaceBetween(s, 0, |s| - |TrimStart(s)|)
    ensures WhitespaceBetween(s, |s| - |TrimStart(s)| + |Trim(s)|, |s|)
  {
    TrimStartRemovesWhitespace(s);
    TrimEndRemovesWhitespace(TrimStart(s));
    TrimStartSuffix(s);
    WhitespaceAfterPrefix(s, |s| - |TrimStart(s)|, TrimStart(s), Trim(s));
  }

  /** What follows a prefix r in the suffix t = s[a..] follows it in s as well. */
  lemma WhitespaceAfterPrefix(s: string, a: nat, t: string, r: string)
    requires a <= |s| && t == s[a..] && |r| <= |t|
    requires WhitespaceBetween(t, |r|, |t|)
    ensures WhitespaceBetween(s, a + |r|, |s|)
  {
    forall i | a + |r| <= i < |s|
      ensures IsWhitespace(s[i])
    {
      assert s[i] == t[i - a];
    }
  }

  /** The text Trim keeps neither starts nor ends with whitespace. */
  lemma TrimEnds(s: string)
    ensures Trim(s) != [] ==> !IsWhitespace(Trim(s)[0]) && !IsWhitespace(Trim(s)[|Trim(s)| - 1])
  {
    var t := TrimStart(s);
    var r := TrimEnd(t);
    if r != [] {
      TrimEndPrefix(t);
      assert r[0] == t[0];
    }
  }

  /** A string that neither starts nor ends with whitespace is left alone by Trim. */
  lemma TrimUnchanged(s: string)
    requires s != [] ==> !IsWhitespace(s[0]) && !IsWhitespace(s[|s| - 1])
    ensures Trim(s) == s
  {
  }

  /** Splitting with a non-empty string separator, scanning left to right; `field` is the text
      already read into the current field. */
  function SplitFrom(s: string, sep: string, field: string): (parts: seq<string>)
    requires sep != []
    ensures parts != []
    decreases |s|
  {
    if s == [] then [field]
    else if sep <= s then [field] + SplitFrom(s[|sep|..], sep, "")
    else SplitFrom(s[1..], sep, field + [s[0]])
  }

  /** String.prototype.split with a non-empty string separator ("".split(sep) is [""]). */
  function Split(s: string, sep: string): (parts: seq<string>)
    requires sep != []
  {
    SplitFrom(s, sep, "")
  }

  /** Array.prototype.join. */
  function Join(parts: seq<string>, sep: string): (s: string)
  {
    if parts == [] then ""
    else if |parts| == 1 then parts[0]
    else parts[0] + sep + Join(parts[1..], sep)
  }

  /** A join starts with its first part. */
  lemma JoinStartsWith(parts: seq<string>, sep: string)
    requires parts != []
    ensures parts[0] <= Join(parts, sep)
  {
  }

  /** Joining a field in front of a non-empty list puts it and one separator in front. */
  lemma JoinCons(field: string, rest: seq<string>, sep: string)
    requires rest != []
    ensures Join([field] + rest, sep) == field + sep + Join(rest, sep)
  {
    assert ([field] + rest)[1..] == rest;
  }

  /** Appending s in two pieces appends s. */
  lemma AppendAt(field: string, s: string, n: nat)
    requires n <= |s|
    ensures field + s[..n] + s[n..] == field + s
    ensures n == 1 ==> s[..n] == [s[0]]
  {
  }

  lemma {:induction false} JoinSplitFrom(s: string, sep: string, field: string)
    requires sep != []
    ensures Join(SplitFrom(s, sep, field), sep) == field + s
    decreases |s|
  {
    if s == [] {
    } else if sep <= s {
      JoinSplitFrom(s[|sep|..], sep, "");
      JoinSplitAtSep(s, sep, field);
    } else {
      JoinSplitFrom(s[1..], sep, field + [s[0]]);
      AppendAt(field, s, 1);
    }
  }

  /** The step of JoinSplitFrom where s starts with the separator. */
  lemma JoinSplitAtSep(s: string, sep: string, field: string)
    requires sep != [] && s != [] && sep <= s
    requires Join(SplitFrom(s[|sep|..], sep, ""), sep) == s[|sep|..]
    ensures Join(SplitFrom(s, sep, field), sep) == field + s
  {
    var t := s[|sep|..];
    var rest := SplitFrom(t, sep, "");
    JoinCons(field, rest, sep);
    AppendAt(field, s, |sep|);
    calc {
      Join(SplitFrom(s, sep, field), sep);
      Join([field] + rest, sep);
      field + sep + Join(rest, sep);
      field + sep + t;
      { assert sep == s[..|sep|]; }
      field + s[..|sep|] + t;
      field + s;
    }
  }

  /** Joining the pieces of a split gives back the string. */
  lemma JoinSplit(s: string, sep: string)
    requires sep != []
    ensures Join(Split(s, sep), sep) == s
  {
    JoinSplitFrom(s, sep, "");
  }

  /** No field text can hide the start of a separator. */
  predicate Separable(p: string, sep: string)
    requires sep != []
  {
    forall i :: 0 <= i < |p| ==> p[i] != sep[0]
  }

  lemma {:induction false} SplitFromSkips(p: string, t: string, sep: string, field: string)
    requires sep != [] && Separable(p, sep)
    ensures SplitFrom(p + t, sep, field) == SplitFrom(t, sep, field + p)
    decreases |p|
  {
    if p != [] {
      var s := p + t;
      assert s[0] == p[0] != sep[0];
      assert !(sep <= s);
      assert s[1..] == p[1..] + t;
      SplitFromSkips(p[1..], t, sep, field + [p[0]]);
      assert field + [p[0]] + p[1..] == field + p;
      assert SplitFrom(s, sep, field) == SplitFrom(s[1..], sep, field + [s[0]]);
    } else {
      assert p + t == t;
      assert field + p == field;
    }
  }

  /** Splitting a join recovers the parts, provided there is at least one part and no part
      contains the separator's first character. */
  lemma {:induction false} SplitJoin(parts: seq<string>, sep: string)
    requires sep != [] && parts != []
    requires forall k :: 0 <= k < |parts| ==> Separable(parts[k], sep)
    ensures Split(Join(parts, sep), sep) == parts
    decreases |parts|
  {
    if |parts| == 1 {
      SplitFromSkips(parts[0], "", sep, "");
      assert parts[0] + "" == parts[0];
      assert "" + parts[0] == parts[0];
      assert Join(parts, sep) == parts[0];
      assert SplitFrom("", sep, parts[0]) == [parts[0]];
    } else {
      var tail := Join(parts[1..], sep);
      assert Join(parts, sep) == parts[0] + (sep + tail);
      SplitFromSkips(parts[0], sep + tail, sep, "");
      assert sep <= sep + tail;
      assert (sep + tail)[|sep|..] == tail;
      SplitJoin(parts[1..], sep);
      calc {
        Split(Join(parts, sep), sep);
        SplitFrom(parts[0] + (sep + tail), sep, "");
        SplitFrom(sep + tail, sep, "" + parts[0]);
        { assert "" + parts[0] == parts[0]; }
        [parts[0]] + SplitFrom(tail, sep, "");
        [parts[0]] + parts[1..];
        parts;
      }
    }
  }

  function DigitChar(d: nat): (c: char)
    requires d < 10
    ensures IsDigit(c)
  {
    (48 + d) as char
  }

  function DigitValue(c: char): (d: nat)
    requires IsDigit(c)
    ensures d < 10 && DigitChar(d) == c
  {
    (c as int - 48) as nat
  }

  /** Number.prototype.toString() of a non-negative integer. */
  function NatToString(n: nat): (s: string)
    ensures s != [] && AllDigits(s)
  {
    if n < 10 then [DigitChar(n)] else NatToString(n / 10) + [DigitChar(n % 10)]
  }

  /** The value of a run of decimal digits, as parseInt(s, 10) reads it. */
  function DecimalValue(s: string): (n: nat)
    requires AllDigits(s)
  {
    if s == [] then 0 else 10 * DecimalValue(s[..|s| - 1]) + DigitValue(s[|s| - 1])
  }

  /** One or two digits read as a number below one hundred. */
  lemma DecimalValueBelow100(s: string)
    requires AllDigits(s) && |s| <= 2
    ensures DecimalValue(s) < 100
  {
    if s != [] {
      assert DecimalValue(s[..|s| - 1]) < 10;
    }
  }

  /** parseInt inverts toString. */
  lemma {:induction false} DecimalValueOfNatToString(n: nat)
    ensures DecimalValue(NatToString(n)) == n
  {
    var s := NatToString(n);
    if n >= 10 {
      DecimalValueOfNatToString(n / 10);
      assert s[..|s| - 1] == NatToString(n / 10);
    }
  }

  /** toString never writes a leading zero, except for zero itself. */
  lemma {:induction false} NatToStringLeadingDigit(n: nat)
    ensures NatToString(n)[0] == '0' <==> n == 0
  {
    if n >= 10 {
      NatToStringLeadingDigit(n / 10);
    }
  }

  /** toString writes one digit below ten and two below one hundred. */
  lemma NatToStringLength(n: nat)
    ensures n < 10 ==> |NatToString(n)| == 1
    ensures 10 <= n < 100 ==> |NatToString(n)| == 2
  {
  }

  /** String.prototype.padStart(2, '0'). */
  function PadStart2(s: string): (r: string)
    ensures |r| == if |s| < 2 then 2 else |s|
  {
    if |s| == 0 then "00" else if |s| == 1 then "0" + s else s
  }

  /** padStart keeps the string as the end of the result and fills the front with zeros. */
  lemma PadStart2Shape(s: string)
    ensures var r := PadStart2(s);
      && r[|r| - |s|..] == s
      && forall i :: 0 <= i < |r| - |s| ==> r[i] == '0'
  {
  }

  /** The hour as `padded(h)` writes it: n.toString().padStart(2, '0'). */
  function Pad2(h: nat): (r: string)
  {
    PadStart2(NatToString(h))
  }

  /** An hour below one hundred pads to exactly its two decimal digits. */
  lemma Pad2Digits(h: nat)
    requires h < 100
    ensures Pad2(h) == [DigitChar(h / 10), DigitChar(h % 10)]
  {
    NatToStringLength(h);
    if h >= 10 {
      assert NatToString(h) == NatToString(h / 10) + [DigitChar(h % 10)];
    }
  }
}
