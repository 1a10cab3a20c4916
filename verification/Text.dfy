/** Character- and string-level building blocks with the semantics of the
    ECMAScript built-ins the caption pipeline relies on: `String.prototype.trim`,
    `split` on a single character, `Array.prototype.join`, the decimal
    rendering of an integral Number, and the global `parseInt` called without
    a radix. Strings are sequences of code points. */
module Text {

  datatype Option<+T> = None | Some(value: T)

  /** The ECMAScript WhiteSpace and LineTerminator code points: exactly the
      characters `trim` removes and the regular-expression class `\s` matches. */
  predicate IsWhitespace(c: char) {
    || c == '\t' || c == '\n' || c == '\U{B}' || c == '\U{C}' || c == '\r' || c == ' '
    || c == '\U{A0}' || c == '\U{1680}' || ('\U{2000}' <= c <= '\U{200A}')
    || c == '\U{2028}' || c == '\U{2029}' || c == '\U{202F}' || c == '\U{205F}'
    || c == '\U{3000}' || c == '\U{FEFF}'
  }

  predicate AllWhitespace(s: string) {
    forall i :: 0 <= i < |s| ==> IsWhitespace(s[i])
  }

  /** A decimal digit, `0-9` (the characters for which `DigitOf(c, 10)` is
      a value, see `DecimalDigit`). */
  predicate IsDigit(c: char) {
    '0' <= c <= '9'
  }

  /** `s.startsWith(prefix)`. */
  predicate StartsWith(s: string, prefix: string) {
    |prefix| <= |s| && forall i :: 0 <= i < |prefix| ==> s[i] == prefix[i]
  }

  // ---------------------------------------------------------------------------
  // trim

  /** The string without its leading whitespace. */
  function TrimStart(s: string): (r: string)
    ensures |r| <= |s|
    ensures r == [] || !IsWhitespace(r[0])
    ensures AllWhitespace(s[..|s| - |r|])
  {
    if s != [] && IsWhitespace(s[0]) then
      TrimStart(s[1..])
    else
      s
  }

  /** What TrimStart keeps is the tail of its input: it only removes
      characters from the front. */
  lemma {:induction false} TrimStartSuffix(s: string)
    ensures TrimStart(s) == s[|s| - |TrimStart(s)|..]
  {
    if s != [] && IsWhitespace(s[0]) {
      TrimStartSuffix(s[1..]);
      assert s[1..][|s| - 1 - |TrimStart(s)|..] == s[|s| - |TrimStart(s)|..];
    }
  }

  /** The string without its trailing whitespace. */
  function TrimEnd(s: string): (r: string)
    ensures |r| <= |s| && r == s[..|r|]
    ensures r == [] || !IsWhitespace(r[|r| - 1])
    ensures AllWhitespace(s[|r|..])
  {
    if s != [] && IsWhitespace(s[|s| - 1]) then
      TrimEnd(s[..|s| - 1])
    else
      s
  }

  /** `String.prototype.trim`: the input with a whitespace run cut off at
      each end, leaving a visible character at both ends. */
  function Trim(s: string): (r: string)
    ensures r == [] || (!IsWhitespace(r[0]) && !IsWhitespace(r[|r| - 1]))
    ensures exists p ::
              0 <= p && p + |r| <= |s| && s[p..p + |r|] == r
              && AllWhitespace(s[..p]) && AllWhitespace(s[p + |r|..])
  {
    var t := TrimStart(s);
    var r := TrimEnd(t);
    TrimSlice(s, t, r);
    r
  }

  /** What the two trims keep lies in the input between two runs of
      whitespace. */
  lemma {:induction false} TrimSlice(s: string, t: string, r: string)
    requires t == TrimStart(s) && r == TrimEnd(t)
    ensures var p := |s| - |t|;
      p + |r| <= |s| && s[p..p + |r|] == r && AllWhitespace(s[..p]) && AllWhitespace(s[p + |r|..])
  {
    TrimStartSuffix(s);
    var p := |s| - |t|;
    assert t == s[p..];
    assert r == t[..|r|];
    assert s[p..p + |r|] == t[..|r|];
    assert s[p + |r|..] == t[|r|..];
  }

  /** Trailing whitespace after a last non-whitespace character is exactly what
      TrimEnd takes away. */
  lemma TrimEndAppend(x: string, w: string)
    requires x != [] && !IsWhitespace(x[|x| - 1])
    requires AllWhitespace(w)
    ensures TrimEnd(x + w) == x
  {
    var s := x + w;
    var r := TrimEnd(s);
    assert s[|x| - 1] == x[|x| - 1];
  }

  /** Nothing is trimmed from the front of a string that starts with a
      non-whitespace character. */
  lemma TrimStartNoop(s: string)
    requires s != [] && !IsWhitespace(s[0])
    ensures TrimStart(s) == s
  {
  }

  /** Trimming a string made of a part framed by non-whitespace characters
      and a whitespace tail leaves the framed part. */
  lemma TrimFramed(s: string, x: string, w: string)
    requires s == x + w
    requires x != [] && !IsWhitespace(x[0]) && !IsWhitespace(x[|x| - 1])
    requires AllWhitespace(w)
    ensures Trim(s) == x
  {
    TrimStartNoop(s);
    TrimEndAppend(x, w);
  }

  // ---------------------------------------------------------------------------
  // split and join

  /** `parts.join(sep)`. */
  function Join(parts: seq<string>, sep: string): string {
    if |parts| == 0 then []
    else if |parts| == 1 then parts[0]
    else parts[0] + sep + Join(parts[1..], sep)
  }

  /** `s.split(sep)` for a one-character separator: the maximal pieces between
      occurrences of `sep`; an empty string gives one empty piece. */
  function Split(s: string, sep: char): (r: seq<string>)
    ensures |r| >= 1
    ensures forall i :: 0 <= i < |r| ==> sep !in r[i]
  {
    if s == [] then [[]]
    else if s[0] == sep then [[]] + Split(s[1..], sep)
    else
      var rest := Split(s[1..], sep);
      [[s[0]] + rest[0]] + rest[1..]
  }

  /** Joining the pieces with the separator gives the string back. */
  lemma {:induction false} JoinSplit(s: string, sep: char)
    ensures Join(Split(s, sep), [sep]) == s
  {
    if s == [] {
    } else if s[0] == sep {
      JoinSplit(s[1..], sep);
      var rest := Split(s[1..], sep);
      assert Split(s, sep) == [[]] + rest;
      if |rest| == 1 {
        assert Join(Split(s, sep), [sep]) == [] + [sep] + rest[0];
      } else {
        assert ([[]] + rest)[1..] == rest;
      }
    } else {
      JoinSplit(s[1..], sep);
      var rest := Split(s[1..], sep);
      if |rest| > 1 {
        assert ([[s[0]] + rest[0]] + rest[1..])[1..] == rest[1..];
        assert Join(rest, [sep]) == rest[0] + [sep] + Join(rest[1..], [sep]);
      }
    }
  }

  /** A piece free of the separator, followed by the separator, splits off as
      the first piece. */
  lemma {:induction false} SplitCons(a: string, sep: char, b: string)
    requires sep !in a
    ensures Split(a + [sep] + b, sep) == [a] + Split(b, sep)
  {
    if a == [] {
      assert a + [sep] + b == [sep] + b;
      assert ([sep] + b)[1..] == b;
    } else {
      assert (a + [sep] + b)[1..] == a[1..] + [sep] + b;
      SplitCons(a[1..], sep, b);
      assert [a[0]] + a[1..] == a;
    }
  }

  /** A string without the separator is a single piece. */
  lemma {:induction false} SplitNone(a: string, sep: char)
    requires sep !in a
    ensures Split(a, sep) == [a]
  {
    if a != [] {
      SplitNone(a[1..], sep);
      assert [a[0]] + a[1..] == a;
    }
  }

  // ---------------------------------------------------------------------------
  // Digits and the decimal rendering of integers

  /** The value of `c` as a digit in base `radix` (10 or 16), if it is one:
      `0-9`, then `a-z` or `A-Z` standing for 10 and up. */
  function DigitOf(c: char, radix: nat): Option<nat> {
    var v :=
      if '0' <= c <= '9' then (c as int) - ('0' as int)
      else if 'a' <= c <= 'z' then (c as int) - ('a' as int) + 10
      else if 'A' <= c <= 'Z' then (c as int) - ('A' as int) + 10
      else radix;
    if v < radix then Some(v) else None
  }

  predicate AllDigits(s: string, radix: nat) {
    forall i :: 0 <= i < |s| ==> DigitOf(s[i], radix).Some?
  }

  /** The number written by the digit string `z` in base `radix`, most
      significant digit first. */
  function RadixValue(z: string, radix: nat): nat
    requires AllDigits(z, radix)
  {
    if z == [] then 0
    else RadixValue(z[..|z| - 1], radix) * radix + DigitOf(z[|z| - 1], radix).value
  }

  /** The decimal digits are exactly the characters with a value below 10. */
  lemma DecimalDigit(c: char)
    ensures IsDigit(c) <==> DigitOf(c, 10).Some?
    ensures IsDigit(c) ==> DigitOf(c, 10).value == (c as int) - ('0' as int)
  {
  }

  function DigitChar(d: nat): (c: char)
    requires d < 10
    ensures IsDigit(c) && DigitOf(c, 10) == Some(d)
  {
    (('0' as int) + d) as char
  }

  /** The shortest decimal numeral of `n`, as `Number.prototype.toString`
      writes it. */
  function NatToString(n: nat): (r: string)
    ensures r != [] && AllDigits(r, 10)
    ensures forall i :: 0 <= i < |r| ==> IsDigit(r[i])
    ensures RadixValue(r, 10) == n
    ensures r[0] == '0' ==> r == "0"
  {
    if n < 10 then [DigitChar(n)]
    else
      var r := NatToString(n / 10) + [DigitChar(n % 10)];
      assert r[..|r| - 1] == NatToString(n / 10);
      r
  }

  /** `${n}` for an integral Number: a minus sign before the magnitude. */
  function IntToString(n: int): (r: string)
    ensures r != [] && !IsWhitespace(r[0]) && '\n' !in r
  {
    if n < 0 then "-" + NatToString(-n) else NatToString(n)
  }

  // ---------------------------------------------------------------------------
  // parseInt

  /** The longest prefix of `s` made of base-`radix` digits. */
  function DigitPrefix(s: string, radix: nat): (z: string)
    ensures |z| <= |s| && z == s[..|z|] && AllDigits(z, radix)
    ensures |z| < |s| ==> DigitOf(s[|z|], radix).None?
  {
    if s != [] && DigitOf(s[0], radix).Some? then
      var z := [s[0]] + DigitPrefix(s[1..], radix);
      assert z == s[..|z|];
      z
    else
      []
  }

  /** The global `parseInt(s)` with no radix argument: leading whitespace is
      skipped, one `+` or `-` is taken, and the rest is read by
      ParseMagnitude; anything after the digits is ignored. `None` stands for
      `NaN`. */
  function ParseInt(s: string): (r: Option<int>)
    ensures AllWhitespace(s) ==> r.None?
    ensures r.Some? && r.value < 0 ==> TrimStart(s) != [] && TrimStart(s)[0] == '-'
  {
    TrimStartSuffix(s);
    ParseSigned(TrimStart(s))
  }

  /** `parseInt` after the leading whitespace: an optional sign, then the
      magnitude. */
  function ParseSigned(t: string): (r: Option<int>)
  {
    var negative := t != [] && t[0] == '-';
    var u := if t != [] && (t[0] == '-' || t[0] == '+') then t[1..] else t;
    match ParseMagnitude(u)
    case None => None
    case Some(v) =>
      var w: int := v;
      Some(if negative then -w else w)
  }

  /** The unsigned part of `parseInt`: a `0x`/`0X` prefix switches to base 16,
      and the longest run of digits that follows is read; no digit at all
      gives `None`. */
  function ParseMagnitude(u: string): (r: Option<nat>)
  {
    var hex := |u| >= 2 && u[0] == '0' && (u[1] == 'x' || u[1] == 'X');
    var radix := if hex then 16 else 10;
    var z := DigitPrefix(if hex then u[2..] else u, radix);
    if z == [] then None else Some(RadixValue(z, radix))
  }

  /** A run of decimal digits followed by a non-digit is read up to the
      non-digit. */
  lemma {:induction false} DigitPrefixStops(d: string, junk: string)
    requires AllDigits(d, 10)
    requires junk == [] || DigitOf(junk[0], 10).None?
    ensures DigitPrefix(d + junk, 10) == d
  {
    if d != [] {
      assert (d + junk)[1..] == d[1..] + junk;
      DigitPrefixStops(d[1..], junk);
      assert [d[0]] + d[1..] == d;
    } else {
      assert d + junk == junk;
    }
  }

  /** The magnitude of a decimal numeral is read back, whatever non-digit
      text follows it (for 0, `x` or `X` would make `0x` a hex prefix). */
  lemma MagnitudeOfNatToString(n: nat, junk: string)
    requires junk == [] || (DigitOf(junk[0], 10).None? && (n == 0 ==> junk[0] != 'x' && junk[0] != 'X'))
    ensures ParseMagnitude(NatToString(n) + junk) == Some(n)
  {
    var mag := NatToString(n);
    var u := mag + junk;
    DigitPrefixStops(mag, junk);
    if |u| >= 2 && u[0] == '0' {
      assert mag == "0";
      assert u[1] == junk[0];
    }
  }

  /** After the whitespace, `parseInt` reads back the decimal rendering of
      any integer before any text that does not continue the numeral. */
  lemma SignedOfIntToString(n: int, junk: string)
    requires junk == [] || (DigitOf(junk[0], 10).None? && (n == 0 ==> junk[0] != 'x' && junk[0] != 'X'))
    ensures ParseSigned(IntToString(n) + junk) == Some(n)
  {
    if n < 0 {
      NegativeNumeral(n, junk);
    } else {
      MagnitudeOfNatToString(n, junk);
      SignedUnsigned(NatToString(n) + junk, n);
    }
  }

  lemma NegativeNumeral(n: int, junk: string)
    requires n < 0
    requires junk == [] || DigitOf(junk[0], 10).None?
    ensures ParseSigned(IntToString(n) + junk) == Some(n)
  {
    var mag := NatToString(-n);
    MagnitudeOfNatToString(-n, junk);
    SignedAfterMinus(mag, junk, -n);
    assert IntToString(n) == "-" + mag;
  }

  lemma SignedAfterMinus(mag: string, junk: string, m: nat)
    requires ParseMagnitude(mag + junk) == Some(m)
    ensures ParseSigned("-" + mag + junk) == Some(-(m as int))
  {
    assert ("-" + mag + junk)[1..] == mag + junk;
  }

  lemma SignedUnsigned(u: string, m: nat)
    requires u != [] && IsDigit(u[0])
    requires ParseMagnitude(u) == Some(m)
    ensures ParseSigned(u) == Some(m)
  {
  }

  /** `parseInt` reads back the decimal rendering of any integer, after any
      leading whitespace and before any trailing text that does not continue
      the numeral. */
  lemma ParseIntOfIntToString(ws: string, n: int, junk: string)
    requires AllWhitespace(ws)
    requires junk == [] || (DigitOf(junk[0], 10).None? && (n == 0 ==> junk[0] != 'x' && junk[0] != 'X'))
    ensures ParseInt(ws + IntToString(n) + junk) == Some(n)
  {
    var body := IntToString(n) + junk;
    assert ws + IntToString(n) + junk == ws + body;
    TrimStartSkips(ws, body);
    SignedOfIntToString(n, junk);
  }

  lemma {:induction false} TrimStartSkips(ws: string, body: string)
    requires AllWhitespace(ws)
    requires body != [] && !IsWhitespace(body[0])
    ensures TrimStart(ws + body) == body
  {
    if ws != [] {
      assert (ws + body)[1..] == ws[1..] + body;
      TrimStartSkips(ws[1..], body);
    } else {
      assert ws + body == body;
    }
  }
}
