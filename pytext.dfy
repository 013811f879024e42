/**
 * The pieces of Python's text handling the door scripts rely on: `str.strip()`,
 * `str.split(sep)`, `str(n)`, the `'0<width>d'` format of an int, and `int(text)`
 * in base 10.
 */
module PyText {
  import opened Wrappers

  /** The characters for which Python's `str.isspace()` holds; `strip()` and `int()` drop them. */
  predicate IsSpace(c: char) {
    || ('\t' <= c <= '\r')
    || ('\U{1C}' <= c <= ' ')
    || c == '\U{85}' || c == '\U{A0}' || c == '\U{1680}'
    || ('\U{2000}' <= c <= '\U{200A}')
    || c == '\U{2028}' || c == '\U{2029}' || c == '\U{202F}' || c == '\U{205F}' || c == '\U{3000}'
  }

  predicate IsDigit(c: char) {
    '0' <= c <= '9'
  }

  predicate AllDigits(s: string) {
    forall i :: 0 <= i < |s| ==> IsDigit(s[i])
  }

  function DigitChar(d: nat): (c: char)
    requires d < 10
    ensures IsDigit(c)
  {
    ('0' as int + d) as char
  }

  function DigitValue(c: char): (d: nat)
    requires IsDigit(c)
    ensures d < 10 && DigitChar(d) == c
  {
    c as int - '0' as int
  }

  /** The number a string of decimal digits denotes, most significant digit first. */
  function DigitsValue(s: string): nat
    requires AllDigits(s)
  {
    if s == [] then 0 else DigitsValue(s[..|s| - 1]) * 10 + DigitValue(s[|s| - 1])
  }

  function Pow10(k: nat): (p: nat)
    ensures p >= 1
  {
    if k == 0 then 1 else 10 * Pow10(k - 1)
  }

  /**
   * `str(n)` for a non-negative int: its decimal digits, which denote `n` again,
   * with no leading zero unless `n` is 0 itself.
   */
  function Digits(n: nat): (s: string)
    ensures 1 <= |s| && AllDigits(s)
    ensures DigitsValue(s) == n
    ensures n < 10 <==> |s| == 1
    ensures n > 0 ==> s[0] != '0'
  {
    if n < 10 then [DigitChar(n)]
    else
      var s := Digits(n / 10) + [DigitChar(n % 10)];
      assert s[..|s| - 1] == Digits(n / 10);
      s
  }

  /** A number below 10^k needs at most k digits. */
  lemma {:induction false} DigitsLength(n: nat, k: nat)
    requires 1 <= k && n < Pow10(k)
    ensures |Digits(n)| <= k
  {
    if n >= 10 {
      assert n / 10 < Pow10(k - 1);
      DigitsLength(n / 10, k - 1);
    }
  }

  lemma DigitsFit(n: nat, k: nat)
    ensures 1 <= k && n < Pow10(k) ==> |Digits(n)| <= k
  {
    if 1 <= k && n < Pow10(k) { DigitsLength(n, k); }
  }

  function Zeros(k: nat): (s: string)
    ensures |s| == k && forall i :: 0 <= i < k ==> s[i] == '0'
  {
    if k == 0 then [] else Zeros(k - 1) + ['0']
  }

  /** Prefixes `s` with as many '0' as it takes to reach `width` characters. */
  function ZeroFill(s: string, width: nat): string {
    if |s| < width then Zeros(width - |s|) + s else s
  }

  /**
   * `format(i, '0<width>d')`: the decimal text of `i`, a '-' first when it is
   * negative, zero-filled after the sign to at least `width` characters. The
   * text is as long as `str(i)` or `width`, whichever is longer.
   */
  function FormatInt(i: int, width: nat): (s: string)
    ensures var d := |Digits(if i < 0 then -i else i)| + (if i < 0 then 1 else 0);
      |s| == if d > width then d else width
    ensures |s| >= width && |s| >= 1
    ensures i >= 0 ==> AllDigits(s)
    ensures i < 0 ==> s[0] == '-' && AllDigits(s[1..])
    ensures 0 <= i && i < Pow10(width) && width >= 1 ==> |s| == width
  {
    if i < 0 then "-" + ZeroFill(Digits(-i), if width > 0 then width - 1 else 0)
    else
      DigitsFit(i, width);
      ZeroFill(Digits(i), width)
  }

  /** Leading zeros do not change the value of a digit string. */
  lemma {:induction false} LeadingZeros(k: nat, d: string)
    requires AllDigits(d)
    ensures AllDigits(Zeros(k) + d) && DigitsValue(Zeros(k) + d) == DigitsValue(d)
  {
    var s := Zeros(k) + d;
    if d == [] {
      assert s == Zeros(k);
      ZerosValue(k);
    } else {
      var d' := d[..|d| - 1];
      assert s[..|s| - 1] == Zeros(k) + d';
      LeadingZeros(k, d');
    }
  }

  lemma {:induction false} ZerosValue(k: nat)
    ensures AllDigits(Zeros(k)) && DigitsValue(Zeros(k)) == 0
  {
    if k > 0 {
      assert Zeros(k)[..k - 1] == Zeros(k - 1);
      ZerosValue(k - 1);
    }
  }

  function LStrip(s: string): (r: string)
    ensures |r| <= |s| && r == s[|s| - |r|..]
    ensures forall i :: 0 <= i < |s| - |r| ==> IsSpace(s[i])
    ensures r == [] || !IsSpace(r[0])
  {
    if s != [] && IsSpace(s[0]) then LStrip(s[1..]) else s
  }

  function RStrip(s: string): (r: string)
    ensures |r| <= |s| && r == s[..|r|]
    ensures forall i :: |r| <= i < |s| ==> IsSpace(s[i])
    ensures r == [] || !IsSpace(r[|r| - 1])
  {
    if s != [] && IsSpace(s[|s| - 1]) then RStrip(s[..|s| - 1]) else s
  }

  /**
   * `str.strip()`: `s` without its leading and trailing white space. The result
   * neither starts nor ends with white space, and it is empty exactly when `s`
   * is all white space; `StripIsInfix` shows it is a slice of `s`.
   */
  function Strip(s: string): (r: string)
    ensures |r| <= |s|
    ensures r == [] || (!IsSpace(r[0]) && !IsSpace(r[|r| - 1]))
    ensures r == [] <==> forall i :: 0 <= i < |s| ==> IsSpace(s[i])
  {
    var l := LStrip(s);
    var r := RStrip(l);
    assert r != [] ==> r[0] == l[0];
    r
  }

  /** What `strip()` returns is the slice of `s` between a white-space prefix and a white-space suffix. */
  lemma StripIsInfix(s: string)
    ensures exists a, b ::
      && 0 <= a <= b <= |s| && Strip(s) == s[a..b]
      && (forall i :: 0 <= i < a ==> IsSpace(s[i]))
      && (forall i :: b <= i < |s| ==> IsSpace(s[i]))
  {
    var l := LStrip(s);
    var r := RStrip(l);
    var a := |s| - |l|;
    var b := a + |r|;
    assert l == s[a..];
    assert r == l[..|r|];
    assert Strip(s) == s[a..b] by {
      assert s[a..b] == s[a..][..|r|];
    }
    assert forall i :: 0 <= i < a ==> IsSpace(s[i]);
    forall i | b <= i < |s|
      ensures IsSpace(s[i])
    {
      assert s[i] == l[i - a];
    }
  }

  lemma StripUnpadded(s: string)
    requires s != [] && !IsSpace(s[0]) && !IsSpace(s[|s| - 1])
    ensures Strip(s) == s
  {
  }

  /** A base-10 literal `int()` accepts after its sign: digits, single underscores between digits. */
  predicate IsNumeral(s: string) {
    && s != []
    && (forall i :: 0 <= i < |s| ==> IsDigit(s[i]) || s[i] == '_')
    && (forall i :: 0 <= i < |s| && s[i] == '_' ==> 0 < i < |s| - 1 && IsDigit(s[i - 1]) && IsDigit(s[i + 1]))
  }

  function DropUnderscores(s: string): (r: string)
    requires forall i :: 0 <= i < |s| ==> IsDigit(s[i]) || s[i] == '_'
    ensures AllDigits(r)
    ensures AllDigits(s) ==> r == s
  {
    if s == [] then [] else (if s[0] == '_' then [] else [s[0]]) + DropUnderscores(s[1..])
  }

  function ParseNumeral(s: string): Option<nat> {
    if IsNumeral(s) then Some(DigitsValue(DropUnderscores(s))) else None
  }

  /**
   * `int(text)` in base 10: surrounding white space, then an optional sign, then a
   * numeral. None stands for the ValueError Python raises on anything else: blank
   * text is refused, accepted text ends in a digit once stripped, a negative
   * result needs a '-', and plain digits read as their decimal value.
   */
  function ParseInt(text: string): (r: Option<int>)
    ensures Strip(text) == [] ==> r.None?
    ensures r.Some? ==> Strip(text) != [] && IsDigit(Strip(text)[|Strip(text)| - 1])
    ensures r.Some? && r.value < 0 ==> Strip(text) != [] && Strip(text)[0] == '-'
    ensures Strip(text) != [] && AllDigits(Strip(text)) ==> r == Some(DigitsValue(Strip(text)))
  {
    var t := Strip(text);
    if t != [] && (t[0] == '+' || t[0] == '-') then
      match ParseNumeral(t[1..])
      case None => None
      case Some(v) => Some(if t[0] == '-' then 0 - v else v as int)
    else
      ParseNumeral(t)
  }

  lemma NumeralOfDigits(s: string)
    requires s != [] && AllDigits(s)
    ensures ParseNumeral(s) == Some(DigitsValue(s))
  {
    assert IsNumeral(s);
  }

  lemma ParseDigits(s: string)
    requires s != [] && AllDigits(s)
    ensures ParseInt(s) == Some(DigitsValue(s))
  {
    StripUnpadded(s);
    NumeralOfDigits(s);
  }

  /** A stripped text of '-' and a numeral reads as the numeral's value, negated. */
  lemma ParseSigned(t: string, v: nat)
    requires t != [] && t[0] == '-' && Strip(t) == t && ParseNumeral(t[1..]) == Some(v)
    ensures ParseInt(t) == Some(0 - v)
  {
  }

  lemma ParseNegativeDigits(s: string)
    requires s != [] && AllDigits(s)
    ensures ParseInt("-" + s) == Some(-(DigitsValue(s) as int))
  {
    var t := "-" + s;
    assert t[0] == '-' && t[1..] == s && t[|t| - 1] == s[|s| - 1];
    StripUnpadded(t);
    NumeralOfDigits(s);
    ParseSigned(t, DigitsValue(s));
  }

  lemma ZeroFillValue(d: string, w: nat)
    requires d != [] && AllDigits(d)
    ensures ZeroFill(d, w) != [] && AllDigits(ZeroFill(d, w))
    ensures DigitsValue(ZeroFill(d, w)) == DigitsValue(d)
  {
    if |d| < w {
      LeadingZeros(w - |d|, d);
    }
  }

  /** What `format(i, '0<width>d')` writes, `int()` reads back as `i`. */
  lemma FormatIntRoundTrip(i: int, width: nat)
    ensures ParseInt(FormatInt(i, width)) == Some(i)
  {
    if i < 0 {
      var body := ZeroFill(Digits(-i), if width > 0 then width - 1 else 0);
      ZeroFillValue(Digits(-i), if width > 0 then width - 1 else 0);
      ParseNegativeDigits(body);
    } else {
      ZeroFillValue(Digits(i), width);
      ParseDigits(ZeroFill(Digits(i), width));
    }
  }

  /** `str.join`: the parts with `sep` between each two. */
  function Join(parts: seq<string>, sep: char): string
    requires |parts| >= 1
  {
    if |parts| == 1 then parts[0] else parts[0] + [sep] + Join(parts[1..], sep)
  }

  /**
   * `s.split(sep)` for a one-character separator: the maximal pieces of `s` free
   * of `sep`, which `Join` puts back together into `s`.
   */
  function Split(s: string, sep: char): (parts: seq<string>)
    ensures |parts| >= 1
    ensures forall i :: 0 <= i < |parts| ==> sep !in parts[i]
    ensures Join(parts, sep) == s
  {
    if s == [] then [[]]
    else if s[0] == sep then
      var rest := Split(s[1..], sep);
      assert s == [sep] + Join(rest, sep);
      [[]] + rest
    else
      var rest := Split(s[1..], sep);
      var parts := [[s[0]] + rest[0]] + rest[1..];
      assert parts[1..] == rest[1..];
      assert Join(parts, sep) == [s[0]] + Join(rest, sep);
      parts
  }

  lemma {:induction false} SplitNoSeparator(b: string, sep: char)
    requires sep !in b
    ensures Split(b, sep) == [b]
  {
    if b != [] {
      SplitNoSeparator(b[1..], sep);
    }
  }

  /** Text with exactly one separator splits into the two pieces around it. */
  lemma {:induction false} SplitAround(a: string, b: string, sep: char)
    requires sep !in a && sep !in b
    ensures Split(a + [sep] + b, sep) == [a, b]
  {
    var s := a + [sep] + b;
    if a == [] {
      assert s[1..] == b;
      SplitNoSeparator(b, sep);
    } else {
      assert s[1..] == a[1..] + [sep] + b;
      SplitAround(a[1..], b, sep);
      assert [s[0]] + a[1..] == a;
    }
  }
}
