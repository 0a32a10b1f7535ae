/** The few Python 2 string operations the sorter relies on: str.strip(),
    int() on a string, and the %d, %0Nd and %s conversions. */
module PyText {
  import opened Values

  /** The characters Python 2's str.strip() removes: space, tab, newline,
      carriage return, vertical tab and form feed. */
  predicate IsSpace(c: char) {
    c == ' ' || c == '\t' || c == '\n' || c == '\r' || c as int == 11 || c as int == 12
  }

  predicate NoOuterSpace(s: string) {
    s == [] || (!IsSpace(s[0]) && !IsSpace(s[|s| - 1]))
  }

  /** str.lstrip(): the longest suffix of s that does not start with whitespace. */
  function LStrip(s: string): (r: string)
    ensures |r| <= |s| && r == s[|s| - |r|..]
    ensures r == [] || !IsSpace(r[0])
    decreases |s|
  {
    if |s| > 0 && IsSpace(s[0]) then LStrip(s[1..]) else s
  }

  /** str.rstrip(): the longest prefix of s that does not end with whitespace. */
  function RStrip(s: string): (r: string)
    ensures |r| <= |s| && r == s[..|r|]
    ensures r == [] || !IsSpace(r[|r| - 1])
    decreases |s|
  {
    if |s| > 0 && IsSpace(s[|s| - 1]) then RStrip(s[..|s| - 1]) else s
  }

  /** lstrip removes whitespace only. */
  lemma {:induction false} LStripSkipsSpace(s: string)
    ensures forall i :: 0 <= i < |s| - |LStrip(s)| ==> IsSpace(s[i])
    decreases |s|
  {
    if |s| > 0 && IsSpace(s[0]) {
      var t := s[1..];
      LStripSkipsSpace(t);
      assert LStrip(s) == LStrip(t);
      forall i | 1 <= i < |s| - |LStrip(s)|
        ensures IsSpace(s[i])
      {
        assert s[i] == t[i - 1] && i - 1 < |t| - |LStrip(t)|;
      }
    }
  }

  /** rstrip removes whitespace only. */
  lemma {:induction false} RStripSkipsSpace(s: string)
    ensures forall i :: |RStrip(s)| <= i < |s| ==> IsSpace(s[i])
    decreases |s|
  {
    if |s| > 0 && IsSpace(s[|s| - 1]) {
      RStripSkipsSpace(s[..|s| - 1]);
    }
  }

  /** Concatenation regroups freely. */
  lemma AppendRegroup(a: string, b: string, c: string)
    ensures a + (b + c) == a + b + c
  {
  }

  /** str.strip(): no whitespace at either end, and a string that already
      has none is returned unchanged. */
  function Strip(s: string): (r: string)
    ensures NoOuterSpace(r) && |r| <= |s|
    ensures NoOuterSpace(s) ==> r == s
  {
    RStrip(LStrip(s))
  }

  /** Stripping the front of a concatenation stops inside the left part
      when the right part starts with a non-space. */
  lemma {:induction false} LStripAppend(a: string, b: string)
    requires b != [] && !IsSpace(b[0])
    ensures LStrip(a + b) == LStrip(a) + b
  {
    if a == [] {
      assert a + b == b;
    } else if IsSpace(a[0]) {
      assert (a + b)[1..] == a[1..] + b;
      LStripAppend(a[1..], b);
    }
  }

  /** Stripping the back of a concatenation stops inside the right part
      when the left part ends with a non-space. */
  lemma {:induction false} RStripPrepend(a: string, b: string)
    requires a != [] && !IsSpace(a[|a| - 1])
    ensures RStrip(a + b) == a + RStrip(b)
  {
    if b == [] {
      assert a + b == a;
    } else if IsSpace(b[|b| - 1]) {
      assert (a + b)[..|a + b| - 1] == a + b[..|b| - 1];
      RStripPrepend(a, b[..|b| - 1]);
    }
  }

  predicate IsDigit(c: char) {
    '0' <= c <= '9'
  }

  predicate AllDigits(s: string) {
    forall i :: 0 <= i < |s| ==> IsDigit(s[i])
  }

  function DigitChar(d: nat): (c: char)
    requires d < 10
    ensures IsDigit(c)
  {
    ('0' as int + d) as char
  }

  function DigitValue(c: char): (d: nat)
    requires IsDigit(c)
    ensures d < 10
  {
    c as int - '0' as int
  }

  function Pow10(k: nat): (r: nat)
    ensures r >= 1
  {
    if k == 0 then 1 else 10 * Pow10(k - 1)
  }

  /** The decimal digits of n, with no leading zero unless n is 0. */
  function Digits(n: nat): (r: string)
    ensures r != [] && AllDigits(r)
    ensures (r[0] == '0') == (n == 0)
    decreases n
  {
    if n < 10 then [DigitChar(n)] else Digits(n / 10) + [DigitChar(n % 10)]
  }

  /** The number a string of decimal digits denotes. */
  function ParseDigits(s: string): nat
    requires AllDigits(s)
  {
    if s == [] then 0 else ParseDigits(s[..|s| - 1]) * 10 + DigitValue(s[|s| - 1])
  }

  lemma {:induction false} DigitsRoundTrip(n: nat)
    ensures ParseDigits(Digits(n)) == n
  {
    if n >= 10 {
      var d := Digits(n);
      assert d[..|d| - 1] == Digits(n / 10);
      DigitsRoundTrip(n / 10);
    }
  }

  /** The value of a concatenation of digit strings. */
  lemma {:induction false} ParseDigitsAppend(a: string, b: string)
    requires AllDigits(a) && AllDigits(b)
    ensures AllDigits(a + b)
    ensures ParseDigits(a + b) == ParseDigits(a) * Pow10(|b|) + ParseDigits(b)
  {
    if b == [] {
      assert a + b == a;
    } else {
      var c := a + b;
      var b' := b[..|b| - 1];
      assert c[..|c| - 1] == a + b';
      ParseDigitsAppend(a, b');
      var x, y, p := ParseDigits(a), ParseDigits(b'), Pow10(|b'|);
      assert Pow10(|b|) == 10 * p;
      assert ParseDigits(c) == (x * p + y) * 10 + DigitValue(b[|b| - 1]);
      assert ParseDigits(b) == y * 10 + DigitValue(b[|b| - 1]);
      ShiftDigit(x, p, y, DigitValue(b[|b| - 1]));
    }
  }

  lemma ShiftDigit(x: int, p: int, y: int, d: int)
    ensures (x * p + y) * 10 + d == x * (10 * p) + (y * 10 + d)
  {
  }

  function Zeros(k: nat): (r: string)
    ensures |r| == k && AllDigits(r)
  {
    seq(k, _ => '0')
  }

  lemma {:induction false} ZerosDenoteZero(k: nat)
    ensures ParseDigits(Zeros(k)) == 0
  {
    if k > 0 {
      assert Zeros(k)[..k - 1] == Zeros(k - 1);
      ZerosDenoteZero(k - 1);
    }
  }

  /** Python's '%d' (and str() of an int). */
  function FormatInt(n: int): string {
    if n < 0 then "-" + Digits(-n) else Digits(n)
  }

  /** Left-pads a digit string with zeros to at least width characters. */
  function PadDigits(d: string, width: nat): string {
    if |d| < width then Zeros(width - |d|) + d else d
  }

  /** Python's '%0<width>d': zero-padded to at least width characters, the
      sign counting towards the width. */
  function FormatPadded(n: int, width: nat): string {
    if n < 0 then "-" + PadDigits(Digits(-n), if width > 0 then width - 1 else 0)
    else PadDigits(Digits(n), width)
  }

  /** Python 2's int() applied to a string: surrounding whitespace is
      skipped, then one optional sign, then (as PyOS_strtol does) any
      whitespace after the sign, then at least one decimal digit. */
  function ParseInt(s: string): Option<int>
    decreases |s|
  {
    if s != [] && IsSpace(s[0]) then ParseInt(s[1..])
    else if s != [] && IsSpace(s[|s| - 1]) then ParseInt(s[..|s| - 1])
    else ParseSigned(s)
  }

  /** int() once the surrounding whitespace is gone. */
  function ParseSigned(t: string): Option<int> {
    var signed := t != [] && (t[0] == '-' || t[0] == '+');
    var digits := if signed then LStrip(t[1..]) else t;
    if digits != [] && AllDigits(digits) then
      Some(if signed && t[0] == '-' then -(ParseDigits(digits) as int) else ParseDigits(digits))
    else None
  }

  /** int() is the same as reading the str.strip()ped text. */
  lemma {:induction false} ParseIntIgnoresSpace(s: string)
    ensures ParseInt(s) == ParseSigned(Strip(s))
    decreases |s|
  {
    if s != [] && IsSpace(s[0]) {
      ParseIntIgnoresSpace(s[1..]);
      StripSkipsFirst(s);
    } else if s != [] && IsSpace(s[|s| - 1]) {
      ParseIntIgnoresSpace(s[..|s| - 1]);
      StripSkipsLast(s);
    } else {
      assert NoOuterSpace(s);
    }
  }

  lemma StripSkipsFirst(s: string)
    requires s != [] && IsSpace(s[0])
    ensures Strip(s) == Strip(s[1..])
  {
    assert LStrip(s) == LStrip(s[1..]);
  }

  lemma StripSkipsLast(s: string)
    requires s != [] && !IsSpace(s[0]) && IsSpace(s[|s| - 1])
    ensures Strip(s) == Strip(s[..|s| - 1])
  {
    var s' := s[..|s| - 1];
    assert LStrip(s) == s;
    assert s' != [] && s'[0] == s[0];
    assert LStrip(s') == s';
    assert RStrip(s) == RStrip(s');
  }

  /** A non-empty digit string parses to the number it denotes. */
  lemma ParseIntOfDigits(s: string)
    requires s != [] && AllDigits(s)
    ensures ParseInt(s) == Some(ParseDigits(s) as int)
  {
    assert IsDigit(s[0]) && IsDigit(s[|s| - 1]);
  }

  lemma PaddedDigitsDenote(n: nat, width: nat)
    ensures AllDigits(PadDigits(Digits(n), width))
    ensures PadDigits(Digits(n), width) != []
    ensures ParseDigits(PadDigits(Digits(n), width)) == n
  {
    var d := Digits(n);
    DigitsRoundTrip(n);
    if |d| < width {
      var z := Zeros(width - |d|);
      assert PadDigits(d, width) == z + d;
      assert ParseDigits(z + d) == ParseDigits(d) by {
        ZerosDenoteZero(width - |d|);
        var p := Pow10(|d|);
        ParseDigitsAppend(z, d);
        assert ParseDigits(z) == 0;
        assert ParseDigits(z + d) == 0 * p + ParseDigits(d);
      }
    }
  }

  lemma PadDigitsLength(d: string, width: nat)
    ensures |PadDigits(d, width)| == if |d| < width then width else |d|
  {
  }

  /** A minus sign followed by a non-empty digit string parses to minus
      the number the digits denote. */
  lemma ParseIntOfNegative(p: string)
    requires p != [] && AllDigits(p)
    ensures ParseInt("-" + p) == Some(-(ParseDigits(p) as int))
  {
    var s := "-" + p;
    assert s[1..] == p;
    assert IsDigit(p[0]) && IsDigit(p[|p| - 1]);
    ParseIntIsSigned(s);
    NothingToLStrip(p);
    ParseSignedAfterSign(s, p);
  }

  /** Text with no whitespace at either end is read by ParseSigned. */
  lemma ParseIntIsSigned(t: string)
    requires t != [] && !IsSpace(t[0]) && !IsSpace(t[|t| - 1])
    ensures ParseInt(t) == ParseSigned(t)
  {
  }

  lemma NothingToLStrip(l: string)
    requires l != [] && !IsSpace(l[0])
    ensures LStrip(l) == l
  {
  }

  lemma NothingToRStrip(l: string)
    requires l != [] && !IsSpace(l[|l| - 1])
    ensures RStrip(l) == l
  {
  }

  /** A sign, then text that lstrips to digits. */
  lemma ParseSignedAfterSign(t: string, d: string)
    requires t != [] && (t[0] == '-' || t[0] == '+')
    requires LStrip(t[1..]) == d && d != [] && AllDigits(d)
    ensures ParseSigned(t) == Some(if t[0] == '-' then -(ParseDigits(d) as int) else ParseDigits(d) as int)
  {
  }

  /** Whitespace between the sign and the digits is skipped: int('- 5') is
      -5 and int('+ 7') is 7. */
  lemma ParseIntSpaceAfterSign(sign: char, gap: string, d: string)
    requires sign == '-' || sign == '+'
    requires forall i :: 0 <= i < |gap| ==> IsSpace(gap[i])
    requires d != [] && AllDigits(d)
    ensures ParseInt([sign] + gap + d) == Some(if sign == '-' then -(ParseDigits(d) as int) else ParseDigits(d) as int)
  {
    var rest := gap + d;
    assert LStrip(rest) == d by {
      assert IsDigit(d[0]);
      LStripAppend(gap, d);
      AllSpaceLStrips(gap);
    }
    assert [sign] + gap + d == [sign] + rest;
    SignedText(sign, rest, d);
  }

  /** A sign followed by text that lstrips to digits reads as those digits
      with that sign. */
  lemma SignedText(sign: char, rest: string, d: string)
    requires sign == '-' || sign == '+'
    requires rest != [] && LStrip(rest) == d && d != [] && AllDigits(d)
    ensures ParseInt([sign] + rest) == Some(if sign == '-' then -(ParseDigits(d) as int) else ParseDigits(d) as int)
  {
    var t := [sign] + rest;
    assert t[1..] == rest;
    assert rest[|rest| - 1] == d[|d| - 1] && IsDigit(d[|d| - 1]);
    ParseIntIsSigned(t);
    ParseSignedAfterSign(t, d);
  }

  /** Text made only of whitespace lstrips to nothing. */
  lemma AllSpaceLStrips(gap: string)
    requires forall i :: 0 <= i < |gap| ==> IsSpace(gap[i])
    ensures LStrip(gap) == []
  {
  }

  /** A string of exactly four digits reads as the number they spell. */
  lemma ReadFour(s: string)
    requires |s| == 4 && AllDigits(s)
    ensures ParseDigits(s) == 1000 * DigitValue(s[0]) + 100 * DigitValue(s[1]) + 10 * DigitValue(s[2]) + DigitValue(s[3])
    ensures ParseInt(s) == Some(ParseDigits(s) as int)
  {
    var a, b, c := s[..3], s[..2], s[..1];
    assert a[..2] == b && b[..1] == c && c[..0] == [];
    assert a[2] == s[2] && b[1] == s[1] && c[0] == s[0];
    assert ParseDigits(c) == DigitValue(s[0]);
    assert ParseDigits(b) == ParseDigits(c) * 10 + DigitValue(s[1]);
    assert ParseDigits(a) == ParseDigits(b) * 10 + DigitValue(s[2]);
    assert ParseDigits(s) == ParseDigits(a) * 10 + DigitValue(s[3]);
    ParseIntOfDigits(s);
  }

  lemma NegativePaddedForm(n: int, width: nat)
    requires n < 0
    ensures FormatPadded(n, width) == "-" + PadDigits(Digits(-n), if width > 0 then width - 1 else 0)
  {
  }

  lemma NegativePaddedParses(n: int, width: nat)
    requires n < 0
    ensures ParseInt(FormatPadded(n, width)) == Some(n)
  {
    var w := if width > 0 then width - 1 else 0;
    var p := PadDigits(Digits(-n), w);
    assert FormatPadded(n, width) == "-" + p by { NegativePaddedForm(n, width); }
    assert p != [] && AllDigits(p) && ParseDigits(p) == -n by { PaddedDigitsDenote(-n, w); }
    assert ParseInt("-" + p) == Some(n) by { ParseIntOfNegative(p); }
  }

  /** '%0Nd' and int() are inverse: the padded text parses back to the
      number, and it is exactly as long as the width or the unpadded text. */
  lemma FormatPaddedRoundTrip(n: int, width: nat)
    ensures ParseInt(FormatPadded(n, width)) == Some(n)
    ensures |FormatPadded(n, width)| == if |FormatInt(n)| < width then width else |FormatInt(n)|
  {
    if n < 0 {
      NegativePaddedParses(n, width);
      PadDigitsLength(Digits(-n), if width > 0 then width - 1 else 0);
    } else {
      PaddedDigitsDenote(n, width);
      ParseIntOfDigits(FormatPadded(n, width));
      PadDigitsLength(Digits(n), width);
    }
  }

  /** '%0Nd' text starts with a sign or a digit and ends with a digit, so
      str.strip() leaves it and whatever is glued to it alone. */
  lemma FormatPaddedShape(n: int, width: nat)
    ensures FormatPadded(n, width) != []
    ensures FormatPadded(n, width)[0] == '-' || IsDigit(FormatPadded(n, width)[0])
    ensures IsDigit(FormatPadded(n, width)[|FormatPadded(n, width)| - 1])
  {
    if n < 0 {
      PaddedDigitsDenote(-n, if width > 0 then width - 1 else 0);
    } else {
      PaddedDigitsDenote(n, width);
    }
  }

  /** '%d' and int() are inverse. */
  lemma FormatIntRoundTrip(n: int)
    ensures ParseInt(FormatInt(n)) == Some(n)
  {
    FormatPaddedRoundTrip(n, 0);
    assert FormatPadded(n, 0) == FormatInt(n);
  }

  /** Python's int() applied to an element value. */
  function IntOf(v: Value): Option<int> {
    match v
    case Text(s) => ParseInt(s)
    case Number(n) => Some(n)
    case Tags(_) => None
  }

  /** Python's '%s' applied to an element value; a multi-valued element is
      shown as the list it holds. */
  function Str(v: Value): string {
    match v
    case Text(s) => s
    case Number(n) => FormatInt(n)
    case Tags(items) => "[" + QuotedList(items) + "]"
  }

  function QuotedList(items: seq<string>): string
    decreases |items|
  {
    if items == [] then ""
    else if |items| == 1 then "'" + items[0] + "'"
    else "'" + items[0] + "', " + QuotedList(items[1..])
  }
}
