/** Positional numerals: the digits of a natural number in a base, their value, the
    `N0` digit grouping of the KDL writer and `int.TryParse` on plain ASCII digits. */
module Numerals {
  import opened Wrappers
  import opened Utf16

  /** Largest value of a C# `int`. */
  const Int32Max: int := 0x7FFF_FFFF

  function Pow(base: nat, k: nat): (r: nat)
    ensures base >= 1 ==> r >= 1
  {
    if k == 0 then 1 else base * Pow(base, k - 1)
  }

  /** The value of a digit sequence, most significant digit first. */
  function ValueOf(ds: seq<nat>, base: nat): nat {
    if ds == [] then 0 else ValueOf(ds[..|ds| - 1], base) * base + ds[|ds| - 1]
  }

  /** The digits of `n` in `base`, most significant first, without leading zeros
      (`0` is the single digit 0). */
  function Digits(n: nat, base: nat): (ds: seq<nat>)
    requires base >= 2
    ensures 1 <= |ds|
    ensures forall i :: 0 <= i < |ds| ==> ds[i] < base
    ensures ValueOf(ds, base) == n
    ensures |ds| > 1 ==> ds[0] != 0
    decreases n
  {
    if n < base then [n]
    else
      DivMod(n, base);
      var ds := Digits(n / base, base) + [n % base];
      assert ds[..|ds| - 1] == Digits(n / base, base);
      ds
  }

  lemma DivMod(n: nat, base: nat)
    requires base >= 2 && n >= base
    ensures n == (n / base) * base + n % base
    ensures 1 <= n / base < n
    ensures n % base < base
  {
  }

  lemma {:induction false} ValueOfLeadingZero(ds: seq<nat>, base: nat)
    ensures ValueOf([0] + ds, base) == ValueOf(ds, base)
    decreases |ds|
  {
    if ds != [] {
      assert ([0] + ds)[..|ds|] == [0] + ds[..|ds| - 1];
      ValueOfLeadingZero(ds[..|ds| - 1], base);
    }
  }

  /** `ds` preceded by as many zeros as needed to have at least `width` digits. */
  function ZeroPad(ds: seq<nat>, width: nat): (r: seq<nat>)
    ensures |r| == if |ds| < width then width else |ds|
    ensures r[|r| - |ds|..] == ds
    ensures forall i :: 0 <= i < |r| - |ds| ==> r[i] == 0
    decreases width - |ds|
  {
    if |ds| < width then ZeroPad([0] + ds, width) else ds
  }

  lemma {:induction false} ZeroPadValue(ds: seq<nat>, width: nat, base: nat)
    ensures ValueOf(ZeroPad(ds, width), base) == ValueOf(ds, base)
    decreases width - |ds|
  {
    if |ds| < width {
      ZeroPadValue([0] + ds, width, base);
      ValueOfLeadingZero(ds, base);
    }
  }

  /** ASCII code of a decimal digit. */
  function DecimalChar(d: nat): CodeUnit
    requires d < 10
  {
    '0' as int + d
  }

  /** Lower-case ASCII code of a hexadecimal digit, as the `x` format specifier writes it. */
  function LowerHexChar(d: nat): (c: CodeUnit)
    requires d < 16
    ensures IsAsciiHexDigit(c) && HexDigitValue(c) == d
  {
    if d < 10 then '0' as int + d else 'a' as int + (d - 10)
  }

  /** The plain decimal digits of `n`. */
  function DecimalText(n: nat): (t: Text)
    ensures 1 <= |t|
    ensures forall i :: 0 <= i < |t| ==> IsAsciiDigit(t[i])
  {
    var ds := Digits(n, 10);
    seq(|ds|, i requires 0 <= i < |ds| => DecimalChar(ds[i]))
  }

  /** `ToString("x")` (minimum digits) or `ToString("x6")` (at least six digits), lower case. */
  function LowerHexText(n: nat, minWidth: nat): (t: Text)
    ensures |t| >= 1 && |t| >= minWidth
    ensures forall i :: 0 <= i < |t| ==> IsAsciiHexDigit(t[i])
  {
    ZeroPadBelow(Digits(n, 16), minWidth, 16);
    LowerHexChars(ZeroPad(Digits(n, 16), minWidth))
  }

  /** Hexadecimal digit values written as lower-case characters. */
  function LowerHexChars(ds: seq<nat>): (t: Text)
    requires forall i :: 0 <= i < |ds| ==> ds[i] < 16
    ensures |t| == |ds|
    ensures forall i :: 0 <= i < |t| ==> IsAsciiHexDigit(t[i]) && HexDigitValue(t[i]) == ds[i]
  {
    seq(|ds|, i requires 0 <= i < |ds| => LowerHexChar(ds[i]))
  }

  /** Padding with zeros keeps every digit below the base. */
  lemma ZeroPadBelow(ds: seq<nat>, width: nat, base: nat)
    requires base >= 1 && forall i :: 0 <= i < |ds| ==> ds[i] < base
    ensures forall i :: 0 <= i < |ZeroPad(ds, width)| ==> ZeroPad(ds, width)[i] < base
  {
    var r := ZeroPad(ds, width);
    var pad := |r| - |ds|;
    forall i | 0 <= i < |r| ensures r[i] < base {
      if i >= pad {
        assert r[i] == r[pad..][i - pad];
      }
    }
  }

  /** The value of a sequence of ASCII hexadecimal digits. */
  function HexValue(t: Text): nat
    requires forall i :: 0 <= i < |t| ==> IsAsciiHexDigit(t[i])
  {
    ValueOf(seq(|t|, i requires 0 <= i < |t| => HexDigitValue(t[i])), 16)
  }

  lemma LowerHexRoundTrip(n: nat, minWidth: nat)
    ensures HexValue(LowerHexText(n, minWidth)) == n
  {
    var ds := ZeroPad(Digits(n, 16), minWidth);
    ZeroPadBelow(Digits(n, 16), minWidth, 16);
    HexValueOfChars(ds);
    ZeroPadValue(Digits(n, 16), minWidth, 16);
  }

  /** Written digit values read back as the number they denote. */
  lemma HexValueOfChars(ds: seq<nat>)
    requires forall i :: 0 <= i < |ds| ==> ds[i] < 16
    ensures HexValue(LowerHexChars(ds)) == ValueOf(ds, 16)
  {
    var t := LowerHexChars(ds);
    var vs := seq(|t|, i requires 0 <= i < |t| => HexDigitValue(t[i]));
    assert forall i :: 0 <= i < |vs| ==> vs[i] == ds[i];
    assert vs == ds;
  }

  lemma LowerHexLength(n: nat)
    requires n < 0x1_0000
    ensures |LowerHexText(n, 0)| <= 4
    ensures |LowerHexText(n, 6)| == 6
  {
    DigitsLength(n, 16, 4);
  }

  lemma {:induction false} DigitsLength(n: nat, base: nat, k: nat)
    requires base >= 2
    requires n < Pow(base, k)
    ensures |Digits(n, base)| <= if k == 0 then 1 else k
    decreases n
  {
    if n >= base {
      assert k >= 2;
      DivMod(n, base);
      DivBelowPow(n, base, k);
      DigitsLength(n / base, base, k - 1);
    }
  }

  lemma DivBelowPow(n: nat, base: nat, k: nat)
    requires base >= 2 && k >= 1 && n < Pow(base, k)
    ensures n / base < Pow(base, k - 1)
  {
    assert Pow(base, k) == base * Pow(base, k - 1);
    DivBelow(n, base, Pow(base, k - 1));
  }

  lemma DivBelow(n: nat, b: nat, p: nat)
    requires b >= 1 && n < b * p
    ensures n / b < p
  {
    var q := n / b;
    assert b * q <= n;
    assert b * q - b * p == b * (q - p);
  }

  /** Inserts `_` between groups of three digits counted from the right, as the writer's
      `N0` format with group separator `_` and group size 3 does. */
  function GroupThousands(digits: Text): (t: Text)
    ensures |digits| <= |t|
    decreases |digits|
  {
    if |digits| <= 3 then digits
    else GroupThousands(digits[..|digits| - 3]) + [Underscore] + digits[|digits| - 3..]
  }

  const Underscore: CodeUnit := '_' as int
  const Minus: CodeUnit := '-' as int

  /** The text with every `_` removed. */
  function StripUnderscores(t: Text): Text {
    if t == [] then [] else (if t[0] == Underscore then [] else [t[0]]) + StripUnderscores(t[1..])
  }

  lemma {:induction false} StripAppend(a: Text, b: Text)
    ensures StripUnderscores(a + b) == StripUnderscores(a) + StripUnderscores(b)
  {
    if a == [] {
      assert a + b == b;
    } else {
      var head: Text := if a[0] == Underscore then [] else [a[0]];
      assert (a + b)[0] == a[0];
      assert (a + b)[1..] == a[1..] + b;
      StripAppend(a[1..], b);
      assert StripUnderscores(a + b) == head + StripUnderscores(a[1..] + b);
      assert StripUnderscores(a) == head + StripUnderscores(a[1..]);
    }
  }

  lemma NoUnderscoreStrip(t: Text)
    requires forall i :: 0 <= i < |t| ==> t[i] != Underscore
    ensures StripUnderscores(t) == t
  {
  }

  /** Grouping only inserts separators: removing them gives back the digits. */
  lemma {:induction false} GroupThousandsStrip(digits: Text)
    requires forall i :: 0 <= i < |digits| ==> IsAsciiDigit(digits[i])
    ensures StripUnderscores(GroupThousands(digits)) == digits
    decreases |digits|
  {
    if |digits| <= 3 {
      NoUnderscoreStrip(digits);
    } else {
      var head, tail := digits[..|digits| - 3], digits[|digits| - 3..];
      GroupThousandsStrip(head);
      StripJoin(GroupThousands(head), head, tail);
      assert head + tail == digits;
    }
  }

  /** Stripping a text joined by `_` to a run of digits. */
  lemma StripJoin(g: Text, head: Text, tail: Text)
    requires StripUnderscores(g) == head
    requires forall i :: 0 <= i < |tail| ==> IsAsciiDigit(tail[i])
    ensures StripUnderscores(g + [Underscore] + tail) == head + tail
  {
    StripAppend(g + [Underscore], tail);
    StripAppend(g, [Underscore]);
    assert StripUnderscores([Underscore]) == [];
    NoUnderscoreStrip(tail);
    assert StripUnderscores(g + [Underscore]) == head;
  }

  /** The separators sit exactly at every fourth position counted from the end, so every
      group after the first has exactly three digits and the first has one to three. */
  lemma {:induction false} GroupThousandsShape(digits: Text)
    requires 1 <= |digits|
    requires forall i :: 0 <= i < |digits| ==> IsAsciiDigit(digits[i])
    ensures forall i :: 0 <= i < |GroupThousands(digits)| ==>
      (GroupThousands(digits)[i] == Underscore <==> i > 0 && (|GroupThousands(digits)| - i) % 4 == 0)
    decreases |digits|
  {
    var t := GroupThousands(digits);
    if |digits| > 3 {
      var head := digits[..|digits| - 3];
      GroupThousandsShape(head);
      var g := GroupThousands(head);
      assert t == g + [Underscore] + digits[|digits| - 3..];
      ShapeJoin(g, digits[|digits| - 3..]);
    }
  }

  /** A text with separators every fourth position from its end keeps that shape when
      `_` and three digits are appended. */
  lemma ShapeJoin(g: Text, tail: Text)
    requires |g| >= 1 && |tail| == 3
    requires forall i :: 0 <= i < |tail| ==> IsAsciiDigit(tail[i])
    requires forall i :: 0 <= i < |g| ==> (g[i] == Underscore <==> i > 0 && (|g| - i) % 4 == 0)
    ensures var t := g + [Underscore] + tail;
            forall i :: 0 <= i < |t| ==> (t[i] == Underscore <==> i > 0 && (|t| - i) % 4 == 0)
  {
    var t := g + [Underscore] + tail;
    forall i | 0 <= i < |t|
      ensures t[i] == Underscore <==> i > 0 && (|t| - i) % 4 == 0
    {
      if i < |g| {
        assert t[i] == g[i];
        assert (|t| - i) % 4 == (|g| - i) % 4;
      } else if i > |g| {
        assert t[i] == tail[i - |g| - 1];
        assert 1 <= |t| - i <= 3;
      }
    }
  }

  /** The `N0` rendering of `n` with group separator `_` and group size 3. Negative values
      get a leading `-` (the invariant culture's negative pattern). */
  function GroupedText(n: int): Text {
    if n < 0 then [Minus] + GroupThousands(DecimalText(-n))
    else GroupThousands(DecimalText(n))
  }

  /** `int.TryParse(s, NumberStyles.None, CultureInfo.InvariantCulture, out v)`: only ASCII
      digits are accepted (no sign, no white space), the text must be non-empty and the
      value must fit in a C# `int`. */
  function TryParseDigits(s: string): (r: Option<int>)
    ensures r.Some? ==> 0 <= r.value <= Int32Max
    ensures r.Some? <==> (|s| >= 1 && (forall i :: 0 <= i < |s| ==> '0' <= s[i] <= '9')
                          && DigitsValue(s) <= Int32Max)
  {
    if |s| >= 1 && (forall i :: 0 <= i < |s| ==> '0' <= s[i] <= '9') && DigitsValue(s) <= Int32Max
    then Some(DigitsValue(s)) else None
  }

  /** The value of a string of ASCII decimal digits. */
  function DigitsValue(s: string): nat
    requires forall i :: 0 <= i < |s| ==> '0' <= s[i] <= '9'
  {
    ValueOf(seq(|s|, i requires 0 <= i < |s| => (s[i] as int - '0' as int) as nat), 10)
  }

  /** The decimal digits of a natural number as a Dafny string. */
  function DecimalString(n: nat): (s: string)
    ensures |s| >= 1
    ensures forall i :: 0 <= i < |s| ==> '0' <= s[i] <= '9'
  {
    var ds := Digits(n, 10);
    seq(|ds|, i requires 0 <= i < |ds| => ('0' as int + ds[i]) as char)
  }

  lemma DecimalStringRoundTrip(n: nat)
    ensures DigitsValue(DecimalString(n)) == n
  {
    var ds := Digits(n, 10);
    var s := DecimalString(n);
    assert seq(|s|, i requires 0 <= i < |s| => (s[i] as int - '0' as int) as nat) == ds;
  }

  /** `int.ToString()` as an interpolation writes it under a culture whose negative sign is
      `-`; the current culture's `NegativeSign` is not modelled. */
  function Int32String(n: int): string {
    if n < 0 then "-" + DecimalString(-n) else DecimalString(n)
  }
}
