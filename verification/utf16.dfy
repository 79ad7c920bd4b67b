/** .NET strings are sequences of UTF-16 code units, which may include lone surrogates.
    Dafny's `char` is a Unicode scalar value and cannot hold a surrogate, so the writer
    and the report work on `Text`, a sequence of 16-bit code units. */
module Utf16 {

  /** One UTF-16 code unit, the range of a C# `char`. */
  type CodeUnit = c: int | 0 <= c < 0x1_0000

  /** A C# `string`. */
  type Text = seq<CodeUnit>

  /** The code unit of a Basic Multilingual Plane character; other characters map to U+FFFD.
      Only used to write ASCII literals. */
  function Unit(c: char): CodeUnit {
    if c as int < 0x1_0000 then c as int else 0xFFFD
  }

  /** A Dafny string literal as `Text`. */
  function Lit(s: string): (t: Text)
    ensures |t| == |s|
    ensures forall i :: 0 <= i < |s| ==> t[i] == Unit(s[i])
  {
    seq(|s|, i requires 0 <= i < |s| => Unit(s[i]))
  }

  /** `char.IsSurrogate`: a high or low surrogate code unit. */
  predicate IsSurrogate(c: CodeUnit) {
    0xD800 <= c <= 0xDFFF
  }

  /** `char.IsAsciiDigit`. */
  predicate IsAsciiDigit(c: CodeUnit) {
    '0' as int <= c <= '9' as int
  }

  /** `char.IsAsciiHexDigit`: 0-9, a-f, A-F. */
  predicate IsAsciiHexDigit(c: CodeUnit) {
    IsAsciiDigit(c) || 'a' as int <= c <= 'f' as int || 'A' as int <= c <= 'F' as int
  }

  /** The value of an ASCII hexadecimal digit. */
  function HexDigitValue(c: CodeUnit): (v: nat)
    requires IsAsciiHexDigit(c)
    ensures v < 16
  {
    if IsAsciiDigit(c) then c - '0' as int
    else if 'a' as int <= c <= 'f' as int then c - 'a' as int + 10
    else c - 'A' as int + 10
  }

  predicate NoSurrogates(t: Text) {
    forall i :: 0 <= i < |t| ==> !IsSurrogate(t[i])
  }

  /** A literal written in the model never holds a surrogate: a Dafny `char` is a Unicode
      scalar value. */
  lemma LitNoSurrogates(s: string)
    ensures NoSurrogates(Lit(s))
  {
    forall i | 0 <= i < |s| ensures !IsSurrogate(Lit(s)[i]) {
      assert !(0xD800 <= s[i] as int <= 0xDFFF);
    }
  }
}
