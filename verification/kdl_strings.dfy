/** The character classes of the KDL writer and its string-value rendering: a value is
    written bare when it is a valid identifier string, otherwise quoted with escapes.
    The classes follow the KDL Document Language sections "Newline", "Disallowed Literal
    Code Points", "Quoted String", "Non-identifier characters" and "Whitespace". */
module KdlStrings {
  import opened Wrappers
  import opened Utf16
  import opened Numerals

  const Quote: CodeUnit := '"' as int
  const Backslash: CodeUnit := '\\' as int
  const Cr: CodeUnit := 0x0D
  const Lf: CodeUnit := 0x0A
  const Backspace: CodeUnit := 0x08
  const FormFeed: CodeUnit := 0x0C
  const LetterU: CodeUnit := 'u' as int
  const Space: CodeUnit := ' ' as int
  const EqualsSign: CodeUnit := '=' as int
  const Semicolon: CodeUnit := ';' as int
  const OpenBrace: CodeUnit := '{' as int
  const CloseBrace: CodeUnit := '}' as int

  /** `NewLineChars`: CR, LF, NEL, VT, FF, LINE SEPARATOR, PARAGRAPH SEPARATOR. */
  predicate IsNewLineChar(c: CodeUnit) {
    c == Cr || c == Lf || c == 0x85 || c == 0x0B || c == FormFeed || c == 0x2028 || c == 0x2029
  }

  /** `DisallowedLiteralCodePoints`, built in the source from inclusive `char.Range`s. */
  predicate IsDisallowedLiteral(c: CodeUnit) {
    || 0x0000 <= c <= 0x0008
    || 0x000E <= c <= 0x001F
    || c == 0x007F
    || 0xD800 <= c <= 0xDFFF
    || 0x200E <= c <= 0x200F
    || 0x202A <= c <= 0x202E
    || 0x2066 <= c <= 0x2069
    || c == 0xFEFF
  }

  /** `CharactersRequiringEscaping`: what may not appear literally inside quotes. */
  predicate RequiresEscaping(c: CodeUnit) {
    c == Quote || c == Backslash || IsNewLineChar(c) || IsDisallowedLiteral(c)
  }

  /** The KDL whitespace characters listed in the source's identifier table. */
  predicate IsKdlWhitespace(c: CodeUnit) {
    || c == 0x09 || c == 0x20 || c == 0xA0 || c == 0x1680
    || 0x2000 <= c <= 0x200A
    || c == 0x202F || c == 0x205F || c == 0x3000
  }

  /** `InvalidIdentifierStringChars`. */
  predicate IsInvalidIdentifierChar(c: CodeUnit) {
    || c == '(' as int || c == ')' as int || c == '{' as int || c == '}' as int
    || c == '[' as int || c == ']' as int || c == '/' as int || c == Backslash
    || c == Quote || c == '#' as int || c == ';' as int || c == '=' as int
    || IsKdlWhitespace(c) || IsNewLineChar(c) || IsDisallowedLiteral(c)
  }

  predicate IsSign(c: CodeUnit) { c == '-' as int || c == '+' as int }

  /** `IsValidIdentifierString`: non-empty, not starting like a number, and free of
      characters that cannot appear in a bare identifier. */
  predicate IsValidIdentifierString(v: Text) {
    && |v| > 0
    && !IsAsciiDigit(v[0])
    && !(|v| >= 2 && (IsSign(v[0]) || v[0] == '.' as int) && IsAsciiDigit(v[1]))
    && !(|v| >= 3 && IsSign(v[0]) && v[1] == '.' as int && IsAsciiDigit(v[2]))
    && forall i :: 0 <= i < |v| ==> !IsInvalidIdentifierChar(v[i])
  }

  /** Every character that must be escaped is also invalid in an identifier, so a bare
      identifier never needs escaping and never holds a surrogate. */
  lemma IdentifierNeedsNoEscaping(v: Text)
    requires IsValidIdentifierString(v)
    ensures forall i :: 0 <= i < |v| ==> !RequiresEscaping(v[i]) && !IsSurrogate(v[i])
  {
  }

  /** The letter of the two-character escape for `c`, if it has one. */
  function ShortEscape(c: CodeUnit): Option<CodeUnit> {
    if c == Quote then Some(Quote)
    else if c == Backslash then Some(Backslash)
    else if c == Cr then Some('r' as int)
    else if c == Lf then Some('n' as int)
    else if c == Backspace then Some('b' as int)
    else if c == FormFeed then Some('f' as int)
    else None
  }

  /** The character a two-character escape letter stands for, if it is one. */
  function ShortUnescape(e: CodeUnit): Option<CodeUnit> {
    if e == Quote then Some(Quote)
    else if e == Backslash then Some(Backslash)
    else if e == 'r' as int then Some(Cr)
    else if e == 'n' as int then Some(Lf)
    else if e == 'b' as int then Some(Backspace)
    else if e == 'f' as int then Some(FormFeed)
    else None
  }

  lemma ShortEscapeInverse(c: CodeUnit)
    requires ShortEscape(c).Some?
    ensures ShortUnescape(ShortEscape(c).value) == Some(c)
    ensures RequiresEscaping(c) && !IsSurrogate(c)
  {
  }

  /** The escape written for one character that requires escaping; `next` is the character
      that follows it in the value, if any. A surrogate cannot be escaped yet: `None`. */
  function EscapeChar(c: CodeUnit, next: Option<CodeUnit>): (r: Option<Text>)
    requires RequiresEscaping(c)
    ensures r.None? <==> IsSurrogate(c)
    ensures r.Some? ==> |r.value| >= 2 && r.value[0] == Backslash
  {
    if ShortEscape(c).Some? then
      ShortEscapeInverse(c);
      Some([Backslash, ShortEscape(c).value])
    else if IsSurrogate(c) then None
    else
      // A following hex digit would be read as part of the escape, so the full width is used.
      var width := if next.Some? && IsAsciiHexDigit(next.value) then 6 else 0;
      Some(UnicodeEscape(c, width))
  }

  /** `\u` and the lower-case hexadecimal digits of `c`, at least `width` of them. */
  function UnicodeEscape(c: CodeUnit, width: nat): (r: Text)
    ensures |r| >= 3 && r[0] == Backslash && r[1] == LetterU
    ensures r[2..] == LowerHexText(c, width)
  {
    var hex := LowerHexText(c, width);
    var r := [Backslash, LetterU] + hex;
    assert r[2..] == hex;
    r
  }

  /** Concatenation that fails if either part failed. */
  function Cat(a: Option<Text>, b: Option<Text>): (r: Option<Text>)
    ensures r.Some? <==> a.Some? && b.Some?
    ensures r.Some? ==> r.value == a.value + b.value
  {
    if a.Some? && b.Some? then Some(a.value + b.value) else None
  }

  function Head(t: Text): Option<CodeUnit> {
    if t == [] then None else Some(t[0])
  }

  /** The rendering of one character of the value inside quotes, given the rest. */
  function EscapeFirst(c: CodeUnit, rest: Text): Option<Text> {
    if RequiresEscaping(c) then EscapeChar(c, Head(rest)) else Some([c])
  }

  /** The body of a quoted string: characters outside the escaping set are copied. */
  function EscapeBody(v: Text): (r: Option<Text>)
    ensures r.Some? ==> |r.value| >= |v|
  {
    if v == [] then Some([]) else Cat(EscapeFirst(v[0], v[1..]), EscapeBody(v[1..]))
  }

  /** Escaping fails exactly when the value holds a surrogate. */
  lemma {:induction false} EscapeBodyFailsIffSurrogate(v: Text)
    ensures EscapeBody(v).None? <==> !NoSurrogates(v)
  {
    if v != [] {
      EscapeBodyFailsIffSurrogate(v[1..]);
      if IsSurrogate(v[0]) {
        assert !NoSurrogates(v);
      } else if !NoSurrogates(v[1..]) {
        var i :| 0 <= i < |v[1..]| && IsSurrogate(v[1..][i]);
        assert IsSurrogate(v[i + 1]);
      } else {
        assert forall i :: 1 <= i < |v| ==> v[i] == v[1..][i - 1];
      }
    }
  }

  /** `WriteStringValue` without the leading separator: bare when allowed and valid,
      otherwise `"` + escaped body + `"`. */
  function FormatString(v: Text, forceQuotes: bool): (r: Option<Text>)
    ensures r.None? <==> !NoSurrogates(v)
    ensures r.Some? ==> (r.value == v <==> !forceQuotes && IsValidIdentifierString(v))
    ensures r.Some? && (forceQuotes || !IsValidIdentifierString(v)) ==>
      |r.value| >= 2 && r.value[0] == Quote && r.value[|r.value| - 1] == Quote
  {
    EscapeBodyFailsIffSurrogate(v);
    if !forceQuotes && IsValidIdentifierString(v) then Some(v)
    else Cat(Cat(Some([Quote]), EscapeBody(v)), Some([Quote]))
  }

  // ---- Reading the body back ----

  /** The number of leading ASCII hex digits of `t`, at most `limit`. */
  function HexRun(t: Text, limit: nat): (n: nat)
    ensures n <= limit && n <= |t|
    ensures forall i :: 0 <= i < n ==> IsAsciiHexDigit(t[i])
  {
    if limit == 0 || t == [] || !IsAsciiHexDigit(t[0]) then 0 else 1 + HexRun(t[1..], limit - 1)
  }

  /** Reads the escape that follows a backslash: the letter of a two-character escape,
      or `u` followed greedily by one to six hexadecimal digits. Gives the character and
      the number of units the escape occupies after the backslash. */
  function ReadEscape(e: Text): (r: Option<(CodeUnit, nat)>)
    ensures r.Some? ==> 1 <= r.value.1 <= |e|
  {
    if e == [] then None
    else if ShortUnescape(e[0]).Some? then Some((ShortUnescape(e[0]).value, 1))
    else if e[0] == 'u' as int then
      var n := HexRun(e[1..], 6);
      if n == 0 then None
      else
        var value := HexValue(e[1..1 + n]);
        if value < 0x1_0000 then Some((value, 1 + n)) else None
    else None
  }

  /** Reads the body of a quoted string as the writer forms it. A raw `"` would end the
      body, so finding one inside is a failure. */
  function Unescape(t: Text): Option<Text>
    decreases |t|
  {
    if t == [] then Some([])
    else if t[0] == Quote then None
    else if t[0] != Backslash then Cat(Some([t[0]]), Unescape(t[1..]))
    else
      match ReadEscape(t[1..])
      case None => None
      case Some((c, len)) => Cat(Some([c]), Unescape(t[1 + len..]))
  }

  /** The first unit written for a non-empty value is either the character itself (when
      it needs no escaping) or a backslash. */
  lemma EscapeBodyHead(v: Text)
    requires v != [] && EscapeBody(v).Some?
    ensures |EscapeBody(v).value| > 0
    ensures EscapeBody(v).value[0] == (if RequiresEscaping(v[0]) then Backslash else v[0])
  {
  }

  lemma {:induction false} HexRunOfPrefix(h: Text, tail: Text)
    requires forall i :: 0 <= i < |h| ==> IsAsciiHexDigit(h[i])
    requires |h| <= 6
    requires |h| == 6 || tail == [] || !IsAsciiHexDigit(tail[0])
    ensures HexRun(h + tail, 6) == |h|
  {
    HexRunOfPrefixN(h, tail, 6);
  }

  lemma {:induction false} HexRunOfPrefixN(h: Text, tail: Text, limit: nat)
    requires forall i :: 0 <= i < |h| ==> IsAsciiHexDigit(h[i])
    requires |h| <= limit
    requires |h| == limit || tail == [] || !IsAsciiHexDigit(tail[0])
    ensures HexRun(h + tail, limit) == |h|
    decreases |h|
  {
    if h != [] {
      assert (h + tail)[1..] == h[1..] + tail;
      HexRunOfPrefixN(h[1..], tail, limit - 1);
    } else {
      assert h + tail == tail;
    }
  }

  /** A two-character escape is read back as its character. */
  lemma ShortEscapeRead(c: CodeUnit, restBody: Text)
    requires ShortEscape(c).Some?
    ensures Unescape([Backslash, ShortEscape(c).value] + restBody) == Cat(Some([c]), Unescape(restBody))
  {
    ShortEscapeInverse(c);
    var t := [Backslash, ShortEscape(c).value] + restBody;
    assert t[1..] == [ShortEscape(c).value] + restBody;
    assert ReadEscape(t[1..]) == Some((c, 1));
    assert t[2..] == restBody;
  }

  /** The `u` escape with its digits is read as the character it encodes when the digits
      are followed by the end of the body or by something that is not a hex digit, or
      there are six of them. */
  lemma ReadHexEscape(h: Text, restBody: Text)
    requires forall i :: 0 <= i < |h| ==> IsAsciiHexDigit(h[i])
    requires 1 <= |h| <= 6 && HexValue(h) < 0x1_0000
    requires |h| == 6 || restBody == [] || !IsAsciiHexDigit(restBody[0])
    ensures ReadEscape([LetterU] + h + restBody) == Some((HexValue(h), 1 + |h|))
  {
    var e := [LetterU] + h + restBody;
    assert e[0] == 'u' as int;
    assert e[1..] == h + restBody;
    HexRunOfPrefix(h, restBody);
    assert e[1..1 + |h|] == h;
  }

  /** The digits `LowerHexText` writes for a code unit: one to six hex digits with the
      unit's value, six of them at width 6. */
  lemma UnicodeEscapeDigits(c: CodeUnit, width: nat)
    requires width in {0, 6}
    ensures var hex := LowerHexText(c, width);
            && 1 <= |hex| <= 6 && (width == 6 ==> |hex| == 6)
            && HexValue(hex) == c
  {
    LowerHexLength(c);
    LowerHexRoundTrip(c, width);
  }

  lemma UnicodeEscapeRead(c: CodeUnit, width: nat, restBody: Text)
    requires ShortEscape(c).None? && width in {0, 6}
    requires width == 6 || restBody == [] || !IsAsciiHexDigit(restBody[0])
    ensures Unescape([Backslash, LetterU] + LowerHexText(c, width) + restBody) == Cat(Some([c]), Unescape(restBody))
  {
    UnicodeEscapeDigits(c, width);
    UnescapeHex(LowerHexText(c, width), restBody);
  }

  /** A `u` escape with its digits is unescaped to the unit the digits encode, and reading
      resumes after the digits. */
  lemma UnescapeHex(hex: Text, restBody: Text)
    requires forall i :: 0 <= i < |hex| ==> IsAsciiHexDigit(hex[i])
    requires 1 <= |hex| <= 6 && HexValue(hex) < 0x1_0000
    requires |hex| == 6 || restBody == [] || !IsAsciiHexDigit(restBody[0])
    ensures Unescape([Backslash, LetterU] + hex + restBody) == Cat(Some([HexValue(hex)]), Unescape(restBody))
  {
    ReadHexEscape(hex, restBody);
    EscapeParts(hex, restBody);
    UnescapeEscape([Backslash, LetterU] + hex + restBody, HexValue(hex), 1 + |hex|);
  }

  lemma EscapeParts(hex: Text, restBody: Text)
    ensures var t := [Backslash, LetterU] + hex + restBody;
            && |t| >= 1 && t[0] == Backslash
            && t[1..] == [LetterU] + hex + restBody
            && t[1 + (1 + |hex|)..] == restBody
  {
    var t := [Backslash, LetterU] + hex + restBody;
    assert t[1..] == [LetterU] + hex + restBody;
    assert t[1 + (1 + |hex|)..] == restBody;
  }

  /** A backslash followed by an escape that reads as `c`. */
  lemma UnescapeEscape(t: Text, c: CodeUnit, len: nat)
    requires |t| >= 1 && t[0] == Backslash
    requires ReadEscape(t[1..]) == Some((c, len))
    ensures Unescape(t) == Cat(Some([c]), Unescape(t[1 + len..]))
  {
  }

  /** One escaped character is read back as itself, and reading resumes right after it. */
  lemma EscapeCharRead(c: CodeUnit, rest: Text, restBody: Text)
    requires RequiresEscaping(c) && !IsSurrogate(c)
    requires EscapeBody(rest) == Some(restBody)
    ensures Unescape(EscapeChar(c, Head(rest)).value + restBody) == Cat(Some([c]), Unescape(restBody))
  {
    if ShortEscape(c).Some? {
      ShortEscapeRead(c, restBody);
    } else {
      var width := if Head(rest).Some? && IsAsciiHexDigit(Head(rest).value) then 6 else 0;
      if rest != [] { EscapeBodyHead(rest); }
      UnicodeEscapeRead(c, width, restBody);
    }
  }

  /** Round trip: reading the escaped body of a surrogate-free value gives the value back. */
  lemma {:induction false} EscapeRoundTrip(v: Text)
    requires NoSurrogates(v)
    ensures EscapeBody(v).Some?
    ensures Unescape(EscapeBody(v).value) == Some(v)
  {
    EscapeBodyFailsIffSurrogate(v);
    if v != [] {
      var c, rest := v[0], v[1..];
      assert NoSurrogates(rest) by {
        assert forall i :: 0 <= i < |rest| ==> rest[i] == v[i + 1];
      }
      EscapeRoundTrip(rest);
      var restBody := EscapeBody(rest).value;
      if RequiresEscaping(c) {
        EscapeCharRead(c, rest, restBody);
      } else {
        var t := [c] + restBody;
        assert t[1..] == restBody;
      }
      assert [c] + rest == v;
    }
  }

  /** Reads one string value: quoted when it starts with `"`, otherwise a bare identifier. */
  function ReadStringValue(t: Text): Option<Text> {
    if t != [] && t[0] == Quote then
      if |t| >= 2 && t[|t| - 1] == Quote then Unescape(t[1..|t| - 1]) else None
    else if IsValidIdentifierString(t) then Some(t)
    else None
  }

  /** Every string value the writer produces reads back as the original value. */
  lemma FormatStringRoundTrip(v: Text, forceQuotes: bool)
    requires NoSurrogates(v)
    ensures FormatString(v, forceQuotes).Some?
    ensures ReadStringValue(FormatString(v, forceQuotes).value) == Some(v)
  {
    var r := FormatString(v, forceQuotes).value;
    if !forceQuotes && IsValidIdentifierString(v) {
      assert !IsInvalidIdentifierChar(v[0]);
    } else {
      EscapeRoundTrip(v);
      assert r == [Quote] + EscapeBody(v).value + [Quote];
      assert r[1..|r| - 1] == EscapeBody(v).value;
    }
  }
}

/** The escaping loop of `WriteStringValue` as the source runs it: find the next character
    requiring escaping, copy the run before it, write its escape, continue after it. */
module KdlEscapeLoop {
  import opened Wrappers
  import opened Utf16
  import opened KdlStrings

  /** `IndexOfAny(CharactersRequiringEscaping)`: the first index needing escaping, or -1. */
  function IndexOfEscaping(t: Text): (i: int)
    ensures -1 <= i < |t|
    ensures i >= 0 ==> RequiresEscaping(t[i])
    ensures forall j :: 0 <= j < |t| && (i == -1 || j < i) ==> !RequiresEscaping(t[j])
  {
    if t == [] then -1
    else if RequiresEscaping(t[0]) then 0
    else
      var i := IndexOfEscaping(t[1..]);
      if i == -1 then -1 else i + 1
  }

  lemma EscapeBodyCons(c: CodeUnit, rest: Text)
    ensures EscapeBody([c] + rest) == Cat(EscapeFirst(c, rest), EscapeBody(rest))
  {
    assert ([c] + rest)[0] == c;
    assert ([c] + rest)[1..] == rest;
  }

  lemma CatEmpty(x: Option<Text>)
    ensures Cat(Some([]), x) == x
  {
    if x.Some? {
      assert [] + x.value == x.value;
    }
  }

  lemma CatSomeAssoc(a: Text, b: Text, x: Option<Text>)
    ensures Cat(Some(a), Cat(Some(b), x)) == Cat(Some(a + b), x)
  {
    if x.Some? {
      assert a + (b + x.value) == (a + b) + x.value;
    }
  }

  /** Characters that need no escaping are copied whatever follows them. */
  lemma {:induction false} VerbatimPrefix(p: Text, q: Text)
    requires forall j :: 0 <= j < |p| ==> !RequiresEscaping(p[j])
    ensures EscapeBody(p + q) == Cat(Some(p), EscapeBody(q))
  {
    if p == [] {
      assert p + q == q;
      CatEmpty(EscapeBody(q));
    } else {
      assert p + q == [p[0]] + (p[1..] + q);
      EscapeBodyCons(p[0], p[1..] + q);
      VerbatimPrefix(p[1..], q);
      CatSomeAssoc([p[0]], p[1..], EscapeBody(q));
      assert [p[0]] + p[1..] == p;
    }
  }

  /** The body splits at the first character needing escaping: the run before it, its
      escape, and the body of what follows. */
  lemma EscapeAt(t: Text, index: nat)
    requires index < |t| && RequiresEscaping(t[index])
    requires forall j :: 0 <= j < index ==> !RequiresEscaping(t[j])
    ensures EscapeBody(t) == Cat(Some(t[..index]), Cat(EscapeChar(t[index], Head(t[index + 1..])), EscapeBody(t[index + 1..])))
  {
    var run, c, rest := t[..index], t[index], t[index + 1..];
    assert t == run + ([c] + rest);
    VerbatimPrefix(run, [c] + rest);
    EscapeBodyCons(c, rest);
  }

  method WriteQuotedBody(value: Text) returns (r: Option<Text>)
    ensures r == EscapeBody(value)
  {
    var written: Text := [];
    var remaining := value;
    CatEmpty(EscapeBody(value));
    while true
      invariant Cat(Some(written), EscapeBody(remaining)) == EscapeBody(value)
      decreases |remaining|
    {
      var index := IndexOfEscaping(remaining);
      if index == -1 {
        break;
      }
      var run, c, rest := remaining[..index], remaining[index], remaining[index + 1..];
      EscapeAt(remaining, index);
      var escaped := EscapeChar(c, Head(rest));
      if escaped.None? {
        return None;
      }
      CatSomeAssoc(run, escaped.value, EscapeBody(rest));
      CatSomeAssoc(written, run + escaped.value, EscapeBody(rest));
      written := written + (run + escaped.value);
      remaining := rest;
    }
    VerbatimPrefix(remaining, []);
    assert remaining + [] == remaining;
    return Some(written + remaining);
  }
}
