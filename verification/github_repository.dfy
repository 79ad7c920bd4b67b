/** `GitHubRepository.GetSourceCodeBrowserUrl`: the link to a file, and optionally to
    lines in it, on GitHub's source browser. */
module GitHubRepository {
  import opened Wrappers
  import opened Numerals
  import opened Extensions
  import opened StringOps

  /** A selection: first and last line and their columns. */
  datatype Selection = Selection(line: int, lineEnd: int, lineStartColumn: int, lineEndColumn: int)

  /** The link to the file: the path's backslashes turned into slashes, nothing
      escaped. */
  function FileUrl(browserUrl: string, path: string): (r: string)
    ensures r == browserUrl + "/blob/HEAD/" + ReplaceChar(path, '\\', '/')
    ensures '\\' !in r[|browserUrl| + 11..]
  {
    ReplaceCharGone(path, '\\', '/');
    var r := browserUrl + "/blob/HEAD/" + ReplaceChar(path, '\\', '/');
    assert r[|browserUrl| + 11..] == ReplaceChar(path, '\\', '/');
    r
  }

  /** The line anchor: `#L` and the first line, then `-L` and the last line only when it
      is after the first. */
  function Anchor(s: Selection): (r: string)
    ensures |r| >= 3 && r[..2] == "#L"
  {
    "#L" + Int32String(s.line) + (if s.lineEnd > s.line then "-L" + Int32String(s.lineEnd) else "")
  }

  function SourceCodeBrowserUrl(browserUrl: string, path: string, selection: Option<Selection>): (r: string)
    ensures |FileUrl(browserUrl, path)| <= |r|
    ensures r[..|FileUrl(browserUrl, path)|] == FileUrl(browserUrl, path)
    ensures selection.None? <==> |r| == |FileUrl(browserUrl, path)|
  {
    FileUrl(browserUrl, path) + if selection.Some? then Anchor(selection.value) else ""
  }

  /** Reads an anchor back: `#L`, digits, and optionally `-L` and digits. */
  function ParseAnchor(a: string): Option<(nat, Option<nat>)> {
    if |a| >= 2 && a[..2] == "#L" then
      var rest := a[2..];
      var n := DigitRun(rest);
      if n == 0 then None
      else
        var line := DigitsValue(rest[..n]);
        var tail := rest[n..];
        if tail == [] then Some((line, None))
        else if |tail| >= 3 && tail[..2] == "-L" && DigitRun(tail[2..]) == |tail| - 2 then
          Some((line, Some(DigitsValue(tail[2..]))))
        else None
    else None
  }

  /** The anchor of a selection with non-negative lines reads back as its first line, and
      its last line exactly when that is after the first. */
  lemma AnchorRoundTrip(s: Selection)
    requires s.line >= 0 && s.lineEnd >= 0
    ensures ParseAnchor(Anchor(s)) == Some((s.line as nat, if s.lineEnd > s.line then Some(s.lineEnd as nat) else None))
  {
    var first := DecimalString(s.line);
    DecimalStringRoundTrip(s.line);
    if s.lineEnd > s.line {
      var last := DecimalString(s.lineEnd);
      assert Anchor(s) == "#L" + first + ("-L" + last);
      ParseRange(first, last);
      DecimalStringRoundTrip(s.lineEnd);
    } else {
      assert Anchor(s) == "#L" + first + "";
      ParseSingle(first);
    }
  }

  lemma ParseSingle(first: string)
    requires |first| >= 1 && forall i :: 0 <= i < |first| ==> '0' <= first[i] <= '9'
    ensures ParseAnchor("#L" + first + "") == Some((DigitsValue(first), None))
  {
    AnchorLine(first, "");
  }

  lemma ParseRange(first: string, last: string)
    requires |first| >= 1 && forall i :: 0 <= i < |first| ==> '0' <= first[i] <= '9'
    requires |last| >= 1 && forall i :: 0 <= i < |last| ==> '0' <= last[i] <= '9'
    ensures ParseAnchor("#L" + first + ("-L" + last)) == Some((DigitsValue(first), Some(DigitsValue(last))))
  {
    AnchorLine(first, "-L" + last);
    AnchorLastLine(last);
  }

  /** After `#L` the digit run is the first line, and the rest is what follows it. */
  lemma AnchorLine(first: string, tail: string)
    requires forall i :: 0 <= i < |first| ==> '0' <= first[i] <= '9'
    requires tail == [] || tail[0] == '-'
    ensures var a := "#L" + first + tail;
            && |a| >= 2 && a[..2] == "#L"
            && DigitRun(a[2..]) == |first|
            && a[2..][..|first|] == first && a[2..][|first|..] == tail
  {
    var a := "#L" + first + tail;
    assert a[2..] == first + tail;
    DigitRunOf(first, tail);
  }

  /** `-L` and a run of digits that reaches the end. */
  lemma AnchorLastLine(last: string)
    requires |last| >= 1 && forall i :: 0 <= i < |last| ==> '0' <= last[i] <= '9'
    ensures var tail := "-L" + last;
            |tail| >= 3 && tail[..2] == "-L" && tail[2..] == last && DigitRun(tail[2..]) == |tail| - 2
  {
    DigitRunOf(last, "");
    assert last + "" == last;
  }

  /** Columns never reach the link. */
  lemma ColumnsIgnored(browserUrl: string, path: string, s: Selection, startColumn: int, endColumn: int)
    ensures SourceCodeBrowserUrl(browserUrl, path, Some(s)) ==
            SourceCodeBrowserUrl(browserUrl, path, Some(s.(lineStartColumn := startColumn, lineEndColumn := endColumn)))
  {
  }

  /** With a selection the link is the file's link followed by the anchor, which reads
      back as the selected lines. */
  lemma SelectionLink(browserUrl: string, path: string, s: Selection)
    requires s.line >= 0 && s.lineEnd >= 0
    ensures var url := SourceCodeBrowserUrl(browserUrl, path, Some(s));
            var file := FileUrl(browserUrl, path);
            |file| < |url| &&
            ParseAnchor(url[|file|..]) == Some((s.line as nat, if s.lineEnd > s.line then Some(s.lineEnd as nat) else None))
  {
    var url := SourceCodeBrowserUrl(browserUrl, path, Some(s));
    assert url[|FileUrl(browserUrl, path)|..] == Anchor(s);
    AnchorRoundTrip(s);
  }
}
