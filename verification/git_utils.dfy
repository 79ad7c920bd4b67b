/** The pure parts of `GitUtils`: the path conversion of `GetRepoTopLevelDirectoryAsync`
    and the header parser of `GetBranchStatusAsync` over the lines of
    `git status --porcelain=2 --branch`. Running git is not part of this model; the
    lines are the input. */
module GitUtils {
  import opened Wrappers
  import opened Numerals
  import opened StringOps

  /** The top-level directory git prints, with its forward slashes turned into
      backslashes. */
  function TopLevelDirectory(stdOut: string): (r: string)
    ensures |r| == |stdOut| && '/' !in r
    ensures forall i :: 0 <= i < |r| && stdOut[i] != '/' ==> r[i] == stdOut[i]
    ensures forall i :: 0 <= i < |r| && stdOut[i] == '/' ==> r[i] == '\\'
  {
    ReplaceCharGone(stdOut, '/', '\\');
    ReplaceChar(stdOut, '/', '\\')
  }

  /** A header line split into its key and value. */
  datatype Header = Header(key: string, value: string)

  /** The key up to the first space and the value after it; nothing without a space. */
  function SplitAtSpace(contents: string): (r: Option<Header>)
    ensures r.Some? <==> ' ' in contents
    ensures r.Some? ==> ' ' !in r.value.key && contents == r.value.key + " " + r.value.value
  {
    match IndexOf(contents, ' ')
    case None => None
    case Some(i) =>
      assert contents == contents[..i] + " " + contents[i + 1..];
      Some(Header(contents[..i], contents[i + 1..]))
  }

  /** Lines starting with `#`: after the `#` and any white space, the key runs up to the
      first space and the value is everything after it. Other lines, and header lines
      with no space, give nothing. */
  function ParseHeader(line: string): (r: Option<Header>)
    ensures r.Some? ==> |line| >= 1 && line[0] == '#'
    ensures r.Some? ==> ' ' !in r.value.key && TrimStart(line[1..]) == r.value.key + " " + r.value.value
    ensures (|line| >= 1 && line[0] == '#' && ' ' in TrimStart(line[1..])) ==> r.Some?
  {
    if |line| == 0 || line[0] != '#' then None else SplitAtSpace(TrimStart(line[1..]))
  }

  /** The header line git writes for a key and value, with any white-space padding after
      the `#`, parses back to that key and value. */
  lemma HeaderRoundTrip(pad: string, key: string, value: string)
    requires forall i :: 0 <= i < |pad| ==> IsWhiteSpace(pad[i])
    requires key != [] && !IsWhiteSpace(key[0]) && ' ' !in key
    ensures ParseHeader("#" + pad + key + " " + value) == Some(Header(key, value))
  {
    var line := "#" + pad + key + " " + value;
    var contents := key + " " + value;
    assert line[0] == '#';
    assert line[1..] == pad + contents;
    TrimStartPrefix(pad, contents);
    assert contents[..|key|] == key;
    assert contents[|key| + 1..] == value;
    IndexOfAt(contents, ' ', |key|);
  }

  /** The fields the loop updates. */
  datatype Fields = Fields(oid: string, head: string, upstream: Option<string>, ahead: int, behind: int)

  const NoFields := Fields("", "", None, 0, 0)

  /** `int.TryParse(..., out x)` with its result discarded: `x` is 0 when parsing
      fails. */
  function ParsedOrZero(s: string): (n: int)
    ensures TryParseDigits(s).Some? ==> n == TryParseDigits(s).value
    ensures TryParseDigits(s).None? ==> n == 0
  {
    match TryParseDigits(s)
    case Some(v) => v
    case None => 0
  }

  /** A `branch.ab` value that is read: it starts with `+` and contains ` -`. */
  predicate CountsRead(value: string) {
    |value| >= 1 && value[0] == '+' && IndexOfPair(value, ' ', '-').Some?
  }

  /** The counts of a value that is read: ahead is the text between the `+` and the first
      ` -`, behind the text after it, each 0 when it does not parse. */
  function Counts(value: string): (r: (int, int))
    requires CountsRead(value)
    ensures 0 <= r.0 <= Int32Max && 0 <= r.1 <= Int32Max
  {
    var sep := IndexOfPair(value, ' ', '-').value;
    assert sep != 0 by { assert !PairAt(value, 0, ' ', '-'); }
    (ParsedOrZero(value[1..sep]), ParsedOrZero(value[sep + 2..]))
  }

  /** `branch.ab`: only a value starting with `+` and containing ` -` is read; ahead is
      the text between them and behind the text after, each 0 when it does not parse. */
  function AheadBehind(f: Fields, value: string): (r: Fields)
    ensures r.oid == f.oid && r.head == f.head && r.upstream == f.upstream
    ensures !CountsRead(value) ==> r == f
    ensures CountsRead(value) ==>
              var sep := IndexOfPair(value, ' ', '-').value;
              && 1 <= sep && sep + 2 <= |value|
              && r.ahead == ParsedOrZero(value[1..sep])
              && r.behind == ParsedOrZero(value[sep + 2..])
  {
    if |value| >= 1 && value[0] == '+' then
      match IndexOfPair(value, ' ', '-')
      case None => f
      case Some(sep) =>
        assert !PairAt(value, 0, ' ', '-');
        f.(ahead := ParsedOrZero(value[1..sep]), behind := ParsedOrZero(value[sep + 2..]))
    else f
  }

  /** A count that does not parse is stored as 0, and the other is still read: `+x -3`
      gives ahead 0 and behind 3. */
  lemma AheadBehindFallback(f: Fields)
    ensures AheadBehind(f, "+x -3").ahead == 0 && AheadBehind(f, "+x -3").behind == 3
  {
    var value := "+x -3";
    assert PairAt(value, 2, ' ', '-');
    assert !PairAt(value, 0, ' ', '-') && !PairAt(value, 1, ' ', '-');
    IndexOfPairAt(value, ' ', '-', 2);
    assert value[1..2] == "x";
    assert value[4..] == "3";
    assert DigitsValue("3") == 3 by {
      var t := "3";
      var ds := seq(|t|, i requires 0 <= i < |t| => (t[i] as int - '0' as int) as nat);
      assert ds[0] == 3;
      assert ds == [3] && ds[..0] == [];
      assert ValueOf(ds, 10) == 3;
    }
  }

  /** What git writes for `branch.ab` parses back to the two counts. */
  lemma AheadBehindRoundTrip(f: Fields, ahead: nat, behind: nat)
    requires ahead <= Int32Max && behind <= Int32Max
    ensures var r := AheadBehind(f, "+" + DecimalString(ahead) + " -" + DecimalString(behind));
            r.ahead == ahead && r.behind == behind
  {
    var a := DecimalString(ahead);
    var b := DecimalString(behind);
    var value := "+" + a + " -" + b;
    var sep := |a| + 1;
    assert value[0] == '+';
    assert PairAt(value, sep, ' ', '-');
    forall j | 0 <= j < sep ensures !PairAt(value, j, ' ', '-') {
      if j >= 1 {
        assert value[j] == a[j - 1];
      }
    }
    IndexOfPairAt(value, ' ', '-', sep);
    assert value[1..sep] == a;
    assert value[sep + 2..] == b;
    DecimalStringRoundTrip(ahead);
    DecimalStringRoundTrip(behind);
    assert AheadBehind(f, value) == f.(ahead := ParsedOrZero(a), behind := ParsedOrZero(b));
  }

  /** One line of output: `branch.oid`, `branch.head` and `branch.upstream` store their
      value; `branch.ab` is parsed; every other line is ignored. */
  function ApplyLine(f: Fields, line: string): Fields {
    match ParseHeader(line)
    case None => f
    case Some(h) =>
      if h.key == "branch.oid" then f.(oid := h.value)
      else if h.key == "branch.head" then f.(head := h.value)
      else if h.key == "branch.upstream" then f.(upstream := Some(h.value))
      else if h.key == "branch.ab" then AheadBehind(f, h.value)
      else f
  }

  /** The loop over the lines. */
  function ParseLines(lines: seq<string>): Fields
    decreases |lines|
  {
    if lines == [] then NoFields else ApplyLine(ParseLines(lines[..|lines| - 1]), lines[|lines| - 1])
  }

  /** `GitBranchStatus`: the tracking part is present only with an upstream. */
  datatype Tracking = Tracking(upstream: string, ahead: int, behind: int)
  datatype BranchStatus = BranchStatus(oid: string, head: string, tracking: Option<Tracking>)

  /** The status `GetBranchStatusAsync` returns for the output lines: oid and head are
      the last values given for them (empty without one); tracking information is present
      exactly when some line names an upstream, and then names the last one, with the
      counts of the last `branch.ab` line that is read (0 and 0 without one). */
  function BranchStatusOf(lines: seq<string>): (r: BranchStatus)
    ensures r.oid == (if LastValue(lines, "branch.oid").Some? then LastValue(lines, "branch.oid").value else "")
    ensures r.head == (if LastValue(lines, "branch.head").Some? then LastValue(lines, "branch.head").value else "")
    ensures r.tracking.Some? <==> LastValue(lines, "branch.upstream").Some?
    ensures r.tracking.Some? ==> r.tracking.value.upstream == LastValue(lines, "branch.upstream").value
    ensures r.tracking.Some? ==>
              (r.tracking.value.ahead, r.tracking.value.behind) ==
              (if LastCounts(lines).Some? then Counts(LastCounts(lines).value) else (0, 0))
  {
    LastOccurrenceWins(lines);
    LastCountsWin(lines);
    var f := ParseLines(lines);
    BranchStatus(f.oid, f.head, if f.upstream.None? then None else Some(Tracking(f.upstream.value, f.ahead, f.behind)))
  }

  /** The value of the last `branch.ab` header line whose value is read, if any. */
  function LastCounts(lines: seq<string>): (r: Option<string>)
    ensures r.Some? ==> CountsRead(r.value)
    decreases |lines|
  {
    if lines == [] then None
    else
      var h := ParseHeader(lines[|lines| - 1]);
      if h.Some? && h.value.key == "branch.ab" && CountsRead(h.value.value) then Some(h.value.value)
      else LastCounts(lines[..|lines| - 1])
  }

  /** The counts the loop ends with are those of the last `branch.ab` line that is read;
      lines with an unreadable value leave the earlier counts in place. */
  lemma {:induction false} LastCountsWin(lines: seq<string>)
    ensures (ParseLines(lines).ahead, ParseLines(lines).behind) ==
            (if LastCounts(lines).Some? then Counts(LastCounts(lines).value) else (0, 0))
    decreases |lines|
  {
    if lines != [] {
      LastCountsWin(lines[..|lines| - 1]);
      ApplyLineCounts(ParseLines(lines[..|lines| - 1]), lines[|lines| - 1]);
    }
  }

  /** Only a `branch.ab` line with a value that is read changes the counts. */
  lemma ApplyLineCounts(f: Fields, line: string)
    ensures var h := ParseHeader(line);
            (ApplyLine(f, line).ahead, ApplyLine(f, line).behind) ==
              (if h.Some? && h.value.key == "branch.ab" && CountsRead(h.value.value)
               then Counts(h.value.value) else (f.ahead, f.behind))
  {
    match ParseHeader(line) {
      case None =>
      case Some(h) =>
        KeysDistinct();
        if h.key == "branch.ab" {
          assert ApplyLine(f, line) == AheadBehind(f, h.value);
        }
    }
  }

  /** The value of the last header line with the key, if any. */
  function LastValue(lines: seq<string>, key: string): (r: Option<string>)
    decreases |lines|
  {
    if lines == [] then None
    else
      var h := ParseHeader(lines[|lines| - 1]);
      if h.Some? && h.value.key == key then Some(h.value.value) else LastValue(lines[..|lines| - 1], key)
  }

  /** The last occurrence wins: oid and head are the values of the last lines with their
      keys (empty without one), and the upstream is the value of the last
      `branch.upstream` line. */
  lemma {:induction false} LastOccurrenceWins(lines: seq<string>)
    ensures ParseLines(lines).oid == (if LastValue(lines, "branch.oid").Some? then LastValue(lines, "branch.oid").value else "")
    ensures ParseLines(lines).head == (if LastValue(lines, "branch.head").Some? then LastValue(lines, "branch.head").value else "")
    ensures ParseLines(lines).upstream == LastValue(lines, "branch.upstream")
    decreases |lines|
  {
    if lines != [] {
      LastOccurrenceWins(lines[..|lines| - 1]);
      ApplyLineFields(ParseLines(lines[..|lines| - 1]), lines[|lines| - 1]);
    }
  }

  /** The field a line sets is the one its key names. */
  lemma ApplyLineFields(f: Fields, line: string)
    ensures var h := ParseHeader(line);
            && ApplyLine(f, line).oid == (if h.Some? && h.value.key == "branch.oid" then h.value.value else f.oid)
            && ApplyLine(f, line).head == (if h.Some? && h.value.key == "branch.head" then h.value.value else f.head)
            && ApplyLine(f, line).upstream ==
                 (if h.Some? && h.value.key == "branch.upstream" then Some(h.value.value) else f.upstream)
  {
    match ParseHeader(line) {
      case None =>
      case Some(h) =>
        KeysDistinct();
        if h.key == "branch.oid" {
          assert ApplyLine(f, line) == f.(oid := h.value);
        } else if h.key == "branch.head" {
          assert ApplyLine(f, line) == f.(head := h.value);
        } else if h.key == "branch.upstream" {
          assert ApplyLine(f, line) == f.(upstream := Some(h.value));
        } else if h.key == "branch.ab" {
          assert ApplyLine(f, line) == AheadBehind(f, h.value);
        } else {
          assert ApplyLine(f, line) == f;
        }
    }
  }

  lemma KeysDistinct()
    ensures "branch.oid" != "branch.head" && "branch.oid" != "branch.upstream" && "branch.oid" != "branch.ab"
    ensures "branch.head" != "branch.upstream" && "branch.head" != "branch.ab"
    ensures "branch.upstream" != "branch.ab"
  {
    assert "branch.oid"[7] == 'o' && "branch.head"[7] == 'h';
    assert "branch.upstream"[7] == 'u' && "branch.ab"[7] == 'a';
  }

  /** Lines that are not header lines with a known key leave every field unchanged. */
  lemma OtherLinesIgnored(lines: seq<string>, line: string)
    requires ParseHeader(line).None? ||
             ParseHeader(line).value.key !in {"branch.oid", "branch.head", "branch.upstream", "branch.ab"}
    ensures ParseLines(lines + [line]) == ParseLines(lines)
  {
    assert (lines + [line])[..|lines|] == lines;
  }

  /** A key with no space after it is not a header: such lines are skipped. */
  lemma NoSpaceSkipped(line: string)
    requires ' ' !in line
    ensures ParseHeader(line).None?
  {
    if |line| >= 1 && line[0] == '#' {
      assert TrimStart(line[1..]) == line[1..][|line| - 1 - |TrimStart(line[1..])|..];
    }
  }
}
