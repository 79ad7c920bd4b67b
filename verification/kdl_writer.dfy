/** The stateful KDL writer: every public call is a function from the writer state to a
    new state (or the exception the call throws). The text written so far is `out`. */
module KdlWriter {
  import opened Wrappers
  import opened Utf16
  import opened Numerals
  import opened KdlStrings

  /** The exceptions the writer throws. */
  datatype Error =
    | IncompleteProperty      // InvalidOperationException: a property value must be written next
    | LineNotEmpty            // NotSupportedException from WriteLine
    | SurrogateNotSupported   // NotImplementedException from the escaping of a surrogate

  /** The writer's fields plus what it has written. `newLine` is the underlying text
      writer's line terminator (Environment.NewLine by default). */
  datatype Writer = Writer(
    out: Text,
    newLine: Text,
    nodeDepth: int,
    atLineStart: bool,
    insideNode: bool,
    singleLineMode: bool,
    isAfterProperty: bool)

  function NewWriter(newLine: Text): (w: Writer)
    ensures w.out == [] && w.nodeDepth == 0 && w.atLineStart
    ensures !w.insideNode && !w.singleLineMode && !w.isAfterProperty
  {
    Writer([], newLine, 0, true, false, false, false)
  }

  const Indentation: Text := [Space, Space]

  /** `nodeDepth` copies of the two-space indentation; none when the depth is not positive. */
  function Indent(depth: int): (t: Text)
    ensures |t| == if depth <= 0 then 0 else 2 * depth
    decreases depth
  {
    if depth <= 0 then [] else Indentation + Indent(depth - 1)
  }

  function Write(w: Writer, t: Text): Writer {
    w.(out := w.out + t)
  }

  /** `EnterSingleLineMode`. */
  function EnterSingleLineMode(w: Writer): (w': Writer)
    ensures w'.singleLineMode
    ensures w' == w.(singleLineMode := true)
  {
    w.(singleLineMode := true)
  }

  /** `SingleLineModeScope.Dispose`: turns single-line mode off, whatever it was before the
      scope was entered. */
  function DisposeSingleLineScope(w: Writer): (w': Writer)
    ensures !w'.singleLineMode
    ensures w' == w.(singleLineMode := false)
  {
    w.(singleLineMode := false)
  }

  /** `CheckIncompleteProperty`. */
  function CheckIncompleteProperty(w: Writer): (r: Result<Writer, Error>)
    ensures r == (if w.isAfterProperty then Err(IncompleteProperty) else Ok(w))
  {
    if w.isAfterProperty then Err(IncompleteProperty) else Ok(w)
  }

  /** What `StartNode` writes before the node name: closes an open parent header with `{`,
      separates from a previous sibling on the same line with `;`, then indents. */
  function NodeOpening(w: Writer): Text {
    (if w.insideNode then [Space, OpenBrace] + (if w.singleLineMode then [] else w.newLine)
     else if !w.atLineStart then [Semicolon] else [])
    + (if w.singleLineMode then [Space] else Indent(w.nodeDepth))
  }

  function StartNode(w: Writer, name: Text): (r: Result<Writer, Error>)
    ensures r.Err? <==> w.isAfterProperty
    ensures r.Ok? ==> && r.value.nodeDepth == w.nodeDepth + 1
                      && r.value.insideNode && !r.value.atLineStart
                      && r.value.singleLineMode == w.singleLineMode
                      && !r.value.isAfterProperty
                      && r.value.out == w.out + NodeOpening(w) + name
  {
    var w :- CheckIncompleteProperty(w);
    Ok(Write(w, NodeOpening(w) + name).(insideNode := true, atLineStart := false, nodeDepth := w.nodeDepth + 1))
  }

  function EndNode(w: Writer): (r: Result<Writer, Error>)
    ensures r.Err? <==> w.isAfterProperty
    ensures r.Ok? ==> && r.value.nodeDepth == w.nodeDepth - 1
                      && !r.value.insideNode
                      && r.value.singleLineMode == w.singleLineMode
                      && !r.value.isAfterProperty
                      && r.value.atLineStart == (!w.singleLineMode || w.atLineStart)
                      && r.value.newLine == w.newLine
    // A node without children: its line ends (unless it is on a single line).
    ensures r.Ok? && w.insideNode ==> r.value.out == w.out + (if w.singleLineMode then [] else w.newLine)
    // The last child ended on this line: ` }`, then the line ends (unless single-line).
    ensures r.Ok? && !w.insideNode && !w.atLineStart ==>
              r.value.out == w.out + [Space, CloseBrace] + (if w.singleLineMode then [] else w.newLine)
    // The children ended their lines: `}` on a line of its own at the parent's indentation.
    ensures r.Ok? && !w.insideNode && w.atLineStart ==>
              r.value.out == w.out + Indent(w.nodeDepth - 1) + [CloseBrace] + w.newLine
  {
    var w :- CheckIncompleteProperty(w);
    var depth := w.nodeDepth - 1;
    var w := w.(nodeDepth := depth);
    if w.insideNode then
      // The node had no children: its line simply ends.
      if !w.singleLineMode then Ok(Write(w, w.newLine).(atLineStart := true, insideNode := false))
      else Ok(w.(insideNode := false))
    else if !w.atLineStart then
      // The last child ended on this line (single-line children).
      var w := Write(w, [Space, CloseBrace]);
      if !w.singleLineMode then Ok(Write(w, w.newLine).(atLineStart := true)) else Ok(w)
    else
      Ok(Write(w, Indent(depth) + [CloseBrace] + w.newLine).(atLineStart := true))
  }

  /** `StartValue`: a value right after a property name is not preceded by a space. */
  function StartValue(w: Writer): (w': Writer)
    ensures !w'.isAfterProperty
    ensures w'.out == w.out + (if w.isAfterProperty then [] else [Space])
    ensures w' == w.(out := w'.out, isAfterProperty := false)
  {
    if w.isAfterProperty then w.(isAfterProperty := false) else Write(w, [Space])
  }

  function WriteStringValue(w: Writer, value: Text, forceQuotes: bool): (r: Result<Writer, Error>)
    ensures r.Err? <==> !NoSurrogates(value)
    ensures r.Err? ==> r.error == SurrogateNotSupported
    ensures r.Ok? ==> r.value == StartValue(w).(out := StartValue(w).out + FormatString(value, forceQuotes).value)
  {
    var w := StartValue(w);
    match FormatString(value, forceQuotes)
    case None => Err(SurrogateNotSupported)
    case Some(t) => Ok(Write(w, t))
  }

  /** `WriteNumberValue`: the `N0` text of the number, with `_` between groups of three
      digits; without the separators it reads as the number's decimal digits. */
  function WriteNumberValue(w: Writer, value: int): (r: Writer)
    ensures r == StartValue(w).(out := StartValue(w).out + GroupedText(value))
    ensures var t := r.out[|StartValue(w).out|..];
            && (value >= 0 ==> StripUnderscores(t) == DecimalText(value))
            && (value < 0 ==> t[0] == Minus && StripUnderscores(t[1..]) == DecimalText(-value))
  {
    var v := StartValue(w);
    var t := GroupedText(value);
    GroupThousandsStrip(DecimalText(if value < 0 then -value else value));
    assert (v.out + t)[|v.out|..] == t;
    Write(v, t)
  }

  function WritePropertyName(w: Writer, name: Text, forceQuotes: bool): (r: Result<Writer, Error>)
    ensures w.isAfterProperty ==> r == Err(IncompleteProperty)
    ensures !w.isAfterProperty ==> (r.Err? <==> !NoSurrogates(name))
    ensures r.Ok? ==> && r.value.isAfterProperty
                      && r.value.out == w.out + [Space] + FormatString(name, forceQuotes).value + [EqualsSign]
                      && r.value == w.(out := r.value.out, isAfterProperty := true)
  {
    var w :- CheckIncompleteProperty(w);
    var w :- WriteStringValue(w, name, forceQuotes);
    Ok(Write(w, [EqualsSign]).(isAfterProperty := true))
  }

  function WriteLine(w: Writer): (r: Result<Writer, Error>)
    ensures r.Err? <==> !w.atLineStart
    ensures r.Ok? ==> r.value == w.(out := w.out + w.newLine)
  {
    if !w.atLineStart then Err(LineNotEmpty) else Ok(Write(w, w.newLine))
  }

  /** One call on the writer. */
  datatype Call =
    | StartNodeCall(name: Text)
    | EndNodeCall
    | WritePropertyNameCall(propertyName: Text, quoteName: bool)
    | WriteStringValueCall(value: Text, forceQuotes: bool)
    | WriteNumberValueCall(number: int)
    | WriteLineCall
    | EnterSingleLineModeCall
    | DisposeSingleLineScopeCall

  function Step(w: Writer, call: Call): Result<Writer, Error> {
    match call
    case StartNodeCall(name) => StartNode(w, name)
    case EndNodeCall => EndNode(w)
    case WritePropertyNameCall(name, quote) => WritePropertyName(w, name, quote)
    case WriteStringValueCall(value, force) => WriteStringValue(w, value, force)
    case WriteNumberValueCall(n) => Ok(WriteNumberValue(w, n))
    case WriteLineCall => WriteLine(w)
    case EnterSingleLineModeCall => Ok(EnterSingleLineMode(w))
    case DisposeSingleLineScopeCall => Ok(DisposeSingleLineScope(w))
  }

  /** Runs a sequence of calls; the first exception ends the run. */
  function Run(w: Writer, calls: seq<Call>): Result<Writer, Error>
    decreases |calls|
  {
    if calls == [] then Ok(w)
    else match Step(w, calls[0])
      case Err(e) => Err(e)
      case Ok(w') => Run(w', calls[1..])
  }

  /** Running two call sequences one after the other is running their concatenation. */
  lemma {:induction false} RunAppend(w: Writer, a: seq<Call>, b: seq<Call>)
    ensures Run(w, a + b) == (match Run(w, a) case Err(e) => Err(e) case Ok(w') => Run(w', b))
    decreases |a|
  {
    if a == [] {
      assert a + b == b;
    } else {
      assert (a + b)[0] == a[0];
      assert (a + b)[1..] == a[1..] + b;
      match Step(w, a[0])
      case Err(e) =>
      case Ok(w') => RunAppend(w', a[1..], b);
    }
  }

  /** The text only grows: every successful run extends what was written before. */
  lemma {:induction false} RunExtends(w: Writer, calls: seq<Call>)
    requires Run(w, calls).Ok?
    ensures w.out <= Run(w, calls).value.out
    ensures Run(w, calls).value.newLine == w.newLine
    decreases |calls|
  {
    if calls != [] {
      StepExtends(w, calls[0]);
      RunExtends(Step(w, calls[0]).value, calls[1..]);
    }
  }

  /** One successful call extends the text and keeps the newline. */
  lemma StepExtends(w: Writer, call: Call)
    requires Step(w, call).Ok?
    ensures w.out <= Step(w, call).value.out
    ensures Step(w, call).value.newLine == w.newLine
  {
    match call
    case EndNodeCall =>
      var e := EndNode(w).value;
      assert w.out <= e.out;
    case _ =>
  }

  /** After a property name, the next call must write its value: starting or ending a node
      or starting another property fails, while a value is written with no leading space. */
  lemma PropertyMustBeFollowedByValue(w: Writer, name: Text, quote: bool, other: Text, value: Text, force: bool)
    requires WritePropertyName(w, name, quote).Ok?
    ensures var p := WritePropertyName(w, name, quote).value;
      && StartNode(p, other) == Err(IncompleteProperty)
      && EndNode(p) == Err(IncompleteProperty)
      && WritePropertyName(p, other, quote) == Err(IncompleteProperty)
      && (NoSurrogates(value) ==>
            && WriteStringValue(p, value, force).Ok?
            && WriteStringValue(p, value, force).value.out == p.out + FormatString(value, force).value
            && !WriteStringValue(p, value, force).value.isAfterProperty)
  {
  }

  /** Outside a property, every value is preceded by exactly one space. */
  lemma ValueAfterValueIsSpaced(w: Writer, value: Text, force: bool, n: int)
    requires !w.isAfterProperty && NoSurrogates(value)
    ensures WriteStringValue(w, value, force).Ok?
    ensures WriteStringValue(w, value, force).value.out == w.out + [Space] + FormatString(value, force).value
    ensures WriteNumberValue(w, n).out == w.out + [Space] + GroupedText(n)
  {
  }

  /** Entering and then leaving a single-line scope always ends outside single-line mode,
      even when the scope was entered while already in single-line mode. */
  lemma ScopeDoesNotRestore(w: Writer)
    requires w.singleLineMode
    ensures DisposeSingleLineScope(EnterSingleLineMode(w)) == w.(singleLineMode := false)
    ensures DisposeSingleLineScope(EnterSingleLineMode(w)) != w
  {
  }

  /** Balanced start and end calls restore the depth. */
  lemma StartEndDepth(w: Writer, name: Text)
    requires !w.isAfterProperty
    ensures StartNode(w, name).Ok?
    ensures EndNode(StartNode(w, name).value).Ok?
    ensures EndNode(StartNode(w, name).value).value.nodeDepth == w.nodeDepth
  {
  }
}
