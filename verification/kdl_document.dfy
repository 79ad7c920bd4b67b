/** A KDL document as a tree of nodes, the writer calls that emit it (the order in which
    the report code calls the writer), and a declarative layout of the text. The main
    theorem states that running the writer's state machine on the calls of a well-formed
    tree writes exactly its layout. */
module KdlDocument {
  import opened Wrappers
  import opened Utf16
  import opened Numerals
  import opened KdlStrings
  import opened KdlWriter

  datatype Value = StringValue(text: Text, forceQuotes: bool) | NumberValue(number: int)

  /** An argument, or a `name=value` property. */
  datatype Entry = Argument(value: Value) | Property(name: Text, quoteName: bool, value: Value)

  /** A node; `blankLineBefore` is a `WriteLine` call before it, `inlineChildren` a
      single-line scope around its children. */
  datatype Node = Node(
    name: Text,
    entries: seq<Entry>,
    blankLineBefore: bool,
    inlineChildren: bool,
    children: seq<Node>)

  function Leaf(name: Text, entries: seq<Entry>): Node {
    Node(name, entries, false, false, [])
  }

  // ---- The calls ----

  function ValueCall(v: Value): Call {
    match v
    case StringValue(t, force) => WriteStringValueCall(t, force)
    case NumberValue(n) => WriteNumberValueCall(n)
  }

  function EntryCalls(e: Entry): seq<Call> {
    match e
    case Argument(v) => [ValueCall(v)]
    case Property(name, quote, v) => [WritePropertyNameCall(name, quote), ValueCall(v)]
  }

  function EntriesCalls(es: seq<Entry>): seq<Call> {
    if es == [] then [] else EntryCalls(es[0]) + EntriesCalls(es[1..])
  }

  function ChildCalls(n: Node): seq<Call>
    decreases n, 0
  {
    if n.inlineChildren then [EnterSingleLineModeCall] + EmitAll(n.children) + [DisposeSingleLineScopeCall]
    else EmitAll(n.children)
  }

  function Emit(n: Node): seq<Call>
    decreases n, 1
  {
    (if n.blankLineBefore then [WriteLineCall] else []) + [StartNodeCall(n.name)]
    + EntriesCalls(n.entries) + ChildCalls(n) + [EndNodeCall]
  }

  function EmitAll(cs: seq<Node>): seq<Call>
    decreases cs
  {
    if cs == [] then [] else Emit(cs[0]) + EmitAll(cs[1..])
  }

  // ---- Which trees can be written ----

  predicate ValueOk(v: Value) {
    v.StringValue? ==> NoSurrogates(v.text)
  }

  predicate EntryOk(e: Entry) {
    ValueOk(e.value) && (e.Property? ==> NoSurrogates(e.name))
  }

  predicate EntriesOk(es: seq<Entry>) {
    forall i :: 0 <= i < |es| ==> EntryOk(es[i])
  }

  /** A plain leaf that can sit inside a single-line scope. */
  predicate InlineLeaf(c: Node) {
    c.children == [] && !c.inlineChildren && !c.blankLineBefore && EntriesOk(c.entries)
  }

  /** Every string is free of surrogates, single-line scopes hold plain leaves only (the
      scope is a flag, not a stack), and no first child asks for a blank line (the writer
      is still on its parent's header line there). */
  predicate WellFormed(n: Node)
    decreases n
  {
    && EntriesOk(n.entries)
    && (n.inlineChildren ==> forall i :: 0 <= i < |n.children| ==> InlineLeaf(n.children[i]))
    && (!n.inlineChildren ==>
          && (n.children != [] ==> !n.children[0].blankLineBefore)
          && forall i :: 0 <= i < |n.children| ==> WellFormed(n.children[i]))
  }

  // ---- The layout ----

  function ValueText(v: Value): Text
    requires ValueOk(v)
  {
    match v
    case StringValue(t, force) => FormatString(t, force).value
    case NumberValue(n) => GroupedText(n)
  }

  function EntryText(e: Entry): Text
    requires EntryOk(e)
  {
    match e
    case Argument(v) => [Space] + ValueText(v)
    case Property(name, quote, v) => [Space] + FormatString(name, quote).value + [EqualsSign] + ValueText(v)
  }

  function EntriesText(es: seq<Entry>): Text
    requires EntriesOk(es)
  {
    if es == [] then [] else EntryText(es[0]) + EntriesText(es[1..])
  }

  /** Single-line children: `{ a x; b y` (the closing ` }` belongs to the parent). */
  function InlineText(cs: seq<Node>, first: bool): Text
    requires forall i :: 0 <= i < |cs| ==> InlineLeaf(cs[i])
  {
    if cs == [] then []
    else
      assert InlineLeaf(cs[0]);
      (if first then [Space, OpenBrace, Space] else [Semicolon, Space])
      + cs[0].name + EntriesText(cs[0].entries) + InlineText(cs[1..], false)
  }

  /** A node on its own line(s) at `depth`: name, entries, then nothing, an inline block
      `{ ... }`, or a block of indented children closed by `}` on its own line. */
  function RenderNode(n: Node, depth: int, nl: Text): Text
    requires WellFormed(n)
    decreases n, 1
  {
    (if n.blankLineBefore then nl else []) + Indent(depth) + n.name + EntriesText(n.entries)
    + RenderBody(n, depth, nl)
  }

  function RenderBody(n: Node, depth: int, nl: Text): Text
    requires WellFormed(n)
    decreases n, 0
  {
    if n.children == [] then nl
    else if n.inlineChildren then InlineText(n.children, true) + [Space, CloseBrace] + nl
    else [Space, OpenBrace] + nl + RenderAll(n.children, depth + 1, nl) + Indent(depth) + [CloseBrace] + nl
  }

  function RenderAll(cs: seq<Node>, depth: int, nl: Text): Text
    requires forall i :: 0 <= i < |cs| ==> WellFormed(cs[i])
    decreases cs
  {
    if cs == [] then [] else RenderNode(cs[0], depth, nl) + RenderAll(cs[1..], depth, nl)
  }

  // ---- The writer writes the layout ----

  lemma AppendAssoc(a: Text, b: Text, c: Text)
    ensures a + b + c == a + (b + c)
  {
  }

  lemma RunThen(w: Writer, a: seq<Call>, b: seq<Call>)
    requires Run(w, a).Ok?
    ensures Run(w, a + b) == Run(Run(w, a).value, b)
  {
    RunAppend(w, a, b);
  }

  lemma RunOne(w: Writer, c: Call)
    ensures Run(w, [c]) == Step(w, c)
  {
    assert [c][1..] == [];
  }

  lemma RunPair(w: Writer, a: Call, b: Call)
    requires Step(w, a).Ok?
    ensures Run(w, [a, b]) == Run(Step(w, a).value, [b])
  {
    assert [a, b][1..] == [b];
  }

  lemma ValueWritten(w: Writer, v: Value)
    requires ValueOk(v)
    ensures Run(w, [ValueCall(v)]) ==
      Ok(w.(out := w.out + (if w.isAfterProperty then [] else [Space]) + ValueText(v), isAfterProperty := false))
  {
    RunOne(w, ValueCall(v));
  }

  lemma PropertyWritten(w: Writer, name: Text, quote: bool, v: Value)
    requires !w.isAfterProperty && NoSurrogates(name) && ValueOk(v)
    ensures Run(w, [WritePropertyNameCall(name, quote), ValueCall(v)])
         == Ok(w.(out := w.out + EntryText(Property(name, quote, v))))
  {
    var nameText := FormatString(name, quote).value;
    var p := w.(out := w.out + [Space] + nameText + [EqualsSign], isAfterProperty := true);
    assert Step(w, WritePropertyNameCall(name, quote)) == Ok(p);
    RunPair(w, WritePropertyNameCall(name, quote), ValueCall(v));
    ValueWritten(p, v);
    assert EntryText(Property(name, quote, v)) == [Space] + nameText + [EqualsSign] + ValueText(v);
    assert p.out + [] + ValueText(v) == w.out + EntryText(Property(name, quote, v)) by {
      assert p.out + [] == p.out;
      AppendAssoc(w.out + [Space] + nameText, [EqualsSign], ValueText(v));
      AppendAssoc(w.out + [Space], nameText, [EqualsSign] + ValueText(v));
      AppendAssoc(w.out, [Space], nameText + ([EqualsSign] + ValueText(v)));
      AppendAssoc([Space], nameText, [EqualsSign] + ValueText(v));
      AppendAssoc([Space] + nameText, [EqualsSign], ValueText(v));
    }
  }

  lemma EntryWritten(w: Writer, e: Entry)
    requires !w.isAfterProperty && EntryOk(e)
    ensures Run(w, EntryCalls(e)) == Ok(w.(out := w.out + EntryText(e)))
  {
    match e {
      case Argument(v) =>
        ValueWritten(w, v);
        AppendAssoc(w.out, [Space], ValueText(v));
      case Property(name, quote, v) =>
        PropertyWritten(w, name, quote, v);
    }
  }

  lemma EntriesTail(es: seq<Entry>)
    requires es != [] && EntriesOk(es)
    ensures EntryOk(es[0]) && EntriesOk(es[1..])
  {
    forall i | 0 <= i < |es[1..]| ensures EntryOk(es[1..][i]) { assert es[1..][i] == es[i + 1]; }
  }

  lemma {:induction false} EntriesWritten(w: Writer, es: seq<Entry>)
    requires !w.isAfterProperty && EntriesOk(es)
    ensures Run(w, EntriesCalls(es)) == Ok(w.(out := w.out + EntriesText(es)))
    decreases |es|
  {
    if es == [] {
      assert w.(out := w.out + []) == w;
    } else {
      EntriesTail(es);
      EntryWritten(w, es[0]);
      var w1 := w.(out := w.out + EntryText(es[0]));
      RunThen(w, EntryCalls(es[0]), EntriesCalls(es[1..]));
      EntriesWritten(w1, es[1..]);
      AppendAssoc(w.out, EntryText(es[0]), EntriesText(es[1..]));
    }
  }

  // ---- Single steps of the writer in the situations a document meets ----

  lemma StartNodeStep(w: Writer, name: Text)
    requires !w.isAfterProperty
    ensures Run(w, [StartNodeCall(name)])
         == Ok(w.(out := w.out + (NodeOpening(w) + name), insideNode := true, atLineStart := false,
                  nodeDepth := w.nodeDepth + 1))
  {
    assert StartNode(w, name)
        == Ok(w.(out := w.out + (NodeOpening(w) + name), insideNode := true, atLineStart := false,
                 nodeDepth := w.nodeDepth + 1));
    RunOne(w, StartNodeCall(name));
  }

  /** Closing a node with no children. */
  lemma EndLeafStep(w: Writer)
    requires !w.isAfterProperty && w.insideNode
    ensures Run(w, [EndNodeCall])
         == Ok(if w.singleLineMode then w.(nodeDepth := w.nodeDepth - 1, insideNode := false)
               else w.(out := w.out + w.newLine, nodeDepth := w.nodeDepth - 1, insideNode := false,
                       atLineStart := true))
  {
    EndLeafNode(w);
    EndNodeStep(w);
    RunOne(w, EndNodeCall);
  }

  lemma EndNodeStep(w: Writer)
    ensures Step(w, EndNodeCall) == EndNode(w)
  {
  }

  lemma EndLeafNode(w: Writer)
    requires !w.isAfterProperty && w.insideNode
    ensures EndNode(w)
         == Ok(if w.singleLineMode then w.(nodeDepth := w.nodeDepth - 1, insideNode := false)
               else w.(out := w.out + w.newLine, nodeDepth := w.nodeDepth - 1, insideNode := false,
                       atLineStart := true))
  {
    assert CheckIncompleteProperty(w) == Ok(w);
  }

  /** Closing a node whose single-line children end on its header line. */
  lemma EndInlineStep(w: Writer)
    requires !w.isAfterProperty && !w.insideNode && !w.atLineStart && !w.singleLineMode
    ensures Run(w, [EndNodeCall])
         == Ok(w.(out := w.out + [Space, CloseBrace] + w.newLine, nodeDepth := w.nodeDepth - 1,
                  atLineStart := true))
  {
    EndInlineNode(w);
    EndNodeStep(w);
    RunOne(w, EndNodeCall);
  }

  lemma EndInlineNode(w: Writer)
    requires !w.isAfterProperty && !w.insideNode && !w.atLineStart && !w.singleLineMode
    ensures EndNode(w)
         == Ok(w.(out := w.out + [Space, CloseBrace] + w.newLine, nodeDepth := w.nodeDepth - 1,
                  atLineStart := true))
  {
    assert CheckIncompleteProperty(w) == Ok(w);
  }

  /** Closing a node whose children ended their own lines. */
  lemma EndBlockStep(w: Writer)
    requires !w.isAfterProperty && !w.insideNode && w.atLineStart
    ensures Run(w, [EndNodeCall])
         == Ok(w.(out := w.out + (Indent(w.nodeDepth - 1) + [CloseBrace] + w.newLine),
                  nodeDepth := w.nodeDepth - 1, atLineStart := true))
  {
    EndBlockNode(w);
    EndNodeStep(w);
    RunOne(w, EndNodeCall);
  }

  lemma EndBlockNode(w: Writer)
    requires !w.isAfterProperty && !w.insideNode && w.atLineStart
    ensures EndNode(w)
         == Ok(w.(out := w.out + (Indent(w.nodeDepth - 1) + [CloseBrace] + w.newLine),
                  nodeDepth := w.nodeDepth - 1, atLineStart := true))
  {
    assert CheckIncompleteProperty(w) == Ok(w);
  }

  // ---- Single-line children ----

  predicate AllInlineLeaves(cs: seq<Node>) {
    forall i :: 0 <= i < |cs| ==> InlineLeaf(cs[i])
  }

  lemma InlineTail(cs: seq<Node>)
    requires cs != [] && AllInlineLeaves(cs)
    ensures InlineLeaf(cs[0]) && AllInlineLeaves(cs[1..])
  {
    forall i | 0 <= i < |cs[1..]| ensures InlineLeaf(cs[1..][i]) { assert cs[1..][i] == cs[i + 1]; }
  }

  function Separator(first: bool): Text {
    if first then [Space, OpenBrace, Space] else [Semicolon, Space]
  }

  lemma LeafCalls(c: Node)
    requires InlineLeaf(c)
    ensures Emit(c) == [StartNodeCall(c.name)] + EntriesCalls(c.entries) + [EndNodeCall]
  {
    assert ChildCalls(c) == [];
  }

  /** One leaf in single-line mode: a separator, its name and entries, and no line end. */
  lemma LeafInlineWritten(w: Writer, c: Node)
    requires w.singleLineMode && !w.isAfterProperty && !w.atLineStart
    requires InlineLeaf(c)
    ensures Run(w, Emit(c))
         == Ok(w.(out := w.out + (Separator(w.insideNode) + c.name + EntriesText(c.entries)), insideNode := false))
  {
    LeafCalls(c);
    var start := [StartNodeCall(c.name)];
    StartNodeStep(w, c.name);
    assert NodeOpening(w) == Separator(w.insideNode);
    var s := w.(out := w.out + (Separator(w.insideNode) + c.name), insideNode := true, atLineStart := false,
                nodeDepth := w.nodeDepth + 1);
    RunThen(w, start, EntriesCalls(c.entries));
    EntriesWritten(s, c.entries);
    var s2 := s.(out := s.out + EntriesText(c.entries));
    RunThen(w, start + EntriesCalls(c.entries), [EndNodeCall]);
    EndLeafStep(s2);
    AppendAssoc(w.out, Separator(w.insideNode) + c.name, EntriesText(c.entries));
  }

  /** Single-line children are written as `InlineText` and leave the writer after them on
      the same line. */
  lemma {:induction false} InlineWritten(w: Writer, cs: seq<Node>)
    requires w.singleLineMode && !w.isAfterProperty && !w.atLineStart
    requires AllInlineLeaves(cs)
    ensures Run(w, EmitAll(cs)) == Ok(w.(out := w.out + InlineText(cs, w.insideNode),
                                         insideNode := if cs == [] then w.insideNode else false))
    decreases |cs|
  {
    if cs == [] {
      assert w.(out := w.out + []) == w;
    } else {
      InlineTail(cs);
      var head := Separator(w.insideNode) + cs[0].name + EntriesText(cs[0].entries);
      LeafInlineWritten(w, cs[0]);
      var e := w.(out := w.out + head, insideNode := false);
      RunThen(w, Emit(cs[0]), EmitAll(cs[1..]));
      InlineWritten(e, cs[1..]);
      assert InlineText(cs, w.insideNode) == head + InlineText(cs[1..], false);
      AppendAssoc(w.out, head, InlineText(cs[1..], false));
    }
  }

  // ---- Nodes on lines of their own ----

  /** The writer is positioned to start a node on a line of its own: right after its
      parent's header, or after a completed sibling. */
  predicate Ready(w: Writer) {
    !w.singleLineMode && !w.isAfterProperty && w.insideNode != w.atLineStart
  }

  /** What the first child writes to close its parent's header line. */
  function Opening(w: Writer): Text {
    if w.insideNode then [Space, OpenBrace] + w.newLine else []
  }

  function Finished(w: Writer, t: Text): Writer {
    w.(out := w.out + t, insideNode := false, atLineStart := true)
  }

  lemma FinishedAfter(w: Writer, a: Text, b: Text, inside: bool, start: bool)
    ensures Finished(w.(out := w.out + a, insideNode := inside, atLineStart := start), b) == Finished(w, a + b)
  {
    AppendAssoc(w.out, a, b);
  }

  predicate AllWellFormed(cs: seq<Node>) {
    forall i :: 0 <= i < |cs| ==> WellFormed(cs[i])
  }

  lemma WellFormedTail(cs: seq<Node>)
    requires cs != [] && AllWellFormed(cs)
    ensures WellFormed(cs[0]) && AllWellFormed(cs[1..])
  {
    forall i | 0 <= i < |cs[1..]| ensures WellFormed(cs[1..][i]) { assert cs[1..][i] == cs[i + 1]; }
  }

  function BlankLine(n: Node, nl: Text): Text {
    if n.blankLineBefore then nl else []
  }

  function HeaderCalls(n: Node): seq<Call> {
    (if n.blankLineBefore then [WriteLineCall] else []) + [StartNodeCall(n.name)]
  }

  /** The optional blank line and the node name. */
  lemma HeaderWritten(w: Writer, n: Node)
    requires Ready(w)
    requires n.blankLineBefore ==> w.atLineStart
    ensures Run(w, HeaderCalls(n))
         == Ok(w.(out := w.out + (Opening(w) + BlankLine(n, w.newLine) + Indent(w.nodeDepth) + n.name),
                  nodeDepth := w.nodeDepth + 1, insideNode := true, atLineStart := false))
  {
    if n.blankLineBefore {
      var w0 := w.(out := w.out + w.newLine);
      RunOne(w, WriteLineCall);
      RunThen(w, [WriteLineCall], [StartNodeCall(n.name)]);
      StartNodeStep(w0, n.name);
      assert NodeOpening(w0) == Indent(w.nodeDepth);
      assert Opening(w) + BlankLine(n, w.newLine) == w.newLine;
      AppendAssoc(w.out, w.newLine, Indent(w.nodeDepth) + n.name);
      AppendAssoc(w.newLine, Indent(w.nodeDepth), n.name);
    } else {
      assert HeaderCalls(n) == [StartNodeCall(n.name)];
      StartNodeStep(w, n.name);
      assert NodeOpening(w) == Opening(w) + BlankLine(n, w.newLine) + Indent(w.nodeDepth);
    }
  }

  lemma NodeCalls(n: Node)
    ensures Emit(n) == HeaderCalls(n) + EntriesCalls(n.entries) + ChildCalls(n) + [EndNodeCall]
  {
  }

  lemma RunSeq(w: Writer, a: seq<Call>, b: seq<Call>, c: seq<Call>, d: seq<Call>,
               w1: Writer, w2: Writer, w3: Writer, w4: Writer)
    requires Run(w, a) == Ok(w1) && Run(w1, b) == Ok(w2) && Run(w2, c) == Ok(w3) && Run(w3, d) == Ok(w4)
    ensures Run(w, a + b + c + d) == Ok(w4)
  {
    RunThen(w, a, b);
    RunThen(w, a + b, c);
    RunThen(w, a + b + c, d);
  }

  /** The state after `EndNode`, in terms of the layout. */
  lemma NodeFinished(w: Writer, n: Node, w2: Writer)
    requires WellFormed(n)
    requires w2 == w.(out := w.out + (Opening(w) + BlankLine(n, w.newLine) + Indent(w.nodeDepth) + n.name)
                      + EntriesText(n.entries), nodeDepth := w.nodeDepth + 1, insideNode := true, atLineStart := false)
    ensures Finished(w2.(nodeDepth := w2.nodeDepth - 1), RenderBody(n, w2.nodeDepth - 1, w2.newLine))
         == Finished(w, Opening(w) + RenderNode(n, w.nodeDepth, w.newLine))
  {
    var d, nl := w.nodeDepth, w.newLine;
    var header := Opening(w) + BlankLine(n, nl) + Indent(d) + n.name;
    assert w2.(nodeDepth := d) == w.(out := w.out + (header + EntriesText(n.entries)), insideNode := true, atLineStart := false) by {
      AppendAssoc(w.out, header, EntriesText(n.entries));
    }
    FinishedAfter(w, header + EntriesText(n.entries), RenderBody(n, d, nl), true, false);
    assert header + EntriesText(n.entries) + RenderBody(n, d, nl) == Opening(w) + RenderNode(n, d, nl) by {
      AppendAssoc(Opening(w), BlankLine(n, nl) + Indent(d) + n.name + EntriesText(n.entries), RenderBody(n, d, nl));
      AppendAssoc(Opening(w), BlankLine(n, nl) + Indent(d) + n.name, EntriesText(n.entries));
      AppendAssoc(Opening(w), BlankLine(n, nl) + Indent(d), n.name);
      AppendAssoc(Opening(w), BlankLine(n, nl), Indent(d));
    }
  }

  lemma {:induction false} NodeWritten(w: Writer, n: Node)
    requires Ready(w) && WellFormed(n)
    requires n.blankLineBefore ==> w.atLineStart
    ensures Run(w, Emit(n)) == Ok(Finished(w, Opening(w) + RenderNode(n, w.nodeDepth, w.newLine)))
    decreases n, 2
  {
    HeaderWritten(w, n);
    var w1 := w.(out := w.out + (Opening(w) + BlankLine(n, w.newLine) + Indent(w.nodeDepth) + n.name),
                 nodeDepth := w.nodeDepth + 1, insideNode := true, atLineStart := false);
    EntriesWritten(w1, n.entries);
    var w2 := w1.(out := w1.out + EntriesText(n.entries));
    var w3 := ChildrenWritten(w2, n);
    RunOne(w3, EndNodeCall);
    NodeFinished(w, n, w2);
    RunSeq(w, HeaderCalls(n), EntriesCalls(n.entries), ChildCalls(n), [EndNodeCall],
           w1, w2, w3, Finished(w, Opening(w) + RenderNode(n, w.nodeDepth, w.newLine)));
    NodeCalls(n);
  }

  /** The children of a node whose header has just been written, up to and including its
      `EndNode`: returns the state before `EndNode` and proves what `EndNode` then writes. */
  lemma {:induction false} ChildrenWritten(w2: Writer, n: Node) returns (w3: Writer)
    requires WellFormed(n)
    requires w2.insideNode && !w2.atLineStart && !w2.singleLineMode && !w2.isAfterProperty
    ensures Run(w2, ChildCalls(n)) == Ok(w3)
    ensures EndNode(w3) == Ok(Finished(w2.(nodeDepth := w2.nodeDepth - 1),
                                       RenderBody(n, w2.nodeDepth - 1, w2.newLine)))
    decreases n, 1
  {
    if n.children == [] {
      w3 := EmptyChildrenWritten(w2, n);
    } else if n.inlineChildren {
      w3 := InlineChildrenWritten(w2, n);
    } else {
      w3 := BlockChildrenWritten(w2, n);
    }
  }

  lemma EmptyChildrenWritten(w2: Writer, n: Node) returns (w3: Writer)
    requires WellFormed(n) && n.children == []
    requires w2.insideNode && !w2.atLineStart && !w2.singleLineMode && !w2.isAfterProperty
    ensures Run(w2, ChildCalls(n)) == Ok(w3)
    ensures EndNode(w3) == Ok(Finished(w2.(nodeDepth := w2.nodeDepth - 1),
                                       RenderBody(n, w2.nodeDepth - 1, w2.newLine)))
  {
    w3 := w2;
    if n.inlineChildren {
      assert ChildCalls(n) == [EnterSingleLineModeCall, DisposeSingleLineScopeCall];
      RunPair(w2, EnterSingleLineModeCall, DisposeSingleLineScopeCall);
      RunOne(EnterSingleLineMode(w2), DisposeSingleLineScopeCall);
    }
    EndLeafStep(w2);
    RunOne(w2, EndNodeCall);
  }

  lemma InlineChildrenWritten(w2: Writer, n: Node) returns (w3: Writer)
    requires WellFormed(n) && n.children != [] && n.inlineChildren
    requires w2.insideNode && !w2.atLineStart && !w2.singleLineMode && !w2.isAfterProperty
    ensures Run(w2, ChildCalls(n)) == Ok(w3)
    ensures EndNode(w3) == Ok(Finished(w2.(nodeDepth := w2.nodeDepth - 1),
                                       RenderBody(n, w2.nodeDepth - 1, w2.newLine)))
  {
    var cs := n.children;
    var e := EnterSingleLineMode(w2);
    RunOne(w2, EnterSingleLineModeCall);
    RunThen(w2, [EnterSingleLineModeCall], EmitAll(cs));
    InlineWritten(e, cs);
    var w4 := e.(out := e.out + InlineText(cs, true), insideNode := false);
    RunThen(w2, [EnterSingleLineModeCall] + EmitAll(cs), [DisposeSingleLineScopeCall]);
    RunOne(w4, DisposeSingleLineScopeCall);
    w3 := w4.(singleLineMode := false);
    EndInlineStep(w3);
    RunOne(w3, EndNodeCall);
    AppendAssoc(w2.out, InlineText(cs, true), [Space, CloseBrace]);
    AppendAssoc(w2.out, InlineText(cs, true) + [Space, CloseBrace], w2.newLine);
  }

  lemma BlockChildrenWritten(w2: Writer, n: Node) returns (w3: Writer)
    requires WellFormed(n) && n.children != [] && !n.inlineChildren
    requires w2.insideNode && !w2.atLineStart && !w2.singleLineMode && !w2.isAfterProperty
    ensures Run(w2, ChildCalls(n)) == Ok(w3)
    ensures EndNode(w3) == Ok(Finished(w2.(nodeDepth := w2.nodeDepth - 1),
                                       RenderBody(n, w2.nodeDepth - 1, w2.newLine)))
    decreases n, 0
  {
    var d, nl := w2.nodeDepth, w2.newLine;
    w3 := AllWritten(w2, n.children);
    var body := RenderAll(n.children, d, nl);
    assert w3 == Finished(w2, [Space, OpenBrace] + nl + body);
    EndBlockStep(w3);
    RunOne(w3, EndNodeCall);
    var close := Indent(d - 1) + [CloseBrace] + nl;
    AppendAssoc(w2.out, [Space, OpenBrace] + nl + body, close);
    assert RenderBody(n, d - 1, nl) == [Space, OpenBrace] + nl + body + close by {
      AppendAssoc([Space, OpenBrace] + nl + body + Indent(d - 1), [CloseBrace], nl);
      AppendAssoc([Space, OpenBrace] + nl + body, Indent(d - 1), [CloseBrace] + nl);
      AppendAssoc(Indent(d - 1), [CloseBrace], nl);
    }
  }

  /** Multi-line children, each on its own lines one level deeper than their parent. */
  lemma {:induction false} AllWritten(w: Writer, cs: seq<Node>) returns (w': Writer)
    requires Ready(w)
    requires AllWellFormed(cs)
    requires cs != [] && cs[0].blankLineBefore ==> w.atLineStart
    ensures Run(w, EmitAll(cs)) == Ok(w')
    ensures w' == if cs == [] then w else Finished(w, Opening(w) + RenderAll(cs, w.nodeDepth, w.newLine))
    decreases cs
  {
    if cs == [] {
      w' := w;
    } else {
      WellFormedTail(cs);
      NodeWritten(w, cs[0]);
      var w1 := Finished(w, Opening(w) + RenderNode(cs[0], w.nodeDepth, w.newLine));
      RunThen(w, Emit(cs[0]), EmitAll(cs[1..]));
      w' := AllWritten(w1, cs[1..]);
      SiblingsFinished(w, cs);
    }
  }

  lemma SiblingsFinished(w: Writer, cs: seq<Node>)
    requires cs != [] && AllWellFormed(cs)
    ensures WellFormed(cs[0]) && AllWellFormed(cs[1..])
    ensures var w1 := Finished(w, Opening(w) + RenderNode(cs[0], w.nodeDepth, w.newLine));
            (if cs[1..] == [] then w1 else Finished(w1, Opening(w1) + RenderAll(cs[1..], w1.nodeDepth, w1.newLine)))
            == Finished(w, Opening(w) + RenderAll(cs, w.nodeDepth, w.newLine))
  {
    WellFormedTail(cs);
    if cs[1..] == [] {
      assert RenderAll(cs, w.nodeDepth, w.newLine) == RenderNode(cs[0], w.nodeDepth, w.newLine);
    } else {
      NextSibling(w, cs);
    }
  }

  lemma NextSibling(w: Writer, cs: seq<Node>)
    requires |cs| >= 2 && AllWellFormed(cs) && WellFormed(cs[0]) && AllWellFormed(cs[1..])
    ensures var w1 := Finished(w, Opening(w) + RenderNode(cs[0], w.nodeDepth, w.newLine));
            Finished(w1, Opening(w1) + RenderAll(cs[1..], w1.nodeDepth, w1.newLine))
            == Finished(w, Opening(w) + RenderAll(cs, w.nodeDepth, w.newLine))
  {
    var d, nl := w.nodeDepth, w.newLine;
    var first := Opening(w) + RenderNode(cs[0], d, nl);
    var w1 := Finished(w, first);
    assert Opening(w1) == [];
    var rest := RenderAll(cs[1..], d, nl);
    assert Opening(w1) + rest == rest;
    FinishedAfter(w, first, rest, false, true);
    AppendAssoc(Opening(w), RenderNode(cs[0], d, nl), rest);
  }

  /** Main theorem: a well-formed document written from a fresh writer is exactly its
      layout at depth 0, and the writer ends at the start of a line. */
  lemma DocumentWritten(n: Node, nl: Text)
    requires WellFormed(n)
    ensures Run(NewWriter(nl), Emit(n)) == Ok(Finished(NewWriter(nl), RenderNode(n, 0, nl)))
  {
    NodeWritten(NewWriter(nl), n);
    assert Opening(NewWriter(nl)) + RenderNode(n, 0, nl) == RenderNode(n, 0, nl);
  }
}
