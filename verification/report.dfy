/** The KDL report the formatter writes after each batch: the tree of nodes it emits, the
    text that tree becomes, and what the report says about the state. The culture-sensitive
    string ordering of `OrderBy` and `Order()` is the parameter `leq`. */
module Report {
  import opened Wrappers
  import opened Utf16
  import opened Linq
  import opened KdlWriter
  import opened KdlDocument
  import opened Discovered
  import opened ResultState

  // ---- Building blocks ----

  function Arg(t: Text): Entry {
    Argument(StringValue(t, false))
  }

  function QuotedArg(t: Text): Entry {
    Argument(StringValue(t, true))
  }

  function StringLeaf(name: string, t: Text): Node {
    Leaf(Lit(name), [Arg(t)])
  }

  function CountLeaf(name: string, n: int): Node {
    Leaf(Lit(name), [Argument(NumberValue(n))])
  }

  function TfmLeaves(tfms: seq<Text>): (ns: seq<Node>)
    ensures |ns| == |tfms|
  {
    seq(|tfms|, i requires 0 <= i < |tfms| => StringLeaf("tfm", tfms[i]))
  }

  /** `.Distinct().Order()`. */
  function Frameworks(tfms: seq<Text>, leq: (Text, Text) -> bool): seq<Text> {
    Sort(Distinct(tfms), leq)
  }

  function ApiVersionOf(r: DiscoveredReference): Text {
    r.apiVersion
  }

  function RepositoryOf(r: DiscoveredReference): Text {
    r.repository
  }

  function ReferenceFramework(r: DiscoveredReference): Text {
    r.targetFramework
  }

  function DeclarationFramework(a: DiscoveredApi): Text {
    a.targetFramework
  }

  predicate HasUrl(r: DiscoveredReference) {
    r.referenceUrl.Some?
  }

  predicate IsGenerated(r: DiscoveredReference) {
    r.referenceUrl.None?
  }

  /** The key `GroupBy(r => r.ReferenceUrl!)` uses on references that have a URL. */
  function UrlOf(r: DiscoveredReference): Text {
    if r.referenceUrl.Some? then r.referenceUrl.value else []
  }

  function BucketKey<T>(b: Bucket<T>): Text {
    b.key
  }

  /** `name key { tfm a; tfm b }` with the distinct frameworks in order, in a single-line
      scope. */
  function FrameworksNode(name: string, key: Text, tfms: seq<Text>, leq: (Text, Text) -> bool): Node {
    Node(Lit(name), [Arg(key)], false, true, TfmLeaves(Frameworks(tfms, leq)))
  }

  // ---- The statistics ----

  function RepoStatNode(g: Group<DiscoveredReference>, leq: (Text, Text) -> bool): Node {
    FrameworksNode("repo", g.key, Map(g.items, ReferenceFramework), leq)
  }

  function RepoStatNodes(refs: seq<DiscoveredReference>, leq: (Text, Text) -> bool): (ns: seq<Node>) {
    var gs := SortBy(GroupBy(refs, RepositoryOf), GroupKeyOf, leq);
    seq(|gs|, i requires 0 <= i < |gs| => RepoStatNode(gs[i], leq))
  }

  function VersionStatNode(g: Group<DiscoveredReference>, leq: (Text, Text) -> bool): Node {
    Node(Lit("version"), [Arg(g.key)], false, false, RepoStatNodes(g.items, leq))
  }

  function VersionStatNodes(refs: seq<DiscoveredReference>, leq: (Text, Text) -> bool): (ns: seq<Node>) {
    var gs := SortBy(GroupBy(refs, ApiVersionOf), GroupKeyOf, leq);
    seq(|gs|, i requires 0 <= i < |gs| => VersionStatNode(gs[i], leq))
  }

  function StatsNode(unused: int, removed: int, used: int, refs: seq<DiscoveredReference>, leq: (Text, Text) -> bool): Node {
    Node(Lit("stats"), [], false, false,
      [CountLeaf("unused-api-count", unused), CountLeaf("removed-api-count", removed), CountLeaf("used-api-count", used)]
      + VersionStatNodes(refs, leq))
  }

  function SourceNodes(sources: seq<DeclarationSource>): (ns: seq<Node>)
    ensures |ns| == 3 * |sources|
  {
    if sources == [] then []
    else
      [StringLeaf("repo", sources[0].repositoryUrl), StringLeaf("branch", sources[0].branch),
       StringLeaf("commit", sources[0].commit)]
      + SourceNodes(sources[1..])
  }

  // ---- APIs and their references ----

  /** `url=` with the first declaration's URL; no declarations, no property. */
  function UrlEntries(declarations: seq<DiscoveredApi>): seq<Entry> {
    if declarations == [] then []
    else [Property(Lit("url"), false, StringValue(declarations[0].declarationUrl, false))]
  }

  /** `WriteUnusedApis`, one entry. */
  function UnusedApiNode(b: Bucket<DiscoveredApi>, leq: (Text, Text) -> bool): Node {
    Node(Lit("api"), [QuotedArg(b.key)] + UrlEntries(b.items), false, true,
      TfmLeaves(Frameworks(Map(b.items, DeclarationFramework), leq)))
  }

  function UnusedApiNodes(bs: seq<Bucket<DiscoveredApi>>, leq: (Text, Text) -> bool): (ns: seq<Node>)
    ensures |ns| == |bs|
  {
    var sorted := SortBy(bs, BucketKey, leq);
    seq(|sorted|, i requires 0 <= i < |sorted| => UnusedApiNode(sorted[i], leq))
  }

  function UrlGroups(refs: seq<DiscoveredReference>, leq: (Text, Text) -> bool): seq<Group<DiscoveredReference>> {
    SortBy(GroupBy(Filter(refs, HasUrl), UrlOf), GroupKeyOf, leq)
  }

  function ReferenceNode(g: Group<DiscoveredReference>, leq: (Text, Text) -> bool): Node {
    FrameworksNode("reference", g.key, Map(g.items, ReferenceFramework), leq)
  }

  function ReferenceNodes(refs: seq<DiscoveredReference>, leq: (Text, Text) -> bool): (ns: seq<Node>) {
    var gs := UrlGroups(refs, leq);
    seq(|gs|, i requires 0 <= i < |gs| => ReferenceNode(gs[i], leq))
  }

  /** `representedTfms`: the frameworks written under the reference nodes. */
  function Represented(refs: seq<DiscoveredReference>, leq: (Text, Text) -> bool): seq<Text> {
    var gs := UrlGroups(refs, leq);
    Flatten(seq(|gs|, i requires 0 <= i < |gs| => Frameworks(Map(gs[i].items, ReferenceFramework), leq)))
  }

  function GeneratedFrameworks(refs: seq<DiscoveredReference>): seq<Text> {
    Map(Filter(refs, IsGenerated), ReferenceFramework)
  }

  /** `IsSubsetOf`. */
  predicate IsSubset(a: seq<Text>, b: seq<Text>) {
    forall t :: t in a ==> t in b
  }

  /** The `in-generated-source` node, when some framework of a reference without a URL is
      not among the represented ones; it lists every framework of such references. */
  function GeneratedNodes(refs: seq<DiscoveredReference>, represented: seq<Text>, leq: (Text, Text) -> bool): seq<Node> {
    if IsSubset(GeneratedFrameworks(refs), represented) then []
    else [FrameworksNode("reference", Lit("in-generated-source"), GeneratedFrameworks(refs), leq)]
  }

  function RepoNode(g: Group<DiscoveredReference>, leq: (Text, Text) -> bool): Node {
    Node(Lit("repo"), [Arg(g.key)], false, false,
      ReferenceNodes(g.items, leq) + GeneratedNodes(g.items, Represented(g.items, leq), leq))
  }

  function RepoNodes(refs: seq<DiscoveredReference>, leq: (Text, Text) -> bool): (ns: seq<Node>) {
    var gs := SortBy(GroupBy(refs, RepositoryOf), GroupKeyOf, leq);
    seq(|gs|, i requires 0 <= i < |gs| => RepoNode(gs[i], leq))
  }

  function VersionNode(g: Group<DiscoveredReference>, leq: (Text, Text) -> bool): Node {
    Node(Lit("version"), [Arg(g.key)], false, false, RepoNodes(g.items, leq))
  }

  function VersionNodes(refs: seq<DiscoveredReference>, leq: (Text, Text) -> bool): (ns: seq<Node>) {
    var gs := SortBy(GroupBy(refs, ApiVersionOf), GroupKeyOf, leq);
    seq(|gs|, i requires 0 <= i < |gs| => VersionNode(gs[i], leq))
  }

  /** `WriteApiReferences`, one entry: the URL of the first declaration when the identity is
      declared. */
  function ReferencedApiNode(b: Bucket<DiscoveredReference>, apis: seq<Bucket<DiscoveredApi>>, leq: (Text, Text) -> bool): Node {
    Node(Lit("api"), [QuotedArg(b.key)] + UrlEntries(Lookup(apis, b.key)), false, false, VersionNodes(b.items, leq))
  }

  function ReferencedApiNodes(bs: seq<Bucket<DiscoveredReference>>, apis: seq<Bucket<DiscoveredApi>>, leq: (Text, Text) -> bool)
    : (ns: seq<Node>)
    ensures |ns| == |bs|
  {
    var sorted := SortBy(bs, BucketKey, leq);
    seq(|sorted|, i requires 0 <= i < |sorted| => ReferencedApiNode(sorted[i], apis, leq))
  }

  /** The `WriteLine` before the first current API. */
  function BlankLineFirst(ns: seq<Node>): (r: seq<Node>)
    ensures |r| == |ns|
  {
    if ns == [] then [] else [ns[0].(blankLineBefore := true)] + ns[1..]
  }

  // ---- The document ----

  /** The optional `unused-apis` and `removed-apis` sections, each after a blank line,
      then the current APIs directly under the assembly, after a blank line. */
  function SectionNodes(c: Classification, apis: seq<Bucket<DiscoveredApi>>, leq: (Text, Text) -> bool): seq<Node> {
    Section("unused-apis", UnusedApiNodes(c.unused, leq))
    + Section("removed-apis", ReferencedApiNodes(c.removed, apis, leq))
    + BlankLineFirst(ReferencedApiNodes(c.current, apis, leq))
  }

  /** A section after a blank line, written only when it has entries. */
  function Section(name: string, children: seq<Node>): seq<Node> {
    if children == [] then [] else [Node(Lit(name), [], true, false, children)]
  }

  function AssemblyNode(
    assemblyName: Text, sources: seq<DeclarationSource>, c: Classification,
    refs: seq<DiscoveredReference>, apis: seq<Bucket<DiscoveredApi>>, leq: (Text, Text) -> bool): Node
  {
    Node(Lit("assembly"), [Arg(assemblyName)], false, false,
      [Node(Lit("current-api-source"), [], false, false, SourceNodes(sources)),
       StatsNode(|c.unused|, |c.removed|, |c.current|, refs, leq)]
      + SectionNodes(c, apis, leq))
  }

  /** The document `IngestAndCompile` writes for the state. */
  function Document(s: State, assemblyName: Text, leq: (Text, Text) -> bool): Node {
    AssemblyNode(assemblyName, s.sources, Classify(s), AllReferences(s.referencesByApi), s.apisByName, leq)
  }

  /** Running the writer on a tree's calls: its text, or the writer's error. */
  function CompileNode(n: Node, newLine: Text): Result<Text, Error> {
    var r := Run(NewWriter(newLine), Emit(n));
    if r.Ok? then Ok(r.value.out) else Err(r.error)
  }

  /** The text handed to `formattedResultUpdated`, or the writer's error. In a valid state
      whose strings hold no surrogate the writer never throws: the report is exactly the
      layout of its document tree. */
  function Compile(s: State, assemblyName: Text, leq: (Text, Text) -> bool, newLine: Text): (r: Result<Text, Error>)
    ensures Valid(s) && StateOk(s) && NoSurrogates(assemblyName) ==>
              && WellFormed(Document(s, assemblyName, leq))
              && r == Ok(RenderNode(Document(s, assemblyName, leq), 0, newLine))
  {
    var n := Document(s, assemblyName, leq);
    if Valid(s) && StateOk(s) && NoSurrogates(assemblyName) then
      // Both branches write the same text; this one carries the proof.
      DocumentWellFormed(s, assemblyName, leq);
      CompileNodeWrites(n, newLine);
      CompileNode(n, newLine)
    else CompileNode(n, newLine)
  }

  // ---- Which states can be written ----

  predicate TextsOk(ts: seq<Text>) {
    forall t :: t in ts ==> NoSurrogates(t)
  }

  predicate ReferenceOk(r: DiscoveredReference) {
    && NoSurrogates(r.api) && NoSurrogates(r.apiVersion) && NoSurrogates(r.repository)
    && NoSurrogates(r.targetFramework) && (r.referenceUrl.Some? ==> NoSurrogates(r.referenceUrl.value))
  }

  predicate ReferencesOk(rs: seq<DiscoveredReference>) {
    forall r :: r in rs ==> ReferenceOk(r)
  }

  predicate DeclarationOk(a: DiscoveredApi) {
    NoSurrogates(a.api) && NoSurrogates(a.declarationUrl) && NoSurrogates(a.targetFramework)
  }

  predicate DeclarationsOk(ds: seq<DiscoveredApi>) {
    forall a :: a in ds ==> DeclarationOk(a)
  }

  predicate SourceOk(src: DeclarationSource) {
    NoSurrogates(src.repositoryUrl) && NoSurrogates(src.branch) && NoSurrogates(src.commit)
  }

  /** No string of the state holds a UTF-16 surrogate (the writer rejects those). */
  predicate StateOk(s: State) {
    && (forall src :: src in s.sources ==> SourceOk(src))
    && (forall b :: b in s.referencesByApi ==> NoSurrogates(b.key) && ReferencesOk(b.items))
    && (forall b :: b in s.apisByName ==> NoSurrogates(b.key) && DeclarationsOk(b.items))
  }

  /** Well-formed nodes none of which asks for a blank line. */
  predicate NodesOk(ns: seq<Node>) {
    forall i :: 0 <= i < |ns| ==> WellFormed(ns[i]) && !ns[i].blankLineBefore
  }

  predicate LeavesOk(ns: seq<Node>) {
    forall i :: 0 <= i < |ns| ==> InlineLeaf(ns[i])
  }

  lemma InlineNodeOk(name: Text, entries: seq<Entry>, leaves: seq<Node>)
    requires EntriesOk(entries) && LeavesOk(leaves)
    ensures NodesOk([Node(name, entries, false, true, leaves)])
  {
    assert WellFormed(Node(name, entries, false, true, leaves));
  }

  lemma BlockNodeOk(name: Text, entries: seq<Entry>, children: seq<Node>)
    requires EntriesOk(entries) && NodesOk(children)
    ensures WellFormed(Node(name, entries, false, false, children))
  {
  }

  lemma NodesOkAppend(a: seq<Node>, b: seq<Node>)
    requires NodesOk(a) && NodesOk(b)
    ensures NodesOk(a + b)
  {
    forall i | 0 <= i < |a + b| ensures WellFormed((a + b)[i]) && !(a + b)[i].blankLineBefore {
      if i < |a| {
        assert (a + b)[i] == a[i];
      } else {
        assert (a + b)[i] == b[i - |a|];
      }
    }
  }

  lemma TfmLeavesOk(tfms: seq<Text>)
    requires TextsOk(tfms)
    ensures LeavesOk(TfmLeaves(tfms))
  {
    forall i | 0 <= i < |tfms| ensures InlineLeaf(TfmLeaves(tfms)[i]) {
      assert tfms[i] in tfms;
    }
  }

  lemma FrameworksOk(tfms: seq<Text>, leq: (Text, Text) -> bool)
    requires TextsOk(tfms)
    ensures LeavesOk(TfmLeaves(Frameworks(tfms, leq)))
  {
    SortDistinctMembers(tfms, leq);
    TfmLeavesOk(Frameworks(tfms, leq));
  }

  lemma ReferenceFrameworksOk(rs: seq<DiscoveredReference>)
    requires ReferencesOk(rs)
    ensures TextsOk(Map(rs, ReferenceFramework))
  {
    forall t | t in Map(rs, ReferenceFramework) ensures NoSurrogates(t) {
      var i :| 0 <= i < |rs| && Map(rs, ReferenceFramework)[i] == t;
      assert rs[i] in rs;
    }
  }

  lemma DeclarationFrameworksOk(ds: seq<DiscoveredApi>)
    requires DeclarationsOk(ds)
    ensures TextsOk(Map(ds, DeclarationFramework))
  {
    forall t | t in Map(ds, DeclarationFramework) ensures NoSurrogates(t) {
      var i :| 0 <= i < |ds| && Map(ds, DeclarationFramework)[i] == t;
      assert ds[i] in ds;
    }
  }

  /** The groups of good references hold good references under a good key. */
  lemma GroupsOk(rs: seq<DiscoveredReference>, key: DiscoveredReference -> Text, leq: (Text, Text) -> bool)
    requires ReferencesOk(rs)
    requires forall r :: ReferenceOk(r) ==> NoSurrogates(key(r))
    ensures forall g :: g in SortBy(GroupBy(rs, key), GroupKeyOf, leq) ==> NoSurrogates(g.key) && ReferencesOk(g.items)
  {
    SortedGroupBy(rs, key, leq);
    forall g | g in SortBy(GroupBy(rs, key), GroupKeyOf, leq) ensures NoSurrogates(g.key) && ReferencesOk(g.items) {
      assert g.items[0] in g.items;
    }
  }

  lemma FrameworksNodeOk(name: string, key: Text, tfms: seq<Text>, leq: (Text, Text) -> bool)
    requires NoSurrogates(key) && TextsOk(tfms)
    ensures WellFormed(FrameworksNode(name, key, tfms, leq))
  {
    FrameworksOk(tfms, leq);
    InlineNodeOk(Lit(name), [Arg(key)], TfmLeaves(Frameworks(tfms, leq)));
  }

  lemma RepoStatNodesOk(refs: seq<DiscoveredReference>, leq: (Text, Text) -> bool)
    requires ReferencesOk(refs)
    ensures NodesOk(RepoStatNodes(refs, leq))
  {
    var gs := SortBy(GroupBy(refs, RepositoryOf), GroupKeyOf, leq);
    var ns := RepoStatNodes(refs, leq);
    GroupsOk(refs, RepositoryOf, leq);
    forall i | 0 <= i < |ns| ensures WellFormed(ns[i]) && !ns[i].blankLineBefore {
      assert ns[i] == RepoStatNode(gs[i], leq);
      assert gs[i] in gs;
      ReferenceFrameworksOk(gs[i].items);
      FrameworksNodeOk("repo", gs[i].key, Map(gs[i].items, ReferenceFramework), leq);
    }
  }

  lemma VersionStatNodesOk(refs: seq<DiscoveredReference>, leq: (Text, Text) -> bool)
    requires ReferencesOk(refs)
    ensures NodesOk(VersionStatNodes(refs, leq))
  {
    var gs := SortBy(GroupBy(refs, ApiVersionOf), GroupKeyOf, leq);
    var ns := VersionStatNodes(refs, leq);
    GroupsOk(refs, ApiVersionOf, leq);
    forall i | 0 <= i < |ns| ensures WellFormed(ns[i]) && !ns[i].blankLineBefore {
      assert ns[i] == VersionStatNode(gs[i], leq);
      assert gs[i] in gs;
      RepoStatNodesOk(gs[i].items, leq);
      BlockNodeOk(Lit("version"), [Arg(gs[i].key)], RepoStatNodes(gs[i].items, leq));
    }
  }

  lemma {:induction false} SourceNodesOk(sources: seq<DeclarationSource>)
    requires forall src :: src in sources ==> SourceOk(src)
    ensures NodesOk(SourceNodes(sources))
  {
    if sources != [] {
      assert sources[0] in sources;
      SourceNodesOk(sources[1..]);
      var ns := SourceNodes(sources);
      forall i | 3 <= i < |ns| ensures ns[i] == SourceNodes(sources[1..])[i - 3] {
      }
    }
  }

  lemma ReferenceNodesOk(refs: seq<DiscoveredReference>, leq: (Text, Text) -> bool)
    requires ReferencesOk(refs)
    ensures NodesOk(ReferenceNodes(refs, leq))
  {
    var gs := UrlGroups(refs, leq);
    var withUrl := Filter(refs, HasUrl);
    assert ReferencesOk(withUrl);
    assert forall r :: ReferenceOk(r) ==> NoSurrogates(UrlOf(r));
    var ns := ReferenceNodes(refs, leq);
    GroupsOk(withUrl, UrlOf, leq);
    forall i | 0 <= i < |ns| ensures WellFormed(ns[i]) && !ns[i].blankLineBefore {
      assert ns[i] == ReferenceNode(gs[i], leq);
      assert gs[i] in gs;
      ReferenceFrameworksOk(gs[i].items);
      FrameworksNodeOk("reference", gs[i].key, Map(gs[i].items, ReferenceFramework), leq);
    }
  }

  lemma GeneratedNodesOk(refs: seq<DiscoveredReference>, represented: seq<Text>, leq: (Text, Text) -> bool)
    requires ReferencesOk(refs)
    ensures NodesOk(GeneratedNodes(refs, represented, leq))
  {
    assert ReferencesOk(Filter(refs, IsGenerated));
    ReferenceFrameworksOk(Filter(refs, IsGenerated));
    LitNoSurrogates("in-generated-source");
    var n := FrameworksNode("reference", Lit("in-generated-source"), GeneratedFrameworks(refs), leq);
    FrameworksNodeOk("reference", Lit("in-generated-source"), GeneratedFrameworks(refs), leq);
    SingleNodeOk(n);
  }

  lemma SingleNodeOk(n: Node)
    requires WellFormed(n) && !n.blankLineBefore
    ensures NodesOk([n])
  {
  }

  lemma RepoNodeOk(g: Group<DiscoveredReference>, leq: (Text, Text) -> bool)
    requires NoSurrogates(g.key) && ReferencesOk(g.items)
    ensures WellFormed(RepoNode(g, leq))
  {
    var refs := ReferenceNodes(g.items, leq);
    var generated := GeneratedNodes(g.items, Represented(g.items, leq), leq);
    ReferenceNodesOk(g.items, leq);
    GeneratedNodesOk(g.items, Represented(g.items, leq), leq);
    NodesOkAppend(refs, generated);
    BlockNodeOk(Lit("repo"), [Arg(g.key)], refs + generated);
  }

  lemma RepoNodesOk(refs: seq<DiscoveredReference>, leq: (Text, Text) -> bool)
    requires ReferencesOk(refs)
    ensures NodesOk(RepoNodes(refs, leq))
  {
    var gs := SortBy(GroupBy(refs, RepositoryOf), GroupKeyOf, leq);
    var ns := RepoNodes(refs, leq);
    GroupsOk(refs, RepositoryOf, leq);
    forall i | 0 <= i < |ns| ensures WellFormed(ns[i]) && !ns[i].blankLineBefore {
      assert ns[i] == RepoNode(gs[i], leq);
      assert gs[i] in gs;
      RepoNodeOk(gs[i], leq);
    }
  }

  lemma VersionNodesOk(refs: seq<DiscoveredReference>, leq: (Text, Text) -> bool)
    requires ReferencesOk(refs)
    ensures NodesOk(VersionNodes(refs, leq))
  {
    var gs := SortBy(GroupBy(refs, ApiVersionOf), GroupKeyOf, leq);
    var ns := VersionNodes(refs, leq);
    GroupsOk(refs, ApiVersionOf, leq);
    forall i | 0 <= i < |ns| ensures WellFormed(ns[i]) && !ns[i].blankLineBefore {
      assert ns[i] == VersionNode(gs[i], leq);
      assert gs[i] in gs;
      RepoNodesOk(gs[i].items, leq);
      BlockNodeOk(Lit("version"), [Arg(gs[i].key)], RepoNodes(gs[i].items, leq));
    }
  }

  lemma {:induction false} LookupOk(apis: seq<Bucket<DiscoveredApi>>, k: Text)
    requires forall b :: b in apis ==> DeclarationsOk(b.items)
    ensures DeclarationsOk(Lookup(apis, k))
  {
    if apis != [] {
      assert apis[0] in apis;
      LookupOk(apis[1..], k);
    }
  }

  lemma SortedMembers<T>(bs: seq<Bucket<T>>, leq: (Text, Text) -> bool)
    ensures forall b :: b in SortBy(bs, BucketKey, leq) <==> b in bs
  {
    var sorted := SortBy(bs, BucketKey, leq);
    assert forall b :: b in sorted <==> b in multiset(sorted);
    assert forall b :: b in bs <==> b in multiset(bs);
  }

  lemma UrlEntriesOk(ds: seq<DiscoveredApi>)
    requires DeclarationsOk(ds)
    ensures EntriesOk(UrlEntries(ds))
  {
    if ds != [] {
      assert ds[0] in ds;
    }
  }

  lemma ReferencedApiNodeOk(b: Bucket<DiscoveredReference>, apis: seq<Bucket<DiscoveredApi>>, leq: (Text, Text) -> bool)
    requires NoSurrogates(b.key) && ReferencesOk(b.items)
    requires forall a :: a in apis ==> DeclarationsOk(a.items)
    ensures WellFormed(ReferencedApiNode(b, apis, leq))
  {
    VersionNodesOk(b.items, leq);
    LookupOk(apis, b.key);
    UrlEntriesOk(Lookup(apis, b.key));
    BlockNodeOk(Lit("api"), [QuotedArg(b.key)] + UrlEntries(Lookup(apis, b.key)), VersionNodes(b.items, leq));
  }

  lemma ReferencedApiNodesOk(bs: seq<Bucket<DiscoveredReference>>, apis: seq<Bucket<DiscoveredApi>>, leq: (Text, Text) -> bool)
    requires forall b :: b in bs ==> NoSurrogates(b.key) && ReferencesOk(b.items)
    requires forall b :: b in apis ==> DeclarationsOk(b.items)
    ensures NodesOk(ReferencedApiNodes(bs, apis, leq))
  {
    var sorted := SortBy(bs, BucketKey, leq);
    SortedMembers(bs, leq);
    forall i | 0 <= i < |sorted| ensures WellFormed(ReferencedApiNode(sorted[i], apis, leq)) {
      assert sorted[i] in sorted;
      ReferencedApiNodeOk(sorted[i], apis, leq);
    }
  }

  lemma UnusedApiNodeOk(b: Bucket<DiscoveredApi>, leq: (Text, Text) -> bool)
    requires NoSurrogates(b.key) && DeclarationsOk(b.items)
    ensures WellFormed(UnusedApiNode(b, leq))
  {
    DeclarationFrameworksOk(b.items);
    FrameworksOk(Map(b.items, DeclarationFramework), leq);
    UrlEntriesOk(b.items);
    InlineNodeOk(Lit("api"), [QuotedArg(b.key)] + UrlEntries(b.items), TfmLeaves(Frameworks(Map(b.items, DeclarationFramework), leq)));
  }

  lemma UnusedApiNodesOk(bs: seq<Bucket<DiscoveredApi>>, leq: (Text, Text) -> bool)
    requires forall b :: b in bs ==> NoSurrogates(b.key) && DeclarationsOk(b.items)
    ensures NodesOk(UnusedApiNodes(bs, leq))
  {
    var sorted := SortBy(bs, BucketKey, leq);
    SortedMembers(bs, leq);
    forall i | 0 <= i < |sorted| ensures WellFormed(UnusedApiNode(sorted[i], leq)) {
      assert sorted[i] in sorted;
      UnusedApiNodeOk(sorted[i], leq);
    }
  }

  lemma {:induction false} AllReferencesOk(bs: seq<Bucket<DiscoveredReference>>)
    requires forall b :: b in bs ==> ReferencesOk(b.items)
    ensures ReferencesOk(AllReferences(bs))
  {
    if bs != [] {
      assert bs[0] in bs;
      AllReferencesOk(bs[1..]);
    }
  }

  predicate AllWellFormed(ns: seq<Node>) {
    forall i :: 0 <= i < |ns| ==> WellFormed(ns[i])
  }

  lemma SectionOk(name: string, children: seq<Node>)
    requires NodesOk(children)
    ensures AllWellFormed(Section(name, children))
  {
  }

  lemma BlankLineFirstOk(ns: seq<Node>)
    requires NodesOk(ns)
    ensures AllWellFormed(BlankLineFirst(ns))
  {
    var marked := BlankLineFirst(ns);
    forall i | 0 <= i < |marked| ensures WellFormed(marked[i]) {
      assert WellFormed(ns[i]);
    }
  }

  lemma SectionNodesOk(c: Classification, apis: seq<Bucket<DiscoveredApi>>, leq: (Text, Text) -> bool)
    requires forall b :: b in c.unused ==> NoSurrogates(b.key) && DeclarationsOk(b.items)
    requires forall b :: b in c.removed ==> NoSurrogates(b.key) && ReferencesOk(b.items)
    requires forall b :: b in c.current ==> NoSurrogates(b.key) && ReferencesOk(b.items)
    requires forall b :: b in apis ==> DeclarationsOk(b.items)
    ensures AllWellFormed(SectionNodes(c, apis, leq))
  {
    var unused := UnusedApiNodes(c.unused, leq);
    var removed := ReferencedApiNodes(c.removed, apis, leq);
    var current := ReferencedApiNodes(c.current, apis, leq);
    UnusedApiNodesOk(c.unused, leq);
    ReferencedApiNodesOk(c.removed, apis, leq);
    ReferencedApiNodesOk(c.current, apis, leq);
    SectionOk("unused-apis", unused);
    SectionOk("removed-apis", removed);
    BlankLineFirstOk(current);
    AllWellFormedAppend(Section("unused-apis", unused), Section("removed-apis", removed));
    AllWellFormedAppend(Section("unused-apis", unused) + Section("removed-apis", removed), BlankLineFirst(current));
  }

  lemma AllWellFormedAppend(a: seq<Node>, b: seq<Node>)
    requires AllWellFormed(a) && AllWellFormed(b)
    ensures AllWellFormed(a + b)
  {
    forall i | 0 <= i < |a + b| ensures WellFormed((a + b)[i]) {
      if i < |a| {
        assert (a + b)[i] == a[i];
      } else {
        assert (a + b)[i] == b[i - |a|];
      }
    }
  }

  lemma StatsNodeOk(unused: int, removed: int, used: int, refs: seq<DiscoveredReference>, leq: (Text, Text) -> bool)
    requires ReferencesOk(refs)
    ensures WellFormed(StatsNode(unused, removed, used, refs, leq))
  {
    VersionStatNodesOk(refs, leq);
    CountsThenOk(unused, removed, used, VersionStatNodes(refs, leq));
  }

  lemma CountsThenOk(unused: int, removed: int, used: int, rest: seq<Node>)
    requires NodesOk(rest)
    ensures WellFormed(Node(Lit("stats"), [], false, false,
              [CountLeaf("unused-api-count", unused), CountLeaf("removed-api-count", removed), CountLeaf("used-api-count", used)] + rest))
  {
    var counts := [CountLeaf("unused-api-count", unused), CountLeaf("removed-api-count", removed), CountLeaf("used-api-count", used)];
    assert NodesOk(counts);
    NodesOkAppend(counts, rest);
    BlockNodeOk(Lit("stats"), [], counts + rest);
  }

  /** A block whose first child asks for no blank line. */
  lemma HeadedBlockOk(name: Text, entries: seq<Entry>, first: Node, second: Node, rest: seq<Node>)
    requires EntriesOk(entries) && WellFormed(first) && !first.blankLineBefore
    requires WellFormed(second) && AllWellFormed(rest)
    ensures WellFormed(Node(name, entries, false, false, [first, second] + rest))
  {
    var cs := [first, second] + rest;
    forall i | 0 <= i < |cs| ensures WellFormed(cs[i]) {
      if i > 1 {
        assert cs[i] == rest[i - 2];
      }
    }
  }

  lemma AssemblyNodeOk(
    assemblyName: Text, sources: seq<DeclarationSource>, c: Classification,
    refs: seq<DiscoveredReference>, apis: seq<Bucket<DiscoveredApi>>, leq: (Text, Text) -> bool)
    requires NoSurrogates(assemblyName) && ReferencesOk(refs)
    requires forall src :: src in sources ==> SourceOk(src)
    requires AllWellFormed(SectionNodes(c, apis, leq))
    ensures WellFormed(AssemblyNode(assemblyName, sources, c, refs, apis, leq))
  {
    SourceNodesOk(sources);
    BlockNodeOk(Lit("current-api-source"), [], SourceNodes(sources));
    StatsNodeOk(|c.unused|, |c.removed|, |c.current|, refs, leq);
    HeadedBlockOk(Lit("assembly"), [Arg(assemblyName)],
      Node(Lit("current-api-source"), [], false, false, SourceNodes(sources)),
      StatsNode(|c.unused|, |c.removed|, |c.current|, refs, leq),
      SectionNodes(c, apis, leq));
  }

  /** A valid state whose strings hold no surrogate gives a well-formed document. */
  lemma DocumentWellFormed(s: State, assemblyName: Text, leq: (Text, Text) -> bool)
    requires Valid(s) && StateOk(s) && NoSurrogates(assemblyName)
    ensures WellFormed(Document(s, assemblyName, leq))
  {
    var c := Classify(s);
    ClassifyReferences(s);
    ClassifyUnused(s);
    AllReferencesOk(s.referencesByApi);
    SectionNodesOk(c, s.apisByName, leq);
    AssemblyNodeOk(assemblyName, s.sources, c, AllReferences(s.referencesByApi), s.apisByName, leq);
  }

  /** A well-formed tree compiles to its layout. */
  lemma CompileNodeWrites(n: Node, newLine: Text)
    requires WellFormed(n)
    ensures CompileNode(n, newLine) == Ok(RenderNode(n, 0, newLine))
  {
    DocumentWritten(n, newLine);
    assert [] + RenderNode(n, 0, newLine) == RenderNode(n, 0, newLine);
  }
}
