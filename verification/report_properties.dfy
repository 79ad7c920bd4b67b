/** What the report says: at every level of the tree the labels are the distinct values
    present in the data, sorted, and each node's children describe exactly the items with
    its label; which API nodes carry a URL; when the `in-generated-source` node appears;
    and the fixed layout of the document. */
module ReportProperties {
  import opened Wrappers
  import opened Utf16
  import opened Linq
  import opened KdlDocument
  import opened Discovered
  import opened ResultState
  import opened Report

  /** The text of a node's first argument: the identity, version, repository, URL or
      framework the node stands for. */
  function Label(n: Node): Text {
    if n.entries != [] && n.entries[0].Argument? && n.entries[0].value.StringValue?
    then n.entries[0].value.text
    else []
  }

  function Labels(ns: seq<Node>): seq<Text> {
    Map(ns, Label)
  }

  /** Each label appears once, and in order when the comparer is a total preorder. */
  ghost predicate Ordered(ns: seq<Node>, leq: (Text, Text) -> bool) {
    && NoDuplicates(Labels(ns))
    && (TotalPreorder(leq) ==> SortedBy(Labels(ns), Identity, leq))
  }

  // ---- Framework lists ----

  lemma TfmLeavesListed(tfms: seq<Text>)
    ensures Labels(TfmLeaves(tfms)) == tfms
    ensures forall i :: 0 <= i < |tfms| ==> TfmLeaves(tfms)[i].name == Lit("tfm") && TfmLeaves(tfms)[i].children == []
  {
    assert forall i :: 0 <= i < |tfms| ==> Labels(TfmLeaves(tfms))[i] == tfms[i];
  }

  /** `{ tfm a; tfm b }`: each framework of the input once, in order. */
  lemma FrameworksListed(name: string, key: Text, tfms: seq<Text>, leq: (Text, Text) -> bool)
    ensures Label(FrameworksNode(name, key, tfms, leq)) == key
    ensures forall t :: t in Labels(FrameworksNode(name, key, tfms, leq).children) <==> t in tfms
    ensures Ordered(FrameworksNode(name, key, tfms, leq).children, leq)
  {
    TfmListed(tfms, leq);
  }

  /** The `tfm` leaves of `Distinct().Order()`. */
  lemma TfmListed(tfms: seq<Text>, leq: (Text, Text) -> bool)
    ensures forall t :: t in Labels(TfmLeaves(Frameworks(tfms, leq))) <==> t in tfms
    ensures Ordered(TfmLeaves(Frameworks(tfms, leq)), leq)
  {
    TfmLeavesListed(Frameworks(tfms, leq));
    SortDistinctMembers(tfms, leq);
    PermutationNoDuplicates(Distinct(tfms), Sort(Distinct(tfms), leq));
    if TotalPreorder(leq) {
      DistinctSorted(tfms, leq);
    }
  }

  /** The frameworks of some items, as `Select(r => r.TargetFramework)` gives them. */
  lemma FrameworksOfItems(items: seq<DiscoveredReference>, t: Text)
    ensures t in Map(items, ReferenceFramework) <==> exists r :: r in items && r.targetFramework == t
  {
    if t in Map(items, ReferenceFramework) {
      var i :| 0 <= i < |items| && Map(items, ReferenceFramework)[i] == t;
      assert items[i] in items;
    }
    if exists r :: r in items && r.targetFramework == t {
      var r :| r in items && r.targetFramework == t;
      var i :| 0 <= i < |items| && items[i] == r;
      assert Map(items, ReferenceFramework)[i] == t;
    }
  }

  lemma DeclarationFrameworksOf(items: seq<DiscoveredApi>, t: Text)
    ensures t in Map(items, DeclarationFramework) <==> exists a :: a in items && a.targetFramework == t
  {
    if t in Map(items, DeclarationFramework) {
      var i :| 0 <= i < |items| && Map(items, DeclarationFramework)[i] == t;
      assert items[i] in items;
    }
    if exists a :: a in items && a.targetFramework == t {
      var a :| a in items && a.targetFramework == t;
      var i :| 0 <= i < |items| && items[i] == a;
      assert Map(items, DeclarationFramework)[i] == t;
    }
  }

  // ---- One node per group or per entry ----

  /** Nodes made one per group of `GroupBy(key).OrderBy(g => g.Key)`: their labels are
      the distinct keys, in order, and the node labelled `k` is made from the items with
      key `k`. */
  lemma GroupNodesListed<T(!new)>(
    xs: seq<T>, key: T -> Text, leq: (Text, Text) -> bool, f: Group<T> -> Node, ns: seq<Node>)
    requires forall g :: Label(f(g)) == g.key
    requires |ns| == |SortBy(GroupBy(xs, key), GroupKeyOf, leq)|
    requires forall i :: 0 <= i < |ns| ==> ns[i] == f(SortBy(GroupBy(xs, key), GroupKeyOf, leq)[i])
    ensures forall k :: k in Labels(ns) <==> exists x :: x in xs && key(x) == k
    ensures forall i :: 0 <= i < |ns| ==> ns[i] == f(Group(Label(ns[i]), WithKey(xs, key, Label(ns[i]))))
    ensures Ordered(ns, leq)
  {
    var gs := SortBy(GroupBy(xs, key), GroupKeyOf, leq);
    assert forall i :: 0 <= i < |ns| ==> Labels(ns)[i] == gs[i].key;
    GroupLabels(xs, key, leq, Labels(ns));
    SortedGroupItems(xs, key, leq);
    forall i | 0 <= i < |ns| ensures ns[i] == f(Group(Label(ns[i]), WithKey(xs, key, Label(ns[i])))) {
      assert gs[i] in gs;
    }
  }

  /** The keys of the sorted groups, as a sequence `ks`. */
  lemma GroupLabels<T(!new)>(xs: seq<T>, key: T -> Text, leq: (Text, Text) -> bool, ks: seq<Text>)
    requires |ks| == |SortBy(GroupBy(xs, key), GroupKeyOf, leq)|
    requires forall i :: 0 <= i < |ks| ==> ks[i] == SortBy(GroupBy(xs, key), GroupKeyOf, leq)[i].key
    ensures forall k :: k in ks <==> exists x :: x in xs && key(x) == k
    ensures NoDuplicates(ks)
    ensures TotalPreorder(leq) ==> SortedBy(ks, Identity, leq)
  {
    var gs := SortBy(GroupBy(xs, key), GroupKeyOf, leq);
    GroupLabelsPresent(xs, key, leq, ks);
    assert NoDuplicates(ks) by {
      SortedGroupItems(xs, key, leq);
      assert ks == GroupKeys(gs);
    }
    if TotalPreorder(leq) {
      SortedGroupBy(xs, key, leq);
      KeysSorted(gs, ks, leq);
    }
  }

  /** The keys of groups sorted by key, in order. */
  lemma KeysSorted<T>(gs: seq<Group<T>>, ks: seq<Text>, leq: (Text, Text) -> bool)
    requires |ks| == |gs| && forall i :: 0 <= i < |ks| ==> ks[i] == gs[i].key
    requires SortedBy(gs, GroupKeyOf, leq)
    ensures SortedBy(ks, Identity, leq)
  {
    forall i, j | 0 <= i < j < |ks| ensures leq(ks[i], ks[j]) {
      assert GroupKeyOf(gs[i]) == ks[i] && GroupKeyOf(gs[j]) == ks[j];
    }
  }

  lemma GroupLabelsPresent<T(!new)>(xs: seq<T>, key: T -> Text, leq: (Text, Text) -> bool, ks: seq<Text>)
    requires |ks| == |SortBy(GroupBy(xs, key), GroupKeyOf, leq)|
    requires forall i :: 0 <= i < |ks| ==> ks[i] == SortBy(GroupBy(xs, key), GroupKeyOf, leq)[i].key
    ensures forall k :: k in ks <==> exists x :: x in xs && key(x) == k
  {
    SortedGroupBy(xs, key, leq);
    KeysOfGroups(xs, key, SortBy(GroupBy(xs, key), GroupKeyOf, leq), ks);
  }

  /** The keys of groups that partition `xs` by key are the keys of its elements. */
  lemma KeysOfGroups<T>(xs: seq<T>, key: T -> Text, gs: seq<Group<T>>, ks: seq<Text>)
    requires forall g :: g in gs ==> g.items != [] && (forall x :: x in g.items <==> x in xs && key(x) == g.key)
    requires forall x :: x in xs ==> exists g :: g in gs && g.key == key(x) && x in g.items
    requires |ks| == |gs| && forall i :: 0 <= i < |ks| ==> ks[i] == gs[i].key
    ensures forall k :: k in ks <==> exists x :: x in xs && key(x) == k
  {
    forall k | k in ks ensures exists x :: x in xs && key(x) == k {
      var i :| 0 <= i < |ks| && ks[i] == k;
      assert gs[i] in gs;
      var x := gs[i].items[0];
      assert x in gs[i].items;
    }
    forall k | exists x :: x in xs && key(x) == k ensures k in ks {
      var x :| x in xs && key(x) == k;
      var g :| g in gs && g.key == key(x) && x in g.items;
      var i :| 0 <= i < |gs| && gs[i] == g;
      assert ks[i] == k;
    }
  }

  /** Nodes made one per dictionary entry ordered by key: their labels are the keys, in
      order, and with unique keys the node labelled `k` is made from the entry for `k`. */
  lemma BucketNodesListed<T>(
    bs: seq<Bucket<T>>, leq: (Text, Text) -> bool, f: Bucket<T> -> Node, ns: seq<Node>)
    requires forall b :: Label(f(b)) == b.key
    requires |ns| == |SortBy(bs, BucketKey, leq)|
    requires forall i :: 0 <= i < |ns| ==> ns[i] == f(SortBy(bs, BucketKey, leq)[i])
    ensures forall k :: k in Labels(ns) <==> HasKey(bs, k)
    ensures UniqueKeys(bs) ==> Ordered(ns, leq)
    ensures UniqueKeys(bs) ==> forall i :: 0 <= i < |ns| ==> ns[i] == f(Bucket(Label(ns[i]), Lookup(bs, Label(ns[i]))))
  {
    var sorted := SortBy(bs, BucketKey, leq);
    assert forall b :: b in sorted <==> b in bs by {
      assert forall b :: b in sorted <==> b in multiset(sorted);
      assert forall b :: b in bs <==> b in multiset(bs);
    }
    assert Labels(ns) == BucketKeys(sorted);
    SameKeys(bs, sorted);
    if UniqueKeys(bs) {
      SortedEntries(bs, sorted, f, ns);
      UniqueSorted(bs, sorted);
      if TotalPreorder(leq) {
        SortBySorted(bs, BucketKey, leq);
      }
      OrderedByKeys(sorted, ns, leq);
    }
  }

  /** Nodes labelled with the keys of entries with unique keys, sorted by key, are
      ordered. */
  lemma OrderedByKeys<T>(sorted: seq<Bucket<T>>, ns: seq<Node>, leq: (Text, Text) -> bool)
    requires Labels(ns) == BucketKeys(sorted) && UniqueKeys(sorted)
    requires TotalPreorder(leq) ==> SortedBy(sorted, BucketKey, leq)
    ensures Ordered(ns, leq)
  {
    if TotalPreorder(leq) {
      forall i, j | 0 <= i < j < |ns| ensures leq(Labels(ns)[i], Labels(ns)[j]) {
        assert BucketKey(sorted[i]) == Labels(ns)[i] && BucketKey(sorted[j]) == Labels(ns)[j];
      }
    }
  }

  /** Entries with the same members have the same keys. */
  lemma SameKeys<T>(bs: seq<Bucket<T>>, sorted: seq<Bucket<T>>)
    requires forall b :: b in sorted <==> b in bs
    ensures forall k :: k in BucketKeys(sorted) <==> HasKey(bs, k)
  {
    KeysOfMembers(bs);
    KeysOfMembers(sorted);
  }

  /** With unique keys, the entry at each position of a reordering is the one its key
      looks up. */
  lemma SortedEntries<T>(bs: seq<Bucket<T>>, sorted: seq<Bucket<T>>, f: Bucket<T> -> Node, ns: seq<Node>)
    requires UniqueKeys(bs)
    requires forall b :: b in sorted ==> b in bs
    requires forall b :: Label(f(b)) == b.key
    requires |ns| == |sorted| && forall i :: 0 <= i < |ns| ==> ns[i] == f(sorted[i])
    ensures forall i :: 0 <= i < |ns| ==> ns[i] == f(Bucket(Label(ns[i]), Lookup(bs, Label(ns[i]))))
  {
    forall i | 0 <= i < |ns| ensures ns[i] == f(Bucket(Label(ns[i]), Lookup(bs, Label(ns[i])))) {
      assert sorted[i] in bs;
      var j :| 0 <= j < |bs| && bs[j] == sorted[i];
      LookupUnique(bs, j);
    }
  }

  /** A reordering of entries with unique keys has unique keys. */
  lemma UniqueSorted<T>(bs: seq<Bucket<T>>, sorted: seq<Bucket<T>>)
    requires UniqueKeys(bs) && multiset(sorted) == multiset(bs)
    ensures UniqueKeys(sorted)
  {
    assert NoDuplicates(bs) by {
      forall i, j | 0 <= i < j < |bs| ensures bs[i] != bs[j] {
        assert BucketKeys(bs)[i] != BucketKeys(bs)[j];
      }
    }
    PermutationNoDuplicates(bs, sorted);
    forall i, j | 0 <= i < j < |sorted| ensures BucketKeys(sorted)[i] != BucketKeys(sorted)[j] {
      assert sorted[i] in multiset(bs) && sorted[j] in multiset(bs);
      if sorted[i].key == sorted[j].key {
        SameKeySame(bs, sorted[i], sorted[j]);
      }
    }
  }

  // ---- Paths through the tree ----

  /** Some node labelled `p` lists `t` among its children. */
  predicate ListsPair(ns: seq<Node>, p: Text, t: Text) {
    exists j :: 0 <= j < |ns| && Label(ns[j]) == p && t in Labels(ns[j].children)
  }

  /** Some node labelled `v` has a child labelled `p` that lists `t`. */
  predicate ListsTriple(ns: seq<Node>, v: Text, p: Text, t: Text) {
    exists i :: 0 <= i < |ns| && Label(ns[i]) == v && ListsPair(ns[i].children, p, t)
  }

  // ---- The statistics ----

  /** The `repo` nodes of the statistics: one per repository of the items, in order,
      each listing the distinct frameworks of the items from that repository. */
  lemma RepoStatListing(items: seq<DiscoveredReference>, leq: (Text, Text) -> bool)
    ensures Ordered(RepoStatNodes(items, leq), leq)
    ensures forall p :: p in Labels(RepoStatNodes(items, leq)) <==> exists r :: r in items && r.repository == p
    ensures forall i :: 0 <= i < |RepoStatNodes(items, leq)| ==> Ordered(RepoStatNodes(items, leq)[i].children, leq)
    ensures forall i, t :: 0 <= i < |RepoStatNodes(items, leq)| ==>
              (t in Labels(RepoStatNodes(items, leq)[i].children) <==>
               exists r :: r in items && r.repository == Label(RepoStatNodes(items, leq)[i]) && r.targetFramework == t)
  {
    var ns := RepoStatNodes(items, leq);
    var f := (g: Group<DiscoveredReference>) => RepoStatNode(g, leq);
    assert forall g :: Label(f(g)) == g.key;
    GroupNodesListed(items, RepositoryOf, leq, f, ns);
    forall i | 0 <= i < |ns|
      ensures Ordered(ns[i].children, leq)
      ensures forall t :: t in Labels(ns[i].children) <==>
                exists r :: r in items && r.repository == Label(ns[i]) && r.targetFramework == t
    {
      var w := WithKey(items, RepositoryOf, Label(ns[i]));
      assert ns[i] == RepoStatNode(Group(Label(ns[i]), w), leq);
      FrameworksListed("repo", Label(ns[i]), Map(w, ReferenceFramework), leq);
      forall t ensures t in Labels(ns[i].children) <==> exists r :: r in items && r.repository == Label(ns[i]) && r.targetFramework == t {
        FrameworksOfItems(w, t);
      }
    }
  }

  lemma RepoStatPairs(items: seq<DiscoveredReference>, leq: (Text, Text) -> bool, p: Text, t: Text)
    ensures ListsPair(RepoStatNodes(items, leq), p, t) <==> exists r :: r in items && r.repository == p && r.targetFramework == t
  {
    var ns := RepoStatNodes(items, leq);
    RepoStatListing(items, leq);
    if exists r :: r in items && r.repository == p && r.targetFramework == t {
      assert p in Labels(ns);
      var j :| 0 <= j < |ns| && Labels(ns)[j] == p;
      assert t in Labels(ns[j].children);
    }
  }

  /** The `version` nodes of the statistics: one per API version among all references,
      removed APIs included, in order; under each, the repositories and frameworks of the
      references with that version. */
  lemma StatsListing(refs: seq<DiscoveredReference>, leq: (Text, Text) -> bool)
    ensures Ordered(VersionStatNodes(refs, leq), leq)
    ensures forall v :: v in Labels(VersionStatNodes(refs, leq)) <==> exists r :: r in refs && r.apiVersion == v
    ensures forall i :: 0 <= i < |VersionStatNodes(refs, leq)| ==>
              VersionStatNodes(refs, leq)[i].children == RepoStatNodes(WithKey(refs, ApiVersionOf, Label(VersionStatNodes(refs, leq)[i])), leq)
  {
    var ns := VersionStatNodes(refs, leq);
    var f := (g: Group<DiscoveredReference>) => VersionStatNode(g, leq);
    assert forall g :: Label(f(g)) == g.key;
    GroupNodesListed(refs, ApiVersionOf, leq, f, ns);
    forall i | 0 <= i < |ns| ensures ns[i].children == RepoStatNodes(WithKey(refs, ApiVersionOf, Label(ns[i])), leq) {
      assert ns[i] == VersionStatNode(Group(Label(ns[i]), WithKey(refs, ApiVersionOf, Label(ns[i]))), leq);
    }
  }

  /** Every reference is counted under its version, repository and framework, and
      nothing else is listed. */
  lemma StatsCoverReferences(refs: seq<DiscoveredReference>, leq: (Text, Text) -> bool, v: Text, p: Text, t: Text)
    ensures ListsTriple(VersionStatNodes(refs, leq), v, p, t) <==>
            exists r :: r in refs && r.apiVersion == v && r.repository == p && r.targetFramework == t
  {
    var ns := VersionStatNodes(refs, leq);
    StatsListing(refs, leq);
    forall i | 0 <= i < |ns|
      ensures ListsPair(ns[i].children, p, t) <==>
              exists r :: r in refs && r.apiVersion == Label(ns[i]) && r.repository == p && r.targetFramework == t
    {
      var w := WithKey(refs, ApiVersionOf, Label(ns[i]));
      RepoStatPairs(w, leq, p, t);
      assert forall r :: r in w <==> r in refs && r.apiVersion == Label(ns[i]);
    }
    TriplesOfNodes(refs, ns, v, p, t);
  }

  /** Version nodes whose children list a pair exactly for the references of their
      version list a triple exactly for the references. */
  lemma TriplesOfNodes(refs: seq<DiscoveredReference>, ns: seq<Node>, v: Text, p: Text, t: Text)
    requires forall v :: v in Labels(ns) <==> exists r :: r in refs && r.apiVersion == v
    requires forall i :: 0 <= i < |ns| ==>
               (ListsPair(ns[i].children, p, t) <==>
                exists r :: r in refs && r.apiVersion == Label(ns[i]) && r.repository == p && r.targetFramework == t)
    ensures ListsTriple(ns, v, p, t) <==> exists r :: r in refs && r.apiVersion == v && r.repository == p && r.targetFramework == t
  {
    if exists r :: r in refs && r.apiVersion == v && r.repository == p && r.targetFramework == t {
      var r :| r in refs && r.apiVersion == v && r.repository == p && r.targetFramework == t;
      assert v in Labels(ns);
      var i :| 0 <= i < |ns| && Labels(ns)[i] == v;
      assert Label(ns[i]) == v;
    }
  }

  // ---- References of one repository ----

  /** The references `GroupBy(r => r.ReferenceUrl!)` puts in the group of `u`. */
  lemma LinkedItems(items: seq<DiscoveredReference>, u: Text)
    ensures forall r :: r in WithKey(Filter(items, HasUrl), UrlOf, u) <==> r in items && r.referenceUrl == Some(u)
    ensures (exists r :: r in Filter(items, HasUrl) && UrlOf(r) == u) <==> exists r :: r in items && r.referenceUrl == Some(u)
  {
    if exists r :: r in items && r.referenceUrl == Some(u) {
      var r :| r in items && r.referenceUrl == Some(u);
      assert r in Filter(items, HasUrl);
    }
  }

  lemma ReferenceNodeListing(items: seq<DiscoveredReference>, leq: (Text, Text) -> bool, u: Text)
    ensures Ordered(ReferenceNode(Group(u, WithKey(Filter(items, HasUrl), UrlOf, u)), leq).children, leq)
    ensures forall t :: t in Labels(ReferenceNode(Group(u, WithKey(Filter(items, HasUrl), UrlOf, u)), leq).children) <==>
              exists r :: r in items && r.referenceUrl == Some(u) && r.targetFramework == t
  {
    var w := WithKey(Filter(items, HasUrl), UrlOf, u);
    FrameworksListed("reference", u, Map(w, ReferenceFramework), leq);
    LinkedItems(items, u);
    forall t ensures t in Map(w, ReferenceFramework) <==> exists r :: r in items && r.referenceUrl == Some(u) && r.targetFramework == t {
      FrameworksOfItems(w, t);
    }
  }

  /** The URL nodes under a repository: one per reference URL, in order, each listing the
      distinct frameworks of the references with that URL. */
  lemma ReferenceListing(items: seq<DiscoveredReference>, leq: (Text, Text) -> bool)
    ensures Ordered(ReferenceNodes(items, leq), leq)
    ensures forall u :: u in Labels(ReferenceNodes(items, leq)) <==> exists r :: r in items && r.referenceUrl == Some(u)
    ensures forall i :: 0 <= i < |ReferenceNodes(items, leq)| ==> Ordered(ReferenceNodes(items, leq)[i].children, leq)
    ensures forall i, t :: 0 <= i < |ReferenceNodes(items, leq)| ==>
              (t in Labels(ReferenceNodes(items, leq)[i].children) <==>
               exists r :: r in items && r.referenceUrl == Some(Label(ReferenceNodes(items, leq)[i])) && r.targetFramework == t)
  {
    var ns := ReferenceNodes(items, leq);
    var f := (g: Group<DiscoveredReference>) => ReferenceNode(g, leq);
    assert forall g :: Label(f(g)) == g.key;
    GroupNodesListed(Filter(items, HasUrl), UrlOf, leq, f, ns);
    forall u ensures u in Labels(ns) <==> exists r :: r in items && r.referenceUrl == Some(u) {
      LinkedItems(items, u);
    }
    ReferenceChildren(items, leq, f, ns);
  }

  /** The frameworks under each URL node. */
  lemma ReferenceChildren(items: seq<DiscoveredReference>, leq: (Text, Text) -> bool, f: Group<DiscoveredReference> -> Node, ns: seq<Node>)
    requires forall g :: f(g) == ReferenceNode(g, leq)
    requires forall i :: 0 <= i < |ns| ==> ns[i] == f(Group(Label(ns[i]), WithKey(Filter(items, HasUrl), UrlOf, Label(ns[i]))))
    ensures forall i :: 0 <= i < |ns| ==> Ordered(ns[i].children, leq)
    ensures forall i, t :: 0 <= i < |ns| ==>
              (t in Labels(ns[i].children) <==> exists r :: r in items && r.referenceUrl == Some(Label(ns[i])) && r.targetFramework == t)
  {
    forall i | 0 <= i < |ns|
      ensures Ordered(ns[i].children, leq)
      ensures forall t :: t in Labels(ns[i].children) <==>
                exists r :: r in items && r.referenceUrl == Some(Label(ns[i])) && r.targetFramework == t
    {
      assert ns[i] == ReferenceNode(Group(Label(ns[i]), WithKey(Filter(items, HasUrl), UrlOf, Label(ns[i]))), leq);
      ReferenceNodeListing(items, leq, Label(ns[i]));
    }
  }

  lemma ReferencePairs(items: seq<DiscoveredReference>, leq: (Text, Text) -> bool, u: Text, t: Text)
    ensures ListsPair(ReferenceNodes(items, leq), u, t) <==> exists r :: r in items && r.referenceUrl == Some(u) && r.targetFramework == t
  {
    ReferenceListing(items, leq);
    LinkPairsOfNodes(items, ReferenceNodes(items, leq), u, t);
  }

  lemma LinkPairsOfNodes(items: seq<DiscoveredReference>, ns: seq<Node>, u: Text, t: Text)
    requires forall u :: u in Labels(ns) <==> exists r :: r in items && r.referenceUrl == Some(u)
    requires forall i, t :: 0 <= i < |ns| ==>
               (t in Labels(ns[i].children) <==> exists r :: r in items && r.referenceUrl == Some(Label(ns[i])) && r.targetFramework == t)
    ensures ListsPair(ns, u, t) <==> exists r :: r in items && r.referenceUrl == Some(u) && r.targetFramework == t
  {
    if exists r :: r in items && r.referenceUrl == Some(u) && r.targetFramework == t {
      assert u in Labels(ns);
      var j :| 0 <= j < |ns| && Labels(ns)[j] == u;
      assert t in Labels(ns[j].children);
    }
  }

  /** The lists `representedTfms` is flattened from. */
  function RepresentedLists(items: seq<DiscoveredReference>, leq: (Text, Text) -> bool): (xss: seq<seq<Text>>)
    ensures Flatten(xss) == Represented(items, leq)
    ensures |xss| == |UrlGroups(items, leq)|
    ensures forall i :: 0 <= i < |xss| ==> xss[i] == Frameworks(Map(UrlGroups(items, leq)[i].items, ReferenceFramework), leq)
  {
    var gs := UrlGroups(items, leq);
    seq(|gs|, i requires 0 <= i < |gs| => Frameworks(Map(gs[i].items, ReferenceFramework), leq))
  }

  /** `representedTfms` holds the frameworks of the references that have a URL. */
  lemma RepresentedMember(items: seq<DiscoveredReference>, leq: (Text, Text) -> bool, t: Text)
    ensures t in Represented(items, leq) <==> exists r :: r in items && HasUrl(r) && r.targetFramework == t
  {
    var xss := RepresentedLists(items, leq);
    FlattenMember(xss, t);
    if t in Represented(items, leq) {
      RepresentedFrom(items, leq, t);
    }
    if exists r :: r in items && HasUrl(r) && r.targetFramework == t {
      var r :| r in items && HasUrl(r) && r.targetFramework == t;
      RepresentedTo(items, leq, r);
    }
  }

  lemma RepresentedFrom(items: seq<DiscoveredReference>, leq: (Text, Text) -> bool, t: Text)
    requires exists i :: 0 <= i < |RepresentedLists(items, leq)| && t in RepresentedLists(items, leq)[i]
    ensures exists r :: r in items && HasUrl(r) && r.targetFramework == t
  {
    var xss := RepresentedLists(items, leq);
    var gs := UrlGroups(items, leq);
    var i :| 0 <= i < |xss| && t in xss[i];
    SortDistinctMembers(Map(gs[i].items, ReferenceFramework), leq);
    FrameworksOfItems(gs[i].items, t);
    SortedGroupBy(Filter(items, HasUrl), UrlOf, leq);
    assert gs[i] in gs;
  }

  lemma RepresentedTo(items: seq<DiscoveredReference>, leq: (Text, Text) -> bool, r: DiscoveredReference)
    requires r in items && HasUrl(r)
    ensures exists i :: 0 <= i < |RepresentedLists(items, leq)| && r.targetFramework in RepresentedLists(items, leq)[i]
  {
    var xss := RepresentedLists(items, leq);
    var i := UrlGroupOf(items, leq, r);
    FrameworkListed(UrlGroups(items, leq)[i].items, leq, r);
    assert r.targetFramework in xss[i];
  }

  /** The position of the URL group holding a reference with a URL. */
  lemma UrlGroupOf(items: seq<DiscoveredReference>, leq: (Text, Text) -> bool, r: DiscoveredReference) returns (i: nat)
    requires r in items && HasUrl(r)
    ensures i < |UrlGroups(items, leq)| && r in UrlGroups(items, leq)[i].items
  {
    var gs := UrlGroups(items, leq);
    assert exists g :: g in gs && r in g.items by {
      assert r in Filter(items, HasUrl);
      SortedGroupBy(Filter(items, HasUrl), UrlOf, leq);
    }
    var g :| g in gs && r in g.items;
    i :| 0 <= i < |gs| && gs[i] == g;
  }

  lemma FrameworkListed(rs: seq<DiscoveredReference>, leq: (Text, Text) -> bool, r: DiscoveredReference)
    requires r in rs
    ensures r.targetFramework in Frameworks(Map(rs, ReferenceFramework), leq)
  {
    SortDistinctMembers(Map(rs, ReferenceFramework), leq);
    FrameworksOfItems(rs, r.targetFramework);
  }

  /** The `in-generated-source` node appears iff some reference without a URL has a
      framework that no reference with a URL has; it then lists the distinct frameworks
      of all references without a URL, in order. */
  lemma GeneratedIff(items: seq<DiscoveredReference>, leq: (Text, Text) -> bool)
    ensures GeneratedNodes(items, Represented(items, leq), leq) != [] <==>
            exists r :: r in items && IsGenerated(r) &&
              forall q :: q in items && HasUrl(q) ==> q.targetFramework != r.targetFramework
  {
    var generated := GeneratedFrameworks(items);
    var represented := Represented(items, leq);
    GeneratedMembers(items);
    if !IsSubset(generated, represented) {
      var t :| t in generated && t !in represented;
      var r :| r in items && IsGenerated(r) && r.targetFramework == t;
      forall q | q in items && HasUrl(q) ensures q.targetFramework != t {
        RepresentedMember(items, leq, q.targetFramework);
      }
    }
    if exists r :: r in items && IsGenerated(r) && forall q :: q in items && HasUrl(q) ==> q.targetFramework != r.targetFramework {
      var r :| r in items && IsGenerated(r) && forall q :: q in items && HasUrl(q) ==> q.targetFramework != r.targetFramework;
      RepresentedMember(items, leq, r.targetFramework);
      assert r.targetFramework in generated;
    }
  }

  lemma GeneratedListing(items: seq<DiscoveredReference>, leq: (Text, Text) -> bool)
    ensures |GeneratedNodes(items, Represented(items, leq), leq)| <= 1
    ensures forall n :: n in GeneratedNodes(items, Represented(items, leq), leq) ==>
              && n.name == Lit("reference") && Label(n) == Lit("in-generated-source")
              && Ordered(n.children, leq)
              && forall t :: t in Labels(n.children) <==> exists r :: r in items && IsGenerated(r) && r.targetFramework == t
  {
    var ns := GeneratedNodes(items, Represented(items, leq), leq);
    if ns != [] {
      var n := FrameworksNode("reference", Lit("in-generated-source"), GeneratedFrameworks(items), leq);
      assert ns == [n];
      GeneratedMembers(items);
      FrameworksListed("reference", Lit("in-generated-source"), GeneratedFrameworks(items), leq);
    }
  }

  lemma GeneratedMembers(items: seq<DiscoveredReference>)
    ensures forall t :: t in GeneratedFrameworks(items) <==> exists r :: r in items && IsGenerated(r) && r.targetFramework == t
  {
    forall t ensures t in GeneratedFrameworks(items) <==> exists r :: r in items && IsGenerated(r) && r.targetFramework == t {
      FrameworksOfItems(Filter(items, IsGenerated), t);
    }
  }

  // ---- Repositories, versions and APIs ----

  /** The `repo` nodes under a version: one per repository, in order, holding the URL
      nodes and the `in-generated-source` node of that repository's references. */
  lemma RepoListing(items: seq<DiscoveredReference>, leq: (Text, Text) -> bool)
    ensures Ordered(RepoNodes(items, leq), leq)
    ensures forall p :: p in Labels(RepoNodes(items, leq)) <==> exists r :: r in items && r.repository == p
    ensures forall i :: 0 <= i < |RepoNodes(items, leq)| ==>
              var w := WithKey(items, RepositoryOf, Label(RepoNodes(items, leq)[i]));
              RepoNodes(items, leq)[i].children == ReferenceNodes(w, leq) + GeneratedNodes(w, Represented(w, leq), leq)
  {
    var ns := RepoNodes(items, leq);
    var f := (g: Group<DiscoveredReference>) => RepoNode(g, leq);
    assert forall g :: Label(f(g)) == g.key;
    GroupNodesListed(items, RepositoryOf, leq, f, ns);
    forall i | 0 <= i < |ns|
      ensures var w := WithKey(items, RepositoryOf, Label(ns[i]));
              ns[i].children == ReferenceNodes(w, leq) + GeneratedNodes(w, Represented(w, leq), leq)
    {
      var g := Group(Label(ns[i]), WithKey(items, RepositoryOf, Label(ns[i])));
      assert ns[i] == f(g);
      assert f(g).children == RepoNode(g, leq).children;
    }
  }

  /** The `version` nodes under an API: one per version, in order, each holding the
      repositories of the references with that version. */
  lemma VersionListing(refs: seq<DiscoveredReference>, leq: (Text, Text) -> bool)
    ensures Ordered(VersionNodes(refs, leq), leq)
    ensures forall v :: v in Labels(VersionNodes(refs, leq)) <==> exists r :: r in refs && r.apiVersion == v
    ensures forall i :: 0 <= i < |VersionNodes(refs, leq)| ==>
              VersionNodes(refs, leq)[i].children == RepoNodes(WithKey(refs, ApiVersionOf, Label(VersionNodes(refs, leq)[i])), leq)
  {
    var ns := VersionNodes(refs, leq);
    var f := (g: Group<DiscoveredReference>) => VersionNode(g, leq);
    assert forall g :: Label(f(g)) == g.key;
    GroupNodesListed(refs, ApiVersionOf, leq, f, ns);
    forall i | 0 <= i < |ns| ensures ns[i].children == RepoNodes(WithKey(refs, ApiVersionOf, Label(ns[i])), leq) {
      var g := Group(Label(ns[i]), WithKey(refs, ApiVersionOf, Label(ns[i])));
      assert ns[i] == f(g);
      assert f(g).children == VersionNode(g, leq).children;
    }
  }

  /** The `api` nodes of referenced identities: one per identity, in order, the identity
      always quoted, the URL of the identity's first declaration when it is declared, and
      the versions of its references. */
  lemma ApiListing(bs: seq<Bucket<DiscoveredReference>>, apis: seq<Bucket<DiscoveredApi>>, leq: (Text, Text) -> bool)
    requires UniqueKeys(bs)
    ensures Ordered(ReferencedApiNodes(bs, apis, leq), leq)
    ensures forall k :: k in Labels(ReferencedApiNodes(bs, apis, leq)) <==> HasKey(bs, k)
    ensures forall i :: 0 <= i < |ReferencedApiNodes(bs, apis, leq)| ==>
              var n := ReferencedApiNodes(bs, apis, leq)[i];
              && n.name == Lit("api")
              && n.entries == [QuotedArg(Label(n))] + UrlEntries(Lookup(apis, Label(n)))
              && n.children == VersionNodes(Lookup(bs, Label(n)), leq)
  {
    var ns := ReferencedApiNodes(bs, apis, leq);
    var f := (b: Bucket<DiscoveredReference>) => ReferencedApiNode(b, apis, leq);
    assert forall b :: Label(f(b)) == b.key;
    BucketNodesListed(bs, leq, f, ns);
    forall i | 0 <= i < |ns|
      ensures ns[i].name == Lit("api")
      ensures ns[i].entries == [QuotedArg(Label(ns[i]))] + UrlEntries(Lookup(apis, Label(ns[i])))
      ensures ns[i].children == VersionNodes(Lookup(bs, Label(ns[i])), leq)
    {
      var k := Label(ns[i]);
      assert ns[i] == ReferencedApiNode(Bucket(k, Lookup(bs, k)), apis, leq);
    }
  }

  /** The URL property of an API node: the URL of the first of its declarations. */
  function UrlProperty(declarations: seq<DiscoveredApi>): Entry
    requires declarations != []
  {
    Property(Lit("url"), false, StringValue(declarations[0].declarationUrl, false))
  }

  /** A referenced API carries `url=` iff it is declared: every used API has it, no
      removed API has it. */
  lemma ApiUrls(s: State, leq: (Text, Text) -> bool)
    requires Valid(s)
    ensures forall n :: n in ReferencedApiNodes(Classify(s).current, s.apisByName, leq) ==>
              Lookup(s.apisByName, Label(n)) != [] &&
              n.entries == [QuotedArg(Label(n)), UrlProperty(Lookup(s.apisByName, Label(n)))]
    ensures forall n :: n in ReferencedApiNodes(Classify(s).removed, s.apisByName, leq) ==>
              n.entries == [QuotedArg(Label(n))]
  {
    ClassifyReferences(s);
    DeclaredUnique(s.referencesByApi, s.apisByName, true);
    DeclaredUnique(s.referencesByApi, s.apisByName, false);
    ApiUrlsFor(Classify(s).current, s.apisByName, leq, true);
    ApiUrlsFor(Classify(s).removed, s.apisByName, leq, false);
  }

  lemma ApiUrlsFor(bs: seq<Bucket<DiscoveredReference>>, apis: seq<Bucket<DiscoveredApi>>, leq: (Text, Text) -> bool, declared: bool)
    requires UniqueKeys(bs) && WellKeyed(apis, ApiKey)
    requires forall b :: b in bs ==> (HasKey(apis, b.key) <==> declared)
    ensures forall n :: n in ReferencedApiNodes(bs, apis, leq) ==>
              if declared then
                Lookup(apis, Label(n)) != [] && n.entries == [QuotedArg(Label(n)), UrlProperty(Lookup(apis, Label(n)))]
              else
                n.entries == [QuotedArg(Label(n))]
  {
    ApiListing(bs, apis, leq);
    UrlsOfNodes(bs, apis, ReferencedApiNodes(bs, apis, leq), declared);
  }

  lemma UrlsOfNodes(bs: seq<Bucket<DiscoveredReference>>, apis: seq<Bucket<DiscoveredApi>>, ns: seq<Node>, declared: bool)
    requires WellKeyed(apis, ApiKey)
    requires forall b :: b in bs ==> (HasKey(apis, b.key) <==> declared)
    requires forall k :: k in Labels(ns) ==> HasKey(bs, k)
    requires forall i :: 0 <= i < |ns| ==> ns[i].entries == [QuotedArg(Label(ns[i]))] + UrlEntries(Lookup(apis, Label(ns[i])))
    ensures forall n :: n in ns ==>
              if declared then
                Lookup(apis, Label(n)) != [] && n.entries == [QuotedArg(Label(n)), UrlProperty(Lookup(apis, Label(n)))]
              else
                n.entries == [QuotedArg(Label(n))]
  {
    forall n | n in ns
      ensures if declared then
                Lookup(apis, Label(n)) != [] && n.entries == [QuotedArg(Label(n)), UrlProperty(Lookup(apis, Label(n)))]
              else
                n.entries == [QuotedArg(Label(n))]
    {
      var i :| 0 <= i < |ns| && ns[i] == n;
      assert Labels(ns)[i] == Label(n);
      DeclaredUrl(bs, apis, Label(n), declared);
    }
  }

  /** The `url=` entries of a referenced identity, when every referenced identity is
      declared or every one is not. */
  lemma DeclaredUrl(bs: seq<Bucket<DiscoveredReference>>, apis: seq<Bucket<DiscoveredApi>>, k: Text, declared: bool)
    requires WellKeyed(apis, ApiKey) && HasKey(bs, k)
    requires forall b :: b in bs ==> (HasKey(apis, b.key) <==> declared)
    ensures declared ==> Lookup(apis, k) != [] && UrlEntries(Lookup(apis, k)) == [UrlProperty(Lookup(apis, k))]
    ensures !declared ==> UrlEntries(Lookup(apis, k)) == []
  {
    var b := EntryFor(bs, k);
    UrlEntriesFor(apis, k);
  }

  /** One entry of `WriteUnusedApis`: the quoted identity, the URL of its first
      declaration, and the distinct frameworks of its declarations in order. */
  lemma UnusedApiNodeListing(b: Bucket<DiscoveredApi>, leq: (Text, Text) -> bool)
    requires b.items != []
    ensures UnusedApiNode(b, leq).name == Lit("api")
    ensures UnusedApiNode(b, leq).entries == [QuotedArg(b.key), UrlProperty(b.items)]
    ensures Ordered(UnusedApiNode(b, leq).children, leq)
    ensures forall t :: t in Labels(UnusedApiNode(b, leq).children) <==> exists a :: a in b.items && a.targetFramework == t
  {
    TfmListed(Map(b.items, DeclarationFramework), leq);
    forall t ensures t in Map(b.items, DeclarationFramework) <==> exists a :: a in b.items && a.targetFramework == t {
      DeclarationFrameworksOf(b.items, t);
    }
  }

  /** The `unused-apis` entries: one per unused identity, in order, each made from all of
      the identity's declarations. */
  lemma UnusedListing(s: State, leq: (Text, Text) -> bool)
    requires Valid(s)
    ensures Ordered(UnusedApiNodes(Classify(s).unused, leq), leq)
    ensures forall k :: k in Labels(UnusedApiNodes(Classify(s).unused, leq)) <==> IsUnused(s, k)
    ensures forall n :: n in UnusedApiNodes(Classify(s).unused, leq) ==>
              && Lookup(s.apisByName, Label(n)) != []
              && n == UnusedApiNode(Bucket(Label(n), Lookup(s.apisByName, Label(n))), leq)
  {
    ClassifyUnused(s);
    DeclaredNodes(Classify(s).unused, s.apisByName, leq);
    forall k ensures HasKey(Classify(s).unused, k) <==> IsUnused(s, k) {
      UnusedKey(s, k);
    }
  }

  /** Entry nodes for some of the declared identities, with all their declarations. */
  lemma DeclaredNodes(sub: seq<Bucket<DiscoveredApi>>, apis: seq<Bucket<DiscoveredApi>>, leq: (Text, Text) -> bool)
    requires UniqueKeys(sub) && WellKeyed(apis, ApiKey)
    requires forall b :: b in sub ==> b in apis
    ensures Ordered(UnusedApiNodes(sub, leq), leq)
    ensures forall k :: k in Labels(UnusedApiNodes(sub, leq)) <==> HasKey(sub, k)
    ensures forall n :: n in UnusedApiNodes(sub, leq) ==>
              && Lookup(apis, Label(n)) != []
              && n == UnusedApiNode(Bucket(Label(n), Lookup(apis, Label(n))), leq)
  {
    var ns := UnusedApiNodes(sub, leq);
    var f := (b: Bucket<DiscoveredApi>) => UnusedApiNode(b, leq);
    BucketNodesListed(sub, leq, f, ns);
    NodesOfWhole(sub, apis, ApiKey, f, ns);
    assert forall b :: f(b) == UnusedApiNode(b, leq);
  }

  /** Nodes made from the entries of a sub-dictionary are made from the entries of the
      whole one. */
  lemma NodesOfWhole<T>(sub: seq<Bucket<T>>, apis: seq<Bucket<T>>, key: T -> Text, f: Bucket<T> -> Node, ns: seq<Node>)
    requires UniqueKeys(sub) && WellKeyed(apis, key)
    requires forall b :: b in sub ==> b in apis
    requires forall k :: k in Labels(ns) ==> HasKey(sub, k)
    requires forall i :: 0 <= i < |ns| ==> ns[i] == f(Bucket(Label(ns[i]), Lookup(sub, Label(ns[i]))))
    ensures forall n :: n in ns ==> Lookup(apis, Label(n)) != [] && n == f(Bucket(Label(n), Lookup(apis, Label(n))))
  {
    forall n | n in ns
      ensures Lookup(apis, Label(n)) != [] && n == f(Bucket(Label(n), Lookup(apis, Label(n))))
    {
      var i :| 0 <= i < |ns| && ns[i] == n;
      assert Labels(ns)[i] == Label(n);
      SubLookup(sub, apis, Label(n));
      LookupPresent(apis, key, Label(n));
    }
  }

  /** A key of a sub-dictionary has the same entries in the whole one. */
  lemma SubLookup<T>(sub: seq<Bucket<T>>, apis: seq<Bucket<T>>, k: Text)
    requires UniqueKeys(sub) && UniqueKeys(apis)
    requires forall b :: b in sub ==> b in apis
    requires HasKey(sub, k)
    ensures HasKey(apis, k) && Lookup(apis, k) == Lookup(sub, k)
  {
    var b := EntryFor(sub, k);
    var j :| 0 <= j < |sub| && sub[j] == b;
    LookupUnique(sub, j);
    var i :| 0 <= i < |apis| && apis[i] == b;
    LookupUnique(apis, i);
    assert BucketKeys(apis)[i] == k;
  }

  /** The entry that carries a present key. */
  lemma EntryFor<T>(bs: seq<Bucket<T>>, k: Text) returns (b: Bucket<T>)
    requires HasKey(bs, k)
    ensures b in bs && b.key == k
  {
    var i :| 0 <= i < |bs| && BucketKeys(bs)[i] == k;
    b := bs[i];
  }

  /** `url=` is written for a key iff the key has declarations. */
  lemma UrlEntriesFor(apis: seq<Bucket<DiscoveredApi>>, k: Text)
    requires WellKeyed(apis, ApiKey)
    ensures HasKey(apis, k) ==> Lookup(apis, k) != [] && UrlEntries(Lookup(apis, k)) == [UrlProperty(Lookup(apis, k))]
    ensures !HasKey(apis, k) ==> UrlEntries(Lookup(apis, k)) == []
  {
    LookupPresent(apis, ApiKey, k);
  }

  // ---- The document ----

  /** Every reference of every identity, removed ones included. */
  lemma {:induction false} AllReferencesMember(bs: seq<Bucket<DiscoveredReference>>, r: DiscoveredReference)
    ensures r in AllReferences(bs) <==> exists b :: b in bs && r in b.items
  {
    if bs != [] {
      AllReferencesMember(bs[1..], r);
      if exists b :: b in bs[1..] && r in b.items {
        var b :| b in bs[1..] && r in b.items;
        assert b in bs;
      }
      if exists b :: b in bs && r in b.items {
        var b :| b in bs && r in b.items;
        if b != bs[0] {
          var i :| 0 <= i < |bs| && bs[i] == b;
          assert b in bs[1..] by {
            assert bs[1..][i - 1] == b;
          }
        }
      }
    }
  }

  /** `current-api-source` lists the sources in the order they were recorded. */
  lemma {:induction false} SourcesListed(sources: seq<DeclarationSource>)
    ensures forall i :: 0 <= i < |sources| ==>
              && SourceNodes(sources)[3 * i] == StringLeaf("repo", sources[i].repositoryUrl)
              && SourceNodes(sources)[3 * i + 1] == StringLeaf("branch", sources[i].branch)
              && SourceNodes(sources)[3 * i + 2] == StringLeaf("commit", sources[i].commit)
  {
    if sources != [] {
      var rest := sources[1..];
      SourcesListed(rest);
      var ns := SourceNodes(sources);
      forall i | 1 <= i < |sources|
        ensures && ns[3 * i] == StringLeaf("repo", sources[i].repositoryUrl)
                && ns[3 * i + 1] == StringLeaf("branch", sources[i].branch)
                && ns[3 * i + 2] == StringLeaf("commit", sources[i].commit)
      {
        assert sources[i] == rest[i - 1];
        assert 3 * i == 3 + 3 * (i - 1);
      }
    }
  }

  /** The head of the document: the assembly, the sources, and the statistics whose
      counts are the numbers of unused, removed and used identities and whose breakdown
      covers every reference. */
  lemma DocumentHead(s: State, assemblyName: Text, leq: (Text, Text) -> bool)
    requires Valid(s)
    ensures Document(s, assemblyName, leq).name == Lit("assembly")
    ensures Document(s, assemblyName, leq).entries == [Arg(assemblyName)]
    ensures |Document(s, assemblyName, leq).children| >= 2
    ensures Document(s, assemblyName, leq).children[0] == Node(Lit("current-api-source"), [], false, false, SourceNodes(s.sources))
    ensures Document(s, assemblyName, leq).children[1] ==
            Node(Lit("stats"), [], false, false,
              [CountLeaf("unused-api-count", |UnusedIds(s)|),
               CountLeaf("removed-api-count", |RemovedIds(s)|),
               CountLeaf("used-api-count", |UsedIds(s)|)]
              + VersionStatNodes(AllReferences(s.referencesByApi), leq))
  {
    ReferenceCounts(s);
    UnusedCount(s);
  }

  /** The children of the assembly node after the sources and the statistics:
      `unused-apis` when there are unused entries, then `removed-apis` when there are
      removed ones, each after a blank line, then the current API nodes directly, with a
      blank line before the first. */
  predicate SectionsLaidOut(children: seq<Node>, unused: seq<Node>, removed: seq<Node>, current: seq<Node>) {
    var u := if unused == [] then 0 else 1;
    var r := if removed == [] then 0 else 1;
    && |children| == 2 + u + r + |current|
    && (u == 1 ==> children[2] == Node(Lit("unused-apis"), [], true, false, unused))
    && (r == 1 ==> children[2 + u] == Node(Lit("removed-apis"), [], true, false, removed))
    && forall i :: 0 <= i < |current| ==> children[2 + u + r + i] == current[i].(blankLineBefore := i == 0)
  }

  /** After the statistics: `unused-apis` when some identity is unused, then
      `removed-apis` when some is removed, then one `api` node per used identity; the
      sections hold as many entries as there are unused, removed and used identities. */
  lemma DocumentSections(s: State, assemblyName: Text, leq: (Text, Text) -> bool)
    requires Valid(s)
    ensures |Classify(s).unused| == |UnusedIds(s)|
    ensures |Classify(s).removed| == |RemovedIds(s)|
    ensures |Classify(s).current| == |UsedIds(s)|
    ensures SectionsLaidOut(Document(s, assemblyName, leq).children,
              UnusedApiNodes(Classify(s).unused, leq),
              ReferencedApiNodes(Classify(s).removed, s.apisByName, leq),
              ReferencedApiNodes(Classify(s).current, s.apisByName, leq))
  {
    ReferenceCounts(s);
    UnusedCount(s);
    AssemblyLayout(assemblyName, s.sources, Classify(s), AllReferences(s.referencesByApi), s.apisByName, leq);
  }

  lemma AssemblyLayout(
    assemblyName: Text, sources: seq<DeclarationSource>, c: Classification,
    refs: seq<DiscoveredReference>, apis: seq<Bucket<DiscoveredApi>>, leq: (Text, Text) -> bool)
    ensures SectionsLaidOut(AssemblyNode(assemblyName, sources, c, refs, apis, leq).children,
              UnusedApiNodes(c.unused, leq), ReferencedApiNodes(c.removed, apis, leq), ReferencedApiNodes(c.current, apis, leq))
  {
    CurrentNotBlank(c.current, apis, leq);
    AssemblyChildren(assemblyName, sources, c, refs, apis, leq);
    ChildrenLayout(AssemblyNode(assemblyName, sources, c, refs, apis, leq).children,
      UnusedApiNodes(c.unused, leq), ReferencedApiNodes(c.removed, apis, leq), ReferencedApiNodes(c.current, apis, leq));
  }

  lemma CurrentNotBlank(bs: seq<Bucket<DiscoveredReference>>, apis: seq<Bucket<DiscoveredApi>>, leq: (Text, Text) -> bool)
    ensures forall i :: 0 <= i < |ReferencedApiNodes(bs, apis, leq)| ==> !ReferencedApiNodes(bs, apis, leq)[i].blankLineBefore
  {
  }

  /** The children of the assembly node after the sources and the statistics. */
  lemma AssemblyChildren(
    assemblyName: Text, sources: seq<DeclarationSource>, c: Classification,
    refs: seq<DiscoveredReference>, apis: seq<Bucket<DiscoveredApi>>, leq: (Text, Text) -> bool)
    ensures |AssemblyNode(assemblyName, sources, c, refs, apis, leq).children| >= 2
    ensures AssemblyNode(assemblyName, sources, c, refs, apis, leq).children[2..] == SectionNodes(c, apis, leq)
  {
  }

  /** Two leading children, then the optional sections and the current APIs. */
  lemma ChildrenLayout(ch: seq<Node>, a: seq<Node>, b: seq<Node>, cur: seq<Node>)
    requires |ch| >= 2
    requires ch[2..] == Section("unused-apis", a) + Section("removed-apis", b) + BlankLineFirst(cur)
    requires forall i :: 0 <= i < |cur| ==> !cur[i].blankLineBefore
    ensures SectionsLaidOut(ch, a, b, cur)
  {
    var s1 := Section("unused-apis", a);
    var s2 := Section("removed-apis", b);
    var bl := BlankLineFirst(cur);
    var t := ch[2..];
    var u := if a == [] then 0 else 1;
    var r := if b == [] then 0 else 1;
    assert |s1| == u && |s2| == r;
    assert |ch| == 2 + |t|;
    if u == 1 {
      assert ch[2] == t[0] == s1[0];
    }
    if r == 1 {
      assert ch[2 + u] == t[u] == s2[0];
    }
    forall i | 0 <= i < |cur| ensures ch[2 + u + r + i] == cur[i].(blankLineBefore := i == 0) {
      assert ch[2 + u + r + i] == t[u + r + i];
      assert t[u + r + i] == bl[i];
      BlankLineFirstAt(cur, i);
    }
  }

  lemma BlankLineFirstAt(cur: seq<Node>, i: nat)
    requires i < |cur| && !cur[i].blankLineBefore
    ensures BlankLineFirst(cur)[i] == cur[i].(blankLineBefore := i == 0)
  {
    if i > 0 {
      assert BlankLineFirst(cur)[i] == cur[1..][i - 1];
    }
  }
}
