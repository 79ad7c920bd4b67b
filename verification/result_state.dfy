/** What the report keeps between batches, and the classification of APIs it makes each
    time it renders. The two dictionaries are lists of entries in insertion order (the
    enumeration order of a .NET `Dictionary` that has only had additions); their keys are
    unique. */
module ResultState {
  import opened Wrappers
  import opened Utf16
  import opened Linq
  import opened Extensions
  import opened Discovered

  // ---- Dictionaries of lists ----

  /** A dictionary entry `key -> List<T>`. */
  datatype Bucket<T> = Bucket(key: Text, items: seq<T>)

  function BucketKeys<T>(bs: seq<Bucket<T>>): (ks: seq<Text>)
    ensures |ks| == |bs|
    ensures forall i :: 0 <= i < |bs| ==> ks[i] == bs[i].key
  {
    if bs == [] then [] else [bs[0].key] + BucketKeys(bs[1..])
  }

  /** `ContainsKey`. */
  predicate HasKey<T>(bs: seq<Bucket<T>>, k: Text) {
    k in BucketKeys(bs)
  }

  /** The list stored under `k`; empty when there is none. */
  function Lookup<T>(bs: seq<Bucket<T>>, k: Text): seq<T> {
    if bs == [] then [] else if bs[0].key == k then bs[0].items else Lookup(bs[1..], k)
  }

  /** `TryGetValue`, then a new list stored under `k` when there was none, then `Add`. */
  function Append<T>(bs: seq<Bucket<T>>, k: Text, x: T): (r: seq<Bucket<T>>)
    ensures |r| == |bs| + (if HasKey(bs, k) then 0 else 1)
  {
    if bs == [] then [Bucket(k, [x])]
    else if bs[0].key == k then [bs[0].(items := bs[0].items + [x])] + bs[1..]
    else [bs[0]] + Append(bs[1..], k, x)
  }

  /** The entries whose key is not among `ks`, in order. */
  function WithoutKeys<T>(bs: seq<Bucket<T>>, ks: seq<Text>): (r: seq<Bucket<T>>)
    ensures |r| <= |bs|
  {
    if bs == [] then []
    else if bs[0].key in ks then WithoutKeys(bs[1..], ks)
    else [bs[0]] + WithoutKeys(bs[1..], ks)
  }

  /** `Dictionary.Remove(k)`: the dictionary without the entry for `k`, and whether there
      was one. */
  function RemoveKey<T>(bs: seq<Bucket<T>>, k: Text): (r: (seq<Bucket<T>>, bool))
    ensures r.1 == HasKey(bs, k)
  {
    (WithoutKeys(bs, [k]), HasKey(bs, k))
  }

  /** Removing the keys one after the other, as the loop over a snapshot list does. */
  function RemoveKeys<T>(bs: seq<Bucket<T>>, ks: seq<Text>): seq<Bucket<T>>
    decreases |ks|
  {
    if ks == [] then bs else RemoveKeys(RemoveKey(bs, ks[0]).0, ks[1..])
  }

  predicate UniqueKeys<T>(bs: seq<Bucket<T>>) {
    NoDuplicates(BucketKeys(bs))
  }

  lemma {:induction false} LookupAppend<T>(bs: seq<Bucket<T>>, k: Text, x: T, k': Text)
    ensures Lookup(Append(bs, k, x), k') == Lookup(bs, k') + (if k' == k then [x] else [])
  {
    if bs != [] && bs[0].key != k {
      LookupAppend(bs[1..], k, x, k');
    }
  }

  lemma {:induction false} KeysAppend<T>(bs: seq<Bucket<T>>, k: Text, x: T)
    ensures BucketKeys(Append(bs, k, x)) == BucketKeys(bs) + (if HasKey(bs, k) then [] else [k])
  {
    if bs != [] {
      if bs[0].key == k {
        assert BucketKeys(Append(bs, k, x)) == BucketKeys(bs);
      } else {
        KeysAppend(bs[1..], k, x);
        assert HasKey(bs, k) == HasKey(bs[1..], k);
      }
    }
  }

  /** No list is empty and every item is stored under its own key. */
  predicate ItemsKeyed<T>(bs: seq<Bucket<T>>, key: T -> Text) {
    forall i :: 0 <= i < |bs| ==>
      bs[i].items != [] && forall j :: 0 <= j < |bs[i].items| ==> key(bs[i].items[j]) == bs[i].key
  }

  /** Keys unique, no empty list, every item stored under its own key. */
  predicate WellKeyed<T>(bs: seq<Bucket<T>>, key: T -> Text) {
    UniqueKeys(bs) && ItemsKeyed(bs, key)
  }

  lemma UniqueTail<T>(bs: seq<Bucket<T>>)
    requires UniqueKeys(bs) && bs != []
    ensures UniqueKeys(bs[1..]) && !HasKey(bs[1..], bs[0].key)
  {
    var ks: seq<Text> := BucketKeys(bs);
    var tl: seq<Text> := BucketKeys(bs[1..]);
    assert tl == ks[1..];
    forall i, j | 0 <= i < j < |tl| ensures tl[i] != tl[j] {
      assert ks[i + 1] != ks[j + 1];
    }
    forall j | 0 <= j < |tl| ensures tl[j] != bs[0].key {
      assert ks[j + 1] != ks[0];
    }
  }

  lemma UniqueCons<T>(b: Bucket<T>, bs: seq<Bucket<T>>)
    requires UniqueKeys(bs) && !HasKey(bs, b.key)
    ensures UniqueKeys([b] + bs)
  {
    var ks := BucketKeys([b] + bs);
    assert ([b] + bs)[1..] == bs;
    assert ks == [b.key] + BucketKeys(bs);
    forall i, j | 0 <= i < j < |ks| ensures ks[i] != ks[j] {
      if i == 0 {
        assert ks[j] == BucketKeys(bs)[j - 1];
      } else {
        assert BucketKeys(bs)[i - 1] != BucketKeys(bs)[j - 1];
      }
    }
  }

  lemma AppendUnique<T>(bs: seq<Bucket<T>>, k: Text, x: T)
    requires UniqueKeys(bs)
    ensures UniqueKeys(Append(bs, k, x))
  {
    KeysAppend(bs, k, x);
    var ks := BucketKeys(bs);
    if !HasKey(bs, k) {
      forall i, j | 0 <= i < j < |ks + [k]| ensures (ks + [k])[i] != (ks + [k])[j] {
        if j == |ks| {
          assert ks[i] in ks;
        } else {
          assert ks[i] != ks[j];
        }
      }
    }
  }

  lemma {:induction false} AppendItemsKeyed<T>(bs: seq<Bucket<T>>, key: T -> Text, x: T)
    requires ItemsKeyed(bs, key)
    ensures ItemsKeyed(Append(bs, key(x), x), key)
  {
    if bs != [] && bs[0].key != key(x) {
      assert ItemsKeyed(bs[1..], key) by {
        forall i | 0 <= i < |bs[1..]|
          ensures bs[1..][i].items != [] && forall j :: 0 <= j < |bs[1..][i].items| ==> key(bs[1..][i].items[j]) == bs[1..][i].key
        {
          assert bs[1..][i] == bs[i + 1];
        }
      }
      AppendItemsKeyed(bs[1..], key, x);
      var r := Append(bs, key(x), x);
      forall i | 1 <= i < |r| ensures r[i] == Append(bs[1..], key(x), x)[i - 1] {
      }
    } else if bs != [] {
      var r := Append(bs, key(x), x);
      forall i | 0 <= i < |r|
        ensures r[i].items != [] && forall j :: 0 <= j < |r[i].items| ==> key(r[i].items[j]) == r[i].key
      {
        if i == 0 {
          forall j | 0 <= j < |r[0].items| ensures key(r[0].items[j]) == r[0].key {
            if j < |bs[0].items| {
              assert r[0].items[j] == bs[0].items[j];
            }
          }
        } else {
          assert r[i] == bs[i];
        }
      }
    }
  }

  lemma AppendWellKeyed<T>(bs: seq<Bucket<T>>, key: T -> Text, x: T)
    requires WellKeyed(bs, key)
    ensures WellKeyed(Append(bs, key(x), x), key)
  {
    AppendUnique(bs, key(x), x);
    AppendItemsKeyed(bs, key, x);
  }

  lemma {:induction false} BucketKeysAppend<T>(a: seq<Bucket<T>>, b: seq<Bucket<T>>)
    ensures BucketKeys(a + b) == BucketKeys(a) + BucketKeys(b)
  {
    if a == [] {
      assert a + b == b;
    } else {
      assert (a + b)[1..] == a[1..] + b;
      BucketKeysAppend(a[1..], b);
    }
  }

  /** `HasKey` after removals. */
  lemma {:induction false} HasKeyWithout<T>(bs: seq<Bucket<T>>, ks: seq<Text>, k: Text)
    ensures HasKey(WithoutKeys(bs, ks), k) <==> HasKey(bs, k) && k !in ks
  {
    if bs != [] {
      HasKeyWithout(bs[1..], ks, k);
      assert BucketKeys(bs) == [bs[0].key] + BucketKeys(bs[1..]);
      if bs[0].key !in ks {
        assert ([bs[0]] + WithoutKeys(bs[1..], ks))[1..] == WithoutKeys(bs[1..], ks);
      }
    }
  }

  lemma {:induction false} WithoutMore<T>(bs: seq<Bucket<T>>, ks: seq<Text>, k: Text)
    ensures WithoutKeys(WithoutKeys(bs, ks), [k]) == WithoutKeys(bs, ks + [k])
  {
    if bs != [] {
      WithoutMore(bs[1..], ks, k);
    }
  }

  lemma {:induction false} RemoveKeysIsWithout<T>(bs: seq<Bucket<T>>, ks: seq<Text>)
    ensures RemoveKeys(bs, ks) == WithoutKeys(bs, ks)
    decreases |ks|
  {
    if ks == [] {
      WithoutNone(bs);
    } else {
      RemoveKeysIsWithout(WithoutKeys(bs, [ks[0]]), ks[1..]);
      WithoutTwice(bs, [ks[0]], ks[1..]);
      assert [ks[0]] + ks[1..] == ks;
    }
  }

  lemma {:induction false} WithoutNone<T>(bs: seq<Bucket<T>>)
    ensures WithoutKeys(bs, []) == bs
  {
    if bs != [] {
      WithoutNone(bs[1..]);
    }
  }

  lemma {:induction false} WithoutTwice<T>(bs: seq<Bucket<T>>, a: seq<Text>, b: seq<Text>)
    ensures WithoutKeys(WithoutKeys(bs, a), b) == WithoutKeys(bs, a + b)
  {
    if bs != [] {
      WithoutTwice(bs[1..], a, b);
    }
  }

  /** A sub-list of a list without duplicate keys has none either. */
  lemma {:induction false} WithoutUnique<T>(bs: seq<Bucket<T>>, ks: seq<Text>)
    requires UniqueKeys(bs)
    ensures UniqueKeys(WithoutKeys(bs, ks))
  {
    if bs != [] {
      UniqueTail(bs);
      WithoutUnique(bs[1..], ks);
      if bs[0].key !in ks {
        HasKeyWithout(bs[1..], ks, bs[0].key);
        UniqueCons(bs[0], WithoutKeys(bs[1..], ks));
      }
    }
  }

  /** In a list with unique keys, the entry found by `Lookup` is the only one with its key. */
  lemma {:induction false} LookupUnique<T>(bs: seq<Bucket<T>>, i: nat)
    requires UniqueKeys(bs) && i < |bs|
    ensures Lookup(bs, bs[i].key) == bs[i].items
  {
    if i > 0 {
      assert bs[0].key != bs[i].key by {
        assert BucketKeys(bs)[0] != BucketKeys(bs)[i];
      }
      UniqueTail(bs);
      LookupUnique(bs[1..], i - 1);
    }
  }

  lemma {:induction false} LookupAbsent<T>(bs: seq<Bucket<T>>, k: Text)
    requires !HasKey(bs, k)
    ensures Lookup(bs, k) == []
  {
    if bs != [] {
      assert BucketKeys(bs)[0] == bs[0].key;
      assert BucketKeys(bs)[1..] == BucketKeys(bs[1..]);
      LookupAbsent(bs[1..], k);
    }
  }

  // ---- The state and ingestion ----

  /** `referencesByApiName`, `availableApisByName` and `apiDeclarationSources`. */
  datatype State = State(
    referencesByApi: seq<Bucket<DiscoveredReference>>,
    apisByName: seq<Bucket<DiscoveredApi>>,
    sources: seq<DeclarationSource>)

  const Initial: State := State([], [], [])

  function ReferenceKey(r: DiscoveredReference): Text {
    r.api
  }

  function ApiKey(a: DiscoveredApi): Text {
    a.api
  }

  /** The invariant ingestion keeps. */
  predicate Valid(s: State) {
    WellKeyed(s.referencesByApi, ReferenceKey) && WellKeyed(s.apisByName, ApiKey)
  }

  /** One queued item: a source is added to the list, an API or reference to the list of
      its identity. */
  function IngestItem(s: State, item: Item): State {
    match item
    case SourceItem(src) => s.(sources := s.sources + [src])
    case ApiItem(a) => s.(apisByName := Append(s.apisByName, a.api, a))
    case ReferenceItem(r) => s.(referencesByApi := Append(s.referencesByApi, r.api, r))
  }

  /** The ingestion loop of one batch. */
  function Ingest(s: State, items: seq<Item>): State
    decreases |items|
  {
    if items == [] then s else Ingest(IngestItem(s, items[0]), items[1..])
  }

  /** The declarations of `k` among the items, in order. */
  function ApisNamed(items: seq<Item>, k: Text): seq<DiscoveredApi> {
    if items == [] then []
    else (if items[0].ApiItem? && items[0].api.api == k then [items[0].api] else []) + ApisNamed(items[1..], k)
  }

  /** The references to `k` among the items, in order. */
  function ReferencesTo(items: seq<Item>, k: Text): seq<DiscoveredReference> {
    if items == [] then []
    else (if items[0].ReferenceItem? && items[0].reference.api == k then [items[0].reference] else [])
         + ReferencesTo(items[1..], k)
  }

  function SourcesOf(items: seq<Item>): seq<DeclarationSource> {
    if items == [] then []
    else (if items[0].SourceItem? then [items[0].source] else []) + SourcesOf(items[1..])
  }

  /** Ingestion only appends: every declaration goes, in batch order, to the end of its
      identity's list; nothing is deduplicated or removed. */
  lemma {:induction false} IngestApis(s: State, items: seq<Item>, k: Text)
    ensures Lookup(Ingest(s, items).apisByName, k) == Lookup(s.apisByName, k) + ApisNamed(items, k)
    decreases |items|
  {
    if items != [] {
      var s1 := IngestItem(s, items[0]);
      IngestApis(s1, items[1..], k);
      if items[0].ApiItem? {
        LookupAppend(s.apisByName, items[0].api.api, items[0].api, k);
      }
    }
  }

  /** The same for references. */
  lemma {:induction false} IngestReferences(s: State, items: seq<Item>, k: Text)
    ensures Lookup(Ingest(s, items).referencesByApi, k) == Lookup(s.referencesByApi, k) + ReferencesTo(items, k)
    decreases |items|
  {
    if items != [] {
      var s1 := IngestItem(s, items[0]);
      IngestReferences(s1, items[1..], k);
      if items[0].ReferenceItem? {
        LookupAppend(s.referencesByApi, items[0].reference.api, items[0].reference, k);
      }
    }
  }

  /** And declaration sources are appended to their list. */
  lemma {:induction false} IngestSources(s: State, items: seq<Item>)
    ensures Ingest(s, items).sources == s.sources + SourcesOf(items)
    decreases |items|
  {
    if items != [] {
      IngestSources(IngestItem(s, items[0]), items[1..]);
    }
  }

  /** Ingestion keeps the invariant. */
  lemma {:induction false} IngestValid(s: State, items: seq<Item>)
    requires Valid(s)
    ensures Valid(Ingest(s, items))
    decreases |items|
  {
    if items != [] {
      match items[0] {
      case SourceItem(src) =>
      case ApiItem(a) => AppendWellKeyed(s.apisByName, ApiKey, a);
      case ReferenceItem(r) => AppendWellKeyed(s.referencesByApi, ReferenceKey, r);
      }
      IngestValid(IngestItem(s, items[0]), items[1..]);
    }
  }

  /** How the items are split into batches does not matter. */
  lemma {:induction false} IngestBatches(s: State, a: seq<Item>, b: seq<Item>)
    ensures Ingest(Ingest(s, a), b) == Ingest(s, a + b)
    decreases |a|
  {
    if a == [] {
      assert a + b == b;
    } else {
      assert (a + b)[0] == a[0];
      assert (a + b)[1..] == a[1..] + b;
      IngestBatches(IngestItem(s, a[0]), a[1..], b);
    }
  }

  // ---- Classification ----

  /** The predicate passed to `Partition` on line 81: `remainingApis.Remove(key)`. */
  function RemoveReferenced(remaining: seq<Bucket<DiscoveredApi>>, b: Bucket<DiscoveredReference>)
    : (seq<Bucket<DiscoveredApi>>, bool)
  {
    RemoveKey(remaining, b.key)
  }

  function AllExcluded(b: Bucket<DiscoveredApi>): bool {
    forall i :: 0 <= i < |b.items| ==> b.items[i].excludeFromUnusedReport
  }

  /** The APIs that render calls current (referenced and declared), removed (referenced,
      no longer declared) and unused (declared, never referenced, not all declarations
      excluded from the report). */
  datatype Classification = Classification(
    current: seq<Bucket<DiscoveredReference>>,
    removed: seq<Bucket<DiscoveredReference>>,
    unused: seq<Bucket<DiscoveredApi>>)

  /** Lines 80-84: a copy of the declarations, partitioned by removal, then the entries
      whose declarations are all excluded removed from what is left. */
  function Classify(s: State): Classification {
    var p := Partition(s.referencesByApi, s.apisByName, RemoveReferenced);
    var excluded := BucketKeys(Filter(p.state, AllExcluded));
    Classification(p.matched, p.unmatched, RemoveKeys(p.state, excluded))
  }

  /** The references of declared APIs, in order (from the back, as `Partition` goes). */
  function Declared(refs: seq<Bucket<DiscoveredReference>>, apis: seq<Bucket<DiscoveredApi>>, declared: bool)
    : seq<Bucket<DiscoveredReference>>
    decreases |refs|
  {
    if refs == [] then []
    else Declared(refs[..|refs| - 1], apis, declared)
         + (if HasKey(apis, refs[|refs| - 1].key) == declared then [refs[|refs| - 1]] else [])
  }

  lemma {:induction false} PartitionByRemoval(refs: seq<Bucket<DiscoveredReference>>, apis: seq<Bucket<DiscoveredApi>>)
    requires UniqueKeys(refs)
    ensures Partition(refs, apis, RemoveReferenced).matched == Declared(refs, apis, true)
    ensures Partition(refs, apis, RemoveReferenced).unmatched == Declared(refs, apis, false)
    ensures Partition(refs, apis, RemoveReferenced).state == WithoutKeys(apis, BucketKeys(refs))
    decreases |refs|
  {
    if refs == [] {
      WithoutNone(apis);
    } else {
      var init := refs[..|refs| - 1];
      var last := refs[|refs| - 1];
      UniqueInit(refs);
      PartitionByRemoval(init, apis);
      HasKeyWithout(apis, BucketKeys(init), last.key);
      WithoutMore(apis, BucketKeys(init), last.key);
    }
  }

  /** Dropping the last entry keeps the keys unique, and its key is not among the rest. */
  lemma UniqueInit<T>(refs: seq<Bucket<T>>)
    requires UniqueKeys(refs) && refs != []
    ensures var init := refs[..|refs| - 1];
            var last := refs[|refs| - 1];
            && BucketKeys(refs) == BucketKeys(init) + [last.key]
            && UniqueKeys(init)
            && last.key !in BucketKeys(init)
  {
    var init := refs[..|refs| - 1];
    var last := refs[|refs| - 1];
    assert BucketKeys(refs) == BucketKeys(init) + [last.key] by {
      assert refs == init + [last];
      BucketKeysAppend(init, [last]);
    }
    assert UniqueKeys(init) by {
      forall i, j | 0 <= i < j < |BucketKeys(init)| ensures BucketKeys(init)[i] != BucketKeys(init)[j] {
        assert BucketKeys(refs)[i] != BucketKeys(refs)[j];
      }
    }
    forall i | 0 <= i < |BucketKeys(init)| ensures BucketKeys(init)[i] != last.key {
      assert BucketKeys(refs)[i] != BucketKeys(refs)[|refs| - 1];
    }
  }


  lemma {:induction false} DeclaredMembers(refs: seq<Bucket<DiscoveredReference>>, apis: seq<Bucket<DiscoveredApi>>, declared: bool)
    ensures forall b :: b in Declared(refs, apis, declared) <==> b in refs && HasKey(apis, b.key) == declared
    decreases |refs|
  {
    if refs != [] {
      DeclaredMembers(refs[..|refs| - 1], apis, declared);
      assert refs == refs[..|refs| - 1] + [refs[|refs| - 1]];
    }
  }

  /** The set of distinct identities of a list with unique keys has one per entry. */
  lemma {:induction false} UniqueKeyCount<T>(bs: seq<Bucket<T>>)
    requires UniqueKeys(bs)
    ensures |set k | k in BucketKeys(bs)| == |bs|
  {
    if bs != [] {
      UniqueTail(bs);
      UniqueKeyCount(bs[1..]);
      assert BucketKeys(bs) == [bs[0].key] + BucketKeys(bs[1..]);
      assert (set k | k in BucketKeys(bs)) == {bs[0].key} + (set k | k in BucketKeys(bs[1..]));
    }
  }

  /** Used and removed: a referenced identity is current iff it is declared and removed
      iff not; the two are disjoint, each keeps the reference order, and their counts add
      up to the number of distinct referenced identities. */
  lemma ClassifyReferences(s: State)
    requires Valid(s)
    ensures Classify(s).current == Declared(s.referencesByApi, s.apisByName, true)
    ensures Classify(s).removed == Declared(s.referencesByApi, s.apisByName, false)
    ensures forall b :: b in Classify(s).current <==> b in s.referencesByApi && HasKey(s.apisByName, b.key)
    ensures forall b :: b in Classify(s).removed <==> b in s.referencesByApi && !HasKey(s.apisByName, b.key)
    ensures |Classify(s).current| + |Classify(s).removed| == |set k | k in BucketKeys(s.referencesByApi)|
  {
    PartitionByRemoval(s.referencesByApi, s.apisByName);
    DeclaredMembers(s.referencesByApi, s.apisByName, true);
    DeclaredMembers(s.referencesByApi, s.apisByName, false);
    UniqueKeyCount(s.referencesByApi);
  }

  /** An entry's key is among the keys of the fully excluded entries iff the entry is fully
      excluded (keys being unique). */
  lemma ExcludedKeys(remaining: seq<Bucket<DiscoveredApi>>, b: Bucket<DiscoveredApi>)
    requires UniqueKeys(remaining) && b in remaining
    ensures b.key in BucketKeys(Filter(remaining, AllExcluded)) <==> AllExcluded(b)
  {
    var f := Filter(remaining, AllExcluded);
    if b.key in BucketKeys(f) {
      var i :| 0 <= i < |f| && BucketKeys(f)[i] == b.key;
      assert f[i] in f;
      SameKeySame(remaining, f[i], b);
    }
    if AllExcluded(b) {
      assert b in f;
      var i :| 0 <= i < |f| && f[i] == b;
      assert BucketKeys(f)[i] == b.key;
    }
  }

  /** Unused: the declared identities that are never referenced and have at least one
      declaration not excluded from the report. */
  lemma ClassifyUnused(s: State)
    requires Valid(s)
    ensures forall b :: b in Classify(s).unused <==>
              b in s.apisByName && !HasKey(s.referencesByApi, b.key) && !AllExcluded(b)
    ensures UniqueKeys(Classify(s).unused)
  {
    var refs, apis := s.referencesByApi, s.apisByName;
    PartitionByRemoval(refs, apis);
    var remaining := WithoutKeys(apis, BucketKeys(refs));
    var excluded := BucketKeys(Filter(remaining, AllExcluded));
    assert Classify(s).unused == RemoveKeys(remaining, excluded);
    RemoveKeysIsWithout(remaining, excluded);
    WithoutUnique(apis, BucketKeys(refs));
    WithoutUnique(remaining, excluded);
    WithoutMembers(apis, BucketKeys(refs));
    WithoutMembers(remaining, excluded);
    forall b | b in remaining ensures b.key in excluded <==> AllExcluded(b) {
      ExcludedKeys(remaining, b);
    }
  }

  lemma {:induction false} WithoutMembers<T>(bs: seq<Bucket<T>>, ks: seq<Text>)
    ensures forall b :: b in WithoutKeys(bs, ks) <==> b in bs && b.key !in ks
  {
    if bs != [] {
      WithoutMembers(bs[1..], ks);
      assert bs == [bs[0]] + bs[1..];
    }
  }

  /** Two entries of a list with unique keys that have the same key are the same entry. */
  lemma SameKeySame<T>(bs: seq<Bucket<T>>, a: Bucket<T>, b: Bucket<T>)
    requires UniqueKeys(bs) && a in bs && b in bs && a.key == b.key
    ensures a == b
  {
    var i :| 0 <= i < |bs| && bs[i] == a;
    var j :| 0 <= j < |bs| && bs[j] == b;
    assert BucketKeys(bs)[i] == BucketKeys(bs)[j];
  }

  /** A key is present iff some entry carries it. */
  lemma KeysOfMembers<T>(bs: seq<Bucket<T>>)
    ensures forall k :: k in BucketKeys(bs) <==> exists b :: b in bs && b.key == k
  {
    forall k | k in BucketKeys(bs) ensures exists b :: b in bs && b.key == k {
      var i :| 0 <= i < |bs| && BucketKeys(bs)[i] == k;
      assert bs[i] in bs;
    }
    forall k | exists b :: b in bs && b.key == k ensures k in BucketKeys(bs) {
      var b :| b in bs && b.key == k;
      var i :| 0 <= i < |bs| && bs[i] == b;
      assert BucketKeys(bs)[i] == k;
    }
  }

  /** In a well-keyed dictionary the entry for a present key is the one `Lookup` finds,
      and its list is not empty. */
  lemma LookupPresent<T>(bs: seq<Bucket<T>>, key: T -> Text, k: Text)
    requires WellKeyed(bs, key)
    ensures HasKey(bs, k) <==> Lookup(bs, k) != []
    ensures HasKey(bs, k) ==> Bucket(k, Lookup(bs, k)) in bs
  {
    if HasKey(bs, k) {
      var i :| 0 <= i < |bs| && BucketKeys(bs)[i] == k;
      LookupUnique(bs, i);
      assert bs[i] == Bucket(k, Lookup(bs, k));
    } else {
      LookupAbsent(bs, k);
    }
  }

  lemma {:induction false} DeclaredUnique(refs: seq<Bucket<DiscoveredReference>>, apis: seq<Bucket<DiscoveredApi>>, declared: bool)
    requires UniqueKeys(refs)
    ensures UniqueKeys(Declared(refs, apis, declared))
    ensures forall k :: k in BucketKeys(Declared(refs, apis, declared)) ==> k in BucketKeys(refs)
    decreases |refs|
  {
    if refs != [] {
      var init := refs[..|refs| - 1];
      var last := refs[|refs| - 1];
      assert refs == init + [last];
      BucketKeysAppend(init, [last]);
      assert UniqueKeys(init) by {
        forall i, j | 0 <= i < j < |BucketKeys(init)| ensures BucketKeys(init)[i] != BucketKeys(init)[j] {
          assert BucketKeys(refs)[i] != BucketKeys(refs)[j];
        }
      }
      DeclaredUnique(init, apis, declared);
      var d := Declared(init, apis, declared);
      if HasKey(apis, last.key) == declared {
        BucketKeysAppend(d, [last]);
        var ks := BucketKeys(d + [last]);
        forall i, j | 0 <= i < j < |ks| ensures ks[i] != ks[j] {
          if j == |d| {
            assert ks[i] in BucketKeys(init);
            var m :| 0 <= m < |init| && BucketKeys(init)[m] == ks[i];
            assert BucketKeys(refs)[m] != BucketKeys(refs)[|refs| - 1];
          } else {
            assert BucketKeys(d)[i] != BucketKeys(d)[j];
          }
        }
      }
    }
  }

  /** A list with unique keys has as many entries as its set of keys has elements. */
  lemma CountByKeys<T>(bs: seq<Bucket<T>>, ks: set<Text>)
    requires UniqueKeys(bs)
    requires forall k :: k in BucketKeys(bs) <==> k in ks
    ensures |bs| == |ks|
  {
    UniqueKeyCount(bs);
    SetOf(BucketKeys(bs), ks);
  }

  lemma SetOf(xs: seq<Text>, ks: set<Text>)
    requires forall k :: k in xs <==> k in ks
    ensures (set k | k in xs) == ks
  {
  }

  /** The identities that are referenced and declared. */
  function UsedIds(s: State): set<Text> {
    set k | k in BucketKeys(s.referencesByApi) && HasKey(s.apisByName, k)
  }

  /** The identities that are referenced and not declared. */
  function RemovedIds(s: State): set<Text> {
    set k | k in BucketKeys(s.referencesByApi) && !HasKey(s.apisByName, k)
  }

  /** The counts the statistics report: the number of distinct identities that are
      referenced and declared (used), and referenced and not declared (removed). */
  lemma ReferenceCounts(s: State)
    requires Valid(s)
    ensures |Classify(s).current| == |UsedIds(s)|
    ensures |Classify(s).removed| == |RemovedIds(s)|
  {
    var c := Classify(s);
    var refs, apis := s.referencesByApi, s.apisByName;
    ClassifyReferences(s);
    DeclaredUnique(refs, apis, true);
    DeclaredUnique(refs, apis, false);
    KeysOfMembers(c.current);
    KeysOfMembers(c.removed);
    KeysOfMembers(refs);
    CountByKeys(c.current, UsedIds(s));
    CountByKeys(c.removed, RemovedIds(s));
  }

  /** Declared, never referenced, and not all declarations excluded from the report. */
  predicate IsUnused(s: State, k: Text) {
    HasKey(s.apisByName, k) && !HasKey(s.referencesByApi, k) && !AllExcluded(Bucket(k, Lookup(s.apisByName, k)))
  }

  /** The identities that are declared, never referenced, and not all excluded. */
  function UnusedIds(s: State): set<Text> {
    set k | k in BucketKeys(s.apisByName) && IsUnused(s, k)
  }

  /** An identity is reported unused iff it is declared, never referenced, and not all its
      declarations are excluded. */
  lemma UnusedKey(s: State, k: Text)
    requires Valid(s)
    ensures HasKey(Classify(s).unused, k) <==> IsUnused(s, k)
  {
    var c := Classify(s);
    var apis := s.apisByName;
    ClassifyUnused(s);
    KeysOfMembers(c.unused);
    LookupPresent(apis, ApiKey, k);
    if HasKey(c.unused, k) {
      var b :| b in c.unused && b.key == k;
      SameKeySame(apis, b, Bucket(k, Lookup(apis, k)));
    }
  }

  /** The unused count: the number of declared identities never referenced whose
      declarations are not all excluded. */
  lemma UnusedCount(s: State)
    requires Valid(s)
    ensures |Classify(s).unused| == |UnusedIds(s)|
  {
    var unused := Classify(s).unused;
    var target := UnusedIds(s);
    ClassifyUnused(s);
    forall k ensures k in BucketKeys(unused) <==> k in target {
      UnusedKey(s, k);
    }
    CountByKeys(unused, target);
  }

  /** All references, entry after entry: `referencesByApiName.Values.SelectMany(list => list)`. */
  function AllReferences(bs: seq<Bucket<DiscoveredReference>>): seq<DiscoveredReference> {
    if bs == [] then [] else bs[0].items + AllReferences(bs[1..])
  }
}
