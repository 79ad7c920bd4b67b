/** The LINQ operators the report relies on, as pure functions over sequences:
    `Where`, `Select`, `Distinct`, `GroupBy` (groups in order of first appearance, items
    in source order) and the stable `OrderBy`. String ordering is culture-sensitive in
    the program, so the comparer is a parameter `leq`; the sorting properties assume it
    is a total preorder (distinct strings may compare equal). */
module Linq {
  import opened Utf16

  // ---- Where / Select ----

  function Filter<T(!new)>(xs: seq<T>, p: T -> bool): (r: seq<T>)
    ensures |r| <= |xs|
    ensures forall x :: x in r <==> x in xs && p(x)
  {
    if xs == [] then [] else (if p(xs[0]) then [xs[0]] else []) + Filter(xs[1..], p)
  }

  /** Filtering distributes over concatenation. */
  lemma {:induction false} FilterAppend<T(!new)>(a: seq<T>, b: seq<T>, p: T -> bool)
    ensures Filter(a + b, p) == Filter(a, p) + Filter(b, p)
  {
    if a == [] {
      assert a + b == b;
    } else {
      assert (a + b)[0] == a[0];
      assert (a + b)[1..] == a[1..] + b;
      FilterAppend(a[1..], b, p);
    }
  }

  function Map<T, U>(xs: seq<T>, f: T -> U): (r: seq<U>)
    ensures |r| == |xs|
    ensures forall i :: 0 <= i < |xs| ==> r[i] == f(xs[i])
  {
    seq(|xs|, i requires 0 <= i < |xs| => f(xs[i]))
  }

  lemma MapAppend<T, U>(a: seq<T>, b: seq<T>, f: T -> U)
    ensures Map(a + b, f) == Map(a, f) + Map(b, f)
  {
  }

  /** `SelectMany(list => list)`. */
  function Flatten<T>(xss: seq<seq<T>>): (r: seq<T>)
    ensures |xss| == 1 ==> r == xss[0]
  {
    if xss == [] then [] else xss[0] + Flatten(xss[1..])
  }

  lemma {:induction false} FlattenAppend<T>(a: seq<seq<T>>, b: seq<seq<T>>)
    ensures Flatten(a + b) == Flatten(a) + Flatten(b)
  {
    if a == [] {
      assert a + b == b;
    } else {
      assert (a + b)[0] == a[0];
      assert (a + b)[1..] == a[1..] + b;
      FlattenAppend(a[1..], b);
    }
  }

  lemma {:induction false} FlattenMember<T>(xss: seq<seq<T>>, x: T)
    ensures x in Flatten(xss) <==> exists i :: 0 <= i < |xss| && x in xss[i]
  {
    if xss != [] {
      var rest := xss[1..];
      FlattenMember(rest, x);
      assert Flatten(xss) == xss[0] + Flatten(rest);
      if x in Flatten(xss) && x !in xss[0] {
        var i :| 0 <= i < |rest| && x in rest[i];
        assert x in xss[i + 1];
      }
      if exists i :: 0 <= i < |xss| && x in xss[i] {
        var i :| 0 <= i < |xss| && x in xss[i];
        if i > 0 {
          assert x in rest[i - 1];
        }
      }
    }
  }

  // ---- Distinct ----

  predicate NoDuplicates<T(==)>(xs: seq<T>) {
    forall i, j :: 0 <= i < j < |xs| ==> xs[i] != xs[j]
  }

  /** `Distinct`: the first occurrence of every element, in order. */
  function Distinct<T(==,!new)>(xs: seq<T>): (r: seq<T>)
    ensures NoDuplicates(r)
    ensures forall x :: x in r <==> x in xs
    ensures |r| <= |xs|
    decreases |xs|
  {
    if xs == [] then []
    else
      var d := Distinct(xs[..|xs| - 1]);
      var last := xs[|xs| - 1];
      assert forall x :: x in xs <==> x in xs[..|xs| - 1] || x == last by {
        assert xs == xs[..|xs| - 1] + [last];
      }
      if last in d then d else d + [last]
  }

  /** The index of the first occurrence. */
  function FirstIndex<T(==)>(xs: seq<T>, x: T): (i: nat)
    requires x in xs
    ensures i < |xs| && xs[i] == x
    ensures forall j :: 0 <= j < i ==> xs[j] != x
  {
    if xs[0] == x then 0 else 1 + FirstIndex(xs[1..], x)
  }

  lemma FirstIndexOfPrefix<T>(xs: seq<T>, n: nat, x: T)
    requires n <= |xs| && x in xs[..n]
    ensures x in xs && FirstIndex(xs, x) == FirstIndex(xs[..n], x)
  {
    var i := FirstIndex(xs[..n], x);
    assert xs[i] == x;
    var k := FirstIndex(xs, x);
    assert k <= i;
    assert xs[..n][k] == x;
  }

  /** `Distinct` keeps the order of first occurrences. */
  lemma {:induction false} DistinctOrder<T(!new)>(xs: seq<T>)
    ensures forall i, j :: 0 <= i < j < |Distinct(xs)| ==>
              FirstIndex(xs, Distinct(xs)[i]) < FirstIndex(xs, Distinct(xs)[j])
    decreases |xs|
  {
    if xs != [] {
      var init := xs[..|xs| - 1];
      var last := xs[|xs| - 1];
      DistinctOrder(init);
      var d := Distinct(init);
      forall y | y in d ensures FirstIndex(xs, y) == FirstIndex(init, y) {
        assert init == xs[..|xs| - 1];
        FirstIndexOfPrefix(xs, |xs| - 1, y);
      }
      if last !in d {
        assert Distinct(xs) == d + [last];
        assert FirstIndex(xs, last) == |xs| - 1 by {
          var k := FirstIndex(xs, last);
          assert last !in init;
          assert forall j :: 0 <= j < |init| ==> xs[j] == init[j];
        }
        forall i | 0 <= i < |d| ensures FirstIndex(xs, d[i]) < |xs| - 1 {
          assert d[i] in init;
          assert d[i] in d;
          assert FirstIndex(init, d[i]) < |init|;
        }
      }
    }
  }

  // ---- GroupBy ----

  datatype Group<T> = Group(key: Text, items: seq<T>)

  /** The elements whose key is `k`, in source order. */
  function WithKey<T(!new)>(xs: seq<T>, key: T -> Text, k: Text): (r: seq<T>)
    ensures |r| <= |xs|
    ensures forall x :: x in r <==> x in xs && key(x) == k
  {
    if xs == [] then [] else (if key(xs[0]) == k then [xs[0]] else []) + WithKey(xs[1..], key, k)
  }

  function Keys<T(!new)>(xs: seq<T>, key: T -> Text): (ks: seq<Text>)
    ensures NoDuplicates(ks)
    ensures forall k :: k in ks <==> exists x :: x in xs && key(x) == k
  {
    var ks := Distinct(Map(xs, key));
    assert forall k :: k in Map(xs, key) <==> exists x :: x in xs && key(x) == k by {
      forall k | k in Map(xs, key) ensures exists x :: x in xs && key(x) == k {
        var i :| 0 <= i < |xs| && Map(xs, key)[i] == k;
        assert xs[i] in xs;
      }
      forall k | exists x :: x in xs && key(x) == k ensures k in Map(xs, key) {
        var x :| x in xs && key(x) == k;
        var i :| 0 <= i < |xs| && xs[i] == x;
        assert Map(xs, key)[i] == k;
      }
    }
    ks
  }

  /** `GroupBy`: one group per distinct key, in order of the key's first appearance,
      holding the elements with that key in source order. */
  function GroupBy<T(!new)>(xs: seq<T>, key: T -> Text): (gs: seq<Group<T>>)
    ensures |gs| == |Keys(xs, key)|
  {
    var ks := Keys(xs, key);
    seq(|ks|, i requires 0 <= i < |ks| => Group(ks[i], WithKey(xs, key, ks[i])))
  }

  function GroupKeys<T>(gs: seq<Group<T>>): (ks: seq<Text>)
    ensures |ks| == |gs|
    ensures forall i :: 0 <= i < |gs| ==> ks[i] == gs[i].key
  {
    seq(|gs|, i requires 0 <= i < |gs| => gs[i].key)
  }

  /** Every group is non-empty and holds exactly the elements with its key; the keys are
      distinct; every element is in the group of its key. */
  lemma GroupByPartitions<T(!new)>(xs: seq<T>, key: T -> Text)
    ensures NoDuplicates(GroupKeys(GroupBy(xs, key)))
    ensures forall g :: g in GroupBy(xs, key) ==>
              g.items != [] && (forall x :: x in g.items <==> x in xs && key(x) == g.key)
    ensures forall x :: x in xs ==> exists g :: g in GroupBy(xs, key) && g.key == key(x) && x in g.items
  {
    var gs := GroupBy(xs, key);
    var ks := Keys(xs, key);
    assert GroupKeys(gs) == ks;
    forall g | g in gs
      ensures g.items != [] && (forall x :: x in g.items <==> x in xs && key(x) == g.key)
    {
      var i :| 0 <= i < |gs| && gs[i] == g;
      assert ks[i] in ks;
      var x :| x in xs && key(x) == ks[i];
      assert x in g.items;
    }
    forall x | x in xs ensures exists g :: g in gs && g.key == key(x) && x in g.items {
      assert key(x) in ks;
      var i :| 0 <= i < |ks| && ks[i] == key(x);
      assert gs[i] in gs;
    }
  }

  // ---- OrderBy ----

  /** What the sorting properties need of the comparer: it is total and transitive. */
  ghost predicate TotalPreorder(leq: (Text, Text) -> bool) {
    && (forall a, b :: leq(a, b) || leq(b, a))
    && (forall a, b, c :: leq(a, b) && leq(b, c) ==> leq(a, c))
  }

  predicate SortedBy<T>(xs: seq<T>, key: T -> Text, leq: (Text, Text) -> bool) {
    forall i, j :: 0 <= i < j < |xs| ==> leq(key(xs[i]), key(xs[j]))
  }

  /** Inserts `x` before the first element it does not sort after, so that an element
      coming earlier in the source stays before the equal ones that follow it. */
  function InsertBy<T>(x: T, s: seq<T>, key: T -> Text, leq: (Text, Text) -> bool): (r: seq<T>)
    ensures multiset(r) == multiset(s) + multiset{x}
  {
    if s == [] then [x]
    else if leq(key(x), key(s[0])) then [x] + s
    else
      assert s == [s[0]] + s[1..];
      [s[0]] + InsertBy(x, s[1..], key, leq)
  }

  /** The stable `OrderBy(key)`, as an insertion sort. */
  function SortBy<T>(xs: seq<T>, key: T -> Text, leq: (Text, Text) -> bool): (r: seq<T>)
    ensures multiset(r) == multiset(xs)
    ensures |r| == |xs|
  {
    if xs == [] then []
    else
      assert xs == [xs[0]] + xs[1..];
      InsertBy(xs[0], SortBy(xs[1..], key, leq), key, leq)
  }

  lemma ConsSorted<T>(y: T, r: seq<T>, key: T -> Text, leq: (Text, Text) -> bool)
    requires SortedBy(r, key, leq)
    requires forall z :: z in r ==> leq(key(y), key(z))
    ensures SortedBy([y] + r, key, leq)
  {
    forall i, j | 0 <= i < j < |[y] + r| ensures leq(key(([y] + r)[i]), key(([y] + r)[j])) {
      assert ([y] + r)[j] == r[j - 1];
      if i == 0 {
        assert r[j - 1] in r;
      } else {
        assert ([y] + r)[i] == r[i - 1];
      }
    }
  }

  lemma SortedTail<T>(s: seq<T>, key: T -> Text, leq: (Text, Text) -> bool)
    requires s != [] && SortedBy(s, key, leq)
    ensures SortedBy(s[1..], key, leq)
    ensures forall z :: z in s[1..] ==> leq(key(s[0]), key(z))
  {
    forall i, j | 0 <= i < j < |s[1..]| ensures leq(key(s[1..][i]), key(s[1..][j])) {
      assert s[1..][i] == s[i + 1] && s[1..][j] == s[j + 1];
    }
    forall z | z in s[1..] ensures leq(key(s[0]), key(z)) {
      var j :| 0 <= j < |s[1..]| && s[1..][j] == z;
      assert s[j + 1] == z;
    }
  }

  lemma {:induction false} InsertSorted<T>(x: T, s: seq<T>, key: T -> Text, leq: (Text, Text) -> bool)
    requires TotalPreorder(leq) && SortedBy(s, key, leq)
    ensures SortedBy(InsertBy(x, s, key, leq), key, leq)
  {
    if s == [] {
    } else if leq(key(x), key(s[0])) {
      SortedTail(s, key, leq);
      forall z | z in s ensures leq(key(x), key(z)) {
        if z != s[0] {
          assert z in s[1..] by { assert s == [s[0]] + s[1..]; }
          assert leq(key(s[0]), key(z));
        }
      }
      ConsSorted(x, s, key, leq);
    } else {
      SortedTail(s, key, leq);
      InsertSorted(x, s[1..], key, leq);
      var r := InsertBy(x, s[1..], key, leq);
      assert leq(key(s[0]), key(x));
      forall z | z in r ensures leq(key(s[0]), key(z)) {
        assert z in multiset(r);
        if z != x {
          assert z in multiset(s[1..]);
        }
      }
      ConsSorted(s[0], r, key, leq);
    }
  }

  /** `SortBy` orders by the key. */
  lemma {:induction false} SortBySorted<T>(xs: seq<T>, key: T -> Text, leq: (Text, Text) -> bool)
    requires TotalPreorder(leq)
    ensures SortedBy(SortBy(xs, key, leq), key, leq)
  {
    if xs != [] {
      SortBySorted(xs[1..], key, leq);
      InsertSorted(xs[0], SortBy(xs[1..], key, leq), key, leq);
    }
  }

  /** The elements whose key the comparer ranks equal to `k`. */
  function TiedWith<T>(key: T -> Text, leq: (Text, Text) -> bool, k: Text): T -> bool {
    x => leq(key(x), k) && leq(k, key(x))
  }

  /** Inserting keeps the order among the elements tied with any key: `x` lands after
      every element it passes, none of which ties with it. */
  lemma {:induction false} InsertStable<T(!new)>(x: T, s: seq<T>, key: T -> Text, leq: (Text, Text) -> bool, k: Text)
    requires TotalPreorder(leq)
    ensures Filter(InsertBy(x, s, key, leq), TiedWith(key, leq, k)) == Filter([x] + s, TiedWith(key, leq, k))
    decreases |s|
  {
    if s == [] {
      assert InsertBy(x, s, key, leq) == [x] == [x] + s;
    } else if leq(key(x), key(s[0])) {
      assert InsertBy(x, s, key, leq) == [x] + s;
    } else {
      InsertStable(x, s[1..], key, leq, k);
      NotBothTied(x, s[0], key, leq, k);
      InsertPassing(x, s, key, leq, TiedWith(key, leq, k));
    }
  }

  /** The step where `x` passes the first element, which does not tie with it. */
  lemma InsertPassing<T(!new)>(x: T, s: seq<T>, key: T -> Text, leq: (Text, Text) -> bool, p: T -> bool)
    requires s != [] && !leq(key(x), key(s[0]))
    requires Filter([x], p) == [] || Filter([s[0]], p) == []
    requires Filter(InsertBy(x, s[1..], key, leq), p) == Filter([x] + s[1..], p)
    ensures Filter(InsertBy(x, s, key, leq), p) == Filter([x] + s, p)
  {
    PassedFilter(x, s, key, leq, p);
    FilterTwo(x, s, p);
    SwapFront(Filter([x], p), Filter([s[0]], p), Filter(s[1..], p));
  }

  lemma PassedFilter<T(!new)>(x: T, s: seq<T>, key: T -> Text, leq: (Text, Text) -> bool, p: T -> bool)
    requires s != [] && !leq(key(x), key(s[0]))
    ensures Filter(InsertBy(x, s, key, leq), p) == Filter([s[0]], p) + Filter(InsertBy(x, s[1..], key, leq), p)
  {
    FilterAppend([s[0]], InsertBy(x, s[1..], key, leq), p);
  }

  lemma FilterTwo<T(!new)>(x: T, s: seq<T>, p: T -> bool)
    requires s != []
    ensures Filter([x] + s[1..], p) == Filter([x], p) + Filter(s[1..], p)
    ensures Filter([x] + s, p) == Filter([x], p) + (Filter([s[0]], p) + Filter(s[1..], p))
  {
    FilterAppend([x], s[1..], p);
    FilterAppend([s[0]], s[1..], p);
    FilterAppend([x], s, p);
    assert s == [s[0]] + s[1..];
  }

  lemma SwapFront<T>(a: seq<T>, b: seq<T>, rest: seq<T>)
    requires a == [] || b == []
    ensures b + (a + rest) == a + (b + rest)
  {
  }

  /** Two elements the comparer orders strictly are not both tied with one key. */
  lemma NotBothTied<T(!new)>(x: T, y: T, key: T -> Text, leq: (Text, Text) -> bool, k: Text)
    requires TotalPreorder(leq) && !leq(key(x), key(y))
    ensures Filter([x], TiedWith(key, leq, k)) == [] || Filter([y], TiedWith(key, leq, k)) == []
  {
  }

  /** `SortBy` is stable: the elements whose keys the comparer ranks equal keep their
      source order. */
  lemma {:induction false} SortByStable<T(!new)>(xs: seq<T>, key: T -> Text, leq: (Text, Text) -> bool, k: Text)
    requires TotalPreorder(leq)
    ensures Filter(SortBy(xs, key, leq), TiedWith(key, leq, k)) == Filter(xs, TiedWith(key, leq, k))
    decreases |xs|
  {
    if xs != [] {
      var p := TiedWith(key, leq, k);
      SortByStable(xs[1..], key, leq, k);
      InsertStable(xs[0], SortBy(xs[1..], key, leq), key, leq, k);
      FilterAppend([xs[0]], SortBy(xs[1..], key, leq), p);
      FilterAppend([xs[0]], xs[1..], p);
      assert xs == [xs[0]] + xs[1..];
    }
  }

  function Identity(t: Text): Text {
    t
  }

  /** `Order()` on strings. */
  function Sort(ts: seq<Text>, leq: (Text, Text) -> bool): (r: seq<Text>)
    ensures multiset(r) == multiset(ts)
  {
    SortBy(ts, Identity, leq)
  }

  /** `GroupBy(key).OrderBy(g => g.Key)`: the groups are sorted by key, and each is
      non-empty and holds exactly the elements with its key. */
  lemma SortedGroupBy<T(!new)>(xs: seq<T>, key: T -> Text, leq: (Text, Text) -> bool)
    ensures forall g :: g in SortBy(GroupBy(xs, key), GroupKeyOf, leq) ==>
              g.items != [] && (forall x :: x in g.items <==> x in xs && key(x) == g.key)
    ensures forall x :: x in xs ==> exists g :: g in SortBy(GroupBy(xs, key), GroupKeyOf, leq) && g.key == key(x) && x in g.items
    ensures TotalPreorder(leq) ==> SortedBy(SortBy(GroupBy(xs, key), GroupKeyOf, leq), GroupKeyOf, leq)
  {
    var gs := GroupBy(xs, key);
    var sorted := SortBy(gs, GroupKeyOf, leq);
    GroupByPartitions(xs, key);
    assert forall g :: g in sorted <==> g in gs by {
      assert forall g :: g in sorted <==> g in multiset(sorted);
      assert forall g :: g in gs <==> g in multiset(gs);
    }
    if TotalPreorder(leq) {
      SortBySorted(gs, GroupKeyOf, leq);
    }
  }

  function GroupKeyOf<T>(g: Group<T>): Text {
    g.key
  }

  /** In `GroupBy(key).OrderBy(g => g.Key)` each group holds `WithKey` of its key, and no
      key heads two groups. */
  lemma SortedGroupItems<T(!new)>(xs: seq<T>, key: T -> Text, leq: (Text, Text) -> bool)
    ensures forall g :: g in SortBy(GroupBy(xs, key), GroupKeyOf, leq) ==> g.items == WithKey(xs, key, g.key)
    ensures NoDuplicates(GroupKeys(SortBy(GroupBy(xs, key), GroupKeyOf, leq)))
  {
    var gs := GroupBy(xs, key);
    var sorted := SortBy(gs, GroupKeyOf, leq);
    GroupByPartitions(xs, key);
    forall g | g in sorted ensures g in gs && g.items == WithKey(xs, key, g.key) {
      assert g in multiset(sorted);
      assert g in multiset(gs);
      var i :| 0 <= i < |gs| && gs[i] == g;
    }
    assert NoDuplicates(gs) by {
      forall i, j | 0 <= i < j < |gs| ensures gs[i] != gs[j] {
        assert GroupKeys(gs)[i] == gs[i].key && GroupKeys(gs)[j] == gs[j].key;
      }
    }
    PermutationNoDuplicates(gs, sorted);
    forall i, j | 0 <= i < j < |sorted| ensures GroupKeys(sorted)[i] != GroupKeys(sorted)[j] {
      assert sorted[i] in sorted && sorted[j] in sorted;
    }
  }

  /** The elements of `Distinct().Order()` are those of the input. */
  lemma SortDistinctMembers(ts: seq<Text>, leq: (Text, Text) -> bool)
    ensures forall t :: t in Sort(Distinct(ts), leq) <==> t in ts
  {
    var d := Distinct(ts);
    var r := Sort(d, leq);
    assert forall t :: t in r <==> t in multiset(r);
    assert forall t :: t in d <==> t in multiset(d);
  }

  /** A permutation of a sequence without duplicates has none either. */
  lemma PermutationNoDuplicates<T>(a: seq<T>, b: seq<T>)
    requires NoDuplicates(a) && multiset(a) == multiset(b)
    ensures NoDuplicates(b)
  {
    forall i, j | 0 <= i < j < |b| ensures b[i] != b[j] {
      if b[i] == b[j] {
        assert multiset(b)[b[i]] >= 2 by {
          assert b == b[..i] + [b[i]] + b[i + 1..j] + [b[j]] + b[j + 1..];
        }
        MultiplicityOfDistinct(a, b[i]);
        assert false;
      }
    }
  }

  /** `Distinct().Order()`: every element once, sorted. */
  lemma DistinctSorted(ts: seq<Text>, leq: (Text, Text) -> bool)
    requires TotalPreorder(leq)
    ensures SortedBy(Sort(Distinct(ts), leq), Identity, leq)
    ensures NoDuplicates(Sort(Distinct(ts), leq))
    ensures forall t :: t in Sort(Distinct(ts), leq) <==> t in ts
  {
    var d := Distinct(ts);
    var r := Sort(d, leq);
    SortBySorted(d, Identity, leq);
    PermutationNoDuplicates(d, r);
    forall t ensures t in r <==> t in ts {
      assert t in r <==> t in multiset(r);
      assert t in d <==> t in multiset(d);
    }
  }

  lemma {:induction false} MultiplicityOfDistinct<T>(xs: seq<T>, x: T)
    requires NoDuplicates(xs)
    ensures multiset(xs)[x] <= 1
  {
    if xs != [] {
      assert xs == [xs[0]] + xs[1..];
      assert NoDuplicates(xs[1..]) by {
        forall i, j | 0 <= i < j < |xs[1..]| ensures xs[1..][i] != xs[1..][j] {
          assert xs[1..][i] == xs[i + 1] && xs[1..][j] == xs[j + 1];
        }
      }
      MultiplicityOfDistinct(xs[1..], x);
      if xs[0] == x {
        assert x !in xs[1..] by {
          forall j | 0 <= j < |xs[1..]| ensures xs[1..][j] != x {
            assert xs[1..][j] == xs[j + 1];
          }
        }
      }
    }
  }
}
