/** The extension helpers: `Partition`, `NotNull`, the `char.Range` enumerator and the
    `VS<digits>:` error-code prefix of an Azure DevOps exception message. */
module Extensions {
  import opened Wrappers
  import opened Utf16
  import opened Numerals
  import opened Linq

  // ---- Partition ----

  /** The predicate of `Partition` is a C# delegate that may change state as it runs (the
      report passes one that removes entries from a dictionary), so it is modelled as a
      function from the state it sees and the element to the next state and its answer. */
  datatype Partitioned<T, S> = Partitioned(matched: seq<T>, unmatched: seq<T>, state: S)

  /** `Partition`: one pass over the source, asking the predicate once per element in
      order and adding the element to `matched` or `unmatched`. */
  function Partition<T, S>(xs: seq<T>, s: S, pred: (S, T) -> (S, bool)): (r: Partitioned<T, S>)
    ensures |r.matched| + |r.unmatched| == |xs|
    decreases |xs|
  {
    if xs == [] then Partitioned([], [], s)
    else
      var last := xs[|xs| - 1];
      var p := Partition(xs[..|xs| - 1], s, pred);
      var (s', isMatch) := pred(p.state, last);
      if isMatch then Partitioned(p.matched + [last], p.unmatched, s')
      else Partitioned(p.matched, p.unmatched + [last], s')
  }

  /** The states the predicate is called in, one per element, in source order: `Answers`
      are its answers and `States(xs, s, pred)[i]` is the state it sees for `xs[i]`. */
  function States<T, S>(xs: seq<T>, s: S, pred: (S, T) -> (S, bool)): (ss: seq<S>)
    ensures |ss| == |xs|
    decreases |xs|
  {
    if xs == [] then []
    else States(xs[..|xs| - 1], s, pred) + [Partition(xs[..|xs| - 1], s, pred).state]
  }

  function Answers<T, S>(xs: seq<T>, s: S, pred: (S, T) -> (S, bool)): (bs: seq<bool>)
    ensures |bs| == |xs|
    ensures forall i :: 0 <= i < |xs| ==> bs[i] == pred(States(xs, s, pred)[i], xs[i]).1
  {
    var ss := States(xs, s, pred);
    seq(|xs|, i requires 0 <= i < |xs| => pred(ss[i], xs[i]).1)
  }

  /** The elements whose answer is `b`, in order. */
  function Select<T>(xs: seq<T>, bs: seq<bool>, b: bool): (r: seq<T>)
    requires |bs| == |xs|
    decreases |xs|
  {
    if xs == [] then []
    else Select(xs[..|xs| - 1], bs[..|bs| - 1], b) + (if bs[|bs| - 1] == b then [xs[|xs| - 1]] else [])
  }

  lemma StatesPrefix<T, S>(xs: seq<T>, s: S, pred: (S, T) -> (S, bool))
    requires xs != []
    ensures States(xs, s, pred)[..|xs| - 1] == States(xs[..|xs| - 1], s, pred)
    ensures Answers(xs, s, pred)[..|xs| - 1] == Answers(xs[..|xs| - 1], s, pred)
  {
    var init := xs[..|xs| - 1];
    assert States(xs, s, pred) == States(init, s, pred) + [Partition(init, s, pred).state];
    AnswersPrefix(xs, s, pred);
  }

  lemma AnswersPrefix<T, S>(xs: seq<T>, s: S, pred: (S, T) -> (S, bool))
    requires xs != []
    requires States(xs, s, pred)[..|xs| - 1] == States(xs[..|xs| - 1], s, pred)
    ensures Answers(xs, s, pred)[..|xs| - 1] == Answers(xs[..|xs| - 1], s, pred)
  {
    var init := xs[..|xs| - 1];
    SameAnswers(xs, init, States(xs, s, pred), States(init, s, pred), Answers(xs, s, pred), Answers(init, s, pred), pred);
  }

  /** Answers computed from states that agree on a prefix agree on it. */
  lemma SameAnswers<T, S>(xs: seq<T>, init: seq<T>, sa: seq<S>, sb: seq<S>, a: seq<bool>, b: seq<bool>, pred: (S, T) -> (S, bool))
    requires xs != [] && init == xs[..|xs| - 1]
    requires |sa| == |a| == |xs| && |sb| == |b| == |init| && sa[..|xs| - 1] == sb
    requires forall i :: 0 <= i < |xs| ==> a[i] == pred(sa[i], xs[i]).1
    requires forall i :: 0 <= i < |init| ==> b[i] == pred(sb[i], init[i]).1
    ensures a[..|xs| - 1] == b
  {
    forall i | 0 <= i < |init| ensures a[i] == b[i] {
      assert sa[i] == sb[i];
    }
  }

  /** `matched` holds the elements the predicate accepted and `unmatched` the others, each
      in source order; the predicate is threaded through the elements one at a time. */
  lemma {:induction false} PartitionSelects<T, S>(xs: seq<T>, s: S, pred: (S, T) -> (S, bool))
    ensures Partition(xs, s, pred).matched == Select(xs, Answers(xs, s, pred), true)
    ensures Partition(xs, s, pred).unmatched == Select(xs, Answers(xs, s, pred), false)
    decreases |xs|
  {
    if xs != [] {
      var init := xs[..|xs| - 1];
      PartitionSelects(init, s, pred);
      StatesPrefix(xs, s, pred);
      var bs := Answers(xs, s, pred);
      assert bs[|xs| - 1] == pred(Partition(init, s, pred).state, xs[|xs| - 1]).1;
    }
  }

  /** Every element lands in exactly one of the two lists: together they are a
      permutation of the source. */
  lemma {:induction false} PartitionPermutes<T, S>(xs: seq<T>, s: S, pred: (S, T) -> (S, bool))
    ensures multiset(Partition(xs, s, pred).matched) + multiset(Partition(xs, s, pred).unmatched) == multiset(xs)
    decreases |xs|
  {
    if xs != [] {
      var init := xs[..|xs| - 1];
      PartitionPermutes(init, s, pred);
      assert xs == init + [xs[|xs| - 1]];
    }
  }

  // ---- NotNull ----

  /** `NotNull`: the non-null elements, in order. */
  function NotNull<T(!new)>(xs: seq<Option<T>>): (r: seq<T>)
    ensures |r| <= |xs|
    ensures forall x :: x in r <==> Some(x) in xs
  {
    if xs == [] then []
    else
      assert xs == [xs[0]] + xs[1..];
      (if xs[0].Some? then [xs[0].value] else []) + NotNull(xs[1..])
  }

  function Present<T>(x: T): Option<T> {
    Some(x)
  }

  predicate IsPresent<T>(o: Option<T>) {
    o.Some?
  }

  lemma {:induction false} NotNullAppend<T(!new)>(a: seq<Option<T>>, b: seq<Option<T>>)
    ensures NotNull(a + b) == NotNull(a) + NotNull(b)
  {
    if a == [] {
      assert a + b == b;
    } else {
      assert (a + b)[0] == a[0];
      assert (a + b)[1..] == a[1..] + b;
      NotNullAppend(a[1..], b);
    }
  }

  /** `NotNull` keeps exactly the present values, in order and as often as they occur:
      wrapping them again gives the `Some` elements of the source. Hence it keeps every
      element when none is null and none when all are. */
  lemma {:induction false} NotNullKeeps<T(!new)>(xs: seq<Option<T>>)
    ensures Map(NotNull(xs), Present) == Filter(xs, IsPresent)
    ensures (forall i :: 0 <= i < |xs| ==> xs[i].Some?) ==> |NotNull(xs)| == |xs|
    ensures (forall i :: 0 <= i < |xs| ==> xs[i].None?) ==> NotNull(xs) == []
  {
    NotNullPresent(xs);
    if forall i :: 0 <= i < |xs| ==> xs[i].Some? {
      NotNullAllPresent(xs);
    }
    if forall i :: 0 <= i < |xs| ==> xs[i].None? {
      NotNullAllAbsent(xs);
    }
  }

  lemma {:induction false} NotNullPresent<T(!new)>(xs: seq<Option<T>>)
    ensures Map(NotNull(xs), Present) == Filter(xs, IsPresent)
  {
    if xs != [] {
      NotNullPresent(xs[1..]);
      assert xs == [xs[0]] + xs[1..];
      var head: seq<T> := if xs[0].Some? then [xs[0].value] else [];
      MapAppend(head, NotNull(xs[1..]), Present);
    }
  }

  lemma {:induction false} NotNullAllPresent<T(!new)>(xs: seq<Option<T>>)
    requires forall i :: 0 <= i < |xs| ==> xs[i].Some?
    ensures |NotNull(xs)| == |xs|
  {
    if xs != [] {
      assert forall i :: 0 <= i < |xs[1..]| ==> xs[1..][i] == xs[i + 1];
      NotNullAllPresent(xs[1..]);
    }
  }

  lemma {:induction false} NotNullAllAbsent<T(!new)>(xs: seq<Option<T>>)
    requires forall i :: 0 <= i < |xs| ==> xs[i].None?
    ensures NotNull(xs) == []
  {
    if xs != [] {
      assert forall i :: 0 <= i < |xs[1..]| ==> xs[1..][i] == xs[i + 1];
      NotNullAllAbsent(xs[1..]);
    }
  }

  // ---- char.Range ----

  /** The enumerator's state: `current` is null before the first `MoveNext`. */
  datatype CharRangeEnumerator = CharRangeEnumerator(start: CodeUnit, end: CodeUnit, current: Option<CodeUnit>)

  /** The `ArgumentException` of the constructor. */
  datatype RangeError = EndBeforeStart

  /** The enumerator states `MoveNext` can reach. */
  predicate ValidEnumerator(e: CharRangeEnumerator) {
    e.start <= e.end && (e.current.Some? ==> e.start <= e.current.value <= e.end)
  }

  function NewCharRange(start: CodeUnit, end: CodeUnit): (r: Result<CharRangeEnumerator, RangeError>)
    ensures r.Err? <==> end < start
    ensures r.Ok? ==> ValidEnumerator(r.value) && r.value.current.None?
  {
    if end < start then Err(EndBeforeStart) else Ok(CharRangeEnumerator(start, end, None))
  }

  /** `MoveNext`: the new state and whether there is a current character. */
  function MoveNext(e: CharRangeEnumerator): (r: (CharRangeEnumerator, bool))
    requires ValidEnumerator(e)
    ensures ValidEnumerator(r.0)
    ensures r.1 <==> e.current != Some(e.end)
    ensures r.1 ==> r.0.current == Some(if e.current.None? then e.start else e.current.value + 1)
  {
    if e.current.None? then (e.(current := Some(e.start)), true)
    else if e.current.value == e.end then (e, false)
    else (e.(current := Some(e.current.value + 1)), true)
  }

  /** `Current`: throws (`InvalidOperationException` of `Nullable.Value`) before the first
      `MoveNext`. */
  function Current(e: CharRangeEnumerator): (r: Option<CodeUnit>)
    ensures r == e.current
  {
    e.current
  }

  function Reset(e: CharRangeEnumerator): (r: CharRangeEnumerator)
    ensures r.start == e.start && r.end == e.end && r.current.None?
  {
    e.(current := None)
  }

  /** How many more times `MoveNext` returns true. */
  function Remaining(e: CharRangeEnumerator): nat
    requires ValidEnumerator(e)
  {
    if e.current.None? then e.end - e.start + 1 else e.end - e.current.value
  }

  /** The characters a `foreach` loop sees: `MoveNext` then `Current`, until `MoveNext`
      returns false. */
  function Drain(e: CharRangeEnumerator): (cs: seq<CodeUnit>)
    requires ValidEnumerator(e)
    decreases Remaining(e)
  {
    var (e', more) := MoveNext(e);
    if !more then [] else [e'.current.value] + Drain(e')
  }

  /** From any state the loop sees the characters after the current one, in order. */
  lemma {:induction false} DrainFrom(e: CharRangeEnumerator)
    requires ValidEnumerator(e)
    ensures |Drain(e)| == Remaining(e)
    ensures forall i :: 0 <= i < |Drain(e)| ==>
              Drain(e)[i] == (if e.current.None? then e.start else e.current.value + 1) + i
    decreases Remaining(e)
  {
    var (e', more) := MoveNext(e);
    if more {
      DrainFrom(e');
      var first := if e.current.None? then e.start else e.current.value + 1;
      assert e'.current == Some(first);
      forall i | 0 <= i < |Drain(e)| ensures Drain(e)[i] == first + i {
        if i > 0 {
          assert Drain(e)[i] == Drain(e')[i - 1];
        }
      }
    }
  }

  /** A new enumerator yields `start..end` inclusive, ascending, each once; `Reset`
      starts the same walk again. */
  lemma CharRangeYields(start: CodeUnit, end: CodeUnit)
    requires start <= end
    ensures var e := NewCharRange(start, end).value;
            && |Drain(e)| == end - start + 1
            && (forall i :: 0 <= i < |Drain(e)| ==> Drain(e)[i] == start + i)
            && Drain(Reset(e)) == Drain(e)
  {
    var e := NewCharRange(start, end).value;
    DrainFrom(e);
    assert Reset(e) == e;
  }

  /** After the last character `MoveNext` keeps returning false and changes nothing. */
  lemma MoveNextAfterEnd(e: CharRangeEnumerator)
    requires ValidEnumerator(e) && e.current == Some(e.end)
    ensures MoveNext(e) == (e, false)
  {
  }

  // ---- GetVssErrorCode ----

  /** `^VS(?<code>\d+):` with `RegexOptions.IgnoreCase`, then `int.TryParse` of the code.
      A digit run containing a non-ASCII decimal digit matches the expression but fails
      `int.TryParse`, so stopping the run at the first non-ASCII-digit gives the same
      answer. */
  function VssErrorCode(message: string): (r: Option<int>)
    ensures r.Some? ==> 0 <= r.value <= Int32Max
  {
    if |message| >= 2 && message[0] in "Vv" && message[1] in "Ss" then
      var n := DigitRun(message[2..]);
      if n >= 1 && 2 + n < |message| && message[2 + n] == ':' then TryParseDigits(message[2..2 + n])
      else None
    else None
  }

  /** The length of the leading run of ASCII digits. */
  function DigitRun(s: string): (n: nat)
    ensures n <= |s|
    ensures forall i :: 0 <= i < n ==> '0' <= s[i] <= '9'
    ensures n < |s| ==> !('0' <= s[n] <= '9')
  {
    if s == [] || !('0' <= s[0] <= '9') then 0 else 1 + DigitRun(s[1..])
  }

  /** A message has a code exactly when it is `VS` (either case), a non-empty run of digits
      whose value fits an `int`, a colon, and anything after; the code is the run's value. */
  lemma VssErrorCodeShape(prefix: string, digits: string, rest: string)
    requires |prefix| == 2 && prefix[0] in "Vv" && prefix[1] in "Ss"
    requires |digits| >= 1 && forall i :: 0 <= i < |digits| ==> '0' <= digits[i] <= '9'
    ensures VssErrorCode(prefix + digits + ":" + rest) ==
              (if DigitsValue(digits) <= Int32Max then Some(DigitsValue(digits)) else None)
  {
    VssMessageParts(prefix, digits, rest);
  }

  lemma VssMessageParts(prefix: string, digits: string, rest: string)
    requires |prefix| == 2 && prefix[0] in "Vv" && prefix[1] in "Ss"
    requires forall i :: 0 <= i < |digits| ==> '0' <= digits[i] <= '9'
    ensures var m := prefix + digits + ":" + rest;
            && |m| >= 2 && m[0] in "Vv" && m[1] in "Ss"
            && DigitRun(m[2..]) == |digits|
            && 2 + |digits| < |m| && m[2 + |digits|] == ':'
            && m[2..2 + |digits|] == digits
  {
    var m := prefix + digits + ":" + rest;
    assert m[0] == prefix[0] && m[1] == prefix[1];
    assert m[2..] == digits + ":" + rest;
    DigitRunOf(digits, ":" + rest);
    assert m[2..2 + |digits|] == digits;
    assert m[2 + |digits|] == ':';
  }

  lemma {:induction false} DigitRunOf(digits: string, rest: string)
    requires forall i :: 0 <= i < |digits| ==> '0' <= digits[i] <= '9'
    requires rest == [] || !('0' <= rest[0] <= '9')
    ensures DigitRun(digits + rest) == |digits|
  {
    if digits != [] {
      assert (digits + rest)[1..] == digits[1..] + rest;
      DigitRunOf(digits[1..], rest);
    } else {
      assert digits + rest == rest;
    }
  }

  /** Every message with a code has that shape: the code is the value of the digit run
      after `VS`, and a colon follows the run. */
  lemma VssErrorCodeSome(message: string)
    requires VssErrorCode(message).Some?
    ensures message[0] in "Vv" && message[1] in "Ss"
    ensures var n := DigitRun(message[2..]);
            && 1 <= n && 2 + n < |message| && message[2 + n] == ':'
            && (forall i :: 0 <= i < n ==> '0' <= message[2..][i] <= '9')
            && VssErrorCode(message) == Some(DigitsValue(message[2..2 + n]))
  {
  }
}
