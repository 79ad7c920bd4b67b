/** The .NET string operations the small helpers use, on Dafny strings: ordinal searches,
    character replacement and removal, and `TrimStart` with `char.IsWhiteSpace`. */
module StringOps {
  import opened Wrappers

  /** `char.IsWhiteSpace`: the Unicode space, line and paragraph separators, the C0
      controls tab through carriage return, next line and no-break space. */
  predicate IsWhiteSpace(c: char) {
    var n := c as int;
    || 0x09 <= n <= 0x0D || n == 0x20 || n == 0x85 || n == 0xA0 || n == 0x1680
    || 0x2000 <= n <= 0x200A || n == 0x2028 || n == 0x2029 || n == 0x202F || n == 0x205F
    || n == 0x3000
  }

  /** `string.IsNullOrWhiteSpace`. */
  predicate IsNullOrWhiteSpace(s: Option<string>) {
    s.None? || forall i :: 0 <= i < |s.value| ==> IsWhiteSpace(s.value[i])
  }

  /** `Replace(from, to)` on single characters. */
  function ReplaceChar(s: string, from: char, to: char): (r: string)
    ensures |r| == |s|
    ensures forall i :: 0 <= i < |s| ==> r[i] == if s[i] == from then to else s[i]
  {
    if s == [] then [] else [if s[0] == from then to else s[0]] + ReplaceChar(s[1..], from, to)
  }

  /** After replacement the replaced character is gone (unless it is its own
      replacement), and replacing again changes nothing. */
  lemma ReplaceCharGone(s: string, from: char, to: char)
    requires from != to
    ensures from !in ReplaceChar(s, from, to)
    ensures ReplaceChar(ReplaceChar(s, from, to), from, to) == ReplaceChar(s, from, to)
  {
    var r := ReplaceChar(s, from, to);
    assert forall i :: 0 <= i < |r| ==> r[i] != from;
  }

  /** `Replace(c.ToString(), "")`: every occurrence of `c` removed. */
  function RemoveChar(s: string, c: char): (r: string)
    ensures c !in r
    ensures |r| <= |s|
  {
    if s == [] then [] else (if s[0] == c then [] else [s[0]]) + RemoveChar(s[1..], c)
  }

  /** Every other character survives the removal. */
  lemma {:induction false} RemoveCharKeeps(s: string, c: char, d: char)
    requires d != c
    ensures d in RemoveChar(s, c) <==> d in s
    decreases |s|
  {
    if s != [] {
      RemoveCharKeeps(s[1..], c, d);
      assert s == [s[0]] + s[1..];
    }
  }

  lemma {:induction false} RemoveCharAppend(a: string, b: string, c: char)
    ensures RemoveChar(a + b, c) == RemoveChar(a, c) + RemoveChar(b, c)
    decreases |a|
  {
    if a == [] {
      assert a + b == b;
    } else {
      assert (a + b)[0] == a[0];
      assert (a + b)[1..] == a[1..] + b;
      RemoveCharAppend(a[1..], b, c);
    }
  }

  /** Removing a character that does not occur changes nothing. */
  lemma {:induction false} RemoveCharAbsent(s: string, c: char)
    requires c !in s
    ensures RemoveChar(s, c) == s
    decreases |s|
  {
    if s != [] {
      assert c !in s[1..];
      RemoveCharAbsent(s[1..], c);
    }
  }

  /** `IndexOf(c)` (ordinal), `None` for -1. */
  function IndexOf(s: string, c: char): (r: Option<nat>)
    ensures r.None? <==> c !in s
    ensures r.Some? ==> r.value < |s| && s[r.value] == c && c !in s[..r.value]
  {
    if s == [] then None
    else if s[0] == c then Some(0)
    else match IndexOf(s[1..], c)
      case None => None
      case Some(i) =>
        assert s[..i + 1] == [s[0]] + s[1..][..i];
        Some(i + 1)
  }

  /** The first occurrence, from its position. */
  lemma IndexOfAt(s: string, c: char, i: nat)
    requires i < |s| && s[i] == c && c !in s[..i]
    ensures IndexOf(s, c) == Some(i)
  {
    assert c in s;
  }

  /** `LastIndexOf(c, startIndex)` (ordinal): the last occurrence at or before
      `startIndex`, `None` for -1. */
  function LastIndexOfFrom(s: string, c: char, startIndex: nat): (r: Option<nat>)
    requires startIndex < |s|
    ensures r.None? <==> c !in s[..startIndex + 1]
    ensures r.Some? ==> r.value <= startIndex && s[r.value] == c && c !in s[r.value + 1..startIndex + 1]
    decreases startIndex
  {
    if s[startIndex] == c then Some(startIndex)
    else if startIndex == 0 then None
    else
      var r := LastIndexOfFrom(s, c, startIndex - 1);
      assert s[..startIndex + 1] == s[..startIndex] + [s[startIndex]];
      if r.Some? then
        assert s[r.value + 1..startIndex + 1] == s[r.value + 1..startIndex] + [s[startIndex]];
        r
      else r
  }

  /** The two characters `a`, `b` start at position `j` of `s`. */
  predicate PairAt(s: string, j: int, a: char, b: char) {
    0 <= j && j + 2 <= |s| && s[j] == a && s[j + 1] == b
  }

  /** `IndexOf(t)` (ordinal) for the two-character string `t` = `a` `b`: the first
      position where it starts. */
  function IndexOfPair(s: string, a: char, b: char): (r: Option<nat>)
    ensures r.Some? ==> PairAt(s, r.value, a, b)
    ensures r.Some? ==> forall j :: 0 <= j < r.value ==> !PairAt(s, j, a, b)
    ensures r.None? <==> forall j :: !PairAt(s, j, a, b)
  {
    if |s| < 2 then None
    else if s[0] == a && s[1] == b then
      assert PairAt(s, 0, a, b);
      Some(0)
    else
      var r := IndexOfPair(s[1..], a, b);
      assert forall j :: PairAt(s[1..], j, a, b) <==> PairAt(s, j + 1, a, b);
      assert !PairAt(s, 0, a, b);
      if r.None? then
        assert forall j :: !PairAt(s, j, a, b) by {
          forall j ensures !PairAt(s, j, a, b) {
            if j >= 1 {
              assert !PairAt(s[1..], j - 1, a, b);
            }
          }
        }
        None
      else
        assert forall j :: 0 <= j < r.value + 1 ==> !PairAt(s, j, a, b) by {
          forall j | 0 <= j < r.value + 1 ensures !PairAt(s, j, a, b) {
            if j >= 1 {
              assert !PairAt(s[1..], j - 1, a, b);
            }
          }
        }
        Some(r.value + 1)
  }

  /** The first position of a pair, from its position. */
  lemma IndexOfPairAt(s: string, a: char, b: char, i: nat)
    requires PairAt(s, i, a, b)
    requires forall j :: 0 <= j < i ==> !PairAt(s, j, a, b)
    ensures IndexOfPair(s, a, b) == Some(i)
  {
    assert IndexOfPair(s, a, b).Some?;
  }

  /** `TrimStart()`: the suffix after the leading white space. */
  function TrimStart(s: string): (r: string)
    ensures |r| <= |s| && r == s[|s| - |r|..]
    ensures forall i :: 0 <= i < |s| - |r| ==> IsWhiteSpace(s[i])
    ensures r != [] ==> !IsWhiteSpace(r[0])
  {
    if s != [] && IsWhiteSpace(s[0]) then TrimStart(s[1..]) else s
  }

  /** Trimming a white-space prefix off text that starts with something else gives that
      text back. */
  lemma {:induction false} TrimStartPrefix(pad: string, s: string)
    requires forall i :: 0 <= i < |pad| ==> IsWhiteSpace(pad[i])
    requires s == [] || !IsWhiteSpace(s[0])
    ensures TrimStart(pad + s) == s
    decreases |pad|
  {
    if pad == [] {
      assert pad + s == s;
    } else {
      assert (pad + s)[1..] == pad[1..] + s;
      TrimStartPrefix(pad[1..], s);
    }
  }
}
