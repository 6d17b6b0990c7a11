// Byte strings, the two separators of the protocol (CRLF and single bytes),
// and the two splitting iterators every body decoder is built on.
module Bytes {
  import opened Wrappers

  newtype byte = b: int | 0 <= b < 256
  type bytes = seq<byte>

  const CR: byte := 0x0D
  const LF: byte := 0x0A
  const CRLF: bytes := [CR, LF]
  const SPACE: byte := 0x20
  const COLON: byte := 0x3A

  // ---------------------------------------------------------------- CRLF

  predicate CrlfAt(s: bytes, i: int) {
    0 <= i < |s| - 1 && s[i] == CR && s[i + 1] == LF
  }

  predicate CrlfFree(s: bytes) {
    forall i :: 0 <= i < |s| - 1 ==> !CrlfAt(s, i)
  }

  // Position of the first CRLF at or after `from`, or |s| when there is none.
  function FindCrlf(s: bytes, from: nat): (k: nat)
    requires from <= |s|
    ensures from <= k <= |s|
    ensures forall i :: from <= i < k ==> !CrlfAt(s, i)
    ensures k < |s| ==> CrlfAt(s, k)
    decreases |s| - from
  {
    if from == |s| then |s|
    else if CrlfAt(s, from) then from
    else FindCrlf(s, from + 1)
  }

  lemma FirstCrlfIsUnique(s: bytes, from: nat, k: nat)
    requires from <= k && CrlfAt(s, k)
    requires forall i :: from <= i < k ==> !CrlfAt(s, i)
    ensures from <= |s| && FindCrlf(s, from) == k
    decreases k - from
  {
    if from < k {
      assert !CrlfAt(s, from);
      FirstCrlfIsUnique(s, from + 1, k);
    }
  }

  // What one step of the CRLF splitter yields from offset `acc`: the slice up
  // to the next CRLF, and the offset just behind that CRLF.
  function NextSlice(s: bytes, acc: nat): (r: Option<(bytes, nat)>)
    requires acc <= |s|
    ensures r.Some? ==> acc + |r.value.0| + 2 == r.value.1 <= |s|
    ensures r.Some? ==> CrlfFree(r.value.0)
    ensures r.Some? ==> s[acc..r.value.1] == r.value.0 + CRLF
    ensures r.None? <==> CrlfFree(s[acc..])
  {
    var k := FindCrlf(s, acc);
    if k == |s| then
      assert CrlfFree(s[acc..]) by {
        forall i | 0 <= i < |s[acc..]| - 1
          ensures !CrlfAt(s[acc..], i)
        {
          assert !CrlfAt(s, acc + i);
        }
      }
      None
    else
      assert CrlfFree(s[acc..k]) by {
        forall i | 0 <= i < |s[acc..k]| - 1
          ensures !CrlfAt(s[acc..k], i)
        {
          assert !CrlfAt(s, acc + i);
        }
      }
      assert CrlfAt(s[acc..], k - acc);
      Some((s[acc..k], k + 2))
  }

  // A CRLF-free slice followed by CRLF is found again, whatever follows.
  lemma NextSliceOfTerminated(before: bytes, slice: bytes, after: bytes)
    requires CrlfFree(slice)
    ensures NextSlice(before + slice + CRLF + after, |before|) == Some((slice, |before| + |slice| + 2))
  {
    var s := before + slice + CRLF + after;
    var k := |before| + |slice|;
    assert s[k] == CR && s[k + 1] == LF;
    forall i | |before| <= i < k
      ensures !CrlfAt(s, i)
    {
      if i + 1 < k {
        assert !CrlfAt(slice, i - |before|);
        assert s[i] == slice[i - |before|] && s[i + 1] == slice[i + 1 - |before|];
      }
    }
    FirstCrlfIsUnique(s, |before|, k);
    assert s[|before|..k] == slice;
  }

  // Bytes that arrive later never change a slice that was already found.
  lemma NextSliceIsStable(s: bytes, more: bytes, acc: nat)
    requires acc <= |s| && NextSlice(s, acc).Some?
    ensures NextSlice(s + more, acc) == NextSlice(s, acc)
  {
    var (slice, end) := NextSlice(s, acc).value;
    assert s + more == s[..acc] + slice + CRLF + (s[end..] + more) by {
      assert s == s[..acc] + s[acc..end] + s[end..];
    }
    NextSliceOfTerminated(s[..acc], slice, s[end..] + more);
  }

  lemma CrlfFreeAcross(a: bytes, d: byte, b: bytes)
    requires CrlfFree(a) && CrlfFree(b) && d != CR && d != LF
    ensures CrlfFree(a + [d] + b)
  {
    var s := a + [d] + b;
    forall i | 0 <= i < |s| - 1
      ensures !CrlfAt(s, i)
    {
      if i + 1 < |a| {
        assert !CrlfAt(a, i);
      } else if i > |a| {
        assert !CrlfAt(b, i - |a| - 1);
        assert s[i] == b[i - |a| - 1] && s[i + 1] == b[i - |a|];
      }
    }
  }

  // A text without CR stays CRLF-free in front of any CRLF-free text.
  lemma CrlfFreeAfterNoCr(a: bytes, b: bytes)
    requires CR !in a && CrlfFree(b)
    ensures CrlfFree(a + b)
  {
    forall i | 0 <= i < |a + b| - 1
      ensures !CrlfAt(a + b, i)
    {
      if i < |a| {
        assert a[i] in a;
      } else {
        assert !CrlfAt(b, i - |a|);
      }
    }
  }

  lemma CrlfFreePrefix(s: bytes, k: nat)
    requires CrlfFree(s) && k <= |s|
    ensures CrlfFree(s[..k])
  {
    forall i | 0 <= i < k - 1
      ensures !CrlfAt(s[..k], i)
    {
      assert !CrlfAt(s, i);
    }
  }

  // Cutting a CRLF-free line's terminator in half leaves no CRLF.
  lemma CrlfFreeHalfTerminated(s: bytes)
    requires CrlfFree(s)
    ensures CrlfFree(s + [CR])
  {
    forall i | 0 <= i < |s + [CR]| - 1
      ensures !CrlfAt(s + [CR], i)
    {
      if i + 1 < |s| {
        assert !CrlfAt(s, i);
      }
    }
  }

  // ------------------------------------------- the CRLF splitter, as a whole

  // Every slice the splitter yields from offset `acc` on.
  function Slices(s: bytes, acc: nat): (slices: seq<bytes>)
    requires acc <= |s|
    decreases |s| - acc
  {
    match NextSlice(s, acc)
    case None => []
    case Some((slice, end)) => [slice] + Slices(s, end)
  }

  function Terminated(slices: seq<bytes>): bytes {
    if slices == [] then [] else slices[0] + CRLF + Terminated(slices[1..])
  }

  lemma TerminatedAppend(a: seq<bytes>, b: seq<bytes>)
    ensures Terminated(a + b) == Terminated(a) + Terminated(b)
  {
    if a == [] {
      assert a + b == b;
    } else {
      assert (a + b)[1..] == a[1..] + b;
      TerminatedAppend(a[1..], b);
    }
  }

  // Splitting undoes joining: CRLF-free slices, each terminated, in front of a
  // CRLF-free rest are exactly what the splitter yields.
  lemma {:induction false} SlicesOfTerminated(before: bytes, slices: seq<bytes>, rest: bytes)
    requires forall l :: l in slices ==> CrlfFree(l)
    requires CrlfFree(rest)
    ensures Slices(before + Terminated(slices) + rest, |before|) == slices
    decreases |slices|
  {
    hide NextSlice, CrlfFree;
    var s := before + Terminated(slices) + rest;
    if slices == [] {
      assert s[|before|..] == rest;
    } else {
      var tail := Terminated(slices[1..]) + rest;
      assert s == before + slices[0] + CRLF + tail;
      NextSliceOfTerminated(before, slices[0], tail);
      var before' := before + slices[0] + CRLF;
      SlicesOfTerminated(before', slices[1..], rest);
      assert s == before' + Terminated(slices[1..]) + rest;
    }
  }

  // ... and joining undoes splitting: the yielded slices are CRLF-free, their
  // terminated concatenation is a prefix of the input, and the rest has no CRLF.
  lemma {:induction false} TerminatedSlices(s: bytes, acc: nat) returns (rest: bytes)
    requires acc <= |s|
    ensures s[acc..] == Terminated(Slices(s, acc)) + rest
    ensures CrlfFree(rest)
    decreases |s| - acc
  {
    hide NextSlice, CrlfFree, Terminated;
    if NextSlice(s, acc).None? {
      rest := s[acc..];
      NoneTerminated();
    } else {
      var (slice, end) := NextSlice(s, acc).value;
      rest := TerminatedSlices(s, end);
      TerminatedPrepend(slice, Slices(s, end));
      SplitAt(s, acc, end);
      Reassociate(slice + CRLF, Terminated(Slices(s, end)), rest);
    }
  }

  lemma NoneTerminated()
    ensures Terminated([]) == []
  {
  }

  lemma Reassociate(a: bytes, b: bytes, c: bytes)
    ensures a + (b + c) == a + b + c
  {
  }

  lemma SplitAt(s: bytes, i: nat, j: nat)
    requires i <= j <= |s|
    ensures s[i..] == s[i..j] + s[j..]
  {
  }

  lemma TerminatedPrepend(slice: bytes, slices: seq<bytes>)
    ensures Terminated([slice] + slices) == slice + CRLF + Terminated(slices)
  {
    assert ([slice] + slices)[1..] == slices;
  }

  lemma {:induction false} SlicesAreCrlfFree(s: bytes, acc: nat)
    requires acc <= |s|
    ensures forall l :: l in Slices(s, acc) ==> CrlfFree(l)
    decreases |s| - acc
  {
    if NextSlice(s, acc).Some? {
      SlicesAreCrlfFree(s, NextSlice(s, acc).value.1);
    }
  }

  // The search the iterator runs at each step.
  method MemmemCrlf(haystack: bytes, from: nat) returns (curr: nat)
    requires from <= |haystack|
    ensures curr == FindCrlf(haystack, from)
  {
    curr := from;
    while curr < |haystack| && !CrlfAt(haystack, curr)
      invariant from <= curr <= |haystack|
      invariant forall i :: from <= i < curr ==> !CrlfAt(haystack, i)
    {
      curr := curr + 1;
    }
    if curr < |haystack| {
      FirstCrlfIsUnique(haystack, from, curr);
    }
  }

  // The iterator itself: a running offset over an immutable buffer.
  class SliceSpliterator {
    const buffer: bytes
    var acc: nat

    ghost predicate Valid()
      reads this
    {
      acc <= |buffer|
    }

    constructor (buffer: bytes)
      ensures Valid() && acc == 0 && this.buffer == buffer
    {
      this.buffer := buffer;
      acc := 0;
    }

    method Next() returns (item: Option<(bytes, nat)>)
      requires Valid()
      modifies this
      ensures Valid()
      ensures item == NextSlice(buffer, old(acc))
      ensures acc == if item.Some? then item.value.1 else old(acc)
    {
      var curr := MemmemCrlf(buffer, acc);
      if curr < |buffer| {
        var slice := buffer[acc..curr];
        acc := curr + |CRLF|;
        item := Some((slice, acc));
      } else {
        item := None;
      }
    }
  }

  // ------------------------------------------------------ single separators

  function IndexOf(s: bytes, d: byte, from: nat): (k: nat)
    requires from <= |s|
    ensures from <= k <= |s|
    ensures d !in s[from..k]
    ensures k < |s| ==> s[k] == d
    decreases |s| - from
  {
    if from == |s| || s[from] == d then from
    else
      var k := IndexOf(s, d, from + 1);
      assert s[from..k] == [s[from]] + s[from + 1..k];
      k
  }

  lemma FirstIndexIsUnique(s: bytes, d: byte, from: nat, k: nat)
    requires from <= k <= |s| && d !in s[from..k]
    requires k < |s| ==> s[k] == d
    ensures IndexOf(s, d, from) == k
    decreases k - from
  {
    if from < k {
      assert s[from..k] == [s[from]] + s[from + 1..k];
      FirstIndexIsUnique(s, d, from + 1, k);
    }
  }

  // The slices before each separator, followed by the rest behind the last.
  function Split(s: bytes, d: byte): (parts: seq<bytes>)
    ensures |parts| >= 1
    ensures forall p :: p in parts ==> d !in p
    ensures forall p :: p in parts ==> |p| <= |s|
  {
    var k := IndexOf(s, d, 0);
    if k == |s| then
      assert s[0..|s|] == s;
      [s]
    else
      [s[..k]] + Split(s[k + 1..], d)
  }

  function Join(parts: seq<bytes>, d: byte): bytes
    requires |parts| >= 1
  {
    if |parts| == 1 then parts[0] else parts[0] + [d] + Join(parts[1..], d)
  }

  lemma SplitFirst(a: bytes, d: byte, b: bytes)
    requires d !in a
    ensures Split(a + [d] + b, d) == [a] + Split(b, d)
  {
    var s := a + [d] + b;
    assert s[|a|] == d;
    assert s[0..|a|] == a;
    FirstIndexIsUnique(s, d, 0, |a|);
    assert s[..|a|] == a && s[|a| + 1..] == b;
  }

  lemma SplitNone(a: bytes, d: byte)
    requires d !in a
    ensures Split(a, d) == [a]
  {
    assert a == a[0..|a|];
    FirstIndexIsUnique(a, d, 0, |a|);
  }

  lemma {:induction false} SplitJoin(parts: seq<bytes>, d: byte)
    requires |parts| >= 1
    requires forall p :: p in parts ==> d !in p
    ensures Split(Join(parts, d), d) == parts
  {
    hide Split;
    if |parts| == 1 {
      SplitNone(parts[0], d);
    } else {
      SplitJoin(parts[1..], d);
      SplitFirst(parts[0], d, Join(parts[1..], d));
      assert parts == [parts[0]] + parts[1..];
    }
  }

  lemma {:induction false} JoinSplit(s: bytes, d: byte)
    ensures Join(Split(s, d), d) == s
    decreases |s|
  {
    var k := IndexOf(s, d, 0);
    if k < |s| {
      JoinSplit(s[k + 1..], d);
      var parts := Split(s, d);
      assert parts[1..] == Split(s[k + 1..], d);
      assert s == s[..k] + [d] + s[k + 1..];
    }
  }

  // The splitter yields one slice per separator.
  lemma {:induction false} SplitCounts(s: bytes, d: byte)
    ensures |Split(s, d)| == multiset(s)[d] + 1
    decreases |s|
  {
    hide Split, IndexOf;
    var k := IndexOf(s, d, 0);
    assert s[0..k] == s[..k];
    assert d !in multiset(s[..k]);
    if k < |s| {
      SplitCounts(s[k + 1..], d);
      assert s == s[..k] + [d] + s[k + 1..];
      SplitFirst(s[..k], d, s[k + 1..]);
    } else {
      assert s == s[..k];
      SplitNone(s, d);
    }
  }

  lemma {:induction false} JoinIsCrlfFree(parts: seq<bytes>, d: byte)
    requires |parts| >= 1 && d != CR && d != LF
    requires forall p :: p in parts ==> CrlfFree(p)
    ensures CrlfFree(Join(parts, d))
  {
    if |parts| > 1 {
      JoinIsCrlfFree(parts[1..], d);
      CrlfFreeAcross(parts[0], d, Join(parts[1..], d));
    }
  }

  // Every part of a CRLF-free text is CRLF-free.
  lemma {:induction false} SplitIsCrlfFree(s: bytes, d: byte)
    requires CrlfFree(s)
    ensures forall p :: p in Split(s, d) ==> CrlfFree(p)
    decreases |s|
  {
    var k := IndexOf(s, d, 0);
    if k < |s| {
      CrlfFreePrefix(s, k);
      var t := s[k + 1..];
      forall i | 0 <= i < |t| - 1
        ensures !CrlfAt(t, i)
      {
        assert !CrlfAt(s, k + 1 + i);
      }
      SplitIsCrlfFree(t, d);
    }
  }

  lemma SplitStep(s: bytes, d: byte, acc: nat, curr: nat)
    requires acc <= curr < |s| && s[curr] == d && d !in s[acc..curr]
    ensures d in s[acc..]
    ensures Split(s[acc..], d) == [s[acc..curr]] + Split(s[curr + 1..], d)
  {
    assert s[acc..][curr - acc] == d;
    assert s[acc..] == s[acc..curr] + [d] + s[curr + 1..];
    SplitFirst(s[acc..curr], d, s[curr + 1..]);
  }

  lemma SplitEnd(s: bytes, d: byte, acc: nat)
    requires acc <= |s| && d !in s[acc..|s|]
    ensures d !in s[acc..]
    ensures Split(s[acc..], d) == [s[acc..]]
  {
    assert s[acc..] == s[acc..|s|];
    SplitNone(s[acc..], d);
  }

  method Memchr(needle: byte, haystack: bytes, from: nat) returns (curr: nat)
    requires from <= |haystack|
    ensures from <= curr <= |haystack|
    ensures needle !in haystack[from..curr]
    ensures curr < |haystack| ==> haystack[curr] == needle
  {
    curr := from;
    while curr < |haystack| && haystack[curr] != needle
      invariant from <= curr <= |haystack|
      invariant needle !in haystack[from..curr]
    {
      assert haystack[from..curr + 1] == haystack[from..curr] + [haystack[curr]];
      curr := curr + 1;
    }
  }

  // The single-byte iterator: same running offset, one byte to skip.
  class CharSpliterator {
    const buffer: bytes
    const needle: byte
    var acc: nat

    ghost predicate Valid()
      reads this
    {
      acc <= |buffer|
    }

    constructor (buffer: bytes, needle: byte)
      ensures Valid() && acc == 0 && this.buffer == buffer && this.needle == needle
    {
      this.buffer := buffer;
      this.needle := needle;
      acc := 0;
    }

    // The yielded slices and the text behind the last offset are together the
    // parts of the buffer: a step moves the first part of what is left.
    method Next() returns (item: Option<(bytes, nat)>)
      requires Valid()
      modifies this
      ensures Valid()
      ensures item.Some? <==> needle in buffer[old(acc)..]
      ensures item.Some? ==>
                && item.value.1 == acc
                && Split(buffer[old(acc)..], needle) == [item.value.0] + Split(buffer[acc..], needle)
      ensures item.None? ==> acc == old(acc) && Split(buffer[acc..], needle) == [buffer[acc..]]
    {
      hide Split;
      var curr := Memchr(needle, buffer, acc);
      if curr < |buffer| {
        var slice := buffer[acc..curr];
        SplitStep(buffer, needle, acc, curr);
        acc := curr + 1;
        item := Some((slice, acc));
      } else {
        SplitEnd(buffer, needle, acc);
        item := None;
      }
    }
  }

  // ------------------------------------------------------------ ASCII case

  function Lower(b: byte): byte {
    if 0x41 <= b <= 0x5A then b + 0x20 else b
  }

  predicate EqIgnoreCase(a: bytes, b: bytes) {
    |a| == |b| && forall i :: 0 <= i < |a| ==> Lower(a[i]) == Lower(b[i])
  }
}
