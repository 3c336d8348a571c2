/**
 * `Array.prototype.filter` on sequences, and what it promises: the result
 * lists exactly the elements that satisfy the predicate, at their original
 * positions' order.
 */
module Seqs {

  /** Keeps the elements of `s` that satisfy `p`, in order. */
  function Filter<T>(p: T -> bool, s: seq<T>): (r: seq<T>)
    ensures |r| <= |s|
    ensures forall k :: 0 <= k < |r| ==> p(r[k])
  {
    if s == [] then []
    else if p(s[0]) then [s[0]] + Filter(p, s[1..])
    else Filter(p, s[1..])
  }

  /** `r` is made of the elements of `s` at the positions `idx`. */
  ghost predicate Picks<T>(s: seq<T>, r: seq<T>, idx: seq<int>) {
    |idx| == |r| && forall k :: 0 <= k < |idx| ==> 0 <= idx[k] < |s| && r[k] == s[idx[k]]
  }

  ghost predicate StrictlyIncreasing(idx: seq<int>) {
    forall k, l :: 0 <= k < l < |idx| ==> idx[k] < idx[l]
  }

  /** `idx` holds exactly the positions of `s` whose element satisfies `p`. */
  ghost predicate MarksExactly<T>(p: T -> bool, s: seq<T>, idx: seq<int>) {
    forall i :: 0 <= i < |s| ==> (p(s[i]) <==> i in idx)
  }

  /** `idx` lists, in increasing order, the positions of `s` whose elements
      make up `r`, and these are exactly the positions whose element
      satisfies `p`. */
  ghost predicate SelectsExactly<T>(p: T -> bool, s: seq<T>, r: seq<T>, idx: seq<int>) {
    Picks(s, r, idx) && StrictlyIncreasing(idx) && MarksExactly(p, s, idx)
  }

  /** The filter result is the order-preserving subsequence made of exactly
      the positions whose element satisfies the predicate. */
  lemma {:induction false} FilterSelectsExactly<T>(p: T -> bool, s: seq<T>)
    ensures exists idx :: SelectsExactly(p, s, Filter(p, s), idx)
    decreases |s|
  {
    if s == [] {
      assert SelectsExactly(p, s, Filter(p, s), []);
    } else {
      FilterSelectsExactly(p, s[1..]);
      var tail := Filter(p, s[1..]);
      var tailIdx :| SelectsExactly(p, s[1..], tail, tailIdx);
      if p(s[0]) {
        assert Filter(p, s) == [s[0]] + tail;
        PicksCons(p, s, tail, tailIdx);
        MarksCons(p, s, tailIdx);
        assert SelectsExactly(p, s, Filter(p, s), [0] + Shift(tailIdx));
      } else {
        assert Filter(p, s) == tail;
        SelectsSkip(p, s, tail, tailIdx);
      }
    }
  }

  /** Positions one further on. */
  function Shift(idx: seq<int>): (r: seq<int>)
    ensures |r| == |idx|
    ensures forall k :: 0 <= k < |idx| ==> r[k] == idx[k] + 1
  {
    seq(|idx|, k requires 0 <= k < |idx| => idx[k] + 1)
  }

  /** Inductive step when the head of `s` is dropped. */
  lemma SelectsSkip<T>(p: T -> bool, s: seq<T>, tail: seq<T>, tailIdx: seq<int>)
    requires s != [] && !p(s[0])
    requires SelectsExactly(p, s[1..], tail, tailIdx)
    ensures SelectsExactly(p, s, tail, Shift(tailIdx))
  {
    var idx := Shift(tailIdx);
    forall i | 0 <= i < |s|
      ensures p(s[i]) <==> i in idx
    {
      if i == 0 {
        assert 0 !in idx;
      } else {
        assert s[i] == s[1..][i - 1];
        if i - 1 in tailIdx {
          var k :| 0 <= k < |tailIdx| && tailIdx[k] == i - 1;
          assert idx[k] == i;
        }
        if i in idx {
          var k :| 0 <= k < |idx| && idx[k] == i;
          assert tailIdx[k] == i - 1;
        }
      }
    }
  }

  /** Inductive step when the head of `s` is kept: positions and order. */
  lemma PicksCons<T>(p: T -> bool, s: seq<T>, tail: seq<T>, tailIdx: seq<int>)
    requires s != []
    requires Picks(s[1..], tail, tailIdx) && StrictlyIncreasing(tailIdx)
    ensures Picks(s, [s[0]] + tail, [0] + Shift(tailIdx))
    ensures StrictlyIncreasing([0] + Shift(tailIdx))
  {
    var shifted := Shift(tailIdx);
    var idx := [0] + shifted;
    var r := [s[0]] + tail;
    forall k | 0 <= k < |idx|
      ensures 0 <= idx[k] < |s| && r[k] == s[idx[k]]
    {
      if k > 0 {
        assert idx[k] == shifted[k - 1] && r[k] == tail[k - 1];
      }
    }
    forall k, l | 0 <= k < l < |idx|
      ensures idx[k] < idx[l]
    {
      if k > 0 {
        assert idx[k] == shifted[k - 1] && idx[l] == shifted[l - 1];
      } else {
        assert idx[l] == shifted[l - 1];
      }
    }
  }

  /** Inductive step when the head of `s` is kept: the marked positions. */
  lemma MarksCons<T>(p: T -> bool, s: seq<T>, tailIdx: seq<int>)
    requires s != [] && p(s[0])
    requires MarksExactly(p, s[1..], tailIdx)
    ensures MarksExactly(p, s, [0] + Shift(tailIdx))
  {
    var shifted := Shift(tailIdx);
    var idx := [0] + shifted;
    forall i | 0 <= i < |s|
      ensures p(s[i]) <==> i in idx
    {
      if i > 0 {
        assert s[i] == s[1..][i - 1];
        if i - 1 in tailIdx {
          var k :| 0 <= k < |tailIdx| && tailIdx[k] == i - 1;
          assert idx[k + 1] == i;
        }
        if i in idx {
          var k :| 0 <= k < |idx| && idx[k] == i;
          assert k > 0 && tailIdx[k - 1] == i - 1;
        }
      }
    }
  }

  /** When every element passes, filtering changes nothing. */
  lemma {:induction false} FilterKeepsAll<T>(p: T -> bool, s: seq<T>)
    requires forall i :: 0 <= i < |s| ==> p(s[i])
    ensures Filter(p, s) == s
    decreases |s|
  {
    if s != [] {
      FilterKeepsAll(p, s[1..]);
    }
  }

  /** Two predicates that agree on every element of `s` filter it alike. */
  lemma {:induction false} FilterAgrees<T>(p: T -> bool, q: T -> bool, s: seq<T>)
    requires forall i :: 0 <= i < |s| ==> p(s[i]) == q(s[i])
    ensures Filter(p, s) == Filter(q, s)
    decreases |s|
  {
    if s != [] {
      FilterAgrees(p, q, s[1..]);
    }
  }

  /** When no element passes, nothing is kept. */
  lemma {:induction false} FilterDropsAll<T>(p: T -> bool, s: seq<T>)
    requires forall i :: 0 <= i < |s| ==> !p(s[i])
    ensures Filter(p, s) == []
    decreases |s|
  {
    if s != [] {
      FilterDropsAll(p, s[1..]);
    }
  }

  /** The filter result is empty exactly when no element passes. */
  lemma {:induction false} FilterEmptyIff<T>(p: T -> bool, s: seq<T>)
    ensures Filter(p, s) == [] <==> forall i :: 0 <= i < |s| ==> !p(s[i])
    decreases |s|
  {
    if s != [] {
      FilterEmptyIff(p, s[1..]);
      if !p(s[0]) {
        assert forall i :: 1 <= i < |s| ==> s[i] == s[1..][i - 1];
      }
    }
  }

  /** Filtering distributes over concatenation. */
  lemma {:induction false} FilterConcat<T>(p: T -> bool, a: seq<T>, b: seq<T>)
    ensures Filter(p, a + b) == Filter(p, a) + Filter(p, b)
    decreases |a|
  {
    if a != [] {
      assert (a + b)[1..] == a[1..] + b;
      FilterConcat(p, a[1..], b);
    } else {
      assert a + b == b;
    }
  }

  /** A single element that fails is dropped. */
  lemma FilterDropsSingle<T>(p: T -> bool, x: T)
    requires !p(x)
    ensures Filter(p, [x]) == []
  {
    assert [x][1..] == [];
  }

  /** A single element that passes is kept. */
  lemma FilterKeepsSingle<T>(p: T -> bool, x: T)
    requires p(x)
    ensures Filter(p, [x]) == [x]
  {
    assert [x][1..] == [];
  }

  /** When exactly one element passes, the result is that element alone. */
  lemma FilterSingleMatch<T>(p: T -> bool, s: seq<T>, k: int)
    requires 0 <= k < |s| && p(s[k])
    requires forall i :: 0 <= i < |s| && i != k ==> !p(s[i])
    ensures Filter(p, s) == [s[k]]
  {
    var before, after := s[..k], s[k + 1..];
    DroppedAround(p, s, k);
    FilterKeepsSingle(p, s[k]);
    calc {
      Filter(p, s);
      { assert s == before + [s[k]] + after; }
      Filter(p, before + [s[k]] + after);
      { FilterAround(p, before, s[k], after); }
      Filter(p, before) + Filter(p, [s[k]]) + Filter(p, after);
      [] + [s[k]] + [];
      { assert [] + [s[k]] + [] == [s[k]]; }
      [s[k]];
    }
  }

  /** The parts before and after the one passing position are dropped
      whole. */
  lemma DroppedAround<T>(p: T -> bool, s: seq<T>, k: int)
    requires 0 <= k < |s|
    requires forall i :: 0 <= i < |s| && i != k ==> !p(s[i])
    ensures Filter(p, s[..k]) == [] && Filter(p, s[k + 1..]) == []
  {
    var before, after := s[..k], s[k + 1..];
    forall i | 0 <= i < |before|
      ensures !p(before[i])
    {
      assert before[i] == s[i];
    }
    forall i | 0 <= i < |after|
      ensures !p(after[i])
    {
      assert after[i] == s[k + 1 + i];
    }
    FilterDropsAll(p, before);
    FilterDropsAll(p, after);
  }

  /** When exactly one element fails, the result is everything else. */
  lemma FilterSingleMiss<T>(p: T -> bool, s: seq<T>, k: int)
    requires 0 <= k < |s| && !p(s[k])
    requires forall i :: 0 <= i < |s| && i != k ==> p(s[i])
    ensures Filter(p, s) == s[..k] + s[k + 1..]
  {
    var before, after := s[..k], s[k + 1..];
    KeptAround(p, s, k);
    FilterDropsSingle(p, s[k]);
    calc {
      Filter(p, s);
      { assert s == before + [s[k]] + after; }
      Filter(p, before + [s[k]] + after);
      { FilterAround(p, before, s[k], after); }
      Filter(p, before) + Filter(p, [s[k]]) + Filter(p, after);
      before + [] + after;
      { assert before + [] == before; }
      before + after;
    }
  }

  /** The parts before and after the one failing position pass whole. */
  lemma KeptAround<T>(p: T -> bool, s: seq<T>, k: int)
    requires 0 <= k < |s|
    requires forall i :: 0 <= i < |s| && i != k ==> p(s[i])
    ensures Filter(p, s[..k]) == s[..k] && Filter(p, s[k + 1..]) == s[k + 1..]
  {
    var before, after := s[..k], s[k + 1..];
    forall i | 0 <= i < |before|
      ensures p(before[i])
    {
      assert before[i] == s[i];
    }
    forall i | 0 <= i < |after|
      ensures p(after[i])
    {
      assert after[i] == s[k + 1 + i];
    }
    FilterKeepsAll(p, before);
    FilterKeepsAll(p, after);
  }

  /** Filtering `a + [x] + b`, given what happens to each of the three parts. */
  lemma FilterAround<T>(p: T -> bool, a: seq<T>, x: T, b: seq<T>)
    ensures Filter(p, a + [x] + b) == Filter(p, a) + Filter(p, [x]) + Filter(p, b)
  {
    FilterConcat(p, a + [x], b);
    FilterConcat(p, a, [x]);
  }
}
