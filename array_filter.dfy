/** JavaScript's `Array.prototype.filter` on a sequence, with the facts about it
    that do not depend on the predicate: membership, catalog order, concatenation
    and idempotence. */
module ArrayFilter {

  /** `s.filter(keep)`: the elements that pass, in their original order; never
      more of them than `s` holds. */
  function Filter<T>(s: seq<T>, keep: T -> bool): (r: seq<T>)
    ensures |r| <= |s|
    decreases |s|
  {
    if s == [] then [] else (if keep(s[0]) then [s[0]] else []) + Filter(s[1..], keep)
  }

  /** An element is in the result exactly when it is in `s` and passes. */
  lemma {:induction false} FilterMembers<T>(s: seq<T>, keep: T -> bool)
    ensures forall x :: x in Filter(s, keep) ==> x in s && keep(x)
    ensures forall x :: x in s && keep(x) ==> x in Filter(s, keep)
    decreases |s|
  {
    if s != [] {
      FilterMembers(s[1..], keep);
      assert s == [s[0]] + s[1..];
    }
  }

  /** Filtering distributes over concatenation. */
  lemma {:induction false} FilterAppend<T>(a: seq<T>, b: seq<T>, keep: T -> bool)
    ensures Filter(a + b, keep) == Filter(a, keep) + Filter(b, keep)
    decreases |a|
  {
    if a == [] {
      assert a + b == b;
    } else {
      var head := if keep(a[0]) then [a[0]] else [];
      assert (a + b)[0] == a[0] && (a + b)[1..] == a[1..] + b;
      assert Filter(a + b, keep) == head + Filter(a[1..] + b, keep);
      FilterAppend(a[1..], b, keep);
      assert Filter(a, keep) == head + Filter(a[1..], keep);
      assert head + (Filter(a[1..], keep) + Filter(b, keep)) == (head + Filter(a[1..], keep)) + Filter(b, keep);
    }
  }

  /** A sequence whose every element passes comes back unchanged. */
  lemma {:induction false} FilterAllKept<T>(s: seq<T>, keep: T -> bool)
    requires forall x :: x in s ==> keep(x)
    ensures Filter(s, keep) == s
    decreases |s|
  {
    if s != [] {
      assert s[0] in s;
      assert forall x :: x in s[1..] ==> x in s;
      FilterAllKept(s[1..], keep);
    }
  }

  /** Filtering twice gives what filtering once gives. */
  lemma FilterIdempotent<T>(s: seq<T>, keep: T -> bool)
    ensures Filter(Filter(s, keep), keep) == Filter(s, keep)
  {
    FilterMembers(s, keep);
    FilterAllKept(Filter(s, keep), keep);
  }

  /** Every position moved one place on. */
  ghost function Shift(s: seq<int>): (r: seq<int>)
    ensures |r| == |s|
    ensures forall k :: 0 <= k < |s| ==> r[k] == s[k] + 1
  {
    seq(|s|, k requires 0 <= k < |s| => s[k] + 1)
  }

  /** Membership moves with the shift. */
  lemma ShiftMembers(s: seq<int>, j: int)
    ensures j in Shift(s) <==> j - 1 in s
  {
    if j in Shift(s) {
      var k :| 0 <= k < |s| && Shift(s)[k] == j;
      assert s[k] == j - 1;
    }
    if j - 1 in s {
      var k :| 0 <= k < |s| && s[k] == j - 1;
      assert Shift(s)[k] == j;
    }
  }

  /** The positions of the elements that pass, in order. */
  ghost function KeptIndices<T>(s: seq<T>, keep: T -> bool): seq<int>
    decreases |s|
  {
    if s == [] then [] else (if keep(s[0]) then [0] else []) + Shift(KeptIndices(s[1..], keep))
  }

  /** One step of the positions: putting `x` in front of `tail` moves every
      position on by one and, when `x` is kept, adds position 0 for it. */
  lemma PickCons<T>(x: T, tail: seq<T>, rest: seq<int>, rTail: seq<T>, kept: bool)
    requires |rest| == |rTail|
    requires forall k :: 0 <= k < |rest| ==> 0 <= rest[k] < |tail| && tail[rest[k]] == rTail[k]
    ensures var idx := (if kept then [0] else []) + Shift(rest);
      var r := (if kept then [x] else []) + rTail;
      |idx| == |r| && forall k :: 0 <= k < |idx| ==> 0 <= idx[k] < |tail| + 1 && ([x] + tail)[idx[k]] == r[k]
  {
    var head: seq<int> := if kept then [0] else [];
    var idx := head + Shift(rest);
    var r := (if kept then [x] else []) + rTail;
    forall k | 0 <= k < |idx| ensures 0 <= idx[k] < |tail| + 1 && ([x] + tail)[idx[k]] == r[k] {
      if k >= |head| {
        assert idx[k] == rest[k - |head|] + 1;
        assert r[k] == rTail[k - |head|];
      }
    }
  }

  /** The kept positions pick out the result, element by element. */
  lemma {:induction false} KeptIndicesPick<T>(s: seq<T>, keep: T -> bool)
    ensures |KeptIndices(s, keep)| == |Filter(s, keep)|
    ensures forall k :: 0 <= k < |KeptIndices(s, keep)| ==>
      0 <= KeptIndices(s, keep)[k] < |s| && s[KeptIndices(s, keep)[k]] == Filter(s, keep)[k]
    decreases |s|
  {
    if s != [] {
      KeptIndicesPick(s[1..], keep);
      PickCons(s[0], s[1..], KeptIndices(s[1..], keep), Filter(s[1..], keep), keep(s[0]));
      assert [s[0]] + s[1..] == s;
    }
  }

  /** The kept positions are non-negative and strictly increasing. */
  lemma {:induction false} KeptIndicesIncrease<T>(s: seq<T>, keep: T -> bool)
    ensures forall k :: 0 <= k < |KeptIndices(s, keep)| ==> 0 <= KeptIndices(s, keep)[k]
    ensures forall k, l :: 0 <= k < l < |KeptIndices(s, keep)| ==>
      KeptIndices(s, keep)[k] < KeptIndices(s, keep)[l]
    decreases |s|
  {
    if s != [] {
      KeptIndicesIncrease(s[1..], keep);
    }
  }

  /** A position is kept exactly when the element there passes. */
  lemma {:induction false} KeptIndicesExact<T>(s: seq<T>, keep: T -> bool)
    ensures forall j :: 0 <= j < |s| ==> (j in KeptIndices(s, keep) <==> keep(s[j]))
    decreases |s|
  {
    if s != [] {
      var tail := s[1..];
      KeptIndicesExact(tail, keep);
      KeptIndicesIncrease(tail, keep);
      var rest := KeptIndices(tail, keep);
      var head: seq<int> := if keep(s[0]) then [0] else [];
      assert KeptIndices(s, keep) == head + Shift(rest);
      forall j | 0 <= j < |s| ensures j in KeptIndices(s, keep) <==> keep(s[j]) {
        ShiftMembers(rest, j);
        if j > 0 {
          assert s[j] == tail[j - 1];
        }
      }
    }
  }

  /** The result is a subsequence of `s` in its original order: `idx` lists, in
      increasing order, the positions of the elements that pass, and every
      position left out holds an element that fails. */
  lemma FilterSelectsIndices<T>(s: seq<T>, keep: T -> bool) returns (idx: seq<int>)
    ensures |idx| == |Filter(s, keep)|
    ensures forall k :: 0 <= k < |idx| ==> 0 <= idx[k] < |s| && s[idx[k]] == Filter(s, keep)[k]
    ensures forall k, l :: 0 <= k < l < |idx| ==> idx[k] < idx[l]
    ensures forall j :: 0 <= j < |s| ==> (j in idx <==> keep(s[j]))
  {
    idx := KeptIndices(s, keep);
    KeptIndicesPick(s, keep);
    KeptIndicesIncrease(s, keep);
    KeptIndicesExact(s, keep);
  }
}
