/** Order-keeping filters over sequences. */
module Seqs {
  /** The elements of `s` that pass `p`, in order. */
  function Keep<T>(s: seq<T>, p: T -> bool): seq<T> {
    if s == [] then [] else (if p(s[0]) then [s[0]] else []) + Keep(s[1..], p)
  }

  lemma {:induction false} KeepSnoc<T>(s: seq<T>, x: T, p: T -> bool)
    ensures Keep(s + [x], p) == Keep(s, p) + (if p(x) then [x] else [])
    decreases |s|
  {
    if s == [] {
      KeepCons(x, [], p);
      assert s + [x] == [x] + [];
    } else {
      var a, tail := s[0], s[1..];
      var t: seq<T> := if p(x) then [x] else [];
      KeepSnoc(tail, x, p);
      assert s + [x] == [a] + (tail + [x]);
      assert s == [a] + tail;
      KeepFront(a, tail + [x], tail, p, t);
    }
  }

  lemma KeepCons<T>(a: T, t: seq<T>, p: T -> bool)
    ensures Keep([a] + t, p) == (if p(a) then [a] else []) + Keep(t, p)
  {
    assert ([a] + t)[1..] == t;
  }

  lemma {:induction false} KeepNone<T>(s: seq<T>, p: T -> bool)
    requires forall j :: 0 <= j < |s| ==> !p(s[j])
    ensures Keep(s, p) == []
    decreases |s|
  {
    if s != [] {
      assert !p(s[0]);
      KeepNone(s[1..], p);
    }
  }

  /** One element in front of two sequences whose kept elements differ
      by `t`. */
  lemma KeepFront<T>(a: T, rest: seq<T>, tail: seq<T>, p: T -> bool, t: seq<T>)
    requires Keep(rest, p) == Keep(tail, p) + t
    ensures Keep([a] + rest, p) == Keep([a] + tail, p) + t
  {
    var h: seq<T> := if p(a) then [a] else [];
    KeepCons(a, rest, p);
    KeepCons(a, tail, p);
    assert h + (Keep(tail, p) + t) == (h + Keep(tail, p)) + t;
  }

  /** `r` is made of the elements of `s` at the ascending positions `idx`:
      a subsequence of `s` in its order. */
  ghost predicate Picks<T>(r: seq<T>, s: seq<T>, idx: seq<nat>) {
    && |idx| == |r|
    && (forall j :: 0 <= j < |idx| ==> idx[j] < |s| && r[j] == s[idx[j]])
    && (forall j, k :: 0 <= j < k < |idx| ==> idx[j] < idx[k])
  }

  /** Every sequence is a subsequence of itself. */
  lemma PicksAll<T>(s: seq<T>) returns (idx: seq<nat>)
    ensures Picks(s, s, idx)
  {
    idx := seq(|s|, j requires 0 <= j < |s| => j);
  }

  /** A subsequence of a subsequence of `s` is a subsequence of `s`. */
  lemma PicksTrans<T>(r: seq<T>, m: seq<T>, s: seq<T>, i1: seq<nat>, i2: seq<nat>) returns (idx: seq<nat>)
    requires Picks(r, m, i1) && Picks(m, s, i2)
    ensures Picks(r, s, idx)
  {
    idx := seq(|i1|, j requires 0 <= j < |i1| && i1[j] < |i2| => i2[i1[j]]);
  }
}
