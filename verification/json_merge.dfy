/** `mergeJson(main, second)`: two dicts merge key by key, two lists merge
    element by element through `compareItem`, and in every other case the
    second value wins. */
module JsonMerge {
  import opened Wrappers
  import opened JsonValue

  /** `compareItem(x, y)` read as a truth value: two dicts match when they
      share a key, two lists when some pair of their elements matches, and
      anything else when Python's `==` holds. */
  predicate Matches(x: Json, y: Json)
    decreases x
  {
    if x.Obj? && y.Obj? then
      exists i :: 0 <= i < |x.fields| && x.fields[i].0 in KeysOf(y.fields)
    else if x.Arr? && y.Arr? then
      exists i, j :: 0 <= i < |x.items| && 0 <= j < |y.items| && Matches(x.items[i], y.items[j])
    else
      PyEq(x, y)
  }

  /** `compareItem` is symmetric: two values match whichever of them
      comes from the first list. */
  lemma {:induction false} MatchesSymmetric(x: Json, y: Json)
    ensures Matches(x, y) == Matches(y, x)
    decreases x
  {
    if x.Obj? && y.Obj? {
      SharedKey(x.fields, y.fields);
      SharedKey(y.fields, x.fields);
    } else if x.Arr? && y.Arr? {
      forall i, j | 0 <= i < |x.items| && 0 <= j < |y.items|
        ensures Matches(x.items[i], y.items[j]) == Matches(y.items[j], x.items[i])
      {
        MatchesSymmetric(x.items[i], y.items[j]);
      }
    }
  }

  /** A key of `fa` found in `fb` is a key of `fb` found in `fa`. */
  lemma SharedKey(fa: Fields, fb: Fields)
    ensures (exists i :: 0 <= i < |fa| && fa[i].0 in KeysOf(fb))
        ==> (exists j :: 0 <= j < |fb| && fb[j].0 in KeysOf(fa))
  {
    if exists i :: 0 <= i < |fa| && fa[i].0 in KeysOf(fb) {
      var i :| 0 <= i < |fa| && fa[i].0 in KeysOf(fb);
      var ks := KeysOf(fb);
      var j :| 0 <= j < |ks| && ks[j] == fa[i].0;
      assert KeysOf(fa)[i] == fb[j].0;
    }
  }

  /** The first position in `ys` whose element matches `x`. */
  function FirstMatchIn(x: Json, ys: seq<Json>): (r: Option<nat>)
    ensures r.None? <==> forall j :: 0 <= j < |ys| ==> !Matches(x, ys[j])
    ensures r.Some? ==> r.value < |ys| && Matches(x, ys[r.value])
    ensures r.Some? ==> forall j :: 0 <= j < r.value ==> !Matches(x, ys[j])
  {
    if ys == [] then None
    else if Matches(x, ys[0]) then Some(0)
    else
      match FirstMatchIn(x, ys[1..])
      case None => None
      case Some(j) => Some(j + 1)
  }

  /** `compareItem(list1, list2)`: scanning `xs` in order, the first element
      that matches anything in `ys`, paired with its first match. */
  function FirstPair(xs: seq<Json>, ys: seq<Json>): (r: Option<(nat, nat)>)
    ensures r.None? <==> forall i, j :: 0 <= i < |xs| && 0 <= j < |ys| ==> !Matches(xs[i], ys[j])
    ensures r.Some? ==> r.value.0 < |xs| && r.value.1 < |ys| && Matches(xs[r.value.0], ys[r.value.1])
    ensures r.Some? ==> forall i, j :: 0 <= i < r.value.0 && 0 <= j < |ys| ==> !Matches(xs[i], ys[j])
    ensures r.Some? ==> forall j :: 0 <= j < r.value.1 ==> !Matches(xs[r.value.0], ys[j])
  {
    FirstPairFrom(xs, ys, 0)
  }

  /** The scan of `FirstPair` from position `from` of `xs` on. */
  function FirstPairFrom(xs: seq<Json>, ys: seq<Json>, from: nat): (r: Option<(nat, nat)>)
    requires from <= |xs|
    ensures r.None? <==> forall i, j :: from <= i < |xs| && 0 <= j < |ys| ==> !Matches(xs[i], ys[j])
    ensures r.Some? ==> from <= r.value.0 < |xs| && r.value.1 < |ys| && Matches(xs[r.value.0], ys[r.value.1])
    ensures r.Some? ==> forall i, j :: from <= i < r.value.0 && 0 <= j < |ys| ==> !Matches(xs[i], ys[j])
    ensures r.Some? ==> forall j :: 0 <= j < r.value.1 ==> !Matches(xs[r.value.0], ys[j])
    decreases |xs| - from
  {
    if from == |xs| then None
    else
      var first := FirstMatchIn(xs[from], ys);
      if first.Some? then Some((from, first.value))
      else FirstPairFrom(xs, ys, from + 1)
  }

  function Remove<T>(s: seq<T>, i: nat): (r: seq<T>)
    requires i < |s|
    ensures |r| == |s| - 1
  {
    s[..i] + s[i + 1..]
  }

  function Pick(xs: seq<Json>, idx: seq<nat>): (r: seq<Json>)
    requires forall k :: 0 <= k < |idx| ==> idx[k] < |xs|
    ensures |r| == |idx|
  {
    seq(|idx|, k requires 0 <= k < |idx| => xs[idx[k]])
  }

  /** `mergeJson` itself. */
  function Merge(a: Json, b: Json): (r: Json)
    ensures !(a.Obj? && b.Obj?) && !(a.Arr? && b.Arr?) ==> r == b
    ensures a.Obj? && b.Obj? ==> r.Obj?
    ensures a.Arr? && b.Arr? ==> r.Arr?
    decreases a, 2
  {
    if a.Arr? && b.Arr? then Arr(MergeLists(a.items, b.items))
    else if a.Obj? && b.Obj? then Obj(MergeFields(a.fields, b.fields))
    else b
  }

  /** The dict branch: shared keys merged in place, then the keys only
      the second dict has, appended. */
  function MergeFields(fa: Fields, fb: Fields): Fields
    decreases fa, 1
  {
    MergeShared(fa, fb) + OnlyIn(fb, fa)
  }

  function MergeShared(fa: Fields, fb: Fields): (r: Fields)
    ensures |r| == |fa| && KeysOf(r) == KeysOf(fa)
    decreases fa, 0
  {
    if fa == [] then []
    else
      var e := fa[0];
      assert e.1 < e;
      var v := match Lookup(fb, e.0)
        case Some(w) => Merge(e.1, w)
        case None => e.1;
      [(e.0, v)] + MergeShared(fa[1..], fb)
  }

  /** The entries of `fb` whose key `fa` lacks. The source yields these
      keys in the iteration order of a `set`; here they keep `fb`'s order. */
  function OnlyIn(fb: Fields, fa: Fields): (r: Fields)
    ensures forall k :: k in KeysOf(r) <==> k in KeysOf(fb) && k !in KeysOf(fa)
    ensures forall e :: e in r ==> e in fb
  {
    if fb == [] then []
    else
      KeysOfConcat([fb[0]], fb[1..]);
      assert [fb[0]] + fb[1..] == fb;
      var tail := OnlyIn(fb[1..], fa);
      if fb[0].0 in KeysOf(fa) then tail
      else KeysOfConcat([fb[0]], tail); [fb[0]] + tail
  }

  /** `listParser(list1, list2)`: starts from a copy of `list1`. */
  function MergeLists(xs: seq<Json>, ys: seq<Json>): seq<Json>
    decreases xs, 1
  {
    ListLoop(xs, xs, Positions(|xs|), ys)
  }

  /** The positions `0 .. n-1`, in order. */
  function Positions(n: nat): (r: seq<nat>)
    ensures |r| == n && forall k :: 0 <= k < n ==> r[k] == k
  {
    seq(n, k requires 0 <= k < n => k)
  }

  /** The loop of `listParser`: `rest` are the positions of `list1` not yet
      matched, `pending` what is left of `list2`. Each round replaces the
      first matching element by its merge and drops both partners; when no
      pair matches, what is left of `list2` is appended. */
  function ListLoop(xs: seq<Json>, out: seq<Json>, rest: seq<nat>, pending: seq<Json>): seq<Json>
    requires |out| == |xs|
    requires forall k :: 0 <= k < |rest| ==> rest[k] < |xs|
    decreases xs, 0, |rest|
  {
    match FirstPair(Pick(xs, rest), pending)
    case None => out + pending
    case Some((i, j)) =>
      var x := xs[rest[i]];
      ListLoop(xs, out[rest[i] := Merge(x, pending[j])], Remove(rest, i), Remove(pending, j))
  }

  // ---------------------------------------------------------------------
  // The dict branch

  lemma {:induction false} LookupConcat(a: Fields, b: Fields, k: Key)
    ensures Lookup(a + b, k) == if k in KeysOf(a) then Lookup(a, k) else Lookup(b, k)
  {
    if a != [] {
      assert (a + b)[0] == a[0];
      assert (a + b)[1..] == a[1..] + b;
      assert k in KeysOf(a) <==> a[0].0 == k || k in KeysOf(a[1..]) by {
        KeysOfConcat([a[0]], a[1..]);
        assert [a[0]] + a[1..] == a;
      }
      LookupConcat(a[1..], b, k);
    } else {
      assert a + b == b;
    }
  }

  lemma {:induction false} LookupMergeShared(fa: Fields, fb: Fields, k: Key)
    requires k in KeysOf(fa)
    ensures Lookup(MergeShared(fa, fb), k) == Some(
      match Lookup(fb, k)
      case Some(w) => Merge(Lookup(fa, k).value, w)
      case None => Lookup(fa, k).value)
  {
    if fa[0].0 != k {
      KeysOfConcat([fa[0]], fa[1..]);
      assert [fa[0]] + fa[1..] == fa;
      LookupMergeShared(fa[1..], fb, k);
    }
  }

  lemma {:induction false} LookupOnlyIn(fb: Fields, fa: Fields, k: Key)
    requires k !in KeysOf(fa)
    ensures Lookup(OnlyIn(fb, fa), k) == Lookup(fb, k)
  {
    if fb != [] {
      LookupOnlyIn(fb[1..], fa, k);
      if fb[0].0 == k {
        assert fb[0].0 !in KeysOf(fa);
      }
    }
  }

  lemma {:induction false} OnlyInDistinct(fb: Fields, fa: Fields)
    requires DistinctKeys(fb)
    ensures DistinctKeys(OnlyIn(fb, fa))
  {
    if fb != [] {
      OnlyInDistinct(fb[1..], fa);
      var tail := OnlyIn(fb[1..], fa);
      if fb[0].0 !in KeysOf(fa) {
        assert fb[0].0 !in KeysOf(fb[1..]) by {
          forall k | 0 <= k < |fb[1..]|
            ensures KeysOf(fb[1..])[k] != fb[0].0
          {
            assert fb[1..][k] == fb[k + 1];
          }
        }
        DistinctConcat([fb[0]], tail);
      }
    }
  }

  lemma MergeFieldsKeys(fa: Fields, fb: Fields)
    ensures forall k :: k in KeysOf(MergeFields(fa, fb)) <==> k in KeysOf(fa) || k in KeysOf(fb)
  {
    KeysOfConcat(MergeShared(fa, fb), OnlyIn(fb, fa));
  }

  lemma MergeFieldsLookup(fa: Fields, fb: Fields, k: Key)
    ensures k in KeysOf(fa) ==> Lookup(MergeFields(fa, fb), k) == Some(match Lookup(fb, k)
      case Some(w) => Merge(Lookup(fa, k).value, w)
      case None => Lookup(fa, k).value)
    ensures k !in KeysOf(fa) ==> Lookup(MergeFields(fa, fb), k) == Lookup(fb, k)
  {
    var shared := MergeShared(fa, fb);
    LookupConcat(shared, OnlyIn(fb, fa), k);
    if k in KeysOf(fa) {
      LookupMergeShared(fa, fb, k);
    } else {
      LookupOnlyIn(fb, fa, k);
    }
  }

  lemma MergeFieldsDistinct(fa: Fields, fb: Fields)
    requires DistinctKeys(fa) && DistinctKeys(fb)
    ensures DistinctKeys(MergeFields(fa, fb))
  {
    var shared := MergeShared(fa, fb);
    var added := OnlyIn(fb, fa);
    SameKeysDistinct(shared, fa);
    OnlyInDistinct(fb, fa);
    forall i | 0 <= i < |shared|
      ensures shared[i].0 !in KeysOf(added)
    {
      assert KeysOf(shared)[i] == shared[i].0;
    }
    DistinctConcat(shared, added);
  }

  lemma SameKeysDistinct(a: Fields, b: Fields)
    requires KeysOf(a) == KeysOf(b) && DistinctKeys(b)
    ensures DistinctKeys(a)
  {
    forall i, j | 0 <= i < j < |a|
      ensures a[i].0 != a[j].0
    {
      assert KeysOf(a)[i] == b[i].0 && KeysOf(a)[j] == b[j].0;
    }
  }

  /** Two dicts with no key in common concatenate into a dict. */
  lemma DistinctConcat(a: Fields, b: Fields)
    requires DistinctKeys(a) && DistinctKeys(b)
    requires forall i :: 0 <= i < |a| ==> a[i].0 !in KeysOf(b)
    ensures DistinctKeys(a + b)
  {
    var r := a + b;
    forall i, j | 0 <= i < j < |r|
      ensures r[i].0 != r[j].0
    {
      if i >= |a| {
        assert r[i] == b[i - |a|] && r[j] == b[j - |a|];
      } else if j >= |a| {
        assert KeysOf(b)[j - |a|] == r[j].0;
      }
    }
  }

  /** Two dicts merge into one holding the union of their keys: a shared
      key holds the merge of both values, a key of one dict only keeps
      that dict's value. */
  lemma MergeDicts(fa: Fields, fb: Fields)
    requires DistinctKeys(fa) && DistinctKeys(fb)
    ensures var r := Merge(Obj(fa), Obj(fb)).fields;
      && DistinctKeys(r)
      && (forall k :: k in KeysOf(r) <==> k in KeysOf(fa) || k in KeysOf(fb))
      && (forall k :: k in KeysOf(fa) && k in KeysOf(fb) ==>
            Lookup(r, k) == Some(Merge(Lookup(fa, k).value, Lookup(fb, k).value)))
      && (forall k :: k in KeysOf(fa) && k !in KeysOf(fb) ==> Lookup(r, k) == Lookup(fa, k))
      && (forall k :: k !in KeysOf(fa) && k in KeysOf(fb) ==> Lookup(r, k) == Lookup(fb, k))
  {
    assert Merge(Obj(fa), Obj(fb)).fields == MergeFields(fa, fb);
    MergeFieldsKeys(fa, fb);
    MergeFieldsDistinct(fa, fb);
    forall k {
      MergeFieldsLookup(fa, fb, k);
    }
  }

  // ---------------------------------------------------------------------
  // The list branch

  predicate Increasing(idx: seq<nat>, bound: nat) {
    && (forall k :: 0 <= k < |idx| ==> idx[k] < bound)
    && (forall k, l :: 0 <= k < l < |idx| ==> idx[k] < idx[l])
  }

  /** `a` is `b` with some elements left out, order kept. */
  ghost predicate Subsequence(a: seq<Json>, b: seq<Json>) {
    exists idx :: Increasing(idx, |b|) && a == Pick(b, idx)
  }

  /** Every slot of `out` still holds the element of `xs` it started with,
      or that element merged with a matching element of `ys`. */
  ghost predicate SlotsFrom(xs: seq<Json>, out: seq<Json>, ys: seq<Json>) {
    && |out| == |xs|
    && forall i :: 0 <= i < |xs| ==>
         out[i] == xs[i] || exists j :: 0 <= j < |ys| && Matches(xs[i], ys[j]) && out[i] == Merge(xs[i], ys[j])
  }

  lemma RemoveIncreasing(idx: seq<nat>, bound: nat, i: nat)
    requires Increasing(idx, bound) && i < |idx|
    ensures Increasing(Remove(idx, i), bound)
  {
    var r := Remove(idx, i);
    forall k, l | 0 <= k < l < |r|
      ensures r[k] < r[l]
    {
      var k' := if k < i then k else k + 1;
      var l' := if l < i then l else l + 1;
      assert r[k] == idx[k'] && r[l] == idx[l'];
    }
  }

  lemma PickRemove(xs: seq<Json>, idx: seq<nat>, i: nat)
    requires forall k :: 0 <= k < |idx| ==> idx[k] < |xs|
    requires i < |idx|
    ensures Remove(Pick(xs, idx), i) == Pick(xs, Remove(idx, i))
  {
  }

  lemma {:induction false} ListLoopShape(
    xs: seq<Json>, ys: seq<Json>, out: seq<Json>, rest: seq<nat>, pending: seq<Json>, pidx: seq<nat>)
    requires SlotsFrom(xs, out, ys)
    requires Increasing(rest, |xs|)
    requires Increasing(pidx, |ys|) && pending == Pick(ys, pidx)
    requires |ys| - |pending| == |xs| - |rest|
    ensures var r := ListLoop(xs, out, rest, pending);
      && |xs| <= |r|
      && SlotsFrom(xs, r[..|xs|], ys)
      && Subsequence(r[|xs|..], ys)
      && |ys| - (|r| - |xs|) <= |xs|
    decreases |rest|
  {
    RestBound(rest, |xs|);
    var found := FirstPair(Pick(xs, rest), pending);
    if found.None? {
      LoopDoneShape(xs, ys, out, pending, pidx);
    } else {
      var i, j := found.value.0, found.value.1;
      var x := xs[rest[i]];
      assert Pick(xs, rest)[i] == x;
      assert pending[j] == ys[pidx[j]];
      var out' := out[rest[i] := Merge(x, ys[pidx[j]])];
      SlotsUpdate(xs, out, ys, rest[i], pidx[j]);
      RemoveIncreasing(rest, |xs|, i);
      RemoveIncreasing(pidx, |ys|, j);
      PickRemove(ys, pidx, j);
      ListLoopShape(xs, ys, out', Remove(rest, i), Remove(pending, j), Remove(pidx, j));
    }
  }

  /** When no pair is left, the loop appends what is left of `list2`. */
  lemma LoopDoneShape(xs: seq<Json>, ys: seq<Json>, out: seq<Json>, pending: seq<Json>, pidx: seq<nat>)
    requires SlotsFrom(xs, out, ys)
    requires Increasing(pidx, |ys|) && pending == Pick(ys, pidx)
    requires |ys| - |pending| <= |xs|
    ensures var r := out + pending;
      && |xs| <= |r|
      && SlotsFrom(xs, r[..|xs|], ys)
      && Subsequence(r[|xs|..], ys)
      && |ys| - (|r| - |xs|) <= |xs|
  {
    var r := out + pending;
    assert r[..|xs|] == out;
    assert r[|xs|..] == pending;
  }

  /** Merging slot `s` with a matching element of `ys` keeps every slot
      accounted for. */
  lemma SlotsUpdate(xs: seq<Json>, out: seq<Json>, ys: seq<Json>, s: nat, t: nat)
    requires SlotsFrom(xs, out, ys)
    requires s < |xs| && t < |ys| && Matches(xs[s], ys[t])
    ensures SlotsFrom(xs, out[s := Merge(xs[s], ys[t])], ys)
  {
    var out' := out[s := Merge(xs[s], ys[t])];
    forall u | 0 <= u < |xs|
      ensures out'[u] == xs[u]
        || exists v :: 0 <= v < |ys| && Matches(xs[u], ys[v]) && out'[u] == Merge(xs[u], ys[v])
    {
      if u != s {
        assert out'[u] == out[u];
      }
    }
  }

  /** Strictly increasing indices below `bound` number at most `bound`. */
  lemma {:induction false} RestBound(rest: seq<nat>, bound: nat)
    requires Increasing(rest, bound)
    ensures |rest| <= bound
    decreases |rest|
  {
    if rest != [] {
      var last := rest[|rest| - 1];
      assert Increasing(rest[..|rest| - 1], last);
      RestBound(rest[..|rest| - 1], last);
    }
  }

  /** Slot `i` of `out` holds `xs[i]` when `slot[i]` is negative, and
      otherwise `xs[i]` merged with its partner `ys[slot[i]]`, a matching
      element; no element of `ys` is the partner of two slots. */
  ghost predicate Partnered(xs: seq<Json>, ys: seq<Json>, out: seq<Json>, slot: seq<int>) {
    && |out| >= |xs| && |slot| == |xs|
    && (forall i :: 0 <= i < |xs| && slot[i] < 0 ==> out[i] == xs[i])
    && (forall i :: 0 <= i < |xs| && slot[i] >= 0 ==>
          slot[i] < |ys| && Matches(xs[i], ys[slot[i]]) && out[i] == Merge(xs[i], ys[slot[i]]))
    && (forall i, k :: 0 <= i < |xs| && 0 <= k < |xs| && i != k && slot[i] >= 0 ==> slot[i] != slot[k])
  }

  /** What `listParser` returns, pair by pair: the slots of `xs` with their
      partners, then the elements of `ys` that are nobody's partner, in
      their own order; no slot left unmerged matches any of them. */
  ghost predicate MergedPairs(xs: seq<Json>, ys: seq<Json>, r: seq<Json>, slot: seq<int>, left: seq<nat>) {
    && Partnered(xs, ys, r, slot)
    && Increasing(left, |ys|) && |r| == |xs| + |left| && r[|xs|..] == Pick(ys, left)
    && (forall j :: 0 <= j < |ys| ==> (j in left <==> j !in slot))
    && (forall i, k :: 0 <= i < |xs| && 0 <= k < |left| && slot[i] < 0 ==> !Matches(xs[i], ys[left[k]]))
  }

  /** The state of the loop with the partners chosen so far: the unmatched
      slots are those in `rest`, the unused elements of `ys` those in
      `pidx`. */
  ghost predicate LoopPairs(xs: seq<Json>, ys: seq<Json>, out: seq<Json>, rest: seq<nat>, pidx: seq<nat>, slot: seq<int>) {
    && |out| == |xs|
    && Partnered(xs, ys, out, slot)
    && Increasing(rest, |xs|) && Increasing(pidx, |ys|)
    && (forall i :: 0 <= i < |xs| ==> (i in rest <==> slot[i] < 0))
    && (forall j :: 0 <= j < |ys| ==> (j in pidx <==> j !in slot))
  }

  lemma {:induction false} ListLoopPairs(
    xs: seq<Json>, ys: seq<Json>, out: seq<Json>, rest: seq<nat>, pidx: seq<nat>, slot: seq<int>)
    requires LoopPairs(xs, ys, out, rest, pidx, slot)
    ensures exists slot': seq<int>, left: seq<nat> :: MergedPairs(xs, ys, ListLoop(xs, out, rest, Pick(ys, pidx)), slot', left)
    decreases |rest|
  {
    var pending := Pick(ys, pidx);
    var found := FirstPair(Pick(xs, rest), pending);
    if found.None? {
      LoopDonePairs(xs, ys, out, rest, pidx, slot);
      assert ListLoop(xs, out, rest, pending) == out + pending;
      assert MergedPairs(xs, ys, out + pending, slot, pidx);
    } else {
      var i, j := found.value.0, found.value.1;
      var x := xs[rest[i]];
      assert Pick(xs, rest)[i] == x;
      assert pending[j] == ys[pidx[j]];
      var out' := out[rest[i] := Merge(x, ys[pidx[j]])];
      PairsStep(xs, ys, out, rest, pidx, slot, i, j);
      PickRemove(ys, pidx, j);
      assert ListLoop(xs, out, rest, pending) == ListLoop(xs, out', Remove(rest, i), Pick(ys, Remove(pidx, j)));
      ListLoopPairs(xs, ys, out', Remove(rest, i), Remove(pidx, j), slot[rest[i] := pidx[j]]);
    }
  }

  /** No pair left: the pairing is complete. */
  lemma LoopDonePairs(xs: seq<Json>, ys: seq<Json>, out: seq<Json>, rest: seq<nat>, pidx: seq<nat>, slot: seq<int>)
    requires LoopPairs(xs, ys, out, rest, pidx, slot)
    requires FirstPair(Pick(xs, rest), Pick(ys, pidx)).None?
    ensures MergedPairs(xs, ys, out + Pick(ys, pidx), slot, pidx)
  {
    var r := out + Pick(ys, pidx);
    assert r[..|xs|] == out;
    assert r[|xs|..] == Pick(ys, pidx);
    forall i | 0 <= i < |xs| && slot[i] < 0
      ensures r[i] == xs[i]
    {
      assert r[i] == out[i];
    }
    forall i | 0 <= i < |xs| && slot[i] >= 0
      ensures r[i] == Merge(xs[i], ys[slot[i]])
    {
      assert r[i] == out[i];
    }
    forall i, k | 0 <= i < |xs| && 0 <= k < |pidx| && slot[i] < 0
      ensures !Matches(xs[i], ys[pidx[k]])
    {
      assert i in rest;
      var a :| 0 <= a < |rest| && rest[a] == i;
      assert Pick(xs, rest)[a] == xs[i];
      assert Pick(ys, pidx)[k] == ys[pidx[k]];
    }
  }

  /** One merge: slot `rest[i]` takes `ys[pidx[j]]` as its partner. */
  lemma PairsStep(xs: seq<Json>, ys: seq<Json>, out: seq<Json>, rest: seq<nat>, pidx: seq<nat>, slot: seq<int>, i: nat, j: nat)
    requires LoopPairs(xs, ys, out, rest, pidx, slot)
    requires i < |rest| && j < |pidx| && Matches(xs[rest[i]], ys[pidx[j]])
    ensures LoopPairs(xs, ys, out[rest[i] := Merge(xs[rest[i]], ys[pidx[j]])],
      Remove(rest, i), Remove(pidx, j), slot[rest[i] := pidx[j]])
  {
    var s, t := rest[i], pidx[j];
    assert s in rest && t in pidx;
    RemoveIncreasing(rest, |xs|, i);
    RemoveIncreasing(pidx, |ys|, j);
    RemoveMember(rest, |xs|, i);
    RemoveMember(pidx, |ys|, j);
    PartnerAdd(xs, ys, out, slot, s, t);
    SlotValues(slot, s, t, |ys|);
  }

  /** Giving the unpartnered slot `s` the unused partner `t`. */
  lemma PartnerAdd(xs: seq<Json>, ys: seq<Json>, out: seq<Json>, slot: seq<int>, s: nat, t: nat)
    requires Partnered(xs, ys, out, slot) && |out| == |xs|
    requires s < |xs| && slot[s] < 0 && t < |ys| && t !in slot && Matches(xs[s], ys[t])
    ensures Partnered(xs, ys, out[s := Merge(xs[s], ys[t])], slot[s := t])
  {
  }

  /** The values of `slot[s := t]`, for a slot `s` that held no partner. */
  lemma SlotValues(slot: seq<int>, s: nat, t: nat, bound: nat)
    requires s < |slot| && slot[s] < 0
    ensures forall u :: 0 <= u < bound ==> (u in slot[s := t] <==> u in slot || u == t)
  {
    var slot' := slot[s := t];
    forall u | 0 <= u < bound
      ensures u in slot' <==> u in slot || u == t
    {
      if u in slot' {
        var a :| 0 <= a < |slot'| && slot'[a] == u;
        if a != s {
          assert slot[a] == u;
        }
      }
      if u in slot {
        var a :| 0 <= a < |slot| && slot[a] == u;
        assert a != s;
        assert slot'[a] == u;
      }
      if u == t {
        assert slot'[s] == t;
      }
    }
  }

  /** Removing position `i` of increasing indices removes exactly the
      index there. */
  lemma RemoveMember(idx: seq<nat>, bound: nat, i: nat)
    requires Increasing(idx, bound) && i < |idx|
    ensures forall u :: u in Remove(idx, i) <==> u in idx && u != idx[i]
  {
    var r := Remove(idx, i);
    forall u
      ensures u in r <==> u in idx && u != idx[i]
    {
      if u in r {
        var a :| 0 <= a < |r| && r[a] == u;
        assert r[a] == idx[if a < i then a else a + 1];
      }
      if u in idx && u != idx[i] {
        var a :| 0 <= a < |idx| && idx[a] == u;
        assert a != i;
        assert r[if a < i then a else a - 1] == u;
      }
    }
  }

  /** `listParser`: every element of the first list keeps its slot, either
      unchanged or merged with a matching element of the second list, each
      element of the second list the partner of at most one slot; what
      follows is the rest of the second list in its own order, and no slot
      left unmerged matches any of it. */
  lemma MergeListsShape(xs: seq<Json>, ys: seq<Json>)
    ensures var r := Merge(Arr(xs), Arr(ys)).items;
      && |xs| <= |r| <= |xs| + |ys|
      && SlotsFrom(xs, r[..|xs|], ys)
      && Subsequence(r[|xs|..], ys)
      && |ys| - (|r| - |xs|) <= |xs|
    ensures exists slot: seq<int>, left: seq<nat> :: MergedPairs(xs, ys, Merge(Arr(xs), Arr(ys)).items, slot, left)
  {
    MergeListsPairs(xs, ys);
    MergeListsSlots(xs, ys);
  }

  /** The slot-by-slot view of `listParser`, without the pairing. */
  lemma MergeListsSlots(xs: seq<Json>, ys: seq<Json>)
    ensures var r := MergeLists(xs, ys);
      && |xs| <= |r| <= |xs| + |ys|
      && SlotsFrom(xs, r[..|xs|], ys)
      && Subsequence(r[|xs|..], ys)
      && |ys| - (|r| - |xs|) <= |xs|
  {
    var all := Positions(|xs|);
    var pall := Positions(|ys|);
    assert Pick(ys, pall) == ys;
    assert Increasing(all, |xs|) && Increasing(pall, |ys|);
    assert SlotsFrom(xs, xs, ys);
    var r := MergeLists(xs, ys);
    assert r == ListLoop(xs, xs, all, ys);
    ListLoopShape(xs, ys, xs, all, ys, pall);
    var idx :| Increasing(idx, |ys|) && r[|xs|..] == Pick(ys, idx);
    RestBound(idx, |ys|);
  }

  /** The loop starts with no slot partnered and all of `ys` unused. */
  lemma MergeListsPairs(xs: seq<Json>, ys: seq<Json>)
    ensures exists slot: seq<int>, left: seq<nat> :: MergedPairs(xs, ys, MergeLists(xs, ys), slot, left)
  {
    var all := Positions(|xs|);
    var pall := Positions(|ys|);
    var none: seq<int> := seq(|xs|, _ => -1);
    assert Pick(ys, pall) == ys;
    forall i | 0 <= i < |xs|
      ensures i in all
    {
      assert all[i] == i;
    }
    forall j | 0 <= j < |ys|
      ensures j in pall && j !in none
    {
      assert pall[j] == j;
    }
    assert LoopPairs(xs, ys, xs, all, pall, none);
    ListLoopPairs(xs, ys, xs, all, pall, none);
    assert MergeLists(xs, ys) == ListLoop(xs, xs, all, Pick(ys, pall));
  }

  /** An empty first list yields the second list; an empty second list,
      or no matching pair at all, appends the second list unchanged. */
  lemma MergeListsNoMatch(xs: seq<Json>, ys: seq<Json>)
    requires forall i, j :: 0 <= i < |xs| && 0 <= j < |ys| ==> !Matches(xs[i], ys[j])
    ensures Merge(Arr(xs), Arr(ys)) == Arr(xs + ys)
  {
    var all := Positions(|xs|);
    assert Pick(xs, all) == xs;
    assert FirstPair(Pick(xs, all), ys).None?;
    assert ListLoop(xs, xs, all, ys) == xs + ys;
    assert MergeLists(xs, ys) == xs + ys;
  }
}
