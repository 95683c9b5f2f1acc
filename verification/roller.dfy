/** `Roller` and `DieRoller.rollDie`/`rollTotal`: how one die group is
    rolled. Every weighted `choice` reads one ticket from the draw stream
    `src`, starting at position `at`; each roll returns its value together
    with the position of the next unread ticket. */
module Roller {
  import opened Wrappers
  import opened Failures
  import opened JsonValue
  import opened Probability
  import DiePicker
  import Notation
  import Seqs

  /** What `reducer` returns: the multiplier itself, or chunks of at most 5. */
  datatype Multiplier = Single(n: nat) | Chunks(parts: seq<nat>)

  function Fives(k: nat): (r: seq<nat>)
    ensures |r| == k && forall i :: 0 <= i < k ==> r[i] == 5
  {
    if k == 0 then [] else [5] + Fives(k - 1)
  }

  /** The `while True` loop of `reducer`: take 5 off until fewer than 5
      remain, then keep the remainder unless it is 0. `_subtractor` is
      `|m - 5|`, which is `m - 5` here since `m >= 5` on every turn. */
  function ChunkList(m: nat): (parts: seq<nat>)
    requires m >= 5
    ensures |parts| >= 1 && parts[0] == 5
    decreases m
  {
    var rest := m - 5;
    if rest < 5 then [5] + (if rest != 0 then [rest] else [])
    else [5] + ChunkList(rest)
  }

  /** The chunks in closed form: `m / 5` fives, then the remainder if any. */
  lemma {:induction false} ChunkListShape(m: nat)
    requires m >= 5
    ensures ChunkList(m) == Fives(m / 5) + (if m % 5 == 0 then [] else [m % 5])
    decreases m
  {
    if m - 5 >= 5 {
      ChunkListShape(m - 5);
      assert (m - 5) / 5 == m / 5 - 1 && (m - 5) % 5 == m % 5;
      assert Fives(m / 5) == [5] + Fives(m / 5 - 1);
    }
  }

  /** `Roller.reducer`: `None` means one die. */
  function Reduce(m: Option<nat>): (r: Multiplier)
    ensures m.None? ==> r == Single(1)
    ensures m.Some? && m.value <= 5 ==> r == Single(m.value)
    ensures m.Some? && m.value > 5 ==> r.Chunks?
  {
    match m
    case None => Single(1)
    case Some(v) => if v <= 5 then Single(v) else Chunks(ChunkList(v))
  }

  /** `sum(multipler)` for a list, the multiplier itself otherwise. */
  function TotalDice(mult: Multiplier): nat {
    match mult
    case Single(n) => n
    case Chunks(ps) => NatSum(ps)
  }

  function NatSum(xs: seq<nat>): nat {
    if xs == [] then 0 else xs[0] + NatSum(xs[1..])
  }

  lemma {:induction false} FivesSum(k: nat)
    ensures NatSum(Fives(k)) == 5 * k
  {
    if k > 0 {
      FivesSum(k - 1);
      assert Fives(k)[1..] == Fives(k - 1);
    }
  }

  lemma {:induction false} NatSumConcat(a: seq<nat>, b: seq<nat>)
    ensures NatSum(a + b) == NatSum(a) + NatSum(b)
  {
    if a == [] {
      assert a + b == b;
    } else {
      assert (a + b)[1..] == a[1..] + b;
      NatSumConcat(a[1..], b);
    }
  }

  /** The chunks add up to the multiplier, every chunk is 5 except
      possibly a last one between 1 and 4 (13 gives 5, 5, 3). */
  lemma ReduceChunks(m: nat)
    requires m > 5
    ensures var ps := Reduce(Some(m)).parts;
      && NatSum(ps) == m
      && (forall i :: 0 <= i < |ps| ==> 1 <= ps[i] <= 5)
      && (forall i :: 0 <= i < |ps| - 1 ==> ps[i] == 5)
  {
    var ps := ChunkList(m);
    ChunkListShape(m);
    FivesSum(m / 5);
    NatSumConcat(Fives(m / 5), if m % 5 == 0 then [] else [m % 5]);
  }

  /** The multiplier is never changed by chunking. */
  lemma ReduceTotal(m: Option<nat>)
    ensures TotalDice(Reduce(m)) == if m.None? then 1 else m.value
  {
    if m.Some? && m.value > 5 {
      ReduceChunks(m.value);
    }
  }

  /** `_getMaxRoll`: the last face times the number of dice; `die[-1]` on
      an empty face list raises. */
  function MaxRoll(faces: seq<int>, mult: Multiplier): (r: Result<int, Failure>)
    ensures r.Err? <==> faces == []
    ensures r.Ok? ==> r.value == faces[|faces| - 1] * TotalDice(mult)
  {
    if faces == [] then Err(EmptyFaces) else Ok(faces[|faces| - 1] * TotalDice(mult))
  }

  /** One `choice` from the table of `n` dice. */
  function Draw(faces: seq<int>, n: nat, src: nat -> nat, at: nat): (r: Result<int, Failure>)
    ensures r.Ok? ==> CountOf(Table(faces, n), r.value) >= 1
    ensures r.Err? <==> faces == [] && n > 0
  {
    TableEmpty(faces, n);
    Pick(Table(faces, n), src(at))
  }

  /** The table of `n` dice is empty exactly when there are no faces and
      at least one die; zero dice always give the one empty sum. */
  lemma TableEmpty(faces: seq<int>, n: nat)
    ensures WellFormed(Table(faces, n))
    ensures Table(faces, n) == [] <==> faces == [] && n > 0
  {
    TableTotal(faces, n);
    TotalZero(Table(faces, n));
    if faces != [] {
      PowPositive(|faces|, n);
    }
  }

  /** The list branch of `_roller`: one draw per chunk, summed. */
  function RollChunks(faces: seq<int>, ps: seq<nat>, src: nat -> nat, at: nat): (r: Result<(int, nat), Failure>)
    ensures r.Ok? ==> r.value.1 == at + |ps|
    decreases |ps|
  {
    if ps == [] then Ok((0, at))
    else
      var v :- Draw(faces, ps[0], src, at);
      var rest :- RollChunks(faces, ps[1..], src, at + 1);
      Ok((v + rest.0, rest.1))
  }

  /** `Roller._roller`. */
  function Roll(faces: seq<int>, mult: Multiplier, src: nat -> nat, at: nat): (r: Result<(int, nat), Failure>)
    ensures mult.Single? ==> (r.Err? <==> faces == [] && mult.n > 0)
    ensures mult.Single? && r.Ok? ==> CountOf(Table(faces, mult.n), r.value.0) >= 1 && r.value.1 == at + 1
  {
    match mult
    case Single(n) =>
      var v :- Draw(faces, n, src, at);
      Ok((v, at + 1))
    case Chunks(ps) => RollChunks(faces, ps, src, at)
  }

  /** A single roll of `n` dice lands between `n` times the lowest face
      and `n` times the highest. */
  lemma RollRange(faces: seq<int>, n: nat, lo: int, hi: int, src: nat -> nat, at: nat)
    requires forall i :: 0 <= i < |faces| ==> lo <= faces[i] <= hi
    requires Roll(faces, Single(n), src, at).Ok?
    ensures var v := Roll(faces, Single(n), src, at).value.0;
      n * lo <= v <= n * hi
  {
    TableRange(faces, n, lo, hi, Roll(faces, Single(n), src, at).value.0);
  }

  // ---------------------------------------------------------------------
  // Dropping the lowest

  function Min(xs: seq<int>): (m: int)
    requires xs != []
    ensures m in xs && forall i :: 0 <= i < |xs| ==> m <= xs[i]
  {
    if |xs| == 1 then xs[0]
    else
      var m := Min(xs[1..]);
      if xs[0] <= m then xs[0] else m
  }

  /** `xs.pop(xs.index(min(xs)))`. */
  function RemoveMin(xs: seq<int>): (r: seq<int>)
    requires xs != []
    ensures |r| == |xs| - 1
    ensures multiset(r) + multiset{Min(xs)} == multiset(xs)
  {
    DiePicker.RemoveFirst(xs, Min(xs)).value
  }

  /** The values the `k` pops take out, in the order they are popped. */
  function Removed(xs: seq<int>, k: nat): (r: seq<int>)
    requires k <= |xs|
    ensures |r| == k
    decreases k
  {
    if k == 0 then [] else [Min(xs)] + Removed(RemoveMin(xs), k - 1)
  }

  /** `k` times `xs.pop(xs.index(min(xs)))`. */
  function RemoveMins(xs: seq<int>, k: nat): (r: seq<int>)
    requires k <= |xs|
    ensures |r| == |xs| - k
    decreases k
  {
    if k == 0 then xs else RemoveMins(RemoveMin(xs), k - 1)
  }

  /** One pop keeps the other values in their order. */
  lemma RemoveMinPicks(xs: seq<int>) returns (idx: seq<nat>)
    requires xs != []
    ensures Seqs.Picks(RemoveMin(xs), xs, idx)
  {
    var i := DiePicker.IndexOf(xs, Min(xs)).value;
    assert RemoveMin(xs) == DiePicker.RemoveAt(xs, i);
    idx := seq(|xs| - 1, a requires 0 <= a < |xs| - 1 => if a < i then a else a + 1);
  }

  /** The values left after `k` pops keep their order. */
  lemma {:induction false} RemoveMinsPicks(xs: seq<int>, k: nat) returns (idx: seq<nat>)
    requires k <= |xs|
    ensures Seqs.Picks(RemoveMins(xs, k), xs, idx)
    decreases k
  {
    if k == 0 {
      idx := Seqs.PicksAll(xs);
    } else {
      var m := RemoveMin(xs);
      var i2 := RemoveMinPicks(xs);
      var i1 := RemoveMinsPicks(m, k - 1);
      idx := Seqs.PicksTrans(RemoveMins(m, k - 1), m, xs, i1, i2);
    }
  }

  /** After `k` pops the values left are a subsequence of the list. */
  lemma RemoveMinsInOrder(xs: seq<int>, k: nat)
    requires k <= |xs|
    ensures exists idx :: Seqs.Picks(RemoveMins(xs, k), xs, idx)
  {
    var idx := RemoveMinsPicks(xs, k);
  }

  /** Taking one element out of a list takes its value out of the sum. */
  lemma SumRemoveAt(b: seq<int>, i: nat)
    requires i < |b|
    ensures Sum(b) == b[i] + Sum(b[..i] + b[i + 1..])
  {
    assert b[..i] + b[i..] == b;
    SumConcat(b[..i], b[i..]);
    assert b[i..][1..] == b[i + 1..];
    SumConcat(b[..i], b[i + 1..]);
  }

  lemma RemoveAtSplit(b: seq<int>, i: nat)
    requires i < |b|
    ensures DiePicker.RemoveAt(b, i) == b[..i] + b[i + 1..]
  {
  }

  /** A position of `b` holding the first value of `a`, when both hold the same values. */
  lemma PickIn(a: seq<int>, b: seq<int>) returns (i: nat)
    requires a != [] && multiset(a) == multiset(b)
    ensures i < |b| && b[i] == a[0]
  {
    assert a[0] in multiset(a);
    i := DiePicker.IndexOf(b, a[0]).value;
  }

  lemma MultisetTail(a: seq<int>, b: seq<int>, i: nat)
    requires a != [] && multiset(a) == multiset(b)
    requires i < |b| && b[i] == a[0]
    ensures multiset(a[1..]) == multiset(DiePicker.RemoveAt(b, i))
  {
    assert a == [a[0]] + a[1..];
  }

  /** The sum depends only on the values, not their order. */
  lemma {:induction false} SumMultiset(a: seq<int>, b: seq<int>)
    requires multiset(a) == multiset(b)
    ensures Sum(a) == Sum(b)
    decreases |a|
  {
    if a == [] {
      assert |b| == |multiset(b)| == 0;
    } else {
      var i := PickIn(a, b);
      var rest := DiePicker.RemoveAt(b, i);
      SumRemoveAt(b, i);
      RemoveAtSplit(b, i);
      MultisetTail(a, b, i);
      SumMultiset(a[1..], rest);
      assert Sum(a) == a[0] + Sum(a[1..]);
    }
  }

  /** Every value left after popping the minimum is at least the one popped. */
  lemma RemoveMinBelow(xs: seq<int>)
    requires xs != []
    ensures forall b :: b in RemoveMin(xs) ==> Min(xs) <= b
  {
    forall b | b in RemoveMin(xs)
      ensures Min(xs) <= b
    {
      assert b in multiset(RemoveMin(xs));
      assert b in multiset(xs);
    }
  }

  /** The `k` pops take out `k` smallest values: what is removed and what
      is kept make up the draws, and nothing removed exceeds anything kept. */
  lemma RemoveMinsSplit(xs: seq<int>, k: nat)
    requires k <= |xs|
    ensures multiset(RemoveMins(xs, k)) + multiset(Removed(xs, k)) == multiset(xs)
    ensures Sum(RemoveMins(xs, k)) == Sum(xs) - Sum(Removed(xs, k))
    ensures forall a, b :: a in Removed(xs, k) && b in RemoveMins(xs, k) ==> a <= b
  {
    RemoveMinsMultiset(xs, k);
    RemoveMinsSum(xs, k);
    RemoveMinsOrder(xs, k);
  }

  lemma {:induction false} RemoveMinsMultiset(xs: seq<int>, k: nat)
    requires k <= |xs|
    ensures multiset(RemoveMins(xs, k)) + multiset(Removed(xs, k)) == multiset(xs)
    decreases k
  {
    if k > 0 {
      var ys := RemoveMin(xs);
      RemoveMinsMultiset(ys, k - 1);
      PopStep(xs, k);
      MultisetRegroup(multiset(RemoveMins(ys, k - 1)), multiset(Removed(ys, k - 1)), multiset(ys), multiset(xs), Min(xs));
    }
  }

  /** One pop: the minimum goes to the removed side, the rest carries on. */
  lemma PopStep(xs: seq<int>, k: nat)
    requires 0 < k <= |xs|
    ensures RemoveMins(xs, k) == RemoveMins(RemoveMin(xs), k - 1)
    ensures Removed(xs, k) == [Min(xs)] + Removed(RemoveMin(xs), k - 1)
    ensures multiset(Removed(xs, k)) == multiset{Min(xs)} + multiset(Removed(RemoveMin(xs), k - 1))
    ensures multiset(RemoveMin(xs)) + multiset{Min(xs)} == multiset(xs)
  {
  }

  lemma MultisetRegroup(kept: multiset<int>, gone: multiset<int>, ys: multiset<int>, xs: multiset<int>, m: int)
    requires kept + gone == ys && ys + multiset{m} == xs
    ensures kept + (multiset{m} + gone) == xs
  {
  }

  lemma RemoveMinsSum(xs: seq<int>, k: nat)
    requires k <= |xs|
    ensures Sum(RemoveMins(xs, k)) == Sum(xs) - Sum(Removed(xs, k))
  {
    var kept, gone := RemoveMins(xs, k), Removed(xs, k);
    RemoveMinsMultiset(xs, k);
    assert multiset(kept + gone) == multiset(xs);
    SumMultiset(kept + gone, xs);
    SumConcat(kept, gone);
  }

  lemma {:induction false} RemoveMinsOrder(xs: seq<int>, k: nat)
    requires k <= |xs|
    ensures forall a, b :: a in Removed(xs, k) && b in RemoveMins(xs, k) ==> a <= b
    decreases k
  {
    if k > 0 {
      RemoveMinsOrder(RemoveMin(xs), k - 1);
      PopOrder(xs, k, k - 1);
    }
  }

  /** One pop keeps the order: the minimum taken first is below everything
      the later pops keep. */
  lemma PopOrder(xs: seq<int>, k: nat, j: nat)
    requires 0 < k <= |xs| && j + 1 == k
    requires forall a, b :: a in Removed(RemoveMin(xs), j) && b in RemoveMins(RemoveMin(xs), j) ==> a <= b
    ensures forall a, b :: a in Removed(xs, k) && b in RemoveMins(xs, k) ==> a <= b
  {
    var m, ys := Min(xs), RemoveMin(xs);
    RemoveMinsMultiset(ys, j);
    RemoveMinBelow(xs);
    PopStep(xs, k);
    var kept, gone := RemoveMins(ys, j), Removed(ys, j);
    forall a, b | a in [m] + gone && b in kept
      ensures a <= b
    {
      assert b in multiset(kept);
      assert b in multiset(ys);
      if a != m {
        assert a in gone;
      }
    }
  }

  /** `m` draws of one die each, the `choices` of `_dropLowest`. */
  function Draws(faces: seq<int>, m: nat, src: nat -> nat, at: nat): (r: Result<seq<int>, Failure>)
    ensures r.Ok? ==> |r.value| == m
    ensures r.Ok? ==> forall i :: 0 <= i < m ==> r.value[i] in faces
    ensures r.Err? <==> faces == [] && m > 0
    decreases m
  {
    if m == 0 then Ok([])
    else
      var d := Draw(faces, 1, src, at);
      if d.Err? then Err(d.error)
      else
        SingleTableFaces(faces, d.value);
        Ok([d.value] + Draws(faces, m - 1, src, at + 1).value)
  }

  /** How many values `_dropLowest` pops: one when `dropLowest` is not an
      `int` (so `True`), else the count itself; a negative count pops none. */
  function DropCount(dl: Json): nat {
    if dl.Int? then (if dl.i > 0 then dl.i else 0) else 1
  }

  /** `Roller._dropLowest`: `multipler <= dropLowest` raises, and so does a
      comparison against a value that is not a number. */
  function DropLowest(faces: seq<int>, mult: Multiplier, dl: Json, src: nat -> nat, at: nat): (r: Result<(int, nat), Failure>)
    ensures AsNumber(dl).None? ==> r == Err(NotNumeric)
    ensures AsNumber(dl).Some? && TotalDice(mult) <= AsNumber(dl).value ==> r == Err(DropTooMany)
    ensures r.Ok? ==> r.value.1 == at + TotalDice(mult)
  {
    var m := TotalDice(mult);
    match AsNumber(dl)
    case None => Err(NotNumeric)
    case Some(k) =>
      if m <= k then Err(DropTooMany)
      else
        var draws := Draws(faces, m, src, at);
        if draws.Err? then Err(draws.error)
        else Ok((Sum(RemoveMins(draws.value, DropCount(dl))), at + m))
  }

  /** What a successful `_dropLowest` computed: the draws came out and the
      sum of what is left after the pops. */
  lemma DropLowestIs(faces: seq<int>, mult: Multiplier, dl: Json, src: nat -> nat, at: nat)
    requires DropLowest(faces, mult, dl, src, at).Ok?
    ensures var draws := Draws(faces, TotalDice(mult), src, at);
      && draws.Ok? && DropCount(dl) <= TotalDice(mult)
      && DropLowest(faces, mult, dl, src, at).value.0 == Sum(RemoveMins(draws.value, DropCount(dl)))
  {
  }

  /** The result is the sum of the draws less their `k` smallest, and lies
      between `m - k` times the lowest face and `m - k` times the highest. */
  lemma DropLowestValue(faces: seq<int>, mult: Multiplier, dl: Json, src: nat -> nat, at: nat, lo: int, hi: int)
    requires forall i :: 0 <= i < |faces| ==> lo <= faces[i] <= hi
    requires DropLowest(faces, mult, dl, src, at).Ok?
    ensures var draws := Draws(faces, TotalDice(mult), src, at);
      var k := DropCount(dl);
      var v := DropLowest(faces, mult, dl, src, at).value.0;
      && draws.Ok? && k <= TotalDice(mult)
      && v == Sum(draws.value) - Sum(Removed(draws.value, k))
      && (TotalDice(mult) - k) * lo <= v <= (TotalDice(mult) - k) * hi
  {
    DropLowestIs(faces, mult, dl, src, at);
    var m := TotalDice(mult);
    var draws := Draws(faces, m, src, at).value;
    var k := DropCount(dl);
    RemoveMinsSum(draws, k);
    KeptRange(faces, draws, m, k, lo, hi);
  }

  /** Whatever is kept after the pops is still a face. */
  lemma KeptRange(faces: seq<int>, draws: seq<int>, m: nat, k: nat, lo: int, hi: int)
    requires forall i :: 0 <= i < |faces| ==> lo <= faces[i] <= hi
    requires forall i :: 0 <= i < |draws| ==> draws[i] in faces
    requires |draws| == m && k <= m
    ensures (m - k) * lo <= Sum(RemoveMins(draws, k)) <= (m - k) * hi
  {
    var kept := RemoveMins(draws, k);
    forall i | 0 <= i < |kept|
      ensures lo <= kept[i] <= hi
    {
      KeptFace(faces, draws, k, kept[i]);
    }
    assert |kept| == m - k;
    SumRange(kept, lo, hi);
  }

  lemma KeptFace(faces: seq<int>, draws: seq<int>, k: nat, x: int)
    requires forall i :: 0 <= i < |draws| ==> draws[i] in faces
    requires k <= |draws| && x in RemoveMins(draws, k)
    ensures x in faces
  {
    RemoveMinsMultiset(draws, k);
    assert x in multiset(RemoveMins(draws, k));
    assert x in multiset(draws);
    var j :| 0 <= j < |draws| && draws[j] == x;
  }

  /** The upper bound alone, with no lower bound to carry. */
  lemma KeptAtMost(faces: seq<int>, draws: seq<int>, m: nat, k: nat, hi: int)
    requires forall i :: 0 <= i < |faces| ==> faces[i] <= hi
    requires forall i :: 0 <= i < |draws| ==> draws[i] in faces
    requires |draws| == m && k <= m
    ensures Sum(RemoveMins(draws, k)) <= (m - k) * hi
  {
    var kept := RemoveMins(draws, k);
    forall i | 0 <= i < |kept|
      ensures kept[i] <= hi
    {
      KeptFace(faces, draws, k, kept[i]);
    }
    assert |kept| == m - k;
    SumAtMost(kept, hi);
  }

  lemma {:induction false} SumAtMost(xs: seq<int>, hi: int)
    requires forall i :: 0 <= i < |xs| ==> xs[i] <= hi
    ensures Sum(xs) <= |xs| * hi
  {
    if xs != [] {
      SumAtMost(xs[1..], hi);
    }
  }

  lemma {:induction false} SumRange(xs: seq<int>, lo: int, hi: int)
    requires forall i :: 0 <= i < |xs| ==> lo <= xs[i] <= hi
    ensures |xs| * lo <= Sum(xs) <= |xs| * hi
  {
    if xs != [] {
      SumRange(xs[1..], lo, hi);
    }
  }

  // ---------------------------------------------------------------------
  // Rerolling a low total

  /** The roll `_rerollTotal` repeats: `_dropLowest` when `dropLowest` is
      truthy, `_roller` otherwise. */
  function RollOnce(faces: seq<int>, mult: Multiplier, dl: Json, src: nat -> nat, at: nat): Result<(int, nat), Failure> {
    if Truthy(dl) then DropLowest(faces, mult, dl, src, at) else Roll(faces, mult, src, at)
  }

  /** The roll `_rerollTotal` repeats, as a function of the ticket it
      starts at. */
  function Retry(faces: seq<int>, mult: Multiplier, dl: Json, src: nat -> nat): nat -> Result<(int, nat), Failure> {
    p => RollOnce(faces, mult, dl, src, p)
  }

  /** The `while count < 11` loop with `left` attempts remaining; each
      attempt `roll(p)` starts at ticket `p` and tells where the next one
      starts. */
  function Attempts(roll: nat -> Result<(int, nat), Failure>, threshold: int, left: nat, at: nat): (r: Result<(int, nat), Failure>)
    ensures r.Ok? ==> r.value.0 > threshold
    ensures left == 0 ==> r == Err(RerollsExhausted)
    decreases left
  {
    if left == 0 then Err(RerollsExhausted)
    else
      var first := roll(at);
      if first.Err? || first.value.0 > threshold then first
      else Attempts(roll, threshold, left - 1, first.value.1)
  }

  const MaxAttempts: nat := 11

  /** `Roller._rerollTotal`: a threshold at or above the maximum roll
      raises before any roll; otherwise up to 11 attempts. */
  function RerollTotal(faces: seq<int>, mult: Multiplier, threshold: Json, dl: Json, src: nat -> nat, at: nat): (r: Result<(int, nat), Failure>)
    ensures faces == [] ==> r == Err(EmptyFaces)
    ensures faces != [] && AsNumber(threshold).None? ==> r == Err(NotNumeric)
    ensures (faces != [] && AsNumber(threshold).Some? && AsNumber(threshold).value >= faces[|faces| - 1] * TotalDice(mult))
              ==> r == Err(ThresholdTooHigh)
    ensures r.Ok? ==> AsNumber(threshold).Some? && r.value.0 > AsNumber(threshold).value
  {
    var top :- MaxRoll(faces, mult);
    match AsNumber(threshold)
    case None => Err(NotNumeric)
    case Some(t) =>
      if t >= top then Err(ThresholdTooHigh)
      else Attempts(Retry(faces, mult, dl, src), t, MaxAttempts, at)
  }

  /** The attempts stop at the first total above the threshold: a first
      attempt above it is returned as it is, one at or below it is
      discarded and the remaining attempts continue from the next ticket. */
  lemma AttemptsFirst(roll: nat -> Result<(int, nat), Failure>, threshold: int, left: nat, at: nat)
    requires left > 0 && roll(at).Ok?
    ensures Attempts(roll, threshold, left, at) ==
      if roll(at).value.0 > threshold then roll(at)
      else Attempts(roll, threshold, left - 1, roll(at).value.1)
  {
  }

  /** When every attempt rolls but none can beat the threshold, whatever
      the draws, the attempts run out. */
  lemma {:induction false} AttemptsExhaust(roll: nat -> Result<(int, nat), Failure>, threshold: int, left: nat, at: nat)
    requires forall p: nat :: roll(p).Ok? && roll(p).value.0 <= threshold
    ensures Attempts(roll, threshold, left, at) == Err(RerollsExhausted)
    decreases left
  {
    if left > 0 {
      AttemptsExhaust(roll, threshold, left - 1, roll(at).value.1);
    }
  }

  /** Below the guard, `_rerollTotal` goes straight to its attempts. */
  lemma RerollTotalRuns(faces: seq<int>, mult: Multiplier, t: int, dl: Json, src: nat -> nat, at: nat)
    requires faces != [] && t < faces[|faces| - 1] * TotalDice(mult)
    ensures RerollTotal(faces, mult, Int(t), dl, src, at) == Attempts(Retry(faces, mult, dl, src), t, MaxAttempts, at)
  {
  }

  /** With `k` of `m` dice dropped, a drop-lowest roll never exceeds
      `m - k` times the highest face. */
  lemma DropAttemptBelow(faces: seq<int>, mult: Multiplier, k: nat, src: nat -> nat, p: nat)
    requires faces != [] && 1 <= k < TotalDice(mult)
    requires forall i :: 0 <= i < |faces| ==> faces[i] <= faces[|faces| - 1]
    ensures var roll := RollOnce(faces, mult, Int(k), src, p);
      roll.Ok? && roll.value.0 <= (TotalDice(mult) - k) * faces[|faces| - 1]
  {
    var hi := faces[|faces| - 1];
    assert RollOnce(faces, mult, Int(k), src, p) == DropLowest(faces, mult, Int(k), src, p);
    assert Draws(faces, TotalDice(mult), src, p).Ok?;
    DropLowestAtMost(faces, mult, Int(k), k, src, p, hi);
  }

  /** The upper half of `DropLowestValue`, for a known pop count `k`. */
  lemma DropLowestAtMost(faces: seq<int>, mult: Multiplier, dl: Json, k: nat, src: nat -> nat, at: nat, hi: int)
    requires forall i :: 0 <= i < |faces| ==> faces[i] <= hi
    requires DropLowest(faces, mult, dl, src, at).Ok? && DropCount(dl) == k
    ensures DropLowest(faces, mult, dl, src, at).value.0 <= (TotalDice(mult) - k) * hi
  {
    DropLowestIs(faces, mult, dl, src, at);
    DrawsKeptAtMost(faces, mult, dl, k, src, at, hi);
  }

  lemma DrawsKeptAtMost(faces: seq<int>, mult: Multiplier, dl: Json, k: nat, src: nat -> nat, at: nat, hi: int)
    requires forall i :: 0 <= i < |faces| ==> faces[i] <= hi
    requires DropLowest(faces, mult, dl, src, at).Ok? && DropCount(dl) == k
    ensures k <= TotalDice(mult)
    ensures Sum(RemoveMins(Draws(faces, TotalDice(mult), src, at).value, k)) <= (TotalDice(mult) - k) * hi
  {
    DropLowestIs(faces, mult, dl, src, at);
    var m := TotalDice(mult);
    KeptAtMost(faces, Draws(faces, m, src, at).value, m, k, hi);
  }

  lemma DropNeverBeats(faces: seq<int>, mult: Multiplier, k: nat, threshold: int, src: nat -> nat)
    requires faces != [] && 1 <= k < TotalDice(mult)
    requires forall i :: 0 <= i < |faces| ==> faces[i] <= faces[|faces| - 1]
    requires (TotalDice(mult) - k) * faces[|faces| - 1] <= threshold
    ensures var roll := Retry(faces, mult, Int(k), src);
      forall p: nat :: roll(p).Ok? && roll(p).value.0 <= threshold
  {
    var roll := Retry(faces, mult, Int(k), src);
    forall p: nat
      ensures roll(p).Ok? && roll(p).value.0 <= threshold
    {
      DropAttemptBelow(faces, mult, k, src, p);
      assert roll(p) == RollOnce(faces, mult, Int(k), src, p);
    }
  }

  /** The guard of `_rerollTotal` counts every die, also the ones
      `dropLowest` throws away: with `k` of `m` dice dropped and a threshold
      from `m - k` up to `m` times the highest face, the guard lets the call
      through but no attempt can beat the threshold, so the rerolls always
      run out. */
  lemma RerollDropGap(faces: seq<int>, mult: Multiplier, k: nat, threshold: int, src: nat -> nat, at: nat)
    requires faces != [] && 1 <= k < TotalDice(mult)
    requires forall i :: 0 <= i < |faces| ==> faces[i] <= faces[|faces| - 1]
    requires (TotalDice(mult) - k) * faces[|faces| - 1] <= threshold < faces[|faces| - 1] * TotalDice(mult)
    ensures RerollTotal(faces, mult, Int(threshold), Int(k), src, at) == Err(RerollsExhausted)
  {
    DropNeverBeats(faces, mult, k, threshold, src);
    AttemptsExhaust(Retry(faces, mult, Int(k), src), threshold, MaxAttempts, at);
    RerollTotalRuns(faces, mult, threshold, Int(k), src, at);
  }

  // ---------------------------------------------------------------------
  // One die group

  /** `DieRoller.rollDie` for the `(faces, multiplier)` pair: a
      `rerollTotal` that is present and not `None` wins over a truthy
      `dropLowest`; otherwise a plain roll. `_rerollTotal` receives the
      options as keyword arguments next to its positional `die` and
      `multipler`, so an option of either name raises there. */
  function RollDie(numbers: Notation.Numbers, options: Fields, src: nat -> nat, at: nat): (r: Result<(int, nat), Failure>)
    ensures var rt := Get(options, "rerollTotal");
      rt.Some? && !rt.value.Null? && r.Ok? ==> AsNumber(rt.value).Some? && r.value.0 > AsNumber(rt.value).value
    ensures var rt := Get(options, "rerollTotal");
      rt.Some? && !rt.value.Null? && (Get(options, "die").Some? || Get(options, "multipler").Some?) ==>
        r == Err(RepeatedArgument)
  {
    var mult := Reduce(Some(numbers.multiplier));
    var rt := Get(options, "rerollTotal");
    var dl := Get(options, "dropLowest");
    if rt.Some? && !rt.value.Null? then
      if Get(options, "die").Some? || Get(options, "multipler").Some? then Err(RepeatedArgument)
      else RerollTotal(numbers.faces, mult, rt.value, if dl.Some? then dl.value else Bool(false), src, at)
    else if dl.Some? && Truthy(dl.value) then
      DropLowest(numbers.faces, mult, dl.value, src, at)
    else
      Roll(numbers.faces, mult, src, at)
  }

  /** Precedence in `rollDie`: with a `rerollTotal` present, the result is
      that of `_rerollTotal`, whatever `dropLowest` says; without one, a
      truthy `dropLowest` decides. */
  lemma RollDieDispatch(numbers: Notation.Numbers, options: Fields, src: nat -> nat, at: nat)
    ensures var mult := Reduce(Some(numbers.multiplier));
      var rt := Get(options, "rerollTotal");
      var dl := Get(options, "dropLowest");
      && (rt.Some? && !rt.value.Null? && Get(options, "die").None? && Get(options, "multipler").None? ==>
            RollDie(numbers, options, src, at) ==
              RerollTotal(numbers.faces, mult, rt.value, if dl.Some? then dl.value else Bool(false), src, at))
      && ((rt.None? || rt.value.Null?) && dl.Some? && Truthy(dl.value) ==>
            RollDie(numbers, options, src, at) == DropLowest(numbers.faces, mult, dl.value, src, at))
      && ((rt.None? || rt.value.Null?) && (dl.None? || !Truthy(dl.value)) ==>
            RollDie(numbers, options, src, at) == Roll(numbers.faces, mult, src, at))
  {
  }

  /** The tail of `rollTotal`: an empty folded modifier leaves the roll
      alone, any other is added to it. */
  function AddModifier(roll: Result<(int, nat), Failure>, folded: Result<string, Failure>): (r: Result<(int, nat), Failure>)
    ensures r.Ok? <==> roll.Ok? && folded.Ok?
    ensures r.Ok? && roll.Ok? && folded.Ok? ==>
      r.value.0 == roll.value.0 + Notation.ReadSigned(folded.value) && r.value.1 == roll.value.1
  {
    var v :- roll;
    var m :- folded;
    if m == "" then Ok(v) else Ok((v.0 + Notation.ReadSigned(m), v.1))
  }

  /** `DieRoller.rollTotal`: the roll plus the modifier as `_determineModifier`
      folds it; `eval(str(roll) + m)` on a folded `m` is the roll plus the
      value of the whole modifier. A roll that fails and a modifier that
      cannot be folded both fail the call. */
  function RollTotal(numbers: Notation.Numbers, modifier: string, options: Fields, src: nat -> nat, at: nat): (r: Result<(int, nat), Failure>)
    ensures !StringKeys(options) ==> r == Err(KeywordNotString)
    ensures r.Ok? <==> StringKeys(options) && RollDie(numbers, options, src, at).Ok? && Notation.ModifierValue(modifier).Ok?
    ensures var roll, mod := RollDie(numbers, options, src, at), Notation.ModifierValue(modifier);
      r.Ok? && roll.Ok? && mod.Ok? ==> r.value.0 == roll.value.0 + mod.value && r.value.1 == roll.value.1
  {
    if !StringKeys(options) then Err(KeywordNotString)
    else
      ModifierApplied(RollDie(numbers, options, src, at), modifier);
      AddModifier(RollDie(numbers, options, src, at), Notation.DetermineModifier(modifier))
  }

  /** `**dict(dieOptions)` needs every key to be a string. */
  predicate StringKeys(options: Fields) {
    forall i :: 0 <= i < |options| ==> options[i].0.SKey?
  }

  /** Adding the folded modifier adds the modifier's value. */
  lemma ModifierApplied(roll: Result<(int, nat), Failure>, modifier: string)
    ensures var r := AddModifier(roll, Notation.DetermineModifier(modifier));
      var mod := Notation.ModifierValue(modifier);
      && (r.Ok? <==> roll.Ok? && mod.Ok?)
      && (r.Ok? && roll.Ok? && mod.Ok? ==> r.value.0 == roll.value.0 + mod.value && r.value.1 == roll.value.1)
  {
  }

  /** Reading a folded modifier back: one or two digits keep their value,
      three or more read as no modifier at all. */
  lemma RefoldValue(v: int)
    ensures Notation.ModifierValue(Notation.ShowSigned(v)) == Ok(if -99 <= v <= 99 then v else 0)
  {
    if -99 <= v <= 99 {
      Notation.RefoldSmall(v);
      Notation.ReadShowSigned(v);
    } else {
      Notation.RefoldLarge(v);
      assert Notation.ReadSigned("") == 0;
    }
  }

  /** The modifier of a group is folded once when the notation is read and
      again here: a net modifier of one or two digits is applied, one that
      needs three digits is lost. */
  lemma RollTotalRefold(numbers: Notation.Numbers, v: int, options: Fields, src: nat -> nat, at: nat)
    requires StringKeys(options) && RollDie(numbers, options, src, at).Ok?
    ensures var roll := RollDie(numbers, options, src, at).value;
      var r := RollTotal(numbers, Notation.ShowSigned(v), options, src, at);
      && r.Ok?
      && r.value.0 == roll.0 + (if -99 <= v <= 99 then v else 0)
      && r.value.1 == roll.1
  {
    RefoldValue(v);
  }
}
