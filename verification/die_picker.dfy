/** `DiePicker`: the face values of one die. A supported size gives the
    faces `1..size`; rerolled faces are removed; `subAll`/`addAll` then
    shift every remaining face. */
module DiePicker {
  import opened Wrappers
  import opened Failures

  /** The keys of `DiePicker.diceDict`. */
  const Sizes: set<int> := {2, 4, 6, 8, 10, 12, 20, 24, 30, 100}

  /** `diceDict.get(size)`. */
  function FaceTable(size: int): Option<seq<int>> {
    if size in Sizes then Some(seq(size, i requires 0 <= i < size => i + 1)) else None
  }

  /** What `rerollDie` can be: absent, one face value, or a list of them. */
  datatype Reroll = NoReroll | RerollValue(v: int) | RerollValues(vs: seq<int>)

  predicate Ascending(xs: seq<int>) {
    forall i, j :: 0 <= i < j < |xs| ==> xs[i] < xs[j]
  }

  /** `list.index(v)`: the first position holding `v`. */
  function IndexOf(xs: seq<int>, v: int): (r: Option<nat>)
    ensures r.Some? <==> v in xs
    ensures r.Some? ==> r.value < |xs| && xs[r.value] == v && v !in xs[..r.value]
  {
    if xs == [] then None
    else if xs[0] == v then Some(0)
    else
      var t := IndexOf(xs[1..], v);
      if t.None? then None
      else
        assert xs[..t.value + 1] == [xs[0]] + xs[1..][..t.value];
        Some(t.value + 1)
  }

  /** `list.pop(k)`: the list without position `k`. */
  function RemoveAt(xs: seq<int>, k: nat): (r: seq<int>)
    requires k < |xs|
    ensures |r| == |xs| - 1
    ensures forall a :: 0 <= a < |r| ==> r[a] == xs[if a < k then a else a + 1]
    ensures multiset(r) == multiset(xs) - multiset{xs[k]}
  {
    assert xs == xs[..k] + [xs[k]] + xs[k + 1..];
    xs[..k] + xs[k + 1..]
  }

  lemma RemoveAtAscending(xs: seq<int>, k: nat)
    requires k < |xs|
    ensures Ascending(xs) ==> Ascending(RemoveAt(xs, k))
  {
    var r := RemoveAt(xs, k);
    if Ascending(xs) {
      forall a, b | 0 <= a < b < |r|
        ensures r[a] < r[b]
      {
        assert r[a] == xs[if a < k then a else a + 1];
        assert r[b] == xs[if b < k then b else b + 1];
      }
    }
  }

  /** `numList.pop(numList.index(num))`: removes the first occurrence;
      `index` raises when there is none. */
  function RemoveFirst(xs: seq<int>, v: int): (r: Option<seq<int>>)
    ensures r.Some? <==> v in xs
    ensures r.Some? ==> |r.value| == |xs| - 1 && multiset(r.value) == multiset(xs) - multiset{v}
    ensures r.Some? && Ascending(xs) ==> Ascending(r.value)
  {
    var i := IndexOf(xs, v);
    if i.None? then None
    else
      RemoveAtAscending(xs, i.value);
      Some(RemoveAt(xs, i.value))
  }

  /** The loop `for num in number: die = _removeNumber(die, num)`. */
  function RemoveEach(xs: seq<int>, vs: seq<int>): (r: Option<seq<int>>)
    ensures r.Some? <==> multiset(vs) <= multiset(xs)
    ensures r.Some? ==> |r.value| == |xs| - |vs| && multiset(r.value) == multiset(xs) - multiset(vs)
    ensures r.Some? && Ascending(xs) ==> Ascending(r.value)
    decreases |vs|
  {
    if vs == [] then Some(xs)
    else
      assert vs == [vs[0]] + vs[1..];
      SubMultisetStep(vs[0], vs[1..], xs);
      match RemoveFirst(xs, vs[0])
      case None => None
      case Some(t) => RemoveEach(t, vs[1..])
  }

  /** `v :: rest` fits in `xs` exactly when `v` does and `rest` fits in
      what is left once one `v` is taken out. */
  lemma SubMultisetStep(v: int, rest: seq<int>, xs: seq<int>)
    ensures multiset([v] + rest) <= multiset(xs) <==>
            v in xs && multiset(rest) <= multiset(xs) - multiset{v}
  {
    var m := multiset([v] + rest);
    assert m == multiset{v} + multiset(rest);
    if m <= multiset(xs) {
      assert m[v] >= 1;
      assert v in multiset(xs);
    }
  }

  /** `[x - subAll for x in ...]` then `[x + addAll for x in ...]`; the
      source skips a zero shift, which changes nothing. */
  function Shift(xs: seq<int>, sub: int, add: int): (r: seq<int>)
    ensures |r| == |xs| && forall i :: 0 <= i < |xs| ==> r[i] == xs[i] - sub + add
    ensures Ascending(xs) ==> Ascending(r)
  {
    seq(|xs|, i requires 0 <= i < |xs| => xs[i] - sub + add)
  }

  /** A value is a shifted face exactly when moving it back gives a face. */
  lemma ShiftMembers(xs: seq<int>, sub: int, add: int, x: int)
    ensures x in Shift(xs, sub, add) <==> x + sub - add in xs
  {
    var r := Shift(xs, sub, add);
    if x + sub - add in xs {
      var i :| 0 <= i < |xs| && xs[i] == x + sub - add;
      assert r[i] == x;
    }
    if x in r {
      var i :| 0 <= i < |r| && r[i] == x;
      assert xs[i] == x + sub - add;
    }
  }

  /** Removing one value from an ascending list keeps every other value. */
  lemma RemoveFirstMembers(xs: seq<int>, v: int, y: int)
    requires Ascending(xs) && RemoveFirst(xs, v).Some?
    ensures y in RemoveFirst(xs, v).value <==> y in xs && y != v
  {
    var kept := RemoveFirst(xs, v).value;
    AscendingCounts(xs);
    assert multiset(kept)[y] == multiset(xs)[y] - multiset{v}[y];
    assert y in kept <==> multiset(kept)[y] > 0;
  }

  /** Removing a list of values from an ascending list keeps exactly the
      values not listed. */
  lemma RemoveEachMembers(xs: seq<int>, vs: seq<int>, x: int)
    requires Ascending(xs) && RemoveEach(xs, vs).Some?
    ensures x in RemoveEach(xs, vs).value <==> x in xs && x !in vs
  {
    var kept := RemoveEach(xs, vs).value;
    AscendingCounts(xs);
    assert multiset(kept)[x] == multiset(xs)[x] - multiset(vs)[x];
    assert x in vs <==> multiset(vs)[x] > 0;
    assert x in kept <==> multiset(kept)[x] > 0;
  }

  /** `DiePicker.getDie`: `Ok(None)` where the source returns `None`,
      `Err` where it raises. */
  function GetDie(size: int, reroll: Reroll, sub: int, add: int): (r: Result<Option<seq<int>>, Failure>)
    ensures r.Ok? && r.value.Some? ==> size in Sizes && Ascending(r.value.value)
    ensures reroll.NoReroll? ==> r.Ok? && (r.value.None? <==> size !in Sizes)
  {
    var table := FaceTable(size);
    match reroll
    case NoReroll =>
      if table.None? then Ok(None) else Ok(Some(Shift(table.value, sub, add)))
    case RerollValue(v) =>
      if v == 1 then
        if table.None? then Err(NoFaceTable) else Ok(Some(Shift(table.value[1..], sub, add)))
      else if table.None? then Ok(None)
      else
        var kept := RemoveFirst(table.value, v);
        if kept.None? then Err(FaceNotPresent) else Ok(Some(Shift(kept.value, sub, add)))
    case RerollValues(vs) =>
      if table.None? then Ok(None)
      else
        var kept := RemoveEach(table.value, vs);
        if kept.None? then Err(FaceNotPresent) else Ok(Some(Shift(kept.value, sub, add)))
  }

  /** The table of a supported size: the faces `1..size`, ascending. */
  lemma FaceTableFacts(size: int)
    requires size in Sizes
    ensures FaceTable(size).Some?
    ensures var t := FaceTable(size).value;
      |t| == size && Ascending(t) && forall x :: x in t <==> 1 <= x <= size
  {
    var t := FaceTable(size).value;
    forall x | 1 <= x <= size
      ensures x in t
    {
      assert t[x - 1] == x;
    }
  }

  /** In an ascending list every value occurs at most once. */
  lemma {:induction false} AscendingCounts(xs: seq<int>)
    requires Ascending(xs)
    ensures forall x :: multiset(xs)[x] == if x in xs then 1 else 0
  {
    if xs != [] {
      var t := xs[1..];
      assert xs == [xs[0]] + t;
      AscendingCounts(t);
      assert xs[0] !in t;
    }
  }

  /** With no reroll a supported size gives the faces `1..size`, each moved
      by `add - sub`; any other size gives nothing. */
  lemma GetDiePlain(size: int, sub: int, add: int)
    ensures var r := GetDie(size, NoReroll, sub, add);
      && r.Ok?
      && (r.value.Some? <==> size in Sizes)
      && (r.value.Some? ==>
            |r.value.value| == size &&
            forall i :: 0 <= i < size ==> r.value.value[i] == i + 1 - sub + add)
  {
  }

  /** `rerollDie == 1` drops the first face and keeps the rest in place; an
      unsupported size makes `rerollOnes` slice `None`, which raises. */
  lemma GetDieRerollOnes(size: int, sub: int, add: int)
    ensures var r := GetDie(size, RerollValue(1), sub, add);
      && (size in Sizes ==>
            && r.Ok? && r.value.Some?
            && |r.value.value| == size - 1
            && forall i :: 0 <= i < size - 1 ==> r.value.value[i] == i + 2 - sub + add)
      && (size !in Sizes ==> r == Err(NoFaceTable))
  {
  }

  /** Any other single value removes exactly that face, and raises when the
      die has no such face. */
  lemma GetDieRerollValue(size: int, v: int, sub: int, add: int)
    requires v != 1
    ensures var r := GetDie(size, RerollValue(v), sub, add);
      && (size !in Sizes ==> r == Ok(None))
      && (size in Sizes ==>
            && (r.Ok? <==> 1 <= v <= size)
            && (r.Ok? ==>
                  && r.value.Some?
                  && |r.value.value| == size - 1
                  && forall x :: x in r.value.value <==> 1 <= x + sub - add <= size && x + sub - add != v))
  {
    if size in Sizes {
      FaceTableFacts(size);
      var t := FaceTable(size).value;
      var kept := RemoveFirst(t, v);
      if kept.Some? {
        assert GetDie(size, RerollValue(v), sub, add).value.value == Shift(kept.value, sub, add);
        RemoveShiftOne(t, v, sub, add);
      }
    }
  }

  /** Shifting what is left after removing one value. */
  lemma RemoveShiftOne(t: seq<int>, v: int, sub: int, add: int)
    requires Ascending(t) && RemoveFirst(t, v).Some?
    ensures forall x :: x in Shift(RemoveFirst(t, v).value, sub, add) <==> x + sub - add in t && x + sub - add != v
  {
    forall x
      ensures x in Shift(RemoveFirst(t, v).value, sub, add) <==> x + sub - add in t && x + sub - add != v
    {
      ShiftMembers(RemoveFirst(t, v).value, sub, add, x);
      RemoveFirstMembers(t, v, x + sub - add);
    }
  }

  /** Every face of a supported size occurs once in its table. */
  lemma FaceCounts(size: int)
    requires size in Sizes
    ensures FaceTable(size).Some?
    ensures forall x :: multiset(FaceTable(size).value)[x] == if 1 <= x <= size then 1 else 0
  {
    FaceTableFacts(size);
    AscendingCounts(FaceTable(size).value);
  }

  /** A list of reroll values succeeds exactly when every listed value is a
      face and none is listed twice. */
  lemma GetDieRerollValuesOk(size: int, vs: seq<int>, sub: int, add: int)
    ensures var r := GetDie(size, RerollValues(vs), sub, add);
      && (size !in Sizes ==> r == Ok(None))
      && (size in Sizes ==> (r.Ok? <==> forall x :: multiset(vs)[x] <= if 1 <= x <= size then 1 else 0))
  {
    if size in Sizes {
      FaceCounts(size);
      var mv, mt := multiset(vs), multiset(FaceTable(size).value);
      if forall x :: mv[x] <= if 1 <= x <= size then 1 else 0 {
        assert forall x :: mv[x] <= mt[x];
      }
      if mv <= mt {
        forall x
          ensures mv[x] <= if 1 <= x <= size then 1 else 0
        {
          assert mv[x] <= mt[x];
        }
      }
    }
  }

  /** The values left after removing `vs` from `xs` and shifting. */
  lemma RemoveShiftMembers(xs: seq<int>, vs: seq<int>, sub: int, add: int)
    requires Ascending(xs) && RemoveEach(xs, vs).Some?
    ensures forall x :: x in Shift(RemoveEach(xs, vs).value, sub, add) <==> x + sub - add in xs && x + sub - add !in vs
  {
    var kept := RemoveEach(xs, vs).value;
    forall y
      ensures y in kept <==> y in xs && y !in vs
    {
      RemoveEachMembers(xs, vs, y);
    }
    ShiftFiltered(xs, vs, kept, sub, add);
  }

  /** Shifting a list that holds exactly the values of `xs` not in `vs`. */
  lemma ShiftFiltered(xs: seq<int>, vs: seq<int>, kept: seq<int>, sub: int, add: int)
    requires forall y :: y in kept <==> y in xs && y !in vs
    ensures forall x :: x in Shift(kept, sub, add) <==> x + sub - add in xs && x + sub - add !in vs
  {
    forall x
      ensures x in Shift(kept, sub, add) <==> x + sub - add in xs && x + sub - add !in vs
    {
      ShiftMembers(kept, sub, add, x);
    }
  }

  /** On success one face goes per listed value and exactly the listed
      values are gone. */
  lemma GetDieRerollValues(size: int, vs: seq<int>, sub: int, add: int)
    requires size in Sizes
    ensures var r := GetDie(size, RerollValues(vs), sub, add);
      r.Ok? ==>
        && r.value.Some?
        && |r.value.value| == size - |vs|
        && forall x :: x in r.value.value <==> 1 <= x + sub - add <= size && x + sub - add !in vs
  {
    FaceTableFacts(size);
    var t := FaceTable(size).value;
    if RemoveEach(t, vs).Some? {
      RemoveShiftMembers(t, vs, sub, add);
    }
  }
}
