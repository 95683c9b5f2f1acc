/** `DieRoller.rollDice` and `DieRoller._checkConnectors`: rolling a batch
    of die groups, applying the batch options and joining the rolls with
    their connectors into a total. */
module DieRoller {
  import opened Wrappers
  import opened Failures
  import opened JsonValue
  import opened Probability
  import Notation
  import Roller
  import Seqs

  /** One entry of the dice list: the `(faces, multiplier)` pair, the
      modifier string and the group's own options. */
  datatype DieSpec = DieSpec(numbers: Notation.Numbers, modifier: string, options: Fields)

  datatype Connector = Plus | Minus

  /** `{"Dice": rolls}` alone, or with `"DiceTotal"` when the connectors
      fit between the rolls. */
  datatype Outcome = Outcome(dice: seq<int>, total: Option<int>)

  function Weight(c: Connector): int {
    if c == Plus then 1 else -1
  }

  /** `_checkConnectors`: a list whose every entry is the string `+` or
      `-`; the first offending entry decides the error. */
  function CheckConnectors(c: Json): (r: Result<seq<Connector>, Failure>)
    ensures !c.Arr? ==> r == Err(ConnectorsNotList)
    ensures r.Ok? <==> c.Arr? && forall i :: 0 <= i < |c.items| ==> c.items[i] == Str("+") || c.items[i] == Str("-")
    ensures r.Ok? ==> |r.value| == |c.items| && forall i :: 0 <= i < |r.value| ==> (r.value[i] == Plus <==> c.items[i] == Str("+"))
  {
    if c.Arr? then CheckItems(c.items) else Err(ConnectorsNotList)
  }

  function CheckItems(items: seq<Json>): (r: Result<seq<Connector>, Failure>)
    ensures r.Ok? <==> forall i :: 0 <= i < |items| ==> items[i] == Str("+") || items[i] == Str("-")
    ensures r.Ok? ==> |r.value| == |items| && forall i :: 0 <= i < |r.value| ==> (r.value[i] == Plus <==> items[i] == Str("+"))
  {
    if items == [] then Ok([])
    else
      var head := items[0];
      if !head.Str? then Err(ConnectorNotString)
      else if head.s != "+" && head.s != "-" then Err(ConnectorNotSign)
      else
        var rest :- CheckItems(items[1..]);
        Ok([if head.s == "+" then Plus else Minus] + rest)
  }

  /** The error names the first entry that is not `+` or `-`: one that is
      not a string at all, or a string with other text. */
  lemma {:induction false} CheckItemsFirstBad(items: seq<Json>, k: nat)
    requires k < |items| && !(items[k] == Str("+") || items[k] == Str("-"))
    requires forall i :: 0 <= i < k ==> items[i] == Str("+") || items[i] == Str("-")
    ensures CheckItems(items) == Err(if items[k].Str? then ConnectorNotSign else ConnectorNotString)
  {
    if k > 0 {
      CheckItemsFirstBad(items[1..], k - 1);
    }
  }

  // ---------------------------------------------------------------------
  // The batch options

  /** `dice * repeatRoll`. */
  function Repeat(dice: seq<DieSpec>, n: nat): (r: seq<DieSpec>)
    ensures |r| == n * |dice|
    ensures forall i :: 0 <= i < |r| ==> r[i] == dice[i % |dice|]
  {
    if n == 0 then []
    else
      var rest := Repeat(dice, n - 1);
      RepeatStep(dice, rest, n);
      dice + rest
  }

  /** One more copy in front keeps every position on its residue. */
  lemma RepeatStep(dice: seq<DieSpec>, rest: seq<DieSpec>, n: nat)
    requires n > 0 && |rest| == (n - 1) * |dice|
    requires forall i :: 0 <= i < |rest| ==> rest[i] == dice[i % |dice|]
    ensures |dice + rest| == n * |dice|
    ensures forall i :: 0 <= i < |dice + rest| ==> (dice + rest)[i] == dice[i % |dice|]
  {
    forall i | 0 <= i < |dice + rest|
      ensures (dice + rest)[i] == dice[i % |dice|]
    {
      if i >= |dice| {
        ModShift(i, |dice|);
      }
    }
  }

  lemma ModShift(i: nat, d: nat)
    requires 0 < d <= i
    ensures (i - d) % d == i % d
  {
    var q, m := (i - d) / d, (i - d) % d;
    assert i == (q + 1) * d + m;
    ModUnique(i, d, q + 1, m);
  }

  /** Euclidean division has one quotient and one remainder. */
  lemma ModUnique(i: int, d: int, a: int, b: int)
    requires d > 0 && 0 <= b < d && i == a * d + b
    ensures i % d == b
  {
    var q := i / d;
    if a > q {
      MulGap(a, q, d);
    } else if a < q {
      MulGap(q, a, d);
    }
  }

  lemma MulGap(x: int, y: int, d: int)
    requires x > y && d > 0
    ensures x * d >= y * d + d
  {
    var z := x - y - 1;
    assert z >= 0;
    assert x * d == y * d + d + z * d;
  }

  /** `repeatRoll` takes effect only for an `int` above zero (`bool` is
      excluded by `type(...) is int`). */
  function Expand(dice: seq<DieSpec>, repeat: Option<Json>): (r: seq<DieSpec>)
    ensures repeat.Some? && repeat.value.Int? && repeat.value.i > 0 ==> |r| == repeat.value.i * |dice|
    ensures !(repeat.Some? && repeat.value.Int? && repeat.value.i > 0) ==> r == dice
  {
    if repeat.Some? && repeat.value.Int? && repeat.value.i > 0 then Repeat(dice, repeat.value.i) else dice
  }

  /** One `rollTotal` call on an entry of the dice list. */
  function RollOne(d: DieSpec, src: nat -> nat, at: nat): Result<(int, nat), Failure> {
    Roller.RollTotal(d.numbers, d.modifier, d.options, src, at)
  }

  /** How one entry is rolled: from the draw stream and a ticket to the
      total and the next unread ticket, or a failure. */
  type Roll = (DieSpec, nat -> nat, nat) -> Result<(int, nat), Failure>

  /** The list comprehension of `rollTotal` calls, in order, each reading
      the draw stream where the previous one stopped. */
  function RollAll(dice: seq<DieSpec>, src: nat -> nat, at: nat): (r: Result<(seq<int>, nat), Failure>)
    ensures r.Ok? ==> |r.value.0| == |dice|
  {
    RollEach(RollOne, dice, src, at)
  }

  /** A list comprehension of `roll` calls threading the ticket. */
  function RollEach(roll: Roll, dice: seq<DieSpec>, src: nat -> nat, at: nat): (r: Result<(seq<int>, nat), Failure>)
    ensures r.Ok? ==> |r.value.0| == |dice|
  {
    if dice == [] then Ok(([], at))
    else
      var first := roll(dice[0], src, at);
      if first.Err? then Err(first.error)
      else
        var rest := RollEach(roll, dice[1..], src, first.value.1);
        if rest.Err? then Err(rest.error)
        else Ok(([first.value.0] + rest.value.0, rest.value.1))
  }

  /** The ticket entry `i` of the list starts on: where rolling the entries
      before it stopped, or `None` if one of them raised. */
  function StartOf(roll: Roll, dice: seq<DieSpec>, src: nat -> nat, at: nat, i: nat): Option<nat>
    requires i <= |dice|
    decreases i
  {
    if i == 0 then Some(at)
    else
      var first := roll(dice[0], src, at);
      if first.Err? then None else StartOf(roll, dice[1..], src, first.value.1, i - 1)
  }

  /** Entry `i` is reached and its roll raises. */
  predicate FailsAt(roll: Roll, dice: seq<DieSpec>, src: nat -> nat, at: nat, i: nat)
    requires i < |dice|
  {
    StartOf(roll, dice, src, at, i).Some? && roll(dice[i], src, StartOf(roll, dice, src, at, i).value).Err?
  }

  /** Entry `i` is reached, its roll gives `total`, and entry `i + 1`
      starts where it stopped. */
  predicate RolledAt(roll: Roll, dice: seq<DieSpec>, src: nat -> nat, at: nat, i: nat, total: int)
    requires i < |dice|
  {
    && StartOf(roll, dice, src, at, i).Some?
    && var one := roll(dice[i], src, StartOf(roll, dice, src, at, i).value);
    && one.Ok? && one.value.0 == total
    && StartOf(roll, dice, src, at, i + 1) == Some(one.value.1)
  }

  /** Total `i` of `rollDice`'s list is the `rollTotal` of entry `i`,
      rolled from the ticket where entry `i - 1` stopped; the list ends on
      the ticket after the last entry. */
  lemma RollAllAt(dice: seq<DieSpec>, src: nat -> nat, at: nat)
    ensures var r := RollAll(dice, src, at);
      r.Ok? ==> StartOf(RollOne, dice, src, at, |dice|) == Some(r.value.1)
    ensures var r := RollAll(dice, src, at);
      r.Ok? ==> forall i :: 0 <= i < |dice| ==> RolledAt(RollOne, dice, src, at, i, r.value.0[i])
  {
    RollEachAt(RollOne, dice, src, at);
  }

  /** The list raises exactly when some entry is reached and its
      `rollTotal` raises, and it raises that entry's failure. */
  lemma RollAllFails(dice: seq<DieSpec>, src: nat -> nat, at: nat)
    ensures RollAll(dice, src, at).Err? <==> exists i :: 0 <= i < |dice| && FailsAt(RollOne, dice, src, at, i)
    ensures RollAll(dice, src, at).Err? ==> exists i :: (0 <= i < |dice| && FailsAt(RollOne, dice, src, at, i)
      && RollOne(dice[i], src, StartOf(RollOne, dice, src, at, i).value).error == RollAll(dice, src, at).error)
  {
    RollEachFails(RollOne, dice, src, at);
  }

  lemma {:induction false} RollEachAt(roll: Roll, dice: seq<DieSpec>, src: nat -> nat, at: nat)
    ensures var r := RollEach(roll, dice, src, at);
      r.Ok? ==> StartOf(roll, dice, src, at, |dice|) == Some(r.value.1)
    ensures var r := RollEach(roll, dice, src, at);
      r.Ok? ==> forall i :: 0 <= i < |dice| ==> RolledAt(roll, dice, src, at, i, r.value.0[i])
    decreases |dice|
  {
    var r := RollEach(roll, dice, src, at);
    if dice != [] && r.Ok? {
      var first := roll(dice[0], src, at).value;
      var tail := dice[1..];
      RollEachAt(roll, tail, src, first.1);
      var rest := RollEach(roll, tail, src, first.1).value;
      StartOfStep(roll, dice, src, at, |dice|);
      RolledLift(roll, dice, src, at, first, r.value.0, rest.0);
    }
  }

  /** The totals of a list are its first entry's and then its tail's. */
  lemma RolledLift(roll: Roll, dice: seq<DieSpec>, src: nat -> nat, at: nat, first: (int, nat), totals: seq<int>, rest: seq<int>)
    requires dice != [] && roll(dice[0], src, at) == Ok(first)
    requires totals == [first.0] + rest && |rest| == |dice| - 1
    requires forall j :: 0 <= j < |rest| ==> RolledAt(roll, dice[1..], src, first.1, j, rest[j])
    ensures forall i :: 0 <= i < |dice| ==> RolledAt(roll, dice, src, at, i, totals[i])
  {
    forall i | 0 <= i < |dice|
      ensures RolledAt(roll, dice, src, at, i, totals[i])
    {
      if i > 0 {
        assert totals[i] == rest[i - 1];
        assert RolledAt(roll, dice[1..], src, first.1, i - 1, rest[i - 1]);
      }
      RolledStep(roll, dice, src, at, i, totals[i]);
    }
  }

  /** After a first entry that rolls, the list's tickets are its tail's. */
  lemma StartOfStep(roll: Roll, dice: seq<DieSpec>, src: nat -> nat, at: nat, i: nat)
    requires 0 < i <= |dice|
    requires roll(dice[0], src, at).Ok?
    ensures StartOf(roll, dice, src, at, i) == StartOf(roll, dice[1..], src, roll(dice[0], src, at).value.1, i - 1)
  {
  }

  /** Entry `i > 0` of a list is entry `i - 1` of its tail, started after
      the first entry. */
  lemma RolledStep(roll: Roll, dice: seq<DieSpec>, src: nat -> nat, at: nat, i: nat, total: int)
    requires i < |dice|
    requires roll(dice[0], src, at).Ok?
    ensures var first := roll(dice[0], src, at);
      i == 0 ==> (RolledAt(roll, dice, src, at, 0, total) <==> first.value.0 == total)
    ensures var first := roll(dice[0], src, at);
      i > 0 ==> (RolledAt(roll, dice, src, at, i, total) <==>
        RolledAt(roll, dice[1..], src, first.value.1, i - 1, total))
  {
    var first := roll(dice[0], src, at);
    var tail := dice[1..];
    if i > 0 {
      assert dice[i] == tail[i - 1];
      StartOfStep(roll, dice, src, at, i);
      StartOfStep(roll, dice, src, at, i + 1);
    } else {
      StartOfStep(roll, dice, src, at, 1);
    }
  }

  lemma {:induction false} RollEachFails(roll: Roll, dice: seq<DieSpec>, src: nat -> nat, at: nat)
    ensures RollEach(roll, dice, src, at).Err? <==> exists i :: 0 <= i < |dice| && FailsAt(roll, dice, src, at, i)
    ensures RollEach(roll, dice, src, at).Err? ==> exists i :: (0 <= i < |dice| && FailsAt(roll, dice, src, at, i)
      && roll(dice[i], src, StartOf(roll, dice, src, at, i).value).error == RollEach(roll, dice, src, at).error)
    decreases |dice|
  {
    if dice != [] {
      var first := roll(dice[0], src, at);
      if first.Err? {
        assert FailsAt(roll, dice, src, at, 0);
      } else {
        var tail := dice[1..];
        RollEachFails(roll, tail, src, first.value.1);
        forall i | 0 < i < |dice|
          ensures FailsAt(roll, dice, src, at, i) <==> FailsAt(roll, tail, src, first.value.1, i - 1)
        {
          assert dice[i] == tail[i - 1];
          StartOfStep(roll, dice, src, at, i);
        }
        assert !FailsAt(roll, dice, src, at, 0);
        if RollEach(roll, tail, src, first.value.1).Err? {
          var j :| 0 <= j < |tail| && FailsAt(roll, tail, src, first.value.1, j)
            && roll(tail[j], src, StartOf(roll, tail, src, first.value.1, j).value).error == RollEach(roll, tail, src, first.value.1).error;
          assert FailsAt(roll, dice, src, at, j + 1);
        } else {
          forall i | 0 <= i < |dice|
            ensures !FailsAt(roll, dice, src, at, i)
          {
            if i > 0 {
              assert !FailsAt(roll, tail, src, first.value.1, i - 1);
            }
          }
        }
      }
    }
  }

  /** Rolling two lists one after the other is rolling their concatenation:
      the second list starts on the ticket where the first stopped. This is
      why `repeatRoll` rolls the same groups afresh each time. */
  lemma {:induction false} RollAllConcat(a: seq<DieSpec>, b: seq<DieSpec>, src: nat -> nat, at: nat)
    ensures var ra := RollAll(a, src, at);
      && (ra.Err? ==> RollAll(a + b, src, at) == Err(ra.error))
      && (ra.Ok? ==>
            var rb := RollAll(b, src, ra.value.1);
            var rab := RollAll(a + b, src, at);
            && (rb.Err? ==> rab == Err(rb.error))
            && (rb.Ok? ==> rab.Ok? && rab.value.0 == ra.value.0 + rb.value.0 && rab.value.1 == rb.value.1))
  {
    if a == [] {
      assert a + b == b;
    } else {
      var ab := a + b;
      assert ab[0] == a[0];
      assert ab[1..] == a[1..] + b;
      var first := RollOne(a[0], src, at);
      if first.Ok? {
        RollAllConcat(a[1..], b, src, first.value.1);
        var rest := RollAll(a[1..], src, first.value.1);
        if rest.Ok? {
          var rb := RollAll(b, src, rest.value.1);
          if rb.Ok? {
            SeqAssoc([first.value.0], rest.value.0, rb.value.0);
          }
        }
      }
    }
  }

  lemma SeqAssoc<T>(x: seq<T>, y: seq<T>, z: seq<T>)
    ensures x + (y + z) == (x + y) + z
  {
  }

  /** How many rolls the batch `dropLowest` pops: one for `True`, the count
      for an `int` above zero, none otherwise. */
  function BatchDropCount(dl: Option<Json>): nat {
    if dl == Some(Bool(true)) then 1
    else if dl.Some? && dl.value.Int? && dl.value.i > 0 then dl.value.i
    else 0
  }

  /** The batch `dropLowest`: `min()` of the list, once it is empty,
      raises. The kept rolls stay in their order, so each still meets the
      connector it met before. */
  function BatchDrop(rolls: seq<int>, dl: Option<Json>): (r: Result<seq<int>, Failure>)
    ensures r.Ok? <==> BatchDropCount(dl) <= |rolls|
    ensures r.Err? ==> r.error == EmptyPop
    ensures r.Ok? ==> |r.value| == |rolls| - BatchDropCount(dl)
    ensures r.Ok? ==> exists idx :: Seqs.Picks(r.value, rolls, idx)
  {
    var k := BatchDropCount(dl);
    if k > |rolls| then Err(EmptyPop)
    else
      Roller.RemoveMinsInOrder(rolls, k);
      Ok(Roller.RemoveMins(rolls, k))
  }

  /** The pops take out the smallest rolls: kept and popped rolls make up
      the rolls and no popped roll exceeds a kept one. */
  lemma BatchDropKeepsLargest(rolls: seq<int>, dl: Option<Json>)
    requires BatchDropCount(dl) <= |rolls|
    ensures var kept, gone := BatchDrop(rolls, dl).value, Roller.Removed(rolls, BatchDropCount(dl));
      && multiset(kept) + multiset(gone) == multiset(rolls)
      && (forall a, b :: a in gone && b in kept ==> a <= b)
  {
    Roller.RemoveMinsSplit(rolls, BatchDropCount(dl));
  }

  /** `subAll`/`addAll` count only as an `int` above zero. */
  function Positive(v: Option<Json>): (n: nat)
    ensures n > 0 <==> v.Some? && v.value.Int? && v.value.i > 0
  {
    if v.Some? && v.value.Int? && v.value.i > 0 then v.value.i else 0
  }

  /** Subtract `subAll`, then add `addAll`, to every roll. */
  function Adjust(rolls: seq<int>, sub: nat, add: nat): (r: seq<int>)
    ensures |r| == |rolls|
    ensures forall i :: 0 <= i < |r| ==> r[i] == rolls[i] - sub + add
  {
    seq(|rolls|, i requires 0 <= i < |rolls| => rolls[i] - sub + add)
  }

  /** `eval` of `str(r0) + c0 + str(r1) + c1 + ...`, evaluated left to
      right. Each piece is an integer literal with an optional `-`, so the
      string always evaluates to this signed sum. */
  function Combine(rolls: seq<int>, conns: seq<Connector>): int
    requires |rolls| == |conns| + 1
    decreases |conns|
  {
    if conns == [] then rolls[0]
    else
      var n := |conns|;
      Combine(rolls[..n], conns[..n - 1]) + Weight(conns[n - 1]) * rolls[n]
  }

  /** The signs of the rolls: the first roll counts positively, every
      later one with the sign of the connector before it. */
  function Signs(conns: seq<Connector>): (w: seq<int>)
    ensures |w| == |conns| + 1 && w[0] == 1
    ensures forall i :: 0 <= i < |conns| ==> w[i + 1] == Weight(conns[i])
  {
    [1] + seq(|conns|, i requires 0 <= i < |conns| => Weight(conns[i]))
  }

  function Dot(w: seq<int>, xs: seq<int>): int
    requires |w| == |xs|
  {
    if xs == [] then 0 else Dot(w[..|w| - 1], xs[..|xs| - 1]) + w[|w| - 1] * xs[|xs| - 1]
  }

  /** The total is the sum of the rolls, each with its sign. */
  lemma {:induction false} CombineIsSignedSum(rolls: seq<int>, conns: seq<Connector>)
    requires |rolls| == |conns| + 1
    ensures Combine(rolls, conns) == Dot(Signs(conns), rolls)
    decreases |conns|
  {
    var n := |conns|;
    if n == 0 {
      assert rolls[..0] == [];
      assert Signs(conns)[..0] == [];
    } else {
      CombineIsSignedSum(rolls[..n], conns[..n - 1]);
      assert Signs(conns)[..n] == Signs(conns[..n - 1]);
    }
  }

  /** With every connector `+`, the total is the plain sum of the rolls. */
  lemma {:induction false} AllPlusIsSum(rolls: seq<int>, conns: seq<Connector>)
    requires |rolls| == |conns| + 1
    requires forall i :: 0 <= i < |conns| ==> conns[i] == Plus
    ensures Combine(rolls, conns) == Sum(rolls)
    decreases |conns|
  {
    var n := |conns|;
    if n > 0 {
      AllPlusIsSum(rolls[..n], conns[..n - 1]);
      assert rolls == rolls[..n] + [rolls[n]];
      SumConcat(rolls[..n], [rolls[n]]);
    } else {
      assert rolls == [rolls[0]];
    }
  }

  /** `DieRoller.rollDice`. */
  function RollDice(dice: seq<DieSpec>, connectors: Json, options: Fields, src: nat -> nat, at: nat): (r: Result<(Outcome, nat), Failure>)
    ensures CheckConnectors(connectors).Err? ==> r == Err(CheckConnectors(connectors).error)
    ensures r.Ok? ==> var signs := CheckConnectors(connectors);
      signs.Ok? && (r.value.0.total.Some? <==> |signs.value| + 1 == |r.value.0.dice|)
  {
    var signs :- CheckConnectors(connectors);
    var expanded := Expand(dice, Get(options, "repeatRoll"));
    var rolled :- RollAll(expanded, src, at);
    var kept :- BatchDrop(rolled.0, Get(options, "dropLowest"));
    var adjusted := Adjust(kept, Positive(Get(options, "subAll")), Positive(Get(options, "addAll")));
    var total := if |signs| + 1 == |adjusted| then Some(Combine(adjusted, signs)) else None;
    Ok((Outcome(adjusted, total), rolled.1))
  }

  /** How many rolls come back: every group times `repeatRoll`, less the
      batch pops; the batch fails exactly when it would pop more than that. */
  lemma RollDiceCount(dice: seq<DieSpec>, connectors: Json, options: Fields, src: nat -> nat, at: nat)
    requires CheckConnectors(connectors).Ok?
    requires RollAll(Expand(dice, Get(options, "repeatRoll")), src, at).Ok?
    ensures var n := |Expand(dice, Get(options, "repeatRoll"))|;
      var k := BatchDropCount(Get(options, "dropLowest"));
      var r := RollDice(dice, connectors, options, src, at);
      && (r.Ok? <==> k <= n)
      && (r.Ok? ==> |r.value.0.dice| == n - k)
  {
  }

  /** The reported total is the signed sum of the reported rolls: the first
      roll counts positively and every later one takes the sign of the
      connector before it. */
  lemma RollDiceTotal(dice: seq<DieSpec>, connectors: Json, options: Fields, src: nat -> nat, at: nat)
    requires RollDice(dice, connectors, options, src, at).Ok?
    requires RollDice(dice, connectors, options, src, at).value.0.total.Some?
    ensures var out := RollDice(dice, connectors, options, src, at).value.0;
      var signs := CheckConnectors(connectors).value;
      |Signs(signs)| == |out.dice| && out.total.value == Dot(Signs(signs), out.dice)
  {
    var out := RollDice(dice, connectors, options, src, at).value.0;
    CombineIsSignedSum(out.dice, CheckConnectors(connectors).value);
  }

  /** Without batch pops, reported roll `i` is the `rollTotal` of entry `i`
      of the repeated list, rolled from its own start ticket, less
      `subAll` plus `addAll`. */
  lemma RollDiceValues(dice: seq<DieSpec>, connectors: Json, options: Fields, src: nat -> nat, at: nat)
    requires RollDice(dice, connectors, options, src, at).Ok?
    requires BatchDropCount(Get(options, "dropLowest")) == 0
    ensures var expanded := Expand(dice, Get(options, "repeatRoll"));
      var out := RollDice(dice, connectors, options, src, at).value.0;
      var shift := Positive(Get(options, "addAll")) - Positive(Get(options, "subAll"));
      && |out.dice| == |expanded|
      && forall i :: 0 <= i < |expanded| ==> RolledAt(RollOne, expanded, src, at, i, out.dice[i] - shift)
  {
    var expanded := Expand(dice, Get(options, "repeatRoll"));
    RollAllAt(expanded, src, at);
  }
}
