/** `RollProbabilityGenerator` with exact counts: every outcome of
    `product(faces, repeat=n)` is summed and tallied; the table lists the
    distinct sums in ascending order with how many outcomes give each.
    The weighted `choice` over that table becomes an inverse-CDF pick
    driven by an explicit ticket. */
module Probability {
  import opened Wrappers
  import opened Failures

  function Pow(b: nat, n: nat): nat {
    if n == 0 then 1 else b * Pow(b, n - 1)
  }

  function Sum(xs: seq<int>): int {
    if xs == [] then 0 else xs[0] + Sum(xs[1..])
  }

  lemma {:induction false} SumConcat(a: seq<int>, b: seq<int>)
    ensures Sum(a + b) == Sum(a) + Sum(b)
  {
    if a == [] {
      assert a + b == b;
    } else {
      assert (a + b)[0] == a[0];
      assert (a + b)[1..] == a[1..] + b;
      SumConcat(a[1..], b);
    }
  }

  /** `[f] + p` for every `p` in `ps`. */
  function PrependAll(f: int, ps: seq<seq<int>>): (r: seq<seq<int>>)
    ensures |r| == |ps| && forall i :: 0 <= i < |ps| ==> r[i] == [f] + ps[i]
  {
    if ps == [] then [] else [[f] + ps[0]] + PrependAll(f, ps[1..])
  }

  /** Every face in front of every tuple, the first face varying slowest. */
  function Extend(faces: seq<int>, ps: seq<seq<int>>): (r: seq<seq<int>>)
    ensures |r| == |faces| * |ps|
  {
    if faces == [] then [] else PrependAll(faces[0], ps) + Extend(faces[1..], ps)
  }

  /** `itertools.product(faces, repeat=n)`, in its order. */
  function Product(faces: seq<int>, n: nat): (r: seq<seq<int>>)
    ensures |r| == Pow(|faces|, n)
  {
    if n == 0 then [[]] else Extend(faces, Product(faces, n - 1))
  }

  /** An `n`-tuple drawn from the faces. */
  predicate IsTuple(faces: seq<int>, n: nat, t: seq<int>) {
    |t| == n && forall i :: 0 <= i < n ==> t[i] in faces
  }

  /** No element occurs twice. */
  predicate Unique<T(==)>(xs: seq<T>) {
    forall i, j :: 0 <= i < j < |xs| ==> xs[i] != xs[j]
  }

  lemma PrependAllMembers(f: int, ps: seq<seq<int>>, t: seq<int>)
    ensures t in PrependAll(f, ps) <==> t != [] && t[0] == f && t[1..] in ps
  {
    var r := PrependAll(f, ps);
    if t in r {
      var i :| 0 <= i < |r| && r[i] == t;
      assert t[1..] == ps[i];
    }
    if t != [] && t[0] == f && t[1..] in ps {
      var i :| 0 <= i < |ps| && ps[i] == t[1..];
      assert r[i] == t;
    }
  }

  lemma {:induction false} ExtendMembers(faces: seq<int>, ps: seq<seq<int>>, t: seq<int>)
    ensures t in Extend(faces, ps) <==> t != [] && t[0] in faces && t[1..] in ps
    decreases |faces|
  {
    if faces != [] {
      PrependAllMembers(faces[0], ps, t);
      ExtendMembers(faces[1..], ps, t);
      assert faces == [faces[0]] + faces[1..];
    }
  }

  /** The outcomes of `product(faces, repeat=n)` are exactly the
      `n`-tuples of faces. */
  lemma {:induction false} ProductMembers(faces: seq<int>, n: nat, t: seq<int>)
    ensures t in Product(faces, n) <==> IsTuple(faces, n, t)
    decreases n
  {
    if n == 0 {
      assert t in [[]] <==> t == [];
    } else {
      ExtendMembers(faces, Product(faces, n - 1), t);
      if t != [] {
        ProductMembers(faces, n - 1, t[1..]);
        if IsTuple(faces, n, t) {
          assert forall i :: 0 <= i < n - 1 ==> t[1..][i] == t[i + 1];
        }
        if t[0] in faces && IsTuple(faces, n - 1, t[1..]) {
          forall i | 0 <= i < n
            ensures t[i] in faces
          {
            if i > 0 {
              assert t[i] == t[1..][i - 1];
            }
          }
        }
      }
    }
  }

  lemma UniqueConcat<T>(a: seq<T>, b: seq<T>)
    requires Unique(a) && Unique(b)
    requires forall x :: x in a ==> x !in b
    ensures Unique(a + b)
  {
    var r := a + b;
    forall i, j | 0 <= i < j < |r|
      ensures r[i] != r[j]
    {
      if i < |a| && j >= |a| {
        assert r[i] in a && r[j] == b[j - |a|];
      } else if j >= |a| {
        assert r[i] == b[i - |a|] && r[j] == b[j - |a|];
      }
    }
  }

  lemma PrependAllUnique(f: int, ps: seq<seq<int>>)
    requires Unique(ps)
    ensures Unique(PrependAll(f, ps))
  {
    var r := PrependAll(f, ps);
    forall i, j | 0 <= i < j < |r|
      ensures r[i] != r[j]
    {
      assert r[i][1..] == ps[i] && r[j][1..] == ps[j];
    }
  }

  lemma {:induction false} ExtendUnique(faces: seq<int>, ps: seq<seq<int>>)
    requires Unique(faces) && Unique(ps)
    ensures Unique(Extend(faces, ps))
    decreases |faces|
  {
    if faces != [] {
      var front, rest := PrependAll(faces[0], ps), Extend(faces[1..], ps);
      PrependAllUnique(faces[0], ps);
      ExtendUnique(faces[1..], ps);
      forall x | x in front
        ensures x !in rest
      {
        PrependAllMembers(faces[0], ps, x);
        ExtendMembers(faces[1..], ps, x);
        assert faces[0] !in faces[1..];
      }
      UniqueConcat(front, rest);
    }
  }

  /** With distinct faces no outcome of the product repeats. */
  lemma {:induction false} ProductUnique(faces: seq<int>, n: nat)
    requires Unique(faces)
    ensures Unique(Product(faces, n))
    decreases n
  {
    if n > 0 {
      var prev := Product(faces, n - 1);
      ProductUnique(faces, n - 1);
      ExtendUnique(faces, prev);
      assert Product(faces, n) == Extend(faces, prev);
    }
  }

  /** With distinct faces, every `n`-tuple of faces is one outcome and
      nothing else is. */
  lemma ProductOnce(faces: seq<int>, n: nat, t: seq<int>)
    requires Unique(faces)
    ensures multiset(Product(faces, n))[t] == if IsTuple(faces, n, t) then 1 else 0
  {
    ProductUnique(faces, n);
    ProductMembers(faces, n, t);
    DistinctCount(Product(faces, n), t);
  }

  /** `sum(number)` of every outcome. */
  function Sums(ps: seq<seq<int>>): (r: seq<int>)
    ensures |r| == |ps| && forall i :: 0 <= i < |ps| ==> r[i] == Sum(ps[i])
  {
    if ps == [] then [] else [Sum(ps[0])] + Sums(ps[1..])
  }

  /** A table row: a sum and how many outcomes give it. */
  type Row = (int, nat)

  /** Rows in strictly ascending order of their sums, each seen at least once. */
  predicate WellFormed(t: seq<Row>) {
    && (forall i, j :: 0 <= i < j < |t| ==> t[i].0 < t[j].0)
    && (forall i :: 0 <= i < |t| ==> t[i].1 >= 1)
  }

  /** How many outcomes give `k`: its row's count, or 0. */
  function CountOf(t: seq<Row>, k: int): nat {
    if t == [] then 0 else (if t[0].0 == k then t[0].1 else 0) + CountOf(t[1..], k)
  }

  /** The number of outcomes in the table, `productCount`. */
  function TotalOf(t: seq<Row>): nat {
    if t == [] then 0 else t[0].1 + TotalOf(t[1..])
  }

  lemma {:induction false} CountAbsent(t: seq<Row>, k: int)
    requires forall i :: 0 <= i < |t| ==> t[i].0 != k
    ensures CountOf(t, k) == 0
  {
    if t != [] {
      CountAbsent(t[1..], k);
    }
  }

  /** `_saveNumbers`: one more outcome with sum `x`. */
  function Insert(t: seq<Row>, x: int): (r: seq<Row>)
    requires WellFormed(t)
    ensures WellFormed(r)
    ensures TotalOf(r) == TotalOf(t) + 1
    ensures r[0].0 == if t == [] || x < t[0].0 then x else t[0].0
    decreases |t|
  {
    if t == [] then [(x, 1)]
    else
      var tail := t[1..];
      TailWellFormed(t);
      if x < t[0].0 then
        ConsWellFormed((x, 1), t);
        [(x, 1)] + t
      else if x == t[0].0 then
        ConsWellFormed((x, t[0].1 + 1), tail);
        [(x, t[0].1 + 1)] + tail
      else
        var rest := Insert(tail, x);
        ConsWellFormed(t[0], rest);
        var r := [t[0]] + rest;
        assert r[1..] == rest;
        r
  }

  lemma TailWellFormed(t: seq<Row>)
    requires WellFormed(t) && t != []
    ensures WellFormed(t[1..])
    ensures t[1..] != [] ==> t[0].0 < t[1..][0].0
  {
  }

  /** A row below every row of a table extends it. */
  lemma ConsWellFormed(row: Row, t: seq<Row>)
    requires WellFormed(t) && row.1 >= 1
    requires t != [] ==> row.0 < t[0].0
    ensures WellFormed([row] + t)
  {
    var r := [row] + t;
    forall i, j | 0 <= i < j < |r|
      ensures r[i].0 < r[j].0
    {
      if i > 0 {
        assert r[i] == t[i - 1] && r[j] == t[j - 1];
      } else if j > 1 {
        assert t[0].0 < t[j - 1].0;
      }
    }
  }

  /** One row off the front of a count. */
  lemma CountCons(row: Row, t: seq<Row>, k: int)
    ensures CountOf([row] + t, k) == (if row.0 == k then row.1 else 0) + CountOf(t, k)
  {
    assert ([row] + t)[1..] == t;
  }

  lemma {:induction false} InsertCounts(t: seq<Row>, x: int, k: int)
    requires WellFormed(t)
    ensures CountOf(Insert(t, x), k) == CountOf(t, k) + (if k == x then 1 else 0)
    decreases |t|
  {
    if t == [] {
      CountCons((x, 1), [], k);
    } else {
      CountCons(t[0], t[1..], k);
      assert t == [t[0]] + t[1..];
      if x < t[0].0 {
        CountCons((x, 1), t, k);
      } else if x == t[0].0 {
        CountCons((x, t[0].1 + 1), t[1..], k);
      } else {
        InsertCounts(t[1..], x, k);
        CountCons(t[0], Insert(t[1..], x), k);
      }
    }
  }

  /** The tallies of a list of sums, as `numberDict` after sorting. */
  function Tally(xs: seq<int>): (r: seq<Row>)
    ensures WellFormed(r)
    ensures TotalOf(r) == |xs|
    decreases |xs|
  {
    if xs == [] then [] else Insert(Tally(xs[..|xs| - 1]), xs[|xs| - 1])
  }

  /** Each sum is counted as often as it occurs. */
  lemma {:induction false} TallyCounts(xs: seq<int>, k: int)
    ensures CountOf(Tally(xs), k) == multiset(xs)[k]
    decreases |xs|
  {
    if xs != [] {
      var front := xs[..|xs| - 1];
      TallyCounts(front, k);
      InsertCounts(Tally(front), xs[|xs| - 1], k);
      assert xs == front + [xs[|xs| - 1]];
    }
  }

  /** The exact distribution of the sum of `n` dice with these faces. */
  function Table(faces: seq<int>, n: nat): seq<Row> {
    Tally(Sums(Product(faces, n)))
  }

  /** The counts add up to `|faces|^n`, the number of outcomes. */
  lemma TableTotal(faces: seq<int>, n: nat)
    ensures WellFormed(Table(faces, n))
    ensures TotalOf(Table(faces, n)) == Pow(|faces|, n)
  {
  }

  /** Each count is the number of outcomes whose faces add up to that sum. */
  lemma TableCounts(faces: seq<int>, n: nat, k: int)
    ensures CountOf(Table(faces, n), k) == multiset(Sums(Product(faces, n)))[k]
  {
    TallyCounts(Sums(Product(faces, n)), k);
  }

  lemma {:induction false} SumsOfSingles(faces: seq<int>)
    ensures Sums(Extend(faces, [[]])) == faces
  {
    if faces != [] {
      var e := Extend(faces, [[]]);
      assert [faces[0]] + [[]][0] == [faces[0]];
      assert PrependAll(faces[0], [[]]) == [[faces[0]]];
      assert e == [[faces[0]]] + Extend(faces[1..], [[]]);
      SumsOfSingles(faces[1..]);
      assert Sum([faces[0]]) == faces[0];
      assert Sums(e) == [Sum([faces[0]])] + Sums(Extend(faces[1..], [[]]));
    }
  }

  /** One die with distinct faces: every face is a row with count 1. */
  lemma TableSingle(faces: seq<int>, k: int)
    requires Unique(faces)
    ensures CountOf(Table(faces, 1), k) == if k in faces then 1 else 0
  {
    assert Product(faces, 1) == Extend(faces, [[]]);
    SumsOfSingles(faces);
    assert Table(faces, 1) == Tally(faces);
    TallyCounts(faces, k);
    DistinctCount(faces, k);
  }

  lemma {:induction false} DistinctCount<T>(xs: seq<T>, k: T)
    requires Unique(xs)
    ensures multiset(xs)[k] == if k in xs then 1 else 0
  {
    if xs != [] {
      assert xs == [xs[0]] + xs[1..];
      DistinctCount(xs[1..], k);
      assert xs[0] !in xs[1..];
    }
  }

  /** A row is present exactly when its count is positive. */
  lemma {:induction false} CountPositive(t: seq<Row>, i: nat)
    requires WellFormed(t) && i < |t|
    ensures CountOf(t, t[i].0) == t[i].1
    decreases i
  {
    if i == 0 {
      CountAbsent(t[1..], t[0].0);
    } else {
      CountPositive(t[1..], i - 1);
    }
  }

  /** The outcomes before row `i`: the cumulative weight below it. */
  function Before(t: seq<Row>, i: nat): nat
    requires i <= |t|
  {
    if i == 0 then 0 else Before(t, i - 1) + t[i - 1].1
  }

  lemma {:induction false} BeforeAll(t: seq<Row>)
    ensures Before(t, |t|) == TotalOf(t)
    decreases |t|
  {
    if t != [] {
      BeforeAll(t[1..]);
      BeforeShift(t, |t|);
    }
  }

  lemma {:induction false} BeforeShift(t: seq<Row>, i: nat)
    requires 1 <= i <= |t|
    ensures Before(t, i) == t[0].1 + Before(t[1..], i - 1)
  {
    if i > 1 {
      BeforeShift(t, i - 1);
    }
  }

  /** The row whose slice of the outcomes holds `u`. */
  function PickIndex(t: seq<Row>, u: nat): (i: nat)
    requires u < TotalOf(t)
    ensures i < |t| && Before(t, i) <= u < Before(t, i) + t[i].1
    decreases |t|
  {
    if u < t[0].1 then 0
    else
      var j := PickIndex(t[1..], u - t[0].1);
      BeforeShift(t, j + 1);
      j + 1
  }

  /** `choice(keys, p=probabilityMap)`: the ticket is folded into the
      outcomes and lands on one row, each row taking a slice as wide as its
      count; no rows makes `choice` raise. */
  function Pick(t: seq<Row>, ticket: nat): (r: Result<int, Failure>)
    requires WellFormed(t)
    ensures r.Err? <==> t == []
    ensures r.Ok? ==> CountOf(t, r.value) >= 1
  {
    if t == [] then Err(EmptyChoice)
    else
      assert TotalOf(t) >= t[0].1 >= 1;
      var i := PickIndex(t, ticket % TotalOf(t));
      CountPositive(t, i);
      Ok(t[i].0)
  }

  /** `count / productCount` for every row. */
  function Probabilities(t: seq<Row>, total: nat): (p: seq<real>)
    requires total > 0
    ensures |p| == |t| && forall i :: 0 <= i < |t| ==> p[i] == t[i].1 as real / total as real
  {
    if t == [] then [] else [t[0].1 as real / total as real] + Probabilities(t[1..], total)
  }

  function RealSum(xs: seq<real>): real {
    if xs == [] then 0.0 else xs[0] + RealSum(xs[1..])
  }

  lemma {:induction false} ProbabilitiesSum(t: seq<Row>, total: nat)
    requires total > 0
    ensures RealSum(Probabilities(t, total)) == TotalOf(t) as real / total as real
  {
    if t != [] {
      var p := Probabilities(t, total);
      assert p[1..] == Probabilities(t[1..], total);
      ProbabilitiesSum(t[1..], total);
      var head, rest := t[0].1 as real, TotalOf(t[1..]) as real;
      RealDivAdd(head, rest, total as real);
      assert TotalOf(t) as real == head + rest;
    }
  }

  lemma RealDivAdd(a: real, b: real, d: real)
    requires d > 0.0
    ensures a / d + b / d == (a + b) / d
  {
  }

  /** The probabilities of a non-empty table add up to 1. */
  lemma ProbabilitiesOne(faces: seq<int>, n: nat)
    requires |faces| > 0
    ensures var t := Table(faces, n);
      TotalOf(t) > 0 && RealSum(Probabilities(t, TotalOf(t))) == 1.0
  {
    var t := Table(faces, n);
    TableTotal(faces, n);
    PowPositive(|faces|, n);
    var total := TotalOf(t);
    ProbabilitiesSum(t, total);
    RealSelfDivide(total);
  }

  lemma {:induction false} PowPositive(b: nat, n: nat)
    requires b > 0
    ensures Pow(b, n) > 0
  {
    if n > 0 {
      PowPositive(b, n - 1);
    }
  }

  lemma RealSelfDivide(n: nat)
    requires n > 0
    ensures n as real / n as real == 1.0
  {
  }

  /** A table without rows counts no outcome, and the other way round. */
  lemma {:induction false} TotalZero(t: seq<Row>)
    requires WellFormed(t)
    ensures TotalOf(t) == 0 <==> t == []
  {
    if t != [] {
      assert t[0].1 >= 1;
    }
  }

  /** For one die the counts are the face multiplicities. */
  lemma SingleTableFaces(faces: seq<int>, k: int)
    ensures CountOf(Table(faces, 1), k) == multiset(faces)[k]
  {
    assert Product(faces, 1) == Extend(faces, [[]]);
    SumsOfSingles(faces);
    TallyCounts(faces, k);
  }

  lemma {:induction false} PrependMembers(f: int, ps: seq<seq<int>>, lo: int, hi: int, n: nat)
    requires lo <= f <= hi
    requires forall i :: 0 <= i < |ps| ==> n * lo <= Sum(ps[i]) <= n * hi
    ensures forall i :: 0 <= i < |ps| ==> (n + 1) * lo <= Sum(PrependAll(f, ps)[i]) <= (n + 1) * hi
  {
    forall i | 0 <= i < |ps|
      ensures (n + 1) * lo <= Sum(PrependAll(f, ps)[i]) <= (n + 1) * hi
    {
      var p := PrependAll(f, ps)[i];
      assert p == [f] + ps[i];
      assert p[1..] == ps[i];
    }
  }

  lemma {:induction false} ExtendRange(faces: seq<int>, ps: seq<seq<int>>, lo: int, hi: int, n: nat)
    requires forall i :: 0 <= i < |faces| ==> lo <= faces[i] <= hi
    requires forall i :: 0 <= i < |ps| ==> n * lo <= Sum(ps[i]) <= n * hi
    ensures forall i :: 0 <= i < |Extend(faces, ps)| ==> (n + 1) * lo <= Sum(Extend(faces, ps)[i]) <= (n + 1) * hi
  {
    if faces != [] {
      PrependMembers(faces[0], ps, lo, hi, n);
      ExtendRange(faces[1..], ps, lo, hi, n);
      var a, b := PrependAll(faces[0], ps), Extend(faces[1..], ps);
      assert Extend(faces, ps) == a + b;
      forall i | 0 <= i < |a + b|
        ensures (n + 1) * lo <= Sum((a + b)[i]) <= (n + 1) * hi
      {
        if i >= |a| {
          assert (a + b)[i] == b[i - |a|];
        }
      }
    }
  }

  /** Every outcome of `n` dice whose faces lie in `lo..hi` sums to a value
      in `n * lo .. n * hi`. */
  lemma {:induction false} ProductRange(faces: seq<int>, n: nat, lo: int, hi: int)
    requires forall i :: 0 <= i < |faces| ==> lo <= faces[i] <= hi
    ensures forall i :: 0 <= i < |Product(faces, n)| ==> n * lo <= Sum(Product(faces, n)[i]) <= n * hi
  {
    if n > 0 {
      ProductRange(faces, n - 1, lo, hi);
      ExtendRange(faces, Product(faces, n - 1), lo, hi, n - 1);
    }
  }

  /** Only sums between `n * lo` and `n * hi` have rows. */
  lemma TableRange(faces: seq<int>, n: nat, lo: int, hi: int, k: int)
    requires forall i :: 0 <= i < |faces| ==> lo <= faces[i] <= hi
    requires CountOf(Table(faces, n), k) >= 1
    ensures n * lo <= k <= n * hi
  {
    var ps := Product(faces, n);
    var sums := Sums(ps);
    TallyCounts(sums, k);
    assert k in sums;
    var i :| 0 <= i < |sums| && sums[i] == k;
    ProductRange(faces, n, lo, hi);
  }
}
