/** Reading one die group such as `3d6+2-1`: `_determineNumbers` takes the
    face table and the multiplier from the die token, `_determineModifier`
    folds the trailing signed digit groups into one net signed numeral.
    The regular expressions of the source are written out as scanners. */
module Notation {
  import opened Wrappers
  import opened Failures
  import opened Text
  import DiePicker

  /** What `_determineNumbers` returns: the face table and the multiplier. */
  datatype Numbers = Numbers(faces: seq<int>, multiplier: nat)

  /** `d\d{1,3}` (case-insensitive) can start at `p`. */
  predicate DieAt(s: string, p: int) {
    0 <= p && p + 1 < |s| && (s[p] == 'd' || s[p] == 'D') && IsDigit(s[p + 1])
  }

  /** `determineDie.search`: the leftmost start of a die token at or after `from`. */
  function FindDie(s: string, from: nat): (r: Option<nat>)
    ensures r.Some? ==> from <= r.value && DieAt(s, r.value)
    ensures forall q :: from <= q && (r.None? || q < r.value) ==> !DieAt(s, q)
    decreases |s| - from
  {
    if from + 1 >= |s| then None
    else if DieAt(s, from) then Some(from)
    else FindDie(s, from + 1)
  }

  /** The length of the run of digits at `p`, stopping after `cap` of them
      (a greedy `\d{1,cap}`). */
  function DigitRun(s: string, p: nat, cap: nat): (n: nat)
    requires p <= |s|
    ensures n <= cap && p + n <= |s| && AllDigits(s[p..p + n])
    ensures n < cap && p + n < |s| ==> !IsDigit(s[p + n])
    decreases cap
  {
    if cap == 0 || p == |s| || !IsDigit(s[p]) then 0
    else
      var n := 1 + DigitRun(s, p + 1, cap - 1);
      assert s[p..p + n] == [s[p]] + s[p + 1..p + n];
      n
  }

  /** The size the first die token names: the one to three digits after
      its `d`, read as a number. */
  function TokenSize(s: string): nat
    requires FindDie(s, 0).Some?
  {
    var p := FindDie(s, 0).value;
    ParseNat(s[p + 1..p + 1 + DigitRun(s, p + 1, 3)])
  }

  /** `determineMultiplier.match`: up to three leading digits, or 1 when
      the string does not start with a digit. */
  function LeadNumber(s: string): (m: nat)
    ensures m <= 999
    ensures s == [] || !IsDigit(s[0]) ==> m == 1
  {
    var lead := DigitRun(s, 0, 3);
    ParseNatBound(s[..lead]);
    if lead == 0 then 1 else ParseNat(s[..lead])
  }

  /** `_determineNumbers`: the first die token names the size; `.strip('d')`
      leaves an upper-case `D` in place, so `int()` rejects it; an unknown
      size raises; the multiplier is up to three leading digits, else 1. */
  function DetermineNumbers(s: string, reroll: DiePicker.Reroll, sub: int, add: int): (r: Result<Numbers, Failure>)
    ensures r == Err(NoDieToken) <==> forall q :: !DieAt(s, q)
    ensures FindDie(s, 0).Some? && s[FindDie(s, 0).value] == 'D' ==> r == Err(UpperCaseDieToken)
    ensures r.Ok? ==>
      && FindDie(s, 0).Some?
      && s[FindDie(s, 0).value] == 'd'
      && DiePicker.GetDie(TokenSize(s), reroll, sub, add) == Ok(Some(r.value.faces))
      && r.value.multiplier == LeadNumber(s)
      && r.value.multiplier <= 999
      && (s == [] || !IsDigit(s[0]) ==> r.value.multiplier == 1)
    ensures FindDie(s, 0).Some? && s[FindDie(s, 0).value] == 'd' && reroll.NoReroll? ==>
      && (r == Err(UnknownDie) <==> TokenSize(s) !in DiePicker.Sizes)
      && (r.Ok? <==> TokenSize(s) in DiePicker.Sizes)
      && (r.Ok? ==> r.value.faces == DiePicker.Shift(DiePicker.FaceTable(TokenSize(s)).value, sub, add))
  {
    match FindDie(s, 0)
    case None => Err(NoDieToken)
    case Some(p) =>
      if s[p] == 'D' then Err(UpperCaseDieToken)
      else
        var die :- DiePicker.GetDie(TokenSize(s), reroll, sub, add);
        if die.None? then Err(UnknownDie)
        else Ok(Numbers(die.value, LeadNumber(s)))
  }

  /** A numeral of at most three digits stands for a number below 1000. */
  lemma ShowNatThree(n: nat)
    ensures |ShowNat(n)| <= 3 <==> n < 1000
  {
    if n >= 10 {
      ShowNatShort(n / 10);
    }
  }

  /** `FindDie` skips positions where no token starts. */
  lemma {:induction false} FindDieAt(s: string, from: nat, p: nat)
    requires from <= p && DieAt(s, p)
    requires forall q :: from <= q < p ==> !DieAt(s, q)
    ensures FindDie(s, from) == Some(p)
    decreases p - from
  {
    if from < p {
      FindDieAt(s, from + 1, p);
    }
  }

  /** `DigitRun` over a run of exactly `n` digits. */
  lemma {:induction false} DigitRunExact(s: string, p: nat, cap: nat, n: nat)
    requires p + n <= |s| && n <= cap && AllDigits(s[p..p + n])
    requires p + n == |s| || n == cap || !IsDigit(s[p + n])
    ensures DigitRun(s, p, cap) == n
    decreases n
  {
    if n > 0 {
      assert IsDigit(s[p..p + n][0]);
      assert s[p + 1..p + n] == s[p..p + n][1..];
      DigitRunExact(s, p + 1, cap - 1, n - 1);
    }
  }

  /** `DigitRun` over digits that run to the end of the string. */
  lemma DigitRunToEnd(s: string, p: nat)
    requires p <= |s| && |s| - p <= 3 && AllDigits(s[p..])
    ensures DigitRun(s, p, 3) == |s| - p
  {
    assert s[p..p + (|s| - p)] == s[p..];
    DigitRunExact(s, p, 3, |s| - p);
  }

  /** In `<a>d<b>` the die token starts right after the leading digits. */
  lemma ScanDie(a: string, b: string)
    requires AllDigits(a) && AllDigits(b) && 1 <= |b|
    ensures FindDie(a + "d" + b, 0) == Some(|a|)
  {
    var s := a + "d" + b;
    assert s[|a|] == 'd' && s[|a| + 1] == b[0];
    forall q | 0 <= q < |a|
      ensures !DieAt(s, q)
    {
      assert s[q] == a[q];
    }
    assert DieAt(s, |a|);
    FindDieAt(s, 0, |a|);
  }

  /** In `<a>d<b>` the size digits are all of `b`. */
  lemma ScanSize(a: string, b: string)
    requires AllDigits(b) && 1 <= |b| <= 3
    ensures var s := a + "d" + b;
      && DigitRun(s, |a| + 1, 3) == |b|
      && s[|a| + 1..|a| + 1 + |b|] == b
  {
    var s := a + "d" + b;
    AfterPrefix(a + "d", b, |a| + 1);
    DigitRunToEnd(s, |a| + 1);
  }

  lemma AfterPrefix(x: string, y: string, n: nat)
    requires n == |x|
    ensures (x + y)[n..] == y && (x + y)[n..n + |y|] == y
  {
  }

  /** In `<a>d<b>` the multiplier digits are all of `a`. */
  lemma ScanLead(a: string, b: string)
    requires AllDigits(a) && |a| <= 3
    ensures var s := a + "d" + b;
      && DigitRun(s, 0, 3) == |a|
      && s[..|a|] == a
  {
    var s := a + "d" + b;
    assert s[..|a|] == a && s[0..0 + |a|] == a;
    assert s[|a|] == 'd';
    DigitRunExact(s, 0, 3, |a|);
  }

  /** With no reroll, the faces of a supported size come back unshifted. */
  lemma PlainFaces(size: int)
    requires size in DiePicker.Sizes
    ensures DiePicker.GetDie(size, DiePicker.NoReroll, 0, 0) == Ok(Some(DiePicker.FaceTable(size).value))
  {
    DiePicker.GetDiePlain(size, 0, 0);
    var t := DiePicker.FaceTable(size).value;
    assert DiePicker.Shift(t, 0, 0) == t;
  }

  /** `DetermineNumbers` once the scanners' answers are known. */
  lemma DetermineNumbersFrom(s: string, p: nat, k: nat, lead: nat, faces: seq<int>)
    requires FindDie(s, 0) == Some(p) && s[p] == 'd'
    requires DigitRun(s, p + 1, 3) == k && DigitRun(s, 0, 3) == lead
    requires DiePicker.GetDie(ParseNat(s[p + 1..p + 1 + k]), DiePicker.NoReroll, 0, 0) == Ok(Some(faces))
    ensures DetermineNumbers(s, DiePicker.NoReroll, 0, 0) == Ok(Numbers(faces, if lead == 0 then 1 else ParseNat(s[..lead])))
  {
    var size := TokenSize(s);
    assert size == ParseNat(s[p + 1..p + 1 + k]);
    assert size in DiePicker.Sizes;
    assert LeadNumber(s) == if lead == 0 then 1 else ParseNat(s[..lead]);
    var r := DetermineNumbers(s, DiePicker.NoReroll, 0, 0);
    assert r.Ok? && r.value.faces == faces;
  }

  /** `<a>d<b>` with digit runs `a` (at most three) and `b` (one to
      three, naming a supported size) reads as that die and multiplier. */
  lemma DetermineNumbersToken(a: string, b: string, size: int)
    requires AllDigits(a) && |a| <= 3 && AllDigits(b) && 1 <= |b| <= 3
    requires ParseNat(b) == size && size in DiePicker.Sizes
    ensures DetermineNumbers(a + "d" + b, DiePicker.NoReroll, 0, 0)
      == Ok(Numbers(DiePicker.FaceTable(size).value, if a == [] then 1 else ParseNat(a)))
  {
    var s := a + "d" + b;
    ScanDie(a, b);
    ScanSize(a, b);
    ScanLead(a, b);
    PlainFaces(size);
    assert s[|a|] == 'd';
    DetermineNumbersFrom(s, |a|, |b|, |a|, DiePicker.FaceTable(size).value);
  }

  /** The canonical token `<m>d<size>` reads back as the faces `1..size`
      and the multiplier `m`; a bare `d<size>` has multiplier 1. */
  lemma DetermineNumbersCanonical(m: nat, size: int)
    requires m < 1000 && size in DiePicker.Sizes
    ensures var a := if m == 0 then "" else ShowNat(m);
      var r := DetermineNumbers(a + "d" + ShowNat(size), DiePicker.NoReroll, 0, 0);
      && r.Ok?
      && r.value.multiplier == (if m == 0 then 1 else m)
      && r.value.faces == DiePicker.FaceTable(size).value
  {
    var a := if m == 0 then "" else ShowNat(m);
    ShowNatThree(m);
    ShowNatThree(size);
    ParseShowNat(size);
    ParseShowNat(m);
    DetermineNumbersToken(a, ShowNat(size), size);
  }

  // ---------------------------------------------------------------------
  // The modifier

  predicate IsSign(c: char) {
    c == '+' || c == '-'
  }

  /** One signed group as `(\+|-)\d{0,2}` matches it. */
  predicate IsGroup(g: string) {
    1 <= |g| <= 3 && IsSign(g[0]) && AllDigits(g[1..])
  }

  /** `determineModifier = (\+|-)\d{0,2}$` can match at `p`. */
  predicate GroupAt(s: string, p: int) {
    0 <= p < |s| && IsGroup(s[p..])
  }

  /** The number of digits at the end of `s`. */
  function TrailingDigits(s: string): (t: nat)
    ensures t <= |s| && AllDigits(s[|s| - t..])
    ensures t < |s| ==> !IsDigit(s[|s| - t - 1])
  {
    if s == [] || !IsDigit(s[|s| - 1]) then 0
    else
      var front := s[..|s| - 1];
      var u := TrailingDigits(front);
      DigitsSnoc(s, u);
      1 + u
  }

  /** One more digit at the end of a run of trailing digits. */
  lemma DigitsSnoc(s: string, u: nat)
    requires s != [] && IsDigit(s[|s| - 1])
    requires u <= |s| - 1 && AllDigits(s[..|s| - 1][|s| - 1 - u..])
    ensures AllDigits(s[|s| - 1 - u..])
    ensures u < |s| - 1 ==> s[|s| - u - 2] == s[..|s| - 1][|s| - 1 - u - 1]
  {
    assert s[|s| - 1 - u..] == s[..|s| - 1][|s| - 1 - u..] + [s[|s| - 1]];
  }

  /** `determineModifier.search(s)`: where the trailing group starts, if
      there is one. */
  function TrailingGroup(s: string): (r: Option<nat>)
    ensures r.Some? ==> GroupAt(s, r.value)
  {
    var t := TrailingDigits(s);
    if t <= 2 && t < |s| && IsSign(s[|s| - t - 1]) then
      assert s[|s| - t - 1..][1..] == s[|s| - t..];
      Some(|s| - t - 1)
    else None
  }

  /** A group can only start right before the trailing digits. */
  lemma GroupAtPosition(s: string, p: int)
    requires GroupAt(s, p)
    ensures TrailingDigits(s) <= 2 && p == |s| - TrailingDigits(s) - 1
  {
    var t := TrailingDigits(s);
    assert s[p..][1..] == s[p + 1..];
    DigitsFrom(s, p + 1);
    DigitsFrom(s, |s| - t);
  }

  /** Every position of a run of digits holds a digit. */
  lemma DigitsFrom(s: string, from: nat)
    requires from <= |s| && AllDigits(s[from..])
    ensures forall i :: from <= i < |s| ==> IsDigit(s[i])
  {
    forall i | from <= i < |s|
      ensures IsDigit(s[i])
    {
      assert s[i] == s[from..][i - from];
    }
  }

  /** The search finds the group wherever one can start: there is at most
      one such place. */
  lemma TrailingGroupComplete(s: string, p: int)
    requires GroupAt(s, p)
    ensures TrailingGroup(s) == Some(p)
  {
    GroupAtPosition(s, p);
  }

  /** Whether `t` ends in a newline. */
  predicate EndsInNewline(t: string) {
    t != [] && t[|t| - 1] == '\n'
  }

  /** `determineModifier.search(t)`: the matched group. Python's `$` also
      matches right before a final newline, so a string ending in `\n` is
      matched without that newline. */
  function Search(t: string): (r: Option<string>)
    ensures r.Some? ==> IsGroup(r.value) && |r.value| <= |t|
    ensures r.Some? && !EndsInNewline(t) ==> t[|t| - |r.value|..] == r.value
    ensures r.Some? && EndsInNewline(t) ==>
      |r.value| < |t| && t[|t| - 1 - |r.value|..|t| - 1] == r.value
  {
    match TrailingGroup(t)
    case Some(p) => Some(t[p..])
    case None =>
      if EndsInNewline(t) then
        var u := t[..|t| - 1];
        match TrailingGroup(u)
        case Some(p) =>
          assert t[|t| - 1 - |u[p..]|..|t| - 1] == u[p..];
          Some(u[p..])
        case None => None
      else None
  }

  /** The search finds a group wherever one can match: at the very end,
      or right before a final newline. */
  lemma SearchFinds(t: string, p: int)
    requires GroupAt(t, p) || (EndsInNewline(t) && GroupAt(t[..|t| - 1], p))
    ensures Search(t) == Some(if GroupAt(t, p) then t[p..] else t[..|t| - 1][p..])
  {
    if GroupAt(t, p) {
      TrailingGroupComplete(t, p);
    } else {
      TrailingGroupComplete(t[..|t| - 1], p);
    }
  }

  /** The groups the loop of `_determineModifier` collects, last group
      first, the way it appends them to `currentMod`. Each round searches
      the prefix of the input that is shorter by the length of what has
      been collected so far. */
  function Peel(s: string): (gs: seq<string>)
    ensures forall i :: 0 <= i < |gs| ==> IsGroup(gs[i])
    decreases |s|
  {
    match Search(s)
    case None => []
    case Some(g) => [g] + Peel(s[..|s| - |g|])
  }

  /** The groups back in reading order, concatenated. */
  function Unpeel(gs: seq<string>): string {
    if gs == [] then "" else Unpeel(gs[1..]) + gs[0]
  }

  /** The prefix on which the loop stops. */
  function PeelRest(s: string): (rest: string)
    decreases |s|
  {
    match Search(s)
    case None => s
    case Some(g) => PeelRest(s[..|s| - |g|])
  }

  /** One turn of the peeling loop. */
  lemma PeelUnfold(s: string)
    ensures Search(s).None? ==> Peel(s) == [] && PeelRest(s) == s
    ensures Search(s).Some? ==>
      var g := Search(s).value;
      Peel(s) == [g] + Peel(s[..|s| - |g|]) && PeelRest(s) == PeelRest(s[..|s| - |g|])
  {
  }

  /** In a string without newlines the peeled groups are exactly its tail. */
  lemma {:induction false} PeelSplits(s: string)
    requires '\n' !in s
    ensures s == PeelRest(s) + Unpeel(Peel(s))
    decreases |s|
  {
    PeelUnfold(s);
    var t := Search(s);
    if t.Some? {
      var p := |s| - |t.value|;
      assert s[..p] <= s;
      PeelSplits(s[..p]);
      PeelJoin(s, p, PeelRest(s[..p]), Peel(s[..p]));
    }
  }

  /** Putting the group at `p` back after the groups in front of it. */
  lemma PeelJoin(s: string, p: nat, rest: string, inner: seq<string>)
    requires p <= |s| && s[..p] == rest + Unpeel(inner)
    ensures s == rest + Unpeel([s[p..]] + inner)
  {
    var back := s[p..];
    assert ([back] + inner)[1..] == inner;
    assert s == s[..p] + back;
    var u := Unpeel(inner);
    assert (rest + u) + back == rest + (u + back);
  }

  /** The loop stops only when no further group matches in the prefix
      it has reached. */
  lemma {:induction false} PeelMaximal(s: string)
    ensures Search(PeelRest(s)).None?
    decreases |s|
  {
    var t := Search(s);
    if t.Some? {
      PeelMaximal(s[..|s| - |t.value|]);
    }
  }

  /** With a final newline after the last group `g`, the loop's next
      prefix keeps the sign of `g`, which it then takes as a group of its
      own: the groups come out as `g`, that bare sign, and the groups in
      front. */
  lemma NewlinePeel(a: string, g: string)
    requires IsGroup(g)
    ensures Peel(a + g + "\n") == [g, [g[0]]] + Peel(a)
  {
    var t := a + g + "\n";
    NewlineSearch(a, g);
    PeelUnfold(t);
    NewlinePrefix(a, g);
    PeelSign(a, g[0]);
  }

  /** The prefix the loop searches second keeps only the sign of `g`. */
  lemma NewlinePrefix(a: string, g: string)
    requires |g| >= 1
    ensures var t := a + g + "\n"; t[..|t| - |g|] == a + [g[0]]
  {
  }

  /** A trailing sign is peeled on its own. */
  lemma PeelSign(a: string, c: char)
    requires IsSign(c)
    ensures Peel(a + [c]) == [[c]] + Peel(a)
  {
    var u := a + [c];
    SignSearch(a, c);
    PeelUnfold(u);
    assert u[..|u| - 1] == a;
  }

  /** The first search of the loop, on `a + g` and a final newline. */
  lemma NewlineSearch(a: string, g: string)
    requires IsGroup(g)
    ensures Search(a + g + "\n") == Some(g)
  {
    var t := a + g + "\n";
    assert t[..|t| - 1] == a + g;
    assert (a + g)[|a|..] == g;
    SearchFinds(t, |a|);
  }

  /** The search on a string that ends in a sign takes just that sign. */
  lemma SignSearch(a: string, c: char)
    requires IsSign(c)
    ensures Search(a + [c]) == Some([c])
  {
    var u := a + [c];
    assert u[|a|..] == [c];
    assert GroupAt(u, |a|);
    SearchFinds(u, |a|);
  }

  function SignOf(c: char): int {
    if c == '-' then -1 else 1
  }

  /** A numeral Python refuses as a literal: a leading zero before a
      non-zero digit, such as `05` (while `00` is accepted). */
  predicate LeadingZero(digits: string) {
    |digits| >= 2 && digits[0] == '0' && exists i :: 1 <= i < |digits| && digits[i] != '0'
  }

  /** `eval` of the concatenated groups. Each run of signs ahead of a
      numeral multiplies into that numeral's sign; an expression ending in
      a sign, or a numeral with a leading zero, is a `SyntaxError`. */
  function EvalGroups(gs: seq<string>, sign: int): (r: Result<int, Failure>)
    requires forall i :: 0 <= i < |gs| ==> IsGroup(gs[i])
    ensures gs == [] ==> r == Err(BadModifier)
  {
    if gs == [] then Err(BadModifier)
    else
      assert IsGroup(gs[0]);
      assert forall i :: 0 <= i < |gs[1..]| ==> IsGroup(gs[1..][i]) by {
        forall i | 0 <= i < |gs[1..]|
          ensures IsGroup(gs[1..][i])
        {
          assert gs[1..][i] == gs[i + 1];
        }
      }
      var s := sign * SignOf(gs[0][0]);
      var digits := gs[0][1..];
      if digits == [] then EvalGroups(gs[1..], s)
      else if LeadingZero(digits) then Err(BadModifier)
      else if |gs| == 1 then Ok(s * ParseNat(digits))
      else
        var rest :- EvalGroups(gs[1..], 1);
        Ok(s * ParseNat(digits) + rest)
  }

  /** The net value of groups that each carry a numeral. */
  function Net(gs: seq<string>): int
    requires forall i :: 0 <= i < |gs| ==> IsGroup(gs[i])
  {
    if gs == [] then 0
    else
      assert IsGroup(gs[0]);
      assert forall i :: 0 <= i < |gs[1..]| ==> IsGroup(gs[1..][i]) by {
        forall i | 0 <= i < |gs[1..]|
          ensures IsGroup(gs[1..][i])
        {
          assert gs[1..][i] == gs[i + 1];
        }
      }
      SignOf(gs[0][0]) * ParseNat(gs[0][1..]) + Net(gs[1..])
  }

  predicate PlainGroups(gs: seq<string>) {
    forall i :: 0 <= i < |gs| ==> IsGroup(gs[i]) && |gs[i]| >= 2 && !LeadingZero(gs[i][1..])
  }

  /** When every group carries a well-formed numeral, `eval` is the net sum. */
  lemma {:induction false} EvalPlain(gs: seq<string>)
    requires gs != [] && PlainGroups(gs)
    ensures EvalGroups(gs, 1) == Ok(Net(gs))
  {
    if |gs| > 1 {
      EvalPlain(gs[1..]);
    }
  }

  /** The net value of the trailing groups, `0` when there are none. */
  function ModifierValue(s: string): (r: Result<int, Failure>)
    ensures Peel(s) == [] ==> r == Ok(0)
  {
    var gs := Peel(s);
    if gs == [] then Ok(0) else EvalGroups(gs, 1)
  }

  /** `str(v)` with a `+` put in front of a positive value, `''` for zero. */
  function ShowSigned(v: int): (r: string)
    ensures r == "" <==> v == 0
  {
    if v == 0 then "" else if v > 0 then "+" + ShowNat(v) else "-" + ShowNat(-v)
  }

  /** The value of a signed numeral written by `ShowSigned`. */
  function ReadSigned(s: string): int {
    if |s| >= 2 && IsSign(s[0]) && AllDigits(s[1..]) then SignOf(s[0]) * ParseNat(s[1..]) else 0
  }

  /** `ReadSigned` inverts `ShowSigned`. */
  lemma ReadShowSigned(v: int)
    ensures ReadSigned(ShowSigned(v)) == v
  {
    if v > 0 {
      assert ShowSigned(v)[1..] == ShowNat(v);
      ParseShowNat(v);
    } else if v < 0 {
      assert ShowSigned(v)[1..] == ShowNat(-v);
      ParseShowNat(-v);
    }
  }

  /** `_determineModifier`. */
  function DetermineModifier(s: string): (r: Result<string, Failure>)
    ensures r.Ok? <==> ModifierValue(s).Ok?
    ensures r.Ok? ==> ReadSigned(r.value) == ModifierValue(s).value
  {
    var v :- ModifierValue(s);
    ReadShowSigned(v);
    Ok(ShowSigned(v))
  }

  /** Groups that each carry a numeral fold into their net sum. */
  lemma DetermineModifierNet(s: string)
    requires Peel(s) != [] && PlainGroups(Peel(s))
    ensures DetermineModifier(s) == Ok(ShowSigned(Net(Peel(s))))
  {
    EvalPlain(Peel(s));
  }

  /** A final newline after a lone trailing group makes the fold end in a
      bare sign, which `eval` refuses: `1d6+2` folds to `+2`, while
      `1d6+2` followed by a newline raises. */
  lemma NewlineModifier(a: string, g: string)
    requires IsGroup(g) && Search(a).None?
    ensures DetermineModifier(a + g + "\n") == Err(BadModifier)
  {
    NewlinePeel(a, g);
    PeelUnfold(a);
    var gs := [g, [g[0]]];
    assert Peel(a + g + "\n") == gs;
    assert gs[1..] == [[g[0]]];
    BareSignFails(g[0], 1);
    BareSignFails(g[0], SignOf(g[0]));
    assert EvalGroups(gs, 1).Err?;
  }

  /** A bare sign as the last group leaves `eval` an expression ending in
      an operator. */
  lemma BareSignFails(c: char, sign: int)
    requires IsSign(c)
    ensures EvalGroups([[c]], sign) == Err(BadModifier)
  {
    assert [[c]][1..] == [];
  }

  /** A trailing group with its numeral folds to itself. */
  lemma PlainModifierExample()
    ensures DetermineModifier("1d6+2") == Ok("+2")
  {
    var g: string := "+2";
    var gs: seq<string> := [g];
    assert GroupAt("1d6+2", 3);
    SearchFinds("1d6+2", 3);
    assert "1d6+2"[..5 - |g|] == "1d6";
    assert Search("1d6").None?;
    PeelUnfold("1d6");
    PeelUnfold("1d6+2");
    assert Peel("1d6+2") == gs;
    EvalPlain(gs);
    assert Net(gs) == 2 by {
      assert g[1..] == "2";
      assert gs[1..] == [];
    }
    assert ModifierValue("1d6+2") == Ok(2);
    assert ShowNat(2) == "2";
    assert ShowSigned(2) == "+2";
  }

  /** A die string whose modifier group is followed by a newline raises. */
  lemma NewlineDieExample()
    ensures DetermineModifier("1d6+2\n") == Err(BadModifier)
  {
    var a: string, g: string := "1d6", "+2";
    assert Search(a).None?;
    assert a + g + "\n" == "1d6+2\n";
    NewlineModifier(a, g);
  }

  /** A bare modifier followed by a newline raises. */
  lemma NewlineBareExample()
    ensures ModifierValue("+2\n") == Err(BadModifier)
  {
    var a: string, g: string := "", "+2";
    assert Search(a).None?;
    assert a + g + "\n" == "+2\n";
    NewlineModifier(a, g);
  }

  /** The same group with and without a final newline. */
  lemma NewlineExample()
    ensures DetermineModifier("1d6+2") == Ok("+2")
    ensures DetermineModifier("1d6+2\n") == Err(BadModifier)
    ensures ModifierValue("+2\n") == Err(BadModifier)
  {
    PlainModifierExample();
    NewlineDieExample();
    NewlineBareExample();
  }

  /** A numeral `ShowNat` writes never has a leading zero. */
  lemma ShowNatNoLeadingZero(n: nat)
    ensures !LeadingZero(ShowNat(n))
  {
  }

  /** A sign followed only by digits: the whole tail is digits. */
  lemma SignedTrailing(s: string)
    requires |s| >= 2 && IsSign(s[0]) && AllDigits(s[1..])
    ensures TrailingDigits(s) == |s| - 1
  {
    assert forall i :: 1 <= i < |s| ==> IsDigit(s[i]) by {
      forall i | 1 <= i < |s|
        ensures IsDigit(s[i])
      {
        assert s[i] == s[1..][i - 1];
      }
    }
  }

  /** The numeral `ShowSigned` writes for a non-zero value. */
  lemma ShowSignedShape(v: int)
    requires v != 0
    ensures var s := ShowSigned(v);
      && |s| >= 2 && IsSign(s[0]) && s[1..] == ShowNat(if v > 0 then v else -v)
      && AllDigits(s[1..]) && TrailingDigits(s) == |s| - 1
  {
    var s := ShowSigned(v);
    assert s[1..] == ShowNat(if v > 0 then v else -v);
    SignedTrailing(s);
  }

  /** Folding its own output again gives the same string while the net
      value has at most two digits. */
  lemma RefoldSmall(v: int)
    requires -99 <= v <= 99
    ensures DetermineModifier(ShowSigned(v)) == Ok(ShowSigned(v))
  {
    if v != 0 {
      var n := if v > 0 then v else -v;
      var s := ShowSigned(v);
      ShowSignedShape(v);
      ShowNatShort(n);
      assert GroupAt(s, 0);
      SearchFinds(s, 0);
      assert s[..|s| - |s|] == "";
      assert Peel(s) == [s];
      ShowNatNoLeadingZero(n);
      EvalPlain([s]);
      ReadShowSigned(v);
    }
  }

  /** Once the net value needs three digits, folding its output again
      finds no trailing group and yields `''`: `rollTotal` applies the
      modifier with this second fold. */
  lemma RefoldLarge(v: int)
    requires v <= -100 || 100 <= v
    ensures DetermineModifier(ShowSigned(v)) == Ok("")
  {
    var n := if v > 0 then v else -v;
    ShowSignedShape(v);
    ShowNatShort(n);
    assert TrailingGroup(ShowSigned(v)).None?;
    assert Search(ShowSigned(v)).None?;
  }
}
