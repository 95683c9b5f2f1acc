/** `DieAnylizer`: turning a dice request, either notation text such as
    `2d6+3+1d4` or a JSON description, into the dice list, connectors and
    batch options that `rollDice` takes. */
module DieAnalyzer {
  import opened Wrappers
  import opened Failures
  import opened JsonValue
  import Text
  import Notation
  import DiePicker
  import JsonHook
  import DieRoller
  import opened Seqs

  /** A loop that reads each element in turn and stops at the first
      one that raises. */
  function MapAll<A, B>(f: A -> Result<B, Failure>, xs: seq<A>): (r: Result<seq<B>, Failure>)
    ensures r.Ok? <==> forall i :: 0 <= i < |xs| ==> f(xs[i]).Ok?
    ensures r.Ok? ==> |r.value| == |xs| && forall i :: 0 <= i < |xs| ==> f(xs[i]) == Ok(r.value[i])
  {
    if xs == [] then Ok([])
    else
      var n := |xs|;
      var init :- MapAll(f, xs[..n - 1]);
      var last :- f(xs[n - 1]);
      assert forall i :: 0 <= i < n - 1 ==> xs[..n - 1][i] == xs[i];
      Ok(init + [last])
  }

  /** The failure reported is the one of the first element that raises. */
  lemma {:induction false} MapAllFirstFailure<A, B>(f: A -> Result<B, Failure>, xs: seq<A>, k: nat)
    requires k < |xs| && f(xs[k]).Err?
    requires forall i :: 0 <= i < k ==> f(xs[i]).Ok?
    ensures MapAll(f, xs) == Err(f(xs[k]).error)
    decreases |xs|
  {
    var n := |xs|;
    if k < n - 1 {
      assert forall i :: 0 <= i < k ==> xs[..n - 1][i] == xs[i];
      MapAllFirstFailure(f, xs[..n - 1], k);
    } else {
      assert MapAll(f, xs[..n - 1]).Ok?;
    }
  }

  // ---------------------------------------------------------------------
  // Notation text: `dieStrAnylizer`

  /** The characters of the split pattern's class `[\+|-]`. */
  predicate IsSplitter(c: char) {
    c == '+' || c == '|' || c == '-'
  }

  /** `dString.strip().strip('+').strip('-').lower()`. */
  function Normalize(s: string): (r: string)
    ensures forall i :: 0 <= i < |r| ==> !('A' <= r[i] <= 'Z')
  {
    var t := Text.Trim(Text.Trim(Text.Trim(s, Text.IsSpace), c => c == '+'), c => c == '-');
    Text.LowerNoUpper(t);
    Text.Lower(t)
  }

  /** `re.split('([\+|-])', s)`: the runs between splitters, each splitter
      kept as an item of its own between them. */
  function Split(s: string): (r: seq<string>)
    ensures |r| % 2 == 1
    decreases |s|
  {
    if s == [] then [""]
    else
      var init := Split(s[..|s| - 1]);
      var c := s[|s| - 1];
      if IsSplitter(c) then init + [[c], ""]
      else init[..|init| - 1] + [init[|init| - 1] + [c]]
  }

  function Concat(items: seq<string>): string {
    if items == [] then "" else Concat(items[..|items| - 1]) + items[|items| - 1]
  }

  /** The shape of a split: runs without splitters at even positions, one
      splitter at each odd position. */
  predicate Alternating(items: seq<string>) {
    forall i :: 0 <= i < |items| ==>
      if i % 2 == 1 then |items[i]| == 1 && IsSplitter(items[i][0])
      else forall j :: 0 <= j < |items[i]| ==> !IsSplitter(items[i][j])
  }

  lemma ConcatSnoc(xs: seq<string>, x: string)
    ensures Concat(xs + [x]) == Concat(xs) + x
  {
    assert (xs + [x])[..|xs|] == xs;
  }

  /** Splitting loses nothing. */
  lemma {:induction false} SplitConcat(s: string)
    ensures Concat(Split(s)) == s
    decreases |s|
  {
    if s != [] {
      SplitConcat(s[..|s| - 1]);
      if IsSplitter(s[|s| - 1]) {
        SplitConcatSplitter(Split(s[..|s| - 1]), s[|s| - 1]);
      } else {
        SplitConcatRun(Split(s[..|s| - 1]), s[|s| - 1]);
      }
      assert s == s[..|s| - 1] + [s[|s| - 1]];
    }
  }

  lemma SplitConcatSplitter(init: seq<string>, c: char)
    ensures Concat(init + [[c], ""]) == Concat(init) + [c]
  {
    assert init + [[c], ""] == (init + [[c]]) + [""];
    ConcatSnoc(init + [[c]], "");
    ConcatSnoc(init, [c]);
  }

  lemma SplitConcatRun(init: seq<string>, c: char)
    requires init != []
    ensures Concat(init[..|init| - 1] + [init[|init| - 1] + [c]]) == Concat(init) + [c]
  {
    var front, last := init[..|init| - 1], init[|init| - 1];
    var x := Concat(front);
    assert Concat(init) == x + last;
    ConcatSnoc(front, last + [c]);
    SeqAssoc(x, last, [c]);
  }

  /** Splitting alternates runs and splitters. */
  lemma {:induction false} SplitAlternates(s: string)
    ensures Alternating(Split(s))
    decreases |s|
  {
    if s != [] {
      var init := Split(s[..|s| - 1]);
      SplitAlternates(s[..|s| - 1]);
      if IsSplitter(s[|s| - 1]) {
        AlternatingSplitter(init, s[|s| - 1]);
      } else {
        AlternatingRun(init, s[|s| - 1]);
      }
    }
  }

  lemma AlternatingSplitter(init: seq<string>, c: char)
    requires Alternating(init) && |init| % 2 == 1 && IsSplitter(c)
    ensures Alternating(init + [[c], ""])
  {
    var r := init + [[c], ""];
    forall i | 0 <= i < |init|
      ensures r[i] == init[i]
    {
    }
  }

  lemma AlternatingRun(init: seq<string>, c: char)
    requires Alternating(init) && |init| % 2 == 1 && !IsSplitter(c)
    ensures Alternating(init[..|init| - 1] + [init[|init| - 1] + [c]])
  {
    var n := |init|;
    var last := init[n - 1] + [c];
    var r := init[..n - 1] + [last];
    assert (n - 1) % 2 == 0;
    forall j | 0 <= j < |last|
      ensures !IsSplitter(last[j])
    {
      if j < |init[n - 1]| {
        assert last[j] == init[n - 1][j];
      }
    }
    forall i | 0 <= i < n - 1
      ensures r[i] == init[i]
    {
    }
  }

  /** The state of the source's loop: completed die strings, the
      connectors after them, and the die string being built. */
  datatype ScanState = ScanState(pieces: seq<string>, conns: string, tmp: string)

  /** One pass of the loop over the split items. The source guards the
      middle branches with `tmp.endswith(...) or tmp.endswith("")`, which
      always holds, so they are taken whenever the item has no sign. */
  function Step(st: ScanState, item: string): ScanState {
    if '+' in item || '-' in item then st.(tmp := st.tmp + item)
    else if 'd' in item && st.tmp == "" then st.(tmp := item)
    else if 'd' in item then
      ScanState(st.pieces + [st.tmp[..|st.tmp| - 1]], st.conns + [st.tmp[|st.tmp| - 1]], item)
    else st.(tmp := st.tmp + item)
  }

  function ScanAll(items: seq<string>): (st: ScanState)
    ensures |st.pieces| == |st.conns|
  {
    if items == [] then ScanState([], "", "")
    else Step(ScanAll(items[..|items| - 1]), items[|items| - 1])
  }

  /** The die strings of a normalised request and the connectors between
      them: every completed piece, then the one in progress. */
  function Pieces(s: string): (pc: (seq<string>, string))
    ensures |pc.0| == |pc.1| + 1
  {
    var st := ScanAll(Split(s));
    (st.pieces + [st.tmp], st.conns)
  }

  /** Die strings joined by their connectors. */
  function Join(pieces: seq<string>, conns: string): string
    requires |pieces| == |conns| + 1
    decreases |conns|
  {
    if conns == [] then pieces[0]
    else
      var n := |conns|;
      Join(pieces[..n], conns[..n - 1]) + [conns[n - 1]] + pieces[n]
  }

  lemma JoinLast(ps: seq<string>, cs: string, t: string)
    requires |ps| == |cs|
    ensures Join(ps + [t], cs) == Join(ps + [""], cs) + t
  {
    if cs != [] {
      assert (ps + [t])[..|cs|] == ps;
      assert (ps + [""])[..|cs|] == ps;
    }
  }

  /** Emitting a die string moves the last character of the pending text
      into the connectors and changes nothing in the joined text. */
  lemma JoinEmit(ps: seq<string>, cs: string, tmp: string, item: string)
    requires |ps| == |cs| && tmp != []
    ensures Join(ps + [tmp[..|tmp| - 1]] + [item], cs + [tmp[|tmp| - 1]]) == Join(ps + [tmp], cs) + item
  {
    var head, last := tmp[..|tmp| - 1], tmp[|tmp| - 1];
    var p2, c2 := ps + [head], cs + [last];
    assert (p2 + [item])[..|c2|] == p2;
    assert c2[..|c2| - 1] == cs;
    assert Join(p2 + [item], c2) == Join(p2, cs) + [last] + item;
    JoinLast(ps, cs, head);
    JoinLast(ps, cs, tmp);
    var x := Join(ps + [""], cs);
    assert Join(p2, cs) == x + head;
    assert Join(ps + [tmp], cs) == x + tmp;
    assert tmp == head + [last];
    SeqAssoc(x, head, [last]);
  }

  lemma SeqAssoc(x: string, y: string, z: string)
    ensures (x + y) + z == x + (y + z)
  {
  }

  /** The loop keeps every character: die strings joined by connectors
      spell the items read so far. */
  lemma {:induction false} ScanJoin(items: seq<string>)
    ensures var st := ScanAll(items);
      Join(st.pieces + [st.tmp], st.conns) == Concat(items)
  {
    if items != [] {
      var init, item := items[..|items| - 1], items[|items| - 1];
      ScanJoin(init);
      var st := ScanAll(init);
      JoinLast(st.pieces, st.conns, st.tmp);
      if '+' in item || '-' in item || 'd' !in item {
        JoinLast(st.pieces, st.conns, st.tmp + item);
      } else if st.tmp == "" {
        JoinLast(st.pieces, st.conns, item);
      } else {
        JoinEmit(st.pieces, st.conns, st.tmp, item);
      }
    }
  }

  lemma AlternatingPrefix(items: seq<string>, k: nat)
    requires Alternating(items) && k <= |items|
    ensures Alternating(items[..k])
  {
    assert forall i :: 0 <= i < k ==> items[..k][i] == items[i];
  }

  /** What the loop keeps true on split text: connectors are splitters;
      after a splitter the pending text ends in it; once a die string is
      complete the pending text holds a `d`, and so does every die string
      after the first. */
  predicate ShapeOk(items: seq<string>, st: ScanState) {
    && (forall i :: 0 <= i < |st.conns| ==> IsSplitter(st.conns[i]))
    && (items != [] && |items| % 2 == 0 ==> st.tmp != [] && items[|items| - 1] == [st.tmp[|st.tmp| - 1]])
    && (|st.pieces| >= 1 ==> 'd' in st.tmp)
    && (forall i :: 1 <= i < |st.pieces| ==> 'd' in st.pieces[i])
  }

  /** A new die string starts only at an item with a `d`, right after a
      splitter. */
  lemma {:induction false} ScanShape(items: seq<string>)
    requires Alternating(items)
    ensures ShapeOk(items, ScanAll(items))
  {
    if items != [] {
      var k := |items| - 1;
      AlternatingPrefix(items, k);
      ScanShape(items[..k]);
      assert items == items[..k] + [items[k]];
      StepShape(items[..k], items[k], ScanAll(items[..k]));
    }
  }

  lemma StepShape(init: seq<string>, item: string, st: ScanState)
    requires Alternating(init + [item]) && ShapeOk(init, st) && |st.pieces| == |st.conns|
    requires init == [] ==> st.tmp == ""
    ensures ShapeOk(init + [item], Step(st, item))
  {
    var items := init + [item];
    var k := |init|;
    assert items[k] == item;
    if k % 2 == 1 {
      assert |item| == 1 && IsSplitter(item[0]);
      assert item == [item[0]];
    } else {
      assert forall j :: 0 <= j < |item| ==> !IsSplitter(item[j]);
      assert '+' !in item && '-' !in item;
      if 'd' in item && st.tmp != "" {
        assert k >= 2 && init[k - 1] == items[k - 1];
        EmitShape(st.tmp);
      }
    }
  }

  /** A pending text that ends in a splitter keeps its `d` when the
      splitter is cut off. */
  lemma EmitShape(tmp: string)
    requires tmp != [] && IsSplitter(tmp[|tmp| - 1])
    ensures 'd' in tmp ==> 'd' in tmp[..|tmp| - 1]
  {
    if 'd' in tmp {
      var i :| 0 <= i < |tmp| && tmp[i] == 'd';
      assert tmp[..|tmp| - 1][i] == 'd';
    }
  }

  /** The splitters that start a new die string: each splitter item of a
      split whose following run holds a `d`, in order. */
  function DieSplitters(items: seq<string>): string
    requires |items| % 2 == 1
    decreases |items|
  {
    if |items| == 1 then ""
    else
      var n := |items|;
      var sp, run := items[n - 2], items[n - 1];
      DieSplitters(items[..n - 2]) + (if 'd' in run && sp != [] then [sp[0]] else "")
  }

  predicate NoSplitter(run: string) {
    forall j :: 0 <= j < |run| ==> !IsSplitter(run[j])
  }

  /** An odd-length split read two items at a time from the back: a
      splitter item, then a run without splitters. */
  predicate PairShape(items: seq<string>)
    decreases |items|
  {
    if |items| < 3 then |items| == 1
    else
      var n := |items|;
      && |items[n - 2]| == 1 && IsSplitter(items[n - 2][0])
      && NoSplitter(items[n - 1])
      && PairShape(items[..n - 2])
  }

  lemma {:induction false} AlternatingPairs(items: seq<string>)
    requires Alternating(items) && |items| % 2 == 1
    ensures PairShape(items)
    decreases |items|
  {
    var n := |items|;
    if n >= 3 {
      AlternatingPrefix(items, n - 2);
      AlternatingPairs(items[..n - 2]);
      AlternatingLastTwo(items, items[n - 2], items[n - 1]);
    }
  }

  /** The loop over a split takes a splitter as a connector exactly when
      the run after it holds a `d`; a run without one, and the splitter in
      front of it, stay in the die string being built. */
  lemma {:induction false} ScanConnectors(items: seq<string>)
    requires PairShape(items) && |items| % 2 == 1
    ensures ScanAll(items).conns == DieSplitters(items)
    ensures |items| >= 3 ==> ScanAll(items).tmp != ""
    decreases |items|
  {
    var n := |items|;
    if n >= 3 {
      var init, sp, run := items[..n - 2], items[n - 2], items[n - 1];
      ScanConnectors(init);
      ScanTwo(init, sp, run);
      assert items == init + [sp, run];
      ScanPair(init, sp, run);
    }
  }

  /** Two more items: the loop takes two more steps, and the reference
      adds the splitter when the run holds a `d`. */
  lemma ScanTwo(init: seq<string>, sp: string, run: string)
    requires |init| % 2 == 1 && |sp| == 1
    ensures ScanAll(init + [sp, run]) == Step(Step(ScanAll(init), sp), run)
    ensures DieSplitters(init + [sp, run]) == DieSplitters(init) + (if 'd' in run then sp else "")
  {
    ScanTwoSteps(init, sp, run);
    DieSplittersTwo(init, sp, run);
  }

  lemma ScanTwoSteps(init: seq<string>, sp: string, run: string)
    ensures ScanAll(init + [sp, run]) == Step(Step(ScanAll(init), sp), run)
  {
    var items := init + [sp, run];
    var n := |items|;
    assert items[..n - 1] == init + [sp];
    assert (init + [sp])[..n - 2] == init;
  }

  lemma DieSplittersTwo(init: seq<string>, sp: string, run: string)
    requires |init| % 2 == 1 && |sp| == 1
    ensures DieSplitters(init + [sp, run]) == DieSplitters(init) + (if 'd' in run then sp else "")
  {
    var items := init + [sp, run];
    assert items[..|items| - 2] == init;
    assert sp == [sp[0]];
  }

  /** The last two items of an odd-length split: a splitter, then a run. */
  lemma AlternatingLastTwo(items: seq<string>, sp: string, run: string)
    requires Alternating(items) && |items| % 2 == 1 && |items| >= 3
    requires sp == items[|items| - 2] && run == items[|items| - 1]
    ensures |sp| == 1 && IsSplitter(sp[0])
    ensures NoSplitter(run)
  {
    var n := |items|;
    assert (n - 2) % 2 == 1 && (n - 1) % 2 == 0;
  }

  /** One splitter item and the run after it, through the loop. */
  lemma ScanPair(init: seq<string>, sp: string, run: string)
    requires |sp| == 1 && IsSplitter(sp[0])
    requires NoSplitter(run)
    ensures var st := ScanAll(init);
      var st2 := Step(Step(st, sp), run);
      && st2.conns == st.conns + (if 'd' in run then sp else "")
      && st2.tmp != ""
  {
    var st := ScanAll(init);
    assert sp == [sp[0]];
    var st1 := Step(st, sp);
    assert st1.conns == st.conns && st1.tmp == st.tmp + sp;
    assert '+' !in run && '-' !in run;
  }

  /** The die strings and connectors spell the request back; the
      connectors are splitters, exactly those followed by a run with a
      `d`; every die string but the first holds a `d`. */
  lemma PiecesFacts(s: string)
    ensures Join(Pieces(s).0, Pieces(s).1) == s
    ensures forall i :: 0 <= i < |Pieces(s).1| ==> IsSplitter(Pieces(s).1[i])
    ensures forall i :: 1 <= i < |Pieces(s).0| ==> 'd' in Pieces(s).0[i]
    ensures Pieces(s).1 == DieSplitters(Split(s))
  {
    SplitConcat(s);
    SplitAlternates(s);
    ScanJoin(Split(s));
    ScanShape(Split(s));
    assert ShapeOk(Split(s), ScanAll(Split(s)));
    AlternatingPairs(Split(s));
    ScanConnectors(Split(s));
  }

  /** One die string through `_determineNumbers` (no reroll, no shift)
      and then `_determineModifier`. */
  function ReadDie(p: string): Result<DieRoller.DieSpec, Failure> {
    var n :- Notation.DetermineNumbers(p, DiePicker.NoReroll, 0, 0);
    var m :- Notation.DetermineModifier(p);
    Ok(DieRoller.DieSpec(n, m, []))
  }

  /** What the analysers return: the dice list, the connectors between
      the dice and the options that apply to the whole batch. */
  datatype Analysis<C> = Analysis(dice: seq<DieRoller.DieSpec>, connectors: seq<C>, batch: Fields)

  /** `DieAnylizer.dieStrAnylizer`. */
  function DieStrAnalyze(dString: string, options: Fields): (r: Result<Analysis<char>, Failure>)
    ensures 'd' !in Normalize(dString) ==> r == Err(MissingD)
    ensures r.Ok? <==> 'd' in Normalize(dString) && MapAll(ReadDie, Pieces(Normalize(dString)).0).Ok?
    ensures r.Ok? ==> |r.value.dice| == |r.value.connectors| + 1
  {
    var s := Normalize(dString);
    if 'd' !in s then Err(MissingD)
    else
      var pc := Pieces(s);
      var dice :- MapAll(ReadDie, pc.0);
      if |dice| > 1 then Ok(Analysis(dice, pc.1, options))
      else Ok(Analysis([dice[0].(options := options)], pc.1, []))
  }

  /** A die read from a die string holds that string's numbers and
      modifier and no options. */
  lemma ReadDieIs(p: string)
    requires ReadDie(p).Ok?
    ensures Notation.DetermineNumbers(p, DiePicker.NoReroll, 0, 0).Ok? && Notation.DetermineModifier(p).Ok?
    ensures ReadDie(p).value == DieRoller.DieSpec(
      Notation.DetermineNumbers(p, DiePicker.NoReroll, 0, 0).value, Notation.DetermineModifier(p).value, [])
  {
  }

  /** A successful analysis, taken apart: the die strings and connectors
      found, and the dice read from the die strings. */
  lemma DieStrParts(dString: string, options: Fields) returns (pc: (seq<string>, string), dice: seq<DieRoller.DieSpec>)
    requires DieStrAnalyze(dString, options).Ok?
    ensures pc == Pieces(Normalize(dString)) && MapAll(ReadDie, pc.0) == Ok(dice) && |dice| == |pc.0| >= 1
    ensures DieStrAnalyze(dString, options).value ==
      if |dice| > 1 then Analysis(dice, pc.1, options) else Analysis([dice[0].(options := options)], pc.1, [])
  {
    pc := Pieces(Normalize(dString));
    dice := MapAll(ReadDie, pc.0).value;
  }

  /** A lone die carries the options itself; several dice leave them to
      the batch. */
  lemma DieStrOptions(dString: string, options: Fields)
    requires DieStrAnalyze(dString, options).Ok?
    ensures var a := DieStrAnalyze(dString, options).value;
      && (|a.dice| == 1 ==> a.dice[0].options == options && a.batch == [])
      && (|a.dice| > 1 ==> a.batch == options && forall i :: 0 <= i < |a.dice| ==> a.dice[i].options == [])
  {
    var pc, dice := DieStrParts(dString, options);
    forall i | 0 <= i < |dice|
      ensures dice[i].options == []
    {
      ReadDieIs(pc.0[i]);
    }
  }

  /** The connectors are the splitters between the die strings, and the
      die strings joined by the connectors give back the normalised
      request. */
  lemma DieStrConnectors(dString: string, options: Fields)
    requires DieStrAnalyze(dString, options).Ok?
    ensures var a, pc := DieStrAnalyze(dString, options).value, Pieces(Normalize(dString));
      && a.connectors == pc.1
      && Join(pc.0, a.connectors) == Normalize(dString)
      && (forall i :: 0 <= i < |a.connectors| ==> IsSplitter(a.connectors[i]))
  {
    var pc, dice := DieStrParts(dString, options);
    PiecesFacts(Normalize(dString));
  }

  /** The dice come from the die strings, in order. */
  lemma DieStrDice(dString: string, options: Fields)
    requires DieStrAnalyze(dString, options).Ok?
    ensures var a, ps := DieStrAnalyze(dString, options).value, Pieces(Normalize(dString)).0;
      && |a.dice| == |ps|
      && forall i :: 0 <= i < |a.dice| ==>
           a.dice[i].numbers == Notation.DetermineNumbers(ps[i], DiePicker.NoReroll, 0, 0).value
           && a.dice[i].modifier == Notation.DetermineModifier(ps[i]).value
  {
    var pc, dice := DieStrParts(dString, options);
    var a := DieStrAnalyze(dString, options).value;
    forall i | 0 <= i < |a.dice|
      ensures a.dice[i].numbers == Notation.DetermineNumbers(pc.0[i], DiePicker.NoReroll, 0, 0).value
      ensures a.dice[i].modifier == Notation.DetermineModifier(pc.0[i]).value
    {
      ReadDieIs(pc.0[i]);
    }
  }

  // ---------------------------------------------------------------------
  // JSON requests: `dieJSONAnylizer`

  /** `d.get(name, default)`. */
  function OrElse(v: Option<Json>, default: Json): Json {
    if v.Some? then v.value else default
  }

  /** `item.get(name)`; only a dict has one. */
  function Field(item: Json, name: string): Option<Json> {
    if item.Obj? then Get(item.fields, name) else None
  }

  /** Request text goes through `json.loads` of the stripped text (with
      the hook on every object); any other value is taken as it is. The
      parser is a parameter: the standard library's JSON reader is not
      part of this model. */
  function Load(input: Json, parse: string -> Option<Json>): (r: Result<Json, Failure>)
    ensures !input.Str? ==> r == Ok(input)
    ensures input.Str? ==> (r.Ok? <==> parse(Text.Trim(input.s, Text.IsSpace)).Some?)
  {
    if !input.Str? then Ok(input)
    else
      var p := parse(Text.Trim(input.s, Text.IsSpace));
      if p.Some? then Ok(p.value) else Err(NotJson)
  }

  /** The request after loading and the hook: a dict, or a failure. */
  function Request(input: Json, parse: string -> Option<Json>, codec: JsonHook.Codec): (r: Result<Json, Failure>)
    ensures r.Ok? ==> r.value.Obj?
    ensures Load(input, parse).Ok? && !Load(input, parse).value.Obj? ==> r == Err(NotAMapping)
  {
    var loaded :- Load(input, parse);
    JsonHook.Hook(loaded, codec)
  }

  /** A container with nothing to iterate over. */
  predicate EmptyContainer(j: Json) {
    (j.Str? && j.s == []) || (j.Bytes? && j.raw == []) || (j.Obj? && j.fields == [])
  }

  /** What `sorted` iterates over: a list's entries. An empty string, byte
      string or dict yields nothing; a non-empty one yields characters,
      bytes or keys, which have no `.get` for the sort key; a scalar is
      not iterable at all. */
  function DiceItems(v: Option<Json>): (r: Result<seq<Json>, Failure>)
    ensures r.Ok? <==> v.None? || v.value.Arr? || EmptyContainer(v.value)
    ensures r.Ok? && r.value != [] ==> v.Some? && v.value.Arr? && r.value == v.value.items
  {
    match v
    case None => Ok([])
    case Some(j) =>
      if j.Arr? then Ok(j.items)
      else if EmptyContainer(j) then Ok([])
      else if j.Str? || j.Bytes? || j.Obj? then Err(NotAMapping)
      else Err(NotIterable)
  }

  /** The sort key `item.get('id')`, `None` when absent. */
  function IdOf(item: Json): Json {
    OrElse(Field(item, "id"), Null)
  }

  predicate Numeric(j: Json) {
    AsNumber(j).Some?
  }

  /** Ids that `<` can order among themselves: all numbers (`bool`
      included) or all strings. */
  predicate Comparable(items: seq<Json>) {
    || (forall i :: 0 <= i < |items| ==> Numeric(IdOf(items[i])))
    || (forall i :: 0 <= i < |items| ==> IdOf(items[i]).Str?)
  }

  /** Python's `<` on two ids of one kind. */
  predicate IdLess(a: Json, b: Json) {
    if Numeric(a) && Numeric(b) then AsNumber(a).value < AsNumber(b).value
    else a.Str? && b.Str? && Text.LexLess(a.s, b.s)
  }

  lemma {:induction false} LexLessAsym(a: string, b: string)
    requires Text.LexLess(a, b)
    ensures !Text.LexLess(b, a)
    decreases |a|
  {
    if a != [] && b != [] && a[0] == b[0] {
      LexLessAsym(a[1..], b[1..]);
    }
  }

  lemma IdLessAsym(a: Json, b: Json)
    requires IdLess(a, b)
    ensures !IdLess(b, a)
  {
    if a.Str? && b.Str? {
      LexLessAsym(a.s, b.s);
    }
  }

  /** No entry's id is below the id of the entry before it. */
  predicate Ordered(s: seq<Json>) {
    forall i :: 0 <= i < |s| - 1 ==> !IdLess(IdOf(s[i + 1]), IdOf(s[i]))
  }

  /** Places `x` after every entry whose id is not above its own, as a
      stable sort places a later entry. */
  function Insert(x: Json, s: seq<Json>): (r: seq<Json>)
    ensures multiset(r) == multiset(s) + multiset{x}
    ensures |r| == |s| + 1
    ensures r[0] == x || (s != [] && r[0] == s[0])
  {
    if s == [] || IdLess(IdOf(x), IdOf(s[0])) then [x] + s
    else
      assert s == [s[0]] + s[1..];
      [s[0]] + Insert(x, s[1..])
  }

  lemma {:induction false} InsertOrdered(x: Json, s: seq<Json>)
    requires Ordered(s)
    ensures Ordered(Insert(x, s))
  {
    if s == [] {
    } else if IdLess(IdOf(x), IdOf(s[0])) {
      IdLessAsym(IdOf(x), IdOf(s[0]));
      OrderedCons(x, s);
    } else {
      OrderedTail(s);
      InsertOrdered(x, s[1..]);
      OrderedCons(s[0], Insert(x, s[1..]));
    }
  }

  lemma OrderedCons(a: Json, t: seq<Json>)
    requires Ordered(t) && (t != [] ==> !IdLess(IdOf(t[0]), IdOf(a)))
    ensures Ordered([a] + t)
  {
    var r := [a] + t;
    forall i | 1 <= i < |r|
      ensures r[i] == t[i - 1]
    {
    }
  }

  lemma OrderedTail(s: seq<Json>)
    requires Ordered(s) && s != []
    ensures Ordered(s[1..])
  {
    forall i | 0 <= i < |s| - 1
      ensures s[1..][i] == s[i + 1]
    {
    }
  }

  /** `sorted(..., key=...)` by insertion: each entry in turn goes after
      the ones already placed whose ids are not above its own. */
  function Sort(items: seq<Json>): (r: seq<Json>)
    ensures multiset(r) == multiset(items)
  {
    if items == [] then []
    else
      var n := |items|;
      assert items == items[..n - 1] + [items[n - 1]];
      Insert(items[n - 1], Sort(items[..n - 1]))
  }

  lemma {:induction false} SortOrdered(items: seq<Json>)
    ensures Ordered(Sort(items))
  {
    if items != [] {
      var n := |items|;
      SortOrdered(items[..n - 1]);
      InsertOrdered(items[n - 1], Sort(items[..n - 1]));
    }
  }

  /** Ids `<` can compare: all numbers or all strings. */
  predicate OfKind(num: bool, j: Json) {
    if num then Numeric(j) else j.Str?
  }

  lemma {:induction false} LexLessSplit(a: string, b: string, c: string)
    requires Text.LexLess(a, b)
    ensures Text.LexLess(a, c) || Text.LexLess(c, b)
    decreases |a|
  {
    if a != [] && c != [] && a[0] == b[0] && c[0] == a[0] {
      LexLessSplit(a[1..], b[1..], c[1..]);
    }
  }

  lemma {:induction false} LexLessIrrefl(a: string)
    ensures !Text.LexLess(a, a)
    decreases |a|
  {
    if a != [] {
      LexLessIrrefl(a[1..]);
    }
  }

  lemma IdLessIrrefl(a: Json)
    ensures !IdLess(a, a)
  {
    if a.Str? {
      LexLessIrrefl(a.s);
    }
  }

  /** `<` on ids of one kind is a strict weak order: whatever lies
      between two ids is above the lower or below the upper one. */
  lemma IdLessSplit(num: bool, a: Json, b: Json, c: Json)
    requires OfKind(num, a) && OfKind(num, b) && OfKind(num, c)
    requires IdLess(a, b)
    ensures IdLess(a, c) || IdLess(c, b)
  {
    if !num {
      LexLessSplit(a.s, b.s, c.s);
    }
  }

  /** Neither id is below the other: `sorted` keeps such entries in
      their input order. */
  predicate Tied(a: Json, b: Json) {
    !IdLess(a, b) && !IdLess(b, a)
  }

  /** The test for an entry whose id ties with `k`. */
  function TiedWith(k: Json): Json -> bool {
    e => Tied(IdOf(e), k)
  }

  /** In an ordered run nothing lies below its first entry. */
  lemma {:induction false} OrderedFirst(s: seq<Json>, num: bool, j: nat)
    requires Ordered(s) && j < |s|
    requires forall e :: e in s ==> OfKind(num, IdOf(e))
    ensures !IdLess(IdOf(s[j]), IdOf(s[0]))
    decreases j
  {
    if j == 0 {
      IdLessIrrefl(IdOf(s[0]));
    } else {
      OrderedFirst(s, num, j - 1);
      assert !IdLess(IdOf(s[j - 1 + 1]), IdOf(s[j - 1]));
      assert s[j] in s && s[j - 1] in s && s[0] in s;
      if IdLess(IdOf(s[j]), IdOf(s[0])) {
        IdLessSplit(num, IdOf(s[j]), IdOf(s[0]), IdOf(s[j - 1]));
        assert false;
      }
    }
  }

  /** An entry placed before an ordered run ties with none of it. */
  lemma BelowAll(x: Json, s: seq<Json>, num: bool, k: Json)
    requires Ordered(s) && s != [] && IdLess(IdOf(x), IdOf(s[0]))
    requires OfKind(num, IdOf(x)) && OfKind(num, k) && forall e :: e in s ==> OfKind(num, IdOf(e))
    requires Tied(IdOf(x), k)
    ensures Keep(s, TiedWith(k)) == []
  {
    forall j | 0 <= j < |s|
      ensures !TiedWith(k)(s[j])
    {
      OrderedFirst(s, num, j);
      IdLessSplit(num, IdOf(x), IdOf(s[0]), IdOf(s[j]));
      IdLessSplit(num, IdOf(x), IdOf(s[j]), k);
    }
    KeepNone(s, TiedWith(k));
  }

  lemma InsertPast(x: Json, s: seq<Json>)
    requires s != [] && !IdLess(IdOf(x), IdOf(s[0]))
    ensures Insert(x, s) == [s[0]] + Insert(x, s[1..])
  {
  }

  /** `Insert` stops at once: `x` goes in front. */
  lemma InsertKeepFirst(x: Json, s: seq<Json>, num: bool, k: Json)
    requires Ordered(s) && (s == [] || IdLess(IdOf(x), IdOf(s[0])))
    requires OfKind(num, IdOf(x)) && OfKind(num, k) && forall e :: e in s ==> OfKind(num, IdOf(e))
    ensures Keep(Insert(x, s), TiedWith(k)) == Keep(s, TiedWith(k)) + (if Tied(IdOf(x), k) then [x] else [])
  {
    var p := TiedWith(k);
    assert Insert(x, s) == [x] + s;
    KeepCons(x, s, p);
    if Tied(IdOf(x), k) {
      if s != [] {
        BelowAll(x, s, num, k);
      }
      assert Keep(s, p) == [];
    }
  }

  /** `Insert` places `x` after every entry it ties with. */
  lemma {:induction false} InsertKeep(x: Json, s: seq<Json>, num: bool, k: Json)
    requires Ordered(s)
    requires OfKind(num, IdOf(x)) && OfKind(num, k) && forall e :: e in s ==> OfKind(num, IdOf(e))
    ensures Keep(Insert(x, s), TiedWith(k)) == Keep(s, TiedWith(k)) + (if Tied(IdOf(x), k) then [x] else [])
    decreases |s|
  {
    if s == [] || IdLess(IdOf(x), IdOf(s[0])) {
      InsertKeepFirst(x, s, num, k);
    } else {
      OrderedTail(s);
      TailKinds(s, num);
      InsertKeep(x, s[1..], num, k);
      InsertKeepStep(x, s, TiedWith(k), if Tied(IdOf(x), k) then [x] else []);
    }
  }

  lemma TailKinds(s: seq<Json>, num: bool)
    requires s != [] && forall e :: e in s ==> OfKind(num, IdOf(e))
    ensures forall e :: e in s[1..] ==> OfKind(num, IdOf(e))
  {
    assert forall e :: e in s[1..] ==> e in s;
  }

  lemma InsertKeepStep(x: Json, s: seq<Json>, p: Json -> bool, t: seq<Json>)
    requires s != [] && !IdLess(IdOf(x), IdOf(s[0]))
    requires Keep(Insert(x, s[1..]), p) == Keep(s[1..], p) + t
    ensures Keep(Insert(x, s), p) == Keep(s, p) + t
  {
    InsertPast(x, s);
    assert s == [s[0]] + s[1..];
    KeepFront(s[0], Insert(x, s[1..]), s[1..], p, t);
  }

  /** The insertion sort is stable: for every key, the entries that tie
      with it come out in their input order. */
  lemma {:induction false} SortKeep(items: seq<Json>, num: bool, k: Json)
    requires forall e :: e in items ==> OfKind(num, IdOf(e))
    requires OfKind(num, k)
    ensures Keep(Sort(items), TiedWith(k)) == Keep(items, TiedWith(k))
    decreases |items|
  {
    if items != [] {
      var n := |items|;
      var front, x := items[..n - 1], items[n - 1];
      assert items == front + [x];
      SortKeep(front, num, k);
      SortOrdered(front);
      var sorted := Sort(front);
      forall e | e in sorted
        ensures OfKind(num, IdOf(e))
      {
        assert e in multiset(sorted);
        assert e in front;
      }
      InsertKeep(x, sorted, num, k);
      KeepSnoc(front, x, TiedWith(k));
    }
  }

  /** A list `<` can sort is stable under `Sort`, key by key. */
  lemma SortStable(items: seq<Json>)
    requires |items| <= 1 || Comparable(items)
    ensures forall e :: e in items ==> Keep(Sort(items), TiedWith(IdOf(e))) == Keep(items, TiedWith(IdOf(e)))
  {
    if |items| == 1 {
      assert Sort(items) == Insert(items[0], Sort(items[..0])) == items;
    } else if |items| >= 2 {
      var num := forall i :: 0 <= i < |items| ==> Numeric(IdOf(items[i]));
      forall e | e in items
        ensures Keep(Sort(items), TiedWith(IdOf(e))) == Keep(items, TiedWith(IdOf(e)))
      {
        SortKeep(items, num, IdOf(e));
      }
    }
  }

  /** The key function runs on every entry first (only a dict has
      `.get`); then two entries whose ids `<` cannot compare raise. */
  function SortById(items: seq<Json>): (r: Result<seq<Json>, Failure>)
    ensures r.Ok? <==> (forall i :: 0 <= i < |items| ==> items[i].Obj?) && (|items| <= 1 || Comparable(items))
    ensures r.Ok? ==> multiset(r.value) == multiset(items) && Ordered(r.value)
    ensures r.Ok? ==> forall e :: e in items ==> Keep(r.value, TiedWith(IdOf(e))) == Keep(items, TiedWith(IdOf(e)))
  {
    if exists i :: 0 <= i < |items| && !items[i].Obj? then Err(NotAMapping)
    else if |items| >= 2 && !Comparable(items) then Err(NotComparable)
    else
      SortOrdered(items);
      SortStable(items);
      Ok(Sort(items))
  }

  /** Two or more entries without an `id` cannot be sorted: the keys are
      all `None`, and `None < None` raises. */
  lemma UnsortableWithoutIds(items: seq<Json>)
    requires |items| >= 2
    requires forall i :: 0 <= i < |items| ==> items[i].Obj? && Field(items[i], "id") == None
    ensures SortById(items) == Err(NotComparable)
  {
    assert IdOf(items[0]) == Null;
  }

  /** `tuple(v.items())` for an optional dict: absent means `{}`. */
  function OptionsOf(v: Option<Json>): (r: Result<Fields, Failure>)
    ensures r.Ok? <==> v.None? || v.value.Obj?
    ensures v.None? ==> r == Ok([])
  {
    match v
    case None => Ok([])
    case Some(Obj(fs)) => Ok(fs)
    case Some(_) => Err(NotAMapping)
  }

  /** The dice entries of a request, in the order they roll, and the
      batch options. With no entries, a request that has a `dString` of
      its own is its one entry. */
  function Plan(d: Json): (r: Result<(seq<Json>, Fields), Failure>)
    requires d.Obj?
    ensures r.Ok? ==> Ordered(r.value.0)
    ensures r.Ok? ==> forall i :: 0 <= i < |r.value.0| ==> r.value.0[i].Obj?
    ensures r.Ok? ==> var items := DiceItems(Get(d.fields, "dice"));
      && items.Ok?
      && (if items.value == [] && Truthy(OrElse(Get(d.fields, "dString"), Null)) then r.value.0 == [d]
          else multiset(r.value.0) == multiset(items.value))
    ensures r.Ok? ==> OptionsOf(Get(d.fields, "diceOptions")) == Ok(r.value.1)
  {
    var items :- DiceItems(Get(d.fields, "dice"));
    var sorted :- SortById(items);
    var batch :- OptionsOf(Get(d.fields, "diceOptions"));
    if sorted == [] && Truthy(OrElse(Get(d.fields, "dString"), Null)) then Ok(([d], batch))
    else
      assert forall i :: 0 <= i < |sorted| ==> sorted[i] in multiset(items);
      Ok((sorted, batch))
  }

  /** A request with no `dice` list but a `dString` of its own is its one
      entry, with no batch options. */
  lemma PlanFallback(d: Json)
    requires d.Obj? && Get(d.fields, "dice") == None && Get(d.fields, "diceOptions") == None
    requires Truthy(OrElse(Get(d.fields, "dString"), Null))
    ensures Plan(d) == Ok(([d], []))
  {
  }

  /** One entry as the loop reads it: `str()` of its `dString` (`None`
      when absent), `str()` of its modifier (`''` when absent) and its
      `dieOptions`. */
  datatype Entry = Entry(dString: string, modifier: string, options: Fields)

  function EntryOf(item: Json): Result<Entry, Failure> {
    var ds :- PyStr(OrElse(Field(item, "dString"), Null));
    var md :- PyStr(OrElse(Field(item, "modifier"), Str("")));
    var opts :- OptionsOf(Field(item, "dieOptions"));
    Ok(Entry(ds, md, opts))
  }

  /** An entry with a string `dString` and nothing else reads as that
      die string with no modifier and no options; a missing `dString`
      reads as the text `None`, which names no die. */
  lemma EntryOfDefaults(item: Json)
    requires item.Obj? && Field(item, "modifier") == None && Field(item, "dieOptions") == None
    ensures var ds := Field(item, "dString");
      && (ds == None ==> EntryOf(item) == Ok(Entry("None", "", [])))
      && (ds.Some? && ds.value.Str? ==> EntryOf(item) == Ok(Entry(ds.value.s, "", [])))
  {
  }

  /** `_determineNumbers` on an entry's die string, with no reroll and no
      shift. */
  function ReadEntry(e: Entry): Result<DieRoller.DieSpec, Failure> {
    var numbers :- Notation.DetermineNumbers(e.dString, DiePicker.NoReroll, 0, 0);
    Ok(DieRoller.DieSpec(numbers, e.modifier, e.options))
  }

  /** `dice.index(item)` for the entry at `i`. `list.index` tests identity
      before `==`, so the search stops at the entry itself at the latest. */
  function IndexOf(dice: seq<Json>, i: nat, from: nat): (j: nat)
    requires from <= i < |dice|
    ensures from <= j <= i
    ensures j < i ==> PyEq(dice[j], dice[i])
    decreases i - from
  {
    if from == i || PyEq(dice[from], dice[i]) then from else IndexOf(dice, i, from + 1)
  }

  function ConnectorOf(item: Json): Json {
    OrElse(Field(item, "connectorString"), Null)
  }

  /** The connectors the loop appends over the first `k` entries: an
      entry's `connectorString` counts when `dice.index` puts it before
      the last position. */
  function RawConnectors(dice: seq<Json>, k: nat): (cs: seq<Json>)
    requires k <= |dice|
    ensures |cs| <= k
  {
    if k == 0 then []
    else
      var i := k - 1;
      RawConnectors(dice, i) + if IndexOf(dice, i, 0) < |dice| - 1 then [ConnectorOf(dice[i])] else []
  }

  /** `list(filter(None, xs))`: the truthy elements, in order and with
      their repeats. */
  function KeepTruthy(xs: seq<Json>): (r: seq<Json>)
    ensures |r| <= |xs|
    ensures forall x :: x in r <==> x in xs && Truthy(x)
    ensures r == Keep(xs, Truthy)
  {
    if xs == [] then []
    else
      var n := |xs|;
      assert xs == xs[..n - 1] + [xs[n - 1]];
      KeepSnoc(xs[..n - 1], xs[n - 1], Truthy);
      KeepTruthy(xs[..n - 1]) + if Truthy(xs[n - 1]) then [xs[n - 1]] else []
  }

  /** The loops of `dieJSONAnylizer` over the planned entries. */
  function AnalyzePlan(dice: seq<Json>, batch: Fields): (r: Result<Analysis<Json>, Failure>)
    ensures r.Ok? ==> |r.value.dice| == |dice| && r.value.batch == batch
    ensures r.Ok? ==> |r.value.connectors| <= |r.value.dice|
    ensures r.Ok? ==> forall i :: 0 <= i < |r.value.connectors| ==> Truthy(r.value.connectors[i])
  {
    var entries :- MapAll(EntryOf, dice);
    var specs :- MapAll(ReadEntry, entries);
    var conns := KeepTruthy(RawConnectors(dice, |dice|));
    assert forall i :: 0 <= i < |conns| ==> conns[i] in conns;
    Ok(Analysis(specs, conns, batch))
  }

  /** `DieAnylizer.dieJSONAnylizer` up to its `except`: the failure, if
      any, that the handler swallows. */
  function DieJsonResult(input: Json, parse: string -> Option<Json>, codec: JsonHook.Codec): (r: Result<Analysis<Json>, Failure>)
    ensures r.Ok? ==> |r.value.connectors| <= |r.value.dice|
    ensures r.Ok? ==> forall i :: 0 <= i < |r.value.connectors| ==> Truthy(r.value.connectors[i])
  {
    var d :- Request(input, parse, codec);
    var plan :- Plan(d);
    AnalyzePlan(plan.0, plan.1)
  }

  /** `DieAnylizer.dieJSONAnylizer`: every failure becomes `None`. */
  function DieJsonAnalyze(input: Json, parse: string -> Option<Json>, codec: JsonHook.Codec): (r: Option<Analysis<Json>>)
    ensures r.None? <==> DieJsonResult(input, parse, codec).Err?
    ensures r.Some? ==> |r.value.connectors| <= |r.value.dice|
  {
    DieJsonResult(input, parse, codec).ToOption()
  }

  /** The dice follow the entries in roll order, each read from its own
      entry. */
  lemma DieJsonDice(dice: seq<Json>, batch: Fields)
    requires AnalyzePlan(dice, batch).Ok?
    ensures var a := AnalyzePlan(dice, batch).value;
      forall i :: 0 <= i < |dice| ==>
        var e := EntryOf(dice[i]);
        && e.Ok?
        && Notation.DetermineNumbers(e.value.dString, DiePicker.NoReroll, 0, 0) == Ok(a.dice[i].numbers)
        && a.dice[i].modifier == e.value.modifier
        && a.dice[i].options == e.value.options
  {
  }

  /** A successful analysis has one die per entry of the request's
      `dice`; with no entries, the request itself is the one die when its
      `dString` is truthy, and there is none otherwise. The batch options
      are the request's `diceOptions`. */
  lemma DieJsonCount(input: Json, parse: string -> Option<Json>, codec: JsonHook.Codec)
    requires DieJsonResult(input, parse, codec).Ok?
    ensures var d := Request(input, parse, codec);
      var a := DieJsonResult(input, parse, codec).value;
      && d.Ok?
      && var items := DiceItems(Get(d.value.fields, "dice"));
      && items.Ok?
      && |a.dice| == (if items.value != [] then |items.value|
                      else if Truthy(OrElse(Get(d.value.fields, "dString"), Null)) then 1 else 0)
      && OptionsOf(Get(d.value.fields, "diceOptions")) == Ok(a.batch)
  {
    var d := Request(input, parse, codec).value;
    var plan := Plan(d).value;
    var items := DiceItems(Get(d.fields, "dice")).value;
    if !(items == [] && Truthy(OrElse(Get(d.fields, "dString"), Null))) {
      assert |multiset(plan.0)| == |multiset(items)|;
    }
  }

  /** With no entry equal to an earlier one, the connectors are those of
      every entry but the last, in order. */
  lemma RawConnectorsDistinct(dice: seq<Json>)
    requires forall i, j :: 0 <= j < i < |dice| ==> !PyEq(dice[j], dice[i])
    ensures var cs := RawConnectors(dice, |dice|);
      && |cs| == (if dice == [] then 0 else |dice| - 1)
      && forall i :: 0 <= i < |cs| ==> cs[i] == ConnectorOf(dice[i])
  {
    forall i | 0 <= i < |dice|
      ensures IndexOf(dice, i, 0) == i
    {
      IndexOfSelf(dice, i, 0);
    }
    RawConnectorsAtOwnIndex(dice, |dice|);
  }

  lemma {:induction false} RawConnectorsAtOwnIndex(dice: seq<Json>, k: nat)
    requires k <= |dice|
    requires forall i :: 0 <= i < |dice| ==> IndexOf(dice, i, 0) == i
    ensures var cs := RawConnectors(dice, k);
      && |cs| == (if k == |dice| && k > 0 then k - 1 else k)
      && forall i :: 0 <= i < |cs| ==> cs[i] == ConnectorOf(dice[i])
  {
    if k > 0 {
      RawConnectorsAtOwnIndex(dice, k - 1);
      var prev := RawConnectors(dice, k - 1);
      if k < |dice| {
        assert RawConnectors(dice, k) == prev + [ConnectorOf(dice[k - 1])];
      } else {
        assert RawConnectors(dice, k) == prev;
      }
    }
  }

  /** An entry equal to no earlier one is found at its own position. */
  lemma {:induction false} IndexOfSelf(dice: seq<Json>, i: nat, from: nat)
    requires from <= i < |dice| && forall j :: from <= j < i ==> !PyEq(dice[j], dice[i])
    ensures IndexOf(dice, i, from) == i
    decreases i - from
  {
    if from < i {
      IndexOfSelf(dice, i, from + 1);
    }
  }

  /** The quirk of `dice.index`: an entry equal to an earlier one reports
      the earlier position, so when the last entry repeats an earlier one
      its connector is taken too and the connectors no longer fit between
      the dice. */
  lemma RepeatedLastEntry(dice: seq<Json>, j: nat)
    requires j < |dice| - 1 && PyEq(dice[j], dice[|dice| - 1])
    ensures |RawConnectors(dice, |dice|)| == |RawConnectors(dice, |dice| - 1)| + 1
  {
    IndexOfAtMost(dice, |dice| - 1, 0, j);
  }

  /** The search stops at the first equal entry or before. */
  lemma {:induction false} IndexOfAtMost(dice: seq<Json>, i: nat, from: nat, j: nat)
    requires from <= j < i < |dice| && PyEq(dice[j], dice[i])
    ensures IndexOf(dice, i, from) <= j
    decreases i - from
  {
    if from < j && !PyEq(dice[from], dice[i]) {
      IndexOfAtMost(dice, i, from + 1, j);
    }
  }
}
