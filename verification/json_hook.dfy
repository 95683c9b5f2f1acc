/** `jsonHook`: turns byte strings inside a decoded JSON dict into native
    values. A byte string that decodes to `true`, `false`, `none` or `null`
    (any case) becomes `True`, `False` or `None`; other byte strings become
    `str`; byte keys are decoded; lists and dicts are walked recursively;
    every other value is kept as it is. */
module JsonHook {
  import opened Wrappers
  import opened JsonValue
  import opened Failures
  import Text

  /** The two ways the source decodes bytes: `b.decode()` (UTF-8, raises on
      malformed input, here `None`) and `b.decode(errors='ignore')`. */
  datatype Codec = Codec(strict: seq<byte> -> Option<string>, lossy: seq<byte> -> string)

  /** `_decode_str`: the four keywords, compared case-insensitively. */
  function DecodeStr(s: string): (r: Json)
    ensures r == Bool(true) <==> Text.Lower(s) == "true"
    ensures r == Bool(false) <==> Text.Lower(s) == "false"
    ensures r == Null <==> Text.Lower(s) == "none" || Text.Lower(s) == "null"
    ensures r.Bool? || r.Null? || r == Str(s)
  {
    var t := Text.Lower(s);
    if t == "true" then Bool(true)
    else if t == "false" then Bool(false)
    else if t == "none" || t == "null" then Null
    else Str(s)
  }

  /** A byte-string value: keywords become native, the rest `str`; bytes
      that are not UTF-8 are decoded leniently and not matched. */
  function DecodeBytes(raw: seq<byte>, codec: Codec): (r: Json)
    ensures r.Bool? || r.Null? || r.Str?
  {
    match codec.strict(raw)
    case Some(s) => DecodeStr(s)
    case None => Str(codec.lossy(raw))
  }

  /** `key.decode()` for byte keys; it is not guarded, so it can raise. */
  function DecodeKey(k: Key, codec: Codec): (r: Result<Key, Failure>)
    ensures r.Ok? ==> r.value.SKey?
    ensures k.SKey? ==> r == Ok(k)
  {
    match k
    case SKey(_) => Ok(k)
    case BKey(raw) =>
      match codec.strict(raw)
      case Some(s) => Ok(SKey(s))
      case None => Err(UndecodableKey)
  }

  /** One value inside a dict or list. */
  function HookValue(v: Json, codec: Codec): (r: Result<Json, Failure>)
    ensures v.Null? || v.Bool? || v.Int? || v.Str? ==> r == Ok(v)
    ensures v.Bytes? ==> r == Ok(DecodeBytes(v.raw, codec))
    ensures v.Arr? && r.Ok? ==> r.value.Arr? && |r.value.items| == |v.items|
    ensures v.Obj? && r.Ok? ==> r.value.Obj?
    decreases v, 1
  {
    match v
    case Bytes(raw) => Ok(DecodeBytes(raw, codec))
    case Arr(xs) =>
      var ys :- HookList(xs, codec);
      Ok(Arr(ys))
    case Obj(fs) =>
      var gs :- HookDict(fs, codec);
      Ok(Obj(gs))
    case _ => Ok(v)
  }

  /** `_decode_list`: element by element, in order. */
  function HookList(xs: seq<Json>, codec: Codec): (r: Result<seq<Json>, Failure>)
    ensures r.Ok? ==> |r.value| == |xs|
    decreases xs, 0
  {
    if xs == [] then Ok([])
    else
      var h :- HookValue(xs[0], codec);
      var t :- HookList(xs[1..], codec);
      Ok([h] + t)
  }

  /** `_decode_dict`: key first, then value, then `rv[key] = value`. */
  function HookDict(fs: Fields, codec: Codec): (r: Result<Fields, Failure>)
    ensures r.Ok? ==> DistinctKeys(r.value) && |r.value| <= |fs|
    ensures r.Ok? ==> forall j :: 0 <= j < |r.value| ==> r.value[j].0.SKey?
    decreases fs, 0
  {
    if fs == [] then Ok([])
    else
      var rv :- HookDict(fs[..|fs| - 1], codec);
      var last := fs[|fs| - 1];
      var key :- DecodeKey(last.0, codec);
      assert last.1 < last;
      var value :- HookValue(last.1, codec);
      Ok(Assign(rv, key, value))
  }

  /** `jsonHook(d)`: the input must be a dict (`.items()` otherwise raises). */
  function Hook(j: Json, codec: Codec): (r: Result<Json, Failure>)
    ensures !j.Obj? ==> r == Err(NotAMapping)
    ensures r.Ok? ==> r.value.Obj?
  {
    match j
    case Obj(fs) =>
      var gs :- HookDict(fs, codec);
      Ok(Obj(gs))
    case _ => Err(NotAMapping)
  }

  /** What one pass of the hook leaves behind: no byte string anywhere,
      only `str` keys, and no dict with a repeated key. */
  predicate Native(v: Json)
    decreases v, 1
  {
    match v
    case Bytes(_) => false
    case Arr(xs) => NativeItems(xs)
    case Obj(fs) => NativeFields(fs)
    case _ => true
  }

  predicate NativeItems(xs: seq<Json>)
    decreases xs, 0
  {
    xs != [] ==> Native(xs[0]) && NativeItems(xs[1..])
  }

  predicate NativeFields(fs: Fields)
    decreases fs, 0
  {
    && DistinctKeys(fs)
    && (fs != [] ==>
          var last := fs[|fs| - 1];
          && last.0.SKey?
          && (assert last.1 < last; Native(last.1))
          && NativeFields(fs[..|fs| - 1]))
  }

  /** The output of the hook is native. */
  lemma {:induction false} HookValueNative(v: Json, codec: Codec)
    requires HookValue(v, codec).Ok?
    ensures Native(HookValue(v, codec).value)
    decreases v, 1
  {
    match v
    case Arr(xs) => HookListNative(xs, codec);
    case Obj(fs) => HookDictNative(fs, codec);
    case _ =>
  }

  lemma {:induction false} HookListNative(xs: seq<Json>, codec: Codec)
    requires HookList(xs, codec).Ok?
    ensures NativeItems(HookList(xs, codec).value)
    decreases xs, 0
  {
    if xs != [] {
      HookValueNative(xs[0], codec);
      HookListNative(xs[1..], codec);
      var r := HookList(xs, codec).value;
      assert r[1..] == HookList(xs[1..], codec).value;
    }
  }

  lemma {:induction false} HookDictNative(fs: Fields, codec: Codec)
    requires HookDict(fs, codec).Ok?
    ensures NativeFields(HookDict(fs, codec).value)
    decreases fs, 0
  {
    if fs != [] {
      var prefix := fs[..|fs| - 1];
      var last := fs[|fs| - 1];
      var rv := HookDict(prefix, codec).value;
      var key := DecodeKey(last.0, codec).value;
      assert last.1 < last;
      var value := HookValue(last.1, codec).value;
      HookDictNative(prefix, codec);
      HookValueNative(last.1, codec);
      AssignNative(rv, key, value);
    }
  }

  /** Storing a native value under a `str` key keeps a dict native. */
  lemma {:induction false} AssignNative(fs: Fields, k: Key, v: Json)
    requires NativeFields(fs) && k.SKey? && Native(v)
    ensures NativeFields(Assign(fs, k, v))
    decreases |fs|
  {
    var r := Assign(fs, k, v);
    if k !in KeysOf(fs) {
      assert r[..|r| - 1] == fs;
    } else {
      var prefix := fs[..|fs| - 1];
      NativeFieldsLast(fs);
      AssignSplit(fs, k, v);
      if k in KeysOf(prefix) {
        AssignNative(prefix, k, v);
      }
    }
    NativeFieldsSnoc(r);
  }

  lemma NativeFieldsLast(fs: Fields)
    requires NativeFields(fs) && fs != []
    ensures DistinctKeys(fs) && fs[|fs| - 1].0.SKey? && Native(fs[|fs| - 1].1)
    ensures NativeFields(fs[..|fs| - 1])
  {
  }

  lemma NativeFieldsSnoc(fs: Fields)
    requires fs != [] && DistinctKeys(fs) && fs[|fs| - 1].0.SKey? && Native(fs[|fs| - 1].1)
    requires NativeFields(fs[..|fs| - 1])
    ensures NativeFields(fs)
  {
  }

  /** Overwriting a key already present: the last entry and the entries
      before it are updated on their own. */
  lemma AssignSplit(fs: Fields, k: Key, v: Json)
    requires fs != [] && k in KeysOf(fs)
    ensures var prefix := fs[..|fs| - 1];
      Assign(fs, k, v)[..|fs| - 1] == (if k in KeysOf(prefix) then Assign(prefix, k, v) else prefix)
    ensures Assign(fs, k, v)[|fs| - 1] == (if fs[|fs| - 1].0 == k then (k, v) else fs[|fs| - 1])
  {
    var prefix := fs[..|fs| - 1];
    if k !in KeysOf(prefix) {
      forall i | 0 <= i < |prefix|
        ensures prefix[i].0 != k
      {
        assert KeysOf(prefix)[i] == prefix[i].0;
      }
    }
  }

  /** The hook changes nothing in a native value. */
  lemma {:induction false} NativeFixed(v: Json, codec: Codec)
    requires Native(v)
    ensures HookValue(v, codec) == Ok(v)
    decreases v, 1
  {
    match v
    case Arr(xs) => NativeItemsFixed(xs, codec);
    case Obj(fs) => NativeFieldsFixed(fs, codec);
    case _ =>
  }

  lemma {:induction false} NativeItemsFixed(xs: seq<Json>, codec: Codec)
    requires NativeItems(xs)
    ensures HookList(xs, codec) == Ok(xs)
    decreases xs, 0
  {
    if xs != [] {
      NativeFixed(xs[0], codec);
      NativeItemsFixed(xs[1..], codec);
      assert [xs[0]] + xs[1..] == xs;
    }
  }

  lemma {:induction false} NativeFieldsFixed(fs: Fields, codec: Codec)
    requires NativeFields(fs)
    ensures HookDict(fs, codec) == Ok(fs)
    decreases fs, 0
  {
    if fs != [] {
      var prefix := fs[..|fs| - 1];
      var last := fs[|fs| - 1];
      NativeFieldsFixed(prefix, codec);
      assert last.1 < last;
      NativeFixed(last.1, codec);
      assert last.0 !in KeysOf(prefix) by {
        forall i | 0 <= i < |prefix|
          ensures KeysOf(prefix)[i] != last.0
        {
          assert fs[i].0 != fs[|fs| - 1].0;
        }
      }
      assert prefix + [last] == fs;
    }
  }

  /** Applying the hook twice gives the same result as applying it once. */
  lemma HookIdempotent(j: Json, codec: Codec)
    requires Hook(j, codec).Ok?
    ensures Hook(Hook(j, codec).value, codec) == Hook(j, codec)
  {
    var fs := j.fields;
    HookDictNative(fs, codec);
    NativeFieldsFixed(HookDict(fs, codec).value, codec);
  }

  /** A list keeps its length and each element is hooked on its own. */
  lemma {:induction false} HookListElements(xs: seq<Json>, codec: Codec)
    ensures HookList(xs, codec).Ok? <==> forall i :: 0 <= i < |xs| ==> HookValue(xs[i], codec).Ok?
    ensures HookList(xs, codec).Ok? ==>
      forall i :: 0 <= i < |xs| ==> HookList(xs, codec).value[i] == HookValue(xs[i], codec).value
  {
    if xs != [] {
      HookListElements(xs[1..], codec);
      assert forall i :: 1 <= i < |xs| ==> xs[i] == xs[1..][i - 1];
    }
  }

  /** One step of `_decode_dict`: the last entry is stored into the
      result of the entries before it. */
  lemma HookDictStep(fs: Fields, codec: Codec)
    requires fs != [] && HookDict(fs, codec).Ok?
    ensures var last := fs[|fs| - 1];
      assert last.1 < last;
      && HookDict(fs[..|fs| - 1], codec).Ok?
      && DecodeKey(last.0, codec).Ok?
      && HookValue(last.1, codec).Ok?
      && HookDict(fs, codec).value
         == Assign(HookDict(fs[..|fs| - 1], codec).value, DecodeKey(last.0, codec).value, HookValue(last.1, codec).value)
  {
  }

  /** Every input key decodes, and its decoded form is a key of the result. */
  lemma HookDictKeepsKeys(fs: Fields, codec: Codec)
    requires HookDict(fs, codec).Ok?
    ensures forall i :: 0 <= i < |fs| ==>
      DecodeKey(fs[i].0, codec).Ok? && DecodeKey(fs[i].0, codec).value in KeysOf(HookDict(fs, codec).value)
  {
    forall i | 0 <= i < |fs|
      ensures DecodeKey(fs[i].0, codec).Ok? && DecodeKey(fs[i].0, codec).value in KeysOf(HookDict(fs, codec).value)
    {
      HookDictKeepsKey(fs, codec, i);
    }
  }

  lemma {:induction false} HookDictKeepsKey(fs: Fields, codec: Codec, i: nat)
    requires HookDict(fs, codec).Ok? && i < |fs|
    ensures DecodeKey(fs[i].0, codec).Ok? && DecodeKey(fs[i].0, codec).value in KeysOf(HookDict(fs, codec).value)
    decreases |fs|, 1
  {
    if i == |fs| - 1 {
      var rv, key, value := HookDictLast(fs, codec);
      AssignHasKey(rv, key, value, key);
    } else {
      HookDictKeepsEarlierKey(fs, codec, i);
    }
  }

  lemma {:induction false} HookDictKeepsEarlierKey(fs: Fields, codec: Codec, i: nat)
    requires HookDict(fs, codec).Ok? && i < |fs| - 1
    ensures DecodeKey(fs[i].0, codec).Ok? && DecodeKey(fs[i].0, codec).value in KeysOf(HookDict(fs, codec).value)
    decreases |fs|, 0
  {
    var prefix := fs[..|fs| - 1];
    var rv, key, value := HookDictLast(fs, codec);
    HookDictKeepsKey(prefix, codec, i);
    assert fs[i] == prefix[i];
    AssignHasKey(rv, key, value, DecodeKey(prefix[i].0, codec).value);
  }

  /** `HookDictStep` with the pieces named. */
  lemma HookDictLast(fs: Fields, codec: Codec) returns (rv: Fields, key: Key, value: Json)
    requires fs != [] && HookDict(fs, codec).Ok?
    ensures HookDict(fs[..|fs| - 1], codec) == Ok(rv)
    ensures DecodeKey(fs[|fs| - 1].0, codec) == Ok(key)
    ensures HookValue(fs[|fs| - 1].1, codec) == Ok(value)
    ensures HookDict(fs, codec) == Ok(Assign(rv, key, value))
  {
    HookDictStep(fs, codec);
    var last := fs[|fs| - 1];
    assert last.1 < last;
    rv, key, value := HookDict(fs[..|fs| - 1], codec).value, DecodeKey(last.0, codec).value, HookValue(last.1, codec).value;
  }

  lemma AssignHasKey(fs: Fields, k: Key, v: Json, x: Key)
    requires x in KeysOf(fs) || x == k
    ensures x in KeysOf(Assign(fs, k, v))
  {
    AssignKeys(fs, k, v);
  }

  /** Every key of the result is the decoded form of an input key. */
  lemma {:induction false} HookDictAddsNoKeys(fs: Fields, codec: Codec)
    requires HookDict(fs, codec).Ok?
    ensures forall k :: k in KeysOf(HookDict(fs, codec).value) ==>
      exists i :: 0 <= i < |fs| && DecodeKey(fs[i].0, codec) == Ok(k)
  {
    if fs != [] {
      var prefix := fs[..|fs| - 1];
      var last := fs[|fs| - 1];
      HookDictStep(fs, codec);
      var rv := HookDict(prefix, codec).value;
      var key := DecodeKey(last.0, codec).value;
      assert last.1 < last;
      var value := HookValue(last.1, codec).value;
      var r := HookDict(fs, codec).value;
      HookDictAddsNoKeys(prefix, codec);
      AssignKeys(rv, key, value);
      forall k | k in KeysOf(r)
        ensures exists i :: 0 <= i < |fs| && DecodeKey(fs[i].0, codec) == Ok(k)
      {
        if k == key {
          assert DecodeKey(fs[|fs| - 1].0, codec) == Ok(k);
        } else {
          var i :| 0 <= i < |prefix| && DecodeKey(prefix[i].0, codec) == Ok(k);
          assert fs[i] == prefix[i];
        }
      }
    }
  }

  lemma AssignKeys(fs: Fields, k: Key, v: Json)
    ensures forall x :: x in KeysOf(Assign(fs, k, v)) <==> x in KeysOf(fs) || x == k
  {
    var r := Assign(fs, k, v);
    forall x | x in KeysOf(r)
      ensures x in KeysOf(fs) || x == k
    {
      var i :| 0 <= i < |r| && KeysOf(r)[i] == x;
      if i < |fs| {
        assert KeysOf(fs)[i] == fs[i].0;
      }
    }
    forall x | x in KeysOf(fs) || x == k
      ensures x in KeysOf(r)
    {
      if x == k {
        assert Lookup(r, k).Some?;
      } else {
        var i :| 0 <= i < |fs| && KeysOf(fs)[i] == x;
        assert KeysOf(r)[i] == x;
      }
    }
  }

  /** The decoded keys of `fs` are pairwise different. */
  predicate DecodedDistinct(fs: Fields, codec: Codec) {
    forall i, j :: 0 <= i < j < |fs| ==> DecodeKey(fs[i].0, codec) != DecodeKey(fs[j].0, codec)
  }

  /** `out` is what `_decode_dict` stores for the input entry `e`. */
  predicate HookedEntry(e: (Key, Json), out: (Key, Json), codec: Codec) {
    DecodeKey(e.0, codec) == Ok(out.0) && HookValue(e.1, codec) == Ok(out.1)
  }

  /** When no two keys decode alike, the hooked dict is the input dict
      entry by entry: same order, decoded key, hooked value. */
  lemma {:induction false} HookDictEntries(fs: Fields, codec: Codec)
    requires HookDict(fs, codec).Ok? && DecodedDistinct(fs, codec)
    ensures |HookDict(fs, codec).value| == |fs|
    ensures forall i :: 0 <= i < |fs| ==> HookedEntry(fs[i], HookDict(fs, codec).value[i], codec)
  {
    if fs != [] {
      var prefix := fs[..|fs| - 1];
      var rv, key, value := HookDictLast(fs, codec);
      assert DecodedDistinct(prefix, codec);
      HookDictEntries(prefix, codec);
      FreshDecodedKey(fs, codec, rv);
      SnocHooked(fs, codec, rv, (key, value));
    }
  }

  /** With distinct decoded keys, the last key is not among the keys the
      entries before it produced. */
  lemma FreshDecodedKey(fs: Fields, codec: Codec, rv: Fields)
    requires fs != [] && DecodedDistinct(fs, codec)
    requires DecodeKey(fs[|fs| - 1].0, codec).Ok?
    requires |rv| == |fs| - 1
    requires forall j :: 0 <= j < |rv| ==> HookedEntry(fs[..|fs| - 1][j], rv[j], codec)
    ensures DecodeKey(fs[|fs| - 1].0, codec).value !in KeysOf(rv)
  {
    var key := DecodeKey(fs[|fs| - 1].0, codec).value;
    forall j | 0 <= j < |rv|
      ensures KeysOf(rv)[j] != key
    {
      assert HookedEntry(fs[..|fs| - 1][j], rv[j], codec);
      assert fs[..|fs| - 1][j] == fs[j];
      assert DecodeKey(fs[j].0, codec) != DecodeKey(fs[|fs| - 1].0, codec);
    }
  }

  lemma SnocHooked(fs: Fields, codec: Codec, rv: Fields, out: (Key, Json))
    requires fs != [] && |rv| == |fs| - 1
    requires forall j :: 0 <= j < |rv| ==> HookedEntry(fs[..|fs| - 1][j], rv[j], codec)
    requires HookedEntry(fs[|fs| - 1], out, codec)
    ensures forall i :: 0 <= i < |fs| ==> HookedEntry(fs[i], (rv + [out])[i], codec)
  {
    forall i | 0 <= i < |fs|
      ensures HookedEntry(fs[i], (rv + [out])[i], codec)
    {
      if i < |rv| {
        assert fs[..|fs| - 1][i] == fs[i];
      }
    }
  }
}
