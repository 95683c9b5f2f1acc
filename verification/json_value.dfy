/** Python values as the JSON helpers and the dice normaliser see them.
    A dict is an insertion-ordered list of (key, value) pairs; its keys
    are `str` or `bytes`. */
module JsonValue {
  import opened Wrappers
  import Text
  import Failures

  newtype byte = x: int | 0 <= x < 256

  datatype Key = SKey(name: string) | BKey(raw: seq<byte>)

  datatype Json =
    | Null
    | Bool(b: bool)
    | Int(i: int)
    | Str(s: string)
    | Bytes(raw: seq<byte>)
    | Arr(items: seq<Json>)
    | Obj(fields: seq<(Key, Json)>)

  type Fields = seq<(Key, Json)>

  function KeysOf(fs: Fields): (ks: seq<Key>)
    ensures |ks| == |fs|
    ensures forall i :: 0 <= i < |fs| ==> ks[i] == fs[i].0
  {
    seq(|fs|, i requires 0 <= i < |fs| => fs[i].0)
  }

  lemma KeysOfConcat(a: Fields, b: Fields)
    ensures KeysOf(a + b) == KeysOf(a) + KeysOf(b)
  {
  }

  /** A Python dict never holds the same key twice. */
  predicate DistinctKeys(fs: Fields) {
    forall i, j :: 0 <= i < j < |fs| ==> fs[i].0 != fs[j].0
  }

  /** `d.get(k)`: the value stored under `k`, if any. */
  function Lookup(fs: Fields, k: Key): (r: Option<Json>)
    ensures r.Some? <==> k in KeysOf(fs)
    ensures r.Some? ==> exists i :: 0 <= i < |fs| && fs[i] == (k, r.value)
  {
    if fs == [] then None
    else if fs[0].0 == k then Some(fs[0].1)
    else Lookup(fs[1..], k)
  }

  /** `d.get(name)` for a `str` key. */
  function Get(fs: Fields, name: string): Option<Json> {
    Lookup(fs, SKey(name))
  }

  /** `d[k] = v`: overwrite in place when `k` is present, else append. */
  function Assign(fs: Fields, k: Key, v: Json): (r: Fields)
    ensures k in KeysOf(fs) ==> |r| == |fs|
    ensures k !in KeysOf(fs) ==> r == fs + [(k, v)]
    ensures forall i :: 0 <= i < |fs| ==> r[i] == (if fs[i].0 == k then (k, v) else fs[i])
    ensures DistinctKeys(fs) ==> DistinctKeys(r)
    ensures Lookup(r, k) == Some(v)
  {
    if k in KeysOf(fs) then
      seq(|fs|, i requires 0 <= i < |fs| => if fs[i].0 == k then (k, v) else fs[i])
    else
      LookupAppendNew(fs, k, v);
      fs + [(k, v)]
  }

  lemma LookupAppendNew(fs: Fields, k: Key, v: Json)
    requires k !in KeysOf(fs)
    ensures Lookup(fs + [(k, v)], k) == Some(v)
  {
    if fs != [] {
      assert (fs + [(k, v)])[1..] == fs[1..] + [(k, v)];
      assert KeysOf(fs[1..]) == KeysOf(fs)[1..];
      LookupAppendNew(fs[1..], k, v);
    }
  }

  /** Python truthiness: `None`, `False`, `0` and empty containers are false. */
  predicate Truthy(j: Json) {
    match j
    case Null => false
    case Bool(b) => b
    case Int(i) => i != 0
    case Str(s) => s != []
    case Bytes(b) => b != []
    case Arr(xs) => xs != []
    case Obj(fs) => fs != []
  }

  /** The integer a value stands for in `<`/`<=`/`>=` against an int:
      `bool` is a subclass of `int`; anything else raises `TypeError`. */
  function AsNumber(j: Json): Option<int> {
    match j
    case Int(i) => Some(i)
    case Bool(b) => Some(if b then 1 else 0)
    case _ => None
  }

  /** Python's `==`: `True == 1`, dict equality ignores key order,
      `str` never equals `bytes`. */
  predicate PyEq(a: Json, b: Json)
    decreases a
  {
    match a
    case Obj(fa) =>
      && b.Obj?
      && |fa| == |b.fields|
      && (forall i :: 0 <= i < |fa| ==>
            var w := Lookup(b.fields, fa[i].0);
            w.Some? && PyEq(fa[i].1, w.value))
    case Arr(xa) =>
      && b.Arr?
      && |xa| == |b.items|
      && (forall i :: 0 <= i < |xa| ==> PyEq(xa[i], b.items[i]))
    case Null => b.Null?
    case Str(s) => b.Str? && b.s == s
    case Bytes(r) => b.Bytes? && b.raw == r
    case _ =>
      var x := AsNumber(a);
      x.Some? && AsNumber(b) == x
  }

  /** `str(v)` for the scalars a die request carries. */
  function PyStr(j: Json): (r: Result<string, Failures.Failure>)
    ensures r.Ok? <==> !(j.Arr? || j.Obj? || j.Bytes?)
    ensures j.Str? ==> r == Ok(j.s)
  {
    match j
    case Str(s) => Ok(s)
    case Null => Ok("None")
    case Bool(b) => Ok(if b then "True" else "False")
    case Int(i) => Ok(if i < 0 then "-" + Text.ShowNat(-i) else Text.ShowNat(i))
    case _ => Err(Failures.NotRenderable)
  }
}
