/** Optional values; `None` stands for JavaScript's `undefined`. */
module Wrappers {

  datatype Option<+T> = None | Some(value: T)
}

/**
 * The JSON-shaped JavaScript values the gateway handles (provider responses,
 * request bodies, response bodies) and the optional-chaining lookups
 * `v?.name` and `v?.[i]` that the response extractor performs on them.
 */
module JsValue {
  import opened Wrappers

  datatype Json =
    | JNull
    | JBool(b: bool)
    | JNumber(n: real)
    | JString(s: string)
    | JArray(elems: seq<Json>)
    | JObject(fields: map<string, Json>)

  /** One link of an optional chain: `?.name` or `?.[i]`. */
  datatype Step = Key(name: string) | Index(i: nat)

  /** `undefined` or `null`: the values that `?.` stops at and that `??` skips. */
  predicate Nullish(o: Option<Json>)
  {
    o.None? || o == Some(JNull)
  }

  /**
   * Reads one property of a non-null value. A name is looked up in an object,
   * an index in an array; every other combination misses.
   */
  function Get(v: Json, step: Step): Option<Json>
  {
    match step
    case Key(k) => if v.JObject? && k in v.fields then Some(v.fields[k]) else None
    case Index(i) => if v.JArray? && i < |v.elems| then Some(v.elems[i]) else None
  }

  /** `o?.s1?.s2 ... ?.sn`: stops with `undefined` at the first nullish link. */
  function Chain(o: Option<Json>, path: seq<Step>): (r: Option<Json>)
    ensures path != [] && !Nullish(r) ==> !Nullish(o)
    ensures |path| == 1 && !Nullish(o) ==> r == Get(o.value, path[0])
    decreases |path|
  {
    if path == [] then o
    else if Nullish(o) then None
    else Chain(Get(o.value, path[0]), path[1..])
  }

  /** `a ?? b`: the right operand only when the left one is `undefined` or `null`. */
  function Coalesce(a: Option<Json>, b: Option<Json>): (r: Option<Json>)
    ensures Nullish(r) <==> Nullish(a) && Nullish(b)
    ensures !Nullish(a) ==> r == a
  {
    if Nullish(a) then b else a
  }

  /** An optional chain over `p + q` is the chain over `q` continued from the chain over `p`. */
  lemma {:induction false} ChainAppend(o: Option<Json>, p: seq<Step>, q: seq<Step>)
    ensures Chain(o, p + q) == Chain(Chain(o, p), q)
    decreases |p|
  {
    if p == [] {
      assert p + q == q;
    } else if Nullish(o) {
      assert (p + q)[0] == p[0];
      if q != [] {
        assert Chain(Chain(o, p), q) == Chain(None, q);
      }
    } else {
      assert (p + q)[0] == p[0];
      assert (p + q)[1..] == p[1..] + q;
      ChainAppend(Get(o.value, p[0]), p[1..], q);
    }
  }

  /**
   * Optional chaining short-circuits: a chain that yields a value reached a
   * non-nullish value after every strict prefix of its path.
   */
  lemma ChainFoundThroughPrefixes(o: Option<Json>, path: seq<Step>, k: nat)
    requires k < |path|
    requires !Nullish(Chain(o, path))
    ensures !Nullish(Chain(o, path[..k]))
  {
    assert path == path[..k] + path[k..];
    ChainAppend(o, path[..k], path[k..]);
  }
}
