/**
 * The response extractor `extractText`: three optional-chain lookups into a
 * loosely shaped provider response, combined with `??`, falling back to the
 * pretty-printed JSON of the whole response.
 *
 * `serialize` stands for `JSON.stringify(resp, null, 2)`; its exact output is
 * not modelled, so every statement here holds for any serializer.
 */
module Extract {
  import opened Wrappers
  import opened JsValue

  /** `candidates?.[0]?.content?.parts?.[0]?.text` */
  const PartsTextPath: seq<Step> :=
    [Key("candidates"), Index(0), Key("content"), Key("parts"), Index(0), Key("text")]

  /** `response?.candidates?.[0]?.content?.parts?.[0]?.text` */
  const NestedPartsTextPath: seq<Step> := [Key("response")] + PartsTextPath

  /** `candidates?.[0]?.content?.text` */
  const ContentTextPath: seq<Step> :=
    [Key("candidates"), Index(0), Key("content"), Key("text")]

  /** The three lookups, in the order they are tried. */
  const Paths: seq<seq<Step>> := [NestedPartsTextPath, PartsTextPath, ContentTextPath]

  /** The value of `resp?.<path>`. */
  function At(resp: Json, path: seq<Step>): Option<Json>
  {
    Chain(Some(resp), path)
  }

  /** The lookup at index `i` yields a value and every earlier one yields `undefined` or `null`. */
  ghost predicate FirstHit(resp: Json, paths: seq<seq<Step>>, i: int)
  {
    && 0 <= i < |paths|
    && !Nullish(At(resp, paths[i]))
    && forall j :: 0 <= j < i ==> Nullish(At(resp, paths[j]))
  }

  /**
   * The strategy-list reading of the extractor: the value of the first lookup
   * that is neither `undefined` nor `null`, or `None` when all of them are.
   */
  function FirstFound(resp: Json, paths: seq<seq<Step>>): (r: Option<Json>)
    ensures r.Some? <==> exists i :: FirstHit(resp, paths, i)
    ensures forall i :: FirstHit(resp, paths, i) ==> r == At(resp, paths[i])
    ensures r.None? ==> forall i :: 0 <= i < |paths| ==> Nullish(At(resp, paths[i]))
    decreases |paths|
  {
    if paths == [] then None
    else if !Nullish(At(resp, paths[0])) then
      assert FirstHit(resp, paths, 0);
      At(resp, paths[0])
    else
      var r := FirstFound(resp, paths[1..]);
      assert forall i :: FirstHit(resp, paths, i) <==> i > 0 && FirstHit(resp, paths[1..], i - 1) by {
        forall i
          ensures FirstHit(resp, paths, i) <==> i > 0 && FirstHit(resp, paths[1..], i - 1)
        {
          if i > 0 && FirstHit(resp, paths[1..], i - 1) {
            forall j | 0 <= j < i ensures Nullish(At(resp, paths[j])) {
              if j > 0 { assert paths[j] == paths[1..][j - 1]; }
            }
          }
        }
      }
      assert r.Some? ==> exists i :: FirstHit(resp, paths, i) by {
        if r.Some? {
          var i :| FirstHit(resp, paths[1..], i);
          assert FirstHit(resp, paths, i + 1);
        }
      }
      assert r.None? ==> forall i :: 0 <= i < |paths| ==> Nullish(At(resp, paths[i])) by {
        if r.None? {
          forall i | 0 <= i < |paths| ensures Nullish(At(resp, paths[i])) {
            if i > 0 { assert paths[i] == paths[1..][i - 1]; }
          }
        }
      }
      r
  }

  /** On a list of three lookups, `FirstFound` agrees with the `??` chain `a ?? b ?? c`. */
  lemma FirstFoundOfThree(resp: Json, a: seq<Step>, b: seq<Step>, c: seq<Step>)
    ensures var chain := Coalesce(Coalesce(At(resp, a), At(resp, b)), At(resp, c));
            FirstFound(resp, [a, b, c]) == if Nullish(chain) then None else chain
  {
    var x, y, z := At(resp, a), At(resp, b), At(resp, c);
    assert [c][1..] == [];
    assert FirstFound(resp, [c]) == if Nullish(z) then None else z;
    assert [b, c][1..] == [c];
    assert FirstFound(resp, [b, c]) == if Nullish(y) then FirstFound(resp, [c]) else y;
    assert [a, b, c][1..] == [b, c];
    assert FirstFound(resp, [a, b, c]) == if Nullish(x) then FirstFound(resp, [b, c]) else x;
  }

  /**
   * `extractText(resp)`: the first of the three lookups that is neither
   * `undefined` nor `null`, otherwise the serialized response. The result is
   * whatever value sits at the path, not necessarily a string.
   */
  function ExtractText(resp: Json, serialize: Json -> string): (r: Json)
    ensures FirstFound(resp, Paths).Some? ==> r == FirstFound(resp, Paths).value
    ensures FirstFound(resp, Paths).None? ==> r == JString(serialize(resp))
  {
    FirstFoundOfThree(resp, NestedPartsTextPath, PartsTextPath, ContentTextPath);
    var text := Coalesce(Coalesce(At(resp, NestedPartsTextPath), At(resp, PartsTextPath)),
                         At(resp, ContentTextPath));
    if Nullish(text) then JString(serialize(resp)) else text.value
  }

  /** A value at the nested path decides the result, whatever the other two paths hold. */
  lemma ExtractPrefersNestedParts(resp: Json, serialize: Json -> string)
    requires !Nullish(At(resp, NestedPartsTextPath))
    ensures ExtractText(resp, serialize) == At(resp, NestedPartsTextPath).value
  {
  }

  /** With nothing at the nested path, a value at `candidates[0].content.parts[0].text` decides. */
  lemma ExtractThenParts(resp: Json, serialize: Json -> string)
    requires Nullish(At(resp, NestedPartsTextPath))
    requires !Nullish(At(resp, PartsTextPath))
    ensures ExtractText(resp, serialize) == At(resp, PartsTextPath).value
  {
  }

  /** With nothing at either parts path, `candidates[0].content.text` decides. */
  lemma ExtractThenContentText(resp: Json, serialize: Json -> string)
    requires Nullish(At(resp, NestedPartsTextPath))
    requires Nullish(At(resp, PartsTextPath))
    requires !Nullish(At(resp, ContentTextPath))
    ensures ExtractText(resp, serialize) == At(resp, ContentTextPath).value
  {
  }

  /** When all three lookups give `undefined` or `null`, the result is the serialized response. */
  lemma ExtractFallback(resp: Json, serialize: Json -> string)
    requires forall i :: 0 <= i < |Paths| ==> Nullish(At(resp, Paths[i]))
    ensures ExtractText(resp, serialize) == JString(serialize(resp))
  {
  }

  /** A present empty string is a result of its own; a `null` falls through to the later paths. */
  lemma ExtractEmptyStringAndNull(resp: Json, serialize: Json -> string)
    ensures At(resp, NestedPartsTextPath) == Some(JString("")) ==> ExtractText(resp, serialize) == JString("")
    ensures At(resp, NestedPartsTextPath) == Some(JNull) ==>
              ExtractText(resp, serialize) ==
                (match FirstFound(resp, Paths[1..])
                 case Some(v) => v
                 case None => JString(serialize(resp)))
  {
    if At(resp, NestedPartsTextPath) == Some(JNull) {
      assert Paths[1..] == [PartsTextPath, ContentTextPath];
      assert Paths[1..][1..] == [ContentTextPath];
      assert Paths[1..][1..][1..] == [];
    }
  }

  /** The response `{candidates: [{content: {parts: [{text: t}]}}]}`. */
  function PlainResponse(t: string): Json
  {
    JObject(map["candidates" := JArray([
      JObject(map["content" := JObject(map["parts" := JArray([
        JObject(map["text" := JString(t)])])])])])])
  }

  /** The plain response shape yields exactly its text, the empty string included. */
  lemma ExtractPlainResponse(t: string, serialize: Json -> string)
    ensures ExtractText(PlainResponse(t), serialize) == JString(t)
  {
    var resp := PlainResponse(t);
    assert NestedPartsTextPath[0] == Key("response") && NestedPartsTextPath[1..] == PartsTextPath;
    assert Get(resp, Key("response")) == None;
    assert Chain(None, PartsTextPath) == None;
    assert At(resp, NestedPartsTextPath) == None;
    assert At(resp, PartsTextPath) == Some(JString(t));
  }

  /**
   * A response wrapped as `{response: inner}` (the shape of older SDKs) yields
   * the text at `inner.candidates[0].content.parts[0].text` when there is one,
   * and the serialized wrapper otherwise.
   */
  lemma ExtractWrappedResponse(inner: Json, serialize: Json -> string)
    ensures var resp := JObject(map["response" := inner]);
            ExtractText(resp, serialize) ==
              if Nullish(At(inner, PartsTextPath)) then JString(serialize(resp))
              else At(inner, PartsTextPath).value
  {
    var resp := JObject(map["response" := inner]);
    ChainAppend(Some(resp), [Key("response")], PartsTextPath);
    assert Chain(Some(resp), [Key("response")]) == Some(inner);
    assert At(resp, NestedPartsTextPath) == At(inner, PartsTextPath);
    assert At(resp, PartsTextPath) == None;
    assert At(resp, ContentTextPath) == None;
  }
}
