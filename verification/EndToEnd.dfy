/** The whole way: a value, its text, the tokens of the text, and the value decoded from them. */
module EndToEnd {
  import opened Bytes
  import opened JsonTree
  import opened TokenWalk
  import opened Decoder
  import opened RoundTrip
  import opened U = UaTypes
  import Jsmn
  import JsmnProps
  import JsmnTree

  const MAX_TOKENS: nat := 1000

  /** The root is an object, or the only token and no array. */
  predicate Root(toks: seq<Jsmn.Token>) {
    |toks| >= 1 && (toks[0].typ.Object? || (|toks| == 1 && (toks[0].typ.Primitive? || toks[0].typ.String?)))
  }

  /**
   UA_decodeJson: tokenize, decode from the first token, and check that all tokens (or all but
   the last) were used.  No value: the call does not return Good.
   */
  function DecodeJson(ty: Type, js: bytes): Option<Value> {
    var (p, n) := Jsmn.Run(js, MAX_TOKENS, Jsmn.Init);
    if n < 0 then None
    else
      JsmnProps.ParsedTokens(js, MAX_TOKENS);
      if !Root(p.toks) then None
      else
        var r := Decode(ty, p.toks, js, 0, 0);
        if r.Done? && (r.next == n || r.next == n - 1) then Some(r.value) else None
  }

  /** The tokens of a rendered tree are its preorder list and lie in its text. */
  lemma Tokenized(j: Json)
    requires Wf(j) && !j.Prim? && Size(j) <= MAX_TOKENS
    ensures Jsmn.Run(Render(j), MAX_TOKENS, Jsmn.Init) == (Jsmn.Parser(|Render(j)|, Preorder(j, 0), -1), Size(j))
    ensures Spans(Preorder(j, 0), Render(j)) && Here(Preorder(j, 0), Render(j), 0, 0, j)
  {
    hide Render, Preorder, Jsmn.Run;
    PreorderWithin(j, 0);
    JsmnTree.TokenizesTree(j, MAX_TOKENS);
    JsmnProps.ParsedTokens(Render(j), MAX_TOKENS);
  }

  /** The root token has the type of the tree. */
  lemma RootToken(j: Json)
    requires !j.Prim?
    ensures Preorder(j, 0)[0].typ == (if j.Obj? then Jsmn.Object else if j.Arr? then Jsmn.Array else Jsmn.String)
  {
    hide Render, RenderElems, RenderMembers, PreorderElems, PreorderMembers;
  }

  /** Decoding the text of a tree is decoding its preorder list from the first token. */
  lemma DecodesTree(ty: Type, j: Json)
    requires Wf(j) && (j.Obj? || j.Str?)
    ensures Size(j) > 1000 ==> DecodeJson(ty, Render(j)) == None
    ensures Size(j) <= 1000 ==>
      var toks, js := Preorder(j, 0), Render(j);
      && Spans(toks, js) && Here(toks, js, 0, 0, j) && |toks| == Size(j)
      && DecodeJson(ty, js) ==
           var r := Decode(ty, toks, js, 0, 0);
           if r.Done? && (r.next == Size(j) || r.next == Size(j) - 1) then Some(r.value) else None
  {
    hide Render, Preorder, Jsmn.Run, Decode, Here, Wf;
    PreorderWithin(j, 0);
    if Size(j) <= MAX_TOKENS {
      Tokenized(j);
      RootToken(j);
      StringSize(j);
    } else {
      JsmnTree.TokenizesTree(j, MAX_TOKENS);
    }
  }

  /**
   The end-to-end theorem.  For every type and every value whose decoders move on, whose tree is
   an object or a string: decoding the text of the value gives the value, if its tree has at most
   a thousand tokens, and fails if it has more.
   */
  lemma EncodeDecode(ty: Type, v: Value)
    requires WfType(ty) && HasType(ty, v) && Encodable(ty, v) && Returns(ty, v) && Reach(ty, v) < MAX_RECURSION
    requires ToJson(ty, v).Obj? || ToJson(ty, v).Str?
    ensures var n := Size(ToJson(ty, v));
            DecodeJson(ty, TextOf(ty, v)) == if n <= 1000 then Some(v) else None
  {
    hide Render, Preorder, DecodeJson, Decode, Here, Wf, ToJson;
    var j := ToJson(ty, v);
    JsonWf(ty, v);
    DecodesTree(ty, j);
    if Size(j) <= MAX_TOKENS {
      DecodesValue(ty, v, Preorder(j, 0), Render(j), 0, 0, 0);
    }
  }

  lemma StringSize(j: Json)
    ensures j.Str? ==> Size(j) == 1
  {
  }
}
