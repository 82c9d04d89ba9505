/** White space between the parts of a text does not matter to what is decoded from it. */
module SpacedDecoding {
  import opened Bytes
  import opened TokenWalk
  import opened Decoder
  import opened EndToEnd
  import opened RoundTrip
  import opened WhiteSpace
  import opened U = UaTypes
  import opened Jsmn
  import opened JsonTree
  import opened SpacedJson
  import JsmnProps
  import JsmnTree

  ghost predicate Twins(toks: seq<Token>, js: bytes, toks': seq<Token>, js': bytes) {
    Spans(toks, js) && Spans(toks', js') && AllAlike(toks, js, toks', js')
  }

  lemma SameKey(toks: seq<Token>, js: bytes, toks': seq<Token>, js': bytes, i: nat, key: bytes)
    requires Twins(toks, js, toks', js') && i < |toks|
    ensures JsonEq(js, toks[i], key) == JsonEq(js', toks'[i], key)
    ensures IsContainer(toks[i]) == IsContainer(toks'[i]) && toks[i].typ == toks'[i].typ && toks[i].size == toks'[i].size
  {
    assert Alike(toks[i], js, toks'[i], js');
  }

  lemma SameNull(toks: seq<Token>, js: bytes, toks': seq<Token>, js': bytes, i: nat)
    requires Twins(toks, js, toks', js')
    ensures IsJsonNull(toks, js, i) == IsJsonNull(toks', js', i)
  {
    if i < |toks| { assert Alike(toks[i], js, toks'[i], js'); }
  }

  lemma {:induction false} SameEntry(ms: seq<U.Member>, toks: seq<Token>, js: bytes, toks': seq<Token>, js': bytes, t: nat, i: nat, last: nat)
    requires Twins(toks, js, toks', js') && t < |toks| && |ms| > 0 && i <= last
    ensures FindEntry(ms, js, toks[t], i, last) == FindEntry(ms, js', toks'[t], i, last)
    decreases last - i
  {
    hide Twins, JsonEq;
    TwinSpans(toks, js, toks', js');
    if i < last {
      SameKey(toks, js, toks', js', t, ms[i % |ms|].name);
      SameEntry(ms, toks, js, toks', js', t, i + 1, last);
    }
  }

  lemma TwinSpans(toks: seq<Token>, js: bytes, toks': seq<Token>, js': bytes)
    requires Twins(toks, js, toks', js')
    ensures Spans(toks, js) && Spans(toks', js') && |toks| == |toks'|
  {
  }

  lemma {:induction false} SameSearch(toks: seq<Token>, js: bytes, toks': seq<Token>, js': bytes, key: bytes, i: nat, depth: nat)
    requires Twins(toks, js, toks', js')
    ensures Spans(toks, js) && Spans(toks', js')
    ensures SearchKey(toks, js, key, i, depth) == SearchKey(toks', js', key, i, depth)
    decreases |toks| - i, 0, 0
  {
    hide Twins, JsonEq, SearchMembers, SearchElems;
    TwinSpans(toks, js, toks', js');
    if i < |toks| {
      SameKey(toks, js, toks', js', i, key);
      if toks[i].typ.Object? {
        SameSearchMembers(toks, js, toks', js', key, i + 1, toks[i].size, depth, BadNotFound);
      } else if toks[i].typ.Array? {
        SameSearchElems(toks, js, toks', js', key, i + 1, toks[i].size, depth, BadNotFound);
      }
    }
  }

  lemma {:induction false} SameSearchMembers(toks: seq<Token>, js: bytes, toks': seq<Token>, js': bytes, key: bytes, i: nat, n: nat,
                                             depth: nat, ret: Status)
    requires Twins(toks, js, toks', js')
    ensures Spans(toks, js) && Spans(toks', js')
    ensures SearchMembers(toks, js, key, i, n, depth, ret) == SearchMembers(toks', js', key, i, n, depth, ret)
    decreases |toks| - i, 1, n
  {
    hide Twins, JsonEq, SearchKey, SearchElems;
    TwinSpans(toks, js, toks', js');
    if n > 0 && i < |toks| {
      SameKey(toks, js, toks', js', i, key);
      if !(depth == 0 && JsonEq(js, toks[i], key)) && i + 1 < |toks| {
        SameKey(toks, js, toks', js', i + 1, key);
        if IsContainer(toks[i + 1]) {
          SameSearch(toks, js, toks', js', key, i + 1, depth + 1);
          var r := SearchKey(toks, js, key, i + 1, depth + 1);
          SameSearchMembers(toks, js, toks', js', key, r.index, n - 1, depth, r.status);
        } else {
          SameSearchMembers(toks, js, toks', js', key, i + 2, n - 1, depth, ret);
        }
      }
    }
  }

  lemma {:induction false} SameSearchElems(toks: seq<Token>, js: bytes, toks': seq<Token>, js': bytes, key: bytes, i: nat, n: nat,
                                           depth: nat, ret: Status)
    requires Twins(toks, js, toks', js')
    ensures Spans(toks, js) && Spans(toks', js')
    ensures SearchElems(toks, js, key, i, n, depth, ret) == SearchElems(toks', js', key, i, n, depth, ret)
    decreases |toks| - i, 1, n
  {
    hide Twins, JsonEq, SearchKey, SearchMembers;
    TwinSpans(toks, js, toks', js');
    if n > 0 && i < |toks| {
      SameKey(toks, js, toks', js', i, key);
      if IsContainer(toks[i]) {
        SameSearch(toks, js, toks', js', key, i, depth + 1);
        var r := SearchKey(toks, js, key, i, depth + 1);
        SameSearchElems(toks, js, toks', js', key, r.index, n - 1, depth, r.status);
      } else {
        SameSearchElems(toks, js, toks', js', key, i + 1, n - 1, depth, ret);
      }
    }
  }

  lemma SameIdType(toks: seq<Token>, js: bytes, toks': seq<Token>, js': bytes, i: nat)
    requires Twins(toks, js, toks', js')
    ensures IdTypeOf(toks, js, i) == IdTypeOf(toks', js', i)
  {
    hide SearchKey;
    SameSearch(toks, js, toks', js', KEY_IDTYPE, i, 0);
    var r := SearchKey(toks, js, KEY_IDTYPE, i, 0);
    if r.status == Good && r.result < |toks| {
      FirstByte(toks[r.result], js, toks'[r.result], js');
    }
  }

  lemma FirstByte(a: Token, js: bytes, b: Token, js': bytes)
    requires Alike(a, js, b, js')
    ensures a.end - a.start < 1 <==> b.end - b.start < 1
    ensures a.end - a.start >= 1 ==> js[a.start] == js'[b.start]
  {
    if !IsContainer(a) && a.end - a.start >= 1 {
      assert TokenText(js, a)[0] == js[a.start];
      assert TokenText(js', b)[0] == js'[b.start];
      assert |TokenText(js, a)| == a.end - a.start && |TokenText(js', b)| == b.end - b.start;
    } else if !IsContainer(a) {
      assert |TokenText(js, a)| == a.end - a.start && |TokenText(js', b)| == b.end - b.start;
    }
  }

  lemma SameLeaf(ty: Type, toks: seq<Token>, js: bytes, toks': seq<Token>, js': bytes, i: nat)
    requires Twins(toks, js, toks', js')
    ensures DecodeLeaf(ty, toks, js, i) == DecodeLeaf(ty, toks', js', i)
  {
    hide IsJsonNull, TokenText;
    SameNull(toks, js, toks', js', i);
    if i < |toks| { assert Alike(toks[i], js, toks'[i], js'); }
  }

  lemma {:induction false} DecodesAlike(ty: Type, toks: seq<Token>, js: bytes, toks': seq<Token>, js': bytes, i: nat, depth: nat)
    requires Twins(toks, js, toks', js')
    ensures Spans(toks, js) && Spans(toks', js')
    ensures Decode(ty, toks, js, i, depth) == Decode(ty, toks', js', i, depth)
    decreases Rank(ty), ty, 0, 0
  {
    hide Twins, DecodeFields, DecodeElems, SearchKey, IdTypeOf, IsJsonNull, DecodeLeaf;
    TwinSpans(toks, js, toks', js');
    SameNull(toks, js, toks', js', i);
    if i < |toks| { SameKey(toks, js, toks', js', i, []); }
    match ty {
      case NodeId =>
        SameSearch(toks, js, toks', js', KEY_NAMESPACE, i, 0);
        SameIdType(toks, js, toks', js', i);
        var idType := IdTypeOf(toks, js, i);
        if idType.Some? {
          var hasNamespace := SearchKey(toks, js, KEY_NAMESPACE, i, 0).status == Good;
          IdTypeIsLeaf(toks, js, i);
          LeafEntries(idType.value, hasNamespace);
          FieldsAlike(NodeIdEntries(idType.value, hasNamespace), toks, js, toks', js', i, depth);
        }
      case QualifiedName => FieldsAlike(QUALIFIED_NAME, toks, js, toks', js', i, depth);
      case LocalizedText => FieldsAlike(LOCALIZED_TEXT, toks, js, toks', js', i, depth);
      case Array(elem) =>
        if i < |toks| { ElementsAlike(elem, toks, js, toks', js', i + 1, toks[i].size, [], depth); }
      case Structure(ms) => FieldsAlike(ms, toks, js, toks', js', i, depth + 1);
      case _ => SameLeaf(ty, toks, js, toks', js', i);
    }
  }

  lemma {:induction false} FieldsAlike(ms: seq<U.Member>, toks: seq<Token>, js: bytes, toks': seq<Token>, js': bytes, i: nat, depth: nat)
    requires Twins(toks, js, toks', js')
    ensures Spans(toks, js) && Spans(toks', js')
    ensures DecodeFields(ms, toks, js, i, depth) == DecodeFields(ms, toks', js', i, depth)
    decreases Ranks(ms), ms, 2, 0
  {
    hide Twins, Decode, FieldsLoop;
    TwinSpans(toks, js, toks', js');
    if i < |toks| && |ms| > 0 {
      SameKey(toks, js, toks', js', i, []);
      if |ms| == 1 && ms[0].name == [] {
        DecodesAlike(ms[0].ty, toks, js, toks', js', i, depth);
      } else if i + 1 < |toks| {
        LoopsAlike(ms, toks, js, toks', js', i + 1, 0, toks[i].size, Defaults(ms), seq(|ms|, _ => false), depth);
      }
    }
  }

  lemma {:induction false} LoopsAlike(ms: seq<U.Member>, toks: seq<Token>, js: bytes, toks': seq<Token>, js': bytes, i: nat, round: nat,
                                      count: nat, vals: seq<Value>, found: seq<bool>, depth: nat)
    requires Twins(toks, js, toks', js') && |ms| > 0 && |vals| == |found| == |ms|
    ensures Spans(toks, js) && Spans(toks', js')
    ensures FieldsLoop(ms, toks, js, i, round, count, vals, found, depth) == FieldsLoop(ms, toks', js', i, round, count, vals, found, depth)
    decreases Ranks(ms), ms, 1, count - round
  {
    hide Twins, Decode, FindEntry;
    TwinSpans(toks, js, toks', js');
    if round < count && i < |toks| {
      SameEntry(ms, toks, js, toks', js', i, round, round + |ms|);
      var e := FindEntry(ms, js, toks[i], round, round + |ms|);
      if e.None? {
        LoopsAlike(ms, toks, js, toks', js', i, round + 1, count, vals, found, depth);
      } else if !found[e.value] && i + 1 < |toks| {
        DecodesAlike(ms[e.value].ty, toks, js, toks', js', i + 1, depth);
        var r := Decode(ms[e.value].ty, toks, js, i + 1, depth);
        if r.Done? {
          LoopsAlike(ms, toks, js, toks', js', r.next, round + 1, count, vals[e.value := r.value], found[e.value := true], depth);
        }
      }
    }
  }

  lemma {:induction false} ElementsAlike(elem: Type, toks: seq<Token>, js: bytes, toks': seq<Token>, js': bytes, i: nat, n: nat,
                                         acc: seq<Value>, depth: nat)
    requires Twins(toks, js, toks', js')
    ensures Spans(toks, js) && Spans(toks', js')
    ensures DecodeElems(elem, toks, js, i, n, acc, depth) == DecodeElems(elem, toks', js', i, n, acc, depth)
    decreases Rank(elem), elem, 1, n
  {
    hide Twins, Decode;
    TwinSpans(toks, js, toks', js');
    if n > 0 {
      DecodesAlike(elem, toks, js, toks', js', i, depth);
      var r := Decode(elem, toks, js, i, depth);
      if r.Done? {
        ElementsAlike(elem, toks, js, toks', js', r.next, n - 1, acc + [r.value], depth);
      }
    }
  }

  /** Two texts with alike tokens, or with too many each. */
  lemma SameOutcome(ty: Type, js: bytes, toks: seq<Token>, js': bytes, toks': seq<Token>)
    requires AllAlike(toks, js, toks', js') && |toks| > 0
    requires Run(js, MAX_TOKENS, Init) == (Parser(|js|, toks, -1), |toks|)
    requires Run(js', MAX_TOKENS, Init) == (Parser(|js'|, toks', -1), |toks'|)
    ensures DecodeJson(ty, js) == DecodeJson(ty, js')
  {
    hide Run, Alike, Decode;
    JsmnProps.ParsedTokens(js, MAX_TOKENS);
    JsmnProps.ParsedTokens(js', MAX_TOKENS);
    SameKey(toks, js, toks', js', 0, []);
    DecodesAlike(ty, toks, js, toks', js', 0, 0);
  }

  lemma TooMany(ty: Type, js: bytes)
    requires Run(js, MAX_TOKENS, Init).1 < 0
    ensures DecodeJson(ty, js) == None
  {
    hide Run, Decode;
  }

  /** Any two ways to put white space between the parts of a text are decoded alike. */
  lemma SpacingsAgree(ty: Type, before: bytes, t: Spaced, after: bytes, before': bytes, t': Spaced, after': bytes)
    requires White(before) && SWf(t) && White(after) && White(before') && SWf(t') && White(after')
    requires Plain(t) == Plain(t') && (t.SPrim? ==> after != [] && after' != [])
    ensures DecodeJson(ty, before + (SpacedJson.Text(t) + after)) == DecodeJson(ty, before' + (SpacedJson.Text(t') + after'))
  {
    hide SpacedJson.Text, Tokens, Run, White, Alike, AllAlike, DecodeJson, SWf, At;
    var js, toks := before + (SpacedJson.Text(t) + after), Tokens(t, |before|);
    var js', toks' := before' + (SpacedJson.Text(t') + after'), Tokens(t', |before'|);
    SameKind(t, t');
    JsmnTree.TokenizesSpaced(before, t, after, MAX_TOKENS);
    JsmnTree.TokenizesSpaced(before', t', after', MAX_TOKENS);
    SpacingsAlike(before, t, after, before', t', after');
    AlikeLengths(toks, js, toks', js');
    if |toks| <= MAX_TOKENS {
      SameOutcome(ty, js, toks, js', toks');
    } else {
      TooMany(ty, js);
      TooMany(ty, js');
    }
  }

  lemma SameKind(t: Spaced, t': Spaced)
    requires Plain(t) == Plain(t')
    ensures t.SPrim? <==> t'.SPrim?
  {
  }

  lemma AlikeLengths(toks: seq<Token>, js: bytes, toks': seq<Token>, js': bytes)
    requires AllAlike(toks, js, toks', js')
    ensures |toks| == |toks'|
  {
  }

  /** In particular as the text without white space. */
  lemma SpacingIsIgnored(ty: Type, before: bytes, t: Spaced, after: bytes)
    requires White(before) && SWf(t) && White(after) && !t.SPrim?
    ensures DecodeJson(ty, before + (SpacedJson.Text(t) + after)) == DecodeJson(ty, Render(Plain(t)))
  {
    hide SpacedJson.Text, Tokens, Render, Preorder, DecodeJson;
    var j := Plain(t);
    PlainWf(t);
    CompactIs(j, 0);
    SpacingsAgree(ty, before, t, after, [], Compact(j), []);
    assert [] + (Render(j) + []) == Render(j);
  }

  /** A leaf written as a bare primitive comes back when white space follows it. */
  lemma BareLeafBack(ty: Type, v: Value, before: bytes, after: bytes)
    requires HasType(ty, v) && Encodable(ty, v) && IsLeaf(ty) && ToJson(ty, v).Prim?
    requires White(before) && White(after) && after != []
    ensures DecodeJson(ty, before + (TextOf(ty, v) + after)) == Some(v)
  {
    hide SpacedJson.Text, Run, White, DecodeJson, ToJson, HasType, Encodable, Decode;
    var p := ToJson(ty, v);
    LeafWf(ty, v);
    var js, blank: bytes := TextOf(ty, v) + [SPACE], [SPACE];
    var t := SPrim(p.text);
    STextLeaf(t, 0);
    UnfoldLeaf(p, 0);
    NoWhite();
    SpacingsAgree(ty, before, t, after, [], t, blank);
    assert [] + (p.text + blank) == js;
    JsmnTree.TokenizesSpaced([], t, blank, MAX_TOKENS);
    BareLeaf(ty, v);
  }

  lemma BareLeaf(ty: Type, v: Value)
    requires HasType(ty, v) && Encodable(ty, v) && IsLeaf(ty) && ToJson(ty, v).Prim?
    requires var js := TextOf(ty, v) + [SPACE];
             Run(js, MAX_TOKENS, Init) == (Parser(|js|, Preorder(ToJson(ty, v), 0), -1), 1)
    ensures DecodeJson(ty, TextOf(ty, v) + [SPACE]) == Some(v)
  {
    hide Run, ToJson, HasType, Encodable, DecodeLeaf;
    var p := ToJson(ty, v);
    var js, toks := TextOf(ty, v) + [SPACE], Preorder(p, 0);
    LeafWf(ty, v);
    UnfoldLeaf(p, 0);
    JsmnProps.ParsedTokens(js, MAX_TOKENS);
    assert Here(toks, js, 0, 0, p);
    DecodesLeaf(ty, v, toks, js, 0, 0);
  }
}
