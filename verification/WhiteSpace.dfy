/** The tokens of two spacings of one tree have the same types, sizes and texts. */
module WhiteSpace {
  import opened Bytes
  import opened Jsmn
  import opened JsonTree
  import opened SpacedJson
  import opened TokenWalk
  import opened JsmnTree
  import U = UaTypes

  // ---- The tokens ----

  /** What IsJsonNull looks at. */
  predicate NullAt(a: Token, js: bytes)
    requires 0 <= a.start
  {
    a.typ.Primitive? && a.start + 4 <= |js| && js[a.start..a.start + 4] == U.NULL_TEXT
  }

  /** The same type, size and text; of a container the same bracket. */
  ghost predicate Alike(a: Token, js: bytes, b: Token, js': bytes) {
    && a.typ == b.typ && a.size == b.size
    && 0 <= a.start <= a.end <= |js| && 0 <= b.start <= b.end <= |js'|
    && (!IsContainer(a) ==> TokenText(js, a) == TokenText(js', b))
    && (IsContainer(a) ==> a.start < a.end && b.start < b.end && js[a.start] == js'[b.start])
    && NullAt(a, js) == NullAt(b, js')
  }

  ghost predicate AllAlike(toks: seq<Token>, js: bytes, toks': seq<Token>, js': bytes) {
    |toks| == |toks'| && forall k :: 0 <= k < |toks| ==> Alike(toks[k], js, toks'[k], js')
  }

  lemma AlikeJoin(a: seq<Token>, b: seq<Token>, js: bytes, a': seq<Token>, b': seq<Token>, js': bytes)
    requires AllAlike(a, js, a', js') && AllAlike(b, js, b', js')
    ensures AllAlike(a + b, js, a' + b', js')
  {
    hide Alike;
  }

  lemma OneAlike(a: Token, js: bytes, b: Token, js': bytes)
    requires Alike(a, js, b, js')
    ensures AllAlike([a], js, [b], js')
  {
  }

  /** A primitive is null as far as its own text says, the next character being none of a primitive. */
  lemma NullInText(js: bytes, s: nat, p: bytes)
    requires PrimText(p) && At(js, s, p) && (s + |p| < |js| ==> EndsPrimitive(js[s + |p|]))
    ensures NullAt(Token(Primitive, s, s + |p|, 0), js) <==> |p| >= 4 && p[..4] == U.NULL_TEXT
  {
    if |p| >= 4 {
      assert js[s..s + 4] == p[..4];
    } else if s + 4 <= |js| {
      assert js[s..s + 4][|p|] == js[s + |p|];
    }
  }

  /** The text of the tree stands there, and what follows a primitive is none of it. */
  ghost predicate Ready(t: Spaced, js: bytes, s: nat) {
    At(js, s, Text(t)) && (t.SPrim? && s + |Text(t)| < |js| ==> EndsPrimitive(js[s + |Text(t)|]))
  }

  lemma LeafAlike(t: Spaced, js: bytes, s: nat, js': bytes, s': nat)
    requires SWf(t) && !SContainer(t) && Ready(t, js, s) && Ready(t, js', s')
    ensures AllAlike(Tokens(t, s), js, Tokens(t, s'), js')
  {
    hide Text, Tokens, AllAlike, Alike, At;
    STextLeaf(t, s);
    STextLeaf(t, s');
    if t.SPrim? {
      PrimAlike(t.text, js, s, js', s');
      OneAlike(Token(Primitive, s, s + |t.text|, 0), js, Token(Primitive, s', s' + |t.text|, 0), js');
    } else {
      KeyAlike(t.body, js, s, 0, js', s');
      OneAlike(Token(String, s + 1, s + 1 + |t.body|, 0), js, Token(String, s' + 1, s' + 1 + |t.body|, 0), js');
    }
  }

  lemma PrimAlike(p: bytes, js: bytes, s: nat, js': bytes, s': nat)
    requires PrimText(p) && At(js, s, p) && At(js', s', p)
    requires (s + |p| < |js| ==> EndsPrimitive(js[s + |p|])) && (s' + |p| < |js'| ==> EndsPrimitive(js'[s' + |p|]))
    ensures Alike(Token(Primitive, s, s + |p|, 0), js, Token(Primitive, s', s' + |p|, 0), js')
  {
    hide PrimText, NullAt;
    AtSlice(js, s, p);
    AtSlice(js', s', p);
    NullInText(js, s, p);
    NullInText(js', s', p);
  }

  lemma KeyAlike(b: bytes, js: bytes, s: nat, size: nat, js': bytes, s': nat)
    requires At(js, s, Quoted(b)) && At(js', s', Quoted(b))
    ensures Alike(Token(String, s + 1, s + 1 + |b|, size), js, Token(String, s' + 1, s' + 1 + |b|, size), js')
  {
    AtSplit(js, s, [QUOTE] + b, [QUOTE]);
    AtSplit(js, s, [QUOTE], b);
    AtSlice(js, s + 1, b);
    AtSplit(js', s', [QUOTE] + b, [QUOTE]);
    AtSplit(js', s', [QUOTE], b);
    AtSlice(js', s' + 1, b);
  }

  /** What stands inside a pair of brackets. */
  lemma Inside(js: bytes, s: nat, open: byte, inner: bytes, close: byte)
    requires At(js, s, [open] + (inner + [close]))
    ensures Stands(js, s, open) && At(js, s + 1, inner) && Stands(js, s + 1 + |inner|, close)
  {
    AtChain(js, s, [open], inner, [close]);
    AtIndex(js, s, [open], 0);
    AtIndex(js, s + 1 + |inner|, [close], 0);
  }

  lemma RootAlike(typ: TokType, js: bytes, s: nat, n: nat, js': bytes, s': nat, n': nat, count: nat)
    requires (typ == Object || typ == Array) && s + n + 2 <= |js| && s' + n' + 2 <= |js'| && js[s] == js'[s']
    ensures AllAlike([Token(typ, s, s + n + 2, count)], js, [Token(typ, s', s' + n' + 2, count)], js')
  {
  }

  lemma {:induction false} TokensAlike(t: Spaced, js: bytes, s: nat, t': Spaced, js': bytes, s': nat)
    requires SWf(t) && SWf(t') && Plain(t) == Plain(t') && Ready(t, js, s) && Ready(t', js', s')
    ensures AllAlike(Tokens(t, s), js, Tokens(t', s'), js')
    decreases t, 1
  {
    hide Text, ElemsText, MembersText, Tokens, ElemsTokens, MembersTokens, At, AllAlike;
    match t {
      case SArr(es) =>
        STextArr(es, s);
        STextArr(t'.elems, s');
        Inside(js, s, LBRACKET, ElemsText(es, true), RBRACKET);
        Inside(js', s', LBRACKET, ElemsText(t'.elems, true), RBRACKET);
        ElemsAlike(es, js, s + 1, t'.elems, js', s' + 1, true);
        var n := PlainElems(es).Count();
        RootAlike(Array, js, s, |ElemsText(es, true)|, js', s', |ElemsText(t'.elems, true)|, n);
        AlikeJoin([Token(Array, s, s + |ElemsText(es, true)| + 2, n)], ElemsTokens(es, s + 1, true), js,
                  [Token(Array, s', s' + |ElemsText(t'.elems, true)| + 2, n)], ElemsTokens(t'.elems, s' + 1, true), js');
      case SObj(ms) =>
        STextObj(ms, s);
        STextObj(t'.members, s');
        Inside(js, s, LBRACE, MembersText(ms, true), RBRACE);
        Inside(js', s', LBRACE, MembersText(t'.members, true), RBRACE);
        MembersAlike(ms, js, s + 1, t'.members, js', s' + 1, true);
        var n := PlainMembers(ms).Count();
        RootAlike(Object, js, s, |MembersText(ms, true)|, js', s', |MembersText(t'.members, true)|, n);
        AlikeJoin([Token(Object, s, s + |MembersText(ms, true)| + 2, n)], MembersTokens(ms, s + 1, true), js,
                  [Token(Object, s', s' + |MembersText(t'.members, true)| + 2, n)], MembersTokens(t'.members, s' + 1, true), js');
      case _ =>
        LeafAlike(t, js, s, js', s');
    }
  }

  lemma {:induction false} ElemsAlike(es: SElems, js: bytes, s: nat, es': SElems, js': bytes, s': nat, first: bool)
    requires SWfElems(es) && SWfElems(es') && PlainElems(es) == PlainElems(es')
    requires At(js, s, ElemsText(es, first)) && Stands(js, s + |ElemsText(es, first)|, RBRACKET)
    requires At(js', s', ElemsText(es', first)) && Stands(js', s' + |ElemsText(es', first)|, RBRACKET)
    ensures AllAlike(ElemsTokens(es, s, first), js, ElemsTokens(es', s', first), js')
    decreases es, 0
  {
    hide Text, ElemsText, MembersText, Tokens, ElemsTokens, MembersTokens, At, Alike;
    STextElems(es, s, first);
    STextElems(es', s', first);
    if es.SMoreElems? {
      ElemsLayout(js, s, es, first);
      ElemsLayout(js', s', es', first);
      var a, a' := ElemAt(es, s, first), ElemAt(es', s', first);
      var b, b' := a + |Text(es.first)| + |es.after|, a' + |Text(es'.first)| + |es'.after|;
      TokensAlike(es.first, js, a, es'.first, js', a');
      ElemsAlike(es.rest, js, b, es'.rest, js', b', false);
      AlikeJoin(Tokens(es.first, a), ElemsTokens(es.rest, b, false), js, Tokens(es'.first, a'), ElemsTokens(es'.rest, b', false), js');
    }
  }

  lemma {:induction false} MembersAlike(ms: SMembers, js: bytes, s: nat, ms': SMembers, js': bytes, s': nat, first: bool)
    requires SWfMembers(ms) && SWfMembers(ms') && PlainMembers(ms) == PlainMembers(ms')
    requires At(js, s, MembersText(ms, first)) && Stands(js, s + |MembersText(ms, first)|, RBRACE)
    requires At(js', s', MembersText(ms', first)) && Stands(js', s' + |MembersText(ms', first)|, RBRACE)
    ensures AllAlike(MembersTokens(ms, s, first), js, MembersTokens(ms', s', first), js')
    decreases ms, 0
  {
    hide Text, ElemsText, MembersText, Tokens, ElemsTokens, MembersTokens, At, Alike;
    STextMembers(ms, s, first);
    STextMembers(ms', s', first);
    if ms.SMoreMembers? {
      MembersLayout(js, s, ms, first);
      MembersLayout(js', s', ms', first);
      var k, k' := KeyAt(ms, s, first), KeyAt(ms', s', first);
      var a, a' := ValueAt(ms, k), ValueAt(ms', k');
      var b, b' := a + |Text(ms.value)| + |ms.after|, a' + |Text(ms'.value)| + |ms'.after|;
      KeyAlike(ms.key, js, k, 1, js', k');
      TokensAlike(ms.value, js, a, ms'.value, js', a');
      MembersAlike(ms.rest, js, b, ms'.rest, js', b', false);
      AlikeJoin([KeyToken(ms.key, k)], Tokens(ms.value, a), js, [KeyToken(ms'.key, k')], Tokens(ms'.value, a'), js');
      AlikeJoin([KeyToken(ms.key, k)] + Tokens(ms.value, a), MembersTokens(ms.rest, b, false), js,
                [KeyToken(ms'.key, k')] + Tokens(ms'.value, a'), MembersTokens(ms'.rest, b', false), js');
    }
  }

  /** The tokens of two spacings are alike. */
  lemma SpacingsAlike(before: bytes, t: Spaced, after: bytes, before': bytes, t': Spaced, after': bytes)
    requires SWf(t) && White(after) && SWf(t') && White(after') && Plain(t) == Plain(t')
    ensures AllAlike(Tokens(t, |before|), before + (Text(t) + after), Tokens(t', |before'|), before' + (Text(t') + after'))
  {
    hide Text, Tokens, White, AllAlike, Ready, Plain, SWf;
    StandsReady(before, t, after);
    StandsReady(before', t', after');
    TokensAlike(t, before + (Text(t) + after), |before|, t', before' + (Text(t') + after'), |before'|);
  }

  lemma StandsReady(before: bytes, t: Spaced, after: bytes)
    requires White(after)
    ensures Ready(t, before + (Text(t) + after), |before|)
  {
    hide Text, White, EndsPrimitive, At;
    Pieces(before, Text(t), after);
    if after != [] { WhiteEnds(after); }
  }

  /** The text of a spacing tokenizes to as many tokens as its tree has, alike to its preorder list. */
  lemma SpacedTokens(before: bytes, t: Spaced, after: bytes)
    requires White(before) && SWf(t) && White(after) && !t.SPrim?
    ensures var js, toks := before + (Text(t) + after), Tokens(t, |before|);
            && Run(js, |toks|, Init) == (Parser(|js|, toks, -1), |toks|)
            && AllAlike(toks, js, Preorder(Plain(t), 0), Render(Plain(t)))
  {
    hide Text, Tokens, Render, Preorder, Run, White, Alike, SWf;
    var j := Plain(t);
    PlainWf(t);
    CompactIs(j, 0);
    TokenizesSpaced(before, t, after, |Tokens(t, |before|)|);
    NoWhite();
    SpacingsAlike(before, t, after, [], Compact(j), []);
    assert [] + (Render(j) + []) == Render(j);
  }

  lemma NoWhite()
    ensures White([]) && White([SPACE])
  {
  }

  lemma {:induction false} PlainWf(t: Spaced)
    requires SWf(t)
    ensures Wf(Plain(t)) && (Plain(t).Prim? <==> t.SPrim?)
    decreases t, 1
  {
    match t {
      case SArr(es) => PlainElemsWf(es);
      case SObj(ms) => PlainMembersWf(ms);
      case _ =>
    }
  }

  lemma {:induction false} PlainElemsWf(es: SElems)
    requires SWfElems(es)
    ensures WfElems(PlainElems(es))
    decreases es, 0
  {
    if es.SMoreElems? {
      PlainWf(es.first);
      PlainElemsWf(es.rest);
    }
  }

  lemma {:induction false} PlainMembersWf(ms: SMembers)
    requires SWfMembers(ms)
    ensures WfMembers(PlainMembers(ms))
    decreases ms, 0
  {
    if ms.SMoreMembers? {
      PlainWf(ms.value);
      PlainMembersWf(ms.rest);
    }
  }
}
