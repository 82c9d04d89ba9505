/**
 A JSON text with white space: a tree with the runs of white space that stand around its brackets,
 commas, colons, keys and values (section 2 of RFC 8259), and the tokens of its text.
 */
module SpacedJson {
  import opened Bytes
  import opened Jsmn
  import opened JsonTree

  datatype Spaced = SPrim(text: bytes) | SStr(body: bytes) | SArr(elems: SElems) | SObj(members: SMembers)

  datatype SElems =
    | SNoElems(gap: bytes)
    | SMoreElems(before: bytes, first: Spaced, after: bytes, rest: SElems)

  datatype SMembers =
    | SNoMembers(gap: bytes)
    | SMoreMembers(before: bytes, key: bytes, afterKey: bytes, beforeValue: bytes, value: Spaced, after: bytes, rest: SMembers)

  /** Tabs, line feeds, carriage returns and spaces. */
  predicate White(gap: bytes) { forall k :: 0 <= k < |gap| ==> gap[k] == 9 || gap[k] == 10 || gap[k] == 13 || gap[k] == 32 }

  function Text(t: Spaced): bytes
    decreases t, 1
  {
    match t
    case SPrim(p) => p
    case SStr(b) => Quoted(b)
    case SArr(es) => [LBRACKET] + (ElemsText(es, true) + [RBRACKET])
    case SObj(ms) => [LBRACE] + (MembersText(ms, true) + [RBRACE])
  }

  function ElemsText(es: SElems, first: bool): bytes
    decreases es, 0
  {
    match es
    case SNoElems(gap) => gap
    case SMoreElems(before, e, after, rest) => Separator(first) + (before + (Text(e) + (after + ElemsText(rest, false))))
  }

  function MembersText(ms: SMembers, first: bool): bytes
    decreases ms, 0
  {
    match ms
    case SNoMembers(gap) => gap
    case SMoreMembers(before, k, afterKey, beforeValue, v, after, rest) =>
      Separator(first) + (before + (Quoted(k) + (afterKey + ([COLON] + (beforeValue + (Text(v) + (after + MembersText(rest, false))))))))
  }

  /** The tree without its white space. */
  function Plain(t: Spaced): Json {
    match t
    case SPrim(p) => Prim(p)
    case SStr(b) => Str(b)
    case SArr(es) => Arr(PlainElems(es))
    case SObj(ms) => Obj(PlainMembers(ms))
  }

  function PlainElems(es: SElems): Elems {
    match es
    case SNoElems(_) => NoElems
    case SMoreElems(_, e, _, rest) => MoreElems(Plain(e), PlainElems(rest))
  }

  function PlainMembers(ms: SMembers): Members {
    match ms
    case SNoMembers(_) => NoMembers
    case SMoreMembers(_, k, _, _, v, _, rest) => MoreMembers(k, Plain(v), PlainMembers(rest))
  }

  /** Well formed without its white space, and the white space is white. */
  predicate SWf(t: Spaced) {
    match t
    case SPrim(p) => PrimText(p)
    case SStr(b) => Body(b)
    case SArr(es) => SWfElems(es)
    case SObj(ms) => SWfMembers(ms)
  }

  predicate SWfElems(es: SElems) {
    match es
    case SNoElems(gap) => White(gap)
    case SMoreElems(before, e, after, rest) => White(before) && SWf(e) && White(after) && SWfElems(rest)
  }

  predicate SWfMembers(ms: SMembers) {
    match ms
    case SNoMembers(gap) => White(gap)
    case SMoreMembers(before, k, afterKey, beforeValue, v, after, rest) =>
      White(before) && Body(k) && White(afterKey) && White(beforeValue) && SWf(v) && White(after) && SWfMembers(rest)
  }

  predicate SContainer(t: Spaced) { t.SArr? || t.SObj? }

  /** Where the first child stands, its white space passed. */
  function ElemAt(es: SElems, s: nat, first: bool): nat
    requires es.SMoreElems?
  {
    s + |Separator(first)| + |es.before|
  }

  function KeyAt(ms: SMembers, s: nat, first: bool): nat
    requires ms.SMoreMembers?
  {
    s + |Separator(first)| + |ms.before|
  }

  /** Where the value of the key at `s` stands. */
  function ValueAt(ms: SMembers, s: nat): nat
    requires ms.SMoreMembers?
  {
    s + |ms.key| + 2 + |ms.afterKey| + 1 + |ms.beforeValue|
  }

  /** The tokens of the text at `s`: a container spans its brackets, a leaf or key its own text. */
  function Tokens(t: Spaced, s: nat): (r: seq<Token>)
    ensures |r| > 0
    decreases t, 1
  {
    match t
    case SPrim(p) => [Token(Primitive, s, s + |p|, 0)]
    case SStr(b) => [Token(String, s + 1, s + 1 + |b|, 0)]
    case SArr(es) => [Token(Array, s, s + |Text(t)|, PlainElems(es).Count())] + ElemsTokens(es, s + 1, true)
    case SObj(ms) => [Token(Object, s, s + |Text(t)|, PlainMembers(ms).Count())] + MembersTokens(ms, s + 1, true)
  }

  function ElemsTokens(es: SElems, s: nat, first: bool): seq<Token>
    decreases es, 0
  {
    match es
    case SNoElems(_) => []
    case SMoreElems(_, e, after, rest) =>
      var s1 := ElemAt(es, s, first);
      Tokens(e, s1) + ElemsTokens(rest, s1 + |Text(e)| + |after|, false)
  }

  function MembersTokens(ms: SMembers, s: nat, first: bool): seq<Token>
    decreases ms, 0
  {
    match ms
    case SNoMembers(_) => []
    case SMoreMembers(_, k, _, _, v, after, rest) =>
      var s1 := KeyAt(ms, s, first);
      var s2 := ValueAt(ms, s1);
      [KeyToken(k, s1)] + Tokens(v, s2) + MembersTokens(rest, s2 + |Text(v)| + |after|, false)
  }

  // ---- One unfolding at a time ----

  lemma STextLeaf(t: Spaced, s: nat)
    ensures t.SPrim? ==> Text(t) == t.text && Tokens(t, s) == [Token(Primitive, s, s + |t.text|, 0)]
    ensures t.SStr? ==> Text(t) == Quoted(t.body) && Tokens(t, s) == [Token(String, s + 1, s + 1 + |t.body|, 0)]
  {
  }

  lemma STextArr(es: SElems, s: nat)
    ensures Text(SArr(es)) == [LBRACKET] + (ElemsText(es, true) + [RBRACKET])
    ensures Tokens(SArr(es), s)
         == [Token(Array, s, s + |ElemsText(es, true)| + 2, PlainElems(es).Count())] + ElemsTokens(es, s + 1, true)
  {
  }

  lemma STextObj(ms: SMembers, s: nat)
    ensures Text(SObj(ms)) == [LBRACE] + (MembersText(ms, true) + [RBRACE])
    ensures Tokens(SObj(ms), s)
         == [Token(Object, s, s + |MembersText(ms, true)| + 2, PlainMembers(ms).Count())] + MembersTokens(ms, s + 1, true)
  {
  }

  lemma STextElems(es: SElems, s: nat, first: bool)
    ensures es.SNoElems? ==> ElemsText(es, first) == es.gap && ElemsTokens(es, s, first) == []
    ensures es.SMoreElems? ==>
      && ElemsText(es, first) == Separator(first) + (es.before + (Text(es.first) + (es.after + ElemsText(es.rest, false))))
      && var s1 := ElemAt(es, s, first);
         ElemsTokens(es, s, first) == Tokens(es.first, s1) + ElemsTokens(es.rest, s1 + |Text(es.first)| + |es.after|, false)
  {
  }

  lemma STextMembers(ms: SMembers, s: nat, first: bool)
    ensures ms.SNoMembers? ==> MembersText(ms, first) == ms.gap && MembersTokens(ms, s, first) == []
    ensures ms.SMoreMembers? ==>
      && MembersText(ms, first)
           == Separator(first) + (ms.before + (Quoted(ms.key) + (ms.afterKey + ([COLON] + (ms.beforeValue
                + (Text(ms.value) + (ms.after + MembersText(ms.rest, false))))))))
      && var s1 := KeyAt(ms, s, first);
         var s2 := ValueAt(ms, s1);
         MembersTokens(ms, s, first)
           == [KeyToken(ms.key, s1)] + Tokens(ms.value, s2) + MembersTokens(ms.rest, s2 + |Text(ms.value)| + |ms.after|, false)
  {
  }

  // ---- Without white space ----

  function Compact(j: Json): Spaced {
    match j
    case Prim(p) => SPrim(p)
    case Str(b) => SStr(b)
    case Arr(es) => SArr(CompactElems(es))
    case Obj(ms) => SObj(CompactMembers(ms))
  }

  function CompactElems(es: Elems): SElems {
    match es
    case NoElems => SNoElems([])
    case MoreElems(e, rest) => SMoreElems([], Compact(e), [], CompactElems(rest))
  }

  function CompactMembers(ms: Members): SMembers {
    match ms
    case NoMembers => SNoMembers([])
    case MoreMembers(k, v, rest) => SMoreMembers([], k, [], [], Compact(v), [], CompactMembers(rest))
  }

  /** The rendering and the preorder list of a tree are those of the tree with no white space. */
  lemma {:induction false} CompactIs(j: Json, s: nat)
    ensures Plain(Compact(j)) == j && (Wf(j) ==> SWf(Compact(j)))
    ensures Text(Compact(j)) == Render(j) && Tokens(Compact(j), s) == Preorder(j, s)
    decreases j, 1
  {
    hide Text, ElemsText, MembersText, Tokens, ElemsTokens, MembersTokens, Render, RenderElems, RenderMembers,
      Preorder, PreorderElems, PreorderMembers;
    match j {
      case Arr(es) =>
        CompactElemsIs(es, s + 1, true);
        STextArr(CompactElems(es), s);
        UnfoldArr(es, s);
      case Obj(ms) =>
        CompactMembersIs(ms, s + 1, true);
        STextObj(CompactMembers(ms), s);
        UnfoldObj(ms, s);
      case _ =>
        STextLeaf(Compact(j), s);
        UnfoldLeaf(j, s);
    }
  }

  lemma {:induction false} CompactElemsIs(es: Elems, s: nat, first: bool)
    ensures PlainElems(CompactElems(es)) == es && (WfElems(es) ==> SWfElems(CompactElems(es)))
    ensures ElemsText(CompactElems(es), first) == RenderElems(es, first)
    ensures ElemsTokens(CompactElems(es), s, first) == PreorderElems(es, s, first)
    decreases es, 0
  {
    hide Text, ElemsText, MembersText, Tokens, ElemsTokens, MembersTokens, Render, RenderElems, RenderMembers,
      Preorder, PreorderElems, PreorderMembers;
    STextElems(CompactElems(es), s, first);
    match es {
      case NoElems => UnfoldNoElems(s, first);
      case MoreElems(e, rest) =>
        var s1 := s + |Separator(first)|;
        UnfoldElems(es, s, first);
        CompactIs(e, s1);
        CompactElemsIs(rest, s1 + |Render(e)|, false);
    }
  }

  lemma {:induction false} CompactMembersIs(ms: Members, s: nat, first: bool)
    ensures PlainMembers(CompactMembers(ms)) == ms && (WfMembers(ms) ==> SWfMembers(CompactMembers(ms)))
    ensures MembersText(CompactMembers(ms), first) == RenderMembers(ms, first)
    ensures MembersTokens(CompactMembers(ms), s, first) == PreorderMembers(ms, s, first)
    decreases ms, 0
  {
    hide Text, ElemsText, MembersText, Tokens, ElemsTokens, MembersTokens, Render, RenderElems, RenderMembers,
      Preorder, PreorderElems, PreorderMembers;
    STextMembers(CompactMembers(ms), s, first);
    match ms {
      case NoMembers => UnfoldNoMembers(s, first);
      case MoreMembers(k, v, rest) =>
        var s2 := s + |Separator(first)| + |k| + 3;
        UnfoldMembers(ms, s, first);
        CompactIs(v, s2);
        CompactMembersIs(rest, s2 + |Render(v)|, false);
        NoGaps(Separator(first), Quoted(k), Render(v), RenderMembers(rest, false));
    }
  }

  lemma NoGaps(a: bytes, b: bytes, c: bytes, d: bytes)
    ensures a + ([] + (b + ([] + ([COLON] + ([] + (c + ([] + d))))))) == a + (b + [COLON]) + c + d
  {
  }
}
