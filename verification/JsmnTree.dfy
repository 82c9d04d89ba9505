/**
 Tokenizing the text of a tree, with any white space between its parts, yields the preorder token
 list of the tree.
 */
module JsmnTree {
  import opened Bytes
  import opened Jsmn
  import opened JsonTree
  import opened SpacedJson
  import JsmnProps

  // ---- Lexemes ----

  lemma {:induction false} ScanBody(js: bytes, i: nat, b: bytes)
    requires Body(b) && At(js, i, b)
    ensures ScanString(js, i) == ScanString(js, i + |b|)
    ensures i + |b| < |js| && js[i + |b|] == QUOTE ==> ScanString(js, i) == Found(i + |b|)
    decreases |b|
  {
    if b != [] {
      AtIndex(js, i, b, 0);
      if b[0] == BACKSLASH {
        AtIndex(js, i, b, 1);
        var n := if SimpleEscape(b[1]) then 2 else 6;
        AtSplit(js, i, b[..n], b[n..]) by { assert b == b[..n] + b[n..]; }
        if n == 6 {
          forall k | 2 <= k < 6 ensures js[i + k] == b[k] { AtIndex(js, i, b, k); }
          assert IsHex(js[i + 2]) && IsHex(js[i + 3]) && IsHex(js[i + 4]) && IsHex(js[i + 5]);
          HexRun(js, i + 2);
        }
        ScanBody(js, i + n, b[n..]);
      } else {
        AtSplit(js, i, b[..1], b[1..]) by { assert b == b[..1] + b[1..]; }
        ScanBody(js, i + 1, b[1..]);
      }
    }
  }

  lemma HexRun(js: bytes, i: nat)
    requires i + 4 <= |js| && IsHex(js[i]) && IsHex(js[i + 1]) && IsHex(js[i + 2]) && IsHex(js[i + 3])
    ensures ScanHex(js, i, 4) == Found(i + 4)
  {
    assert ScanHex(js, i + 3, 1) == ScanHex(js, i + 4, 0);
    assert ScanHex(js, i + 2, 2) == ScanHex(js, i + 3, 1);
    assert ScanHex(js, i + 1, 3) == ScanHex(js, i + 2, 2);
  }

  /** Plain characters do not end a primitive. */
  lemma {:induction false} ScanThrough(js: bytes, i: nat, n: nat)
    requires i <= n <= |js| && forall k :: i <= k < n ==> 32 < js[k] < 127 && !EndsPrimitive(js[k])
    ensures ScanPrimitive(js, i) == ScanPrimitive(js, n)
    decreases n - i
  {
    if i < n { ScanThrough(js, i + 1, n); }
  }

  lemma ScanPrim(js: bytes, i: nat, t: bytes)
    requires forall k :: 0 <= k < |t| ==> 32 < t[k] < 127 && !EndsPrimitive(t[k])
    requires At(js, i, t) && i + |t| < |js| && EndsPrimitive(js[i + |t|])
    ensures ScanPrimitive(js, i) == Found(i + |t|)
  {
    assert forall k :: 0 <= k < |t| ==> js[i + k] == t[k];
    assert forall k :: i <= k < i + |t| ==> js[k] == t[k - i];
    ScanThrough(js, i, i + |t|);
  }

  // ---- Tokens that are all closed do not matter to the back-scans ----

  ghost predicate Closed(toks: seq<Token>) { forall i :: 0 <= i < |toks| ==> !IsOpen(toks[i]) }

  lemma {:induction false} TokensClosed(t: Spaced, s: nat)
    ensures Closed(Tokens(t, s))
    decreases t, 1
  {
    hide Text, ElemsText, MembersText, Tokens, ElemsTokens, MembersTokens;
    match t
    case SPrim(_) => STextLeaf(t, s);
    case SStr(_) => STextLeaf(t, s);
    case SArr(es) =>
      STextArr(es, s);
      ElemsClosed(es, s + 1, true);
    case SObj(ms) =>
      STextObj(ms, s);
      MembersClosed(ms, s + 1, true);
  }

  lemma {:induction false} ElemsClosed(es: SElems, s: nat, first: bool)
    ensures Closed(ElemsTokens(es, s, first))
    decreases es, 0
  {
    hide Text, ElemsText, MembersText, Tokens, ElemsTokens, MembersTokens;
    STextElems(es, s, first);
    if es.SMoreElems? {
      var s1 := ElemAt(es, s, first);
      TokensClosed(es.first, s1);
      ElemsClosed(es.rest, s1 + |Text(es.first)| + |es.after|, false);
    }
  }

  lemma {:induction false} MembersClosed(ms: SMembers, s: nat, first: bool)
    ensures Closed(MembersTokens(ms, s, first))
    decreases ms, 0
  {
    hide Text, ElemsText, MembersText, Tokens, ElemsTokens, MembersTokens;
    STextMembers(ms, s, first);
    if ms.SMoreMembers? {
      var s2 := ValueAt(ms, KeyAt(ms, s, first));
      TokensClosed(ms.value, s2);
      MembersClosed(ms.rest, s2 + |Text(ms.value)| + |ms.after|, false);
    }
  }

  /** LastOpen is determined by its value's property: the last index that is open. */
  lemma LastOpenIs(toks: seq<Token>, n: nat, k: int)
    requires n <= |toks| && -1 <= k < n
    requires k >= 0 ==> IsOpen(toks[k])
    requires forall i :: k < i < n ==> !IsOpen(toks[i])
    ensures LastOpen(toks, n) == k
  {
  }

  lemma LastOpenContainerIs(toks: seq<Token>, n: nat, k: int)
    requires n <= |toks| && -1 <= k < n
    requires k >= 0 ==> IsOpen(toks[k]) && IsContainer(toks[k])
    requires forall i :: k < i < n ==> !IsOpen(toks[i])
    ensures LastOpenContainer(toks, n) == k
  {
  }

  // ---- The effect of one value ----

  /** Where the parser stands after it has read a value of `len` bytes with these tokens, which starts at `p.pos`. */
  function Behind(p: Parser, len: nat, toks: seq<Token>, container: bool): Parser
    requires Valid(p)
  {
    Parser(p.pos + len, Bump(p.toks, p.super) + toks, if container then LastOpen(p.toks, |p.toks|) else p.super)
  }

  function AfterText(p: Parser, t: Spaced): Parser
    requires Valid(p)
  {
    Behind(p, |Text(t)|, Tokens(t, p.pos), SContainer(t))
  }

  function After(p: Parser, j: Json): Parser
    requires Valid(p)
  {
    Behind(p, |Render(j)|, Preorder(j, p.pos), Container(j))
  }

  /** The container at index `k` with `n` more children, whose tokens follow. */
  function Filled(toks: seq<Token>, k: nat, n: nat, inner: seq<Token>): (r: seq<Token>)
    requires k < |toks|
    ensures |r| == |toks| + |inner|
  {
    toks[k := toks[k].(size := toks[k].size + n)] + inner
  }

  /** Behind the closing bracket of the container at index `k`. */
  function AfterClose(p: Parser, k: nat): Parser
    requires k < |p.toks|
  {
    Parser(p.pos + 1, p.toks[k := p.toks[k].(end := p.pos + 1)], LastOpen(p.toks, k))
  }

  /** Where a byte stands that ends a primitive. */
  predicate Delimits(js: bytes, i: nat) { i < |js| && EndsPrimitive(js[i]) }

  /** The byte at this position. */
  predicate Stands(js: bytes, i: nat, c: byte) { i < |js| && js[i] == c }

  /** White space is passed over and changes nothing else. */
  lemma {:induction false} GapRun(js: bytes, cap: nat, p: Parser, gap: bytes)
    requires Valid(p) && White(gap) && At(js, p.pos, gap)
    ensures Run(js, cap, p) == Run(js, cap, p.(pos := p.pos + |gap|))
    decreases |gap|
  {
    hide Run, StepAt, At;
    if gap == [] {
      assert p.(pos := p.pos) == p;
    } else {
      AtIndex(js, p.pos, gap, 0);
      AtSplit(js, p.pos, gap[..1], gap[1..]) by { assert gap == gap[..1] + gap[1..]; }
      assert At(js, p.pos + 1, gap[1..]);
      BlankStep(js, cap, p);
      GapRun(js, cap, p.(pos := p.pos + 1), gap[1..]);
    }
  }

  lemma BlankStep(js: bytes, cap: nat, p: Parser)
    requires Valid(p) && p.pos < |js| && White([js[p.pos]])
    ensures Run(js, cap, p) == Run(js, cap, p.(pos := p.pos + 1))
  {
    assert [js[p.pos]][0] == js[p.pos];
    assert StepAt(js, cap, p) == Next(p.(pos := p.pos + 1));
  }

  lemma ColonStep(js: bytes, cap: nat, p: Parser)
    requires Valid(p) && Stands(js, p.pos, COLON)
    ensures Run(js, cap, p) == Run(js, cap, p.(pos := p.pos + 1, super := |p.toks| - 1))
  {
    assert StepAt(js, cap, p) == Next(p.(pos := p.pos + 1, super := |p.toks| - 1));
  }

  lemma {:induction false} TextRun(js: bytes, cap: nat, p: Parser, t: Spaced)
    requires Valid(p) && SWf(t) && At(js, p.pos, Text(t))
    requires |p.toks| + |Tokens(t, p.pos)| <= cap
    requires t.SPrim? ==> PrimitiveAllowed(p) && Delimits(js, p.pos + |Text(t)|)
    ensures Valid(AfterText(p, t)) && Run(js, cap, p) == Run(js, cap, AfterText(p, t))
    decreases t, 1
  {
    hide Text, ElemsText, MembersText, Tokens, ElemsTokens, MembersTokens, Run, StepAt;
    match t
    case SPrim(text) =>
      STextLeaf(t, p.pos);
      PrimRun(js, cap, p, text);
    case SStr(b) =>
      STextLeaf(t, p.pos);
      StrRun(js, cap, p, b);
    case SArr(es) =>
      STextArr(es, p.pos);
      var q := Opened(js, cap, p, Array, ElemsText(es, true), RBRACKET);
      var e := ElemsRun(js, cap, q, es, true, |p.toks|);
      CloseRun(js, cap, e, |p.toks|);
      OpenedClosed(p, e, Array, PlainElems(es).Count(), ElemsTokens(es, p.pos + 1, true), |ElemsText(es, true)|);
    case SObj(ms) =>
      STextObj(ms, p.pos);
      var q := Opened(js, cap, p, Object, MembersText(ms, true), RBRACE);
      var e := MembersRun(js, cap, q, ms, true, |p.toks|);
      CloseRun(js, cap, e, |p.toks|);
      OpenedClosed(p, e, Object, PlainMembers(ms).Count(), MembersTokens(ms, p.pos + 1, true), |MembersText(ms, true)|);
  }

  lemma PrimRun(js: bytes, cap: nat, p: Parser, t: bytes)
    requires Valid(p) && PrimText(t) && At(js, p.pos, t) && |p.toks| < cap && PrimitiveAllowed(p)
    requires p.pos + |t| < |js| && EndsPrimitive(js[p.pos + |t|])
    ensures Valid(AfterText(p, SPrim(t))) && Run(js, cap, p) == Run(js, cap, AfterText(p, SPrim(t)))
  {
    hide LastOpen, At, ScanPrimitive, PrimitiveAllowed, Bump;
    AtIndex(js, p.pos, t, 0);
    ScanPrim(js, p.pos, t);
    assert StepAt(js, cap, p) == Next(AfterText(p, SPrim(t)));
  }

  lemma StrRun(js: bytes, cap: nat, p: Parser, b: bytes)
    requires Valid(p) && Body(b) && At(js, p.pos, Quoted(b)) && |p.toks| < cap
    ensures Valid(AfterText(p, SStr(b))) && Run(js, cap, p) == Run(js, cap, AfterText(p, SStr(b)))
  {
    hide At, Body, ScanString, Bump, LastOpen;
    QuotesStand(js, p.pos, b);
    ScanBody(js, p.pos + 1, b);
    assert StepAt(js, cap, p) == Next(AfterText(p, SStr(b)));
  }

  lemma QuotesStand(js: bytes, i: nat, b: bytes)
    requires At(js, i, Quoted(b))
    ensures At(js, i + 1, b) && i + 1 + |b| < |js| && js[i] == QUOTE && js[i + 1 + |b|] == QUOTE
  {
    AtSplit(js, i, [QUOTE] + b, [QUOTE]);
    AtIndex(js, i + 1 + |b|, [QUOTE], 0);
    AtSplit(js, i, [QUOTE], b);
    AtIndex(js, i, [QUOTE], 0);
  }

  /** The state just inside an opening bracket. */
  function OpenState(p: Parser, typ: TokType): Parser
    requires Valid(p)
  {
    Parser(p.pos + 1, Bump(p.toks, p.super) + [Token(typ, p.pos, -1, 0)], |p.toks|)
  }

  lemma Opened(js: bytes, cap: nat, p: Parser, typ: TokType, inner: bytes, close: byte) returns (q: Parser)
    requires Valid(p) && |p.toks| < cap && (typ == Object || typ == Array)
    requires At(js, p.pos, [if typ == Object then LBRACE else LBRACKET] + (inner + [close]))
    ensures q == OpenState(p, typ) && Valid(q) && Run(js, cap, p) == Run(js, cap, q)
    ensures LastOpen(q.toks, |q.toks|) == |p.toks| && At(js, q.pos, inner) && Stands(js, q.pos + |inner|, close)
  {
    var open := [if typ == Object then LBRACE else LBRACKET];
    AtSplit(js, p.pos, open, inner + [close]);
    AtIndex(js, p.pos, open, 0);
    AtSplit(js, p.pos + 1, inner, [close]);
    AtIndex(js, p.pos + 1 + |inner|, [close], 0);
    q := OpenState(p, typ);
    assert StepAt(js, cap, p) == Next(q);
  }

  lemma OpenedClosed(p: Parser, e: Parser, typ: TokType, n: nat, inner: seq<Token>, len: nat)
    requires Valid(p) && e.pos == p.pos + 1 + len && e.toks == Filled(OpenState(p, typ).toks, |p.toks|, n, inner)
    ensures AfterClose(e, |p.toks|)
         == Parser(p.pos + len + 2,
                   Bump(p.toks, p.super) + ([Token(typ, p.pos, p.pos + len + 2, n)] + inner),
                   LastOpen(p.toks, |p.toks|))
  {
    var k := LastOpen(p.toks, |p.toks|);
    assert forall i :: 0 <= i < |p.toks| ==> IsOpen(e.toks[i]) == IsOpen(p.toks[i]);
    LastOpenIs(e.toks, |p.toks|, k);
    assert AfterClose(e, |p.toks|).toks == Bump(p.toks, p.super) + ([Token(typ, p.pos, p.pos + len + 2, n)] + inner);
  }

  /** The closing bracket of the container at `k`, when everything after it is closed. */
  lemma CloseRun(js: bytes, cap: nat, p: Parser, k: nat)
    requires Valid(p) && k < |p.toks| && LastOpen(p.toks, |p.toks|) == k && IsContainer(p.toks[k])
    requires Stands(js, p.pos, if p.toks[k].typ.Object? then RBRACE else RBRACKET)
    ensures Run(js, cap, p) == Run(js, cap, AfterClose(p, k))
  {
    var q := AfterClose(p, k);
    LastOpenIs(q.toks, k, LastOpen(p.toks, k));
    assert StepAt(js, cap, p) == Next(q);
  }

  lemma SeparatorRun(js: bytes, cap: nat, p: Parser, first: bool, k: nat)
    requires Valid(p) && k < |p.toks| && IsContainer(p.toks[k]) && LastOpen(p.toks, |p.toks|) == k
    requires p.super == k || (!first && p.super >= 0 && p.toks[p.super].typ.String?)
    requires At(js, p.pos, Separator(first))
    ensures Run(js, cap, p) == Run(js, cap, Parser(p.pos + |Separator(first)|, p.toks, k))
  {
    if !first {
      AtIndex(js, p.pos, [COMMA], 0);
      LastOpenContainerIs(p.toks, |p.toks|, k);
    }
  }

  /** Appending closed tokens and bumping a token leave the last open one where it was. */
  lemma LastOpenKept(toks: seq<Token>, k: nat, more: seq<Token>)
    requires k < |toks| && LastOpen(toks, |toks|) == k && Closed(more)
    ensures var ts := Bump(toks, k) + more; LastOpen(ts, |ts|) == k
  {
    var ts := Bump(toks, k) + more;
    LastOpenIs(ts, |ts|, k);
  }

  /** What follows a child is white space, a comma or what follows the last one. */
  lemma Follows(js: bytes, i: nat, after: bytes, rest: bytes)
    requires White(after) && At(js, i, after + rest) && Delimits(js, i + |after| + |rest|)
    requires rest != [] ==> EndsPrimitive(rest[0])
    ensures Delimits(js, i)
  {
    if after + rest != [] {
      AtIndex(js, i, after + rest, 0);
      assert (after + rest)[0] == if after != [] then after[0] else rest[0];
    }
  }

  lemma RestStarts(es: SElems, ms: SMembers)
    ensures SWfElems(es) && ElemsText(es, false) != [] ==> EndsPrimitive(ElemsText(es, false)[0])
    ensures SWfMembers(ms) && MembersText(ms, false) != [] ==> EndsPrimitive(MembersText(ms, false)[0])
  {
    hide Text;
  }

  /** How the elements lie in the text: separator, first element, and what follows it. */
  lemma ElemsLayout(js: bytes, i: nat, es: SElems, first: bool)
    requires es.SMoreElems? && SWfElems(es) && At(js, i, ElemsText(es, first)) && Delimits(js, i + |ElemsText(es, first)|)
    ensures var i1 := ElemAt(es, i, first);
            var i2 := i1 + |Text(es.first)|;
            var i3 := i2 + |es.after|;
            && At(js, i, Separator(first)) && At(js, i + |Separator(first)|, es.before) && At(js, i1, Text(es.first))
            && At(js, i2, es.after) && At(js, i3, ElemsText(es.rest, false))
            && Delimits(js, i2)
            && i + |ElemsText(es, first)| == i3 + |ElemsText(es.rest, false)|
  {
    hide Text, ElemsText, MembersText, Tokens, ElemsTokens, MembersTokens, At, EndsPrimitive, White;
    STextElems(es, i, first);
    var rest := ElemsText(es.rest, false);
    var i1 := ElemAt(es, i, first);
    var i2 := i1 + |Text(es.first)|;
    AtChain(js, i, Separator(first), es.before, Text(es.first) + (es.after + rest));
    AtChain(js, i1, Text(es.first), es.after, rest);
    AtSplit(js, i1, Text(es.first), es.after + rest);
    RestStarts(es.rest, SNoMembers([]));
    Follows(js, i2, es.after, rest);
  }

  lemma {:induction false} ElemRun(js: bytes, cap: nat, p: Parser, e: Spaced, after: bytes, k: nat) returns (q: Parser)
    requires Valid(p) && SWf(e) && p.super == k && p.toks[k].typ.Array? && LastOpen(p.toks, |p.toks|) == k
    requires At(js, p.pos, Text(e)) && |p.toks| + |Tokens(e, p.pos)| <= cap
    requires Delimits(js, p.pos + |Text(e)|)
    requires White(after) && At(js, p.pos + |Text(e)|, after)
    ensures q == Parser(p.pos + |Text(e)| + |after|, Bump(p.toks, k) + Tokens(e, p.pos), k)
    ensures Valid(q) && Run(js, cap, p) == Run(js, cap, q) && LastOpen(q.toks, |q.toks|) == k && q.toks[k].typ.Array?
    decreases e, 2
  {
    hide Text, ElemsText, MembersText, Tokens, ElemsTokens, MembersTokens, Run, StepAt;
    TextRun(js, cap, p, e);
    var p1 := AfterText(p, e);
    TokensClosed(e, p.pos);
    LastOpenKept(p.toks, k, Tokens(e, p.pos));
    GapRun(js, cap, p1, after);
    q := p1.(pos := p1.pos + |after|);
  }

  lemma ElemsJoin(p: Parser, q: Parser, k: nat, es: SElems, first: bool)
    requires Valid(p) && k < |p.toks| && es.SMoreElems?
    requires var s := ElemAt(es, p.pos, first);
             q.pos == s + |Text(es.first)| + |es.after| && q.toks == Bump(p.toks, k) + Tokens(es.first, s)
    ensures Filled(q.toks, k, PlainElems(es.rest).Count(), ElemsTokens(es.rest, q.pos, false))
         == Filled(p.toks, k, PlainElems(es).Count(), ElemsTokens(es, p.pos, first))
  {
    hide Text, ElemsText, MembersText, Tokens, ElemsTokens, MembersTokens, Filled;
    STextElems(es, p.pos, first);
    JoinChildren(p.toks, k, Tokens(es.first, ElemAt(es, p.pos, first)), PlainElems(es.rest).Count(), ElemsTokens(es.rest, q.pos, false));
  }

  /** The elements up to what follows the last one, and the white space there. */
  lemma {:induction false} ElemsRun(js: bytes, cap: nat, p: Parser, es: SElems, first: bool, k: nat) returns (q: Parser)
    requires Valid(p) && SWfElems(es) && p.super == k && p.toks[k].typ.Array? && LastOpen(p.toks, |p.toks|) == k
    requires At(js, p.pos, ElemsText(es, first)) && Delimits(js, p.pos + |ElemsText(es, first)|)
    requires |p.toks| + |ElemsTokens(es, p.pos, first)| <= cap
    ensures q == Parser(p.pos + |ElemsText(es, first)|, Filled(p.toks, k, PlainElems(es).Count(), ElemsTokens(es, p.pos, first)), k)
    ensures Valid(q) && LastOpen(q.toks, |q.toks|) == k && Run(js, cap, p) == Run(js, cap, q)
    decreases es, 0
  {
    hide Text, ElemsText, MembersText, Tokens, ElemsTokens, MembersTokens, Run, StepAt, Bump, Separator, At, White, LastOpen, Delimits, Filled;
    STextElems(es, p.pos, first);
    if es.SNoElems? {
      GapRun(js, cap, p, es.gap);
      q := p.(pos := p.pos + |es.gap|);
      FilledNothing(p.toks, k);
    } else {
      ElemsLayout(js, p.pos, es, first);
      SeparatorRun(js, cap, p, first, k);
      var p1 := p.(pos := p.pos + |Separator(first)|);
      GapRun(js, cap, p1, es.before);
      var p2 := ElemRun(js, cap, p1.(pos := p1.pos + |es.before|), es.first, es.after, k);
      q := ElemsRun(js, cap, p2, es.rest, false, k);
      ElemsJoin(p, p2, k, es, first);
    }
  }

  lemma FilledNothing(toks: seq<Token>, k: nat)
    requires k < |toks|
    ensures Filled(toks, k, 0, []) == toks
  {
  }

  /** Reading one child and then the others is reading them all. */
  lemma JoinChildren(toks: seq<Token>, k: nat, inner: seq<Token>, n: nat, others: seq<Token>)
    requires k < |toks|
    ensures Filled(Bump(toks, k) + inner, k, n, others) == Filled(toks, k, n + 1, inner + others)
  {
  }

  lemma KeyLayout(js: bytes, i: nat, a: bytes, b: bytes, k: bytes, c: bytes, tail: bytes)
    requires At(js, i, a + (b + (k + (c + ([COLON] + tail)))))
    ensures At(js, i, a) && At(js, i + |a|, b) && At(js, i + |a| + |b|, k) && At(js, i + |a| + |b| + |k|, c)
    ensures Stands(js, i + |a| + |b| + |k| + |c|, COLON) && At(js, i + |a| + |b| + |k| + |c| + 1, tail)
  {
    hide At;
    AtChain(js, i, a, b, k + (c + ([COLON] + tail)));
    AtChain(js, i + |a| + |b|, k, c, [COLON] + tail);
    AtSplit(js, i + |a| + |b| + |k| + |c|, [COLON], tail);
    AtIndex(js, i + |a| + |b| + |k| + |c|, [COLON], 0);
  }

  lemma ValueLayout(js: bytes, i: nat, b: bytes, v: bytes, a: bytes, rest: bytes)
    requires At(js, i, b + (v + (a + rest)))
    ensures At(js, i, b) && At(js, i + |b|, v) && At(js, i + |b| + |v|, a)
    ensures At(js, i + |b| + |v|, a + rest) && At(js, i + |b| + |v| + |a|, rest)
  {
    hide At;
    AtChain(js, i, b, v, a + rest);
    AtSplit(js, i + |b| + |v|, a, rest);
  }

  /** How the members lie in the text. */
  lemma MembersLayout(js: bytes, i: nat, ms: SMembers, first: bool)
    requires ms.SMoreMembers? && SWfMembers(ms) && At(js, i, MembersText(ms, first)) && Delimits(js, i + |MembersText(ms, first)|)
    ensures var i1 := KeyAt(ms, i, first);
            var c := i1 + |ms.key| + 2 + |ms.afterKey|;
            var i2 := ValueAt(ms, i1);
            var i3 := i2 + |Text(ms.value)|;
            var i4 := i3 + |ms.after|;
            && At(js, i, Separator(first)) && At(js, i + |Separator(first)|, ms.before)
            && At(js, i1, Quoted(ms.key)) && At(js, i1 + |ms.key| + 2, ms.afterKey) && Stands(js, c, COLON)
            && At(js, c + 1, ms.beforeValue) && At(js, i2, Text(ms.value)) && At(js, i3, ms.after)
            && At(js, i4, MembersText(ms.rest, false))
            && Delimits(js, i3)
            && i + |MembersText(ms, first)| == i4 + |MembersText(ms.rest, false)|
  {
    hide Text, ElemsText, MembersText, Tokens, ElemsTokens, MembersTokens, At, EndsPrimitive, White;
    STextMembers(ms, i, first);
    var v, rest := Text(ms.value), MembersText(ms.rest, false);
    var i1 := KeyAt(ms, i, first);
    var i2 := ValueAt(ms, i1);
    var tail := ms.beforeValue + (v + (ms.after + rest));
    KeyLayout(js, i, Separator(first), ms.before, Quoted(ms.key), ms.afterKey, tail);
    ValueLayout(js, i2 - |ms.beforeValue|, ms.beforeValue, v, ms.after, rest);
    RestStarts(SNoElems([]), ms.rest);
    Follows(js, i2 + |v|, ms.after, rest);
  }

  /** A key and its colon: the key's token becomes the superior one. */
  lemma KeyRun(js: bytes, cap: nat, p: Parser, key: bytes, gap: bytes) returns (q: Parser)
    requires Valid(p) && Body(key) && At(js, p.pos, Quoted(key)) && |p.toks| < cap
    requires White(gap) && At(js, p.pos + |key| + 2, gap) && Stands(js, p.pos + |key| + 2 + |gap|, COLON)
    ensures q == Parser(p.pos + |key| + 2 + |gap| + 1,
                        Bump(p.toks, p.super) + [Token(String, p.pos + 1, p.pos + 1 + |key|, 0)],
                        |p.toks|)
    ensures Valid(q) && Run(js, cap, p) == Run(js, cap, q)
  {
    hide At, White, LastOpen, Run, StepAt, Body;
    StrRun(js, cap, p, key);
    var p1 := AfterText(p, SStr(key));
    GapRun(js, cap, p1, gap);
    var p2 := p1.(pos := p1.pos + |gap|);
    q := p2.(pos := p2.pos + 1, super := |p.toks|);
    ColonStep(js, cap, p2);
  }

  /** One member: key, colon and value, and the white space around them. */
  lemma {:induction false} MemberRun(js: bytes, cap: nat, p: Parser, ms: SMembers, k: nat) returns (q: Parser)
    requires Valid(p) && ms.SMoreMembers? && SWfMembers(ms)
    requires p.super == k && p.toks[k].typ.Object? && LastOpen(p.toks, |p.toks|) == k
    requires At(js, p.pos, Quoted(ms.key)) && At(js, p.pos + |ms.key| + 2, ms.afterKey)
    requires Stands(js, p.pos + |ms.key| + 2 + |ms.afterKey|, COLON) && At(js, p.pos + |ms.key| + 2 + |ms.afterKey| + 1, ms.beforeValue)
    requires var s := ValueAt(ms, p.pos);
             var e := s + |Text(ms.value)|;
             && At(js, s, Text(ms.value)) && At(js, e, ms.after) && Delimits(js, e)
             && |p.toks| + 1 + |Tokens(ms.value, s)| <= cap
    ensures var s := ValueAt(ms, p.pos);
            q == Parser(s + |Text(ms.value)| + |ms.after|,
                        Bump(p.toks, k) + ([KeyToken(ms.key, p.pos)] + Tokens(ms.value, s)),
                        if SContainer(ms.value) then k else |p.toks|)
    ensures Valid(q) && Run(js, cap, p) == Run(js, cap, q) && LastOpen(q.toks, |q.toks|) == k
    ensures InObject(q.toks, q.super, k) && q.toks[k].typ.Object?
    decreases ms.value, 2
  {
    hide Text, ElemsText, MembersText, Tokens, ElemsTokens, MembersTokens, Run, StepAt, At, White;
    var v := ms.value;
    var p1 := KeyRun(js, cap, p, ms.key, ms.afterKey);
    GapRun(js, cap, p1, ms.beforeValue);
    var p2 := p1.(pos := p1.pos + |ms.beforeValue|);
    TextRun(js, cap, p2, v);
    var p3 := AfterText(p2, v);
    GapRun(js, cap, p3, ms.after);
    q := p3.(pos := p3.pos + |ms.after|);
    LastOpenKept(p.toks, k, [Token(String, p.pos + 1, p.pos + 1 + |ms.key|, 0)]);
    TokensClosed(v, p2.pos);
    var inner := [KeyToken(ms.key, p.pos)] + Tokens(v, p2.pos);
    LastOpenKept(p.toks, k, inner);
    assert q.toks == Bump(p.toks, k) + inner;
  }

  lemma MembersJoin(p: Parser, q: Parser, k: nat, ms: SMembers, first: bool)
    requires Valid(p) && k < |p.toks| && ms.SMoreMembers?
    requires var s := KeyAt(ms, p.pos, first);
             && q.pos == ValueAt(ms, s) + |Text(ms.value)| + |ms.after|
             && q.toks == Bump(p.toks, k) + ([KeyToken(ms.key, s)] + Tokens(ms.value, ValueAt(ms, s)))
    ensures Filled(q.toks, k, PlainMembers(ms.rest).Count(), MembersTokens(ms.rest, q.pos, false))
         == Filled(p.toks, k, PlainMembers(ms).Count(), MembersTokens(ms, p.pos, first))
  {
    hide Text, ElemsText, MembersText, Tokens, ElemsTokens, MembersTokens, Filled;
    STextMembers(ms, p.pos, first);
    var s := KeyAt(ms, p.pos, first);
    JoinChildren(p.toks, k, [KeyToken(ms.key, s)] + Tokens(ms.value, ValueAt(ms, s)), PlainMembers(ms.rest).Count(),
                 MembersTokens(ms.rest, q.pos, false));
  }

  /** The super token inside an object: the object itself, or the key of a value already read. */
  predicate InObject(toks: seq<Token>, super: int, k: nat) {
    super == k || (0 <= super < |toks| && toks[super].typ.String? && toks[super].size != 0)
  }

  lemma {:induction false} MembersRun(js: bytes, cap: nat, p: Parser, ms: SMembers, first: bool, k: nat) returns (q: Parser)
    requires Valid(p) && SWfMembers(ms) && k < |p.toks| && p.toks[k].typ.Object? && LastOpen(p.toks, |p.toks|) == k
    requires p.super == k || (!first && InObject(p.toks, p.super, k))
    requires At(js, p.pos, MembersText(ms, first)) && Delimits(js, p.pos + |MembersText(ms, first)|)
    requires |p.toks| + |MembersTokens(ms, p.pos, first)| <= cap
    ensures q.pos == p.pos + |MembersText(ms, first)|
    ensures q.toks == Filled(p.toks, k, PlainMembers(ms).Count(), MembersTokens(ms, p.pos, first)) && InObject(q.toks, q.super, k)
    ensures Valid(q) && q.toks[k].typ.Object? && LastOpen(q.toks, |q.toks|) == k && Run(js, cap, p) == Run(js, cap, q)
    decreases ms, 0
  {
    hide Text, ElemsText, MembersText, Tokens, ElemsTokens, MembersTokens, Run, StepAt, LastOpen, Quoted, At, White, Separator, Stands,
      Delimits, Filled;
    STextMembers(ms, p.pos, first);
    if ms.SNoMembers? {
      GapRun(js, cap, p, ms.gap);
      q := p.(pos := p.pos + |ms.gap|);
      FilledNothing(p.toks, k);
    } else {
      MembersLayout(js, p.pos, ms, first);
      SeparatorRun(js, cap, p, first, k);
      var p1 := Parser(p.pos + |Separator(first)|, p.toks, k);
      GapRun(js, cap, p1, ms.before);
      var p2 := MemberRun(js, cap, p1.(pos := p1.pos + |ms.before|), ms, k);
      q := MembersRun(js, cap, p2, ms.rest, false, k);
      MembersJoin(p, p2, k, ms, first);
    }
  }

  /** A tree without white space at any position and in any state. */
  lemma ValueRun(js: bytes, cap: nat, p: Parser, j: Json)
    requires Valid(p) && Wf(j) && At(js, p.pos, Render(j))
    requires |p.toks| + |Preorder(j, p.pos)| <= cap
    requires j.Prim? ==> PrimitiveAllowed(p) && Delimits(js, p.pos + |Render(j)|)
    ensures Valid(After(p, j)) && Run(js, cap, p) == Run(js, cap, After(p, j))
  {
    hide Text, Tokens, Render, Preorder, Run;
    CompactIs(j, p.pos);
    TextRun(js, cap, p, Compact(j));
  }

  // ---- The theorem ----

  /**
   For every well-formed tree and any white space around its brackets, commas, colons, keys and
   values: tokenizing the text gives the tokens of the tree, each leaf and key spanning its own text,
   and their number, when there are at least that many slots, and fails for lack of memory (-1) when
   there are fewer.  The counting pass returns the same number.  A bare primitive needs white space behind it.
   */
  lemma TokenizesSpaced(before: bytes, t: Spaced, after: bytes, cap: nat)
    requires White(before) && SWf(t) && White(after) && (t.SPrim? ==> after != [])
    ensures var js, toks := before + (Text(t) + after), Tokens(t, |before|);
            && (cap >= |toks| ==> Run(js, cap, Init) == (Parser(|js|, toks, -1), |toks|))
            && (cap < |toks| ==> Run(js, cap, Init).1 == -1)
            && CountRun(js, 0, 0) == |toks|
  {
    hide Text, Tokens, At, White, Run, CountRun, LastOpen;
    var js, toks := before + (Text(t) + after), Tokens(t, |before|);
    var big := if cap < |toks| then |toks| else cap;
    SpacedRun(before, t, after, big);
    JsmnProps.CountAgrees(js, big, Init);
    JsmnProps.MoreSlots(js, cap, big, Init);
  }

  lemma SpacedRun(before: bytes, t: Spaced, after: bytes, cap: nat)
    requires White(before) && SWf(t) && White(after) && (t.SPrim? ==> after != []) && cap >= |Tokens(t, |before|)|
    ensures var js, toks := before + (Text(t) + after), Tokens(t, |before|);
            Run(js, cap, Init) == (Parser(|js|, toks, -1), |toks|)
  {
    hide Text, Tokens, At, White, Run, StepAt;
    var js, toks := before + (Text(t) + after), Tokens(t, |before|);
    Pieces(before, Text(t), after);
    GapRun(js, cap, Init, before);
    var p := Init.(pos := |before|);
    if t.SPrim? { WhiteEnds(after); }
    TextRun(js, cap, p, t);
    var q := AfterText(p, t);
    assert q == Parser(|before| + |Text(t)|, toks, -1);
    GapRun(js, cap, q, after);
    TokensClosed(t, |before|);
    RunEnds(js, cap, Parser(|js|, toks, -1));
  }

  lemma RunEnds(js: bytes, cap: nat, p: Parser)
    requires Valid(p) && p.pos == |js| && Closed(p.toks)
    ensures Run(js, cap, p) == (p, |p.toks|)
  {
    LastOpenIs(p.toks, |p.toks|, -1);
  }

  lemma Pieces(a: bytes, b: bytes, c: bytes)
    ensures At(a + (b + c), 0, a) && At(a + (b + c), |a|, b) && At(a + (b + c), |a| + |b|, c)
    ensures c != [] ==> (a + (b + c))[|a| + |b|] == c[0]
  {
  }

  lemma WhiteEnds(gap: bytes)
    requires White(gap) && gap != []
    ensures EndsPrimitive(gap[0])
  {
  }

  /** In particular without white space: the tokens are the preorder list. */
  lemma TokenizesTree(j: Json, cap: nat)
    requires Wf(j) && !j.Prim?
    ensures var toks := Preorder(j, 0);
            && (cap >= |toks| ==> Run(Render(j), cap, Init) == (Parser(|Render(j)|, toks, -1), |toks|))
            && (cap < |toks| ==> Run(Render(j), cap, Init).1 == -1)
            && CountRun(Render(j), 0, 0) == |toks|
  {
    hide Text, Tokens, Render, Preorder, Run, CountRun;
    CompactIs(j, 0);
    TokenizesSpaced([], Compact(j), [], cap);
    assert [] + (Render(j) + []) == Render(j);
  }

  /** A number, bool or null on its own is not accepted: strict mode waits for a delimiter. */
  lemma RejectsBarePrimitive(t: bytes, cap: nat)
    requires PrimText(t)
    ensures Run(t, cap, Init) == (Init, -3)
  {
    ScanThrough(t, 0, |t|);
  }

  /**
   With one more byte it is accepted exactly if that byte is white space or a comma; a bracket that
   closes nothing and a control or non-ASCII byte are invalid, and anything else is taken for a part
   of the primitive.
   */
  lemma AcceptsDelimited(t: bytes, c: byte, cap: nat)
    requires PrimText(t)
    ensures Run(t + [c], cap, Init) ==
      if EndsPrimitive(c) && cap == 0 then (Init, -1)
      else if IsSpace(c) || c == COMMA then (Parser(|t| + 1, [Token(Primitive, 0, |t|, 0)], -1), 1)
      else if EndsPrimitive(c) then (Parser(|t|, [Token(Primitive, 0, |t|, 0)], -1), -2)
      else if c == NUL || 32 <= c < 127 then (Init, -3)
      else (Init, -2)
  {
    var js := t + [c];
    assert js[0] == t[0];
    ScanThrough(js, 0, |t|);
    if EndsPrimitive(c) && cap > 0 {
      var q := Parser(|t|, [Token(Primitive, 0, |t|, 0)], -1);
      assert StepAt(js, cap, Init) == Next(q);
      assert LastOpen(q.toks, 1) == -1;
      if IsSpace(c) || c == COMMA {
        var e := q.(pos := |t| + 1);
        assert StepAt(js, cap, q) == Next(e);
        assert Run(js, cap, e) == (e, 1);
      }
    }
  }
}
