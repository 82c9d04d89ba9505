/** What the strict tokenizer does not accept: a cut text, a malformed string, a wrong bracket, a stray byte, a primitive for a key. */
module JsmnRejects {
  import opened Bytes
  import opened Jsmn
  import opened JsonTree
  import opened JsmnProps
  import opened JsmnTree
  import opened SpacedJson

  // ---- Strings ----

  lemma {:induction false} ScannedIsBody(js: bytes, i: nat, b: bytes)
    requires At(js, i, b) && i + |b| < |js| && js[i + |b|] == QUOTE && ScanString(js, i) == Found(i + |b|)
    ensures Body(b)
    decreases |b|
  {
    if b != [] {
      AtIndex(js, i, b, 0);
      if b[0] == BACKSLASH {
        ScanMoves(js, i);
        assert |b| >= 2;
        AtIndex(js, i, b, 1);
        if SimpleEscape(b[1]) {
          AtSplit(js, i, b[..2], b[2..]) by { assert b == b[..2] + b[2..]; }
          ScannedIsBody(js, i + 2, b[2..]);
        } else {
          HexFound(js, i + 2, i + |b|);
          forall k | 2 <= k < 6 ensures js[i + k] == b[k] { AtIndex(js, i, b, k); }
          AtSplit(js, i, b[..6], b[6..]) by { assert b == b[..6] + b[6..]; }
          ScannedIsBody(js, i + 6, b[6..]);
        }
      } else {
        AtSplit(js, i, b[..1], b[1..]) by { assert b == b[..1] + b[1..]; }
        ScannedIsBody(js, i + 1, b[1..]);
      }
    }
  }

  /** Behind a backslash the string goes on for at least two bytes, or for six. */
  lemma ScanMoves(js: bytes, i: nat)
    requires i < |js| && js[i] == BACKSLASH && ScanString(js, i).Found?
    ensures i + 1 < |js| && ScanString(js, i).end >= i + 2
    ensures SimpleEscape(js[i + 1]) || js[i + 1] == 117
  {
  }

  /** Four digits stand there if the scan of them goes on to a quote. */
  lemma HexFound(js: bytes, i: nat, q: nat)
    requires i <= q < |js| && js[q] == QUOTE && ScanHex(js, i, 4).Found? && ScanString(js, ScanHex(js, i, 4).end) == Found(q)
    ensures i + 4 <= q && ScanHex(js, i, 4) == Found(i + 4)
    ensures IsHex(js[i]) && IsHex(js[i + 1]) && IsHex(js[i + 2]) && IsHex(js[i + 3])
  {
    var e := ScanHex(js, i, 4).end;
    HexStop(js, i, 4);
    assert e == i + 4;
    assert ScanHex(js, i, 4).Found? && IsHex(js[i]) && ScanHex(js, i, 4) == ScanHex(js, i + 1, 3);
    assert IsHex(js[i + 1]) && ScanHex(js, i + 1, 3) == ScanHex(js, i + 2, 2);
    assert IsHex(js[i + 2]) && ScanHex(js, i + 2, 2) == ScanHex(js, i + 3, 1);
    assert IsHex(js[i + 3]);
  }

  /** A scan that stops short of its digits stops at the end of the text or at a NUL. */
  lemma {:induction false} HexStop(js: bytes, i: nat, n: nat)
    requires ScanHex(js, i, n).Found?
    ensures var e := ScanHex(js, i, n).end; e == i + n || e >= |js| || js[e] == NUL
    decreases n
  {
    if n > 0 && i < |js| && js[i] != NUL { HexStop(js, i + 1, n - 1); }
  }

  /** A quoted text is one string token exactly if it is a well-formed body. */
  lemma StringIffBody(b: bytes, cap: nat)
    requires cap > 0
    ensures Run(Quoted(b), cap, Init) == (Parser(|b| + 2, [Token(String, 1, 1 + |b|, 0)], -1), 1) <==> Body(b)
  {
    hide Run;
    var js := Quoted(b);
    var done := Parser(|b| + 2, [Token(String, 1, 1 + |b|, 0)], -1);
    if Body(b) {
      StringRuns(b, cap);
    }
    if Run(js, cap, Init) == (done, 1) {
      OneString(js, cap, done);
      assert At(js, 1, b);
      ScannedIsBody(js, 1, b);
    }
  }

  lemma StringRuns(b: bytes, cap: nat)
    requires Body(b) && cap > 0
    ensures Run(Quoted(b), cap, Init) == (Parser(|b| + 2, [Token(String, 1, 1 + |b|, 0)], -1), 1)
  {
    hide Run;
    STextLeaf(SStr(b), 0);
    assert [] + (Quoted(b) + []) == Quoted(b);
    TokenizesSpaced([], SStr(b), [], cap);
  }

  lemma OneString(js: bytes, cap: nat, done: Parser)
    requires |js| > 0 && js[0] == QUOTE && cap > 0 && Run(js, cap, Init) == (done, 1) && |done.toks| == 1
    ensures ScanString(js, 1).Found? && ScanString(js, 1).end == done.toks[0].end
  {
    var e := ScanString(js, 1);
    if e.Found? {
      var q := Parser(e.end + 1, [Token(String, 1, e.end, 0)], -1);
      assert StepAt(js, cap, Init) == Next(q);
      RunGrows(js, cap, q, 0);
    }
  }

  // ---- Tokens only grow ----

  /** Tokens stay, in place, and a closed one keeps its span. */
  lemma StepGrows(js: bytes, cap: nat, p: Parser, k: nat)
    requires Valid(p) && Live(js, p) && StepAt(js, cap, p).Next? && k < |p.toks|
    ensures var q := StepAt(js, cap, p).p;
            && |q.toks| >= |p.toks| && q.toks[k].start == p.toks[k].start
            && (!IsOpen(p.toks[k]) ==> q.toks[k].end == p.toks[k].end && !IsOpen(q.toks[k]))
  {
  }

  lemma {:induction false} RunGrows(js: bytes, cap: nat, p: Parser, k: nat)
    requires Valid(p) && k < |p.toks|
    ensures var q := Run(js, cap, p).0;
            && |q.toks| >= |p.toks| && q.toks[k].start == p.toks[k].start
            && (!IsOpen(p.toks[k]) ==> q.toks[k].end == p.toks[k].end)
    decreases |js| - p.pos
  {
    if Live(js, p) && StepAt(js, cap, p).Next? {
      StepGrows(js, cap, p, k);
      RunGrows(js, cap, StepAt(js, cap, p).p, k);
    }
  }

  // ---- Cut texts ----

  lemma {:induction false} PrimitiveInvalStays(js: bytes, more: bytes, i: nat)
    requires js <= more && ScanPrimitive(js, i).Inval?
    ensures ScanPrimitive(more, i).Inval?
    decreases |js| - i
  {
    if !(js[i] < 32 || js[i] >= 127) { PrimitiveInvalStays(js, more, i + 1); }
  }

  lemma {:induction false} HexInvalStays(js: bytes, more: bytes, i: nat, n: nat)
    requires js <= more && ScanHex(js, i, n).Inval?
    ensures ScanHex(more, i, n).Inval?
    decreases n
  {
    if IsHex(js[i]) { HexInvalStays(js, more, i + 1, n - 1); }
  }

  lemma {:induction false} StringInvalStays(js: bytes, more: bytes, i: nat)
    requires js <= more && ScanString(js, i).Inval?
    ensures ScanString(more, i).Inval?
    decreases |js| - i
  {
    if js[i] == BACKSLASH && i + 1 < |js| {
      if SimpleEscape(js[i + 1]) {
        StringInvalStays(js, more, i + 2);
      } else if js[i + 1] == 117 {
        var h := ScanHex(js, i + 2, 4);
        if h.Found? {
          ScanHexExtends(js, more, i + 2, 4);
          StringInvalStays(js, more, h.end);
        } else {
          HexInvalStays(js, more, i + 2, 4);
        }
      }
    } else {
      StringInvalStays(js, more, i + 1);
    }
  }

  /** An error that does not ask for more text stays one when more text comes. */
  lemma ErrorStays(js: bytes, more: bytes, cap: nat, p: Parser)
    requires js <= more && Valid(p) && Live(js, p) && StepAt(js, cap, p).Stop? && StepAt(js, cap, p).code != ERROR_PART
    ensures Live(more, p) && StepAt(more, cap, p) == StepAt(js, cap, p)
  {
    var c := js[p.pos];
    if c == QUOTE {
      if ScanString(js, p.pos + 1).Inval? {
        StringInvalStays(js, more, p.pos + 1);
      } else {
        ScanStringExtends(js, more, p.pos + 1);
      }
    } else if StartsPrimitive(c) && PrimitiveAllowed(p) {
      if ScanPrimitive(js, p.pos).Inval? {
        PrimitiveInvalStays(js, more, p.pos);
      } else {
        ScanPrimitiveExtends(js, more, p.pos);
      }
    }
  }

  /** If a text succeeds, a prefix of it fails only for want of the rest. */
  lemma {:induction false} PrefixNotWrong(js: bytes, more: bytes, cap: nat, p: Parser)
    requires js <= more && Valid(p) && Run(more, cap, p).1 >= 0
    ensures Run(js, cap, p).1 >= 0 || Run(js, cap, p).1 == ERROR_PART
    decreases |js| - p.pos
  {
    if Live(js, p) {
      match StepAt(js, cap, p) {
        case Next(q) =>
          StepExtends(js, more, cap, cap, p);
          PrefixNotWrong(js, more, cap, q);
        case Stop(code) =>
          if code != ERROR_PART { ErrorStays(js, more, cap, p); }
      }
    }
  }

  /** Where a call ends that succeeds: at the end of the text, or at a NUL. */
  lemma {:induction false} EndsThere(js: bytes, cap: nat, p: Parser)
    requires Valid(p) && Run(js, cap, p).1 >= 0
    ensures !Live(js, Run(js, cap, p).0)
    decreases |js| - p.pos
  {
    if Live(js, p) { EndsThere(js, cap, StepAt(js, cap, p).p); }
  }

  /** The root token has been allocated once its first character is read. */
  lemma RootStarts(js: bytes, cap: nat, p: Parser)
    requires Valid(p) && p.toks == [] && Live(js, p) && Run(js, cap, p).1 >= 0
    requires js[p.pos] == LBRACE || js[p.pos] == LBRACKET || js[p.pos] == QUOTE
    ensures |Run(js, cap, p).0.toks| > 0 && (js[p.pos] == QUOTE ==> Run(js, cap, p).0.toks[0].end < |js|)
  {
    RunGrows(js, cap, StepAt(js, cap, p).p, 0);
  }

  /** A text cut anywhere inside its object, array or string is reported as partial (-3). */
  lemma CutTextIsPart(before: bytes, t: Spaced, n: nat, cap: nat)
    requires White(before) && SWf(t) && !t.SPrim? && |before| < n < |before| + |Text(t)| && |Tokens(t, |before|)| <= cap
    ensures Run((before + Text(t))[..n], cap, Init).1 == -3
  {
    hide Run, Text, Tokens, SWf, White;
    var js, toks := before + Text(t), Tokens(t, |before|);
    var cut := js[..n];
    assert before + (Text(t) + []) == js && White([]) by { WhiteNothing(); }
    TokenizesSpaced(before, t, [], cap);
    PrefixNotWrong(cut, js, cap, Init);
    var (q, r) := Run(cut, cap, Init);
    if r >= 0 {
      Resume(cut, js, cap, cap, Init);
      RunCloses(cut, cap, Init);
      RunInside(cut, cap, Init);
      FirstByte(t);
      RootSpan(t, |before|);
      CutRoot(cut, before, cap, Text(t)[0]) by { assert cut[|before|] == Text(t)[0]; }
      assert LastOpen(q.toks, |q.toks|) == -1 && !IsOpen(q.toks[0]);
      RunGrows(js, cap, q, 0);
      RunKeepsShape(cut, cap, Init) by { assert Shape(Init); }
      assert false;
    }
  }

  lemma WhiteNothing()
    ensures White([])
  {
  }

  lemma FirstByte(t: Spaced)
    requires !t.SPrim?
    ensures |Text(t)| >= 2 && (Text(t)[0] == LBRACE || Text(t)[0] == LBRACKET || Text(t)[0] == QUOTE)
  {
    hide ElemsText, MembersText;
  }

  /** The root spans its text, a string without its quotes. */
  lemma RootSpan(t: Spaced, s: nat)
    requires !t.SPrim? && Text(t) != []
    ensures Tokens(t, s)[0].end >= s + |Text(t)| - 1 && (Text(t)[0] != QUOTE ==> Tokens(t, s)[0].end == s + |Text(t)|)
  {
    hide ElemsText, MembersText, ElemsTokens, MembersTokens;
  }

  /** A call on a cut text that reaches the root allocates its token. */
  lemma CutRoot(cut: bytes, before: bytes, cap: nat, c: byte)
    requires White(before) && before <= cut && |before| < |cut| && cut[|before|] == c && Run(cut, cap, Init).1 >= 0
    requires c == LBRACE || c == LBRACKET || c == QUOTE
    ensures |Run(cut, cap, Init).0.toks| > 0 && (c == QUOTE ==> Run(cut, cap, Init).0.toks[0].end < |cut|)
  {
    hide Run;
    assert At(cut, 0, before);
    GapRun(cut, cap, Init, before);
    RootStarts(cut, cap, Init.(pos := |before|));
  }

  // ---- Bytes out of place ----

  /** A byte no token starts with, nor separates tokens. */
  predicate Stray(c: byte) { c != 0 && c !in Ascii("{}[]\":, \t\r\n") && !BeginsPrimitive(c) }

  /** Numbers, true, false and null. */
  predicate BeginsPrimitive(c: byte) { c in Ascii("-tfn") || '0' as int <= c <= '9' as int }

  lemma StrayStops(js: bytes, cap: nat, p: Parser)
    requires Valid(p) && p.pos < |js| && Stray(js[p.pos])
    ensures Run(js, cap, p) == (p, ERROR_INVAL)
  {
    StrayIsNone(js[p.pos]);
    assert StepAt(js, cap, p) == Stop(ERROR_INVAL);
  }

  lemma StrayIsNone(c: byte)
    requires Stray(c)
    ensures c != NUL && !IsSpace(c) && c != COMMA && c != COLON && c != QUOTE && !StartsPrimitive(c)
    ensures c != LBRACE && c != RBRACE && c != LBRACKET && c != RBRACKET
  {
    var s, p := Ascii("{}[]\":, \t\r\n"), Ascii("-tfn");
    assert s[0] == LBRACE && s[1] == RBRACE && s[2] == LBRACKET && s[3] == RBRACKET && s[4] == QUOTE && s[5] == COLON && s[6] == COMMA;
    assert s[7] == SPACE && s[8] == TAB && s[9] == CR && s[10] == LF;
    assert p[0] == MINUS && p[1] == 116 && p[2] == 102 && p[3] == 110;
  }

  /** A bracket that does not match the innermost open container. */
  lemma WrongBracketStops(js: bytes, cap: nat, p: Parser, k: nat)
    requires Valid(p) && k < |p.toks| && LastOpen(p.toks, |p.toks|) == k && IsContainer(p.toks[k])
    requires Stands(js, p.pos, if p.toks[k].typ.Object? then RBRACKET else RBRACE)
    ensures Run(js, cap, p) == (p, ERROR_INVAL)
  {
    assert StepAt(js, cap, p) == Stop(ERROR_INVAL);
  }

  lemma Opens(js: bytes, cap: nat, p: Parser, typ: TokType)
    requires Valid(p) && |p.toks| < cap && (typ == Object || typ == Array)
    requires Stands(js, p.pos, if typ == Object then LBRACE else LBRACKET)
    ensures Valid(OpenState(p, typ)) && Run(js, cap, p) == Run(js, cap, OpenState(p, typ))
    ensures LastOpen(OpenState(p, typ).toks, |p.toks| + 1) == |p.toks|
  {
    assert StepAt(js, cap, p) == Next(OpenState(p, typ));
  }

  lemma BetweenBlank(a: byte, inner: bytes, c: byte, more: bytes)
    ensures var js := [a] + (inner + ([SPACE, c] + more));
            && Stands(js, 0, a) && At(js, 1, inner) && Delimits(js, 1 + |inner|)
            && At(js, 1 + |inner|, [SPACE]) && Stands(js, 2 + |inner|, c)
  {
  }

  /** Behind any elements of an array, an object's bracket or a stray byte makes the text invalid (-2). */
  lemma RejectedInArray(es: SElems, c: byte, more: bytes, cap: nat)
    requires SWfElems(es) && 1 + |ElemsTokens(es, 1, true)| <= cap && (c == RBRACE || Stray(c))
    ensures Run([LBRACKET] + (ElemsText(es, true) + ([SPACE, c] + more)), cap, Init).1 == -2
  {
    hide Run, ElemsText, ElemsTokens, SWfElems, At, StepAt, Filled;
    var js := [LBRACKET] + (ElemsText(es, true) + ([SPACE, c] + more));
    BetweenBlank(LBRACKET, ElemsText(es, true), c, more);
    Opens(js, cap, Init, Array);
    var p := ElemsRun(js, cap, OpenState(Init, Array), es, true, 0);
    Blank(js, cap, p);
    var q := p.(pos := p.pos + 1);
    FilledKind(OpenState(Init, Array).toks, 0, PlainElems(es).Count(), ElemsTokens(es, 1, true));
    if c == RBRACE { WrongBracketStops(js, cap, q, 0); } else { StrayStops(js, cap, q); }
  }

  lemma FilledKind(toks: seq<Token>, k: nat, n: nat, inner: seq<Token>)
    requires k < |toks|
    ensures Filled(toks, k, n, inner)[k].typ == toks[k].typ
  {
  }

  lemma Blank(js: bytes, cap: nat, p: Parser)
    requires Valid(p) && At(js, p.pos, [SPACE])
    ensures Run(js, cap, p) == Run(js, cap, p.(pos := p.pos + 1))
  {
    hide Run, StepAt, At;
    GapRun(js, cap, p, [SPACE]);
  }

  /**
   Behind any members of an object, an array's bracket, a stray byte or the start of a primitive makes
   the text invalid (-2): a primitive is no key, and no second value.
   */
  lemma RejectedInObject(ms: SMembers, c: byte, more: bytes, cap: nat)
    requires SWfMembers(ms) && 1 + |MembersTokens(ms, 1, true)| <= cap
    requires c == RBRACKET || Stray(c) || BeginsPrimitive(c)
    ensures Run([LBRACE] + (MembersText(ms, true) + ([SPACE, c] + more)), cap, Init).1 == -2
  {
    hide Run, MembersText, MembersTokens, SWfMembers, At, StepAt, Filled, Stray, BeginsPrimitive;
    var js := [LBRACE] + (MembersText(ms, true) + ([SPACE, c] + more));
    BetweenBlank(LBRACE, MembersText(ms, true), c, more);
    Opens(js, cap, Init, Object);
    var p := MembersRun(js, cap, OpenState(Init, Object), ms, true, 0);
    Blank(js, cap, p);
    var q := p.(pos := p.pos + 1);
    if c == RBRACKET {
      WrongBracketStops(js, cap, q, 0);
    } else if Stray(c) {
      StrayStops(js, cap, q);
    } else {
      PrimitiveStops(js, cap, q);
    }
  }

  lemma PrimitiveStops(js: bytes, cap: nat, p: Parser)
    requires Valid(p) && p.pos < |js| && BeginsPrimitive(js[p.pos]) && |p.toks| > 0
    requires p.toks[0].typ.Object? && InObject(p.toks, p.super, 0)
    ensures Run(js, cap, p) == (p, ERROR_INVAL)
  {
    var p4 := Ascii("-tfn");
    assert p4 == [MINUS, 116, 102, 110];
    assert StepAt(js, cap, p) == Stop(ERROR_INVAL);
  }

  /** At the root, around any tree, a closing bracket or a stray byte makes the text invalid (-2). */
  lemma RejectedAtRoot(before: bytes, t: Spaced, after: bytes, c: byte, more: bytes, cap: nat)
    requires White(before) && SWf(t) && White(after) && (t.SPrim? ==> after != []) && |Tokens(t, |before|)| <= cap
    requires c == RBRACE || c == RBRACKET || Stray(c)
    ensures Run((before + (Text(t) + after)) + ([c] + more), cap, Init).1 == -2
  {
    hide Run, Text, Tokens, White, SWf, StepAt;
    var js := before + (Text(t) + after);
    var all := js + ([c] + more);
    TokenizesSpaced(before, t, after, cap);
    Resume(js, all, cap, cap, Init);
    RunCloses(js, cap, Init);
    var p := Run(js, cap, Init).0;
    assert all[p.pos] == c;
    if Stray(c) { StrayStops(all, cap, p); } else { NothingOpen(all, cap, p); }
  }

  lemma NothingOpen(js: bytes, cap: nat, p: Parser)
    requires Valid(p) && LastOpen(p.toks, |p.toks|) == -1 && p.pos < |js| && (js[p.pos] == RBRACE || js[p.pos] == RBRACKET)
    ensures Run(js, cap, p) == (p, ERROR_INVAL)
  {
    assert StepAt(js, cap, p) == Stop(ERROR_INVAL);
  }
}
