/**
 The tokenizer with a stack.  The one of the source finds the container around a token by scanning its
 tokens backwards; here the open containers are kept on a stack, and every character is spelled out.
 On every text, valid or not, both do the same.
 */
module JsmnStack {
  import opened Bytes
  import opened Jsmn
  import opened JsonTree
  import JsmnTree

  // ---- Characters ----

  lemma Blanks(c: byte)
    ensures IsSpace(c) <==> c in Ascii(" \t\r\n")
    ensures EndsPrimitive(c) <==> c in Ascii(" \t\r\n,]}")
  {
    assert Ascii(" \t\r\n") == [32, 9, 13, 10];
    assert Ascii(" \t\r\n,]}") == [32, 9, 13, 10, 44, 93, 125];
  }

  lemma Starts(c: byte)
    ensures StartsPrimitive(c) <==> c in Ascii("-0123456789tfn")
  {
    assert Ascii("-0123456789tfn") == [45, 48, 49, 50, 51, 52, 53, 54, 55, 56, 57, 116, 102, 110];
  }

  lemma Escapes(c: byte)
    ensures SimpleEscape(c) <==> c in Ascii("\"/\\bfrnt")
  {
    assert Ascii("\"/\\bfrnt") == [34, 47, 92, 98, 102, 114, 110, 116];
  }

  lemma HexDigits(c: byte)
    ensures IsHex(c) <==> c in Ascii("0123456789") || c in Ascii("abcdefABCDEF")
  {
    assert Ascii("0123456789") == [48, 49, 50, 51, 52, 53, 54, 55, 56, 57];
    assert Ascii("abcdefABCDEF") == [97, 98, 99, 100, 101, 102, 65, 66, 67, 68, 69, 70];
  }

  // ---- Primitives and strings ----

  /** A character inside a primitive. */
  predicate Inside(c: byte) { 32 <= c < 127 && c !in Ascii(" \t\r\n,]}") }

  /** Nothing but such characters in between. */
  predicate AllInside(js: bytes, i: nat, e: nat) { i <= e <= |js| && forall k :: i <= k < e ==> Inside(js[k]) }

  /** A primitive goes on as far as its characters do: to a delimiter, to the end of the text or a NUL, or to a wrong byte. */
  lemma {:induction false} PrimitiveEnds(js: bytes, i: nat) returns (e: nat)
    requires i <= |js|
    ensures AllInside(js, i, e)
    ensures if e == |js| || js[e] == NUL then ScanPrimitive(js, i) == Part
            else if js[e] in Ascii(" \t\r\n,]}") then ScanPrimitive(js, i) == Found(e)
            else !Inside(js[e]) && ScanPrimitive(js, i) == Inval
    decreases |js| - i
  {
    hide Ascii;
    e := i;
    if i < |js| {
      Blanks(js[i]);
      if Inside(js[i]) { e := PrimitiveEnds(js, i + 1); }
    }
  }

  /** Behind a well-formed beginning, a string that stops there is partial. */
  lemma StringCut(js: bytes, i: nat, b: bytes)
    requires At(js, i, b) && Body(b) && (i + |b| == |js| || js[i + |b|] == NUL)
    ensures ScanString(js, i) == Part
  {
    JsmnTree.ScanBody(js, i, b);
  }

  /**
   And one that goes on with a wrong escape is invalid: a backslash before any other character, or a
   unit with another byte, not NUL, among its four digits.
   */
  lemma WrongEscape(js: bytes, i: nat, b: bytes, d: nat)
    requires At(js, i, b) && Body(b) && i + |b| + 1 < |js| && js[i + |b|] == '\\' as int
    requires var c, u := js[i + |b| + 1], i + |b| + 2;
             || (c !in Ascii("\"/\\bfrnt") && c != 'u' as int)
             || (c == 'u' as int && d < 4 && u + d < |js| && js[u + d] != NUL && !IsHex(js[u + d])
                 && forall k :: u <= k < u + d ==> IsHex(js[k]))
    ensures ScanString(js, i) == Inval
  {
    hide Ascii, Body, At, ScanString, ScanHex, IsHex;
    var j := i + |b|;
    JsmnTree.ScanBody(js, i, b);
    Escapes(js[j + 1]);
    if js[j + 1] == 'u' as int { WrongDigit(js, j + 2, 4, d); }
    ScanAt(js, j);
  }

  lemma ScanAt(js: bytes, j: nat)
    requires j + 1 < |js| && js[j] == BACKSLASH && !SimpleEscape(js[j + 1])
    ensures ScanString(js, j) ==
      if js[j + 1] == 117 && ScanHex(js, j + 2, 4).Found? then ScanString(js, ScanHex(js, j + 2, 4).end) else Inval
  {
  }

  lemma {:induction false} WrongDigit(js: bytes, i: nat, n: nat, d: nat)
    requires d < n && i + d < |js| && js[i + d] != NUL && !IsHex(js[i + d]) && forall k :: i <= k < i + d ==> IsHex(js[k])
    ensures ScanHex(js, i, n) == Inval
    decreases n
  {
    if d > 0 { WrongDigit(js, i + 1, n - 1, d - 1); }
  }

  // ---- The machine ----

  /** The stack holds the indices of the open containers, the innermost last. */
  datatype Machine = Machine(pos: nat, toks: seq<Token>, super: int, stack: seq<nat>)

  datatype Outcome = Go(m: Machine) | Halt(code: int)

  function Top(stack: seq<nat>): int { if stack == [] then -1 else stack[|stack| - 1] }

  /** The token a new one belongs to has one child more. */
  function Counted(toks: seq<Token>, super: int): (r: seq<Token>)
    ensures |r| == |toks|
  {
    if 0 <= super < |toks| then toks[super := toks[super].(size := toks[super].size + 1)] else toks
  }

  function OpenOne(m: Machine, typ: TokType, cap: nat): Outcome {
    var n := |m.toks|;
    if n >= cap then Halt(-1)
    else Go(Machine(m.pos + 1, Counted(m.toks, m.super) + [Token(typ, m.pos, -1, 0)], n, m.stack + [n]))
  }

  /** A bracket closes the container on top of the stack, if it is of its kind. */
  function CloseOne(m: Machine, typ: TokType): Outcome {
    var i := Top(m.stack);
    if !(0 <= i < |m.toks|) || m.toks[i].typ != typ then Halt(-2)
    else
      var rest := m.stack[..|m.stack| - 1];
      Go(Machine(m.pos + 1, m.toks[i := m.toks[i].(end := m.pos + 1)], Top(rest), rest))
  }

  function Leaf(m: Machine, t: Token, next: nat, cap: nat): Outcome {
    if |m.toks| >= cap then Halt(-1) else Go(Machine(next, Counted(m.toks, m.super) + [t], m.super, m.stack))
  }

  function StringAt(js: bytes, m: Machine, cap: nat): Outcome {
    match ScanString(js, m.pos + 1)
    case Found(e) => Leaf(m, Token(String, m.pos + 1, e, 0), e + 1, cap)
    case Inval => Halt(-2)
    case Part => Halt(-3)
  }

  /** No primitive stands directly in an object, nor behind the value of a key. */
  function PrimitiveAt(js: bytes, m: Machine, cap: nat): Outcome {
    if 0 <= m.super < |m.toks| && (m.toks[m.super].typ == Object || (m.toks[m.super].typ == String && m.toks[m.super].size > 0))
    then Halt(-2)
    else
      match ScanPrimitive(js, m.pos)
      case Found(e) => Leaf(m, Token(Primitive, m.pos, e, 0), e, cap)
      case Inval => Halt(-2)
      case Part => Halt(-3)
  }

  /** A comma behind a member goes back to the innermost container; behind an element it is there already. */
  function CommaAt(m: Machine): Machine {
    var behindLeaf := 0 <= m.super < |m.toks| && m.toks[m.super].typ in {String, Primitive};
    m.(pos := m.pos + 1, super := if behindLeaf && m.stack != [] then Top(m.stack) else m.super)
  }

  lemma PrimitiveAdvances(js: bytes, m: Machine, cap: nat)
    requires m.pos < |js| && js[m.pos] in Ascii("-0123456789tfn")
    ensures var r := PrimitiveAt(js, m, cap); r.Go? ==> m.pos < r.m.pos <= |js|
  {
    Starts(js[m.pos]);
    if ScanPrimitive(js, m.pos).Found? { PrimitiveMoves(js, m.pos, ScanPrimitive(js, m.pos).end); }
  }

  function Move(js: bytes, cap: nat, m: Machine): (r: Outcome)
    requires m.pos < |js|
    ensures r.Go? ==> m.pos < r.m.pos <= |js|
  {
    var c := js[m.pos];
    if c == '{' as int then OpenOne(m, Object, cap)
    else if c == '[' as int then OpenOne(m, Array, cap)
    else if c == '}' as int then CloseOne(m, Object)
    else if c == ']' as int then CloseOne(m, Array)
    else if c == '"' as int then StringAt(js, m, cap)
    else if c in Ascii(" \t\r\n") then Go(m.(pos := m.pos + 1))
    else if c == ':' as int then Go(m.(pos := m.pos + 1, super := |m.toks| - 1))
    else if c == ',' as int then Go(CommaAt(m))
    else if c in Ascii("-0123456789tfn") then PrimitiveAdvances(js, m, cap); PrimitiveAt(js, m, cap)
    else Halt(-2)
  }

  /** A whole call: tokens and super token where it stops, and what it returns; with a container open at the end, -3. */
  function MachineRun(js: bytes, cap: nat, m: Machine): (Parser, int)
    decreases |js| - m.pos
  {
    var here := Parser(m.pos, m.toks, m.super);
    if m.pos >= |js| || js[m.pos] == 0 then (here, if m.stack == [] then |m.toks| else -3)
    else
      match Move(js, cap, m)
      case Halt(code) => (here, code)
      case Go(m') => MachineRun(js, cap, m')
  }

  // ---- The back-scans find the top of the stack ----

  /** The indices of the open tokens below `n`. */
  function Opens(toks: seq<Token>, n: nat): (r: seq<nat>)
    requires n <= |toks|
    ensures forall k :: 0 <= k < |r| ==> r[k] < n
  {
    if n == 0 then [] else Opens(toks, n - 1) + if IsOpen(toks[n - 1]) then [n - 1] else []
  }

  lemma {:induction false} LastIsTop(toks: seq<Token>, n: nat)
    requires n <= |toks|
    ensures LastOpen(toks, n) == Top(Opens(toks, n))
    ensures var i := LastOpen(toks, n); i >= 0 ==> Opens(toks, n) == Opens(toks, i) + [i]
    decreases n
  {
    if n > 0 {
      LastIsTop(toks, n - 1);
      if !IsOpen(toks[n - 1]) { assert Opens(toks, n - 1) + [] == Opens(toks, n - 1); }
    }
  }

  lemma {:induction false} SameOpens(toks: seq<Token>, toks': seq<Token>, n: nat)
    requires n <= |toks| && n <= |toks'| && forall k :: 0 <= k < n ==> IsOpen(toks[k]) == IsOpen(toks'[k])
    ensures Opens(toks, n) == Opens(toks', n)
    decreases n
  {
    if n > 0 { SameOpens(toks, toks', n - 1); }
  }

  lemma {:induction false} NoneAbove(toks: seq<Token>, i: nat, n: nat)
    requires i <= n <= |toks| && forall k :: i <= k < n ==> !IsOpen(toks[k])
    ensures Opens(toks, n) == Opens(toks, i)
    decreases n - i
  {
    if i < n {
      NoneAbove(toks, i, n - 1);
      assert Opens(toks, n - 1) + [] == Opens(toks, n - 1);
    }
  }

  /** The stack is that of the open tokens, which are all containers. */
  ghost predicate Mirrors(m: Machine, p: Parser) {
    && p == Parser(m.pos, m.toks, m.super) && Valid(p)
    && m.stack == Opens(p.toks, |p.toks|)
    && forall k :: 0 <= k < |p.toks| && IsOpen(p.toks[k]) ==> IsContainer(p.toks[k])
  }

  lemma CountedIsBump(toks: seq<Token>, super: int)
    requires -1 <= super < |toks|
    ensures Counted(toks, super) == Bump(toks, super)
    ensures forall k :: 0 <= k < |toks| ==> Bump(toks, super)[k] == toks[k].(size := Bump(toks, super)[k].size)
  {
  }

  /** One token more. */
  lemma OneMoreToken(toks: seq<Token>, super: int, t: Token)
    requires -1 <= super < |toks|
    ensures var more := Bump(toks, super) + [t];
            && Opens(more, |more|) == Opens(toks, |toks|) + (if IsOpen(t) then [|toks|] else [])
            && ((forall k :: 0 <= k < |toks| && IsOpen(toks[k]) ==> IsContainer(toks[k])) && (IsOpen(t) ==> IsContainer(t)) ==>
                  forall k :: 0 <= k < |more| && IsOpen(more[k]) ==> IsContainer(more[k]))
  {
    var more := Bump(toks, super) + [t];
    CountedIsBump(toks, super);
    assert forall k :: 0 <= k < |toks| ==> more[k] == Bump(toks, super)[k];
    SameOpens(toks, more, |toks|);
  }

  lemma CloseMirrors(m: Machine, p: Parser, typ: TokType)
    requires Mirrors(m, p)
    ensures match CloseOne(m, typ)
            case Halt(code) => CloseStep(p, typ) == Stop(code)
            case Go(m') => CloseStep(p, typ).Next? && Mirrors(m', CloseStep(p, typ).p)
  {
    hide LastOpen, Opens;
    LastIsTop(p.toks, |p.toks|);
    var i := LastOpen(p.toks, |p.toks|);
    if i >= 0 {
      ClosedOpens(p.toks, i, p.pos + 1);
      assert m.stack[..|m.stack| - 1] == Opens(p.toks, i);
    }
  }

  /** With the last open token closed, the others are open still. */
  lemma ClosedOpens(toks: seq<Token>, i: nat, end: nat)
    requires i < |toks| && LastOpen(toks, |toks|) == i
    ensures var closed := toks[i := toks[i].(end := end)];
            && Opens(closed, |toks|) == Opens(toks, i) && LastOpen(closed, i) == Top(Opens(toks, i))
            && forall k :: 0 <= k < |toks| && IsOpen(closed[k]) ==> IsOpen(toks[k]) && closed[k] == toks[k]
  {
    hide LastOpen, Opens;
    var closed := toks[i := toks[i].(end := end)];
    NoneAbove(closed, i, |toks|);
    SameOpens(toks, closed, i);
    LastIsTop(closed, i);
  }

  /** Only containers are open, so the scan for an open container finds the top, too. */
  lemma CommaMirrors(m: Machine, p: Parser)
    requires Mirrors(m, p)
    ensures CommaStep(p).Next? && Mirrors(CommaAt(m), CommaStep(p).p)
  {
    var n := |p.toks|;
    LastIsTop(p.toks, n);
    SameScan(p.toks, n);
  }

  lemma {:induction false} SameScan(toks: seq<Token>, n: nat)
    requires n <= |toks| && forall k :: 0 <= k < |toks| && IsOpen(toks[k]) ==> IsContainer(toks[k])
    ensures LastOpenContainer(toks, n) == LastOpen(toks, n)
    decreases n
  {
    if n > 0 { SameScan(toks, n - 1); }
  }

  lemma AllocMirrors(m: Machine, p: Parser, t: Token, cap: nat, next: nat, super: int)
    requires Mirrors(m, p) && (IsOpen(t) ==> IsContainer(t)) && -1 <= super <= |p.toks|
    ensures match Alloc(p, t, cap, next, super)
            case Stop(code) => |m.toks| >= cap && code == -1
            case Next(q) =>
              |m.toks| < cap
              && Mirrors(Machine(next, Counted(m.toks, m.super) + [t], super, m.stack + if IsOpen(t) then [|m.toks|] else []), q)
  {
    CountedIsBump(p.toks, p.super);
    OneMoreToken(p.toks, p.super, t);
  }

  lemma LeafMirrors(m: Machine, p: Parser, t: Token, cap: nat, next: nat)
    requires Mirrors(m, p) && !IsOpen(t)
    ensures match Leaf(m, t, next, cap)
            case Halt(code) => Alloc(p, t, cap, next, p.super) == Stop(code)
            case Go(m') => Alloc(p, t, cap, next, p.super).Next? && Mirrors(m', Alloc(p, t, cap, next, p.super).p)
  {
    hide Mirrors;
    Bounds(m, p);
    AllocMirrors(m, p, t, cap, next, p.super);
    assert m.stack + [] == m.stack;
  }

  lemma Bounds(m: Machine, p: Parser)
    requires Mirrors(m, p)
    ensures Valid(p) && p == Parser(m.pos, m.toks, m.super)
  {
  }

  lemma OpenMirrors(m: Machine, p: Parser, typ: TokType, cap: nat)
    requires Mirrors(m, p) && (typ.Object? || typ.Array?)
    ensures var a := Alloc(p, Token(typ, p.pos, -1, 0), cap, p.pos + 1, |p.toks|);
            match OpenOne(m, typ, cap)
            case Halt(code) => a == Stop(code)
            case Go(m') => a.Next? && Mirrors(m', a.p)
  {
    hide Mirrors;
    Bounds(m, p);
    AllocMirrors(m, p, Token(typ, p.pos, -1, 0), cap, p.pos + 1, |p.toks|);
  }

  /** On every character both do the same. */
  lemma MoveIsStep(js: bytes, cap: nat, m: Machine, p: Parser)
    requires Mirrors(m, p) && p.pos < |js|
    ensures match Move(js, cap, m)
            case Halt(code) => StepAt(js, cap, p) == Stop(code)
            case Go(m') => StepAt(js, cap, p).Next? && Mirrors(m', StepAt(js, cap, p).p)
  {
    hide Ascii, Mirrors, CloseOne, CloseStep, CommaStep, CommaAt, OpenOne, Alloc, Leaf;
    Bounds(m, p);
    var c := js[p.pos];
    Blanks(c);
    Starts(c);
    if c == LBRACE {
      OpenMirrors(m, p, Object, cap);
    } else if c == LBRACKET {
      OpenMirrors(m, p, Array, cap);
    } else if c == RBRACE {
      CloseMirrors(m, p, Object);
    } else if c == RBRACKET {
      CloseMirrors(m, p, Array);
    } else if c == QUOTE {
      var e := ScanString(js, p.pos + 1);
      if e.Found? { LeafMirrors(m, p, Token(String, p.pos + 1, e.end, 0), cap, e.end + 1); }
    } else if IsSpace(c) {
      Moved(m, p, p.super);
    } else if c == COLON {
      Moved(m, p, |p.toks| - 1);
    } else if c == COMMA {
      CommaMirrors(m, p);
    } else if StartsPrimitive(c) {
      var e := ScanPrimitive(js, p.pos);
      if e.Found? { LeafMirrors(m, p, Token(Primitive, p.pos, e.end, 0), cap, e.end); }
    }
  }

  lemma Moved(m: Machine, p: Parser, super: int)
    requires Mirrors(m, p) && -1 <= super < |p.toks|
    ensures Mirrors(m.(pos := m.pos + 1, super := super), p.(pos := p.pos + 1, super := super))
  {
  }

  /** And on every text: the tokenizer returns what the machine returns and leaves the same tokens. */
  lemma {:induction false} RunsAlike(js: bytes, cap: nat, m: Machine, p: Parser)
    requires Mirrors(m, p)
    ensures Run(js, cap, p) == MachineRun(js, cap, m)
    decreases |js| - p.pos
  {
    hide Mirrors, StepAt, Move;
    Bounds(m, p);
    if Live(js, p) {
      MoveIsStep(js, cap, m, p);
      if Move(js, cap, m).Go? { RunsAlike(js, cap, Move(js, cap, m).m, StepAt(js, cap, p).p); }
    } else {
      StackEmpty(m, p);
    }
  }

  lemma StackEmpty(m: Machine, p: Parser)
    requires Mirrors(m, p)
    ensures LastOpen(p.toks, |p.toks|) == -1 <==> m.stack == []
  {
    LastIsTop(p.toks, |p.toks|);
  }

  /** From the start. */
  lemma SameAsStack(js: bytes, cap: nat)
    ensures Run(js, cap, Init) == MachineRun(js, cap, Machine(0, [], -1, []))
  {
    RunsAlike(js, cap, Machine(0, [], -1, []), Init);
  }
}
