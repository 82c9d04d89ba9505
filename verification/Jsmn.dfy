/**
 The strict JSON tokenizer without parent links (deps/src/jsmn.cpp).  A parser state is the
 text position, the tokens allocated so far (their number is `toknext`) and the index of the
 superior token.  Every error of the tokenizer leaves that state as it was before the
 character that caused it, so a step that fails carries only its error code.
 */
module Jsmn {
  import opened Bytes

  datatype TokType = Object | Array | String | Primitive

  datatype Token = Token(typ: TokType, start: int, end: int, size: nat)

  datatype Parser = Parser(pos: nat, toks: seq<Token>, super: int)

  const ERROR_NOMEM := -1
  const ERROR_INVAL := -2
  const ERROR_PART := -3

  const Init := Parser(0, [], -1)

  predicate Valid(p: Parser) { -1 <= p.super < |p.toks| }

  predicate IsOpen(t: Token) { t.start != -1 && t.end == -1 }

  predicate IsContainer(t: Token) { t.typ.Object? || t.typ.Array? }

  // ---- Scanning one lexeme ----

  datatype Scan = Found(end: nat) | Inval | Part

  predicate IsSpace(c: byte) { c == TAB || c == CR || c == LF || c == SPACE }

  predicate EndsPrimitive(c: byte) { IsSpace(c) || c == COMMA || c == RBRACKET || c == RBRACE }

  /** Position of the character that ends the primitive whose text continues at `i`. */
  function ScanPrimitive(js: bytes, i: nat): (r: Scan)
    ensures r.Found? ==> i <= r.end < |js|
    decreases |js| - i
  {
    if i >= |js| || js[i] == NUL then Part
    else if EndsPrimitive(js[i]) then Found(i)
    else if js[i] < 32 || js[i] >= 127 then Inval
    else ScanPrimitive(js, i + 1)
  }

  /** The characters allowed after a backslash, `u` apart: quote, slash, backslash, b f r n t. */
  predicate SimpleEscape(c: byte) {
    c == QUOTE || c == SLASH || c == BACKSLASH || c == 98 || c == 102 || c == 114 || c == 110 || c == 116
  }

  /** Reads up to `n` hexadecimal digits at `i`; the text may end first, another character may not come first. */
  function ScanHex(js: bytes, i: nat, n: nat): (r: Scan)
    ensures r.Found? ==> i <= r.end && r.end <= i + n && (i <= |js| ==> r.end <= |js|)
    ensures !r.Part?
    decreases n
  {
    if n == 0 || i >= |js| || js[i] == NUL then Found(i)
    else if !IsHex(js[i]) then Inval
    else ScanHex(js, i + 1, n - 1)
  }

  /** Position of the quote that ends the string whose body continues at `i`. */
  function ScanString(js: bytes, i: nat): (r: Scan)
    ensures r.Found? ==> i <= r.end < |js|
    decreases |js| - i
  {
    if i >= |js| || js[i] == NUL then Part
    else if js[i] == QUOTE then Found(i)
    else if js[i] == BACKSLASH && i + 1 < |js| then
      if SimpleEscape(js[i + 1]) then ScanString(js, i + 2)
      else if js[i + 1] == 117 then
        var h := ScanHex(js, i + 2, 4);
        if h.Found? then ScanString(js, h.end) else Inval
      else Inval
    else ScanString(js, i + 1)
  }

  // ---- Back-scans over the tokens ----

  /** The last open token below index `n`, or -1. */
  function LastOpen(toks: seq<Token>, n: nat): (r: int)
    requires n <= |toks|
    ensures -1 <= r < n
    ensures r >= 0 ==> IsOpen(toks[r])
    ensures forall i :: r < i < n ==> !IsOpen(toks[i])
  {
    if n == 0 then -1
    else if IsOpen(toks[n - 1]) then n - 1
    else LastOpen(toks, n - 1)
  }

  /** The last open object or array below index `n`, or -1. */
  function LastOpenContainer(toks: seq<Token>, n: nat): (r: int)
    requires n <= |toks|
    ensures -1 <= r < n
    ensures r >= 0 ==> IsOpen(toks[r]) && IsContainer(toks[r])
    ensures forall i :: r < i < n ==> !(IsOpen(toks[i]) && IsContainer(toks[i]))
  {
    if n == 0 then -1
    else if IsOpen(toks[n - 1]) && IsContainer(toks[n - 1]) then n - 1
    else LastOpenContainer(toks, n - 1)
  }

  /** The superior token, if there is one, gets one more child. */
  function Bump(toks: seq<Token>, super: int): (r: seq<Token>)
    requires -1 <= super < |toks|
    ensures |r| == |toks|
  {
    if super == -1 then toks else toks[super := toks[super].(size := toks[super].size + 1)]
  }

  // ---- One character of the main loop ----

  datatype Step = Next(p: Parser) | Stop(code: int)

  function Alloc(p: Parser, t: Token, cap: nat, pos: nat, super: int): (r: Step)
    requires Valid(p) && -1 <= super <= |p.toks|
    ensures r.Next? ==> Valid(r.p)
  {
    if |p.toks| >= cap then Stop(ERROR_NOMEM)
    else Next(Parser(pos, Bump(p.toks, p.super) + [t], super))
  }

  function CloseStep(p: Parser, typ: TokType): (r: Step)
    requires Valid(p)
    ensures r.Next? ==> Valid(r.p)
  {
    var i := LastOpen(p.toks, |p.toks|);
    if i == -1 || p.toks[i].typ != typ then Stop(ERROR_INVAL)
    else
      var toks := p.toks[i := p.toks[i].(end := p.pos + 1)];
      Next(Parser(p.pos + 1, toks, LastOpen(toks, i)))
  }

  function CommaStep(p: Parser): (r: Step)
    requires Valid(p)
    ensures r.Next? && Valid(r.p)
  {
    if p.super != -1 && !IsContainer(p.toks[p.super]) then
      var i := LastOpenContainer(p.toks, |p.toks|);
      Next(p.(pos := p.pos + 1, super := if i == -1 then p.super else i))
    else Next(p.(pos := p.pos + 1))
  }

  /** In strict mode a primitive is no key: not directly in an object, nor a second value of a key. */
  predicate PrimitiveAllowed(p: Parser)
    requires Valid(p)
  {
    p.super == -1
    || !(p.toks[p.super].typ.Object? || (p.toks[p.super].typ.String? && p.toks[p.super].size != 0))
  }

  predicate StartsPrimitive(c: byte) { c == MINUS || IsDigit(c) || c == 116 || c == 102 || c == 110 }

  function StepAt(js: bytes, cap: nat, p: Parser): (r: Step)
    requires Valid(p) && p.pos < |js|
    ensures r.Next? ==> Valid(r.p) && p.pos < r.p.pos <= |js|
  {
    var c := js[p.pos];
    if c == LBRACE || c == LBRACKET then
      Alloc(p, Token(if c == LBRACE then Object else Array, p.pos, -1, 0), cap, p.pos + 1, |p.toks|)
    else if c == RBRACE then CloseStep(p, Object)
    else if c == RBRACKET then CloseStep(p, Array)
    else if c == QUOTE then
      match ScanString(js, p.pos + 1)
      case Found(e) => Alloc(p, Token(String, p.pos + 1, e, 0), cap, e + 1, p.super)
      case Inval => Stop(ERROR_INVAL)
      case Part => Stop(ERROR_PART)
    else if IsSpace(c) then Next(p.(pos := p.pos + 1))
    else if c == COLON then Next(p.(pos := p.pos + 1, super := |p.toks| - 1))
    else if c == COMMA then CommaStep(p)
    else if StartsPrimitive(c) then
      if !PrimitiveAllowed(p) then Stop(ERROR_INVAL)
      else
        match ScanPrimitive(js, p.pos)
        case Found(e) => Alloc(p, Token(Primitive, p.pos, e, 0), cap, e, p.super)
        case Inval => Stop(ERROR_INVAL)
        case Part => Stop(ERROR_PART)
    else Stop(ERROR_INVAL)
  }

  predicate Live(js: bytes, p: Parser) { p.pos < |js| && js[p.pos] != NUL }

  /** A whole call: the state it leaves and what it returns. */
  function Run(js: bytes, cap: nat, p: Parser): (r: (Parser, int))
    requires Valid(p)
    ensures Valid(r.0)
    decreases |js| - p.pos
  {
    if !Live(js, p) then
      (p, if LastOpen(p.toks, |p.toks|) != -1 then ERROR_PART else |p.toks|)
    else
      match StepAt(js, cap, p)
      case Next(q) => Run(js, cap, q)
      case Stop(code) => (p, code)
  }

  /** The call with tokens == NULL: only positions and the count move. */
  function CountRun(js: bytes, pos: nat, count: nat): int
    decreases |js| - pos
  {
    if pos >= |js| || js[pos] == NUL then count
    else
      var c := js[pos];
      if c == LBRACE || c == LBRACKET then CountRun(js, pos + 1, count + 1)
      else if c == RBRACE || c == RBRACKET || IsSpace(c) || c == COLON || c == COMMA then CountRun(js, pos + 1, count)
      else if c == QUOTE then
        match ScanString(js, pos + 1)
        case Found(e) => CountRun(js, e + 1, count + 1)
        case Inval => ERROR_INVAL
        case Part => ERROR_PART
      else if StartsPrimitive(c) then
        match ScanPrimitive(js, pos)
        case Found(e) => PrimitiveMoves(js, pos, e); CountRun(js, e, count + 1)
        case Inval => ERROR_INVAL
        case Part => ERROR_PART
      else ERROR_INVAL
  }

  lemma PrimitiveMoves(js: bytes, pos: nat, e: nat)
    requires pos < |js| && StartsPrimitive(js[pos]) && ScanPrimitive(js, pos) == Found(e)
    ensures pos < e
  {
  }
}
