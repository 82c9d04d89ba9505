/** The counting pass of the tokenizer, on every text that falls apart into lexemes, in whatever order they come. */
module JsmnCount {
  import opened Bytes
  import opened Jsmn
  import opened JsonTree
  import JsmnStack
  import JsmnTree

  /** A bracket, mark or blank; a primitive; a string with its quotes. */
  datatype Lexeme = Mark(c: byte) | Word(text: bytes) | Name(body: bytes)

  function TextOf(l: Lexeme): bytes { match l case Mark(c) => [c] case Word(t) => t case Name(b) => Quoted(b) }

  function Texts(ls: seq<Lexeme>): bytes { if ls == [] then [] else TextOf(ls[0]) + Texts(ls[1..]) }

  predicate Delimits(l: Lexeme) { l.Mark? && l.c in Ascii(" \t\r\n,]}") }

  /** Each lexeme is well formed, and behind a primitive stands a delimiter. */
  predicate Lexed(ls: seq<Lexeme>) {
    ls == []
    || (Lexed(ls[1..]) && Fits(ls[0]) && (ls[0].Word? ==> |ls| > 1 && Delimits(ls[1])))
  }

  /** The lexemes that are tokens: opening brackets, primitives and strings. */
  function Tokens(ls: seq<Lexeme>): nat {
    if ls == [] then 0 else One(ls[0]) + Tokens(ls[1..])
  }

  lemma Marks(c: byte)
    ensures c in Ascii("{}[]:,") <==> c in {LBRACE, RBRACE, LBRACKET, RBRACKET, COLON, COMMA}
    ensures c in Ascii("{[") <==> c in {LBRACE, LBRACKET}
  {
    assert Ascii("{}[]:,") == [123, 125, 91, 93, 58, 44];
    assert Ascii("{[") == [123, 91];
  }

  /** The pass counts the tokens, brackets matched or not. */
  lemma CountsTokens(ls: seq<Lexeme>)
    requires Lexed(ls)
    ensures CountRun(Texts(ls), 0, 0) == Tokens(ls)
  {
    hide Lexed, Texts, Tokens;
    var js := Texts(ls);
    CountsFrom(js, 0, 0, ls);
    assert CountRun(js, |js|, Tokens(ls)) == Tokens(ls);
  }

  lemma {:induction false} CountsFrom(js: bytes, i: nat, n: nat, ls: seq<Lexeme>)
    requires Lexed(ls) && At(js, i, Texts(ls))
    ensures CountRun(js, i, n) == CountRun(js, i + |Texts(ls)|, n + Tokens(ls))
    decreases |ls|
  {
    hide CountRun, PrimText, Body, Ascii, At, Texts, TextOf, Lexed, Tokens, EndsPrimitive, Delimits;
    Unfold(ls);
    if ls != [] {
      var t := TextOf(ls[0]);
      AtSplit(js, i, t, Texts(ls[1..]));
      if ls[0].Word? {
        WordText(ls[0]);
        Follows(js, i + |t|, ls[1..]);
      }
      OneLexeme(js, i, n, ls[0]);
      CountsFrom(js, i + |t|, n + One(ls[0]), ls[1..]);
    }
  }

  lemma Unfold(ls: seq<Lexeme>)
    requires Lexed(ls)
    ensures ls == [] ==> Texts(ls) == [] && Tokens(ls) == 0
    ensures ls != [] ==>
      && Texts(ls) == TextOf(ls[0]) + Texts(ls[1..]) && Lexed(ls[1..]) && Fits(ls[0])
      && Tokens(ls) == One(ls[0]) + Tokens(ls[1..])
      && (ls[0].Word? ==> |ls| > 1 && Delimits(ls[1]))
  {
  }

  predicate Fits(l: Lexeme) {
    match l
    case Mark(c) => c in Ascii(" \t\r\n") || c in Ascii("{}[]:,")
    case Word(t) => PrimText(t)
    case Name(b) => Body(b)
  }

  function One(l: Lexeme): nat { if l.Mark? && l.c !in Ascii("{[") then 0 else 1 }

  lemma Follows(js: bytes, i: nat, ls: seq<Lexeme>)
    requires At(js, i, Texts(ls)) && ls != [] && Delimits(ls[0])
    ensures i < |js| && EndsPrimitive(js[i])
  {
    AtSplit(js, i, [ls[0].c], Texts(ls[1..]));
    AtIndex(js, i, [ls[0].c], 0);
    JsmnStack.Blanks(js[i]);
  }

  lemma WordText(l: Lexeme)
    requires l.Word?
    ensures TextOf(l) == l.text
  {
  }

  lemma OneLexeme(js: bytes, i: nat, n: nat, l: Lexeme)
    requires At(js, i, TextOf(l))
    requires Fits(l) && (l.Word? ==> i + |l.text| < |js| && EndsPrimitive(js[i + |l.text|]))
    ensures CountRun(js, i, n) == CountRun(js, i + |TextOf(l)|, n + One(l))
  {
    hide Ascii;
    AtIndex(js, i, TextOf(l), 0);
    match l {
      case Mark(c) =>
        Marks(c);
        JsmnStack.Blanks(c);
      case Word(t) =>
        JsmnTree.ScanPrim(js, i, t);
      case Name(b) =>
        AtSplit(js, i, [QUOTE] + b, [QUOTE]);
        AtSplit(js, i, [QUOTE], b);
        AtIndex(js, i + 1 + |b|, [QUOTE], 0);
        JsmnTree.ScanBody(js, i + 1, b);
    }
  }
}
