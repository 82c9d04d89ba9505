/**
 JSON as a tree, its canonical rendering (no blanks, a comma exactly between siblings) and its
 preorder token list.  These are the specification that printer, tokenizer and decoder share.
 String bodies and keys are kept as they stand between the quotes, escapes included.
 */
module JsonTree {
  import opened Bytes
  import opened Jsmn

  datatype Json = Prim(text: bytes) | Str(body: bytes) | Arr(elems: Elems) | Obj(members: Members)

  datatype Elems = NoElems | MoreElems(first: Json, rest: Elems) {
    function Count(): nat { match this case NoElems => 0 case MoreElems(_, r) => 1 + r.Count() }
  }

  datatype Members = NoMembers | MoreMembers(key: bytes, value: Json, rest: Members) {
    function Count(): nat { match this case NoMembers => 0 case MoreMembers(_, _, r) => 1 + r.Count() }
  }

  predicate Container(j: Json) { j.Arr? || j.Obj? }

  function Quoted(b: bytes): bytes { [QUOTE] + b + [QUOTE] }

  function Render(j: Json): (r: bytes)
    decreases j, 1
  {
    match j
    case Prim(t) => t
    case Str(b) => Quoted(b)
    case Arr(es) => [LBRACKET] + RenderElems(es, true) + [RBRACKET]
    case Obj(ms) => [LBRACE] + RenderMembers(ms, true) + [RBRACE]
  }

  function Separator(first: bool): bytes { if first then [] else [COMMA] }

  function RenderElems(es: Elems, first: bool): bytes
    decreases es, 0
  {
    match es
    case NoElems => []
    case MoreElems(e, rest) => Separator(first) + Render(e) + RenderElems(rest, false)
  }

  function RenderMembers(ms: Members, first: bool): bytes
    decreases ms, 0
  {
    match ms
    case NoMembers => []
    case MoreMembers(k, v, rest) =>
      Separator(first) + (Quoted(k) + [COLON]) + Render(v) + RenderMembers(rest, false)
  }

  /** The tokens of `j` when its rendering starts at `s`. */
  function Preorder(j: Json, s: nat): (r: seq<Token>)
    ensures |r| > 0
    decreases j, 1
  {
    match j
    case Prim(t) => [Token(Primitive, s, s + |t|, 0)]
    case Str(b) => [Token(String, s + 1, s + 1 + |b|, 0)]
    case Arr(es) => [Token(Array, s, s + |Render(j)|, es.Count())] + PreorderElems(es, s + 1, true)
    case Obj(ms) => [Token(Object, s, s + |Render(j)|, ms.Count())] + PreorderMembers(ms, s + 1, true)
  }

  function PreorderElems(es: Elems, s: nat, first: bool): seq<Token>
    decreases es, 0
  {
    match es
    case NoElems => []
    case MoreElems(e, rest) =>
      var s1 := s + |Separator(first)|;
      Preorder(e, s1) + PreorderElems(rest, s1 + |Render(e)|, false)
  }

  function KeyToken(k: bytes, s: nat): Token { Token(String, s + 1, s + 1 + |k|, 1) }

  function PreorderMembers(ms: Members, s: nat, first: bool): seq<Token>
    decreases ms, 0
  {
    match ms
    case NoMembers => []
    case MoreMembers(k, v, rest) =>
      var s1 := s + |Separator(first)|;
      var s2 := s1 + |k| + 3;
      [KeyToken(k, s1)] + Preorder(v, s2) + PreorderMembers(rest, s2 + |Render(v)|, false)
  }

  // ---- Well-formedness: what a tokenizer can read back ----

  predicate PrimText(t: bytes) {
    t != [] && StartsPrimitive(t[0])
    && forall i :: 0 <= i < |t| ==> 32 < t[i] < 127 && !EndsPrimitive(t[i])
  }

  /** A string body: no bare quote, no NUL, every backslash starts a legal escape. */
  predicate Body(b: bytes) {
    if b == [] then true
    else if b[0] == NUL || b[0] == QUOTE then false
    else if b[0] == BACKSLASH then
      |b| >= 2 &&
      if SimpleEscape(b[1]) then Body(b[2..])
      else b[1] == 117 && |b| >= 6 && IsHex(b[2]) && IsHex(b[3]) && IsHex(b[4]) && IsHex(b[5]) && Body(b[6..])
    else Body(b[1..])
  }

  predicate Wf(j: Json) {
    match j
    case Prim(t) => PrimText(t)
    case Str(b) => Body(b)
    case Arr(es) => WfElems(es)
    case Obj(ms) => WfMembers(ms)
  }

  predicate WfElems(es: Elems) {
    match es
    case NoElems => true
    case MoreElems(e, rest) => Wf(e) && WfElems(rest)
  }

  predicate WfMembers(ms: Members) {
    match ms
    case NoMembers => true
    case MoreMembers(k, v, rest) => Body(k) && Wf(v) && WfMembers(rest)
  }

  // ---- One unfolding at a time, for proofs that hide the definitions ----

  lemma UnfoldLeaf(j: Json, s: nat)
    ensures j.Prim? ==> Render(j) == j.text && Preorder(j, s) == [Token(Primitive, s, s + |j.text|, 0)]
    ensures j.Str? ==> Render(j) == Quoted(j.body) && Preorder(j, s) == [Token(String, s + 1, s + 1 + |j.body|, 0)]
  {
  }

  lemma UnfoldArr(es: Elems, s: nat)
    ensures Render(Arr(es)) == [LBRACKET] + RenderElems(es, true) + [RBRACKET]
    ensures Preorder(Arr(es), s) == [Token(Array, s, s + |RenderElems(es, true)| + 2, es.Count())] + PreorderElems(es, s + 1, true)
  {
  }

  lemma UnfoldObj(ms: Members, s: nat)
    ensures Render(Obj(ms)) == [LBRACE] + RenderMembers(ms, true) + [RBRACE]
    ensures Preorder(Obj(ms), s) == [Token(Object, s, s + |RenderMembers(ms, true)| + 2, ms.Count())] + PreorderMembers(ms, s + 1, true)
  {
  }

  lemma UnfoldNoElems(s: nat, first: bool)
    ensures RenderElems(NoElems, first) == [] && PreorderElems(NoElems, s, first) == []
  {
  }

  lemma UnfoldElems(es: Elems, s: nat, first: bool)
    requires es.MoreElems?
    ensures RenderElems(es, first) == Separator(first) + Render(es.first) + RenderElems(es.rest, false)
    ensures var s1 := s + |Separator(first)|;
            PreorderElems(es, s, first)
              == Preorder(es.first, s1) + PreorderElems(es.rest, s1 + |Render(es.first)|, false)
  {
  }

  lemma UnfoldNoMembers(s: nat, first: bool)
    ensures RenderMembers(NoMembers, first) == [] && PreorderMembers(NoMembers, s, first) == []
  {
  }

  lemma UnfoldMembers(ms: Members, s: nat, first: bool)
    requires ms.MoreMembers?
    ensures RenderMembers(ms, first)
         == Separator(first) + (Quoted(ms.key) + [COLON]) + Render(ms.value) + RenderMembers(ms.rest, false)
    ensures var s1 := s + |Separator(first)|;
            var s2 := s1 + |ms.key| + 3;
            PreorderMembers(ms, s, first)
              == [KeyToken(ms.key, s1)] + Preorder(ms.value, s2) + PreorderMembers(ms.rest, s2 + |Render(ms.value)|, false)
  {
  }
}
