/**
 A measure of tokens for which a namespace counts nothing.  Every token weighs one, but a string
 "Namespace" or "Uri" in front of a number takes one off, so that the two together weigh nothing:
 NodeIds and QualifiedNames read such a pair without having written it when it is zero.
 */
module Weights {
  import opened Bytes
  import opened JsonTree
  import opened TokenWalk
  import opened RoundTrip
  import opened U = UaTypes
  import Itoa
  import Jsmn
  import ParseInteger

  predicate IsNumber(text: bytes) { ParseInteger.UnsignedOf(text).Some? }

  predicate NamespaceKey(key: bytes) { key == KEY_NAMESPACE || key == KEY_URI }

  // ---- On a tree ----

  predicate NumberPrim(j: Json) { j.Prim? && IsNumber(j.text) }

  function JsonWeight(j: Json): (r: nat)
    ensures r >= 1
    decreases j, 1
  {
    match j
    case Prim(_) => 1
    case Str(_) => 1
    case Arr(es) => 1 + ElemsWeight(es)
    case Obj(ms) => 1 + MembersWeight(ms)
  }

  function ElemsWeight(es: Elems): nat
    decreases es, 0
  {
    match es
    case NoElems => 0
    case MoreElems(e, rest) => JsonWeight(e) + ElemsWeight(rest)
  }

  function MembersWeight(ms: Members): nat
    decreases ms, 0
  {
    match ms
    case NoMembers => 0
    case MoreMembers(k, v, rest) => MemberWeight(k, v) + MembersWeight(rest)
  }

  function MemberWeight(key: bytes, v: Json): nat
    decreases v, 2
  {
    if NamespaceKey(key) && NumberPrim(v) then 0 else 1 + JsonWeight(v)
  }

  // ---- On a token array ----

  predicate NumberAt(toks: seq<Jsmn.Token>, js: bytes, i: nat)
    requires Spans(toks, js)
  {
    i < |toks| && toks[i].typ.Primitive? && IsNumber(TokenText(js, toks[i]))
  }

  function Weight(toks: seq<Jsmn.Token>, js: bytes, i: nat): (r: int)
    requires Spans(toks, js)
    ensures r == 1 || r == -1
  {
    if i < |toks| && toks[i].typ.String? && NamespaceKey(TokenText(js, toks[i])) && NumberAt(toks, js, i + 1) then -1 else 1
  }

  /** The weight of the tokens before index `k`. */
  function Prefix(toks: seq<Jsmn.Token>, js: bytes, k: nat): int
    requires Spans(toks, js)
  {
    if k == 0 then 0 else Prefix(toks, js, k - 1) + Weight(toks, js, k - 1)
  }

  lemma PrefixStep(toks: seq<Jsmn.Token>, js: bytes, k: nat)
    requires Spans(toks, js)
    ensures Prefix(toks, js, k + 1) == Prefix(toks, js, k) + Weight(toks, js, k)
  {
  }

  // ---- Numbers ----

  /** Only integers that are not quoted are written as bare numbers. */
  lemma NumbersAreIntegers(ty: Type, v: Value)
    requires HasType(ty, v) && Encodable(ty, v) && NumberPrim(ToJson(ty, v))
    ensures (ty.Unsigned? && ty.bits != 64) || (ty.Signed? && ty.bits != 64)
  {
    hide IsNumber, StringJson, ByteStringJson, NamespaceMembers, NodeIdMembers, Itoa.Numeral, Itoa.SignedNumeral;
    NotNumbers();
    StringNumbers(if v.VString? then v.s else NullString);
  }

  lemma NotNumbers()
    ensures !IsNumber(NULL_TEXT) && !IsNumber(TRUE_TEXT) && !IsNumber(FALSE_TEXT)
  {
    ParseInteger.UnsignedReads(NULL_TEXT, [], [], [], NULL_TEXT);
    ParseInteger.UnsignedReads(TRUE_TEXT, [], [], [], TRUE_TEXT);
    ParseInteger.UnsignedReads(FALSE_TEXT, [], [], [], FALSE_TEXT);
  }

  lemma StringNumbers(s: UaString)
    ensures Escapes(s) ==> !NumberPrim(StringJson(s))
    ensures !NumberPrim(ByteStringJson(s))
  {
    hide IsNumber;
    NotNumbers();
  }

  /** What the signed conversion reads, the unsigned one reads too. */
  lemma SignedIsNumber(text: bytes)
    requires ParseInteger.SignedOf(text).Some?
    ensures IsNumber(text)
  {
    var blanks, sign, digits, tail := ParseInteger.PartsOf(text);
    ParseInteger.SignedReads(text, blanks, sign, digits, tail);
    ParseInteger.UnsignedReads(text, blanks, sign, digits, tail);
  }

  // ---- The tokens of a tree weigh what the tree does ----

  /** In an array with a bare number there are primitives only. */
  predicate Uniform(j: Json)
    decreases j, 1
  {
    match j
    case Arr(es) => (Primitives(es) || NoNumbers(es)) && UniformElems(es)
    case Obj(ms) => UniformMembers(ms)
    case _ => true
  }

  predicate Primitives(es: Elems) { es.MoreElems? ==> es.first.Prim? && Primitives(es.rest) }

  predicate NoNumbers(es: Elems) { es.MoreElems? ==> !NumberPrim(es.first) && NoNumbers(es.rest) }

  predicate UniformElems(es: Elems)
    decreases es, 0
  {
    es.MoreElems? ==> Uniform(es.first) && UniformElems(es.rest)
  }

  predicate UniformMembers(ms: Members)
    decreases ms, 0
  {
    ms.MoreMembers? ==> Uniform(ms.value) && UniformMembers(ms.rest)
  }

  lemma {:induction false} UniformJson(ty: Type, v: Value)
    requires HasType(ty, v) && Encodable(ty, v)
    ensures Uniform(ToJson(ty, v))
    decreases ty, 1, 0
  {
    hide StringJson, ByteStringJson, IsNumber;
    match ty {
      case Array(_) => UniformArray(ty, v, 0);
      case Structure(_) => UniformStructure(ty, v, 0);
      case NodeId => UniformNodeId(v.namespace, v.id);
      case QualifiedName => UniformString(v.name); UniformNamespace(KEY_URI, v.namespace);
      case LocalizedText =>
        UniformString(v.locale);
        UniformString(v.text);
        assert UniformMembers(MoreMembers(KEY_TEXT, StringJson(v.text), NoMembers));
      case String => UniformString(v.s);
      case ByteString => UniformString(v.s);
      case _ =>
    }
  }

  lemma UniformString(s: UaString)
    ensures Escapes(s) ==> Uniform(StringJson(s))
    ensures Uniform(ByteStringJson(s))
  {
  }

  lemma UniformNamespace(key: bytes, ns: nat)
    ensures UniformMembers(NamespaceMembers(key, ns))
  {
  }

  lemma UniformMember(key: bytes, v: Json, rest: Members)
    requires Uniform(v) && UniformMembers(rest)
    ensures UniformMembers(MoreMembers(key, v, rest))
  {
  }

  lemma UniformNodeId(ns: nat, id: Identifier)
    requires ValidId(id) && (id.StringId? ==> Escapes(id.s))
    ensures UniformMembers(NodeIdMembers(ns, id))
  {
    hide StringJson, ByteStringJson, NamespaceMembers, UniformMembers, Uniform, GuidText, Itoa.Numeral;
    UniformNamespace(KEY_NAMESPACE, ns);
    var tail := NamespaceMembers(KEY_NAMESPACE, ns);
    IdUniform(id);
    UniformMember(KEY_ID, IdJson(id), tail);
    if !id.Numeric? {
      UniformMember(KEY_IDTYPE, NodeIdMembers(ns, id).value, MoreMembers(KEY_ID, IdJson(id), tail));
    }
  }

  lemma IdUniform(id: Identifier)
    requires ValidId(id) && (id.StringId? ==> Escapes(id.s))
    ensures Uniform(IdJson(id)) && Uniform(Prim([49])) && Uniform(Prim([50])) && Uniform(Prim([51]))
  {
  }

  lemma {:induction false} UniformArray(ty: Type, v: Value, k: nat)
    requires ty.Array? && HasType(ty, v) && k <= |v.elems| && ElemsEncodable(ty, v, k)
    ensures var es := ElemsJson(ty, v, k);
            UniformElems(es)
            && (if (ty.elem.Unsigned? || ty.elem.Signed?) && ty.elem.bits != 64 then Primitives(es) else NoNumbers(es))
    decreases ty, 0, |v.elems| - k
  {
    hide NumberPrim, Itoa.Numeral, Itoa.SignedNumeral;
    if k < |v.elems| {
      UniformJson(ty.elem, v.elems[k]);
      UniformArray(ty, v, k + 1);
      if NumberPrim(ToJson(ty.elem, v.elems[k])) { NumbersAreIntegers(ty.elem, v.elems[k]); }
    }
  }

  lemma {:induction false} UniformStructure(ty: Type, v: Value, k: nat)
    requires ty.Structure? && HasType(ty, v) && k <= |v.fields| && FieldsEncodable(ty, v, k)
    ensures UniformMembers(FieldsJson(ty, v, k))
    decreases ty, 0, |v.fields| - k
  {
    if k < |v.fields| {
      UniformJson(ty.members[k].ty, v.fields[k]);
      UniformStructure(ty, v, k + 1);
    }
  }

  /** The first token of a tree is a number exactly if the tree is. */
  lemma FirstToken(toks: seq<Jsmn.Token>, js: bytes, i: nat, s: nat, j: Json)
    requires Spans(toks, js) && Wf(j) && Here(toks, js, i, s, j)
    ensures i < |toks| && (NumberAt(toks, js, i) <==> NumberPrim(j))
    ensures toks[i].typ.String? <==> j.Str?
  {
    hide Here, IsNumber;
    if Container(j) {
      ValueToken(toks, js, i, s, j);
    } else {
      LeafHere(toks, js, i, s, j);
    }
  }

  lemma {:induction false} TreeWeighs(toks: seq<Jsmn.Token>, js: bytes, i: nat, s: nat, j: Json)
    requires Spans(toks, js) && Wf(j) && Here(toks, js, i, s, j) && Uniform(j)
    requires j.Prim? || !NumberAt(toks, js, i + Size(j))
    ensures Prefix(toks, js, i + Size(j)) == Prefix(toks, js, i) + JsonWeight(j)
    decreases j, 1
  {
    hide Here, ElemsHere, MembersHere, Prefix, NumberAt, Wf, WfElems, WfMembers, NumberPrim, Render, RenderElems, RenderMembers, Preorder,
      NamespaceKey, Primitives, NoNumbers, UniformElems, UniformMembers;
    FirstToken(toks, js, i, s, j);
    PrefixStep(toks, js, i);
    match j {
      case Arr(es) =>
        ArrHere(toks, js, i, s, es);
        WfArr(es);
        ElemsWeigh(toks, js, i + 1, s + 1, es, true);
      case Obj(ms) =>
        ObjHere(toks, js, i, s, ms);
        WfObj(ms);
        MembersWeigh(toks, js, i + 1, s + 1, ms, true);
      case _ =>
    }
  }

  lemma WfArr(es: Elems)
    requires Wf(Arr(es))
    ensures WfElems(es)
  {
  }

  lemma WfElem(es: Elems)
    requires WfElems(es) && es.MoreElems?
    ensures Wf(es.first) && WfElems(es.rest)
  {
  }

  lemma {:induction false} ElemsWeigh(toks: seq<Jsmn.Token>, js: bytes, i: nat, s: nat, es: Elems, first: bool)
    requires Spans(toks, js) && WfElems(es) && ElemsHere(toks, js, i, s, es, first) && UniformElems(es)
    requires Primitives(es) || (NoNumbers(es) && !NumberAt(toks, js, i + ElemsSize(es)))
    ensures Prefix(toks, js, i + ElemsSize(es)) == Prefix(toks, js, i) + ElemsWeight(es)
    decreases es, 0
  {
    hide Here, ElemsHere, Prefix, NumberAt, Wf, WfElems, NumberPrim;
    if es.MoreElems? {
      WfElem(es);
      var s1 := ElemHere(toks, js, i, s, es, first);
      var j, s2 := i + Size(es.first), s1 + |Render(es.first)|;
      if es.rest.MoreElems? {
        WfElem(es.rest);
        var s3 := ElemHere(toks, js, j, s2, es.rest, false);
        FirstToken(toks, js, j, s3, es.rest.first);
      }
      TreeWeighs(toks, js, i, s1, es.first);
      ElemsWeigh(toks, js, j, s2, es.rest, false);
    }
  }

  lemma {:induction false} MembersWeigh(toks: seq<Jsmn.Token>, js: bytes, i: nat, s: nat, ms: Members, first: bool)
    requires Spans(toks, js) && WfMembers(ms) && MembersHere(toks, js, i, s, ms, first) && UniformMembers(ms)
    requires !NumberAt(toks, js, i + MembersSize(ms))
    ensures Prefix(toks, js, i + MembersSize(ms)) == Prefix(toks, js, i) + MembersWeight(ms)
    decreases ms, 0
  {
    hide Here, MembersHere, Prefix, NumberAt, Wf, WfMembers, NumberPrim, NamespaceKey;
    if ms.MoreMembers? {
      WfRest(ms);
      var s2 := MemberHere(toks, js, i, s, ms, first);
      var j, s3 := i + 1 + Size(ms.value), s2 + |Render(ms.value)|;
      if ms.rest.MoreMembers? {
        var s4 := MemberHere(toks, js, j, s3, ms.rest, false);
        KeyIsNoNumber(toks, js, j);
      }
      FirstToken(toks, js, i + 1, s2, ms.value);
      PrefixStep(toks, js, i);
      TreeWeighs(toks, js, i + 1, s2, ms.value);
      NumberWeighsOne(ms.value);
      MembersWeigh(toks, js, j, s3, ms.rest, false);
    }
  }

  lemma KeyIsNoNumber(toks: seq<Jsmn.Token>, js: bytes, i: nat)
    requires Spans(toks, js) && i < |toks| && toks[i].typ.String?
    ensures !NumberAt(toks, js, i)
  {
  }

  lemma NumberWeighsOne(j: Json)
    ensures NumberPrim(j) ==> JsonWeight(j) == 1
  {
  }
}
