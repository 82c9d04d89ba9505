/**
 What the decoder reads from the tokens of an encoded value: first the leaves, then the built-in
 objects, then arrays and structures.
 */
module RoundTrip {
  import opened Arith
  import opened Bytes
  import opened JsonTree
  import opened TokenWalk
  import opened Decoder
  import opened FieldDispatch
  import opened U = UaTypes
  import Base64
  import Itoa
  import Jsmn
  import JsonText
  import ParseInteger
  import StringCodec

  // ---- Conditions ----

  /** A type description: member names are plain, non-empty and distinct, and a structure has members. */
  predicate WfType(ty: Type)
    decreases ty
  {
    match ty
    case Array(elem) => WfType(elem)
    case Structure(ms) =>
      |ms| > 0 && DistinctNames(ms) && forall i :: 0 <= i < |ms| ==> PlainName(ms[i].name) && WfType(ms[i].ty)
    case Skip => false
    case _ => true
  }

  predicate PlainName(name: bytes) { name != [] && PlainText(name) }

  predicate PlainText(b: bytes) { forall k :: 0 <= k < |b| ==> b[k] != NUL && b[k] != QUOTE && b[k] != BACKSLASH }

  predicate NotEmpty(s: UaString) { s != Text([]) }

  /**
   The values whose decoders end just past them: no empty byte string and no empty array, whose
   decoders stay on the token.
   */
  predicate Returns(ty: Type, v: Value)
    requires HasType(ty, v)
    decreases ty
  {
    match ty
    case ByteString => NotEmpty(v.s)
    case NodeId => v.id.OpaqueId? ==> NotEmpty(v.id.b)
    case Array(elem) => |v.elems| > 0 && forall i :: 0 <= i < |v.elems| ==> Returns(elem, v.elems[i])
    case Structure(ms) => forall i :: 0 <= i < |ms| ==> Returns(ms[i].ty, v.fields[i])
    case _ => true
  }

  // ---- The trees are well-formed ----

  lemma PlainBody(b: bytes)
    requires PlainText(b)
    ensures Body(b)
  {
    StringCodec.BodyPlainRun(b, []);
    assert b + [] == b;
  }

  lemma NumeralText(v: int)
    ensures v >= 0 ==> PrimText(Itoa.Numeral(v, 10)) && Body(Itoa.Numeral(v, 10))
    ensures PrimText(Itoa.SignedNumeral(v)) && Body(Itoa.SignedNumeral(v))
  {
    hide Itoa.Numeral;
    var n := if v < 0 then -v else v;
    Itoa.NumeralDigits(n);
    PlainBody(Itoa.Numeral(n, 10));
    PlainBody(Itoa.SignedNumeral(v));
  }

  lemma HexTextPlain(d: nat, n: nat)
    ensures PlainText(HexText(d, n)) && GuidChars(HexText(d, n))
  {
  }

  lemma {:induction false} HexBytesPlain(b: bytes)
    ensures PlainText(HexBytes(b)) && GuidChars(HexBytes(b))
    decreases |b|
  {
    hide HexText;
    if b != [] {
      HexTextPlain(b[0], 2);
      HexBytesPlain(b[1..]);
    }
  }

  lemma GuidTextPlain(g: Guid)
    requires ValidGuid(g)
    ensures PlainText(GuidText(g)) && GuidChars(GuidText(g))
  {
    hide HexText, HexBytes;
    HexTextPlain(g.data1, 8);
    HexTextPlain(g.data2, 4);
    HexTextPlain(g.data3, 4);
    HexBytesPlain(g.data4[..2]);
    HexBytesPlain(g.data4[2..]);
  }

  lemma Base64Plain(s: bytes)
    ensures PlainText(Base64.Base64Of(s))
  {
    hide Base64.Sextet;
    var p := Base64.Base64Of(s);
    forall k | 0 <= k < |p| ensures p[k] != NUL && p[k] != QUOTE && p[k] != BACKSLASH {
      assert p[k] == Base64.SymbolAt(s, k);
    }
  }

  lemma StringWf(s: UaString)
    ensures Escapes(s) ==> Wf(StringJson(s))
    ensures Wf(ByteStringJson(s))
  {
    hide StringCodec.Escape, Base64.Base64Of;
    NullPrim();
    PlainBody([]);
    if s.Text? {
      if Escapes(s) { StringCodec.StringRoundTrip(s.data); }
      Base64Plain(s.data);
      PlainBody(Base64.Base64Of(s.data));
    }
  }

  lemma NullPrim()
    ensures PrimText(NULL_TEXT) && PrimText(TRUE_TEXT) && PrimText(FALSE_TEXT)
    ensures PrimText([49]) && PrimText([50]) && PrimText([51])
  {
  }

  lemma KeysPlain()
    ensures PlainName(KEY_ID) && PlainName(KEY_IDTYPE) && PlainName(KEY_NAMESPACE) && PlainName(KEY_NAME)
    ensures PlainName(KEY_URI) && PlainName(KEY_LOCALE) && PlainName(KEY_TEXT)
  {
  }

  lemma LeafWf(ty: Type, v: Value)
    requires HasType(ty, v) && Encodable(ty, v) && IsLeaf(ty)
    ensures Wf(ToJson(ty, v)) && !Container(ToJson(ty, v))
  {
    hide Itoa.Numeral, Itoa.SignedNumeral, GuidText, Body, PrimText, StringJson, ByteStringJson;
    NullPrim();
    match ty {
      case Boolean =>
      case Unsigned(_) => NumeralText(v.n);
      case Signed(_) => NumeralText(v.n);
      case String => StringWf(v.s); StringKind(v.s);
      case ByteString => StringWf(v.s); StringKind(v.s);
      case GuidType => GuidTextPlain(v.g); PlainBody(GuidText(v.g));
      case _ =>
    }
  }

  lemma StringKind(s: UaString)
    ensures Escapes(s) ==> !Container(StringJson(s))
    ensures !Container(ByteStringJson(s))
  {
  }

  lemma NamespaceWf(key: bytes, ns: nat)
    requires PlainName(key)
    ensures WfMembers(NamespaceMembers(key, ns))
  {
    hide Itoa.Numeral, Body, PrimText;
    NumeralText(ns);
    PlainBody(key);
  }

  lemma WfMember(key: bytes, v: Json, rest: Members)
    requires Body(key) && Wf(v) && WfMembers(rest)
    ensures WfMembers(MoreMembers(key, v, rest))
  {
  }

  lemma NodeIdWf(ns: nat, id: Identifier)
    requires ValidId(id) && (id.StringId? ==> Escapes(id.s))
    ensures WfMembers(NodeIdMembers(ns, id))
  {
    hide Itoa.Numeral, Body, PrimText, StringJson, ByteStringJson, GuidText, NamespaceMembers;
    KeysPlain();
    NullPrim();
    NamespaceWf(KEY_NAMESPACE, ns);
    PlainBody(KEY_ID);
    PlainBody(KEY_IDTYPE);
    var tail := NamespaceMembers(KEY_NAMESPACE, ns);
    match id {
      case Numeric(n) =>
        NumeralText(n);
        WfMember(KEY_ID, Prim(Itoa.Numeral(n, 10)), tail);
      case StringId(s) =>
        StringWf(s);
        WfMember(KEY_ID, StringJson(s), tail);
        WfMember(KEY_IDTYPE, Prim([49]), MoreMembers(KEY_ID, StringJson(s), tail));
      case GuidId(g) =>
        GuidTextPlain(g);
        PlainBody(GuidText(g));
        WfMember(KEY_ID, Str(GuidText(g)), tail);
        WfMember(KEY_IDTYPE, Prim([50]), MoreMembers(KEY_ID, Str(GuidText(g)), tail));
      case OpaqueId(b) =>
        StringWf(b);
        WfMember(KEY_ID, ByteStringJson(b), tail);
        WfMember(KEY_IDTYPE, Prim([51]), MoreMembers(KEY_ID, ByteStringJson(b), tail));
    }
  }

  /** The tree of a value can be tokenized. */
  lemma {:induction false} JsonWf(ty: Type, v: Value)
    requires WfType(ty) && HasType(ty, v) && Encodable(ty, v)
    ensures Wf(ToJson(ty, v))
    decreases ty, 1, 0
  {
    hide StringJson, Body, PrimText, NamespaceMembers, NodeIdMembers;
    KeysPlain();
    match ty {
      case NodeId => NodeIdWf(v.namespace, v.id);
      case QualifiedName =>
        StringWf(v.name);
        PlainBody(KEY_NAME);
        NamespaceWf(KEY_URI, v.namespace);
      case LocalizedText =>
        StringWf(v.locale);
        StringWf(v.text);
        PlainBody(KEY_LOCALE);
        PlainBody(KEY_TEXT);
        WfMember(KEY_TEXT, StringJson(v.text), NoMembers);
      case Array(_) => ElemsJsonWf(ty, v, 0);
      case Structure(_) => FieldsJsonWf(ty, v, 0);
      case _ => LeafWf(ty, v);
    }
  }

  lemma {:induction false} ElemsJsonWf(ty: Type, v: Value, i: nat)
    requires WfType(ty) && ty.Array? && HasType(ty, v) && i <= |v.elems| && ElemsEncodable(ty, v, i)
    ensures WfElems(ElemsJson(ty, v, i))
    decreases ty, 0, |v.elems| - i
  {
    if i < |v.elems| {
      JsonWf(ty.elem, v.elems[i]);
      ElemsJsonWf(ty, v, i + 1);
    }
  }

  lemma {:induction false} FieldsJsonWf(ty: Type, v: Value, i: nat)
    requires WfType(ty) && ty.Structure? && HasType(ty, v) && i <= |v.fields| && FieldsEncodable(ty, v, i)
    ensures WfMembers(FieldsJson(ty, v, i))
    decreases ty, 0, |v.fields| - i
  {
    if i < |v.fields| {
      PlainBody(ty.members[i].name);
      JsonWf(ty.members[i].ty, v.fields[i]);
      FieldsJsonWf(ty, v, i + 1);
    }
  }

  // ---- Leaves come back ----

  /** The token of a leaf and its text. */
  lemma LeafHere(toks: seq<Jsmn.Token>, js: bytes, i: nat, s: nat, j: Json)
    requires Spans(toks, js) && Wf(j) && !Container(j) && Here(toks, js, i, s, j)
    ensures i < |toks| && Size(j) == 1 && toks[i].size == 0
    ensures j.Prim? ==> toks[i].typ.Primitive? && TokenText(js, toks[i]) == j.text && toks[i].start == s
    ensures j.Str? ==> toks[i].typ.String? && TokenText(js, toks[i]) == j.body
  {
    hide Render, Preorder;
    UnfoldLeaf(j, s);
    AtIndex(toks, i, Preorder(j, s), 0);
    if j.Prim? {
      AtSlice(js, s, j.text);
    } else {
      AtSplit(js, s, [QUOTE] + j.body, [QUOTE]);
      AtSplit(js, s, [QUOTE], j.body);
      AtSlice(js, s + 1, j.body);
    }
  }

  lemma NullHere(toks: seq<Jsmn.Token>, js: bytes, i: nat, s: nat, j: Json)
    requires Spans(toks, js) && Wf(j) && !Container(j) && Here(toks, js, i, s, j)
    ensures j.Str? ==> !IsJsonNull(toks, js, i)
    ensures j == Prim(NULL_TEXT) ==> IsJsonNull(toks, js, i)
  {
    hide Render, Preorder;
    LeafHere(toks, js, i, s, j);
    if j.Prim? {
      UnfoldLeaf(j, s);
    }
  }

  lemma ModPow16(d: nat, p: int)
    requires p > 0
    ensures d % (16 * p) == d / p % 16 * p + d % p
  {
    var q, r := d / p, d % p;
    assert q * p + r == d;
    var a, k := q / 16, q % 16;
    assert q == a * 16 + k;
    Distribute(a, k, p);
    if k < 15 { AtLeastOne(15 - k, p); }
    Distribute15(k, p);
    DivModOf(a, k * p + r, 16 * p);
  }

  lemma Distribute(a: int, k: int, p: int)
    ensures (a * 16 + k) * p == a * (16 * p) + k * p
  {
  }

  lemma Distribute15(k: int, p: int)
    ensures (15 - k) * p == 15 * p - k * p
  {
  }

  lemma {:induction false} HexBack(d: nat, n: nat)
    ensures HexNumber(HexText(d, n)) == d % Pow16(n)
    decreases n
  {
    if n > 0 {
      HexBack(d, n - 1);
      ModPow16(d, Pow16(n - 1));
      var t := HexText(d, n);
      assert t[1..] == HexText(d, n - 1);
      HexDigit(Nibble(d, n - 1));
    }
  }

  lemma HexDigit(k: int)
    requires 0 <= k < 16
    ensures Hex2Int(HexUpper(k)) == k
  {
  }

  lemma Pow16s()
    ensures Pow16(0) == 1 && Pow16(1) == 16 && Pow16(2) == 0x100 && Pow16(4) == 0x1_0000 && Pow16(8) == 0x1_0000_0000
  {
    assert Pow16(3) == 0x1000;
    assert Pow16(5) == 0x10_0000;
    assert Pow16(6) == 0x100_0000;
    assert Pow16(7) == 0x1000_0000;
  }

  lemma ByteBack(b: byte, c: bytes, i: nat)
    requires At(c, i, HexText(b, 2))
    ensures HexByte(c, i) == b
  {
    Pow16s();
    HexDigit(Nibble(b, 1));
    HexDigit(Nibble(b, 0));
    assert HexText(b, 1) == [HexUpper(Nibble(b, 0))] + HexText(b, 0);
    assert HexText(b, 2) == [HexUpper(Nibble(b, 1)), HexUpper(Nibble(b, 0))];
    AtIndex(c, i, HexText(b, 2), 0);
    AtIndex(c, i, HexText(b, 2), 1);
  }

  lemma HexBytesStep(b: bytes)
    requires b != []
    ensures HexBytes(b) == HexText(b[0], 2) + HexBytes(b[1..])
  {
  }

  lemma {:induction false} BytesAt(c: bytes, i: nat, b: bytes, k: nat)
    requires k < |b| && At(c, i, HexBytes(b))
    ensures At(c, i + 2 * k, HexText(b[k], 2))
    decreases k
  {
    hide HexText, HexBytes, At;
    HexBytesStep(b);
    AtSplit(c, i, HexText(b[0], 2), HexBytes(b[1..]));
    if k > 0 {
      BytesAt(c, i + 2, b[1..], k - 1);
    }
  }

  lemma GuidParts(g: Guid)
    requires ValidGuid(g)
    ensures var c := GuidText(g);
            && At(c, 0, HexText(g.data1, 8)) && At(c, 9, HexText(g.data2, 4)) && At(c, 14, HexText(g.data3, 4))
            && At(c, 19, HexBytes(g.data4[..2])) && At(c, 24, HexBytes(g.data4[2..]))
  {
    hide HexText, HexBytes, At;
    var c := GuidText(g);
    var a, b, d, e, f := HexText(g.data1, 8), HexText(g.data2, 4), HexText(g.data3, 4), HexBytes(g.data4[..2]), HexBytes(g.data4[2..]);
    AtSelf(c);
    AtSplit(c, 0, a + [MINUS] + b + [MINUS] + d + [MINUS] + e + [MINUS], f);
    AtSplit(c, 0, a + [MINUS] + b + [MINUS] + d + [MINUS] + e, [MINUS]);
    AtSplit(c, 0, a + [MINUS] + b + [MINUS] + d + [MINUS], e);
    AtSplit(c, 0, a + [MINUS] + b + [MINUS] + d, [MINUS]);
    AtSplit(c, 0, a + [MINUS] + b + [MINUS], d);
    AtSplit(c, 0, a + [MINUS] + b, [MINUS]);
    AtSplit(c, 0, a + [MINUS], b);
    AtSplit(c, 0, a, [MINUS]);
  }

  lemma AtSelf(c: bytes)
    ensures At(c, 0, c)
  {
  }

  /** A Guid is read back from its text. */
  lemma GuidBack(g: Guid)
    requires ValidGuid(g)
    ensures GuidFromChars(GuidText(g)) == g
  {
    hide HexText, HexBytes, GuidText, HexNumber, HexByte;
    var c := GuidText(g);
    GuidParts(g);
    Pow16s();
    AtSlice(c, 0, HexText(g.data1, 8));
    AtSlice(c, 9, HexText(g.data2, 4));
    AtSlice(c, 14, HexText(g.data3, 4));
    HexBack(g.data1, 8);
    HexBack(g.data2, 4);
    HexBack(g.data3, 4);
    var lo, hi := g.data4[..2], g.data4[2..];
    BytesAt(c, 19, lo, 0);
    BytesAt(c, 19, lo, 1);
    ByteBack(lo[0], c, 19);
    ByteBack(lo[1], c, 21);
    forall k | 0 <= k < 6 ensures HexByte(c, 24 + 2 * k) == hi[k] {
      BytesAt(c, 24, hi, k);
      ByteBack(hi[k], c, 24 + 2 * k);
    }
    var d := GuidFromChars(c).data4;
    assert d[2] == HexByte(c, 24 + 2 * 0) && d[3] == HexByte(c, 24 + 2 * 1) && d[4] == HexByte(c, 24 + 2 * 2);
    assert d[5] == HexByte(c, 24 + 2 * 3) && d[6] == HexByte(c, 24 + 2 * 4) && d[7] == HexByte(c, 24 + 2 * 5);
    assert forall k :: 0 <= k < 8 ==> d[k] == g.data4[k];
    assert d == g.data4;
  }

  lemma CastBack(bits: nat, n: int)
    requires Width(bits)
    ensures 0 <= n < Pow2(bits) ==> CastUnsigned(bits, n) == n
    ensures -Pow2(bits) <= 2 * n < Pow2(bits) ==> CastSigned(bits, n) == n
  {
  }

  /** A leaf comes back, and its decoder ends one token further; an empty byte string comes back without moving. */
  lemma DecodesLeaf(ty: Type, v: Value, toks: seq<Jsmn.Token>, js: bytes, i: nat, s: nat)
    requires Spans(toks, js) && HasType(ty, v) && Encodable(ty, v) && IsLeaf(ty)
    requires Here(toks, js, i, s, ToJson(ty, v))
    ensures Size(ToJson(ty, v)) == 1
    ensures DecodeLeaf(ty, toks, js, i) == Done(v, if ty.ByteString? && v.s == Text([]) then i else i + 1)
  {
    hide Here, Render, Preorder, Itoa.Numeral, Itoa.SignedNumeral, GuidText, StringCodec.Escape, StringCodec.Unescape,
      Base64.Base64Of, Base64.Decode, GuidFromChars, PrimText, Body, ParseInteger.SignedOf, ParseInteger.UnsignedOf, CastSigned, CastUnsigned;
    LeafWf(ty, v);
    LeafHere(toks, js, i, s, ToJson(ty, v));
    NullHere(toks, js, i, s, ToJson(ty, v));
    match ty {
      case Boolean =>
      case Unsigned(bits) =>
        ParseInteger.UnsignedReadBack(v.n);
        CastBack(bits, v.n);
      case Signed(bits) =>
        ParseInteger.SignedReadBack(v.n);
        CastBack(bits, v.n);
      case String =>
        if v.s.Text? { StringCodec.StringRoundTrip(v.s.data); }
      case ByteString =>
        if v.s.Text? && v.s.data != [] {
          Base64.RoundTrip(v.s.data);
          Base64Nonempty(v.s.data);
        }
      case GuidType =>
        GuidBack(v.g);
        GuidTextPlain(v.g);
      case _ =>
    }
  }

  lemma Base64Nonempty(s: bytes)
    requires s != []
    ensures Base64.Base64Of(s) != []
  {
  }

  // ---- Built-in objects come back ----

  /** A member with a leaf value: its decoder returns the value and ends just past it. */
  lemma LeafMember(ms: Members, ty: Type, v: Value, toks: seq<Jsmn.Token>, js: bytes, i: nat, s: nat, first: bool, depth: nat)
    returns (s': nat)
    requires Spans(toks, js) && WfMembers(ms) && ms.MoreMembers? && MembersHere(toks, js, i, s, ms, first)
    requires HasType(ty, v) && Encodable(ty, v) && IsLeaf(ty) && Returns(ty, v) && ms.value == ToJson(ty, v)
    ensures Size(ms.value) == 1 && Decode(ty, toks, js, i + 1, depth) == Done(v, i + 2)
    ensures MembersHere(toks, js, i + 2, s', ms.rest, false)
  {
    hide Here, MembersHere, DecodeLeaf, ToJson, HasType, Encodable;
    var s2 := MemberHere(toks, js, i, s, ms, first);
    DecodesLeaf(ty, v, toks, js, i + 1, s2);
    s' := s2 + |Render(ms.value)|;
  }

  /** The namespace member, when there is one. */
  lemma NamespaceConsumed(ents: seq<Member>, key: bytes, ns: nat, e: nat, toks: seq<Jsmn.Token>, js: bytes, i: nat, s: nat, depth: nat)
    requires Spans(toks, js) && ns < 0x1_0000 && PlainName(key)
    requires MembersHere(toks, js, i, s, NamespaceMembers(key, ns), false)
    requires ns > 0 ==> EntryIndex(ents, key) == e < |ents| && ents[e].ty == Unsigned(16)
    ensures Consumes(ents, NamespaceMembers(key, ns), toks, js, i, depth)
    ensures ns > 0 ==> ValueIndex(NamespaceMembers(key, ns), key, i) == i + 1
                       && Decode(Unsigned(16), toks, js, i + 1, depth) == Done(VInteger(ns), i + 2)
    ensures MembersSize(NamespaceMembers(key, ns)) == if ns > 0 then 2 else 0
  {
    hide MembersHere, Decode;
    var ms := NamespaceMembers(key, ns);
    NamespaceWf(key, ns);
    if ns > 0 {
      var s' := LeafMember(ms, Unsigned(16), VInteger(ns), toks, js, i, s, false, depth);
    }
  }

  lemma QualifiedNameFields(name: UaString, ns: nat, toks: seq<Jsmn.Token>, js: bytes, i: nat, s: nat, depth: nat) returns (r: FieldsDecoded)
    requires Spans(toks, js) && ns < 0x1_0000 && Escapes(name)
    requires Here(toks, js, i, s, Obj(QualifiedNameMembers(name, ns)))
    ensures r == DecodeFields(QUALIFIED_NAME, toks, js, i, depth) && r.FieldsDone?
    ensures r.vals == [VString(name), VInteger(ns)] && r.next == i + 1 + MembersSize(QualifiedNameMembers(name, ns))
  {
    hide Here, MembersHere, StringJson, Escapes, FieldsLoop, NamespaceMembers, DecodeFields, Decode, IsJsonNull, Wf, WfMembers;
    var ms := QualifiedNameMembers(name, ns);
    var ents := QUALIFIED_NAME;
    KeysPlain();
    JsonWf(Type.QualifiedName, VQualifiedName(name, ns));
    WfObj(ms);
    ObjectHere(toks, js, i, s, ms);
    JsonText.StringFits(name);
    var s1 := LeafMember(ms, Type.String, VString(name), toks, js, i + 1, s + 1, true, depth);
    assert EntryIndex(ents, KEY_NAME) == 0 && EntryIndex(ents, KEY_URI) == 1;
    NamespaceConsumed(ents, KEY_URI, ns, 1, toks, js, i + 3, s1, depth);
    NamespaceKeys(KEY_URI, ns, KEY_NAME);
    DecodesFields(ents, ms, toks, js, i, s, depth);
    DefaultsAt(ents, 1);
    r := DecodeFields(ents, toks, js, i, depth);
    assert ents[0].name == KEY_NAME && ents[1].name == KEY_URI;
    assert r.vals == [r.vals[0], r.vals[1]];
  }

  function QualifiedNameMembers(name: UaString, ns: nat): Members
    requires Escapes(name)
  {
    MoreMembers(KEY_NAME, StringJson(name), NamespaceMembers(KEY_URI, ns))
  }

  lemma QualifiedNameBack(name: UaString, ns: nat, toks: seq<Jsmn.Token>, js: bytes, i: nat, s: nat, depth: nat)
    requires Spans(toks, js) && ns < 0x1_0000 && Escapes(name)
    requires Here(toks, js, i, s, ToJson(Type.QualifiedName, VQualifiedName(name, ns)))
    ensures Decode(Type.QualifiedName, toks, js, i, depth)
         == Done(VQualifiedName(name, ns), i + Size(ToJson(Type.QualifiedName, VQualifiedName(name, ns))))
  {
    hide Here, MembersHere, StringJson, NamespaceMembers, DecodeFields, IsJsonNull, Wf;
    JsonWf(Type.QualifiedName, VQualifiedName(name, ns));
    ObjectHere(toks, js, i, s, QualifiedNameMembers(name, ns));
    var r := QualifiedNameFields(name, ns, toks, js, i, s, depth);
  }

  function LocalizedTextMembers(locale: UaString, text: UaString): Members
    requires Escapes(locale) && Escapes(text)
  {
    MoreMembers(KEY_LOCALE, StringJson(locale), MoreMembers(KEY_TEXT, StringJson(text), NoMembers))
  }

  lemma LocalizedTextFields(locale: UaString, text: UaString, toks: seq<Jsmn.Token>, js: bytes, i: nat, s: nat, depth: nat)
    returns (r: FieldsDecoded)
    requires Spans(toks, js) && Escapes(locale) && Escapes(text)
    requires Here(toks, js, i, s, Obj(LocalizedTextMembers(locale, text)))
    ensures r == DecodeFields(LOCALIZED_TEXT, toks, js, i, depth) && r.FieldsDone?
    ensures r.vals == [VString(locale), VString(text)] && r.next == i + 1 + MembersSize(LocalizedTextMembers(locale, text))
  {
    hide Here, MembersHere, StringJson, Escapes, FieldsLoop, DecodeFields, Decode, IsJsonNull, Wf, WfMembers;
    var ms := LocalizedTextMembers(locale, text);
    var rest := ms.rest;
    var ents := LOCALIZED_TEXT;
    KeysPlain();
    JsonWf(Type.LocalizedText, VLocalizedText(locale, text));
    WfObj(ms);
    WfRest(ms);
    ObjectHere(toks, js, i, s, ms);
    JsonText.StringFits(locale);
    JsonText.StringFits(text);
    var s1 := LeafMember(ms, Type.String, VString(locale), toks, js, i + 1, s + 1, true, depth);
    var s2 := LeafMember(rest, Type.String, VString(text), toks, js, i + 3, s1, false, depth);
    assert EntryIndex(ents, KEY_LOCALE) == 0 && EntryIndex(ents, KEY_TEXT) == 1;
    assert Consumes(ents, rest, toks, js, i + 3, depth);
    DecodesFields(ents, ms, toks, js, i, s, depth);
    TwoMembers(ms, i + 1);
    r := DecodeFields(ents, toks, js, i, depth);
    assert ents[0].name == KEY_LOCALE && ents[1].name == KEY_TEXT;
    assert r.vals == [r.vals[0], r.vals[1]];
  }

  lemma LocalizedTextBack(locale: UaString, text: UaString, toks: seq<Jsmn.Token>, js: bytes, i: nat, s: nat, depth: nat)
    requires Spans(toks, js) && Escapes(locale) && Escapes(text)
    requires Here(toks, js, i, s, ToJson(Type.LocalizedText, VLocalizedText(locale, text)))
    ensures Decode(Type.LocalizedText, toks, js, i, depth)
         == Done(VLocalizedText(locale, text), i + Size(ToJson(Type.LocalizedText, VLocalizedText(locale, text))))
  {
    hide Here, MembersHere, StringJson, DecodeFields, IsJsonNull, Wf;
    JsonWf(Type.LocalizedText, VLocalizedText(locale, text));
    ObjectHere(toks, js, i, s, LocalizedTextMembers(locale, text));
    var r := LocalizedTextFields(locale, text, toks, js, i, s, depth);
  }

  lemma WfObj(ms: Members)
    requires Wf(Obj(ms))
    ensures WfMembers(ms)
  {
  }

  lemma WfRest(ms: Members)
    requires WfMembers(ms) && ms.MoreMembers?
    ensures Wf(ms.value) && WfMembers(ms.rest)
  {
  }

  /** Two members with leaf values: where their values stand. */
  lemma TwoMembers(ms: Members, i: nat)
    requires ms.MoreMembers? && ms.rest.MoreMembers? && ms.rest.rest == NoMembers && ms.key != ms.rest.key
    requires Size(ms.value) == 1 && Size(ms.rest.value) == 1
    ensures DistinctKeys(ms) && HasKey(ms, ms.key) && HasKey(ms, ms.rest.key)
    ensures ValueIndex(ms, ms.key, i) == i + 1 && ValueIndex(ms, ms.rest.key, i) == i + 3 && MembersSize(ms) == 4
  {
    assert MembersSize(ms.rest) == 2;
  }

  /** The object token is no null, and its members follow. */
  lemma ObjectHere(toks: seq<Jsmn.Token>, js: bytes, i: nat, s: nat, ms: Members)
    requires Spans(toks, js) && Wf(Obj(ms)) && Here(toks, js, i, s, Obj(ms))
    ensures i < |toks| && toks[i].typ.Object? && toks[i].size == ms.Count() && !IsJsonNull(toks, js, i)
    ensures MembersHere(toks, js, i + 1, s + 1, ms, true)
  {
    hide Here, MembersHere;
    ValueToken(toks, js, i, s, Obj(ms));
    ObjHere(toks, js, i, s, ms);
  }

  lemma NamespaceKeys(key: bytes, ns: nat, other: bytes)
    requires key != other
    ensures HasKey(NamespaceMembers(key, ns), key) <==> ns > 0
    ensures !HasKey(NamespaceMembers(key, ns), other) && DistinctKeys(NamespaceMembers(key, ns))
  {
  }

  lemma {:induction false} DefaultsAt(ms: seq<Member>, i: nat)
    requires i < |ms|
    ensures Defaults(ms)[i] == Default(ms[i].ty)
    decreases i
  {
    if i > 0 {
      assert ms[1..][i - 1] == ms[i];
      DefaultsAt(ms[1..], i - 1);
    }
  }

  // ---- NodeId ----

  /** The look-ahead for the namespace and the identifier's type on the tokens of a NodeId. */
  lemma NodeIdLooksAhead(ns: nat, id: Identifier, toks: seq<Jsmn.Token>, js: bytes, i: nat, s: nat)
    requires Spans(toks, js) && ns < 0x1_0000 && ValidId(id) && (id.StringId? ==> Escapes(id.s))
    requires Here(toks, js, i, s, Obj(NodeIdMembers(ns, id)))
    ensures (SearchKey(toks, js, KEY_NAMESPACE, i, 0).status == Good) <==> ns > 0
    ensures IdTypeOf(toks, js, i) == Some(JsonText.IdLeafType(id))
  {
    hide Here, MembersHere, SearchKey, Wf, WfMembers, StringJson, ByteStringJson, NamespaceMembers, GuidText, Itoa.Numeral;
    var ms := NodeIdMembers(ns, id);
    NodeIdWf(ns, id);
    WfToObj(ms);
    LooksAhead(toks, js, KEY_NAMESPACE, i, s, ms);
    LooksAhead(toks, js, KEY_IDTYPE, i, s, ms);
    NodeIdKeys(ns, id, i + 1);
    if !id.Numeric? {
      ObjectHere(toks, js, i, s, ms);
      var s2 := MemberHere(toks, js, i + 1, s + 1, ms, true);
      WfRest(ms);
      IdTypeWf(id);
      LeafHere(toks, js, i + 2, s2, ms.value);
      var t := toks[i + 2];
      assert TokenText(js, t) == [JsonText.IdTypeDigit(id)];
      assert js[t.start] == TokenText(js, t)[0];
    }
  }

  lemma IdTypeWf(id: Identifier)
    requires !id.Numeric?
    ensures Wf(Prim([JsonText.IdTypeDigit(id)]))
  {
    NullPrim();
  }

  lemma WfToObj(ms: Members)
    requires WfMembers(ms)
    ensures Wf(Obj(ms))
  {
  }

  /** The keys of a NodeId: which are there, that they differ, and where their values stand. */
  lemma NodeIdKeys(ns: nat, id: Identifier, i: nat)
    requires ValidId(id) && (id.StringId? ==> Escapes(id.s))
    ensures var ms := NodeIdMembers(ns, id);
            && DistinctKeys(ms) && HasKey(ms, KEY_ID)
            && (HasKey(ms, KEY_NAMESPACE) <==> ns > 0) && (HasKey(ms, KEY_IDTYPE) <==> !id.Numeric?)
            && (!id.Numeric? ==> ms.key == KEY_IDTYPE && ms.value == Prim([JsonText.IdTypeDigit(id)])
                                 && ValueIndex(ms, KEY_IDTYPE, i) == i + 1)
            && ValueIndex(ms, KEY_ID, i) == (if id.Numeric? then i + 1 else i + 3)
            && (ns > 0 ==> ValueIndex(ms, KEY_NAMESPACE, i) == i + 1 + (if id.Numeric? then 0 else 2) + Size(IdJson(id)) + 1)
            && MembersSize(ms) == (if id.Numeric? then 1 else 3) + Size(IdJson(id)) + (if ns > 0 then 2 else 0)
  {
    hide StringJson, ByteStringJson, GuidText, Itoa.Numeral;
    var ms := NodeIdMembers(ns, id);
    var tail := NamespaceMembers(KEY_NAMESPACE, ns);
    NamespaceKeys(KEY_NAMESPACE, ns, KEY_ID);
    NamespaceKeys(KEY_NAMESPACE, ns, KEY_IDTYPE);
    var at := i + (if id.Numeric? then 0 else 2) + 1 + Size(IdJson(id));
    assert ns > 0 ==> ValueIndex(tail, KEY_NAMESPACE, at) == at + 1;
    assert MembersSize(tail) == if ns > 0 then 2 else 0;
    if !id.Numeric? {
      assert ms.rest == MoreMembers(KEY_ID, IdJson(id), tail);
      assert DistinctKeys(ms.rest) && !HasKey(ms.rest, KEY_IDTYPE);
      assert ValueIndex(ms.rest, KEY_ID, i + 2) == i + 3;
    }
  }

  /** The tree of the identifier. */
  function IdJson(id: Identifier): Json
    requires ValidId(id) && (id.StringId? ==> Escapes(id.s))
  {
    JsonText.IdLeafFits(id);
    ToJson(JsonText.IdLeafType(id), JsonText.IdLeaf(id))
  }

  /** The decoders of a NodeId's members each end just past their value, and yield it. */
  lemma NodeIdConsumes(ns: nat, id: Identifier, toks: seq<Jsmn.Token>, js: bytes, i: nat, s: nat, depth: nat)
    requires Spans(toks, js) && ns < 0x1_0000 && ValidId(id) && (id.StringId? ==> Escapes(id.s))
    requires id.OpaqueId? ==> NotEmpty(id.b)
    requires MembersHere(toks, js, i, s, NodeIdMembers(ns, id), true)
    ensures var ents := NodeIdEntries(JsonText.IdLeafType(id), ns > 0);
            var at := if id.Numeric? then i + 1 else i + 3;
            && Consumes(ents, NodeIdMembers(ns, id), toks, js, i, depth)
            && Decode(ents[0].ty, toks, js, at, depth) == Done(JsonText.IdLeaf(id), at + 1)
            && (ns > 0 ==> Decode(Unsigned(16), toks, js, at + 2, depth) == Done(VInteger(ns), at + 3))
            && Size(IdJson(id)) == 1
  {
    hide Here, MembersHere, Decode, Wf, WfMembers, StringJson, ByteStringJson, NamespaceMembers, GuidText, Itoa.Numeral, NodeIdEntries,
      HasType, Encodable, ToJson, EntryIndex;
    var ms := NodeIdMembers(ns, id);
    var ty, v := JsonText.IdLeafType(id), JsonText.IdLeaf(id);
    var ents := NodeIdEntries(ty, ns > 0);
    KeysPlain();
    NodeIdWf(ns, id);
    JsonText.IdLeafFits(id);
    EntriesOf(ty, ns > 0);
    IdReturns(id);
    if id.Numeric? {
      var s1 := LeafMember(ms, ty, v, toks, js, i, s, true, depth);
      NamespaceConsumed(ents, KEY_NAMESPACE, ns, if ns > 0 then |ents| - 1 else 0, toks, js, i + 2, s1, depth);
    } else {
      var s2 := MemberHere(toks, js, i, s, ms, true);
      var rest := ms.rest;
      WfRest(ms);
      SkipDecodes(toks, js, i + 1, depth);
      var s1 := LeafMember(rest, ty, v, toks, js, i + 2, s2 + |Render(ms.value)|, false, depth);
      NamespaceConsumed(ents, KEY_NAMESPACE, ns, if ns > 0 then |ents| - 1 else 0, toks, js, i + 4, s1, depth);
      assert Consumes(ents, rest, toks, js, i + 2, depth);
      assert !ty.Unsigned? && ms.key == KEY_IDTYPE && Size(ms.value) == 1;
      assert ents[EntryIndex(ents, ms.key)].ty == Skip;
      assert Consumes(ents, ms, toks, js, i, depth);
    }
  }

  /** The identifier's leaf: its tree, and that its decoder moves on. */
  lemma IdReturns(id: Identifier)
    requires ValidId(id) && (id.StringId? ==> Escapes(id.s)) && (id.OpaqueId? ==> NotEmpty(id.b))
    ensures var ty, v := JsonText.IdLeafType(id), JsonText.IdLeaf(id);
            && HasType(ty, v) && Encodable(ty, v) && IsLeaf(ty) && Returns(ty, v)
            && IdJson(id) == ToJson(ty, v)
            && (id.StringId? ==> ToJson(ty, v) == StringJson(id.s)) && (id.GuidId? ==> ToJson(ty, v) == Str(GuidText(id.g)))
            && (id.OpaqueId? ==> ToJson(ty, v) == ByteStringJson(id.b)) && (id.Numeric? ==> ToJson(ty, v) == Prim(Itoa.Numeral(id.n, 10)))
  {
  }

  lemma SkipDecodes(toks: seq<Jsmn.Token>, js: bytes, i: nat, depth: nat)
    requires Spans(toks, js) && i < |toks|
    ensures Decode(Skip, toks, js, i, depth) == Done(VNone, i + 1)
  {
  }

  lemma EntriesOf(ty: Type, hasNamespace: bool)
    ensures var ents := NodeIdEntries(ty, hasNamespace);
            && |ents| == 1 + (if ty.Unsigned? then 0 else 1) + (if hasNamespace then 1 else 0)
            && DistinctNames(ents) && EntryIndex(ents, KEY_ID) == 0 && ents[0] == Member(KEY_ID, ty)
            && (!ty.Unsigned? ==> EntryIndex(ents, KEY_IDTYPE) == 1 && ents[1] == Member(KEY_IDTYPE, Skip))
            && (hasNamespace ==> EntryIndex(ents, KEY_NAMESPACE) == |ents| - 1
                                 && ents[|ents| - 1] == Member(KEY_NAMESPACE, Unsigned(16)))
            && ents[0].name != []
  {
    var ents := NodeIdEntries(ty, hasNamespace);
    EntryIs(ents, 0);
    if !ty.Unsigned? { EntryIs(ents, 1); }
    if hasNamespace { EntryIs(ents, |ents| - 1); }
  }

  lemma EntryIs(ents: seq<Member>, e: nat)
    requires DistinctNames(ents) && e < |ents|
    ensures EntryIndex(ents, ents[e].name) == e
  {
  }

  lemma IdBack(id: Identifier)
    requires ValidId(id)
    ensures IdOf(JsonText.IdLeafType(id), JsonText.IdLeaf(id)) == id
  {
  }

  /** The dispatched fields of a NodeId are its identifier and its namespace. */
  lemma NodeIdFields(ns: nat, id: Identifier, toks: seq<Jsmn.Token>, js: bytes, i: nat, s: nat, depth: nat) returns (r: FieldsDecoded)
    requires Spans(toks, js) && ns < 0x1_0000 && ValidId(id) && (id.StringId? ==> Escapes(id.s))
    requires id.OpaqueId? ==> NotEmpty(id.b)
    requires Here(toks, js, i, s, Obj(NodeIdMembers(ns, id)))
    ensures var ents := NodeIdEntries(JsonText.IdLeafType(id), ns > 0);
            && r == DecodeFields(ents, toks, js, i, depth) && r.FieldsDone?
            && r.vals[0] == JsonText.IdLeaf(id) && (ns > 0 ==> r.vals[|ents| - 1] == VInteger(ns))
            && r.next == i + 1 + MembersSize(NodeIdMembers(ns, id))
  {
    hide Here, MembersHere, SearchKey, IdTypeOf, DecodeFields, FieldsLoop, Decode, Wf, WfMembers, NodeIdMembers, IsJsonNull, NodeIdEntries;
    var ms := NodeIdMembers(ns, id);
    var ents := NodeIdEntries(JsonText.IdLeafType(id), ns > 0);
    NodeIdWf(ns, id);
    WfToObj(ms);
    ObjectHere(toks, js, i, s, ms);
    NodeIdConsumes(ns, id, toks, js, i + 1, s + 1, depth);
    NodeIdKeys(ns, id, i + 1);
    EntriesOf(JsonText.IdLeafType(id), ns > 0);
    HasMembers(ms, KEY_ID);
    DecodesFields(ents, ms, toks, js, i, s, depth);
    r := DecodeFields(ents, toks, js, i, depth);
    assert ents[0].name == KEY_ID;
    if ns > 0 {
      assert ents[|ents| - 1].name == KEY_NAMESPACE;
    }
  }

  lemma HasMembers(ms: Members, key: bytes)
    requires HasKey(ms, key)
    ensures ms.MoreMembers?
  {
  }

  /** A NodeId comes back, an identifier that is an empty byte string excepted. */
  lemma NodeIdBack(ns: nat, id: Identifier, toks: seq<Jsmn.Token>, js: bytes, i: nat, s: nat, depth: nat)
    requires Spans(toks, js) && ns < 0x1_0000 && ValidId(id) && (id.StringId? ==> Escapes(id.s))
    requires id.OpaqueId? ==> NotEmpty(id.b)
    requires Here(toks, js, i, s, ToJson(Type.NodeId, VNodeId(ns, id)))
    ensures Decode(Type.NodeId, toks, js, i, depth) == Done(VNodeId(ns, id), i + Size(ToJson(Type.NodeId, VNodeId(ns, id))))
  {
    hide Here, MembersHere, SearchKey, IdTypeOf, DecodeFields, FieldsLoop, NodeIdMembers, IsJsonNull, NodeIdEntries, IdOf;
    var ms := NodeIdMembers(ns, id);
    NodeIdWf(ns, id);
    WfToObj(ms);
    ObjectHere(toks, js, i, s, ms);
    NodeIdLooksAhead(ns, id, toks, js, i, s);
    var r := NodeIdFields(ns, id, toks, js, i, s, depth);
    IdBack(id);
  }

  // ---- Any value comes back ----

  /** The value at an index is decoded, and the index ends just past its tokens. */
  lemma {:induction false} DecodesValue(ty: Type, v: Value, toks: seq<Jsmn.Token>, js: bytes, i: nat, s: nat, depth: nat)
    requires Spans(toks, js) && WfType(ty) && HasType(ty, v) && Encodable(ty, v) && Returns(ty, v)
    requires depth + Reach(ty, v) <= MAX_RECURSION && Here(toks, js, i, s, ToJson(ty, v))
    ensures Decode(ty, toks, js, i, depth) == Done(v, i + Size(ToJson(ty, v)))
    decreases ty, 1, 0
  {
    hide Here, DecodeFields, DecodeElems, StringJson, NamespaceMembers, NodeIdMembers, IdTypeOf, NodeIdEntries, SearchKey, IsJsonNull;
    match ty {
      case NodeId => NodeIdBack(v.namespace, v.id, toks, js, i, s, depth);
      case QualifiedName => QualifiedNameBack(v.name, v.namespace, toks, js, i, s, depth);
      case LocalizedText => LocalizedTextBack(v.locale, v.text, toks, js, i, s, depth);
      case Array(elem) => ArrayBack(ty, v, toks, js, i, s, depth);
      case Structure(ms) => StructureBack(ty, v, toks, js, i, s, depth);
      case _ => DecodesLeaf(ty, v, toks, js, i, s);
    }
  }

  lemma {:induction false} ArrayBack(ty: Type, v: Value, toks: seq<Jsmn.Token>, js: bytes, i: nat, s: nat, depth: nat)
    requires Spans(toks, js) && ty.Array? && WfType(ty) && HasType(ty, v) && Encodable(ty, v) && Returns(ty, v)
    requires depth + Reach(ty, v) <= MAX_RECURSION && Here(toks, js, i, s, ToJson(ty, v))
    ensures Decode(ty, toks, js, i, depth) == Done(v, i + Size(ToJson(ty, v)))
    decreases ty, 0, |v.elems| + 1
  {
    hide Here, ElemsHere, DecodeElems, Wf, WfElems;
    var es := ElemsJson(ty, v, 0);
    JsonWf(ty, v);
    ValueToken(toks, js, i, s, Arr(es));
    ArrHere(toks, js, i, s, es);
    ElemsCount(ty, v, 0);
    ElemsBack(ty, v, 0, toks, js, i + 1, s + 1, depth);
    assert v.elems[..0] == [];
  }

  lemma {:induction false} ElemsCount(ty: Type, v: Value, k: nat)
    requires ty.Array? && HasType(ty, v) && k <= |v.elems| && ElemsEncodable(ty, v, k)
    ensures ElemsJson(ty, v, k).Count() == |v.elems| - k
    decreases |v.elems| - k
  {
    if k < |v.elems| { ElemsCount(ty, v, k + 1); }
  }

  lemma {:induction false} ElemsBack(ty: Type, v: Value, k: nat, toks: seq<Jsmn.Token>, js: bytes, i: nat, s: nat, depth: nat)
    requires Spans(toks, js) && ty.Array? && WfType(ty) && HasType(ty, v) && Returns(ty, v)
    requires depth + Reach(ty, v) <= MAX_RECURSION && k <= |v.elems| && ElemsEncodable(ty, v, k)
    requires ElemsHere(toks, js, i, s, ElemsJson(ty, v, k), k == 0)
    ensures DecodeElems(ty.elem, toks, js, i, |v.elems| - k, v.elems[..k], depth) == Done(v, i + ElemsSize(ElemsJson(ty, v, k)))
    decreases ty, 0, |v.elems| - k
  {
    hide Here, ElemsHere, Wf, WfElems, ToJson, Decode, Encodable, HasType, Returns, WfType;
    var es := ElemsJson(ty, v, k);
    ArrayShape(ty, v);
    if k < |v.elems| {
      ElemsJsonWf(ty, v, k);
      var s1 := ElemHere(toks, js, i, s, es, k == 0);
      ElemReach(ty, v, k);
      DecodesValue(ty.elem, v.elems[k], toks, js, i, s1, depth);
      ElemsBack(ty, v, k + 1, toks, js, i + Size(es.first), s1 + |Render(es.first)|, depth);
      assert v.elems[..k] + [v.elems[k]] == v.elems[..k + 1];
    } else {
      assert v.elems[..k] == v.elems;
    }
  }

  /** The parts of an array and of a structure. */
  lemma ArrayShape(ty: Type, v: Value)
    requires ty.Array? && WfType(ty) && HasType(ty, v)
    ensures v.VArray? && v == VArray(v.elems) && WfType(ty.elem)
    ensures forall k :: 0 <= k < |v.elems| ==> HasType(ty.elem, v.elems[k])
    ensures Returns(ty, v) ==> forall k :: 0 <= k < |v.elems| ==> Returns(ty.elem, v.elems[k])
  {
  }

  lemma StructureShape(ty: Type, v: Value)
    requires ty.Structure? && WfType(ty) && HasType(ty, v)
    ensures v.VStructure? && v == VStructure(v.fields) && |v.fields| == |ty.members| > 0 && DistinctNames(ty.members)
    ensures forall k :: 0 <= k < |v.fields| ==>
      HasType(ty.members[k].ty, v.fields[k]) && WfType(ty.members[k].ty) && PlainName(ty.members[k].name)
    ensures Returns(ty, v) ==> forall k :: 0 <= k < |v.fields| ==> Returns(ty.members[k].ty, v.fields[k])
  {
  }

  lemma {:induction false} StructureFields(ty: Type, v: Value, toks: seq<Jsmn.Token>, js: bytes, i: nat, s: nat, depth: nat)
    requires Spans(toks, js) && ty.Structure? && WfType(ty) && HasType(ty, v) && FieldsEncodable(ty, v, 0) && Returns(ty, v)
    requires depth + Reach(ty, v) <= MAX_RECURSION + 1 && Here(toks, js, i, s, Obj(FieldsJson(ty, v, 0)))
    ensures var r := DecodeFields(ty.members, toks, js, i, depth);
            r.FieldsDone? && r.vals == v.fields && r.next == i + 1 + MembersSize(FieldsJson(ty, v, 0))
    decreases ty, 0, |v.fields| + 1
  {
    hide Here, MembersHere, Wf, WfMembers, Decode, DecodeFields, HasType, Returns, WfType, Encodable, ToJson;
    var ms := FieldsJson(ty, v, 0);
    StructureShape(ty, v);
    FieldsJsonWf(ty, v, 0);
    WfToObj(ms);
    ObjectHere(toks, js, i, s, ms);
    FieldsBack(ty, v, 0, toks, js, i + 1, s + 1, depth);
    FieldsKeys(ty, v, 0, i + 1);
    DecodesFields(ty.members, ms, toks, js, i, s, depth);
    var r := DecodeFields(ty.members, toks, js, i, depth);
    forall k | 0 <= k < |v.fields| ensures r.vals[k] == v.fields[k] {
      assert HasKey(ms, ty.members[k].name);
      assert Yields(ty, v, ms, k, toks, js, i + 1, depth);
    }
    assert r.vals == v.fields;
  }

  lemma {:induction false} StructureBack(ty: Type, v: Value, toks: seq<Jsmn.Token>, js: bytes, i: nat, s: nat, depth: nat)
    requires Spans(toks, js) && ty.Structure? && WfType(ty) && HasType(ty, v) && Encodable(ty, v) && Returns(ty, v)
    requires depth + Reach(ty, v) <= MAX_RECURSION && Here(toks, js, i, s, ToJson(ty, v))
    ensures Decode(ty, toks, js, i, depth) == Done(v, i + Size(ToJson(ty, v)))
    decreases ty, 0, |v.fields| + 2
  {
    hide Here, DecodeFields, Returns, WfType, FieldsJson;
    StructureFields(ty, v, toks, js, i, s, depth + 1);
    StructureShape(ty, v);
  }

  /** The fields from `k` on: distinct keys, all of them there, none of the earlier ones. */
  lemma {:induction false} FieldsKeys(ty: Type, v: Value, k: nat, i: nat)
    requires ty.Structure? && HasType(ty, v) && k <= |v.fields| && FieldsEncodable(ty, v, k) && DistinctNames(ty.members)
    ensures DistinctKeys(FieldsJson(ty, v, k))
    ensures forall e :: 0 <= e < |ty.members| ==> (HasKey(FieldsJson(ty, v, k), ty.members[e].name) <==> e >= k)
    decreases |v.fields| - k
  {
    if k < |v.fields| { FieldsKeys(ty, v, k + 1, i); }
  }

  /** The entry of field `e` decodes, where its value stands among the members, to its value. */
  ghost predicate Yields(ty: Type, v: Value, ms: Members, e: nat, toks: seq<Jsmn.Token>, js: bytes, i: nat, depth: nat)
    requires Spans(toks, js) && ty.Structure? && v.VStructure? && e < |ty.members| == |v.fields|
  {
    var at := ValueIndex(ms, ty.members[e].name, i);
    at >= 0 && (var r := Decode(ty.members[e].ty, toks, js, at, depth); r.Done? && r.value == v.fields[e])
  }

  /** The fields from `k` on are consumed by their entries, and yield their values. */
  lemma {:induction false} FieldsBack(ty: Type, v: Value, k: nat, toks: seq<Jsmn.Token>, js: bytes, i: nat, s: nat, depth: nat)
    requires Spans(toks, js) && ty.Structure? && WfType(ty) && HasType(ty, v) && Returns(ty, v)
    requires depth + Reach(ty, v) <= MAX_RECURSION + 1 && k <= |v.fields| && FieldsEncodable(ty, v, k)
    requires MembersHere(toks, js, i, s, FieldsJson(ty, v, k), k == 0)
    ensures Consumes(ty.members, FieldsJson(ty, v, k), toks, js, i, depth)
    ensures forall e :: k <= e < |ty.members| ==> Yields(ty, v, FieldsJson(ty, v, k), e, toks, js, i, depth)
    decreases ty, 0, |v.fields| - k
  {
    hide Here, MembersHere, Wf, WfMembers, ToJson, Decode, Encodable, HasType, Returns, WfType, EntryIndex;
    StructureShape(ty, v);
    if k < |v.fields| {
      var ms := FieldsJson(ty, v, k);
      FieldsJsonWf(ty, v, k);
      var s2 := MemberHere(toks, js, i, s, ms, k == 0);
      FieldReach(ty, v, k);
      DecodesValue(ty.members[k].ty, v.fields[k], toks, js, i + 1, s2, depth);
      FieldsBack(ty, v, k + 1, toks, js, i + 1 + Size(ms.value), s2 + |Render(ms.value)|, depth);
      EntryIs(ty.members, k);
      assert Yields(ty, v, ms, k, toks, js, i, depth);
      forall e | k < e < |ty.members|
        ensures Yields(ty, v, ms, e, toks, js, i, depth)
      {
        assert ty.members[k].name != ty.members[e].name;
        assert Yields(ty, v, ms.rest, e, toks, js, i + 1 + Size(ms.value), depth);
      }
    }
  }
}
