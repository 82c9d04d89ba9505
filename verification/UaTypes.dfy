/** The OPC UA types and values the JSON codec is modelled for, and the JSON tree of a value. */
module UaTypes {
  import opened Bytes
  import opened JsonTree
  import Base64
  import Itoa
  import StringCodec

  /** A string or byte string: `data` may be a null pointer, which is not the empty string. */
  datatype UaString = NullString | Text(data: bytes)

  datatype Guid = Guid(data1: nat, data2: nat, data3: nat, data4: bytes)

  datatype Identifier = Numeric(n: nat) | StringId(s: UaString) | GuidId(g: Guid) | OpaqueId(b: UaString)

  /** Data types.  `Skip` is the decoder entry without a function: one token is stepped over. */
  datatype Type =
    | Boolean
    | Unsigned(bits: nat)
    | Signed(bits: nat)
    | String
    | ByteString
    | GuidType
    | NodeId
    | QualifiedName
    | LocalizedText
    | Array(elem: Type)
    | Structure(members: seq<Member>)
    | Skip

  datatype Member = Member(name: bytes, ty: Type)

  datatype Value =
    | VBoolean(b: bool)
    | VInteger(n: int)
    | VString(s: UaString)
    | VGuid(g: Guid)
    | VNodeId(namespace: nat, id: Identifier)
    | VQualifiedName(name: UaString, namespace: nat)
    | VLocalizedText(locale: UaString, text: UaString)
    | VArray(elems: seq<Value>)
    | VStructure(fields: seq<Value>)
    | VNone

  /** The recursion limit of both directions, and the length of the encoder's comma array. */
  const MAX_RECURSION: nat := 100

  const KEY_ID: bytes := [73, 100]
  const KEY_IDTYPE: bytes := [73, 100, 84, 121, 112, 101]
  const KEY_NAMESPACE: bytes := [78, 97, 109, 101, 115, 112, 97, 99, 101]
  const KEY_NAME: bytes := [78, 97, 109, 101]
  const KEY_URI: bytes := [85, 114, 105]
  const KEY_LOCALE: bytes := [76, 111, 99, 97, 108, 101]
  const KEY_TEXT: bytes := [84, 101, 120, 116]
  const NULL_TEXT: bytes := [110, 117, 108, 108]
  const TRUE_TEXT: bytes := [116, 114, 117, 101]
  const FALSE_TEXT: bytes := [102, 97, 108, 115, 101]

  // ---- Typing ----

  function Pow2(bits: nat): int {
    if bits == 8 then 0x100 else if bits == 16 then 0x1_0000 else if bits == 32 then 0x1_0000_0000 else 0x1_0000_0000_0000_0000
  }

  predicate Width(bits: nat) { bits == 8 || bits == 16 || bits == 32 || bits == 64 }

  predicate ValidGuid(g: Guid) {
    g.data1 < 0x1_0000_0000 && g.data2 < 0x1_0000 && g.data3 < 0x1_0000 && |g.data4| == 8
  }

  predicate ValidId(id: Identifier) {
    match id
    case Numeric(n) => n < 0x1_0000_0000
    case GuidId(g) => ValidGuid(g)
    case _ => true
  }

  /** The value lies in the type: what a caller of the encoder hands over. */
  predicate HasType(ty: Type, v: Value)
    decreases ty, 1
  {
    match ty
    case Boolean => v.VBoolean?
    case Unsigned(bits) => Width(bits) && v.VInteger? && 0 <= v.n < Pow2(bits)
    case Signed(bits) => Width(bits) && v.VInteger? && -Pow2(bits) <= 2 * v.n < Pow2(bits)
    case String => v.VString?
    case ByteString => v.VString?
    case GuidType => v.VGuid? && ValidGuid(v.g)
    case NodeId => v.VNodeId? && v.namespace < 0x1_0000 && ValidId(v.id)
    case QualifiedName => v.VQualifiedName? && v.namespace < 0x1_0000
    case LocalizedText => v.VLocalizedText?
    case Array(elem) => v.VArray? && forall i :: 0 <= i < |v.elems| ==> HasType(elem, v.elems[i])
    case Structure(ms) =>
      v.VStructure? && |v.fields| == |ms| && forall i :: 0 <= i < |ms| ==> HasType(ms[i].ty, v.fields[i])
    case Skip => false
  }

  /** A value of one token. */
  predicate IsLeaf(ty: Type) {
    !ty.NodeId? && !ty.QualifiedName? && !ty.LocalizedText? && !ty.Array? && !ty.Structure?
  }

  /** Levels of the comma array a value of the type uses; a structure uses two. */
  function Depth(ty: Type): nat
    decreases ty, 1
  {
    match ty
    case NodeId => 1
    case QualifiedName => 1
    case LocalizedText => 1
    case Array(elem) => 1 + Depth(elem)
    case Structure(ms) => 2 + MaxDepth(ms)
    case _ => 0
  }

  function MaxDepth(ms: seq<Member>): nat
    decreases ms, 0
  {
    if ms == [] then 0
    else
      var d, rest := Depth(ms[0].ty), MaxDepth(ms[1..]);
      if d > rest then d else rest
  }

  lemma {:induction false} MaxDepthBounds(ms: seq<Member>, i: nat)
    requires i < |ms|
    ensures Depth(ms[i].ty) <= MaxDepth(ms)
    decreases ms
  {
    if i > 0 {
      assert ms[1..][i - 1] == ms[i];
      MaxDepthBounds(ms[1..], i - 1);
    }
  }

  /**
   How many levels of the comma array writing the value goes below the one it starts at.  This is a
   matter of the value: an empty array goes down one level, whatever its element type.
   */
  function Reach(ty: Type, v: Value): nat
    requires HasType(ty, v)
    decreases ty, 1
  {
    match ty
    case NodeId => 1
    case QualifiedName => 1
    case LocalizedText => 1
    case Array(_) => 1 + ElemsReach(ty, v, 0)
    case Structure(_) => 2 + FieldsReach(ty, v, 0)
    case _ => 0
  }

  function Max(a: nat, b: nat): nat { if a > b then a else b }

  /** The deepest of the elements from index `i` on. */
  function ElemsReach(ty: Type, v: Value, i: nat): nat
    requires ty.Array? && HasType(ty, v) && i <= |v.elems|
    decreases ty, 0, |v.elems| - i
  {
    if i == |v.elems| then 0 else Max(Reach(ty.elem, v.elems[i]), ElemsReach(ty, v, i + 1))
  }

  /** The deepest of the fields from index `i` on. */
  function FieldsReach(ty: Type, v: Value, i: nat): nat
    requires ty.Structure? && HasType(ty, v) && i <= |v.fields|
    decreases ty, 0, |v.fields| - i
  {
    if i == |v.fields| then 0 else Max(Reach(ty.members[i].ty, v.fields[i]), FieldsReach(ty, v, i + 1))
  }

  /** The levels of the type bound those of its values. */
  lemma {:induction false} ReachWithin(ty: Type, v: Value)
    requires HasType(ty, v)
    ensures Reach(ty, v) <= Depth(ty)
    decreases ty, 1
  {
    match ty {
      case Array(_) => ElemsReachWithin(ty, v, 0);
      case Structure(_) => FieldsReachWithin(ty, v, 0);
      case _ =>
    }
  }

  lemma {:induction false} ElemsReachWithin(ty: Type, v: Value, i: nat)
    requires ty.Array? && HasType(ty, v) && i <= |v.elems|
    ensures ElemsReach(ty, v, i) <= Depth(ty.elem)
    decreases ty, 0, |v.elems| - i
  {
    if i < |v.elems| {
      ReachWithin(ty.elem, v.elems[i]);
      ElemsReachWithin(ty, v, i + 1);
    }
  }

  lemma {:induction false} FieldsReachWithin(ty: Type, v: Value, i: nat)
    requires ty.Structure? && HasType(ty, v) && i <= |v.fields|
    ensures FieldsReach(ty, v, i) <= MaxDepth(ty.members)
    decreases ty, 0, |v.fields| - i
  {
    if i < |v.fields| {
      ReachWithin(ty.members[i].ty, v.fields[i]);
      MaxDepthBounds(ty.members, i);
      FieldsReachWithin(ty, v, i + 1);
    }
  }

  /** An element goes down one level less than its array, a field two less than its structure. */
  lemma ElemReach(ty: Type, v: Value, k: nat)
    requires ty.Array? && HasType(ty, v) && k < |v.elems| && HasType(ty.elem, v.elems[k])
    ensures Reach(ty.elem, v.elems[k]) + 1 <= Reach(ty, v)
  {
    ElemsReachBounds(ty, v, 0, k);
  }

  lemma {:induction false} ElemsReachBounds(ty: Type, v: Value, i: nat, k: nat)
    requires ty.Array? && HasType(ty, v) && i <= k < |v.elems|
    ensures Reach(ty.elem, v.elems[k]) <= ElemsReach(ty, v, i)
    decreases k - i
  {
    hide Reach;
    if i < k { ElemsReachBounds(ty, v, i + 1, k); }
  }

  lemma FieldReach(ty: Type, v: Value, k: nat)
    requires ty.Structure? && HasType(ty, v) && v.VStructure? && k < |v.fields| == |ty.members| && HasType(ty.members[k].ty, v.fields[k])
    ensures Reach(ty.members[k].ty, v.fields[k]) + 2 <= Reach(ty, v)
  {
    FieldsReachBounds(ty, v, 0, k);
  }

  lemma {:induction false} FieldsReachBounds(ty: Type, v: Value, i: nat, k: nat)
    requires ty.Structure? && HasType(ty, v) && i <= k < |v.fields|
    ensures Reach(ty.members[k].ty, v.fields[k]) <= FieldsReach(ty, v, i)
    decreases k - i
  {
    hide Reach;
    if i < k { FieldsReachBounds(ty, v, i + 1, k); }
  }

  // ---- What can be encoded ----

  predicate Escapes(s: UaString) { s.Text? ==> StringCodec.Escape(s.data, 0).Some? }

  /** The strings inside are UTF-8. */
  predicate Encodable(ty: Type, v: Value)
    requires HasType(ty, v)
    decreases ty, 1
  {
    match ty
    case String => Escapes(v.s)
    case NodeId => v.id.StringId? ==> Escapes(v.id.s)
    case QualifiedName => Escapes(v.name)
    case LocalizedText => Escapes(v.locale) && Escapes(v.text)
    case Array(_) => ElemsEncodable(ty, v, 0)
    case Structure(_) => FieldsEncodable(ty, v, 0)
    case _ => true
  }

  /** The elements from index `i` on. */
  predicate ElemsEncodable(ty: Type, v: Value, i: nat)
    requires ty.Array? && HasType(ty, v) && i <= |v.elems|
    decreases ty, 0, |v.elems| - i
  {
    i == |v.elems| || (Encodable(ty.elem, v.elems[i]) && ElemsEncodable(ty, v, i + 1))
  }

  /** The fields from index `i` on. */
  predicate FieldsEncodable(ty: Type, v: Value, i: nat)
    requires ty.Structure? && HasType(ty, v) && i <= |v.fields|
    decreases ty, 0, |v.fields| - i
  {
    i == |v.fields| || (Encodable(ty.members[i].ty, v.fields[i]) && FieldsEncodable(ty, v, i + 1))
  }

  lemma {:induction false} ElemsAreEncodable(ty: Type, v: Value, i: nat)
    requires ty.Array? && HasType(ty, v) && i <= |v.elems| && ElemsEncodable(ty, v, i)
    ensures forall k :: i <= k < |v.elems| ==> HasType(ty.elem, v.elems[k]) && Encodable(ty.elem, v.elems[k])
    decreases |v.elems| - i
  {
    hide Encodable;
    if i < |v.elems| { ElemsAreEncodable(ty, v, i + 1); }
  }

  lemma {:induction false} FieldsAreEncodable(ty: Type, v: Value, i: nat)
    requires ty.Structure? && HasType(ty, v) && i <= |v.fields| && FieldsEncodable(ty, v, i)
    ensures forall k :: i <= k < |v.fields| ==> HasType(ty.members[k].ty, v.fields[k]) && Encodable(ty.members[k].ty, v.fields[k])
    decreases |v.fields| - i
  {
    hide Encodable;
    if i < |v.fields| { FieldsAreEncodable(ty, v, i + 1); }
  }

  // ---- Guid text ----

  function HexUpper(n: int): byte
    requires 0 <= n < 16
  {
    if n < 10 then 48 + n else 65 + (n - 10)
  }

  function Pow16(k: nat): (p: nat)
    ensures p > 0
  {
    if k == 0 then 1 else 16 * Pow16(k - 1)
  }

  /** The k-th hexadecimal digit of `d`, the lowest being digit 0. */
  function Nibble(d: nat, k: nat): (n: int)
    ensures 0 <= n < 16
  {
    d / Pow16(k) % 16
  }

  /** The lowest `n` hexadecimal digits of `d`, highest first. */
  function HexText(d: nat, n: nat): (r: bytes)
    ensures |r| == n
  {
    if n == 0 then [] else [HexUpper(Nibble(d, n - 1))] + HexText(d, n - 1)
  }

  /** Two digits for each byte. */
  function HexBytes(b: bytes): (r: bytes)
    ensures |r| == 2 * |b|
  {
    if b == [] then [] else HexText(b[0], 2) + HexBytes(b[1..])
  }

  function GuidText(g: Guid): (r: bytes)
    requires ValidGuid(g)
    ensures |r| == 36
  {
    HexText(g.data1, 8) + [MINUS] + HexText(g.data2, 4) + [MINUS] + HexText(g.data3, 4) + [MINUS]
      + HexBytes(g.data4[..2]) + [MINUS] + HexBytes(g.data4[2..])
  }

  // ---- The JSON tree of a value ----

  function StringJson(s: UaString): Json
    requires Escapes(s)
  {
    if s.NullString? then Prim(NULL_TEXT) else Str(StringCodec.Escape(s.data, 0).value)
  }

  function ByteStringJson(s: UaString): Json {
    if s.NullString? then Prim(NULL_TEXT) else if s.data == [] then Str([]) else Str(Base64.Base64Of(s.data))
  }

  function IntegerJson(bits: nat, text: bytes): Json { if bits == 64 then Str(text) else Prim(text) }

  function NamespaceMembers(key: bytes, ns: nat): Members {
    if ns > 0 then MoreMembers(key, Prim(Itoa.Numeral(ns, 10)), NoMembers) else NoMembers
  }

  function NodeIdMembers(ns: nat, id: Identifier): Members
    requires ValidId(id) && (id.StringId? ==> Escapes(id.s))
  {
    var tail := NamespaceMembers(KEY_NAMESPACE, ns);
    match id
    case Numeric(n) => MoreMembers(KEY_ID, Prim(Itoa.Numeral(n, 10)), tail)
    case StringId(s) => MoreMembers(KEY_IDTYPE, Prim([49]), MoreMembers(KEY_ID, StringJson(s), tail))
    case GuidId(g) => MoreMembers(KEY_IDTYPE, Prim([50]), MoreMembers(KEY_ID, Str(GuidText(g)), tail))
    case OpaqueId(b) => MoreMembers(KEY_IDTYPE, Prim([51]), MoreMembers(KEY_ID, ByteStringJson(b), tail))
  }

  function ToJson(ty: Type, v: Value): Json
    requires HasType(ty, v) && Encodable(ty, v)
    decreases ty, 1
  {
    match ty
    case Boolean => Prim(if v.b then TRUE_TEXT else FALSE_TEXT)
    case Unsigned(bits) => IntegerJson(bits, Itoa.Numeral(v.n, 10))
    case Signed(bits) => IntegerJson(bits, Itoa.SignedNumeral(v.n))
    case String => StringJson(v.s)
    case ByteString => ByteStringJson(v.s)
    case GuidType => Str(GuidText(v.g))
    case NodeId => Obj(NodeIdMembers(v.namespace, v.id))
    case QualifiedName => Obj(MoreMembers(KEY_NAME, StringJson(v.name), NamespaceMembers(KEY_URI, v.namespace)))
    case LocalizedText =>
      Obj(MoreMembers(KEY_LOCALE, StringJson(v.locale), MoreMembers(KEY_TEXT, StringJson(v.text), NoMembers)))
    case Array(_) => Arr(ElemsJson(ty, v, 0))
    case Structure(_) => Obj(FieldsJson(ty, v, 0))
    case Skip => Prim([])
  }

  function ElemsJson(ty: Type, v: Value, i: nat): Elems
    requires ty.Array? && HasType(ty, v) && i <= |v.elems| && ElemsEncodable(ty, v, i)
    decreases ty, 0, |v.elems| - i
  {
    if i == |v.elems| then NoElems else MoreElems(ToJson(ty.elem, v.elems[i]), ElemsJson(ty, v, i + 1))
  }

  function FieldsJson(ty: Type, v: Value, i: nat): Members
    requires ty.Structure? && HasType(ty, v) && i <= |v.fields| && FieldsEncodable(ty, v, i)
    decreases ty, 0, |v.fields| - i
  {
    if i == |v.fields| then NoMembers
    else MoreMembers(ty.members[i].name, ToJson(ty.members[i].ty, v.fields[i]), FieldsJson(ty, v, i + 1))
  }

  /** The JSON text of a value. */
  function TextOf(ty: Type, v: Value): bytes
    requires HasType(ty, v) && Encodable(ty, v)
  {
    Render(ToJson(ty, v))
  }
}
