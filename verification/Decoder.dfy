/**
 What the decoder computes from a token array and a text, for every array whose tokens lie in
 the text.  Each function takes the index the C code keeps in `parseCtx->index` and reports
 where it leaves it.
 */
module Decoder {
  import opened Bytes
  import opened Jsmn
  import opened TokenWalk
  import opened U = UaTypes
  import Base64
  import ParseInteger
  import StringCodec

  datatype Decoded = Fail(status: Status) | Done(value: Value, next: nat)

  datatype FieldsDecoded = FieldsFail(status: Status) | FieldsDone(vals: seq<Value>, found: seq<bool>, next: nat)

  // ---- Leaves ----

  /** A primitive that starts with `null`. */
  predicate IsJsonNull(toks: seq<Token>, js: bytes, i: nat)
    requires i < |toks| ==> 0 <= toks[i].start
  {
    i < |toks| && toks[i].typ.Primitive? && toks[i].start + 4 <= |js|
    && js[toks[i].start..toks[i].start + 4] == NULL_TEXT
  }

  /** The cast of a 64-bit result to an unsigned type. */
  function CastUnsigned(bits: nat, n: int): int { n % Pow2(bits) }

  function CastSigned(bits: nat, n: int): int { (n + Pow2(bits) / 2) % Pow2(bits) - Pow2(bits) / 2 }

  function Hex2Int(c: byte): nat {
    if 48 <= c <= 57 then c - 48
    else if 65 <= c <= 70 then c - 65 + 10
    else if 97 <= c <= 102 then c - 97 + 10
    else 0
  }

  /** The number of a row of hexadecimal digits, each shifted to its place. */
  function HexNumber(s: bytes): nat {
    if s == [] then 0 else Hex2Int(s[0]) * Pow16(|s| - 1) + HexNumber(s[1..])
  }

  function GuidFromChars(c: bytes): U.Guid
    requires |c| == 36
  {
    U.Guid(HexNumber(c[0..8]), HexNumber(c[9..13]), HexNumber(c[14..18]),
           [HexByte(c, 19), HexByte(c, 21), HexByte(c, 24), HexByte(c, 26),
            HexByte(c, 28), HexByte(c, 30), HexByte(c, 32), HexByte(c, 34)])
  }

  function HexByte(c: bytes, i: nat): byte
    requires i + 1 < |c|
  {
    Hex2Int(c[i]) * 16 + Hex2Int(c[i + 1])
  }

  predicate GuidChars(c: bytes) { forall i :: 0 <= i < |c| ==> c[i] == MINUS || IsHex(c[i]) }

  /** A value of one token. */
  function DecodeLeaf(ty: Type, toks: seq<Token>, js: bytes, i: nat): Decoded
    requires Spans(toks, js)
  {
    if i >= |toks| then Fail(BadDecodingError)
    else
      var t, text := toks[i], TokenText(js, toks[i]);
      match ty
      case Boolean =>
        if t.typ.Primitive? && text == TRUE_TEXT then Done(VBoolean(true), i + 1)
        else if t.typ.Primitive? && text == FALSE_TEXT then Done(VBoolean(false), i + 1)
        else Fail(BadDecodingError)
      case Unsigned(bits) =>
        if t.typ != (if bits == 64 then TokType.String else Primitive) then Fail(BadDecodingError)
        else
          var r := ParseInteger.UnsignedOf(text);
          if r.None? then Fail(BadDecodingError) else Done(VInteger(CastUnsigned(bits, r.value)), i + 1)
      case Signed(bits) =>
        if t.typ != (if bits == 64 then TokType.String else Primitive) then Fail(BadDecodingError)
        else
          var r := ParseInteger.SignedOf(text);
          if r.None? then Fail(BadDecodingError) else Done(VInteger(CastSigned(bits, r.value)), i + 1)
      case String =>
        if IsJsonNull(toks, js, i) then Done(VString(NullString), i + 1)
        else if !t.typ.String? then Fail(BadDecodingError)
        else
          var r := StringCodec.Unescape(text, 0);
          if r.None? then Fail(BadDecodingError) else Done(VString(Text(r.value)), i + 1)
      case ByteString =>
        if IsJsonNull(toks, js, i) then Done(VString(NullString), i + 1)
        else if !t.typ.String? then Fail(BadDecodingError)
        else if text == [] then Done(VString(Text([])), i)
        else Done(VString(Text(Base64.Decode(text))), i + 1)
      case GuidType =>
        if t.typ.String? && |text| == 36 && GuidChars(text) then Done(VGuid(GuidFromChars(text)), i + 1)
        else Fail(BadDecodingError)
      case Skip => Done(VNone, i + 1)
      case _ => Fail(BadDecodingError)
  }

  // ---- Objects: key lookup and field dispatch ----

  /** The entry whose name is the key at this token, tried from entry `i % |ms|` on, before step `last`. */
  function FindEntry(ms: seq<U.Member>, js: bytes, t: Token, i: nat, last: nat): (r: Option<nat>)
    requires |ms| > 0 && i <= last && 0 <= t.start <= t.end <= |js|
    ensures r.Some? ==> r.value < |ms| && JsonEq(js, t, ms[r.value].name)
    decreases last - i
  {
    if i == last then None
    else if JsonEq(js, t, ms[i % |ms|].name) then Some(i % |ms|)
    else FindEntry(ms, js, t, i + 1, last)
  }

  function Rank(ty: Type): nat { if IsLeaf(ty) then 0 else if ty.Array? || ty.Structure? then 2 else 1 }

  function Ranks(ms: seq<U.Member>): nat { if forall i :: 0 <= i < |ms| ==> IsLeaf(ms[i].ty) then 0 else 2 }

  /** The value a zero-initialised field has. */
  function Default(ty: Type): Value {
    match ty
    case Boolean => VBoolean(false)
    case Unsigned(_) => VInteger(0)
    case Signed(_) => VInteger(0)
    case String => VString(NullString)
    case ByteString => VString(NullString)
    case GuidType => VGuid(NoGuid())
    case NodeId => VNodeId(0, Numeric(0))
    case QualifiedName => VQualifiedName(NullString, 0)
    case LocalizedText => VLocalizedText(NullString, NullString)
    case Array(_) => VArray([])
    case Structure(ms) => VStructure(Defaults(ms))
    case Skip => VNone
  }

  function Defaults(ms: seq<U.Member>): (r: seq<Value>)
    ensures |r| == |ms|
  {
    if ms == [] then [] else [Default(ms[0].ty)] + Defaults(ms[1..])
  }

  function NoGuid(): U.Guid { U.Guid(0, 0, 0, [0, 0, 0, 0, 0, 0, 0, 0]) }

  /** decodeFields on the object at index `i`. */
  function DecodeFields(ms: seq<U.Member>, toks: seq<Token>, js: bytes, i: nat, depth: nat): (r: FieldsDecoded)
    requires Spans(toks, js)
    ensures r.FieldsDone? ==> |r.vals| == |r.found| == |ms|
    decreases Ranks(ms), ms, 2, 0
  {
    if i >= |toks| then FieldsFail(BadDecodingError)
    else if |ms| == 0 then FieldsFail(BadDecodingError)
    else if |ms| == 1 && ms[0].name == [] then
      var r := Decode(ms[0].ty, toks, js, i, depth);
      if r.Fail? then FieldsFail(r.status) else FieldsDone([r.value], [false], r.next)
    else if i + 1 >= |toks| then FieldsFail(BadDecodingError)
    else FieldsLoop(ms, toks, js, i + 1, 0, toks[i].size, Defaults(ms), seq(|ms|, _ => false), depth)
  }

  /** Its outer loop: one key per round, or nothing if the key is unknown. */
  function FieldsLoop(ms: seq<U.Member>, toks: seq<Token>, js: bytes, i: nat, round: nat, count: nat,
                      vals: seq<Value>, found: seq<bool>, depth: nat): (r: FieldsDecoded)
    requires Spans(toks, js) && |ms| > 0 && |vals| == |found| == |ms|
    ensures r.FieldsDone? ==> |r.vals| == |r.found| == |ms|
    decreases Ranks(ms), ms, 1, count - round
  {
    if round >= count || i >= |toks| then FieldsDone(vals, found, i)
    else
      var e := FindEntry(ms, js, toks[i], round, round + |ms|);
      if e.None? then FieldsLoop(ms, toks, js, i, round + 1, count, vals, found, depth)
      else if found[e.value] || i + 1 >= |toks| then FieldsFail(BadDecodingError)
      else
        var r := Decode(ms[e.value].ty, toks, js, i + 1, depth);
        if r.Fail? then FieldsFail(r.status)
        else FieldsLoop(ms, toks, js, r.next, round + 1, count, vals[e.value := r.value], found[e.value := true], depth)
  }

  // ---- Built-in objects ----

  const QUALIFIED_NAME: seq<U.Member> := [Member(KEY_NAME, Type.String), Member(KEY_URI, Unsigned(16))]

  const LOCALIZED_TEXT: seq<U.Member> := [Member(KEY_LOCALE, Type.String), Member(KEY_TEXT, Type.String)]

  /** The type of the identifier, from the first character of the IdType value; none if it is another one. */
  function IdTypeOf(toks: seq<Token>, js: bytes, i: nat): Option<Type>
    requires Spans(toks, js)
  {
    var r := SearchKey(toks, js, KEY_IDTYPE, i, 0);
    if r.status != Good then Some(Unsigned(32))
    else if r.result >= |toks| || toks[r.result].end - toks[r.result].start < 1 then None
    else
      var c := js[toks[r.result].start];
      if c == 50 then Some(GuidType)
      else if c == 49 then Some(Type.String)
      else if c == 51 then Some(ByteString)
      else None
  }

  function NodeIdEntries(idType: Type, hasNamespace: bool): seq<U.Member> {
    [Member(KEY_ID, idType)]
    + (if idType.Unsigned? then [] else [Member(KEY_IDTYPE, Skip)])
    + (if hasNamespace then [Member(KEY_NAMESPACE, Unsigned(16))] else [])
  }

  /** The identifier held by the first entry's value. */
  function IdOf(idType: Type, v: Value): Identifier {
    match v
    case VInteger(n) => if n >= 0 then Numeric(n) else Numeric(0)
    case VGuid(g) => GuidId(g)
    case VString(s) => if idType.ByteString? then OpaqueId(s) else StringId(s)
    case _ => Numeric(0)
  }

  function NatOf(v: Value): nat { if v.VInteger? && v.n >= 0 then v.n else 0 }

  function StringOf(v: Value): UaString { if v.VString? then v.s else NullString }

  // ---- Any value ----

  function Decode(ty: Type, toks: seq<Token>, js: bytes, i: nat, depth: nat): Decoded
    requires Spans(toks, js)
    decreases Rank(ty), ty, 0, 0
  {
    match ty
    case NodeId =>
      if IsJsonNull(toks, js, i) then Done(Default(ty), i + 1)
      else if i >= |toks| || !toks[i].typ.Object? then Fail(BadDecodingError)
      else
        var hasNamespace := SearchKey(toks, js, KEY_NAMESPACE, i, 0).status == Good;
        var idType := IdTypeOf(toks, js, i);
        if idType.None? then Fail(BadDecodingError)
        else
          var ms := NodeIdEntries(idType.value, hasNamespace);
          LeafEntries(idType.value, hasNamespace);
          var r := DecodeFields(ms, toks, js, i, depth);
          if r.FieldsFail? then Fail(r.status)
          else Done(VNodeId(if hasNamespace then NatOf(r.vals[|ms| - 1]) else 0, IdOf(idType.value, r.vals[0])), r.next)
    case QualifiedName =>
      if IsJsonNull(toks, js, i) then Done(Default(ty), i + 1)
      else if i >= |toks| || !toks[i].typ.Object? then Fail(BadDecodingError)
      else
        var r := DecodeFields(QUALIFIED_NAME, toks, js, i, depth);
        if r.FieldsFail? then Fail(r.status)
        else Done(VQualifiedName(StringOf(r.vals[0]), NatOf(r.vals[1])), r.next)
    case LocalizedText =>
      if IsJsonNull(toks, js, i) then Done(Default(ty), i + 1)
      else if i >= |toks| || !toks[i].typ.Object? then Fail(BadDecodingError)
      else
        var r := DecodeFields(LOCALIZED_TEXT, toks, js, i, depth);
        if r.FieldsFail? then Fail(r.status)
        else Done(VLocalizedText(StringOf(r.vals[0]), StringOf(r.vals[1])), r.next)
    case Array(elem) =>
      if i >= |toks| || !toks[i].typ.Array? then Fail(BadDecodingError)
      else if toks[i].size == 0 then Done(VArray([]), i)
      else DecodeElems(elem, toks, js, i + 1, toks[i].size, [], depth)
    case Structure(ms) =>
      if depth > MAX_RECURSION then Fail(BadEncodingError)
      else
        var r := DecodeFields(ms, toks, js, i, depth + 1);
        if r.FieldsFail? then Fail(r.status) else Done(VStructure(r.vals), r.next)
    case _ => DecodeLeaf(ty, toks, js, i)
  }

  lemma LeafEntries(idType: Type, hasNamespace: bool)
    requires IsLeaf(idType)
    ensures Ranks(NodeIdEntries(idType, hasNamespace)) == 0
  {
  }

  /** `n` more elements, after those in `acc`. */
  function DecodeElems(elem: Type, toks: seq<Token>, js: bytes, i: nat, n: nat, acc: seq<Value>, depth: nat): Decoded
    requires Spans(toks, js)
    decreases Rank(elem), elem, 1, n
  {
    if n == 0 then Done(VArray(acc), i)
    else
      var r := Decode(elem, toks, js, i, depth);
      if r.Fail? then r else DecodeElems(elem, toks, js, r.next, n - 1, acc + [r.value], depth)
  }

  // ---- Which errors ----

  /** A decoder fails with a decoding error, or with an encoding error too deep in structures. */
  predicate Expected(status: Status, tooDeep: bool) {
    status == BadDecodingError || (status == BadEncodingError && tooDeep)
  }

  lemma {:induction false} FailsAsExpected(ty: Type, toks: seq<Token>, js: bytes, i: nat, depth: nat)
    requires Spans(toks, js)
    ensures var r := Decode(ty, toks, js, i, depth); r.Fail? ==> Expected(r.status, depth + Depth(ty) > MAX_RECURSION)
    decreases Rank(ty), ty, 0, 0
  {
    hide DecodeFields, SearchKey, IdTypeOf, IsJsonNull, StringCodec.Unescape, Base64.Decode, Defaults;
    match ty {
      case NodeId =>
        var hasNamespace := SearchKey(toks, js, KEY_NAMESPACE, i, 0).status == Good;
        var idType := IdTypeOf(toks, js, i);
        if idType.Some? {
          IdTypeIsLeaf(toks, js, i);
          LeafEntries(idType.value, hasNamespace);
          FieldsFailAsExpected(NodeIdEntries(idType.value, hasNamespace), toks, js, i, depth, 0);
        }
      case QualifiedName => FieldsFailAsExpected(QUALIFIED_NAME, toks, js, i, depth, 0);
      case LocalizedText => FieldsFailAsExpected(LOCALIZED_TEXT, toks, js, i, depth, 0);
      case Array(elem) =>
        if i < |toks| && toks[i].typ.Array? {
          ElemsFailAsExpected(elem, toks, js, i + 1, toks[i].size, [], depth);
        }
      case Structure(ms) =>
        if depth <= MAX_RECURSION {
          forall k | 0 <= k < |ms| ensures Depth(ms[k].ty) <= MaxDepth(ms) {
            MaxDepthBounds(ms, k);
          }
          FieldsFailAsExpected(ms, toks, js, i, depth + 1, MaxDepth(ms));
        }
      case _ =>
    }
  }

  lemma IdTypeIsLeaf(toks: seq<Token>, js: bytes, i: nat)
    requires Spans(toks, js) && IdTypeOf(toks, js, i).Some?
    ensures IsLeaf(IdTypeOf(toks, js, i).value)
  {
    hide SearchKey;
  }

  lemma {:induction false} FieldsFailAsExpected(ms: seq<U.Member>, toks: seq<Token>, js: bytes, i: nat, depth: nat, levels: nat)
    requires Spans(toks, js) && forall k :: 0 <= k < |ms| ==> Depth(ms[k].ty) <= levels
    ensures var r := DecodeFields(ms, toks, js, i, depth);
            r.FieldsFail? ==> Expected(r.status, depth + levels > MAX_RECURSION)
    decreases Ranks(ms), ms, 2, 0
  {
    hide Decode, FieldsLoop;
    if i < |toks| && |ms| > 0 {
      if |ms| == 1 && ms[0].name == [] {
        FailsAsExpected(ms[0].ty, toks, js, i, depth);
      } else if i + 1 < |toks| {
        LoopFailsAsExpected(ms, toks, js, i + 1, 0, toks[i].size, Defaults(ms), seq(|ms|, _ => false), depth, levels);
      }
    }
  }

  lemma {:induction false} LoopFailsAsExpected(ms: seq<U.Member>, toks: seq<Token>, js: bytes, i: nat, round: nat, count: nat,
                                               vals: seq<Value>, found: seq<bool>, depth: nat, levels: nat)
    requires Spans(toks, js) && |ms| > 0 && |vals| == |found| == |ms|
    requires forall k :: 0 <= k < |ms| ==> Depth(ms[k].ty) <= levels
    ensures var r := FieldsLoop(ms, toks, js, i, round, count, vals, found, depth);
            r.FieldsFail? ==> Expected(r.status, depth + levels > MAX_RECURSION)
    decreases Ranks(ms), ms, 1, count - round
  {
    hide Decode, FindEntry;
    if round < count && i < |toks| {
      var e := FindEntry(ms, js, toks[i], round, round + |ms|);
      if e.None? {
        LoopFailsAsExpected(ms, toks, js, i, round + 1, count, vals, found, depth, levels);
      } else if !found[e.value] && i + 1 < |toks| {
        FailsAsExpected(ms[e.value].ty, toks, js, i + 1, depth);
        var r := Decode(ms[e.value].ty, toks, js, i + 1, depth);
        if r.Done? {
          LoopFailsAsExpected(ms, toks, js, r.next, round + 1, count, vals[e.value := r.value], found[e.value := true], depth, levels);
        }
      }
    }
  }

  lemma {:induction false} ElemsFailAsExpected(elem: Type, toks: seq<Token>, js: bytes, i: nat, n: nat, acc: seq<Value>, depth: nat)
    requires Spans(toks, js)
    ensures var r := DecodeElems(elem, toks, js, i, n, acc, depth);
            r.Fail? ==> Expected(r.status, depth + Depth(elem) > MAX_RECURSION)
    decreases Rank(elem), elem, 1, n
  {
    hide Decode;
    if n > 0 {
      FailsAsExpected(elem, toks, js, i, depth);
      var r := Decode(elem, toks, js, i, depth);
      if r.Done? {
        ElemsFailAsExpected(elem, toks, js, r.next, n - 1, acc + [r.value], depth);
      }
    }
  }
}
