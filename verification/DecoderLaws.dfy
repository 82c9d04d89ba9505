/**
 What the decoders make of texts the encoder does not write: other kinds of tokens, numbers out of
 range, null, missing members, structures nested too deep.
 */
module DecoderLaws {
  import opened Bytes
  import opened JsonTree
  import opened TokenWalk
  import opened Decoder
  import opened EndToEnd
  import opened FieldDispatch
  import opened ReadBack
  import opened RoundTrip
  import opened U = UaTypes
  import opened Arith
  import Base64
  import Itoa
  import Jsmn
  import JsmnProps
  import JsmnTree
  import ParseInteger
  import StringCodec

  // ---- Leaves ----

  /** The cast to a width keeps the number modulo two to the width, in the range of the type. */
  lemma CastIs(bits: nat, n: int)
    requires Width(bits)
    ensures 0 <= CastUnsigned(bits, n) < Pow2(bits) && (n - CastUnsigned(bits, n)) % Pow2(bits) == 0
    ensures -Pow2(bits) <= 2 * CastSigned(bits, n) < Pow2(bits) && (n - CastSigned(bits, n)) % Pow2(bits) == 0
  {
    WholeMultiple(n, Pow2(bits));
    WholeMultiple(n + Pow2(bits) / 2, Pow2(bits));
  }

  lemma WholeMultiple(n: int, m: int)
    requires m == 0x100 || m == 0x1_0000 || m == 0x1_0000_0000 || m == 0x1_0000_0000_0000_0000
    ensures 0 <= n % m < m && (n - n % m) % m == 0
  {
  }

  /** A Boolean is exactly the word true or the word false. */
  lemma BooleanReads(toks: seq<Jsmn.Token>, js: bytes, i: nat, s: nat, j: Json, depth: nat)
    requires Spans(toks, js) && Wf(j) && !Container(j) && Here(toks, js, i, s, j)
    ensures Decode(Boolean, toks, js, i, depth) ==
      if j == Prim(Ascii("true")) then Done(VBoolean(true), i + 1)
      else if j == Prim(Ascii("false")) then Done(VBoolean(false), i + 1)
      else Fail(BadDecodingError)
  {
    hide Here;
    LeafHere(toks, js, i, s, j);
    assert Ascii("true") == TRUE_TEXT && Ascii("false") == FALSE_TEXT;
  }

  /** The text of a number of this width: a string with 64 bits, else a primitive. */
  function NumberText(bits: nat, j: Json): Option<bytes> {
    if bits == 64 then (if j.Str? then Some(j.body) else None) else if j.Prim? then Some(j.text) else None
  }

  /** An unsigned number is read exactly from at most twenty characters with digits below 2^64, and then cast to the width. */
  lemma UnsignedLeafReads(bits: nat, toks: seq<Jsmn.Token>, js: bytes, i: nat, s: nat, j: Json, depth: nat,
                          blanks: bytes, sign: bytes, digits: bytes, tail: bytes)
    requires Spans(toks, js) && Wf(j) && !Container(j) && Here(toks, js, i, s, j) && Width(bits)
    requires NumberText(bits, j).Some? ==> ParseInteger.Parts(NumberText(bits, j).value, blanks, sign, digits, tail)
    ensures var r := Decode(Unsigned(bits), toks, js, i, depth);
            var v := Itoa.NumeralValue(digits, 10);
            && (r.Done? <==> NumberText(bits, j).Some? && |NumberText(bits, j).value| <= 20 && digits != [] && v < 0x1_0000_0000_0000_0000)
            && (r.Done? ==> r.value.VInteger? && 0 <= r.value.n < Pow2(bits) && r.next == i + 1
                            && ((if sign == Ascii("-") then -v else v) - r.value.n) % Pow2(bits) == 0)
  {
    hide Here, Itoa.NumeralValue, ParseInteger.Parts, ParseInteger.UnsignedOf, CastUnsigned;
    LeafHere(toks, js, i, s, j);
    MinusMark();
    if NumberText(bits, j).Some? {
      ParseInteger.UnsignedReads(NumberText(bits, j).value, blanks, sign, digits, tail);
      var r := ParseInteger.UnsignedOf(NumberText(bits, j).value);
      if r.Some? {
        CastIs(bits, r.value);
        ValueOfDigits(NumberText(bits, j).value, blanks, sign, digits, tail);
        NegatedAlike(bits, Itoa.NumeralValue(digits, 10), CastUnsigned(bits, r.value));
      }
    }
  }

  lemma MinusMark()
    ensures Ascii("-") == [MINUS]
  {
  }

  lemma ValueOfDigits(text: bytes, blanks: bytes, sign: bytes, digits: bytes, tail: bytes)
    requires ParseInteger.Parts(text, blanks, sign, digits, tail)
    ensures Itoa.NumeralValue(digits, 10) >= 0
  {
    Itoa.ValueGrows(digits, 0, |digits|, |digits|);
    assert digits[0..|digits|] == digits;
  }

  /** Negating modulo 2^64 first makes no difference modulo a smaller power. */
  lemma NegatedAlike(bits: nat, v: int, n: int)
    requires Width(bits) && 0 <= v < 0x1_0000_0000_0000_0000
    ensures ((0x1_0000_0000_0000_0000 - v) % 0x1_0000_0000_0000_0000 - n) % Pow2(bits) == 0 ==> (-v - n) % Pow2(bits) == 0
  {
    var m, p := 0x1_0000_0000_0000_0000, Pow2(bits);
    assert m / p * p == m;
    if v > 0 && (m - v - n) % p == 0 { MultipleLess(m - v - n, m / p, p); }
  }

  lemma MultipleLess(a: int, k: int, p: int)
    requires p > 0 && a % p == 0
    ensures (a - k * p) % p == 0
  {
    var q := a / p;
    assert a - k * p == (q - k) * p;
    DivModOf(q - k, 0, p);
  }

  /** A signed number: the same with its sign and the range of int64. */
  lemma SignedLeafReads(bits: nat, toks: seq<Jsmn.Token>, js: bytes, i: nat, s: nat, j: Json, depth: nat,
                        blanks: bytes, sign: bytes, digits: bytes, tail: bytes)
    requires Spans(toks, js) && Wf(j) && !Container(j) && Here(toks, js, i, s, j) && Width(bits)
    requires NumberText(bits, j).Some? ==> ParseInteger.Parts(NumberText(bits, j).value, blanks, sign, digits, tail)
    ensures var r := Decode(Signed(bits), toks, js, i, depth);
            var v := Itoa.NumeralValue(digits, 10);
            var n := if sign == Ascii("-") then -v else v;
            && (r.Done? <==> NumberText(bits, j).Some? && |NumberText(bits, j).value| <= 20 && digits != []
                             && -0x8000_0000_0000_0000 <= n < 0x8000_0000_0000_0000)
            && (r.Done? ==> r.value.VInteger? && -Pow2(bits) <= 2 * r.value.n < Pow2(bits) && r.next == i + 1
                            && (n - r.value.n) % Pow2(bits) == 0)
  {
    hide Here, Itoa.NumeralValue, ParseInteger.Parts, ParseInteger.SignedOf, CastSigned;
    LeafHere(toks, js, i, s, j);
    MinusMark();
    if NumberText(bits, j).Some? {
      ParseInteger.SignedReads(NumberText(bits, j).value, blanks, sign, digits, tail);
      var r := ParseInteger.SignedOf(NumberText(bits, j).value);
      if r.Some? { CastIs(bits, r.value); }
    }
  }

  /** A string: null, or a string token whose escapes are right; a byte string: null, or any string token. */
  lemma StringsRead(toks: seq<Jsmn.Token>, js: bytes, i: nat, s: nat, j: Json, depth: nat)
    requires Spans(toks, js) && Wf(j) && !Container(j) && Here(toks, js, i, s, j)
    requires j.Prim? ==> s + |j.text| < |js| && Jsmn.EndsPrimitive(js[s + |j.text|])
    ensures var isNull := j.Prim? && |j.text| >= 4 && j.text[..4] == Ascii("null");
            && Decode(Type.String, toks, js, i, depth) ==
                 (if isNull then Done(VString(NullString), i + 1)
                  else if j.Str? && StringCodec.Unescape(j.body, 0).Some? then Done(VString(Text(StringCodec.Unescape(j.body, 0).value)), i + 1)
                  else Fail(BadDecodingError))
            && Decode(ByteString, toks, js, i, depth) ==
                 (if isNull then Done(VString(NullString), i + 1)
                  else if j.Str? then Done(VString(Text(Base64.Decode(j.body))), if j.body == [] then i else i + 1)
                  else Fail(BadDecodingError))
  {
    hide Here, StringCodec.Unescape, Base64.Decode;
    LeafHere(toks, js, i, s, j);
    assert Ascii("null") == NULL_TEXT;
    NoBytes();
    if j.Prim? { NullRead(toks, js, i, s, j); }
  }

  lemma NoBytes()
    ensures Base64.Decode([]) == []
  {
  }

  lemma NullRead(toks: seq<Jsmn.Token>, js: bytes, i: nat, s: nat, j: Json)
    requires Spans(toks, js) && j.Prim? && Wf(j) && Here(toks, js, i, s, j)
    requires s + |j.text| < |js| && Jsmn.EndsPrimitive(js[s + |j.text|])
    ensures IsJsonNull(toks, js, i) <==> |j.text| >= 4 && j.text[..4] == NULL_TEXT
  {
    hide Here;
    LeafHere(toks, js, i, s, j);
    var p, e := j.text, s + |j.text|;
    assert js[s..toks[i].end] == p;
    if |p| >= 4 {
      assert js[s..s + 4] == p[..4];
    } else if s + 4 <= |js| {
      assert js[s..s + 4][|p|] == js[e];
    }
  }

  /** A Guid is read exactly from a string of 36 hexadecimal digits and dashes. */
  lemma GuidReads(toks: seq<Jsmn.Token>, js: bytes, i: nat, s: nat, j: Json, depth: nat)
    requires Spans(toks, js) && Wf(j) && !Container(j) && Here(toks, js, i, s, j)
    ensures Decode(GuidType, toks, js, i, depth) ==
      if j.Str? && |j.body| == 36 && (forall k :: 0 <= k < 36 ==> j.body[k] == '-' as int || IsHex(j.body[k]))
      then Done(VGuid(GuidFromChars(j.body)), i + 1) else Fail(BadDecodingError)
  {
    hide Here, GuidFromChars, IsHex;
    LeafHere(toks, js, i, s, j);
  }

  // ---- Other kinds of tokens ----

  /** A container is no leaf, an array no object, an object or a leaf no array; a leaf is no built-in object unless it is null. */
  lemma WrongKind(ty: Type, toks: seq<Jsmn.Token>, js: bytes, i: nat, s: nat, j: Json, depth: nat)
    requires Spans(toks, js) && Wf(j) && Here(toks, js, i, s, j)
    requires
      || (IsLeaf(ty) && !ty.Skip? && Container(j))
      || (ty.Array? && !j.Arr?)
      || ((ty.NodeId? || ty.QualifiedName? || ty.LocalizedText?) && (j.Arr? || j.Str?))
    ensures Decode(ty, toks, js, i, depth) == Fail(BadDecodingError)
  {
    hide Here, DecodeFields, DecodeElems, SearchKey, IdTypeOf;
    KindHere(toks, js, i, s, j);
  }

  lemma KindHere(toks: seq<Jsmn.Token>, js: bytes, i: nat, s: nat, j: Json)
    requires Spans(toks, js) && Wf(j) && Here(toks, js, i, s, j)
    ensures i < |toks|
    ensures toks[i].typ == (if j.Prim? then Jsmn.Primitive else if j.Str? then Jsmn.TokType.String
                            else if j.Arr? then Jsmn.TokType.Array else Jsmn.Object)
  {
    hide Here;
    match j {
      case Arr(es) => ValueToken(toks, js, i, s, j); ArrHere(toks, js, i, s, es);
      case Obj(ms) => ValueToken(toks, js, i, s, j); ObjHere(toks, js, i, s, ms);
      case _ => LeafHere(toks, js, i, s, j);
    }
  }

  function LeafText(j: Json): bytes { if j.Prim? then j.text else if j.Str? then j.body else [] }

  /** The first character of IdType, a number or a string, decides: 1, 2 or 3, whatever follows it; no other makes a NodeId. */
  lemma FirstCharacter(toks: seq<Jsmn.Token>, js: bytes, i: nat, s: nat, v: Json, rest: Members, depth: nat)
    requires var ms := MoreMembers(KEY_IDTYPE, v, rest);
             Spans(toks, js) && Wf(Obj(ms)) && !Container(v) && Here(toks, js, i, s, Obj(ms))
    ensures var t := LeafText(v);
            var c := if t == [] then 0 else t[0];
            && IdTypeOf(toks, js, i) ==
                 (if c == '1' as int then Some(Type.String) else if c == '2' as int then Some(GuidType)
                  else if c == '3' as int then Some(ByteString) else None)
            && (c != '1' as int && c != '2' as int && c != '3' as int ==>
                  Decode(Type.NodeId, toks, js, i, depth) == Fail(BadDecodingError))
  {
    hide Here, MembersHere, DecodeFields, SearchKey, IsJsonNull, Wf, WfMembers;
    var ms := MoreMembers(KEY_IDTYPE, v, rest);
    WfObj(ms);
    WfRest(ms);
    ObjectHere(toks, js, i, s, ms);
    LooksAhead(toks, js, KEY_IDTYPE, i, s, ms);
    var s2 := MemberHere(toks, js, i + 1, s + 1, ms, true);
    LeafHere(toks, js, i + 2, s2, v);
    if LeafText(v) != [] {
      assert js[toks[i + 2].start] == TokenText(js, toks[i + 2])[0];
    }
  }

  /** Without IdType the identifier is a number. */
  lemma NoIdType(toks: seq<Jsmn.Token>, js: bytes, i: nat, s: nat, ms: Members)
    requires Spans(toks, js) && Wf(Obj(ms)) && Here(toks, js, i, s, Obj(ms)) && !HasKey(ms, Ascii("IdType"))
    ensures IdTypeOf(toks, js, i) == Some(Unsigned(32))
  {
    hide Here, SearchKey;
    assert Ascii("IdType") == KEY_IDTYPE;
    LooksAhead(toks, js, KEY_IDTYPE, i, s, ms);
  }

  // ---- Structures without members, and a member without a name ----

  lemma NoMembersRefused(toks: seq<Jsmn.Token>, js: bytes, i: nat, depth: nat)
    requires Spans(toks, js) && depth <= 100
    ensures Decode(Structure([]), toks, js, i, depth) == Fail(BadDecodingError)
  {
  }

  /** A structure whose one member has no name is written as that member. */
  lemma NamelessIsMember(ty: Type, toks: seq<Jsmn.Token>, js: bytes, i: nat, depth: nat)
    requires Spans(toks, js) && i < |toks| && depth <= 100
    ensures Decode(Structure([Member([], ty)]), toks, js, i, depth) ==
              match Decode(ty, toks, js, i, depth + 1)
              case Fail(status) => Fail(status)
              case Done(v, next) => Done(VStructure([v]), next)
  {
    hide Decode;
    var ms := [Member([], ty)];
    var f := DecodeFields(ms, toks, js, i, depth + 1);
    assert f == match Decode(ty, toks, js, i, depth + 1)
                case Fail(status) => FieldsFail(status)
                case Done(v, next) => FieldsDone([v], [false], next);
    StructureIs(ms, toks, js, i, depth);
  }

  lemma StructureIs(ms: seq<Member>, toks: seq<Jsmn.Token>, js: bytes, i: nat, depth: nat)
    requires Spans(toks, js) && depth <= 100
    ensures Decode(Structure(ms), toks, js, i, depth) ==
              match DecodeFields(ms, toks, js, i, depth + 1)
              case FieldsFail(status) => Fail(status)
              case FieldsDone(vals, _, next) => Done(VStructure(vals), next)
  {
    hide DecodeFields;
  }

  // ---- Objects and arrays by their parts, on every text ----

  /** What the member with this key is decoded to, or the zero value if there is none. */
  function Part(ty: Type, key: bytes, ms: Members, toks: seq<Jsmn.Token>, js: bytes, i: nat, depth: nat): Value
    requires Spans(toks, js)
  {
    var k := ValueIndex(ms, key, i);
    if k < 0 then Default(ty)
    else match Decode(ty, toks, js, k, depth) case Done(v, _) => v case Fail(_) => Default(ty)
  }

  /** The fields are the parts, if no key is repeated. */
  lemma FieldsAreParts(ents: seq<Member>, ms: Members, toks: seq<Jsmn.Token>, js: bytes, i: nat, s: nat, depth: nat)
    requires Spans(toks, js) && DistinctNames(ents) && |ents| > 0 && (|ents| == 1 ==> ents[0].name != [])
    requires Wf(Obj(ms)) && ms.MoreMembers? && Here(toks, js, i, s, Obj(ms)) && Consumes(ents, ms, toks, js, i + 1, depth)
    ensures var r := DecodeFields(ents, toks, js, i, depth);
            if DistinctKeys(ms) then
              && r.FieldsDone? && r.next == i + Size(Obj(ms)) && |r.vals| == |ents|
              && forall e :: 0 <= e < |ents| ==> r.vals[e] == Part(ents[e].ty, ents[e].name, ms, toks, js, i + 1, depth)
            else r == FieldsFail(BadDecodingError)
  {
    hide Decode, Here, Consumes, DecodeFields, Defaults, Default;
    DecodesFields(ents, ms, toks, js, i, s, depth);
    if DistinctKeys(ms) {
      var r := DecodeFields(ents, toks, js, i, depth);
      forall e | 0 <= e < |ents| ensures r.vals[e] == Part(ents[e].ty, ents[e].name, ms, toks, js, i + 1, depth) {
        NoIndex(ms, ents[e].name, i + 1);
        DefaultAt(ents, e);
      }
    }
  }

  lemma {:induction false} NoIndex(ms: Members, key: bytes, i: nat)
    ensures HasKey(ms, key) <==> ValueIndex(ms, key, i) >= 0
    decreases ms
  {
    if ms.MoreMembers? { NoIndex(ms.rest, key, i + 1 + Size(ms.value)); }
  }

  lemma {:induction false} DefaultAt(ents: seq<Member>, e: nat)
    requires e < |ents|
    ensures Defaults(ents)[e] == Default(ents[e].ty)
    decreases e
  {
    hide Default;
    if e > 0 { DefaultAt(ents[1..], e - 1); }
  }

  /** A LocalizedText by its members, in any order; a missing one is null, a repeated one an error. */
  lemma LocalizedTextInParts(ms: Members, toks: seq<Jsmn.Token>, js: bytes, i: nat, s: nat, depth: nat)
    requires Spans(toks, js) && Wf(Obj(ms)) && ms.MoreMembers? && Here(toks, js, i, s, Obj(ms))
    requires Consumes([Member(Ascii("Locale"), Type.String), Member(Ascii("Text"), Type.String)], ms, toks, js, i + 1, depth)
    ensures Decode(Type.LocalizedText, toks, js, i, depth) ==
      if DistinctKeys(ms) then
        Done(VLocalizedText(StringOf(Part(Type.String, Ascii("Locale"), ms, toks, js, i + 1, depth)),
                            StringOf(Part(Type.String, Ascii("Text"), ms, toks, js, i + 1, depth))), i + Size(Obj(ms)))
      else Fail(BadDecodingError)
  {
    hide Here, Consumes, DecodeFields, Part, Wf;
    assert Ascii("Locale") == KEY_LOCALE && Ascii("Text") == KEY_TEXT;
    ObjectHere(toks, js, i, s, ms);
    FieldsAreParts(LOCALIZED_TEXT, ms, toks, js, i, s, depth);
  }

  /** The same for a QualifiedName, the namespace zero when Uri is missing. */
  lemma QualifiedNameInParts(ms: Members, toks: seq<Jsmn.Token>, js: bytes, i: nat, s: nat, depth: nat)
    requires Spans(toks, js) && Wf(Obj(ms)) && ms.MoreMembers? && Here(toks, js, i, s, Obj(ms))
    requires Consumes([Member(Ascii("Name"), Type.String), Member(Ascii("Uri"), Unsigned(16))], ms, toks, js, i + 1, depth)
    ensures Decode(Type.QualifiedName, toks, js, i, depth) ==
      if DistinctKeys(ms) then
        Done(VQualifiedName(StringOf(Part(Type.String, Ascii("Name"), ms, toks, js, i + 1, depth)),
                            NatOf(Part(Unsigned(16), Ascii("Uri"), ms, toks, js, i + 1, depth))), i + Size(Obj(ms)))
      else Fail(BadDecodingError)
  {
    hide Here, Consumes, DecodeFields, Part, Wf;
    assert Ascii("Name") == KEY_NAME && Ascii("Uri") == KEY_URI;
    ObjectHere(toks, js, i, s, ms);
    FieldsAreParts(QUALIFIED_NAME, ms, toks, js, i, s, depth);
  }

  /** A structure by its members, in any order. */
  lemma StructureInParts(ents: seq<Member>, ms: Members, toks: seq<Jsmn.Token>, js: bytes, i: nat, s: nat, depth: nat)
    requires Spans(toks, js) && DistinctNames(ents) && |ents| > 0 && (|ents| == 1 ==> ents[0].name != []) && depth <= 100
    requires Wf(Obj(ms)) && ms.MoreMembers? && Here(toks, js, i, s, Obj(ms)) && Consumes(ents, ms, toks, js, i + 1, depth + 1)
    ensures var r := Decode(Structure(ents), toks, js, i, depth);
            if DistinctKeys(ms) then
              && r.Done? && r.value.VStructure? && r.next == i + Size(Obj(ms)) && |r.value.fields| == |ents|
              && forall e :: 0 <= e < |ents| ==> r.value.fields[e] == Part(ents[e].ty, ents[e].name, ms, toks, js, i + 1, depth + 1)
            else r == Fail(BadDecodingError)
  {
    hide Here, Consumes, DecodeFields, Decode, Part, Wf, DistinctNames;
    FieldsAreParts(ents, ms, toks, js, i, s, depth + 1);
    StructureIs(ents, toks, js, i, depth);
  }

  /** The entries of a NodeId: Id, the skipped IdType of any but a number, and Namespace if it is there. */
  function NodeIdParts(idType: Type, hasNamespace: bool): seq<Member> {
    [Member(Ascii("Id"), idType)]
    + (if idType == Unsigned(32) then [] else [Member(Ascii("IdType"), Skip)])
    + (if hasNamespace then [Member(Ascii("Namespace"), Unsigned(16))] else [])
  }

  /** A NodeId: identifier and namespace by their members, in any order, each zero when it is missing. */
  lemma NodeIdInParts(idType: Type, ms: Members, toks: seq<Jsmn.Token>, js: bytes, i: nat, s: nat, depth: nat)
    requires Spans(toks, js) && Wf(Obj(ms)) && ms.MoreMembers? && Here(toks, js, i, s, Obj(ms))
    requires IdTypeOf(toks, js, i) == Some(idType)
    requires Consumes(NodeIdParts(idType, HasKey(ms, Ascii("Namespace"))), ms, toks, js, i + 1, depth)
    ensures Decode(Type.NodeId, toks, js, i, depth) ==
      if DistinctKeys(ms) then
        Done(VNodeId(NatOf(Part(Unsigned(16), Ascii("Namespace"), ms, toks, js, i + 1, depth)),
                     IdOf(idType, Part(idType, Ascii("Id"), ms, toks, js, i + 1, depth))), i + Size(Obj(ms)))
      else Fail(BadDecodingError)
  {
    hide Here, Consumes, DecodeFields, Decode, Wf, SearchKey, IdTypeOf, DistinctNames;
    var has := HasKey(ms, Ascii("Namespace"));
    var ents := NodeIdEntries(idType, has);
    IdTypeKinds(toks, js, i);
    SameParts(idType, has);
    assert Ascii("Namespace") == KEY_NAMESPACE;
    ObjectHere(toks, js, i, s, ms);
    LooksAhead(toks, js, KEY_NAMESPACE, i, s, ms);
    FieldsAreParts(ents, ms, toks, js, i, s, depth);
    NoIndex(ms, KEY_NAMESPACE, i + 1);
    NodeIdFromFields(idType, has, toks, js, i, depth);
  }

  lemma IdTypeKinds(toks: seq<Jsmn.Token>, js: bytes, i: nat)
    requires Spans(toks, js) && IdTypeOf(toks, js, i).Some?
    ensures IdTypeOf(toks, js, i).value in {Unsigned(32), GuidType, Type.String, ByteString}
  {
    hide SearchKey;
  }

  lemma SameParts(idType: Type, has: bool)
    requires idType in {Unsigned(32), GuidType, Type.String, ByteString}
    ensures NodeIdParts(idType, has) == NodeIdEntries(idType, has) && DistinctNames(NodeIdEntries(idType, has))
    ensures var ents := NodeIdEntries(idType, has);
            |ents| > 0 && ents[0] == Member(Ascii("Id"), idType) && Ascii("Id") != []
            && (has ==> ents[|ents| - 1] == Member(Ascii("Namespace"), Unsigned(16)))
  {
    assert Ascii("Id") == KEY_ID && Ascii("IdType") == KEY_IDTYPE && Ascii("Namespace") == KEY_NAMESPACE;
  }

  lemma NodeIdFromFields(idType: Type, has: bool, toks: seq<Jsmn.Token>, js: bytes, i: nat, depth: nat)
    requires Spans(toks, js) && i < |toks| && toks[i].typ.Object? && !IsJsonNull(toks, js, i)
    requires IdTypeOf(toks, js, i) == Some(idType) && has == (SearchKey(toks, js, KEY_NAMESPACE, i, 0).status == Good)
    ensures |NodeIdEntries(idType, has)| > 0
    ensures var r := DecodeFields(NodeIdEntries(idType, has), toks, js, i, depth);
            Decode(Type.NodeId, toks, js, i, depth) ==
              if r.FieldsFail? then Fail(r.status)
              else Done(VNodeId(if has then NatOf(r.vals[|r.vals| - 1]) else 0, IdOf(idType, r.vals[0])), r.next)
  {
    hide DecodeFields, SearchKey, IdTypeOf, IsJsonNull;
  }

  /**
   An array, on every token array: its elements are decoded one behind the other, as many as the
   count of the token says, or the first that fails decides.
   */
  lemma ArrayInParts(elem: Type, toks: seq<Jsmn.Token>, js: bytes, i: nat, depth: nat) returns (at: seq<nat>, vs: seq<Value>)
    requires Spans(toks, js) && i < |toks| && toks[i].typ.Array? && toks[i].size > 0
    ensures |at| == |vs| + 1 && at[0] == i + 1 && |vs| <= toks[i].size
    ensures forall k :: 0 <= k < |vs| ==> Decode(elem, toks, js, at[k], depth) == Done(vs[k], at[k + 1])
    ensures var r := Decode(Type.Array(elem), toks, js, i, depth);
            if |vs| == toks[i].size then r == Done(VArray(vs), at[|vs|])
            else r.Fail? && r == Decode(elem, toks, js, at[|vs|], depth)
  {
    hide Decode;
    at, vs := ElemsInParts(elem, toks, js, i + 1, toks[i].size, [], depth);
    assert [] + vs == vs;
    ArrayIsElems(elem, toks, js, i, depth);
  }

  lemma ArrayIsElems(elem: Type, toks: seq<Jsmn.Token>, js: bytes, i: nat, depth: nat)
    requires Spans(toks, js) && i < |toks| && toks[i].typ.Array? && toks[i].size > 0
    ensures Decode(Type.Array(elem), toks, js, i, depth) == DecodeElems(elem, toks, js, i + 1, toks[i].size, [], depth)
  {
    hide DecodeElems;
  }

  lemma {:induction false} ElemsInParts(elem: Type, toks: seq<Jsmn.Token>, js: bytes, i: nat, n: nat, acc: seq<Value>, depth: nat)
    returns (at: seq<nat>, vs: seq<Value>)
    requires Spans(toks, js)
    ensures |at| == |vs| + 1 && at[0] == i && |vs| <= n
    ensures forall k :: 0 <= k < |vs| ==> Decode(elem, toks, js, at[k], depth) == Done(vs[k], at[k + 1])
    ensures var r := DecodeElems(elem, toks, js, i, n, acc, depth);
            if |vs| == n then r == Done(VArray(acc + vs), at[|vs|])
            else r.Fail? && r == Decode(elem, toks, js, at[|vs|], depth)
    decreases n
  {
    hide Decode;
    at, vs := [i], [];
    if n > 0 {
      var r := Decode(elem, toks, js, i, depth);
      if r.Done? {
        var at1, vs1 := ElemsInParts(elem, toks, js, r.next, n - 1, acc + [r.value], depth);
        at, vs := [i] + at1, [r.value] + vs1;
        assert acc + [r.value] + vs1 == acc + vs;
      }
    } else {
      assert acc + [] == acc;
    }
  }

  // ---- Zero values ----

  /** What a member that is missing, or the whole value when it is null, is set to: everything zero, null or empty. */
  lemma ZeroValues(bits: nat, elem: Type, a: Member, rest: seq<Member>)
    ensures Default(Boolean) == VBoolean(false) && Default(Unsigned(bits)) == VInteger(0) && Default(Signed(bits)) == VInteger(0)
    ensures Default(Type.String) == VString(NullString) && Default(ByteString) == VString(NullString)
    ensures Default(GuidType) == VGuid(U.Guid(0, 0, 0, seq(8, _ => 0)))
    ensures Default(Type.NodeId) == VNodeId(0, Numeric(0)) && Default(Type.QualifiedName) == VQualifiedName(NullString, 0)
    ensures Default(Type.LocalizedText) == VLocalizedText(NullString, NullString) && Default(Type.Array(elem)) == VArray([])
    ensures Default(Structure([])) == VStructure([])
    ensures Default(Structure([a] + rest)) == VStructure([Default(a.ty)] + Default(Structure(rest)).fields)
  {
    assert ([a] + rest)[1..] == rest;
    assert [0, 0, 0, 0, 0, 0, 0, 0] == seq(8, _ => 0);
  }

  /** null stands for the zero NodeId, QualifiedName and LocalizedText. */
  lemma NullIsZero(toks: seq<Jsmn.Token>, js: bytes, i: nat, s: nat, depth: nat)
    requires Spans(toks, js) && Here(toks, js, i, s, Prim(Ascii("null")))
    ensures Decode(Type.NodeId, toks, js, i, depth) == Done(VNodeId(0, Numeric(0)), i + 1)
    ensures Decode(Type.QualifiedName, toks, js, i, depth) == Done(VQualifiedName(NullString, 0), i + 1)
    ensures Decode(Type.LocalizedText, toks, js, i, depth) == Done(VLocalizedText(NullString, NullString), i + 1)
  {
    hide Here, DecodeFields, SearchKey, IdTypeOf;
    assert Ascii("null") == NULL_TEXT;
    NullPrim();
    NullHere(toks, js, i, s, Prim(NULL_TEXT));
  }

  // ---- Roots ----

  /** A text whose root is an array is refused, whatever the type. */
  lemma ArrayRootRefused(ty: Type, es: Elems)
    requires WfElems(es)
    ensures DecodeJson(ty, Render(Arr(es))) == None
  {
    hide Render, Preorder, Jsmn.Run, Decode;
    var j := Arr(es);
    if Size(j) <= MAX_TOKENS {
      WfToArr(es);
      Tokenized(j);
      RootToken(j);
      JsmnProps.ParsedTokens(Render(j), MAX_TOKENS);
    } else {
      WfToArr(es);
      PreorderWithin(j, 0);
      JsmnTree.TokenizesTree(j, MAX_TOKENS);
    }
  }

  lemma WfToArr(es: Elems)
    requires WfElems(es)
    ensures Wf(Arr(es))
  {
  }

  // ---- Structures nested too deep ----

  /** `k` structures around a type, each with the one member Id, and the tree that nests as deep. */
  function Nest(k: nat, ty: Type): Type { if k == 0 then ty else Structure([Member(KEY_ID, Nest(k - 1, ty))]) }

  function NestJson(k: nat, j: Json): Json { if k == 0 then j else Obj(MoreMembers(KEY_ID, NestJson(k - 1, j), NoMembers)) }

  /**
   Structures nest a hundred and one deep and no deeper: beyond, the decoder fails with an encoding
   error, whatever is inside.
   */
  lemma {:induction false} NestsSoDeep(k: nat, ty: Type, j: Json, toks: seq<Jsmn.Token>, js: bytes, i: nat, s: nat, depth: nat)
    requires Spans(toks, js) && Wf(j) && Here(toks, js, i, s, NestJson(k, j)) && depth <= 101
    ensures k > 0 && depth + k > 101 ==> Decode(Nest(k, ty), toks, js, i, depth) == Fail(BadEncodingError)
    ensures k > 0 && depth + k <= 101 ==>
      var r := Decode(ty, toks, js, i + 2 * k, depth + k);
      if r.Fail? then Decode(Nest(k, ty), toks, js, i, depth) == r
      else Decode(Nest(k, ty), toks, js, i, depth).Done? && Decode(Nest(k, ty), toks, js, i, depth).next == r.next
    decreases k
  {
    hide Here, MembersHere, Decode, Wf, WfMembers, FieldsLoop;
    if k > 0 {
      var inner, ty' := NestJson(k - 1, j), Nest(k - 1, ty);
      var ms := MoreMembers(KEY_ID, inner, NoMembers);
      NestWf(k, j);
      NestWf(k - 1, j);
      WfObj(ms);
      ObjectHere(toks, js, i, s, ms);
      var s2 := MemberHere(toks, js, i + 1, s + 1, ms, true);
      if depth > 100 {
        TooDeep(Nest(k, ty), toks, js, i, depth);
      } else {
        NestsSoDeep(k - 1, ty, j, toks, js, i + 2, s2, depth + 1);
        OneMember(ty', ms, toks, js, i, s, depth);
      }
    }
  }

  lemma TooDeep(ty: Type, toks: seq<Jsmn.Token>, js: bytes, i: nat, depth: nat)
    requires Spans(toks, js) && ty.Structure? && depth > 100
    ensures Decode(ty, toks, js, i, depth) == Fail(BadEncodingError)
  {
  }

  lemma {:induction false} NestWf(k: nat, j: Json)
    requires Wf(j)
    ensures Wf(NestJson(k, j))
  {
    hide Body;
    KeysPlain();
    PlainBody(KEY_ID);
    if k > 0 {
      NestWf(k - 1, j);
      WfMember(KEY_ID, NestJson(k - 1, j), NoMembers);
    }
  }

  /** A structure with one member, which is there: its decoder fails or ends as the member's. */
  lemma OneMember(ty: Type, ms: Members, toks: seq<Jsmn.Token>, js: bytes, i: nat, s: nat, depth: nat)
    requires Spans(toks, js) && WfMembers(ms) && ms.MoreMembers? && ms.key == KEY_ID && ms.rest == NoMembers && depth <= 100
    requires i + 2 < |toks| && toks[i].size == 1 && MembersHere(toks, js, i + 1, s + 1, ms, true)
    ensures var r, d := Decode(ty, toks, js, i + 2, depth + 1), Decode(Structure([Member(KEY_ID, ty)]), toks, js, i, depth);
            if r.Fail? then d == r else d.Done? && d.next == r.next
  {
    hide MembersHere, Decode, FieldsLoop, Defaults;
    var t := Structure([Member(KEY_ID, ty)]);
    var vals, none := Defaults(t.members), seq(1, _ => false);
    StructureIsLoop(t, toks, js, i, depth);
    EntryIs(t.members, 0);
    var s2 := MemberHere(toks, js, i + 1, s + 1, ms, true);
    OneRound(ty, toks, js, i + 1, vals, none, depth + 1);
  }

  lemma OneRound(ty: Type, toks: seq<Jsmn.Token>, js: bytes, i: nat, vals: seq<Value>, found: seq<bool>, depth: nat)
    requires Spans(toks, js) && i + 1 < |toks| && JsonEq(js, toks[i], KEY_ID) && |vals| == |found| == 1 && !found[0]
    ensures var r, l := Decode(ty, toks, js, i + 1, depth), FieldsLoop([Member(KEY_ID, ty)], toks, js, i, 0, 1, vals, found, depth);
            if r.Fail? then l == FieldsFail(r.status) else l.FieldsDone? && l.next == r.next
  {
    hide Decode;
    var ms := [Member(KEY_ID, ty)];
    assert FindEntry(ms, js, toks[i], 0, 1) == Some(0);
    var r := Decode(ty, toks, js, i + 1, depth);
    if r.Done? {
      var vals', found' := vals[0 := r.value], found[0 := true];
      assert FieldsLoop(ms, toks, js, r.next, 1, 1, vals', found', depth) == FieldsDone(vals', found', r.next);
    }
  }
}
