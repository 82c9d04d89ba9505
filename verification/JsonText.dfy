/** The texts of values and of their parts, as they are put together, and spelled out. */
module JsonText {
  import opened Bytes
  import opened JsonTree
  import opened UaTypes
  import Base64
  import Itoa
  import StringCodec

  // ---- The texts of the parts ----

  function MemberText(first: bool, key: bytes, text: bytes): bytes {
    Separator(first) + (Quoted(key) + [COLON]) + text
  }

  function NamespaceText(first: bool, key: bytes, ns: nat): bytes {
    if ns > 0 then MemberText(first, key, Itoa.Numeral(ns, 10)) else []
  }

  function IdTypeDigit(id: Identifier): byte
    requires !id.Numeric?
  {
    if id.StringId? then 49 else if id.GuidId? then 50 else 51
  }

  function IdLeafType(id: Identifier): Type {
    match id
    case Numeric(_) => Unsigned(32)
    case StringId(_) => String
    case GuidId(_) => GuidType
    case OpaqueId(_) => ByteString
  }

  function IdLeaf(id: Identifier): Value {
    match id
    case Numeric(n) => VInteger(n)
    case StringId(s) => VString(s)
    case GuidId(g) => VGuid(g)
    case OpaqueId(b) => VString(b)
  }

  lemma IdLeafFits(id: Identifier)
    requires ValidId(id)
    ensures HasType(IdLeafType(id), IdLeaf(id))
    ensures Encodable(IdLeafType(id), IdLeaf(id)) <==> (id.StringId? ==> Escapes(id.s))
  {
  }

  lemma NodeIdFits(ns: nat, id: Identifier)
    requires ns < 0x1_0000 && ValidId(id)
    ensures HasType(NodeId, VNodeId(ns, id))
    ensures Encodable(NodeId, VNodeId(ns, id)) <==> (id.StringId? ==> Escapes(id.s))
  {
  }

  lemma StringFits(s: UaString)
    ensures HasType(String, VString(s)) && (Encodable(String, VString(s)) <==> Escapes(s))
  {
  }

  function IdText(id: Identifier): bytes
    requires ValidId(id) && (id.StringId? ==> Escapes(id.s))
  {
    var leaf := TextOf(IdLeafType(id), IdLeaf(id));
    if id.Numeric? then MemberText(true, KEY_ID, leaf)
    else MemberText(true, KEY_IDTYPE, [IdTypeDigit(id)]) + MemberText(false, KEY_ID, leaf)
  }

  lemma IdTextParts(id: Identifier)
    requires ValidId(id) && (id.StringId? ==> Escapes(id.s))
    ensures var leaf := TextOf(IdLeafType(id), IdLeaf(id));
            IdText(id) == if id.Numeric? then MemberText(true, KEY_ID, leaf)
                          else MemberText(true, KEY_IDTYPE, [IdTypeDigit(id)]) + MemberText(false, KEY_ID, leaf)
  {
  }

  /** No value has an empty text. */
  lemma TextNonempty(ty: Type, v: Value)
    requires HasType(ty, v) && Encodable(ty, v)
    ensures |TextOf(ty, v)| > 0
  {
    hide RenderElems, RenderMembers, Base64.Base64Of, StringCodec.Escape, GuidText;
  }

  lemma NamespaceMembersText(key: bytes, ns: nat)
    ensures RenderMembers(NamespaceMembers(key, ns), false) == NamespaceText(false, key, ns)
  {
    hide Render, RenderElems, RenderMembers, Itoa.Numeral;
    UnfoldNoMembers(0, false);
    var ms := NamespaceMembers(key, ns);
    if ns > 0 {
      UnfoldMembers(ms, 0, false);
      UnfoldLeaf(ms.value, 0);
    }
  }

  lemma IdMembersText(id: Identifier, value: Json, tail: Members, rest: bytes)
    requires RenderMembers(tail, false) == rest
    ensures RenderMembers(MoreMembers(KEY_ID, value, tail), true) == MemberText(true, KEY_ID, Render(value)) + rest
    ensures !id.Numeric? ==>
      RenderMembers(MoreMembers(KEY_IDTYPE, Prim([IdTypeDigit(id)]), MoreMembers(KEY_ID, value, tail)), true)
        == MemberText(true, KEY_IDTYPE, [IdTypeDigit(id)]) + MemberText(false, KEY_ID, Render(value)) + rest
  {
    hide Render, RenderElems, RenderMembers;
    var ms := MoreMembers(KEY_ID, value, tail);
    UnfoldMembers(ms, 0, true);
    if !id.Numeric? {
      UnfoldMembers(ms, 0, false);
      UnfoldLeaf(Prim([IdTypeDigit(id)]), 0);
      UnfoldMembers(MoreMembers(KEY_IDTYPE, Prim([IdTypeDigit(id)]), ms), 0, true);
      var a, b := MemberText(true, KEY_IDTYPE, [IdTypeDigit(id)]), MemberText(false, KEY_ID, Render(value));
      assert a + (b + rest) == (a + b) + rest;
    }
  }

  lemma NodeIdText(ns: nat, id: Identifier)
    requires ns < 0x1_0000 && ValidId(id) && (id.StringId? ==> Escapes(id.s))
    ensures TextOf(NodeId, VNodeId(ns, id)) == [LBRACE] + (IdText(id) + NamespaceText(false, KEY_NAMESPACE, ns)) + [RBRACE]
  {
    hide Render, RenderElems, RenderMembers, GuidText, Base64.Base64Of, StringCodec.Escape, Itoa.Numeral, NamespaceText,
      NamespaceMembers, MemberText;
    var tail := NamespaceMembers(KEY_NAMESPACE, ns);
    NamespaceMembersText(KEY_NAMESPACE, ns);
    UnfoldObj(NodeIdMembers(ns, id), 0);
    IdLeafFits(id);
    IdMembersText(id, ToJson(IdLeafType(id), IdLeaf(id)), tail, NamespaceText(false, KEY_NAMESPACE, ns));
  }

  lemma QualifiedNameText(name: UaString, ns: nat)
    requires ns < 0x1_0000 && Escapes(name)
    ensures TextOf(QualifiedName, VQualifiedName(name, ns))
         == [LBRACE] + (MemberText(true, KEY_NAME, TextOf(String, VString(name))) + NamespaceText(false, KEY_URI, ns)) + [RBRACE]
  {
    hide Render, RenderElems, RenderMembers, StringCodec.Escape, NamespaceText, NamespaceMembers, StringJson;
    NamespaceMembersText(KEY_URI, ns);
    var ms := MoreMembers(KEY_NAME, StringJson(name), NamespaceMembers(KEY_URI, ns));
    UnfoldObj(ms, 0);
    UnfoldMembers(ms, 0, true);
  }

  lemma LocalizedTextText(locale: UaString, text: UaString)
    requires Escapes(locale) && Escapes(text)
    ensures TextOf(LocalizedText, VLocalizedText(locale, text))
         == [LBRACE] + (MemberText(true, KEY_LOCALE, TextOf(String, VString(locale)))
                        + MemberText(false, KEY_TEXT, TextOf(String, VString(text)))) + [RBRACE]
  {
    hide Render, RenderElems, RenderMembers, StringCodec.Escape, StringJson;
    var rest := MoreMembers(KEY_TEXT, StringJson(text), NoMembers);
    var ms := MoreMembers(KEY_LOCALE, StringJson(locale), rest);
    UnfoldObj(ms, 0);
    UnfoldMembers(ms, 0, true);
    UnfoldMembers(rest, 0, false);
    UnfoldNoMembers(0, false);
    assert MemberText(false, KEY_TEXT, Render(StringJson(text))) + [] == MemberText(false, KEY_TEXT, Render(StringJson(text)));
  }

  // ---- The texts, spelled out ----

  /** null, or the escaped text in quotes. */
  function StringLiteral(s: UaString): bytes
    requires Escapes(s)
  {
    if s.NullString? then Ascii("null") else Ascii("\"") + StringCodec.Escape(s.data, 0).value + Ascii("\"")
  }

  /** null, or the base64 text in quotes. */
  function ByteStringLiteral(s: UaString): bytes {
    if s.NullString? then Ascii("null")
    else if s.data == [] then Ascii("\"\"")
    else Ascii("\"") + Base64.Base64Of(s.data) + Ascii("\"")
  }

  function LocalizedTextLiteral(locale: UaString, text: UaString): bytes
    requires Escapes(locale) && Escapes(text)
  {
    Ascii("{\"Locale\":") + StringLiteral(locale) + Ascii(",\"Text\":") + StringLiteral(text) + Ascii("}")
  }

  function QualifiedNameLiteral(name: UaString, ns: nat): bytes
    requires Escapes(name)
  {
    Ascii("{\"Name\":") + StringLiteral(name)
    + (if ns == 0 then [] else Ascii(",\"Uri\":") + Itoa.Numeral(ns, 10)) + Ascii("}")
  }

  function IdLiteral(id: Identifier): bytes
    requires ValidId(id) && (id.StringId? ==> Escapes(id.s))
  {
    match id
    case Numeric(n) => Ascii("\"Id\":") + Itoa.Numeral(n, 10)
    case StringId(s) => Ascii("\"IdType\":1,\"Id\":") + StringLiteral(s)
    case GuidId(g) => Ascii("\"IdType\":2,\"Id\":") + (Ascii("\"") + GuidText(g) + Ascii("\""))
    case OpaqueId(b) => Ascii("\"IdType\":3,\"Id\":") + ByteStringLiteral(b)
  }

  function NodeIdLiteral(ns: nat, id: Identifier): bytes
    requires ValidId(id) && (id.StringId? ==> Escapes(id.s))
  {
    Ascii("{") + IdLiteral(id) + (if ns == 0 then [] else Ascii(",\"Namespace\":") + Itoa.Numeral(ns, 10)) + Ascii("}")
  }

  lemma Marks()
    ensures Ascii("\"") == [QUOTE] && Ascii("{") == [LBRACE] && Ascii("}") == [RBRACE] && Ascii("null") == NULL_TEXT
    ensures Ascii("[") == [LBRACKET] && Ascii("]") == [RBRACKET] && Ascii(",") == [COMMA] && Ascii(":") == [COLON]
    ensures Ascii("true") == TRUE_TEXT && Ascii("false") == FALSE_TEXT && Ascii("\"\"") == [QUOTE] + [QUOTE]
  {
  }

  lemma StringWritten(s: UaString)
    requires Escapes(s)
    ensures TextOf(String, VString(s)) == StringLiteral(s)
  {
    hide StringCodec.Escape, Ascii;
    Marks();
  }

  lemma ByteStringWritten(s: UaString)
    ensures TextOf(ByteString, VString(s)) == ByteStringLiteral(s)
  {
    hide Base64.Base64Of, Ascii;
    Marks();
    assert Quoted([]) == [QUOTE] + [QUOTE];
  }

  lemma GuidWritten(g: UaTypes.Guid)
    requires ValidGuid(g)
    ensures TextOf(GuidType, VGuid(g)) == Ascii("\"") + GuidText(g) + Ascii("\"")
  {
    hide Ascii, GuidText;
    Marks();
  }

  /** The keys of the built-in objects, with their quotes and the colon. */
  lemma KeysSpelled()
    ensures Ascii("\"Id\":") == Quoted(KEY_ID) + [COLON] && Ascii("\"IdType\":") == Quoted(KEY_IDTYPE) + [COLON]
    ensures Ascii("\"Namespace\":") == Quoted(KEY_NAMESPACE) + [COLON] && Ascii("\"Name\":") == Quoted(KEY_NAME) + [COLON]
    ensures Ascii("\"Uri\":") == Quoted(KEY_URI) + [COLON]
    ensures Ascii("\"Locale\":") == Quoted(KEY_LOCALE) + [COLON] && Ascii("\"Text\":") == Quoted(KEY_TEXT) + [COLON]
  {
    hide Ascii;
    NodeIdKeysSpelled();
    NameKeysSpelled();
  }

  lemma NodeIdKeysSpelled()
    ensures Ascii("\"Id\":") == Quoted(KEY_ID) + [COLON] && Ascii("\"IdType\":") == Quoted(KEY_IDTYPE) + [COLON]
    ensures Ascii("\"Namespace\":") == Quoted(KEY_NAMESPACE) + [COLON]
  {
  }

  lemma NameKeysSpelled()
    ensures Ascii("\"Name\":") == Quoted(KEY_NAME) + [COLON] && Ascii("\"Uri\":") == Quoted(KEY_URI) + [COLON]
    ensures Ascii("\"Locale\":") == Quoted(KEY_LOCALE) + [COLON] && Ascii("\"Text\":") == Quoted(KEY_TEXT) + [COLON]
  {
  }

  lemma {:induction false} AsciiSplit(a: string, b: string)
    ensures Ascii(a + b) == Ascii(a) + Ascii(b)
  {
  }

  lemma LocalizedTextWritten(locale: UaString, text: UaString)
    requires Escapes(locale) && Escapes(text)
    ensures TextOf(LocalizedText, VLocalizedText(locale, text)) == LocalizedTextLiteral(locale, text)
  {
    hide TextOf, StringLiteral, Ascii, Escapes, Quoted;
    LocalizedTextText(locale, text);
    StringWritten(locale);
    StringWritten(text);
    Marks();
    KeysSpelled();
    AsciiSplit("{", "\"Locale\":");
    AsciiSplit(",", "\"Text\":");
    assert "{" + "\"Locale\":" == "{\"Locale\":" && "," + "\"Text\":" == ",\"Text\":";
  }

  lemma QualifiedNameWritten(name: UaString, ns: nat)
    requires ns < 0x1_0000 && Escapes(name)
    ensures TextOf(QualifiedName, VQualifiedName(name, ns)) == QualifiedNameLiteral(name, ns)
  {
    hide TextOf, StringLiteral, Ascii, Escapes, Quoted, Itoa.Numeral;
    QualifiedNameText(name, ns);
    StringWritten(name);
    Marks();
    KeysSpelled();
    AsciiSplit("{", "\"Name\":");
    AsciiSplit(",", "\"Uri\":");
    assert "{" + "\"Name\":" == "{\"Name\":" && "," + "\"Uri\":" == ",\"Uri\":";
  }

  lemma IdWritten(id: Identifier)
    requires ValidId(id) && (id.StringId? ==> Escapes(id.s))
    ensures IdText(id) == IdLiteral(id)
  {
    hide StringLiteral, ByteStringLiteral, Ascii, Escapes, Quoted, Itoa.Numeral, GuidText, IdText, TextOf, MemberText;
    IdTextParts(id);
    var leaf := TextOf(IdLeafType(id), IdLeaf(id));
    match id {
      case Numeric(_) => IdSpelled(id, leaf);
      case StringId(s) => MembersSpelled("1", leaf); StringWritten(s);
      case GuidId(g) => MembersSpelled("2", leaf); GuidWritten(g);
      case OpaqueId(b) => MembersSpelled("3", leaf); ByteStringWritten(b);
    }
  }

  lemma IdSpelled(id: Identifier, leaf: bytes)
    requires id.Numeric? && ValidId(id) && leaf == TextOf(IdLeafType(id), IdLeaf(id))
    ensures MemberText(true, KEY_ID, leaf) == Ascii("\"Id\":") + Itoa.Numeral(id.n, 10)
  {
    hide Ascii, Quoted, Itoa.Numeral;
    KeysSpelled();
    Marks();
  }

  lemma MembersSpelled(digit: string, leaf: bytes)
    requires digit == "1" || digit == "2" || digit == "3"
    ensures MemberText(true, KEY_IDTYPE, Ascii(digit)) + MemberText(false, KEY_ID, leaf)
         == Ascii("\"IdType\":" + digit + ",\"Id\":") + leaf
    ensures Ascii("1") == [49] && Ascii("2") == [50] && Ascii("3") == [51]
    ensures digit == "1" ==> "\"IdType\":" + digit + ",\"Id\":" == "\"IdType\":1,\"Id\":"
    ensures digit == "2" ==> "\"IdType\":" + digit + ",\"Id\":" == "\"IdType\":2,\"Id\":"
    ensures digit == "3" ==> "\"IdType\":" + digit + ",\"Id\":" == "\"IdType\":3,\"Id\":"
  {
    hide Ascii, Quoted;
    Marks();
    IdTypeSpelled(digit);
  }

  lemma IdTypeSpelled(digit: string)
    requires |digit| == 1
    ensures Ascii("\"IdType\":" + digit + ",\"Id\":") == Quoted(KEY_IDTYPE) + [COLON] + Ascii(digit) + [COMMA] + (Quoted(KEY_ID) + [COLON])
    ensures Ascii("1") == [49] && Ascii("2") == [50] && Ascii("3") == [51]
    ensures digit == "1" ==> "\"IdType\":" + digit + ",\"Id\":" == "\"IdType\":1,\"Id\":"
    ensures digit == "2" ==> "\"IdType\":" + digit + ",\"Id\":" == "\"IdType\":2,\"Id\":"
    ensures digit == "3" ==> "\"IdType\":" + digit + ",\"Id\":" == "\"IdType\":3,\"Id\":"
  {
    hide Quoted;
    KeysSpelled();
    Marks();
    AsciiSplit("\"IdType\":", digit);
    AsciiSplit("\"IdType\":" + digit, ",\"Id\":");
    AsciiSplit(",", "\"Id\":");
    assert "," + "\"Id\":" == ",\"Id\":";
  }

  lemma NodeIdWritten(ns: nat, id: Identifier)
    requires ns < 0x1_0000 && ValidId(id) && (id.StringId? ==> Escapes(id.s))
    ensures TextOf(NodeId, VNodeId(ns, id)) == NodeIdLiteral(ns, id)
  {
    hide TextOf, Ascii, Escapes, Quoted, Itoa.Numeral, IdText, IdLiteral;
    NodeIdText(ns, id);
    IdWritten(id);
    Marks();
    KeysSpelled();
    AsciiSplit(",", "\"Namespace\":");
    assert "," + "\"Namespace\":" == ",\"Namespace\":";
  }

  /** The leaves: words, numerals, and with 64 bits numerals in quotes. */
  lemma LeafWritten(ty: Type, v: Value)
    requires HasType(ty, v) && Encodable(ty, v)
    ensures ty.Boolean? ==> TextOf(ty, v) == if v.b then Ascii("true") else Ascii("false")
    ensures ty.Unsigned? && ty.bits < 64 ==> TextOf(ty, v) == Itoa.Numeral(v.n, 10)
    ensures ty.Unsigned? && ty.bits == 64 ==> TextOf(ty, v) == Ascii("\"") + Itoa.Numeral(v.n, 10) + Ascii("\"")
    ensures ty.Signed? && ty.bits < 64 ==>
      TextOf(ty, v) == if v.n < 0 then Ascii("-") + Itoa.Numeral(-v.n, 10) else Itoa.Numeral(v.n, 10)
    ensures ty.Signed? && ty.bits == 64 ==>
      TextOf(ty, v) == Ascii("\"") + (if v.n < 0 then Ascii("-") + Itoa.Numeral(-v.n, 10) else Itoa.Numeral(v.n, 10)) + Ascii("\"")
    ensures ty.GuidType? ==> TextOf(ty, v) == Ascii("\"") + GuidText(v.g) + Ascii("\"")
    ensures ty.String? ==> TextOf(ty, v) == StringLiteral(v.s)
    ensures ty.ByteString? ==> TextOf(ty, v) == ByteStringLiteral(v.s)
  {
    hide Ascii, Itoa.Numeral, GuidText, StringLiteral, ByteStringLiteral, StringJson, ByteStringJson, Escapes;
    Marks();
    assert Ascii("-") == [MINUS] by { MinusSign(); }
    if ty.String? { StringWritten(v.s); }
    if ty.ByteString? { ByteStringWritten(v.s); }
  }

  lemma MinusSign()
    ensures Ascii("-") == [MINUS]
  {
  }

  // ---- Arrays and structures, spelled out ----

  /** The parts with a comma between neighbours. */
  function Commas(parts: seq<bytes>): bytes {
    if |parts| == 0 then [] else if |parts| == 1 then parts[0] else parts[0] + Ascii(",") + Commas(parts[1..])
  }

  /** The same with the comma in front of all but the first. */
  function Tail(parts: seq<bytes>): bytes {
    if |parts| == 0 then [] else Ascii(",") + parts[0] + Tail(parts[1..])
  }

  lemma {:induction false} CommasTail(parts: seq<bytes>)
    requires |parts| > 0
    ensures Commas(parts) == parts[0] + Tail(parts[1..])
    decreases |parts|
  {
    hide Ascii;
    if |parts| > 1 {
      CommasTail(parts[1..]);
      assert Tail(parts[1..]) == Ascii(",") + parts[1] + Tail(parts[1..][1..]);
      assert parts[0] + Ascii(",") + (parts[1] + Tail(parts[1..][1..])) == parts[0] + (Ascii(",") + parts[1] + Tail(parts[1..][1..]));
    } else {
      assert parts[0] + [] == parts[0];
    }
  }

  function ElemTexts(ty: Type, v: Value): (r: seq<bytes>)
    requires ty.Array? && HasType(ty, v) && forall k :: 0 <= k < |v.elems| ==> HasType(ty.elem, v.elems[k]) && Encodable(ty.elem, v.elems[k])
  {
    seq(|v.elems|, k requires 0 <= k < |v.elems| => TextOf(ty.elem, v.elems[k]))
  }

  /** `"name":text` for each field. */
  function FieldTexts(ty: Type, v: Value): (r: seq<bytes>)
    requires ty.Structure? && HasType(ty, v) && |v.fields| == |ty.members|
    requires forall k :: 0 <= k < |v.fields| ==> HasType(ty.members[k].ty, v.fields[k]) && Encodable(ty.members[k].ty, v.fields[k])
  {
    seq(|v.fields|, k requires 0 <= k < |v.fields| =>
      Ascii("\"") + ty.members[k].name + Ascii("\":") + TextOf(ty.members[k].ty, v.fields[k]))
  }

  lemma {:induction false} ElemsTail(ty: Type, v: Value, i: nat)
    requires ty.Array? && HasType(ty, v) && 0 < i <= |v.elems| && ElemsEncodable(ty, v, i)
    requires forall k :: 0 <= k < |v.elems| ==> HasType(ty.elem, v.elems[k]) && Encodable(ty.elem, v.elems[k])
    ensures ElemsText(ty, v, i) == Tail(ElemTexts(ty, v)[i..])
    decreases |v.elems| - i
  {
    hide TextOf, Encodable, ElemsText, Ascii, HasType;
    Marks();
    ShapeOf(ty, v);
    if i < |v.elems| {
      ElemsTextStep(ty, v, i);
      ElemsTail(ty, v, i + 1);
      assert ElemTexts(ty, v)[i..][1..] == ElemTexts(ty, v)[i + 1..];
    } else {
      ElemsTextEnd(ty, v);
    }
  }

  /** An array is the texts of its elements in brackets, with commas between them. */
  lemma ArrayWritten(ty: Type, v: Value)
    requires ty.Array? && HasType(ty, v) && Encodable(ty, v)
    ensures forall k :: 0 <= k < |v.elems| ==> HasType(ty.elem, v.elems[k]) && Encodable(ty.elem, v.elems[k])
    ensures TextOf(ty, v) == Ascii("[") + Commas(ElemTexts(ty, v)) + Ascii("]")
  {
    hide TextOf, Encodable, ElemsText, Ascii, HasType, Commas, Tail;
    Marks();
    ArrayText(ty, v);
    ElemsAreEncodable(ty, v, 0);
    var parts := ElemTexts(ty, v);
    if |v.elems| > 0 {
      ElemsTextStep(ty, v, 0);
      ElemsTail(ty, v, 1);
      CommasTail(parts);
    } else {
      ElemsTextEnd(ty, v);
      NoCommas();
      assert parts == [];
    }
  }

  lemma NoCommas()
    ensures Commas([]) == []
  {
  }

  lemma MemberSpelled(first: bool, name: bytes, text: bytes)
    ensures MemberText(first, name, text) == (if first then [] else Ascii(",")) + (Ascii("\"") + name + Ascii("\":") + text)
  {
    Marks();
    assert Ascii("\":") == [QUOTE] + [COLON];
    var sep := if first then [] else Ascii(",");
    assert sep + (([QUOTE] + name + [QUOTE]) + [COLON]) + text == sep + ([QUOTE] + name + ([QUOTE] + [COLON]) + text);
  }

  lemma {:induction false} FieldsTail(ty: Type, v: Value, i: nat)
    requires ty.Structure? && HasType(ty, v) && 0 < i <= |v.fields| == |ty.members| && FieldsEncodable(ty, v, i)
    requires forall k :: 0 <= k < |v.fields| ==> HasType(ty.members[k].ty, v.fields[k]) && Encodable(ty.members[k].ty, v.fields[k])
    ensures FieldsText(ty, v, i) == Tail(FieldTexts(ty, v)[i..])
    decreases |v.fields| - i
  {
    hide TextOf, Encodable, FieldsText, Ascii, HasType, MemberText;
    ShapeOf(ty, v);
    if i < |v.fields| {
      FieldsTextStep(ty, v, i);
      MemberSpelled(false, ty.members[i].name, TextOf(ty.members[i].ty, v.fields[i]));
      FieldsTail(ty, v, i + 1);
      assert FieldTexts(ty, v)[i..][1..] == FieldTexts(ty, v)[i + 1..];
    } else {
      FieldsTextEnd(ty, v);
    }
  }

  /** A structure is its members in braces, each a quoted name, a colon and a text, with commas between them. */
  lemma StructureWritten(ty: Type, v: Value)
    requires ty.Structure? && HasType(ty, v) && Encodable(ty, v)
    ensures |v.fields| == |ty.members|
    ensures forall k :: 0 <= k < |v.fields| ==> HasType(ty.members[k].ty, v.fields[k]) && Encodable(ty.members[k].ty, v.fields[k])
    ensures TextOf(ty, v) == Ascii("{") + Commas(FieldTexts(ty, v)) + Ascii("}")
  {
    hide TextOf, Encodable, FieldsText, Ascii, HasType, Commas, Tail, MemberText;
    Marks();
    StructureText(ty, v);
    FieldsAreEncodable(ty, v, 0);
    var parts := FieldTexts(ty, v);
    if |v.fields| > 0 {
      FieldsTextStep(ty, v, 0);
      MemberSpelled(true, ty.members[0].name, TextOf(ty.members[0].ty, v.fields[0]));
      FieldsTail(ty, v, 1);
      CommasTail(parts);
      assert [] + parts[0] == parts[0];
    } else {
      FieldsTextEnd(ty, v);
      NoCommas();
      assert parts == [];
    }
  }

  /** Two members in braces behind a text, written one after the other. */
  lemma Braced(base: bytes, a: bytes, b: bytes)
    ensures base + ([LBRACE] + (a + b) + [RBRACE]) == base + [LBRACE] + a + b + [RBRACE]
    ensures |[LBRACE] + (a + b) + [RBRACE]| == |a| + |b| + 2
  {
  }

  /** A text in brackets behind another. */
  lemma Enclosed(base: bytes, open: byte, inner: bytes, close: byte)
    ensures base + ([open] + inner + [close]) == base + [open] + inner + [close]
    ensures |[open] + inner + [close]| == |inner| + 2
  {
  }

  /** A piece of the rest has been written, or is too long. */
  lemma Advance(start: bytes, piece: bytes, rest: bytes, whole: bytes)
    requires start + (piece + rest) == whole
    ensures (start + piece) + rest == whole && |whole| >= |start| + |piece|
  {
  }

  /** What the type says of the shape of a value. */
  lemma ShapeOf(ty: Type, v: Value)
    requires HasType(ty, v)
    ensures ty.NodeId? ==> v.VNodeId? && v.namespace < 0x1_0000 && ValidId(v.id)
    ensures ty.QualifiedName? ==> v.VQualifiedName? && v.namespace < 0x1_0000
    ensures ty.LocalizedText? ==> v.VLocalizedText?
    ensures !ty.Skip?
    ensures ty.Array? ==> v.VArray? && forall i :: 0 <= i < |v.elems| ==> HasType(ty.elem, v.elems[i])
    ensures ty.Structure? ==> v.VStructure? && |v.fields| == |ty.members|
                              && forall i :: 0 <= i < |v.fields| ==> HasType(ty.members[i].ty, v.fields[i])
  {
  }

  /** The text of the elements from index `i` on, separators included. */
  function ElemsText(ty: Type, v: Value, i: nat): bytes
    requires ty.Array? && HasType(ty, v) && i <= |v.elems| && ElemsEncodable(ty, v, i)
  {
    RenderElems(ElemsJson(ty, v, i), i == 0)
  }

  function FieldsText(ty: Type, v: Value, i: nat): bytes
    requires ty.Structure? && HasType(ty, v) && i <= |v.fields| && FieldsEncodable(ty, v, i)
  {
    RenderMembers(FieldsJson(ty, v, i), i == 0)
  }

  lemma ArrayText(ty: Type, v: Value)
    requires ty.Array? && HasType(ty, v)
    ensures v.VArray? && (Encodable(ty, v) <==> ElemsEncodable(ty, v, 0))
    ensures Encodable(ty, v) ==> TextOf(ty, v) == [LBRACKET] + ElemsText(ty, v, 0) + [RBRACKET]
  {
    hide Render, RenderElems, RenderMembers;
    if Encodable(ty, v) { UnfoldArr(ElemsJson(ty, v, 0), 0); }
  }

  lemma ElemsTextStep(ty: Type, v: Value, i: nat)
    requires ty.Array? && HasType(ty, v) && i < |v.elems|
    ensures HasType(ty.elem, v.elems[i])
    ensures ElemsEncodable(ty, v, i) <==> Encodable(ty.elem, v.elems[i]) && ElemsEncodable(ty, v, i + 1)
    ensures ElemsReach(ty, v, i) == Max(Reach(ty.elem, v.elems[i]), ElemsReach(ty, v, i + 1))
    ensures ElemsEncodable(ty, v, i) ==>
      ElemsText(ty, v, i) == Separator(i == 0) + TextOf(ty.elem, v.elems[i]) + ElemsText(ty, v, i + 1)
  {
    hide Render, RenderElems, RenderMembers;
    if ElemsEncodable(ty, v, i) { UnfoldElems(ElemsJson(ty, v, i), 0, i == 0); }
  }

  lemma ElemsTextEnd(ty: Type, v: Value)
    requires ty.Array? && HasType(ty, v)
    ensures ElemsEncodable(ty, v, |v.elems|) && ElemsText(ty, v, |v.elems|) == [] && ElemsReach(ty, v, |v.elems|) == 0
  {
    UnfoldNoElems(0, |v.elems| == 0);
  }

  lemma StructureText(ty: Type, v: Value)
    requires ty.Structure? && HasType(ty, v)
    ensures v.VStructure? && |v.fields| == |ty.members| && (Encodable(ty, v) <==> FieldsEncodable(ty, v, 0))
    ensures Encodable(ty, v) ==> TextOf(ty, v) == [LBRACE] + FieldsText(ty, v, 0) + [RBRACE]
  {
    hide Render, RenderElems, RenderMembers;
    if Encodable(ty, v) { UnfoldObj(FieldsJson(ty, v, 0), 0); }
  }

  lemma FieldsTextStep(ty: Type, v: Value, i: nat)
    requires ty.Structure? && HasType(ty, v) && i < |v.fields|
    ensures i < |ty.members| && HasType(ty.members[i].ty, v.fields[i])
    ensures FieldsEncodable(ty, v, i) <==> Encodable(ty.members[i].ty, v.fields[i]) && FieldsEncodable(ty, v, i + 1)
    ensures FieldsReach(ty, v, i) == Max(Reach(ty.members[i].ty, v.fields[i]), FieldsReach(ty, v, i + 1))
    ensures FieldsEncodable(ty, v, i) ==>
      FieldsText(ty, v, i) == MemberText(i == 0, ty.members[i].name, TextOf(ty.members[i].ty, v.fields[i])) + FieldsText(ty, v, i + 1)
      && |TextOf(ty.members[i].ty, v.fields[i])| > 0
  {
    hide Render, RenderElems, RenderMembers;
    if FieldsEncodable(ty, v, i) {
      UnfoldMembers(FieldsJson(ty, v, i), 0, i == 0);
      TextNonempty(ty.members[i].ty, v.fields[i]);
    }
  }

  lemma FieldsTextEnd(ty: Type, v: Value)
    requires ty.Structure? && HasType(ty, v)
    ensures FieldsEncodable(ty, v, |v.fields|) && FieldsText(ty, v, |v.fields|) == [] && FieldsReach(ty, v, |v.fields|) == 0
  {
    UnfoldNoMembers(0, |v.fields| == 0);
  }
}
