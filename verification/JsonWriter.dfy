/**
 The encoder: a cursor with an array of comma flags, one per depth, in two modes.  In the size
 pass nothing is stored and only the cursor moves.  A status is GOOD (true) or not; statuses
 are collected with `|` in the source, so a failed write does not stop the ones after it.
 */
module JsonWriter {
  import opened Bytes
  import opened JsonText
  import opened JsonTree
  import opened UaTypes
  import Base64
  import Itoa
  import StringCodec
  import Utf8

  const SIZE_MAX: nat := 0xFFFF_FFFF_FFFF_FFFF

  class CtxJson {
    const buf: array<byte>
    const commaNeeded: array<bool>
    const calcOnly: bool
    const end: nat
    var pos: nat
    var depth: nat
    /**
     A flag behind the comma array has been written.  Nothing is promised from there on, so the
     model stops: every method returns at once.
     */
    var overrun: bool
    /** Everything emitted so far; in the write mode it is the front of the buffer. */
    ghost var out: bytes

    constructor (buf: array<byte>, calcOnly: bool)
      ensures Valid() && depth == 0 && pos == 0 && out == []
      ensures this.buf == buf && this.calcOnly == calcOnly && fresh(commaNeeded)
      ensures end == if calcOnly then SIZE_MAX else buf.Length
    {
      this.buf := buf;
      this.calcOnly := calcOnly;
      commaNeeded := new bool[MAX_RECURSION](_ => false);
      end := if calcOnly then SIZE_MAX else buf.Length;
      pos, depth, overrun, out := 0, 0, false, [];
    }

    ghost predicate Valid()
      reads this, buf
    {
      Sound() && depth < MAX_RECURSION
    }

    /** What holds while the flags are inside the array, at any depth. */
    ghost predicate Sound()
      reads this, buf
    {
      && !overrun && commaNeeded.Length == MAX_RECURSION
      && pos == |out| && pos <= end
      && (!calcOnly ==> end == buf.Length && buf[..pos] == out)
    }

    /** One level deeper; the flag of the new level is cleared, wherever it lies. */
    method Deeper()
      requires Sound()
      modifies this`depth, this`overrun, commaNeeded
      ensures depth == old(depth) + 1 && overrun == (depth >= MAX_RECURSION)
      ensures !overrun ==> commaNeeded[..] == old(commaNeeded[..])[depth := false]
    {
      depth := depth + 1;
      if depth >= commaNeeded.Length {
        overrun := true;
      } else {
        commaNeeded[depth] := false;
      }
    }

    // ---- Primitives ----

    method WriteChar(c: byte) returns (ok: bool)
      requires Valid()
      modifies this`pos, this`out, buf
      ensures Valid() && ok == (old(pos) < end)
      ensures out == if ok then old(out) + [c] else old(out)
    {
      if pos >= end {
        return false;
      }
      if !calcOnly {
        buf[pos] := c;
      }
      pos := pos + 1;
      out := out + [c];
      return true;
    }

    /** The leaf encoders: check the room, copy unless only counting, move the cursor. */
    method WriteBytes(text: bytes) returns (ok: bool)
      requires Valid()
      modifies this`pos, this`out, buf
      ensures Valid() && ok == (old(pos) + |text| <= end)
      ensures out == if ok then old(out) + text else old(out)
    {
      if pos + |text| > end {
        return false;
      }
      if !calcOnly {
        for k := 0 to |text|
          invariant pos == old(pos) && out == old(out)
          invariant buf[..pos + k] == out + text[..k]
        {
          buf[pos + k] := text[k];
        }
        assert text[..|text|] == text;
      }
      pos := pos + |text|;
      out := out + text;
      return true;
    }

    method ObjStart() returns (ok: bool)
      requires Sound()
      modifies this, buf, commaNeeded
      ensures depth == old(depth) + 1 && overrun == (depth >= MAX_RECURSION)
      ensures overrun ==> !ok
      ensures !overrun ==> Valid() && ok == (old(pos) < end) && out == if ok then old(out) + [LBRACE] else old(out)
      ensures !overrun ==> commaNeeded[..] == old(commaNeeded[..])[depth := false]
    {
      Deeper();
      if overrun {
        return false;
      }
      ok := WriteChar(LBRACE);
    }

    method ObjEnd() returns (ok: bool)
      requires Valid() && depth > 0
      modifies this, buf, commaNeeded
      ensures Valid() && ok == (old(pos) < end) && out == if ok then old(out) + [RBRACE] else old(out)
      ensures depth == old(depth) - 1
      ensures commaNeeded[..] == old(commaNeeded[..])[depth := true]
    {
      depth := depth - 1;
      commaNeeded[depth] := true;
      ok := WriteChar(RBRACE);
    }

    method ArrStart() returns (ok: bool)
      requires Sound()
      modifies this, buf, commaNeeded
      ensures depth == old(depth) + 1 && overrun == (depth >= MAX_RECURSION)
      ensures overrun ==> !ok
      ensures !overrun ==> Valid() && ok == (old(pos) < end) && out == if ok then old(out) + [LBRACKET] else old(out)
      ensures !overrun ==> commaNeeded[..] == old(commaNeeded[..])[depth := false]
    {
      Deeper();
      if overrun {
        return false;
      }
      ok := WriteChar(LBRACKET);
    }

    method ArrEnd() returns (ok: bool)
      requires Valid() && depth > 0
      modifies this, buf, commaNeeded
      ensures Valid() && ok == (old(pos) < end) && out == if ok then old(out) + [RBRACKET] else old(out)
      ensures depth == old(depth) - 1
      ensures commaNeeded[..] == old(commaNeeded[..])[depth := true]
    {
      depth := depth - 1;
      commaNeeded[depth] := true;
      ok := WriteChar(RBRACKET);
    }

    method CommaIfNeeded() returns (ok: bool)
      requires Valid()
      modifies this`pos, this`out, buf
      ensures Valid()
      ensures var sep := Separator(!commaNeeded[depth]);
              ok == (old(pos) + |sep| <= end) && out == if ok then old(out) + sep else old(out)
    {
      if commaNeeded[depth] {
        ok := WriteChar(COMMA);
      } else {
        ok := true;
      }
    }

    /** Stores one byte at the cursor without a check. */
    method Store(c: byte)
      requires Valid() && !calcOnly && pos < end
      modifies this`pos, this`out, buf
      ensures Valid() && out == old(out) + [c]
    {
      buf[pos] := c;
      pos := pos + 1;
      out := out + [c];
    }

    /** The quoted name and the colon, whose room has been checked by the caller. */
    method KeyText(name: bytes) returns (ok: bool)
      requires Valid() && !calcOnly && pos + |name| + 3 <= end
      modifies this`pos, this`out, buf
      ensures Valid() && ok && out == old(out) + (Quoted(name) + [COLON])
    {
      ok := WriteChar(QUOTE);
      for i := 0 to |name|
        invariant Valid() && ok && out == old(out) + [QUOTE] + name[..i]
        invariant pos + (|name| - i) + 2 <= end
      {
        Store(name[i]);
      }
      assert name[..|name|] == name;
      var r := WriteChar(QUOTE);
      ok := ok && r;
      r := WriteChar(COLON);
      ok := ok && r;
    }

    /** A key asks for four bytes more than its name, although without a comma it writes three. */
    method Key(name: bytes) returns (ok: bool)
      requires Valid()
      modifies this`pos, this`out, buf, commaNeeded
      ensures Valid()
      ensures ok == (old(pos) + |name| + 4 <= end)
      ensures ok ==> out == old(out) + Separator(!old(commaNeeded[depth])) + (Quoted(name) + [COLON])
      ensures !ok ==> out == old(out) && commaNeeded[..] == old(commaNeeded[..])
      ensures ok ==> commaNeeded[..] == old(commaNeeded[..])[depth := true]
    {
      if pos + |name| + 4 > end {
        return false;
      }
      ok := CommaIfNeeded();
      commaNeeded[depth] := true;
      if calcOnly {
        pos := pos + 3;
        pos := pos + |name|;
        out := out + (Quoted(name) + [COLON]);
        return;
      }
      var r := KeyText(name);
      ok := ok && r;
    }

    // ---- Leaves ----

    method Null() returns (ok: bool)
      requires Valid()
      modifies this`pos, this`out, buf
      ensures Valid() && ok == (old(pos) + |NULL_TEXT| <= end)
      ensures out == if ok then old(out) + NULL_TEXT else old(out)
    {
      ok := WriteBytes(NULL_TEXT);
    }

    /** Integers: the digits are made in a stack buffer of the type's size; 64-bit ones are quoted. */
    method Unsigned(bits: nat, n: int) returns (ok: bool)
      requires Valid() && Width(bits) && 0 <= n < Pow2(bits)
      modifies this`pos, this`out, buf
      ensures Valid()
      ensures var text := Render(IntegerJson(bits, Itoa.Numeral(n, 10)));
              ok == (old(pos) + |text| <= end) && out == if ok then old(out) + text else old(out)
    {
      Itoa.BuffersFit(n);
      var digits := new byte[if bits == 8 then 4 else if bits == 16 then 6 else if bits == 32 then 11 else 22];
      var len := Itoa.ItoaUnsigned(n, digits, 10);
      ok := WriteBytes(if bits == 64 then Quoted(digits[..len]) else digits[..len]);
    }

    method Signed(bits: nat, n: int) returns (ok: bool)
      requires Valid() && Width(bits) && -Pow2(bits) <= 2 * n < Pow2(bits)
      modifies this`pos, this`out, buf
      ensures Valid()
      ensures var text := Render(IntegerJson(bits, Itoa.SignedNumeral(n)));
              ok == (old(pos) + |text| <= end) && out == if ok then old(out) + text else old(out)
    {
      Itoa.BuffersFit(n);
      var digits := new byte[if bits == 8 then 5 else if bits == 16 then 7 else if bits == 32 then 12 else 22];
      var len := Itoa.ItoaSigned(n, digits);
      ok := WriteBytes(if bits == 64 then Quoted(digits[..len]) else digits[..len]);
    }

    /** Copies the run of characters that need no escape, from index `from` on; `stop` is the code point that does. */
    method ScanPlain(data: bytes, from: nat) returns (valid: bool, pos1: nat, end1: nat, stop: int)
      requires from < |data|
      ensures !valid ==> StringCodec.Escape(data, from).None?
      ensures valid ==> from <= pos1 <= end1 <= |data|
      ensures valid ==> StringCodec.Escape(data, from) == StringCodec.Prepend(data[from..pos1], StringCodec.Escape(data, pos1))
      ensures valid && end1 == pos1 ==> pos1 == |data|
      ensures valid && end1 > pos1 ==>
        Utf8.Iterate(data[pos1..]) == Utf8.Point(stop, end1 - pos1) && StringCodec.MustEscape(stop)
    {
      hide Utf8.Iterate, StringCodec.EscapeOf;
      pos1, end1, stop := from, from, 0;
      StringCodec.PrependNothing(StringCodec.Escape(data, from));
      assert data[from..from] == [];
      while end1 < |data|
        invariant from <= pos1 == end1 <= |data|
        invariant StringCodec.Escape(data, from) == StringCodec.Prepend(data[from..pos1], StringCodec.Escape(data, pos1))
        decreases |data| - pos1
      {
        var it := Utf8.Iterate(data[pos1..]);
        if !it.Point? {
          return false, pos1, end1, stop;
        }
        end1 := pos1 + it.len;
        if StringCodec.MustEscape(it.cp) {
          return true, pos1, end1, it.cp;
        }
        StringCodec.EscapePlainStep(data, from, pos1);
        pos1 := end1;
      }
      valid := true;
    }

    /** The body of a string: runs of plain characters are copied, the others escaped. */
    method StringBody(data: bytes) returns (ok: bool)
      requires Valid()
      modifies this`pos, this`out, buf
      ensures Valid()
      ensures var e := StringCodec.Escape(data, 0);
              (ok <==> e.Some? && old(pos) + |e.value| <= end) && (ok ==> out == old(out) + e.value)
    {
      hide Utf8.Iterate, StringCodec.EscapeOf, StringCodec.Escape, StringCodec.Prepend;
      ghost var all := StringCodec.Escape(data, 0);
      StringCodec.PrependNothing(all);
      StringCodec.EscapeEnd(data);
      ghost var emitted: bytes := [];
      var k := 0;
      while k < |data|
        invariant Valid() && k <= |data|
        invariant all == StringCodec.Prepend(emitted, StringCodec.Escape(data, k))
        invariant out == old(out) + emitted
        decreases |data| - k
      {
        StringCodec.PrependIs(emitted, StringCodec.Escape(data, k));
        var valid, p, e, cp := ScanPlain(data, k);
        if !valid {
          return false;
        }
        StringCodec.PrependMore(emitted, data[k..p], StringCodec.Escape(data, p));
        emitted := emitted + data[k..p];
        if p != k {
          var r := WriteBytes(data[k..p]);
          if !r {
            return false;
          }
        }
        if e == p {
          k := p;
          break;
        }
        Utf8.IterateIsCanonical(data[p..]);
        StringCodec.EscapeStopStep(data, p);
        var esc := StringCodec.EscapeOf(cp);
        StringCodec.PrependMore(emitted, esc, StringCodec.Escape(data, e));
        emitted := emitted + esc;
        var r := WriteBytes(esc);
        if !r {
          return false;
        }
        k := e;
      }
      StringCodec.PrependIs(emitted, StringCodec.Escape(data, k));
      return true;
    }

    method String(s: UaString) returns (ok: bool)
      requires Valid()
      modifies this`pos, this`out, buf
      ensures Valid()
      ensures ok <==> Escapes(s) && old(pos) + |Render(StringJson(s))| <= end
      ensures ok ==> out == old(out) + Render(StringJson(s))
    {
      hide StringCodec.Escape;
      if s.NullString? {
        ok := Null();
        return;
      }
      if |s.data| == 0 {
        StringCodec.EscapeEnd(s.data);
        ok := WriteChar(QUOTE);
        var r := WriteChar(QUOTE);
        ok := ok && r;
        return;
      }
      ok := WriteChar(QUOTE);
      var r := StringBody(s.data);
      if !r {
        return false;
      }
      r := WriteChar(QUOTE);
      ok := ok && r;
    }

    method ByteString(s: UaString) returns (ok: bool)
      requires Valid()
      modifies this`pos, this`out, buf
      ensures Valid()
      ensures var text := Render(ByteStringJson(s));
              (ok <==> old(pos) + |text| <= end) && (ok ==> out == old(out) + text)
    {
      hide Base64.Base64Of;
      if s.NullString? {
        ok := Null();
        return;
      }
      ok := WriteChar(QUOTE);
      if |s.data| == 0 {
        var r := WriteChar(QUOTE);
        ok := ok && r;
        return;
      }
      var ba64 := Base64.Encode(s.data);
      var r := WriteBytes(ba64[..]);
      if !r {
        return false;
      }
      r := WriteChar(QUOTE);
      ok := ok && r;
    }

    /** A Guid: its 38 characters are reserved first; the digits go straight into the buffer. */
    method Guid(g: UaTypes.Guid) returns (ok: bool)
      requires Valid() && ValidGuid(g)
      modifies this`pos, this`out, buf
      ensures Valid()
      ensures var text := Render(Str(GuidText(g)));
              (ok <==> old(pos) + |text| <= end) && (ok ==> out == old(out) + text)
    {
      hide GuidText;
      if pos + 38 > end {
        return false;
      }
      ok := WriteChar(QUOTE);
      if !calcOnly {
        GuidToHex(g, buf, pos);
      }
      out := out + GuidText(g);
      pos := pos + 36;
      var r := WriteChar(QUOTE);
      ok := ok && r;
    }

    // ---- Composite values ----

    /** Flags below the current depth are as before, and the current one is not taken back. */
    ghost predicate Kept(before: seq<bool>)
      reads this, commaNeeded
    {
      |before| == commaNeeded.Length == MAX_RECURSION && depth < MAX_RECURSION
      && (forall i :: 0 <= i < depth ==> commaNeeded[i] == before[i])
      && (before[depth] ==> commaNeeded[depth])
    }

    /** A value without inner structure. */
    method Leaf(ty: Type, v: Value) returns (ok: bool)
      requires Valid() && HasType(ty, v) && IsLeaf(ty)
      modifies this`pos, this`out, buf
      ensures Valid()
      ensures ok <==> Encodable(ty, v) && old(pos) + |TextOf(ty, v)| <= end
      ensures ok ==> out == old(out) + TextOf(ty, v)
    {
      match ty
      case Boolean => ok := WriteBytes(if v.b then TRUE_TEXT else FALSE_TEXT);
      case Unsigned(bits) => ok := Unsigned(bits, v.n);
      case Signed(bits) => ok := Signed(bits, v.n);
      case String => ok := String(v.s);
      case ByteString => ok := ByteString(v.s);
      case GuidType => ok := Guid(v.g);
    }

    /** A key and a leaf: the key's spare byte is always covered by the value. */
    method LeafMember(name: bytes, ty: Type, v: Value) returns (ok: bool)
      requires Valid() && HasType(ty, v) && IsLeaf(ty)
      modifies this`pos, this`out, buf, commaNeeded
      ensures Valid()
      ensures ok <==> (Encodable(ty, v)
                       && old(pos) + |MemberText(!old(commaNeeded[depth]), name, TextOf(ty, v))| <= end)
      ensures ok ==> out == old(out) + MemberText(!old(commaNeeded[depth]), name, TextOf(ty, v))
      ensures ok ==> commaNeeded[depth]
      ensures commaNeeded[..] == old(commaNeeded[..]) || commaNeeded[..] == old(commaNeeded[..])[depth := true]
    {
      hide TextOf;
      if Encodable(ty, v) { TextNonempty(ty, v); }
      ok := Key(name);
      ghost var sep := Separator(!old(commaNeeded[depth]));
      var r := Leaf(ty, v);
      if ok && r {
        assert out == old(out) + sep + (Quoted(name) + [COLON]) + TextOf(ty, v);
      }
      ok := ok && r;
    }

    /** The IdType key with its one digit. */
    method IdTypeMember(c: byte) returns (ok: bool)
      requires Valid()
      modifies this`pos, this`out, buf, commaNeeded
      ensures Valid()
      ensures ok <==> old(pos) + |MemberText(!old(commaNeeded[depth]), KEY_IDTYPE, [c])| <= end
      ensures ok ==> out == old(out) + MemberText(!old(commaNeeded[depth]), KEY_IDTYPE, [c])
      ensures ok ==> commaNeeded[depth]
      ensures commaNeeded[..] == old(commaNeeded[..]) || commaNeeded[..] == old(commaNeeded[..])[depth := true]
    {
      ok := Key(KEY_IDTYPE);
      ghost var sep := Separator(!old(commaNeeded[depth]));
      var r := WriteChar(c);
      if ok && r {
        assert out == old(out) + sep + (Quoted(KEY_IDTYPE) + [COLON]) + [c];
      }
      ok := ok && r;
    }

    /** The namespace of a NodeId or QualifiedName: left out when it is zero. */
    method NamespaceMember(key: bytes, ns: nat) returns (ok: bool)
      requires Valid() && ns < 0x1_0000
      modifies this`pos, this`out, buf, commaNeeded
      ensures Valid()
      ensures ok <==> old(pos) + |NamespaceText(!old(commaNeeded[depth]), key, ns)| <= end
      ensures ok ==> out == old(out) + NamespaceText(!old(commaNeeded[depth]), key, ns)
      ensures commaNeeded[..] == old(commaNeeded[..]) || commaNeeded[..] == old(commaNeeded[..])[depth := true]
    {
      ok := true;
      if ns > 0 {
        ok := LeafMember(key, Type.Unsigned(16), VInteger(ns));
      }
    }

    /** The Id member, with its IdType in front unless the identifier is numeric. */
    method IdMembers(id: Identifier) returns (ok: bool)
      requires Valid() && ValidId(id) && !commaNeeded[depth]
      modifies this`pos, this`out, buf, commaNeeded
      ensures Valid()
      ensures ok <==> (id.StringId? ==> Escapes(id.s)) && old(pos) + |IdText(id)| <= end
      ensures ok ==> out == old(out) + IdText(id) && commaNeeded[depth]
      ensures commaNeeded[..] == old(commaNeeded[..]) || commaNeeded[..] == old(commaNeeded[..])[depth := true]
    {
      hide Escapes, TextOf, Encodable, HasType, IdText, MemberText;
      IdLeafFits(id);
      if id.StringId? ==> Escapes(id.s) { IdTextParts(id); }
      if id.Numeric? {
        ok := LeafMember(KEY_ID, Type.Unsigned(32), VInteger(id.n));
      } else {
        ok := IdTypeMember(IdTypeDigit(id));
        var r := LeafMember(KEY_ID, IdLeafType(id), IdLeaf(id));
        ok := ok && r;
      }
    }

    method NodeId(ns: nat, id: Identifier) returns (ok: bool)
      requires Valid() && ns < 0x1_0000 && ValidId(id)
      modifies this, buf, commaNeeded
      ensures overrun == (old(depth) + 1 >= MAX_RECURSION) && (overrun ==> !ok)
      ensures !overrun ==> Valid() && depth == old(depth) && Kept(old(commaNeeded[..]))
      ensures var v := VNodeId(ns, id);
              !overrun ==> (ok <==> Encodable(Type.NodeId, v) && old(pos) + |TextOf(Type.NodeId, v)| <= end)
                           && (ok ==> out == old(out) + TextOf(Type.NodeId, v))
      ensures ok ==> (id.StringId? ==> Escapes(id.s)) && out == old(out) + NodeIdLiteral(ns, id)
    {
      hide TextOf, IdText, NamespaceText, Escapes, ValidId, MemberText, Separator, HasType, Encodable, NodeIdLiteral;
      NodeIdFits(ns, id);
      if id.StringId? ==> Escapes(id.s) {
        NodeIdText(ns, id);
        NodeIdWritten(ns, id);
        Braced(out, IdText(id), NamespaceText(false, KEY_NAMESPACE, ns));
      }
      ok := ObjStart();
      if overrun {
        return;
      }
      var r := IdMembers(id);
      ok := ok && r;
      r := NamespaceMember(KEY_NAMESPACE, ns);
      ok := ok && r;
      r := ObjEnd();
      ok := ok && r;
    }

    method QualifiedName(name: UaString, ns: nat) returns (ok: bool)
      requires Valid() && ns < 0x1_0000
      modifies this, buf, commaNeeded
      ensures overrun == (old(depth) + 1 >= MAX_RECURSION) && (overrun ==> !ok)
      ensures !overrun ==> Valid() && depth == old(depth) && Kept(old(commaNeeded[..]))
      ensures var v := VQualifiedName(name, ns);
              !overrun ==> (ok <==> Encodable(Type.QualifiedName, v) && old(pos) + |TextOf(Type.QualifiedName, v)| <= end)
                           && (ok ==> out == old(out) + TextOf(Type.QualifiedName, v))
      ensures ok ==> Escapes(name) && out == old(out) + QualifiedNameLiteral(name, ns)
    {
      hide TextOf, NamespaceText, Escapes, MemberText, QualifiedNameLiteral;
      StringFits(name);
      if Escapes(name) {
        QualifiedNameText(name, ns);
        QualifiedNameWritten(name, ns);
        Braced(out, MemberText(true, KEY_NAME, TextOf(Type.String, VString(name))), NamespaceText(false, KEY_URI, ns));
      }
      ok := ObjStart();
      if overrun {
        return;
      }
      var r := LeafMember(KEY_NAME, Type.String, VString(name));
      ok := ok && r;
      r := NamespaceMember(KEY_URI, ns);
      ok := ok && r;
      r := ObjEnd();
      ok := ok && r;
    }

    method LocalizedText(locale: UaString, text: UaString) returns (ok: bool)
      requires Valid()
      modifies this, buf, commaNeeded
      ensures overrun == (old(depth) + 1 >= MAX_RECURSION) && (overrun ==> !ok)
      ensures !overrun ==> Valid() && depth == old(depth) && Kept(old(commaNeeded[..]))
      ensures var v := VLocalizedText(locale, text);
              !overrun ==> (ok <==> Encodable(Type.LocalizedText, v) && old(pos) + |TextOf(Type.LocalizedText, v)| <= end)
                           && (ok ==> out == old(out) + TextOf(Type.LocalizedText, v))
      ensures ok ==> Escapes(locale) && Escapes(text) && out == old(out) + LocalizedTextLiteral(locale, text)
    {
      hide TextOf, Escapes, MemberText, LocalizedTextLiteral;
      StringFits(locale);
      StringFits(text);
      if Escapes(locale) && Escapes(text) {
        LocalizedTextText(locale, text);
        LocalizedTextWritten(locale, text);
        Braced(out, MemberText(true, KEY_LOCALE, TextOf(Type.String, VString(locale))),
               MemberText(false, KEY_TEXT, TextOf(Type.String, VString(text))));
      }
      ok := ObjStart();
      if overrun {
        return;
      }
      var r := LeafMember(KEY_LOCALE, Type.String, VString(locale));
      ok := ok && r;
      r := LeafMember(KEY_TEXT, Type.String, VString(text));
      ok := ok && r;
      r := ObjEnd();
      ok := ok && r;
    }

    /** Any value, dispatched on its type. */
    method Encode(ty: Type, v: Value) returns (ok: bool)
      requires Valid() && HasType(ty, v)
      modifies this, buf, commaNeeded
      ensures !overrun ==> Valid() && depth == old(depth) && Kept(old(commaNeeded[..]))
      ensures overrun ==> old(depth) + Reach(ty, v) >= MAX_RECURSION
      ensures Encodable(ty, v) && old(pos) + |TextOf(ty, v)| <= end ==> (overrun <==> old(depth) + Reach(ty, v) >= MAX_RECURSION)
      ensures !overrun ==> (ok <==> Encodable(ty, v) && old(pos) + |TextOf(ty, v)| <= end)
      ensures ok ==> !overrun && out == old(out) + TextOf(ty, v)
      decreases ty, 1
    {
      hide TextOf, Encodable, HasType, ElemsReach, FieldsReach;
      ShapeOf(ty, v);
      if ty.NodeId? {
        ok := NodeId(v.namespace, v.id);
      } else if ty.QualifiedName? {
        ok := QualifiedName(v.name, v.namespace);
      } else if ty.LocalizedText? {
        ok := LocalizedText(v.locale, v.text);
      } else if ty.Array? {
        ok := Array(ty, v);
      } else if ty.Structure? {
        ok := Structure(ty, v);
      } else {
        ok := Leaf(ty, v);
      }
    }

    /** One element: its comma, its value, both attempted, and the flag for the next one. */
    method Elem(ty: Type, v: Value) returns (ok: bool)
      requires Valid() && HasType(ty, v)
      modifies this, buf, commaNeeded
      ensures !overrun ==> Valid() && depth == old(depth) && commaNeeded[depth]
                           && forall k :: 0 <= k < depth ==> commaNeeded[k] == old(commaNeeded[k])
      ensures overrun ==> old(depth) + Reach(ty, v) >= MAX_RECURSION
      ensures var fits := Encodable(ty, v) && old(pos) + |Separator(!old(commaNeeded[depth])) + TextOf(ty, v)| <= end;
              && (fits ==> (overrun <==> old(depth) + Reach(ty, v) >= MAX_RECURSION))
              && (!overrun ==> (ok <==> fits))
      ensures ok ==> !overrun && out == old(out) + (Separator(!old(commaNeeded[depth])) + TextOf(ty, v))
      decreases ty, 2
    {
      hide TextOf, Encodable, HasType, Reach;
      ok := CommaIfNeeded();
      var r := Encode(ty, v);
      if overrun {
        return false;
      }
      ok := ok && r;
      commaNeeded[depth] := true;
    }

    /** The loop over the elements: a comma before each but the first; it stops at the first failure. */
    method Elements(ty: Type, v: Value) returns (ok: bool)
      requires Valid() && ty.Array? && HasType(ty, v) && v.VArray? && !commaNeeded[depth]
      modifies this, buf, commaNeeded
      ensures !overrun ==> Valid() && depth == old(depth) && forall k :: 0 <= k < depth ==> commaNeeded[k] == old(commaNeeded[k])
      ensures overrun ==> old(depth) + ElemsReach(ty, v, 0) >= MAX_RECURSION
      ensures ElemsEncodable(ty, v, 0) && old(pos) + |ElemsText(ty, v, 0)| <= end ==>
        (overrun <==> old(depth) + ElemsReach(ty, v, 0) >= MAX_RECURSION)
      ensures !overrun ==> (ok <==> ElemsEncodable(ty, v, 0) && old(pos) + |ElemsText(ty, v, 0)| <= end)
      ensures ok ==> !overrun && out == old(out) + ElemsText(ty, v, 0)
      decreases ty, 0, 0
    {
      hide TextOf, Encodable, ElemsEncodable, ElemsText, HasType, Separator, Reach, ElemsReach;
      ghost var d, base, flags := depth, out, commaNeeded[..];
      ghost var deep := d + ElemsReach(ty, v, 0) >= MAX_RECURSION;
      ghost var enc := ElemsEncodable(ty, v, 0);
      ghost var full := if enc then ElemsText(ty, v, 0) else [];
      ok := true;
      var i := 0;
      while i < |v.elems| && ok
        invariant Valid() && depth == d && i <= |v.elems|
        invariant commaNeeded.Length == MAX_RECURSION && forall k :: 0 <= k < d ==> commaNeeded[k] == flags[k]
        invariant ok ==> commaNeeded[d] == (i > 0) && (enc <==> ElemsEncodable(ty, v, i))
        invariant d + ElemsReach(ty, v, i) >= MAX_RECURSION ==> deep
        invariant ok && deep ==> d + ElemsReach(ty, v, i) >= MAX_RECURSION
        invariant ok && enc ==> out + ElemsText(ty, v, i) == base + full
        invariant !ok ==> !enc || |base| + |full| > end
      {
        ElemsTextStep(ty, v, i);
        ghost var start := out;
        ok := Elem(ty.elem, v.elems[i]);
        if overrun {
          return false;
        }
        if enc {
          Advance(start, Separator(i == 0) + TextOf(ty.elem, v.elems[i]), ElemsText(ty, v, i + 1), base + full);
        }
        i := i + 1;
      }
      if ok {
        ElemsTextEnd(ty, v);
        assert out + [] == out;
      }
    }

    /** encodeJsonArray. */
    method Array(ty: Type, v: Value) returns (ok: bool)
      requires Valid() && ty.Array? && HasType(ty, v)
      modifies this, buf, commaNeeded
      ensures !overrun ==> Valid() && depth == old(depth) && Kept(old(commaNeeded[..]))
      ensures overrun ==> old(depth) + Reach(ty, v) >= MAX_RECURSION
      ensures Encodable(ty, v) && old(pos) + |TextOf(ty, v)| <= end ==> (overrun <==> old(depth) + Reach(ty, v) >= MAX_RECURSION)
      ensures !overrun ==> (ok <==> Encodable(ty, v) && old(pos) + |TextOf(ty, v)| <= end)
      ensures ok ==> !overrun && out == old(out) + TextOf(ty, v)
      decreases ty, 0, 1
    {
      hide TextOf, Encodable, ElemsEncodable, ElemsText, HasType, ElemsReach;
      ArrayText(ty, v);
      if ElemsEncodable(ty, v, 0) { Enclosed(out, LBRACKET, ElemsText(ty, v, 0), RBRACKET); }
      ok := ArrStart();
      if ok {
        ok := Elements(ty, v);
      }
      if overrun {
        return false;
      }
      var r := ArrEnd();
      ok := ok && r;
    }

    /** One member of a structure: its key and its value, both attempted. */
    method Field(m: Member, v: Value) returns (ok: bool)
      requires Valid() && HasType(m.ty, v)
      modifies this, buf, commaNeeded
      ensures !overrun ==> Valid() && depth == old(depth) && forall k :: 0 <= k < depth ==> commaNeeded[k] == old(commaNeeded[k])
      ensures overrun ==> old(depth) + Reach(m.ty, v) >= MAX_RECURSION
      ensures var fits := Encodable(m.ty, v)
                          && old(pos) + |MemberText(!old(commaNeeded[depth]), m.name, TextOf(m.ty, v))| <= end;
              && (fits ==> (overrun <==> old(depth) + Reach(m.ty, v) >= MAX_RECURSION))
              && (!overrun ==> (ok <==> fits))
      ensures ok ==> !overrun && commaNeeded[depth]
                     && out == old(out) + MemberText(!old(commaNeeded[depth]), m.name, TextOf(m.ty, v))
      decreases m, 2
    {
      hide TextOf, Encodable, HasType, Reach;
      if Encodable(m.ty, v) { TextNonempty(m.ty, v); }
      ghost var sep := Separator(!commaNeeded[depth]);
      ok := Key(m.name);
      var r := Encode(m.ty, v);
      if overrun {
        return false;
      }
      if ok && r {
        assert out == old(out) + sep + (Quoted(m.name) + [COLON]) + TextOf(m.ty, v);
      }
      ok := ok && r;
    }

    /** The loop over the members of a structure; it stops at the first failure. */
    method Fields(ty: Type, v: Value) returns (ok: bool)
      requires Valid() && ty.Structure? && HasType(ty, v) && !commaNeeded[depth]
      modifies this, buf, commaNeeded
      ensures v.VStructure? && |v.fields| == |ty.members|
      ensures !overrun ==> Valid() && depth == old(depth) && forall k :: 0 <= k < depth ==> commaNeeded[k] == old(commaNeeded[k])
      ensures overrun ==> old(depth) + FieldsReach(ty, v, 0) >= MAX_RECURSION
      ensures FieldsEncodable(ty, v, 0) && old(pos) + |FieldsText(ty, v, 0)| <= end ==>
        (overrun <==> old(depth) + FieldsReach(ty, v, 0) >= MAX_RECURSION)
      ensures !overrun ==> (ok <==> FieldsEncodable(ty, v, 0) && old(pos) + |FieldsText(ty, v, 0)| <= end)
      ensures ok ==> !overrun && out == old(out) + FieldsText(ty, v, 0)
      decreases ty, 0, 0
    {
      hide TextOf, Encodable, FieldsEncodable, FieldsText, HasType, MemberText, Separator, Reach, FieldsReach;
      ghost var d, base, flags := depth, out, commaNeeded[..];
      ghost var deep := d + FieldsReach(ty, v, 0) >= MAX_RECURSION;
      ghost var enc := FieldsEncodable(ty, v, 0);
      ghost var full := if enc then FieldsText(ty, v, 0) else [];
      StructureText(ty, v);
      ok := true;
      var i := 0;
      while i < |ty.members| && ok
        invariant Valid() && depth == d && i <= |ty.members|
        invariant commaNeeded.Length == MAX_RECURSION && forall k :: 0 <= k < d ==> commaNeeded[k] == flags[k]
        invariant ok ==> commaNeeded[d] == (i > 0) && (enc <==> FieldsEncodable(ty, v, i))
        invariant d + FieldsReach(ty, v, i) >= MAX_RECURSION ==> deep
        invariant ok && deep ==> d + FieldsReach(ty, v, i) >= MAX_RECURSION
        invariant ok && enc ==> out + FieldsText(ty, v, i) == base + full
        invariant !ok ==> !enc || |base| + |full| > end
      {
        FieldsTextStep(ty, v, i);
        ghost var start := out;
        ok := Field(ty.members[i], v.fields[i]);
        if overrun {
          return false;
        }
        if enc {
          Advance(start, MemberText(i == 0, ty.members[i].name, TextOf(ty.members[i].ty, v.fields[i])),
                  FieldsText(ty, v, i + 1), base + full);
        }
        i := i + 1;
      }
      if ok {
        FieldsTextEnd(ty, v);
        assert out + [] == out;
      }
    }

    /**
     encodeJsonStructure: one depth level for the structure and one for its object.  Its check of the
     depth refuses nothing as long as the flags are inside the array.
     */
    method Structure(ty: Type, v: Value) returns (ok: bool)
      requires Valid() && ty.Structure? && HasType(ty, v)
      modifies this, buf, commaNeeded
      ensures !overrun ==> Valid() && depth == old(depth) && Kept(old(commaNeeded[..]))
      ensures overrun ==> old(depth) + Reach(ty, v) >= MAX_RECURSION
      ensures Encodable(ty, v) && old(pos) + |TextOf(ty, v)| <= end ==> (overrun <==> old(depth) + Reach(ty, v) >= MAX_RECURSION)
      ensures !overrun ==> (ok <==> Encodable(ty, v) && old(pos) + |TextOf(ty, v)| <= end)
      ensures ok ==> !overrun && out == old(out) + TextOf(ty, v)
      decreases ty, 0, 1
    {
      hide TextOf, Encodable, FieldsEncodable, FieldsText, HasType, FieldsReach;
      if depth > MAX_RECURSION {
        return false;
      }
      StructureText(ty, v);
      if FieldsEncodable(ty, v, 0) { Enclosed(out, LBRACE, FieldsText(ty, v, 0), RBRACE); }
      depth := depth + 1;
      ok := ObjStart();
      if ok {
        ok := Fields(ty, v);
      }
      if overrun {
        return false;
      }
      var r := ObjEnd();
      ok := ok && r;
      depth := depth - 1;
    }
  }

  // ---- The two passes ----

  /**
   UA_calcSizeJson: the size of the text, or zero when the value cannot be encoded, unless a flag
   behind the comma array is written.
   */
  method CalcSize(ty: Type, v: Value) returns (n: nat, overrun: bool)
    requires HasType(ty, v)
    ensures overrun ==> Reach(ty, v) >= MAX_RECURSION
    ensures Encodable(ty, v) && |TextOf(ty, v)| <= 0xFFFF_FFFF_FFFF_FFFF ==> (overrun <==> Reach(ty, v) >= MAX_RECURSION)
    ensures !overrun ==> n == if Encodable(ty, v) && |TextOf(ty, v)| <= 0xFFFF_FFFF_FFFF_FFFF then |TextOf(ty, v)| else 0
  {
    var nothing := new byte[0];
    var ctx := new CtxJson(nothing, true);
    var ok := ctx.Encode(ty, v);
    if !ok {
      return 0, ctx.overrun;
    }
    return ctx.pos, false;
  }

  /** UA_encodeJson: the text at the front of the buffer, exactly when it fits. */
  method EncodeJson(ty: Type, v: Value, buf: array<byte>) returns (ok: bool, n: nat, overrun: bool)
    requires HasType(ty, v)
    modifies buf
    ensures overrun ==> Reach(ty, v) >= MAX_RECURSION
    ensures Encodable(ty, v) && |TextOf(ty, v)| <= buf.Length ==> (overrun <==> Reach(ty, v) >= MAX_RECURSION)
    ensures !overrun ==> n <= buf.Length && (ok <==> Encodable(ty, v) && |TextOf(ty, v)| <= buf.Length)
    ensures ok ==> !overrun && n == |TextOf(ty, v)| && buf[..n] == TextOf(ty, v)
  {
    var ctx := new CtxJson(buf, false);
    ok := ctx.Encode(ty, v);
    n, overrun := ctx.pos, ctx.overrun;
  }

  /** The size pass predicts the write pass: with a size `n > 0`, a buffer is large enough iff it has `n` bytes. */
  method SizePredictsWrite(ty: Type, v: Value, buf: array<byte>) returns (size: nat, ok: bool, n: nat, overrun: bool)
    requires HasType(ty, v)
    modifies buf
    ensures overrun ==> Reach(ty, v) >= MAX_RECURSION
    ensures !overrun && size > 0 ==> (ok <==> buf.Length >= size) && (ok ==> n == size)
    ensures !overrun && size == 0 && buf.Length <= SIZE_MAX ==> !ok
  {
    ok, n := false, 0;
    size, overrun := CalcSize(ty, v);
    if overrun {
      return;
    }
    ok, n, overrun := EncodeJson(ty, v, buf);
    if Encodable(ty, v) { TextNonempty(ty, v); }
  }

  // ---- How deep the encoder goes ----

  /** `k` structures around a value. */
  function Nested(k: nat, ty: Type): Type {
    if k == 0 then ty else Structure([Member(KEY_ID, Nested(k - 1, ty))])
  }

  function NestedValue(k: nat, v: Value): Value {
    if k == 0 then v else VStructure([NestedValue(k - 1, v)])
  }

  /** Each structure takes two levels and seven characters. */
  lemma {:induction false} NestedReach(k: nat, ty: Type, v: Value)
    requires HasType(ty, v)
    ensures var t, w := Nested(k, ty), NestedValue(k, v);
            && HasType(t, w) && Reach(t, w) == 2 * k + Reach(ty, v) && Depth(t) == 2 * k + Depth(ty)
            && (Encodable(t, w) <==> Encodable(ty, v))
            && (Encodable(ty, v) ==> |TextOf(t, w)| == 7 * k + |TextOf(ty, v)|)
  {
    if k > 0 {
      NestedReach(k - 1, ty, v);
      NestedStep(Nested(k - 1, ty), NestedValue(k - 1, v));
    }
  }

  lemma NestedStep(ty: Type, v: Value)
    requires HasType(ty, v)
    ensures var t, w := Structure([Member(KEY_ID, ty)]), VStructure([v]);
            && HasType(t, w) && Reach(t, w) == 2 + Reach(ty, v) && Depth(t) == 2 + Depth(ty)
            && (Encodable(t, w) <==> Encodable(ty, v))
            && (Encodable(ty, v) ==> |TextOf(t, w)| == 7 + |TextOf(ty, v)|)
  {
    hide TextOf;
    var t, w := Structure([Member(KEY_ID, ty)]), VStructure([v]);
    var ms := [Member(KEY_ID, ty)];
    assert ms[1..] == [];
    assert MaxDepth(ms) == Depth(ty);
    StructureText(t, w);
    FieldsTextStep(t, w, 0);
    FieldsTextEnd(t, w);
  }

  const ONE_NODE: Value := VArray([VNodeId(0, Numeric(7))])

  lemma SmallValues()
    ensures HasType(Boolean, VBoolean(true)) && Encodable(Boolean, VBoolean(true)) && Reach(Boolean, VBoolean(true)) == 0
    ensures |TextOf(Boolean, VBoolean(true))| == 4
    ensures var ty := Array(NodeId);
            && HasType(ty, ONE_NODE) && Encodable(ty, ONE_NODE) && Reach(ty, ONE_NODE) == 2 && |TextOf(ty, ONE_NODE)| == 10
            && HasType(ty, VArray([])) && Encodable(ty, VArray([])) && Reach(ty, VArray([])) == 1 && |TextOf(ty, VArray([]))| == 2
            && Depth(ty) == 2
  {
    var ty := Array(NodeId);
    var node := VNodeId(0, Numeric(7));
    ArrayText(ty, VArray([]));
    ElemsTextEnd(ty, VArray([]));
    SmallNode();
    ArrayText(ty, ONE_NODE);
    ElemsTextStep(ty, ONE_NODE, 0);
    ElemsTextEnd(ty, ONE_NODE);
  }

  lemma SmallNode()
    ensures HasType(NodeId, VNodeId(0, Numeric(7))) && |TextOf(NodeId, VNodeId(0, Numeric(7)))| == 8
  {
    NodeIdText(0, Numeric(7));
    assert Itoa.Numeral(7, 10) == [55];
  }

  /**
   The check of encodeJsonStructure, at a depth over a hundred, comes too late.  The brace of the
   fiftieth of nested structures writes behind the comma array; with forty-nine around an array it
   is the brace of a NodeId, for which there is no check.  With the array empty nothing is written
   behind, although the type has a hundred levels.
   */
  method ChecksComeLate() returns (fifty: bool, node: bool, empty: bool)
    ensures fifty && node && !empty
    ensures Depth(Nested(49, Array(NodeId))) == MAX_RECURSION
  {
    hide TextOf, Nested, NestedValue, HasType, Encodable, Reach, Depth;
    SmallValues();
    var n;
    NestedReach(50, Boolean, VBoolean(true));
    n, fifty := CalcSize(Nested(50, Boolean), NestedValue(50, VBoolean(true)));
    NestedReach(49, Array(NodeId), ONE_NODE);
    n, node := CalcSize(Nested(49, Array(NodeId)), NestedValue(49, ONE_NODE));
    NestedReach(49, Array(NodeId), VArray([]));
    n, empty := CalcSize(Nested(49, Array(NodeId)), NestedValue(49, VArray([])));
  }

  method WriteHex(d: nat, n: nat, buf: array<byte>, at: nat)
    requires at + n <= buf.Length
    modifies buf
    ensures buf[..at + n] == old(buf[..at]) + HexText(d, n)
  {
    hide Nibble, HexUpper;
    for i := 0 to n
      invariant buf[..at + i] + HexText(d, n - i) == old(buf[..at]) + HexText(d, n)
    {
      ghost var before := buf[..at + i];
      var c := HexUpper(Nibble(d, n - i - 1));
      Put(buf, at + i, c);
      assert before + ([c] + HexText(d, n - i - 1)) == (before + [c]) + HexText(d, n - i - 1);
    }
    assert HexText(d, 0) == [];
  }

  /** Two digits for each of the bytes. */
  method WriteHexBytes(b: bytes, buf: array<byte>, at: nat)
    requires at + 2 * |b| <= buf.Length
    modifies buf
    ensures buf[..at + 2 * |b|] == old(buf[..at]) + HexBytes(b)
  {
    hide HexText;
    for i := 0 to |b|
      invariant buf[..at + 2 * i] + HexBytes(b[i..]) == old(buf[..at]) + HexBytes(b)
    {
      ghost var before := buf[..at + 2 * i];
      WriteHex(b[i], 2, buf, at + 2 * i);
      assert b[i..][1..] == b[i + 1..];
      assert before + (HexText(b[i], 2) + HexBytes(b[i + 1..])) == (before + HexText(b[i], 2)) + HexBytes(b[i + 1..]);
    }
    assert HexBytes(b[|b|..]) == [];
  }

  /** The digits of a Guid, five groups, written in place. */
  method GuidToHex(g: UaTypes.Guid, buf: array<byte>, at: nat)
    requires ValidGuid(g) && at + 36 <= buf.Length
    modifies buf
    ensures buf[..at + 36] == old(buf[..at]) + GuidText(g)
  {
    hide HexText, HexBytes;
    ghost var front := buf[..at];
    WriteHex(g.data1, 8, buf, at);
    Put(buf, at + 8, MINUS);
    WriteHex(g.data2, 4, buf, at + 9);
    Put(buf, at + 13, MINUS);
    WriteHex(g.data3, 4, buf, at + 14);
    Put(buf, at + 18, MINUS);
    WriteHexBytes(g.data4[..2], buf, at + 19);
    Put(buf, at + 23, MINUS);
    WriteHexBytes(g.data4[2..], buf, at + 24);
    assert buf[..at + 36] == front + GuidText(g);
  }
}
