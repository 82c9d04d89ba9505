/**
 The decoder as it runs: one index moved over the flat tokens by loops and mutual recursion,
 proved to compute the functions of `TokenWalk` and `Decoder`.
 */
module ParseCtx {
  import opened Bytes
  import opened Jsmn
  import opened JsonTree
  import opened TokenWalk
  import opened UaTypes
  import opened D = Decoder
  import Base64
  import EndToEnd
  import Itoa
  import JsmnParser
  import JsmnProps
  import ParseInteger
  import StringCodec

  class ParseCtx {
    const toks: seq<Token>
    const js: bytes
    var index: nat
    var depth: nat

    constructor (toks: seq<Token>, js: bytes)
      requires Spans(toks, js)
      ensures this.toks == toks && this.js == js && index == 0 && depth == 0
    {
      this.toks, this.js, index, depth := toks, js, 0, 0;
    }

    // ---- Skipping ----

    /** By span: to the first token that starts past the end of the current one. */
    method SkipObject()
      requires index < |toks|
      modifies this`index
      ensures index == TokenWalk.SkipObject(toks, old(index))
      ensures old(index) < index <= |toks| && forall k :: old(index) < k < index ==> toks[k].start < toks[old(index)].end
      ensures index < |toks| ==> toks[index].start >= toks[old(index)].end
    {
      var end := toks[index].end;
      index := index + 1;
      while index < |toks| && toks[index].start < end
        invariant old(index) < index <= |toks| && forall k :: old(index) < k < index ==> toks[k].start < end
        invariant SkipTo(toks, old(index) + 1, end) == SkipTo(toks, index, end)
        decreases |toks| - index
      {
        index := index + 1;
      }
    }

    /** By child counts.  `past`: the loop over an array has left the tokens, and reads a slot that holds none. */
    method JumpOverRec() returns (past: bool)
      modifies this`index
      ensures Jumped(JumpOver(toks, old(index)), past, index) && index >= old(index)
      ensures old(index) < |toks| && IsContainer(toks[old(index)]) ==> index > old(index)
      decreases |toks| - index, 1
    {
      hide TokenWalk.JumpMembers, TokenWalk.JumpElems;
      past := false;
      if index >= |toks| {
        return;
      }
      if toks[index].typ.Object? {
        var objectCount := toks[index].size;
        index := index + 1;
        if index < |toks| {
          past := JumpMembers(objectCount);
        }
      } else if toks[index].typ.Array? {
        var arraySize := toks[index].size;
        index := index + 1;
        if index < |toks| {
          past := JumpElems(arraySize);
        }
      }
    }

    /** The loop over the members of an object. */
    method JumpMembers(objectCount: nat) returns (past: bool)
      modifies this`index
      ensures Jumped(TokenWalk.JumpMembers(toks, old(index), objectCount), past, index) && index >= old(index)
      decreases |toks| - index, 2, objectCount
    {
      hide JumpOver;
      past := false;
      for i := 0 to objectCount
        invariant !past && index >= old(index)
        invariant TokenWalk.JumpMembers(toks, old(index), objectCount) == TokenWalk.JumpMembers(toks, index, objectCount - i)
      {
        if index >= |toks| {
          return;
        }
        index := index + 1;
        if index >= |toks| {
          return;
        }
        if IsContainer(toks[index]) {
          past := JumpOverRec();
          if past {
            return;
          }
        } else {
          index := index + 1;
        }
      }
    }

    /** The loop over the elements of an array, without a check of the index. */
    method JumpElems(arraySize: nat) returns (past: bool)
      modifies this`index
      ensures Jumped(TokenWalk.JumpElems(toks, old(index), arraySize), past, index) && index >= old(index)
      decreases |toks| - index, 2, arraySize
    {
      hide JumpOver;
      past := false;
      for i := 0 to arraySize
        invariant !past && index >= old(index)
        invariant TokenWalk.JumpElems(toks, old(index), arraySize) == TokenWalk.JumpElems(toks, index, arraySize - i)
      {
        if index >= |toks| {
          return true;
        }
        if IsContainer(toks[index]) {
          past := JumpOverRec();
          if past {
            return;
          }
        } else {
          index := index + 1;
        }
      }
    }

    /** The index after the object, without moving there. */
    method JumpOverObject() returns (resultIndex: nat, past: bool)
      modifies this`index
      ensures index == old(index) && Jumped(JumpOver(toks, index), past, resultIndex)
    {
      var oldIndex := index;
      past := JumpOverRec();
      resultIndex := index;
      index := oldIndex;
    }

    /** On a tree the two ways of skipping agree exactly on containers: on a bare string or primitive the second stays. */
    method SkipBothWays(ghost j: Json, ghost s: nat) returns (bySpan: nat, byCount: nat)
      requires Wf(j) && Here(toks, js, index, s, j)
      requires index + Size(j) < |toks| ==> toks[index + Size(j)].start >= s + |Render(j)|
      modifies this`index
      ensures bySpan == old(index) + Size(j)
      ensures bySpan == byCount <==> Container(j)
    {
      hide Here, Preorder, Render;
      HereTokens(toks, js, index, s, j);
      SkipsValue(toks, index, j, s);
      JumpsValue(toks, js, index, s, j);
      var past;
      byCount, past := JumpOverObject();
      SkipObject();
      bySpan := index;
      SizeAtLeastOne(j);
    }

    // ---- Looking ahead ----

    method SearchObjectForKeyRec(key: bytes, level: nat) returns (status: Status, result: nat)
      requires Spans(toks, js)
      modifies this`index
      ensures Search(status, index, result) == SearchKey(toks, js, key, old(index), level)
      decreases |toks| - index, 1
    {
      hide JsonEq, SearchMembers, SearchElems;
      if index >= |toks| {
        return BadDecodingError, 0;
      }
      if toks[index].typ.Object? {
        var objectCount := toks[index].size;
        index := index + 1;
        status, result := SearchMembersLoop(key, objectCount, level);
      } else if toks[index].typ.Array? {
        var arraySize := toks[index].size;
        index := index + 1;
        status, result := SearchElemsLoop(key, arraySize, level);
      } else {
        return BadNotFound, 0;
      }
    }

    method SearchMembersLoop(key: bytes, objectCount: nat, level: nat) returns (ret: Status, result: nat)
      requires Spans(toks, js)
      modifies this`index
      ensures Search(ret, index, result) == SearchMembers(toks, js, key, old(index), objectCount, level, BadNotFound)
      decreases |toks| - index, 2, objectCount
    {
      hide JsonEq, SearchKey;
      ret, result := BadNotFound, 0;
      for i := 0 to objectCount
        invariant result == 0 && index >= old(index)
        invariant SearchMembers(toks, js, key, old(index), objectCount, level, BadNotFound)
               == SearchMembers(toks, js, key, index, objectCount - i, level, ret)
      {
        if index >= |toks| {
          return BadDecodingError, 0;
        }
        if level == 0 && JsonEq(js, toks[index], key) {
          index := index + 1;
          if index >= |toks| {
            return BadOutOfRange, 0;
          }
          return Good, index;
        }
        index := index + 1;
        if index >= |toks| {
          return BadDecodingError, 0;
        }
        if IsContainer(toks[index]) {
          ret, result := SearchObjectForKeyRec(key, level + 1);
          result := 0;
        } else {
          index := index + 1;
        }
      }
    }

    method SearchElemsLoop(key: bytes, arraySize: nat, level: nat) returns (ret: Status, result: nat)
      requires Spans(toks, js)
      modifies this`index
      ensures Search(ret, index, result) == SearchElems(toks, js, key, old(index), arraySize, level, BadNotFound)
      decreases |toks| - index, 2, arraySize
    {
      hide JsonEq, SearchKey;
      ret, result := BadNotFound, 0;
      for i := 0 to arraySize
        invariant result == 0 && index >= old(index)
        invariant SearchElems(toks, js, key, old(index), arraySize, level, BadNotFound)
               == SearchElems(toks, js, key, index, arraySize - i, level, ret)
      {
        if index >= |toks| {
          return BadDecodingError, 0;
        }
        if IsContainer(toks[index]) {
          ret, result := SearchObjectForKeyRec(key, level + 1);
          result := 0;
        } else {
          index := index + 1;
        }
      }
    }

    /** The index is restored whatever the search found. */
    method LookAheadForKey(key: bytes) returns (status: Status, result: nat)
      requires Spans(toks, js)
      modifies this`index
      ensures index == old(index)
      ensures var r := SearchKey(toks, js, key, index, 0); status == r.status && result == r.result
    {
      var oldIndex := index;
      status, result := SearchObjectForKeyRec(key, 0);
      index := oldIndex;
    }

    // ---- Leaves ----

    method DecodeBoolean() returns (status: Status, value: Value)
      requires Spans(toks, js)
      modifies this`index
      ensures Agrees(DecodeLeaf(Boolean, toks, js, old(index)), status, value, index)
    {
      value := VNone;
      if index >= |toks| || !toks[index].typ.Primitive? {
        return BadDecodingError, value;
      }
      var text := TokenText(js, toks[index]);
      if text == TRUE_TEXT {
        value := VBoolean(true);
      } else if text == FALSE_TEXT {
        value := VBoolean(false);
      } else {
        return BadDecodingError, value;
      }
      index := index + 1;
      status := Good;
    }

    /** Byte, UInt16, UInt32 (a primitive) and UInt64 (a string): the number, cast to the width. */
    method DecodeUnsigned(bits: nat) returns (status: Status, value: Value)
      requires Spans(toks, js)
      modifies this`index
      ensures Agrees(DecodeLeaf(Unsigned(bits), toks, js, old(index)), status, value, index)
    {
      value := VNone;
      if index >= |toks| || toks[index].typ != (if bits == 64 then TokType.String else Primitive) {
        return BadDecodingError, value;
      }
      var out;
      status, out := ParseUnsignedInteger(TokenText(js, toks[index]));
      value := VInteger(CastUnsigned(bits, out));
      index := index + 1;
    }

    /** SByte, Int16, Int32 (a primitive) and Int64 (a string). */
    method DecodeSigned(bits: nat) returns (status: Status, value: Value)
      requires Spans(toks, js)
      modifies this`index
      ensures Agrees(DecodeLeaf(Signed(bits), toks, js, old(index)), status, value, index)
    {
      value := VNone;
      if index >= |toks| || toks[index].typ != (if bits == 64 then TokType.String else Primitive) {
        return BadDecodingError, value;
      }
      var out;
      status, out := ParseSignedInteger(TokenText(js, toks[index]));
      value := VInteger(CastSigned(bits, out));
      index := index + 1;
    }

    method DecodeString() returns (status: Status, value: Value)
      requires Spans(toks, js)
      modifies this`index
      ensures Agrees(DecodeLeaf(Type.String, toks, js, old(index)), status, value, index)
    {
      hide StringCodec.Unescape;
      if IsJsonNull(toks, js, index) {
        index := index + 1;
        return Good, VString(NullString);
      }
      value := VNone;
      if index >= |toks| || !toks[index].typ.String? {
        return BadDecodingError, value;
      }
      var ok, out, n := StringCodec.UnescapeLoop(TokenText(js, toks[index]));
      if !ok {
        return BadDecodingError, value;
      }
      value := VString(Text(out[..n]));
      index := index + 1;
      status := Good;
    }

    /** The empty byte string is decoded without moving the index. */
    method DecodeByteString() returns (status: Status, value: Value)
      requires Spans(toks, js)
      modifies this`index
      ensures Agrees(DecodeLeaf(Type.ByteString, toks, js, old(index)), status, value, index)
    {
      hide Base64.Decode;
      if IsJsonNull(toks, js, index) {
        index := index + 1;
        return Good, VString(NullString);
      }
      value := VNone;
      if index >= |toks| || !toks[index].typ.String? {
        return BadDecodingError, value;
      }
      var text := TokenText(js, toks[index]);
      if |text| == 0 {
        return Good, VString(Text([]));
      }
      var out, len := Base64.DecodeLoop(text);
      value := VString(Text(out[..len]));
      index := index + 1;
      status := Good;
    }

    method DecodeGuid() returns (status: Status, value: Value)
      requires Spans(toks, js)
      modifies this`index
      ensures Agrees(DecodeLeaf(GuidType, toks, js, old(index)), status, value, index)
    {
      hide HexNumber;
      value := VNone;
      if index >= |toks| || !toks[index].typ.String? {
        return BadDecodingError, value;
      }
      var text := TokenText(js, toks[index]);
      if |text| != 36 {
        return BadDecodingError, value;
      }
      for i := 0 to |text|
        invariant index == old(index) && forall k :: 0 <= k < i ==> text[k] == MINUS || IsHex(text[k])
      {
        if text[i] != MINUS && !IsHex(text[i]) {
          return BadDecodingError, value;
        }
      }
      var g := GuidOfChars(text);
      value := VGuid(g);
      index := index + 1;
      status := Good;
    }

    // ---- Objects, arrays and structures ----

    /** The members of an object, in whatever order they come, decoded into zeroed fields. */
    method DecodeFields(ms: seq<Member>, vals: array<Value>, found: array<bool>) returns (ret: Status)
      requires Spans(toks, js) && vals.Length == found.Length == |ms|
      requires vals[..] == Defaults(ms) && found[..] == seq(|ms|, _ => false)
      modifies this`index, this`depth, vals, found
      ensures depth == old(depth)
      ensures FieldsAgree(D.DecodeFields(ms, toks, js, old(index), depth), ret, vals[..], found[..], index)
      decreases Ranks(ms), ms, 2, 0
    {
      hide D.Decode, Defaults, JsonEq;
      if index >= |toks| || |ms| == 0 {
        return BadDecodingError;
      }
      var objectCount := toks[index].size;
      ret := Good;
      if |ms| == 1 && ms[0].name == [] {
        var value;
        ret, value := Decode(ms[0].ty);
        if ret == Good {
          vals[0] := value;
        }
        return;
      }
      index := index + 1;
      if index >= |toks| {
        return BadDecodingError;
      }
      ghost var all := FieldsLoop(ms, toks, js, index, 0, objectCount, vals[..], found[..], depth);
      var round := 0;
      while round < objectCount && index < |toks|
        invariant depth == old(depth) && ret == Good
        invariant FieldsLoop(ms, toks, js, index, round, objectCount, vals[..], found[..], depth) == all
        decreases objectCount - round
      {
        ghost var vals0, found0, index0 := vals[..], found[..], index;
        var i := round;
        while i < round + |ms|
          invariant round <= i <= round + |ms|
          invariant depth == old(depth) && index == index0 && vals[..] == vals0 && found[..] == found0 && ret == Good
          invariant FindEntry(ms, js, toks[index0], round, round + |ms|) == FindEntry(ms, js, toks[index0], i, round + |ms|)
          decreases round + |ms| - i
        {
          var e := i % |ms|;
          if !JsonEq(js, toks[index], ms[e].name) {
            i := i + 1;
            continue;
          }
          if found[e] {
            return BadDecodingError;
          }
          found[e] := true;
          index := index + 1;
          if index >= |toks| {
            return BadDecodingError;
          }
          var value;
          ret, value := Decode(ms[e].ty);
          if ret != Good {
            return;
          }
          vals[e] := value;
          break;
        }
        round := round + 1;
      }
    }

    /** The type of the identifier of the NodeId at the index. */
    method PrepareDecodeNodeId() returns (idType: Option<Type>)
      requires Spans(toks, js)
      modifies this`index
      ensures index == old(index) && idType == IdTypeOf(toks, js, index)
      ensures idType.Some? ==> IsLeaf(idType.value)
    {
      hide SearchKey;
      var status, result := LookAheadForKey(KEY_IDTYPE);
      if status != Good {
        return Some(Unsigned(32));
      }
      if result >= |toks| || toks[result].end - toks[result].start < 1 {
        return None;
      }
      var c := js[toks[result].start];
      if c == 50 {
        return Some(GuidType);
      } else if c == 49 {
        return Some(Type.String);
      } else if c == 51 {
        return Some(Type.ByteString);
      }
      return None;
    }

    method DecodeNodeId() returns (status: Status, value: Value)
      requires Spans(toks, js)
      modifies this`index, this`depth
      ensures depth == old(depth)
      ensures Agrees(D.Decode(Type.NodeId, toks, js, old(index), depth), status, value, index)
      decreases 1, Type.NodeId, 0, 0
    {
      hide D.DecodeFields, SearchKey, IdTypeOf, Defaults, Ranks, NodeIdEntries;
      if IsJsonNull(toks, js, index) {
        index := index + 1;
        return Good, VNodeId(0, Numeric(0));
      }
      value := VNone;
      if index >= |toks| || !toks[index].typ.Object? {
        return BadDecodingError, value;
      }
      var found, _ := LookAheadForKey(KEY_NAMESPACE);
      var hasNamespace := found == Good;
      var idType := PrepareDecodeNodeId();
      if idType.None? {
        return BadDecodingError, value;
      }
      var ms := NodeIdEntries(idType.value, hasNamespace);
      LeafEntries(idType.value, hasNamespace);
      EntryCount(idType.value, hasNamespace);
      var vals, founds := Zeroed(ms);
      status := DecodeFields(ms, vals, founds);
      if status == Good {
        value := VNodeId(if hasNamespace then NatOf(vals[|ms| - 1]) else 0, IdOf(idType.value, vals[0]));
      }
    }

    method DecodeQualifiedName() returns (status: Status, value: Value)
      requires Spans(toks, js)
      modifies this`index, this`depth
      ensures depth == old(depth)
      ensures Agrees(D.Decode(Type.QualifiedName, toks, js, old(index), depth), status, value, index)
      decreases 1, Type.QualifiedName, 0, 0
    {
      hide D.DecodeFields, Defaults;
      if IsJsonNull(toks, js, index) {
        index := index + 1;
        return Good, VQualifiedName(NullString, 0);
      }
      value := VNone;
      if index >= |toks| || !toks[index].typ.Object? {
        return BadDecodingError, value;
      }
      var vals, found := Zeroed(QUALIFIED_NAME);
      status := DecodeFields(QUALIFIED_NAME, vals, found);
      if status == Good {
        value := VQualifiedName(StringOf(vals[0]), NatOf(vals[1]));
      }
    }

    method DecodeLocalizedText() returns (status: Status, value: Value)
      requires Spans(toks, js)
      modifies this`index, this`depth
      ensures depth == old(depth)
      ensures Agrees(D.Decode(Type.LocalizedText, toks, js, old(index), depth), status, value, index)
      decreases 1, Type.LocalizedText, 0, 0
    {
      hide D.DecodeFields, Defaults;
      if IsJsonNull(toks, js, index) {
        index := index + 1;
        return Good, VLocalizedText(NullString, NullString);
      }
      value := VNone;
      if index >= |toks| || !toks[index].typ.Object? {
        return BadDecodingError, value;
      }
      var vals, found := Zeroed(LOCALIZED_TEXT);
      status := DecodeFields(LOCALIZED_TEXT, vals, found);
      if status == Good {
        value := VLocalizedText(StringOf(vals[0]), StringOf(vals[1]));
      }
    }

    /** The empty array is decoded without moving the index. */
    method DecodeArray(elem: Type) returns (status: Status, value: Value)
      requires Spans(toks, js)
      modifies this`index, this`depth
      ensures depth == old(depth)
      ensures Agrees(D.Decode(Type.Array(elem), toks, js, old(index), depth), status, value, index)
      decreases 2, Type.Array(elem), 0, 0
    {
      hide D.DecodeFields, DecodeLeaf, Default;
      value := VNone;
      if index >= |toks| || !toks[index].typ.Array? {
        return BadDecodingError, value;
      }
      var length := toks[index].size;
      if length == 0 {
        return Good, VArray([]);
      }
      var elems := new Value[length](_ => Default(elem));
      index := index + 1;
      ghost var all := DecodeElems(elem, toks, js, index, length, [], depth);
      assert elems[..0] == [];
      for i := 0 to length
        invariant depth == old(depth)
        invariant DecodeElems(elem, toks, js, index, length - i, elems[..i], depth) == all
      {
        hide D.Decode;
        var v;
        status, v := Decode(elem);
        if status != Good {
          return status, value;
        }
        elems[i] := v;
        assert elems[..i + 1] == elems[..i] + [v];
      }
      status, value := Good, VArray(elems[..length]);
    }

    method DecodeStructure(ms: seq<Member>) returns (status: Status, value: Value)
      requires Spans(toks, js)
      modifies this`index, this`depth
      ensures depth == old(depth)
      ensures Agrees(D.Decode(Structure(ms), toks, js, old(index), depth), status, value, index)
      decreases 2, Structure(ms), 0, 0
    {
      hide D.DecodeFields, Defaults;
      value := VNone;
      if depth > MAX_RECURSION {
        return BadEncodingError, value;
      }
      depth := depth + 1;
      var vals, found := Zeroed(ms);
      status := DecodeFields(ms, vals, found);
      depth := depth - 1;
      if status == Good {
        value := VStructure(vals[..]);
      }
    }

    /** The jump table. */
    method Decode(ty: Type) returns (status: Status, value: Value)
      requires Spans(toks, js)
      modifies this`index, this`depth
      ensures depth == old(depth)
      ensures Agrees(D.Decode(ty, toks, js, old(index), depth), status, value, index)
      decreases Rank(ty), ty, 1, 0
    {
      hide D.DecodeFields, IsJsonNull, TokenText, SearchKey, IdTypeOf, StringCodec.Unescape, Base64.Decode, GuidFromChars;
      match ty {
        case Boolean => status, value := DecodeBoolean();
        case Unsigned(bits) => status, value := DecodeUnsigned(bits);
        case Signed(bits) => status, value := DecodeSigned(bits);
        case String => status, value := DecodeString();
        case ByteString => status, value := DecodeByteString();
        case GuidType => status, value := DecodeGuid();
        case NodeId => status, value := DecodeNodeId();
        case QualifiedName => status, value := DecodeQualifiedName();
        case LocalizedText => status, value := DecodeLocalizedText();
        case Array(elem) => status, value := DecodeArray(elem);
        case Structure(ms) => status, value := DecodeStructure(ms);
        case Skip =>
          status, value := BadDecodingError, VNone;
          if index < |toks| {
            index := index + 1;
            status := Good;
          }
      }
    }
  }

  ghost predicate Jumped(r: Jump, past: bool, index: nat) {
    past == r.PastTokens? && (r.Jump? ==> r.next == index)
  }

  lemma HereTokens(toks: seq<Token>, js: bytes, i: nat, s: nat, j: Json)
    requires Here(toks, js, i, s, j)
    ensures At(toks, i, Preorder(j, s))
  {
  }

  /** The status and value a decoder reports, and where it leaves the index, are those of the function. */
  ghost predicate Agrees(r: Decoded, status: Status, value: Value, index: nat) {
    && (status == Good <==> r.Done?)
    && (r.Fail? ==> status == r.status)
    && (r.Done? ==> value == r.value && index == r.next)
  }

  ghost predicate FieldsAgree(r: FieldsDecoded, ret: Status, vals: seq<Value>, found: seq<bool>, index: nat) {
    && (ret == Good <==> r.FieldsDone?)
    && (r.FieldsFail? ==> ret == r.status)
    && (r.FieldsDone? ==> vals == r.vals && found == r.found && index == r.next)
  }

  lemma EntryCount(idType: Type, hasNamespace: bool)
    ensures |NodeIdEntries(idType, hasNamespace)| > 0
  {
  }

  /** The zeroed destination of the entries, and their marks. */
  method Zeroed(ms: seq<Member>) returns (vals: array<Value>, found: array<bool>)
    ensures fresh(vals) && fresh(found) && vals.Length == found.Length == |ms|
    ensures vals[..] == Defaults(ms) && found[..] == seq(|ms|, _ => false)
  {
    var zero := Defaults(ms);
    vals := new Value[|ms|](i requires 0 <= i < |ms| => zero[i]);
    found := new bool[|ms|](_ => false);
  }

  // ---- Integers ----

  /** However the text is parted into white space, sign, digits and rest; `ParseInteger.PartsOf` shows that it can be. */
  method ParseUnsignedInteger(text: bytes) returns (status: Status, val: int)
    ensures status == (if ParseInteger.UnsignedOf(text).Some? then Good else BadDecodingError)
    ensures status == Good ==> Some(val) == ParseInteger.UnsignedOf(text)
    ensures forall blanks, sign, digits, tail :: ParseInteger.Parts(text, blanks, sign, digits, tail) ==>
      var v := Itoa.NumeralValue(digits, 10);
      && (status == Good <==> |text| <= 20 && digits != [] && v < Itoa.UINT64_LIMIT)
      && (status == Good ==> val == (if sign == [MINUS] then (Itoa.UINT64_LIMIT - v) % Itoa.UINT64_LIMIT else v))
  {
    hide ParseInteger.Parts, ParseInteger.SubjectOf, Itoa.NumeralValue;
    forall blanks, sign, digits, tail | ParseInteger.Parts(text, blanks, sign, digits, tail) {
      ParseInteger.UnsignedReads(text, blanks, sign, digits, tail);
    }
    val := 0;
    if |text| > 20 {
      return BadDecodingError, val;
    }
    var converted := ParseInteger.Strtoull(text);
    if converted.OutOfRange? || converted.NoDigits? {
      return BadDecodingError, val;
    }
    return Good, converted.n;
  }

  method ParseSignedInteger(text: bytes) returns (status: Status, val: int)
    ensures status == (if ParseInteger.SignedOf(text).Some? then Good else BadDecodingError)
    ensures status == Good ==> Some(val) == ParseInteger.SignedOf(text)
    ensures forall blanks, sign, digits, tail :: ParseInteger.Parts(text, blanks, sign, digits, tail) ==>
      var n := if sign == [MINUS] then -Itoa.NumeralValue(digits, 10) else Itoa.NumeralValue(digits, 10);
      && (status == Good <==> |text| <= 20 && digits != [] && Itoa.INT64_MIN <= n <= Itoa.INT64_MAX)
      && (status == Good ==> val == n)
  {
    hide ParseInteger.Parts, ParseInteger.SubjectOf, Itoa.NumeralValue;
    forall blanks, sign, digits, tail | ParseInteger.Parts(text, blanks, sign, digits, tail) {
      ParseInteger.SignedReads(text, blanks, sign, digits, tail);
    }
    val := 0;
    if |text| > 20 {
      return BadDecodingError, val;
    }
    var converted := ParseInteger.Strtoll(text);
    if converted.OutOfRange? || converted.NoDigits? {
      return BadDecodingError, val;
    }
    return Good, converted.n;
  }

  // ---- Guids ----

  /** A field of a Guid: each digit shifted to its place. */
  method HexField(c: bytes) returns (d: nat)
    ensures d == HexNumber(c)
  {
    d := 0;
    assert c[0..] == c;
    for i := 0 to |c|
      invariant d + HexNumber(c[i..]) == HexNumber(c)
    {
      assert c[i..][1..] == c[i + 1..];
      d := d + Hex2Int(c[i]) * Pow16(|c| - 1 - i);
    }
  }

  method GuidOfChars(c: bytes) returns (g: Guid)
    requires |c| == 36
    ensures g == GuidFromChars(c)
  {
    var data1 := HexField(c[0..8]);
    var data2 := HexField(c[9..13]);
    var data3 := HexField(c[14..18]);
    var data4 := new byte[8](_ => 0);
    data4[0], data4[1] := HexByte(c, 19), HexByte(c, 21);
    for i := 0 to 6
      invariant data4[0] == HexByte(c, 19) && data4[1] == HexByte(c, 21)
      invariant forall k :: 2 <= k < i + 2 ==> data4[k] == HexByte(c, 20 + 2 * k)
    {
      data4[2 + i] := HexByte(c, 24 + i * 2);
    }
    g := Guid(data1, data2, data3, data4[..]);
  }

  // ---- The whole call ----

  /**
   UA_decodeJson.  Good, with the value, exactly when `DecodeJson` has one.  Any other status is a
   decoding error, unless the type nests structures past the recursion limit.  A text with more
   than a thousand tokens, too, is reported as a decoding error: the check that all tokens were
   used replaces the out-of-memory status.
   */
  method DecodeText(ty: Type, js: bytes) returns (status: Status, value: Value)
    ensures status == Good <==> EndToEnd.DecodeJson(ty, js).Some?
    ensures status == Good ==> Some(value) == EndToEnd.DecodeJson(ty, js)
    ensures status != Good ==> Expected(status, Depth(ty) > MAX_RECURSION)
    ensures Run(js, EndToEnd.MAX_TOKENS, Init).1 < 0 ==> status == BadDecodingError
  {
    hide Run, D.Decode;
    value := VNone;
    var parser := new JsmnParser.JsmnParser();
    var tokens := new Token[EndToEnd.MAX_TOKENS](_ => Token(Primitive, 0, 0, 0));
    assert tokens[..0] == [];
    var tokenCount := parser.Parse(js, tokens, EndToEnd.MAX_TOKENS);
    var index := 0;
    if tokenCount < 0 {
      status := if tokenCount == ERROR_NOMEM then BadOutOfMemory else BadDecodingError;
    } else {
      JsmnProps.ParsedTokens(js, EndToEnd.MAX_TOKENS);
      var ctx := new ParseCtx(tokens[..tokenCount], js);
      if !EndToEnd.Root(ctx.toks) {
        status := BadDecodingError;
      } else {
        FailsAsExpected(ty, ctx.toks, js, 0, 0);
        status, value := ctx.Decode(ty);
      }
      index := ctx.index;
    }
    if index != tokenCount && index != tokenCount - 1 {
      status := BadDecodingError;
    }
  }
}
