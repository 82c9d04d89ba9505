/**
 Which values come back.  Three decoders can end early: those of the empty byte string, of the
 empty array, and of a NodeId around an empty byte string.  A value is read back when no decoder
 does, or only the one of its very last part, and only then.
 */
module ReadBack {
  import opened Bytes
  import opened JsonTree
  import opened TokenWalk
  import opened Decoder
  import opened EndToEnd
  import opened FieldDispatch
  import opened RoundTrip
  import opened Spending
  import opened Weights
  import opened U = UaTypes
  import Jsmn

  /** Everything but the last part returns, and the decoder of the last part stays on its token. */
  predicate Ends(ty: Type, v: Value)
    requires HasType(ty, v)
    decreases ty
  {
    match ty
    case ByteString => v.s == Text([])
    case NodeId => v.id == OpaqueId(Text([])) && v.namespace == 0
    case Array(elem) =>
      |v.elems| == 0
      || ((forall k :: 0 <= k < |v.elems| - 1 ==> Returns(elem, v.elems[k])) && Ends(elem, v.elems[|v.elems| - 1]))
    case Structure(ms) =>
      |ms| > 0 && (forall k :: 0 <= k < |ms| - 1 ==> Returns(ms[k].ty, v.fields[k])) && Ends(ms[|ms| - 1].ty, v.fields[|ms| - 1])
    case _ => false
  }

  /** No array has structures for elements. */
  predicate NoStructureArrays(ty: Type)
    decreases ty
  {
    match ty
    case Array(elem) => !elem.Structure? && NoStructureArrays(elem)
    case Structure(ms) => forall k :: 0 <= k < |ms| ==> NoStructureArrays(ms[k].ty)
    case _ => true
  }

  /** The token of an empty string or of an empty array. */
  predicate StuckAt(toks: seq<Jsmn.Token>, i: nat) {
    i < |toks| && toks[i].size == 0 && ((toks[i].typ.String? && toks[i].start == toks[i].end) || toks[i].typ.Array?)
  }

  /**
   The decoder ended too early to be made up for: at least two short of the weight, or one short
   and stuck in front of the last token.
   */
  ghost predicate Short(toks: seq<Jsmn.Token>, js: bytes, i: nat, next: nat, weight: nat, end: nat)
    requires Spans(toks, js)
  {
    var rest := Prefix(toks, js, i) + weight - Prefix(toks, js, next);
    rest >= 2 || (rest >= 1 && StuckAt(toks, next) && next < end - 1)
  }

  /**
   Where the decoder of a value ends: past it, or on its last token, or too early, if it yields the
   value at all.  In the last case it is stuck there, or fails, when there is no array of structures.
   */
  ghost predicate Outcome(ty: Type, v: Value, toks: seq<Jsmn.Token>, js: bytes, i: nat, depth: nat)
    requires Spans(toks, js) && HasType(ty, v) && Encodable(ty, v)
  {
    var r := Decode(ty, toks, js, i, depth);
    var end := i + Size(ToJson(ty, v));
    var weight := JsonWeight(ToJson(ty, v));
    if Returns(ty, v) then r == Done(v, end) && Prefix(toks, js, end) <= Prefix(toks, js, i) + weight
    else if Ends(ty, v) then EndsOn(toks, js, i, r, v, weight, end)
    else
      && (NoStructureArrays(ty) ==> r.Fail? || (r.next < end - 1 && StuckAt(toks, r.next)))
      && (r.Done? && r.value == v ==> Short(toks, js, i, r.next, weight, end))
  }

  /** The decoder yields the value and stays on its last token. */
  ghost predicate EndsOn(toks: seq<Jsmn.Token>, js: bytes, i: nat, r: Decoded, v: Value, weight: nat, end: nat)
    requires Spans(toks, js)
  {
    && r.Done? && r.value == v && r.next == end - 1 && StuckAt(toks, r.next)
    && Prefix(toks, js, r.next) < Prefix(toks, js, i) + weight
  }

  // ---- Leaves ----

  lemma StuckMatchesNothing(toks: seq<Jsmn.Token>, js: bytes, i: nat)
    requires Spans(toks, js) && StuckAt(toks, i)
    ensures forall name :: name != [] ==> !JsonEq(js, toks[i], name)
  {
  }

  /** An empty byte string or an empty array: its decoder does not move past its token. */
  lemma EmptyStays(ty: Type, v: Value, toks: seq<Jsmn.Token>, js: bytes, i: nat, s: nat, depth: nat)
    requires Spans(toks, js) && HasType(ty, v) && Encodable(ty, v) && Here(toks, js, i, s, ToJson(ty, v))
    requires (ty.ByteString? && v.s == Text([])) || (ty.Array? && v.elems == [])
    ensures Size(ToJson(ty, v)) == 1 && Decode(ty, toks, js, i, depth) == Done(v, i) && StuckAt(toks, i)
  {
    hide Here, Render, Preorder;
    if ty.ByteString? {
      DecodesLeaf(ty, v, toks, js, i, s);
      LeafWf(ty, v);
      LeafHere(toks, js, i, s, ToJson(ty, v));
    } else {
      ValueToken(toks, js, i, s, Arr(NoElems));
      ArrHere(toks, js, i, s, NoElems);
    }
  }

  // ---- NodeIds ----

  /** The members of a NodeId whose identifier is the empty byte string: the loop ends on its token. */
  lemma EmptyOpaqueFields(ns: nat, toks: seq<Jsmn.Token>, js: bytes, i: nat, s: nat, depth: nat)
    requires Spans(toks, js) && ns < 0x1_0000
    requires MembersHere(toks, js, i, s, NodeIdMembers(ns, OpaqueId(Text([]))), true)
    ensures var ents := NodeIdEntries(ByteString, ns > 0);
            var r := FieldsLoop(ents, toks, js, i, 0, if ns > 0 then 3 else 2, Defaults(ents), seq(|ents|, _ => false), depth);
            r.FieldsDone? && r.vals[0] == VString(Text([])) && r.next == i + 3 && StuckAt(toks, i + 3)
  {
    hide MembersHere, Decode, FieldsLoop, FindEntry, Here, WfMembers, JsonEq, NodeIdEntries, NamespaceMembers, EntryIndex;
    var id := OpaqueId(Text([]));
    var ms := NodeIdMembers(ns, id);
    var ents := NodeIdEntries(ByteString, ns > 0);
    var count := if ns > 0 then 3 else 2;
    EntriesOf(ByteString, ns > 0);
    EntryNames(ns > 0);
    NodeIdWf(ns, id);
    var s2 := MemberHere(toks, js, i, s, ms, true);
    SkipDecodes(toks, js, i + 1, depth);
    var vals, found := Defaults(ents), seq(|ents|, _ => false);
    var e0 := Round(ents, ms, toks, js, i, s, true, 0, count, vals, found, depth);
    var rest := ms.rest;
    WfRest(ms);
    var s4 := MemberHere(toks, js, i + 2, s2 + |Render(ms.value)|, rest, false);
    EmptyStays(ByteString, VString(Text([])), toks, js, i + 3, s4, depth);
    var vals1, found1 := vals[1 := VNone], found[1 := true];
    var e1 := Round(ents, rest, toks, js, i + 2, s2 + |Render(ms.value)|, false, 1, count, vals1, found1, depth);
    StuckMatchesNothing(toks, js, i + 3);
    UnknownTokenStops(ents, toks, js, i + 3, 2, count, vals1[0 := VString(Text([]))], found1[0 := true], depth);
  }

  lemma EntryNames(hasNamespace: bool)
    ensures forall e :: 0 <= e < |NodeIdEntries(ByteString, hasNamespace)| ==> NodeIdEntries(ByteString, hasNamespace)[e].name != []
  {
  }

  lemma NodeIdIsLoop(toks: seq<Jsmn.Token>, js: bytes, i: nat, depth: nat, hasNamespace: bool)
    requires Spans(toks, js) && i + 1 < |toks| && toks[i].typ.Object? && !IsJsonNull(toks, js, i)
    requires (SearchKey(toks, js, KEY_NAMESPACE, i, 0).status == Good) <==> hasNamespace
    requires IdTypeOf(toks, js, i) == Some(ByteString)
    ensures var ents := NodeIdEntries(ByteString, hasNamespace);
            var r := FieldsLoop(ents, toks, js, i + 1, 0, toks[i].size, Defaults(ents), seq(|ents|, _ => false), depth);
            r.FieldsDone? ==>
              var d := Decode(Type.NodeId, toks, js, i, depth);
              d.Done? && d.next == r.next && d.value.VNodeId? && d.value.id == IdOf(ByteString, r.vals[0])
              && (!hasNamespace ==> d.value.namespace == 0)
  {
    hide FieldsLoop, SearchKey, IdTypeOf, IsJsonNull, IdOf;
  }

  /** Around an empty byte string the decoder ends on the token of the identifier; a namespace would come after it. */
  lemma EmptyOpaqueOutcome(ns: nat, toks: seq<Jsmn.Token>, js: bytes, i: nat, s: nat, depth: nat)
    requires ns < 0x1_0000 && Spans(toks, js) && Here(toks, js, i, s, Obj(NodeIdMembers(ns, OpaqueId(Text([])))))
    ensures Size(Obj(NodeIdMembers(ns, OpaqueId(Text([]))))) == if ns > 0 then 7 else 5
    ensures var d := Decode(Type.NodeId, toks, js, i, depth);
            && d.Done? && d.next == i + 4 && StuckAt(toks, i + 4)
            && (ns == 0 ==> d.value == VNodeId(0, OpaqueId(Text([]))))
  {
    hide Render, Preorder, FieldsLoop, Decode, Here, MembersHere, Wf, SearchKey, IdTypeOf, NodeIdMembers, NodeIdEntries, IsJsonNull, IdOf;
    var id := OpaqueId(Text([]));
    assert IdOf(ByteString, VString(Text([]))) == id by { IdBack(id); }
    var ms := NodeIdMembers(ns, id);
    NodeIdWf(ns, id);
    WfToObj(ms);
    EmptyOpaqueSizes(ns);
    ObjectHere(toks, js, i, s, ms);
    NodeIdLooksAhead(ns, id, toks, js, i, s);
    EmptyOpaqueFields(ns, toks, js, i + 1, s + 1, depth);
    NodeIdIsLoop(toks, js, i, depth, ns > 0);
  }

  lemma EmptyOpaqueSizes(ns: nat)
    ensures var ms := NodeIdMembers(ns, OpaqueId(Text([])));
            ms.Count() == (if ns > 0 then 3 else 2) && MembersSize(ms) == (if ns > 0 then 6 else 4)
  {
    var tail := NamespaceMembers(KEY_NAMESPACE, ns);
    assert tail.Count() == (if ns > 0 then 1 else 0) && MembersSize(tail) == (if ns > 0 then 2 else 0);
    var rest := MoreMembers(KEY_ID, Str([]), tail);
    assert rest.Count() == 1 + tail.Count() && MembersSize(rest) == 2 + MembersSize(tail);
  }

  // ---- Arrays ----

  /** On a token where a decoder got stuck, an element that could get stuck itself does not move either. */
  lemma StuckElement(ty: Type, toks: seq<Jsmn.Token>, js: bytes, i: nat, depth: nat)
    requires Spans(toks, js) && StuckAt(toks, i) && (ty.ByteString? || ty.NodeId? || ty.Array?)
    ensures var r := Decode(ty, toks, js, i, depth); r.Fail? || r.next == i
  {
  }

  lemma {:induction false} StuckElements(ty: Type, toks: seq<Jsmn.Token>, js: bytes, i: nat, n: nat, acc: seq<Value>, depth: nat)
    requires Spans(toks, js) && StuckAt(toks, i) && (ty.ByteString? || ty.NodeId? || ty.Array?)
    ensures var r := DecodeElems(ty, toks, js, i, n, acc, depth); r.Fail? || r.next == i
    decreases n
  {
    hide Decode;
    if n > 0 {
      StuckElement(ty, toks, js, i, depth);
      var r := Decode(ty, toks, js, i, depth);
      if r.Done? {
        StuckElements(ty, toks, js, i, n - 1, acc + [r.value], depth);
      }
    }
  }

  /** Only these types have values that do not return. */
  lemma ReturningTypes(ty: Type, v: Value)
    requires HasType(ty, v) && !Returns(ty, v)
    ensures ty.ByteString? || ty.NodeId? || ty.Array? || ty.Structure?
  {
  }

  /** The elements from `k` on return, up to the last. */
  predicate ElemsReturn(ty: Type, v: Value, k: nat, last: int)
    requires ty.Array? && v.VArray? && last <= |v.elems| && forall e :: 0 <= e < |v.elems| ==> HasType(ty.elem, v.elems[e])
  {
    forall e :: k <= e < last ==> Returns(ty.elem, v.elems[e])
  }

  /** Where the element loop ends that starts at element `k`, when not all elements from there on return. */
  ghost predicate TailOutcome(ty: Type, v: Value, k: nat, toks: seq<Jsmn.Token>, js: bytes, i: nat, r: Decoded)
    requires Spans(toks, js) && ty.Array? && HasType(ty, v) && v.VArray? && k < |v.elems| && ElemsEncodable(ty, v, k)
    requires forall e :: 0 <= e < |v.elems| ==> HasType(ty.elem, v.elems[e])
  {
    var end := i + ElemsSize(ElemsJson(ty, v, k));
    var weight := ElemsWeight(ElemsJson(ty, v, k));
    if ElemsReturn(ty, v, k, |v.elems| - 1) && Ends(ty.elem, v.elems[|v.elems| - 1]) then EndsOn(toks, js, i, r, v, weight, end)
    else
      && (NoStructureArrays(ty) ==> r.Fail? || (r.next < end - 1 && StuckAt(toks, r.next)))
      && (r.Done? && r.value == v ==> Short(toks, js, i, r.next, weight, end))
  }

  lemma {:induction false} ElemsOutcome(ty: Type, v: Value, k: nat, toks: seq<Jsmn.Token>, js: bytes, i: nat, s: nat, depth: nat)
    requires Spans(toks, js) && ty.Array? && WfType(ty) && HasType(ty, v) && k < |v.elems| && ElemsEncodable(ty, v, k)
    requires depth + Reach(ty, v) <= MAX_RECURSION && ElemsHere(toks, js, i, s, ElemsJson(ty, v, k), k == 0)
    requires !ElemsReturn(ty, v, k, |v.elems|)
    ensures TailOutcome(ty, v, k, toks, js, i, DecodeElems(ty.elem, toks, js, i, |v.elems| - k, v.elems[..k], depth))
    decreases ty, 0, |v.elems| - k
  {
    hide Here, ElemsHere, Wf, WfElems, ToJson, Decode, Encodable, HasType, Returns, Ends, WfType, StuckAt, Prefix, NoStructureArrays;
    ArrayShape(ty, v);
    ElemsJsonWf(ty, v, k);
    var es := ElemsJson(ty, v, k);
    var s1 := ElemHere(toks, js, i, s, es, k == 0);
    var e := v.elems[k];
    assert v.elems[..k] + [e] == v.elems[..k + 1];
    ElemReach(ty, v, k);
    DecodesAny(ty.elem, e, toks, js, i, s1, depth);
    if Returns(ty.elem, e) {
      ElemsOutcome(ty, v, k + 1, toks, js, i + Size(es.first), s1 + |Render(es.first)|, depth);
    } else {
      EarlyElement(ty, v, k, toks, js, i, depth);
    }
  }

  /** At the first element that does not return. */
  lemma EarlyElement(ty: Type, v: Value, k: nat, toks: seq<Jsmn.Token>, js: bytes, i: nat, depth: nat)
    requires Spans(toks, js) && ty.Array? && WfType(ty) && HasType(ty, v) && k < |v.elems| && ElemsEncodable(ty, v, k)
    requires HasType(ty.elem, v.elems[k]) && !Returns(ty.elem, v.elems[k]) && Outcome(ty.elem, v.elems[k], toks, js, i, depth)
    ensures v.VArray? && forall e :: 0 <= e < |v.elems| ==> HasType(ty.elem, v.elems[e])
    ensures TailOutcome(ty, v, k, toks, js, i, DecodeElems(ty.elem, toks, js, i, |v.elems| - k, v.elems[..k], depth))
  {
    hide ToJson, Decode, Encodable, HasType, Returns, Ends, WfType, StuckAt, Prefix, DecodeElems;
    ArrayShape(ty, v);
    if k + 1 < |v.elems| {
      if NoStructureArrays(ty) { StuckTail(ty, v, k, toks, js, i, depth); }
      ShortTail(ty, v, k, toks, js, i, depth);
    } else {
      RestSize(ty, v, k + 1);
      LastElement(ty, v, toks, js, i, depth);
    }
  }

  /** Behind an element whose decoder got stuck, and with no structures, the others do not move. */
  lemma StuckTail(ty: Type, v: Value, k: nat, toks: seq<Jsmn.Token>, js: bytes, i: nat, depth: nat)
    requires Spans(toks, js) && ty.Array? && WfType(ty) && HasType(ty, v) && k + 1 < |v.elems| && ElemsEncodable(ty, v, k)
    requires !Returns(ty.elem, v.elems[k]) && Outcome(ty.elem, v.elems[k], toks, js, i, depth) && NoStructureArrays(ty)
    ensures var r := DecodeElems(ty.elem, toks, js, i, |v.elems| - k, v.elems[..k], depth);
            r.Fail? || (r.next < i + ElemsSize(ElemsJson(ty, v, k)) - 1 && StuckAt(toks, r.next))
  {
    hide ToJson, Decode, Encodable, HasType, Returns, Ends, WfType, StuckAt;
    ArrayShape(ty, v);
    ReturningTypes(ty.elem, v.elems[k]);
    RestSize(ty, v, k + 1);
    if Ends(ty.elem, v.elems[k]) { EndingTypes(ty.elem, v.elems[k]); }
    var r := Decode(ty.elem, toks, js, i, depth);
    if r.Done? {
      StuckElements(ty.elem, toks, js, r.next, |v.elems| - k - 1, v.elems[..k] + [r.value], depth);
    }
  }

  /** Behind an element whose decoder ended early, the others cannot make up for it. */
  lemma ShortTail(ty: Type, v: Value, k: nat, toks: seq<Jsmn.Token>, js: bytes, i: nat, depth: nat)
    requires Spans(toks, js) && ty.Array? && WfType(ty) && HasType(ty, v) && k + 1 < |v.elems| && ElemsEncodable(ty, v, k)
    requires !Returns(ty.elem, v.elems[k]) && Outcome(ty.elem, v.elems[k], toks, js, i, depth)
    ensures var r := DecodeElems(ty.elem, toks, js, i, |v.elems| - k, v.elems[..k], depth);
            r.Done? && r.value == v ==> Prefix(toks, js, r.next) <= Prefix(toks, js, i) + ElemsWeight(ElemsJson(ty, v, k)) - 2
  {
    hide ToJson, Decode, Encodable, HasType, Returns, Ends, WfType, StuckAt, NoStructureArrays, Prefix;
    ArrayShape(ty, v);
    var n := |v.elems|;
    var r := Decode(ty.elem, toks, js, i, depth);
    var all := DecodeElems(ty.elem, toks, js, i, n - k, v.elems[..k], depth);
    if all.Done? && all.value == v {
      ElemsKeep(ty.elem, toks, js, r.next, n - k - 1, v.elems[..k] + [r.value], depth);
      assert (v.elems[..k] + [r.value])[k] == v.elems[k];
      assert v.elems[..k] + [r.value] == v.elems[..k + 1];
      ElemsSpend(ty, v, k + 1, toks, js, r.next, depth);
      if StuckAt(toks, r.next) {
        StuckNext(ty, v, k + 1, toks, js, r.next, depth);
      }
    }
  }

  lemma EndingTypes(ty: Type, v: Value)
    requires HasType(ty, v) && Ends(ty, v)
    ensures ty.ByteString? || ty.NodeId? || ty.Array? || ty.Structure?
  {
  }

  /** On such a token even the next element uses less than it is written with. */
  lemma StuckNext(ty: Type, v: Value, k: nat, toks: seq<Jsmn.Token>, js: bytes, i: nat, depth: nat)
    requires Spans(toks, js) && ty.Array? && WfType(ty) && HasType(ty, v) && 0 < k < |v.elems| && ElemsEncodable(ty, v, k)
    requires HasType(ty.elem, v.elems[k - 1]) && !Returns(ty.elem, v.elems[k - 1]) && StuckAt(toks, i)
    ensures var r := DecodeElems(ty.elem, toks, js, i, |v.elems| - k, v.elems[..k], depth);
            r.Done? && r.value == v ==> Prefix(toks, js, r.next) < Prefix(toks, js, i) + ElemsWeight(ElemsJson(ty, v, k))
  {
    hide ToJson, Decode, Encodable, HasType, Returns, Ends, WfType, StuckAt, NoStructureArrays, Prefix;
    ArrayShape(ty, v);
    var n := |v.elems|;
    var r := Decode(ty.elem, toks, js, i, depth);
    var all := DecodeElems(ty.elem, toks, js, i, n - k, v.elems[..k], depth);
    if all.Done? && all.value == v {
      ElemsKeep(ty.elem, toks, js, r.next, n - k - 1, v.elems[..k] + [r.value], depth);
      assert (v.elems[..k] + [r.value])[k] == v.elems[k];
      assert v.elems[..k] + [r.value] == v.elems[..k + 1];
      ElemsSpend(ty, v, k + 1, toks, js, r.next, depth);
      StuckSpends(ty.elem, v.elems[k], v.elems[k - 1], toks, js, i, depth);
    }
  }

  lemma StuckSpends(ty: Type, v: Value, w: Value, toks: seq<Jsmn.Token>, js: bytes, i: nat, depth: nat)
    requires Spans(toks, js) && WfType(ty) && HasType(ty, v) && Encodable(ty, v) && StuckAt(toks, i)
    requires HasType(ty, w) && !Returns(ty, w)
    ensures var r := Decode(ty, toks, js, i, depth); r.Done? ==> Prefix(toks, js, r.next) < Prefix(toks, js, i) + JsonWeight(ToJson(ty, v))
  {
    hide Decode, StuckAt, HasType, Encodable, Prefix, ToJson;
    ReturningTypes(ty, w);
    if ty.Structure? {
      HeavyStructure(ty, v, w);
      StuckStructure(ty, toks, js, i, depth);
      PrefixStep(toks, js, i);
    } else {
      StuckElement(ty, toks, js, i, depth);
    }
  }

  /** A structure with a member that can fail to return weighs more than its object. */
  lemma HeavyStructure(ty: Type, v: Value, w: Value)
    requires ty.Structure? && WfType(ty) && HasType(ty, v) && Encodable(ty, v) && HasType(ty, w) && !Returns(ty, w)
    ensures JsonWeight(ToJson(ty, v)) >= 2
  {
    hide HasType, Encodable, ToJson, FieldsJson, FieldsEncodable, NumberPrim, MemberWeight, WfType;
    StructureShape(ty, v);
    StructureShape(ty, w);
    StructureEnds(ty, v);
    var e :| 0 <= e < |ty.members| && !Returns(ty.members[e].ty, w.fields[e]);
    ReturningTypes(ty.members[e].ty, w.fields[e]);
    FieldsAreEncodable(ty, v, 0);
    NoNumber(ty.members[e], v.fields[e]);
    HeavyFields(ty, v, 0, e);
  }

  lemma NoNumber(m: U.Member, v: Value)
    requires HasType(m.ty, v) && Encodable(m.ty, v) && !m.ty.Unsigned? && !m.ty.Signed?
    ensures MemberWeight(m.name, ToJson(m.ty, v)) == 1 + JsonWeight(ToJson(m.ty, v)) >= 2
  {
    hide HasType, Encodable, ToJson, NumberPrim;
    if NumberPrim(ToJson(m.ty, v)) { NumbersAreIntegers(m.ty, v); }
  }

  lemma {:induction false} HeavyFields(ty: Type, v: Value, k: nat, e: nat)
    requires ty.Structure? && HasType(ty, v) && k <= e < |v.fields| && FieldsEncodable(ty, v, k)
    requires Encodable(ty.members[e].ty, v.fields[e]) && MemberWeight(ty.members[e].name, ToJson(ty.members[e].ty, v.fields[e])) >= 2
    ensures MembersWeight(FieldsJson(ty, v, k)) >= 2
    decreases e - k
  {
    hide HasType, Encodable, ToJson, MemberWeight;
    if k < e { HeavyFields(ty, v, k + 1, e); }
  }

  /** A structure decoded from such a token is all defaults, and uses that token. */
  lemma StuckStructure(ty: Type, toks: seq<Jsmn.Token>, js: bytes, i: nat, depth: nat)
    requires Spans(toks, js) && ty.Structure? && WfType(ty) && StuckAt(toks, i)
    ensures var r := Decode(ty, toks, js, i, depth); r.Done? ==> r.value == VStructure(Defaults(ty.members)) && r.next == i + 1
  {
    hide Defaults, FindEntry;
    if depth <= MAX_RECURSION && i + 1 < |toks| {
      StructureIsLoop(ty, toks, js, i, depth);
    }
  }

  lemma LastElement(ty: Type, v: Value, toks: seq<Jsmn.Token>, js: bytes, i: nat, depth: nat)
    requires Spans(toks, js) && ty.Array? && HasType(ty, v) && |v.elems| > 0
    ensures var k := |v.elems| - 1;
            var r := Decode(ty.elem, toks, js, i, depth);
            var all := DecodeElems(ty.elem, toks, js, i, 1, v.elems[..k], depth);
            && (r.Fail? ==> all.Fail?)
            && (r.Done? ==> all.Done? && all.next == r.next && (all.value == v <==> r.value == v.elems[k]))
  {
    hide Decode;
    var k := |v.elems| - 1;
    var r := Decode(ty.elem, toks, js, i, depth);
    if r.Done? {
      var acc := v.elems[..k] + [r.value];
      assert DecodeElems(ty.elem, toks, js, r.next, 0, acc, depth) == Done(VArray(acc), r.next);
      assert acc[k] == r.value;
      assert v.elems == v.elems[..k] + [v.elems[k]];
    }
  }

  lemma RestSize(ty: Type, v: Value, k: nat)
    requires ty.Array? && HasType(ty, v) && k <= |v.elems| && ElemsEncodable(ty, v, k)
    ensures k < |v.elems| ==> ElemsSize(ElemsJson(ty, v, k)) > 0
    ensures k == |v.elems| ==> ElemsSize(ElemsJson(ty, v, k)) == 0
  {
  }

  /** The decoder of an array that is not empty is its element loop. */
  lemma ArrayIsElems(elem: Type, toks: seq<Jsmn.Token>, js: bytes, i: nat, depth: nat)
    requires Spans(toks, js) && i < |toks| && toks[i].typ.Array? && toks[i].size > 0
    ensures Decode(Type.Array(elem), toks, js, i, depth) == DecodeElems(elem, toks, js, i + 1, toks[i].size, [], depth)
  {
    hide DecodeElems;
  }

  /** What the elements say of the array. */
  lemma ArrayEnds(ty: Type, v: Value)
    requires ty.Array? && HasType(ty, v) && Encodable(ty, v) && v.VArray? && |v.elems| > 0
    requires forall k :: 0 <= k < |v.elems| ==> HasType(ty.elem, v.elems[k])
    ensures ElemsEncodable(ty, v, 0) && ToJson(ty, v) == Arr(ElemsJson(ty, v, 0))
    ensures Size(ToJson(ty, v)) == 1 + ElemsSize(ElemsJson(ty, v, 0))
    ensures JsonWeight(ToJson(ty, v)) == 1 + ElemsWeight(ElemsJson(ty, v, 0))
    ensures Returns(ty, v) <==> ElemsReturn(ty, v, 0, |v.elems|)
    ensures Ends(ty, v) <==> ElemsReturn(ty, v, 0, |v.elems| - 1) && Ends(ty.elem, v.elems[|v.elems| - 1])
  {
  }

  lemma ArrayOutcome(ty: Type, v: Value, toks: seq<Jsmn.Token>, js: bytes, i: nat, s: nat, depth: nat)
    requires Spans(toks, js) && ty.Array? && WfType(ty) && HasType(ty, v) && Encodable(ty, v) && !Returns(ty, v) && v.elems != []
    requires depth + Reach(ty, v) <= MAX_RECURSION && Here(toks, js, i, s, ToJson(ty, v))
    ensures Outcome(ty, v, toks, js, i, depth)
    decreases ty, 0, |v.elems| + 1
  {
    hide Here, ElemsHere, DecodeElems, Decode, Wf, WfElems, StuckAt, NoStructureArrays, Prefix, Returns, Ends, HasType, Encodable, WfType,
      ToJson, ElemsJson, ElemsEncodable, ElemsReturn;
    PrefixStep(toks, js, i);
    ArrayShape(ty, v);
    ArrayEnds(ty, v);
    var es := ElemsJson(ty, v, 0);
    JsonWf(ty, v);
    ValueToken(toks, js, i, s, Arr(es));
    ArrHere(toks, js, i, s, es);
    ElemsCount(ty, v, 0);
    ArrayIsElems(ty.elem, toks, js, i, depth);
    ElemsOutcome(ty, v, 0, toks, js, i + 1, s + 1, depth);
    assert v.elems[..0] == [];
  }

  // ---- Structures ----

  /** At a field that moves on, the loop goes on with the next one. */
  lemma LoopMoves(ty: Type, v: Value, k: nat, toks: seq<Jsmn.Token>, js: bytes, i: nat, s: nat,
                  vals: seq<Value>, found: seq<bool>, depth: nat) returns (s': nat)
    requires Spans(toks, js) && ty.Structure? && WfType(ty) && HasType(ty, v)
    requires k < |v.fields| && FieldsEncodable(ty, v, k) && Returns(ty.members[k].ty, v.fields[k])
    requires depth + Reach(ty, v) <= MAX_RECURSION + 1 && MembersHere(toks, js, i, s, FieldsJson(ty, v, k), k == 0)
    requires |vals| == |found| == |v.fields| && !found[k]
    ensures var j := i + 1 + Size(FieldsJson(ty, v, k).value);
            && FieldsLoop(ty.members, toks, js, i, k, |v.fields|, vals, found, depth)
                 == FieldsLoop(ty.members, toks, js, j, k + 1, |v.fields|, vals[k := v.fields[k]], found[k := true], depth)
            && MembersHere(toks, js, j, s', FieldsJson(ty, v, k + 1), false)
  {
    hide Here, MembersHere, Wf, WfMembers, ToJson, Decode, Encodable, HasType, Returns, WfType, FindEntry, EntryIndex, FieldsLoop;
    StructureShape(ty, v);
    var ms := FieldsJson(ty, v, k);
    FieldsJsonWf(ty, v, k);
    var s2 := MemberHere(toks, js, i, s, ms, k == 0);
    FieldReach(ty, v, k);
    EntryIs(ty.members, k);
    DecodesValue(ty.members[k].ty, v.fields[k], toks, js, i + 1, s2, depth);
    var e := Round(ty.members, ms, toks, js, i, s, k == 0, k, |v.fields|, vals, found, depth);
    s' := s2 + |Render(ms.value)|;
  }

  /** It takes no more than the weight of the field. */
  lemma MoveSpends(ty: Type, v: Value, k: nat, toks: seq<Jsmn.Token>, js: bytes, i: nat, s: nat, depth: nat)
    requires Spans(toks, js) && ty.Structure? && WfType(ty) && HasType(ty, v)
    requires k < |v.fields| && FieldsEncodable(ty, v, k) && Returns(ty.members[k].ty, v.fields[k])
    requires depth + Reach(ty, v) <= MAX_RECURSION + 1 && MembersHere(toks, js, i, s, FieldsJson(ty, v, k), k == 0)
    ensures var m := FieldsJson(ty, v, k);
            Prefix(toks, js, i + 1 + Size(m.value)) <= Prefix(toks, js, i) + MemberWeight(m.key, m.value)
  {
    hide Here, MembersHere, Wf, WfMembers, ToJson, Decode, Encodable, HasType, Returns, WfType, Prefix, MemberWeight;
    StructureShape(ty, v);
    var ms, fty, fv := FieldsJson(ty, v, k), ty.members[k].ty, v.fields[k];
    FieldsJsonWf(ty, v, k);
    var s2 := MemberHere(toks, js, i, s, ms, k == 0);
    FieldReach(ty, v, k);
    DecodesValue(fty, fv, toks, js, i + 1, s2, depth);
    DecodeSpends(fty, fv, toks, js, i + 1, depth);
    MemberSpends(ty.members[k], fv, toks, js, i, depth);
  }

  /** At a field whose decoder gets stuck, the loop ends there. */
  lemma LoopSticks(ty: Type, v: Value, k: nat, toks: seq<Jsmn.Token>, js: bytes, i: nat, s: nat,
                   vals: seq<Value>, found: seq<bool>, depth: nat)
    requires Spans(toks, js) && ty.Structure? && WfType(ty) && HasType(ty, v)
    requires k < |v.fields| && FieldsEncodable(ty, v, k)
    requires MembersHere(toks, js, i, s, FieldsJson(ty, v, k), k == 0)
    requires |vals| == |found| == |v.fields| && !found[k]
    requires var r := Decode(ty.members[k].ty, toks, js, i + 1, depth); r.Done? && StuckAt(toks, r.next)
    ensures var r := Decode(ty.members[k].ty, toks, js, i + 1, depth);
            FieldsLoop(ty.members, toks, js, i, k, |v.fields|, vals, found, depth)
              == FieldsDone(vals[k := r.value], found[k := true], r.next)
  {
    hide Here, MembersHere, Wf, WfMembers, ToJson, Decode, Encodable, HasType, WfType, FindEntry, JsonEq, EntryIndex, FieldsLoop, StuckAt;
    StructureShape(ty, v);
    var ms := FieldsJson(ty, v, k);
    FieldsJsonWf(ty, v, k);
    EntryIs(ty.members, k);
    var r := Decode(ty.members[k].ty, toks, js, i + 1, depth);
    var e := Round(ty.members, ms, toks, js, i, s, k == 0, k, |v.fields|, vals, found, depth);
    StuckMatchesNothing(toks, js, r.next);
    StuckInside(toks, r.next);
    UnknownTokenStops(ty.members, toks, js, r.next, k + 1, |v.fields|, vals[k := r.value], found[k := true], depth);
  }

  lemma StuckInside(toks: seq<Jsmn.Token>, i: nat)
    requires StuckAt(toks, i)
    ensures i < |toks|
  {
  }

  /** At a field whose decoder fails, the loop fails. */
  lemma LoopFails(ty: Type, v: Value, k: nat, toks: seq<Jsmn.Token>, js: bytes, i: nat, s: nat,
                  vals: seq<Value>, found: seq<bool>, depth: nat)
    requires Spans(toks, js) && ty.Structure? && WfType(ty) && HasType(ty, v)
    requires k < |v.fields| && FieldsEncodable(ty, v, k)
    requires MembersHere(toks, js, i, s, FieldsJson(ty, v, k), k == 0)
    requires |vals| == |found| == |v.fields| && !found[k]
    requires Decode(ty.members[k].ty, toks, js, i + 1, depth).Fail?
    ensures FieldsLoop(ty.members, toks, js, i, k, |v.fields|, vals, found, depth).FieldsFail?
  {
    hide Here, MembersHere, Wf, WfMembers, ToJson, Decode, Encodable, HasType, WfType, FindEntry, JsonEq, EntryIndex;
    StructureShape(ty, v);
    var ms := FieldsJson(ty, v, k);
    FieldsJsonWf(ty, v, k);
    EntryIs(ty.members, k);
    var s2 := MemberHere(toks, js, i, s, ms, k == 0);
    FindsEntry(ty.members, js, toks[i], k, ms.key);
  }

  predicate FieldsReturn(ty: Type, v: Value, k: nat, last: int)
    requires ty.Structure? && v.VStructure? && |v.fields| == |ty.members| && last <= |v.fields|
    requires forall e :: 0 <= e < |v.fields| ==> HasType(ty.members[e].ty, v.fields[e])
  {
    forall e :: k <= e < last ==> Returns(ty.members[e].ty, v.fields[e])
  }

  /** Where the dispatch loop ends that starts at field `k`, when not all fields from there on return. */
  ghost predicate LoopOutcome(ty: Type, v: Value, k: nat, toks: seq<Jsmn.Token>, js: bytes, i: nat, r: FieldsDecoded)
    requires Spans(toks, js) && ty.Structure? && HasType(ty, v) && v.VStructure? && k < |v.fields| == |ty.members| && FieldsEncodable(ty, v, k)
    requires forall e :: 0 <= e < |v.fields| ==> HasType(ty.members[e].ty, v.fields[e])
  {
    var end := i + MembersSize(FieldsJson(ty, v, k));
    var weight := MembersWeight(FieldsJson(ty, v, k));
    var last := |v.fields| - 1;
    if FieldsReturn(ty, v, k, last) && Ends(ty.members[last].ty, v.fields[last]) then
      && r.FieldsDone? && r.vals == v.fields && r.next == end - 1 && StuckAt(toks, r.next)
      && Prefix(toks, js, r.next) < Prefix(toks, js, i) + weight
    else
      && (NoStructureArrays(ty) ==> r.FieldsFail? || (r.next < end - 1 && StuckAt(toks, r.next)))
      && (r.FieldsDone? && r.vals == v.fields ==> Short(toks, js, i, r.next, weight, end))
  }

  /** The dispatch loop from field `k` on, the fields before it decoded. */
  lemma {:induction false} FieldsOutcome(ty: Type, v: Value, k: nat, toks: seq<Jsmn.Token>, js: bytes, i: nat, s: nat,
                                         vals: seq<Value>, found: seq<bool>, depth: nat)
    requires Spans(toks, js) && ty.Structure? && WfType(ty) && HasType(ty, v) && k < |v.fields|
    requires FieldsEncodable(ty, v, 0) && FieldsEncodable(ty, v, k)
    requires depth + Reach(ty, v) <= MAX_RECURSION + 1 && MembersHere(toks, js, i, s, FieldsJson(ty, v, k), k == 0)
    requires |vals| == |found| == |v.fields| && forall e :: 0 <= e < |found| ==> found[e] == (e < k)
    requires forall e :: 0 <= e < k ==> vals[e] == v.fields[e]
    requires !FieldsReturn(ty, v, k, |v.fields|)
    ensures LoopOutcome(ty, v, k, toks, js, i, FieldsLoop(ty.members, toks, js, i, k, |v.fields|, vals, found, depth))
    decreases ty, 0, |v.fields| - k
  {
    hide MembersHere, ToJson, Decode, Encodable, HasType, Returns, WfType, Ends, FindEntry, FieldsLoop, StuckAt, Here, Wf, WfMembers, Prefix,
      MemberWeight, NoStructureArrays;
    StructureShape(ty, v);
    var ms := FieldsJson(ty, v, k);
    var fty, fv := ty.members[k].ty, v.fields[k];
    if Returns(fty, fv) {
      var s' := LoopMoves(ty, v, k, toks, js, i, s, vals, found, depth);
      MoveSpends(ty, v, k, toks, js, i, s, depth);
      FieldsOutcome(ty, v, k + 1, toks, js, i + 1 + Size(ms.value), s', vals[k := fv], found[k := true], depth);
    } else {
      FieldsJsonWf(ty, v, k);
      var s2 := MemberHere(toks, js, i, s, ms, k == 0);
      FieldReach(ty, v, k);
      DecodesAny(fty, fv, toks, js, i + 1, s2, depth);
      EarlyField(ty, v, k, toks, js, i, s, vals, found, depth);
    }
  }

  /** At the first field that does not return. */
  lemma EarlyField(ty: Type, v: Value, k: nat, toks: seq<Jsmn.Token>, js: bytes, i: nat, s: nat,
                   vals: seq<Value>, found: seq<bool>, depth: nat)
    requires Spans(toks, js) && ty.Structure? && WfType(ty) && HasType(ty, v) && k < |v.fields|
    requires FieldsEncodable(ty, v, 0) && FieldsEncodable(ty, v, k)
    requires MembersHere(toks, js, i, s, FieldsJson(ty, v, k), k == 0)
    requires |vals| == |found| == |v.fields| && forall e :: 0 <= e < |found| ==> found[e] == (e < k)
    requires forall e :: 0 <= e < k ==> vals[e] == v.fields[e]
    requires HasType(ty.members[k].ty, v.fields[k]) && !Returns(ty.members[k].ty, v.fields[k])
    requires Outcome(ty.members[k].ty, v.fields[k], toks, js, i + 1, depth)
    ensures v.VStructure? && |v.fields| == |ty.members|
    ensures forall e :: 0 <= e < |v.fields| ==> HasType(ty.members[e].ty, v.fields[e])
    ensures LoopOutcome(ty, v, k, toks, js, i, FieldsLoop(ty.members, toks, js, i, k, |v.fields|, vals, found, depth))
  {
    hide MembersHere, ToJson, Decode, Encodable, HasType, Returns, WfType, Ends, FindEntry, FieldsLoop, StuckAt, Here, Wf, WfMembers, Prefix,
      MemberWeight;
    StructureShape(ty, v);
    var fty, fv := ty.members[k].ty, v.fields[k];
    RestMembers(ty, v, k + 1);
    ReturningTypes(fty, fv);
    NoNumber(ty.members[k], fv);
    PrefixStep(toks, js, i);
    var r := Decode(fty, toks, js, i + 1, depth);
    if r.Fail? {
      LoopFails(ty, v, k, toks, js, i, s, vals, found, depth);
    } else if StuckAt(toks, r.next) {
      LoopSticks(ty, v, k, toks, js, i, s, vals, found, depth);
      assert vals[k := r.value][k] == r.value;
      assert k == |v.fields| - 1 && r.value == fv ==> vals[k := fv] == v.fields;
    } else {
      ShortField(ty, v, k, toks, js, i, s, vals, found, depth);
    }
  }

  /** Behind a field whose decoder ended early, the other fields cannot make up for it. */
  lemma ShortField(ty: Type, v: Value, k: nat, toks: seq<Jsmn.Token>, js: bytes, i: nat, s: nat,
                   vals: seq<Value>, found: seq<bool>, depth: nat)
    requires Spans(toks, js) && ty.Structure? && WfType(ty) && HasType(ty, v)
    requires FieldsEncodable(ty, v, 0) && k < |v.fields| && FieldsEncodable(ty, v, k)
    requires MembersHere(toks, js, i, s, FieldsJson(ty, v, k), k == 0)
    requires |vals| == |found| == |v.fields| && forall e :: 0 <= e < |found| ==> found[e] == (e < k)
    requires var m := FieldsJson(ty, v, k);
             var r := Decode(ty.members[k].ty, toks, js, i + 1, depth);
             r.Done? && (r.value == v.fields[k] ==> Prefix(toks, js, r.next) <= Prefix(toks, js, i) + MemberWeight(m.key, m.value) - 2)
    ensures var r := FieldsLoop(ty.members, toks, js, i, k, |v.fields|, vals, found, depth);
            r.FieldsDone? && r.vals == v.fields ==> Prefix(toks, js, r.next) <= Prefix(toks, js, i) + MembersWeight(FieldsJson(ty, v, k)) - 2
  {
    hide Here, MembersHere, Wf, WfMembers, ToJson, Decode, Encodable, HasType, WfType, FindEntry, JsonEq, EntryIndex, FieldsLoop,
      Unspent, FieldCosts, Costs, Prefix, MemberWeight;
    StructureShape(ty, v);
    FieldsJsonWf(ty, v, k);
    EntryIs(ty.members, k);
    var ms := FieldsJson(ty, v, k);
    var e := Round(ty.members, ms, toks, js, i, s, k == 0, k, |v.fields|, vals, found, depth);
    var r := Decode(ty.members[k].ty, toks, js, i + 1, depth);
    var vals', found' := vals[k := r.value], found[k := true];
    FoundStays(ty.members, toks, js, r.next, k + 1, |v.fields|, vals', found', depth, k);
    FieldCostsHold(ty, v, toks, js, depth);
    LoopSpends(ty.members, toks, js, r.next, k + 1, |v.fields|, vals', found', depth, v.fields, FieldCosts(ty, v));
    UnspentSkips(FieldCosts(ty, v), found', 0, k + 1);
    UnspentIs(ty, v, found', k + 1);
  }

  lemma RestMembers(ty: Type, v: Value, k: nat)
    requires ty.Structure? && HasType(ty, v) && k <= |v.fields| && FieldsEncodable(ty, v, k)
    ensures k < |v.fields| ==> MembersSize(FieldsJson(ty, v, k)) > 0
    ensures k == |v.fields| ==> MembersSize(FieldsJson(ty, v, k)) == 0
  {
  }

  /** The decoder of a structure's object is its dispatch loop. */
  lemma StructureIsLoop(ty: Type, toks: seq<Jsmn.Token>, js: bytes, i: nat, depth: nat)
    requires Spans(toks, js) && ty.Structure? && |ty.members| > 0 && ty.members[0].name != [] && i + 1 < |toks| && depth <= MAX_RECURSION
    ensures var r := FieldsLoop(ty.members, toks, js, i + 1, 0, toks[i].size, Defaults(ty.members), seq(|ty.members|, _ => false), depth + 1);
            Decode(ty, toks, js, i, depth) == if r.FieldsFail? then Fail(r.status) else Done(VStructure(r.vals), r.next)
  {
    hide FieldsLoop;
  }

  /** What the fields say of the structure. */
  lemma StructureEnds(ty: Type, v: Value)
    requires ty.Structure? && HasType(ty, v) && Encodable(ty, v) && v.VStructure? && |v.fields| == |ty.members| > 0
    requires forall k :: 0 <= k < |v.fields| ==> HasType(ty.members[k].ty, v.fields[k])
    ensures FieldsEncodable(ty, v, 0) && FieldsJson(ty, v, 0).MoreMembers? && ToJson(ty, v) == Obj(FieldsJson(ty, v, 0))
    ensures Size(ToJson(ty, v)) == 1 + MembersSize(FieldsJson(ty, v, 0))
    ensures JsonWeight(ToJson(ty, v)) == 1 + MembersWeight(FieldsJson(ty, v, 0))
    ensures Returns(ty, v) <==> FieldsReturn(ty, v, 0, |v.fields|)
    ensures Ends(ty, v) <==>
      FieldsReturn(ty, v, 0, |v.fields| - 1) && Ends(ty.members[|v.fields| - 1].ty, v.fields[|v.fields| - 1])
  {
  }

  lemma StructureOutcome(ty: Type, v: Value, toks: seq<Jsmn.Token>, js: bytes, i: nat, s: nat, depth: nat)
    requires Spans(toks, js) && ty.Structure? && WfType(ty) && HasType(ty, v) && Encodable(ty, v) && !Returns(ty, v)
    requires depth + Reach(ty, v) <= MAX_RECURSION && Here(toks, js, i, s, ToJson(ty, v))
    ensures Outcome(ty, v, toks, js, i, depth)
    decreases ty, 0, |v.fields| + 1
  {
    hide Here, MembersHere, FieldsLoop, Decode, Wf, WfMembers, StuckAt, NoStructureArrays, WfType, HasType, Returns, Ends, Encodable,
      FieldsEncodable, FieldsJson, ToJson, FieldsReturn, Defaults, IsJsonNull, Prefix;
    StructureShape(ty, v);
    StructureEnds(ty, v);
    PrefixStep(toks, js, i);
    var ms := FieldsJson(ty, v, 0);
    FieldsJsonWf(ty, v, 0);
    WfToObj(ms);
    ObjectHere(toks, js, i, s, ms);
    var s2 := MemberHere(toks, js, i + 1, s + 1, ms, true);
    FieldsCount(ty, v, 0);
    StructureIsLoop(ty, toks, js, i, depth);
    FieldsOutcome(ty, v, 0, toks, js, i + 1, s + 1, Defaults(ty.members), seq(|ty.members|, _ => false), depth + 1);
  }

  lemma {:induction false} FieldsCount(ty: Type, v: Value, k: nat)
    requires ty.Structure? && HasType(ty, v) && k <= |v.fields| && FieldsEncodable(ty, v, k)
    ensures FieldsJson(ty, v, k).Count() == |v.fields| - k
    decreases |v.fields| - k
  {
    if k < |v.fields| { FieldsCount(ty, v, k + 1); }
  }

  // ---- Any value ----

  /** Its four tokens before the identifier's weigh four at most. */
  lemma EmptyOpaqueEnds(v: Value, toks: seq<Jsmn.Token>, js: bytes, i: nat, s: nat, depth: nat)
    requires Spans(toks, js) && HasType(Type.NodeId, v) && v.id == OpaqueId(Text([])) && Here(toks, js, i, s, ToJson(Type.NodeId, v))
    ensures Outcome(Type.NodeId, v, toks, js, i, depth)
  {
    hide Here, Decode, StuckAt, NodeIdMembers, Prefix, Weight, Size, JsonWeight;
    EmptyOpaqueOutcome(v.namespace, toks, js, i, s, depth);
    NodeIdWeight(v.namespace, v.id);
    PrefixStep(toks, js, i);
    PrefixStep(toks, js, i + 1);
    PrefixStep(toks, js, i + 2);
    PrefixStep(toks, js, i + 3);
  }

  lemma EmptyEnds(ty: Type, v: Value, toks: seq<Jsmn.Token>, js: bytes, i: nat, s: nat, depth: nat)
    requires Spans(toks, js) && HasType(ty, v) && Encodable(ty, v) && Here(toks, js, i, s, ToJson(ty, v))
    requires (ty.ByteString? && v.s == Text([])) || (ty.Array? && v.elems == [])
    ensures Outcome(ty, v, toks, js, i, depth)
  {
    hide Here, Decode, StuckAt, Prefix, ToJson;
    EmptyStays(ty, v, toks, js, i, s, depth);
  }

  lemma {:induction false} DecodesAny(ty: Type, v: Value, toks: seq<Jsmn.Token>, js: bytes, i: nat, s: nat, depth: nat)
    requires Spans(toks, js) && WfType(ty) && HasType(ty, v) && Encodable(ty, v)
    requires depth + Reach(ty, v) <= MAX_RECURSION && Here(toks, js, i, s, ToJson(ty, v))
    ensures Outcome(ty, v, toks, js, i, depth)
    decreases ty, 1, 0
  {
    hide Here, Decode, StuckAt, Prefix, ToJson, Encodable;
    if Returns(ty, v) {
      DecodesValue(ty, v, toks, js, i, s, depth);
      DecodeSpends(ty, v, toks, js, i, depth);
    } else {
      ReturningTypes(ty, v);
      if ty.NodeId? {
        EmptyOpaqueEnds(v, toks, js, i, s, depth);
      } else if ty.Structure? {
        StructureOutcome(ty, v, toks, js, i, s, depth);
      } else if ty.Array? && v.elems != [] {
        ArrayOutcome(ty, v, toks, js, i, s, depth);
      } else {
        EmptyEnds(ty, v, toks, js, i, s, depth);
      }
    }
  }

  /**
   The exact condition.  A value whose tree is an object or a string of at most a thousand tokens
   comes back from its text if and only if its decoders all move on or only the one of its very last
   part does not.  Otherwise, without arrays of structures, the text is refused.
   */
  lemma ReadsBack(ty: Type, v: Value)
    requires WfType(ty) && HasType(ty, v) && Encodable(ty, v) && Reach(ty, v) < MAX_RECURSION
    requires (ToJson(ty, v).Obj? || ToJson(ty, v).Str?) && Size(ToJson(ty, v)) <= 1000
    ensures DecodeJson(ty, TextOf(ty, v)) == Some(v) <==> Returns(ty, v) || Ends(ty, v)
    ensures !Returns(ty, v) && !Ends(ty, v) && NoStructureArrays(ty) ==> DecodeJson(ty, TextOf(ty, v)) == None
  {
    hide Render, Preorder, DecodeJson, Decode, Here, Wf, ToJson, StuckAt, Prefix, Returns, Ends, HasType, Encodable;
    var j := ToJson(ty, v);
    JsonWf(ty, v);
    DecodesTree(ty, j);
    var toks, js := Preorder(j, 0), Render(j);
    DecodesAny(ty, v, toks, js, 0, 0, 0);
    UniformJson(ty, v);
    TreeWeighs(toks, js, 0, 0, j);
    PrefixStep(toks, js, |toks| - 1);
  }
}
