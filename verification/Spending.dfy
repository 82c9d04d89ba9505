/**
 How many tokens a decoder uses up, wherever in whatever token array it starts: to yield a value it
 uses at most the weight the value is written with.  This needs no alignment of values and tokens.
 */
module Spending {
  import opened Bytes
  import opened JsonTree
  import opened TokenWalk
  import opened Decoder
  import opened RoundTrip
  import opened Weights
  import opened U = UaTypes
  import Base64
  import Itoa
  import Jsmn
  import ParseInteger
  import StringCodec

  // ---- Fields ----

  /** The key at this index and its value, if that is decoded, take at most `cost`. */
  ghost predicate Spends(m: U.Member, v: Value, toks: seq<Jsmn.Token>, js: bytes, i: nat, depth: nat, cost: nat)
    requires Spans(toks, js)
  {
    i < |toks| && JsonEq(js, toks[i], m.name) ==>
      var r := Decode(m.ty, toks, js, i + 1, depth);
      r.Done? && r.value == v ==> Prefix(toks, js, r.next) <= Prefix(toks, js, i) + cost
  }

  ghost predicate Costs(ms: seq<U.Member>, want: seq<Value>, toks: seq<Jsmn.Token>, js: bytes, depth: nat, costs: seq<nat>)
    requires Spans(toks, js)
  {
    |ms| == |want| == |costs|
    && forall k: nat, i: nat | k < |ms| :: Spends(ms[k], want[k], toks, js, i, depth, costs[k])
  }

  /** The costs of the members from `k` on that are not found yet. */
  function Unspent(costs: seq<nat>, found: seq<bool>, k: nat): nat
    requires |costs| == |found| && k <= |costs|
    decreases |costs| - k
  {
    if k == |costs| then 0 else (if found[k] then 0 else costs[k]) + Unspent(costs, found, k + 1)
  }

  lemma {:induction false} Spend(costs: seq<nat>, found: seq<bool>, e: nat, k: nat)
    requires |costs| == |found| && k <= |costs| && e < |costs| && !found[e]
    ensures Unspent(costs, found, k) == Unspent(costs, found[e := true], k) + (if k <= e then costs[e] else 0)
    decreases |costs| - k
  {
    if k < |costs| {
      Spend(costs, found, e, k + 1);
    }
  }

  /** What was found stays as it was decoded. */
  lemma {:induction false} FoundStays(ms: seq<U.Member>, toks: seq<Jsmn.Token>, js: bytes, i: nat, round: nat, count: nat,
                                      vals: seq<Value>, found: seq<bool>, depth: nat, e: nat)
    requires Spans(toks, js) && |ms| > 0 && |vals| == |found| == |ms| && e < |ms| && found[e]
    ensures var r := FieldsLoop(ms, toks, js, i, round, count, vals, found, depth); r.FieldsDone? ==> r.vals[e] == vals[e]
    decreases count - round
  {
    hide Decode, FindEntry;
    if round < count && i < |toks| {
      var f := FindEntry(ms, js, toks[i], round, round + |ms|);
      if f.None? {
        FoundStays(ms, toks, js, i, round + 1, count, vals, found, depth, e);
      } else if !found[f.value] && i + 1 < |toks| {
        var r := Decode(ms[f.value].ty, toks, js, i + 1, depth);
        if r.Done? {
          FoundStays(ms, toks, js, r.next, round + 1, count, vals[f.value := r.value], found[f.value := true], depth, e);
        }
      }
    }
  }

  /** A loop that yields the wanted values uses at most their costs. */
  lemma {:induction false} LoopSpends(ms: seq<U.Member>, toks: seq<Jsmn.Token>, js: bytes, i: nat, round: nat, count: nat,
                                      vals: seq<Value>, found: seq<bool>, depth: nat, want: seq<Value>, costs: seq<nat>)
    requires Spans(toks, js) && |ms| > 0 && |vals| == |found| == |ms| && Costs(ms, want, toks, js, depth, costs)
    ensures var r := FieldsLoop(ms, toks, js, i, round, count, vals, found, depth);
            r.FieldsDone? && r.vals == want ==> Prefix(toks, js, r.next) <= Prefix(toks, js, i) + Unspent(costs, found, 0)
    decreases count - round
  {
    hide Decode, FindEntry, Unspent, Costs, Prefix;
    if round < count && i < |toks| {
      var f := FindEntry(ms, js, toks[i], round, round + |ms|);
      if f.None? {
        LoopSpends(ms, toks, js, i, round + 1, count, vals, found, depth, want, costs);
      } else if !found[f.value] && i + 1 < |toks| {
        var e := f.value;
        var r := Decode(ms[e].ty, toks, js, i + 1, depth);
        if r.Done? {
          var vals', found' := vals[e := r.value], found[e := true];
          CostOf(ms, want, toks, js, depth, costs, e, i);
          Spend(costs, found, e, 0);
          FoundStays(ms, toks, js, r.next, round + 1, count, vals', found', depth, e);
          LoopSpends(ms, toks, js, r.next, round + 1, count, vals', found', depth, want, costs);
        }
      }
    }
  }

  lemma CostOf(ms: seq<U.Member>, want: seq<Value>, toks: seq<Jsmn.Token>, js: bytes, depth: nat, costs: seq<nat>, e: nat, i: nat)
    requires Spans(toks, js) && Costs(ms, want, toks, js, depth, costs) && e < |ms| && i < |toks| && JsonEq(js, toks[i], ms[e].name)
    ensures |costs| == |want| == |ms|
    ensures var r := Decode(ms[e].ty, toks, js, i + 1, depth);
            r.Done? && r.value == want[e] ==> Prefix(toks, js, r.next) <= Prefix(toks, js, i) + costs[e]
  {
    hide Decode, Prefix;
    assert Spends(ms[e], want[e], toks, js, i, depth, costs[e]);
  }

  lemma FieldsSpend(ms: seq<U.Member>, toks: seq<Jsmn.Token>, js: bytes, i: nat, depth: nat, want: seq<Value>, costs: seq<nat>)
    requires Spans(toks, js) && |ms| > 0 && ms[0].name != [] && Costs(ms, want, toks, js, depth, costs)
    ensures var r := DecodeFields(ms, toks, js, i, depth);
            r.FieldsDone? && r.vals == want ==>
              Prefix(toks, js, r.next) <= Prefix(toks, js, i) + 1 + Unspent(costs, seq(|ms|, _ => false), 0)
  {
    hide Decode, FieldsLoop, Costs, Unspent, Prefix;
    PrefixStep(toks, js, i);
    if i + 1 < |toks| {
      LoopSpends(ms, toks, js, i + 1, 0, toks[i].size, Defaults(ms), seq(|ms|, _ => false), depth, want, costs);
    }
  }

  // ---- One member ----

  /** A leaf takes its token, or none. */
  lemma LeafSpends(ty: Type, toks: seq<Jsmn.Token>, js: bytes, i: nat)
    requires Spans(toks, js)
    ensures var r := DecodeLeaf(ty, toks, js, i); r.Done? ==> Prefix(toks, js, r.next) <= Prefix(toks, js, i) + 1
  {
    hide Prefix, TokenText, IsJsonNull, ParseInteger.UnsignedOf, ParseInteger.SignedOf, CastUnsigned, CastSigned, GuidChars, GuidFromChars,
      Base64.Decode, StringCodec.Unescape, Weight;
    PrefixStep(toks, js, i);
  }

  /** Where a number is decoded there is one. */
  lemma DecodesNumber(ty: Type, toks: seq<Jsmn.Token>, js: bytes, i: nat)
    requires Spans(toks, js) && (ty.Unsigned? || ty.Signed?) && ty.bits != 64 && DecodeLeaf(ty, toks, js, i).Done?
    ensures NumberAt(toks, js, i) && DecodeLeaf(ty, toks, js, i).next == i + 1
  {
    hide ParseInteger.UnsignedOf, ParseInteger.SignedOf, CastUnsigned, CastSigned;
    if ty.Signed? { SignedIsNumber(TokenText(js, toks[i])); }
  }

  /** The key of a namespace and its number weigh nothing. */
  lemma PairSpends(ty: Type, name: bytes, toks: seq<Jsmn.Token>, js: bytes, i: nat)
    requires Spans(toks, js) && (ty.Unsigned? || ty.Signed?) && ty.bits != 64 && DecodeLeaf(ty, toks, js, i + 1).Done?
    requires i < |toks| && JsonEq(js, toks[i], name) && NamespaceKey(name)
    ensures Prefix(toks, js, DecodeLeaf(ty, toks, js, i + 1).next) <= Prefix(toks, js, i)
  {
    hide Prefix, NumberAt, DecodeLeaf;
    DecodesNumber(ty, toks, js, i + 1);
    PrefixStep(toks, js, i);
    PrefixStep(toks, js, i + 1);
  }

  lemma MemberSpends(m: U.Member, v: Value, toks: seq<Jsmn.Token>, js: bytes, i: nat, depth: nat)
    requires Spans(toks, js) && HasType(m.ty, v) && Encodable(m.ty, v)
    requires var r := Decode(m.ty, toks, js, i + 1, depth);
             r.Done? && r.value == v ==> Prefix(toks, js, r.next) <= Prefix(toks, js, i + 1) + JsonWeight(ToJson(m.ty, v))
    ensures Spends(m, v, toks, js, i, depth, MemberWeight(m.name, ToJson(m.ty, v)))
  {
    hide Prefix, DecodeLeaf, ToJson, HasType, Encodable, NumberPrim, NamespaceKey;
    PrefixStep(toks, js, i);
    if NamespaceKey(m.name) && NumberPrim(ToJson(m.ty, v)) {
      NumbersAreIntegers(m.ty, v);
      if i < |toks| && JsonEq(js, toks[i], m.name) && Decode(m.ty, toks, js, i + 1, depth).Done? {
        PairSpends(m.ty, m.name, toks, js, i);
      }
    }
  }

  // ---- Built-in objects ----

  /** A member with a leaf value takes two, a namespace nothing. */
  lemma LeafMemberSpends(m: U.Member, v: Value, toks: seq<Jsmn.Token>, js: bytes, i: nat, depth: nat)
    requires Spans(toks, js) && IsLeaf(m.ty)
    ensures Spends(m, v, toks, js, i, depth, if NamespaceKey(m.name) && m.ty == Unsigned(16) then 0 else 2)
  {
    hide Prefix, DecodeLeaf, NamespaceKey;
    PrefixStep(toks, js, i);
    LeafSpends(m.ty, toks, js, i + 1);
    if i < |toks| && JsonEq(js, toks[i], m.name) && Decode(m.ty, toks, js, i + 1, depth).Done?
       && NamespaceKey(m.name) && m.ty == Unsigned(16) {
      PairSpends(m.ty, m.name, toks, js, i);
    }
  }

  lemma LeavesSpend(ms: seq<U.Member>, toks: seq<Jsmn.Token>, js: bytes, depth: nat, want: seq<Value>, costs: seq<nat>)
    requires Spans(toks, js) && |ms| == |want| == |costs|
    requires forall k :: 0 <= k < |ms| ==>
      IsLeaf(ms[k].ty) && costs[k] == if NamespaceKey(ms[k].name) && ms[k].ty == Unsigned(16) then 0 else 2
    ensures Costs(ms, want, toks, js, depth, costs)
  {
    hide Spends;
    forall k: nat, i: nat | k < |ms| ensures Spends(ms[k], want[k], toks, js, i, depth, costs[k]) {
      LeafMemberSpends(ms[k], want[k], toks, js, i, depth);
    }
  }

  lemma UnspentFirst(costs: seq<nat>, k: nat)
    requires k < |costs|
    ensures Unspent(costs, seq(|costs|, _ => false), k) == costs[k] + Unspent(costs, seq(|costs|, _ => false), k + 1)
    ensures Unspent(costs, seq(|costs|, _ => false), |costs|) == 0
  {
  }

  lemma TwoMembersSpend(ms: seq<U.Member>, cost: nat, toks: seq<Jsmn.Token>, js: bytes, i: nat, depth: nat)
    requires Spans(toks, js) && |ms| == 2 && ms[0].name != [] && ms[0].ty.String? && IsLeaf(ms[1].ty)
    requires cost == if NamespaceKey(ms[1].name) && ms[1].ty == Unsigned(16) then 0 else 2
    ensures var r := DecodeFields(ms, toks, js, i, depth);
            r.FieldsDone? ==> Prefix(toks, js, r.next) <= Prefix(toks, js, i) + 3 + cost
  {
    hide DecodeFields, Prefix, Costs, Unspent;
    var r := DecodeFields(ms, toks, js, i, depth);
    if r.FieldsDone? {
      LeavesSpend(ms, toks, js, depth, r.vals, [2, cost]);
      FieldsSpend(ms, toks, js, i, depth, r.vals, [2, cost]);
      UnspentFirst([2, cost], 0);
      UnspentFirst([2, cost], 1);
    }
  }

  predicate StringOrGuid(v: Value) { v.VString? || v.VGuid? }

  /** What the entry of such an identifier holds, from the zeroed value on. */
  lemma {:induction false} HoldsIt(ms: seq<U.Member>, toks: seq<Jsmn.Token>, js: bytes, i: nat, round: nat, count: nat,
                                   vals: seq<Value>, found: seq<bool>, depth: nat, e: nat)
    requires Spans(toks, js) && |vals| == |found| == |ms| && e < |ms| && StringOrGuid(vals[e])
    requires ms[e].ty.String? || ms[e].ty.ByteString? || ms[e].ty.GuidType?
    ensures var r := FieldsLoop(ms, toks, js, i, round, count, vals, found, depth); r.FieldsDone? ==> StringOrGuid(r.vals[e])
    decreases count - round
  {
    hide FindEntry, DecodeLeaf;
    if round < count && i < |toks| {
      var f := FindEntry(ms, js, toks[i], round, round + |ms|);
      if f.None? {
        HoldsIt(ms, toks, js, i, round + 1, count, vals, found, depth, e);
      } else if !found[f.value] && i + 1 < |toks| {
        var r := Decode(ms[f.value].ty, toks, js, i + 1, depth);
        if r.Done? {
          LeafKind(ms[e].ty, toks, js, i + 1);
          HoldsIt(ms, toks, js, r.next, round + 1, count, vals[f.value := r.value], found[f.value := true], depth, e);
        }
      }
    }
  }

  lemma LeafKind(ty: Type, toks: seq<Jsmn.Token>, js: bytes, i: nat)
    requires Spans(toks, js) && (ty.String? || ty.ByteString? || ty.GuidType?)
    ensures var r := DecodeLeaf(ty, toks, js, i); r.Done? ==> StringOrGuid(r.value)
  {
  }

  ghost function IdCosts(idType: Type, hasNamespace: bool): (c: seq<nat>)
    ensures |c| == |NodeIdEntries(idType, hasNamespace)|
  {
    (if idType.Unsigned? then [2] else [2, 2]) + (if hasNamespace then [0] else [])
  }

  lemma IdCostsSum(idType: Type, hasNamespace: bool)
    ensures var c := IdCosts(idType, hasNamespace);
            Unspent(c, seq(|c|, _ => false), 0) == if idType.Unsigned? then 2 else 4
  {
    hide Unspent;
    var c := IdCosts(idType, hasNamespace);
    UnspentFirst(c, 0);
    if |c| > 1 { UnspentFirst(c, 1); }
    if |c| > 2 { UnspentFirst(c, 2); }
  }

  /** The members of a NodeId; one whose identifier is not numeric may take more. */
  lemma NodeIdFieldsSpend(idType: Type, hasNamespace: bool, toks: seq<Jsmn.Token>, js: bytes, i: nat, depth: nat)
    requires Spans(toks, js) && (idType == Unsigned(32) || idType.String? || idType.ByteString? || idType.GuidType?)
    ensures var r := DecodeFields(NodeIdEntries(idType, hasNamespace), toks, js, i, depth);
            r.FieldsDone? ==>
              && Prefix(toks, js, r.next) <= Prefix(toks, js, i) + (if idType.Unsigned? then 3 else 5)
              && (!idType.Unsigned? ==> StringOrGuid(r.vals[0]))
  {
    hide Prefix, Costs, Unspent, FieldsLoop;
    var ms := NodeIdEntries(idType, hasNamespace);
    var r := DecodeFields(ms, toks, js, i, depth);
    if r.FieldsDone? {
      var costs := IdCosts(idType, hasNamespace);
      LeavesSpend(ms, toks, js, depth, r.vals, costs);
      FieldsSpend(ms, toks, js, i, depth, r.vals, costs);
      IdCostsSum(idType, hasNamespace);
      if !idType.Unsigned? {
        DefaultsAt(ms, 0);
        HoldsIt(ms, toks, js, i + 1, 0, toks[i].size, Defaults(ms), seq(|ms|, _ => false), depth, 0);
      }
    }
  }

  lemma IdTypes(toks: seq<Jsmn.Token>, js: bytes, i: nat)
    requires Spans(toks, js) && IdTypeOf(toks, js, i).Some?
    ensures var ty := IdTypeOf(toks, js, i).value; ty == Unsigned(32) || ty.String? || ty.ByteString? || ty.GuidType?
  {
    hide SearchKey;
  }

  lemma NodeIdSpends(v: Value, toks: seq<Jsmn.Token>, js: bytes, i: nat, depth: nat)
    requires Spans(toks, js) && v.VNodeId?
    ensures var r := Decode(Type.NodeId, toks, js, i, depth);
            r.Done? && r.value == v ==> Prefix(toks, js, r.next) <= Prefix(toks, js, i) + if v.id.Numeric? then 3 else 5
  {
    hide DecodeFields, Prefix, IdTypeOf, SearchKey, IsJsonNull, NodeIdEntries;
    PrefixStep(toks, js, i);
    var idType := IdTypeOf(toks, js, i);
    if idType.Some? {
      IdTypes(toks, js, i);
      NodeIdFieldsSpend(idType.value, SearchKey(toks, js, KEY_NAMESPACE, i, 0).status == Good, toks, js, i, depth);
    }
  }

  lemma NodeIdWeight(ns: nat, id: Identifier)
    requires ns < 0x1_0000 && ValidId(id) && (id.StringId? ==> Escapes(id.s))
    ensures JsonWeight(Obj(NodeIdMembers(ns, id))) == if id.Numeric? then 3 else 5
  {
    hide StringJson, ByteStringJson, NamespaceMembers, NumberPrim, MembersWeight, Itoa.Numeral, GuidText;
    NamespaceWeight(KEY_NAMESPACE, ns);
    var tail := NamespaceMembers(KEY_NAMESPACE, ns);
    LeafWeights(id);
    MemberStep(KEY_ID, IdJson(id), tail);
    if !id.Numeric? {
      MemberStep(KEY_IDTYPE, NodeIdMembers(ns, id).value, MoreMembers(KEY_ID, IdJson(id), tail));
    }
  }

  lemma LeafWeights(id: Identifier)
    requires ValidId(id) && (id.StringId? ==> Escapes(id.s))
    ensures JsonWeight(IdJson(id)) == 1
  {
  }

  lemma MemberStep(key: bytes, v: Json, rest: Members)
    ensures MembersWeight(MoreMembers(key, v, rest)) == MemberWeight(key, v) + MembersWeight(rest)
  {
  }

  lemma NamespaceWeight(key: bytes, ns: nat)
    requires NamespaceKey(key) && ns < 0x1_0000
    ensures MembersWeight(NamespaceMembers(key, ns)) == 0
  {
    hide Itoa.Numeral;
    if ns > 0 { ParseInteger.UnsignedReadBack(ns); }
  }

  lemma QualifiedNameWeight(name: UaString, ns: nat)
    requires ns < 0x1_0000 && Escapes(name)
    ensures JsonWeight(Obj(QualifiedNameMembers(name, ns))) == 3
  {
    hide NamespaceMembers, NumberPrim;
    NamespaceWeight(KEY_URI, ns);
    assert JsonWeight(StringJson(name)) == 1;
  }

  lemma LocalizedTextWeight(locale: UaString, text: UaString)
    requires Escapes(locale) && Escapes(text)
    ensures JsonWeight(Obj(LocalizedTextMembers(locale, text))) == 5
  {
    hide NumberPrim;
    assert JsonWeight(StringJson(locale)) == 1 && JsonWeight(StringJson(text)) == 1;
    assert MembersWeight(MoreMembers(KEY_TEXT, StringJson(text), NoMembers)) == 2;
  }

  // ---- Elements ----

  lemma {:induction false} ElemsKeep(elem: Type, toks: seq<Jsmn.Token>, js: bytes, i: nat, n: nat, acc: seq<Value>, depth: nat)
    requires Spans(toks, js)
    ensures var r := DecodeElems(elem, toks, js, i, n, acc, depth);
            r.Done? ==> r.value.VArray? && |r.value.elems| == |acc| + n && acc <= r.value.elems
    decreases n
  {
    hide Decode;
    if n > 0 {
      var r := Decode(elem, toks, js, i, depth);
      if r.Done? {
        ElemsKeep(elem, toks, js, r.next, n - 1, acc + [r.value], depth);
      }
    }
  }

  lemma {:induction false} ElemsSpend(ty: Type, v: Value, k: nat, toks: seq<Jsmn.Token>, js: bytes, i: nat, depth: nat)
    requires Spans(toks, js) && ty.Array? && WfType(ty) && HasType(ty, v) && k <= |v.elems| && ElemsEncodable(ty, v, k)
    ensures var r := DecodeElems(ty.elem, toks, js, i, |v.elems| - k, v.elems[..k], depth);
            r.Done? && r.value == v ==> Prefix(toks, js, r.next) <= Prefix(toks, js, i) + ElemsWeight(ElemsJson(ty, v, k))
    decreases ty, 0, |v.elems| - k
  {
    hide Decode, ToJson, Encodable, HasType, WfType, Prefix;
    ArrayShape(ty, v);
    if k < |v.elems| {
      var r := Decode(ty.elem, toks, js, i, depth);
      if r.Done? {
        ElemsKeep(ty.elem, toks, js, r.next, |v.elems| - k - 1, v.elems[..k] + [r.value], depth);
        if r.value == v.elems[k] {
          assert v.elems[..k] + [r.value] == v.elems[..k + 1];
          DecodeSpends(ty.elem, v.elems[k], toks, js, i, depth);
          ElemsSpend(ty, v, k + 1, toks, js, r.next, depth);
        } else {
          assert (v.elems[..k] + [r.value])[k] != v.elems[k];
        }
      }
    }
  }

  // ---- Structures ----

  /** The weights of the fields as they are written. */
  ghost function FieldCosts(ty: Type, v: Value): (c: seq<nat>)
    requires ty.Structure? && HasType(ty, v) && FieldsEncodable(ty, v, 0)
    ensures |c| == |ty.members|
  {
    FieldsAreEncodable(ty, v, 0);
    seq(|ty.members|, k requires 0 <= k < |ty.members| => MemberWeight(ty.members[k].name, ToJson(ty.members[k].ty, v.fields[k])))
  }

  lemma {:induction false} UnspentIs(ty: Type, v: Value, found: seq<bool>, k: nat)
    requires ty.Structure? && HasType(ty, v) && FieldsEncodable(ty, v, 0) && |found| == |ty.members| && k <= |found|
    requires FieldsEncodable(ty, v, k) && forall e :: k <= e < |found| ==> !found[e]
    ensures Unspent(FieldCosts(ty, v), found, k) == MembersWeight(FieldsJson(ty, v, k))
    decreases |found| - k
  {
    if k < |found| { UnspentIs(ty, v, found, k + 1); }
  }

  /** Members found already cost nothing. */
  lemma {:induction false} UnspentSkips(costs: seq<nat>, found: seq<bool>, j: nat, k: nat)
    requires |costs| == |found| && j <= k <= |costs| && forall e :: j <= e < k ==> found[e]
    ensures Unspent(costs, found, j) == Unspent(costs, found, k)
    decreases k - j
  {
    if j < k { UnspentSkips(costs, found, j + 1, k); }
  }

  lemma {:induction false} FieldCostsHold(ty: Type, v: Value, toks: seq<Jsmn.Token>, js: bytes, depth: nat)
    requires Spans(toks, js) && ty.Structure? && WfType(ty) && HasType(ty, v) && FieldsEncodable(ty, v, 0)
    ensures v.VStructure? && Costs(ty.members, v.fields, toks, js, depth, FieldCosts(ty, v))
    decreases ty, 0, 0
  {
    hide Decode, ToJson, Encodable, HasType, WfType, Spends, MemberWeight, Prefix;
    StructureShape(ty, v);
    FieldsAreEncodable(ty, v, 0);
    forall k: nat, i: nat | k < |ty.members|
      ensures Spends(ty.members[k], v.fields[k], toks, js, i, depth, FieldCosts(ty, v)[k])
    {
      DecodeSpends(ty.members[k].ty, v.fields[k], toks, js, i + 1, depth);
      MemberSpends(ty.members[k], v.fields[k], toks, js, i, depth);
    }
  }

  // ---- Any value ----

  /** To yield a value, its decoder uses at most the weight the value is written with. */
  lemma {:induction false} DecodeSpends(ty: Type, v: Value, toks: seq<Jsmn.Token>, js: bytes, i: nat, depth: nat)
    requires Spans(toks, js) && WfType(ty) && HasType(ty, v) && Encodable(ty, v)
    ensures var r := Decode(ty, toks, js, i, depth);
            r.Done? && r.value == v ==> Prefix(toks, js, r.next) <= Prefix(toks, js, i) + JsonWeight(ToJson(ty, v))
    decreases ty, 1, 0
  {
    hide DecodeFields, DecodeElems, DecodeLeaf, FieldCosts, Unspent, Costs, StringJson, TokenText, IsJsonNull, Prefix, NodeIdMembers,
      NamespaceMembers, MembersWeight, SearchKey, IdTypeOf;
    PrefixStep(toks, js, i);
    match ty {
      case NodeId =>
        NodeIdSpends(v, toks, js, i, depth);
        NodeIdWeight(v.namespace, v.id);
      case QualifiedName =>
        TwoMembersSpend(QUALIFIED_NAME, 0, toks, js, i, depth);
        QualifiedNameWeight(v.name, v.namespace);
      case LocalizedText =>
        TwoMembersSpend(LOCALIZED_TEXT, 2, toks, js, i, depth);
        LocalizedTextWeight(v.locale, v.text);
      case Array(elem) =>
        if i < |toks| {
          ElemsKeep(elem, toks, js, i + 1, toks[i].size, [], depth);
          ElemsSpend(ty, v, 0, toks, js, i + 1, depth);
          assert v.elems[..0] == [];
        }
      case Structure(ms) =>
        StructureShape(ty, v);
        FieldCostsHold(ty, v, toks, js, depth + 1);
        FieldsSpend(ms, toks, js, i, depth + 1, v.fields, FieldCosts(ty, v));
        UnspentIs(ty, v, seq(|ms|, _ => false), 0);
      case _ => LeafSpends(ty, toks, js, i);
    }
  }
}
