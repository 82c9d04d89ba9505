/**
 Objects with a key the type does not know.  Among structures inside structures that do not know it
 either, the text is never accepted; below an array of structures, or when a structure around knows
 the key, it can pass unnoticed.
 */
module UnknownKeys {
  import opened Bytes
  import opened JsonTree
  import opened TokenWalk
  import opened Decoder
  import opened EndToEnd
  import opened FieldDispatch
  import opened ReadBack
  import opened RoundTrip
  import opened U = UaTypes
  import Jsmn
  import StringCodec

  // ---- Structures in structures ----

  /** A token at which no dispatch loop goes on that does not know the key. */
  ghost predicate Off(toks: seq<Jsmn.Token>, js: bytes, t: nat, u: bytes)
    requires Spans(toks, js)
  {
    StuckAt(toks, t) || (t < |toks| && JsonEq(js, toks[t], u))
  }

  /** The decoder fails, or ends just past the tree, or stays inside on such a token. */
  ghost predicate Settles(ty: Type, j: Json, u: bytes, toks: seq<Jsmn.Token>, js: bytes, i: nat, depth: nat)
    requires Spans(toks, js)
  {
    var r := Decode(ty, toks, js, i, depth);
    r.Fail? || r.next == i + Size(j) || (r.next < i + Size(j) && Off(toks, js, r.next, u))
  }

  predicate Names(ms: seq<U.Member>) { |ms| > 0 && DistinctNames(ms) && forall e :: 0 <= e < |ms| ==> ms[e].name != [] }

  /** An object for a structure that does not know the key. */
  predicate Nest(ty: Type, j: Json, u: bytes) {
    ty.Structure? && Names(ty.members) && j.Obj? && EntryIndex(ty.members, u) == |ty.members|
  }

  /** Up to the key `u`, every key is known, and what is no such object is settled by its decoder. */
  ghost predicate Placed(ty: Type, j: Json, u: bytes, toks: seq<Jsmn.Token>, js: bytes, i: nat, depth: nat)
    requires Spans(toks, js)
    decreases j, 1
  {
    if Nest(ty, j, u) then PlacedMembers(ty.members, j.members, u, toks, js, i + 1, depth + 1) else Settles(ty, j, u, toks, js, i, depth)
  }

  ghost predicate PlacedMembers(ents: seq<U.Member>, ms: Members, u: bytes, toks: seq<Jsmn.Token>, js: bytes, i: nat, depth: nat)
    requires Spans(toks, js)
    decreases ms, 0
  {
    match ms
    case NoMembers => true
    case MoreMembers(k, v, rest) =>
      var e := EntryIndex(ents, k);
      k == u
      || (e < |ents| && Placed(ents[e].ty, v, u, toks, js, i + 1, depth)
          && (var r := Decode(ents[e].ty, toks, js, i + 1, depth);
              r.Done? && r.next == i + 1 + Size(v) ==> PlacedMembers(ents, rest, u, toks, js, i + 1 + Size(v), depth)))
  }

  /** The key is there, in the object or in one of those inside. */
  predicate Seen(ty: Type, j: Json, u: bytes)
    decreases j, 1
  {
    Nest(ty, j, u) && SeenMembers(ty.members, j.members, u)
  }

  predicate SeenMembers(ents: seq<U.Member>, ms: Members, u: bytes)
    decreases ms, 0
  {
    match ms
    case NoMembers => false
    case MoreMembers(k, v, rest) =>
      var e := EntryIndex(ents, k);
      k == u || (e < |ents| && Seen(ents[e].ty, v, u)) || SeenMembers(ents, rest, u)
  }

  lemma OffMatchesNothing(ents: seq<U.Member>, u: bytes, toks: seq<Jsmn.Token>, js: bytes, t: nat)
    requires Spans(toks, js) && Off(toks, js, t, u) && Names(ents) && EntryIndex(ents, u) == |ents|
    ensures t < |toks| && forall e :: 0 <= e < |ents| ==> !JsonEq(js, toks[t], ents[e].name)
  {
    if StuckAt(toks, t) { StuckMatchesNothing(toks, js, t); }
  }

  lemma {:induction false} PlacedOutcome(ty: Type, j: Json, u: bytes, toks: seq<Jsmn.Token>, js: bytes, i: nat, s: nat, depth: nat)
    requires Spans(toks, js) && Wf(j) && Here(toks, js, i, s, j) && Placed(ty, j, u, toks, js, i, depth)
    ensures Settles(ty, j, u, toks, js, i, depth)
    ensures var r := Decode(ty, toks, js, i, depth); Seen(ty, j, u) ==> r.Fail? || r.next <= i + Size(j) - 2
    decreases j, 1
  {
    hide Decode, Here, MembersHere, FieldsLoop, PlacedMembers, SeenMembers, Off, Wf, WfMembers, EntryIndex, Defaults, IsJsonNull;
    if Nest(ty, j, u) {
      var ms := j.members;
      WfObj(ms);
      ObjectHere(toks, js, i, s, ms);
      NestDecodes(ty, ms, u, toks, js, i, depth);
      if i + 1 < |toks| && depth <= MAX_RECURSION {
        var vals, found := Defaults(ty.members), seq(|ty.members|, _ => false);
        UnknownKeyLeavesTokens(ty.members, ms, u, toks, js, i + 1, s + 1, true, 0, vals, found, depth + 1);
      }
    }
  }

  /** The decoder of such an object is its dispatch loop, or fails. */
  lemma NestDecodes(ty: Type, ms: Members, u: bytes, toks: seq<Jsmn.Token>, js: bytes, i: nat, depth: nat)
    requires Spans(toks, js) && Nest(ty, Obj(ms), u) && i < |toks| && toks[i].size == ms.Count()
    ensures var d := Decode(ty, toks, js, i, depth);
            d.Fail?
            || (i + 1 < |toks| && depth <= MAX_RECURSION
                && var vals, found := Defaults(ty.members), seq(|ty.members|, _ => false);
                   var r := FieldsLoop(ty.members, toks, js, i + 1, 0, ms.Count(), vals, found, depth + 1);
                   r.FieldsDone? && d.next == r.next)
  {
    hide FieldsLoop, EntryIndex;
    if i + 1 < |toks| && depth <= MAX_RECURSION { StructureIsLoop(ty, toks, js, i, depth); }
  }

  /** The dispatch loop: it fails, or ends past the members, or on such a token; with the key inside at least two tokens are left. */
  lemma {:induction false} UnknownKeyLeavesTokens(ents: seq<U.Member>, ms: Members, u: bytes, toks: seq<Jsmn.Token>, js: bytes, i: nat, s: nat,
                                                  first: bool, round: nat, vals: seq<U.Value>, found: seq<bool>, depth: nat)
    requires Spans(toks, js) && Names(ents) && EntryIndex(ents, u) == |ents| && |vals| == |found| == |ents|
    requires WfMembers(ms) && MembersHere(toks, js, i, s, ms, first) && PlacedMembers(ents, ms, u, toks, js, i, depth)
    ensures var r := FieldsLoop(ents, toks, js, i, round, round + ms.Count(), vals, found, depth);
            var end := i + MembersSize(ms);
            && (r.FieldsFail? || r.next == end || (r.next < end && Off(toks, js, r.next, u)))
            && (SeenMembers(ents, ms, u) ==> r.FieldsFail? || r.next <= end - 2)
    decreases ms, 0
  {
    hide Decode, FindEntry, Here, MembersHere, FieldsLoop, EntryIndex, Off, Wf, Placed, Seen, JsonEq;
    match ms {
      case NoMembers => NothingLeft(ents, toks, js, i, round, vals, found, depth);
      case MoreMembers(k, v, rest) =>
        var count := round + ms.Count();
        SizeAtLeastOne(v);
        var s2 := MemberHere(toks, js, i, s, ms, first);
        if k == u {
          UnknownKeyStops(ents, ms, toks, js, i, s, first, round, count, vals, found, depth);
          KeyIsOff(toks, js, i, u);
        } else {
          WfRest(ms);
          var e := EntryIndex(ents, k);
          PlacedOutcome(ents[e].ty, v, u, toks, js, i + 1, s2, depth);
          var r := Decode(ents[e].ty, toks, js, i + 1, depth);
          if r.Fail? {
            RoundFails(ents, ms, toks, js, i, s, first, round, count, vals, found, depth);
          } else {
            var f := Round(ents, ms, toks, js, i, s, first, round, count, vals, found, depth);
            if !found[e] {
              var vals', found' := vals[e := r.value], found[e := true];
              SeenTwo(ents, rest, u);
              if r.next == i + 1 + Size(v) {
                UnknownKeyLeavesTokens(ents, rest, u, toks, js, r.next, s2 + |Render(v)|, false, round + 1, vals', found', depth);
              } else {
                OffMatchesNothing(ents, u, toks, js, r.next);
                UnknownTokenStops(ents, toks, js, r.next, round + 1, count, vals', found', depth);
              }
            }
          }
        }
    }
  }

  lemma NothingLeft(ents: seq<U.Member>, toks: seq<Jsmn.Token>, js: bytes, i: nat, round: nat,
                    vals: seq<U.Value>, found: seq<bool>, depth: nat)
    requires Spans(toks, js) && |vals| == |found| == |ents| > 0
    ensures FieldsLoop(ents, toks, js, i, round, round, vals, found, depth) == FieldsDone(vals, found, i)
  {
  }

  lemma KeyIsOff(toks: seq<Jsmn.Token>, js: bytes, i: nat, u: bytes)
    requires Spans(toks, js) && i < |toks| && toks[i].typ.String? && TokenText(js, toks[i]) == u
    ensures Off(toks, js, i, u)
  {
  }

  /** The key and its value are two tokens at least. */
  lemma {:induction false} SeenTwo(ents: seq<U.Member>, ms: Members, u: bytes)
    ensures SeenMembers(ents, ms, u) ==> MembersSize(ms) >= 2
  {
    if ms.MoreMembers? { SizeAtLeastOne(ms.value); }
  }

  /**
   An unknown key, whether at the root or in structures inside: if no structure around it knows the
   key and the decoders of what comes before it settle, the text is not accepted.
   */
  lemma UnknownKey(ty: Type, j: Json, u: bytes)
    requires Wf(j) && Seen(ty, j, u)
    requires Size(j) <= MAX_TOKENS ==> Spans(Preorder(j, 0), Render(j)) && Placed(ty, j, u, Preorder(j, 0), Render(j), 0, 0)
    ensures DecodeJson(ty, Render(j)) == None
  {
    hide Render, Preorder, DecodeJson, Decode, Here, Placed, SeenMembers;
    DecodesTree(ty, j);
    if Size(j) <= MAX_TOKENS {
      PlacedOutcome(ty, j, u, Preorder(j, 0), Render(j), 0, 0, 0);
    }
  }

  /** The tree of a value, but with the key in some of its structures, and members in any order or missing. */
  ghost predicate Typed(ty: Type, j: Json, u: bytes)
    decreases j, 1
  {
    if Nest(ty, j, u) then TypedMembers(ty.members, j.members, u)
    else exists v :: HasType(ty, v) && Encodable(ty, v) && j == ToJson(ty, v)
  }

  ghost predicate TypedMembers(ents: seq<U.Member>, ms: Members, u: bytes)
    decreases ms, 0
  {
    match ms
    case NoMembers => true
    case MoreMembers(k, v, rest) =>
      var e := EntryIndex(ents, k);
      (k == u || (e < |ents| && Typed(ents[e].ty, v, u))) && TypedMembers(ents, rest, u)
  }

  lemma {:induction false} TypedIsPlaced(ty: Type, j: Json, u: bytes, toks: seq<Jsmn.Token>, js: bytes, i: nat, s: nat, depth: nat)
    requires Spans(toks, js) && Wf(j) && Here(toks, js, i, s, j) && Typed(ty, j, u)
    requires WfType(ty) && NoStructureArrays(ty) && depth + Depth(ty) <= MAX_RECURSION
    ensures Placed(ty, j, u, toks, js, i, depth)
    decreases j, 1
  {
    hide Decode, Here, MembersHere, TypedMembers, PlacedMembers, Wf, WfMembers, EntryIndex, ToJson, Encodable, HasType;
    if Nest(ty, j, u) {
      WfObj(j.members);
      ObjectHere(toks, js, i, s, j.members);
      MembersArePlaced(ty, j.members, u, toks, js, i + 1, s + 1, true, depth + 1);
    } else {
      var v :| HasType(ty, v) && Encodable(ty, v) && j == ToJson(ty, v);
      ValueSettles(ty, v, u, toks, js, i, s, depth);
    }
  }

  lemma ValueSettles(ty: Type, v: Value, u: bytes, toks: seq<Jsmn.Token>, js: bytes, i: nat, s: nat, depth: nat)
    requires Spans(toks, js) && HasType(ty, v) && Encodable(ty, v) && Here(toks, js, i, s, ToJson(ty, v))
    requires WfType(ty) && NoStructureArrays(ty) && depth + Depth(ty) <= MAX_RECURSION
    ensures Settles(ty, ToJson(ty, v), u, toks, js, i, depth)
  {
    hide Decode, Here, ToJson, Encodable, HasType, Returns, Ends, StuckAt;
    ReachWithin(ty, v);
    DecodesAny(ty, v, toks, js, i, s, depth);
  }

  lemma {:induction false} MembersArePlaced(ty: Type, ms: Members, u: bytes, toks: seq<Jsmn.Token>, js: bytes, i: nat, s: nat,
                                            first: bool, depth: nat)
    requires Spans(toks, js) && WfMembers(ms) && MembersHere(toks, js, i, s, ms, first)
    requires ty.Structure? && TypedMembers(ty.members, ms, u)
    requires WfType(ty) && NoStructureArrays(ty) && depth + Depth(ty) <= MAX_RECURSION + 1
    ensures PlacedMembers(ty.members, ms, u, toks, js, i, depth)
    decreases ms, 0
  {
    hide Decode, Here, MembersHere, Wf, Typed, Placed, EntryIndex;
    if ms.MoreMembers? {
      var s2 := MemberHere(toks, js, i, s, ms, first);
      WfRest(ms);
      if ms.key != u {
        var e := EntryIndex(ty.members, ms.key);
        MaxDepthBounds(ty.members, e);
        TypedIsPlaced(ty.members[e].ty, ms.value, u, toks, js, i + 1, s2, depth);
      }
      MembersArePlaced(ty, ms.rest, u, toks, js, i + 1 + Size(ms.value), s2 + |Render(ms.value)|, false, depth);
    }
  }

  /**
   For a type without arrays of structures: a text that writes a value of the type, but for a key in
   one or more of its structures that none of those around it knows, is not accepted.
   */
  lemma UnknownKeyRefused(ty: Type, j: Json, u: bytes)
    requires WfType(ty) && NoStructureArrays(ty) && Depth(ty) < MAX_RECURSION
    requires Wf(j) && Typed(ty, j, u) && Seen(ty, j, u)
    ensures DecodeJson(ty, Render(j)) == None
  {
    hide Render, Preorder, DecodeJson, Decode, Here, Placed, SeenMembers, Typed;
    DecodesTree(ty, j);
    if Size(j) <= MAX_TOKENS {
      TypedIsPlaced(ty, j, u, Preorder(j, 0), Render(j), 0, 0, 0);
    }
    UnknownKey(ty, j, u);
  }

  // ---- In an array of structures ----

  const FLAG: Type := Structure([Member([120], Boolean)])
  const FLAGS: Type := Structure([Member([65], Type.Array(FLAG))])

  /** The tree of `{"A":[{"u":"x"},true]}`. */
  function Unnoticed(): Json {
    Obj(MoreMembers([65], Arr(MoreElems(Inner(), MoreElems(Prim(TRUE_TEXT), NoElems))), NoMembers))
  }

  function Inner(): Json { Obj(MoreMembers([117], Str([120]), NoMembers)) }

  /** Its seven tokens. */
  ghost predicate SevenTokens(toks: seq<Jsmn.Token>, js: bytes)
    requires Spans(toks, js)
  {
    && |toks| == 7
    && toks[0].typ.Object? && toks[0].size == 1 && JsonEq(js, toks[1], [65])
    && toks[2].typ.Array? && toks[2].size == 2 && toks[3].typ.Object? && toks[3].size == 1
    && JsonEq(js, toks[4], [117]) && toks[4].size == 1
    && JsonEq(js, toks[5], [120])
    && toks[6].typ.Primitive? && TokenText(js, toks[6]) == TRUE_TEXT
  }

  lemma UnnoticedTokens(toks: seq<Jsmn.Token>, js: bytes)
    requires Spans(toks, js) && |toks| == Size(Unnoticed()) && Here(toks, js, 0, 0, Unnoticed())
    ensures Wf(Unnoticed()) && SevenTokens(toks, js)
  {
    hide Here, MembersHere, ElemsHere, Render, Preorder;
    UnnoticedWf();
    var root := Unnoticed().members;
    var inner := Inner().members;
    var es := root.value.elems;
    ObjHere(toks, js, 0, 0, root);
    var a := MemberHere(toks, js, 1, 1, root, true);
    ArrHere(toks, js, 2, a, es);
    var b := ElemHere(toks, js, 3, a + 1, es, true);
    ObjHere(toks, js, 3, b, inner);
    var c := MemberHere(toks, js, 4, b + 1, inner, true);
    LeafHere(toks, js, 5, c, Str([120]));
    var d := ElemHere(toks, js, 6, b + |Render(es.first)|, es.rest, false);
    LeafHere(toks, js, 6, d, Prim(TRUE_TEXT));
  }

  lemma UnnoticedWf()
    ensures Wf(Unnoticed()) && Wf(Inner()) && Wf(Str([120])) && Wf(Prim(TRUE_TEXT))
    ensures Size(Inner()) == 3 && Size(Unnoticed()) == 7
  {
    hide Body, PrimText;
    PlainBody([65]);
    PlainBody([117]);
    PlainBody([120]);
    NullPrim();
  }

  lemma FlagDecodes(toks: seq<Jsmn.Token>, js: bytes)
    requires Spans(toks, js) && SevenTokens(toks, js)
    ensures Decode(FLAG, toks, js, 3, 1) == Done(VStructure([VBoolean(false)]), 4)
    ensures Decode(FLAG, toks, js, 4, 1) == Done(VStructure([VBoolean(true)]), 7)
  {
    hide FieldsLoop, Decode;
    var ms := FLAG.members;
    var zero, none := Defaults(ms), seq(1, _ => false);
    assert zero == [VBoolean(false)];
    StructureIsLoop(FLAG, toks, js, 3, 1);
    UnknownTokenStops(ms, toks, js, 4, 0, 1, zero, none, 2);
    StructureIsLoop(FLAG, toks, js, 4, 1);
    FlagRound(toks, js, zero, none);
  }

  lemma FlagRound(toks: seq<Jsmn.Token>, js: bytes, vals: seq<Value>, found: seq<bool>)
    requires Spans(toks, js) && SevenTokens(toks, js) && |vals| == |found| == 1 && !found[0]
    ensures FieldsLoop(FLAG.members, toks, js, 5, 0, 1, vals, found, 2) == FieldsDone([VBoolean(true)], [true], 7)
  {
    var ms := FLAG.members;
    assert FindEntry(ms, js, toks[5], 0, 1) == Some(0);
    assert Decode(Boolean, toks, js, 6, 2) == Done(VBoolean(true), 7);
    assert vals[0 := VBoolean(true)] == [VBoolean(true)] && found[0 := true] == [true];
    assert FieldsLoop(ms, toks, js, 7, 1, 1, [VBoolean(true)], [true], 2) == FieldsDone([VBoolean(true)], [true], 7);
  }

  lemma FlagsDecode(toks: seq<Jsmn.Token>, js: bytes)
    requires Spans(toks, js) && SevenTokens(toks, js)
    ensures Decode(FLAGS, toks, js, 0, 0) == Done(VStructure([VArray([VStructure([VBoolean(false)]), VStructure([VBoolean(true)])])]), 7)
  {
    hide Decode;
    var ms := FLAGS.members;
    var v, w := VStructure([VBoolean(false)]), VStructure([VBoolean(true)]);
    FlagDecodes(toks, js);
    assert DecodeElems(FLAG, toks, js, 7, 0, [v, w], 1) == Done(VArray([v, w]), 7);
    assert [v] + [w] == [v, w];
    assert DecodeElems(FLAG, toks, js, 4, 1, [v], 1) == Done(VArray([v, w]), 7);
    assert [] + [v] == [v];
    assert DecodeElems(FLAG, toks, js, 3, 2, [], 1) == Done(VArray([v, w]), 7);
    ArrayIsElems(FLAG, toks, js, 2, 1);
    StructureIsLoop(FLAGS, toks, js, 0, 0);
    FlagsRound(toks, js, VArray([v, w]), Defaults(ms), seq(1, _ => false));
  }

  lemma FlagsRound(toks: seq<Jsmn.Token>, js: bytes, v: Value, vals: seq<Value>, found: seq<bool>)
    requires Spans(toks, js) && SevenTokens(toks, js) && |vals| == |found| == 1 && !found[0]
    requires Decode(Type.Array(FLAG), toks, js, 2, 1) == Done(v, 7)
    ensures FieldsLoop(FLAGS.members, toks, js, 1, 0, 1, vals, found, 1) == FieldsDone([v], [true], 7)
  {
    hide Decode;
    var ms := FLAGS.members;
    assert FindEntry(ms, js, toks[1], 0, 1) == Some(0);
    assert vals[0 := v] == [v] && found[0 := true] == [true];
    assert FieldsLoop(ms, toks, js, 7, 1, 1, [v], [true], 1) == FieldsDone([v], [true], 7);
  }

  /**
   Below the root an unknown key can pass.  With "x" the only known key of the elements, the key "u"
   ends the first one before its value; the second is read from the rest of the first, and all
   tokens are used.
   */
  lemma UnknownNestedKey()
    ensures DecodeJson(FLAGS, Render(Unnoticed()))
         == Some(VStructure([VArray([VStructure([VBoolean(false)]), VStructure([VBoolean(true)])])]))
  {
    hide Render, Preorder, DecodeJson, Decode, Here, Wf, SevenTokens;
    var j := Unnoticed();
    UnnoticedWf();
    DecodesTree(FLAGS, j);
    UnnoticedTokens(Preorder(j, 0), Render(j));
    FlagsDecode(Preorder(j, 0), Render(j));
  }

  // ---- In a structure that does not know the key, inside one that does ----

  const NAMED: Type := Structure([Member([97], Type.String)])
  const AROUND: Type := Structure([Member([122], FLAG), Member([117], NAMED), Member([119], Boolean)])

  /** The tree of `{"z":{"u":["a"]},"w":true}`. */
  function Misread(): Json {
    Obj(MoreMembers([122], Middle(), MoreMembers([119], Prim(TRUE_TEXT), NoMembers)))
  }

  function Middle(): Json { Obj(MoreMembers([117], Arr(MoreElems(Str([97]), NoElems)), NoMembers)) }

  /** The first seven of its eight tokens. */
  ghost predicate EightTokens(toks: seq<Jsmn.Token>, js: bytes)
    requires Spans(toks, js)
  {
    && |toks| == 8
    && toks[0].typ.Object? && toks[0].size == 2 && JsonEq(js, toks[1], [122])
    && toks[2].typ.Object? && toks[2].size == 1 && JsonEq(js, toks[3], [117])
    && toks[4].typ.Array? && toks[4].size == 1 && JsonEq(js, toks[5], [97])
    && JsonEq(js, toks[6], [119])
  }

  lemma MisreadWf()
    ensures Wf(Misread()) && Wf(Middle()) && Wf(Str([97])) && Size(Middle()) == 4 && Size(Misread()) == 8
    ensures Misread().members.Count() == 2
  {
    hide Body, PrimText;
    PlainBody([122]);
    PlainBody([119]);
    PlainBody([117]);
    PlainBody([97]);
    NullPrim();
    var ms := Misread().members;
    assert WfMembers(ms.rest) && MembersSize(ms.rest) == 2 && ms.rest.Count() == 1;
    assert Wf(Middle().members.value) && Size(Middle().members.value) == 2;
  }

  lemma MisreadTokens(toks: seq<Jsmn.Token>, js: bytes)
    requires Spans(toks, js) && |toks| == 8 && Here(toks, js, 0, 0, Misread())
    ensures EightTokens(toks, js)
  {
    hide Here, MembersHere, ElemsHere, Render, Preorder, Body, PrimText;
    MisreadWf();
    var root, middle := Misread().members, Middle().members;
    ObjHere(toks, js, 0, 0, root);
    var a := MemberHere(toks, js, 1, 1, root, true);
    ObjHere(toks, js, 2, a, middle);
    var b := MemberHere(toks, js, 3, a + 1, middle, true);
    ArrHere(toks, js, 4, b, middle.value.elems);
    var c := ElemHere(toks, js, 5, b + 1, middle.value.elems, true);
    LeafHere(toks, js, 5, c, Str([97]));
    var d := MemberHere(toks, js, 6, a + |Render(root.value)|, root.rest, false);
  }

  lemma NamedDecodes(toks: seq<Jsmn.Token>, js: bytes)
    requires Spans(toks, js) && EightTokens(toks, js)
    ensures Decode(FLAG, toks, js, 2, 1) == Done(VStructure([VBoolean(false)]), 3)
    ensures Decode(NAMED, toks, js, 4, 1) == Done(VStructure([VString(Text([119]))]), 7)
  {
    hide FieldsLoop, Decode;
    var zero, none := Defaults(FLAG.members), seq(1, _ => false);
    assert zero == [VBoolean(false)];
    StructureIsLoop(FLAG, toks, js, 2, 1);
    UnknownTokenStops(FLAG.members, toks, js, 3, 0, 1, zero, none, 2);
    StructureIsLoop(NAMED, toks, js, 4, 1);
    NamedRound(toks, js, Defaults(NAMED.members), none);
  }

  lemma NamedRound(toks: seq<Jsmn.Token>, js: bytes, vals: seq<Value>, found: seq<bool>)
    requires Spans(toks, js) && EightTokens(toks, js) && |vals| == |found| == 1 && !found[0]
    ensures FieldsLoop(NAMED.members, toks, js, 5, 0, 1, vals, found, 2) == FieldsDone([VString(Text([119]))], [true], 7)
  {
    hide Decode;
    var ms, v := NAMED.members, VString(Text([119]));
    assert FindEntry(ms, js, toks[5], 0, 1) == Some(0);
    NameDecodes(toks, js);
    assert vals[0 := v] == [v] && found[0 := true] == [true];
    assert FieldsLoop(ms, toks, js, 7, 1, 1, [v], [true], 2) == FieldsDone([v], [true], 7);
  }

  lemma NameDecodes(toks: seq<Jsmn.Token>, js: bytes)
    requires Spans(toks, js) && EightTokens(toks, js)
    ensures Decode(Type.String, toks, js, 6, 2) == Done(VString(Text([119])), 7)
  {
    var t := [119];
    assert StringCodec.UnescapeItem(t, 0) == StringCodec.Item([119], 1);
    assert StringCodec.Unescape(t, 1) == Some([]);
    assert [119] + [] == t;
  }

  lemma AroundDecodes(toks: seq<Jsmn.Token>, js: bytes)
    requires Spans(toks, js) && EightTokens(toks, js)
    ensures Decode(AROUND, toks, js, 0, 0)
         == Done(VStructure([VStructure([VBoolean(false)]), VStructure([VString(Text([119]))]), VBoolean(false)]), 7)
  {
    hide Decode;
    var ms := AROUND.members;
    var zero, none := Defaults(ms), seq(3, _ => false);
    DefaultsAt(ms, 2);
    NamedDecodes(toks, js);
    var z, u := VStructure([VBoolean(false)]), VStructure([VString(Text([119]))]);
    assert FindEntry(ms, js, toks[1], 0, 3) == Some(0);
    assert FindEntry(ms, js, toks[3], 1, 4) == Some(1);
    var vals, found := zero[0 := z], none[0 := true];
    var vals', found' := vals[1 := u], found[1 := true];
    assert vals' == [z, u, VBoolean(false)];
    assert FieldsLoop(ms, toks, js, 7, 2, 2, vals', found', 1) == FieldsDone(vals', found', 7);
    assert FieldsLoop(ms, toks, js, 3, 1, 2, vals, found, 1) == FieldsDone(vals', found', 7);
    assert FieldsLoop(ms, toks, js, 1, 0, 2, zero, none, 1) == FieldsDone(vals', found', 7);
    StructureIsLoop(AROUND, toks, js, 0, 0);
  }

  /**
   The key "u" is unknown where it stands, but known one level up: its array is read as that structure,
   the key "w" as a string in it, and the text is accepted with one token left.
   */
  lemma KeyKnownAround()
    ensures DecodeJson(AROUND, Render(Misread()))
         == Some(VStructure([VStructure([VBoolean(false)]), VStructure([VString(Text([119]))]), VBoolean(false)]))
  {
    hide Render, Preorder, DecodeJson, Decode, Here, Wf, EightTokens;
    var j := Misread();
    MisreadWf();
    DecodesTree(AROUND, j);
    MisreadTokens(Preorder(j, 0), Render(j));
    AroundDecodes(Preorder(j, 0), Render(j));
  }
}
