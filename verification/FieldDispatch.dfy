/**
 decodeFields on the tokens of an object: which entry decodes which member, in whatever order
 the members come (deps/src/ua_types_encoding_json.c:3033-3097).
 */
module FieldDispatch {
  import opened Arith
  import opened Bytes
  import opened JsonTree
  import opened TokenWalk
  import opened Decoder
  import Jsmn
  import U = UaTypes

  predicate DistinctNames(ents: seq<U.Member>) {
    forall a, b :: 0 <= a < b < |ents| ==> ents[a].name != ents[b].name
  }

  predicate DistinctKeys(ms: Members) {
    ms.MoreMembers? ==> !HasKey(ms.rest, ms.key) && DistinctKeys(ms.rest)
  }

  /** The first entry with this name; |ents| if there is none. */
  function EntryIndex(ents: seq<U.Member>, key: bytes): (e: nat)
    ensures e <= |ents| && (e < |ents| ==> ents[e].name == key)
    ensures forall k :: 0 <= k < e ==> ents[k].name != key
  {
    if ents == [] then 0
    else if ents[0].name == key then 0
    else
      var e := EntryIndex(ents[1..], key);
      assert forall k :: 0 < k < e + 1 ==> ents[k] == ents[1..][k - 1];
      e + 1
  }

  // ---- The search for the entry of a key ----

  lemma {:induction false} FindNone(ents: seq<U.Member>, js: bytes, t: Jsmn.Token, i: nat, last: nat, k: nat)
    requires |ents| > 0 && i <= k < last && 0 <= t.start <= t.end <= |js|
    requires FindEntry(ents, js, t, i, last) == None
    ensures !JsonEq(js, t, ents[k % |ents|].name)
    decreases last - i
  {
    if i < k {
      FindNone(ents, js, t, i + 1, last, k);
    }
  }

  /** Some step of a round over all entries tries entry `e`. */
  lemma RoundCovers(n: nat, round: nat, e: nat) returns (k: nat)
    requires e < n
    ensures round <= k < round + n && k % n == e
  {
    var q, r := round / n, round % n;
    assert q * n + r == round;
    if e >= r {
      k := round + (e - r);
      DivModOf(q, e, n);
    } else {
      k := round + (e + n - r);
      DivModOf(q + 1, e, n);
      assert (q + 1) * n == q * n + n;
    }
  }

  /** From whatever entry the search starts, it finds the one with the key's name, or none if there is none. */
  lemma FindsEntry(ents: seq<U.Member>, js: bytes, t: Jsmn.Token, round: nat, key: bytes)
    requires |ents| > 0 && DistinctNames(ents) && 0 <= t.start <= t.end <= |js|
    requires t.typ.String? && TokenText(js, t) == key
    ensures FindEntry(ents, js, t, round, round + |ents|)
         == if EntryIndex(ents, key) < |ents| then Some(EntryIndex(ents, key)) else None
  {
    var e := EntryIndex(ents, key);
    var r := FindEntry(ents, js, t, round, round + |ents|);
    if e < |ents| {
      var k := RoundCovers(|ents|, round, e);
      if r.None? {
        FindNone(ents, js, t, round, round + |ents|, k);
      }
    }
  }

  // ---- Dispatch ----

  /** Every member's key is known, and its decoder ends just past its own value. */
  ghost predicate Consumes(ents: seq<U.Member>, ms: Members, toks: seq<Jsmn.Token>, js: bytes, i: nat, depth: nat)
    requires Spans(toks, js)
  {
    match ms
    case NoMembers => true
    case MoreMembers(k, v, rest) =>
      var e := EntryIndex(ents, k);
      && e < |ents|
      && (var r := Decode(ents[e].ty, toks, js, i + 1, depth); r.Done? && r.next == i + 1 + Size(v))
      && Consumes(ents, rest, toks, js, i + 1 + Size(v), depth)
  }

  /** No key comes twice, and none was found before. */
  ghost predicate Fresh(ents: seq<U.Member>, ms: Members, found: seq<bool>)
    requires |found| == |ents|
  {
    DistinctKeys(ms) && forall e :: 0 <= e < |ents| && found[e] ==> !HasKey(ms, ents[e].name)
  }

  /** The loop ended just past the members, each value decoded by the entry of its key, the others untouched. */
  ghost predicate Dispatched(ents: seq<U.Member>, ms: Members, toks: seq<Jsmn.Token>, js: bytes, i: nat, depth: nat,
                             vals: seq<U.Value>, found: seq<bool>, r: FieldsDecoded)
    requires Spans(toks, js) && |vals| == |found| == |ents|
  {
    && r.FieldsDone? && |r.vals| == |r.found| == |ents| && r.next == i + MembersSize(ms)
    && forall e :: 0 <= e < |ents| ==>
         var key := ents[e].name;
         && r.found[e] == (found[e] || HasKey(ms, key))
         && (!HasKey(ms, key) ==> r.vals[e] == vals[e])
         && (HasKey(ms, key) ==>
               ValueIndex(ms, key, i) >= 0
               && var d := Decode(ents[e].ty, toks, js, ValueIndex(ms, key, i), depth);
                  d.Done? && r.vals[e] == d.value)
  }

  lemma {:induction false} HasKeyIndex(ms: Members, key: bytes, i: nat)
    ensures HasKey(ms, key) <==> ValueIndex(ms, key, i) >= 0
    decreases ms
  {
    if ms.MoreMembers? && ms.key != key {
      HasKeyIndex(ms.rest, key, i + 1 + Size(ms.value));
    }
  }

  /** One round: the entry of the first key decodes the first value, unless it was found before. */
  lemma Round(ents: seq<U.Member>, ms: Members, toks: seq<Jsmn.Token>, js: bytes, i: nat, s: nat, first: bool,
              round: nat, count: nat, vals: seq<U.Value>, found: seq<bool>, depth: nat) returns (e: nat)
    requires Spans(toks, js) && DistinctNames(ents) && |vals| == |found| == |ents| > 0 && round < count
    requires WfMembers(ms) && ms.MoreMembers? && MembersHere(toks, js, i, s, ms, first)
    requires var e := EntryIndex(ents, ms.key); e < |ents| && Decode(ents[e].ty, toks, js, i + 1, depth).Done?
    ensures e == EntryIndex(ents, ms.key) < |ents|
    ensures var r := Decode(ents[e].ty, toks, js, i + 1, depth);
            FieldsLoop(ents, toks, js, i, round, count, vals, found, depth) ==
              if found[e] then FieldsFail(BadDecodingError)
              else FieldsLoop(ents, toks, js, r.next, round + 1, count, vals[e := r.value], found[e := true], depth)
  {
    hide Decode, MembersHere, FindEntry;
    var s2 := MemberHere(toks, js, i, s, ms, first);
    FindsEntry(ents, js, toks[i], round, ms.key);
    e := EntryIndex(ents, ms.key);
  }

  /**
   The dispatch theorem.  For known keys in any order, whose decoders consume exactly their
   values, the loop succeeds if and only if no key is repeated (or was found before); then every
   key's decoder has decoded that key's value, exactly the present keys are found, and the index
   is just past the members.
   */
  lemma {:induction false} DispatchesAnyOrder(ents: seq<U.Member>, ms: Members, toks: seq<Jsmn.Token>, js: bytes, i: nat, s: nat,
                                              first: bool, round: nat, vals: seq<U.Value>, found: seq<bool>, depth: nat)
    requires Spans(toks, js) && DistinctNames(ents) && |vals| == |found| == |ents| > 0
    requires WfMembers(ms) && MembersHere(toks, js, i, s, ms, first) && Consumes(ents, ms, toks, js, i, depth)
    ensures var r := FieldsLoop(ents, toks, js, i, round, round + ms.Count(), vals, found, depth);
            if Fresh(ents, ms, found) then Dispatched(ents, ms, toks, js, i, depth, vals, found, r)
            else r == FieldsFail(BadDecodingError)
    decreases ms
  {
    hide Decode, FindEntry, MembersHere, DecodeFields, FieldsLoop, Fresh, Dispatched, EntryIndex, HasKey;
    match ms
    case NoMembers =>
      NothingToDispatch(ents, toks, js, i, round, vals, found, depth);
    case MoreMembers(k, v, rest) =>
      var e := Round(ents, ms, toks, js, i, s, first, round, round + ms.Count(), vals, found, depth);
      if found[e] {
        FoundIsNotFresh(ents, ms, found, e);
      } else {
        var s2 := MemberHere(toks, js, i, s, ms, first);
        var j := i + 1 + Size(v);
        var val := Decode(ents[e].ty, toks, js, i + 1, depth).value;
        var vals', found' := vals[e := val], found[e := true];
        DispatchesAnyOrder(ents, rest, toks, js, j, s2 + |Render(v)|, false, round + 1, vals', found', depth);
        FreshStep(ents, ms, found, e);
        if Fresh(ents, ms, found) {
          FreshKey(ents, ms, found);
          var r := FieldsLoop(ents, toks, js, j, round + 1, round + ms.Count(), vals', found', depth);
          DispatchedStep(ents, ms, toks, js, i, depth, vals, found, e, r);
        }
      }
  }

  lemma NothingToDispatch(ents: seq<U.Member>, toks: seq<Jsmn.Token>, js: bytes, i: nat, round: nat,
                          vals: seq<U.Value>, found: seq<bool>, depth: nat)
    requires Spans(toks, js) && |vals| == |found| == |ents| > 0
    ensures Fresh(ents, NoMembers, found)
    ensures Dispatched(ents, NoMembers, toks, js, i, depth, vals, found, FieldsLoop(ents, toks, js, i, round, round, vals, found, depth))
  {
    hide Decode, FindEntry;
  }

  lemma FoundIsNotFresh(ents: seq<U.Member>, ms: Members, found: seq<bool>, e: nat)
    requires |found| == |ents| && ms.MoreMembers? && e < |ents| && ents[e].name == ms.key && found[e]
    ensures !Fresh(ents, ms, found)
  {
    assert HasKey(ms, ents[e].name);
  }

  lemma FreshKey(ents: seq<U.Member>, ms: Members, found: seq<bool>)
    requires |found| == |ents| && ms.MoreMembers? && Fresh(ents, ms, found)
    ensures !HasKey(ms.rest, ms.key)
  {
  }

  lemma FreshStep(ents: seq<U.Member>, ms: Members, found: seq<bool>, e: nat)
    requires |found| == |ents| && ms.MoreMembers? && e < |ents| && ents[e].name == ms.key && !found[e] && DistinctNames(ents)
    ensures Fresh(ents, ms, found) <==> Fresh(ents, ms.rest, found[e := true])
  {
    var found' := found[e := true];
    if Fresh(ents, ms, found) {
      forall f | 0 <= f < |ents| && found'[f] ensures !HasKey(ms.rest, ents[f].name) {
        if f != e { assert !HasKey(ms, ents[f].name); }
      }
    }
    if Fresh(ents, ms.rest, found') {
      assert found'[e];
      forall f | 0 <= f < |ents| && found[f] ensures !HasKey(ms, ents[f].name) {
        assert found'[f];
        assert f < e ==> ents[f].name != ents[e].name;
        assert e < f ==> ents[e].name != ents[f].name;
      }
    }
  }

  lemma DispatchedStep(ents: seq<U.Member>, ms: Members, toks: seq<Jsmn.Token>, js: bytes, i: nat, depth: nat,
                       vals: seq<U.Value>, found: seq<bool>, e: nat, r: FieldsDecoded)
    requires Spans(toks, js) && |vals| == |found| == |ents| && DistinctNames(ents)
    requires ms.MoreMembers? && e < |ents| && ents[e].name == ms.key && !HasKey(ms.rest, ms.key)
    requires var d := Decode(ents[e].ty, toks, js, i + 1, depth);
             && d.Done?
             && Dispatched(ents, ms.rest, toks, js, i + 1 + Size(ms.value), depth, vals[e := d.value], found[e := true], r)
    ensures Dispatched(ents, ms, toks, js, i, depth, vals, found, r)
  {
    hide Decode;
    forall f | 0 <= f < |ents|
      ensures var key := ents[f].name;
              && r.found[f] == (found[f] || HasKey(ms, key))
              && (!HasKey(ms, key) ==> r.vals[f] == vals[f])
              && (HasKey(ms, key) ==>
                    ValueIndex(ms, key, i) >= 0
                    && var d := Decode(ents[f].ty, toks, js, ValueIndex(ms, key, i), depth);
                       d.Done? && r.vals[f] == d.value)
    {
      assert f < e ==> ents[f].name != ents[e].name;
      assert e < f ==> ents[e].name != ents[f].name;
      HasKeyIndex(ms, ents[f].name, i);
    }
  }

  lemma {:induction false} FindsNothing(ents: seq<U.Member>, js: bytes, t: Jsmn.Token, i: nat, last: nat)
    requires |ents| > 0 && i <= last && 0 <= t.start <= t.end <= |js|
    requires forall e :: 0 <= e < |ents| ==> !JsonEq(js, t, ents[e].name)
    ensures FindEntry(ents, js, t, i, last) == None
    decreases last - i
  {
    hide JsonEq;
    if i < last {
      FindsNothing(ents, js, t, i + 1, last);
    }
  }

  /** A token no entry matches stops the progress: the loop ends there, and reports success. */
  lemma {:induction false} UnknownTokenStops(ents: seq<U.Member>, toks: seq<Jsmn.Token>, js: bytes, i: nat,
                                             round: nat, count: nat, vals: seq<U.Value>, found: seq<bool>, depth: nat)
    requires Spans(toks, js) && |vals| == |found| == |ents| > 0 && i < |toks|
    requires forall e :: 0 <= e < |ents| ==> !JsonEq(js, toks[i], ents[e].name)
    ensures FieldsLoop(ents, toks, js, i, round, count, vals, found, depth) == FieldsDone(vals, found, i)
    decreases count - round
  {
    hide Decode, FindEntry, JsonEq;
    if round < count {
      FindsNothing(ents, js, toks[i], round, round + |ents|);
      UnknownTokenStops(ents, toks, js, i, round + 1, count, vals, found, depth);
    }
  }

  /** In particular a key that no entry has: it and everything after it is left unread. */
  lemma UnknownKeyStops(ents: seq<U.Member>, ms: Members, toks: seq<Jsmn.Token>, js: bytes, i: nat, s: nat, first: bool,
                        round: nat, count: nat, vals: seq<U.Value>, found: seq<bool>, depth: nat)
    requires Spans(toks, js) && |vals| == |found| == |ents| > 0
    requires WfMembers(ms) && ms.MoreMembers? && MembersHere(toks, js, i, s, ms, first)
    requires EntryIndex(ents, ms.key) == |ents|
    ensures FieldsLoop(ents, toks, js, i, round, count, vals, found, depth) == FieldsDone(vals, found, i)
  {
    hide Decode, FieldsLoop, MembersHere;
    var s2 := MemberHere(toks, js, i, s, ms, first);
    UnknownTokenStops(ents, toks, js, i, round, count, vals, found, depth);
  }

  /** One round whose decoder fails. */
  lemma RoundFails(ents: seq<U.Member>, ms: Members, toks: seq<Jsmn.Token>, js: bytes, i: nat, s: nat, first: bool,
                   round: nat, count: nat, vals: seq<U.Value>, found: seq<bool>, depth: nat)
    requires Spans(toks, js) && DistinctNames(ents) && |vals| == |found| == |ents| > 0 && round < count
    requires WfMembers(ms) && ms.MoreMembers? && MembersHere(toks, js, i, s, ms, first)
    requires var e := EntryIndex(ents, ms.key); e < |ents| && Decode(ents[e].ty, toks, js, i + 1, depth).Fail?
    ensures FieldsLoop(ents, toks, js, i, round, count, vals, found, depth).FieldsFail?
  {
    hide Decode, MembersHere, FindEntry;
    var s2 := MemberHere(toks, js, i, s, ms, first);
    FindsEntry(ents, js, toks[i], round, ms.key);
  }

  /** The whole of decodeFields on a non-empty object. */
  lemma DecodesFields(ents: seq<U.Member>, ms: Members, toks: seq<Jsmn.Token>, js: bytes, i: nat, s: nat, depth: nat)
    requires Spans(toks, js) && DistinctNames(ents) && |ents| > 0 && (|ents| == 1 ==> ents[0].name != [])
    requires Wf(Obj(ms)) && ms.MoreMembers? && Here(toks, js, i, s, Obj(ms)) && Consumes(ents, ms, toks, js, i + 1, depth)
    ensures var r := DecodeFields(ents, toks, js, i, depth);
            var found := seq(|ents|, _ => false);
            if DistinctKeys(ms) then Dispatched(ents, ms, toks, js, i + 1, depth, Defaults(ents), found, r)
            else r == FieldsFail(BadDecodingError)
  {
    hide Decode, FieldsLoop, Here, MembersHere, Preorder, Render;
    ValueToken(toks, js, i, s, Obj(ms));
    ObjHere(toks, js, i, s, ms);
    var s2 := MemberHere(toks, js, i + 1, s + 1, ms, true);
    DispatchesAnyOrder(ents, ms, toks, js, i + 1, s + 1, true, 0, Defaults(ents), seq(|ents|, _ => false), depth);
  }

  /** An empty object is refused exactly when it is the last token. */
  lemma EmptyObject(ents: seq<U.Member>, toks: seq<Jsmn.Token>, js: bytes, i: nat, s: nat, depth: nat)
    requires Spans(toks, js) && |ents| > 0 && (|ents| == 1 ==> ents[0].name != [])
    requires Here(toks, js, i, s, Obj(NoMembers))
    ensures DecodeFields(ents, toks, js, i, depth) ==
      if i + 1 == |toks| then FieldsFail(BadDecodingError)
      else FieldsDone(Defaults(ents), seq(|ents|, _ => false), i + 1)
  {
    hide Decode, Here, Preorder, Render;
    ValueToken(toks, js, i, s, Obj(NoMembers));
    ObjHere(toks, js, i, s, NoMembers);
  }
}
