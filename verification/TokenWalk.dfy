/**
 Walking the flat token array: skipping a value by its span or by its child counts, and looking
 ahead for a key (deps/src/ua_types_encoding_json.c).  The look-ahead is defined for every token
 array; the theorems are about arrays that hold the preorder list of a tree.
 */
module TokenWalk {
  import opened Bytes
  import opened Jsmn
  import opened JsonTree

  /** A status code. */
  datatype Status = Good | BadDecodingError | BadEncodingError | BadNotFound | BadOutOfRange | BadOutOfMemory

  /** Every token lies inside the text. */
  ghost predicate Spans(toks: seq<Token>, js: bytes) {
    forall i :: 0 <= i < |toks| ==> 0 <= toks[i].start <= toks[i].end <= |js|
  }

  function TokenText(js: bytes, t: Token): bytes
    requires 0 <= t.start <= t.end <= |js|
  {
    js[t.start..t.end]
  }

  /** The token is a string whose raw text is `key`. */
  predicate JsonEq(js: bytes, t: Token, key: bytes)
    requires 0 <= t.start <= t.end <= |js|
  {
    t.typ.String? && TokenText(js, t) == key
  }

  // ---- Skipping by span ----

  function SkipTo(toks: seq<Token>, i: nat, end: int): nat
    decreases |toks| - i
  {
    if i < |toks| && toks[i].start < end then SkipTo(toks, i + 1, end) else i
  }

  function SkipObject(toks: seq<Token>, i: nat): nat
    requires i < |toks|
  {
    SkipTo(toks, i + 1, toks[i].end)
  }

  // ---- Skipping by counts ----

  /** Where the walk ends; `PastTokens` when it reads a slot behind the last token, which holds none. */
  datatype Jump = Jump(next: nat) | PastTokens

  function JumpOver(toks: seq<Token>, i: nat): (r: Jump)
    ensures r.Jump? ==> r.next >= i && (i < |toks| && IsContainer(toks[i]) ==> r.next > i)
    decreases |toks| - i, 0, 0
  {
    if i >= |toks| || !IsContainer(toks[i]) then Jump(i)
    else if i + 1 >= |toks| then Jump(i + 1)
    else if toks[i].typ.Object? then JumpMembers(toks, i + 1, toks[i].size)
    else JumpElems(toks, i + 1, toks[i].size)
  }

  function JumpMembers(toks: seq<Token>, i: nat, n: nat): (r: Jump)
    ensures r.Jump? ==> r.next >= i
    decreases |toks| - i, 1, n
  {
    if n == 0 || i >= |toks| then Jump(i)
    else if i + 1 >= |toks| then Jump(i + 1)
    else if IsContainer(toks[i + 1]) then
      var r := JumpOver(toks, i + 1);
      if r.PastTokens? then r else JumpMembers(toks, r.next, n - 1)
    else JumpMembers(toks, i + 2, n - 1)
  }

  function JumpElems(toks: seq<Token>, i: nat, n: nat): (r: Jump)
    ensures r.Jump? ==> r.next >= i
    decreases |toks| - i, 1, n
  {
    if n == 0 then Jump(i)
    else if i >= |toks| then PastTokens
    else if IsContainer(toks[i]) then
      var r := JumpOver(toks, i);
      if r.PastTokens? then r else JumpElems(toks, r.next, n - 1)
    else JumpElems(toks, i + 1, n - 1)
  }

  // ---- Counts that promise too much ----

  predicate Leaves(toks: seq<Token>, i: nat) { forall k :: i <= k < |toks| ==> !IsContainer(toks[k]) }

  /**
   A container with nothing but leaves behind it: the walk goes on by its count, over keys and values if
   it is an object.  An object with too few tokens behind it ends at the last of them; an array reads
   past them, unless nothing is behind it.
   */
  lemma JumpsLeaves(toks: seq<Token>, i: nat)
    requires i < |toks| && IsContainer(toks[i]) && Leaves(toks, i + 1)
    ensures var n, left := toks[i].size, |toks| - i - 1;
            JumpOver(toks, i) ==
              if toks[i].typ.Object? then Jump(i + 1 + if 2 * n <= left then 2 * n else left)
              else if n <= left then Jump(i + 1 + n)
              else if left == 0 then Jump(i + 1) else PastTokens
  {
    if toks[i].typ.Object? {
      MembersLeaves(toks, i + 1, toks[i].size);
    } else {
      ElemsLeaves(toks, i + 1, toks[i].size);
    }
  }

  lemma {:induction false} MembersLeaves(toks: seq<Token>, i: nat, n: nat)
    requires i <= |toks| && Leaves(toks, i)
    ensures JumpMembers(toks, i, n) == Jump(if i + 2 * n <= |toks| then i + 2 * n else |toks|)
    decreases n
  {
    if n > 0 && i + 1 < |toks| { MembersLeaves(toks, i + 2, n - 1); }
  }

  lemma {:induction false} ElemsLeaves(toks: seq<Token>, i: nat, n: nat)
    requires i <= |toks| && Leaves(toks, i)
    ensures JumpElems(toks, i, n) == if i + n <= |toks| then Jump(i + n) else PastTokens
    decreases n
  {
    if n > 0 && i < |toks| { ElemsLeaves(toks, i + 1, n - 1); }
  }

  // ---- Looking ahead for a key ----

  /** How a search ended: its status, where it left the index, and the index it reports. */
  datatype Search = Search(status: Status, index: nat, result: nat)

  function SearchKey(toks: seq<Token>, js: bytes, key: bytes, i: nat, depth: nat): (r: Search)
    requires Spans(toks, js)
    ensures r.index >= i
    ensures i < |toks| && IsContainer(toks[i]) ==> r.index > i
    decreases |toks| - i, 0, 0
  {
    if i >= |toks| then Search(BadDecodingError, i, 0)
    else if toks[i].typ.Object? then SearchMembers(toks, js, key, i + 1, toks[i].size, depth, BadNotFound)
    else if toks[i].typ.Array? then SearchElems(toks, js, key, i + 1, toks[i].size, depth, BadNotFound)
    else Search(BadNotFound, i, 0)
  }

  function SearchMembers(toks: seq<Token>, js: bytes, key: bytes, i: nat, n: nat, depth: nat, ret: Status): (r: Search)
    requires Spans(toks, js)
    ensures r.index >= i
    decreases |toks| - i, 1, n
  {
    if n == 0 then Search(ret, i, 0)
    else if i >= |toks| then Search(BadDecodingError, i, 0)
    else if depth == 0 && JsonEq(js, toks[i], key) then
      if i + 1 >= |toks| then Search(BadOutOfRange, i + 1, 0) else Search(Good, i + 1, i + 1)
    else if i + 1 >= |toks| then Search(BadDecodingError, i + 1, 0)
    else if IsContainer(toks[i + 1]) then
      var r := SearchKey(toks, js, key, i + 1, depth + 1);
      SearchMembers(toks, js, key, r.index, n - 1, depth, r.status)
    else SearchMembers(toks, js, key, i + 2, n - 1, depth, ret)
  }

  function SearchElems(toks: seq<Token>, js: bytes, key: bytes, i: nat, n: nat, depth: nat, ret: Status): (r: Search)
    requires Spans(toks, js)
    ensures r.index >= i
    decreases |toks| - i, 1, n
  {
    if n == 0 then Search(ret, i, 0)
    else if i >= |toks| then Search(BadDecodingError, i, 0)
    else if IsContainer(toks[i]) then
      var r := SearchKey(toks, js, key, i, depth + 1);
      SearchElems(toks, js, key, r.index, n - 1, depth, r.status)
    else SearchElems(toks, js, key, i + 1, n - 1, depth, ret)
  }

  predicate MatchesAt(toks: seq<Token>, js: bytes, key: bytes, p: nat)
    requires Spans(toks, js)
  {
    p < |toks| && JsonEq(js, toks[p], key)
  }

  /**
   The look-ahead over an object with nothing but leaves behind it, as many as its count says or not:
   the first key that matches is found if its value is there and out of range if not; without one,
   the key is not found, or the tokens end too soon.
   */
  lemma SearchesLeaves(toks: seq<Token>, js: bytes, key: bytes, i: nat, k: nat)
    requires Spans(toks, js) && i < |toks| && toks[i].typ.Object? && Leaves(toks, i + 1) && k <= toks[i].size
    requires forall d :: 0 <= d < k ==> !MatchesAt(toks, js, key, i + 1 + 2 * d)
    ensures var n, p, r := toks[i].size, i + 1 + 2 * k, SearchKey(toks, js, key, i, 0);
            && (k < n && MatchesAt(toks, js, key, p) ==>
                  r == if p + 1 < |toks| then Search(Good, p + 1, p + 1) else Search(BadOutOfRange, p + 1, 0))
            && (k == n && p <= |toks| ==> r == Search(BadNotFound, p, 0))
            && (k == n && p > |toks| ==> r == Search(BadDecodingError, |toks|, 0))
  {
    MembersSearched(toks, js, key, i + 1, toks[i].size, k);
  }

  lemma {:induction false} MembersSearched(toks: seq<Token>, js: bytes, key: bytes, i: nat, n: nat, k: nat)
    requires Spans(toks, js) && i <= |toks| && Leaves(toks, i) && k <= n
    requires forall d :: 0 <= d < k ==> !MatchesAt(toks, js, key, i + 2 * d)
    ensures var p, r := i + 2 * k, SearchMembers(toks, js, key, i, n, 0, BadNotFound);
            && (k < n && MatchesAt(toks, js, key, p) ==>
                  r == if p + 1 < |toks| then Search(Good, p + 1, p + 1) else Search(BadOutOfRange, p + 1, 0))
            && (k == n && p <= |toks| ==> r == Search(BadNotFound, p, 0))
            && (k == n && p > |toks| ==> r == Search(BadDecodingError, |toks|, 0))
    decreases n
  {
    hide JsonEq, SearchKey;
    if k > 0 {
      assert !MatchesAt(toks, js, key, i + 2 * 0);
      if i + 1 < |toks| {
        forall d | 0 <= d < k - 1 ensures !MatchesAt(toks, js, key, i + 2 + 2 * d) {
          assert !MatchesAt(toks, js, key, i + 2 * (d + 1));
        }
        MembersSearched(toks, js, key, i + 2, n - 1, k - 1);
      }
    }
  }

  // ---- On the tokens of a tree ----

  /** The number of tokens of a tree. */
  function Size(j: Json): nat
    decreases j, 1
  {
    match j
    case Prim(_) => 1
    case Str(_) => 1
    case Arr(es) => 1 + ElemsSize(es)
    case Obj(ms) => 1 + MembersSize(ms)
  }

  function ElemsSize(es: Elems): nat
    decreases es, 0
  {
    match es
    case NoElems => 0
    case MoreElems(e, rest) => Size(e) + ElemsSize(rest)
  }

  function MembersSize(ms: Members): nat
    decreases ms, 0
  {
    match ms
    case NoMembers => 0
    case MoreMembers(_, v, rest) => 1 + Size(v) + MembersSize(rest)
  }

  lemma SizeAtLeastOne(j: Json)
    ensures Size(j) >= 1
  {
  }

  /** All tokens start inside the text [lo, hi). */
  ghost predicate Within(toks: seq<Token>, lo: nat, hi: nat) {
    forall i :: 0 <= i < |toks| ==> lo <= toks[i].start < hi
  }

  lemma {:induction false} PreorderWithin(j: Json, s: nat)
    requires Wf(j)
    ensures |Preorder(j, s)| == Size(j) && Within(Preorder(j, s), s, s + |Render(j)|)
    decreases j, 1
  {
    hide Render, RenderElems, RenderMembers, Preorder, PreorderElems, PreorderMembers;
    match j
    case Prim(_) => UnfoldLeaf(j, s);
    case Str(_) => UnfoldLeaf(j, s);
    case Arr(es) =>
      UnfoldArr(es, s);
      ElemsWithin(es, s + 1, true);
    case Obj(ms) =>
      UnfoldObj(ms, s);
      MembersWithin(ms, s + 1, true);
  }

  lemma {:induction false} ElemsWithin(es: Elems, s: nat, first: bool)
    requires WfElems(es)
    ensures |PreorderElems(es, s, first)| == ElemsSize(es)
    ensures Within(PreorderElems(es, s, first), s, s + |RenderElems(es, first)|)
    decreases es, 0
  {
    hide Render, RenderElems, RenderMembers, Preorder, PreorderElems, PreorderMembers;
    match es
    case NoElems => UnfoldNoElems(s, first);
    case MoreElems(e, rest) =>
      UnfoldElems(es, s, first);
      var s1 := s + |Separator(first)|;
      PreorderWithin(e, s1);
      ElemsWithin(rest, s1 + |Render(e)|, false);
  }

  lemma {:induction false} MembersWithin(ms: Members, s: nat, first: bool)
    requires WfMembers(ms)
    ensures |PreorderMembers(ms, s, first)| == MembersSize(ms)
    ensures Within(PreorderMembers(ms, s, first), s, s + |RenderMembers(ms, first)|)
    decreases ms, 0
  {
    hide Render, RenderElems, RenderMembers, Preorder, PreorderElems, PreorderMembers;
    match ms
    case NoMembers => UnfoldNoMembers(s, first);
    case MoreMembers(k, v, rest) =>
      UnfoldMembers(ms, s, first);
      var s2 := s + |Separator(first)| + |k| + 3;
      PreorderWithin(v, s2);
      MembersWithin(rest, s2 + |Render(v)|, false);
  }

  /** The tokens and the text of `j` stand at index `i` and position `s`. */
  ghost predicate Here(toks: seq<Token>, js: bytes, i: nat, s: nat, j: Json) {
    At(toks, i, Preorder(j, s)) && At(js, s, Render(j))
  }

  lemma {:induction false} SkipToRun(toks: seq<Token>, i: nat, n: nat, end: int)
    requires i + n <= |toks| && (forall k :: i <= k < i + n ==> toks[k].start < end)
    requires i + n < |toks| ==> toks[i + n].start >= end
    ensures SkipTo(toks, i, end) == i + n
    decreases n
  {
    if n > 0 {
      SkipToRun(toks, i + 1, n - 1, end);
    }
  }

  /** Skipping by span lands just past the value, whatever the value is. */
  lemma SkipsValue(toks: seq<Token>, i: nat, j: Json, s: nat)
    requires Wf(j) && At(toks, i, Preorder(j, s))
    requires i + Size(j) < |toks| ==> toks[i + Size(j)].start >= s + |Render(j)|
    ensures i < |toks| && SkipObject(toks, i) == i + Size(j)
  {
    hide Render, RenderElems, RenderMembers, Preorder, PreorderElems, PreorderMembers, SkipTo;
    PreorderWithin(j, s);
    var pre := Preorder(j, s);
    AtIndex(toks, i, pre, 0);
    match j {
      case Prim(_) => UnfoldLeaf(j, s);
      case Str(_) => UnfoldLeaf(j, s);
      case Arr(es) => UnfoldArr(es, s);
      case Obj(ms) => UnfoldObj(ms, s);
    }
    assert Container(j) ==> toks[i].end == s + |Render(j)|;
    forall k | i + 1 <= k < i + Size(j)
      ensures toks[k].start < toks[i].end
    {
      assert Container(j);
      AtIndex(toks, i, pre, k - i);
      assert pre[k - i].start < s + |Render(j)|;
    }
    SkipToRun(toks, i + 1, Size(j) - 1, toks[i].end);
  }

  // ---- Where the parts of a container stand ----

  lemma ArrHere(toks: seq<Token>, js: bytes, i: nat, s: nat, es: Elems)
    requires Here(toks, js, i, s, Arr(es))
    ensures toks[i] == Token(Array, s, s + |RenderElems(es, true)| + 2, es.Count())
    ensures ElemsHere(toks, js, i + 1, s + 1, es, true)
  {
    hide Render, RenderElems, RenderMembers, Preorder, PreorderElems, PreorderMembers;
    UnfoldArr(es, s);
    var root := [Token(Array, s, s + |RenderElems(es, true)| + 2, es.Count())];
    AtSplit(toks, i, root, PreorderElems(es, s + 1, true));
    AtIndex(toks, i, root, 0);
    AtSplit(js, s, [LBRACKET] + RenderElems(es, true), [RBRACKET]);
    AtSplit(js, s, [LBRACKET], RenderElems(es, true));
  }

  lemma ObjHere(toks: seq<Token>, js: bytes, i: nat, s: nat, ms: Members)
    requires Here(toks, js, i, s, Obj(ms))
    ensures toks[i] == Token(Object, s, s + |RenderMembers(ms, true)| + 2, ms.Count())
    ensures MembersHere(toks, js, i + 1, s + 1, ms, true)
  {
    hide Render, RenderElems, RenderMembers, Preorder, PreorderElems, PreorderMembers;
    UnfoldObj(ms, s);
    var root := [Token(Object, s, s + |RenderMembers(ms, true)| + 2, ms.Count())];
    AtSplit(toks, i, root, PreorderMembers(ms, s + 1, true));
    AtIndex(toks, i, root, 0);
    AtSplit(js, s, [LBRACE] + RenderMembers(ms, true), [RBRACE]);
    AtSplit(js, s, [LBRACE], RenderMembers(ms, true));
  }

  ghost predicate ElemsHere(toks: seq<Token>, js: bytes, i: nat, s: nat, es: Elems, first: bool) {
    At(toks, i, PreorderElems(es, s, first)) && At(js, s, RenderElems(es, first))
  }

  ghost predicate MembersHere(toks: seq<Token>, js: bytes, i: nat, s: nat, ms: Members, first: bool) {
    At(toks, i, PreorderMembers(ms, s, first)) && At(js, s, RenderMembers(ms, first))
  }

  /** The first element and the others. */
  lemma ElemHere(toks: seq<Token>, js: bytes, i: nat, s: nat, es: Elems, first: bool) returns (s1: nat)
    requires WfElems(es) && es.MoreElems? && ElemsHere(toks, js, i, s, es, first)
    ensures s1 == s + |Separator(first)| && Here(toks, js, i, s1, es.first)
    ensures ElemsHere(toks, js, i + Size(es.first), s1 + |Render(es.first)|, es.rest, false)
    ensures i + Size(es.first) <= |toks|
  {
    hide Render, RenderElems, RenderMembers, Preorder, PreorderElems, PreorderMembers;
    UnfoldElems(es, s, first);
    s1 := s + |Separator(first)|;
    var e := Render(es.first);
    PreorderWithin(es.first, s1);
    AtSplit(toks, i, Preorder(es.first, s1), PreorderElems(es.rest, s1 + |e|, false));
    AtSplit(js, s, Separator(first) + e, RenderElems(es.rest, false));
    AtSplit(js, s, Separator(first), e);
  }

  /** The first key, its value and the other members. */
  lemma MemberHere(toks: seq<Token>, js: bytes, i: nat, s: nat, ms: Members, first: bool) returns (s2: nat)
    requires WfMembers(ms) && ms.MoreMembers? && MembersHere(toks, js, i, s, ms, first)
    ensures s2 == s + |Separator(first)| + |ms.key| + 3
    ensures i + 1 < |toks| && toks[i] == KeyToken(ms.key, s2 - |ms.key| - 3) && toks[i].end <= |js|
    ensures TokenText(js, toks[i]) == ms.key
    ensures Here(toks, js, i + 1, s2, ms.value)
    ensures MembersHere(toks, js, i + 1 + Size(ms.value), s2 + |Render(ms.value)|, ms.rest, false)
    ensures i + 1 + Size(ms.value) <= |toks|
  {
    hide Render, RenderElems, RenderMembers, Preorder, PreorderElems, PreorderMembers;
    UnfoldMembers(ms, s, first);
    var s1 := s + |Separator(first)|;
    s2 := s1 + |ms.key| + 3;
    var v := Render(ms.value);
    PreorderWithin(ms.value, s2);
    var rest := PreorderMembers(ms.rest, s2 + |v|, false);
    AtSplit(toks, i, [KeyToken(ms.key, s1)] + Preorder(ms.value, s2), rest);
    AtSplit(toks, i, [KeyToken(ms.key, s1)], Preorder(ms.value, s2));
    AtIndex(toks, i, [KeyToken(ms.key, s1)], 0);
    var key := Quoted(ms.key) + [COLON];
    AtSplit(js, s, Separator(first) + key + v, RenderMembers(ms.rest, false));
    AtSplit(js, s, Separator(first) + key, v);
    AtSplit(js, s, Separator(first), key);
    AtSplit(js, s1, Quoted(ms.key), [COLON]);
    AtSplit(js, s1, [QUOTE] + ms.key, [QUOTE]);
    AtSplit(js, s1, [QUOTE], ms.key);
    AtSlice(js, s1 + 1, ms.key);
  }

  lemma ValueToken(toks: seq<Token>, js: bytes, i: nat, s: nat, j: Json)
    requires Wf(j) && Here(toks, js, i, s, j)
    ensures i < |toks| && IsContainer(toks[i]) == Container(j) && i + Size(j) <= |toks|
    ensures !Container(j) ==> Size(j) == 1
  {
    hide Render, RenderElems, RenderMembers, Preorder, PreorderElems, PreorderMembers;
    PreorderWithin(j, s);
    AtIndex(toks, i, Preorder(j, s), 0);
    match j
    case Prim(_) => UnfoldLeaf(j, s);
    case Str(_) => UnfoldLeaf(j, s);
    case Arr(es) => UnfoldArr(es, s);
    case Obj(ms) => UnfoldObj(ms, s);
  }

  // ---- Skipping by counts on a tree ----

  /** On the tokens of a tree the counts lead just past a container; anything else is not stepped over. */
  lemma {:induction false} JumpsValue(toks: seq<Token>, js: bytes, i: nat, s: nat, j: Json)
    requires Wf(j) && Here(toks, js, i, s, j)
    ensures JumpOver(toks, i) == Jump(if Container(j) then i + Size(j) else i)
    decreases j, 1
  {
    hide Render, RenderElems, RenderMembers, Preorder, PreorderElems, PreorderMembers, At, JumpMembers, JumpElems;
    ValueToken(toks, js, i, s, j);
    match j
    case Prim(_) =>
    case Str(_) =>
    case Arr(es) =>
      ArrHere(toks, js, i, s, es);
      JumpsElems(toks, js, i + 1, s + 1, es, true);
    case Obj(ms) =>
      ObjHere(toks, js, i, s, ms);
      JumpsMembers(toks, js, i + 1, s + 1, ms, true);
  }

  lemma {:induction false} JumpsElems(toks: seq<Token>, js: bytes, i: nat, s: nat, es: Elems, first: bool)
    requires WfElems(es) && ElemsHere(toks, js, i, s, es, first)
    ensures JumpElems(toks, i, es.Count()) == Jump(i + ElemsSize(es))
    ensures i >= |toks| ==> es.NoElems?
    decreases es, 0
  {
    hide Render, RenderElems, RenderMembers, Preorder, PreorderElems, PreorderMembers, At, JumpOver;
    match es
    case NoElems =>
    case MoreElems(e, rest) =>
      var s1 := ElemHere(toks, js, i, s, es, first);
      ValueToken(toks, js, i, s1, e);
      JumpsValue(toks, js, i, s1, e);
      JumpsElems(toks, js, i + Size(e), s1 + |Render(e)|, rest, false);
  }

  lemma {:induction false} JumpsMembers(toks: seq<Token>, js: bytes, i: nat, s: nat, ms: Members, first: bool)
    requires WfMembers(ms) && MembersHere(toks, js, i, s, ms, first)
    ensures JumpMembers(toks, i, ms.Count()) == Jump(i + MembersSize(ms))
    ensures i >= |toks| ==> ms.NoMembers?
    decreases ms, 0
  {
    hide Render, RenderElems, RenderMembers, Preorder, PreorderElems, PreorderMembers, At, JumpOver;
    match ms
    case NoMembers =>
    case MoreMembers(k, v, rest) =>
      var s2 := MemberHere(toks, js, i, s, ms, first);
      ValueToken(toks, js, i + 1, s2, v);
      JumpsValue(toks, js, i + 1, s2, v);
      JumpsMembers(toks, js, i + 1 + Size(v), s2 + |Render(v)|, rest, false);
  }

  // ---- The look-ahead on a tree ----

  /** A search below the top layer finds nothing and walks just past the container. */
  lemma {:induction false} SearchNested(toks: seq<Token>, js: bytes, key: bytes, i: nat, s: nat, j: Json, depth: nat)
    requires Spans(toks, js) && Wf(j) && Container(j) && depth > 0 && Here(toks, js, i, s, j)
    ensures SearchKey(toks, js, key, i, depth) == Search(BadNotFound, i + Size(j), 0)
    decreases j, 1
  {
    hide Render, RenderElems, RenderMembers, Preorder, PreorderElems, PreorderMembers, At;
    ValueToken(toks, js, i, s, j);
    match j
    case Arr(es) =>
      ArrHere(toks, js, i, s, es);
      SearchElemsNested(toks, js, key, i + 1, s + 1, es, true, depth);
    case Obj(ms) =>
      ObjHere(toks, js, i, s, ms);
      SearchMembersNested(toks, js, key, i + 1, s + 1, ms, true, depth);
  }

  lemma {:induction false} SearchElemsNested(toks: seq<Token>, js: bytes, key: bytes, i: nat, s: nat, es: Elems, first: bool, depth: nat)
    requires Spans(toks, js) && WfElems(es) && depth > 0 && ElemsHere(toks, js, i, s, es, first)
    ensures SearchElems(toks, js, key, i, es.Count(), depth, BadNotFound) == Search(BadNotFound, i + ElemsSize(es), 0)
    decreases es, 0
  {
    hide Render, RenderElems, RenderMembers, Preorder, PreorderElems, PreorderMembers, At, SearchKey, ElemsHere, MembersHere, Here;
    match es
    case NoElems =>
    case MoreElems(e, rest) =>
      var s1 := ElemHere(toks, js, i, s, es, first);
      ValueToken(toks, js, i, s1, e);
      if Container(e) {
        SearchNested(toks, js, key, i, s1, e, depth + 1);
      }
      SearchElemsNested(toks, js, key, i + Size(e), s1 + |Render(e)|, rest, false, depth);
  }

  lemma {:induction false} SearchMembersNested(toks: seq<Token>, js: bytes, key: bytes, i: nat, s: nat, ms: Members, first: bool, depth: nat)
    requires Spans(toks, js) && WfMembers(ms) && depth > 0 && MembersHere(toks, js, i, s, ms, first)
    ensures SearchMembers(toks, js, key, i, ms.Count(), depth, BadNotFound) == Search(BadNotFound, i + MembersSize(ms), 0)
    decreases ms, 0
  {
    hide Render, RenderElems, RenderMembers, Preorder, PreorderElems, PreorderMembers, At, SearchKey, ElemsHere, MembersHere, Here;
    match ms
    case NoMembers =>
    case MoreMembers(k, v, rest) =>
      var s2 := MemberHere(toks, js, i, s, ms, first);
      ValueToken(toks, js, i + 1, s2, v);
      if Container(v) {
        SearchNested(toks, js, key, i + 1, s2, v, depth + 1);
      }
      SearchMembersNested(toks, js, key, i + 1 + Size(v), s2 + |Render(v)|, rest, false, depth);
  }

  /** Token index of the value of the first member with this key, when the first key is token `i`; -1 if there is none. */
  function ValueIndex(ms: Members, key: bytes, i: nat): (r: int)
    ensures r == -1 || r > i
  {
    match ms
    case NoMembers => -1
    case MoreMembers(k, v, rest) => if k == key then i + 1 else ValueIndex(rest, key, i + 1 + Size(v))
  }

  predicate HasKey(ms: Members, key: bytes) { ms.MoreMembers? && (ms.key == key || HasKey(ms.rest, key)) }

  lemma {:induction false} SearchTop(toks: seq<Token>, js: bytes, key: bytes, i: nat, s: nat, ms: Members, first: bool)
    requires Spans(toks, js) && WfMembers(ms) && MembersHere(toks, js, i, s, ms, first)
    ensures var r := SearchMembers(toks, js, key, i, ms.Count(), 0, BadNotFound);
            var v := ValueIndex(ms, key, i);
            && (HasKey(ms, key) <==> v != -1)
            && r == if HasKey(ms, key) then Search(Good, v, v) else Search(BadNotFound, i + MembersSize(ms), 0)
    decreases ms
  {
    hide Render, RenderElems, RenderMembers, Preorder, PreorderElems, PreorderMembers, At, SearchKey;
    match ms
    case NoMembers =>
    case MoreMembers(k, v, rest) =>
      var s2 := MemberHere(toks, js, i, s, ms, first);
      ValueToken(toks, js, i + 1, s2, v);
      if k != key {
        if Container(v) {
          SearchNested(toks, js, key, i + 1, s2, v, 1);
        }
        SearchTop(toks, js, key, i + 1 + Size(v), s2 + |Render(v)|, rest, false);
      }
  }

  /**
   On the tokens of an object the look-ahead succeeds exactly when a key of the top layer
   matches, and then reports the value of the first such key; keys of nested objects are ignored.
   */
  lemma LooksAhead(toks: seq<Token>, js: bytes, key: bytes, i: nat, s: nat, ms: Members)
    requires Spans(toks, js) && Wf(Obj(ms)) && Here(toks, js, i, s, Obj(ms))
    ensures var r := SearchKey(toks, js, key, i, 0);
            && (r.status == Good <==> HasKey(ms, key))
            && (r.status == Good ==> r.result == ValueIndex(ms, key, i + 1))
            && (r.status != Good ==> r.status == BadNotFound)
  {
    hide Render, RenderElems, RenderMembers, Preorder, PreorderElems, PreorderMembers, At;
    ValueToken(toks, js, i, s, Obj(ms));
    ObjHere(toks, js, i, s, ms);
    SearchTop(toks, js, key, i + 1, s + 1, ms, true);
  }
}
