/** What the tokenizer keeps on every input: resumption, the counting pass, and the shape of the tokens. */
module JsmnProps {
  import opened Bytes
  import opened Jsmn

  // ---- Resuming ----

  lemma {:induction false} ScanPrimitiveExtends(js: bytes, more: bytes, i: nat)
    requires js <= more && ScanPrimitive(js, i).Found?
    ensures ScanPrimitive(more, i) == ScanPrimitive(js, i)
    decreases |js| - i
  {
    if !EndsPrimitive(js[i]) {
      ScanPrimitiveExtends(js, more, i + 1);
    }
  }

  lemma {:induction false} ScanHexExtends(js: bytes, more: bytes, i: nat, n: nat)
    requires js <= more && ScanHex(js, i, n).Found?
    ensures ScanHex(more, i, n) == ScanHex(js, i, n) || ScanHex(js, i, n).end >= |js|
    decreases n
  {
    if n > 0 && i < |js| && js[i] != NUL {
      ScanHexExtends(js, more, i + 1, n - 1);
    }
  }

  lemma {:induction false} ScanStringExtends(js: bytes, more: bytes, i: nat)
    requires js <= more && ScanString(js, i).Found?
    ensures ScanString(more, i) == ScanString(js, i)
    decreases |js| - i
  {
    if js[i] == QUOTE {
    } else if js[i] == BACKSLASH && i + 1 < |js| {
      if SimpleEscape(js[i + 1]) {
        ScanStringExtends(js, more, i + 2);
      } else {
        var h := ScanHex(js, i + 2, 4);
        ScanHexExtends(js, more, i + 2, 4);
        ScanStringExtends(js, more, h.end);
      }
    } else {
      ScanStringExtends(js, more, i + 1);
    }
  }

  /** A step that succeeds does the same on a longer text with more token slots. */
  lemma StepExtends(js: bytes, more: bytes, cap: nat, cap': nat, p: Parser)
    requires js <= more && cap <= cap' && Valid(p) && Live(js, p)
    requires StepAt(js, cap, p).Next?
    ensures StepAt(more, cap', p) == StepAt(js, cap, p)
  {
    var c := js[p.pos];
    if c == QUOTE {
      ScanStringExtends(js, more, p.pos + 1);
    } else if StartsPrimitive(c) {
      ScanPrimitiveExtends(js, more, p.pos);
    }
  }

  /**
   The resume theorem.  Whatever a first call on a prefix of the text (or with too few token
   slots) returned, calling again from the state it left, on the whole text and with at least
   as many slots, gives the result and the tokens of one call on the whole text.
   */
  lemma {:induction false} Resume(js: bytes, more: bytes, cap: nat, cap': nat, p: Parser)
    requires js <= more && cap <= cap' && Valid(p)
    ensures Run(more, cap', Run(js, cap, p).0) == Run(more, cap', p)
    decreases |js| - p.pos
  {
    if Live(js, p) {
      match StepAt(js, cap, p)
      case Next(q) =>
        StepExtends(js, more, cap, cap', p);
        Resume(js, more, cap, cap', q);
      case Stop(_) =>
    }
  }

  /** A call that returns a count on `cap` slots needed no more than `cap`, and more slots change nothing. */
  lemma {:induction false} MoreSlots(js: bytes, cap: nat, cap': nat, p: Parser)
    requires cap <= cap' && Valid(p) && |p.toks| <= cap
    ensures Run(js, cap, p).1 != ERROR_NOMEM ==> Run(js, cap', p) == Run(js, cap, p)
    ensures |Run(js, cap, p).0.toks| <= cap
    ensures Run(js, cap, p).1 >= 0 ==> Run(js, cap, p).1 == |Run(js, cap, p).0.toks|
    decreases |js| - p.pos
  {
    if Live(js, p) {
      match StepAt(js, cap, p)
      case Next(q) =>
        StepExtends(js, js, cap, cap', p);
        MoreSlots(js, cap, cap', q);
      case Stop(_) =>
    }
  }

  // ---- The counting pass ----

  /** On every text, a call that succeeds with tokens returns what the counting pass returns. */
  lemma {:induction false} CountAgrees(js: bytes, cap: nat, p: Parser)
    requires Valid(p) && Run(js, cap, p).1 >= 0
    ensures CountRun(js, p.pos, |p.toks|) == Run(js, cap, p).1
    decreases |js| - p.pos
  {
    if Live(js, p) {
      CountAgrees(js, cap, StepAt(js, cap, p).p);
    }
  }

  // ---- The shape of the tokens ----

  predicate Placed(t: Token, pos: nat) {
    0 <= t.start <= pos && (t.end == -1 || t.start <= t.end <= pos)
    && (IsOpen(t) ==> IsContainer(t) && t.start < pos)
  }

  /** `u`, allocated after `t`, starts after it and lies inside it or beyond it. */
  predicate Laminar(t: Token, u: Token) {
    t.start < u.start
    && (IsOpen(t) || t.end <= u.start || (!IsOpen(u) && u.end <= t.end))
  }

  /** Starts strictly increase, spans are nested or disjoint, only containers are open. */
  ghost predicate Shape(p: Parser) {
    Valid(p)
    && (forall i :: 0 <= i < |p.toks| ==> Placed(p.toks[i], p.pos))
    && (forall i, j :: 0 <= i < j < |p.toks| ==> Laminar(p.toks[i], p.toks[j]))
    && (forall i :: 0 <= i < |p.toks| && !IsContainer(p.toks[i]) && i + 1 < |p.toks| ==> p.toks[i].end <= p.toks[i + 1].start)
    && (|p.toks| > 0 ==> p.toks[|p.toks| - 1].start < p.pos)
  }

  lemma AllocShape(p: Parser, t: Token, cap: nat, pos: nat, super: int)
    requires Shape(p) && -1 <= super <= |p.toks| && Alloc(p, t, cap, pos, super).Next?
    requires p.pos <= t.start < pos && Placed(t, pos)
    ensures Shape(Alloc(p, t, cap, pos, super).p)
  {
    var q := Alloc(p, t, cap, pos, super).p;
    forall i | 0 <= i < |p.toks|
      ensures q.toks[i].(size := 0) == p.toks[i].(size := 0)
      ensures Laminar(q.toks[i], t)
    {
      if i < |p.toks| - 1 {
        assert Laminar(p.toks[i], p.toks[|p.toks| - 1]);
      }
    }
    forall i, j | 0 <= i < j < |q.toks|
      ensures Laminar(q.toks[i], q.toks[j])
    {
      if j < |p.toks| {
        assert Laminar(p.toks[i], p.toks[j]);
      }
    }
    forall i | 0 <= i < |q.toks|
      ensures Placed(q.toks[i], q.pos)
    {
      if i < |p.toks| {
        assert Placed(p.toks[i], p.pos);
      }
    }
  }

  lemma CloseShape(p: Parser, typ: TokType)
    requires Shape(p) && CloseStep(p, typ).Next?
    ensures Shape(CloseStep(p, typ).p)
  {
    var k := LastOpen(p.toks, |p.toks|);
    var q := CloseStep(p, typ).p;
    assert Placed(p.toks[k], p.pos);
    forall i | 0 <= i < |q.toks|
      ensures Placed(q.toks[i], q.pos)
    {
      assert Placed(p.toks[i], p.pos);
    }
    forall i, j | 0 <= i < j < |q.toks|
      ensures Laminar(q.toks[i], q.toks[j])
    {
      assert Laminar(p.toks[i], p.toks[j]);
      assert Placed(p.toks[i], p.pos) && Placed(p.toks[j], p.pos);
    }
  }

  /** Every character the tokenizer consumes keeps the shape, on any text. */
  lemma StepShape(js: bytes, cap: nat, p: Parser)
    requires Shape(p) && Live(js, p) && StepAt(js, cap, p).Next?
    ensures Shape(StepAt(js, cap, p).p)
  {
    var c := js[p.pos];
    var q := StepAt(js, cap, p).p;
    if c == LBRACE || c == LBRACKET {
      AllocShape(p, Token(if c == LBRACE then Object else Array, p.pos, -1, 0), cap, p.pos + 1, |p.toks|);
    } else if c == RBRACE || c == RBRACKET {
      CloseShape(p, if c == RBRACE then Object else Array);
    } else if c == QUOTE {
      var e := ScanString(js, p.pos + 1).end;
      AllocShape(p, Token(String, p.pos + 1, e, 0), cap, e + 1, p.super);
    } else if StartsPrimitive(c) {
      var e := ScanPrimitive(js, p.pos).end;
      PrimitiveMoves(js, p.pos, e);
      AllocShape(p, Token(Primitive, p.pos, e, 0), cap, e, p.super);
    } else {
      assert q.toks == p.toks;
      forall i | 0 <= i < |q.toks|
        ensures Placed(q.toks[i], q.pos)
      {
        assert Placed(p.toks[i], p.pos);
      }
    }
  }

  function SumSizes(toks: seq<Token>): nat {
    if toks == [] then 0 else SumSizes(toks[..|toks| - 1]) + toks[|toks| - 1].size
  }

  /** The tokens a run allocates while there is no superior token. */
  function RootAllocs(js: bytes, cap: nat, p: Parser): nat
    requires Valid(p)
    decreases |js| - p.pos
  {
    if !Live(js, p) || StepAt(js, cap, p).Stop? then 0
    else
      var q := StepAt(js, cap, p).p;
      (if |q.toks| > |p.toks| && p.super == -1 then 1 else 0) + RootAllocs(js, cap, q)
  }

  lemma {:induction false} SumUpdate(toks: seq<Token>, k: nat, t: Token)
    requires k < |toks|
    ensures SumSizes(toks[k := t]) == SumSizes(toks) - toks[k].size + t.size
  {
    var n := |toks| - 1;
    if k < n {
      assert toks[k := t][..n] == toks[..n][k := t];
      SumUpdate(toks[..n], k, t);
    } else {
      assert toks[k := t][..n] == toks[..n];
    }
  }

  lemma StepSum(js: bytes, cap: nat, p: Parser)
    requires Valid(p) && Live(js, p) && StepAt(js, cap, p).Next?
    ensures var q := StepAt(js, cap, p).p;
            SumSizes(q.toks) - |q.toks| == SumSizes(p.toks) - |p.toks|
              - (if |q.toks| > |p.toks| && p.super == -1 then 1 else 0)
  {
    var q := StepAt(js, cap, p).p;
    if |q.toks| > |p.toks| {
      assert q.toks[..|p.toks|] == Bump(p.toks, p.super);
      if p.super != -1 {
        SumUpdate(p.toks, p.super, q.toks[p.super]);
      }
    } else if q.toks != p.toks {
      var k := LastOpen(p.toks, |p.toks|);
      SumUpdate(p.toks, k, q.toks[k]);
    }
  }

  lemma {:induction false} RunKeepsShape(js: bytes, cap: nat, p: Parser)
    requires Shape(p)
    ensures Shape(Run(js, cap, p).0)
    decreases |js| - p.pos
  {
    hide Shape;
    ShapeValid(p);
    if Live(js, p) && StepAt(js, cap, p).Next? {
      StepShape(js, cap, p);
      RunKeepsShape(js, cap, StepAt(js, cap, p).p);
    }
  }

  lemma ShapeValid(p: Parser)
    requires Shape(p)
    ensures Valid(p)
  {
  }

  lemma {:induction false} RunSum(js: bytes, cap: nat, p: Parser)
    requires Valid(p)
    ensures var q := Run(js, cap, p).0;
            SumSizes(q.toks) - |q.toks| == SumSizes(p.toks) - |p.toks| - RootAllocs(js, cap, p)
    decreases |js| - p.pos
  {
    hide SumSizes;
    if Live(js, p) && StepAt(js, cap, p).Next? {
      StepSum(js, cap, p);
      RunSum(js, cap, StepAt(js, cap, p).p);
    }
  }

  lemma {:induction false} RunCloses(js: bytes, cap: nat, p: Parser)
    requires Valid(p)
    ensures var (q, r) := Run(js, cap, p); r >= 0 ==> r == |q.toks| && LastOpen(q.toks, |q.toks|) == -1
    decreases |js| - p.pos
  {
    if Live(js, p) && StepAt(js, cap, p).Next? {
      RunCloses(js, cap, StepAt(js, cap, p).p);
    }
  }

  /**
   Over a whole call on any text: the shape is kept, the sizes add up to the tokens allocated
   less those allocated without a superior token, and a count is returned only when nothing is
   left open.
   */
  lemma RunShape(js: bytes, cap: nat, p: Parser)
    requires Shape(p)
    ensures var (q, r) := Run(js, cap, p);
            && Shape(q)
            && SumSizes(q.toks) - |q.toks| == SumSizes(p.toks) - |p.toks| - RootAllocs(js, cap, p)
            && (r >= 0 ==> r == |q.toks| && forall i :: 0 <= i < |q.toks| ==> !IsOpen(q.toks[i]))
  {
    hide Run, SumSizes, RootAllocs;
    RunKeepsShape(js, cap, p);
    RunSum(js, cap, p);
    RunCloses(js, cap, p);
  }

  /** What every caller gets from a successful call: closed spans inside the text, in increasing order, nested or disjoint. */
  lemma ParsedTokens(js: bytes, cap: nat)
    requires Run(js, cap, Init).1 >= 0
    ensures var (q, r) := Run(js, cap, Init);
            && r == |q.toks| && q.pos <= |js|
            && (forall i :: 0 <= i < r ==> 0 <= q.toks[i].start <= q.toks[i].end <= |js|)
            && (forall i, j :: 0 <= i < j < r ==>
                  q.toks[i].start < q.toks[j].start
                  && (q.toks[i].end <= q.toks[j].start || q.toks[j].end <= q.toks[i].end))
            && SumSizes(q.toks) == r - RootAllocs(js, cap, Init)
  {
    RunShape(js, cap, Init);
    RunInside(js, cap, Init);
    var (q, r) := Run(js, cap, Init);
    forall i | 0 <= i < r
      ensures 0 <= q.toks[i].start <= q.toks[i].end <= |js|
    {
      assert Placed(q.toks[i], q.pos);
    }
    forall i, j | 0 <= i < j < r
      ensures q.toks[i].start < q.toks[j].start
      ensures q.toks[i].end <= q.toks[j].start || q.toks[j].end <= q.toks[i].end
    {
      assert Laminar(q.toks[i], q.toks[j]);
    }
  }

  lemma {:induction false} RunInside(js: bytes, cap: nat, p: Parser)
    requires Valid(p) && p.pos <= |js|
    ensures Run(js, cap, p).0.pos <= |js|
    decreases |js| - p.pos
  {
    if Live(js, p) && StepAt(js, cap, p).Next? {
      RunInside(js, cap, StepAt(js, cap, p).p);
    }
  }
}
