/**
 The lines of the Influx backend written out, with their names and marks as literals and the epoch
 counted in the reference calendar, and the proof that every line is sent in the end.
 */
module InfluxLaws {
  import opened Arith
  import opened Bytes
  import opened Influx
  import Itoa
  import LibcTime

  // ---- The fields of a value ----

  function Concat(parts: seq<seq<bytes>>): seq<bytes> {
    if parts == [] then [] else parts[0] + Concat(parts[1..])
  }

  function Named(name: bytes): bytes { if |name| == 0 then Ascii("v") else name }

  /** A printed value under its name, none for null and NaN. */
  function Shown(name: bytes, v: Json): seq<bytes> {
    match TextOf(v)
    case Absent => []
    case Printed(text) => [name + Ascii("=") + text]
  }

  /** An item: a value under its name, or the elements of an array under the name and one to n. */
  function ItemShown(name: bytes, v: Json): seq<bytes> {
    match v
    case Array(elems, _) => Concat(seq(|elems|, i requires 0 <= i < |elems| => Shown(Named(name) + Itoa.Numeral(i + 1, 10), elems[i])))
    case _ => Shown(Named(name), v)
  }

  /** The fields of a value: of itself, of its elements numbered from zero, or of its members. */
  function AllShown(j: Json): seq<bytes> {
    match j
    case Plain(_) => Shown(Ascii("v"), j)
    case Array(elems, _) => Concat(seq(|elems|, i requires 0 <= i < |elems| => ItemShown(Itoa.Numeral(i, 10), elems[i])))
    case Object(members, _) => Concat(seq(|members|, i requires 0 <= i < |members| => ItemShown(members[i].key, members[i].value)))
  }

  function Commas(parts: seq<bytes>): bytes {
    if parts == [] then Ascii("") else parts[0] + (if |parts| == 1 then [] else Ascii(",")) + Commas(parts[1..])
  }

  /** Neither brackets nor commas but those between fields; the member Body, if there is one, stands for the object. */
  lemma FieldsWritten(j: Json)
    ensures (!j.Object? || Member(j.members, Ascii("Body")).None?) ==> FieldsOf(j) == Commas(AllShown(j))
    ensures j.Object? && Member(j.members, Ascii("Body")).Some? ==> FieldsOf(j) == Commas(AllShown(Member(j.members, Ascii("Body")).value))
  {
    hide Fields, Join, Commas, Items, AllShown;
    assert KEY_BODY == Ascii("Body");
    var u := Unwrapped(j);
    FieldsShown(u);
    CommasIsJoin(AllShown(u));
  }

  lemma {:induction false} CommasIsJoin(parts: seq<bytes>)
    ensures Join(parts, COMMA) == Commas(parts)
  {
    Marks();
    if |parts| == 1 {
      assert parts[1..] == [];
      assert parts[0] + [] + [] == parts[0];
    } else if parts != [] {
      CommasIsJoin(parts[1..]);
    }
  }

  lemma Marks()
    ensures Ascii(",") == [COMMA] && Ascii("=") == [EQUALS] && Ascii("v") == [118] && Ascii("") == []
    ensures Ascii(" ") == [SPACE] && Ascii("\n") == [LF]
  {
  }

  lemma FieldsShown(j: Json)
    ensures Fields(Items(j)) == AllShown(j)
  {
    hide Fields, ItemFields, ItemShown, Concat, Itoa.Numeral;
    match j {
      case Plain(_) =>
        OnePlain(j);
      case Array(elems, _) =>
        ItemsConcat(Items(j), seq(|elems|, i requires 0 <= i < |elems| => ItemShown(Itoa.Numeral(i, 10), elems[i])));
      case Object(members, _) =>
        ItemsConcat(members, seq(|members|, i requires 0 <= i < |members| => ItemShown(members[i].key, members[i].value)));
    }
  }

  lemma OnePlain(j: Json)
    requires j.Plain?
    ensures Fields([Item([], j)]) == Shown(Ascii("v"), j)
  {
    Marks();
    assert [Item([], j)][1..] == [];
    assert Fields([]) == [];
  }

  lemma {:induction false} ItemsConcat(items: seq<Item>, parts: seq<seq<bytes>>)
    requires |parts| == |items| && forall i :: 0 <= i < |items| ==> parts[i] == ItemShown(items[i].key, items[i].value)
    ensures Fields(items) == Concat(parts)
  {
    hide ItemFields, ItemShown;
    if items != [] {
      ItemIsShown(items[0]);
      ItemsConcat(items[1..], parts[1..]);
    }
  }

  lemma ItemIsShown(item: Item)
    ensures ItemFields(item) == ItemShown(item.key, item.value)
  {
    hide ArrayFields, Concat, Itoa.Numeral;
    Marks();
    if item.value.Array? {
      var elems := item.value.elems;
      var parts := seq(|elems|, i requires 0 <= i < |elems| => Shown(Named(item.key) + Itoa.Numeral(i + 1, 10), elems[i]));
      ArrayShown(item.key, elems, 0, parts);
      assert parts[0..] == parts;
    }
  }

  lemma {:induction false} ArrayShown(key: bytes, elems: seq<Json>, k: nat, parts: seq<seq<bytes>>)
    requires k <= |elems| == |parts|
    requires forall i :: 0 <= i < |elems| ==> parts[i] == Shown(Named(key) + Itoa.Numeral(i + 1, 10), elems[i])
    ensures ArrayFields(key, elems, k) == Concat(parts[k..])
    decreases |elems| - k
  {
    hide Itoa.Numeral;
    Marks();
    if k < |elems| {
      ArrayShown(key, elems, k + 1, parts);
      assert parts[k..][1..] == parts[k + 1..];
    }
  }

  // ---- The line ----

  /** Days from 1601 to 1970, in ticks of 100 nanoseconds. */
  lemma EpochIs()
    ensures UNIX_EPOCH == (LibcTime.YearStart(1970) - LibcTime.YearStart(1601)) * 86_400 * 10_000_000
  {
    LibcTime.YearStartIs(1601);
    LibcTime.YearStartIs(1970);
  }

  /**
   A line is the name, a space, the fields, a space, and the milliseconds since 1970 if there is a
   time; a time counts ticks of 100 nanoseconds since 1601.
   */
  lemma LineWritten(name: bytes, fields: bytes, millis: nat, ticks: nat)
    requires ticks < 10_000
    ensures LineOf(name, fields, 0) == Underscored(name) + Ascii(" ") + fields + Ascii(" ")
    ensures var epoch := (LibcTime.YearStart(1970) - LibcTime.YearStart(1601)) * 864_000_000_000;
            && epoch > 0
            && (epoch + 10_000 * millis + ticks < 0x1_0000_0000_0000_0000 ==>
                  LineOf(name, fields, epoch + 10_000 * millis + ticks)
                    == Underscored(name) + Ascii(" ") + fields + Ascii(" ") + Itoa.Numeral(millis, 10))
  {
    hide Itoa.Numeral, Underscored, LibcTime.YearStart;
    EpochIs();
    Marks();
    MillisOf(millis, ticks);
    assert Underscored(name) + [SPACE] + fields + [SPACE] + [] == Underscored(name) + [SPACE] + fields + [SPACE];
  }

  lemma MillisOf(millis: nat, ticks: nat)
    requires ticks < 10_000
    ensures (UNIX_EPOCH + 10_000 * millis + ticks - UNIX_EPOCH) / 10_000 == millis
    ensures UNIX_EPOCH + 10_000 * millis + ticks < SIZE_LIMIT ==>
      (UNIX_EPOCH + 10_000 * millis + ticks - UNIX_EPOCH) % SIZE_LIMIT == 10_000 * millis + ticks
  {
    DivModOf(millis, ticks, 10_000);
    if UNIX_EPOCH + 10_000 * millis + ticks < SIZE_LIMIT { DivModOf(0, 10_000 * millis + ticks, SIZE_LIMIT); }
  }

  /** A time before 1970 counts, in milliseconds, from 2^64 ticks down. */
  lemma EarlyLineWritten(name: bytes, fields: bytes, before: nat)
    requires var epoch := (LibcTime.YearStart(1970) - LibcTime.YearStart(1601)) * 864_000_000_000; 0 < before < epoch
    ensures var epoch := (LibcTime.YearStart(1970) - LibcTime.YearStart(1601)) * 864_000_000_000;
            && epoch < 0x1_0000_0000_0000_0000
            && LineOf(name, fields, epoch - before) == Underscored(name) + Ascii(" ") + fields + Ascii(" ")
                                                       + Itoa.Numeral((0x1_0000_0000_0000_0000 - before) / 10_000, 10)
  {
    hide Itoa.Numeral, Underscored, LibcTime.YearStart;
    EpochIs();
    Marks();
    Wraps(before);
  }

  lemma Wraps(before: nat)
    requires 0 < before < UNIX_EPOCH
    ensures (UNIX_EPOCH - before - UNIX_EPOCH) % SIZE_LIMIT == 0x1_0000_0000_0000_0000 - before
  {
    DivModOf(-1, SIZE_LIMIT - before, SIZE_LIMIT);
  }

  // ---- Sending ----

  /** The rest of a round that may be under way, and one more round. */
  const ROUNDS: seq<Action> := [PushJob, StartJob, RunJob, TakeBucket, PushJob, StartJob, RunJob]

  /** From `s` on, the steps in order. */
  function Steps(s: Backend, acts: seq<Action>): Backend
    decreases |acts|
  {
    if acts == [] then s else Steps(Step(s, acts[0]), acts[1..])
  }

  lemma {:induction false} ExecSteps(before: seq<Action>, acts: seq<Action>)
    ensures Exec(before + acts) == Steps(Exec(before), acts)
    decreases |acts|
  {
    hide Step;
    if acts == [] {
      assert before + acts == before;
    } else {
      assert (before + [acts[0]]) + acts[1..] == before + acts;
      assert (before + [acts[0]])[..|before|] == before;
      ExecSteps(before + [acts[0]], acts[1..]);
    }
  }

  /** No step waits for ever: unless the worker is told to end, the rounds send every line appended so far. */
  lemma Flushes(acts: seq<Action>)
    requires !Exec(acts).worker.terminate && !Exec(acts).worker.stopped
    ensures var s := Exec(acts + ROUNDS);
            && s.bucket == [] && s.writing.None? && s.worker.buffer == [] && s.worker.running.None? && s.due == 1
            && Text(s.sent) == Text(Appends(acts))
  {
    hide Exec, Step, Steps, Text, Appends, Unsent;
    var s := Exec(acts);
    ExecKeepsInv(acts);
    ExecSteps(acts, ROUNDS);
    Rounds(s);
    NothingLostBeforeSending(acts + ROUNDS);
    AppendsNone(acts, ROUNDS);
    UnsentOne([]);
    var e := Exec(acts + ROUNDS);
    assert e.sent + [] == e.sent;
  }

  lemma {:induction false} AppendsNone(acts: seq<Action>, more: seq<Action>)
    requires forall k :: 0 <= k < |more| ==> !more[k].Append?
    ensures Appends(acts + more) == Appends(acts)
    decreases |more|
  {
    if more == [] {
      assert acts + more == acts;
    } else {
      var n := |more| - 1;
      assert (acts + more)[..|acts + more| - 1] == acts + more[..n];
      AppendsNone(acts, more[..n]);
    }
  }

  ghost predicate Idle(s: Backend) {
    s.due == 1 && s.writing.None? && s.worker.buffer == [] && s.worker.bufferPriority == [] && s.worker.running.None?
    && !s.worker.terminate && !s.worker.stopped
  }

  /** A round under way ends. */
  lemma Round(s: Backend)
    requires Inv(s) && !s.worker.terminate && !s.worker.stopped
    ensures Idle(Step(Step(Step(s, PushJob), StartJob), RunJob))
  {
    hide Flatten, Messages, Unsent, Text;
  }

  lemma Rounds(s: Backend)
    requires Inv(s) && !s.worker.terminate && !s.worker.stopped
    ensures var e := Steps(s, ROUNDS); Idle(e) && e.bucket == [] && Pending(e) == []
  {
    hide Step, Inv, Idle;
    Round(s);
    var s3 := Step(Step(Step(s, PushJob), StartJob), RunJob);
    OneMoreRound(s3);
    SevenSteps(s);
  }

  lemma OneMoreRound(s: Backend)
    requires Idle(s)
    ensures var e := Step(Step(Step(Step(s, TakeBucket), PushJob), StartJob), RunJob); Idle(e) && e.bucket == [] && Pending(e) == []
  {
  }

  lemma SevenSteps(s: Backend)
    ensures Steps(s, ROUNDS) ==
      Step(Step(Step(Step(Step(Step(Step(s, PushJob), StartJob), RunJob), TakeBucket), PushJob), StartJob), RunJob)
  {
    hide Step;
    StepsTwice(s, ROUNDS);
    StepsTwice(Step(Step(s, PushJob), StartJob), ROUNDS[2..]);
    StepsTwice(Step(Step(Step(Step(s, PushJob), StartJob), RunJob), TakeBucket), ROUNDS[4..]);
    assert ROUNDS[2..][2..] == ROUNDS[4..] && ROUNDS[4..][2..] == [RunJob] && [RunJob][1..] == [];
  }

  lemma StepsTwice(s: Backend, acts: seq<Action>)
    requires |acts| >= 2
    ensures Steps(s, acts) == Steps(Step(Step(s, acts[0]), acts[1]), acts[2..])
  {
    hide Step;
    assert acts[1..][1..] == acts[2..];
  }
}
