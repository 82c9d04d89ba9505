/**
 The Influx history backend: values become lines in a bucket, and a cycle of timer, write and
 worker job sends what the bucket holds (ELITPCdcs/server/src/DCSHistoryBackendInflux.cpp).
 Sections under the bucket mutex, pushes to the worker and the worker's own sections are steps.
 */
module Influx {
  import opened Bytes
  import Itoa
  import W = Worker

  const UNDERSCORE: byte := 95
  const EQUALS: byte := 61
  const UNIX_EPOCH: nat := 116_444_736_000_000_000
  const MSEC: nat := 10_000
  const SIZE_LIMIT: int := 0x1_0000_0000_0000_0000

  // ---- One value as a line ----

  /** What the stream prints of a value; null and the string "NaN" are left out. */
  datatype Scalar = Absent | Printed(text: bytes)

  /** A JSON value; arrays and objects, too, carry the text they are printed as. */
  datatype Json = Plain(value: Scalar) | Array(elems: seq<Json>, text: bytes) | Object(members: seq<Item>, text: bytes)

  datatype Item = Item(key: bytes, value: Json)

  const KEY_BODY: bytes := [66, 111, 100, 121]

  function TextOf(j: Json): Scalar { if j.Plain? then j.value else Printed(j.text) }

  /** The value of the first member with this key. */
  function Member(members: seq<Item>, key: bytes): (r: Option<Json>)
    ensures r.None? <==> forall k :: 0 <= k < |members| ==> members[k].key != key
    ensures r.Some? ==> exists k :: 0 <= k < |members| && members[k] == Item(key, r.value) && forall i :: 0 <= i < k ==> members[i].key != key
  {
    if members == [] then None
    else if members[0].key == key then Some(members[0].value)
    else
      var r := Member(members[1..], key);
      assert forall k :: 0 <= k < |members| - 1 ==> members[1..][k] == members[k + 1];
      r
  }

  /** An object around a body is taken off. */
  function Unwrapped(j: Json): Json {
    if j.Object? && Member(j.members, KEY_BODY).Some? then Member(j.members, KEY_BODY).value else j
  }

  /** The items of a value: the members of an object, the numbered elements of an array, or the value itself without a key. */
  function Items(j: Json): seq<Item> {
    match j
    case Plain(_) => [Item([], j)]
    case Array(elems, _) => seq(|elems|, i requires 0 <= i < |elems| => Item(Itoa.Numeral(i, 10), elems[i]))
    case Object(members, _) => members
  }

  function Join(parts: seq<bytes>, separator: byte): bytes {
    if parts == [] then [] else if |parts| == 1 then parts[0] else parts[0] + [separator] + Join(parts[1..], separator)
  }

  function Key(key: bytes): bytes { if key == [] then [118] else key }

  /** The fields of an array: its elements numbered from one. */
  function ArrayFields(key: bytes, values: seq<Json>, i: nat): seq<bytes>
    requires i <= |values|
    decreases |values| - i
  {
    if i == |values| then []
    else
      var v := TextOf(values[i]);
      (if v.Printed? then [Key(key) + Itoa.Numeral(i + 1, 10) + [EQUALS] + v.text] else []) + ArrayFields(key, values, i + 1)
  }

  function ItemFields(item: Item): seq<bytes> {
    var v := TextOf(item.value);
    if item.value.Array? then ArrayFields(item.key, item.value.elems, 0)
    else if v.Printed? then [Key(item.key) + [EQUALS] + v.text]
    else []
  }

  /** The fields of the items. */
  function Fields(items: seq<Item>): seq<bytes> {
    if items == [] then [] else ItemFields(items[0]) + Fields(items[1..])
  }

  function FieldsOf(json: Json): bytes { Join(Fields(Items(Unwrapped(json))), COMMA) }

  /** Each part with the byte `mark` after it. */
  function Ended(parts: seq<bytes>, mark: byte): bytes {
    if parts == [] then [] else parts[0] + [mark] + Ended(parts[1..], mark)
  }

  lemma {:induction false} EndedSplit(a: seq<bytes>, b: seq<bytes>, mark: byte)
    ensures Ended(a + b, mark) == Ended(a, mark) + Ended(b, mark)
  {
    if a == [] {
      assert a + b == b;
    } else {
      assert (a + b)[1..] == a[1..] + b;
      EndedSplit(a[1..], b, mark);
    }
  }

  lemma EndedOne(part: bytes, mark: byte)
    ensures Ended([part], mark) == part + [mark] && Ended([], mark) == []
  {
    assert [part][1..] == [];
  }

  /** It is the parts joined by marks, and a last mark. */
  lemma {:induction false} EndedIsJoin(parts: seq<bytes>, mark: byte)
    requires parts != []
    ensures Ended(parts, mark) == Join(parts, mark) + [mark]
  {
    if |parts| == 1 {
      assert Ended(parts[1..], mark) == [];
    } else {
      EndedIsJoin(parts[1..], mark);
      assert Ended(parts, mark) == (parts[0] + [mark]) + Ended(parts[1..], mark);
    }
  }

  lemma FieldsStep(items: seq<Item>, n: nat)
    requires n < |items|
    ensures Ended(Fields(items[n..]), COMMA) == Ended(ItemFields(items[n]), COMMA) + Ended(Fields(items[n + 1..]), COMMA)
  {
    hide Ended, ItemFields;
    assert items[n..][1..] == items[n + 1..];
    EndedSplit(ItemFields(items[n]), Fields(items[n + 1..]), COMMA);
  }

  lemma ArrayStep(key: bytes, values: seq<Json>, i: nat)
    requires i < |values|
    ensures var v := TextOf(values[i]);
            var part := if v.Printed? then Key(key) + Itoa.Numeral(i + 1, 10) + [EQUALS] + v.text + [COMMA] else [];
            Ended(ArrayFields(key, values, i), COMMA) == part + Ended(ArrayFields(key, values, i + 1), COMMA)
  {
    hide Ended, Itoa.Numeral;
    if TextOf(values[i]).Printed? {
      var part := Key(key) + Itoa.Numeral(i + 1, 10) + [EQUALS] + TextOf(values[i]).text;
      EndedSplit([part], ArrayFields(key, values, i + 1), COMMA);
      EndedOne(part, COMMA);
    } else {
      assert [] + ArrayFields(key, values, i + 1) == ArrayFields(key, values, i + 1);
    }
  }

  /** The fields of a value, its body taken out, `key=text` each, joined by commas. */
  method ToInflux(json: Json) returns (s: bytes)
    ensures s == FieldsOf(json)
  {
    hide Itoa.Numeral, Ended, Fields, ArrayFields, Items, Unwrapped, ItemFields;
    var items := Items(Unwrapped(json));
    s := [];
    var n := 0;
    assert items[0..] == items;
    while n < |items|
      invariant 0 <= n <= |items|
      invariant s + Ended(Fields(items[n..]), COMMA) == Ended(Fields(items), COMMA)
    {
      ghost var s0 := s;
      FieldsStep(items, n);
      ItemIs(items[n]);
      var k, v := items[n].key, items[n].value;
      var printed := TextOf(v);
      if v.Array? {
        s := AppendArray(s, k, v.elems);
      } else if printed.Printed? {
        s := s + (Key(k) + [EQUALS] + printed.text + [COMMA]);
        EndedOne(Key(k) + [EQUALS] + printed.text, COMMA);
      } else {
        EndedOne([], COMMA);
      }
      assert s == s0 + Ended(ItemFields(items[n]), COMMA);
      n := n + 1;
    }
    assert items[|items|..] == [];
    EndedOne([], COMMA);
    assert Fields([]) == [] by { NoFields(); }
    if Fields(items) != [] {
      EndedIsJoin(Fields(items), COMMA);
    }
    assert s == Ended(Fields(items), COMMA);
    if s != [] {
      s := s[..|s| - 1];
    }
  }

  lemma ItemIs(item: Item)
    ensures ItemFields(item) ==
      if item.value.Array? then ArrayFields(item.key, item.value.elems, 0)
      else if TextOf(item.value).Printed? then [Key(item.key) + [EQUALS] + TextOf(item.value).text]
      else []
  {
  }

  lemma NoFields()
    ensures Fields([]) == []
  {
  }

  /** The inner loop: the elements of an array. */
  method AppendArray(stream: bytes, key: bytes, values: seq<Json>) returns (s: bytes)
    ensures s == stream + Ended(ArrayFields(key, values, 0), COMMA)
  {
    hide Itoa.Numeral, Ended;
    s := stream;
    for i := 0 to |values|
      invariant s + Ended(ArrayFields(key, values, i), COMMA) == stream + Ended(ArrayFields(key, values, 0), COMMA)
    {
      ghost var s0 := s;
      ArrayStep(key, values, i);
      var v := TextOf(values[i]);
      if v.Printed? {
        s := s + (Key(key) + Itoa.Numeral(i + 1, 10) + [EQUALS] + v.text + [COMMA]);
      }
    }
    EndedOne([], COMMA);
  }

  /** Spaces in the name of a variable become underscores. */
  function Underscored(name: bytes): (r: bytes)
    ensures |r| == |name| && SPACE !in r
    ensures forall i :: 0 <= i < |name| ==> r[i] == if name[i] == SPACE then UNDERSCORE else name[i]
  {
    if name == [] then [] else [if name[0] == SPACE then UNDERSCORE else name[0]] + Underscored(name[1..])
  }

  /** The line of a value without its newline; a zero time prints nothing, one before 1970 wraps around. */
  function LineOf(name: bytes, fields: bytes, time: nat): bytes {
    Underscored(name) + [SPACE] + fields + [SPACE]
    + if time == 0 then [] else Itoa.Numeral((time - UNIX_EPOCH) % SIZE_LIMIT / MSEC, 10)
  }

  // ---- The cycle ----

  /** Lines, each with its newline. */
  function Text(lines: seq<bytes>): bytes { Ended(lines, LF) }

  /**
   `due` counts the writes to come: the one the constructor makes or the pending timer.  The last
   three fields are history: the lines in the bucket, the batches taken from it, all lines.
   */
  datatype Backend = Backend(
    bucket: bytes,
    writing: Option<bytes>,
    worker: W.Worker<bytes>,
    due: nat,
    sent: seq<bytes>,
    bucketLines: seq<bytes>,
    batches: seq<seq<bytes>>,
    appended: seq<bytes>)

  datatype Action = Append(line: bytes) | TakeBucket | PushJob | StartJob | RunJob | Terminate

  function Start(): Backend { Backend([], None, W.Init(), 1, [], [], [], []) }

  /** What a job hands to the database: nothing, or the batch without its last newline. */
  function Message(messages: bytes): seq<bytes> { if messages == [] then [] else [messages[..|messages| - 1]] }

  /** A step; one that has to wait changes nothing. */
  function Step(s: Backend, a: Action): Backend {
    match a
    case Append(line) =>
      s.(bucket := s.bucket + line + [LF], bucketLines := s.bucketLines + [line], appended := s.appended + [line])
    case TakeBucket =>
      if s.due == 0 || s.writing.Some? then s
      else s.(due := s.due - 1, writing := Some(s.bucket), bucket := [], batches := s.batches + [s.bucketLines], bucketLines := [])
    case PushJob =>
      if s.writing.None? then s
      else s.(writing := None, worker := W.Step(s.worker, W.Push(false, s.writing.value)))
    case StartJob => s.(worker := W.Step(s.worker, W.Take))
    case RunJob =>
      if s.worker.running.None? then s
      else s.(sent := s.sent + Message(s.worker.running.value), due := s.due + 1, worker := W.Step(s.worker, W.Finish))
    case Terminate => s.(worker := W.Step(s.worker, W.Terminate))
  }

  function Exec(acts: seq<Action>): Backend {
    if acts == [] then Start() else Step(Exec(acts[..|acts| - 1]), acts[|acts| - 1])
  }

  function Appends(acts: seq<Action>): seq<bytes> {
    if acts == [] then []
    else
      var a := acts[|acts| - 1];
      Appends(acts[..|acts| - 1]) + if a.Append? then [a.line] else []
  }

  function Flatten(batches: seq<seq<bytes>>): seq<bytes> {
    if batches == [] then [] else Flatten(batches[..|batches| - 1]) + batches[|batches| - 1]
  }

  /** The messages of the batches: the lines of each one joined by newlines; an empty batch is not sent. */
  function Messages(batches: seq<seq<bytes>>): seq<bytes> {
    if batches == [] then []
    else
      var b := batches[|batches| - 1];
      Messages(batches[..|batches| - 1]) + if b == [] then [] else [Join(b, LF)]
  }

  /** The batches taken and not yet sent: in the hands of write, queued, or held by the running job. */
  function Pending(s: Backend): seq<bytes> {
    (if s.writing.Some? then [s.writing.value] else []) + s.worker.buffer + W.Running(s.worker)
  }

  function Unsent(pending: seq<bytes>): seq<bytes> {
    if pending == [] then [] else Message(pending[0]) + Unsent(pending[1..])
  }

  ghost predicate Inv(s: Backend) {
    && s.due + |Pending(s)| == 1
    && s.worker.bufferPriority == []
    && s.bucket == Text(s.bucketLines)
    && s.appended == Flatten(s.batches) + s.bucketLines
    && Messages(s.batches) == s.sent + Unsent(Pending(s))
  }

  lemma UnsentOne(b: bytes)
    ensures Unsent([b]) == Message(b) && Unsent([]) == []
  {
    assert [b][1..] == [];
  }

  lemma OneBatchMore(batches: seq<seq<bytes>>, b: seq<bytes>)
    ensures Flatten(batches + [b]) == Flatten(batches) + b
    ensures Messages(batches + [b]) == Messages(batches) + Message(Text(b))
  {
    assert (batches + [b])[..|batches|] == batches;
    if b != [] {
      EndedIsJoin(b, LF);
    }
  }

  lemma StepKeepsInv(s: Backend, a: Action)
    requires Inv(s)
    ensures Inv(Step(s, a))
  {
    hide Ended, Flatten, Messages, Unsent;
    match a {
      case Append(line) =>
        EndedSplit(s.bucketLines, [line], LF);
        EndedOne(line, LF);
      case TakeBucket =>
        if s.due > 0 && s.writing.None? {
          OneBatchMore(s.batches, s.bucketLines);
          UnsentOne(s.bucket);
          assert Pending(s) == [] && Pending(Step(s, a)) == [s.bucket];
          EndedOne([], LF);
        }
      case PushJob =>
        if s.writing.Some? {
          assert Pending(s) == [s.writing.value] && Pending(Step(s, a)) == [s.writing.value];
        }
      case StartJob =>
        assert Pending(Step(s, a)) == Pending(s);
      case RunJob =>
        if s.worker.running.Some? {
          UnsentOne(s.worker.running.value);
          assert Pending(s) == [s.worker.running.value] && Pending(Step(s, a)) == [];
        }
      case Terminate =>
        assert Pending(Step(s, a)) == Pending(s);
    }
  }

  lemma {:induction false} ExecKeepsInv(acts: seq<Action>)
    ensures Inv(Exec(acts)) && Exec(acts).appended == Appends(acts)
  {
    hide Inv;
    if acts == [] {
      StartInv();
    } else {
      ExecKeepsInv(acts[..|acts| - 1]);
      StepKeepsInv(Exec(acts[..|acts| - 1]), acts[|acts| - 1]);
    }
  }

  lemma StartInv()
    ensures Inv(Start())
  {
    UnsentOne([]);
    EndedOne([], LF);
  }

  /**
   For every interleaving: the batches taken so far followed by the bucket are all lines appended,
   in order; exactly one of a write to come, a write in progress, a queued job and a running job
   exists; and the messages sent are those of the batches, but for the one batch on its way.
   */
  lemma CycleKeepsLines(acts: seq<Action>)
    ensures var s := Exec(acts);
            && Flatten(s.batches) + s.bucketLines == Appends(acts) && s.bucket == Text(s.bucketLines)
            && s.due + (if s.writing.Some? then 1 else 0) + |s.worker.buffer| + |W.Running(s.worker)| == 1
            && Messages(s.batches) == s.sent + Unsent(Pending(s)) && |Pending(s)| <= 1
  {
    hide Exec, Flatten, Messages, Unsent, Text;
    ExecKeepsInv(acts);
  }

  lemma {:induction false} MessagesAreLines(batches: seq<seq<bytes>>)
    ensures Text(Messages(batches)) == Text(Flatten(batches))
  {
    hide Ended, Join;
    EndedOne([], LF);
    if batches != [] {
      var before, b := batches[..|batches| - 1], batches[|batches| - 1];
      MessagesAreLines(before);
      EndedSplit(Flatten(before), b, LF);
      if b != [] {
        EndedSplit(Messages(before), [Join(b, LF)], LF);
        EndedOne(Join(b, LF), LF);
        EndedIsJoin(b, LF);
      } else {
        assert Flatten(before) + [] == Flatten(before);
        assert Messages(before) + [] == Messages(before);
      }
    }
  }

  /** The messages sent, the one on its way and the bucket hold every byte of every line, once and in order. */
  lemma NothingLostBeforeSending(acts: seq<Action>)
    ensures var s := Exec(acts); Text(s.sent + Unsent(Pending(s))) + s.bucket == Text(Appends(acts))
  {
    hide Exec, Flatten, Messages, Unsent, Ended;
    ExecKeepsInv(acts);
    var s := Exec(acts);
    MessagesAreLines(s.batches);
    EndedSplit(Flatten(s.batches), s.bucketLines, LF);
  }

  // ---- The class ----

  datatype Status = Good | GoodDataIgnored | BadInternalError

  /** A value to historize; a time of zero counts as none. */
  datatype DataValue = DataValue(body: Option<Json>, sourceTimestamp: Option<nat>, serverTimestamp: Option<nat>)

  function TimeOf(v: DataValue): nat {
    if v.sourceTimestamp.Some? then v.sourceTimestamp.value
    else if v.serverTimestamp.Some? then v.serverTimestamp.value
    else 0
  }

  class DCSHistoryBackendInflux {
    var bucket: bytes
    var messages: Option<bytes>
    const worker: W.DCSWorkerThread<bytes>
    var timers: nat
    var sent: seq<bytes>
    ghost var bucketLines: seq<bytes>
    ghost var batches: seq<seq<bytes>>
    ghost var appended: seq<bytes>

    ghost function State(): Backend
      reads this, worker
    {
      Backend(bucket, messages, worker.State(), timers, sent, bucketLines, batches, appended)
    }

    /** Before the call of write that ends it. */
    constructor ()
      ensures fresh(worker) && State() == Start()
    {
      bucket, messages, timers, sent, bucketLines, batches, appended := [], None, 1, [], [], [], [];
      worker := new W.DCSWorkerThread<bytes>();
    }

    /** `name` is the full name of the variable, none if its node has no context. */
    method ServerSetHistoryData(value: DataValue, name: Option<bytes>) returns (r: Status)
      modifies this`bucket, this`bucketLines, this`appended
      ensures r.GoodDataIgnored? <==> value.body.None?
      ensures r.BadInternalError? <==> value.body.Some? && FieldsOf(value.body.value) != [] && name.None?
      ensures State() ==
              if r.Good? && FieldsOf(value.body.value) != [] then
                Step(old(State()), Append(LineOf(name.value, FieldsOf(value.body.value), TimeOf(value))))
              else old(State())
      ensures r.Good? && FieldsOf(value.body.value) != [] ==>
                bucket == old(bucket) + LineOf(name.value, FieldsOf(value.body.value),
                                               if value.sourceTimestamp.Some? then value.sourceTimestamp.value
                                               else if value.serverTimestamp.Some? then value.serverTimestamp.value
                                               else 0) + Ascii("\n")
      ensures !r.Good? || FieldsOf(value.body.value) == [] ==> bucket == old(bucket)
    {
      hide Join, Fields, LineOf, Unwrapped, Items;
      assert Ascii("\n") == [LF];
      if value.body.None? {
        return GoodDataIgnored;
      }
      var cmd := ToInflux(value.body.value);
      if cmd == [] {
        return Good;
      }
      if name.None? {
        return BadInternalError;
      }
      var line := LineOf(name.value, cmd, TimeOf(value));
      bucket := bucket + line + [LF];
      bucketLines := bucketLines + [line];
      appended := appended + [line];
      r := Good;
    }

    /** The section of write under the bucket mutex, when its timer is due. */
    method TakeMessages()
      requires timers > 0 && messages.None?
      modifies this`timers, this`messages, this`bucket, this`bucketLines, this`batches
      ensures State() == Step(old(State()), TakeBucket)
      ensures messages == Some(old(bucket)) && bucket == [] && timers == old(timers) - 1
    {
      timers := timers - 1;
      messages := Some(bucket);
      batches := batches + [bucketLines];
      bucket := [];
      bucketLines := [];
    }

    /** The rest of write. */
    method ScheduleJob()
      requires messages.Some?
      modifies this`messages, worker
      ensures State() == Step(old(State()), PushJob)
      ensures messages.None? && worker.buffer == old(worker.buffer) + [old(messages.value)]
    {
      worker.PushBack(messages.value);
      messages := None;
    }

    /** The job on the worker: it sends the batch, if there is one, and arms the timer. */
    method RunWriteJob()
      requires worker.running.Some?
      modifies this`sent, this`timers, worker
      ensures State() == Step(old(State()), RunJob)
      ensures worker.running.None? && timers == old(timers) + 1
      ensures var batch := old(worker.running.value);
              sent == if batch == [] then old(sent) else old(sent) + [batch[..|batch| - 1]]
    {
      var batch := worker.running.value;
      if batch != [] {
        batch := batch[..|batch| - 1];
        sent := sent + [batch];
      }
      timers := timers + 1;
      worker.FinishJob();
    }
  }
}
