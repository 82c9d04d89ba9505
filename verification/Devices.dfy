/**
 All devices and the recovery map, at the grain of the sections that other threads can see: the
 jobs of one device run one after the other on its thread, the jobs of different devices
 interleave (COREdcs/server/include/DCSDeviceController.h).
 */
module Devices {
  import opened Bytes
  import opened Recovery

  /** Between jobs a device is idle; a job is inside `Enabling` to `Disabling` when others can see its effects. */
  datatype Phase = New | Idle | Enabling | Enabled | Disabling

  datatype Device = Device(parameters: Parameters, connected: bool, phase: Phase)

  /** What concerns one device: the device and its recovery entry. */
  datatype Local = Local(device: Device, entry: Option<Entry>)

  /**
   The steps of a device.  `reached` and `ok` say whether the device answered: opening the
   connection, the reading of its info with the profile, and any other method or update may fail.
   */
  datatype Op =
    | Finalize(reached: bool)
    | Connect(reached: bool)
    | Enable
    | PostConnect(ok: bool)
    | Disconnect
    | Disable
    | SetParameters(parameters: Parameters)
    | Communicate(ok: bool)

  /** Opening the connection; a connected device stays connected when a second one is refused. */
  function Connecting(d: Device, reached: bool): Device {
    if d.parameters.address == "" then d.(phase := Idle)
    else
      var connected := d.connected || reached;
      d.(connected := connected, phase := if connected then Enabling else Idle)
  }

  /** A step of one device; one that is not its turn changes nothing. */
  function LocalStep(l: Local, op: Op): Local {
    var d := l.device;
    match op
    case Finalize(reached) =>
      if !d.phase.New? then l
      else if l.entry.Some? && l.entry.value.Usable? then
        l.(device := Connecting(d.(parameters := l.entry.value.parameters), reached))
      else l.(device := d.(phase := Idle))
    case Connect(reached) => if !d.phase.Idle? then l else l.(device := Connecting(d, reached))
    case Enable => if !d.phase.Enabling? then l else Local(d.(phase := Enabled), Some(Usable(d.parameters)))
    case PostConnect(ok) => if !d.phase.Enabled? then l else l.(device := d.(connected := d.connected && ok, phase := Idle))
    case Disconnect => if !d.phase.Idle? then l else l.(device := d.(connected := false, phase := Disabling))
    case Disable => if !d.phase.Disabling? then l else Local(d.(phase := Idle), None)
    case SetParameters(p) => if !d.phase.Idle? || d.connected then l else l.(device := d.(parameters := p))
    case Communicate(ok) => if !d.phase.Idle? then l else l.(device := d.(connected := d.connected && ok))
  }

  function LocalRun(l: Local, ops: seq<Op>): Local
    decreases |ops|
  {
    if ops == [] then l else LocalRun(LocalStep(l, ops[0]), ops[1..])
  }

  // ---- All devices ----

  /** The devices by name, and the one recovery map they share. */
  datatype System = System(devices: map<string, Device>, entries: Entries)

  datatype Step = Step(device: string, op: Op)

  /** A step of device `d` on the whole map: `Enable` and `Disable` rewrite it, `Finalize` reads it. */
  function SystemStep(s: System, step: Step): System {
    var d := step.device;
    if d !in s.devices then s
    else
      var device := LocalStep(Local(s.devices[d], Lookup(s.entries, d)), step.op).device;
      var entries :=
        if step.op.Enable? && s.devices[d].phase.Enabling? then s.entries[d := Usable(s.devices[d].parameters)]
        else if step.op.Disable? && s.devices[d].phase.Disabling? then s.entries - {d}
        else s.entries;
      System(s.devices[d := device], entries)
  }

  function Run(s: System, steps: seq<Step>): System
    decreases |steps|
  {
    if steps == [] then s else Run(SystemStep(s, steps[0]), steps[1..])
  }

  function LocalOf(s: System, d: string): Local
    requires d in s.devices
  {
    Local(s.devices[d], Lookup(s.entries, d))
  }

  /** The steps of one device, in order. */
  function OpsOf(steps: seq<Step>, d: string): seq<Op> {
    if steps == [] then []
    else (if steps[0].device == d then [steps[0].op] else []) + OpsOf(steps[1..], d)
  }

  /** Steps of a device do not touch the others, nor their entries. */
  lemma StepIsLocal(s: System, step: Step, d: string)
    requires d in s.devices
    ensures d in SystemStep(s, step).devices
    ensures LocalOf(SystemStep(s, step), d) == if step.device == d then LocalStep(LocalOf(s, d), step.op) else LocalOf(s, d)
  {
  }

  /**
   In every interleaving, what becomes of a device and of its entry depends on the steps of this
   device alone.
   */
  lemma {:induction false} DevicesAreIndependent(s: System, steps: seq<Step>, d: string)
    requires d in s.devices
    ensures d in Run(s, steps).devices && LocalOf(Run(s, steps), d) == LocalRun(LocalOf(s, d), OpsOf(steps, d))
    decreases |steps|
  {
    hide LocalStep, LocalOf, SystemStep;
    if steps != [] {
      var ops := OpsOf(steps, d);
      StepIsLocal(s, steps[0], d);
      DevicesAreIndependent(SystemStep(s, steps[0]), steps[1..], d);
      var rest := OpsOf(steps[1..], d);
      assert ops == if steps[0].device == d then [steps[0].op] + rest else rest;
      assert steps[0].device == d ==> ops[1..] == rest;
    }
  }

  // ---- The entry of a connected device ----

  ghost predicate Consistent(l: Local) {
    var d := l.device;
    match d.phase
    case New => !d.connected
    case Idle => d.connected ==> d.parameters.address != "" && l.entry == Some(Usable(d.parameters))
    case Enabling => d.connected && d.parameters.address != ""
    case Enabled => d.connected && d.parameters.address != "" && l.entry == Some(Usable(d.parameters))
    case Disabling => !d.connected
  }

  lemma {:induction false} LocalRunConsistent(l: Local, ops: seq<Op>)
    requires Consistent(l)
    ensures Consistent(LocalRun(l, ops))
    decreases |ops|
  {
    if ops != [] {
      LocalRunConsistent(LocalStep(l, ops[0]), ops[1..]);
    }
  }

  /** A session starts with new devices, not connected, and with whatever the recovery file holds. */
  ghost predicate Starts(s: System) {
    forall d :: d in s.devices ==> s.devices[d].phase.New? && !s.devices[d].connected
  }

  /** Between its jobs, a connected device has a recovery entry, and it holds the device's parameters. */
  lemma ConnectedHasEntry(s: System, steps: seq<Step>, d: string)
    requires Starts(s) && d in s.devices
    ensures var s' := Run(s, steps);
            && d in s'.devices
            && (s'.devices[d].phase.Idle? && s'.devices[d].connected ==>
                  d in s'.entries && s'.entries[d] == Usable(s'.devices[d].parameters))
  {
    hide LocalStep, SystemStep, Run;
    DevicesAreIndependent(s, steps, d);
    LocalRunConsistent(LocalOf(s, d), OpsOf(steps, d));
  }

  // ---- A device that does not answer ----

  /** No attempt to open the connection succeeds. */
  predicate Unreached(ops: seq<Op>) { forall k :: 0 <= k < |ops| ==> ops[k] != Connect(true) && ops[k] != Finalize(true) }

  lemma {:induction false} UnreachedStaysOff(l: Local, ops: seq<Op>)
    requires Unreached(ops) && !l.device.connected && !l.device.phase.Enabling? && !l.device.phase.Enabled?
    ensures var l' := LocalRun(l, ops); !l'.device.connected && (l'.entry == l.entry || l'.entry == None)
    decreases |ops|
  {
    if ops != [] {
      UnreachedStaysOff(LocalStep(l, ops[0]), ops[1..]);
    }
  }

  /** In every run: a device that is never reached is never connected, and no entry is written for it. */
  lemma NeverReachedNeverConnected(s: System, steps: seq<Step>, d: string)
    requires Starts(s) && d in s.devices && Unreached(OpsOf(steps, d))
    ensures var s' := Run(s, steps);
            && d in s'.devices && !s'.devices[d].connected
            && (Lookup(s'.entries, d) == Lookup(s.entries, d) || Lookup(s'.entries, d) == None)
  {
    hide LocalStep, SystemStep, Run;
    DevicesAreIndependent(s, steps, d);
    UnreachedStaysOff(LocalOf(s, d), OpsOf(steps, d));
  }

  /** The ops of a job that does not write the map: everything but connecting and disconnecting. */
  predicate Quiet(ops: seq<Op>) { forall k :: 0 <= k < |ops| ==> !ops[k].Enable? && !ops[k].Disable? }

  predicate NoEnable(ops: seq<Op>) { forall k :: 0 <= k < |ops| ==> !ops[k].Enable? }

  lemma {:induction false} QuietKeepsEntry(l: Local, ops: seq<Op>)
    requires Quiet(ops)
    ensures LocalRun(l, ops).entry == l.entry
    decreases |ops|
  {
    if ops != [] {
      QuietKeepsEntry(LocalStep(l, ops[0]), ops[1..]);
    }
  }

  lemma {:induction false} NoEnableKeepsAbsence(l: Local, ops: seq<Op>)
    requires NoEnable(ops) && l.entry == None
    ensures LocalRun(l, ops).entry == None
    decreases |ops|
  {
    if ops != [] {
      NoEnableKeepsAbsence(LocalStep(l, ops[0]), ops[1..]);
    }
  }

  lemma {:induction false} LocalRunSplits(l: Local, a: seq<Op>, b: seq<Op>)
    ensures LocalRun(l, a + b) == LocalRun(LocalRun(l, a), b)
    decreases |a|
  {
    if a == [] {
      assert a + b == b;
    } else {
      assert (a + b)[1..] == a[1..] + b;
      LocalRunSplits(LocalStep(l, a[0]), a[1..], b);
    }
  }

  /** A communication error drops the connection and keeps the entry, whatever the other devices do meanwhile. */
  lemma ErrorKeepsEntry(s: System, steps: seq<Step>, d: string, before: seq<Op>)
    requires d in s.devices && OpsOf(steps, d) == before + [Communicate(false)] && Quiet(before)
    requires LocalRun(LocalOf(s, d), before).device.phase.Idle?
    ensures var s' := Run(s, steps);
            d in s'.devices && !s'.devices[d].connected && Lookup(s'.entries, d) == Lookup(s.entries, d)
  {
    hide SystemStep, Run;
    var l := LocalOf(s, d);
    DevicesAreIndependent(s, steps, d);
    LocalRunSplits(l, before, [Communicate(false)]);
    QuietKeepsEntry(l, before);
    OneOp(LocalRun(l, before), Communicate(false));
  }

  lemma OneOp(l: Local, op: Op)
    ensures LocalRun(l, [op]) == LocalStep(l, op)
  {
    assert [op][1..] == [];
  }

  lemma ThreeOps(l: Local, a: Op, b: Op, c: Op)
    ensures LocalRun(l, [a, b, c]) == LocalStep(LocalStep(LocalStep(l, a), b), c)
  {
    LocalRunSplits(l, [a, b], [c]);
    assert [a, b] + [c] == [a, b, c];
    LocalRunSplits(l, [a], [b]);
    assert [a] + [b] == [a, b];
    OneOp(l, a);
    OneOp(LocalStep(l, a), b);
    OneOp(LocalStep(LocalStep(l, a), b), c);
  }

  lemma TwoOps(l: Local, a: Op, b: Op)
    ensures LocalRun(l, [a, b]) == LocalStep(LocalStep(l, a), b)
  {
    LocalRunSplits(l, [a], [b]);
    assert [a] + [b] == [a, b];
    OneOp(l, a);
    OneOp(LocalStep(l, a), b);
  }

  /** After a disconnect a device has no entry, until it enables one again. */
  lemma DisconnectForgets(s: System, steps: seq<Step>, d: string, later: seq<Op>)
    requires d in s.devices && s.devices[d].phase.Idle?
    requires OpsOf(steps, d) == [Disconnect, Disable] + later && NoEnable(later)
    ensures d !in Run(s, steps).entries
  {
    hide SystemStep, Run;
    var l := LocalOf(s, d);
    DevicesAreIndependent(s, steps, d);
    LocalRunSplits(l, [Disconnect, Disable], later);
    TwoOps(l, Disconnect, Disable);
    NoEnableKeepsAbsence(LocalRun(l, [Disconnect, Disable]), later);
  }

  // ---- Crash and restart ----

  /** The next session: the same devices, new, with their configured parameters; the file as it was left. */
  function Restart(s: System, config: map<string, Parameters>): System {
    System(map d | d in s.devices :: Device(if d in config then config[d] else Parameters("", 0), false, New), s.entries)
  }

  /**
   A device that was connected when the program died, its entry written, comes back with the
   parameters it had, if it answers, whatever it was configured with and whatever the other
   devices do.
   */
  lemma CrashRecovers(s: System, steps: seq<Step>, d: string, config: map<string, Parameters>, again: seq<Step>)
    requires Starts(s) && d in s.devices
    requires var s1 := Run(s, steps);
             d in s1.devices && s1.devices[d].connected && !s1.devices[d].phase.Enabling?
    requires OpsOf(again, d) == [Finalize(true), Enable, PostConnect(true)]
    ensures var s1, s2 := Run(s, steps), Run(Restart(Run(s, steps), config), again);
            d in s1.devices && d in s2.devices && s2.devices[d] == s1.devices[d].(phase := Idle)
  {
    hide Run, SystemStep;
    var s1 := Run(s, steps);
    var r := Restart(s1, config);
    DevicesAreIndependent(s, steps, d);
    LocalRunConsistent(LocalOf(s, d), OpsOf(steps, d));
    DevicesAreIndependent(r, again, d);
    ThreeOps(LocalOf(r, d), Finalize(true), Enable, PostConnect(true));
  }

  /** A clean shutdown: the destructor of the recovery empties the map. */
  function ShutDown(s: System): System { s.(entries := map[]) }

  /** After a clean shutdown nothing is recovered: a device starts as configured and stays unconnected. */
  lemma CleanShutdownRecoversNothing(s: System, d: string, config: map<string, Parameters>, again: seq<Step>, reached: bool)
    requires d in s.devices && OpsOf(again, d) == [Finalize(reached)]
    ensures var r := Restart(ShutDown(s), config);
            var s2 := Run(r, again);
            && d in r.devices && d in s2.devices && d !in s2.entries
            && s2.devices[d] == r.devices[d].(phase := Idle) && !s2.devices[d].connected
  {
    hide Run, SystemStep;
    var r := Restart(ShutDown(s), config);
    DevicesAreIndependent(r, again, d);
    OneOp(LocalOf(r, d), Finalize(reached));
  }
}
