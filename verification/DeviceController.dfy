/** A device controller as its jobs run: each method is one job, proved to take the steps of `Devices`. */
module DeviceController {
  import opened Bytes
  import opened Devices
  import opened Recovery

  /** The job of the `connect` method, and the one of finalizeInit; a step that is not due does nothing. */
  function ConnectOps(reached: bool, ok: bool): seq<Op> { [Connect(reached), Op.Enable, PostConnect(ok)] }

  function FinalizeOps(reached: bool, ok: bool): seq<Op> { [Finalize(reached), Op.Enable, PostConnect(ok)] }

  const DISCONNECT_OPS: seq<Op> := [Op.Disconnect, Op.Disable]

  class DCSDeviceController {
    const objectName: string
    const recovery: DCSRecovery?
    var connected: bool
    var connectionParameters: Parameters

    constructor (objectName: string, recovery: DCSRecovery?, configured: Parameters)
      ensures this.objectName == objectName && this.recovery == recovery
      ensures State(New).device == Device(configured, false, New)
    {
      this.objectName, this.recovery := objectName, recovery;
      connected, connectionParameters := false, configured;
    }

    ghost function State(phase: Phase): Local
      reads this, recovery
    {
      Local(Device(connectionParameters, connected, phase), Entry())
    }

    /** The recovery entry of this device, if there is a recovery. */
    ghost function Entry(): Option<Entry>
      reads this, recovery
    {
      if recovery == null then None else Lookup(recovery.Content(), objectName)
    }

    /** The entries of the other devices are as before. */
    twostate predicate OthersKept()
      reads recovery
    {
      recovery != null ==> forall n :: n != objectName ==> Lookup(recovery.Content(), n) == old(Lookup(recovery.Content(), n))
    }

    method ResetConnectionStream()
      modifies this`connected
      ensures !connected
    {
      connected := false;
    }

    /**
     Opens the connection and, once connected, writes the entry and talks to the device.  With
     `ok` false that talk throws and the caller's wrapper drops the connection.
     */
    method ConnectDevice(reached: bool, ok: bool) returns (threw: bool)
      modifies this`connected, recovery
      ensures OthersKept() && threw == (connected && !ok && connectionParameters.address != "")
      ensures connected == (old(connected) || (reached && connectionParameters.address != ""))
      ensures Entry() == if recovery != null && connected && connectionParameters.address != "" then Some(Usable(connectionParameters))
                         else old(Entry())
      ensures var l := LocalRun(old(State(Idle)), ConnectOps(reached, true));
              State(Idle).device == l.device && (recovery != null ==> State(Idle).entry == l.entry)
    {
      ghost var l := State(Idle);
      ThreeOps(l, Connect(reached), Op.Enable, PostConnect(true));
      if connectionParameters.address == "" {
        return false;
      }
      if reached {
        connected := true;
      }
      if connected {
        if recovery != null {
          recovery.Enable(objectName, connectionParameters.address, connectionParameters.port);
        }
        return !ok;
      }
      return false;
    }

    /** The `connect` method as it is registered, with its wrapper around exceptions. */
    method ConnectJob(reached: bool, ok: bool)
      modifies this`connected, recovery
      ensures OthersKept()
      ensures connected == if connectionParameters.address == "" then old(connected) else (old(connected) || reached) && ok
      ensures Entry() == if recovery != null && connectionParameters.address != "" && (old(connected) || reached)
                         then Some(Usable(connectionParameters)) else old(Entry())
      ensures var l := LocalRun(old(State(Idle)), ConnectOps(reached, ok));
              State(Idle).device == l.device && (recovery != null ==> State(Idle).entry == l.entry)
    {
      ghost var l := State(Idle);
      ThreeOps(l, Connect(reached), Op.Enable, PostConnect(true));
      ThreeOps(l, Connect(reached), Op.Enable, PostConnect(ok));
      var threw := ConnectDevice(reached, ok);
      if threw {
        ResetConnectionStream();
      }
    }

    method DisconnectDevice()
      modifies this`connected, recovery
      ensures OthersKept() && !connected && Entry() == None
      ensures var l := LocalRun(old(State(Idle)), DISCONNECT_OPS);
              State(Idle).device == l.device && (recovery != null ==> State(Idle).entry == l.entry)
    {
      TwoOps(State(Idle), Op.Disconnect, Op.Disable);
      ResetConnectionStream();
      if recovery != null {
        recovery.Disable(objectName);
      }
    }

    /** Refused while connected. */
    method SetConnectionParameters(p: Parameters)
      modifies this`connectionParameters
      ensures State(Idle) == LocalStep(old(State(Idle)), SetParameters(p))
      ensures connectionParameters == if connected then old(connectionParameters) else p
    {
      if connected {
        return;
      }
      connectionParameters := p;
    }

    /** Any other method of the device, with its wrapper: an error drops the connection. */
    method ControllerMethod(ok: bool)
      modifies this`connected
      ensures State(Idle) == LocalStep(old(State(Idle)), Communicate(ok))
      ensures connected == (old(connected) && ok)
    {
      if !ok {
        ResetConnectionStream();
      }
    }

    /** An update of a variable registered without protection: it runs whether connected or not. */
    method UnprotectedUpdate(ok: bool, reading: int, variable: Option<int>) returns (variable': Option<int>)
      modifies this`connected
      ensures State(Idle) == LocalStep(old(State(Idle)), Communicate(ok))
      ensures variable' == if ok then Some(reading) else variable
      ensures connected == (old(connected) && ok)
    {
      if ok {
        return Some(reading);
      }
      ResetConnectionStream();
      return variable;
    }

    /**
     An update of a variable registered with protection, run only while connected; the variable is
     null otherwise, or keeps its value on an error.
     */
    method VariableUpdate(ok: bool, reading: int, variable: Option<int>) returns (variable': Option<int>)
      modifies this`connected
      ensures State(Idle) == LocalStep(old(State(Idle)), Communicate(ok))
      ensures variable' == if !old(connected) then None else if ok then Some(reading) else variable
      ensures connected == (old(connected) && ok)
    {
      if !connected {
        return None;
      }
      if ok {
        return Some(reading);
      }
      ResetConnectionStream();
      return variable;
    }

    /** At start-up: the recovery entry, if it is usable, replaces the configured parameters and is connected to. */
    method FinalizeInit(reached: bool, ok: bool)
      requires !connected
      modifies this, recovery
      ensures OthersKept() && Entry() == old(Entry())
      ensures match old(Entry())
              case Some(Usable(p)) => connectionParameters == p && connected == (p.address != "" && reached && ok)
              case _ => connectionParameters == old(connectionParameters) && !connected
      ensures recovery == null ==> State(Idle).device == old(State(Idle)).device
      ensures recovery != null ==> State(Idle) == LocalRun(old(State(New)), FinalizeOps(reached, ok))
    {
      ghost var l := State(New);
      ThreeOps(l, Finalize(reached), Op.Enable, PostConnect(ok));
      if recovery != null {
        var recovered := recovery.Get(objectName);
        if !recovered.Got? {
          return;
        }
        connectionParameters := recovered.parameters;
        ThreeOps(State(Idle), Connect(reached), Op.Enable, PostConnect(ok));
        ConnectJob(reached, ok);
      }
    }
  }

  /** The end of a session: the recovery is destroyed, and leaves the map that `Devices.ShutDown` describes. */
  method EndSession(recovery: DCSRecovery, ghost s: System)
    requires recovery.Content() == s.entries
    modifies recovery
    ensures System(s.devices, recovery.Content()) == ShutDown(s)
  {
    recovery.Destroy();
  }
}
