/**
 The broker and heartbeat bookkeeping of pkg/device/manager.go. Every API call, status command, result and heartbeat
 tick is one step, except that a deleted device is cancelled in a step of its own, as the source does in a goroutine.
 Whether a device answers is the environment's choice.
 */
module DeviceManager {
  import opened Keys

  datatype Status = Collecting | CollectingError | Unconnected | EmptyVariable | Stopped | Error

  datatype Command = Restart | Start | Stop

  /** What creating a broker for a device comes to. */
  datatype Attempt = Connects | NoVariables | CannotConnect | Fails

  class Device {
    const id: nat
    var status: Status

    constructor (id: nat, status: Status)
      ensures this.id == id && this.status == status
    {
      this.id, this.status := id, status;
    }
  }

  function StatusesOf(ds: seq<Device>): (r: seq<Status>)
    reads ds
    ensures |r| == |ds| && forall k | 0 <= k < |ds| :: r[k] == ds[k].status
  {
    seq(|ds|, k requires 0 <= k < |ds| reads ds => ds[k].status)
  }

  class Manager {
    var devices: map<nat, Device>
    var heartBeatDevices: map<nat, Device>
    var brokers: set<nat>
    var cancelling: set<nat>  // deleted devices whose goroutine has not run yet

    ghost predicate WellFormed()
      reads this
    {
      && (forall id | id in devices :: devices[id].id == id)
      && (forall id | id in heartBeatDevices :: heartBeatDevices[id].id == id)
    }

    ghost function Objects(): set<Device>
      reads this
    {
      devices.Values + heartBeatDevices.Values
    }

    /**
     A device is never both collected and watched; a stopped one is neither; and whatever is collected or watched
     belongs to a device, or to one whose cancellation is under way.
     */
    ghost predicate Valid()
      reads this, Objects()
    {
      && WellFormed()
      && brokers !! heartBeatDevices.Keys
      && (forall id | id in devices && devices[id].status == Stopped :: id !in brokers && id !in heartBeatDevices)
      && brokers + heartBeatDevices.Keys <= devices.Keys + cancelling
      && devices.Keys !! cancelling
    }

    constructor ()
      ensures Valid() && devices == map[] && brokers == {} && heartBeatDevices == map[] && cancelling == {}
    {
      devices, heartBeatDevices, brokers, cancelling := map[], map[], {}, {};
    }

    /** readyCollect, which puts its broker into the map without looking whether there is one. */
    method ReadyCollect(obj: Device, attempt: Attempt) returns (err: bool)
      requires obj.id !in brokers
      modifies `brokers, obj`status
      ensures err == (attempt.CannotConnect? || attempt.Fails?)
      ensures brokers == old(brokers) + if attempt.Connects? then {obj.id} else {}
      ensures obj.status == match attempt
                            case Connects => Collecting
                            case NoVariables => EmptyVariable
                            case CannotConnect => Unconnected
                            case Fails => old(obj.status)
    {
      match attempt
      case CannotConnect =>
        obj.status := Unconnected;
        return true;
      case NoVariables =>
        obj.status := EmptyVariable;
        return false;
      case Fails =>
        return true;
      case Connects =>
        obj.status := Collecting;
        brokers := brokers + {obj.id};
        return false;
    }

    /** cancelCollect */
    method CancelCollect(obj: Device)
      modifies this`brokers, this`heartBeatDevices, obj`status
      ensures obj.status == Stopped
      ensures brokers == old(brokers) - {obj.id} && heartBeatDevices == old(heartBeatDevices) - {obj.id}
    {
      obj.status := Stopped;
      if obj.id in heartBeatDevices {
        heartBeatDevices := heartBeatDevices - {obj.id};
      }
      if obj.id in brokers {
        brokers := brokers - {obj.id};
      }
    }

    /** CreateDevice: a device that cannot be reached is watched; on any other failure it stays, stopped. */
    method CreateDevice(id: nat, attempt: Attempt) returns (ok: bool)
      requires Valid() && id !in devices && id !in cancelling
      modifies this
      ensures Valid() && devices.Keys == old(devices.Keys) + {id} && fresh(devices[id])
      ensures forall k | k in old(devices) :: devices[k] == old(devices[k])
      ensures ok <==> !attempt.Fails?
      ensures brokers == old(brokers) + if attempt.Connects? then {id} else {}
      ensures heartBeatDevices == if attempt.CannotConnect? then old(heartBeatDevices)[id := devices[id]]
                                  else old(heartBeatDevices)
      ensures devices[id].status == match attempt
                                    case Connects => Collecting
                                    case NoVariables => EmptyVariable
                                    case CannotConnect => Unconnected
                                    case Fails => Stopped
    {
      var device := new Device(id, Stopped);
      devices := devices[id := device];
      var err := ReadyCollect(device, attempt);
      if err {
        if attempt.CannotConnect? {
          heartBeatDevices := heartBeatDevices[id := device];
        } else {
          return false;
        }
      }
      ok := true;
    }

    /** DeleteDevice: the device goes at once, its broker when the goroutine runs. */
    method DeleteDevice(id: nat) returns (found: bool)
      requires Valid()
      modifies this
      ensures Valid() && (found <==> id in old(devices))
      ensures devices == old(devices) - {id} && brokers == old(brokers) && heartBeatDevices == old(heartBeatDevices)
      ensures cancelling == old(cancelling) + if found then {id} else {}
    {
      if id !in devices {
        return false;
      }
      cancelling := cancelling + {id};
      devices := devices - {id};
      found := true;
    }

    /** The goroutine of DeleteDevice; it works on a folded copy of the device. */
    method CancelDeleted(id: nat)
      requires Valid() && id in cancelling
      modifies this
      ensures Valid() && devices == old(devices) && cancelling == old(cancelling) - {id}
      ensures brokers == old(brokers) - {id} && heartBeatDevices == old(heartBeatDevices) - {id}
    {
      var folded := new Device(id, Stopped);
      CancelCollect(folded);
      cancelling := cancelling - {id};
    }

    /** UpdateDeviceById: a copy takes the place of the device; the heartbeat goes on with the old object. */
    method UpdateDevice(id: nat) returns (found: bool)
      requires Valid()
      modifies this
      ensures Valid() && (found <==> id in old(devices))
      ensures devices.Keys == old(devices.Keys) && brokers == old(brokers) && heartBeatDevices == old(heartBeatDevices)
      ensures found ==> fresh(devices[id]) && devices[id].status == old(devices[id].status)
      ensures forall k | k in devices && k != id :: devices[k] == old(devices[k])
    {
      if id !in devices {
        return false;
      }
      var copied := new Device(id, devices[id].status);
      devices := devices[id := copied];
      found := true;
    }

    /** A result of a broker, or one that was still on its way when the broker was destroyed. */
    method ResultArrives(id: nat, failed: bool)
      requires Valid()
      modifies Objects()
      ensures Valid()
      ensures id in devices ==> devices[id].status == if failed then CollectingError else Collecting
      ensures forall d | d in Objects() && (id in devices ==> d != devices[id]) :: d.status == old(d.status)
    {
      if id in devices {
        devices[id].status := if failed then CollectingError else Collecting;
      }
    }

    /** Restart of switchDeviceStatus, and Start unless the device is collecting. */
    method Relaunch(device: Device, attempt: Attempt)
      requires Valid() && device.id in devices && devices[device.id] == device && device.status != Stopped
      modifies this`brokers, this`heartBeatDevices, device`status
      ensures Valid()
      ensures brokers - {device.id} == old(brokers) - {device.id}
      ensures device.id in brokers <==> attempt.Connects?
      ensures heartBeatDevices == if attempt.CannotConnect? then old(heartBeatDevices)[device.id := device]
                                  else old(heartBeatDevices) - {device.id}
      ensures device.status == match attempt
                               case Connects => Collecting
                               case NoVariables => EmptyVariable
                               case CannotConnect => Unconnected
                               case Fails => Stopped
    {
      CancelCollect(device);
      var err := ReadyCollect(device, attempt);
      if err && attempt.CannotConnect? {
        heartBeatDevices := heartBeatDevices[device.id := device];
      }
    }

    /**
     listeningDeviceStatusCh and switchDeviceStatus. Start does nothing to a device that counts as collecting, and Stop
     nothing to a stopped one. A command for a device that has been deleted in the meantime panics.
     */
    method SwitchStatus(id: nat, command: Command, attempt: Attempt) returns (panics: bool)
      requires Valid()
      modifies this, devices.Values
      ensures Valid() && devices == old(devices) && cancelling == old(cancelling)
      ensures panics <==> id !in devices
      ensures forall d | d in old(Objects()) && (panics || d != devices[id]) :: d.status == old(d.status)
      ensures brokers - {id} == old(brokers) - {id} && heartBeatDevices - {id} == old(heartBeatDevices) - {id}
      ensures !panics && command.Stop? ==> devices[id].status == Stopped && id !in brokers && id !in heartBeatDevices
      ensures !panics && (command.Restart? || (command.Start? && old(devices[id].status) != Collecting)) ==>
                && (id in brokers <==> attempt.Connects?) && (id in heartBeatDevices <==> attempt.CannotConnect?)
                && (attempt.CannotConnect? ==> heartBeatDevices[id] == devices[id])
                && devices[id].status == match attempt
                                         case Connects => Collecting
                                         case NoVariables => EmptyVariable
                                         case CannotConnect => Unconnected
                                         case Fails => Stopped
      ensures panics || (command.Start? && old(devices[id].status) == Collecting) ==>
                brokers == old(brokers) && heartBeatDevices == old(heartBeatDevices)
      ensures !panics && command.Start? && old(devices[id].status) == Collecting ==> devices[id].status == Collecting
    {
      if id !in devices {
        return true;
      }
      var device: Device := devices[id];
      panics := false;
      match device.status
      case Collecting =>
        match command {
          case Start =>
          case Restart => Relaunch(device, attempt);
          case Stop => CancelCollect(device);
        }
      case Stopped =>
        if !command.Stop? {
          var err := ReadyCollect(device, attempt);
          if err && attempt.CannotConnect? {
            heartBeatDevices := heartBeatDevices[id := device];
          }
        }
      case _ =>
        if command.Stop? {
          CancelCollect(device);
        } else {
          Relaunch(device, attempt);
        }
    }

    /** The number of devices a tick gets through: the first one that still fails ends it. */
    function Resumed(order: seq<nat>, attempt: nat -> Attempt): (n: nat)
      ensures n <= |order|
      ensures forall k | 0 <= k < n :: attempt(order[k]).Connects? || attempt(order[k]).NoVariables?
      ensures n < |order| ==> attempt(order[n]).CannotConnect? || attempt(order[n]).Fails?
    {
      if order == [] || attempt(order[0]).CannotConnect? || attempt(order[0]).Fails? then 0
      else 1 + Resumed(order[1..], attempt)
    }

    function Connected(order: seq<nat>, attempt: nat -> Attempt): set<nat> {
      set id | id in order && attempt(id).Connects?
    }

    /**
     A tick of heartBeatDetection; order is how Range happens to visit the watched devices. The devices before the first
     one that still fails stop being watched, and those that were reached are collected; the others are not even tried.
     */
    method Tick(order: seq<nat>, attempt: nat -> Attempt)
      requires Valid() && (forall id :: id in order <==> id in heartBeatDevices)
      requires forall i, j | 0 <= i < j < |order| :: order[i] != order[j]
      modifies this, heartBeatDevices.Values
      ensures Valid() && devices == old(devices) && cancelling == old(cancelling)
      ensures heartBeatDevices == old(heartBeatDevices) - ToSet(order[..Resumed(order, attempt)])
      ensures brokers == old(brokers) + Connected(order[..Resumed(order, attempt)], attempt)
      ensures Tried(order, attempt, Resumed(order, attempt), old(StatusesOf(WatchedObjects(order))),
                    StatusesOf(old(WatchedObjects(order))))
    {
      hide Connected, Tried, Resumed, StatusesOf;
      ghost var ds := WatchedObjects(order);
      var resumed := TryWatched(order, attempt);
      assert WatchedObjects(order) == ds;
      StopWatching(resumed);
      ConnectedIn(resumed, attempt);
    }

    /** The watched devices, in this order. */
    function WatchedObjects(order: seq<nat>): (ds: seq<Device>)
      requires forall id | id in order :: id in heartBeatDevices
      reads this
      ensures |ds| == |order| && forall k | 0 <= k < |order| :: ds[k] == heartBeatDevices[order[k]]
    {
      seq(|order|, k requires 0 <= k < |order| && order[k] in heartBeatDevices reads this => heartBeatDevices[order[k]])
    }

    /** The callback of the Range call. */
    method TryDevice(d: Device, attempt: Attempt, ghost ds: seq<Device>, ghost i: nat) returns (err: bool)
      requires i < |ds| && ds[i] == d && d.id !in brokers && forall k | 0 <= k < |ds| && k != i :: ds[k] != d
      modifies `brokers, d`status
      ensures err == (attempt.CannotConnect? || attempt.Fails?)
      ensures brokers == old(brokers) + if attempt.Connects? then {d.id} else {}
      ensures StatusesOf(ds) == old(StatusesOf(ds))[i := match attempt
                                                         case Connects => Collecting
                                                         case NoVariables => EmptyVariable
                                                         case CannotConnect => Unconnected
                                                         case Fails => old(StatusesOf(ds))[i]]
      ensures d.status == Stopped ==> old(d.status) == Stopped
    {
      err := ReadyCollect(d, attempt);
    }

    /** The Range call of a tick. */
    method TryWatched(order: seq<nat>, attempt: nat -> Attempt) returns (resumed: seq<nat>)
      requires WellFormed() && brokers !! heartBeatDevices.Keys
               && (forall id :: id in order <==> id in heartBeatDevices)
      requires forall i, j | 0 <= i < j < |order| :: order[i] != order[j]
      modifies `brokers, heartBeatDevices.Values
      ensures resumed == order[..Resumed(order, attempt)]
      ensures brokers == old(brokers) + Connected(resumed, attempt)
      ensures forall d | d in heartBeatDevices.Values && d.status == Stopped :: old(d.status) == Stopped
      ensures Tried(order, attempt, Resumed(order, attempt), old(StatusesOf(WatchedObjects(order))),
                    StatusesOf(WatchedObjects(order)))
    {
      hide Resumed, Connected, Tried, StatusesOf;
      var ds := WatchedObjects(order);
      resumed := TryInOrder(order, ds, attempt);
      assert WatchedObjects(order) == ds;
      NeverStopped(order, attempt, Resumed(order, attempt), old(StatusesOf(ds)), StatusesOf(ds));
      forall d | d in heartBeatDevices.Values && d.status == Stopped ensures old(d.status) == Stopped {
        var id :| id in heartBeatDevices && heartBeatDevices[id] == d;
        var k :| 0 <= k < |order| && order[k] == id;
        assert StatusesOf(ds)[k] == d.status && old(StatusesOf(ds))[k] == old(d.status);
      }
    }

    /** Its loop. */
    method TryInOrder(order: seq<nat>, ds: seq<Device>, attempt: nat -> Attempt) returns (resumed: seq<nat>)
      requires |ds| == |order| && forall k | 0 <= k < |order| :: ds[k].id == order[k] && order[k] !in brokers
      requires forall i, j | 0 <= i < j < |order| :: order[i] != order[j]
      modifies `brokers, (set d | d in ds)`status
      ensures resumed == order[..Resumed(order, attempt)]
      ensures brokers == old(brokers) + Connected(resumed, attempt)
      ensures Tried(order, attempt, Resumed(order, attempt), old(StatusesOf(ds)), StatusesOf(ds))
    {
      hide Resumed, Connected, Trying, Tried, StatusesOf;
      resumed := [];
      ghost var total := Resumed(order, attempt);
      ghost var was := StatusesOf(ds);
      TryNone(order, attempt, was);
      var i, more := 0, true;
      assert order[0..] == order && order[..0] == [];
      NoneConnected(attempt);
      while more && i < |order|
        invariant i <= |order| && (!more ==> i < |order|)
        invariant 0 <= i <= total && resumed == order[..i] && brokers == old(brokers) + Connected(resumed, attempt)
        invariant total == i + Resumed(order[i..], attempt) && (!more ==> i == total)
        invariant if more then Trying(order, attempt, i, was, StatusesOf(ds))
                  else Tried(order, attempt, i, was, StatusesOf(ds))
        decreases more, |order| - i
      {
        NotYet(order, i);
        TryOne(order, i, attempt);
        ConnectedIn(resumed, attempt);
        ghost var before := StatusesOf(ds);
        var err := TryDevice(ds[i], attempt(order[i]), ds, i);
        TryStep(order, attempt, i, was, before, StatusesOf(ds));
        if err {
          more := false;
        } else {
          resumed := resumed + [order[i]];
          i := i + 1;
        }
      }
      NoneResumed(attempt);
      assert order[|order|..] == [];
      if more {
        TryEnd(order, attempt, was, StatusesOf(ds));
      }
    }

    lemma TryNone(order: seq<nat>, attempt: nat -> Attempt, was: seq<Status>)
      requires |was| == |order|
      ensures Trying(order, attempt, 0, was, was)
    {
    }

    lemma TryStep(order: seq<nat>, attempt: nat -> Attempt, i: nat, was: seq<Status>, now: seq<Status>,
                  now': seq<Status>)
      requires i < |order| && Trying(order, attempt, i, was, now)
      requires now' == now[i := match attempt(order[i])
                                case Connects => Collecting
                                case NoVariables => EmptyVariable
                                case CannotConnect => Unconnected
                                case Fails => now[i]]
      ensures if attempt(order[i]).CannotConnect? || attempt(order[i]).Fails? then Tried(order, attempt, i, was, now')
              else Trying(order, attempt, i + 1, was, now')
    {
    }

    lemma NeverStopped(order: seq<nat>, attempt: nat -> Attempt, n: nat, was: seq<Status>, now: seq<Status>)
      requires Tried(order, attempt, n, was, now)
      ensures |now| == |was| && forall k | 0 <= k < |now| && now[k] == Stopped :: was[k] == Stopped
    {
    }

    lemma TryEnd(order: seq<nat>, attempt: nat -> Attempt, was: seq<Status>, now: seq<Status>)
      requires Trying(order, attempt, |order|, was, now)
      ensures Tried(order, attempt, |order|, was, now)
    {
    }

    /** The first n devices of a tick have been resumed, the others not yet tried. */
    ghost predicate Trying(order: seq<nat>, attempt: nat -> Attempt, n: nat, was: seq<Status>, now: seq<Status>) {
      && |order| == |was| == |now|
      && (forall k | 0 <= k < n && k < |order| ::
            now[k] == if attempt(order[k]).Connects? then Collecting else EmptyVariable)
      && (forall k | n <= k < |order| :: now[k] == was[k])
    }

    /** So they have, and the next one has failed: it is unconnected, or stays as it was. */
    ghost predicate Tried(order: seq<nat>, attempt: nat -> Attempt, n: nat, was: seq<Status>, now: seq<Status>) {
      && |order| == |was| == |now|
      && (forall k | 0 <= k < n && k < |order| ::
            now[k] == if attempt(order[k]).Connects? then Collecting else EmptyVariable)
      && (n < |order| ==> now[n] == if attempt(order[n]).CannotConnect? then Unconnected else was[n])
      && (forall k | n < k < |order| :: now[k] == was[k])
    }

    lemma NoneConnected(attempt: nat -> Attempt)
      ensures Connected([], attempt) == {}
    {
    }

    lemma NoneResumed(attempt: nat -> Attempt)
      ensures Resumed([], attempt) == 0
    {
    }

    lemma ConnectedIn(order: seq<nat>, attempt: nat -> Attempt)
      ensures forall id | id in Connected(order, attempt) :: id in order
    {
    }

    lemma TryOne(order: seq<nat>, i: nat, attempt: nat -> Attempt)
      requires i < |order|
      ensures var id := order[i];
              && order[..i + 1] == order[..i] + [id]
              && Resumed(order[i..], attempt)
                 == (if attempt(id).CannotConnect? || attempt(id).Fails? then 0
                     else 1 + Resumed(order[i + 1..], attempt))
              && Connected(order[..i] + [id], attempt)
                 == Connected(order[..i], attempt) + if attempt(id).Connects? then {id} else {}
    {
      assert order[i..][1..] == order[i + 1..];
    }

    /** Removes the resumed devices from the watched ones. */
    method StopWatching(resumed: seq<nat>)
      modifies `heartBeatDevices
      ensures heartBeatDevices == old(heartBeatDevices) - ToSet(resumed)
    {
      for i := 0 to |resumed|
        invariant heartBeatDevices == old(heartBeatDevices) - ToSet(resumed[..i])
      {
        heartBeatDevices := heartBeatDevices - {resumed[i]};
        assert resumed[..i + 1] == resumed[..i] + [resumed[i]];
      }
      assert resumed[..|resumed|] == resumed;
    }

    lemma NotYet(order: seq<nat>, i: nat)
      requires i < |order| && forall j, k | 0 <= j < k < |order| :: order[j] != order[k]
      ensures order[i] !in order[..i]
    {
    }
  }

  /**
   A result that was still on its way when its broker was destroyed marks the stopped device as collecting, and the next
   Start command then does nothing.
   */
  method LateResult(m: Manager, id: nat, attempt: Attempt)
    requires m.Valid() && id in m.devices
    modifies m, m.Objects()
    ensures m.Valid() && id in m.devices && m.devices[id].status == Collecting
    ensures id !in m.brokers && id !in m.heartBeatDevices
  {
    var panics := m.SwitchStatus(id, Stop, attempt);
    forall k | k in m.heartBeatDevices
      ensures k in old(m.heartBeatDevices) && m.heartBeatDevices[k] == old(m.heartBeatDevices)[k]
    {
      assert k in m.heartBeatDevices - {id};
      assert k in old(m.heartBeatDevices) - {id};
      assert (m.heartBeatDevices - {id})[k] == (old(m.heartBeatDevices) - {id})[k];
    }
    m.ResultArrives(id, false);
    panics := m.SwitchStatus(id, Start, attempt);
  }
}
