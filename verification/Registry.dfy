/**
 The device registry of `engine/registry.rs`.

 `DeviceRegistry` is the mutable state that `handle_command` updates in place; it is proved equal
 to `Handle` on snapshots. The laws about whole command histories are in `RegistryLaws`.
 */
module Registry {
  import opened Bytes
  import opened Types
  import opened Wrappers

  type BusId = Str
  type SessionId = Str

  datatype DeviceState = Idle | Bound | Forwarded(sid: SessionId) | Disconnected

  datatype DeviceEntry = DeviceEntry(device: UsbDevice, state: DeviceState)

  datatype Snapshot = Snapshot(devices: map<BusId, DeviceEntry>, forwardings: map<SessionId, seq<BusId>>)

  const EMPTY := Snapshot(map[], map[])

  datatype Command =
    | AddDevice(device: UsbDevice)
    | RemoveDevice(busid: BusId)
    | TransitionState(busid: BusId, state: DeviceState)
  {
    /** The device that a command is about. */
    function Target(): BusId {
      match this
      case AddDevice(d) => d.busid
      case RemoveDevice(b) => b
      case TransitionState(b, _) => b
    }
  }

  predicate IsValidTransition(from: DeviceState, to: DeviceState) {
    match (from, to)
    case (Idle, Bound) => true
    case (Idle, Disconnected) => true
    case (Bound, Forwarded(_)) => true
    case (Bound, Disconnected) => true
    case (Forwarded(_), Idle) => true
    case (Forwarded(_), Disconnected) => true
    case _ => false
  }

  /** `retain(|b| *b != busid)` */
  function Without(bs: seq<BusId>, b: BusId): (r: seq<BusId>)
    ensures forall x :: x in r <==> x in bs && x != b
  {
    if bs == [] then [] else (if bs[0] == b then [] else [bs[0]]) + Without(bs[1..], b)
  }

  /** Taking a device out of the index if it was forwarded. */
  function Unindex(f: map<SessionId, seq<BusId>>, from: DeviceState, b: BusId): map<SessionId, seq<BusId>> {
    if from.Forwarded? && from.sid in f then
      var bs := Without(f[from.sid], b);
      if bs == [] then f - {from.sid} else f[from.sid := bs]
    else f
  }

  /** Putting a device into the index if it becomes forwarded. */
  function Index(f: map<SessionId, seq<BusId>>, to: DeviceState, b: BusId): map<SessionId, seq<BusId>> {
    if to.Forwarded? then
      var bs := if to.sid in f then f[to.sid] else [];
      f[to.sid := if b in bs then bs else bs + [b]]
    else f
  }

  /** What a command does to a snapshot. */
  function Handle(s: Snapshot, cmd: Command): Snapshot {
    var b := cmd.Target();
    match cmd
    case AddDevice(d) =>
      if b !in s.devices || s.devices[b].state == Disconnected then s.(devices := s.devices[b := DeviceEntry(d, Idle)])
      else s
    case RemoveDevice(_) =>
      if b in s.devices then Snapshot(s.devices - {b}, Unindex(s.forwardings, s.devices[b].state, b)) else s
    case TransitionState(_, to) =>
      if b in s.devices && IsValidTransition(s.devices[b].state, to) then
        Snapshot(s.devices[b := s.devices[b].(state := to)],
                 Index(Unindex(s.forwardings, s.devices[b].state, b), to, b))
      else s
  }

  class DeviceRegistry {
    var devices: map<BusId, DeviceEntry>
    var forwardings: map<SessionId, seq<BusId>>

    ghost function Contents(): Snapshot
      reads this
    {
      Snapshot(devices, forwardings)
    }

    constructor ()
      ensures Contents() == EMPTY
    {
      devices, forwardings := map[], map[];
    }

    /** Keeps the order of what stays, and drops an emptied list. */
    method RemoveForwarding(sid: SessionId, busid: BusId)
      modifies this`forwardings
      ensures forwardings == Unindex(old(forwardings), Forwarded(sid), busid)
    {
      if sid in forwardings {
        var buses := forwardings[sid];
        var kept: seq<BusId> := [];
        for i := 0 to |buses|
          invariant kept + Without(buses[i..], busid) == Without(buses, busid)
        {
          assert buses[i..][1..] == buses[i + 1..];
          if buses[i] != busid {
            kept := kept + [buses[i]];
          }
        }
        assert kept == kept + Without([], busid) == Without(buses, busid);
        if kept == [] {
          forwardings := forwardings - {sid};
        } else {
          forwardings := forwardings[sid := kept];
        }
      }
    }

    method HandleCommand(cmd: Command)
      modifies this
      ensures Contents() == Handle(old(Contents()), cmd)
    {
      match cmd
      case AddDevice(device) =>
        var busid := device.busid;
        if busid in devices {
          if devices[busid].state == Disconnected {
            devices := devices[busid := DeviceEntry(device, Idle)];
          }
        } else {
          devices := devices[busid := DeviceEntry(device, Idle)];
        }
      case RemoveDevice(busid) =>
        if busid in devices {
          var entry := devices[busid];
          devices := devices - {busid};
          if entry.state.Forwarded? {
            RemoveForwarding(entry.state.sid, busid);
          }
        }
      case TransitionState(busid, newState) =>
        if busid !in devices {
          return;
        }
        var oldState := devices[busid].state;
        if !IsValidTransition(oldState, newState) {
          return;
        }
        if oldState.Forwarded? {
          RemoveForwarding(oldState.sid, busid);
        }
        if newState.Forwarded? {
          var buses := if newState.sid in forwardings then forwardings[newState.sid] else [];
          if busid !in buses {
            buses := buses + [busid];
          }
          forwardings := forwardings[newState.sid := buses];
        }
        devices := devices[busid := devices[busid].(state := newState)];
    }
  }
}
