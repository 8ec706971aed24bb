/**
 What the registry promises over every command history, including invalid, duplicate and
 unknown-id commands. `Fold` is the state that a history leads to; `EntryAfter` follows a single
 device through the history and serves as the reference.
 */
module RegistryLaws {
  import opened Registry
  import opened Types
  import opened Wrappers

  /** The state after a history of commands. */
  function Fold(cmds: seq<Command>): Snapshot {
    if cmds == [] then EMPTY else Handle(Fold(cmds[..|cmds| - 1]), cmds[|cmds| - 1])
  }

  function Lookup(s: Snapshot, b: BusId): Option<DeviceEntry> {
    if b in s.devices then Some(s.devices[b]) else None
  }

  function Listed(s: Snapshot, sid: SessionId): seq<BusId> {
    if sid in s.forwardings then s.forwardings[sid] else []
  }

  predicate IsForwarded(s: Snapshot, b: BusId, sid: SessionId) {
    b in s.devices && s.devices[b].state == Forwarded(sid)
  }

  // ---------------------------------------------------------------- one device on its own

  /** One device's life: what a command about it does to its entry. */
  function EntryStep(e: Option<DeviceEntry>, cmd: Command): Option<DeviceEntry> {
    match cmd
    case AddDevice(d) => if e.None? || e.value.state == Disconnected then Some(DeviceEntry(d, Idle)) else e
    case RemoveDevice(_) => None
    case TransitionState(_, to) =>
      if e.Some? && IsValidTransition(e.value.state, to) then Some(e.value.(state := to)) else e
  }

  function EntryAfter(cmds: seq<Command>, b: BusId): Option<DeviceEntry> {
    if cmds == [] then None
    else
      var before := EntryAfter(cmds[..|cmds| - 1], b);
      if cmds[|cmds| - 1].Target() == b then EntryStep(before, cmds[|cmds| - 1]) else before
  }

  /** The state of a device, if it is known. */
  function StateAfter(cmds: seq<Command>, b: BusId): Option<DeviceState> {
    var e := EntryAfter(cmds, b);
    if e.Some? then Some(e.value.state) else None
  }

  lemma {:induction false} FoldFollowsEntries(cmds: seq<Command>, b: BusId)
    ensures Lookup(Fold(cmds), b) == EntryAfter(cmds, b)
  {
    if cmds != [] {
      FoldFollowsEntries(cmds[..|cmds| - 1], b);
    }
  }

  /** The commands of a history that are about one device. */
  function About(cmds: seq<Command>, b: BusId): seq<Command> {
    if cmds == [] then []
    else
      var front := About(cmds[..|cmds| - 1], b);
      if cmds[|cmds| - 1].Target() == b then front + [cmds[|cmds| - 1]] else front
  }

  lemma {:induction false} EntryNeedsOnlyItsCommands(cmds: seq<Command>, b: BusId)
    ensures EntryAfter(About(cmds, b), b) == EntryAfter(cmds, b)
  {
    if cmds != [] {
      var front, last := About(cmds[..|cmds| - 1], b), cmds[|cmds| - 1];
      EntryNeedsOnlyItsCommands(cmds[..|cmds| - 1], b);
      if last.Target() == b {
        assert (front + [last])[..|front|] == front;
      }
    }
  }

  /** A device's entry depends on its own commands only. */
  lemma {:induction false} DeviceDependsOnItsCommands(cmds: seq<Command>, b: BusId)
    ensures Lookup(Fold(cmds), b) == Lookup(Fold(About(cmds, b)), b)
  {
    FoldFollowsEntries(cmds, b);
    FoldFollowsEntries(About(cmds, b), b);
    EntryNeedsOnlyItsCommands(cmds, b);
  }

  // ---------------------------------------------------------------- the index is the inverse

  predicate NoDuplicates(bs: seq<BusId>) {
    forall i, j | 0 <= i < j < |bs| :: bs[i] != bs[j]
  }

  /** The index lists, for each session, exactly the devices forwarded to it, once each. */
  ghost predicate Inverse(s: Snapshot) {
    && (forall sid, b :: b in Listed(s, sid) <==> IsForwarded(s, b, sid))
    && (forall sid | sid in s.forwardings :: s.forwardings[sid] != [] && NoDuplicates(s.forwardings[sid]))
    && (forall b | b in s.devices :: s.devices[b].device.busid == b)
  }

  lemma {:induction false} WithoutKeepsDistinct(bs: seq<BusId>, b: BusId)
    requires NoDuplicates(bs)
    ensures NoDuplicates(Without(bs, b))
  {
    if bs != [] {
      WithoutKeepsDistinct(bs[1..], b);
      var rest := Without(bs[1..], b);
      forall j | 0 <= j < |rest|
        ensures rest[j] != bs[0]
      {
        assert rest[j] in bs[1..];
      }
    }
  }

  lemma {:induction false} WithoutAbsent(bs: seq<BusId>, b: BusId)
    ensures b !in bs ==> Without(bs, b) == bs
  {
    if bs != [] {
      WithoutAbsent(bs[1..], b);
    }
  }

  lemma UnindexKeeps(s: Snapshot, b: BusId)
    requires Inverse(s) && b in s.devices
    ensures var t := Snapshot(s.devices - {b}, Unindex(s.forwardings, s.devices[b].state, b));
            && Inverse(t)
            && (forall sid :: b !in Listed(t, sid))
  {
    var from := s.devices[b].state;
    var t := Snapshot(s.devices - {b}, Unindex(s.forwardings, from, b));
    if from.Forwarded? && from.sid in s.forwardings {
      WithoutKeepsDistinct(s.forwardings[from.sid], b);
    }
    forall sid, x
      ensures x in Listed(t, sid) <==> IsForwarded(t, x, sid)
    {
      assert x in Listed(s, sid) <==> IsForwarded(s, x, sid);
      assert b in Listed(s, sid) <==> IsForwarded(s, b, sid);
    }
  }

  lemma AddKeepsInverse(s: Snapshot, b: BusId, d: UsbDevice)
    requires Inverse(s) && d.busid == b
    requires b !in s.devices || s.devices[b].state == Disconnected
    ensures Inverse(s.(devices := s.devices[b := DeviceEntry(d, Idle)]))
  {
    var t := s.(devices := s.devices[b := DeviceEntry(d, Idle)]);
    forall sid, x
      ensures x in Listed(t, sid) <==> IsForwarded(t, x, sid)
    {
      assert x in Listed(s, sid) <==> IsForwarded(s, x, sid);
    }
  }

  lemma IndexKeeps(s: Snapshot, b: BusId, e: DeviceEntry)
    requires Inverse(s) && b !in s.devices && e.device.busid == b
    ensures Inverse(Snapshot(s.devices[b := e], Index(s.forwardings, e.state, b)))
  {
    var t := Snapshot(s.devices[b := e], Index(s.forwardings, e.state, b));
    if e.state.Forwarded? {
      assert b in Listed(s, e.state.sid) <==> IsForwarded(s, b, e.state.sid);
    }
    forall sid, x
      ensures x in Listed(t, sid) <==> IsForwarded(t, x, sid)
    {
      assert x in Listed(s, sid) <==> IsForwarded(s, x, sid);
    }
  }

  lemma TransitionKeepsInverse(s: Snapshot, b: BusId, to: DeviceState)
    requires Inverse(s) && b in s.devices
    ensures Inverse(Snapshot(s.devices[b := s.devices[b].(state := to)],
                             Index(Unindex(s.forwardings, s.devices[b].state, b), to, b)))
  {
    UnindexKeeps(s, b);
    var t := Snapshot(s.devices - {b}, Unindex(s.forwardings, s.devices[b].state, b));
    var e := s.devices[b].(state := to);
    IndexKeeps(t, b, e);
    assert t.devices[b := e] == s.devices[b := e];
  }

  /**
   Every command keeps the inverse; and on a state that has it the code's defensive checks are
   idle: the list of a forwarded device is there and contains it, and a device that becomes
   forwarded is in no list yet.
   */
  lemma HandleKeepsInverse(s: Snapshot, cmd: Command)
    requires Inverse(s)
    ensures Inverse(Handle(s, cmd))
    ensures forall b, sid | IsForwarded(s, b, sid) :: sid in s.forwardings && b in s.forwardings[sid]
    ensures forall b | b in s.devices && !s.devices[b].state.Forwarded? :: forall sid :: b !in Listed(s, sid)
  {
    var b := cmd.Target();
    forall x, sid | IsForwarded(s, x, sid)
      ensures sid in s.forwardings && x in s.forwardings[sid]
    {
      assert x in Listed(s, sid);
    }
    match cmd
    case AddDevice(d) =>
      if b !in s.devices || s.devices[b].state == Disconnected {
        AddKeepsInverse(s, b, d);
      }
    case RemoveDevice(_) =>
      if b in s.devices {
        UnindexKeeps(s, b);
      }
    case TransitionState(_, to) =>
      if b in s.devices && IsValidTransition(s.devices[b].state, to) {
        TransitionKeepsInverse(s, b, to);
      }
  }

  /** In every reachable state the index is the inverse of the device states. */
  lemma {:induction false} IndexIsInverse(cmds: seq<Command>)
    ensures Inverse(Fold(cmds))
  {
    if cmds != [] {
      IndexIsInverse(cmds[..|cmds| - 1]);
      HandleKeepsInverse(Fold(cmds[..|cmds| - 1]), cmds[|cmds| - 1]);
    }
  }

  // ---------------------------------------------------------------- what each command does

  lemma FoldOneMore(cmds: seq<Command>, cmd: Command)
    ensures Fold(cmds + [cmd]) == Handle(Fold(cmds), cmd)
  {
    hide Handle;
    assert (cmds + [cmd])[..|cmds|] == cmds;
  }

  /**
   Removing a device: it is gone from the devices and from every list. Nothing else changes: every
   list keeps its other devices in their order.
   */
  lemma RemoveEffect(cmds: seq<Command>, b: BusId)
    ensures var s, t := Fold(cmds), Fold(cmds + [RemoveDevice(b)]);
            && t.devices == s.devices - {b}
            && (forall sid :: b !in Listed(t, sid))
            && (forall sid :: Listed(t, sid) == Without(Listed(s, sid), b))
  {
    var s := Fold(cmds);
    FoldOneMore(cmds, RemoveDevice(b));
    IndexIsInverse(cmds);
    forall sid
      ensures Listed(Fold(cmds + [RemoveDevice(b)]), sid) == Without(Listed(s, sid), b)
    {
      assert b in Listed(s, sid) <==> IsForwarded(s, b, sid);
      WithoutAbsent(Listed(s, sid), b);
    }
  }

  /** Adding a device makes it idle if it is unknown or disconnected, and otherwise does nothing. */
  lemma AddEffect(cmds: seq<Command>, d: UsbDevice)
    ensures var s, t := Fold(cmds), Fold(cmds + [AddDevice(d)]);
            if d.busid in s.devices && s.devices[d.busid].state != Disconnected then t == s
            else t == Snapshot(s.devices[d.busid := DeviceEntry(d, Idle)], s.forwardings)
  {
    FoldOneMore(cmds, AddDevice(d));
  }

  /** Which state a device may be asked to go to from which. */
  predicate MayGo(from: DeviceState, to: DeviceState) {
    || (to == Bound && from == Idle)
    || (to.Forwarded? && from == Bound)
    || (to == Idle && from.Forwarded?)
    || (to == Disconnected && from != Disconnected)
  }

  /**
   A transition along an edge of `MayGo` changes the state of the device and nothing else about any
   device; any other does nothing. The lists lose the device unless it is now forwarded, and then
   exactly its session's gains it, at the end.
   */
  lemma TransitionEffect(cmds: seq<Command>, b: BusId, to: DeviceState)
    ensures var s, t := Fold(cmds), Fold(cmds + [TransitionState(b, to)]);
            if b in s.devices && MayGo(s.devices[b].state, to) then
              && t.devices == s.devices[b := DeviceEntry(s.devices[b].device, to)]
              && forall sid :: Listed(t, sid) ==
                   Without(Listed(s, sid), b) + if to == Forwarded(sid) then [b] else []
            else t == s
  {
    var s, t := Fold(cmds), Fold(cmds + [TransitionState(b, to)]);
    FoldOneMore(cmds, TransitionState(b, to));
    IndexIsInverse(cmds);
    if b in s.devices && MayGo(s.devices[b].state, to) {
      forall sid
        ensures Listed(t, sid) == Without(Listed(s, sid), b) + if to == Forwarded(sid) then [b] else []
      {
        assert b in Listed(s, sid) <==> IsForwarded(s, b, sid);
        WithoutAbsent(Listed(s, sid), b);
      }
    }
  }

  // ---------------------------------------------------------------- interleavings

  /**
   Two histories that interleave the same per-device commands differently lead to the same
   devices, and to session lists with the same members.
   */
  lemma {:induction false} InterleavingsAgree(cmds: seq<Command>, other: seq<Command>)
    requires forall b :: About(cmds, b) == About(other, b)
    ensures Fold(cmds).devices == Fold(other).devices
    ensures forall sid, b :: b in Listed(Fold(cmds), sid) <==> b in Listed(Fold(other), sid)
  {
    var s, t := Fold(cmds), Fold(other);
    forall b
      ensures Lookup(s, b) == Lookup(t, b)
    {
      assert About(cmds, b) == About(other, b);
      DeviceDependsOnItsCommands(cmds, b);
      DeviceDependsOnItsCommands(other, b);
    }
    forall b
      ensures b in s.devices <==> b in t.devices
    {
      assert Lookup(s, b) == Lookup(t, b);
    }
    forall b | b in s.devices
      ensures s.devices[b] == t.devices[b]
    {
      assert Lookup(s, b) == Lookup(t, b);
    }
    IndexIsInverse(cmds);
    IndexIsInverse(other);
    forall sid, b
      ensures b in Listed(s, sid) <==> b in Listed(t, sid)
    {
      assert b in Listed(s, sid) <==> IsForwarded(s, b, sid);
      assert b in Listed(t, sid) <==> IsForwarded(t, b, sid);
    }
  }
}
