/** Laws that speak about the past: forwarding order, conservation, and a device's life cycle. */
module RegistryHistory {
  import opened Registry
  import opened RegistryLaws
  import opened Types
  import opened Wrappers

  // ---------------------------------------------------------------- forwarding order

  /** The last command of a history is accepted as the forwarding of `b`. */
  predicate StartsForwarding(cmds: seq<Command>, b: BusId)
    requires cmds != []
  {
    var last := cmds[|cmds| - 1];
    && last.TransitionState? && last.busid == b && last.state.Forwarded?
    && StateAfter(cmds[..|cmds| - 1], b) == Some(Bound)
  }

  /** The position of the command that last started the forwarding of `b`; -1 if none did. */
  function ForwardTime(cmds: seq<Command>, b: BusId): (t: int)
    ensures -1 <= t < |cmds|
  {
    if cmds == [] then -1
    else if StartsForwarding(cmds, b) then |cmds| - 1
    else ForwardTime(cmds[..|cmds| - 1], b)
  }

  /** Listed oldest forwarding first. */
  predicate InForwardOrder(cmds: seq<Command>, bs: seq<BusId>) {
    forall i, j | 0 <= i < j < |bs| :: ForwardTime(cmds, bs[i]) < ForwardTime(cmds, bs[j])
  }

  /** Removing an element keeps any order of the others. */
  lemma {:induction false} WithoutKeepsOrder(cmds: seq<Command>, bs: seq<BusId>, b: BusId)
    requires InForwardOrder(cmds, bs)
    ensures InForwardOrder(cmds, Without(bs, b))
  {
    if bs != [] {
      WithoutKeepsOrder(cmds, bs[1..], b);
      var rest := Without(bs[1..], b);
      forall j | 0 <= j < |rest|
        ensures ForwardTime(cmds, bs[0]) < ForwardTime(cmds, rest[j])
      {
        assert rest[j] in bs[1..];
      }
    }
  }

  /** The list of one session after one more command. */
  lemma ListedAfter(s: Snapshot, cmd: Command, sid: SessionId)
    requires Inverse(s)
    ensures var b := cmd.Target();
            var bs := Listed(s, sid);
            var to := Listed(Handle(s, cmd), sid);
            || to == bs
            || to == Without(bs, b)
            || (b !in bs && to == bs + [b] && b in s.devices && s.devices[b].state == Bound
                && cmd == TransitionState(b, Forwarded(sid)))
  {
    var b := cmd.Target();
    assert b in Listed(s, sid) <==> IsForwarded(s, b, sid);
  }

  lemma FrontKeepsTimes(cmds: seq<Command>, bs: seq<BusId>)
    requires cmds != [] && InForwardOrder(cmds[..|cmds| - 1], bs)
    requires forall b | b in bs :: !StartsForwarding(cmds, b)
    ensures InForwardOrder(cmds, bs)
  {
    forall i | 0 <= i < |bs|
      ensures ForwardTime(cmds, bs[i]) == ForwardTime(cmds[..|cmds| - 1], bs[i])
    {
      assert bs[i] in bs;
    }
  }

  lemma UnknownAtStart(b: BusId)
    ensures EntryAfter([], b) == None
  {
  }

  lemma ForwardedStep(cmds: seq<Command>, b: BusId, sid: SessionId)
    requires cmds != [] && StateAfter(cmds, b) == Some(Forwarded(sid))
    ensures if StartsForwarding(cmds, b) then cmds[|cmds| - 1] == TransitionState(b, Forwarded(sid))
            else StateAfter(cmds[..|cmds| - 1], b) == Some(Forwarded(sid))
  {
  }

  /** A device forwarded to a session has been so since the command at its forwarding time. */
  lemma {:induction false} ForwardedSince(cmds: seq<Command>, b: BusId, sid: SessionId)
    requires StateAfter(cmds, b) == Some(Forwarded(sid))
    ensures var t := ForwardTime(cmds, b);
            && 0 <= t
            && cmds[t] == TransitionState(b, Forwarded(sid)) && StateAfter(cmds[..t], b) == Some(Bound)
            && forall j | t < j <= |cmds| :: StateAfter(cmds[..j], b) == Some(Forwarded(sid))
  {
    hide EntryAfter;
    UnknownAtStart(b);
    assert cmds != [];
    hide StateAfter;
    var n := |cmds| - 1;
    var front := cmds[..n];
    assert cmds[..n + 1] == cmds;
    ForwardedStep(cmds, b, sid);
    if !StartsForwarding(cmds, b) {
      ForwardedSince(front, b, sid);
      assert front[..ForwardTime(front, b)] == cmds[..ForwardTime(front, b)];
      forall j | ForwardTime(front, b) < j <= n
        ensures StateAfter(cmds[..j], b) == Some(Forwarded(sid))
      {
        assert front[..j] == cmds[..j];
      }
    }
  }

  lemma {:induction false} ListedInOrder(cmds: seq<Command>, sid: SessionId)
    ensures InForwardOrder(cmds, Listed(Fold(cmds), sid))
  {
    if cmds != [] {
      var front, last := cmds[..|cmds| - 1], cmds[|cmds| - 1];
      var s, b := Fold(front), last.Target();
      var bs, to := Listed(s, sid), Listed(Fold(cmds), sid);
      ListedInOrder(front, sid);
      WithoutKeepsOrder(front, bs, b);
      IndexIsInverse(front);
      ListedAfter(s, last, sid);
      FoldFollowsEntries(front, b);
      assert b in bs <==> IsForwarded(s, b, sid);
      forall x | x in bs
        ensures !StartsForwarding(cmds, x)
      {
        if x == b {
          assert StateAfter(front, b) == Some(Forwarded(sid));
        }
      }
      if to == bs || to == Without(bs, b) {
        FrontKeepsTimes(cmds, to);
      } else {
        FrontKeepsTimes(cmds, bs);
        assert ForwardTime(cmds, b) == |cmds| - 1;
        forall i | 0 <= i < |bs|
          ensures ForwardTime(cmds, bs[i]) < |cmds| - 1
        {
          assert bs[i] in bs;
          assert ForwardTime(cmds, bs[i]) == ForwardTime(front, bs[i]);
        }
      }
    }
  }

  /**
   Over every history, each session's list is in the order in which its devices were forwarded to
   it: a listed device has been forwarded to this session by the command at its forwarding time.
   */
  lemma ListsInForwardOrder(cmds: seq<Command>, sid: SessionId)
    ensures var bs := Listed(Fold(cmds), sid);
            && InForwardOrder(cmds, bs)
            && forall b | b in bs :: var t := ForwardTime(cmds, b);
                 0 <= t && cmds[t] == TransitionState(b, Forwarded(sid)) && StateAfter(cmds[..t], b) == Some(Bound)
  {
    ListedInOrder(cmds, sid);
    IndexIsInverse(cmds);
    forall b | b in Listed(Fold(cmds), sid)
      ensures var t := ForwardTime(cmds, b);
              0 <= t && cmds[t] == TransitionState(b, Forwarded(sid)) && StateAfter(cmds[..t], b) == Some(Bound)
    {
      assert IsForwarded(Fold(cmds), b, sid);
      FoldFollowsEntries(cmds, b);
      ForwardedSince(cmds, b, sid);
    }
  }

  function Elements(bs: seq<BusId>): set<BusId> {
    set b | b in bs
  }

  lemma {:induction false} ElementsCount(bs: seq<BusId>)
    requires NoDuplicates(bs)
    ensures |Elements(bs)| == |bs|
  {
    if bs != [] {
      ElementsCount(bs[1..]);
      assert Elements(bs) == {bs[0]} + Elements(bs[1..]);
      assert bs[0] !in Elements(bs[1..]);
    }
  }

  lemma LastIsLatest(cmds: seq<Command>, bs: seq<BusId>, x: BusId)
    requires InForwardOrder(cmds, bs) && x in bs
    ensures x == bs[|bs| - 1] || ForwardTime(cmds, x) < ForwardTime(cmds, bs[|bs| - 1])
  {
    hide ForwardTime;
    var i :| 0 <= i < |bs| && bs[i] == x;
  }

  lemma ElementsWithoutLast(cmds: seq<Command>, bs: seq<BusId>)
    requires InForwardOrder(cmds, bs) && bs != []
    ensures Elements(bs[..|bs| - 1]) == Elements(bs) - {bs[|bs| - 1]}
  {
    hide ForwardTime;
    var n := |bs| - 1;
    forall x | x in Elements(bs[..n])
      ensures x != bs[n]
    {
      var i :| 0 <= i < n && bs[i] == x;
      assert ForwardTime(cmds, bs[i]) < ForwardTime(cmds, bs[n]);
    }
    assert bs == bs[..n] + [bs[n]];
  }

  lemma {:induction false} SameMembersSameList(cmds: seq<Command>, bs: seq<BusId>, cs: seq<BusId>)
    requires InForwardOrder(cmds, bs) && InForwardOrder(cmds, cs)
    requires |bs| == |cs| && Elements(bs) == Elements(cs)
    ensures bs == cs
    decreases |bs|
  {
    hide ForwardTime;
    if bs != [] {
      var n := |bs| - 1;
      var b, c := bs[n], cs[n];
      assert b in Elements(cs) && c in Elements(bs);
      LastIsLatest(cmds, bs, c);
      LastIsLatest(cmds, cs, b);
      ElementsWithoutLast(cmds, bs);
      ElementsWithoutLast(cmds, cs);
      SameMembersSameList(cmds, bs[..n], cs[..n]);
    }
  }

  /**
   Membership and order together leave no freedom: a list is the session's list exactly when it
   holds the devices now forwarded to the session, in forwarding order.
   */
  lemma ListIsDetermined(cmds: seq<Command>, sid: SessionId, bs: seq<BusId>)
    ensures bs == Listed(Fold(cmds), sid) <==>
            (forall b :: b in bs <==> StateAfter(cmds, b) == Some(Forwarded(sid))) && InForwardOrder(cmds, bs)
  {
    var listed := Listed(Fold(cmds), sid);
    IndexIsInverse(cmds);
    ListedInOrder(cmds, sid);
    forall b
      ensures b in listed <==> StateAfter(cmds, b) == Some(Forwarded(sid))
    {
      FoldFollowsEntries(cmds, b);
      assert b in listed <==> IsForwarded(Fold(cmds), b, sid);
    }
    if (forall b :: b in bs <==> StateAfter(cmds, b) == Some(Forwarded(sid))) && InForwardOrder(cmds, bs) {
      assert Elements(bs) == Elements(listed);
      ElementsCount(bs);
      ElementsCount(listed);
      SameMembersSameList(cmds, bs, listed);
    }
  }

  // ---------------------------------------------------------------- conservation

  /** The devices that are forwarded to some session. */
  function ForwardedSet(s: Snapshot): set<BusId> {
    set b | b in s.devices && s.devices[b].state.Forwarded?
  }

  /** Everything that the index lists. */
  function Members(f: map<SessionId, seq<BusId>>): set<BusId> {
    set sid, b | sid in f && b in f[sid] :: b
  }

  ghost predicate ListsDistinct(f: map<SessionId, seq<BusId>>) {
    && (forall sid | sid in f :: NoDuplicates(f[sid]))
    && (forall x, y, b | x in f && y in f && b in f[x] && b in f[y] :: x == y)
  }

  lemma SplitMembers(f: map<SessionId, seq<BusId>>, sid: SessionId)
    requires ListsDistinct(f) && sid in f
    ensures ListsDistinct(f - {sid})
    ensures |Members(f)| == |f[sid]| + |Members(f - {sid})|
  {
    ElementsCount(f[sid]);
    var g := f - {sid};
    assert Members(f) == Elements(f[sid]) + Members(g) by {
      forall b | b in Members(f)
        ensures b in Elements(f[sid]) + Members(g)
      {
        var x :| x in f && b in f[x];
        assert x == sid || (x in g && b in g[x]);
      }
      forall b | b in Members(g)
        ensures b in Members(f)
      {
        var x :| x in g && b in g[x];
        assert x in f && b in f[x];
      }
      forall b | b in Elements(f[sid])
        ensures b in Members(f)
      {
        assert sid in f && b in f[sid];
      }
    }
    assert Elements(f[sid]) !! Members(g);
  }

  /** The total length of all lists. */
  ghost function TotalLength(f: map<SessionId, seq<BusId>>): (n: nat)
    ensures ListsDistinct(f) ==> n == |Members(f)|
    decreases |f|
  {
    if |f| == 0 then
      assert f == map[];
      0
    else
      assert f != map[];
      var sid :| sid in f;
      var g := f - {sid};
      var n := |f[sid]| + TotalLength(g);
      assert ListsDistinct(f) ==> n == |Members(f)| by {
        if ListsDistinct(f) {
          SplitMembers(f, sid);
        }
      }
      n
  }

  lemma InverseCounts(s: Snapshot)
    requires Inverse(s)
    ensures TotalLength(s.forwardings) == |ForwardedSet(s)|
  {
    var f := s.forwardings;
    forall x, y, b | x in f && y in f && b in f[x] && b in f[y]
      ensures x == y
    {
      assert b in Listed(s, x) && b in Listed(s, y);
      assert IsForwarded(s, b, x) && IsForwarded(s, b, y);
    }
    assert Members(f) == ForwardedSet(s) by {
      forall b | b in Members(f)
        ensures b in ForwardedSet(s)
      {
        var x :| x in f && b in f[x];
        assert b in Listed(s, x);
        assert IsForwarded(s, b, x);
      }
      forall b | b in ForwardedSet(s)
        ensures b in Members(f)
      {
        var x := s.devices[b].state.sid;
        assert IsForwarded(s, b, x);
        assert b in Listed(s, x);
      }
    }
  }

  /** The last command of a history ends the forwarding of its device. */
  predicate EndsForwarding(cmds: seq<Command>)
    requires cmds != []
  {
    var last := cmds[|cmds| - 1];
    var before := StateAfter(cmds[..|cmds| - 1], last.Target());
    && before.Some? && before.value.Forwarded?
    && (last.RemoveDevice? || (last.TransitionState? && IsValidTransition(before.value, last.state)))
  }

  function Started(cmds: seq<Command>): nat {
    if cmds == [] then 0
    else Started(cmds[..|cmds| - 1]) + if StartsForwarding(cmds, cmds[|cmds| - 1].Target()) then 1 else 0
  }

  function Ended(cmds: seq<Command>): nat {
    if cmds == [] then 0 else Ended(cmds[..|cmds| - 1]) + if EndsForwarding(cmds) then 1 else 0
  }

  /** How one command changes the set of forwarded devices. */
  lemma ForwardedSetStep(s: Snapshot, cmd: Command)
    ensures var b, t := cmd.Target(), Handle(s, cmd);
            var from := if b in s.devices then Some(s.devices[b].state) else None;
            if cmd.TransitionState? && cmd.state.Forwarded? && from == Some(Bound) then
              b !in ForwardedSet(s) && ForwardedSet(t) == ForwardedSet(s) + {b}
            else if from.Some? && from.value.Forwarded? &&
                    (cmd.RemoveDevice? || (cmd.TransitionState? && IsValidTransition(from.value, cmd.state))) then
              b in ForwardedSet(s) && ForwardedSet(t) == ForwardedSet(s) - {b}
            else
              ForwardedSet(t) == ForwardedSet(s)
  {
    hide Unindex, Index;
  }

  lemma ForwardedSetAfter(cmds: seq<Command>)
    requires cmds != []
    ensures var s, t, b := Fold(cmds[..|cmds| - 1]), Fold(cmds), cmds[|cmds| - 1].Target();
            if StartsForwarding(cmds, b) then b !in ForwardedSet(s) && ForwardedSet(t) == ForwardedSet(s) + {b}
            else if EndsForwarding(cmds) then b in ForwardedSet(s) && ForwardedSet(t) == ForwardedSet(s) - {b}
            else ForwardedSet(t) == ForwardedSet(s)
  {
    hide Handle, ForwardedSet, EntryAfter;
    var front, last := cmds[..|cmds| - 1], cmds[|cmds| - 1];
    FoldFollowsEntries(front, last.Target());
    ForwardedSetStep(Fold(front), last);
  }

  /**
   Conservation: the lengths of all lists add up to the number of forwarded devices, and to the
   forwardings started minus the forwardings ended.
   */
  lemma {:induction false} ForwardingsConserved(cmds: seq<Command>)
    ensures TotalLength(Fold(cmds).forwardings) == |ForwardedSet(Fold(cmds))| == Started(cmds) - Ended(cmds)
  {
    IndexIsInverse(cmds);
    InverseCounts(Fold(cmds));
    if cmds == [] {
      assert ForwardedSet(EMPTY) == {};
    } else {
      ForwardingsConserved(cmds[..|cmds| - 1]);
      ForwardedSetAfter(cmds);
    }
  }

  // ---------------------------------------------------------------- life cycle

  /** How one command can change one device's state, as a graph. */
  lemma StateStep(cmds: seq<Command>, i: nat, b: BusId)
    requires i < |cmds|
    ensures var from, to := EntryAfter(cmds[..i], b), EntryAfter(cmds[..i + 1], b);
            || to == from
            || (cmds[i].Target() == b && to == EntryStep(from, cmds[i]))
  {
    assert cmds[..i + 1][..i] == cmds[..i];
  }

  /**
   A command is ignored as far as a device goes exactly when it is about another one, adds a device
   that is known and connected, removes an unknown one, or asks for a step that is not an edge of
   `MayGo`. A command that is not ignored has the effect it names. This is about successive states
   of the registry, at any point of any history.
   */
  lemma LifeCycle(cmds: seq<Command>, b: BusId, i: nat)
    requires i < |cmds|
    ensures var from, to := Lookup(Fold(cmds[..i]), b), Lookup(Fold(cmds[..i + 1]), b);
            && (to == from <==>
                match cmds[i]
                case AddDevice(d) => d.busid != b || (from.Some? && from.value.state != Disconnected)
                case RemoveDevice(x) => x != b || from.None?
                case TransitionState(x, t) => x != b || from.None? || !MayGo(from.value.state, t))
            && (to != from ==>
                  match cmds[i]
                  case AddDevice(d) => to == Some(DeviceEntry(d, Idle))
                  case RemoveDevice(_) => to == None
                  case TransitionState(_, t) => to == Some(DeviceEntry(from.value.device, t)))
  {
    assert cmds[..i + 1][..i] == cmds[..i];
  }

  /** Two forwardings of one device to different sessions are separated by a moment in which it is bound. */
  lemma {:induction false} BoundBetweenForwardings(cmds: seq<Command>, b: BusId, i: nat, j: nat,
                                                   x: SessionId, y: SessionId)
    requires i < j <= |cmds| && x != y
    requires StateAfter(cmds[..i], b) == Some(Forwarded(x))
    requires StateAfter(cmds[..j], b) == Some(Forwarded(y))
    ensures exists k :: i < k < j && StateAfter(cmds[..k], b) == Some(Bound)
    decreases j
  {
    StateStep(cmds, j - 1, b);
    if StateAfter(cmds[..j - 1], b) != Some(Bound) {
      assert StateAfter(cmds[..j - 1], b) == Some(Forwarded(y));
      BoundBetweenForwardings(cmds, b, i, j - 1, x, y);
    }
  }

  /**
   A disconnected device stays disconnected until it is added again or removed, whatever else is
   asked; and either of those does take it out of that state.
   */
  lemma DisconnectedIsLeftByAddOrRemove(cmds: seq<Command>, b: BusId, i: nat)
    requires i < |cmds|
    requires StateAfter(cmds[..i], b) == Some(Disconnected)
    ensures StateAfter(cmds[..i + 1], b) != Some(Disconnected) <==>
            match cmds[i]
            case AddDevice(d) => d.busid == b
            case RemoveDevice(x) => x == b
            case TransitionState(_, _) => false
    ensures Lookup(Fold(cmds[..i + 1]), b) ==
            match cmds[i]
            case AddDevice(d) => if d.busid == b then Some(DeviceEntry(d, Idle)) else Lookup(Fold(cmds[..i]), b)
            case RemoveDevice(x) => if x == b then None else Lookup(Fold(cmds[..i]), b)
            case TransitionState(_, _) => Lookup(Fold(cmds[..i]), b)
  {
    assert cmds[..i + 1][..i] == cmds[..i];
    FoldFollowsEntries(cmds[..i], b);
    FoldFollowsEntries(cmds[..i + 1], b);
  }

  /** A history in which a device is disconnected and then idle again. */
  lemma DisconnectedIsNotTerminal(d: UsbDevice)
    ensures var cmds := [AddDevice(d), TransitionState(d.busid, Disconnected), AddDevice(d)];
            && Lookup(Fold(cmds[..2]), d.busid) == Some(DeviceEntry(d, Disconnected))
            && Lookup(Fold(cmds), d.busid) == Some(DeviceEntry(d, Idle))
  {
    var cmds := [AddDevice(d), TransitionState(d.busid, Disconnected), AddDevice(d)];
    assert cmds[..3] == cmds && cmds[..2][..1] == cmds[..1] == [AddDevice(d)];
    assert Fold([AddDevice(d)]) == Handle(Fold([]), AddDevice(d));
    assert Fold(cmds[..2]) == Handle(Fold(cmds[..1]), cmds[1]);
    assert Fold(cmds) == Handle(Fold(cmds[..2]), cmds[2]);
  }

  lemma RecordStep(cmds: seq<Command>, b: BusId, i: nat)
    requires i < |cmds|
    requires StateAfter(cmds[..i], b).Some? && StateAfter(cmds[..i], b) != Some(Disconnected)
    ensures EntryAfter(cmds[..i], b).Some?
    ensures EntryAfter(cmds[..i + 1], b).Some? ==>
              EntryAfter(cmds[..i + 1], b).value.device == EntryAfter(cmds[..i], b).value.device
  {
    hide EntryAfter;
    StateStep(cmds, i, b);
  }

  /** While a device stays known and is not disconnected, its record does not change. */
  lemma {:induction false} RecordIsConstant(cmds: seq<Command>, b: BusId, i: nat, j: nat)
    requires i <= j <= |cmds|
    requires EntryAfter(cmds[..j], b).Some?
    requires forall k | i <= k < j :: StateAfter(cmds[..k], b).Some? && StateAfter(cmds[..k], b) != Some(Disconnected)
    ensures EntryAfter(cmds[..i], b).Some?
    ensures EntryAfter(cmds[..j], b).value.device == EntryAfter(cmds[..i], b).value.device
    decreases j
  {
    hide EntryAfter, StateAfter;
    if i < j {
      assert StateAfter(cmds[..j - 1], b).Some?;
      RecordStep(cmds, b, j - 1);
      RecordIsConstant(cmds, b, i, j - 1);
    }
  }

  /** The command at `i` added `b`, as an idle device, and the record has been that one ever since. */
  predicate AddedAt(cmds: seq<Command>, b: BusId, i: nat)
    requires i < |cmds|
  {
    && cmds[i].AddDevice?
    && EntryAfter(cmds[..i + 1], b) == Some(DeviceEntry(cmds[i].device, Idle))
    && forall j | i < j <= |cmds| ::
         EntryAfter(cmds[..j], b).Some? && EntryAfter(cmds[..j], b).value.device == cmds[i].device
  }

  /** A record that is there came from an AddDevice after which it has been the same ever since. */
  lemma {:induction false} RecordComesFromAdd(cmds: seq<Command>, b: BusId)
    requires EntryAfter(cmds, b).Some?
    ensures exists i | 0 <= i < |cmds| :: AddedAt(cmds, b, i)
  {
    hide EntryAfter;
    UnknownAtStart(b);
    var n := |cmds| - 1;
    var front, last := cmds[..n], cmds[n];
    assert cmds[..n + 1] == cmds;
    StateStep(cmds, n, b);
    if last.AddDevice? && last.Target() == b && EntryAfter(cmds, b) != EntryAfter(front, b) {
      assert AddedAt(cmds, b, n);
    } else {
      RecordComesFromAdd(front, b);
      var i :| 0 <= i < |front| && AddedAt(front, b, i);
      forall j | i < j <= n
        ensures EntryAfter(cmds[..j], b) == EntryAfter(front[..j], b)
      {
        assert front[..j] == cmds[..j];
      }
      assert front[..n] == front;
      assert AddedAt(cmds, b, i);
    }
  }
}
