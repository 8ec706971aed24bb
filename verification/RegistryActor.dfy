/**
 The registry as an actor: callers put commands into a bounded queue, one task takes them out,
 applies them and publishes a snapshot, and readers look at the last snapshot published.

 `RunRegistry` is the registry task's loop. What `select!` yields in each round, and how many snapshot
 readers exist at that moment, is an arbitrary list. `Actor` puts that task next to its callers
 and readers; its laws quantify over every sequence of events.
 */
module RegistryActor {
  import opened Registry
  import opened RegistryLaws
  import opened Types
  import opened Wrappers

  /** One round of `select!`: a command, with the number of readers then; or a reason to stop. */
  datatype Select = Received(cmd: Command, receivers: nat) | SendersGone | ShutdownSignal

  /** `watch::Sender`: a send without receivers fails and leaves the old value. */
  class Watch {
    var value: Snapshot

    constructor ()
      ensures value == EMPTY
    {
      value := EMPTY;
    }

    method Send(s: Snapshot, receivers: nat) returns (ok: bool)
      modifies this
      ensures ok <==> receivers > 0
      ensures value == if ok then s else old(value)
    {
      ok := receivers > 0;
      if ok {
        value := s;
      }
    }
  }

  /** The registry task's state after these rounds. */
  function TaskState(rounds: seq<Select>): Snapshot {
    if rounds == [] then EMPTY
    else
      var before := TaskState(rounds[..|rounds| - 1]);
      var last := rounds[|rounds| - 1];
      if last.Received? then Handle(before, last.cmd) else before
  }

  /** The published snapshot after these rounds. */
  function TaskWatch(rounds: seq<Select>): Snapshot {
    if rounds == [] then EMPTY
    else
      var last := rounds[|rounds| - 1];
      if last.Received? && last.receivers > 0 then TaskState(rounds) else TaskWatch(rounds[..|rounds| - 1])
  }

  /** The registry task runs until it is told to stop or the senders are gone; `n` rounds are used. */
  method RunRegistry(rounds: seq<Select>, watch: Watch) returns (state: DeviceRegistry, n: nat)
    requires watch.value == EMPTY
    modifies watch
    ensures fresh(state)
    ensures n <= |rounds|
    ensures forall i | 0 <= i < n - 1 :: rounds[i].Received?
    ensures n < |rounds| ==> 0 < n && !rounds[n - 1].Received?
    ensures state.Contents() == TaskState(rounds[..n])
    ensures watch.value == TaskWatch(rounds[..n])
  {
    state := new DeviceRegistry();
    n := 0;
    while n < |rounds|
      invariant n <= |rounds|
      invariant forall i | 0 <= i < n :: rounds[i].Received?
      invariant fresh(state)
      invariant state.Contents() == TaskState(rounds[..n])
      invariant watch.value == TaskWatch(rounds[..n])
      decreases |rounds| - n
    {
      var round := rounds[n];
      assert rounds[..n + 1][..n] == rounds[..n];
      n := n + 1;
      if round.Received? {
        state.HandleCommand(round.cmd);
        var _ := watch.Send(Snapshot(state.devices, state.forwardings), round.receivers);
      } else {
        break;
      }
    }
  }

  function Commands(rounds: seq<Select>): seq<Command> {
    if rounds == [] then []
    else
      var front, last := Commands(rounds[..|rounds| - 1]), rounds[|rounds| - 1];
      if last.Received? then front + [last.cmd] else front
  }

  predicate Seen(r: Select) {
    r.Received? && r.receivers > 0
  }

  /** The rounds up to the last one whose command found a reader. */
  function LastSeen(rounds: seq<Select>): (n: nat)
    ensures n <= |rounds|
    ensures n > 0 ==> Seen(rounds[n - 1])
    ensures forall i | n <= i < |rounds| :: !Seen(rounds[i])
  {
    if rounds == [] then 0
    else if Seen(rounds[|rounds| - 1]) then |rounds|
    else LastSeen(rounds[..|rounds| - 1])
  }

  /**
   Over all rounds the registry task's state is that of every command received, and the snapshot it
   has published is that of the commands up to the last one which found a reader.
   */
  lemma {:induction false} TaskFollowsCommands(rounds: seq<Select>)
    ensures TaskState(rounds) == Fold(Commands(rounds))
    ensures TaskWatch(rounds) == Fold(Commands(rounds[..LastSeen(rounds)]))
  {
    hide Handle;
    if rounds != [] {
      var n := |rounds| - 1;
      var front, last := rounds[..n], rounds[n];
      TaskFollowsCommands(front);
      assert rounds[..n + 1] == rounds;
      assert rounds[..LastSeen(front)] == front[..LastSeen(front)];
      if last.Received? {
        FoldOneMore(Commands(front), last.cmd);
      }
    }
  }

  // ---------------------------------------------------------------- the actor and its surroundings

  /**
   `accepted`, `applied`, `dropped`, `rounds` and `published` are records: the commands that
   entered the queue, those taken out, those still queued when the registry task stopped, its
   rounds, and how many commands the published snapshot covers.
   */
  datatype Actor = Actor(
    capacity: nat,
    queue: seq<Command>,
    running: bool,
    signalled: bool,
    senders: bool,
    receivers: nat,
    state: Snapshot,
    value: Snapshot,
    accepted: seq<Command>,
    applied: seq<Command>,
    dropped: seq<Command>,
    rounds: seq<Select>,
    published: nat)

  datatype Event =
    | Submit(cmd: Command)
    | Take
    | Signal
    | Stop
    | DropSenders
    | HangUp
    | Subscribe
    | Unsubscribe

  function New(capacity: nat): Actor {
    Actor(capacity, [], true, false, true, 0, EMPTY, EMPTY, [], [], [], [], 0)
  }

  /** A send waits while the queue is full, and fails at once when the registry task is gone. */
  predicate Enabled(a: Actor, e: Event) {
    match e
    case Submit(_) => a.senders && (a.running ==> |a.queue| < a.capacity)
    case Take => a.running && a.queue != []
    case Signal => true
    case Stop => a.running && a.signalled
    case DropSenders => a.senders
    case HangUp => a.running && !a.senders && a.queue == []
    case Subscribe => true
    case Unsubscribe => a.receivers > 0
  }

  function TakeOne(a: Actor): Actor
    requires a.queue != []
  {
    var cmd := a.queue[0];
    var state := Handle(a.state, cmd);
    var b := a.(queue := a.queue[1..], state := state, applied := a.applied + [cmd],
                rounds := a.rounds + [Received(cmd, a.receivers)]);
    if a.receivers > 0 then b.(value := state, published := |b.applied|) else b
  }

  function Next(a: Actor, e: Event): Actor
    requires Enabled(a, e)
  {
    match e
    case Submit(cmd) => if a.running then a.(queue := a.queue + [cmd], accepted := a.accepted + [cmd]) else a
    case Take => TakeOne(a)
    case Signal => a.(signalled := true)
    case Stop => a.(running := false, queue := [], dropped := a.queue, rounds := a.rounds + [ShutdownSignal])
    case DropSenders => a.(senders := false)
    case HangUp => a.(running := false, rounds := a.rounds + [SendersGone])
    case Subscribe => a.(receivers := a.receivers + 1)
    case Unsubscribe => a.(receivers := a.receivers - 1)
  }

  predicate Legal(capacity: nat, es: seq<Event>)
    decreases |es|, 0
  {
    es == [] || (Legal(capacity, es[..|es| - 1]) && Enabled(Exec(capacity, es[..|es| - 1]), es[|es| - 1]))
  }

  function Exec(capacity: nat, es: seq<Event>): Actor
    requires Legal(capacity, es)
    decreases |es|, 1
  {
    if es == [] then New(capacity) else Next(Exec(capacity, es[..|es| - 1]), es[|es| - 1])
  }

  predicate Inv(a: Actor) {
    && |a.queue| <= a.capacity
    && a.accepted == a.applied + a.queue + a.dropped
    && (a.running ==> a.dropped == [])
    && (!a.running ==> a.queue == [])
    && a.state == Fold(a.applied) == TaskState(a.rounds)
    && a.published <= |a.applied|
    && a.value == Fold(a.applied[..a.published]) == TaskWatch(a.rounds)
  }

  lemma RoundsOneMore(rounds: seq<Select>, r: Select)
    ensures TaskState(rounds + [r]) == if r.Received? then Handle(TaskState(rounds), r.cmd) else TaskState(rounds)
    ensures TaskWatch(rounds + [r]) ==
            if r.Received? && r.receivers > 0 then TaskState(rounds + [r]) else TaskWatch(rounds)
  {
    hide Handle;
    assert (rounds + [r])[..|rounds|] == rounds;
  }

  lemma TakeKeepsInv(a: Actor)
    requires Inv(a) && Enabled(a, Take)
    ensures Inv(TakeOne(a))
  {
    hide Handle, Fold, TaskState, TaskWatch;
    var b, cmd := TakeOne(a), a.queue[0];
    FoldOneMore(a.applied, cmd);
    RoundsOneMore(a.rounds, Received(cmd, a.receivers));
    assert a.applied + a.queue == b.applied + b.queue;
    if a.receivers > 0 {
      assert b.applied[..b.published] == b.applied;
    } else {
      assert b.applied[..a.published] == a.applied[..a.published];
    }
  }

  lemma StopKeepsInv(a: Actor, e: Event)
    requires Inv(a) && Enabled(a, e) && (e.Stop? || e.HangUp?)
    ensures Inv(Next(a, e))
  {
    hide Handle, Fold, TaskState, TaskWatch;
    RoundsOneMore(a.rounds, if e.Stop? then ShutdownSignal else SendersGone);
    assert a.applied + a.queue + [] == a.applied + [] + a.queue;
  }

  lemma SubmitKeepsInv(a: Actor, cmd: Command)
    requires Inv(a) && Enabled(a, Submit(cmd))
    ensures Inv(Next(a, Submit(cmd)))
  {
    hide Handle, Fold, TaskState, TaskWatch;
    if a.running {
      assert a.applied + (a.queue + [cmd]) + [] == (a.applied + a.queue + []) + [cmd];
    }
  }

  lemma NewInv(capacity: nat)
    ensures Inv(New(capacity))
  {
  }

  lemma {:induction false} InvHolds(capacity: nat, es: seq<Event>)
    requires Legal(capacity, es)
    ensures Inv(Exec(capacity, es))
    decreases |es|
  {
    hide Handle, Fold, TaskState, TaskWatch;
    if es == [] {
      NewInv(capacity);
    } else {
      var a, e := Exec(capacity, es[..|es| - 1]), es[|es| - 1];
      InvHolds(capacity, es[..|es| - 1]);
      match e
      case Submit(cmd) => SubmitKeepsInv(a, cmd);
      case Take => TakeKeepsInv(a);
      case Stop => StopKeepsInv(a, e);
      case HangUp => StopKeepsInv(a, e);
      case _ =>
    }
  }

  /**
   At every moment of every run: the state and the published snapshot are those of prefixes of the
   accepted commands, the snapshot's being the shorter one; both have a consistent index; and what
   the registry task's loop computes from its rounds is this state and this snapshot.
   */
  lemma {:induction false} SnapshotsArePrefixes(capacity: nat, es: seq<Event>)
    requires Legal(capacity, es)
    ensures var a := Exec(capacity, es);
            && a.applied <= a.accepted
            && a.published <= |a.applied|
            && a.state == Fold(a.applied)
            && a.value == Fold(a.accepted[..a.published])
            && Inverse(a.state) && Inverse(a.value)
            && a.state == TaskState(a.rounds) && a.value == TaskWatch(a.rounds)
  {
    hide Legal, Exec, Fold, Inverse, TaskState, TaskWatch;
    InvHolds(capacity, es);
    var a := Exec(capacity, es);
    IndexIsInverse(a.applied);
    IndexIsInverse(a.applied[..a.published]);
    assert a.applied == a.accepted[..|a.applied|];
    assert a.accepted[..a.published] == a.applied[..a.published];
  }

  lemma LegalPrefix(capacity: nat, es: seq<Event>, i: nat)
    requires Legal(capacity, es) && i <= |es|
    ensures Legal(capacity, es[..i])
    decreases |es|
  {
    if i < |es| {
      assert es[..|es| - 1][..i] == es[..i];
      LegalPrefix(capacity, es[..|es| - 1], i);
    } else {
      assert es[..i] == es;
    }
  }

  /** One event only ever extends what was accepted and applied and what the snapshot covers. */
  lemma StepGrows(a: Actor, e: Event)
    requires Inv(a) && Enabled(a, e)
    ensures var b := Next(a, e);
            && a.accepted <= b.accepted && a.applied <= b.applied && a.published <= b.published
            && (!a.running ==> !b.running && b.accepted == a.accepted && b.state == a.state && b.value == a.value)
  {
    hide Handle, Fold, TaskState, TaskWatch;
  }

  /** Readers never go back, and a stopped registry never changes again. */
  lemma {:induction false} ReadersNeverGoBack(capacity: nat, es: seq<Event>, i: nat)
    requires Legal(capacity, es) && i <= |es|
    ensures Legal(capacity, es[..i])
    ensures var a, b := Exec(capacity, es[..i]), Exec(capacity, es);
            && a.accepted <= b.accepted && a.applied <= b.applied && a.published <= b.published
            && (!a.running ==> !b.running && b.accepted == a.accepted && b.state == a.state && b.value == a.value)
    decreases |es|
  {
    hide Inv, Next, Enabled;
    LegalPrefix(capacity, es, i);
    if i == |es| {
      assert es[..i] == es;
    } else {
      var front := es[..|es| - 1];
      assert front[..i] == es[..i];
      ReadersNeverGoBack(capacity, front, i);
      InvHolds(capacity, front);
      StepGrows(Exec(capacity, front), es[|es| - 1]);
    }
  }

  /** The commands put into the queue: those submitted before the registry task stopped. */
  function Submitted(es: seq<Event>): seq<Command> {
    if es == [] then []
    else
      var front, last := es[..|es| - 1], es[|es| - 1];
      if last.Submit? && Stop !in front && HangUp !in front then Submitted(front) + [last.cmd] else Submitted(front)
  }

  /** The subscribers that these events leave. */
  function Subscribers(es: seq<Event>): int {
    multiset(es)[Subscribe] as int - multiset(es)[Unsubscribe] as int
  }

  lemma EventsOneMore(es: seq<Event>)
    requires es != []
    ensures var front, last := es[..|es| - 1], es[|es| - 1];
            && multiset(es) == multiset(front) + multiset{last}
            && forall e :: e in es <==> e in front || e == last
  {
    assert es == es[..|es| - 1] + [es[|es| - 1]];
  }

  /** The parts of the state that do not depend on what is in the queue. */
  ghost predicate FlagsFollow(a: Actor, es: seq<Event>) {
    && a.receivers == Subscribers(es)
    && (a.running <==> Stop !in es && HangUp !in es)
    && (a.signalled <==> Signal in es)
    && (a.senders <==> DropSenders !in es)
  }

  lemma FlagsStep(a: Actor, es: seq<Event>)
    requires es != [] && FlagsFollow(a, es[..|es| - 1]) && Enabled(a, es[|es| - 1])
    ensures FlagsFollow(Next(a, es[|es| - 1]), es)
  {
    hide Handle;
    EventsOneMore(es);
  }

  lemma QueueStep(a: Actor, es: seq<Event>)
    requires es != [] && FlagsFollow(a, es[..|es| - 1]) && Enabled(a, es[|es| - 1])
    requires a.accepted == Submitted(es[..|es| - 1]) && |a.applied| == multiset(es[..|es| - 1])[Take]
    ensures var b := Next(a, es[|es| - 1]);
            b.capacity == a.capacity && b.accepted == Submitted(es) && |b.applied| == multiset(es)[Take]
  {
    hide Handle;
    EventsOneMore(es);
  }

  lemma {:induction false} RunFollows(capacity: nat, es: seq<Event>)
    requires Legal(capacity, es)
    ensures var a := Exec(capacity, es);
            && a.capacity == capacity
            && FlagsFollow(a, es)
            && a.accepted == Submitted(es)
            && |a.applied| == multiset(es)[Take]
    decreases |es|
  {
    hide Next, Enabled;
    if es != [] {
      var front := es[..|es| - 1];
      RunFollows(capacity, front);
      FlagsStep(Exec(capacity, front), es);
      QueueStep(Exec(capacity, front), es);
    }
  }

  /**
   The records of a run follow from its events alone: who subscribes, whether the registry task is
   still running, what has been accepted, how much of it was applied, and so what is in the queue.
   */
  lemma RecordsFollowEvents(capacity: nat, es: seq<Event>)
    requires Legal(capacity, es)
    ensures var a := Exec(capacity, es);
            && a.capacity == capacity
            && FlagsFollow(a, es)
            && a.accepted == Submitted(es)
            && |a.applied| == multiset(es)[Take] <= |a.accepted|
            && a.applied == a.accepted[..|a.applied|]
            && a.queue == if a.running then a.accepted[|a.applied|..] else []
  {
    hide Fold, TaskState, TaskWatch, FlagsFollow, Legal, Exec, Submitted;
    InvHolds(capacity, es);
    RunFollows(capacity, es);
  }

  /** Which events are possible after a run, by what happened in it. */
  lemma PossibleEvents(capacity: nat, es: seq<Event>, e: Event)
    requires Legal(capacity, es)
    ensures var running := Stop !in es && HangUp !in es;
            var waiting := |Submitted(es)| - multiset(es)[Take];
            Legal(capacity, es + [e]) <==>
            match e
            case Submit(_) => DropSenders !in es && (running ==> waiting < capacity)
            case Take => running && waiting > 0
            case Signal => true
            case Stop => running && Signal in es
            case DropSenders => DropSenders !in es
            case HangUp => running && DropSenders in es && waiting == 0
            case Subscribe => true
            case Unsubscribe => Subscribers(es) > 0
  {
    hide Submitted, Inv;
    RecordsFollowEvents(capacity, es);
    assert (es + [e])[..|es|] == es;
  }

  /**
   At every point of every run: taking a command applies the oldest accepted one that was not yet
   applied, and publishes the result if somebody subscribes; nothing else changes or publishes.
   */
  lemma TakenIsPublished(capacity: nat, es: seq<Event>, i: nat)
    requires Legal(capacity, es) && i < |es|
    ensures Legal(capacity, es[..i]) && Legal(capacity, es[..i + 1])
    ensures var a, b := Exec(capacity, es[..i]), Exec(capacity, es[..i + 1]);
            var taken := multiset(es[..i])[Take];
            if es[i] == Take then
              && taken < |Submitted(es[..i])|
              && b.state == Handle(a.state, Submitted(es[..i])[taken])
              && b.value == if Subscribers(es[..i]) > 0 then b.state else a.value
            else b.state == a.state && b.value == a.value
  {
    hide Handle;
    LegalPrefix(capacity, es, i);
    LegalPrefix(capacity, es, i + 1);
    assert es[..i + 1][..i] == es[..i];
    RecordsFollowEvents(capacity, es[..i]);
  }

  // ---------------------------------------------------------------- lost publishes, dropped commands

  /** Some reader existed when the last command was applied. */
  predicate LastWasSeen(rounds: seq<Select>) {
    rounds == [] ||
    var last := rounds[|rounds| - 1];
    if last.Received? then last.receivers > 0 else LastWasSeen(rounds[..|rounds| - 1])
  }

  predicate Current(a: Actor) {
    a.published == |a.applied|
  }

  lemma CurrentStep(a: Actor, e: Event)
    requires Enabled(a, e) && a.published <= |a.applied|
    requires Current(a) <==> LastWasSeen(a.rounds)
    ensures Current(Next(a, e)) <==> LastWasSeen(Next(a, e).rounds)
  {
    hide Handle;
    var rounds := Next(a, e).rounds;
    assert rounds == a.rounds || rounds[..|rounds| - 1] == a.rounds;
  }

  lemma EmptyIsCurrent(capacity: nat)
    ensures Current(New(capacity)) && LastWasSeen(New(capacity).rounds)
  {
  }

  /** The published snapshot covers everything applied exactly when the last command found a reader. */
  lemma {:induction false} CurrentExactly(capacity: nat, es: seq<Event>)
    requires Legal(capacity, es)
    ensures var a := Exec(capacity, es);
            Current(a) <==> LastWasSeen(a.rounds)
    decreases |es|
  {
    hide Next, Enabled, Current, LastWasSeen;
    if es == [] {
      EmptyIsCurrent(capacity);
    } else {
      var front := es[..|es| - 1];
      CurrentExactly(capacity, front);
      InvHolds(capacity, front);
      CurrentStep(Exec(capacity, front), es[|es| - 1]);
    }
  }

  lemma ExecOne(capacity: nat, es: seq<Event>, e: Event)
    requires Legal(capacity, es) && Enabled(Exec(capacity, es), e)
    ensures Legal(capacity, es + [e]) && Exec(capacity, es + [e]) == Next(Exec(capacity, es), e)
  {
    assert (es + [e])[..|es|] == es;
  }

  /** A device added before anybody subscribes is not in the snapshot that the first subscriber finds. */
  lemma UnseenPublishIsLost(d: UsbDevice)
    ensures var es := [Submit(AddDevice(d)), Take, Subscribe];
            Legal(1, es) && d.busid in Exec(1, es).state.devices && d.busid !in Exec(1, es).value.devices
  {
    var submit := Submit(AddDevice(d));
    assert [] + [submit] == [submit];
    assert [submit] + [Take] == [submit, Take];
    assert [submit, Take] + [Subscribe] == [submit, Take, Subscribe];
    ExecOne(1, [], submit);
    ExecOne(1, [submit], Take);
    ExecOne(1, [submit, Take], Subscribe);
  }

  /** Shutting down does not drain the queue: an accepted command may never be applied. */
  lemma ShutdownMayDropCommands(cmd: Command)
    ensures var es := [Submit(cmd), Signal, Stop];
            Legal(1, es) && Exec(1, es).accepted == [cmd] && Exec(1, es).applied == []
  {
    assert [] + [Submit(cmd)] == [Submit(cmd)];
    assert [Submit(cmd)] + [Signal] == [Submit(cmd), Signal];
    assert [Submit(cmd), Signal] + [Stop] == [Submit(cmd), Signal, Stop];
    ExecOne(1, [], Submit(cmd));
    ExecOne(1, [Submit(cmd)], Signal);
    ExecOne(1, [Submit(cmd), Signal], Stop);
  }

  /**
   A stopped registry has applied every command it accepted exactly when its queue was empty at
   the moment it stopped, which a stop for lack of senders guarantees and a shutdown does not.
   */
  lemma AppliedAllExactly(capacity: nat, es: seq<Event>, e: Event)
    requires Legal(capacity, es) && Enabled(Exec(capacity, es), e) && (e.Stop? || e.HangUp?)
    ensures var b := Next(Exec(capacity, es), e);
            && (b.applied == b.accepted <==> Exec(capacity, es).queue == [])
            && (e.HangUp? ==> b.applied == b.accepted)
  {
    InvHolds(capacity, es);
  }
}
