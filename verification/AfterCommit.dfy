/** Side effects parked on a session until its transaction commits. */
module AfterCommit {

  import opened Common

  /** A parked callable: what it parks itself when it runs, and whether it then
      raises. */
  datatype Hook = Hook(parks: seq<Hook>, raises: bool)

  /** A hook as it sits in the queue, under the number of the
      `run_after_commit` call that put it there. */
  datatype Parked = Parked(ticket: nat, hook: Hook)

  datatype Event = Park(hook: Hook) | SavepointRollback | Commit | Rollback

  datatype Entry = Queued(ticket: nat) | Ran(ticket: nat) | SavepointMark | CommitMark | RollbackMark

  predicate Outer(e: Entry) { e.CommitMark? || e.RollbackMark? }

  /** Everything that happened to a session, the latest entry outermost. */
  datatype History = Fresh | After(before: History, last: Entry)

  // ---- The reference: which tickets wait, and which must have run ----

  /** What a history says: the tickets out so far, those queued since the last
      outer boundary, those some outer commit made due, and those that ran.  It
      is `sound` when tickets are handed out in order and, at every moment, what
      has run is the front part of what is due: nothing runs before the commit
      that makes it due, and nothing overtakes. */
  datatype Account = Account(tickets: nat, waiting: seq<nat>, due: seq<nat>, ran: seq<nat>, sound: bool)

  function Read(h: History): Account {
    match h
    case Fresh => Account(0, [], [], [], true)
    case After(before, last) =>
      var a := Read(before);
      match last
      case Queued(t) => a.(tickets := a.tickets + 1, waiting := a.waiting + [t], sound := a.sound && t == a.tickets)
      case Ran(t) => a.(ran := a.ran + [t], sound := a.sound && a.ran + [t] <= a.due)
      case SavepointMark => a
      case CommitMark => a.(waiting := [], due := a.due + a.waiting)
      case RollbackMark => a.(waiting := [])
  }

  predicate WasQueued(h: History, ticket: nat) {
    h.After? && (h.last == Queued(ticket) || WasQueued(h.before, ticket))
  }

  /** The first outer boundary after `ticket` was queued. */
  function FirstBoundary(h: History, ticket: nat): Option<Entry> {
    match h
    case Fresh => None
    case After(before, last) =>
      if FirstBoundary(before, ticket).Some? then FirstBoundary(before, ticket)
      else if Outer(last) && WasQueued(before, ticket) then Some(last)
      else None
  }

  // ---- What the reference means ----

  predicate Increasing(s: seq<nat>) {
    forall i, j :: 0 <= i < j < |s| ==> s[i] < s[j]
  }

  /** Due and waiting tickets together are in queueing order, each at most once. */
  lemma {:induction false} DueThenWaitingIncreases(h: History)
    requires Read(h).sound
    ensures Increasing(Read(h).due + Read(h).waiting)
    ensures forall k :: k in Read(h).due + Read(h).waiting ==> k < Read(h).tickets
  {
    if h.After? {
      DueThenWaitingIncreases(h.before);
      var a := Read(h.before);
      var both := a.due + a.waiting;
      if h.last.Queued? {
        assert Read(h).due + Read(h).waiting == both + [h.last.ticket];
        forall j | 0 <= j < |both| ensures both[j] < a.tickets {
          assert both[j] in both;
        }
      } else if h.last.RollbackMark? {
        assert Read(h).due + Read(h).waiting == both[..|a.due|];
        assert forall k :: k in both[..|a.due|] ==> k in both;
      } else {
        assert Read(h).due + Read(h).waiting == both;
      }
    }
  }

  lemma {:induction false} QueuedIsOut(h: History, ticket: nat)
    requires Read(h).sound
    ensures WasQueued(h, ticket) <==> ticket < Read(h).tickets
  {
    if h.After? { QueuedIsOut(h.before, ticket); }
  }

  /** A hook is due exactly when the first outer boundary after it was queued is
      a commit, and waits exactly while there has been none; so a rollback drops
      it and a savepoint rollback does not count. */
  lemma {:induction false} FateIsFirstBoundary(h: History, ticket: nat)
    requires Read(h).sound && WasQueued(h, ticket)
    ensures ticket in Read(h).due <==> FirstBoundary(h, ticket) == Some(CommitMark)
    ensures ticket in Read(h).waiting <==> FirstBoundary(h, ticket) == None
  {
    DueThenWaitingIncreases(h.before);
    QueuedIsOut(h.before, ticket);
    var a := Read(h.before);
    assert forall k :: k in a.due || k in a.waiting ==> k in a.due + a.waiting;
    if WasQueued(h.before, ticket) {
      FateIsFirstBoundary(h.before, ticket);
      if FirstBoundary(h.before, ticket) == Some(CommitMark) { NotBoth(h.before, ticket); }
    } else {
      NoBoundaryYet(h.before, ticket);
    }
  }

  lemma {:induction false} NoBoundaryYet(h: History, ticket: nat)
    requires !WasQueued(h, ticket)
    ensures FirstBoundary(h, ticket) == None
  {
    if h.After? { NoBoundaryYet(h.before, ticket); }
  }

  lemma NotBoth(h: History, ticket: nat)
    requires Read(h).sound && ticket in Read(h).due
    ensures ticket !in Read(h).waiting
  {
    DueThenWaitingIncreases(h);
    var a := Read(h);
    var i :| 0 <= i < |a.due| && a.due[i] == ticket;
    forall j | 0 <= j < |a.waiting| ensures a.waiting[j] != ticket {
      assert (a.due + a.waiting)[i] < (a.due + a.waiting)[|a.due| + j];
    }
  }

  function Occurrences(s: seq<nat>, k: nat): nat {
    if s == [] then 0 else (if s[0] == k then 1 else 0) + Occurrences(s[1..], k)
  }

  lemma {:induction false} OnceInIncreasing(s: seq<nat>, k: nat)
    requires Increasing(s)
    ensures Occurrences(s, k) == if k in s then 1 else 0
  {
    if s != [] {
      OnceInIncreasing(s[1..], k);
      assert k in s <==> k == s[0] || k in s[1..];
    }
  }

  /** The promise of the module, for a sound history that has run what is due:
      each hook runs exactly once if its first outer boundary is a commit and
      never otherwise, and hooks run in the order they were queued. */
  lemma RunsOnceIffCommitted(h: History, ticket: nat)
    requires Read(h).sound && Read(h).ran == Read(h).due && WasQueued(h, ticket)
    ensures Occurrences(Read(h).ran, ticket) == if FirstBoundary(h, ticket) == Some(CommitMark) then 1 else 0
    ensures Increasing(Read(h).ran)
  {
    DueThenWaitingIncreases(h);
    var both := Read(h).due + Read(h).waiting;
    assert forall a :: 0 <= a < |Read(h).due| ==> both[a] == Read(h).due[a];
    OnceInIncreasing(Read(h).ran, ticket);
    FateIsFirstBoundary(h, ticket);
  }

  // ---- What one call or event does, as functions ----

  function Tickets(queue: seq<Parked>): seq<nat> {
    seq(|queue|, i requires 0 <= i < |queue| => queue[i].ticket)
  }

  datatype State = State(queue: seq<Parked>, history: History)

  function ParkOne(s: State, hook: Hook): State {
    var ticket := Read(s.history).tickets;
    State(s.queue + [Parked(ticket, hook)], After(s.history, Queued(ticket)))
  }

  function ParkEach(s: State, hooks: seq<Hook>): State
    decreases |hooks|
  {
    if hooks == [] then s else ParkEach(ParkOne(s, hooks[0]), hooks[1..])
  }

  function RunOne(s: State, next: Parked): State {
    ParkEach(s.(history := After(s.history, Ran(next.ticket))), next.hook.parks)
  }

  function RunEach(s: State, taken: seq<Parked>): State
    decreases |taken|
  {
    if taken == [] then s else RunEach(RunOne(s, taken[0]), taken[1..])
  }

  function Raising(queue: seq<Parked>): nat {
    if queue == [] then 0 else (if queue[0].hook.raises then 1 else 0) + Raising(queue[1..])
  }

  function Committed(s: State): State {
    RunEach(State([], After(s.history, CommitMark)), s.queue)
  }

  ghost predicate Listening(s: State) {
    Tickets(s.queue) == Read(s.history).waiting && Read(s.history).sound
  }

  ghost predicate Settled(s: State) {
    Listening(s) && Read(s.history).ran == Read(s.history).due
  }

  lemma ParkOneListens(s: State, hook: Hook)
    requires Listening(s)
    ensures Listening(ParkOne(s, hook))
    ensures Read(ParkOne(s, hook).history).ran == Read(s.history).ran && Read(ParkOne(s, hook).history).due == Read(s.history).due
  {
    var ticket := Read(s.history).tickets;
    assert Tickets(s.queue + [Parked(ticket, hook)]) == Tickets(s.queue) + [ticket];
  }

  lemma {:induction false} ParkEachListens(s: State, hooks: seq<Hook>)
    requires Listening(s)
    ensures Listening(ParkEach(s, hooks))
    ensures Read(ParkEach(s, hooks).history).ran == Read(s.history).ran && Read(ParkEach(s, hooks).history).due == Read(s.history).due
    decreases |hooks|
  {
    if hooks != [] {
      ParkOneListens(s, hooks[0]);
      ParkEachListens(ParkOne(s, hooks[0]), hooks[1..]);
    }
  }

  /** Draining what a commit took runs it all, in order, and leaves waiting
      exactly what the hooks parked. */
  lemma {:induction false} RunEachSettles(s: State, taken: seq<Parked>)
    requires Listening(s) && Read(s.history).ran + Tickets(taken) == Read(s.history).due
    ensures Settled(RunEach(s, taken)) && Read(RunEach(s, taken).history).ran == Read(s.history).ran + Tickets(taken)
    decreases |taken|
  {
    if taken != [] {
      assert Tickets(taken) == [taken[0].ticket] + Tickets(taken[1..]);
      ParkEachListens(s.(history := After(s.history, Ran(taken[0].ticket))), taken[0].hook.parks);
      RunEachSettles(RunOne(s, taken[0]), taken[1..]);
    }
  }

  lemma CommitSettles(s: State)
    requires Settled(s)
    ensures Settled(Committed(s))
    ensures Read(Committed(s).history).ran == Read(s.history).ran + Tickets(s.queue)
  {
    RunEachSettles(State([], After(s.history, CommitMark)), s.queue);
  }

  // ---- Whole traces ----

  function Handled(s: State, event: Event): State {
    match event
    case Park(hook) => ParkOne(s, hook)
    case SavepointRollback => s.(history := After(s.history, SavepointMark))
    case Rollback => State([], After(s.history, RollbackMark))
    case Commit => Committed(s)
  }

  /** The state after the first `n` events. */
  function RunEvents(s: State, events: seq<Event>, n: nat): State
    requires n <= |events|
  {
    if n == 0 then s else Handled(RunEvents(s, events, n - 1), events[n - 1])
  }

  /** The number the hook of `events[i]` is queued under. */
  function TicketOf(s: State, events: seq<Event>, i: nat): nat
    requires i < |events|
  {
    Read(RunEvents(s, events, i).history).tickets
  }

  function EndOf(event: Event): Option<Event> {
    if event.Commit? || event.Rollback? then Some(event) else None
  }

  /** The first event from `i` on and before `n` that ends the outer transaction. */
  function FirstEnd(events: seq<Event>, i: nat, n: nat): (end: Option<Event>)
    requires n <= |events|
    ensures end.Some? ==> EndOf(end.value) == end
  {
    if n <= i then None
    else if FirstEnd(events, i, n - 1).Some? then FirstEnd(events, i, n - 1)
    else EndOf(events[n - 1])
  }

  function MarkOf(end: Option<Event>): Option<Entry> {
    if end == Some(Commit) then Some(CommitMark) else if end == Some(Rollback) then Some(RollbackMark) else None
  }

  lemma HandledSettles(s: State, event: Event)
    requires Settled(s)
    ensures Settled(Handled(s, event))
  {
    match event
    case Park(hook) => ParkOneListens(s, hook);
    case Commit => CommitSettles(s);
    case _ =>
  }

  lemma {:induction false} RunEventsSettles(s: State, events: seq<Event>, n: nat)
    requires Settled(s) && n <= |events|
    ensures Settled(RunEvents(s, events, n))
  {
    if n > 0 {
      RunEventsSettles(s, events, n - 1);
      HandledSettles(RunEvents(s, events, n - 1), events[n - 1]);
    }
  }

  /** `t` has what `s` has of a ticket, and no fewer tickets out. */
  predicate Keeps(s: State, t: State, ticket: nat) {
    && (WasQueued(s.history, ticket) ==> WasQueued(t.history, ticket))
    && FirstBoundary(t.history, ticket) == FirstBoundary(s.history, ticket)
    && Read(s.history).tickets <= Read(t.history).tickets
  }

  lemma {:induction false} ParkEachKeeps(s: State, hooks: seq<Hook>, ticket: nat)
    ensures Keeps(s, ParkEach(s, hooks), ticket)
    decreases |hooks|
  {
    if hooks != [] { ParkEachKeeps(ParkOne(s, hooks[0]), hooks[1..], ticket); }
  }

  lemma {:induction false} RunEachKeeps(s: State, taken: seq<Parked>, ticket: nat)
    ensures Keeps(s, RunEach(s, taken), ticket)
    decreases |taken|
  {
    if taken != [] {
      ParkEachKeeps(s.(history := After(s.history, Ran(taken[0].ticket))), taken[0].hook.parks, ticket);
      RunEachKeeps(RunOne(s, taken[0]), taken[1..], ticket);
    }
  }

  /** The ticket is queued, and `end` is what decided about it. */
  predicate DecidedBy(s: State, ticket: nat, end: Option<Event>) {
    WasQueued(s.history, ticket) && ticket < Read(s.history).tickets && FirstBoundary(s.history, ticket) == MarkOf(end)
  }

  /** Only the two events that end the outer transaction decide, whatever hooks
      run in between. */
  lemma HandledDecides(s: State, event: Event, ticket: nat, end: Option<Event>)
    requires DecidedBy(s, ticket, end) && (end.Some? ==> EndOf(end.value) == end)
    ensures DecidedBy(Handled(s, event), ticket, if end.Some? then end else EndOf(event))
  {
    if event.Commit? { RunEachKeeps(State([], After(s.history, CommitMark)), s.queue, ticket); }
  }

  lemma ParkIsUndecided(s: State, hook: Hook)
    requires Read(s.history).sound
    ensures DecidedBy(ParkOne(s, hook), Read(s.history).tickets, None)
  {
    QueuedIsOut(s.history, Read(s.history).tickets);
    NoBoundaryYet(s.history, Read(s.history).tickets);
  }

  /** From a moment when nothing is decided about a ticket, the trace decides. */
  lemma {:induction false} TraceDecidesOn(s: State, events: seq<Event>, from: nat, n: nat, ticket: nat)
    requires from <= n <= |events| && DecidedBy(RunEvents(s, events, from), ticket, None)
    ensures DecidedBy(RunEvents(s, events, n), ticket, FirstEnd(events, from, n))
  {
    if from < n {
      TraceDecidesOn(s, events, from, n - 1, ticket);
      HandledDecides(RunEvents(s, events, n - 1), events[n - 1], ticket, FirstEnd(events, from, n - 1));
    }
  }

  /** So it does from the moment a hook is queued. */
  lemma TraceDecides(s: State, events: seq<Event>, i: nat, n: nat)
    requires Settled(s) && i < n <= |events| && events[i].Park?
    ensures DecidedBy(RunEvents(s, events, n), TicketOf(s, events, i), FirstEnd(events, i + 1, n))
  {
    RunEventsSettles(s, events, i);
    ParkIsUndecided(RunEvents(s, events, i), events[i].hook);
    TraceDecidesOn(s, events, i + 1, n, TicketOf(s, events, i));
  }

  /** The promise over every trace, from a fresh session or any later one: the
      hook that `events[i]` queues runs exactly once if the first commit or outer
      rollback after it is a commit, and never otherwise. */
  lemma TraceRunsOnceIffCommitted(s: State, events: seq<Event>, i: nat)
    requires Settled(s) && i < |events| && events[i].Park?
    ensures var ran := Read(RunEvents(s, events, |events|).history).ran;
      && Occurrences(ran, TicketOf(s, events, i)) == (if FirstEnd(events, i + 1, |events|) == Some(Commit) then 1 else 0)
      && Increasing(ran)
  {
    TraceDecides(s, events, i, |events|);
    RunEventsSettles(s, events, |events|);
    RunsOnceIffCommitted(RunEvents(s, events, |events|).history, TicketOf(s, events, i));
  }

  /** So it is for the hooks that other hooks queue while a commit runs them: each
      runs exactly once if the first end of a transaction after that commit is a
      commit again. */
  lemma QueuedByHooksRunsOnceIffCommitted(s: State, events: seq<Event>, c: nat, ticket: nat)
    requires Settled(s) && c < |events| && events[c].Commit?
    requires Read(RunEvents(s, events, c).history).tickets <= ticket < Read(RunEvents(s, events, c + 1).history).tickets
    ensures Occurrences(Read(RunEvents(s, events, |events|).history).ran, ticket)
         == if FirstEnd(events, c + 1, |events|) == Some(Commit) then 1 else 0
  {
    var before, after := RunEvents(s, events, c), RunEvents(s, events, c + 1);
    RunEventsSettles(s, events, c);
    RunEventsSettles(s, events, c + 1);
    RunEventsSettles(s, events, |events|);
    var start := State([], After(before.history, CommitMark));
    QueuedIsOut(before.history, ticket);
    NoBoundaryYet(start.history, ticket);
    RunEachKeeps(start, before.queue, ticket);
    QueuedIsOut(after.history, ticket);
    TraceDecidesOn(s, events, c + 1, |events|, ticket);
    RunsOnceIffCommitted(RunEvents(s, events, |events|).history, ticket);
  }

  function Hooks(queue: seq<Parked>): seq<Hook> {
    seq(|queue|, i requires 0 <= i < |queue| => queue[i].hook)
  }

  /** What the hooks of a queue queue when they run, in order. */
  function QueuedBy(taken: seq<Parked>): seq<Hook> {
    if taken == [] then [] else taken[0].hook.parks + QueuedBy(taken[1..])
  }

  lemma {:induction false} ParkEachQueues(s: State, hooks: seq<Hook>)
    ensures Hooks(ParkEach(s, hooks).queue) == Hooks(s.queue) + hooks
    decreases |hooks|
  {
    if hooks != [] {
      ParkEachQueues(ParkOne(s, hooks[0]), hooks[1..]);
      assert Hooks(ParkOne(s, hooks[0]).queue) == Hooks(s.queue) + [hooks[0]];
      assert Hooks(s.queue) + [hooks[0]] + hooks[1..] == Hooks(s.queue) + hooks;
    }
  }

  lemma {:induction false} RunEachQueues(s: State, taken: seq<Parked>)
    ensures Hooks(RunEach(s, taken).queue) == Hooks(s.queue) + QueuedBy(taken)
    decreases |taken|
  {
    if taken != [] {
      ParkEachQueues(s.(history := After(s.history, Ran(taken[0].ticket))), taken[0].hook.parks);
      RunEachQueues(RunOne(s, taken[0]), taken[1..]);
      assert Hooks(s.queue) + taken[0].hook.parks + QueuedBy(taken[1..]) == Hooks(s.queue) + QueuedBy(taken);
    }
  }

  /** After a commit exactly what its hooks queued is waiting, none lost, in order. */
  lemma CommitLeavesWhatHooksQueued(s: State)
    ensures Hooks(Handled(s, Commit).queue) == QueuedBy(s.queue)
    ensures forall hook :: Hooks(Handled(s, Park(hook)).queue) == Hooks(s.queue) + [hook]
    ensures Handled(s, SavepointRollback).queue == s.queue && Handled(s, Rollback).queue == []
  {
    RunEachQueues(State([], After(s.history, CommitMark)), s.queue);
    forall hook ensures Hooks(ParkOne(s, hook).queue) == Hooks(s.queue) + [hook] {
      ParkEachQueues(s, [hook]);
      assert [hook][1..] == [];
    }
  }

  /** Hooks queued later have later tickets, so the order of the run is the order
      of the trace. */
  lemma TicketsFollowTheTrace(s: State, events: seq<Event>, i: nat, j: nat)
    requires Settled(s) && i < j < |events| && events[i].Park?
    ensures TicketOf(s, events, i) < TicketOf(s, events, j)
  {
    TraceDecides(s, events, i, j);
  }

  // ---- The session ----

  class Session {
    /** `session.info`'s entry: absent until something is parked. */
    var queue: Option<seq<Parked>>
    var commitListeners: nat
    var rollbackListeners: nat
    var failures: nat
    var history: History

    function Now(): State
      reads this
    {
      State(if queue.None? then [] else queue.value, history)
    }

    ghost predicate OneListener()
      reads this
    {
      commitListeners == rollbackListeners == if queue.None? then 0 else 1
    }

    /** Between events: one listener of each kind once anything was parked, the
        queue is what waits, and everything due has run. */
    ghost predicate Valid()
      reads this
    {
      OneListener() && Settled(Now())
    }

    constructor ()
      ensures Valid() && queue.None? && history == Fresh
    {
      queue, commitListeners, rollbackListeners, failures, history := None, 0, 0, 0, Fresh;
    }

    method RunAfterCommit(fn: Hook)
      requires OneListener()
      modifies this
      ensures OneListener() && queue.Some? && Now() == ParkOne(old(Now()), fn)
      ensures failures == old(failures)
    {
      if queue.None? {
        queue := Some([]);
        commitListeners := commitListeners + 1;
        rollbackListeners := rollbackListeners + 1;
      }
      var ticket := Read(history).tickets;
      queue := Some(queue.value + [Parked(ticket, fn)]);
      history := After(history, Queued(ticket));
    }

    /** One queued callable.  An exception is logged, never propagated. */
    method Run(next: Parked)
      requires OneListener() && queue.Some?
      modifies this
      ensures OneListener() && queue.Some? && Now() == RunOne(old(Now()), next)
      ensures failures == old(failures) + if next.hook.raises then 1 else 0
    {
      history := After(history, Ran(next.ticket));
      var parks := next.hook.parks;
      var i := 0;
      while i < |parks|
        invariant 0 <= i <= |parks| && OneListener() && queue.Some? && failures == old(failures)
        invariant ParkEach(Now(), parks[i..]) == RunOne(old(Now()), next)
      {
        RunAfterCommit(parks[i]);
        i := i + 1;
      }
      if next.hook.raises { failures := failures + 1; }
    }

    /** `_run_queued`: takes the queue and drains it; what the hooks park
        meanwhile waits for the next boundary. */
    method RunQueued()
      requires OneListener() && queue.Some?
      modifies this
      ensures OneListener() && queue.Some? && Now() == RunEach(State([], old(history)), old(queue).value)
      ensures failures == old(failures) + Raising(old(queue).value)
    {
      var taken := queue.value;
      queue := Some([]);
      var i := 0;
      while i < |taken|
        invariant 0 <= i <= |taken| && OneListener() && queue.Some?
        invariant RunEach(Now(), taken[i..]) == RunEach(State([], old(history)), taken)
        invariant failures + Raising(taken[i..]) == old(failures) + Raising(taken)
      {
        Run(taken[i]);
        i := i + 1;
      }
    }

    /** The session's outer transaction commits. */
    method Commit()
      requires Valid()
      modifies this
      ensures Valid() && Now() == Committed(old(Now()))
      ensures failures == old(failures) + Raising(old(Now()).queue)
    {
      CommitSettles(Now());
      history := After(history, CommitMark);
      var fired := 0;
      while fired < commitListeners
        invariant 0 <= fired <= commitListeners == old(commitListeners) && OneListener()
        invariant fired == 0 ==> history == After(old(history), CommitMark) && queue == old(queue) && failures == old(failures)
        invariant fired > 0 ==> Now() == Committed(old(Now())) && failures == old(failures) + Raising(old(Now()).queue)
      {
        RunQueued();
        fired := fired + 1;
      }
    }

    /** `after_soft_rollback`: a savepoint's rollback changes nothing, the outer
        transaction's drops the queue without running it. */
    method SoftRollback(nested: bool)
      requires Valid()
      modifies this
      ensures Valid()
      ensures history == After(old(history), if nested then SavepointMark else RollbackMark)
      ensures queue == if nested || old(queue).None? then old(queue) else Some([])
      ensures failures == old(failures)
    {
      history := After(history, if nested then SavepointMark else RollbackMark);
      var fired := 0;
      while fired < rollbackListeners
        invariant 0 <= fired <= rollbackListeners == old(rollbackListeners) == old(commitListeners) == commitListeners
        invariant history == After(old(history), if nested then SavepointMark else RollbackMark) && failures == old(failures)
        invariant queue == if fired == 0 || nested then old(queue) else Some([])
      {
        if !nested { queue := Some([]); }
        fired := fired + 1;
      }
    }

    method Handle(event: Event)
      requires Valid()
      modifies this
      ensures Valid() && Now() == Handled(old(Now()), event)
      ensures failures == old(failures) + if event.Commit? then Raising(old(Now()).queue) else 0
    {
      HandledSettles(Now(), event);
      match event {
        case Park(hook) => RunAfterCommit(hook);
        case SavepointRollback => SoftRollback(true);
        case Rollback => SoftRollback(false);
        case Commit => Commit();
      }
    }

    /** Every trace of events: the session ends in the state the trace leads to,
        of which TraceRunsOnceIffCommitted speaks. */
    method Replay(events: seq<Event>)
      requires Valid()
      modifies this
      ensures Valid() && Now() == RunEvents(old(Now()), events, |events|)
    {
      ghost var start := Now();
      var i := 0;
      while i < |events|
        invariant 0 <= i <= |events| && Valid()
        invariant Now() == RunEvents(start, events, i)
      {
        Handle(events[i]);
        i := i + 1;
      }
    }
  }
}
