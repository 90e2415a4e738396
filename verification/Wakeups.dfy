/** Waking a blocked session worker. A remote worker blocks in a poll on a pipe that command senders
    write to; a local worker blocks in a select on a channel of capacity one. Both drop wakeups that
    do not fit. Senders and worker interleave step by step. */
module RemoteWakeups {
  /** A sender has put its command into the queue and has not written to the pipe yet, or not. */
  datatype Sender = Idle | Enqueued

  /** The worker's loop: receive until the queue is empty, work, poll, empty the pipe, start over.
      While output is paused it sleeps for a bounded time instead of polling. */
  datatype Worker = Receiving | Working | Polling | Draining

  /** `queue` and `pipe` count commands and bytes; the pipe holds at most `capacity` bytes. */
  datatype State = State(queue: nat, pipe: nat, capacity: nat, senders: seq<Sender>, worker: Worker)

  const DRAIN_BUFFER_BYTES := 256

  datatype Step =
    | Enqueue(i: nat)      // the send succeeds
    | Wake(i: nat)         // one byte, dropped when the pipe is full
    | StateChange          // ready or pause flag stored: wake without a command
    | Receive              // try_recv returns a command
    | SeeEmpty             // try_recv returns Empty
    | SkipPoll             // progress, keepalive or paused: back to the top without polling
    | BeginPoll
    | PollReturns          // the pipe is readable
    | PollOther            // socket event or timeout
    | DrainSome            // one read of the pipe
    | DrainDone            // the pipe is empty

  predicate Init(s: State) {
    s.queue == 0 && s.pipe == 0 && s.capacity > 0 && s.worker.Receiving? && forall i | 0 <= i < |s.senders| :: s.senders[i].Idle?
  }

  predicate Enabled(s: State, step: Step) {
    match step
    case Enqueue(i) => i < |s.senders| && s.senders[i].Idle?
    case Wake(i) => i < |s.senders| && s.senders[i].Enqueued?
    case StateChange => true
    case Receive => s.worker.Receiving? && s.queue > 0
    case SeeEmpty => s.worker.Receiving? && s.queue == 0
    case SkipPoll => s.worker.Working?
    case BeginPoll => s.worker.Working?
    case PollReturns => s.worker.Polling? && s.pipe > 0
    case PollOther => s.worker.Polling?
    case DrainSome => s.worker.Draining? && s.pipe > 0
    case DrainDone => s.worker.Draining? && s.pipe == 0
  }

  function OneMoreByte(s: State): nat { if s.pipe < s.capacity then s.pipe + 1 else s.pipe }

  function Next(s: State, step: Step): State
    requires Enabled(s, step)
  {
    match step
    case Enqueue(i) => s.(queue := s.queue + 1, senders := s.senders[i := Enqueued])
    case Wake(i) => s.(pipe := OneMoreByte(s), senders := s.senders[i := Idle])
    case StateChange => s.(pipe := OneMoreByte(s))
    case Receive => s.(queue := s.queue - 1)
    case SeeEmpty => s.(worker := Working)
    case SkipPoll => s.(worker := Receiving)
    case BeginPoll => s.(worker := Polling)
    case PollReturns => s.(worker := Draining)
    case PollOther => s.(worker := Draining)
    case DrainSome => s.(pipe := if s.pipe <= DRAIN_BUFFER_BYTES then 0 else s.pipe - DRAIN_BUFFER_BYTES)
    case DrainDone => s.(worker := Receiving)
  }

  predicate Feasible(s: State, steps: seq<Step>)
    decreases |steps|
  {
    steps == [] || (Enabled(s, steps[0]) && Feasible(Next(s, steps[0]), steps[1..]))
  }

  function After(s: State, steps: seq<Step>): State
    requires Feasible(s, steps)
    decreases |steps|
  {
    if steps == [] then s else After(Next(s, steps[0]), steps[1..])
  }

  /** A run goes on with exactly the steps that are enabled after it. */
  lemma {:induction false} RunsExtend(s: State, steps: seq<Step>, step: Step)
    ensures Feasible(s, steps + [step]) <==> Feasible(s, steps) && Enabled(After(s, steps), step)
    ensures Feasible(s, steps + [step]) ==> After(s, steps + [step]) == Next(After(s, steps), step)
    decreases |steps|
  {
    hide Next, Enabled;
    if steps == [] {
      assert [step][1..] == [];
    } else {
      assert (steps + [step])[0] == steps[0] && (steps + [step])[1..] == steps[1..] + [step];
      if Enabled(s, steps[0]) { RunsExtend(Next(s, steps[0]), steps[1..], step); }
    }
  }

  predicate SenderBetween(s: State) { exists i | 0 <= i < |s.senders| :: s.senders[i].Enqueued? }

  /** From the moment the worker has seen the queue empty until it has polled. */
  predicate Inv(s: State) {
    s.capacity > 0 && s.pipe <= s.capacity && ((s.worker.Working? || s.worker.Polling?) && s.queue > 0 ==> s.pipe > 0 || SenderBetween(s))
  }

  lemma NextInv(s: State, step: Step)
    requires Inv(s) && Enabled(s, step)
    ensures Inv(Next(s, step))
  {
    var s' := Next(s, step);
    match step
    case Enqueue(i) => assert s'.senders[i].Enqueued?;
    case Wake(i) => assert s'.pipe > 0;
    case _ =>
      if SenderBetween(s) {
        var i :| 0 <= i < |s.senders| && s.senders[i].Enqueued?;
        assert s'.senders[i].Enqueued?;
      }
  }

  lemma {:induction false} RunInv(s: State, steps: seq<Step>)
    requires Inv(s) && Feasible(s, steps)
    ensures Inv(After(s, steps))
    decreases |steps|
  {
    if steps != [] {
      NextInv(s, steps[0]);
      RunInv(Next(s, steps[0]), steps[1..]);
    }
  }

  /** No wakeup is lost: whenever the worker is in its poll with a command queued, the poll returns
      at once, or a sender is still on its way to waking it. Dropping a byte on a full pipe is safe. */
  lemma NoLostWakeup(s: State, steps: seq<Step>)
    requires Init(s) && Feasible(s, steps)
    ensures var e := After(s, steps);
            e.worker.Polling? && e.queue > 0 ==> Enabled(e, PollReturns) || exists i | 0 <= i < |e.senders| :: Enabled(e, Wake(i))
  {
    RunInv(s, steps);
    var e := After(s, steps);
    if e.worker.Polling? && e.queue > 0 && SenderBetween(e) {
      var i :| 0 <= i < |e.senders| && e.senders[i].Enqueued?;
      assert Enabled(e, Wake(i));
    }
  }

  function Count(steps: seq<Step>, wanted: Step -> bool): nat {
    if steps == [] then 0 else (if wanted(steps[0]) then 1 else 0) + Count(steps[1..], wanted)
  }

  /** No command is lost or taken twice, and the pipe is never overfull. */
  lemma {:induction false} CommandsConserved(s: State, steps: seq<Step>)
    requires Inv(s) && Feasible(s, steps)
    ensures After(s, steps).queue + Count(steps, (t: Step) => t.Receive?) == s.queue + Count(steps, (t: Step) => t.Enqueue?)
    ensures After(s, steps).pipe <= After(s, steps).capacity == s.capacity
    decreases |steps|
  {
    if steps != [] {
      NextInv(s, steps[0]);
      CommandsConserved(Next(s, steps[0]), steps[1..]);
    }
  }

  /** Emptying the pipe takes one read for every 256 bytes or part of them, and no more. */
  lemma {:induction false} DrainTakes(s: State, n: nat)
    requires s.worker.Draining? && Feasible(s, seq(n, i => DrainSome))
    ensures Enabled(After(s, seq(n, i => DrainSome)), DrainDone) <==> s.pipe <= 256 * n
    ensures s.pipe > 256 * n ==> Feasible(s, seq(n + 1, i => DrainSome))
    decreases n
  {
    var steps, more := seq(n, i => DrainSome), seq(n + 1, i => DrainSome);
    assert more[1..] == steps;
    if n > 0 {
      assert steps[1..] == seq(n - 1, i => DrainSome);
      DrainTakes(Next(s, DrainSome), n - 1);
    }
  }

  /** A worker that rests, with nobody about to wake it, has nothing left to do. */
  lemma RestMeansNoWork(s: State, steps: seq<Step>)
    requires Init(s) && Feasible(s, steps)
    requires var e := After(s, steps); e.worker.Polling? && e.pipe == 0 && forall i | 0 <= i < |e.senders| :: e.senders[i].Idle?
    ensures After(s, steps).queue == 0
  {
    NoLostWakeup(s, steps);
  }

  /** Between leaving one poll and entering the next, the worker takes every command that was queued
      when it left: it can only start to work after seeing the queue empty. */
  lemma {:induction false} PollAgainOnlyAfterEmpty(s: State, steps: seq<Step>)
    requires Feasible(s, steps) && s.worker != Working && s.worker != Polling
    requires After(s, steps).worker.Polling?
    ensures exists k | 0 <= k < |steps| :: steps[k] == SeeEmpty
    decreases |steps|
  {
    if steps[0] != SeeEmpty {
      PollAgainOnlyAfterEmpty(Next(s, steps[0]), steps[1..]);
      var k :| 0 <= k < |steps[1..]| && steps[1..][k] == SeeEmpty;
      assert steps[k + 1] == SeeEmpty;
    }
  }
}

module LocalWakeups {
  /** A setter has stored a flag and has not yet sent the notification, or not. */
  datatype Setter = Idle | Stored

  /** The worker reads the pause flag, then the ready flag, then selects. */
  datatype Worker = AtTop | ReadPaused | Selecting | Handling

  datatype State = State(
    paused: bool,
    ready: bool,
    notified: bool,          // the capacity-one channel holds its one message
    setters: seq<Setter>,
    worker: Worker,
    seenPaused: bool,
    seenReady: bool)

  datatype Step =
    | StorePaused(i: nat, value: bool)
    | StoreReady(i: nat)
    | Notify(i: nat)         // try_send, dropped when the channel is full
    | LoadPaused
    | LoadReady
    | TakeNotification
    | TakeOther              // command, child exit, output or timeout: the channel keeps its message
    | BackToTop

  predicate Init(s: State) {
    !s.paused && !s.ready && !s.notified && s.worker.AtTop? && forall i | 0 <= i < |s.setters| :: s.setters[i].Idle?
  }

  predicate Enabled(s: State, step: Step) {
    match step
    case StorePaused(i, _) => i < |s.setters| && s.setters[i].Idle?
    case StoreReady(i) => i < |s.setters| && s.setters[i].Idle?
    case Notify(i) => i < |s.setters| && s.setters[i].Stored?
    case LoadPaused => s.worker.AtTop?
    case LoadReady => s.worker.ReadPaused?
    case TakeNotification => s.worker.Selecting? && s.notified
    case TakeOther => s.worker.Selecting?
    case BackToTop => s.worker.Handling?
  }

  function Next(s: State, step: Step): State
    requires Enabled(s, step)
  {
    match step
    case StorePaused(i, value) => s.(paused := value, setters := s.setters[i := Stored])
    case StoreReady(i) => s.(ready := true, setters := s.setters[i := Stored])
    case Notify(i) => s.(notified := true, setters := s.setters[i := Idle])
    case LoadPaused => s.(seenPaused := s.paused, worker := ReadPaused)
    case LoadReady => s.(seenReady := s.ready, worker := Selecting)
    case TakeNotification => s.(notified := false, worker := Handling)
    case TakeOther => s.(worker := Handling)
    case BackToTop => s.(worker := AtTop)
  }

  predicate Feasible(s: State, steps: seq<Step>)
    decreases |steps|
  {
    steps == [] || (Enabled(s, steps[0]) && Feasible(Next(s, steps[0]), steps[1..]))
  }

  function After(s: State, steps: seq<Step>): State
    requires Feasible(s, steps)
    decreases |steps|
  {
    if steps == [] then s else After(Next(s, steps[0]), steps[1..])
  }

  /** A run goes on with exactly the steps that are enabled after it. */
  lemma {:induction false} RunsExtend(s: State, steps: seq<Step>, step: Step)
    ensures Feasible(s, steps + [step]) <==> Feasible(s, steps) && Enabled(After(s, steps), step)
    ensures Feasible(s, steps + [step]) ==> After(s, steps + [step]) == Next(After(s, steps), step)
    decreases |steps|
  {
    hide Next, Enabled;
    if steps == [] {
      assert [step][1..] == [];
    } else {
      assert (steps + [step])[0] == steps[0] && (steps + [step])[1..] == steps[1..] + [step];
      if Enabled(s, steps[0]) { RunsExtend(Next(s, steps[0]), steps[1..], step); }
    }
  }

  predicate SetterBetween(s: State) { exists i | 0 <= i < |s.setters| :: s.setters[i].Stored? }

  predicate Stale(s: State) {
    || ((s.worker.ReadPaused? || s.worker.Selecting?) && s.seenPaused != s.paused)
    || (s.worker.Selecting? && s.seenReady != s.ready)
  }

  predicate Inv(s: State) { Stale(s) ==> s.notified || SetterBetween(s) }

  lemma NextInv(s: State, step: Step)
    requires Inv(s) && Enabled(s, step)
    ensures Inv(Next(s, step))
  {
    var s' := Next(s, step);
    match step
    case StorePaused(i, _) => assert s'.setters[i].Stored?;
    case StoreReady(i) => assert s'.setters[i].Stored?;
    case Notify(i) => assert s'.notified;
    case _ =>
      if SetterBetween(s) {
        var i :| 0 <= i < |s.setters| && s.setters[i].Stored?;
        assert s'.setters[i].Stored?;
      }
  }

  lemma {:induction false} RunInv(s: State, steps: seq<Step>)
    requires Inv(s) && Feasible(s, steps)
    ensures Inv(After(s, steps))
    decreases |steps|
  {
    if steps != [] {
      NextInv(s, steps[0]);
      RunInv(Next(s, steps[0]), steps[1..]);
    }
  }

  /** No notification is lost: a worker that selects on a stale reading of either flag finds a
      notification in the channel, or a setter is still about to send one. Coalescing is safe. */
  lemma NoLostNotification(s: State, steps: seq<Step>)
    requires Init(s) && Feasible(s, steps)
    ensures var e := After(s, steps);
            e.worker.Selecting? && (e.seenPaused != e.paused || e.seenReady != e.ready) ==>
              Enabled(e, TakeNotification) || exists i | 0 <= i < |e.setters| :: Enabled(e, Notify(i))
  {
    RunInv(s, steps);
    var e := After(s, steps);
    if Stale(e) && SetterBetween(e) {
      var i :| 0 <= i < |e.setters| && e.setters[i].Stored?;
      assert Enabled(e, Notify(i));
    }
  }

  /** A worker that rests, with nobody about to notify it, acts on the current flags. */
  lemma RestMeansCurrent(s: State, steps: seq<Step>)
    requires Init(s) && Feasible(s, steps)
    requires var e := After(s, steps); e.worker.Selecting? && !e.notified && forall i | 0 <= i < |e.setters| :: e.setters[i].Idle?
    ensures After(s, steps).seenPaused == After(s, steps).paused && After(s, steps).seenReady == After(s, steps).ready
  {
    NoLostNotification(s, steps);
  }
}
