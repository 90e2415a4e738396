/** Where the outcomes of `SingleFlight` come from: every connection and every error that a caller ends
    with, a slot holds or the pool keeps was brought in by a step of the run. */
module SingleFlightOutcomes {
  import opened Common
  import opened SftpPools
  import opened SingleFlight
  import opened SingleFlightRuns

  type Shared = set<(Key, Result)>
  type Own = set<(Tid, Result)>

  /** What a step brings in for everybody who uses the key: a handshake's result, or a panic's error. */
  function Brings(s: Sys, step: Step): Shared {
    if step.EndHandshake? && step.t < |s.threads| then {(s.threads[step.t].key, step.result)}
    else if step.Panic? && step.t < |s.threads| then {(s.threads[step.t].key, Refused(LeaderAborted))}
    else {}
  }

  /** What a step decides for the caller itself. */
  function Decides(step: Step): Own {
    if step.Abort? then {(step.t, Refused(LookupAborted))}
    else if step.WaitExpires? then {(step.t, Refused(WaitTimedOut))}
    else {}
  }

  /** The result a caller has in its hands. */
  function InHand(pc: Pc): Option<Result> {
    match pc
    case Trusting(conn) => Some(Connected(conn))
    case Probing(conn) => Some(Connected(conn))
    case Rechecking(_, conn) => Some(Connected(conn))
    case Resolved(_, result) => Some(result)
    case Publishing(_, result, _) => Some(result)
    case Releasing(_, result, _) => Some(result)
    case Finished(_, result) => Some(result)
    case Unwinding(_) => Some(Refused(LeaderAborted))
    case GivingUp(_) => Some(Refused(WaitTimedOut))
    case Done(outcome, _) => outcome
    case _ => None
  }

  predicate ThreadSourced(s: Sys, t: Tid, shared: Shared, own: Own)
    requires t < |s.threads|
  {
    var th := s.threads[t];
    InHand(th.pc).Some? ==> (th.key, InHand(th.pc).value) in shared || (t, InHand(th.pc).value) in own
  }

  /** Results that reach others are never those a caller decides for itself. */
  predicate SharesSourced(s: Sys, t: Tid, shared: Shared)
    requires t < |s.threads|
  {
    var th := s.threads[t];
    (Leads(th.pc).Some? || th.pc.Finished?) && InHand(th.pc).Some? ==> (th.key, InHand(th.pc).value) in shared
  }

  predicate SlotSourced(s: Sys, i: SlotId, shared: Shared)
    requires i < |s.pool.slots| == |s.info|
  {
    !s.pool.slots[i].Pending? ==> (s.info[i].key, ResultOf(s.pool.slots[i])) in shared
  }

  predicate PoolSourced(p: Pool, shared: Shared) {
    forall k | k in p.sessions :: (k, Connected(p.sessions[k].conn)) in shared
  }

  predicate Sourced(s: Sys, shared: Shared, own: Own) {
    && |s.info| == |s.pool.slots|
    && (forall t | 0 <= t < |s.threads| :: ThreadSourced(s, t, shared, own) && SharesSourced(s, t, shared))
    && (forall i | 0 <= i < |s.pool.slots| :: SlotSourced(s, i, shared))
    && PoolSourced(s.pool, shared)
  }

  // ------------------------------------------------------------------------ one step

  lemma LookupSourced(p: Pool, key: Key, now: nat, shared: Shared)
    requires PoolSourced(p, shared)
    ensures var (q, found) := Lookup(p, key, now);
            PoolSourced(q, shared) && (!found.Miss? ==> (key, Connected(found.conn)) in shared)
  {
  }

  lemma PublishSourced(p: Pool, key: Key, result: Result, owns: bool, now: nat, shared: Shared)
    requires PoolSourced(p, shared) && (key, result) in shared
    ensures var (q, r) := Publish(p, key, result, owns, now); PoolSourced(q, shared) && (key, r) in shared
  {
  }

  lemma NextPoolSourced(s: Sys, step: Step, shared: Shared, own: Own)
    requires Inv(s) && Enabled(s, step) && Sourced(s, shared, own)
    ensures PoolSourced(Next(s, step).pool, shared)
  {
    hide Lookup, Publish, ThreadOk, SlotOk, KeyOk;
    if step.LookUp? {
      LookupSourced(s.pool, s.threads[step.t].key, step.now, shared);
    } else if step.FinishPublish? {
      var th := s.threads[step.t];
      assert SharesSourced(s, step.t, shared);
      PublishSourced(s.pool, th.key, th.pc.result, th.pc.owns, step.now, shared);
    }
  }

  lemma SessionMoverSourced(s: Sys, step: Step, shared: Shared, own: Own)
    requires Enabled(s, step) && Sourced(s, shared, own) && (step.LookUp? || step.Probe? || step.FinishPublish?)
    ensures step.t < |Next(s, step).threads|
    ensures ThreadSourced(Next(s, step), step.t, shared, own) && SharesSourced(Next(s, step), step.t, shared)
  {
    hide Lookup, Publish, MarkVerified, RemoveIfSame, PoolSourced;
    var th := s.threads[step.t];
    assert ThreadSourced(s, step.t, shared, own) && SharesSourced(s, step.t, shared);
    if step.LookUp? {
      LookupSourced(s.pool, th.key, step.now, shared);
    } else if step.FinishPublish? {
      PublishSourced(s.pool, th.key, th.pc.result, th.pc.owns, step.now, shared);
    }
  }

  lemma SeenSourced(s: Sys, step: Step, shared: Shared, own: Own)
    requires Inv(s) && Enabled(s, step) && Sourced(s, shared, own) && step.SeeOutcome?
    ensures step.t < |Next(s, step).threads|
    ensures ThreadSourced(Next(s, step), step.t, shared, own) && SharesSourced(Next(s, step), step.t, shared)
  {
    assert ThreadOk(s, step.t) && SlotSourced(s, s.threads[step.t].pc.slot, shared);
  }

  lemma MoverSourced(s: Sys, step: Step, shared: Shared, own: Own)
    requires Inv(s) && Enabled(s, step) && Sourced(s, shared, own) && !step.InvalidateKey?
    ensures step.t < |Next(s, step).threads|
    ensures ThreadSourced(Next(s, step), step.t, shared + Brings(s, step), own + Decides(step))
    ensures SharesSourced(Next(s, step), step.t, shared + Brings(s, step))
  {
    hide Lookup, Publish, MarkVerified, RemoveIfSame, BeginConnect, FinishRelease, DropLeader, SlotSourced, PoolSourced, ThreadOk, SlotOk, KeyOk;
    if step.LookUp? || step.Probe? || step.FinishPublish? {
      SessionMoverSourced(s, step, shared, own);
    } else if step.SeeOutcome? {
      SeenSourced(s, step, shared, own);
    } else {
      assert ThreadSourced(s, step.t, shared, own) && SharesSourced(s, step.t, shared);
    }
  }

  lemma NextSlotSourced(s: Sys, step: Step, i: SlotId, shared: Shared, own: Own)
    requires Inv(s) && Enabled(s, step) && Sourced(s, shared, own)
    requires |Next(s, step).info| == |Next(s, step).pool.slots| && i < |Next(s, step).pool.slots|
    ensures SlotSourced(Next(s, step), i, shared)
  {
    hide Lookup, Publish, MarkVerified, RemoveIfSame, SlotOk, KeyOk, PoolSourced;
    if step.LookUp? || step.Probe? || step.FinishPublish? { NextSessionsOnly(s, step); }
    if i < |s.pool.slots| { assert SlotSourced(s, i, shared); }
    if !step.InvalidateKey? { assert SharesSourced(s, step.t, shared) && ThreadOk(s, step.t); }
  }

  lemma NextSourced(s: Sys, step: Step, shared: Shared, own: Own)
    requires Inv(s) && Enabled(s, step) && Sourced(s, shared, own)
    ensures Sourced(Next(s, step), shared + Brings(s, step), own + Decides(step))
  {
    hide Next, ThreadSourced, SharesSourced, SlotSourced, PoolSourced, ThreadOk, SlotOk, KeyOk;
    var (s', more, mine) := (Next(s, step), shared + Brings(s, step), own + Decides(step));
    NextInv(s, step);
    NextThreadsStay(s, step);
    forall t | 0 <= t < |s'.threads| ensures ThreadSourced(s', t, more, mine) && SharesSourced(s', t, more) {
      if !step.InvalidateKey? && t == step.t { MoverSourced(s, step, shared, own); } else { StaysSourced(s, s', t, shared, own, more, mine); }
    }
    forall i | 0 <= i < |s'.pool.slots| ensures SlotSourced(s', i, more) {
      NextSlotSourced(s, step, i, shared, own);
      MoreSlot(s', i, shared, more);
    }
    NextPoolSourced(s, step, shared, own);
    MorePool(s'.pool, shared, more);
  }

  lemma StaysSourced(s: Sys, s': Sys, t: Tid, shared: Shared, own: Own, more: Shared, mine: Own)
    requires t < |s.threads| && t < |s'.threads| && s'.threads[t] == s.threads[t] && shared <= more && own <= mine
    requires ThreadSourced(s, t, shared, own) && SharesSourced(s, t, shared)
    ensures ThreadSourced(s', t, more, mine) && SharesSourced(s', t, more)
  {
  }

  lemma MoreSlot(s: Sys, i: SlotId, shared: Shared, more: Shared)
    requires i < |s.pool.slots| == |s.info| && shared <= more && SlotSourced(s, i, shared)
    ensures SlotSourced(s, i, more)
  {
  }

  lemma MorePool(p: Pool, shared: Shared, more: Shared)
    requires shared <= more && PoolSourced(p, shared)
    ensures PoolSourced(p, more)
  {
  }

  // ------------------------------------------------------------------------ all runs

  function AllBrought(s: Sys, steps: seq<Step>): Shared {
    if steps == [] then {} else Brings(s, steps[0]) + AllBrought(s, steps[1..])
  }

  function AllDecided(steps: seq<Step>): Own {
    if steps == [] then {} else Decides(steps[0]) + AllDecided(steps[1..])
  }

  /** Keys do not change, so what a step brings in can be told from the initial state. */
  lemma {:induction false} SameKeysBring(s: Sys, s': Sys, steps: seq<Step>)
    requires |s.threads| == |s'.threads| && forall t | 0 <= t < |s.threads| :: s.threads[t].key == s'.threads[t].key
    ensures AllBrought(s, steps) == AllBrought(s', steps)
  {
    if steps != [] { SameKeysBring(s, s', steps[1..]); }
  }

  lemma {:induction false} RunSourced(s: Sys, steps: seq<Step>, shared: Shared, own: Own)
    requires Inv(s) && Feasible(s, steps) && Sourced(s, shared, own)
    ensures Sourced(After(s, steps), shared + AllBrought(s, steps), own + AllDecided(steps))
    decreases |steps|
  {
    hide Inv, Next, Sourced, Brings, Decides;
    if steps == [] {
      assert shared + {} == shared && own + {} == own;
    } else {
      var s' := Next(s, steps[0]);
      NextInv(s, steps[0]);
      NextSourced(s, steps[0], shared, own);
      NextThreadsStay(s, steps[0]);
      SameKeysBring(s, s', steps[1..]);
      RunSourced(s', steps[1..], shared + Brings(s, steps[0]), own + Decides(steps[0]));
      assert (shared + Brings(s, steps[0])) + AllBrought(s, steps[1..]) == shared + AllBrought(s, steps);
      assert (own + Decides(steps[0])) + AllDecided(steps[1..]) == own + AllDecided(steps);
    }
  }

  /** `step` brings `r` in for `key`: a handshake returned it, or a leader panicked. */
  predicate BroughtAt(s: Sys, step: Step, key: Key, r: Result) {
    || (step.EndHandshake? && step.t < |s.threads| && s.threads[step.t].key == key && step.result == r)
    || (step.Panic? && step.t < |s.threads| && s.threads[step.t].key == key && r == Refused(LeaderAborted))
  }

  /** A result of `key` that was in the pool at the start or was brought in by a step of the run. */
  ghost predicate HasSource(s: Sys, steps: seq<Step>, key: Key, r: Result) {
    || (r.Connected? && key in s.pool.sessions && s.pool.sessions[key].conn == r.conn)
    || exists i | 0 <= i < |steps| :: BroughtAt(s, steps[i], key, r)
  }

  lemma {:induction false} BroughtMeans(s: Sys, steps: seq<Step>, key: Key, r: Result)
    ensures (key, r) in AllBrought(s, steps) <==> exists i | 0 <= i < |steps| :: BroughtAt(s, steps[i], key, r)
  {
    if steps != [] {
      BroughtMeans(s, steps[1..], key, r);
      assert (key, r) in Brings(s, steps[0]) <==> BroughtAt(s, steps[0], key, r);
      if i :| 0 <= i < |steps| && BroughtAt(s, steps[i], key, r) {
        assert i > 0 ==> steps[1..][i - 1] == steps[i];
      }
      if j :| 0 <= j < |steps| - 1 && BroughtAt(s, steps[1..][j], key, r) {
        assert BroughtAt(s, steps[j + 1], key, r);
      }
    }
  }

  lemma {:induction false} DecidedMeans(steps: seq<Step>, t: Tid, r: Result)
    ensures (t, r) in AllDecided(steps) ==>
              (r == Refused(LookupAborted) && Abort(t) in steps) || (r == Refused(WaitTimedOut) && WaitExpires(t) in steps)
  {
    if steps != [] {
      DecidedMeans(steps[1..], t, r);
      assert forall x | x in steps[1..] :: x in steps;
      assert steps[0] in steps;
    }
  }

  function Pooled0(s: Sys): Shared { set k | k in s.pool.sessions :: (k, Connected(s.pool.sessions[k].conn)) }

  /** Every connection and every error has a source in the run. What the pool keeps or a slot resolves to
      was pooled at the start, came out of a handshake for that key, or is the error of a leader that
      panicked; and a caller ends with such a result, or with its own abort or deadline. */
  lemma OutcomesHaveSources(s: Sys, steps: seq<Step>)
    requires Init(s) && Feasible(s, steps)
    ensures var e := After(s, steps);
            && |e.info| == |e.pool.slots|
            && (forall k | k in e.pool.sessions :: HasSource(s, steps, k, Connected(e.pool.sessions[k].conn)))
            && (forall i | 0 <= i < |e.pool.slots| && !e.pool.slots[i].Pending? :: HasSource(s, steps, e.info[i].key, ResultOf(e.pool.slots[i])))
            && (forall t | 0 <= t < |e.threads| && e.threads[t].pc.Done? && e.threads[t].pc.outcome.Some? ::
                  var r := e.threads[t].pc.outcome.value;
                  || HasSource(s, steps, e.threads[t].key, r)
                  || (r == Refused(LookupAborted) && Abort(t) in steps)
                  || (r == Refused(WaitTimedOut) && WaitExpires(t) in steps))
  {
    hide Feasible, After, Inv, BroughtAt;
    InitInv(s);
    RunSourced(s, steps, Pooled0(s), {});
    var e := After(s, steps);
    var all := Pooled0(s) + AllBrought(s, steps);
    forall k, r | (k, r) in all ensures HasSource(s, steps, k, r) { BroughtMeans(s, steps, k, r); }
    forall i | 0 <= i < |e.pool.slots| && !e.pool.slots[i].Pending? ensures HasSource(s, steps, e.info[i].key, ResultOf(e.pool.slots[i])) {
      assert SlotSourced(e, i, all);
    }
    forall t | 0 <= t < |e.threads| && e.threads[t].pc.Done? && e.threads[t].pc.outcome.Some?
      ensures var r := e.threads[t].pc.outcome.value;
              || HasSource(s, steps, e.threads[t].key, r)
              || (r == Refused(LookupAborted) && Abort(t) in steps)
              || (r == Refused(WaitTimedOut) && WaitExpires(t) in steps)
    {
      assert ThreadSourced(e, t, all, {} + AllDecided(steps));
      DecidedMeans(steps, t, e.threads[t].pc.outcome.value);
    }
  }

  // --------------------------------------------------------- what a handshake leads to

  /** A leader publishes an error as it is; a connection may be replaced by the pooled one. */
  predicate Follows(published: Result, result: Result) {
    if result.Refused? then published == result else published.Connected?
  }

  /** Leader `t` of `slot` has got `result` from its handshake. */
  predicate Holds(s: Sys, t: Tid, slot: SlotId, result: Result) {
    && t < |s.threads| && slot < |s.pool.slots|
    && match s.threads[t].pc
       case Resolved(i, r) => i == slot && r == result
       case Publishing(i, r, _) => i == slot && r == result
       case Releasing(i, r, _) => i == slot && Follows(r, result)
       case Finished(i, r) => i == slot && Follows(r, result) && s.pool.slots[slot] == StateOf(r)
       case Unwinding(i) => i == slot
       case Done(outcome, via) =>
         && via == Some(slot)
         && s.pool.slots[slot] == (if outcome.Some? then StateOf(outcome.value) else Failed(LeaderAborted))
         && (outcome.Some? ==> Follows(outcome.value, result))
       case _ => false
  }

  lemma PublishFollows(p: Pool, key: Key, result: Result, owns: bool, now: nat)
    ensures Follows(Publish(p, key, result, owns, now).1, result)
  {
  }

  lemma NextHolds(s: Sys, step: Step, t: Tid, slot: SlotId, result: Result)
    requires Inv(s) && Enabled(s, step) && Holds(s, t, slot, result)
    ensures Holds(Next(s, step), t, slot, result)
  {
    hide Lookup, Publish, MarkVerified, RemoveIfSame, SlotOk, KeyOk;
    assert ThreadOk(s, t);
    NextThreadsStay(s, step);
    NextSlotStable(s, step, slot);
    if step.FinishPublish? {
      var th := s.threads[step.t];
      PublishFollows(s.pool, th.key, th.pc.result, th.pc.owns, step.now);
      NextSessionsOnly(s, step);
    }
  }

  lemma {:induction false} RunHolds(s: Sys, steps: seq<Step>, t: Tid, slot: SlotId, result: Result)
    requires Inv(s) && Feasible(s, steps) && Holds(s, t, slot, result)
    ensures Holds(After(s, steps), t, slot, result) && Inv(After(s, steps))
    decreases |steps|
  {
    hide Inv, Next, Holds;
    if steps != [] {
      NextInv(s, steps[0]);
      NextHolds(s, steps[0], t, slot, result);
      RunHolds(Next(s, steps[0]), steps[1..], t, slot, result);
    }
  }

  /** In any reachable state, what the handshake of a leader returns is what it and everybody on its slot
      end with: a refusal word for word, a connection as a connection. Only a leader that panics afterwards
      ends with nothing and leaves its followers the abort error. */
  lemma HandshakeReachesAll(s: Sys, before: seq<Step>, t: Tid, result: Result, steps: seq<Step>, u: Tid)
    requires Init(s) && Feasible(s, before) && Enabled(After(s, before), EndHandshake(t, result))
    requires Feasible(Next(After(s, before), EndHandshake(t, result)), steps)
    ensures var m := After(s, before);
            var e := After(Next(m, EndHandshake(t, result)), steps);
            var slot := m.threads[t].pc.slot;
            && t < |e.threads| && |e.threads| == |m.threads|
            && (e.threads[t].pc.Done? && e.threads[t].pc.outcome.Some? ==> Follows(e.threads[t].pc.outcome.value, result))
            && (u < |e.threads| && e.threads[u].pc.Done? && e.threads[u].pc.via == Some(slot) && e.threads[u].pc.outcome.Some? ==>
                  || Follows(e.threads[u].pc.outcome.value, result)
                  || (e.threads[t].pc == Done(None, Some(slot)) && e.threads[u].pc.outcome == Some(Refused(LeaderAborted))))
  {
    hide Holds, After, Feasible;
    InitInv(s);
    RunInv(s, before);
    var m := After(s, before);
    var slot, n := m.threads[t].pc.slot, Next(m, EndHandshake(t, result));
    assert ThreadOk(m, t);
    NextInv(m, EndHandshake(t, result));
    StartsHolding(m, t, result);
    RunHolds(n, steps, t, slot, result);
    ThreadsStay(n, steps);
    var e := After(n, steps);
    HoldingEnds(e, t, slot, result, u);
  }

  lemma StartsHolding(m: Sys, t: Tid, result: Result)
    requires Inv(m) && Enabled(m, EndHandshake(t, result))
    ensures Holds(Next(m, EndHandshake(t, result)), t, m.threads[t].pc.slot, result)
  {
    assert ThreadOk(m, t);
  }

  lemma HoldingEnds(e: Sys, t: Tid, slot: SlotId, result: Result, u: Tid)
    requires Inv(e) && Holds(e, t, slot, result)
    ensures t < |e.threads|
    ensures e.threads[t].pc.Done? && e.threads[t].pc.outcome.Some? ==> Follows(e.threads[t].pc.outcome.value, result)
    ensures u < |e.threads| && e.threads[u].pc.Done? && e.threads[u].pc.via == Some(slot) && e.threads[u].pc.outcome.Some? ==>
              || Follows(e.threads[u].pc.outcome.value, result)
              || (e.threads[t].pc == Done(None, Some(slot)) && e.threads[u].pc.outcome == Some(Refused(LeaderAborted)))
  {
    assert ThreadOk(e, t);
    if u < |e.threads| { assert ThreadOk(e, u); }
  }
}
