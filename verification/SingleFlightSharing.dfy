/** In a calm run of `SingleFlight` all callers of one key end up with one and the same connection. */
module SingleFlightSharing {
  import opened Common
  import opened SftpPools
  import opened SingleFlight
  import opened SingleFlightRuns

  /** `conn` is what the pool holds for `key`. */
  predicate Pooled(p: Pool, key: Key, conn: Conn) { key in p.sessions && p.sessions[key].conn == conn }

  /** The connection a caller has been given, as opposed to one it is bringing. */
  function GivenTo(pc: Pc): Option<Conn> {
    match pc
    case Trusting(conn) => Some(conn)
    case Probing(conn) => Some(conn)
    case Rechecking(_, conn) => Some(conn)
    case Releasing(_, result, _) => Of(result)
    case Finished(_, result) => Of(result)
    case Done(outcome, _) => if outcome.Some? then Of(outcome.value) else None
    case _ => None
  }

  function Of(r: Result): Option<Conn> { if r.Connected? then Some(r.conn) else None }

  predicate ThreadShares(s: Sys, t: Tid)
    requires t < |s.threads|
  {
    GivenTo(s.threads[t].pc).Some? ==> Pooled(s.pool, s.threads[t].key, GivenTo(s.threads[t].pc).value)
  }

  predicate SlotShares(s: Sys, i: SlotId)
    requires i < |s.pool.slots| == |s.info|
  {
    s.pool.slots[i].Ready? ==> Pooled(s.pool, s.info[i].key, s.pool.slots[i].conn)
  }

  predicate Shares(s: Sys) {
    && |s.info| == |s.pool.slots|
    && (forall t | 0 <= t < |s.threads| :: ThreadShares(s, t))
    && (forall i | 0 <= i < |s.pool.slots| :: SlotShares(s, i))
  }

  lemma LookupKeepsConns(p: Pool, key: Key, now: nat)
    requires Sweep(p.sessions, now) == p.sessions
    ensures forall k, c | Pooled(p, k, c) :: Pooled(Lookup(p, key, now).0, k, c)
    ensures var (q, found) := Lookup(p, key, now); !found.Miss? ==> Pooled(q, key, found.conn)
  {
  }

  lemma PublishKeepsConns(p: Pool, key: Key, result: Result, now: nat)
    ensures forall k, c | Pooled(p, k, c) :: Pooled(Publish(p, key, result, true, now).0, k, c)
    ensures var (q, r) := Publish(p, key, result, true, now); r.Connected? ==> Pooled(q, key, r.conn)
  {
  }

  lemma MarkKeepsConns(p: Pool, key: Key, conn: Conn, now: nat)
    ensures forall k, c | Pooled(p, k, c) :: Pooled(MarkVerified(p, key, conn, now), k, c)
  {
  }

  lemma SameSessions(p: Pool, q: Pool, key: Key, conn: Conn)
    requires p.sessions == q.sessions && Pooled(p, key, conn)
    ensures Pooled(q, key, conn)
  {
  }

  /** In a calm run the connection pooled for a key is never replaced. */
  lemma PooledStays(s: Sys, step: Step, key: Key, conn: Conn)
    requires Inv(s) && CalmInv(s) && Enabled(s, step) && Calm(s, step) && Pooled(s.pool, key, conn)
    ensures Pooled(Next(s, step).pool, key, conn)
  {
    hide Lookup, MarkVerified, RemoveIfSame, Publish, Sweep, CalmKey, Pooled;
    assert CalmThread(s, step.t);
    var th := s.threads[step.t];
    if step.LookUp? {
      LookupKeepsConns(s.pool, th.key, step.now);
    } else if step.Probe? {
      MarkKeepsConns(s.pool, th.key, th.pc.conn, step.now);
    } else if step.FinishPublish? {
      PublishKeepsConns(s.pool, th.key, th.pc.result, step.now);
    } else {
      assert Next(s, step).pool.sessions == s.pool.sessions;
      SameSessions(s.pool, Next(s, step).pool, key, conn);
    }
  }

  lemma LookupMoverShares(s: Sys, step: Step)
    requires Enabled(s, step) && step.LookUp? && Calm(s, step)
    ensures step.t < |Next(s, step).threads| && ThreadShares(Next(s, step), step.t)
  {
    hide Lookup, Sweep, Pooled;
    LookupKeepsConns(s.pool, s.threads[step.t].key, step.now);
  }

  lemma PublishMoverShares(s: Sys, step: Step)
    requires Enabled(s, step) && step.FinishPublish? && s.threads[step.t].pc.owns
    ensures step.t < |Next(s, step).threads| && ThreadShares(Next(s, step), step.t)
  {
    hide Publish, Pooled;
    PublishKeepsConns(s.pool, s.threads[step.t].key, s.threads[step.t].pc.result, step.now);
  }

  /** The caller that moves: what it is given is what the pool holds. */
  lemma MoverShares(s: Sys, step: Step)
    requires Inv(s) && CalmInv(s) && Shares(s) && Enabled(s, step) && Calm(s, step)
    ensures step.t < |Next(s, step).threads| && ThreadShares(Next(s, step), step.t)
  {
    hide MarkVerified, RemoveIfSame, Publish, Sweep, CalmKey, Pooled, SlotOk, KeyOk, ThreadOk;
    var th := s.threads[step.t];
    assert CalmThread(s, step.t) && ThreadShares(s, step.t);
    if step.LookUp? {
      LookupMoverShares(s, step);
    } else if step.FinishPublish? {
      PublishMoverShares(s, step);
    } else {
      if GivenTo(th.pc).Some? { PooledStays(s, step, th.key, GivenTo(th.pc).value); }
      if step.SeeOutcome? { SeenShares(s, step); }
    }
  }

  lemma SeenShares(s: Sys, step: Step)
    requires Inv(s) && Shares(s) && Enabled(s, step) && step.SeeOutcome?
    ensures step.t < |Next(s, step).threads| && ThreadShares(Next(s, step), step.t)
  {
    assert ThreadOk(s, step.t) && SlotShares(s, s.threads[step.t].pc.slot);
  }

  lemma NextThreadShares(s: Sys, step: Step, u: Tid)
    requires Inv(s) && CalmInv(s) && Shares(s) && Enabled(s, step) && Calm(s, step) && u < |s.threads|
    ensures u < |Next(s, step).threads| && ThreadShares(Next(s, step), u)
  {
    hide Lookup, MarkVerified, RemoveIfSame, Publish, Sweep, CalmKey, CalmThread, ThreadOk, Pooled;
    NextThreadsStay(s, step);
    if u == step.t {
      MoverShares(s, step);
    } else {
      assert ThreadShares(s, u);
      if GivenTo(s.threads[u].pc).Some? { PooledStays(s, step, s.threads[u].key, GivenTo(s.threads[u].pc).value); }
    }
  }

  lemma NextSlotShares(s: Sys, step: Step, i: SlotId)
    requires Inv(s) && CalmInv(s) && Shares(s) && Enabled(s, step) && Calm(s, step)
    requires |Next(s, step).info| == |Next(s, step).pool.slots| && i < |Next(s, step).pool.slots|
    ensures SlotShares(Next(s, step), i)
  {
    hide Lookup, MarkVerified, RemoveIfSame, Publish, Sweep, CalmKey, Pooled;
    assert ThreadOk(s, step.t) && ThreadShares(s, step.t);
    if step.LookUp? || step.Probe? || step.FinishPublish? { NextSessionsOnly(s, step); }
    var th := s.threads[step.t];
    if GivenTo(th.pc).Some? { PooledStays(s, step, th.key, GivenTo(th.pc).value); }
    if i < |s.pool.slots| {
      assert SlotShares(s, i);
      if s.pool.slots[i].Ready? { PooledStays(s, step, s.info[i].key, s.pool.slots[i].conn); }
    }
  }

  lemma NextShares(s: Sys, step: Step)
    requires Inv(s) && CalmInv(s) && Shares(s) && Enabled(s, step) && Calm(s, step)
    ensures Shares(Next(s, step))
  {
    hide ThreadShares, SlotShares, CalmThread, CalmKey, Next;
    NextInv(s, step);
    NextThreadsStay(s, step);
    forall u | 0 <= u < |Next(s, step).threads| ensures ThreadShares(Next(s, step), u) { NextThreadShares(s, step, u); }
    forall i | 0 <= i < |Next(s, step).pool.slots| ensures SlotShares(Next(s, step), i) { NextSlotShares(s, step, i); }
  }

  lemma {:induction false} RunShares(s: Sys, steps: seq<Step>)
    requires Inv(s) && CalmInv(s) && Shares(s) && Feasible(s, steps) && CalmRun(s, steps)
    ensures Shares(After(s, steps))
    decreases |steps|
  {
    hide Inv, CalmInv, Shares, Next;
    if steps != [] {
      NextInv(s, steps[0]);
      NextShares(s, steps[0]);
      CalmNextInv(s, steps[0]);
      RunShares(Next(s, steps[0]), steps[1..]);
    }
  }

  /** However the callers of a calm run interleave, all callers of a key that end with a connection end
      with the same one, and it is the one in the pool. */
  lemma OneConnectionPerKey(s: Sys, steps: seq<Step>, t: Tid, conn: Conn)
    requires Init(s) && Feasible(s, steps) && CalmRun(s, steps)
    requires var e := After(s, steps);
             t < |e.threads| && e.threads[t].pc.Done? && e.threads[t].pc.outcome == Some(Connected(conn))
    ensures Pooled(After(s, steps).pool, After(s, steps).threads[t].key, conn)
  {
    InitInv(s);
    RunShares(s, steps);
    assert ThreadShares(After(s, steps), t);
  }
}
