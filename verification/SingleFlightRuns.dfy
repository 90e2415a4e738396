/** What holds of every run of the callers of `SingleFlight`, whatever the interleaving. */
module SingleFlightRuns {
  import opened Common
  import opened SftpPools
  import opened SingleFlight

  /** Each step is enabled when its turn comes. */
  predicate Feasible(s: Sys, steps: seq<Step>)
    decreases |steps|
  {
    steps == [] || (Enabled(s, steps[0]) && Feasible(Next(s, steps[0]), steps[1..]))
  }

  function After(s: Sys, steps: seq<Step>): Sys
    requires Feasible(s, steps)
    decreases |steps|
  {
    if steps == [] then s else After(Next(s, steps[0]), steps[1..])
  }

  /** A run goes on with exactly the steps that are enabled after it. */
  lemma {:induction false} RunsExtend(s: Sys, steps: seq<Step>, step: Step)
    ensures Feasible(s, steps + [step]) <==> Feasible(s, steps) && Enabled(After(s, steps), step)
    ensures Feasible(s, steps + [step]) ==> After(s, steps + [step]) == Next(After(s, steps), step)
    decreases |steps|
  {
    hide Next, Enabled;
    if steps == [] {
      assert [step][1..] == [];
    } else {
      assert (steps + [step])[0] == steps[0] && (steps + [step])[1..] == steps[1..] + [step];
      if Enabled(s, steps[0]) { RunsExtend(Next(s, steps[0]), steps[1..], step); }
    }
  }

  lemma {:induction false} RunInv(s: Sys, steps: seq<Step>)
    requires Inv(s) && Feasible(s, steps)
    ensures Inv(After(s, steps))
    decreases |steps|
  {
    if steps != [] {
      NextInv(s, steps[0]);
      RunInv(Next(s, steps[0]), steps[1..]);
    }
  }

  // ------------------------------------------------------------ slots and outcomes

  lemma NextSlotStable(s: Sys, step: Step, i: SlotId)
    requires Inv(s) && Enabled(s, step) && i < |s.pool.slots|
    ensures i < |Next(s, step).pool.slots| && Next(s, step).info[i] == s.info[i]
    ensures !s.pool.slots[i].Pending? ==> Next(s, step).pool.slots[i] == s.pool.slots[i]
    ensures Next(s, step).pool.slots[i] != s.pool.slots[i] ==>
              !step.InvalidateKey? && step.t == s.info[i].leader && (step.FinishResolve? || step.DropGuard?)
  {
    hide Lookup, MarkVerified, RemoveIfSame, Publish;
    if step.LookUp? || step.Probe? || step.FinishPublish? { NextSessionsOnly(s, step); }
    if !step.InvalidateKey? { assert ThreadOk(s, step.t); }
  }

  /** A slot leaves Pending at most once and then never changes. */
  lemma {:induction false} OutcomeIsFinal(s: Sys, steps: seq<Step>, i: SlotId)
    requires Inv(s) && Feasible(s, steps) && i < |s.pool.slots|
    ensures i < |After(s, steps).pool.slots|
    ensures !s.pool.slots[i].Pending? ==> After(s, steps).pool.slots[i] == s.pool.slots[i]
    decreases |steps|
  {
    if steps != [] {
      NextInv(s, steps[0]);
      NextSlotStable(s, steps[0], i);
      OutcomeIsFinal(Next(s, steps[0]), steps[1..], i);
    }
  }

  /** Whoever ends with an outcome that came from a slot, leader or follower, has that slot's one
      outcome; a leader that panicked leaves its slot failed. */
  lemma OneOutcome(s: Sys, steps: seq<Step>, t: Tid, u: Tid)
    requires Init(s) && Feasible(s, steps) && t < |s.threads| && u < |s.threads|
    ensures |After(s, steps).threads| == |s.threads|
    ensures var a, b := After(s, steps).threads[t].pc, After(s, steps).threads[u].pc;
            a.Done? && b.Done? && a.via.Some? && a.via == b.via ==>
              && (a.outcome.Some? && b.outcome.Some? ==> a.outcome == b.outcome)
              && (a.outcome.None? && b.outcome.Some? ==> b.outcome == Some(Refused(LeaderAborted)))
  {
    InitInv(s);
    RunInv(s, steps);
    ThreadsStay(s, steps);
    var e := After(s, steps);
    assert ThreadOk(e, t) && ThreadOk(e, u);
  }

  lemma {:induction false} ThreadsStay(s: Sys, steps: seq<Step>)
    requires Feasible(s, steps)
    ensures |After(s, steps).threads| == |s.threads|
    ensures forall t | 0 <= t < |s.threads| :: After(s, steps).threads[t].key == s.threads[t].key
    decreases |steps|
  {
    if steps != [] {
      NextThreadsStay(s, steps[0]);
      ThreadsStay(Next(s, steps[0]), steps[1..]);
    }
  }

  lemma NextThreadsStay(s: Sys, step: Step)
    requires Enabled(s, step)
    ensures |Next(s, step).threads| == |s.threads|
    ensures forall t | 0 <= t < |s.threads| :: Next(s, step).threads[t].key == s.threads[t].key
    ensures forall t | 0 <= t < |s.threads| :: step.InvalidateKey? || t != step.t ==> Next(s, step).threads[t] == s.threads[t]
  {
    hide Lookup, MarkVerified, RemoveIfSame, Publish;
  }

  /** In every reachable state: a claimed key points at a pending slot whose one leader is alive and
      unfinished, and any pending slot, claimed or displaced, has a live leader that will resolve it. */
  lemma ClaimsAreLed(s: Sys, steps: seq<Step>)
    requires Init(s) && Feasible(s, steps)
    ensures var e := After(s, steps);
            && |e.info| == |e.pool.slots|
            && (forall k | k in e.pool.inFlight :: e.pool.inFlight[k] < |e.pool.slots| && e.pool.slots[e.pool.inFlight[k]].Pending?
                  && e.info[e.pool.inFlight[k]].key == k)
            && (forall i | 0 <= i < |e.pool.slots| && e.pool.slots[i].Pending? ::
                  e.info[i].leader < |e.threads| && Leads(e.threads[e.info[i].leader].pc) == Some(i))
            && (forall t, i | 0 <= t < |e.threads| && Leads(e.threads[t].pc) == Some(i) ::
                  i < |e.pool.slots| && e.pool.slots[i].Pending? && e.info[i].leader == t)
  {
    InitInv(s);
    RunInv(s, steps);
    var e := After(s, steps);
    forall k | k in e.pool.inFlight
      ensures e.pool.inFlight[k] < |e.pool.slots| && e.pool.slots[e.pool.inFlight[k]].Pending? && e.info[e.pool.inFlight[k]].key == k
    {
      assert KeyOk(e, k);
    }
    forall i | 0 <= i < |e.pool.slots| && e.pool.slots[i].Pending?
      ensures e.info[i].leader < |e.threads| && Leads(e.threads[e.info[i].leader].pc) == Some(i)
    {
      assert SlotOk(e, i);
    }
    forall t, i | 0 <= t < |e.threads| && Leads(e.threads[t].pc) == Some(i)
      ensures i < |e.pool.slots| && e.pool.slots[i].Pending? && e.info[i].leader == t
    {
      assert ThreadOk(e, t);
    }
  }

  // ---------------------------------------------------------- displaced generations

  /** `slot` exists and no key is claimed by it any more. */
  predicate Displaced(s: Sys, slot: SlotId) {
    slot < |s.pool.slots| && forall k | k in s.pool.inFlight :: s.pool.inFlight[k] != slot
  }

  lemma NextDisplaced(s: Sys, step: Step, slot: SlotId)
    requires Inv(s) && Enabled(s, step) && Displaced(s, slot)
    ensures Displaced(Next(s, step), slot)
  {
    hide Lookup, MarkVerified, RemoveIfSame, Publish;
    if step.LookUp? || step.Probe? || step.FinishPublish? { NextSessionsOnly(s, step); }
  }

  /** Caller `pc` leads `slot`, or led it and has yet to drop its guard. */
  predicate LedOrLeads(pc: Pc, slot: SlotId) { Leads(pc) == Some(slot) || (pc.Finished? && pc.slot == slot) }

  /** A step of a displaced leader puts nothing into the pool and frees nobody's claim: apart from
      the lookup with which any caller may touch entries, it changes neither table. */
  lemma DisplacedStep(s: Sys, step: Step, slot: SlotId)
    requires Inv(s) && Enabled(s, step) && Displaced(s, slot)
    requires !step.InvalidateKey? && LedOrLeads(s.threads[step.t].pc, slot)
    ensures Next(s, step).pool.inFlight == s.pool.inFlight
    ensures !step.LookUp? && !step.Probe? ==> Next(s, step).pool.sessions == s.pool.sessions
    ensures Next(s, step).pool.sessions.Keys <= s.pool.sessions.Keys
    ensures forall k | k in Next(s, step).pool.sessions :: Next(s, step).pool.sessions[k].conn == s.pool.sessions[k].conn
  {
    assert ThreadOk(s, step.t);
    if s.threads[step.t].key in s.pool.inFlight { assert s.pool.inFlight[s.threads[step.t].key] != slot; }
  }

  /** Once a generation is displaced, nothing its leader ever does, dropping its guard at the very end
      included, publishes a connection or removes the claim of a replacement. */
  lemma {:induction false} DisplacedNeverPublishes(s: Sys, steps: seq<Step>, step: Step, slot: SlotId)
    requires Inv(s) && Feasible(s, steps) && Displaced(s, slot)
    requires Enabled(After(s, steps), step) && !step.InvalidateKey?
    requires LedOrLeads(After(s, steps).threads[step.t].pc, slot)
    ensures var e := After(s, steps);
            && Next(e, step).pool.inFlight == e.pool.inFlight
            && Next(e, step).pool.sessions.Keys <= e.pool.sessions.Keys
            && (forall k | k in Next(e, step).pool.sessions :: Next(e, step).pool.sessions[k].conn == e.pool.sessions[k].conn)
    decreases |steps|
  {
    if steps == [] {
      DisplacedStep(s, step, slot);
    } else {
      NextInv(s, steps[0]);
      NextDisplaced(s, steps[0], slot);
      DisplacedNeverPublishes(Next(s, steps[0]), steps[1..], step, slot);
    }
  }

  // --------------------------------------------------------- nobody waits for ever

  /** How far a caller still is from its end. */
  function Distance(pc: Pc): nat {
    match pc
    case Start => 12
    case Trusting(_) => 11
    case Probing(_) => 11
    case Missed => 10
    case Leading(_) => 9
    case Following(_) => 9
    case Rechecking(_, _) => 8
    case GivingUp(_) => 8
    case Handshaking(_) => 7
    case Resolved(_, _) => 6
    case Publishing(_, _, _) => 5
    case Releasing(_, _, _) => 4
    case Finished(_, _) => 3
    case Unwinding(_) => 2
    case Done(_, _) => 0
  }

  lemma NextDistance(s: Sys, step: Step)
    requires Enabled(s, step) && !step.InvalidateKey?
    ensures step.t < |Next(s, step).threads| && Distance(Next(s, step).threads[step.t].pc) < Distance(s.threads[step.t].pc)
  {
    hide Lookup, MarkVerified, RemoveIfSame, Publish;
    NextThreadsStay(s, step);
  }

  function StepsOf(steps: seq<Step>, t: Tid): nat {
    if steps == [] then 0 else (if !steps[0].InvalidateKey? && steps[0].t == t then 1 else 0) + StepsOf(steps[1..], t)
  }

  /** Every step of a caller brings it closer to its end, and nobody else's step takes it back. */
  lemma {:induction false} StepsUseUpDistance(s: Sys, steps: seq<Step>, t: Tid)
    requires Feasible(s, steps) && t < |s.threads|
    ensures t < |After(s, steps).threads|
    ensures StepsOf(steps, t) + Distance(After(s, steps).threads[t].pc) <= Distance(s.threads[t].pc)
    decreases |steps|
  {
    hide Enabled, Next, Distance;
    if steps != [] {
      NextThreadsStay(s, steps[0]);
      if !steps[0].InvalidateKey? && steps[0].t == t { NextDistance(s, steps[0]); }
      StepsUseUpDistance(Next(s, steps[0]), steps[1..], t);
    }
  }

  /** However the callers interleave and whatever befalls them, each takes at most twelve steps. */
  lemma RunsAreShort(s: Sys, steps: seq<Step>, t: Tid)
    requires Init(s) && Feasible(s, steps) && t < |s.threads|
    ensures StepsOf(steps, t) <= 12
  {
    StepsUseUpDistance(s, steps, t);
  }

  /** A step a caller takes on its own: no panic, abort, deadline or invalidation. */
  predicate Ordinary(step: Step) { !step.InvalidateKey? && !step.Panic? && !step.Abort? && !step.WaitExpires? }

  lemma OrdinaryStepOf(s: Sys, t: Tid) returns (step: Step)
    requires Inv(s) && t < |s.threads| && !s.threads[t].pc.Done?
    requires s.threads[t].pc.Following? && s.threads[t].pc.slot < |s.pool.slots| ==> !s.pool.slots[s.threads[t].pc.slot].Pending?
    requires s.lock.Some? ==> InFinish(s.threads[t].pc)
    ensures Enabled(s, step) && Ordinary(step)
  {
    assert ThreadOk(s, t);
    match s.threads[t].pc
    case Start => step := LookUp(t, 0);
    case Trusting(_) => step := Accept(t);
    case Probing(_) => step := Probe(t, true, 0);
    case Missed => step := ClaimKey(t);
    case Leading(_) => step := LookUp(t, 0);
    case Rechecking(_, _) => step := Probe(t, true, 0);
    case Handshaking(_) => step := EndHandshake(t, Connected(0));
    case Resolved(_, _) => step := FinishAcquire(t);
    case Publishing(_, _, _) => step := FinishPublish(t, 0);
    case Releasing(_, _, _) => step := FinishResolve(t);
    case Finished(_, _) => step := DropGuard(t);
    case Unwinding(_) => step := DropGuard(t);
    case Following(_) => step := SeeOutcome(t);
    case GivingUp(_) => step := FreeKey(t);
  }

  /** No reachable state is stuck: as long as some caller is not done, some caller can go on without
      panic, abort or deadline. With `RunsAreShort`, every run that does not stop early ends with
      everybody done, followers included. */
  lemma NobodyIsStranded(s: Sys, steps: seq<Step>, t: Tid) returns (step: Step)
    requires Init(s) && Feasible(s, steps) && t < |s.threads|
    requires t < |After(s, steps).threads| && !After(s, steps).threads[t].pc.Done?
    ensures Enabled(After(s, steps), step) && Ordinary(step)
  {
    InitInv(s);
    RunInv(s, steps);
    var e := After(s, steps);
    assert ThreadOk(e, t);
    var pc := e.threads[t].pc;
    if e.lock.Some? {
      step := OrdinaryStepOf(e, e.lock.value);
    } else if pc.Following? && e.pool.slots[pc.slot].Pending? {
      assert SlotOk(e, pc.slot);
      step := OrdinaryStepOf(e, e.info[pc.slot].leader);
    } else {
      step := OrdinaryStepOf(e, t);
    }
  }

  /** What may interfere always may: a leader that has not resolved its slot may panic at any moment, a
      caller that waits may be aborted or run out of time, and a handshake may end with any result. */
  lemma FaultsArePossible(s: Sys, steps: seq<Step>, t: Tid, result: Result)
    requires Init(s) && Feasible(s, steps) && t < |s.threads|
    ensures var e := After(s, steps);
            && t < |e.threads|
            && var pc := e.threads[t].pc;
            && (Leads(pc).Some? && !pc.Unwinding? ==> Enabled(e, Panic(t)))
            && (pc.Start? || pc.Trusting? || pc.Probing? || pc.Missed? || pc.Following? ==> Enabled(e, Abort(t)))
            && (pc.Following? ==>
                  pc.slot < |e.pool.slots| && Enabled(e, if e.pool.slots[pc.slot].Pending? then WaitExpires(t) else SeeOutcome(t)))
            && (pc.Handshaking? ==> Enabled(e, EndHandshake(t, result)))
  {
    hide Next;
    InitInv(s);
    RunInv(s, steps);
    ThreadsStay(s, steps);
    assert ThreadOk(After(s, steps), t);
  }

  // ---------------------------------------------------- at most one handshake a key

  /** A step of a calm run: handshakes succeed, nobody panics or times out, no entry expires, is
      invalidated or fails its probe. Callers may still abort. */
  predicate Calm(s: Sys, step: Step)
    requires Enabled(s, step)
  {
    match step
    case LookUp(_, now) => Sweep(s.pool.sessions, now) == s.pool.sessions
    case Probe(_, healthy, _) => healthy
    case EndHandshake(_, result) => result.Connected?
    case Panic(_) => false
    case WaitExpires(_) => false
    case InvalidateKey(_) => false
    case _ => true
  }

  predicate CalmRun(s: Sys, steps: seq<Step>)
    requires Feasible(s, steps)
    decreases |steps|
  {
    steps == [] || (Calm(s, steps[0]) && CalmRun(Next(s, steps[0]), steps[1..]))
  }

  function Count(log: seq<Key>, k: Key): nat {
    if log == [] then 0 else Count(log[..|log| - 1], k) + (if log[|log| - 1] == k then 1 else 0)
  }

  /** The caller is past its recheck with a connection or about to have one, and has not published. */
  predicate Carries(pc: Pc) {
    pc.Handshaking? || (pc.Resolved? && pc.result.Connected?) || (pc.Publishing? && pc.result.Connected?)
  }

  predicate CalmThread(s: Sys, t: Tid)
    requires t < |s.threads|
  {
    var th := s.threads[t];
    && !th.pc.Unwinding? && !th.pc.GivingUp?
    && (Leads(th.pc).Some? ==> Owns(s.pool, th.key, Leads(th.pc).value))
    && (th.pc.Resolved? || th.pc.Publishing? ==> th.pc.result.Connected?)
    && (th.pc.Publishing? ==> th.pc.owns)
    && (th.pc.Releasing? ==> th.key in s.pool.sessions)
  }

  /** A key that was handshaken is in the pool, or its leader is carrying the connection there. */
  predicate CalmKey(s: Sys, k: Key) {
    && Count(s.handshakes, k) <= 1
    && (Count(s.handshakes, k) == 1 ==>
          k in s.pool.sessions || exists t | 0 <= t < |s.threads| :: s.threads[t].key == k && Carries(s.threads[t].pc))
  }

  ghost predicate CalmInv(s: Sys) {
    && (forall t | 0 <= t < |s.threads| :: CalmThread(s, t))
    && (forall k :: CalmKey(s, k))
  }

  lemma CalmLookup(p: Pool, key: Key, now: nat)
    requires Sweep(p.sessions, now) == p.sessions
    ensures Lookup(p, key, now).0.sessions.Keys == p.sessions.Keys
    ensures Lookup(p, key, now).1.Miss? <==> key !in p.sessions
  {
  }

  /** In a calm run keys only enter the pool. */
  lemma CalmKeys(s: Sys, step: Step)
    requires Inv(s) && CalmInv(s) && Enabled(s, step) && Calm(s, step)
    ensures s.pool.sessions.Keys <= Next(s, step).pool.sessions.Keys
    ensures step.FinishPublish? ==> s.threads[step.t].key in Next(s, step).pool.sessions
  {
    assert CalmThread(s, step.t);
    if step.LookUp? { CalmLookup(s.pool, s.threads[step.t].key, step.now); }
  }

  /** What a calm run asks of one caller, given who owns its key and whether the key is pooled. */
  lemma CalmMover(s: Sys, step: Step)
    requires Inv(s) && CalmInv(s) && Enabled(s, step) && Calm(s, step)
    ensures step.t < |Next(s, step).threads| && CalmThread(Next(s, step), step.t)
  {
    hide Lookup, MarkVerified, RemoveIfSame, Publish, Sweep, CalmKey, SlotOk, KeyOk;
    CalmKeys(s, step);
    assert CalmThread(s, step.t) && ThreadOk(s, step.t);
    if step.LookUp? || step.Probe? || step.FinishPublish? { NextSessionsOnly(s, step); }
  }

  lemma CalmBystander(s: Sys, step: Step, u: Tid)
    requires Inv(s) && CalmInv(s) && Enabled(s, step) && Calm(s, step) && u < |s.threads| && u != step.t
    ensures u < |Next(s, step).threads| && CalmThread(Next(s, step), u)
  {
    hide Lookup, MarkVerified, RemoveIfSame, Publish, Sweep, CalmKey, SlotOk;
    CalmKeys(s, step);
    NextThreadsStay(s, step);
    assert CalmThread(s, u) && CalmThread(s, step.t) && ThreadOk(s, u) && ThreadOk(s, step.t);
    if step.LookUp? || step.Probe? || step.FinishPublish? { NextSessionsOnly(s, step); }
  }

  lemma CalmNextThread(s: Sys, step: Step, u: Tid)
    requires Inv(s) && CalmInv(s) && Enabled(s, step) && Calm(s, step) && u < |s.threads|
    ensures u < |Next(s, step).threads| && CalmThread(Next(s, step), u)
  {
    hide Next, CalmThread, CalmKey;
    if u == step.t { CalmMover(s, step); } else { CalmBystander(s, step, u); }
  }

  /** A leader's recheck misses only if its key was never handshaken. */
  lemma MissMeansFirst(s: Sys, t: Tid)
    requires Inv(s) && CalmInv(s) && t < |s.threads| && s.threads[t].pc.Leading?
    requires s.threads[t].key !in s.pool.sessions
    ensures Count(s.handshakes, s.threads[t].key) == 0
  {
    var k := s.threads[t].key;
    assert CalmKey(s, k) && CalmThread(s, t) && ThreadOk(s, t);
    forall u | 0 <= u < |s.threads| && s.threads[u].key == k && Leads(s.threads[u].pc).Some?
      ensures u == t
    {
      assert CalmThread(s, u) && ThreadOk(s, u);
    }
  }

  /** A carried connection is carried on or published. */
  lemma CarriedOn(s: Sys, step: Step, u: Tid)
    requires Inv(s) && CalmInv(s) && Enabled(s, step) && Calm(s, step)
    requires u < |s.threads| && Carries(s.threads[u].pc)
    ensures |Next(s, step).threads| == |s.threads| && Next(s, step).threads[u].key == s.threads[u].key
    ensures Carries(Next(s, step).threads[u].pc) || s.threads[u].key in Next(s, step).pool.sessions
  {
    hide Lookup, MarkVerified, RemoveIfSame, Publish, Sweep, ThreadOk, SlotOk, KeyOk, CalmKey;
    NextThreadsStay(s, step);
    CalmKeys(s, step);
    assert CalmThread(s, u);
  }

  lemma CalmHandshakes(s: Sys, step: Step)
    requires Inv(s) && CalmInv(s) && Enabled(s, step) && Calm(s, step)
    ensures var s', th := Next(s, step), s.threads[step.t];
            || s'.handshakes == s.handshakes
            || (s'.handshakes == s.handshakes + [th.key] && Count(s.handshakes, th.key) == 0
                && step.t < |s'.threads| && s'.threads[step.t] == th.(pc := Handshaking(th.pc.slot)))
  {
    hide Lookup, MarkVerified, RemoveIfSame, Publish, Sweep, ThreadOk, SlotOk, KeyOk, CalmKey, CalmThread;
    if step.LookUp? {
      CalmLookup(s.pool, s.threads[step.t].key, step.now);
      if s.threads[step.t].pc.Leading? && s.threads[step.t].key !in s.pool.sessions {
        MissMeansFirst(s, step.t);
      }
    }
  }

  lemma CountAppend(log: seq<Key>, x: Key, k: Key)
    ensures Count(log + [x], k) == Count(log, k) + (if x == k then 1 else 0)
  {
    assert (log + [x])[..|log|] == log;
  }

  lemma CalmNextKey(s: Sys, step: Step, k: Key)
    requires Inv(s) && CalmInv(s) && Enabled(s, step) && Calm(s, step)
    ensures CalmKey(Next(s, step), k)
  {
    var s' := Next(s, step);
    var keys, keys' := s.pool.sessions.Keys, s'.pool.sessions.Keys;
    assert keys <= keys' by { CalmKeys(s, step); }
    assert CalmKey(s, k);
    CalmHandshakes(s, step);
    CountAppend(s.handshakes, s.threads[step.t].key, k);
    if Count(s.handshakes, k) == 1 && k !in keys {
      var u :| 0 <= u < |s.threads| && s.threads[u].key == k && Carries(s.threads[u].pc);
      CarriedOn(s, step, u);
    }
    CalmKeyStep(s, s', step.t, k);
  }

  lemma CalmKeyStep(s: Sys, s': Sys, t: Tid, k: Key)
    requires CalmKey(s, k) && s.pool.sessions.Keys <= s'.pool.sessions.Keys
    requires Count(s.handshakes, k) == 1 && k !in s.pool.sessions ==>
               k in s'.pool.sessions || exists u | 0 <= u < |s'.threads| :: s'.threads[u].key == k && Carries(s'.threads[u].pc)
    requires || Count(s'.handshakes, k) == Count(s.handshakes, k)
             || (Count(s.handshakes, k) == 0 && Count(s'.handshakes, k) == 1
                 && t < |s'.threads| && s'.threads[t].key == k && s'.threads[t].pc.Handshaking?)
    ensures CalmKey(s', k)
  {
    if Count(s.handshakes, k) == 1 && k in s.pool.sessions { assert k in s'.pool.sessions.Keys; }
    if Count(s'.handshakes, k) != Count(s.handshakes, k) { assert Carries(s'.threads[t].pc); }
  }

  lemma CalmNextInv(s: Sys, step: Step)
    requires Inv(s) && CalmInv(s) && Enabled(s, step) && Calm(s, step)
    ensures CalmInv(Next(s, step))
  {
    var s' := Next(s, step);
    NextInv(s, step);
    NextThreadsStay(s, step);
    forall u | 0 <= u < |s'.threads| ensures CalmThread(s', u) { CalmNextThread(s, step, u); }
    forall k ensures CalmKey(s', k) { CalmNextKey(s, step, k); }
  }

  lemma {:induction false} CalmRunInv(s: Sys, steps: seq<Step>)
    requires Inv(s) && CalmInv(s) && Feasible(s, steps) && CalmRun(s, steps)
    ensures CalmInv(After(s, steps))
    decreases |steps|
  {
    if steps != [] {
      NextInv(s, steps[0]);
      CalmNextInv(s, steps[0]);
      CalmRunInv(Next(s, steps[0]), steps[1..]);
    }
  }

  /** The handshakes for `k` that end in a run. */
  function EndedHandshakes(s: Sys, steps: seq<Step>, k: Key): nat {
    if steps == [] then 0
    else
      (if steps[0].EndHandshake? && steps[0].t < |s.threads| && s.threads[steps[0].t].key == k then 1 else 0)
      + EndedHandshakes(s, steps[1..], k)
  }

  predicate HandshakeRuns(s: Sys, k: Key) { exists t | 0 <= t < |s.threads| :: s.threads[t].key == k && s.threads[t].pc.Handshaking? }

  /** The log has every handshake that ended and the one that may be going on. */
  predicate Logged(s: Sys, k: Key, ended: nat) {
    ended + (if HandshakeRuns(s, k) then 1 else 0) <= Count(s.handshakes, k)
  }

  lemma OneHandshaker(s: Sys, t: Tid, u: Tid)
    requires Inv(s) && CalmInv(s) && t < |s.threads| && u < |s.threads|
    requires s.threads[t].key == s.threads[u].key && s.threads[t].pc.Handshaking? && s.threads[u].pc.Handshaking?
    ensures t == u
  {
    assert CalmThread(s, t) && CalmThread(s, u) && ThreadOk(s, t) && ThreadOk(s, u);
  }

  lemma NextLogged(s: Sys, step: Step, k: Key, ended: nat)
    requires Inv(s) && CalmInv(s) && Enabled(s, step) && Calm(s, step) && Logged(s, k, ended)
    ensures Logged(Next(s, step), k, ended + if step.EndHandshake? && s.threads[step.t].key == k then 1 else 0)
  {
    hide Lookup, MarkVerified, RemoveIfSame, Publish, Sweep, BeginConnect, FinishRelease, DropLeader, CalmKey, CalmThread, ThreadOk, SlotOk, KeyOk, Count;
    var s' := Next(s, step);
    NextThreadsStay(s, step);
    CalmHandshakes(s, step);
    CountAppend(s.handshakes, s.threads[step.t].key, k);
    var mine := s.threads[step.t];
    if HandshakeRuns(s', k) {
      var u :| 0 <= u < |s'.threads| && s'.threads[u].key == k && s'.threads[u].pc.Handshaking?;
      if u != step.t { assert s.threads[u] == s'.threads[u] && HandshakeRuns(s, k); }
      if step.EndHandshake? && mine.key == k { OneHandshaker(s, u, step.t); }
    }
    if step.EndHandshake? && mine.key == k { assert HandshakeRuns(s, k); }
  }

  lemma {:induction false} RunLogged(s: Sys, steps: seq<Step>, k: Key, ended: nat)
    requires Inv(s) && CalmInv(s) && Feasible(s, steps) && CalmRun(s, steps) && Logged(s, k, ended)
    ensures Logged(After(s, steps), k, ended + EndedHandshakes(s, steps, k))
    decreases |steps|
  {
    hide Inv, CalmInv, Next, Logged, Calm;
    if steps != [] {
      NextInv(s, steps[0]);
      CalmNextInv(s, steps[0]);
      NextLogged(s, steps[0], k, ended);
      NextThreadsStay(s, steps[0]);
      SameKeysEnd(s, Next(s, steps[0]), steps[1..], k);
      RunLogged(Next(s, steps[0]), steps[1..], k, ended + if steps[0].EndHandshake? && s.threads[steps[0].t].key == k then 1 else 0);
    }
  }

  lemma {:induction false} SameKeysEnd(s: Sys, s': Sys, steps: seq<Step>, k: Key)
    requires |s.threads| == |s'.threads| && forall t | 0 <= t < |s.threads| :: s.threads[t].key == s'.threads[t].key
    ensures EndedHandshakes(s, steps, k) == EndedHandshakes(s', steps, k)
  {
    if steps != [] { SameKeysEnd(s, s', steps[1..], k); }
  }

  /** However the callers of a calm run interleave, no key is handshaken twice: at most one handshake is
      started for it, and at most one ends. */
  lemma AtMostOneHandshake(s: Sys, steps: seq<Step>, k: Key)
    requires Init(s) && Feasible(s, steps) && CalmRun(s, steps)
    ensures Count(After(s, steps).handshakes, k) <= 1
    ensures EndedHandshakes(s, steps, k) + (if HandshakeRuns(After(s, steps), k) then 1 else 0) <= 1
  {
    InitInv(s);
    CalmRunInv(s, steps);
    RunLogged(s, steps, k, 0);
    assert CalmKey(After(s, steps), k);
  }
}
