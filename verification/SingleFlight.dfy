/** Callers of `connect_sftp_inner` racing for pooled connections. Each caller runs lookup, claim,
    recheck, handshake and finish as separate atomic steps; a step that takes the in-flight lock is
    enabled only while nobody holds it. The network, panics, aborts, deadlines and invalidations are
    choices made by whoever picks the steps, so a claim about every run is a claim about every
    interleaving. */
module SingleFlight {
  import opened Common
  import opened SftpPools

  type Tid = nat

  datatype Pc =
    | Start
    | Trusting(conn: Conn)
    | Probing(conn: Conn)
    | Missed
    | Leading(slot: SlotId)
    | Rechecking(slot: SlotId, conn: Conn)
    | Handshaking(slot: SlotId)
    | Resolved(slot: SlotId, result: Result)
    | Publishing(slot: SlotId, result: Result, owns: bool)
    | Releasing(slot: SlotId, result: Result, owns: bool)
    | Finished(slot: SlotId, result: Result)
    | Unwinding(slot: SlotId)
    | Following(slot: SlotId)
    | GivingUp(slot: SlotId)
    | Done(outcome: Option<Result>, via: Option<SlotId>)

  datatype Thread = Thread(key: Key, pc: Pc)

  /** The key and the leader a slot was created for. */
  datatype SlotInfo = SlotInfo(key: Key, leader: Tid)

  datatype Sys = Sys(
    pool: Pool,
    lock: Option<Tid>,
    threads: seq<Thread>,
    info: seq<SlotInfo>,
    handshakes: seq<Key>)

  datatype Step =
    | LookUp(t: Tid, now: nat)
    | Accept(t: Tid)
    | Probe(t: Tid, healthy: bool, now: nat)
    | Abort(t: Tid)
    | ClaimKey(t: Tid)
    | EndHandshake(t: Tid, result: Result)
    | Panic(t: Tid)
    | FinishAcquire(t: Tid)
    | FinishPublish(t: Tid, now: nat)
    | FinishResolve(t: Tid)
    | DropGuard(t: Tid)
    | SeeOutcome(t: Tid)
    | WaitExpires(t: Tid)
    | FreeKey(t: Tid)
    | InvalidateKey(key: Key)

  function Goto(s: Sys, t: Tid, pc: Pc): Sys
    requires t < |s.threads|
  {
    s.(threads := s.threads[t := s.threads[t].(pc := pc)])
  }

  predicate InFinish(pc: Pc) { pc.Publishing? || pc.Releasing? }

  predicate MayPanic(pc: Pc) {
    pc.Leading? || pc.Rechecking? || pc.Handshaking? || pc.Resolved? || InFinish(pc)
  }

  /** Caller `t` leads or follows an existing slot. */
  predicate SlotExists(s: Sys, pc: Pc) {
    (pc.Releasing? || pc.Finished? || pc.Unwinding? || pc.Following?) && pc.slot < |s.pool.slots|
  }

  predicate Enabled(s: Sys, step: Step) {
    if step.InvalidateKey? then true
    else if step.t >= |s.threads| then false
    else EnabledAt(s, step, s.threads[step.t].pc)
  }

  predicate EnabledAt(s: Sys, step: Step, pc: Pc) {
    match step
    case LookUp(_, _) => pc.Start? || pc.Leading?
    case Probe(_, _, _) => pc.Probing? || pc.Rechecking?
    case Accept(_) => pc.Trusting?
    case Abort(_) => pc.Start? || pc.Trusting? || pc.Probing? || pc.Missed? || pc.Following?
    case ClaimKey(_) => pc.Missed? && s.lock.None?
    case EndHandshake(_, _) => pc.Handshaking?
    case Panic(_) => MayPanic(pc)
    case FinishAcquire(_) => pc.Resolved? && s.lock.None?
    case FinishPublish(_, _) => pc.Publishing?
    case FinishResolve(_) => pc.Releasing? && SlotExists(s, pc)
    case DropGuard(_) => (pc.Finished? || pc.Unwinding?) && SlotExists(s, pc) && s.lock.None?
    case SeeOutcome(_) => pc.Following? && SlotExists(s, pc) && !s.pool.slots[pc.slot].Pending?
    case WaitExpires(_) => pc.Following? && SlotExists(s, pc) && s.pool.slots[pc.slot].Pending?
    case FreeKey(_) => pc.GivingUp? && s.lock.None?
    case InvalidateKey(_) => true
  }

  function ResultOf(state: SlotState): Result
    requires !state.Pending?
  {
    match state case Ready(c) => Connected(c) case Failed(e) => Refused(e)
  }

  /** After a conclusive lookup the first caller is done, unless it aborts at the check between looking
      up and using what it found; a leader publishes it. After a miss the first caller claims and a
      leader handshakes. */
  function AfterHit(pc: Pc, conn: Conn): Pc
    requires pc.Probing? || pc.Leading? || pc.Rechecking?
  {
    if pc.Probing? then Done(Some(Connected(conn)), None) else Resolved(pc.slot, Connected(conn))
  }

  function AfterMiss(s: Sys, t: Tid): Sys
    requires t < |s.threads|
    requires var pc := s.threads[t].pc; pc.Start? || pc.Probing? || pc.Leading? || pc.Rechecking?
  {
    var pc := s.threads[t].pc;
    if pc.Start? || pc.Probing? then Goto(s, t, Missed)
    else Goto(s, t, Handshaking(pc.slot)).(handshakes := s.handshakes + [s.threads[t].key])
  }

  function Next(s: Sys, step: Step): Sys
    requires Enabled(s, step)
  {
    match step
    case InvalidateKey(key) => s.(pool := Invalidate(s.pool, key))
    case LookUp(t, now) =>
      var th := s.threads[t];
      var (p, found) := Lookup(s.pool, th.key, now);
      var s1 := s.(pool := p);
      (match found
       case Trusted(conn) => Goto(s1, t, if th.pc.Start? then Trusting(conn) else AfterHit(th.pc, conn))
       case Unverified(conn) => Goto(s1, t, if th.pc.Start? then Probing(conn) else Rechecking(th.pc.slot, conn))
       case Miss => AfterMiss(s1, t))
    case Accept(t) => Goto(s, t, Done(Some(Connected(s.threads[t].pc.conn)), None))
    case Probe(t, healthy, now) =>
      var th := s.threads[t];
      var conn := th.pc.conn;
      if healthy then Goto(s.(pool := MarkVerified(s.pool, th.key, conn, now)), t, AfterHit(th.pc, conn))
      else AfterMiss(s.(pool := RemoveIfSame(s.pool, th.key, conn)), t)
    case Abort(t) => Goto(s, t, Done(Some(Refused(LookupAborted)), None))
    case ClaimKey(t) =>
      var key := s.threads[t].key;
      var (p, claim) := BeginConnect(s.pool, key);
      (match claim
       case Leader(slot) => Goto(s.(pool := p, info := s.info + [SlotInfo(key, t)]), t, Leading(slot))
       case Follower(slot) => Goto(s.(pool := p), t, Following(slot)))
    case EndHandshake(t, result) => Goto(s, t, Resolved(s.threads[t].pc.slot, result))
    case Panic(t) =>
      var pc := s.threads[t].pc;
      Goto(s.(lock := if InFinish(pc) then None else s.lock), t, Unwinding(pc.slot))
    case FinishAcquire(t) =>
      var th := s.threads[t];
      Goto(s.(lock := Some(t)), t, Publishing(th.pc.slot, th.pc.result, Owns(s.pool, th.key, th.pc.slot)))
    case FinishPublish(t, now) =>
      var th := s.threads[t];
      var (p, r) := Publish(s.pool, th.key, th.pc.result, th.pc.owns, now);
      Goto(s.(pool := p), t, Releasing(th.pc.slot, r, th.pc.owns))
    case FinishResolve(t) =>
      var th := s.threads[t];
      Goto(s.(pool := FinishRelease(s.pool, th.key, th.pc.slot, th.pc.result), lock := None), t, Finished(th.pc.slot, th.pc.result))
    case DropGuard(t) =>
      var th := s.threads[t];
      Goto(s.(pool := DropLeader(s.pool, th.key, th.pc.slot)), t,
           if th.pc.Finished? then Done(Some(th.pc.result), Some(th.pc.slot)) else Done(None, Some(th.pc.slot)))
    case SeeOutcome(t) =>
      var slot := s.threads[t].pc.slot;
      Goto(s, t, Done(Some(ResultOf(s.pool.slots[slot])), Some(slot)))
    case WaitExpires(t) => Goto(s, t, GivingUp(s.threads[t].pc.slot))
    case FreeKey(t) =>
      var th := s.threads[t];
      Goto(s.(pool := Release(s.pool, th.key, th.pc.slot)), t, Done(Some(Refused(WaitTimedOut)), None))
  }

  /** Any number of callers, none of which has started; the pool may hold connections already. */
  predicate Init(s: Sys) {
    && s.pool.inFlight == map[] && s.pool.slots == [] && s.info == [] && s.handshakes == []
    && s.lock.None?
    && forall t | 0 <= t < |s.threads| :: s.threads[t].pc.Start?
  }

  // ------------------------------------------------------------------- invariant

  /** The slot this caller leads and has not resolved. */
  function Leads(pc: Pc): Option<SlotId> {
    match pc
    case Leading(i) => Some(i)
    case Rechecking(i, _) => Some(i)
    case Handshaking(i) => Some(i)
    case Resolved(i, _) => Some(i)
    case Publishing(i, _, _) => Some(i)
    case Releasing(i, _, _) => Some(i)
    case Unwinding(i) => Some(i)
    case _ => None
  }

  predicate ThreadOk(s: Sys, t: Tid)
    requires t < |s.threads| && |s.info| == |s.pool.slots|
  {
    var th := s.threads[t];
    var slots := s.pool.slots;
    && (Leads(th.pc).Some? ==> var i := Leads(th.pc).value;
          i < |slots| && slots[i].Pending? && s.info[i] == SlotInfo(th.key, t))
    && (th.pc.Finished? ==> th.pc.slot < |slots| && slots[th.pc.slot] == StateOf(th.pc.result))
    && (th.pc.Following? || th.pc.GivingUp? ==> th.pc.slot < |slots| && s.info[th.pc.slot].key == th.key)
    && (InFinish(th.pc) ==> s.lock == Some(t) && th.pc.owns == Owns(s.pool, th.key, th.pc.slot))
    && (th.pc.Done? && th.pc.via.Some? ==> var i := th.pc.via.value;
          i < |slots| && slots[i] == (if th.pc.outcome.Some? then StateOf(th.pc.outcome.value) else Failed(LeaderAborted)))
  }

  /** A slot still pending has its leader alive. */
  predicate SlotOk(s: Sys, i: SlotId)
    requires i < |s.pool.slots| == |s.info|
  {
    s.pool.slots[i].Pending? ==> s.info[i].leader < |s.threads| && Leads(s.threads[s.info[i].leader].pc) == Some(i)
  }

  /** A claimed key points at a pending slot of that key. */
  predicate KeyOk(s: Sys, k: Key)
    requires k in s.pool.inFlight && |s.pool.slots| == |s.info|
  {
    var i := s.pool.inFlight[k];
    i < |s.pool.slots| && s.pool.slots[i].Pending? && s.info[i].key == k
  }

  predicate Inv(s: Sys) {
    && |s.info| == |s.pool.slots|
    && (forall t | 0 <= t < |s.threads| :: ThreadOk(s, t))
    && (forall i | 0 <= i < |s.pool.slots| :: SlotOk(s, i))
    && (forall k | k in s.pool.inFlight :: KeyOk(s, k))
    && (s.lock.Some? ==> s.lock.value < |s.threads| && InFinish(s.threads[s.lock.value].pc))
  }

  lemma InitInv(s: Sys)
    requires Init(s)
    ensures Inv(s)
  {
  }

  /** Looking up, probing and publishing touch only the session table. */
  lemma SessionsOnly(p: Pool, key: Key, conn: Conn, now: nat, result: Result, owns: bool)
    ensures Lookup(p, key, now).0 == p.(sessions := Lookup(p, key, now).0.sessions)
    ensures MarkVerified(p, key, conn, now) == p.(sessions := MarkVerified(p, key, conn, now).sessions)
    ensures RemoveIfSame(p, key, conn) == p.(sessions := RemoveIfSame(p, key, conn).sessions)
    ensures Publish(p, key, result, owns, now).0 == p.(sessions := Publish(p, key, result, owns, now).0.sessions)
  {
  }

  function ProbedConn(pc: Pc): Conn { if pc.Probing? || pc.Rechecking? then pc.conn else 0 }
  function HeldResult(pc: Pc): Result { if pc.Publishing? then pc.result else Refused(LookupAborted) }

  lemma NextSessionsOnly(s: Sys, step: Step)
    requires Enabled(s, step) && (step.LookUp? || step.Probe? || step.FinishPublish?)
    ensures Next(s, step).pool == s.pool.(sessions := Next(s, step).pool.sessions)
    ensures Next(s, step).lock == s.lock && Next(s, step).info == s.info
  {
    hide Lookup, MarkVerified, RemoveIfSame, Publish;
    var th := s.threads[step.t];
    SessionsOnly(s.pool, th.key, ProbedConn(th.pc), step.now, HeldResult(th.pc), th.pc.Publishing? && th.pc.owns);
  }

  /** Looking up, probing and publishing: the mover's slot and claim stay as they were. */
  lemma SessionMoverOk(s: Sys, step: Step)
    requires Inv(s) && Enabled(s, step) && (step.LookUp? || step.Probe? || step.FinishPublish?)
    ensures ThreadOk(Next(s, step), step.t)
  {
    hide Lookup, MarkVerified, RemoveIfSame, Publish, SlotOk, KeyOk;
    assert ThreadOk(s, step.t);
    NextSessionsOnly(s, step);
  }

  predicate ChangesSlots(step: Step) { step.ClaimKey? || step.FinishResolve? || step.DropGuard? || step.FreeKey? }

  /** Claiming, resolving, dropping the guard and freeing a key. */
  lemma SlotMoverOk(s: Sys, step: Step)
    requires Inv(s) && Enabled(s, step) && ChangesSlots(step)
    ensures ThreadOk(Next(s, step), step.t)
  {
    hide SlotOk;
    assert ThreadOk(s, step.t);
    if step.ClaimKey? && s.threads[step.t].key in s.pool.inFlight { assert KeyOk(s, s.threads[step.t].key); }
  }

  lemma NextMoverOk(s: Sys, step: Step)
    requires Inv(s) && Enabled(s, step) && !step.InvalidateKey?
    ensures ThreadOk(Next(s, step), step.t)
  {
    hide Lookup, MarkVerified, RemoveIfSame, Publish, BeginConnect, FinishRelease, DropLeader, SlotOk, KeyOk;
    if step.LookUp? || step.Probe? || step.FinishPublish? {
      SessionMoverOk(s, step);
    } else if ChangesSlots(step) {
      SlotMoverOk(s, step);
    } else {
      assert ThreadOk(s, step.t);
    }
  }

  /** The two steps that resolve a slot leave every other caller's slots alone. */
  lemma ResolveBystanderOk(s: Sys, step: Step, u: Tid)
    requires Inv(s) && Enabled(s, step) && u < |s.threads| && (step.FinishResolve? || step.DropGuard?) && u != step.t
    ensures ThreadOk(Next(s, step), u)
  {
    assert ThreadOk(s, u) && ThreadOk(s, step.t);
  }

  /** Claiming and freeing a key do not concern a caller that is not finishing. */
  lemma ClaimBystanderOk(s: Sys, step: Step, u: Tid)
    requires Inv(s) && Enabled(s, step) && u < |s.threads| && (step.ClaimKey? || step.FreeKey?) && u != step.t
    ensures ThreadOk(Next(s, step), u)
  {
    assert ThreadOk(s, u) && ThreadOk(s, step.t);
  }

  lemma NextBystanderOk(s: Sys, step: Step, u: Tid)
    requires Inv(s) && Enabled(s, step) && u < |s.threads| && (step.InvalidateKey? || u != step.t)
    ensures ThreadOk(Next(s, step), u)
  {
    hide Lookup, MarkVerified, RemoveIfSame, Publish, BeginConnect, FinishRelease, DropLeader, SlotOk, KeyOk;
    assert ThreadOk(s, u);
    if step.LookUp? || step.Probe? || step.FinishPublish? {
      NextSessionsOnly(s, step);
    } else if step.FinishResolve? || step.DropGuard? {
      ResolveBystanderOk(s, step, u);
    } else if step.ClaimKey? || step.FreeKey? {
      ClaimBystanderOk(s, step, u);
    } else if step.Panic? || step.FinishAcquire? {
      assert ThreadOk(s, step.t);
    }
  }

  lemma SlotChangeSlotOk(s: Sys, step: Step, i: SlotId)
    requires Inv(s) && Enabled(s, step) && ChangesSlots(step) && i < |Next(s, step).pool.slots|
    ensures SlotOk(Next(s, step), i)
  {
    hide KeyOk;
    if i < |s.pool.slots| { assert SlotOk(s, i); }
    assert ThreadOk(s, step.t);
  }

  lemma NextSlotOk(s: Sys, step: Step, i: SlotId)
    requires Inv(s) && Enabled(s, step) && i < |Next(s, step).pool.slots|
    ensures SlotOk(Next(s, step), i)
  {
    hide Lookup, MarkVerified, RemoveIfSame, Publish, BeginConnect, FinishRelease, DropLeader, KeyOk;
    if ChangesSlots(step) {
      SlotChangeSlotOk(s, step, i);
    } else {
      if step.LookUp? || step.Probe? || step.FinishPublish? { NextSessionsOnly(s, step); }
      assert SlotOk(s, i);
      if !step.InvalidateKey? { assert ThreadOk(s, step.t); }
    }
  }

  lemma SlotChangeKeyOk(s: Sys, step: Step, k: Key)
    requires Inv(s) && Enabled(s, step) && ChangesSlots(step) && k in Next(s, step).pool.inFlight
    ensures KeyOk(Next(s, step), k)
  {
    hide SlotOk;
    if k in s.pool.inFlight { assert KeyOk(s, k); }
    assert ThreadOk(s, step.t);
  }

  lemma NextKeyOk(s: Sys, step: Step, k: Key)
    requires Inv(s) && Enabled(s, step) && k in Next(s, step).pool.inFlight
    ensures KeyOk(Next(s, step), k)
  {
    hide Lookup, MarkVerified, RemoveIfSame, Publish, BeginConnect, FinishRelease, DropLeader, ThreadOk, SlotOk;
    if ChangesSlots(step) {
      SlotChangeKeyOk(s, step, k);
    } else {
      if step.LookUp? || step.Probe? || step.FinishPublish? { NextSessionsOnly(s, step); }
      assert KeyOk(s, k);
    }
  }

  /** Every step of every caller keeps the protocol's invariant. */
  lemma NextInv(s: Sys, step: Step)
    requires Inv(s) && Enabled(s, step)
    ensures Inv(Next(s, step))
  {
    hide ThreadOk, SlotOk, KeyOk;
    var s' := Next(s, step);
    assert |s'.threads| == |s.threads| && |s'.info| == |s'.pool.slots|;
    forall u | 0 <= u < |s.threads| ensures ThreadOk(s', u) {
      if !step.InvalidateKey? && u == step.t { NextMoverOk(s, step); } else { NextBystanderOk(s, step, u); }
    }
    forall i | 0 <= i < |s'.pool.slots| ensures SlotOk(s', i) { NextSlotOk(s, step, i); }
    forall k | k in s'.pool.inFlight ensures KeyOk(s', k) { NextKeyOk(s, step, k); }
    NextLockOk(s, step);
  }

  lemma NextLockOk(s: Sys, step: Step)
    requires Inv(s) && Enabled(s, step)
    ensures var s' := Next(s, step); s'.lock.Some? ==> s'.lock.value < |s'.threads| && InFinish(s'.threads[s'.lock.value].pc)
  {
    if !step.InvalidateKey? { assert ThreadOk(s, step.t); }
  }
}
