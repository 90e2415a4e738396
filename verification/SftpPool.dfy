/** The pool of reusable SFTP connections and its single-flight connect slots. Keys, connections and
    slots are numbered; a slot number stands for one shared `ConnectSlot` object. Every operation on
    the pool is given as a function of the pool's value, and the class carries it out in place. */
module SftpPools {
  type Key = nat
  type Conn = nat
  type SlotId = nat

  const POOL_IDLE_TTL_MS := 300_000
  const HEALTH_CHECK_IDLE_MS := 30_000
  const CONNECT_WAIT_TIMEOUT_MS := 60_000

  datatype Error = LookupAborted | LeaderAborted | WaitTimedOut | HandshakeFailed(code: nat)
  datatype Result = Connected(conn: Conn) | Refused(error: Error)
  datatype SlotState = Pending | Ready(conn: Conn) | Failed(error: Error)

  datatype Entry = Entry(conn: Conn, lastUsed: nat, lastVerified: nat)

  datatype Pool = Pool(sessions: map<Key, Entry>, inFlight: map<Key, SlotId>, slots: seq<SlotState>)

  function StateOf(r: Result): SlotState {
    match r case Connected(c) => Ready(c) case Refused(e) => Failed(e)
  }

  // ------------------------------------------------------------------ pool lookups

  function Sweep(sessions: map<Key, Entry>, now: nat): map<Key, Entry> {
    map k | k in sessions && now - sessions[k].lastUsed <= POOL_IDLE_TTL_MS :: sessions[k]
  }

  datatype Found = Miss | Trusted(conn: Conn) | Unverified(conn: Conn)

  /** Evicts every idle entry, touches the entry of `key`, and says whether it must be probed. */
  function Lookup(p: Pool, key: Key, now: nat): (Pool, Found) {
    var swept := Sweep(p.sessions, now);
    if key !in swept then (p.(sessions := swept), Miss)
    else
      var e := swept[key];
      (p.(sessions := swept[key := e.(lastUsed := now)]),
       if now - e.lastVerified >= HEALTH_CHECK_IDLE_MS then Unverified(e.conn) else Trusted(e.conn))
  }

  function MarkVerified(p: Pool, key: Key, expected: Conn, now: nat): Pool {
    if key in p.sessions && p.sessions[key].conn == expected
    then p.(sessions := p.sessions[key := p.sessions[key].(lastVerified := now)]) else p
  }

  function RemoveIfSame(p: Pool, key: Key, expected: Conn): Pool {
    if key in p.sessions && p.sessions[key].conn == expected then p.(sessions := p.sessions - {key}) else p
  }

  function Invalidate(p: Pool, key: Key): Pool { p.(sessions := p.sessions - {key}) }

  /** The pooled connection wins over the new one. */
  function GetOrInsert(p: Pool, key: Key, conn: Conn, now: nat): (Pool, Conn) {
    var e := if key in p.sessions then p.sessions[key] else Entry(conn, now, now);
    (p.(sessions := p.sessions[key := e.(lastUsed := now)]), e.conn)
  }

  // ----------------------------------------------------------------- connect slots

  predicate Owns(p: Pool, key: Key, slot: SlotId) { key in p.inFlight && p.inFlight[key] == slot }

  function Release(p: Pool, key: Key, slot: SlotId): Pool {
    if Owns(p, key, slot) then p.(inFlight := p.inFlight - {key}) else p
  }

  function Resolve(p: Pool, slot: SlotId, state: SlotState): Pool
    requires slot < |p.slots|
  {
    p.(slots := p.slots[slot := state])
  }

  datatype Claim = Leader(slot: SlotId) | Follower(slot: SlotId)

  function BeginConnect(p: Pool, key: Key): (Pool, Claim) {
    if key in p.inFlight then (p, Follower(p.inFlight[key]))
    else (p.(inFlight := p.inFlight[key := |p.slots|], slots := p.slots + [Pending]), Leader(|p.slots|))
  }

  /** A displaced leader keeps its connection to itself. */
  function Publish(p: Pool, key: Key, result: Result, owns: bool, now: nat): (Pool, Result) {
    if owns && result.Connected? then
      var (q, c) := GetOrInsert(p, key, result.conn, now);
      (q, Connected(c))
    else (p, result)
  }

  function FinishRelease(p: Pool, key: Key, slot: SlotId, result: Result): Pool
    requires slot < |p.slots|
  {
    Release(Resolve(p, slot, StateOf(result)), key, slot)
  }

  function DropLeader(p: Pool, key: Key, slot: SlotId): Pool
    requires slot < |p.slots|
  {
    Release(if p.slots[slot].Pending? then Resolve(p, slot, Failed(LeaderAborted)) else p, key, slot)
  }

  // ------------------------------------------------------ what the operations come to

  /** A lookup keeps exactly the entries used in the last five minutes, changes no connection, sets the time
      of use of its own key only, and trusts what was verified in the last thirty seconds. */
  lemma LookupMeans(p: Pool, key: Key, now: nat, k: Key)
    ensures var (q, found) := Lookup(p, key, now);
            && q.inFlight == p.inFlight && q.slots == p.slots
            && (k in q.sessions <==> k in p.sessions && now <= p.sessions[k].lastUsed + 300_000)
            && (k in q.sessions ==>
                  && q.sessions[k].conn == p.sessions[k].conn && q.sessions[k].lastVerified == p.sessions[k].lastVerified
                  && q.sessions[k].lastUsed == if k == key then now else p.sessions[k].lastUsed)
            && (found.Miss? <==> key !in q.sessions)
            && (key in q.sessions ==>
                  found.conn == p.sessions[key].conn && (found.Trusted? <==> now < p.sessions[key].lastVerified + 30_000))
  {
  }

  /** A probe refreshes or drops the probed connection and no other, even under the same key. */
  lemma ProbeMeans(p: Pool, key: Key, probed: Conn, now: nat, k: Key)
    ensures var q := MarkVerified(p, key, probed, now);
            && q.sessions.Keys == p.sessions.Keys && q.inFlight == p.inFlight && q.slots == p.slots
            && (k in p.sessions ==>
                  && q.sessions[k].conn == p.sessions[k].conn && q.sessions[k].lastUsed == p.sessions[k].lastUsed
                  && q.sessions[k].lastVerified == if k == key && p.sessions[k].conn == probed then now else p.sessions[k].lastVerified)
    ensures var q := RemoveIfSame(p, key, probed);
            && q.inFlight == p.inFlight && q.slots == p.slots
            && (k in q.sessions <==> k in p.sessions && !(k == key && p.sessions[k].conn == probed))
            && (k in q.sessions ==> q.sessions[k] == p.sessions[k])
  {
  }

  /** A current leader's connection enters the pool unless one is pooled, which then wins; a displaced
      leader's, and any error, changes nothing. */
  lemma PublishMeans(p: Pool, key: Key, result: Result, owns: bool, now: nat, k: Key)
    ensures var (q, r) := Publish(p, key, result, owns, now);
            && q.inFlight == p.inFlight && q.slots == p.slots
            && (!owns || result.Refused? ==> q == p && r == result)
            && (owns && result.Connected? ==>
                  && key in q.sessions && r == Connected(q.sessions[key].conn) && q.sessions[key].lastUsed == now
                  && (key in p.sessions ==> q.sessions[key].conn == p.sessions[key].conn && q.sessions[key].lastVerified == p.sessions[key].lastVerified)
                  && (key !in p.sessions ==> q.sessions[key] == Entry(result.conn, now, now)))
            && (k != key ==> (k in q.sessions <==> k in p.sessions) && (k in p.sessions ==> q.sessions[k] == p.sessions[k]))
  {
  }

  /** Claiming makes one new pending slot for a free key and nothing for a claimed one. */
  lemma ClaimMeans(p: Pool, key: Key)
    ensures var (q, claim) := BeginConnect(p, key);
            && q.sessions == p.sessions
            && (key in p.inFlight ==> q == p && claim == Follower(p.inFlight[key]))
            && (key !in p.inFlight ==>
                  claim == Leader(|p.slots|) && q.slots == p.slots + [Pending] && q.inFlight == p.inFlight[key := |p.slots|])
  {
  }

  /** Finishing resolves the slot to the result, dropping a guard fails a slot that is still pending, and
      both free the key only while this slot holds it. */
  lemma FinishMeans(p: Pool, key: Key, slot: SlotId, result: Result, i: SlotId, k: Key)
    requires slot < |p.slots| && i < |p.slots|
    ensures var (q, d) := (FinishRelease(p, key, slot, result), DropLeader(p, key, slot));
            && q.sessions == p.sessions == d.sessions && |q.slots| == |p.slots| == |d.slots|
            && (i != slot ==> q.slots[i] == p.slots[i] == d.slots[i])
            && q.slots[slot] == (match result case Connected(c) => Ready(c) case Refused(e) => Failed(e))
            && d.slots[slot] == (if p.slots[slot].Pending? then Failed(LeaderAborted) else p.slots[slot])
            && q.inFlight == d.inFlight
            && (k in q.inFlight <==> k in p.inFlight && !(k == key && p.inFlight[k] == slot))
            && (k in q.inFlight ==> q.inFlight[k] == p.inFlight[k])
  {
  }

  // ------------------------------------------------------------------- the class

  class SftpPool {
    var sessions: map<Key, Entry>
    var inFlight: map<Key, SlotId>
    var slots: seq<SlotState>

    function Value(): Pool
      reads this
    {
      Pool(sessions, inFlight, slots)
    }

    constructor ()
      ensures Value() == Pool(map[], map[], [])
    {
      sessions, inFlight, slots := map[], map[], [];
    }

    /** The part of `get_with_abort` under the sessions lock: a sweep that removes idle entries one by
        one, then the lookup. */
    method LookUp(key: Key, now: nat) returns (found: Found)
      modifies this`sessions
      ensures (Value(), found) == Lookup(old(Value()), key, now)
    {
      var expired := set k | k in sessions && now - sessions[k].lastUsed > POOL_IDLE_TTL_MS;
      while expired != {}
        invariant expired == set k | k in sessions && now - sessions[k].lastUsed > POOL_IDLE_TTL_MS
        invariant Sweep(sessions, now) == Sweep(old(sessions), now)
        decreases expired
      {
        var k :| k in expired;
        sessions := sessions - {k};
        expired := expired - {k};
      }
      forall k | k in sessions ensures now - sessions[k].lastUsed <= POOL_IDLE_TTL_MS { assert k !in expired; }
      assert sessions == Sweep(sessions, now);
      if key !in sessions {
        return Miss;
      }
      var e := sessions[key];
      sessions := sessions[key := e.(lastUsed := now)];
      found := if now - e.lastVerified >= HEALTH_CHECK_IDLE_MS then Unverified(e.conn) else Trusted(e.conn);
    }

    /** The part of `get_with_abort` after an inconclusive lookup. */
    method SettleProbe(key: Key, conn: Conn, healthy: bool, now: nat) returns (hit: bool)
      modifies this`sessions
      ensures hit == healthy
      ensures Value() == if healthy then MarkVerified(old(Value()), key, conn, now) else RemoveIfSame(old(Value()), key, conn)
    {
      if key in sessions && sessions[key].conn == conn {
        if healthy {
          sessions := sessions[key := sessions[key].(lastVerified := now)];
        } else {
          sessions := sessions - {key};
        }
      }
      hit := healthy;
    }

    method BeginConnection(key: Key) returns (claim: Claim)
      modifies this`inFlight, this`slots
      ensures (Value(), claim) == BeginConnect(old(Value()), key)
    {
      if key in inFlight {
        return Follower(inFlight[key]);
      }
      claim := Leader(|slots|);
      inFlight, slots := inFlight[key := |slots|], slots + [Pending];
    }

    /** Publishes to the pool if this generation is current, then resolves the slot, then frees the
        key: followers and new callers never see both maps empty in between. */
    method FinishConnect(key: Key, slot: SlotId, result: Result, now: nat) returns (published: Result)
      requires slot < |slots|
      modifies this
      ensures var (p, r) := Publish(old(Value()), key, result, Owns(old(Value()), key, slot), now);
              published == r && Value() == FinishRelease(p, key, slot, r)
    {
      var owns := key in inFlight && inFlight[key] == slot;
      published := result;
      if owns && result.Connected? {
        if key !in sessions {
          sessions := sessions[key := Entry(result.conn, now, now)];
        }
        sessions := sessions[key := sessions[key].(lastUsed := now)];
        published := Connected(sessions[key].conn);
      }
      slots := slots[slot := StateOf(published)];
      if owns {
        inFlight := inFlight - {key};
      }
    }

    /** Dropping the leader's guard. */
    method DropGuard(key: Key, slot: SlotId)
      requires slot < |slots|
      modifies this`inFlight, this`slots
      ensures Value() == DropLeader(old(Value()), key, slot)
    {
      if slots[slot].Pending? {
        slots := slots[slot := Failed(LeaderAborted)];
      }
      if key in inFlight && inFlight[key] == slot {
        inFlight := inFlight - {key};
      }
    }

    /** A follower that timed out frees the key if its slot still holds it. */
    method ReleaseTimedOut(key: Key, slot: SlotId)
      modifies this`inFlight
      ensures Value() == Release(old(Value()), key, slot)
    {
      if key in inFlight && inFlight[key] == slot {
        inFlight := inFlight - {key};
      }
    }
  }

  // --------------------------------------------------------------- a follower's wait

  /** What a follower sees each time it holds the slot's lock. */
  datatype Poll = Poll(aborted: bool, state: SlotState, elapsedMs: nat)

  datatype WaitEnd = Outcome(result: Result) | TimedOut | StillWaiting

  predicate Undecided(p: Poll) { !p.aborted && p.state.Pending? && p.elapsedMs < CONNECT_WAIT_TIMEOUT_MS }

  /** The wait loop ends at the first poll that decides: the caller's own abort first, then the
      slot's outcome, then the deadline. */
  method WaitConnect(polls: seq<Poll>) returns (end: WaitEnd)
    ensures end.StillWaiting? <==> forall k | 0 <= k < |polls| :: Undecided(polls[k])
    ensures forall k | 0 <= k < |polls| && !Undecided(polls[k]) && (forall j | 0 <= j < k :: Undecided(polls[j])) ::
              && (polls[k].aborted ==> end == Outcome(Refused(LookupAborted)))
              && (!polls[k].aborted && !polls[k].state.Pending? ==> end.Outcome? && StateOf(end.result) == polls[k].state)
              && (!polls[k].aborted && polls[k].state.Pending? ==> end == TimedOut && polls[k].elapsedMs >= 60_000)
    ensures end.StillWaiting? ==> forall k | 0 <= k < |polls| :: polls[k].elapsedMs < 60_000
  {
    for i := 0 to |polls|
      invariant forall k | 0 <= k < i :: Undecided(polls[k])
    {
      if polls[i].aborted { return Outcome(Refused(LookupAborted)); }
      match polls[i].state {
        case Pending => if polls[i].elapsedMs >= CONNECT_WAIT_TIMEOUT_MS { return TimedOut; }
        case Ready(conn) => return Outcome(Connected(conn));
        case Failed(error) => return Outcome(Refused(error));
      }
    }
    end := StillWaiting;
  }
}
