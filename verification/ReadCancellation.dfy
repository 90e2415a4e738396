/** Cancellation of one-shot remote reads, where a cancel may arrive before the read is registered or
    after it has finished. A bounded set of tombstones remembers both. */
module ReadCancellation {
  type OpId = nat

  const TOMBSTONE_LIMIT := 1024
  const U64_MAX := 0xFFFF_FFFF_FFFF_FFFF

  datatype Kind = PendingCancel | Completed
  datatype Tombstone = Tombstone(kind: Kind, generation: nat)

  /** `flags[f]` is the cancellation flag numbered `f`. */
  datatype State = State(
    active: map<OpId, nat>,
    tombstones: map<OpId, Tombstone>,
    order: seq<(OpId, nat)>,
    nextGeneration: nat,
    flags: seq<bool>)

  const Empty := State(map[], map[], [], 0, [])

  /** `wrapping_add(1).max(1)` on 64 bits: zero is never a generation. */
  function NextGeneration(g: nat): nat { if g >= U64_MAX then 1 else g + 1 }

  /** Forgets the oldest order entry, and its tombstone unless that one has been renewed since. */
  function Evict(s: State): State
    requires s.order != []
  {
    var (id, g) := s.order[0];
    s.(order := s.order[1..],
       tombstones := if id in s.tombstones && s.tombstones[id].generation == g then s.tombstones - {id} else s.tombstones)
  }

  function EvictAll(s: State): State
    decreases |s.order|
  {
    if |s.order| > TOMBSTONE_LIMIT then EvictAll(Evict(s)) else s
  }

  function Push(s: State, id: OpId, kind: Kind): State {
    var g := NextGeneration(s.nextGeneration);
    s.(nextGeneration := g, tombstones := s.tombstones[id := Tombstone(kind, g)], order := s.order + [(id, g)])
  }

  function Remember(s: State, id: OpId, kind: Kind): State { EvictAll(Push(s, id, kind)) }

  function SetFlag(flags: seq<bool>, f: nat): seq<bool> { if f < |flags| then flags[f := true] else flags }

  /** The new flag starts cancelled if a cancel was waiting; a duplicate registration cancels its
      predecessor. */
  function Register(s: State, id: OpId): (State, nat) {
    var cancelled := id in s.tombstones && s.tombstones[id].kind.PendingCancel?;
    var flags := if id in s.active then SetFlag(s.flags, s.active[id]) else s.flags;
    (s.(tombstones := s.tombstones - {id}, active := s.active[id := |s.flags|], flags := flags + [cancelled]), |s.flags|)
  }

  function Cancel(s: State, id: OpId): State {
    if id in s.active then s.(flags := SetFlag(s.flags, s.active[id]))
    else if id in s.tombstones then s
    else Remember(s, id, PendingCancel)
  }

  function Remove(s: State, id: OpId, flag: nat): State {
    if id !in s.active || s.active[id] != flag then s
    else
      var r := s.(active := s.active - {id});
      if id in r.tombstones && r.tombstones[id].kind.Completed? then r else Remember(r, id, Completed)
  }

  // ------------------------------------------------------------------- the class

  class Registry {
    var active: map<OpId, nat>
    var tombstones: map<OpId, Tombstone>
    var order: seq<(OpId, nat)>
    var nextGeneration: nat
    var flags: seq<bool>

    function Value(): State
      reads this
    {
      State(active, tombstones, order, nextGeneration, flags)
    }

    constructor ()
      ensures Value() == Empty
    {
      active, tombstones, order, nextGeneration, flags := map[], map[], [], 0, [];
    }

    method RememberTombstone(id: OpId, kind: Kind)
      modifies this`tombstones, this`order, this`nextGeneration
      ensures Value() == Remember(old(Value()), id, kind)
    {
      nextGeneration := NextGeneration(nextGeneration);
      tombstones := tombstones[id := Tombstone(kind, nextGeneration)];
      order := order + [(id, nextGeneration)];
      while |order| > TOMBSTONE_LIMIT
        invariant EvictAll(Value()) == Remember(old(Value()), id, kind)
        decreases |order|
      {
        var (oldId, oldGeneration) := order[0];
        order := order[1..];
        if oldId in tombstones && tombstones[oldId].generation == oldGeneration {
          tombstones := tombstones - {oldId};
        }
      }
    }

    method RegisterRead(id: OpId) returns (flag: nat)
      requires forall k | k in active :: active[k] < |flags|
      modifies this
      ensures (Value(), flag) == Register(old(Value()), id)
    {
      var cancelled := id in tombstones && tombstones[id].kind.PendingCancel?;
      tombstones := tombstones - {id};
      flag := |flags|;
      if id in active {
        flags := flags[active[id] := true];
      }
      active := active[id := flag];
      flags := flags + [cancelled];
    }

    method CancelRead(id: OpId)
      requires forall k | k in active :: active[k] < |flags|
      modifies this
      ensures Value() == Cancel(old(Value()), id)
    {
      if id in active {
        flags := flags[active[id] := true];
        return;
      }
      if id in tombstones { return; }
      RememberTombstone(id, PendingCancel);
    }

    method RemoveRead(id: OpId, flag: nat)
      modifies this
      ensures Value() == Remove(old(Value()), id, flag)
    {
      if id !in active || active[id] != flag { return; }
      active := active - {id};
      if !(id in tombstones && tombstones[id].kind.Completed?) {
        RememberTombstone(id, Completed);
      }
    }
  }

  // -------------------------------------------------------------------- all runs

  datatype Op = DoRegister(id: OpId) | DoCancel(id: OpId) | DoRemove(id: OpId, flag: nat)

  function Apply(s: State, op: Op): State {
    match op
    case DoRegister(id) => Register(s, id).0
    case DoCancel(id) => Cancel(s, id)
    case DoRemove(id, flag) => Remove(s, id, flag)
  }

  /** The tombstones `op` makes. */
  function PushesOf(s: State, op: Op): nat {
    match op
    case DoRegister(_) => 0
    case DoCancel(id) => if id in s.active || id in s.tombstones then 0 else 1
    case DoRemove(id, flag) =>
      if id in s.active && s.active[id] == flag && !(id in s.tombstones && s.tombstones[id].kind.Completed?) then 1 else 0
  }

  function ApplyAll(s: State, ops: seq<Op>): State
    decreases |ops|
  {
    if ops == [] then s else ApplyAll(Apply(s, ops[0]), ops[1..])
  }

  function Pushes(s: State, ops: seq<Op>): nat
    decreases |ops|
  {
    if ops == [] then 0 else PushesOf(s, ops[0]) + Pushes(Apply(s, ops[0]), ops[1..])
  }

  /** The generation of the `j`-th tombstone, counting from zero: 1, 2, ..., 2^64 - 1, 1, 2, ... */
  function GenerationAt(j: nat): nat { j % U64_MAX + 1 }

  lemma GenerationStep(j: nat)
    ensures NextGeneration(GenerationAt(j)) == GenerationAt(j + 1)
  {
  }

  /** Generations less than 2^64 - 1 apart are different, wrap-around or not. */
  lemma GenerationsDiffer(i: nat, j: nat)
    requires i < j < i + U64_MAX
    ensures GenerationAt(i) != GenerationAt(j)
  {
  }

  predicate InOrder(s: State, id: OpId, from: nat)
    requires id in s.tombstones
  {
    exists i | from <= i < |s.order| :: s.order[i] == (id, s.tombstones[id].generation)
  }

  /** After `n` tombstones: the queue holds the last ones, in order, at most `limit` of them. */
  predicate QueueOk(s: State, n: nat, limit: nat) {
    && |s.order| == (if n <= limit then n else limit)
    && (forall i | 0 <= i < |s.order| :: s.order[i].1 == GenerationAt(n - |s.order| + i))
    && s.nextGeneration == (if n == 0 then 0 else GenerationAt(n - 1))
    && (forall id | id in s.tombstones :: InOrder(s, id, 0))
  }

  predicate Inv(s: State, n: nat) {
    && QueueOk(s, n, TOMBSTONE_LIMIT)
    && s.active.Keys !! s.tombstones.Keys
    && (forall id | id in s.active :: s.active[id] < |s.flags|)
    && (forall id, k | id in s.active && k in s.active && s.active[id] == s.active[k] :: id == k)
  }

  lemma PushQueue(s: State, n: nat, id: OpId, kind: Kind)
    requires QueueOk(s, n, TOMBSTONE_LIMIT)
    ensures var p := Push(s, id, kind);
            && |p.order| == |s.order| + 1
            && (forall i | 0 <= i < |p.order| :: p.order[i].1 == GenerationAt(n - |s.order| + i))
            && p.nextGeneration == GenerationAt(n)
            && (forall k | k in p.tombstones :: InOrder(p, k, 0))
  {
    var p := Push(s, id, kind);
    if n > 0 { GenerationStep(n - 1); }
    forall k | k in p.tombstones ensures InOrder(p, k, 0) {
      if k == id {
        assert p.order[|s.order|] == (id, p.tombstones[id].generation);
      } else {
        assert InOrder(s, k, 0);
        var i :| 0 <= i < |s.order| && s.order[i] == (k, s.tombstones[k].generation);
        assert p.order[i] == (k, p.tombstones[k].generation);
      }
    }
  }

  /** Evicting the oldest entry removes exactly the tombstone it stands for. */
  lemma EvictQueue(p: State, n: nat)
    requires n > TOMBSTONE_LIMIT && |p.order| == TOMBSTONE_LIMIT + 1
    requires forall i | 0 <= i < |p.order| :: p.order[i].1 == GenerationAt(n - |p.order| + i)
    requires forall k | k in p.tombstones :: InOrder(p, k, 0)
    ensures forall i | 0 <= i < |p.order| - 1 :: Evict(p).order[i].1 == GenerationAt(n - (|p.order| - 1) + i)
    ensures forall k | k in Evict(p).tombstones :: InOrder(Evict(p), k, 0)
  {
    var e := Evict(p);
    forall k | k in e.tombstones ensures InOrder(e, k, 0) {
      assert InOrder(p, k, 0);
      var i :| 0 <= i < |p.order| && p.order[i] == (k, p.tombstones[k].generation);
      assert i > 0;
      assert e.order[i - 1] == (k, e.tombstones[k].generation);
    }
  }

  lemma EvictOnce(p: State)
    ensures |p.order| == TOMBSTONE_LIMIT + 1 ==> EvictAll(p) == Evict(p)
    ensures |p.order| <= TOMBSTONE_LIMIT ==> EvictAll(p) == p
  {
    if |p.order| == TOMBSTONE_LIMIT + 1 { assert EvictAll(Evict(p)) == Evict(p); }
  }

  lemma RememberQueue(s: State, n: nat, id: OpId, kind: Kind)
    requires QueueOk(s, n, TOMBSTONE_LIMIT)
    ensures QueueOk(Remember(s, id, kind), n + 1, TOMBSTONE_LIMIT)
    ensures Remember(s, id, kind).tombstones.Keys <= s.tombstones.Keys + {id}
    ensures Remember(s, id, kind).active == s.active && Remember(s, id, kind).flags == s.flags
  {
    PushQueue(s, n, id, kind);
    var p := Push(s, id, kind);
    EvictOnce(p);
    if |p.order| > TOMBSTONE_LIMIT {
      EvictQueue(p, n + 1);
    }
  }

  /** Registering only takes a tombstone away. */
  lemma RegisterInv(s: State, n: nat, id: OpId)
    requires Inv(s, n)
    ensures Inv(Register(s, id).0, n)
  {
    hide GenerationAt;
    var r := Register(s, id).0;
    forall k | k in r.tombstones ensures InOrder(r, k, 0) {
      assert InOrder(s, k, 0);
      var i :| 0 <= i < |s.order| && s.order[i] == (k, s.tombstones[k].generation);
      assert r.order[i] == (k, r.tombstones[k].generation);
    }
  }

  /** Ending a registration does not concern the queue. */
  lemma WithoutActive(s: State, n: nat, id: OpId)
    requires QueueOk(s, n, TOMBSTONE_LIMIT)
    ensures QueueOk(s.(active := s.active - {id}), n, TOMBSTONE_LIMIT)
  {
    assert forall x | x in s.tombstones :: InOrder(s, x, 0) ==> InOrder(s.(active := s.active - {id}), x, 0);
  }

  lemma ApplyInv(s: State, n: nat, op: Op)
    requires Inv(s, n)
    ensures Inv(Apply(s, op), n + PushesOf(s, op))
  {
    hide GenerationAt, Remember;
    match op
    case DoRegister(id) => RegisterInv(s, n, id);
    case DoCancel(id) =>
      if id in s.active {
        var r := Cancel(s, id);
        assert forall k | k in s.tombstones :: InOrder(s, k, 0) ==> InOrder(r, k, 0);
      } else if id !in s.tombstones {
        RememberQueue(s, n, id, PendingCancel);
      }
    case DoRemove(id, flag) =>
      if id in s.active && s.active[id] == flag {
        var r := s.(active := s.active - {id});
        WithoutActive(s, n, id);
        RememberQueue(r, n, id, Completed);
      }
  }

  lemma {:induction false} RunInv(s: State, n: nat, ops: seq<Op>)
    requires Inv(s, n)
    ensures Inv(ApplyAll(s, ops), n + Pushes(s, ops))
    decreases |ops|
  {
    if ops != [] {
      ApplyInv(s, n, ops[0]);
      RunInv(Apply(s, ops[0]), n + PushesOf(s, ops[0]), ops[1..]);
    }
  }

  /** In every reachable state no operation is both active and tombstoned, every tombstone is in the
      queue under its own generation, and both are bounded. */
  lemma ReachableStates(ops: seq<Op>)
    ensures var s := ApplyAll(Empty, ops);
            && s.active.Keys !! s.tombstones.Keys
            && (forall id | id in s.tombstones :: InOrder(s, id, 0))
            && |s.order| <= 1024 && |s.tombstones| <= 1024
  {
    RunInv(Empty, 0, ops);
    var s := ApplyAll(Empty, ops);
    forall id | id in s.tombstones ensures id in Ids(s.order) {
      assert InOrder(s, id, 0);
      var i :| 0 <= i < |s.order| && s.order[i] == (id, s.tombstones[id].generation);
      IdsHas(s.order, i);
    }
    IdsSize(s.order, s.tombstones.Keys);
    assert |s.tombstones| == |s.tombstones.Keys|;
  }

  function Ids(order: seq<(OpId, nat)>): set<OpId> {
    if order == [] then {} else {order[0].0} + Ids(order[1..])
  }

  lemma {:induction false} IdsHas(order: seq<(OpId, nat)>, i: nat)
    requires i < |order|
    ensures order[i].0 in Ids(order)
  {
    if i > 0 { IdsHas(order[1..], i - 1); }
  }

  lemma {:induction false} IdsSize(order: seq<(OpId, nat)>, ids: set<OpId>)
    requires ids <= Ids(order)
    ensures |ids| <= |order|
  {
    if order == [] {
      assert ids == {};
    } else {
      IdsSize(order[1..], ids - {order[0].0});
      assert |ids| <= |ids - {order[0].0}| + 1 by {
        if order[0].0 in ids { assert ids == (ids - {order[0].0}) + {order[0].0}; } else { assert ids - {order[0].0} == ids; }
      }
    }
  }

  // --------------------------------------------------- a cancel before registration

  /** The tombstone of `id` is the `p`-th one ever made. */
  predicate TombstoneIs(s: State, id: OpId, kind: Kind, p: nat) {
    id !in s.active && id in s.tombstones && s.tombstones[id] == Tombstone(kind, GenerationAt(p))
  }

  predicate NoTrace(s: State, id: OpId) { id !in s.active && id !in s.tombstones }

  /** Of a queue of consecutive generations, evicting the front removes the `p`-th tombstone exactly
      when it is the front. */
  lemma EvictFront(q: State, oldest: nat, id: OpId, mine: Kind, p: nat)
    requires 0 < |q.order| < U64_MAX && oldest <= p < oldest + |q.order|
    requires forall i | 0 <= i < |q.order| :: q.order[i].1 == GenerationAt(oldest + i)
    requires id in q.tombstones && q.tombstones[id] == Tombstone(mine, GenerationAt(p)) && InOrder(q, id, 0)
    ensures if p == oldest then id !in Evict(q).tombstones
            else id in Evict(q).tombstones && Evict(q).tombstones[id] == q.tombstones[id]
  {
    hide GenerationAt;
    var i :| 0 <= i < |q.order| && q.order[i] == (id, q.tombstones[id].generation);
    if p < oldest + i { GenerationsDiffer(p, oldest + i); }
    if oldest + i < p { GenerationsDiffer(oldest + i, p); }
    assert i == p - oldest;
    if p != oldest { GenerationsDiffer(oldest, p); }
  }

  lemma RememberOther(s: State, n: nat, other: OpId, kind: Kind, id: OpId, mine: Kind, p: nat)
    requires QueueOk(s, n, TOMBSTONE_LIMIT) && other != id && p < n
    requires n - p <= TOMBSTONE_LIMIT
    requires id in s.tombstones && s.tombstones[id] == Tombstone(mine, GenerationAt(p))
    ensures var r := Remember(s, other, kind);
            if n + 1 - p <= TOMBSTONE_LIMIT then id in r.tombstones && r.tombstones[id] == Tombstone(mine, GenerationAt(p))
            else id !in r.tombstones
  {
    hide GenerationAt, InOrder;
    PushQueue(s, n, other, kind);
    var q := Push(s, other, kind);
    EvictOnce(q);
    if |q.order| > TOMBSTONE_LIMIT {
      EvictFront(q, n - |s.order|, id, mine, p);
    }
  }

  lemma ApplyKeeps(s: State, n: nat, op: Op, id: OpId, kind: Kind, p: nat)
    requires Inv(s, n) && TombstoneIs(s, id, kind, p) && p < n && n - p <= TOMBSTONE_LIMIT
    requires op != DoRegister(id)
    ensures n + PushesOf(s, op) - p <= TOMBSTONE_LIMIT ==> TombstoneIs(Apply(s, op), id, kind, p)
    ensures n + PushesOf(s, op) - p > TOMBSTONE_LIMIT ==> NoTrace(Apply(s, op), id)
  {
    hide GenerationAt, Remember, QueueOk;
    if PushesOf(s, op) == 1 {
      var r := if op.DoRemove? then s.(active := s.active - {op.id}) else s;
      var k := if op.DoRemove? then Completed else PendingCancel;
      assert op.id != id && Apply(s, op) == Remember(r, op.id, k);
      WithoutActive(s, n, op.id);
      RememberOther(r, n, op.id, k, id, kind, p);
      RememberQueue(r, n, op.id, k);
    }
  }

  /** Fewer than 1024 tombstones later, whatever else happened, the tombstone is still there. */
  lemma {:induction false} TombstoneSurvives(s: State, n: nat, ops: seq<Op>, id: OpId, kind: Kind, p: nat)
    requires Inv(s, n) && TombstoneIs(s, id, kind, p) && p < n
    requires DoRegister(id) !in ops
    requires n + Pushes(s, ops) - p <= TOMBSTONE_LIMIT
    ensures TombstoneIs(ApplyAll(s, ops), id, kind, p)
    decreases |ops|
  {
    if ops != [] {
      ApplyKeeps(s, n, ops[0], id, kind, p);
      ApplyInv(s, n, ops[0]);
      TombstoneSurvives(Apply(s, ops[0]), n + PushesOf(s, ops[0]), ops[1..], id, kind, p);
    }
  }

  lemma {:induction false} NoTraceStays(s: State, n: nat, ops: seq<Op>, id: OpId)
    requires Inv(s, n) && NoTrace(s, id)
    requires DoRegister(id) !in ops && DoCancel(id) !in ops
    ensures NoTrace(ApplyAll(s, ops), id)
    decreases |ops|
  {
    if ops != [] {
      assert ops[0] in ops;
      ApplyInv(s, n, ops[0]);
      if PushesOf(s, ops[0]) == 1 {
        var r := if ops[0].DoRemove? then s.(active := s.active - {ops[0].id}) else s;
        assert forall x | x in s.tombstones :: InOrder(s, x, 0) ==> InOrder(r, x, 0);
        RememberQueue(r, n, ops[0].id, if ops[0].DoRemove? then Completed else PendingCancel);
      }
      NoTraceStays(Apply(s, ops[0]), n + PushesOf(s, ops[0]), ops[1..], id);
    }
  }

  /** 1024 tombstones later it is gone without a trace, unless the operation was cancelled again. */
  lemma {:induction false} TombstoneForgotten(s: State, n: nat, ops: seq<Op>, id: OpId, kind: Kind, p: nat)
    requires Inv(s, n) && TombstoneIs(s, id, kind, p) && p < n && n - p <= TOMBSTONE_LIMIT
    requires DoRegister(id) !in ops && DoCancel(id) !in ops
    requires n + Pushes(s, ops) - p > TOMBSTONE_LIMIT
    ensures NoTrace(ApplyAll(s, ops), id)
    decreases |ops|
  {
    if ops != [] {
      assert ops[0] in ops;
      var m := n + PushesOf(s, ops[0]);
      ApplyKeeps(s, n, ops[0], id, kind, p);
      ApplyInv(s, n, ops[0]);
      if m - p <= TOMBSTONE_LIMIT {
        TombstoneForgotten(Apply(s, ops[0]), m, ops[1..], id, kind, p);
      } else {
        NoTraceStays(Apply(s, ops[0]), m, ops[1..], id);
      }
    }
  }

  /** A cancel that arrives before its registration is observed by it exactly when fewer than 1024
      tombstones were made in between. */
  lemma EarlyCancelObservedIff(before: seq<Op>, ops: seq<Op>, id: OpId)
    requires NoTrace(ApplyAll(Empty, before), id)
    requires DoRegister(id) !in ops && DoCancel(id) !in ops
    ensures var s := Cancel(ApplyAll(Empty, before), id);
            var (r, flag) := Register(ApplyAll(s, ops), id);
            flag < |r.flags| && (r.flags[flag] <==> Pushes(s, ops) < 1024)
  {
    var b, n := ApplyAll(Empty, before), Pushes(Empty, before);
    RunInv(Empty, 0, before);
    var s := Cancel(b, id);
    ApplyInv(b, n, DoCancel(id));
    CancelPushes(b, n, id);
    if Pushes(s, ops) < TOMBSTONE_LIMIT {
      TombstoneSurvives(s, n + 1, ops, id, PendingCancel, n);
    } else {
      TombstoneForgotten(s, n + 1, ops, id, PendingCancel, n);
    }
  }

  /** A new tombstone is not evicted by its own arrival. */
  lemma RememberedItself(s: State, n: nat, id: OpId, kind: Kind)
    requires QueueOk(s, n, TOMBSTONE_LIMIT)
    ensures id in Remember(s, id, kind).tombstones && Remember(s, id, kind).tombstones[id] == Tombstone(kind, GenerationAt(n))
  {
    PushQueue(s, n, id, kind);
    var p := Push(s, id, kind);
    EvictOnce(p);
    if |p.order| > TOMBSTONE_LIMIT {
      GenerationsDiffer(n + 1 - |p.order|, n);
    }
  }

  lemma CancelPushes(s: State, n: nat, id: OpId)
    requires Inv(s, n) && NoTrace(s, id)
    ensures TombstoneIs(Cancel(s, id), id, PendingCancel, n)
  {
    RememberedItself(s, n, id, PendingCancel);
    RememberQueue(s, n, id, PendingCancel);
  }

  /** A cancel that comes after the read has finished is not carried over to a later read of the same
      name while the tombstone lasts. */
  lemma LateCancelNotCarriedOver(s: State, n: nat, ops: seq<Op>, id: OpId, p: nat)
    requires Inv(s, n) && TombstoneIs(s, id, Completed, p) && p < n
    requires DoRegister(id) !in ops && n + Pushes(s, ops) - p <= TOMBSTONE_LIMIT
    ensures var (r, flag) := Register(ApplyAll(s, ops), id); flag < |r.flags| && !r.flags[flag]
  {
    TombstoneSurvives(s, n, ops, id, Completed, p);
  }

  // ---------------------------------------------------------------- registrations

  lemma {:induction false} StaleStaysStale(s: State, n: nat, ops: seq<Op>, id: OpId, flag: nat)
    requires Inv(s, n) && flag < |s.flags| && !(id in s.active && s.active[id] == flag)
    ensures var e := ApplyAll(s, ops); flag < |e.flags| && !(id in e.active && e.active[id] == flag)
    decreases |ops|
  {
    if ops != [] {
      ApplyInv(s, n, ops[0]);
      RememberKeepsActive(s, ops[0]);
      StaleStaysStale(Apply(s, ops[0]), n + PushesOf(s, ops[0]), ops[1..], id, flag);
    }
  }

  lemma {:induction false} EvictKeepsActive(s: State)
    ensures EvictAll(s).active == s.active && EvictAll(s).flags == s.flags
    decreases |s.order|
  {
    if |s.order| > TOMBSTONE_LIMIT { EvictKeepsActive(Evict(s)); }
  }

  lemma RememberKeepsActive(s: State, op: Op)
    ensures op.DoCancel? ==> Apply(s, op).active == s.active && |Apply(s, op).flags| == |s.flags|
    ensures op.DoRemove? ==> Apply(s, op).active == (if op.id in s.active && s.active[op.id] == op.flag then s.active - {op.id} else s.active)
    ensures op.DoRemove? ==> Apply(s, op).flags == s.flags
  {
    EvictKeepsActive(Push(s, op.id, PendingCancel));
    EvictKeepsActive(Push(s.(active := s.active - {op.id}), op.id, Completed));
  }

  /** Removing a registration that is no longer the current one, after any run, changes nothing: the
      newer registration of the same name is safe from it. */
  lemma StaleRemoveIsIgnored(s: State, n: nat, ops: seq<Op>, id: OpId, flag: nat)
    requires Inv(s, n) && flag < |s.flags| && !(id in s.active && s.active[id] == flag)
    ensures Remove(ApplyAll(s, ops), id, flag) == ApplyAll(s, ops)
  {
    StaleStaysStale(s, n, ops, id, flag);
  }

  // ------------------------------------------------------------- what each call does

  /** A registration gets a new flag, set exactly if a cancel was waiting; it takes the tombstone away and
      cancels the registration it replaces, and no other. */
  lemma RegisterMeans(s: State, n: nat, id: OpId, k: OpId, f: nat)
    requires Inv(s, n) && f < |s.flags|
    ensures var (q, flag) := Register(s, id);
            && flag == |s.flags| && |q.flags| == |s.flags| + 1
            && (q.flags[flag] <==> id in s.tombstones && s.tombstones[id].kind.PendingCancel?)
            && id in q.active && q.active[id] == flag && id !in q.tombstones
            && q.flags[f] == (s.flags[f] || (id in s.active && s.active[id] == f))
            && (k != id ==>
                  && (k in q.active <==> k in s.active) && (k in s.active ==> q.active[k] == s.active[k])
                  && (k in q.tombstones <==> k in s.tombstones) && (k in s.tombstones ==> q.tombstones[k] == s.tombstones[k]))
  {
  }

  /** Cancelling a read that is active sets its flag and changes nothing else. */
  lemma CancelMeans(s: State, n: nat, id: OpId, f: nat)
    requires Inv(s, n) && id in s.active && f < |s.flags|
    ensures var q := Cancel(s, id);
            && |q.flags| == |s.flags| && q.flags[f] == (s.flags[f] || s.active[id] == f)
            && q.active == s.active && q.tombstones == s.tombstones && q.order == s.order && q.nextGeneration == s.nextGeneration
  {
  }

  /** Removing the current registration ends it and leaves a completed tombstone. */
  lemma RemoveMeans(s: State, n: nat, id: OpId, flag: nat)
    requires Inv(s, n) && id in s.active && s.active[id] == flag
    ensures TombstoneIs(Remove(s, id, flag), id, Completed, n) && Remove(s, id, flag).active == s.active - {id}
    ensures Remove(s, id, flag).flags == s.flags && PushesOf(s, DoRemove(id, flag)) == 1
  {
    var r := s.(active := s.active - {id});
    WithoutActive(s, n, id);
    RememberedItself(r, n, id, Completed);
    RememberQueue(r, n, id, Completed);
  }

  /** A flag is set only by a cancel of the registration that has it, or by its replacement. */
  lemma SetOnlyByCancel(s: State, n: nat, op: Op, f: nat)
    requires Inv(s, n) && f < |s.flags|
    ensures f < |Apply(s, op).flags|
    ensures Apply(s, op).flags[f] <==>
              s.flags[f] || ((op.DoCancel? || op.DoRegister?) && op.id in s.active && s.active[op.id] == f)
  {
    RememberKeepsFlags(s, op);
  }

  lemma RememberKeepsFlags(s: State, op: Op)
    ensures op.DoCancel? && op.id !in s.active ==> Apply(s, op).flags == s.flags
    ensures op.DoRemove? ==> Apply(s, op).flags == s.flags
  {
    EvictKeepsActive(Push(s, op.id, PendingCancel));
    EvictKeepsActive(Push(s.(active := s.active - {op.id}), op.id, Completed));
  }

  /** Once cancelled, a read stays cancelled. */
  lemma {:induction false} CancelledForGood(s: State, n: nat, ops: seq<Op>, f: nat)
    requires Inv(s, n) && f < |s.flags| && s.flags[f]
    ensures f < |ApplyAll(s, ops).flags| && ApplyAll(s, ops).flags[f]
    decreases |ops|
  {
    if ops != [] {
      SetOnlyByCancel(s, n, ops[0], f);
      ApplyInv(s, n, ops[0]);
      CancelledForGood(Apply(s, ops[0]), n + PushesOf(s, ops[0]), ops[1..], f);
    }
  }

  /** A cancel of an active read is seen by it in every later state. */
  lemma ActiveCancelObserved(s: State, n: nat, id: OpId, ops: seq<Op>)
    requires Inv(s, n) && id in s.active
    ensures var e := ApplyAll(Cancel(s, id), ops); s.active[id] < |e.flags| && e.flags[s.active[id]]
  {
    CancelMeans(s, n, id, s.active[id]);
    ApplyInv(s, n, DoCancel(id));
    CancelledForGood(Cancel(s, id), n + PushesOf(s, DoCancel(id)), ops, s.active[id]);
  }

  /** A read that has finished: whatever cancels of it come in late, the next read of the same name starts
      uncancelled, as long as fewer than 1024 tombstones were made in between. */
  lemma FinishedReadIgnoresLateCancel(s: State, n: nat, id: OpId, flag: nat, ops: seq<Op>)
    requires Inv(s, n) && id in s.active && s.active[id] == flag
    requires DoRegister(id) !in ops && Pushes(Remove(s, id, flag), ops) < 1024
    ensures var (q, next) := Register(ApplyAll(Remove(s, id, flag), ops), id); next < |q.flags| && !q.flags[next]
  {
    RemoveMeans(s, n, id, flag);
    ApplyInv(s, n, DoRemove(id, flag));
    LateCancelNotCarriedOver(Remove(s, id, flag), n + 1, ops, id, n);
  }
}
