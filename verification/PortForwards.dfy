/** The manager of port-forward operations: registration, cancellation, the updates each operation's
    worker makes, and pruning of the history. */
module PortForwards {
  import opened Common

  type OpId = nat

  const HISTORY_LIMIT := 200

  datatype Status = Starting | Running | Stopping | Stopped | Failed

  predicate IsActive(s: Status) { s.Starting? || s.Running? || s.Stopping? }

  datatype Runtime = Runtime(
    profile: nat,
    config: nat,
    status: Status,
    startedAt: Option<nat>,
    stoppedAt: Option<nat>,
    bytesSent: nat,
    bytesReceived: nat,
    lastError: Option<nat>)

  /** `serial` tells apart operations registered one after the other under one id. */
  datatype Operation = Operation(cancel: bool, runtime: Runtime, serial: nat)

  type Table = map<OpId, Operation>

  datatype RegisterError = AlreadyExists | AlreadyActive

  predicate Competes(o: Operation, profile: nat, config: nat) {
    IsActive(o.runtime.status) && o.runtime.profile == profile && o.runtime.config == config
  }

  predicate MayRegister(t: Table, id: OpId, profile: nat, config: nat) {
    id !in t && forall k | k in t :: !Competes(t[k], profile, config)
  }

  function Fresh(profile: nat, config: nat, serial: nat): Operation {
    Operation(false, Runtime(profile, config, Starting, None, None, 0, 0, None), serial)
  }

  function CancelOne(o: Operation): Operation {
    Operation(true, if IsActive(o.runtime.status) then o.runtime.(status := Stopping) else o.runtime, o.serial)
  }

  function CancelAll(t: Table): Table {
    map k | k in t :: if IsActive(t[k].runtime.status) then CancelOne(t[k]) else t[k]
  }

  function StoppedAt(o: Operation): nat { if o.runtime.stoppedAt.Some? then o.runtime.stoppedAt.value else 0 }

  function ActiveIds(t: Table): set<OpId> { set k | k in t && IsActive(t[k].runtime.status) }

  /** What pruning may leave: everything when there is room; otherwise exactly as many entries as fit,
      or all active ones if those alone exceed the limit, and of the finished ones the latest. */
  predicate PrunedTo(t: Table, after: Table) {
    && (forall k | k in after :: k in t && after[k] == t[k])
    && (|t| <= HISTORY_LIMIT ==> after == t)
    && ActiveIds(t) <= after.Keys
    && (|t| > HISTORY_LIMIT ==>
          && |after| == (if |ActiveIds(t)| > HISTORY_LIMIT then |ActiveIds(t)| else HISTORY_LIMIT)
          && forall gone, kept | gone in t && gone !in after && kept in after && !IsActive(t[kept].runtime.status) ::
                StoppedAt(t[gone]) <= StoppedAt(t[kept]))
  }

  /** Pruning removes nothing up to 200 entries and beyond that as many finished ones as it takes, or all of
      them; those removed stopped no later than those that stay. */
  lemma PrunedMeans(t: Table, after: Table, gone: OpId, kept: OpId)
    requires PrunedTo(t, after)
    ensures |t| <= 200 ==> after == t
    ensures |t| > 200 ==> |after| == if |ActiveIds(t)| > 200 then |ActiveIds(t)| else 200
    ensures kept in after ==> kept in t && after[kept] == t[kept]
    ensures gone in t && gone !in after ==> t[gone].runtime.status in {Stopped, Failed}
    ensures gone in t && gone !in after && kept in after && after[kept].runtime.status in {Stopped, Failed} ==>
              var (early, late) := (t[gone].runtime.stoppedAt, after[kept].runtime.stoppedAt);
              early.Some? && early.value > 0 ==> late.Some? && early.value <= late.value
  {
    if gone in t && gone !in after { assert gone !in ActiveIds(t); }
  }

  // ------------------------------------------------------------------- the class

  class PortForwardManager {
    var operations: Table
    var nextSerial: nat

    constructor ()
      ensures operations == map[] && nextSerial == 0
    {
      operations, nextSerial := map[], 0;
    }

    method Register(id: OpId, profile: nat, config: nat) returns (error: Option<RegisterError>)
      modifies this
      ensures error.None? <==> MayRegister(old(operations), id, profile, config)
      ensures error == Some(AlreadyExists) <==> id in old(operations)
      ensures error == Some(AlreadyActive) <==>
                && id !in old(operations)
                && exists k | k in old(operations) ::
                     && old(operations)[k].runtime.status in {Starting, Running, Stopping}
                     && old(operations)[k].runtime.profile == profile && old(operations)[k].runtime.config == config
      ensures operations == if error.None? then old(operations)[id := Fresh(profile, config, old(nextSerial))] else old(operations)
      ensures nextSerial == old(nextSerial) + if error.None? then 1 else 0
    {
      if id in operations { return Some(AlreadyExists); }
      var ids := operations.Keys;
      while ids != {}
        invariant ids <= operations.Keys
        invariant forall k | k in operations.Keys - ids :: !Competes(operations[k], profile, config)
        decreases ids
      {
        var k :| k in ids;
        if Competes(operations[k], profile, config) { return Some(AlreadyActive); }
        ids := ids - {k};
      }
      operations, nextSerial := operations[id := Fresh(profile, config, nextSerial)], nextSerial + 1;
      error := None;
    }

    method Cancel(id: OpId) returns (runtime: Option<Runtime>)
      modifies this`operations
      ensures runtime.Some? <==> id in old(operations)
      ensures operations == if id in old(operations) then old(operations)[id := CancelOne(old(operations)[id])] else old(operations)
      ensures runtime.Some? ==> runtime.value == operations[id].runtime
    {
      if id !in operations { return None; }
      var o := operations[id];
      o := o.(cancel := true);
      if IsActive(o.runtime.status) {
        o := o.(runtime := o.runtime.(status := Stopping));
      }
      operations := operations[id := o];
      runtime := Some(o.runtime);
    }

    method CancelEvery() returns (changed: set<OpId>)
      modifies this`operations
      ensures operations == CancelAll(old(operations))
      ensures changed == ActiveIds(old(operations))
    {
      changed := {};
      var ids := operations.Keys;
      while ids != {}
        invariant ids <= operations.Keys == old(operations).Keys
        invariant forall k | k in ids :: operations[k] == old(operations)[k]
        invariant forall k | k in operations.Keys - ids :: operations[k] == CancelAll(old(operations))[k]
        invariant changed == ActiveIds(old(operations)) - ids
        decreases ids
      {
        var k :| k in ids;
        ids := ids - {k};
        var o := operations[k];
        if IsActive(o.runtime.status) {
          operations := operations[k := Operation(true, o.runtime.(status := Stopping), o.serial)];
          changed := changed + {k};
        }
      }
    }

    /** Replaces one operation's runtime under the lock. */
    method Update(id: OpId, runtime: Runtime) returns (found: bool)
      modifies this`operations
      ensures found <==> id in old(operations)
      ensures operations == if found then old(operations)[id := old(operations)[id].(runtime := runtime)] else old(operations)
    {
      found := id in operations;
      if found {
        operations := operations[id := operations[id].(runtime := runtime)];
      }
    }

    method PruneFinished()
      modifies this`operations
      ensures PrunedTo(old(operations), operations)
    {
      if |operations| <= HISTORY_LIMIT { return; }
      hide PrunedTo, OldestFirst, Prefix;
      ghost var before := operations;
      var finished := FinishedByAge(operations);
      var excess := |operations| - HISTORY_LIMIT;
      var n := if excess <= |finished| then excess else |finished|;
      Remove(finished, n);
      PruneIsRight(before, finished, n, operations);
    }

    /** Removes the first `n` of the finished operations. */
    method Remove(finished: seq<OpId>, n: nat)
      requires OldestFirst(operations, finished) && n <= |finished|
      modifies this`operations
      ensures operations == old(operations) - Prefix(finished, n)
      ensures |operations| == |old(operations)| - n
    {
      hide OldestFirst, Prefix;
      NothingDropped(operations, finished);
      for i := 0 to n
        invariant operations == old(operations) - Prefix(finished, i)
        invariant |operations| == |old(operations)| - i
      {
        DropNext(old(operations), finished, i);
        operations := operations - {finished[i]};
      }
    }
  }

  lemma NothingDropped(t: Table, finished: seq<OpId>)
    ensures t == t - Prefix(finished, 0)
  {
  }

  lemma DropNext(t: Table, finished: seq<OpId>, i: nat)
    requires OldestFirst(t, finished) && i < |finished|
    ensures var u := t - Prefix(finished, i);
            && u - {finished[i]} == t - Prefix(finished, i + 1)
            && |u - {finished[i]}| == |u| - 1
  {
    PrefixStep(finished, i);
    RemoveOne(t - Prefix(finished, i), finished[i]);
  }

  predicate OldestFirst(t: Table, ids: seq<OpId>) {
    && (forall i | 0 <= i < |ids| :: ids[i] in t && !IsActive(t[ids[i]].runtime.status))
    && (forall i, j | 0 <= i < j < |ids| :: ids[i] != ids[j] && StoppedAt(t[ids[i]]) <= StoppedAt(t[ids[j]]))
  }

  /** Stable sort of the finished operations by the time they stopped. */
  method FinishedByAge(t: Table) returns (ids: seq<OpId>)
    ensures OldestFirst(t, ids)
    ensures forall k | k in t && !IsActive(t[k].runtime.status) :: k in ids
  {
    ids := [];
    var unseen := t.Keys;
    while unseen != {}
      invariant unseen <= t.Keys && OldestFirst(t, ids)
      invariant forall k | k in t.Keys - unseen && !IsActive(t[k].runtime.status) :: k in ids
      invariant forall k | k in ids :: k !in unseen
      decreases unseen
    {
      var k :| k in unseen;
      unseen := unseen - {k};
      if !IsActive(t[k].runtime.status) {
        var i := |ids|;
        while i > 0 && StoppedAt(t[ids[i - 1]]) > StoppedAt(t[k])
          invariant 0 <= i <= |ids|
          invariant i < |ids| ==> StoppedAt(t[ids[i]]) > StoppedAt(t[k])
        {
          i := i - 1;
        }
        InsertKeepsOrder(t, ids, i, k);
        InsertMembers(ids, i, k);
        ids := ids[..i] + [k] + ids[i..];
      }
    }
  }

  lemma InsertKeepsOrder(t: Table, ids: seq<OpId>, i: nat, k: OpId)
    requires OldestFirst(t, ids) && i <= |ids| && k in t && !IsActive(t[k].runtime.status) && k !in ids
    requires i > 0 ==> StoppedAt(t[ids[i - 1]]) <= StoppedAt(t[k])
    requires i < |ids| ==> StoppedAt(t[k]) < StoppedAt(t[ids[i]])
    ensures OldestFirst(t, ids[..i] + [k] + ids[i..])
  {
    var r := ids[..i] + [k] + ids[i..];
    FrontAndBack(t, ids, i, k);
    forall a, b | 0 <= a < b < |r| ensures r[a] != r[b] && StoppedAt(t[r[a]]) <= StoppedAt(t[r[b]]) {
      assert r[a] == Inserted(ids, i, k, a) && r[b] == Inserted(ids, i, k, b);
    }
    forall a | 0 <= a < |r| ensures r[a] in t && !IsActive(t[r[a]].runtime.status) {
      assert r[a] == Inserted(ids, i, k, a);
    }
  }

  lemma InsertMembers(ids: seq<OpId>, i: nat, k: OpId)
    requires i <= |ids|
    ensures forall x :: x in ids[..i] + [k] + ids[i..] <==> x == k || x in ids
  {
    assert ids == ids[..i] + ids[i..];
  }

  function Inserted(ids: seq<OpId>, i: nat, k: OpId, a: nat): OpId
    requires i <= |ids| && a <= |ids|
  {
    if a < i then ids[a] else if a == i then k else ids[a - 1]
  }

  lemma FrontAndBack(t: Table, ids: seq<OpId>, i: nat, k: OpId)
    requires OldestFirst(t, ids) && i <= |ids| && k in t
    requires i > 0 ==> StoppedAt(t[ids[i - 1]]) <= StoppedAt(t[k])
    requires i < |ids| ==> StoppedAt(t[k]) < StoppedAt(t[ids[i]])
    ensures forall a | 0 <= a < i :: StoppedAt(t[ids[a]]) <= StoppedAt(t[k])
    ensures forall a | i <= a < |ids| :: StoppedAt(t[k]) <= StoppedAt(t[ids[a]])
  {
  }

  function Prefix(ids: seq<OpId>, n: nat): set<OpId>
    requires n <= |ids|
  {
    set i | 0 <= i < n :: ids[i]
  }

  lemma PrefixStep(ids: seq<OpId>, n: nat)
    requires n < |ids|
    requires forall i, j | 0 <= i < j < |ids| :: ids[i] != ids[j]
    ensures Prefix(ids, n + 1) == Prefix(ids, n) + {ids[n]} && ids[n] !in Prefix(ids, n)
  {
  }

  lemma RemoveOne(t: Table, k: OpId)
    requires k in t
    ensures |t - {k}| == |t| - 1
  {
    assert (t - {k}).Keys == t.Keys - {k};
    assert |t.Keys| == |t| && |(t - {k}).Keys| == |t - {k}|;
  }

  lemma PruneIsRight(t: Table, finished: seq<OpId>, n: nat, after: Table)
    requires OldestFirst(t, finished) && forall k | k in t && !IsActive(t[k].runtime.status) :: k in finished
    requires |t| > HISTORY_LIMIT && n <= |finished| && after == t - Prefix(finished, n) && |after| == |t| - n
    requires n == |t| - HISTORY_LIMIT || (n == |finished| && n < |t| - HISTORY_LIMIT)
    ensures PrunedTo(t, after)
  {
    forall k | k in ActiveIds(t) ensures k in after {}
    var active := ActiveIds(t);
    assert |active| <= |after.Keys| && |after.Keys| == |after| by { SubsetSize(active, after.Keys); }
    if n == |finished| {
      forall k | k in finished ensures k in Prefix(finished, n) {
        var i :| 0 <= i < |finished| && finished[i] == k;
      }
      assert after.Keys == active;
    }
    forall gone, kept | gone in t && gone !in after && kept in after && !IsActive(t[kept].runtime.status)
      ensures StoppedAt(t[gone]) <= StoppedAt(t[kept])
    {
      var i :| 0 <= i < n && finished[i] == gone;
      var j :| 0 <= j < |finished| && finished[j] == kept;
      assert j >= n;
    }
  }

  // ----------------------------------------------- the manager and its workers

  /** How far the worker of an operation has come. It reports ready once, before serving; it fails
      only while connecting and stops only when it sees the cancel flag. */
  datatype Phase = Connecting | Serving | Ended

  datatype Sys = Sys(table: Table, phases: map<OpId, Phase>, nextSerial: nat)

  datatype Step =
    | DoRegister(id: OpId, profile: nat, config: nat)
    | DoCancel(id: OpId)
    | DoCancelAll
    | ReportReady(id: OpId, now: nat)
    | ReportBytes(id: OpId, sent: nat, received: nat)
    | ReportError(id: OpId, error: nat)
    | EndStopped(id: OpId, now: nat, sent: nat, received: nat)
    | EndFailed(id: OpId, now: nat, sent: nat, received: nat, error: nat)
    | Prune(after: Table)

  predicate Enabled(s: Sys, step: Step) {
    match step
    case DoRegister(_, _, _) => true
    case DoCancel(_) => true
    case DoCancelAll => true
    case ReportReady(id, _) => id in s.phases && s.phases[id].Connecting?
    case ReportBytes(id, _, _) => id in s.phases && s.phases[id].Serving?
    case ReportError(id, _) => id in s.phases && s.phases[id].Serving?
    case EndStopped(id, _, _, _) => id in s.phases && s.phases[id].Serving? && id in s.table && s.table[id].cancel
    case EndFailed(id, _, _, _, _) => id in s.phases && s.phases[id].Connecting?
    case Prune(after) => PrunedTo(s.table, after)
  }

  function WithRuntime(t: Table, id: OpId, f: Runtime): Table {
    if id in t then t[id := t[id].(runtime := f)] else t
  }

  function RuntimeOf(t: Table, id: OpId): Runtime {
    if id in t then t[id].runtime else Fresh(0, 0, 0).runtime
  }

  function Next(s: Sys, step: Step): Sys
    requires Enabled(s, step)
  {
    match step
    case DoRegister(id, profile, config) =>
      if MayRegister(s.table, id, profile, config)
      then Sys(s.table[id := Fresh(profile, config, s.nextSerial)], s.phases[id := Connecting], s.nextSerial + 1)
      else s
    case DoCancel(id) => if id in s.table then s.(table := s.table[id := CancelOne(s.table[id])]) else s
    case DoCancelAll => s.(table := CancelAll(s.table))
    case ReportReady(id, now) =>
      s.(table := WithRuntime(s.table, id, RuntimeOf(s.table, id).(status := Running, startedAt := Some(now))),
         phases := s.phases[id := Serving])
    case ReportBytes(id, sent, received) =>
      s.(table := WithRuntime(s.table, id, RuntimeOf(s.table, id).(bytesSent := sent, bytesReceived := received)))
    case ReportError(id, error) =>
      s.(table := WithRuntime(s.table, id, RuntimeOf(s.table, id).(lastError := Some(error))))
    case EndStopped(id, now, sent, received) =>
      s.(table := WithRuntime(s.table, id, RuntimeOf(s.table, id).(
           status := Stopped, stoppedAt := Some(now), bytesSent := sent, bytesReceived := received)),
         phases := s.phases[id := Ended])
    case EndFailed(id, now, sent, received, error) =>
      s.(table := WithRuntime(s.table, id, RuntimeOf(s.table, id).(
           status := Failed, stoppedAt := Some(now), bytesSent := sent, bytesReceived := received, lastError := Some(error))),
         phases := s.phases[id := Ended])
    case Prune(after) => s.(table := after, phases := map k | k in s.phases && k in after :: s.phases[k])
  }

  const Initial := Sys(map[], map[], 0)

  predicate Feasible(s: Sys, steps: seq<Step>)
    decreases |steps|
  {
    steps == [] || (Enabled(s, steps[0]) && Feasible(Next(s, steps[0]), steps[1..]))
  }

  function After(s: Sys, steps: seq<Step>): Sys
    requires Feasible(s, steps)
    decreases |steps|
  {
    if steps == [] then s else After(Next(s, steps[0]), steps[1..])
  }

  /** A run goes on with exactly the steps that are enabled after it. */
  lemma {:induction false} RunsExtend(s: Sys, steps: seq<Step>, step: Step)
    ensures Feasible(s, steps + [step]) <==> Feasible(s, steps) && Enabled(After(s, steps), step)
    ensures Feasible(s, steps + [step]) ==> After(s, steps + [step]) == Next(After(s, steps), step)
    decreases |steps|
  {
    hide Next, Enabled;
    if steps == [] {
      assert [step][1..] == [];
    } else {
      assert (steps + [step])[0] == steps[0] && (steps + [step])[1..] == steps[1..] + [step];
      if Enabled(s, steps[0]) { RunsExtend(Next(s, steps[0]), steps[1..], step); }
    }
  }

  /** Status, phase and cancel flag of one operation fit together. */
  predicate OpOk(s: Sys, id: OpId)
    requires id in s.table
  {
    var o := s.table[id];
    && id in s.phases && o.serial < s.nextSerial
    && (match s.phases[id]
        case Connecting => o.runtime.status.Starting? || o.runtime.status.Stopping?
        case Serving => o.runtime.status.Running? || o.runtime.status.Stopping?
        case Ended => o.runtime.status.Stopped? || o.runtime.status.Failed?)
    && (o.runtime.status.Stopping? || o.runtime.status.Stopped? ==> o.cancel)
  }

  predicate Exclusive(t: Table) {
    forall a, b | a in t && b in t && a != b && IsActive(t[a].runtime.status) :: !Competes(t[b], t[a].runtime.profile, t[a].runtime.config)
  }

  predicate Inv(s: Sys) {
    s.phases.Keys <= s.table.Keys && (forall id | id in s.table :: OpOk(s, id)) && Exclusive(s.table)
  }

  /** A step that changes no operation's rule and revives none keeps rules exclusive. */
  lemma ExclusiveStep(t: Table, u: Table)
    requires Exclusive(t)
    requires forall k | k in u && IsActive(u[k].runtime.status) ::
               k in t && IsActive(t[k].runtime.status) && t[k].runtime.profile == u[k].runtime.profile && t[k].runtime.config == u[k].runtime.config
    ensures Exclusive(u)
  {
    forall a, b | a in u && b in u && a != b && IsActive(u[a].runtime.status)
      ensures !Competes(u[b], u[a].runtime.profile, u[a].runtime.config)
    {
      if IsActive(u[b].runtime.status) { assert !Competes(t[b], t[a].runtime.profile, t[a].runtime.config); }
    }
  }

  lemma NextInv(s: Sys, step: Step)
    requires Inv(s) && Enabled(s, step)
    ensures Inv(Next(s, step))
  {
    var s' := Next(s, step);
    forall id | id in s'.table ensures OpOk(s', id) {
      if id in s.table { assert OpOk(s, id); }
    }
    if step.DoRegister? {
      RegisterExclusive(s.table, step.id, step.profile, step.config, s.nextSerial);
    } else {
      forall k | k in s'.table && IsActive(s'.table[k].runtime.status)
        ensures k in s.table && IsActive(s.table[k].runtime.status)
        ensures s.table[k].runtime.profile == s'.table[k].runtime.profile && s.table[k].runtime.config == s'.table[k].runtime.config
      {
        assert OpOk(s, k);
      }
      ExclusiveStep(s.table, s'.table);
    }
  }

  lemma RegisterExclusive(t: Table, id: OpId, profile: nat, config: nat, serial: nat)
    requires Exclusive(t)
    ensures MayRegister(t, id, profile, config) ==> Exclusive(t[id := Fresh(profile, config, serial)])
  {
    var u := t[id := Fresh(profile, config, serial)];
    if MayRegister(t, id, profile, config) {
      forall a, b | a in u && b in u && a != b && IsActive(u[a].runtime.status)
        ensures !Competes(u[b], u[a].runtime.profile, u[a].runtime.config)
      {
        if a == id { assert !Competes(t[b], profile, config); }
        else if b == id { assert !Competes(t[a], profile, config); }
        else { assert !Competes(t[b], t[a].runtime.profile, t[a].runtime.config); }
      }
    }
  }

  lemma {:induction false} RunInv(s: Sys, steps: seq<Step>)
    requires Inv(s) && Feasible(s, steps)
    ensures Inv(After(s, steps))
    decreases |steps|
  {
    if steps != [] {
      NextInv(s, steps[0]);
      RunInv(Next(s, steps[0]), steps[1..]);
    }
  }

  /** Whatever is registered, cancelled, updated and pruned in whatever order: no rule of a profile has
      two active operations, and an operation that is stopping or stopped has its flag set. */
  lemma OneActivePerRule(steps: seq<Step>, a: OpId, b: OpId)
    requires Feasible(Initial, steps)
    requires var t := After(Initial, steps).table;
             && a in t && b in t && IsActive(t[a].runtime.status) && IsActive(t[b].runtime.status)
             && t[a].runtime.profile == t[b].runtime.profile && t[a].runtime.config == t[b].runtime.config
    ensures a == b
    ensures After(Initial, steps).table[a].runtime.status.Stopping? ==> After(Initial, steps).table[a].cancel
  {
    RunInv(Initial, steps);
    var e := After(Initial, steps);
    assert OpOk(e, a);
    assert Competes(e.table[b], e.table[a].runtime.profile, e.table[a].runtime.config);
  }

  /** The same registration, still in the table. */
  predicate SameOperation(s: Sys, e: Sys, id: OpId) {
    id in s.table && id in e.table && s.table[id].serial == e.table[id].serial
  }

  lemma NextSame(s: Sys, step: Step, id: OpId)
    requires Inv(s) && Enabled(s, step) && SameOperation(s, Next(s, step), id)
    ensures s.table[id].cancel ==> Next(s, step).table[id].cancel
    ensures !IsActive(s.table[id].runtime.status) ==> Next(s, step).table[id].runtime == s.table[id].runtime
  {
    assert OpOk(s, id);
  }

  /** Serials only grow, so an id that left the table comes back as another operation. */
  lemma {:induction false} GoneStaysGone(s: Sys, steps: seq<Step>, id: OpId, serial: nat)
    requires Inv(s) && Feasible(s, steps) && serial < s.nextSerial
    requires id in s.table ==> s.table[id].serial != serial
    ensures id in After(s, steps).table ==> After(s, steps).table[id].serial != serial
    decreases |steps|
  {
    if steps != [] {
      NextInv(s, steps[0]);
      GoneStaysGone(Next(s, steps[0]), steps[1..], id, serial);
    }
  }

  /** Over any run: a set cancel flag never clears, and an operation that has stopped or failed never
      becomes active again nor changes in any other way, until it is pruned. */
  lemma {:induction false} FinishedForGood(s: Sys, steps: seq<Step>, id: OpId)
    requires Inv(s) && Feasible(s, steps) && SameOperation(s, After(s, steps), id)
    ensures s.table[id].cancel ==> After(s, steps).table[id].cancel
    ensures !IsActive(s.table[id].runtime.status) ==> After(s, steps).table[id].runtime == s.table[id].runtime
    decreases |steps|
  {
    if steps != [] {
      var n := Next(s, steps[0]);
      assert OpOk(s, id);
      NextInv(s, steps[0]);
      if SameOperation(s, n, id) {
        NextSame(s, steps[0], id);
        FinishedForGood(n, steps[1..], id);
      } else {
        GoneStaysGone(n, steps[1..], id, s.table[id].serial);
      }
    }
  }

  /** A cancelled operation that reports ready late goes back to running, but keeps its flag. */
  lemma LateReadyKeepsFlag(s: Sys, id: OpId, now: nat)
    requires Inv(s) && Enabled(s, ReportReady(id, now)) && s.table[id].runtime.status.Stopping?
    ensures var o := Next(s, ReportReady(id, now)).table[id]; o.runtime.status.Running? && o.cancel
  {
    assert OpOk(s, id);
  }

  // ------------------------------------------------------------- what each step does

  /** Cancelling sets the flag; an active operation becomes stopping and a finished one
      stays as it is. */
  lemma CancelMeans(o: Operation)
    ensures var c := CancelOne(o);
            && c.cancel && c.serial == o.serial
            && (o.runtime.status in {Starting, Running, Stopping} ==> c.runtime == o.runtime.(status := Stopping))
            && (o.runtime.status in {Stopped, Failed} ==> c.runtime == o.runtime)
  {
  }

  /** Cancelling all does this to the active operations and nothing to the others. */
  lemma CancelAllMeans(t: Table, k: OpId)
    ensures k in CancelAll(t) <==> k in t
    ensures k in t && t[k].runtime.status in {Starting, Running, Stopping} ==>
              CancelAll(t)[k] == Operation(true, t[k].runtime.(status := Stopping), t[k].serial)
    ensures k in t && t[k].runtime.status in {Stopped, Failed} ==> CancelAll(t)[k] == t[k]
  {
  }

  /** What a step does to the operation `id`: a worker's updates set exactly their own fields, and a step
      about another operation leaves it alone. */
  lemma StepMeans(s: Sys, step: Step, id: OpId)
    requires Inv(s) && Enabled(s, step) && id in s.table
    ensures var (o, t) := (s.table[id], Next(s, step).table);
            && (!step.Prune? ==> id in t && t[id].serial == o.serial)
            && (step == DoCancel(id) ==> t[id] == CancelOne(o))
            && (step.ReportReady? && step.id == id ==> t[id] == o.(runtime := o.runtime.(status := Running, startedAt := Some(step.now))))
            && (step.ReportBytes? && step.id == id ==>
                  t[id] == o.(runtime := o.runtime.(bytesSent := step.sent, bytesReceived := step.received)))
            && (step.ReportError? && step.id == id ==> t[id] == o.(runtime := o.runtime.(lastError := Some(step.error))))
            && (step.EndStopped? && step.id == id ==>
                  && o.cancel && t[id].runtime.status == Stopped && t[id].runtime.stoppedAt == Some(step.now)
                  && t[id].runtime.bytesSent == step.sent && t[id].runtime.bytesReceived == step.received)
            && (step.EndFailed? && step.id == id ==>
                  && t[id].runtime.status == Failed && t[id].runtime.stoppedAt == Some(step.now) && t[id].runtime.lastError == Some(step.error)
                  && t[id].runtime.bytesSent == step.sent && t[id].runtime.bytesReceived == step.received)
            && (!step.DoCancelAll? && !step.Prune? && step.id != id ==> t[id] == o)
  {
    assert OpOk(s, id);
  }

  /** A new operation starts out uncancelled, for its rule, with nothing transferred. */
  lemma RegisteredMeans(s: Sys, id: OpId, profile: nat, config: nat)
    requires MayRegister(s.table, id, profile, config)
    ensures var q := Next(s, DoRegister(id, profile, config));
            && id in q.table && !q.table[id].cancel && q.phases[id] == Connecting
            && q.table[id].runtime == Runtime(profile, config, Starting, None, None, 0, 0, None)
            && forall k | k in s.table :: k in q.table && q.table[k] == s.table[k]
  {
  }
}
