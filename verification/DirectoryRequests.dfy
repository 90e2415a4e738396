/** The registry that lets the newest directory request of each view win. A flag is shared between
    the table and the requests that hold a clone of it; flags are numbered, and `holders` counts the
    clones outside the table. */
module DirectoryRequests {
  import opened Common
  import opened Utf8

  const MAX_KEY_BYTES := 256
  const MAX_KEYS := 1024
  const RETENTION_MS := 30 * 60 * 1000

  /** `key` and `requestId` say which request the flag was created for. */
  datatype Flag = Flag(key: Bytes, requestId: nat, superseded: bool, holders: nat)

  datatype Generation = Generation(requestId: nat, flag: nat, lastRegisteredAt: nat)

  datatype Registry = Registry(generations: map<Bytes, Generation>, flags: seq<Flag>)

  datatype Error = InvalidKey | InvalidId | RegistryFull
  datatype Outcome = Granted(flag: nat) | Rejected(error: Error)

  function SaturatingAge(now: nat, then_: nat): nat { if now >= then_ then now - then_ else 0 }

  /** An entry may be forgotten when it is old and nobody holds its flag. */
  predicate Reclaimable(r: Registry, g: Generation, now: nat) {
    SaturatingAge(now, g.lastRegisteredAt) >= RETENTION_MS && g.flag < |r.flags| && r.flags[g.flag].holders == 0
  }

  function Reclaim(r: Registry, now: nat): map<Bytes, Generation> {
    map k | k in r.generations && !Reclaimable(r, r.generations[k], now) :: r.generations[k]
  }

  function Grant(r: Registry, key: Bytes, requestId: nat, now: nat): (Registry, Outcome) {
    (Registry(r.generations[key := Generation(requestId, |r.flags|, now)], r.flags + [Flag(key, requestId, false, 1)]),
     Granted(|r.flags|))
  }

  function Supersede(flags: seq<Flag>, f: nat): seq<Flag> {
    if f < |flags| then flags[f := flags[f].(superseded := true)] else flags
  }

  function Hold(flags: seq<Flag>, f: nat): seq<Flag> {
    if f < |flags| then flags[f := flags[f].(holders := flags[f].holders + 1)] else flags
  }

  function Register(r: Registry, key: Bytes, requestId: nat, now: nat): (Registry, Outcome) {
    if key == [] || |key| > MAX_KEY_BYTES then (r, Rejected(InvalidKey))
    else if requestId == 0 then (r, Rejected(InvalidId))
    else if key in r.generations then
      var g := r.generations[key];
      if requestId < g.requestId then
        (r.(flags := r.flags + [Flag(key, requestId, true, 1)]), Granted(|r.flags|))
      else if requestId == g.requestId then
        (Registry(r.generations[key := g.(lastRegisteredAt := now)], Hold(r.flags, g.flag)), Granted(g.flag))
      else Grant(r.(flags := Supersede(r.flags, g.flag)), key, requestId, now)
    else
      var q := r.(generations := Reclaim(r, now));
      if |q.generations| >= MAX_KEYS then (q, Rejected(RegistryFull)) else Grant(q, key, requestId, now)
  }

  /** A holder drops its clone. */
  function Release(r: Registry, f: nat): Registry {
    if f < |r.flags| && r.flags[f].holders > 0
    then r.(flags := r.flags[f := r.flags[f].(holders := r.flags[f].holders - 1)]) else r
  }

  // ------------------------------------------------------------------- the class

  class DirectoryRequestRegistry {
    var generations: map<Bytes, Generation>
    var flags: seq<Flag>

    function Value(): Registry
      reads this
    {
      Registry(generations, flags)
    }

    constructor ()
      ensures Value() == Registry(map[], [])
    {
      generations, flags := map[], [];
    }

    method RegisterAt(key: Bytes, requestId: nat, now: nat) returns (outcome: Outcome)
      requires forall k | k in generations :: generations[k].flag < |flags|
      modifies this
      ensures (Value(), outcome) == Register(old(Value()), key, requestId, now)
    {
      if key == [] || |key| > MAX_KEY_BYTES { return Rejected(InvalidKey); }
      if requestId == 0 { return Rejected(InvalidId); }
      if key in generations {
        var current := generations[key];
        if requestId < current.requestId {
          outcome := Granted(|flags|);
          flags := flags + [Flag(key, requestId, true, 1)];
          return;
        }
        if requestId == current.requestId {
          generations := generations[key := current.(lastRegisteredAt := now)];
          flags := flags[current.flag := flags[current.flag].(holders := flags[current.flag].holders + 1)];
          return Granted(current.flag);
        }
        flags := flags[current.flag := flags[current.flag].(superseded := true)];
      } else {
        ReclaimExpired(now);
        if |generations| >= MAX_KEYS { return Rejected(RegistryFull); }
      }
      outcome := Granted(|flags|);
      generations := generations[key := Generation(requestId, |flags|, now)];
      flags := flags + [Flag(key, requestId, false, 1)];
    }

    method ReclaimExpired(now: nat)
      modifies this`generations
      ensures generations == Reclaim(old(Value()), now)
    {
      var unseen := generations.Keys;
      while unseen != {}
        invariant unseen <= generations.Keys
        invariant forall k | k in generations.Keys - unseen :: !Reclaimable(Value(), generations[k], now)
        invariant generations.Keys <= old(generations).Keys
        invariant forall k | k in old(generations) ::
                    if k in generations then generations[k] == old(generations)[k] else Reclaimable(Value(), old(generations)[k], now)
        decreases unseen
      {
        var k :| k in unseen;
        unseen := unseen - {k};
        if Reclaimable(Value(), generations[k], now) {
          generations := generations - {k};
        }
      }
    }
  }

  // -------------------------------------------------------------------- all runs

  datatype Op = DoRegister(key: Bytes, requestId: nat, now: nat) | DoRelease(flag: nat)

  function Apply(r: Registry, op: Op): Registry {
    match op
    case DoRegister(key, requestId, now) => Register(r, key, requestId, now).0
    case DoRelease(flag) => Release(r, flag)
  }

  function ApplyAll(r: Registry, ops: seq<Op>): Registry
    decreases |ops|
  {
    if ops == [] then r else ApplyAll(Apply(r, ops[0]), ops[1..])
  }

  const Empty := Registry(map[], [])

  predicate EntryOk(r: Registry, k: Bytes)
    requires k in r.generations
  {
    var g := r.generations[k];
    g.flag < |r.flags| && r.flags[g.flag].key == k && r.flags[g.flag].requestId == g.requestId && !r.flags[g.flag].superseded
  }

  /** A live flag somebody holds is its key's entry. */
  predicate FlagOk(r: Registry, f: nat)
    requires f < |r.flags|
  {
    var x := r.flags[f];
    !x.superseded && x.holders > 0 ==> x.key in r.generations && r.generations[x.key].flag == f
  }

  predicate Inv(r: Registry) {
    && (forall k | k in r.generations :: EntryOk(r, k))
    && (forall f | 0 <= f < |r.flags| :: FlagOk(r, f))
    && |r.generations| <= MAX_KEYS
  }

  /** Reclaiming forgets no entry whose flag is held. */
  lemma ReclaimInv(r: Registry, now: nat)
    requires Inv(r)
    ensures Inv(r.(generations := Reclaim(r, now)))
  {
    var q := r.(generations := Reclaim(r, now));
    forall f | 0 <= f < |r.flags| ensures FlagOk(q, f) {
      assert FlagOk(r, f);
    }
    forall k | k in q.generations ensures EntryOk(q, k) {
      assert EntryOk(r, k);
    }
    SubmapSize(q.generations, r.generations);
  }

  lemma SubmapSize(a: map<Bytes, Generation>, b: map<Bytes, Generation>)
    requires a.Keys <= b.Keys
    ensures |a| <= |b|
  {
    SubsetSize(a.Keys, b.Keys);
    assert |a| == |a.Keys| && |b| == |b.Keys|;
  }

  lemma GrantInv(r: Registry, key: Bytes, requestId: nat, now: nat)
    requires forall k | k in r.generations && k != key :: EntryOk(r, k)
    requires forall f | 0 <= f < |r.flags| && r.flags[f].key != key :: FlagOk(r, f)
    requires forall f | 0 <= f < |r.flags| && r.flags[f].key == key :: r.flags[f].superseded || r.flags[f].holders == 0
    requires |r.generations| < MAX_KEYS || (key in r.generations && |r.generations| <= MAX_KEYS)
    ensures Inv(Grant(r, key, requestId, now).0)
  {
    var q := Grant(r, key, requestId, now).0;
    forall k | k in q.generations ensures EntryOk(q, k) {
      if k != key { assert EntryOk(r, k); }
    }
    forall f | 0 <= f < |q.flags| ensures FlagOk(q, f) {
      if f < |r.flags| && r.flags[f].key != key { assert FlagOk(r, f); }
    }
    assert q.generations.Keys == r.generations.Keys + {key};
  }

  lemma ApplyInv(r: Registry, op: Op)
    requires Inv(r)
    ensures Inv(Apply(r, op))
  {
    match op
    case DoRelease(f) =>
      var q := Release(r, f);
      forall k | k in q.generations ensures EntryOk(q, k) { assert EntryOk(r, k); }
      forall i | 0 <= i < |q.flags| ensures FlagOk(q, i) { assert FlagOk(r, i); }
    case DoRegister(key, requestId, now) => RegisterInv(r, key, requestId, now);
  }

  lemma RegisterInv(r: Registry, key: Bytes, requestId: nat, now: nat)
    requires Inv(r)
    ensures Inv(Register(r, key, requestId, now).0)
  {
    var q := Register(r, key, requestId, now).0;
    if key == [] || |key| > MAX_KEY_BYTES || requestId == 0 {
    } else if key !in r.generations {
      ReclaimInv(r, now);
      var c := r.(generations := Reclaim(r, now));
      if |c.generations| < MAX_KEYS {
        forall f | 0 <= f < |c.flags| && c.flags[f].key == key ensures c.flags[f].superseded || c.flags[f].holders == 0 {
          assert FlagOk(c, f);
        }
        GrantInv(c, key, requestId, now);
      }
    } else if requestId <= r.generations[key].requestId {
      RefreshInv(r, key, requestId, now);
    } else {
      var g := r.generations[key];
      assert EntryOk(r, key);
      var c := r.(flags := Supersede(r.flags, g.flag));
      forall k | k in c.generations && k != key ensures EntryOk(c, k) { assert EntryOk(r, k); }
      forall f | 0 <= f < |c.flags|
        ensures c.flags[f].key != key ==> FlagOk(c, f)
        ensures c.flags[f].key == key ==> c.flags[f].superseded || c.flags[f].holders == 0
      {
        assert FlagOk(r, f);
      }
      GrantInv(c, key, requestId, now);
    }
  }

  lemma RefreshInv(r: Registry, key: Bytes, requestId: nat, now: nat)
    requires Inv(r) && key in r.generations && 0 < requestId <= r.generations[key].requestId
    requires key != [] && |key| <= MAX_KEY_BYTES
    ensures Inv(Register(r, key, requestId, now).0)
  {
    var q := Register(r, key, requestId, now).0;
    assert EntryOk(r, key);
    assert q.generations.Keys == r.generations.Keys;
    forall k | k in q.generations ensures EntryOk(q, k) { assert EntryOk(r, k); }
    forall f | 0 <= f < |q.flags| ensures FlagOk(q, f) {
      if f < |r.flags| { assert FlagOk(r, f); }
    }
    assert |q.generations| == |q.generations.Keys| && |r.generations| == |r.generations.Keys|;
  }

  lemma {:induction false} RunInv(r: Registry, ops: seq<Op>)
    requires Inv(r)
    ensures Inv(ApplyAll(r, ops))
    decreases |ops|
  {
    if ops != [] {
      ApplyInv(r, ops[0]);
      RunInv(Apply(r, ops[0]), ops[1..]);
    }
  }

  /** Newest wins, after any sequence of registrations and releases and whatever was reclaimed in
      between: all live flags held for one key belong to one request, and they are one flag. */
  lemma NewestWins(ops: seq<Op>, f: nat, h: nat)
    requires var r := ApplyAll(Empty, ops);
             && f < |r.flags| && h < |r.flags| && r.flags[f].key == r.flags[h].key
             && !r.flags[f].superseded && r.flags[f].holders > 0
             && !r.flags[h].superseded && r.flags[h].holders > 0
    ensures f == h && ApplyAll(Empty, ops).flags[f].requestId == ApplyAll(Empty, ops).flags[h].requestId
  {
    RunInv(Empty, ops);
    var r := ApplyAll(Empty, ops);
    assert FlagOk(r, f) && FlagOk(r, h);
  }

  lemma BoundedTable(ops: seq<Op>)
    ensures |ApplyAll(Empty, ops).generations| <= 1024
  {
    RunInv(Empty, ops);
  }

  /** A superseded request stays superseded, and a flag keeps its request. */
  lemma {:induction false} SupersededForEver(r: Registry, ops: seq<Op>, f: nat)
    requires f < |r.flags|
    ensures f < |ApplyAll(r, ops).flags|
    ensures r.flags[f].superseded ==> ApplyAll(r, ops).flags[f].superseded
    ensures ApplyAll(r, ops).flags[f].key == r.flags[f].key && ApplyAll(r, ops).flags[f].requestId == r.flags[f].requestId
    decreases |ops|
  {
    if ops != [] {
      SupersededForEver(Apply(r, ops[0]), ops[1..], f);
    }
  }

  /** The table remembers a request for `key` at least as new as `requestId`, registered no earlier
      than `since`. */
  predicate Remembers(r: Registry, key: Bytes, requestId: nat, since: nat) {
    key in r.generations && r.generations[key].requestId >= requestId && r.generations[key].lastRegisteredAt >= since
  }

  lemma ApplyRemembers(r: Registry, op: Op, key: Bytes, requestId: nat, since: nat)
    requires Remembers(r, key, requestId, since)
    requires op.DoRegister? ==> since <= op.now < since + RETENTION_MS
    ensures Remembers(Apply(r, op), key, requestId, since)
  {
    if op.DoRegister? && op.key !in r.generations {
      assert !Reclaimable(r, r.generations[key], op.now);
    }
  }

  /** Within the retention window of a registration, in any run and in any order of clock readings, an
      older request of the same key is superseded from the start. */
  lemma {:induction false} LateOlderRequestIsSuperseded(
      r: Registry, ops: seq<Op>, key: Bytes, requestId: nat, since: nat, older: nat, now: nat)
    requires Remembers(r, key, requestId, since)
    requires forall i | 0 <= i < |ops| && ops[i].DoRegister? :: since <= ops[i].now < since + RETENTION_MS
    requires key != [] && |key| <= MAX_KEY_BYTES && 0 < older < requestId
    ensures var (q, outcome) := Register(ApplyAll(r, ops), key, older, now);
            outcome.Granted? && outcome.flag < |q.flags| && q.flags[outcome.flag] == Flag(key, older, true, 1)
    decreases |ops|
  {
    if ops != [] {
      ApplyRemembers(r, ops[0], key, requestId, since);
      forall i | 0 <= i < |ops[1..]| && ops[1..][i].DoRegister? ensures since <= ops[1..][i].now < since + RETENTION_MS {
        assert ops[i + 1] == ops[1..][i];
      }
      LateOlderRequestIsSuperseded(Apply(r, ops[0]), ops[1..], key, requestId, since, older, now);
    }
  }

  /** A successful registration is what the window above starts from, unless a newer request was known. */
  lemma RegistrationIsRemembered(r: Registry, key: Bytes, requestId: nat, now: nat)
    requires Inv(r)
    requires Register(r, key, requestId, now).1.Granted?
    requires var (q, o) := Register(r, key, requestId, now); o.flag < |q.flags| && !q.flags[o.flag].superseded
    ensures Remembers(Register(r, key, requestId, now).0, key, requestId, now)
  {
    if key in r.generations { assert EntryOk(r, key); }
  }

  // ------------------------------------------------------------- what a request gets

  predicate ValidRequest(key: Bytes, requestId: nat) { 0 < |key| <= 256 && requestId > 0 }

  /** A newer request takes over: it gets a live flag of its own, the table records it, and no other flag
      that is live is still held for the key. Other keys are not concerned. */
  lemma NewerTakesOver(r: Registry, key: Bytes, requestId: nat, now: nat, k: Bytes)
    requires Inv(r) && ValidRequest(key, requestId) && key in r.generations && requestId > r.generations[key].requestId
    ensures var (q, o) := Register(r, key, requestId, now);
            && o.Granted? && o.flag < |q.flags| && q.flags[o.flag] == Flag(key, requestId, false, 1)
            && key in q.generations && q.generations[key] == Generation(requestId, o.flag, now)
            && (forall f | 0 <= f < |q.flags| && f != o.flag && q.flags[f].key == key :: q.flags[f].superseded || q.flags[f].holders == 0)
            && r.generations[key].flag < |q.flags| && q.flags[r.generations[key].flag].superseded
            && (k != key ==> (k in q.generations <==> k in r.generations) && (k in r.generations ==> q.generations[k] == r.generations[k]))
  {
    var q := Register(r, key, requestId, now).0;
    assert EntryOk(r, key);
    forall f | 0 <= f < |r.flags| && r.flags[f].key == key ensures q.flags[f].superseded || q.flags[f].holders == 0 {
      assert FlagOk(r, f);
    }
  }

  /** The same request again shares the live flag and starts the retention window anew. */
  lemma SameRequestShares(r: Registry, key: Bytes, now: nat)
    requires Inv(r) && key in r.generations && ValidRequest(key, r.generations[key].requestId)
    ensures var (g, (q, o)) := (r.generations[key], Register(r, key, r.generations[key].requestId, now));
            && o == Granted(g.flag) && g.flag < |r.flags| == |q.flags| && !q.flags[g.flag].superseded
            && q.flags[g.flag].holders == r.flags[g.flag].holders + 1
            && key in q.generations && q.generations[key] == Generation(g.requestId, g.flag, now)
            && forall f | 0 <= f < |r.flags| && f != g.flag :: q.flags[f] == r.flags[f]
  {
    assert EntryOk(r, key);
  }

  /** The entries that outlive `now`: registered less than half an hour ago, or held. */
  function Survivors(r: Registry, now: nat): set<Bytes> {
    set k | k in r.generations
            && (now < r.generations[k].lastRegisteredAt + 1_800_000 || r.generations[k].flag >= |r.flags| || r.flags[r.generations[k].flag].holders > 0)
  }

  /** Reclaiming leaves exactly the survivors, as they are. */
  lemma SurvivorsRemain(r: Registry, now: nat)
    ensures var c := Reclaim(r, now);
            c.Keys == Survivors(r, now) && |c| == |Survivors(r, now)| && forall k | k in c :: k in r.generations && c[k] == r.generations[k]
  {
    var c := Reclaim(r, now);
    assert c.Keys == Survivors(r, now) && |c| == |c.Keys|;
  }

  /** A key without an entry gets a live flag if there is room among the survivors, and nothing otherwise;
      expired entries nobody holds are gone either way. */
  lemma FirstRequest(r: Registry, key: Bytes, requestId: nat, now: nat, k: Bytes)
    requires Inv(r) && ValidRequest(key, requestId) && key !in r.generations
    ensures var (q, o) := Register(r, key, requestId, now);
            && (|Survivors(r, now)| >= 1024 ==> o == Rejected(RegistryFull) && q.generations.Keys == Survivors(r, now) && q.flags == r.flags)
            && (|Survivors(r, now)| < 1024 ==>
                  && o.Granted? && o.flag < |q.flags| && q.flags[o.flag] == Flag(key, requestId, false, 1)
                  && q.generations.Keys == Survivors(r, now) + {key} && q.generations[key] == Generation(requestId, o.flag, now))
            && (k in Survivors(r, now) ==> k in q.generations && q.generations[k] == r.generations[k])
  {
    hide Reclaim, Survivors, EntryOk, FlagOk;
    SurvivorsRemain(r, now);
  }

  /** Only an invalid key, an invalid id or a full table is refused. */
  lemma RefusedIff(r: Registry, key: Bytes, requestId: nat, now: nat)
    requires Inv(r)
    ensures var (q, o) := Register(r, key, requestId, now);
            && (o == Rejected(InvalidKey) <==> !(0 < |key| <= 256))
            && (o == Rejected(InvalidId) <==> 0 < |key| <= 256 && requestId == 0)
            && (o == Rejected(RegistryFull) <==> ValidRequest(key, requestId) && key !in r.generations && |Survivors(r, now)| >= 1024)
            && (!ValidRequest(key, requestId) ==> q == r)
  {
    if ValidRequest(key, requestId) && key !in r.generations { FirstRequest(r, key, requestId, now, key); }
  }

  /** A clone that is dropped is counted, and changes nothing else. */
  lemma ReleaseMeans(r: Registry, f: nat, i: nat)
    requires f < |r.flags| && r.flags[f].holders > 0 && i < |r.flags|
    ensures var q := Release(r, f);
            && q.generations == r.generations && |q.flags| == |r.flags|
            && q.flags[i] == (if i == f then Flag(r.flags[f].key, r.flags[f].requestId, r.flags[f].superseded, r.flags[f].holders - 1) else r.flags[i])
  {
  }

  // ------------------------------------------------------------------ newest, over runs

  /** The greatest request id granted for `key` since the key last entered the table. */
  function GreatestGranted(ops: seq<Op>, key: Bytes): nat {
    if ops == [] then 0
    else
      var (front, op) := (ops[..|ops| - 1], ops[|ops| - 1]);
      var (r, q) := (ApplyAll(Empty, front), Apply(ApplyAll(Empty, front), op));
      var before := if key in r.generations then GreatestGranted(front, key) else 0;
      if key !in q.generations then 0
      else if op.DoRegister? && op.key == key && Register(r, key, op.requestId, op.now).1.Granted? && op.requestId > before then op.requestId
      else before
  }

  lemma {:induction false} ApplyLast(r: Registry, ops: seq<Op>)
    requires ops != []
    ensures ApplyAll(r, ops) == Apply(ApplyAll(r, ops[..|ops| - 1]), ops[|ops| - 1])
    decreases |ops|
  {
    if |ops| > 1 {
      ApplyLast(Apply(r, ops[0]), ops[1..]);
      assert ops[1..][..|ops| - 2] == ops[..|ops| - 1][1..];
    }
  }

  lemma EntryStep(r: Registry, op: Op, key: Bytes)
    requires Inv(r) && key in Apply(r, op).generations
    ensures var q := Apply(r, op);
            var before := if key in r.generations then r.generations[key].requestId else 0;
            q.generations[key].requestId ==
            if op.DoRegister? && op.key == key && Register(r, key, op.requestId, op.now).1.Granted? && op.requestId > before
            then op.requestId else before
  {
    if op.DoRegister? && op.key == key && ValidRequest(key, op.requestId) {
      if key !in r.generations {
        FirstRequest(r, key, op.requestId, op.now, key);
      } else if op.requestId > r.generations[key].requestId {
        NewerTakesOver(r, key, op.requestId, op.now, key);
      }
    }
  }

  lemma {:induction false} TableHasGreatest(ops: seq<Op>, key: Bytes)
    requires key in ApplyAll(Empty, ops).generations
    ensures ApplyAll(Empty, ops).generations[key].requestId == GreatestGranted(ops, key)
  {
    hide Apply, Register;
    if ops != [] {
      var front, op := ops[..|ops| - 1], ops[|ops| - 1];
      RunInv(Empty, front);
      ApplyLast(Empty, ops);
      EntryStep(ApplyAll(Empty, front), op, key);
      if key in ApplyAll(Empty, front).generations { TableHasGreatest(front, key); }
    }
  }

  /** After any run, a live flag held for a key is the one of the newest request granted since the key
      entered the table. */
  lemma LiveIsNewest(ops: seq<Op>, f: nat)
    requires var r := ApplyAll(Empty, ops); f < |r.flags| && !r.flags[f].superseded && r.flags[f].holders > 0
    ensures var r := ApplyAll(Empty, ops); r.flags[f].requestId == GreatestGranted(ops, r.flags[f].key)
  {
    RunInv(Empty, ops);
    var r := ApplyAll(Empty, ops);
    assert FlagOk(r, f) && EntryOk(r, r.flags[f].key);
    TableHasGreatest(ops, r.flags[f].key);
  }
}
