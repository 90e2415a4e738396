/** Image drafts in the frontend database: multi-key compare-and-swap commits, and reads that use the
    index columns. JSON and the image envelope check are parameters; one SQLite transaction is one step. */
module FrontendStorages {
  import opened Common
  import Utf8

  const MAX_REVISION := 9_007_199_254_740_991
  const MAX_TEXT := 1024 * 1024
  const MAX_ENCODED := 32 * 1024 * 1024

  datatype ImageUpload = ImageUpload(mediaType: string, name: string, data: string)
  datatype AgentRequest = AgentRequest(sessionId: string, rest: string)
  datatype DraftOperation = DraftOperation(id: string, createdAt: Option<nat>, targetTurnId: Option<string>,
                                           sessionId: string, mode: string, create: Option<AgentRequest>)
  datatype ImageDraft = ImageDraft(originOwner: Option<string>, owner: string, revision: nat, text: string,
                                   images: seq<ImageUpload>, operation: Option<DraftOperation>)
  datatype RevisionCheck = RevisionCheck(owner: string, revision: nat)
  datatype DraftCommit = DraftCommit(checks: seq<RevisionCheck>, writes: seq<ImageDraft>, deletes: seq<string>)

  datatype Row = Row(revision: nat, sessionId: Option<string>, originOwner: Option<string>, value: string)
  type Table = map<string, Row>

  datatype Env = Env(encode: ImageDraft -> Option<string>, decode: string -> Option<ImageDraft>, envelopeOk: seq<ImageUpload> -> bool)

  /** What was encoded is decoded to itself. */
  ghost predicate RoundTrips(env: Env) {
    forall d: ImageDraft :: env.encode(d).Some? ==> env.decode(env.encode(d).value) == Some(d)
  }

  datatype Error = TooMany | InvalidKey | InvalidCheck | InvalidDraft | DuplicateMutation | InvalidAdvance
                 | NotEncoded | TooLarge | UncheckedDeletion | Conflict | StorageFault | InvalidStored

  // --------------------------------------------------------------------- validation

  function Utf8Width(c: char): nat {
    var n := c as int;
    if n < 0x80 then 1 else if n < 0x800 then 2 else if n < 0x1_0000 then 3 else 4
  }

  function Utf8Length(s: string): nat { if s == [] then 0 else Utf8Width(s[0]) + Utf8Length(s[1..]) }

  /** The UTF-8 encoding of a character (section 3 of RFC 3629). */
  function Utf8Bytes(c: char): Utf8.Bytes {
    var n := c as int;
    if n < 0x80 then [n]
    else if n < 0x800 then [0xC0 + n / 0x40, 0x80 + n % 0x40]
    else if n < 0x1_0000 then [0xE0 + n / 0x1000, 0x80 + n / 0x40 % 0x40, 0x80 + n % 0x40]
    else [0xF0 + n / 0x4_0000, 0x80 + n / 0x1000 % 0x40, 0x80 + n / 0x40 % 0x40, 0x80 + n % 0x40]
  }

  /** The width is that of the encoding, which is well-formed. */
  lemma Utf8WidthIsEncoded(c: char)
    ensures Utf8.WellFormed(Utf8Bytes(c)) && |Utf8Bytes(c)| == Utf8Width(c)
  {
  }

  predicate Control(c: char) { (c as int) < 0x20 || 0x7F <= (c as int) < 0xA0 }

  predicate KeyOk(key: string) { key != [] && Utf8Length(key) <= 512 && forall k | 0 <= k < |key| :: !Control(key[k]) }

  predicate OperationOk(op: DraftOperation) {
    && KeyOk(op.id) && KeyOk(op.sessionId)
    && (op.targetTurnId.Some? ==> KeyOk(op.targetTurnId.value))
    && (op.createdAt.Some? ==> op.createdAt.value <= MAX_REVISION)
    && op.mode in ["start", "nextTurn", "nextStep"]
    && (op.create.Some? ==> op.create.value.sessionId == op.sessionId)
  }

  predicate DraftOk(env: Env, d: ImageDraft) {
    && KeyOk(d.owner) && (d.originOwner.Some? ==> KeyOk(d.originOwner.value))
    && 0 < d.revision <= MAX_REVISION && Utf8Length(d.text) <= MAX_TEXT
    && (d.images != [] ==> env.envelopeOk(d.images))
    && (d.operation.Some? ==> OperationOk(d.operation.value))
  }

  /** The keys of a draft. */
  function Keys(d: ImageDraft): seq<string> {
    [d.owner] + (if d.originOwner.Some? then [d.originOwner.value] else [])
    + if d.operation.None? then []
      else
        [d.operation.value.id, d.operation.value.sessionId]
        + if d.operation.value.targetTurnId.Some? then [d.operation.value.targetTurnId.value] else []
  }

  /** The conditions on an operation beside its keys. */
  predicate OperationValuesOk(op: DraftOperation) {
    && (op.createdAt.None? || op.createdAt.value <= 9_007_199_254_740_991)
    && (op.mode == "start" || op.mode == "nextTurn" || op.mode == "nextStep")
    && (op.create.None? || op.create.value.sessionId == op.sessionId)
  }

  function CheckMap(checks: seq<RevisionCheck>): map<string, nat> {
    if checks == [] then map[]
    else CheckMap(checks[..|checks| - 1])[checks[|checks| - 1].owner := checks[|checks| - 1].revision]
  }

  predicate ChecksOk(checks: seq<RevisionCheck>) {
    && (forall i | 0 <= i < |checks| :: KeyOk(checks[i].owner) && checks[i].revision <= MAX_REVISION)
    && forall i, j | 0 <= i < j < |checks| :: checks[i].owner != checks[j].owner
  }

  predicate EncodedOk(env: Env, d: ImageDraft) {
    env.encode(d).Some? && Utf8Length(env.encode(d).value) <= MAX_ENCODED
  }

  /** A write is valid, fits, and advances the checked revision of its owner by one. */
  predicate WriteOk(env: Env, checked: map<string, nat>, d: ImageDraft) {
    && DraftOk(env, d) && EncodedOk(env, d)
    && d.owner in checked && checked[d.owner] + 1 == d.revision
  }

  predicate WritesOk(env: Env, checked: map<string, nat>, writes: seq<ImageDraft>) {
    && (forall i | 0 <= i < |writes| :: WriteOk(env, checked, writes[i]))
    && forall i, j | 0 <= i < j < |writes| :: writes[i].owner != writes[j].owner
  }

  function Owners(writes: seq<ImageDraft>): set<string> { set d | d in writes :: d.owner }

  function Elements(keys: seq<string>): set<string> { set k | k in keys }

  predicate DeletesOk(checked: map<string, nat>, writes: seq<ImageDraft>, deletes: seq<string>) {
    && (forall i | 0 <= i < |deletes| :: KeyOk(deletes[i]) && deletes[i] in checked && deletes[i] !in Owners(writes))
    && forall i, j | 0 <= i < j < |deletes| :: deletes[i] != deletes[j]
  }

  /** What a commit must satisfy before the database is touched. */
  predicate Admissible(env: Env, c: DraftCommit) {
    && |c.checks| <= 8 && |c.writes| <= 4 && |c.deletes| <= 4
    && ChecksOk(c.checks) && WritesOk(env, CheckMap(c.checks), c.writes)
    && DeletesOk(CheckMap(c.checks), c.writes, c.deletes)
  }

  // -------------------------------------------------------------------- transactions

  /** The stored revision; an absent owner counts as revision 0. */
  function RevisionOf(t: Table, owner: string): nat { if owner in t then t[owner].revision else 0 }

  predicate Matches(t: Table, checks: seq<RevisionCheck>) {
    forall i | 0 <= i < |checks| :: RevisionOf(t, checks[i].owner) == checks[i].revision
  }

  function RowFor(env: Env, d: ImageDraft): Row
    requires env.encode(d).Some?
  {
    Row(d.revision, if d.operation.Some? then Some(d.operation.value.sessionId) else None, d.originOwner, env.encode(d).value)
  }

  function Written(env: Env, t: Table, writes: seq<ImageDraft>): Table
    requires forall i | 0 <= i < |writes| :: env.encode(writes[i]).Some?
  {
    if writes == [] then t
    else Written(env, t, writes[..|writes| - 1])[writes[|writes| - 1].owner := RowFor(env, writes[|writes| - 1])]
  }

  function Applied(env: Env, t: Table, c: DraftCommit): Table
    requires Admissible(env, c)
  {
    Written(env, t, c.writes) - Elements(c.deletes)
  }

  lemma {:induction false} WrittenUntouched(env: Env, t: Table, writes: seq<ImageDraft>, k: string)
    requires forall i | 0 <= i < |writes| :: env.encode(writes[i]).Some? && writes[i].owner != k
    ensures (k in Written(env, t, writes) <==> k in t) && (k in t ==> Written(env, t, writes)[k] == t[k])
  {
    hide RowFor;
    if writes != [] { WrittenUntouched(env, t, writes[..|writes| - 1], k); }
  }

  lemma {:induction false} WrittenRow(env: Env, t: Table, writes: seq<ImageDraft>, i: nat)
    requires i < |writes| && forall j | 0 <= j < |writes| :: env.encode(writes[j]).Some?
    requires forall j | 0 <= j < |writes| && j != i :: writes[i].owner != writes[j].owner
    ensures writes[i].owner in Written(env, t, writes) && Written(env, t, writes)[writes[i].owner] == RowFor(env, writes[i])
  {
    hide RowFor;
    if i < |writes| - 1 { WrittenRow(env, t, writes[..|writes| - 1], i); }
  }

  /** What one successful commit does to each owner. */
  lemma AppliedRows(env: Env, t: Table, c: DraftCommit, owner: string)
    requires Admissible(env, c)
    ensures var after := Applied(env, t, c);
            && (owner in c.deletes ==> owner !in after)
            && (owner in Owners(c.writes) ==> owner !in c.deletes && owner in after)
            && (owner !in c.deletes && owner !in Owners(c.writes) ==>
                  (owner in after <==> owner in t) && (owner in t ==> after[owner] == t[owner]))
            && (forall i | 0 <= i < |c.writes| :: c.writes[i].owner in after && after[c.writes[i].owner] == RowFor(env, c.writes[i]))
  {
    hide RowFor, DraftOk, Utf8Length, KeyOk;
    assert forall i | 0 <= i < |c.writes| :: WriteOk(env, CheckMap(c.checks), c.writes[i]);
    forall i | 0 <= i < |c.writes|
      ensures c.writes[i].owner in Owners(c.writes) && c.writes[i].owner in Written(env, t, c.writes)
      ensures Written(env, t, c.writes)[c.writes[i].owner] == RowFor(env, c.writes[i])
    {
      assert c.writes[i] in c.writes;
      WrittenRow(env, t, c.writes, i);
    }
    if owner !in Owners(c.writes) {
      assert forall i | 0 <= i < |c.writes| :: c.writes[i] in c.writes && c.writes[i].owner != owner;
      WrittenUntouched(env, t, c.writes, owner);
    }
  }

  predicate Checks(checks: seq<RevisionCheck>, owner: string) { exists i | 0 <= i < |checks| :: checks[i].owner == owner }

  lemma {:induction false} CheckMapHas(checks: seq<RevisionCheck>)
    requires forall i, j | 0 <= i < j < |checks| :: checks[i].owner != checks[j].owner
    ensures forall i | 0 <= i < |checks| :: checks[i].owner in CheckMap(checks) && CheckMap(checks)[checks[i].owner] == checks[i].revision
    ensures forall k | k in CheckMap(checks) :: Checks(checks, k)
  {
    if checks != [] {
      var front, last := checks[..|checks| - 1], |checks| - 1;
      CheckMapHas(front);
      assert forall i | 0 <= i < last :: front[i] == checks[i];
      forall k | k in CheckMap(checks) ensures Checks(checks, k) {
        if k != checks[last].owner {
          assert k in CheckMap(front) && Checks(front, k);
          var i :| 0 <= i < |front| && front[i].owner == k;
          assert checks[i].owner == k;
        }
      }
    }
  }

  // --------------------------------------------------------------------------- methods

  /** An error found before the database is touched. */
  predicate InputError(e: Option<Error>) { e.Some? && !e.value.Conflict? && !e.value.StorageFault? }

  lemma EmptyCheckMap()
    ensures CheckMap([]) == map[]
  {
  }

  lemma CheckMapNext(checks: seq<RevisionCheck>, i: nat)
    requires i < |checks|
    ensures CheckMap(checks[..i + 1]) == CheckMap(checks[..i])[checks[i].owner := checks[i].revision]
  {
    assert checks[..i + 1][..i] == checks[..i];
  }

  method ValidateChecks(checks: seq<RevisionCheck>) returns (checked: map<string, nat>, error: Option<Error>)
    ensures error.None? <==> ChecksOk(checks)
    ensures error.None? || error.value in {InvalidKey, InvalidCheck}
    ensures error == Some(InvalidKey) ==> exists i :: 0 <= i < |checks| && !KeyOk(checks[i].owner)
    ensures error == Some(InvalidCheck) ==>
              || (exists i :: 0 <= i < |checks| && checks[i].revision > 9_007_199_254_740_991)
              || (exists i, j :: 0 <= i < j < |checks| && checks[i].owner == checks[j].owner)
    ensures error.None? ==> checked == CheckMap(checks)
  {
    hide KeyOk, CheckMap;
    checked := map[];
    EmptyCheckMap();
    for i := 0 to |checks|
      invariant ChecksOk(checks[..i]) && checked == CheckMap(checks[..i])
      invariant forall k | k in checked :: exists j :: 0 <= j < i && checks[j].owner == k
      invariant forall j | 0 <= j < i :: checks[j].owner in checked
    {
      assert checks[..i + 1][..i] == checks[..i];
      if !KeyOk(checks[i].owner) { return checked, Some(InvalidKey); }
      if checks[i].revision > MAX_REVISION || checks[i].owner in checked { return checked, Some(InvalidCheck); }
      checked := checked[checks[i].owner := checks[i].revision];
      CheckMapNext(checks, i);
    }
    assert checks[..|checks|] == checks;
    error := None;
  }

  method ValidateDraft(env: Env, d: ImageDraft) returns (error: Option<Error>)
    ensures error.None? <==> DraftOk(env, d)
    ensures error.None? || error.value in {InvalidKey, InvalidDraft}
    ensures error != Some(InvalidKey) ==> KeyOk(d.owner) && (d.originOwner.Some? ==> KeyOk(d.originOwner.value))
    ensures error.None? ==> forall key | key in Keys(d) :: KeyOk(key)
    ensures error == Some(InvalidKey) ==> exists key :: key in Keys(d) && !KeyOk(key)
    ensures error.None? ==>
              && 1 <= d.revision <= 9_007_199_254_740_991 && Utf8Length(d.text) <= 1_048_576
              && (d.images == [] || env.envelopeOk(d.images)) && (d.operation.None? || OperationValuesOk(d.operation.value))
    ensures error == Some(InvalidDraft) ==>
              || d.revision == 0 || d.revision > 9_007_199_254_740_991 || Utf8Length(d.text) > 1_048_576
              || (d.images != [] && !env.envelopeOk(d.images)) || (d.operation.Some? && !OperationValuesOk(d.operation.value))
  {
    hide KeyOk, Utf8Length;
    if !KeyOk(d.owner) { return Some(InvalidKey); }
    if d.originOwner.Some? && !KeyOk(d.originOwner.value) { return Some(InvalidKey); }
    if d.revision == 0 || d.revision > MAX_REVISION || Utf8Length(d.text) > MAX_TEXT { return Some(InvalidDraft); }
    if d.images != [] && !env.envelopeOk(d.images) { return Some(InvalidDraft); }
    if d.operation.Some? {
      var op := d.operation.value;
      if !KeyOk(op.id) || !KeyOk(op.sessionId) { return Some(InvalidKey); }
      if op.targetTurnId.Some? && !KeyOk(op.targetTurnId.value) { return Some(InvalidKey); }
      if op.createdAt.Some? && op.createdAt.value > MAX_REVISION { return Some(InvalidDraft); }
      if op.mode !in ["start", "nextTurn", "nextStep"] { return Some(InvalidDraft); }
      if op.create.Some? && op.create.value.sessionId != op.sessionId { return Some(InvalidDraft); }
    }
    error := None;
  }

  method ValidateWrites(env: Env, checked: map<string, nat>, writes: seq<ImageDraft>)
    returns (mutations: set<string>, encoded: seq<string>, error: Option<Error>)
    ensures error.None? <==> WritesOk(env, checked, writes)
    ensures error.Some? ==> InputError(error)
    ensures error == Some(DuplicateMutation) ==> exists i, j :: 0 <= i < j < |writes| && writes[i].owner == writes[j].owner
    ensures error == Some(InvalidAdvance) ==>
              exists i :: 0 <= i < |writes| && (writes[i].owner !in checked || checked[writes[i].owner] + 1 != writes[i].revision)
    ensures error == Some(NotEncoded) ==> exists i :: 0 <= i < |writes| && env.encode(writes[i]).None?
    ensures error == Some(TooLarge) ==>
              exists i :: 0 <= i < |writes| && env.encode(writes[i]).Some? && Utf8Length(env.encode(writes[i]).value) > 33_554_432
    ensures error.None? ==> mutations == Owners(writes)
    ensures error.None? ==> |encoded| == |writes| && forall i | 0 <= i < |writes| :: env.encode(writes[i]) == Some(encoded[i])
  {
    hide DraftOk, Utf8Length;
    mutations, encoded := {}, [];
    for i := 0 to |writes|
      invariant forall j | 0 <= j < i :: WriteOk(env, checked, writes[j])
      invariant forall j, k | 0 <= j < k < i :: writes[j].owner != writes[k].owner
      invariant forall k :: k in mutations <==> exists j :: 0 <= j < i && writes[j].owner == k
      invariant |encoded| == i && forall j | 0 <= j < i :: env.encode(writes[j]) == Some(encoded[j])
    {
      var d := writes[i];
      var invalid := ValidateDraft(env, d);
      if invalid.Some? { assert !WriteOk(env, checked, d); return mutations, encoded, invalid; }
      if d.owner in mutations { return mutations, encoded, Some(DuplicateMutation); }
      if d.owner !in checked || checked[d.owner] + 1 != d.revision {
        assert !WriteOk(env, checked, d);
        return mutations, encoded, Some(InvalidAdvance);
      }
      var raw := env.encode(d);
      if raw.None? { assert !WriteOk(env, checked, d); return mutations, encoded, Some(NotEncoded); }
      if Utf8Length(raw.value) > MAX_ENCODED { assert !WriteOk(env, checked, d); return mutations, encoded, Some(TooLarge); }
      mutations, encoded := mutations + {d.owner}, encoded + [raw.value];
    }
    error := None;
  }

  method ValidateDeletes(checked: map<string, nat>, writes: seq<ImageDraft>, deletes: seq<string>) returns (error: Option<Error>)
    ensures error.None? <==> DeletesOk(checked, writes, deletes)
    ensures error.None? || error.value in {InvalidKey, UncheckedDeletion}
    ensures error == Some(InvalidKey) ==> exists i :: 0 <= i < |deletes| && !KeyOk(deletes[i])
    ensures error == Some(UncheckedDeletion) ==>
              || (exists i :: 0 <= i < |deletes| && (deletes[i] !in checked || deletes[i] in Owners(writes)))
              || (exists i, j :: 0 <= i < j < |deletes| && deletes[i] == deletes[j])
  {
    hide KeyOk;
    var mutations := Owners(writes);
    for i := 0 to |deletes|
      invariant forall j | 0 <= j < i :: KeyOk(deletes[j]) && deletes[j] in checked && deletes[j] !in Owners(writes)
      invariant forall j, k | 0 <= j < k < i :: deletes[j] != deletes[k]
      invariant forall k :: k in mutations <==> k in Owners(writes) || exists j :: 0 <= j < i && deletes[j] == k
    {
      if !KeyOk(deletes[i]) { return Some(InvalidKey); }
      if deletes[i] !in checked || deletes[i] in mutations { return Some(UncheckedDeletion); }
      mutations := mutations + {deletes[i]};
    }
    error := None;
  }

  /** One query per check, one statement per write and delete, and the commit. */
  function Statements(c: DraftCommit): nat { |c.checks| + |c.writes| + |c.deletes| + 1 }

  predicate FaultIn(faults: nat -> bool, from: nat, to: nat) { exists k | from <= k < to :: faults(k) }

  method CompareRevisions(t: Table, checks: seq<RevisionCheck>, faults: nat -> bool) returns (error: Option<Error>)
    ensures error.None? ==> Matches(t, checks) && !FaultIn(faults, 0, |checks|)
    ensures error.Some? ==> (error.value.Conflict? && !Matches(t, checks)) || (error.value.StorageFault? && FaultIn(faults, 0, |checks|))
  {
    for i := 0 to |checks|
      invariant !FaultIn(faults, 0, i)
      invariant forall j | 0 <= j < i :: RevisionOf(t, checks[j].owner) == checks[j].revision
    {
      if faults(i) { return Some(StorageFault); }
      if RevisionOf(t, checks[i].owner) != checks[i].revision { return Some(Conflict); }
    }
    error := None;
  }

  method UpsertDrafts(env: Env, t: Table, writes: seq<ImageDraft>, encoded: seq<string>, first: nat, faults: nat -> bool)
    returns (rows: Table, error: Option<Error>)
    requires |encoded| == |writes| && forall i | 0 <= i < |writes| :: env.encode(writes[i]) == Some(encoded[i])
    ensures error.None? ==> rows == Written(env, t, writes) && !FaultIn(faults, first, first + |writes|)
    ensures error.Some? ==> error.value.StorageFault? && FaultIn(faults, first, first + |writes|)
  {
    rows := t;
    for i := 0 to |writes|
      invariant rows == Written(env, t, writes[..i]) && !FaultIn(faults, first, first + i)
    {
      if faults(first + i) { return rows, Some(StorageFault); }
      var d := writes[i];
      assert writes[..i + 1][..i] == writes[..i];
      rows := rows[d.owner := Row(d.revision, if d.operation.Some? then Some(d.operation.value.sessionId) else None, d.originOwner, encoded[i])];
    }
    assert writes[..|writes|] == writes;
    error := None;
  }

  method DeleteDrafts(t: Table, deletes: seq<string>, first: nat, faults: nat -> bool) returns (rows: Table, error: Option<Error>)
    ensures error.None? ==> rows == t - Elements(deletes) && !FaultIn(faults, first, first + |deletes|)
    ensures error.Some? ==> error.value.StorageFault? && FaultIn(faults, first, first + |deletes|)
  {
    rows := t;
    for i := 0 to |deletes|
      invariant rows == t - Elements(deletes[..i]) && !FaultIn(faults, first, first + i)
    {
      if faults(first + i) { return rows, Some(StorageFault); }
      assert deletes[..i + 1] == deletes[..i] + [deletes[i]];
      assert Elements(deletes[..i + 1]) == Elements(deletes[..i]) + {deletes[i]};
      rows := rows - {deletes[i]};
    }
    assert deletes[..|deletes|] == deletes;
    error := None;
  }

  /** The transaction works on its own view of the table, which is kept only if it commits. */
  method Transaction(env: Env, t: Table, c: DraftCommit, encoded: seq<string>, faults: nat -> bool)
    returns (rows: Table, error: Option<Error>)
    requires Admissible(env, c)
    requires |encoded| == |c.writes| && forall i | 0 <= i < |c.writes| :: env.encode(c.writes[i]) == Some(encoded[i])
    ensures error.None? ==> Matches(t, c.checks) && rows == Applied(env, t, c) && !FaultIn(faults, 0, Statements(c))
    ensures error.Some? ==> (error.value.Conflict? && !Matches(t, c.checks)) || (error.value.StorageFault? && FaultIn(faults, 0, Statements(c)))
  {
    hide ChecksOk, WritesOk, DeletesOk, Matches;
    rows := t;
    error := CompareRevisions(t, c.checks, faults);
    if error.Some? { return; }
    rows, error := UpsertDrafts(env, rows, c.writes, encoded, |c.checks|, faults);
    if error.Some? { return; }
    rows, error := DeleteDrafts(rows, c.deletes, |c.checks| + |c.writes|, faults);
    if error.Some? { return; }
    if faults(|c.checks| + |c.writes| + |c.deletes|) { error := Some(StorageFault); }
  }

  // ------------------------------------------------------------------------- reads

  datatype DraftRead = DraftRead(keys: seq<string>, recoveryOwner: Option<string>)
  datatype Result<+T> = Success(value: T) | Failure(error: Error)

  const AGENT := "agent:"

  predicate ReadOk(input: DraftRead) {
    && |input.keys| <= 8 && (forall i | 0 <= i < |input.keys| :: KeyOk(input.keys[i]))
    && (input.recoveryOwner.Some? ==> KeyOk(input.recoveryOwner.value))
  }

  /** The index column a recovery reads, by the owner's prefix. */
  predicate Indexed(owner: string, row: Row) {
    if AGENT <= owner then row.sessionId == Some(owner[|AGENT|..]) else row.originOwner == Some(owner)
  }

  /** What a recovery asks of the stored draft itself. */
  predicate Recovers(owner: string, d: ImageDraft) {
    if AGENT <= owner then d.operation.Some? && d.operation.value.sessionId == owner[|AGENT|..]
    else d.originOwner == Some(owner)
  }

  predicate Wanted(input: DraftRead, key: string, row: Row) {
    key in input.keys || (input.recoveryOwner.Some? && Indexed(input.recoveryOwner.value, row))
  }

  function Decoded(env: Env, row: Row): ImageDraft {
    if env.decode(row.value).Some? then env.decode(row.value).value else ImageDraft(None, "", 0, "", [], None)
  }

  function Selected(env: Env, t: Table, input: DraftRead): map<string, ImageDraft> {
    map k | k in t && Wanted(input, k, t[k]) :: Decoded(env, t[k])
  }

  /** Every stored draft is decoded and examined. */
  function FullScan(env: Env, t: Table, input: DraftRead): map<string, ImageDraft> {
    map k | k in t && (k in input.keys || (input.recoveryOwner.Some? && Recovers(input.recoveryOwner.value, Decoded(env, t[k]))))
      :: Decoded(env, t[k])
  }

  ghost predicate Gathered(env: Env, t: Table, records: map<string, ImageDraft>, keys: set<string>) {
    && records.Keys == t.Keys * keys
    && forall k | k in records :: env.decode(t[k].value) == Some(records[k])
  }

  /** A row holds a draft, and its columns are those of the draft. */
  predicate RowInv(env: Env, key: string, row: Row) {
    && env.decode(row.value).Some?
    && var d := env.decode(row.value).value;
    && d.owner == key && d.revision == row.revision && 1 <= row.revision <= MAX_REVISION
    && d.originOwner == row.originOwner
    && row.sessionId == (if d.operation.Some? then Some(d.operation.value.sessionId) else None)
  }

  predicate TableInv(env: Env, t: Table) { forall k | k in t :: RowInv(env, k, t[k]) }

  lemma UndecodableRow(env: Env, t: Table, k: string)
    requires k in t && env.decode(t[k].value).None?
    ensures !TableInv(env, t)
  {
    assert !RowInv(env, k, t[k]);
  }

  method ReadKeys(env: Env, t: Table, keys: seq<string>) returns (records: map<string, ImageDraft>, error: Option<Error>)
    ensures error.None? ==> (forall i | 0 <= i < |keys| :: KeyOk(keys[i])) && Gathered(env, t, records, Elements(keys))
    ensures error.Some? ==> !TableInv(env, t) || exists i :: 0 <= i < |keys| && !KeyOk(keys[i])
  {
    hide KeyOk, TableInv;
    records := map[];
    for i := 0 to |keys|
      invariant forall j | 0 <= j < i :: KeyOk(keys[j])
      invariant Gathered(env, t, records, Elements(keys[..i]))
    {
      assert keys[..i + 1] == keys[..i] + [keys[i]];
      assert Elements(keys[..i + 1]) == Elements(keys[..i]) + {keys[i]};
      if !KeyOk(keys[i]) { return records, Some(InvalidKey); }
      if keys[i] in t {
        var draft := env.decode(t[keys[i]].value);
        if draft.None? {
          UndecodableRow(env, t, keys[i]);
          return records, Some(InvalidStored);
        }
        records := records[keys[i] := draft.value];
      }
    }
    assert keys[..|keys|] == keys;
    error := None;
  }

  /** The rows an index query returns, in no particular order, added to what was read before. */
  method ReadRows(env: Env, t: Table, rows: set<string>, before: map<string, ImageDraft>, ghost keys: set<string>)
    returns (records: map<string, ImageDraft>, error: Option<Error>)
    requires rows <= t.Keys && Gathered(env, t, before, keys)
    ensures error.None? ==> Gathered(env, t, records, keys + rows)
    ensures error.Some? ==> !TableInv(env, t)
  {
    hide TableInv;
    records := before;
    var left := rows;
    while left != {}
      invariant left <= rows
      invariant Gathered(env, t, records, keys + (rows - left))
    {
      var key :| key in left;
      var draft := env.decode(t[key].value);
      if draft.None? {
        UndecodableRow(env, t, key);
        return records, Some(InvalidStored);
      }
      records, left := records[key := draft.value], left - {key};
    }
    assert keys + (rows - left) == keys + rows;
    error := None;
  }

  /** The columns answer recovery queries as the drafts themselves would. */
  lemma SelectedIsFullScan(env: Env, t: Table, input: DraftRead)
    requires TableInv(env, t)
    ensures Selected(env, t, input) == FullScan(env, t, input)
  {
    forall k | k in t
      ensures input.recoveryOwner.Some? ==>
                (Indexed(input.recoveryOwner.value, t[k]) <==> Recovers(input.recoveryOwner.value, Decoded(env, t[k])))
    {
      assert RowInv(env, k, t[k]);
    }
  }

  // -------------------------------------------------------------------------- runs

  /** One commit of a run; `faulted` commits are rolled back by the database. */
  datatype Event = Event(commit: DraftCommit, faulted: bool)

  predicate Succeeds(env: Env, t: Table, e: Event) { Admissible(env, e.commit) && Matches(t, e.commit.checks) && !e.faulted }

  function After(env: Env, t: Table, e: Event): Table {
    if Succeeds(env, t, e) then Applied(env, t, e.commit) else t
  }

  function TableAfter(env: Env, run: seq<Event>): Table {
    if run == [] then map[] else After(env, TableAfter(env, run[..|run| - 1]), run[|run| - 1])
  }

  predicate SucceedsAt(env: Env, run: seq<Event>, i: nat)
    requires i < |run|
  {
    Succeeds(env, TableAfter(env, run[..i]), run[i])
  }

  predicate Writes(c: DraftCommit, owner: string) { exists d :: d in c.writes && d.owner == owner }

  lemma RowForInv(env: Env, d: ImageDraft)
    requires RoundTrips(env) && DraftOk(env, d) && env.encode(d).Some?
    ensures RowInv(env, d.owner, RowFor(env, d))
  {
    assert env.decode(env.encode(d).value) == Some(d);
  }

  lemma AppliedInv(env: Env, t: Table, c: DraftCommit)
    requires RoundTrips(env) && Admissible(env, c) && TableInv(env, t)
    ensures TableInv(env, Applied(env, t, c))
  {
    hide DraftOk, Utf8Length, KeyOk, RowInv, RowFor, Applied, ChecksOk, DeletesOk;
    var after := Applied(env, t, c);
    forall k | k in after ensures RowInv(env, k, after[k]) {
      AppliedRows(env, t, c, k);
      if k in Owners(c.writes) {
        var i :| 0 <= i < |c.writes| && c.writes[i].owner == k;
        assert WriteOk(env, CheckMap(c.checks), c.writes[i]);
        RowForInv(env, c.writes[i]);
      } else {
        assert k in t && RowInv(env, k, t[k]);
      }
    }
  }

  /** In every table a run of commits produces, each row's columns agree with the draft it stores. */
  lemma {:induction false} ReachableInv(env: Env, run: seq<Event>)
    requires RoundTrips(env)
    ensures TableInv(env, TableAfter(env, run))
  {
    hide RowInv, Admissible, Applied, Matches;
    if run != [] {
      var t, e := TableAfter(env, run[..|run| - 1]), run[|run| - 1];
      ReachableInv(env, run[..|run| - 1]);
      if Succeeds(env, t, e) { AppliedInv(env, t, e.commit); }
    }
  }

  /** A successful commit raises the revision of each owner it writes by exactly one, removes the owners
      it deletes and leaves every other owner alone. */
  lemma RevisionStep(env: Env, t: Table, c: DraftCommit, owner: string)
    requires Admissible(env, c) && Matches(t, c.checks)
    ensures RevisionOf(Applied(env, t, c), owner) ==
            if owner in c.deletes then 0 else if Writes(c, owner) then RevisionOf(t, owner) + 1 else RevisionOf(t, owner)
    ensures !(owner in c.deletes && Writes(c, owner))
  {
    hide DraftOk, EncodedOk, KeyOk, Applied;
    AppliedRows(env, t, c, owner);
    assert Writes(c, owner) <==> owner in Owners(c.writes);
    if Writes(c, owner) {
      var i :| 0 <= i < |c.writes| && c.writes[i].owner == owner;
      assert WriteOk(env, CheckMap(c.checks), c.writes[i]);
      CheckMapHas(c.checks);
      assert Checks(c.checks, owner);
      var j :| 0 <= j < |c.checks| && c.checks[j].owner == owner;
      assert CheckMap(c.checks)[owner] == c.checks[j].revision == RevisionOf(t, owner);
    }
  }

  /** What was written is what a later read decodes, under its owner and with its revision. */
  lemma ReadsBackWritten(env: Env, t: Table, c: DraftCommit, i: nat)
    requires RoundTrips(env) && Admissible(env, c) && i < |c.writes|
    ensures var (d, after) := (c.writes[i], Applied(env, t, c));
            && d.owner in after && env.decode(after[d.owner].value) == Some(d) && after[d.owner].revision == d.revision
            && after[d.owner].originOwner == d.originOwner
            && after[d.owner].sessionId == (if d.operation.Some? then Some(d.operation.value.sessionId) else None)
  {
    hide DraftOk, KeyOk, Utf8Length, Applied;
    var d := c.writes[i];
    AppliedRows(env, t, c, d.owner);
    assert WriteOk(env, CheckMap(c.checks), d);
  }

  /** Recovery goes by the operation's session for an owner with the agent prefix, and by the original owner
      for any other. */
  lemma RecoversMeans(owner: string, session: string, d: ImageDraft)
    ensures Recovers("agent:" + session, d) <==> d.operation.Some? && d.operation.value.sessionId == session
    ensures !("agent:" <= owner) ==> (Recovers(owner, d) <==> d.originOwner == Some(owner))
  {
    assert ("agent:" + session)[|AGENT|..] == session;
  }

  /** A key is valid exactly if its encoding has 1 to 512 bytes and it has no control character. */
  lemma KeyOkIff(key: string)
    ensures KeyOk(key) <==>
            1 <= Utf8Length(key) <= 512 && forall k | 0 <= k < |key| :: 0x20 <= (key[k] as int) < 0x7F || 0xA0 <= (key[k] as int)
  {
  }

  /** The number of successful writes of `owner` since it was last deleted. */
  ghost function WritesSinceDelete(env: Env, run: seq<Event>, owner: string): nat {
    if run == [] then 0
    else
      var before, e := WritesSinceDelete(env, run[..|run| - 1], owner), run[|run| - 1];
      if !SucceedsAt(env, run, |run| - 1) then before
      else if owner in e.commit.deletes then 0
      else if Writes(e.commit, owner) then before + 1
      else before
  }

  /** The stored revision counts the successful writes since the last deletion: no write is ever lost or
      counted twice. */
  lemma {:induction false} RevisionCountsWrites(env: Env, run: seq<Event>, owner: string)
    ensures RevisionOf(TableAfter(env, run), owner) == WritesSinceDelete(env, run, owner)
  {
    hide Admissible, Applied, Matches, Writes;
    if run != [] {
      RevisionCountsWrites(env, run[..|run| - 1], owner);
      if SucceedsAt(env, run, |run| - 1) {
        RevisionStep(env, TableAfter(env, run[..|run| - 1]), run[|run| - 1].commit, owner);
      }
    }
  }

  ghost predicate DeletedBetween(env: Env, run: seq<Event>, owner: string, i: nat, j: nat)
    requires j <= |run|
  {
    exists k :: i < k < j && SucceedsAt(env, run, k) && owner in run[k].commit.deletes
  }

  /** Without a deletion, revisions only go up. */
  lemma {:induction false} RevisionGrows(env: Env, run: seq<Event>, owner: string, i: nat, j: nat)
    requires i < j <= |run| && !DeletedBetween(env, run, owner, i, j)
    ensures RevisionOf(TableAfter(env, run[..i + 1]), owner) <= RevisionOf(TableAfter(env, run[..j]), owner)
    decreases j
  {
    hide Admissible, Applied, Matches, Writes;
    if i + 1 < j {
      var k := j - 1;
      assert run[..j][..k] == run[..k] && run[..j][k] == run[k];
      assert forall m | i < m < k :: !(SucceedsAt(env, run, m) && owner in run[m].commit.deletes);
      RevisionGrows(env, run, owner, i, k);
      if SucceedsAt(env, run, k) { RevisionStep(env, TableAfter(env, run[..k]), run[k].commit, owner); }
    }
  }

  predicate ChecksAt(c: DraftCommit, owner: string, revision: nat) {
    exists i :: 0 <= i < |c.checks| && c.checks[i].owner == owner && c.checks[i].revision == revision
  }

  predicate Distinct<T(==)>(s: seq<T>) { forall i, j | 0 <= i < j < |s| :: s[i] != s[j] }

  /** A commit is admissible exactly if it is small and valid, checks no owner twice, mutates each owner at
      most once and only if it checks it, and writes the revision after the checked one. */
  lemma AdmissibleIff(env: Env, c: DraftCommit)
    ensures Admissible(env, c) <==>
            && |c.checks| <= 8 && |c.writes| <= 4 && |c.deletes| <= 4
            && (forall i | 0 <= i < |c.checks| :: KeyOk(c.checks[i].owner) && c.checks[i].revision <= 9_007_199_254_740_991)
            && (forall i, j | 0 <= i < j < |c.checks| :: c.checks[i].owner != c.checks[j].owner)
            && (forall i | 0 <= i < |c.writes| :: DraftOk(env, c.writes[i]))
            && (forall i | 0 <= i < |c.writes| ::
                  env.encode(c.writes[i]).Some? && Utf8Length(env.encode(c.writes[i]).value) <= 33_554_432)
            && (forall i | 0 <= i < |c.writes| :: c.writes[i].revision > 0 && ChecksAt(c, c.writes[i].owner, c.writes[i].revision - 1))
            && (forall i, j | 0 <= i < j < |c.writes| :: c.writes[i].owner != c.writes[j].owner)
            && (forall i | 0 <= i < |c.deletes| :: KeyOk(c.deletes[i]) && Checks(c.checks, c.deletes[i]) && !Writes(c, c.deletes[i]))
            && Distinct(c.deletes)
  {
    hide DraftOk, KeyOk, CheckMap, Utf8Length;
    if forall i, j | 0 <= i < j < |c.checks| :: c.checks[i].owner != c.checks[j].owner {
      forall i | 0 <= i < |c.writes|
        ensures WriteOk(env, CheckMap(c.checks), c.writes[i]) <==>
                && DraftOk(env, c.writes[i]) && env.encode(c.writes[i]).Some? && Utf8Length(env.encode(c.writes[i]).value) <= 33_554_432
                && c.writes[i].revision > 0 && ChecksAt(c, c.writes[i].owner, c.writes[i].revision - 1)
      {
        CheckedIff(c, c.writes[i].owner);
      }
      forall i | 0 <= i < |c.deletes|
        ensures c.deletes[i] in CheckMap(c.checks) <==> Checks(c.checks, c.deletes[i])
        ensures c.deletes[i] in Owners(c.writes) <==> Writes(c, c.deletes[i])
      {
        CheckMapHas(c.checks);
      }
    }
  }

  lemma CheckedIff(c: DraftCommit, owner: string)
    requires forall i, j | 0 <= i < j < |c.checks| :: c.checks[i].owner != c.checks[j].owner
    ensures owner in CheckMap(c.checks) ==> ChecksAt(c, owner, CheckMap(c.checks)[owner])
    ensures forall revision: nat | ChecksAt(c, owner, revision) :: owner in CheckMap(c.checks) && CheckMap(c.checks)[owner] == revision
  {
    hide CheckMap;
    CheckMapHas(c.checks);
    if owner in CheckMap(c.checks) {
      assert Checks(c.checks, owner);
      var i :| 0 <= i < |c.checks| && c.checks[i].owner == owner;
      assert CheckMap(c.checks)[owner] == c.checks[i].revision;
    }
  }

  /** Two commits that check one owner at the same revision, the first of which writes it, cannot both
      succeed unless the owner was deleted in between: no update is overwritten unseen. */
  lemma NoLostUpdate(env: Env, run: seq<Event>, owner: string, revision: nat, i: nat, j: nat)
    requires i < j < |run| && SucceedsAt(env, run, i) && SucceedsAt(env, run, j)
    requires Writes(run[i].commit, owner)
    requires ChecksAt(run[i].commit, owner, revision) && ChecksAt(run[j].commit, owner, revision)
    ensures DeletedBetween(env, run, owner, i, j)
  {
    hide Admissible, Applied, Writes;
    var t := TableAfter(env, run[..i]);
    assert RevisionOf(t, owner) == revision == RevisionOf(TableAfter(env, run[..j]), owner);
    RevisionStep(env, t, run[i].commit, owner);
    assert run[..i + 1][..i] == run[..i] && run[..i + 1][i] == run[i];
    if !DeletedBetween(env, run, owner, i, j) { RevisionGrows(env, run, owner, i, j); }
  }

  class FrontendStorage {
    var drafts: Table

    constructor ()
      ensures drafts == map[]
    {
      drafts := map[];
    }

    /** A commit is all or nothing: it succeeds exactly when it is admissible, every checked revision is
        the stored one and the database does not fail, and then it is applied in full; otherwise nothing
        changes. `faults(k)` says whether the `k`-th statement of the transaction fails. */
    method Commit(env: Env, c: DraftCommit, faults: nat -> bool) returns (error: Option<Error>)
      modifies this
      ensures error.None? <==> Admissible(env, c) && Matches(old(drafts), c.checks) && !FaultIn(faults, 0, Statements(c))
      ensures error.None? ==> drafts == Applied(env, old(drafts), c)
      ensures error.Some? ==> drafts == old(drafts)
      ensures error == Some(Conflict) ==> Admissible(env, c) && !Matches(old(drafts), c.checks)
      ensures error == Some(StorageFault) ==> Admissible(env, c) && FaultIn(faults, 0, Statements(c))
      ensures InputError(error) ==> !Admissible(env, c)
    {
      hide ChecksOk, WritesOk, DeletesOk, Matches;
      if |c.checks| > 8 || |c.writes| > 4 || |c.deletes| > 4 { return Some(TooMany); }
      var checked: map<string, nat>, mutations: set<string>, encoded: seq<string>;
      checked, error := ValidateChecks(c.checks);
      if error.Some? { return; }
      mutations, encoded, error := ValidateWrites(env, checked, c.writes);
      if error.Some? { return; }
      error := ValidateDeletes(checked, c.writes, c.deletes);
      if error.Some? { return; }
      var rows: Table;
      rows, error := Transaction(env, drafts, c, encoded, faults);
      if error.None? { drafts := rows; }
    }

    /** Reading by key and by index column gives, in every table commits can produce, exactly the drafts a
        scan of all stored drafts would select. */
    method Read(env: Env, input: DraftRead) returns (result: Result<map<string, ImageDraft>>)
      ensures result.Success? ==> ReadOk(input) && result.value == Selected(env, drafts, input)
      ensures ReadOk(input) && TableInv(env, drafts) ==> result == Success(FullScan(env, drafts, input))
    {
      hide KeyOk, RowInv, Indexed, FullScan, TableInv;
      if |input.keys| > 8 { return Failure(TooMany); }
      var records, error := ReadKeys(env, drafts, input.keys);
      if error.Some? { return Failure(error.value); }
      ghost var wanted := Elements(input.keys);
      if input.recoveryOwner.Some? {
        var owner := input.recoveryOwner.value;
        if !KeyOk(owner) { return Failure(InvalidKey); }
        var rows := set k | k in drafts && Indexed(owner, drafts[k]);
        records, error := ReadRows(env, drafts, rows, records, wanted);
        if error.Some? { return Failure(error.value); }
        wanted := wanted + rows;
      }
      assert records == Selected(env, drafts, input);
      if TableInv(env, drafts) { SelectedIsFullScan(env, drafts, input); }
      result := Success(records);
    }
  }
}
