/** The worker loop of a remote session: commands go to the channel, bytes read from the channel are
    decoded and go to the view. What the network, the clock and the other threads do in one turn of
    the loop is a `Round`; a run is any finite sequence of rounds. */
module SessionLoop {
  import opened Common
  import opened Utf8
  import opened OutputBuffers
  import opened SessionCommands

  const FLUSH_THRESHOLD_BYTES := 64 * 1024
  const STARTUP_OUTPUT_BUFFER_LIMIT_BYTES := 1_000_000
  const OUTPUT_READY_TIMEOUT_MS := 5_000
  const READ_BUFFER_BYTES := 8192

  // ------------------------------------------------------------ nonblocking writes

  datatype WriteOutcome = Accepted(n: nat) | Interrupted | WouldBlock(socketFailed: bool) | WriteFailed

  /** `Unfinished`: the run ends while the write is still waiting for the socket. */
  datatype WriteResult = Written | Failed | Unfinished

  predicate Retryable(o: WriteOutcome) { o.Interrupted? || o == WouldBlock(false) }

  /** An answer after which a write gives up: an error, no progress, or a failed wait for the socket. */
  predicate GivesUp(o: WriteOutcome) { o.WriteFailed? || o == WouldBlock(true) || o == Accepted(0) }

  /** How writing `left` bytes ends from answer `k` on, and how many of them are accepted. */
  function WriteEnd(left: nat, script: seq<WriteOutcome>, k: nat): (r: (WriteResult, nat))
    ensures r.1 <= left && (r.0.Written? <==> r.1 == left)
    decreases |script| - k
  {
    if left == 0 then (Written, 0)
    else if k >= |script| then (Unfinished, 0)
    else if GivesUp(script[k]) then (Failed, 0)
    else if Retryable(script[k]) then WriteEnd(left, script, k + 1)
    else
      var n := Min(script[k].n, left);
      var (result, more) := WriteEnd(left - n, script, k + 1);
      (result, n + more)
  }

  /** A write fails only at an answer that gives up, and waits for ever only if there is none. */
  lemma {:induction false} WriteEndCause(left: nat, script: seq<WriteOutcome>, k: nat)
    ensures WriteEnd(left, script, k).0.Failed? ==> exists i | k <= i < |script| :: GivesUp(script[i])
    ensures WriteEnd(left, script, k).0.Unfinished? ==> forall i | k <= i < |script| :: !GivesUp(script[i])
    decreases |script| - k
  {
    if left > 0 && k < |script| && !GivesUp(script[k]) {
      WriteEndCause(if Retryable(script[k]) then left else left - Min(script[k].n, left), script, k + 1);
    }
  }

  /** The bytes the first `n` answers accept, if so many are left. */
  function AcceptedBy(script: seq<WriteOutcome>, n: nat): nat
    requires n <= |script|
  {
    if n == 0 then 0 else AcceptedBy(script, n - 1) + if script[n - 1].Accepted? then script[n - 1].n else 0
  }

  /** The first `n` answers let the write go on. */
  predicate LetsGoOn(script: seq<WriteOutcome>, n: nat)
    requires n <= |script|
  {
    forall i | 0 <= i < n :: !script[i].WriteFailed? && script[i] != WouldBlock(true) && script[i] != Accepted(0)
  }

  /** The write has to give up at answer `n`. */
  predicate StopsAt(script: seq<WriteOutcome>, n: nat)
    requires n < |script|
  {
    LetsGoOn(script, n) && (script[n].WriteFailed? || script[n] == WouldBlock(true) || script[n] == Accepted(0))
  }

  predicate WrittenBy(left: nat, script: seq<WriteOutcome>, n: nat)
    requires n <= |script|
  {
    LetsGoOn(script, n) && AcceptedBy(script, n) >= left
  }

  lemma {:induction false} WriteFrom(left: nat, script: seq<WriteOutcome>, k: nat, total: nat)
    requires k <= |script| && LetsGoOn(script, k) && AcceptedBy(script, k) + left == total
    ensures WriteEnd(left, script, k).0.Written? <==> exists n | k <= n <= |script| :: WrittenBy(total, script, n)
    ensures WriteEnd(left, script, k).0.Failed? ==> exists n | k <= n < |script| :: StopsAt(script, n)
    decreases |script| - k
  {
    if left == 0 {
      assert WrittenBy(total, script, k);
    } else if k < |script| {
      if GivesUp(script[k]) {
        assert StopsAt(script, k) && !WrittenBy(total, script, k);
        assert forall n | k < n <= |script| :: !LetsGoOn(script, n);
      } else {
        var n := if script[k].Accepted? then script[k].n else 0;
        assert AcceptedBy(script, k + 1) + left == total + n;
        if n >= left {
          assert WrittenBy(total, script, k + 1);
        } else {
          WriteFrom(left - n, script, k + 1, total);
          assert !WrittenBy(total, script, k);
        }
      }
    } else {
      assert !WrittenBy(total, script, k);
    }
  }

  /** A write completes exactly if some number of answers that let it go on accept all of its bytes, and
      fails only where an answer does not let it go on. */
  lemma WriteEndIff(left: nat, script: seq<WriteOutcome>)
    ensures WriteEnd(left, script, 0).0.Written? <==> exists n | 0 <= n <= |script| :: WrittenBy(left, script, n)
    ensures WriteEnd(left, script, 0).0.Failed? ==> exists n | 0 <= n < |script| :: StopsAt(script, n)
  {
    WriteFrom(left, script, 0, left);
  }

  /** Repeats `channel.write` on the rest of `bytes`. Whatever happens, the channel has accepted a
      prefix, each byte once; all of it exactly when the write succeeds. */
  method WriteAllNonblocking(bytes: Bytes, script: seq<WriteOutcome>) returns (result: WriteResult, accepted: Bytes)
    ensures accepted <= bytes && (result, |accepted|) == WriteEnd(|bytes|, script, 0)
    ensures result.Written? <==> accepted == bytes
  {
    var offset := 0;
    accepted := [];
    var i := 0;
    while offset < |bytes|
      invariant 0 <= offset <= |bytes| && i <= |script|
      invariant accepted == bytes[..offset]
      invariant var (r, n) := WriteEnd(|bytes| - offset, script, i); (r, offset + n) == WriteEnd(|bytes|, script, 0)
      decreases |script| - i
    {
      if i == |script| { return Unfinished, accepted; }
      match script[i] {
        case Accepted(n) =>
          if n == 0 { return Failed, accepted; }
          var written := Min(n, |bytes| - offset);
          accepted := accepted + bytes[offset..offset + written];
          offset := offset + written;
        case Interrupted =>
        case WouldBlock(socketFailed) =>
          if socketFailed { return Failed, accepted; }
        case WriteFailed => return Failed, accepted;
      }
      i := i + 1;
    }
    result := Written;
  }

  // ------------------------------------------------------------------------ rounds

  type ReadBytes = b: Bytes | 0 < |b| <= READ_BUFFER_BYTES witness [0]

  datatype ControlOutcome = ControlIdle | ControlProgress | ControlFailed
  datatype ReadOutcome = ReadZero(eof: bool) | ReadData(bytes: ReadBytes) | ReadRetry | ReadFailed
  datatype KeepaliveOutcome = KeepaliveNotDue | KeepaliveSent | KeepaliveFailed

  datatype Round = Round(
    control: ControlOutcome,
    outputReady: bool,
    elapsedMs: nat,
    commands: seq<SessionCommand>,
    controllerDropped: bool,
    writes: seq<seq<WriteOutcome>>,
    pausedAtRead: bool,
    read: ReadOutcome,
    keepalive: KeepaliveOutcome,
    pausedAtIdle: bool,
    waitFailed: bool)

  datatype Exit = ClosedLocally | ControllerDropped | RemoteExited | TransportFailed | StuckInWrite

  predicate ShouldReleaseStartupOutput(outputReady: bool, elapsedMs: nat, bufferedBytes: nat) {
    outputReady || elapsedMs > OUTPUT_READY_TIMEOUT_MS || bufferedBytes > STARTUP_OUTPUT_BUFFER_LIMIT_BYTES
  }

  /** The bytes a round that does not end the loop takes from the channel. */
  function RoundRead(r: Round): Bytes {
    if !r.pausedAtRead && r.read.ReadData? then r.read.bytes else []
  }

  function RoundsRead(rounds: seq<Round>): Bytes {
    if rounds == [] then [] else RoundsRead(rounds[..|rounds| - 1]) + RoundRead(rounds[|rounds| - 1])
  }

  function RoundsCommands(rounds: seq<Round>): seq<SessionCommand> {
    if rounds == [] then [] else RoundsCommands(rounds[..|rounds| - 1]) + rounds[|rounds| - 1].commands
  }

  /** The commands up to and including the first `Close`. */
  function UpToClose(commands: seq<SessionCommand>): seq<SessionCommand> {
    if commands == [] then []
    else if commands[0].Close? then [commands[0]]
    else [commands[0]] + UpToClose(commands[1..])
  }

  lemma {:induction false} UpToCloseAt(before: seq<SessionCommand>, after: seq<SessionCommand>)
    requires Close !in before
    ensures UpToClose(before + [Close] + after) == before + [Close]
  {
    var all := before + [Close] + after;
    if before != [] {
      UpToCloseAt(before[1..], after);
      assert all[1..] == before[1..] + [Close] + after;
      assert before + [Close] == [before[0]] + (before[1..] + [Close]);
    }
  }

  lemma {:induction false} UpToCloseSplit(commands: seq<SessionCommand>) returns (before: seq<SessionCommand>, after: seq<SessionCommand>)
    requires Close in commands
    ensures commands == before + [Close] + after && Close !in before
  {
    if commands[0].Close? {
      before, after := [], commands[1..];
    } else {
      before, after := UpToCloseSplit(commands[1..]);
      before := [commands[0]] + before;
    }
  }

  lemma {:induction false} UpToCloseWithout(commands: seq<SessionCommand>)
    requires Close !in commands
    ensures UpToClose(commands) == commands
  {
    if commands != [] { UpToCloseWithout(commands[1..]); }
  }

  // ------------------------------------------------- coalescing never crosses a close

  function Shift(prefix: seq<SessionCommand>, a: Accumulator): Accumulator {
    a.(merged := prefix + a.merged)
  }

  lemma AbsorbShift(prefix: seq<SessionCommand>, a: Accumulator, c: SessionCommand)
    ensures Absorb(Shift(prefix, a), c) == Shift(prefix, Absorb(a, c))
  {
    var r, w := PendingResize(a.resize), PendingWrite(a.write);
    ConcatAssociative(prefix, a.merged, r);
    ConcatAssociative(prefix, a.merged, w);
    ConcatAssociative(prefix, a.merged + r, w);
    ConcatAssociative(prefix, a.merged + r + w, [c]);
  }

  lemma FinishShift(prefix: seq<SessionCommand>, a: Accumulator)
    ensures Finish(Shift(prefix, a)) == prefix + Finish(a)
  {
    var r, w := PendingResize(a.resize), PendingWrite(a.write);
    ConcatAssociative(prefix, a.merged, r);
    ConcatAssociative(prefix, a.merged + r, w);
  }

  lemma CloseFlushes(a: Accumulator)
    ensures Absorb(a, Close) == Accumulator(Finish(a) + [Close], [], None)
  {
  }

  lemma {:induction false} ScanAfterClose(before: seq<SessionCommand>, after: seq<SessionCommand>)
    ensures Scan(before + [Close] + after) == Shift(Coalesce(before) + [Close], Scan(after))
  {
    hide Absorb, Finish;
    var all := before + [Close] + after;
    if after == [] {
      assert all[..|all| - 1] == before;
      CloseFlushes(Scan(before));
      var prefix := Coalesce(before) + [Close];
      assert prefix + [] == prefix;
    } else {
      var n := |after| - 1;
      ScanAfterClose(before, after[..n]);
      assert all[..|all| - 1] == before + [Close] + after[..n];
      AbsorbShift(Coalesce(before) + [Close], Scan(after[..n]), after[n]);
    }
  }

  lemma {:induction false} ScanWithoutClose(commands: seq<SessionCommand>)
    ensures Close in commands <==> Close in Scan(commands).merged
    ensures Close in commands <==> Close in Coalesce(commands)
  {
    if commands != [] {
      var n := |commands| - 1;
      ScanWithoutClose(commands[..n]);
      assert commands == commands[..n] + [commands[n]];
    }
  }

  /** What a batch sends before it closes the channel means what the batch says before its close. */
  lemma UpToCloseMeaning(commands: seq<SessionCommand>)
    ensures SameMeaning(Trace(UpToClose(Coalesce(commands))), Trace(UpToClose(commands)))
  {
    ScanWithoutClose(commands);
    if Close in commands {
      var before, after := UpToCloseSplit(commands);
      UpToCloseAt(before, after);
      ScanAfterClose(before, after);
      FinishShift(Coalesce(before) + [Close], Scan(after));
      ScanWithoutClose(before);
      UpToCloseAt(Coalesce(before), Coalesce(after));
      CoalesceKeepsMeaning(before);
      TraceAppend(Coalesce(before), Close);
      TraceAppend(before, Close);
      SameMeaningConcat(Trace(Coalesce(before)), Trace(before), Events(Close), Events(Close));
    } else {
      UpToCloseWithout(commands);
      UpToCloseWithout(Coalesce(commands));
      CoalesceKeepsMeaning(commands);
    }
  }

  // ---------------------------------------------------------------------- the loop

  /** What the channel got of one command whose write did not complete. */
  ghost predicate PartOf(part: seq<InputEvent>, c: SessionCommand) {
    || (c.Write? && exists data: Bytes :: data <= c.data && part == ByteEvents(data))
    || (c.WriteBytes? && exists bytes: Bytes :: bytes < c.bytes && part == [Chunk(bytes)])
    || (c.Resize? && part == [])
  }

  /** `delivered` breaks off inside command `i`. */
  ghost predicate BreaksOffAt(delivered: seq<InputEvent>, commands: seq<SessionCommand>, i: nat) {
    i < |commands| && exists part :: PartOf(part, commands[i]) && delivered == Trace(commands[..i]) + part
  }

  ghost predicate BreaksOff(delivered: seq<InputEvent>, commands: seq<SessionCommand>) {
    exists i | 0 <= i < |commands| :: BreaksOffAt(delivered, commands, i)
  }

  lemma TraceNext(commands: seq<SessionCommand>, i: nat)
    requires i < |commands|
    ensures Trace(commands[..i + 1]) == Trace(commands[..i]) + Events(commands[i])
  {
    assert commands[..i + 1] == commands[..i] + [commands[i]];
    TraceAppend(commands[..i], commands[i]);
  }

  datatype ApplyResult = Applied | SawClose | Broken(result: WriteResult)

  function ResizeEnd(script: seq<WriteOutcome>, k: nat): WriteResult
    decreases |script| - k
  {
    if k >= |script| then Unfinished
    else if Retryable(script[k]) then ResizeEnd(script, k + 1)
    else if script[k].Accepted? then Written
    else Failed
  }

  function CommandEnd(c: SessionCommand, script: seq<WriteOutcome>): WriteResult {
    match c
    case Write(data) => WriteEnd(|data|, script, 0).0
    case WriteBytes(bytes) => WriteEnd(|bytes|, script, 0).0
    case Resize(_, _) => ResizeEnd(script, 0)
    case Close => Written
  }

  function ScriptAt(scripts: seq<seq<WriteOutcome>>, i: nat): seq<WriteOutcome> { if i < |scripts| then scripts[i] else [] }

  /** How applying commands ends from command `i` on: at the first close or the first write that does not
      complete, whichever comes first. */
  function ApplyEnd(commands: seq<SessionCommand>, scripts: seq<seq<WriteOutcome>>, i: nat): ApplyResult
    decreases |commands| - i
  {
    if i >= |commands| then Applied
    else if commands[i].Close? then SawClose
    else
      var r := CommandEnd(commands[i], ScriptAt(scripts, i));
      if r.Written? then ApplyEnd(commands, scripts, i + 1) else Broken(r)
  }

  /** Writes coalesced commands to the channel, stopping at a close or at the first failure. */
  method ApplyCommands(commands: seq<SessionCommand>, scripts: seq<seq<WriteOutcome>>)
    returns (result: ApplyResult, delivered: seq<InputEvent>)
    ensures result == ApplyEnd(commands, scripts, 0)
    ensures result.Applied? ==> Close !in commands && delivered == Trace(commands)
    ensures result.SawClose? ==> Close in commands && delivered == Trace(UpToClose(commands))
    ensures result.Broken? ==> !result.result.Written? && BreaksOff(delivered, commands)
  {
    hide WriteEnd, ResizeEnd, BreaksOff, ByteEvents, UpToClose;
    delivered := [];
    EmptyTrace();
    for i := 0 to |commands|
      invariant delivered == Trace(commands[..i])
      invariant Close !in commands[..i]
      invariant ApplyEnd(commands, scripts, i) == ApplyEnd(commands, scripts, 0)
    {
      var script := ScriptAt(scripts, i);
      TraceNext(commands, i);
      match commands[i] {
        case Write(data) =>
          var r, accepted := WriteAllNonblocking(data, script);
          if !r.Written? {
            BreaksOffHere(commands, i, ByteEvents(accepted));
            return Broken(r), delivered + ByteEvents(accepted);
          }
          delivered := delivered + ByteEvents(accepted);
        case WriteBytes(bytes) =>
          var r, accepted := WriteAllNonblocking(bytes, script);
          if !r.Written? {
            BreaksOffHere(commands, i, [Chunk(accepted)]);
            return Broken(r), delivered + [Chunk(accepted)];
          }
          delivered := delivered + [Chunk(accepted)];
        case Resize(cols, rows) =>
          var r := ResizePtyNonblocking(script);
          if !r.Written? {
            BreaksOffHere(commands, i, []);
            return Broken(r), delivered + [];
          }
          delivered := delivered + [Size(cols, rows)];
        case Close =>
          assert commands == commands[..i] + [Close] + commands[i + 1..];
          UpToCloseAt(commands[..i], commands[i + 1..]);
          TraceAppend(commands[..i], Close);
          return SawClose, delivered + [Closed];
      }
    }
    assert commands[..|commands|] == commands;
    result := Applied;
  }

  lemma EmptyTrace()
    ensures Trace([]) == []
  {
  }

  lemma BreaksOffHere(commands: seq<SessionCommand>, i: nat, part: seq<InputEvent>)
    requires i < |commands| && PartOf(part, commands[i])
    ensures BreaksOff(Trace(commands[..i]) + part, commands)
  {
    assert BreaksOffAt(Trace(commands[..i]) + part, commands, i);
  }

  /** Repeats the window-size request until the first answer that is not a retry. */
  method ResizePtyNonblocking(script: seq<WriteOutcome>) returns (result: WriteResult)
    ensures result == ResizeEnd(script, 0)
    ensures result.Unfinished? <==> forall k | 0 <= k < |script| :: Retryable(script[k])
    ensures forall k | 0 <= k < |script| && !Retryable(script[k]) && (forall j | 0 <= j < k :: Retryable(script[j])) ::
              result == if script[k].Accepted? then Written else Failed
  {
    for i := 0 to |script|
      invariant forall k | 0 <= k < i :: Retryable(script[k])
      invariant ResizeEnd(script, i) == ResizeEnd(script, 0)
    {
      match script[i] {
        case Accepted(_) => return Written;
        case Interrupted =>
        case WouldBlock(socketFailed) => if socketFailed { return Failed; }
        case WriteFailed => return Failed;
      }
    }
    result := Unfinished;
  }

  /** After `before`, the channel got a trace of `commands` that breaks off inside one of them. */
  ghost predicate DeliveredPart(delivered: seq<InputEvent>, before: seq<InputEvent>, commands: seq<SessionCommand>) {
    exists sent :: delivered == before + sent && BreaksOff(sent, commands)
  }

  function CommandsExit(commands: seq<SessionCommand>, scripts: seq<seq<WriteOutcome>>): Option<Exit> {
    match ApplyEnd(Coalesce(commands), scripts, 0)
    case Applied => None
    case SawClose => Some(ClosedLocally)
    case Broken(r) => Some(if r.Failed? then TransportFailed else StuckInWrite)
  }

  function ReadExit(r: Round): Option<Exit> {
    if r.pausedAtRead then None
    else if r.read == ReadZero(true) then Some(RemoteExited)
    else if r.read.ReadFailed? then Some(TransportFailed)
    else None
  }

  predicate MadeProgress(r: Round) {
    r.control.ControlProgress? || Coalesce(r.commands) != [] || (!r.pausedAtRead && r.read.ReadData?)
  }

  /** How one turn of the loop ends: whatever comes first of a failed control drain, a gone controller, the
      commands, the read, and, without progress, the keepalive or the wait. */
  function RoundExit(r: Round): Option<Exit> {
    if r.control.ControlFailed? then Some(TransportFailed)
    else if r.controllerDropped then Some(ControllerDropped)
    else if CommandsExit(r.commands, r.writes).Some? then CommandsExit(r.commands, r.writes)
    else if ReadExit(r).Some? then ReadExit(r)
    else if MadeProgress(r) then None
    else IdleExit(r)
  }

  /** A write of the turn does not complete. */
  predicate Broke(r: Round) {
    !r.control.ControlFailed? && !r.controllerDropped && ApplyEnd(Coalesce(r.commands), r.writes, 0).Broken?
  }

  /** Each exit and its cause. */
  lemma RoundExitIff(r: Round)
    ensures var undisturbed := !r.control.ControlFailed? && !r.controllerDropped;
            var sent := ApplyEnd(Coalesce(r.commands), r.writes, 0);
            && (RoundExit(r) == Some(ControllerDropped) <==> !r.control.ControlFailed? && r.controllerDropped)
            && (RoundExit(r) == Some(ClosedLocally) <==> undisturbed && sent.SawClose?)
            && (RoundExit(r) == Some(StuckInWrite) <==> undisturbed && sent.Broken? && !sent.result.Failed?)
            && (RoundExit(r) == Some(RemoteExited) <==> undisturbed && sent.Applied? && !r.pausedAtRead && r.read == ReadZero(true))
            && (RoundExit(r) == Some(TransportFailed) <==>
                  || r.control.ControlFailed?
                  || (undisturbed && sent == Broken(Failed))
                  || (undisturbed && sent.Applied? && !r.pausedAtRead && r.read.ReadFailed?)
                  || (&& undisturbed && sent.Applied? && (r.pausedAtRead || (r.read != ReadZero(true) && !r.read.ReadFailed?))
                      // no progress, and then the keepalive fails, or none is due and the wait fails
                      && !r.control.ControlProgress? && Coalesce(r.commands) == [] && (r.pausedAtRead || !r.read.ReadData?)
                      && (r.keepalive.KeepaliveFailed? || (r.keepalive.KeepaliveNotDue? && !r.pausedAtIdle && r.waitFailed))))
  {
    hide ApplyEnd, Coalesce;
  }

  /** Command `k` is where applying the batch ends. */
  predicate EndsAt(commands: seq<SessionCommand>, scripts: seq<seq<WriteOutcome>>, k: nat)
    requires k < |commands|
  {
    commands[k].Close? || !CommandEnd(commands[k], ScriptAt(scripts, k)).Written?
  }

  /** Applying a batch ends at its first close or incomplete write, and without one covers all of it. */
  lemma {:induction false} ApplyEndsAtFirst(commands: seq<SessionCommand>, scripts: seq<seq<WriteOutcome>>, i: nat, k: nat)
    requires i <= k <= |commands| && forall j | i <= j < k :: !EndsAt(commands, scripts, j)
    ensures k == |commands| ==> ApplyEnd(commands, scripts, i).Applied?
    ensures k < |commands| && commands[k].Close? ==> ApplyEnd(commands, scripts, i).SawClose?
    ensures k < |commands| && !commands[k].Close? && EndsAt(commands, scripts, k) ==>
              ApplyEnd(commands, scripts, i) == Broken(CommandEnd(commands[k], ScriptAt(scripts, k)))
    decreases k - i
  {
    if i < k {
      assert !EndsAt(commands, scripts, i);
      ApplyEndsAtFirst(commands, scripts, i + 1, k);
    }
  }

  predicate AnswersGoOn(script: seq<WriteOutcome>) {
    forall o | o in script :: !o.WriteFailed? && o != WouldBlock(true) && o != Accepted(0)
  }

  /** Nothing in the round asks the loop to end: no failed control drain, no gone controller, no close, no
      failing answer, no end of file, no failed read, keepalive or wait. */
  predicate Harmless(r: Round) {
    && !r.control.ControlFailed? && !r.controllerDropped && Close !in r.commands
    && (forall script | script in r.writes :: AnswersGoOn(script))
    && (r.pausedAtRead || (r.read != ReadZero(true) && !r.read.ReadFailed?))
    && !r.keepalive.KeepaliveFailed? && !r.waitFailed
  }

  lemma {:induction false} ResizeGoesOn(script: seq<WriteOutcome>, k: nat)
    requires AnswersGoOn(script)
    ensures !ResizeEnd(script, k).Failed?
    decreases |script| - k
  {
    if k < |script| {
      assert script[k] in script;
      if Retryable(script[k]) { ResizeGoesOn(script, k + 1); }
    }
  }

  lemma {:induction false} ApplyGoesOn(commands: seq<SessionCommand>, scripts: seq<seq<WriteOutcome>>, i: nat)
    requires Close !in commands && forall script | script in scripts :: AnswersGoOn(script)
    ensures ApplyEnd(commands, scripts, i) in {Applied, Broken(Unfinished)}
    decreases |commands| - i
  {
    if i < |commands| {
      assert commands[i] in commands;
      var script := ScriptAt(scripts, i);
      if i < |scripts| { assert script in scripts; }
      ResizeGoesOn(script, 0);
      assert forall j | 0 <= j < |script| :: script[j] in script && !GivesUp(script[j]);
      match commands[i] {
        case Write(data) => WriteEndCause(|data|, script, 0);
        case WriteBytes(bytes) => WriteEndCause(|bytes|, script, 0);
        case _ =>
      }
      ApplyGoesOn(commands, scripts, i + 1);
    }
  }

  /** A harmless round does not end the loop: a healthy session goes on, unless a write is still waiting. */
  lemma HarmlessGoesOn(r: Round)
    requires Harmless(r)
    ensures RoundExit(r) in {None, Some(StuckInWrite)}
  {
    hide Coalesce, ApplyEnd;
    ScanWithoutClose(r.commands);
    ApplyGoesOn(Coalesce(r.commands), r.writes, 0);
    RoundExitIff(r);
  }

  class SshSession {
    const initialOutput: Bytes
    const buffer: OutputBuffer
    var outputLive: bool
    /** The chunks handed to the view, oldest first. */
    var emitted: seq<Bytes>
    /** All bytes read from the channel. */
    ghost var readBytes: Bytes
    /** What the channel accepted. */
    var delivered: seq<InputEvent>
    /** The commands the loop has applied. */
    ghost var applied: seq<SessionCommand>

    /** Nothing read is lost or emitted twice, nothing is emitted before the gate opens, and once it
        is open less than one threshold of text is held back. */
    ghost predicate OutputValid()
      reads this, buffer
    {
      && Conserves(emitted, buffer.pendingOutput, buffer.pendingBytes, initialOutput + readBytes)
      && (forall chunk | chunk in emitted :: chunk != [])
      && (!outputLive ==> emitted == [])
      && (outputLive ==> |buffer.pendingOutput| < FLUSH_THRESHOLD_BYTES)
    }

    ghost predicate Valid()
      reads this, buffer
    {
      OutputValid() && SameMeaning(delivered, Trace(applied))
    }

    constructor (initial: Bytes)
      ensures Valid() && fresh(buffer)
      ensures initialOutput == initial && readBytes == [] && applied == [] && emitted == [] && !outputLive
    {
      initialOutput := initial;
      buffer := new OutputBuffer(initial);
      outputLive, emitted, readBytes, delivered, applied := false, [], [], [], [];
      new;
      buffer.DrainDecodedOutput();
      assert initialOutput + readBytes == initialOutput;
      assert Flatten(emitted) == [];
    }

    /** Hands the decoded text to the view. */
    method EmitPending()
      requires Conserves(emitted, buffer.pendingOutput, buffer.pendingBytes, initialOutput + readBytes)
      requires forall chunk | chunk in emitted :: chunk != []
      requires buffer.pendingOutput != []
      modifies this`emitted, buffer`pendingOutput
      ensures Conserves(emitted, buffer.pendingOutput, buffer.pendingBytes, initialOutput + readBytes)
      ensures forall chunk | chunk in emitted :: chunk != []
      ensures buffer.pendingOutput == [] && emitted == old(emitted) + [old(buffer.pendingOutput)]
    {
      ConservesEmit(emitted, buffer.pendingOutput, buffer.pendingBytes, initialOutput + readBytes);
      var chunk := buffer.TakePendingOutput();
      emitted := emitted + chunk;
    }

    /** Startup output is released once, and everything held back goes out at that moment. */
    method ReleaseStartupOutput(outputReady: bool, elapsedMs: nat)
      requires Valid()
      modifies this`outputLive, this`emitted, buffer`pendingOutput
      ensures Valid()
      ensures outputLive == (old(outputLive) || outputReady || elapsedMs > 5_000 || |old(buffer.pendingOutput)| > 1_000_000)
      ensures outputLive && !old(outputLive) ==> buffer.pendingOutput == []
      ensures outputLive == old(outputLive) ==> emitted == old(emitted) && buffer.pendingOutput == old(buffer.pendingOutput)
    {
      if !outputLive && ShouldReleaseStartupOutput(outputReady, elapsedMs, |buffer.pendingOutput|) {
        outputLive := true;
        if buffer.pendingOutput != [] {
          EmitPending();
        }
      }
    }

    /** Takes `bytes` from the channel, decodes them, and emits when enough text has gathered. */
    method TakeRead(bytes: ReadBytes)
      requires Valid()
      modifies this`emitted, this`readBytes, buffer
      ensures Valid() && readBytes == old(readBytes) + bytes
      ensures !outputLive ==> buffer.pendingOutput == old(buffer.pendingOutput) + Drained(old(buffer.pendingBytes) + bytes)
    {
      hide Conserves, Drained, Kept, Flatten;
      ghost var input := initialOutput + readBytes;
      ConservesRead(emitted, buffer.pendingOutput, buffer.pendingBytes, input, bytes);
      buffer.Extend(bytes);
      buffer.DrainDecodedOutput();
      assert initialOutput + (readBytes + bytes) == input + bytes;
      readBytes := readBytes + bytes;
      if outputLive && |buffer.pendingOutput| >= FLUSH_THRESHOLD_BYTES {
        EmitPending();
      }
    }

    /** Coalesces and applies the commands of one round. */
    method RunCommands(commands: seq<SessionCommand>, scripts: seq<seq<WriteOutcome>>)
      returns (exit: Option<Exit>, madeProgress: bool)
      requires SameMeaning(delivered, Trace(applied))
      modifies this`delivered, this`applied
      ensures exit == CommandsExit(commands, scripts)
      ensures exit.None? ==> Close !in commands && applied == old(applied) + commands
      ensures exit == Some(TransportFailed) || exit == Some(StuckInWrite) ==>
                applied == old(applied) && DeliveredPart(delivered, old(delivered), Coalesce(commands))
      ensures exit == Some(ClosedLocally) ==> Close in commands && applied == old(applied) + UpToClose(commands)
      ensures exit.None? || exit == Some(ClosedLocally) ==> SameMeaning(delivered, Trace(applied))
      ensures madeProgress <==> exit.None? && Coalesce(commands) != []
    {
      var merged := CoalesceSessionCommands(commands);
      var outcome, sent := ApplyCommands(merged, scripts);
      UpToCloseMeaning(commands);
      ScanWithoutClose(commands);
      UpToCloseOrAll(commands);
      match outcome {
        case Broken(result) =>
          assert DeliveredPart(delivered + sent, delivered, merged);
          delivered := delivered + sent;
          return Some(if result.Failed? then TransportFailed else StuckInWrite), false;
        case SawClose =>
          ApplyMeaning(delivered, applied, sent, UpToClose(commands));
          delivered, applied := delivered + sent, applied + UpToClose(commands);
          return Some(ClosedLocally), false;
        case Applied =>
          ApplyMeaning(delivered, applied, sent, commands);
          delivered, applied := delivered + sent, applied + commands;
          return None, merged != [];
      }
    }

    /** The read of one round, unless output is paused. */
    method PollOutput(paused: bool, read: ReadOutcome) returns (exit: Option<Exit>, madeProgress: bool)
      requires Valid()
      modifies this`emitted, this`readBytes, buffer
      ensures Valid()
      ensures exit == if paused then None else if read == ReadZero(true) then Some(RemoteExited) else if read.ReadFailed? then Some(TransportFailed) else None
      ensures readBytes == old(readBytes) + (if !paused && read.ReadData? then read.bytes else [])
      ensures madeProgress <==> !paused && read.ReadData?
      ensures outputLive && !paused && read.ReadRetry? ==> buffer.pendingOutput == []
      ensures old(buffer.pendingOutput) == [] && (paused || !read.ReadData?) ==> buffer.pendingOutput == []
    {
      if paused { return None, false; }
      match read {
        case ReadZero(eof) => return if eof then Some(RemoteExited) else None, false;
        case ReadData(bytes) =>
          TakeRead(bytes);
          return None, true;
        case ReadRetry =>
          if outputLive && buffer.pendingOutput != [] {
            EmitPending();
          }
          return None, false;
        case ReadFailed => return Some(TransportFailed), false;
      }
    }

    /** Closes the channel for a controller that went away. */
    method ShutDown()
      requires SameMeaning(delivered, Trace(applied))
      modifies this`delivered, this`applied
      ensures delivered == old(delivered) + [Closed] && applied == old(applied) + [Close]
      ensures SameMeaning(delivered, Trace(applied))
    {
      TraceOfOne(Close);
      ApplyMeaning(delivered, applied, [Closed], [Close]);
      delivered, applied := delivered + [Closed], applied + [Close];
    }

    /** One turn of the loop; `exit` is set when the loop returns. */
    method RunRound(r: Round) returns (exit: Option<Exit>)
      requires Valid()
      modifies this, buffer
      ensures OutputValid() && (outputLive ==> |buffer.pendingOutput| < 65_536)
      // the exit, and what the channel has got by then
      ensures exit == RoundExit(r)
      ensures r.control.ControlFailed? ==> Valid() && applied == old(applied) && delivered == old(delivered)
      ensures Broke(r) ==> applied == old(applied) && DeliveredPart(delivered, old(delivered), Coalesce(r.commands))
      ensures !Broke(r) ==> Valid()
      ensures Broke(r) ==> exit == Some(TransportFailed) || exit == Some(StuckInWrite)
      ensures exit == Some(StuckInWrite) ==> Broke(r)
      ensures exit == Some(TransportFailed) && !r.control.ControlFailed? && !Broke(r) ==> applied == old(applied) + r.commands
      // the gate
      ensures !r.control.ControlFailed? ==>
                outputLive == (old(outputLive) || r.outputReady || r.elapsedMs > 5_000 || |old(buffer.pendingOutput)| > 1_000_000)
      ensures r.control.ControlFailed? ==> exit == Some(TransportFailed) && outputLive == old(outputLive)
      ensures outputLive && !old(outputLive) && (exit.Some? || RoundRead(r) == []) ==> buffer.pendingOutput == []
      // bytes are read only by a round that goes on
      ensures readBytes == old(readBytes) + (if exit.None? && !r.pausedAtRead && r.read.ReadData? then r.read.bytes else [])
      ensures exit.None? ==> !r.controllerDropped && Close !in r.commands && applied == old(applied) + r.commands
      ensures exit.None? && outputLive && !r.pausedAtRead && r.read.ReadRetry? ==> buffer.pendingOutput == []
      // the exits
      ensures exit == Some(ControllerDropped) <==> !r.control.ControlFailed? && r.controllerDropped
      ensures exit == Some(ControllerDropped) ==> applied == old(applied) + [Close] && delivered == old(delivered) + [Closed]
      ensures exit == Some(ClosedLocally) ==> Close in r.commands && applied == old(applied) + UpToClose(r.commands)
      ensures exit == Some(RemoteExited) ==> !r.pausedAtRead && r.read == ReadZero(true) && applied == old(applied) + r.commands
    {
      hide SameMeaning, Conserves, ApplyEnd, Coalesce, DeliveredPart, UpToClose;
      if r.control.ControlFailed? { return Some(TransportFailed); }
      ReleaseStartupOutput(r.outputReady, r.elapsedMs);
      if r.controllerDropped {
        ShutDown();
        return Some(ControllerDropped);
      }
      var wrote, gotData;
      exit, wrote := RunCommands(r.commands, r.writes);
      if exit.Some? { return; }
      exit, gotData := PollOutput(r.pausedAtRead, r.read);
      if exit.None? && !gotData && !wrote && !r.control.ControlProgress? {
        exit := IdleExit(r);
      }
    }

    /** The final flush: the view then has the lossy decoding of everything read. */
    method Flush()
      requires OutputValid()
      modifies this`emitted, buffer
      ensures Flatten(emitted) == Lossy(initialOutput + readBytes)
      ensures !outputLive ==> |emitted| <= 1
      ensures forall chunk | chunk in emitted :: chunk != []
    {
      ghost var before, text, kept := emitted, buffer.pendingOutput, buffer.pendingBytes;
      var final := buffer.FlushPendingOutput();
      ConservesFlush(before, text, kept, initialOutput + readBytes, final);
      emitted := emitted + final;
    }

    /** Runs the loop until it returns or the run ends; a loop that returns flushes. `completed`
        counts the rounds that went on. */
    method Run(rounds: seq<Round>) returns (exit: Option<Exit>, completed: nat)
      requires Valid() && readBytes == [] && applied == [] && !outputLive
      modifies this, buffer
      // the loop ends in the first round that has an exit, with that exit
      ensures completed <= |rounds| && (exit.None? ==> completed == |rounds|)
      ensures forall k | 0 <= k < completed :: RoundExit(rounds[k]).None?
      ensures exit.Some? ==> completed < |rounds| && exit == RoundExit(rounds[completed])
      // a healthy session is not ended
      ensures (forall k | 0 <= k < |rounds| :: Harmless(rounds[k])) ==> exit in {None, Some(StuckInWrite)}
      ensures readBytes == RoundsRead(rounds[..completed])
      // everything read reaches the view, however it was chunked, paused or gated
      ensures exit.Some? && exit != Some(StuckInWrite) ==> Flatten(emitted) == Lossy(initialOutput + readBytes)
      ensures exit.None? || exit == Some(StuckInWrite) ==> OutputValid()
      // before the gate opens only the final flush may emit
      ensures !outputLive ==> |emitted| <= 1 && (exit.None? ==> emitted == [])
      ensures forall chunk | chunk in emitted :: chunk != []
      // input keeps its meaning
      ensures exit.None? ==> SameMeaning(delivered, Trace(RoundsCommands(rounds)))
      ensures exit == Some(ClosedLocally) ==>
                && completed < |rounds|
                && SameMeaning(delivered, Trace(RoundsCommands(rounds[..completed]) + UpToClose(rounds[completed].commands)))
      ensures exit == Some(RemoteExited) ==>
                && completed < |rounds|
                && SameMeaning(delivered, Trace(RoundsCommands(rounds[..completed + 1])))
      // a failed transport: nothing of the last batch, all of it, or a trace that breaks off inside it
      ensures exit == Some(TransportFailed) || exit == Some(StuckInWrite) ==>
                completed < |rounds| && DeliveredAtFailure(delivered, rounds, completed)
      // a batch dequeued together with the disconnection is not written
      ensures exit == Some(ControllerDropped) ==>
                && completed < |rounds| && rounds[completed].controllerDropped
                && SameMeaning(delivered, Trace(RoundsCommands(rounds[..completed]) + [Close]))
    {
      hide SameMeaning, Conserves, RoundExit, Broke, DeliveredPart, Coalesce, Trace, Harmless;
      exit, completed := None, 0;
      while completed < |rounds|
        invariant exit.None? && 0 <= completed <= |rounds|
        invariant Valid() && readBytes == RoundsRead(rounds[..completed])
        invariant applied == RoundsCommands(rounds[..completed])
        invariant forall k | 0 <= k < completed :: RoundExit(rounds[k]).None?
      {
        assert rounds[..completed + 1][..completed] == rounds[..completed];
        ghost var before := delivered;
        assert SameMeaning(before, Trace(RoundsCommands(rounds[..completed])));
        exit := RunRound(rounds[completed]);
        if exit.Some? {
          if Harmless(rounds[completed]) { HarmlessGoesOn(rounds[completed]); }
          if exit.value.StuckInWrite? { return; }
          Flush();
          return;
        }
        completed := completed + 1;
      }
      assert rounds[..completed] == rounds;
    }
  }

  /** What the channel has got when round `n` fails. */
  ghost predicate DeliveredAtFailure(delivered: seq<InputEvent>, rounds: seq<Round>, n: nat)
    requires n < |rounds|
  {
    if rounds[n].control.ControlFailed? then SameMeaning(delivered, Trace(RoundsCommands(rounds[..n])))
    else if Broke(rounds[n]) then
      exists before :: SameMeaning(before, Trace(RoundsCommands(rounds[..n]))) && DeliveredPart(delivered, before, Coalesce(rounds[n].commands))
    else SameMeaning(delivered, Trace(RoundsCommands(rounds[..n + 1])))
  }

  /** A round without progress sends a due keepalive, or else waits for the socket or a wakeup. */
  function IdleExit(r: Round): Option<Exit> {
    match r.keepalive
    case KeepaliveSent => None
    case KeepaliveFailed => Some(TransportFailed)
    case KeepaliveNotDue => if !r.pausedAtIdle && r.waitFailed then Some(TransportFailed) else None
  }

  lemma UpToCloseOrAll(commands: seq<SessionCommand>)
    ensures Close !in commands ==> UpToClose(commands) == commands
  {
    if Close !in commands { UpToCloseWithout(commands); }
  }

  lemma ApplyMeaning(delivered: seq<InputEvent>, applied: seq<SessionCommand>, sent: seq<InputEvent>, commands: seq<SessionCommand>)
    requires SameMeaning(delivered, Trace(applied)) && SameMeaning(sent, Trace(commands))
    ensures SameMeaning(delivered + sent, Trace(applied + commands))
  {
    TraceConcat(applied, commands);
    SameMeaningConcat(delivered, Trace(applied), sent, Trace(commands));
  }
}
