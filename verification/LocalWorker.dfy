/** The worker of a local shell session: it multiplexes commands, child exit, view-state changes,
    reader output and a startup timeout, holds output back until the view is ready, and on the way
    out collects what is still in flight. What the outside does is given as finite scripts; an
    activity whose channel is not selected in a turn does not arrive in that turn. */
module LocalWorker {
  import opened Common
  import opened Utf8
  import opened OutputBuffers

  const OUTPUT_READY_TIMEOUT_MS := 5_000
  const STARTUP_OUTPUT_BUFFER_LIMIT_BYTES := 1_000_000
  const OUTPUT_DRAIN_BUDGET := 64

  datatype Activity =
    | Input
    | CloseCommand
    | ControllerGone
    | ChildExited
    | OutputStateChanged
    | Output(first: Bytes, queued: seq<Bytes>)
    | OutputClosed
    | StartupTimeout

  /** One turn of the main loop: what the flags read, how long it has run, and what `select` returns. */
  datatype Turn = Turn(paused: bool, ready: bool, elapsedMs: nat, activity: Activity)

  datatype ShutdownEvent = ShutdownTimeout | LateOutput(bytes: Bytes) | LateClosed | LateChildExit

  datatype GateActivity = GateInput | GateClose | GateControllerGone | GateStateChanged | GateStateGone | GateTimeout
  datatype GateTurn = GateTurn(paused: bool, ready: bool, elapsedMs: nat, activity: GateActivity)

  /** How a run ended: the worker finished, or the script stopped while it was still in a loop. */
  datatype End = Finished | StillInMainLoop | StillShuttingDown | StillGated

  predicate ShouldReleaseStartupOutput(live: bool, paused: bool, ready: bool, elapsedMs: nat, bufferedBytes: nat) {
    && !live && !paused
    && (ready || elapsedMs >= OUTPUT_READY_TIMEOUT_MS || bufferedBytes > STARTUP_OUTPUT_BUFFER_LIMIT_BYTES)
  }

  /** The chunks one output activity takes, in the reader's order: the first and at most 63 queued ones. */
  function Taken(t: Turn): seq<Bytes>
    requires t.activity.Output?
  {
    ([t.activity.first] + t.activity.queued)[..Min(OUTPUT_DRAIN_BUDGET, |t.activity.queued| + 1)]
  }

  predicate Leaves(a: Activity) { a.CloseCommand? || a.ControllerGone? || a.ChildExited? }

  /** The reader's bytes that arrive during `turns`: none while output is paused, none after the
      reader has ended, none after the loop is left. */
  function Arriving(turns: seq<Turn>, readerClosed: bool): Bytes {
    if turns == [] || (Leaves(turns[0].activity)) then []
    else
      var t := turns[0];
      (if t.activity.Output? && !t.paused && !readerClosed then Flatten(Taken(t)) else [])
      + Arriving(turns[1..], readerClosed || (t.activity.OutputClosed? && !t.paused))
  }

  /** The activity with which the main loop is left. */
  function Leaving(turns: seq<Turn>): Option<Activity> {
    if turns == [] then None else if Leaves(turns[0].activity) then Some(turns[0].activity) else Leaving(turns[1..])
  }

  /** Whether the reader has ended by the time the main loop is left. */
  function ReaderClosedAfter(turns: seq<Turn>, readerClosed: bool): bool {
    if turns == [] || Leaves(turns[0].activity) then readerClosed
    else ReaderClosedAfter(turns[1..], readerClosed || (turns[0].activity.OutputClosed? && !turns[0].paused))
  }

  /** Whether the gate is open when the main loop is left: each turn looks at the text decoded from what
      was read before it. */
  function LiveAfter(turns: seq<Turn>, live: bool, readerClosed: bool, input: Bytes): bool {
    if turns == [] then live
    else
      var t := turns[0];
      var released := live || ShouldReleaseStartupOutput(false, t.paused, t.ready, t.elapsedMs, |Drained(input)|);
      if Leaves(t.activity) then released
      else LiveAfter(turns[1..], released, readerClosed || (t.activity.OutputClosed? && !t.paused),
                     input + if t.activity.Output? && !t.paused && !readerClosed then Flatten(Taken(t)) else [])
  }

  /** Whether the wait for the reader and the child comes to an end within `events`. */
  function WaitEnds(events: seq<ShutdownEvent>, readerClosed: bool, childExited: bool): bool {
    if readerClosed && childExited then true
    else if events == [] then false
    else events[0].ShutdownTimeout? || WaitEnds(events[1..], readerClosed || events[0].LateClosed?, childExited || events[0].LateChildExit?)
  }

  function ReaderClosedLate(events: seq<ShutdownEvent>, readerClosed: bool, childExited: bool): bool {
    if events == [] || events[0].ShutdownTimeout? || (readerClosed && childExited) then readerClosed
    else ReaderClosedLate(events[1..], readerClosed || events[0].LateClosed?, childExited || events[0].LateChildExit?)
  }

  datatype GateEnd = Released | Closed | Abandoned | Waiting

  /** How waiting at the gate ends: at the first turn that opens it or gives it up. */
  function GateOutcome(turns: seq<GateTurn>, bufferedBytes: nat): GateEnd {
    if turns == [] then Waiting
    else
      var t := turns[0];
      if ShouldReleaseStartupOutput(false, t.paused, t.ready, t.elapsedMs, bufferedBytes) then Released
      else if t.activity.GateClose? then Closed
      else if t.activity.GateControllerGone? || t.activity.GateStateGone? then Abandoned
      else GateOutcome(turns[1..], bufferedBytes)
  }

  /** The bytes that arrive while the worker waits for the reader and the child. */
  function ArrivingLate(events: seq<ShutdownEvent>, readerClosed: bool, childExited: bool): Bytes {
    if events == [] || events[0].ShutdownTimeout? || (readerClosed && childExited) then []
    else
      (if events[0].LateOutput? && !readerClosed then events[0].bytes else [])
      + ArrivingLate(events[1..], readerClosed || events[0].LateClosed?, childExited || events[0].LateChildExit?)
  }

  class Worker {
    const buffer: OutputBuffer
    var bufferedOutput: seq<Bytes>
    var bufferedBytes: nat
    var outputLive: bool
    var closedByUser: bool
    var controllerDropped: bool
    var childExited: bool
    var readerClosed: bool
    /** The chunks handed to the view, oldest first. */
    var emitted: seq<Bytes>
    /** All bytes taken from the reader's queue, in order. */
    ghost var dequeued: Bytes

    /** Between two events of the main loop: what was decoded is either all emitted or all held back,
        and there is no text in between. */
    ghost predicate Valid()
      reads this, buffer
    {
      && buffer.pendingOutput == []
      && Conserves(emitted + bufferedOutput, [], buffer.pendingBytes, dequeued)
      && Gated()
      && (outputLive ==> bufferedOutput == [])
    }

    /** While the gate is closed nothing is emitted and `bufferedBytes` counts what is held back, chunks
        with text in them. */
    ghost predicate Gated()
      reads this
    {
      && (!outputLive ==> emitted == [] && bufferedBytes == |Flatten(bufferedOutput)|)
      && forall chunk | chunk in bufferedOutput :: chunk != []
    }

    constructor ()
      ensures Valid() && fresh(buffer) && dequeued == [] && emitted == [] && !outputLive
      ensures !closedByUser && !controllerDropped && !childExited && !readerClosed
    {
      buffer := new OutputBuffer([]);
      bufferedOutput, bufferedBytes, outputLive := [], 0, false;
      closedByUser, controllerDropped, childExited, readerClosed := false, false, false, false;
      emitted, dequeued := [], [];
    }

    /** Emits every chunk held back, oldest first. */
    method EmitBuffered()
      modifies this`bufferedOutput, this`emitted
      ensures bufferedOutput == [] && emitted == old(emitted) + old(bufferedOutput)
    {
      while bufferedOutput != []
        invariant emitted + bufferedOutput == old(emitted) + old(bufferedOutput)
        decreases |bufferedOutput|
      {
        emitted := emitted + [bufferedOutput[0]];
        bufferedOutput := bufferedOutput[1..];
      }
    }

    method ReleaseStartupOutput(paused: bool, ready: bool, elapsedMs: nat)
      requires Valid()
      modifies this`outputLive, this`bufferedOutput, this`emitted
      ensures Valid()
      ensures outputLive == (old(outputLive) || ShouldReleaseStartupOutput(false, paused, ready, elapsedMs, bufferedBytes))
    {
      if ShouldReleaseStartupOutput(outputLive, paused, ready, elapsedMs, bufferedBytes) {
        outputLive := true;
        EmitBuffered();
        assert emitted + [] == emitted;
      }
    }

    /** Passes the decoded text on: to the view, or to the back of what is held back. */
    method PassOn(live: bool)
      requires Conserves(emitted + bufferedOutput, buffer.pendingOutput, buffer.pendingBytes, dequeued)
      requires Gated() && (live ==> outputLive && bufferedOutput == [])
      modifies this`bufferedOutput, this`bufferedBytes, this`emitted, buffer`pendingOutput
      ensures Conserves(emitted + bufferedOutput, [], buffer.pendingBytes, dequeued)
      ensures Gated() && buffer.pendingOutput == []
      ensures if live then bufferedOutput == [] else emitted == old(emitted)
    {
      hide Conserves, Drained, Kept;
      if buffer.pendingOutput != [] {
        ConservesEmit(emitted + bufferedOutput, buffer.pendingOutput, buffer.pendingBytes, dequeued);
        var chunk := buffer.TakePendingOutput();
        if live {
          emitted := emitted + chunk;
          assert emitted + [] == old(emitted) + [] + chunk;
        } else {
          bufferedBytes := bufferedBytes + |chunk[0]|;
          FlattenConcat(bufferedOutput, chunk);
          ConcatAssociative(emitted, bufferedOutput, chunk);
          bufferedOutput := bufferedOutput + chunk;
        }
      }
    }

    /** Collects a batch from the reader's queue, decodes it and passes it on. */
    method TakeOutput(first: Bytes, queued: seq<Bytes>)
      requires Valid()
      modifies this`bufferedOutput, this`bufferedBytes, this`emitted, this`dequeued, buffer
      ensures Valid()
      ensures dequeued == old(dequeued) + Flatten(([first] + queued)[..Min(OUTPUT_DRAIN_BUDGET, |queued| + 1)])
    {
      hide Conserves, Flatten, Drained, Kept;
      ghost var chunks := [first] + queued;
      var n := Min(OUTPUT_DRAIN_BUDGET - 1, |queued|);
      buffer.Extend(first);
      OneChunk(chunks);
      for k := 0 to n
        invariant buffer.pendingBytes == old(buffer.pendingBytes) + Flatten(chunks[..k + 1])
        invariant buffer.pendingOutput == []
        modifies buffer
      {
        ConcatAssociative(old(buffer.pendingBytes), Flatten(chunks[..k + 1]), queued[k]);
        assert chunks[..k + 1 + 1] == chunks[..k + 1] + [queued[k]];
        FlattenAppend(chunks[..k + 1], queued[k]);
        buffer.Extend(queued[k]);
      }
      ghost var bytes := Flatten(chunks[..n + 1]);
      ConservesRead(emitted + bufferedOutput, [], old(buffer.pendingBytes), dequeued, bytes);
      buffer.DrainDecodedOutput();
      dequeued := dequeued + bytes;
      PassOn(outputLive);
    }

    /** One turn of the main loop; `leave` is set when the loop breaks. */
    method MainTurn(t: Turn) returns (leave: bool)
      requires Valid()
      modifies this, buffer
      ensures Valid()
      ensures old(outputLive) ==> outputLive
      ensures outputLive == (old(outputLive) || ShouldReleaseStartupOutput(false, t.paused, t.ready, t.elapsedMs, old(bufferedBytes)))
      ensures dequeued == old(dequeued) + (if t.activity.Output? && !t.paused && !old(readerClosed)
                                           then Flatten(([t.activity.first] + t.activity.queued)[..Min(64, |t.activity.queued| + 1)]) else [])
      ensures leave <==> t.activity in {CloseCommand, ControllerGone, ChildExited}
      ensures closedByUser == (old(closedByUser) || t.activity.CloseCommand?)
      ensures controllerDropped == (old(controllerDropped) || t.activity.ControllerGone?)
      ensures childExited == (old(childExited) || t.activity.ChildExited?)
      ensures readerClosed == (old(readerClosed) || (t.activity.OutputClosed? && !t.paused))
    {
      hide Conserves, Drained, Kept, Flatten, ShouldReleaseStartupOutput;
      ReleaseStartupOutput(t.paused, t.ready, t.elapsedMs);
      leave := false;
      match t.activity {
        case Input =>
        case CloseCommand =>
          closedByUser := true;
          leave := true;
        case ControllerGone =>
          controllerDropped := true;
          leave := true;
        case Output(first, queued) =>
          if !t.paused && !readerClosed {
            TakeOutput(first, queued);
          }
        case OutputClosed =>
          if !t.paused { readerClosed := true; }
        case ChildExited =>
          childExited := true;
          leave := true;
        case OutputStateChanged =>
        case StartupTimeout =>
      }
    }

    /** From the end of the main loop to the final decode: late bytes queue up undecoded. */
    ghost predicate Collecting()
      reads this, buffer
    {
      && buffer.pendingOutput == []
      && ConservesLate(emitted + bufferedOutput, buffer.pendingBytes, dequeued)
      && Gated()
      && (outputLive ==> bufferedOutput == [])
    }

    method TakeLate(bytes: Bytes)
      requires Collecting()
      modifies this`dequeued, buffer`pendingBytes
      ensures Collecting() && dequeued == old(dequeued) + bytes
    {
      ConservesLateRead(emitted + bufferedOutput, buffer.pendingBytes, dequeued, bytes);
      dequeued := dequeued + bytes;
      buffer.Extend(bytes);
    }

    /** Waits for the reader to end and the child to exit, or for the watchdog. */
    method WaitForReaderAndChild(events: seq<ShutdownEvent>) returns (finished: bool)
      requires Collecting()
      modifies this`dequeued, this`childExited, this`readerClosed, buffer`pendingBytes
      ensures Collecting()
      ensures finished <==> WaitEnds(events, old(readerClosed), old(childExited))
      ensures dequeued == old(dequeued) + ArrivingLate(events, old(readerClosed), old(childExited))
      ensures readerClosed == ReaderClosedLate(events, old(readerClosed), old(childExited))
    {
      hide ConservesLate, Drained, Kept, Flatten;
      var i := 0;
      finished := false;
      ghost var goal := dequeued + ArrivingLate(events, readerClosed, childExited);
      assert events[0..] == events;
      while !readerClosed || !childExited
        invariant 0 <= i <= |events| && Collecting() && !finished
        invariant dequeued + ArrivingLate(events[i..], readerClosed, childExited) == goal
        invariant WaitEnds(events[i..], readerClosed, childExited) == WaitEnds(events, old(readerClosed), old(childExited))
        invariant ReaderClosedLate(events[i..], readerClosed, childExited) == ReaderClosedLate(events, old(readerClosed), old(childExited))
        decreases |events| - i
      {
        if i == |events| {
          assert dequeued + [] == dequeued;
          return;
        }
        assert events[i..][1..] == events[i + 1..];
        if events[i].ShutdownTimeout? { break; }
        ghost var before, rest := dequeued, ArrivingLate(events[i..], readerClosed, childExited);
        TakeShutdownEvent(events[i]);
        ArrivingStep(before, dequeued, rest, ArrivingLate(events[i + 1..], readerClosed, childExited));
        i := i + 1;
      }
      assert dequeued + [] == dequeued;
      finished := true;
    }

    method TakeShutdownEvent(event: ShutdownEvent)
      requires Collecting() && !event.ShutdownTimeout?
      modifies this`dequeued, this`childExited, this`readerClosed, buffer`pendingBytes
      ensures Collecting()
      ensures dequeued == old(dequeued) + (if event.LateOutput? && !old(readerClosed) then event.bytes else [])
      ensures readerClosed == (old(readerClosed) || event.LateClosed?)
      ensures childExited == (old(childExited) || event.LateChildExit?)
    {
      match event {
        case LateOutput(bytes) => if !readerClosed { TakeLate(bytes); }
        case LateClosed => readerClosed := true;
        case LateChildExit => childExited := true;
      }
    }

    /** Collects what is in flight, then empties the queue of a reader that has not ended. */
    method CollectInFlight(events: seq<ShutdownEvent>, queued: seq<Bytes>) returns (finished: bool)
      requires Collecting()
      modifies this`dequeued, this`childExited, this`readerClosed, buffer`pendingBytes
      ensures Collecting()
      ensures finished <==> WaitEnds(events, old(readerClosed), old(childExited))
      ensures dequeued == old(dequeued) + ArrivingLate(events, old(readerClosed), old(childExited))
                          + (if !finished || ReaderClosedLate(events, old(readerClosed), old(childExited)) then [] else Flatten(queued))
    {
      hide ConservesLate, Drained, Kept;
      finished := WaitForReaderAndChild(events);
      if finished && !readerClosed {
        TakeQueued(queued);
      }
      assert !finished || readerClosed ==> dequeued + [] == dequeued;
    }

    method TakeQueued(queued: seq<Bytes>)
      requires Collecting()
      modifies this`dequeued, buffer`pendingBytes
      ensures Collecting() && dequeued == old(dequeued) + Flatten(queued)
    {
      hide ConservesLate;
      for k := 0 to |queued|
        invariant Collecting() && dequeued == old(dequeued) + Flatten(queued[..k])
      {
        TakeLate(queued[k]);
        assert queued[..k + 1] == queued[..k] + [queued[k]];
        FlattenAppend(queued[..k], queued[k]);
        ConcatAssociative(old(dequeued), Flatten(queued[..k]), queued[k]);
      }
      assert queued[..|queued|] == queued;
    }

    /** The final decode. Text that becomes ready here opens the gate if the view has become ready. */
    method DecodeRest(ready: bool)
      requires Collecting()
      modifies this`outputLive, this`bufferedOutput, this`bufferedBytes, this`emitted, buffer
      ensures Conserves(emitted + bufferedOutput, [], buffer.pendingBytes, dequeued)
      ensures Gated() && buffer.pendingOutput == []
      ensures outputLive == (old(outputLive) || (ready && Drained(old(buffer.pendingBytes)) != []))
    {
      hide Drained, Kept, Flatten;
      ghost var text := Drained(buffer.pendingBytes);
      DrainLate(emitted + bufferedOutput, buffer.pendingBytes, dequeued);
      assert [] + text == text;
      buffer.DrainDecodedOutput();
      if buffer.pendingOutput != [] && ready {
        outputLive := true;
      }
      PassOn(false);
    }

    /** Holds a finished session's output until the view is ready, gives up, or is closed. */
    method WaitForGate(turns: seq<GateTurn>) returns (decided: bool)
      requires !outputLive
      modifies this`outputLive, this`closedByUser
      ensures decided <==> !GateOutcome(turns, bufferedBytes).Waiting?
      ensures outputLive <==> GateOutcome(turns, bufferedBytes).Released?
      ensures closedByUser == (old(closedByUser) || GateOutcome(turns, bufferedBytes).Closed?)
    {
      decided := true;
      assert turns[0..] == turns;
      for k := 0 to |turns|
        invariant !outputLive && closedByUser == old(closedByUser)
        invariant GateOutcome(turns[k..], bufferedBytes) == GateOutcome(turns, bufferedBytes)
      {
        var t := turns[k];
        assert turns[k..][0] == t && turns[k..][1..] == turns[k + 1..];
        if ShouldReleaseStartupOutput(outputLive, t.paused, t.ready, t.elapsedMs, bufferedBytes) {
          outputLive := true;
          return;
        }
        match t.activity {
          case GateClose =>
            closedByUser := true;
            return;
          case GateControllerGone => return;
          case GateStateGone => return;
          case GateInput =>
          case GateStateChanged =>
          case GateTimeout =>
        }
      }
      decided := false;
    }

    /** The main loop. */
    method MainLoop(turns: seq<Turn>) returns (left: bool)
      requires Valid() && dequeued == [] && !outputLive && !readerClosed
      modifies this, buffer
      ensures Valid() && dequeued == Arriving(turns, false)
      ensures left <==> Leaving(turns).Some?
      ensures outputLive == LiveAfter(turns, false, false, [])
      ensures readerClosed == ReaderClosedAfter(turns, false)
      ensures closedByUser == (old(closedByUser) || Leaving(turns) == Some(CloseCommand))
      ensures controllerDropped == (old(controllerDropped) || Leaving(turns) == Some(ControllerGone))
      ensures childExited == (old(childExited) || Leaving(turns) == Some(ChildExited))
    {
      hide Conserves, Drained, Kept, Flatten, ShouldReleaseStartupOutput;
      var i: nat;
      i, left := 0, false;
      assert turns[0..] == turns;
      while !left
        invariant i <= |turns| && Valid()
        invariant !left ==> dequeued + Arriving(turns[i..], readerClosed) == Arriving(turns, false)
        invariant !left ==> LiveAfter(turns[i..], outputLive, readerClosed, dequeued) == LiveAfter(turns, false, false, [])
        invariant !left ==> ReaderClosedAfter(turns[i..], readerClosed) == ReaderClosedAfter(turns, false)
        invariant !left ==> Leaving(turns[i..]) == Leaving(turns)
        invariant !left ==> closedByUser == old(closedByUser) && controllerDropped == old(controllerDropped) && childExited == old(childExited)
        invariant left ==> dequeued == Arriving(turns, false) && outputLive == LiveAfter(turns, false, false, [])
        invariant left ==> readerClosed == ReaderClosedAfter(turns, false) && Leaving(turns).Some?
        invariant left ==> closedByUser == (old(closedByUser) || Leaving(turns) == Some(CloseCommand))
        invariant left ==> controllerDropped == (old(controllerDropped) || Leaving(turns) == Some(ControllerGone))
        invariant left ==> childExited == (old(childExited) || Leaving(turns) == Some(ChildExited))
        decreases |turns| - i, !left
      {
        if i == |turns| {
          assert dequeued + [] == dequeued;
          return;
        }
        assert turns[i..][0] == turns[i] && turns[i..][1..] == turns[i + 1..];
        ghost var before, rest := dequeued, Arriving(turns[i..], readerClosed);
        HeldBack();
        left := MainTurn(turns[i]);
        if left {
          assert dequeued + [] == dequeued;
        } else {
          ArrivingStep(before, dequeued, rest, Arriving(turns[i + 1..], readerClosed));
        }
        i := i + 1;
      }
    }

    /** While the gate is closed, what is held back is all the text decoded so far. */
    lemma HeldBack()
      requires Conserves(emitted + bufferedOutput, [], buffer.pendingBytes, dequeued) && Gated()
      ensures !outputLive ==> bufferedBytes == |Drained(dequeued)|
    {
      if !outputLive {
        assert emitted + bufferedOutput == bufferedOutput;
        assert Flatten(bufferedOutput) + [] == Flatten(bufferedOutput);
      }
    }

    /** The last part of a run: the final decode, the wait at the gate, and the emission. `before` is what
        had been read when the text shown or held back so far was decoded. */
    method Release(readyAtEnd: bool, gate: seq<GateTurn>, ghost before: Bytes) returns (end: End)
      requires Collecting() && Flatten(emitted + bufferedOutput) == Drained(before)
      modifies this`outputLive, this`bufferedOutput, this`bufferedBytes, this`emitted, this`closedByUser, buffer
      ensures end.Finished? || end.StillGated?
      ensures end.Finished? ==> Flatten(emitted) == (if outputLive then Lossy(dequeued) else []) && (!outputLive ==> emitted == [])
      ensures end.StillGated? <==>
                WaitsAtGate(old(outputLive), old(closedByUser || controllerDropped), before, dequeued, readyAtEnd)
                && GateOutcome(gate, |Drained(dequeued)|).Waiting?
      ensures outputLive <==> LiveAtEnd(old(outputLive), old(closedByUser || controllerDropped), before, dequeued, readyAtEnd, gate)
      ensures !outputLive ==> emitted == []
      ensures closedByUser <==>
                || old(closedByUser)
                || (WaitsAtGate(old(outputLive), old(closedByUser || controllerDropped), before, dequeued, readyAtEnd)
                    && GateOutcome(gate, |Drained(dequeued)|).Closed?)
    {
      hide Conserves, ConservesLate, Lossy, Kept, Drained, Flatten, GateOutcome;
      NewText(emitted + bufferedOutput, buffer.pendingBytes, dequeued, before);
      DecodeRest(readyAtEnd);
      HeldBack();
      var hasGatedOutput := bufferedBytes > 0 || bufferedOutput != [] || buffer.pendingBytes != [] || buffer.pendingOutput != [];
      if !outputLive { HeldBackIff(bufferedOutput, bufferedBytes, buffer.pendingBytes, dequeued); }
      if !outputLive && hasGatedOutput && !closedByUser && !controllerDropped {
        var decided := WaitForGate(gate);
        if !decided { return StillGated; }
      }
      if outputLive {
        EmitAll();
      } else {
        NothingEmitted(emitted);
      }
      end := Finished;
    }

    /** A whole run of the worker. */
    method Run(turns: seq<Turn>, events: seq<ShutdownEvent>, queued: seq<Bytes>, readyAtEnd: bool, gate: seq<GateTurn>)
      returns (end: End)
      requires Valid() && dequeued == [] && !outputLive && !closedByUser && !controllerDropped && !readerClosed
      modifies this, buffer
      // all or nothing
      ensures end.Finished? ==> Flatten(emitted) == (if outputLive then Lossy(dequeued) else [])
      // nothing only when the gate never opened, and then only because the session was given up
      ensures end.Finished? && emitted == [] && dequeued != [] ==>
                !outputLive && (LeftByController(turns) || GateOutcome(gate, |Drained(dequeued)|) in {Closed, Abandoned})
      ensures !end.Finished? && !outputLive ==> emitted == []
      // nothing that arrives is left out
      ensures dequeued == Arriving(turns, false) + LateBytes(turns, events, queued, old(childExited))
      // the run stops short only where its script does
      ensures end.StillInMainLoop? <==> Leaving(turns).None?
      ensures end.StillInMainLoop? ==> Valid()
      ensures end.StillShuttingDown? <==> Leaving(turns).Some? && !Shuts(turns, events, old(childExited))
      ensures !Shuts(turns, events, old(childExited)) ==>
                outputLive == LiveAfter(turns, false, false, []) && closedByUser == (Leaving(turns) == Some(CloseCommand))
      // a session that was given up never waits at the gate: a turn or the final decode has opened it, or nothing does
      ensures Shuts(turns, events, old(childExited)) && Leaving(turns) in {Some(CloseCommand), Some(ControllerGone)} ==>
                && end.Finished? && closedByUser == (Leaving(turns) == Some(CloseCommand))
                && outputLive == (LiveAfter(turns, false, false, []) || (readyAtEnd && Drained(dequeued) != Drained(Arriving(turns, false))))
      // after the exit of the child the gate is waited for, unless it is open or there is nothing to show
      ensures Shuts(turns, events, old(childExited)) && Leaving(turns) == Some(ChildExited) ==>
                var open := LiveAfter(turns, false, false, []) || (readyAtEnd && Drained(dequeued) != Drained(Arriving(turns, false)));
                var outcome := GateOutcome(gate, |Drained(dequeued)|);
                && outputLive == (open || (dequeued != [] && outcome.Released?))
                && closedByUser == (!open && dequeued != [] && outcome.Closed?)
                && end.StillGated? == (!open && dequeued != [] && outcome.Waiting?)
    {
      hide Conserves, ConservesLate, Lossy, Kept, Drained, Flatten, Arriving, ArrivingLate, LiveAfter, Leaving, WaitEnds;
      hide ReaderClosedAfter, ReaderClosedLate, GateOutcome;
      var left := MainLoop(turns);
      assert dequeued + [] == dequeued;
      if !left { return StillInMainLoop; }
      EnterCollecting();
      var finished := CollectInFlight(events, queued);
      LateBytesAre(turns, events, queued, old(childExited), finished);
      if !finished { return StillShuttingDown; }
      end := Release(readyAtEnd, gate, Arriving(turns, false));
      if end.Finished? && outputLive && dequeued != [] { ShownNothing(emitted, dequeued); }
    }

    /** Emits everything held back and flushes. */
    method EmitAll()
      requires Conserves(emitted + bufferedOutput, buffer.pendingOutput, buffer.pendingBytes, dequeued)
      modifies this`bufferedOutput, this`emitted, buffer
      ensures Flatten(emitted) == Lossy(dequeued)
    {
      EmitBuffered();
      ghost var before, text, kept := emitted, buffer.pendingOutput, buffer.pendingBytes;
      var final := buffer.FlushPendingOutput();
      ConservesFlush(before, text, kept, dequeued, final);
      emitted := emitted + final;
    }

    ghost method EnterCollecting()
      requires Valid()
      ensures Collecting() && Flatten(emitted + bufferedOutput) == Drained(dequeued)
    {
      KeptIsStartOfCharacter(dequeued);
      assert Drained(dequeued) + [] == Drained(dequeued);
      assert Flatten(emitted + bufferedOutput) + [] == Flatten(emitted + bufferedOutput);
    }
  }

  /** Like `Conserves`, for bytes that are still to be decoded. */
  ghost predicate ConservesLate(chunks: seq<Bytes>, pendingBytes: Bytes, input: Bytes) {
    Drained(input) == Flatten(chunks) + Drained(pendingBytes) && Kept(input) == Kept(pendingBytes)
  }

  lemma ConservesLateRead(chunks: seq<Bytes>, pendingBytes: Bytes, input: Bytes, bytes: Bytes)
    requires ConservesLate(chunks, pendingBytes, input)
    ensures ConservesLate(chunks, pendingBytes + bytes, input + bytes)
  {
    DrainAppend(input, bytes);
    DrainAppend(pendingBytes, bytes);
    ConcatAssociative(Flatten(chunks), Drained(pendingBytes), Drained(Kept(input) + bytes));
  }

  lemma OneChunk(chunks: seq<Bytes>)
    requires chunks != []
    ensures Flatten(chunks[..1]) == chunks[0]
  {
    FlattenAppend([], chunks[0]);
    assert chunks[..1] == [] + [chunks[0]];
  }

  lemma ArrivingStep(before: Bytes, after: Bytes, rest: Bytes, next: Bytes)
    requires before <= after && rest == after[|before|..] + next
    ensures after + next == before + rest
  {
  }

  /** The child has exited by the time the main loop is left. */
  predicate ChildGone(turns: seq<Turn>, childExited: bool) { childExited || Leaving(turns) == Some(ChildExited) }

  /** The main loop is left and the wait for reader and child ends. */
  predicate Shuts(turns: seq<Turn>, events: seq<ShutdownEvent>, childExited: bool) {
    Leaving(turns).Some? && WaitEnds(events, ReaderClosedAfter(turns, false), ChildGone(turns, childExited))
  }

  /** What arrives after the main loop: the bytes that come in during the wait and, unless the reader ended,
      what is queued at its end. */
  function LateBytes(turns: seq<Turn>, events: seq<ShutdownEvent>, queued: seq<Bytes>, childExited: bool): Bytes {
    if Leaving(turns).None? then []
    else
      var (closed, gone) := (ReaderClosedAfter(turns, false), ChildGone(turns, childExited));
      ArrivingLate(events, closed, gone)
      + if Shuts(turns, events, childExited) && !ReaderClosedLate(events, closed, gone) then Flatten(queued) else []
  }

  /** The loop was left because the user closed the session or its controller went away. */
  predicate LeftByController(turns: seq<Turn>) {
    Leaving(turns) == Some(CloseCommand) || Leaving(turns) == Some(ControllerGone)
  }

  /** The gate is open after the final decode: it was before, or the view is ready and new text has come. */
  predicate LiveAfterDecode(live: bool, before: Bytes, dequeued: Bytes, readyAtEnd: bool) {
    live || (readyAtEnd && Drained(dequeued) != Drained(before))
  }

  /** Output is left behind a closed gate and nobody has given the session up. */
  predicate WaitsAtGate(live: bool, givenUp: bool, before: Bytes, dequeued: Bytes, readyAtEnd: bool) {
    !LiveAfterDecode(live, before, dequeued, readyAtEnd) && dequeued != [] && !givenUp
  }

  predicate LiveAtEnd(live: bool, givenUp: bool, before: Bytes, dequeued: Bytes, readyAtEnd: bool, gate: seq<GateTurn>) {
    || LiveAfterDecode(live, before, dequeued, readyAtEnd)
    || (WaitsAtGate(live, givenUp, before, dequeued, readyAtEnd) && GateOutcome(gate, |Drained(dequeued)|).Released?)
  }

  lemma LateBytesAre(turns: seq<Turn>, events: seq<ShutdownEvent>, queued: seq<Bytes>, childExited: bool, finished: bool)
    requires Leaving(turns).Some? && (finished <==> Shuts(turns, events, childExited))
    ensures var (closed, gone) := (ReaderClosedAfter(turns, false), ChildGone(turns, childExited));
            Arriving(turns, false) + LateBytes(turns, events, queued, childExited)
            == Arriving(turns, false) + ArrivingLate(events, closed, gone)
               + (if !finished || ReaderClosedLate(events, closed, gone) then [] else Flatten(queued))
  {
    hide Arriving, ArrivingLate, Leaving, WaitEnds, ReaderClosedAfter, ReaderClosedLate, Flatten;
    var (closed, gone) := (ReaderClosedAfter(turns, false), ChildGone(turns, childExited));
    ConcatAssociative(Arriving(turns, false), ArrivingLate(events, closed, gone),
                      if !finished || ReaderClosedLate(events, closed, gone) then [] else Flatten(queued));
  }

  lemma DrainLate(chunks: seq<Bytes>, pendingBytes: Bytes, input: Bytes)
    requires ConservesLate(chunks, pendingBytes, input)
    ensures Conserves(chunks, Drained(pendingBytes), Kept(pendingBytes), input)
  {
  }

  lemma NothingEmitted(emitted: seq<Bytes>)
    ensures emitted == [] ==> Flatten(emitted) == []
  {
  }

  lemma ShownNothing(emitted: seq<Bytes>, dequeued: Bytes)
    requires dequeued != [] && Flatten(emitted) == Lossy(dequeued)
    ensures emitted != []
  {
    LossyNonempty(dequeued);
  }

  lemma ShownIsDrained(chunks: seq<Bytes>, pendingBytes: Bytes, input: Bytes)
    requires Conserves(chunks, [], pendingBytes, input)
    ensures Flatten(chunks) == Drained(input)
  {
    assert Flatten(chunks) + [] == Flatten(chunks);
  }

  /** The final decode yields text exactly when more is decided than was shown before. */
  lemma NewText(shown: seq<Bytes>, pendingBytes: Bytes, input: Bytes, before: Bytes)
    requires ConservesLate(shown, pendingBytes, input) && Flatten(shown) == Drained(before)
    ensures Drained(pendingBytes) != [] <==> Drained(input) != Drained(before)
  {
    assert Flatten(shown) + [] == Flatten(shown);
  }

  /** Something is held back exactly when something was read. */
  lemma HeldBackIff(bufferedOutput: seq<Bytes>, bufferedBytes: nat, pendingBytes: Bytes, input: Bytes)
    requires Conserves([] + bufferedOutput, [], pendingBytes, input) && forall chunk | chunk in bufferedOutput :: chunk != []
    requires bufferedBytes == |Flatten(bufferedOutput)|
    ensures bufferedBytes > 0 || bufferedOutput != [] || pendingBytes != [] <==> input != []
  {
    hide Lossy, Drained, Kept, Flatten;
    assert [] + bufferedOutput == bufferedOutput;
    ShownIsDrained(bufferedOutput, pendingBytes, input);
    LossyIsDrainedThenFlushed(input);
    LossyNonempty(input);
    DrainedOfNothing();
    FlattenNothing(bufferedOutput);
  }

  lemma FlattenNothing(chunks: seq<Bytes>)
    requires forall chunk | chunk in chunks :: chunk != []
    ensures Flatten(chunks) == [] <==> chunks == []
  {
    if chunks != [] { assert chunks[0] in chunks; }
  }

  lemma DrainedOfNothing()
    ensures Drained([]) == [] && Kept([]) == []
  {
  }

  /** Input always shows: a nonempty input has a nonempty decoding. */
  lemma LossyNonempty(s: Bytes)
    ensures s != [] ==> Lossy(s) != []
  {
  }
}
