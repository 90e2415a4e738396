/** What the scripts of a local worker's run amount to, told by position instead of turn by turn: which
    chunks are read and in which order, when the gate opens, and when each loop is left. */
module LocalWorkerScripts {
  import opened Common
  import opened Utf8
  import opened LocalWorker

  // ------------------------------------------------------------------- the main loop

  predicate Leaves(t: Turn) { t.activity in {CloseCommand, ControllerGone, ChildExited} }

  predicate EndsReader(t: Turn) { t.activity.OutputClosed? && !t.paused }

  /** Turn `k` takes place: no earlier turn leaves the loop. */
  predicate Reached(turns: seq<Turn>, k: nat)
    requires k <= |turns|
  {
    forall j | 0 <= j < k :: !Leaves(turns[j])
  }

  predicate ReaderEndedBefore(turns: seq<Turn>, k: nat)
    requires k <= |turns|
  {
    exists j | 0 <= j < k :: EndsReader(turns[j])
  }

  /** Turn `k` reads: it takes place with output not paused, and the reader has not ended before. */
  predicate Reads(turns: seq<Turn>, k: nat)
    requires k < |turns|
  {
    Reached(turns, k) && turns[k].activity.Output? && !turns[k].paused && !ReaderEndedBefore(turns, k)
  }

  /** The chunks read in the first `n` turns: from each turn that reads the one received and up to 63 that
      are queued behind it. */
  function ChunksRead(turns: seq<Turn>, n: nat): seq<Bytes>
    requires n <= |turns|
  {
    if n == 0 then []
    else
      ChunksRead(turns, n - 1)
      + if Reads(turns, n - 1)
        then ([turns[n - 1].activity.first] + turns[n - 1].activity.queued)[..Min(64, |turns[n - 1].activity.queued| + 1)]
        else []
  }

  lemma {:induction false} NothingReadAfter(turns: seq<Turn>, k: nat, n: nat)
    requires k < n <= |turns| && Leaves(turns[k])
    ensures ChunksRead(turns, n) == ChunksRead(turns, k)
    decreases n
  {
    assert !Reads(turns, n - 1) by { if n - 1 > k { assert !Reached(turns, n - 1); } }
    if n - 1 > k { NothingReadAfter(turns, k, n - 1); }
  }

  lemma ReadNext(turns: seq<Turn>, k: nat)
    requires k < |turns| && Reached(turns, k)
    ensures var t := turns[k];
            Flatten(ChunksRead(turns, k + 1)) ==
            Flatten(ChunksRead(turns, k))
            + if t.activity.Output? && !t.paused && !ReaderEndedBefore(turns, k) then Flatten(Taken(t)) else []
    ensures ReaderEndedBefore(turns, k + 1) == (ReaderEndedBefore(turns, k) || EndsReader(turns[k]))
  {
    hide Flatten;
    if Reads(turns, k) {
      FlattenConcat(ChunksRead(turns, k), Taken(turns[k]));
    } else {
      assert ChunksRead(turns, k) + [] == ChunksRead(turns, k);
      assert Flatten(ChunksRead(turns, k)) + [] == Flatten(ChunksRead(turns, k));
    }
    if EndsReader(turns[k]) { assert ReaderEndedBefore(turns, k + 1); }
    if ReaderEndedBefore(turns, k) {
      var j :| 0 <= j < k && EndsReader(turns[j]);
      assert ReaderEndedBefore(turns, k + 1);
    }
  }

  lemma {:induction false} ArrivingFrom(turns: seq<Turn>, k: nat)
    requires k <= |turns| && Reached(turns, k)
    ensures Flatten(ChunksRead(turns, k)) + Arriving(turns[k..], ReaderEndedBefore(turns, k)) == Flatten(ChunksRead(turns, |turns|))
    decreases |turns| - k
  {
    hide Flatten, ChunksRead, ReaderEndedBefore;
    var text := Flatten(ChunksRead(turns, k));
    if k == |turns| {
      assert text + [] == text;
    } else {
      assert turns[k..][0] == turns[k] && turns[k..][1..] == turns[k + 1..];
      if Leaves(turns[k]) {
        NothingReadAfter(turns, k, |turns|);
        assert text + [] == text;
      } else {
        ReadNext(turns, k);
        ArrivingFrom(turns, k + 1);
        var t := turns[k];
        ConcatAssociative(text, if t.activity.Output? && !t.paused && !ReaderEndedBefore(turns, k) then Flatten(Taken(t)) else [],
                          Arriving(turns[k + 1..], ReaderEndedBefore(turns, k + 1)));
      }
    }
  }

  /** What arrives in the main loop is the chunks of the turns that read, in the reader's order. */
  lemma ArrivingInOrder(turns: seq<Turn>)
    ensures Arriving(turns, false) == Flatten(ChunksRead(turns, |turns|))
  {
    ArrivingFrom(turns, 0);
    assert turns[0..] == turns && [] + Arriving(turns, false) == Arriving(turns, false);
  }

  /** The loop is left at the first close, lost controller or child exit, and otherwise not at all. */
  lemma {:induction false} LeavingIff(turns: seq<Turn>, k: nat)
    ensures k < |turns| && Reached(turns, k) && Leaves(turns[k]) ==> Leaving(turns) == Some(turns[k].activity)
    ensures Leaving(turns).None? <==> forall j | 0 <= j < |turns| :: !Leaves(turns[j])
  {
    if turns != [] && !Leaves(turns[0]) {
      LeavingIff(turns[1..], if k > 0 then k - 1 else 0);
      if k > 0 && k < |turns| && Reached(turns, k) {
        forall j | 0 <= j < k - 1 ensures !Leaves(turns[1..][j]) { assert turns[1..][j] == turns[j + 1]; }
        assert Reached(turns[1..], k - 1) && turns[1..][k - 1] == turns[k];
      }
      assert (forall j | 0 <= j < |turns| :: !Leaves(turns[j])) ==> forall j | 0 <= j < |turns| - 1 :: !Leaves(turns[1..][j]);
      if forall j | 0 <= j < |turns| - 1 :: !Leaves(turns[1..][j]) {
        forall j | 0 <= j < |turns| ensures !Leaves(turns[j]) { if j > 0 { assert turns[1..][j - 1] == turns[j]; } }
      }
    }
  }

  lemma {:induction false} ReaderClosedFrom(turns: seq<Turn>, k: nat)
    requires k <= |turns| && Reached(turns, k)
    ensures ReaderClosedAfter(turns[k..], ReaderEndedBefore(turns, k)) <==> exists j | 0 <= j < |turns| :: Reached(turns, j) && EndsReader(turns[j])
    decreases |turns| - k
  {
    if k < |turns| {
      assert turns[k..][0] == turns[k] && turns[k..][1..] == turns[k + 1..];
      if Leaves(turns[k]) {
        assert forall j | k < j < |turns| :: !Reached(turns, j);
        if ReaderEndedBefore(turns, k) {
          var j :| 0 <= j < k && EndsReader(turns[j]);
          assert Reached(turns, j);
        }
      } else {
        ReadNext(turns, k);
        ReaderClosedFrom(turns, k + 1);
      }
    } else if ReaderEndedBefore(turns, k) {
      var j :| 0 <= j < k && EndsReader(turns[j]);
      assert Reached(turns, j);
    }
  }

  /** The reader has ended by the end of the loop exactly if a turn that took place saw it end. */
  lemma ReaderClosedIff(turns: seq<Turn>)
    ensures ReaderClosedAfter(turns, false) <==> exists j | 0 <= j < |turns| :: Reached(turns, j) && EndsReader(turns[j])
  {
    assert turns[0..] == turns;
    ReaderClosedFrom(turns, 0);
  }

  /** Turn `k` opens the gate: it takes place with output not paused, and the view is ready, or five seconds
      have passed, or more than a million bytes of text have been decoded from what was read before it. */
  predicate Opens(turns: seq<Turn>, k: nat)
    requires k < |turns|
  {
    && Reached(turns, k) && !turns[k].paused
    && (turns[k].ready || turns[k].elapsedMs >= 5_000 || |Drained(Flatten(ChunksRead(turns, k)))| > 1_000_000)
  }

  predicate OpenedBefore(turns: seq<Turn>, k: nat)
    requires k <= |turns|
  {
    exists j | 0 <= j < k :: Opens(turns, j)
  }

  lemma OpenedNext(turns: seq<Turn>, k: nat)
    requires k < |turns|
    ensures OpenedBefore(turns, k + 1) == (OpenedBefore(turns, k) || Opens(turns, k))
  {
    if OpenedBefore(turns, k) {
      var j :| 0 <= j < k && Opens(turns, j);
      assert OpenedBefore(turns, k + 1);
    }
    if Opens(turns, k) { assert OpenedBefore(turns, k + 1); }
  }

  lemma {:induction false} OpenedAfterLeaving(turns: seq<Turn>, k: nat, n: nat)
    requires k < n <= |turns| && Leaves(turns[k])
    ensures OpenedBefore(turns, n) == OpenedBefore(turns, k + 1)
    decreases n
  {
    if n > k + 1 {
      OpenedNext(turns, n - 1);
      assert !Reached(turns, n - 1);
      OpenedAfterLeaving(turns, k, n - 1);
    }
  }

  lemma {:induction false} LiveFrom(turns: seq<Turn>, k: nat)
    requires k <= |turns| && Reached(turns, k)
    ensures LiveAfter(turns[k..], OpenedBefore(turns, k), ReaderEndedBefore(turns, k), Flatten(ChunksRead(turns, k)))
            == OpenedBefore(turns, |turns|)
    decreases |turns| - k
  {
    hide Flatten, ChunksRead, ReaderEndedBefore, OpenedBefore, Drained;
    if k < |turns| {
      assert turns[k..][0] == turns[k] && turns[k..][1..] == turns[k + 1..];
      OpenedNext(turns, k);
      if Leaves(turns[k]) {
        OpenedAfterLeaving(turns, k, |turns|);
      } else {
        ReadNext(turns, k);
        LiveFrom(turns, k + 1);
      }
    }
  }

  /** The gate is open at the end of the main loop exactly if one of its turns opened it. */
  lemma LiveIff(turns: seq<Turn>)
    ensures LiveAfter(turns, false, false, []) <==> exists k | 0 <= k < |turns| :: Opens(turns, k)
  {
    assert turns[0..] == turns;
    LiveFrom(turns, 0);
    assert OpenedBefore(turns, |turns|) <==> exists k | 0 <= k < |turns| :: Opens(turns, k);
  }

  // --------------------------------------------------------------------- the shutdown

  predicate ClosedBy(events: seq<ShutdownEvent>, closed: bool, n: nat)
    requires n <= |events|
  {
    closed || LateClosed in events[..n]
  }

  predicate GoneBy(events: seq<ShutdownEvent>, gone: bool, n: nat)
    requires n <= |events|
  {
    gone || LateChildExit in events[..n]
  }

  /** The wait is still going on when event `n` comes. */
  predicate StillWaits(events: seq<ShutdownEvent>, closed: bool, gone: bool, n: nat)
    requires n <= |events|
  {
    ShutdownTimeout !in events[..n] && !(ClosedBy(events, closed, n) && GoneBy(events, gone, n))
  }

  /** The chunks that arrive while the wait goes on and the reader has not ended. */
  function ChunksLate(events: seq<ShutdownEvent>, closed: bool, gone: bool, n: nat): seq<Bytes>
    requires n <= |events|
  {
    if n == 0 then []
    else
      ChunksLate(events, closed, gone, n - 1)
      + if StillWaits(events, closed, gone, n - 1) && events[n - 1].LateOutput? && !ClosedBy(events, closed, n - 1)
        then [events[n - 1].bytes] else []
  }

  lemma FirstEvent(events: seq<ShutdownEvent>, closed: bool, gone: bool, n: nat)
    requires 0 < n <= |events|
    ensures var (c, g) := (closed || events[0].LateClosed?, gone || events[0].LateChildExit?);
            && ClosedBy(events, closed, n) == ClosedBy(events[1..], c, n - 1)
            && GoneBy(events, gone, n) == GoneBy(events[1..], g, n - 1)
            && (StillWaits(events, closed, gone, n) ==> !events[0].ShutdownTimeout?)
            && (!events[0].ShutdownTimeout? ==> StillWaits(events, closed, gone, n) == StillWaits(events[1..], c, g, n - 1))
  {
    assert events[..n] == [events[0]] + events[1..][..n - 1];
  }

  lemma EndedStaysEnded(events: seq<ShutdownEvent>, closed: bool, gone: bool, n: nat)
    requires n <= |events| && ((closed && gone) || (events != [] && events[0].ShutdownTimeout? && n > 0))
    ensures !StillWaits(events, closed, gone, n)
  {
    if n > 0 { assert events[..n][0] == events[0]; }
  }

  lemma {:induction false} NothingLate(events: seq<ShutdownEvent>, closed: bool, gone: bool, n: nat)
    requires n <= |events| && ((closed && gone) || (events != [] && events[0].ShutdownTimeout?))
    ensures ChunksLate(events, closed, gone, n) == []
  {
    if n > 0 {
      NothingLate(events, closed, gone, n - 1);
      if n > 1 || (closed && gone) { EndedStaysEnded(events, closed, gone, n - 1); }
    }
  }

  lemma {:induction false} LateFirst(events: seq<ShutdownEvent>, closed: bool, gone: bool, n: nat)
    requires 0 < n <= |events| && !events[0].ShutdownTimeout? && !(closed && gone)
    ensures ChunksLate(events, closed, gone, n) ==
            (if events[0].LateOutput? && !closed then [events[0].bytes] else [])
            + ChunksLate(events[1..], closed || events[0].LateClosed?, gone || events[0].LateChildExit?, n - 1)
  {
    var (c, g) := (closed || events[0].LateClosed?, gone || events[0].LateChildExit?);
    if n == 1 {
      assert events[..0] == [];
    } else {
      LateFirst(events, closed, gone, n - 1);
      FirstEvent(events, closed, gone, n - 1);
      assert events[1..][n - 2] == events[n - 1];
      ConcatAssociative(if events[0].LateOutput? && !closed then [events[0].bytes] else [], ChunksLate(events[1..], c, g, n - 2),
                        if StillWaits(events, closed, gone, n - 1) && events[n - 1].LateOutput? && !ClosedBy(events, closed, n - 1)
                        then [events[n - 1].bytes] else []);
    }
  }

  /** What is collected during the shutdown is those chunks, in order. */
  lemma {:induction false} ArrivingLateInOrder(events: seq<ShutdownEvent>, closed: bool, gone: bool)
    ensures ArrivingLate(events, closed, gone) == Flatten(ChunksLate(events, closed, gone, |events|))
    decreases |events|
  {
    if events == [] {
    } else if (closed && gone) || events[0].ShutdownTimeout? {
      NothingLate(events, closed, gone, |events|);
    } else {
      LateFirst(events, closed, gone, |events|);
      ArrivingLateInOrder(events[1..], closed || events[0].LateClosed?, gone || events[0].LateChildExit?);
      FlattenConcat(if events[0].LateOutput? && !closed then [events[0].bytes] else [],
                    ChunksLate(events[1..], closed || events[0].LateClosed?, gone || events[0].LateChildExit?, |events| - 1));
      if events[0].LateOutput? && !closed { OneChunk([events[0].bytes]); }
    }
  }

  /** The wait ends exactly at a timeout or when both the reader and the child have ended. */
  lemma {:induction false} WaitEndsIff(events: seq<ShutdownEvent>, closed: bool, gone: bool)
    ensures WaitEnds(events, closed, gone) <==> !StillWaits(events, closed, gone, |events|)
    decreases |events|
  {
    if events != [] {
      if (closed && gone) || events[0].ShutdownTimeout? {
        EndedStaysEnded(events, closed, gone, |events|);
      } else {
        FirstEvent(events, closed, gone, |events|);
        WaitEndsIff(events[1..], closed || events[0].LateClosed?, gone || events[0].LateChildExit?);
      }
    }
  }

  /** The reader counts as ended after the wait exactly if it had, or its end was seen while waiting. */
  lemma {:induction false} ReaderClosedLateIff(events: seq<ShutdownEvent>, closed: bool, gone: bool)
    ensures ReaderClosedLate(events, closed, gone) <==>
            closed || exists k | 0 <= k < |events| :: events[k].LateClosed? && StillWaits(events, closed, gone, k)
    decreases |events|
  {
    if events != [] && !events[0].ShutdownTimeout? && !(closed && gone) {
      var (c, g) := (closed || events[0].LateClosed?, gone || events[0].LateChildExit?);
      ReaderClosedLateIff(events[1..], c, g);
      if events[0].LateClosed? { assert events[..0] == [] && StillWaits(events, closed, gone, 0); }
      if k :| 0 < k < |events| && events[k].LateClosed? && StillWaits(events, closed, gone, k) {
        FirstEvent(events, closed, gone, k);
        assert events[1..][k - 1] == events[k];
      }
      if k :| 0 <= k < |events| - 1 && events[1..][k].LateClosed? && StillWaits(events[1..], c, g, k) {
        FirstEvent(events, closed, gone, k + 1);
        assert events[k + 1].LateClosed? && StillWaits(events, closed, gone, k + 1);
      }
    } else if events != [] {
      forall k | 0 <= k < |events| && events[k].LateClosed? ensures !StillWaits(events, closed, gone, k) {
        EndedStaysEnded(events, closed, gone, k);
      }
    }
  }

  /** What arrives after the main loop: in order the chunks that come in while the wait goes on and, unless
      the reader has ended by then, all that is queued when it is over. */
  lemma LateBytesInOrder(turns: seq<Turn>, events: seq<ShutdownEvent>, queued: seq<Bytes>, childExited: bool)
    requires Leaving(turns).Some?
    ensures var closed := exists j | 0 <= j < |turns| :: Reached(turns, j) && EndsReader(turns[j]);
            var gone := childExited || Leaving(turns) == Some(ChildExited);
            var ended := closed || exists k | 0 <= k < |events| :: events[k].LateClosed? && StillWaits(events, closed, gone, k);
            && (Shuts(turns, events, childExited) <==> !StillWaits(events, closed, gone, |events|))
            && LateBytes(turns, events, queued, childExited) ==
               Flatten(ChunksLate(events, closed, gone, |events|)
                       + if !StillWaits(events, closed, gone, |events|) && !ended then queued else [])
  {
    hide Flatten, ArrivingLate, ReaderClosedLate, WaitEnds, Leaving, ReaderClosedAfter, ChunksLate, StillWaits;
    var closed, gone := ReaderClosedAfter(turns, false), childExited || Leaving(turns) == Some(ChildExited);
    ReaderClosedIff(turns);
    ArrivingLateInOrder(events, closed, gone);
    WaitEndsIff(events, closed, gone);
    ReaderClosedLateIff(events, closed, gone);
    var rest: seq<Bytes> := if WaitEnds(events, closed, gone) && !ReaderClosedLate(events, closed, gone) then queued else [];
    FlattenConcat(ChunksLate(events, closed, gone, |events|), rest);
    assert Flatten([]) == [] by { FlattenEmpty(); }
  }

  lemma FlattenEmpty()
    ensures Flatten([]) == []
  {
  }

  // ----------------------------------------------------------------------- the gate

  predicate OpensGate(t: GateTurn, bufferedBytes: nat) {
    !t.paused && (t.ready || t.elapsedMs >= 5_000 || bufferedBytes > 1_000_000)
  }

  predicate GivesUp(t: GateTurn) { t.activity in {GateClose, GateControllerGone, GateStateGone} }

  predicate DecidesGate(t: GateTurn, bufferedBytes: nat) { OpensGate(t, bufferedBytes) || GivesUp(t) }

  /** The first turn that opens the gate or gives it up decides, and opening comes before giving up. */
  lemma {:induction false} GateDecidedAt(turns: seq<GateTurn>, bufferedBytes: nat, k: nat)
    requires k < |turns| && DecidesGate(turns[k], bufferedBytes) && forall j | 0 <= j < k :: !DecidesGate(turns[j], bufferedBytes)
    ensures GateOutcome(turns, bufferedBytes) ==
            if OpensGate(turns[k], bufferedBytes) then Released
            else if turns[k].activity.GateClose? then Closed
            else Abandoned
  {
    if k > 0 {
      assert !DecidesGate(turns[0], bufferedBytes);
      forall j | 0 <= j < k - 1 ensures !DecidesGate(turns[1..][j], bufferedBytes) { assert turns[1..][j] == turns[j + 1]; }
      GateDecidedAt(turns[1..], bufferedBytes, k - 1);
    }
  }

  /** The wait goes on exactly while no turn decides. */
  lemma {:induction false} GateWaitsIff(turns: seq<GateTurn>, bufferedBytes: nat)
    ensures GateOutcome(turns, bufferedBytes).Waiting? <==> forall k | 0 <= k < |turns| :: !DecidesGate(turns[k], bufferedBytes)
  {
    if turns != [] {
      GateWaitsIff(turns[1..], bufferedBytes);
      if forall k | 0 <= k < |turns| - 1 :: !DecidesGate(turns[1..][k], bufferedBytes) {
        forall k | 0 < k < |turns| ensures !DecidesGate(turns[k], bufferedBytes) { assert turns[1..][k - 1] == turns[k]; }
      }
    }
  }
}
