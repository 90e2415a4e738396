/** Commands queued for a remote shell and the coalescing of one batch of them before they are
    written to the channel. */
module SessionCommands {
  import opened Common
  import opened Utf8

  datatype SessionCommand =
    | Write(data: Bytes)
    | WriteBytes(bytes: Bytes)
    | Resize(cols: nat, rows: nat)
    | Close

  // ------------------------------------------------------------------- meaning

  /** What the remote end observes. Binary input keeps its boundaries. */
  datatype InputEvent = Byte(b: byte) | Chunk(bytes: Bytes) | Size(cols: nat, rows: nat) | Closed

  function ByteEvents(data: Bytes): seq<InputEvent> {
    if data == [] then [] else [Byte(data[0])] + ByteEvents(data[1..])
  }

  function Events(c: SessionCommand): seq<InputEvent> {
    match c
    case Write(data) => ByteEvents(data)
    case WriteBytes(bytes) => [Chunk(bytes)]
    case Resize(cols, rows) => [Size(cols, rows)]
    case Close => [Closed]
  }

  function Trace(commands: seq<SessionCommand>): seq<InputEvent> {
    if commands == [] then [] else Events(commands[0]) + Trace(commands[1..])
  }

  /** Of adjacent resizes only the last one matters. */
  function Collapse(events: seq<InputEvent>): seq<InputEvent> {
    if events == [] then []
    else if |events| >= 2 && events[0].Size? && events[1].Size? then Collapse(events[1..])
    else [events[0]] + Collapse(events[1..])
  }

  ghost predicate SameMeaning(a: seq<InputEvent>, b: seq<InputEvent>) { Collapse(a) == Collapse(b) }

  lemma {:induction false} TraceConcat(a: seq<SessionCommand>, b: seq<SessionCommand>)
    ensures Trace(a + b) == Trace(a) + Trace(b)
  {
    if a == [] {
      assert a + b == b;
    } else {
      TraceConcat(a[1..], b);
      assert (a + b)[1..] == a[1..] + b;
      ConcatAssociative(Events(a[0]), Trace(a[1..]), Trace(b));
    }
  }

  lemma TraceAppend(a: seq<SessionCommand>, c: SessionCommand)
    ensures Trace(a + [c]) == Trace(a) + Events(c)
  {
    TraceConcat(a, [c]);
    assert Trace([c]) == Events(c) + [];
  }

  lemma TraceLast(commands: seq<SessionCommand>)
    requires commands != []
    ensures var n := |commands| - 1; Trace(commands) == Trace(commands[..n]) + Events(commands[n])
  {
    var n := |commands| - 1;
    TraceAppend(commands[..n], commands[n]);
    assert commands[..n] + [commands[n]] == commands;
  }

  lemma {:induction false} CollapseHead(e: seq<InputEvent>)
    ensures (Collapse(e) == []) == (e == [])
    ensures e != [] ==> Collapse(e)[0].Size? == e[0].Size?
  {
    if |e| >= 2 { CollapseHead(e[1..]); }
  }

  lemma {:induction false} CollapseLeft(a: seq<InputEvent>, x: seq<InputEvent>)
    ensures Collapse(Collapse(a) + x) == Collapse(a + x)
  {
    if a != [] {
      CollapseLeft(a[1..], x);
      CollapseHead(a[1..]);
      assert (a + x)[1..] == a[1..] + x;
      var c := Collapse(a[1..]);
      assert ([a[0]] + c + x)[1..] == c + x;
    }
  }

  lemma {:induction false} CollapseRight(a: seq<InputEvent>, x: seq<InputEvent>)
    ensures Collapse(a + Collapse(x)) == Collapse(a + x)
  {
    if a == [] {
      CollapseLeft(x, []);
      assert Collapse(x) + [] == Collapse(x) && x + [] == x;
      assert a + Collapse(x) == Collapse(x) && a + x == x;
    } else {
      CollapseRight(a[1..], x);
      CollapseHead(x);
      assert (a + x)[1..] == a[1..] + x;
      assert (a + Collapse(x))[1..] == a[1..] + Collapse(x);
    }
  }

  /** Meaning is a congruence: batches may be coalesced separately. */
  lemma SameMeaningConcat(a: seq<InputEvent>, b: seq<InputEvent>, x: seq<InputEvent>, y: seq<InputEvent>)
    requires SameMeaning(a, b) && SameMeaning(x, y)
    ensures SameMeaning(a + x, b + y)
  {
    CollapseLeft(a, x);
    CollapseLeft(b, x);
    CollapseRight(b, x);
    CollapseRight(b, y);
  }

  // ---------------------------------------------------------------- coalescing

  /** What one pass over the batch has accumulated. */
  datatype Accumulator = Accumulator(merged: seq<SessionCommand>, write: Bytes, resize: Option<(nat, nat)>)

  function PendingResize(r: Option<(nat, nat)>): seq<SessionCommand> {
    match r case None => [] case Some((cols, rows)) => [Resize(cols, rows)]
  }

  function PendingWrite(w: Bytes): seq<SessionCommand> { if w == [] then [] else [Write(w)] }

  function Absorb(a: Accumulator, c: SessionCommand): Accumulator {
    match c
    case Write(data) => Accumulator(a.merged + PendingResize(a.resize), a.write + data, None)
    case WriteBytes(_) => Accumulator(a.merged + PendingResize(a.resize) + PendingWrite(a.write) + [c], [], None)
    case Resize(cols, rows) => Accumulator(a.merged + PendingWrite(a.write), [], Some((cols, rows)))
    case Close => Accumulator(a.merged + PendingResize(a.resize) + PendingWrite(a.write) + [c], [], None)
  }

  function Finish(a: Accumulator): seq<SessionCommand> {
    a.merged + PendingResize(a.resize) + PendingWrite(a.write)
  }

  function Scan(commands: seq<SessionCommand>): Accumulator {
    if commands == [] then Accumulator([], [], None)
    else Absorb(Scan(commands[..|commands| - 1]), commands[|commands| - 1])
  }

  function Coalesce(commands: seq<SessionCommand>): seq<SessionCommand> { Finish(Scan(commands)) }

  method CoalesceSessionCommands(commands: seq<SessionCommand>) returns (merged: seq<SessionCommand>)
    ensures merged == Coalesce(commands)
    ensures SameMeaning(Trace(merged), Trace(commands))
    ensures |merged| <= |commands| && Write([]) !in merged
  {
    merged := [];
    var pendingWrite: Bytes := [];
    var pendingResize: Option<(nat, nat)> := None;
    for i := 0 to |commands|
      invariant Accumulator(merged, pendingWrite, pendingResize) == Scan(commands[..i])
    {
      assert commands[..i + 1][..i] == commands[..i];
      match commands[i] {
        case Write(data) =>
          if pendingResize.Some? {
            merged := merged + [Resize(pendingResize.value.0, pendingResize.value.1)];
            pendingResize := None;
          }
          pendingWrite := pendingWrite + data;
        case WriteBytes(bytes) =>
          if pendingResize.Some? {
            merged := merged + [Resize(pendingResize.value.0, pendingResize.value.1)];
            pendingResize := None;
          }
          if pendingWrite != [] {
            merged := merged + [Write(pendingWrite)];
            pendingWrite := [];
          }
          merged := merged + [WriteBytes(bytes)];
        case Resize(cols, rows) =>
          if pendingWrite != [] {
            merged := merged + [Write(pendingWrite)];
            pendingWrite := [];
          }
          pendingResize := Some((cols, rows));
        case Close =>
          if pendingResize.Some? {
            merged := merged + [Resize(pendingResize.value.0, pendingResize.value.1)];
            pendingResize := None;
          }
          if pendingWrite != [] {
            merged := merged + [Write(pendingWrite)];
            pendingWrite := [];
          }
          merged := merged + [Close];
      }
    }
    assert commands[..|commands|] == commands;
    if pendingResize.Some? {
      merged := merged + [Resize(pendingResize.value.0, pendingResize.value.1)];
    }
    if pendingWrite != [] {
      merged := merged + [Write(pendingWrite)];
    }
    CoalesceKeepsMeaning(commands);
    ScanShape(commands);
  }

  // ------------------------------------------------------- meaning is preserved

  lemma TraceOfFinish(a: Accumulator)
    ensures Trace(Finish(a)) == Trace(a.merged) + Trace(PendingResize(a.resize)) + Trace(PendingWrite(a.write))
    ensures Trace(PendingWrite(a.write)) == Events(Write(a.write))
  {
    TraceConcat(a.merged + PendingResize(a.resize), PendingWrite(a.write));
    TraceConcat(a.merged, PendingResize(a.resize));
    TraceAppend([], Write(a.write));
    assert [] + [Write(a.write)] == [Write(a.write)];
  }

  lemma {:induction false} ByteEventsConcat(w: Bytes, data: Bytes)
    ensures ByteEvents(w + data) == ByteEvents(w) + ByteEvents(data)
  {
    if w == [] {
      assert w + data == data;
    } else {
      ByteEventsConcat(w[1..], data);
      assert (w + data)[1..] == w[1..] + data;
      ConcatAssociative([Byte(w[0])], ByteEvents(w[1..]), ByteEvents(data));
    }
  }

  lemma {:induction false} ByteEventsAt(data: Bytes)
    ensures |ByteEvents(data)| == |data|
    ensures forall i | 0 <= i < |data| :: ByteEvents(data)[i] == Byte(data[i])
  {
    if data != [] { ByteEventsAt(data[1..]); }
  }

  lemma TraceOfOne(c: SessionCommand)
    ensures Trace([c]) == Events(c)
  {
    assert [c][1..] == [] && Events(c) + [] == Events(c);
  }

  lemma TraceAfterResize(a: Accumulator, c: SessionCommand)
    requires c.Resize?
    ensures Trace(Finish(Absorb(a, c))) == (Trace(a.merged) + Trace(PendingWrite(a.write))) + Events(c)
  {
    var b := Absorb(a, c);
    TraceOfFinish(b);
    TraceOfOne(c);
    TraceConcat(a.merged, PendingWrite(a.write));
    var all := Trace(b.merged) + Events(c);
    assert Trace(PendingWrite(b.write)) == [] && all + [] == all;
  }

  lemma TraceBeforeResize(a: Accumulator)
    requires a.resize.None? || a.write == []
    ensures Trace(Finish(a)) == Trace(a.merged) + (if a.resize.Some? then Trace(PendingResize(a.resize)) else Trace(PendingWrite(a.write)))
    ensures a.resize.Some? ==> Trace(PendingWrite(a.write)) == []
  {
    TraceOfFinish(a);
    var t := Trace(a.merged);
    assert t + [] == t;
    var u := t + Trace(PendingResize(a.resize));
    assert u + [] == u;
  }

  lemma OnlyLastSizeMatters(t: seq<InputEvent>, x: InputEvent, y: InputEvent)
    requires x.Size? && y.Size?
    ensures SameMeaning(t + [y], (t + [x]) + [y])
  {
    assert [x, y][1..] == [y] && Collapse([x, y]) == Collapse([y]);
    CollapseRight(t, [x, y]);
    CollapseRight(t, [y]);
    assert t + [x, y] == (t + [x]) + [y];
  }

  lemma AbsorbResizeKeepsMeaning(a: Accumulator, c: SessionCommand)
    requires c.Resize? && (a.resize.None? || a.write == [])
    ensures SameMeaning(Trace(Finish(Absorb(a, c))), Trace(Finish(a)) + Events(c))
  {
    var t := Trace(a.merged);
    TraceAfterResize(a, c);
    TraceBeforeResize(a);
    if a.resize.Some? {
      var before := Resize(a.resize.value.0, a.resize.value.1);
      TraceOfOne(before);
      assert t + [] == t;
      OnlyLastSizeMatters(t, Events(before)[0], Events(c)[0]);
    }
  }

  lemma AbsorbKeepsMeaning(a: Accumulator, c: SessionCommand)
    requires a.resize.None? || a.write == []
    ensures SameMeaning(Trace(Finish(Absorb(a, c))), Trace(Finish(a)) + Events(c))
  {
    var b := Absorb(a, c);
    match c
    case Resize(_, _) => AbsorbResizeKeepsMeaning(a, c);
    case Write(data) =>
      TraceOfFinish(a);
      TraceOfFinish(b);
      TraceConcat(a.merged, PendingResize(a.resize));
      ByteEventsConcat(a.write, data);
      assert Trace(PendingResize(b.resize)) == [];
      var front := Trace(a.merged) + Trace(PendingResize(a.resize));
      assert front + [] == front;
      ConcatAssociative(front, ByteEvents(a.write), ByteEvents(data));
    case WriteBytes(_) =>
      TraceAppend(Finish(a), c);
      assert Finish(b) == Finish(a) + [c];
    case Close =>
      TraceAppend(Finish(a), c);
      assert Finish(b) == Finish(a) + [c];
  }

  lemma AbsorbExtends(a: Accumulator, c: SessionCommand, trace: seq<InputEvent>)
    requires WellShaped(a) && SameMeaning(Trace(Finish(a)), trace)
    ensures SameMeaning(Trace(Finish(Absorb(a, c))), trace + Events(c))
  {
    AbsorbKeepsMeaning(a, c);
    SameMeaningConcat(Trace(Finish(a)), trace, Events(c), Events(c));
  }

  /** A batch and its coalesced form mean the same to the remote end. */
  lemma {:induction false} CoalesceKeepsMeaning(commands: seq<SessionCommand>)
    ensures SameMeaning(Trace(Coalesce(commands)), Trace(commands))
  {
    if commands == [] {
      assert Coalesce(commands) == [];
    } else {
      var n := |commands| - 1;
      var front, c := commands[..n], commands[n];
      CoalesceKeepsMeaning(front);
      assert WellShaped(Scan(front)) by { ScanShape(front); }
      AbsorbExtends(Scan(front), c, Trace(front));
      TraceLast(commands);
    }
  }

  // ------------------------------------------------------------- the normal form

  predicate NoAdjacentWrites(r: seq<SessionCommand>) {
    forall i | 0 <= i < |r| - 1 :: !(r[i].Write? && r[i + 1].Write?)
  }

  predicate NoAdjacentResizes(r: seq<SessionCommand>) {
    forall i | 0 <= i < |r| - 1 :: !(r[i].Resize? && r[i + 1].Resize?)
  }

  predicate Normal(r: seq<SessionCommand>) {
    Write([]) !in r && NoAdjacentWrites(r) && NoAdjacentResizes(r)
  }

  predicate EndsInWrite(r: seq<SessionCommand>) { r != [] && r[|r| - 1].Write? }

  lemma NoAdjacentWritesAppend(r: seq<SessionCommand>, c: SessionCommand)
    requires NoAdjacentWrites(r) && !(EndsInWrite(r) && c.Write?)
    ensures NoAdjacentWrites(r + [c])
  {
  }

  /** At most one kind of pending work; nothing merged is an empty write or two writes in a row. */
  predicate WellShaped(a: Accumulator) {
    && (a.resize.None? || a.write == [])
    && Write([]) !in a.merged && NoAdjacentWrites(a.merged)
    && (EndsInWrite(a.merged) ==> a.resize.Some?)
  }

  lemma FinishShape(a: Accumulator)
    requires WellShaped(a)
    ensures Write([]) !in Finish(a) && NoAdjacentWrites(Finish(a))
    ensures Finish(a) == a.merged + (if a.resize.Some? then PendingResize(a.resize) else PendingWrite(a.write))
    ensures |Finish(a)| <= |a.merged| + 1
  {
    if a.resize.Some? {
      NoAdjacentWritesAppend(a.merged, Resize(a.resize.value.0, a.resize.value.1));
    } else if a.write != [] {
      NoAdjacentWritesAppend(a.merged, Write(a.write));
    }
  }

  lemma AbsorbShape(a: Accumulator, c: SessionCommand)
    requires WellShaped(a)
    ensures WellShaped(Absorb(a, c)) && |Finish(Absorb(a, c))| <= |Finish(a)| + 1
  {
    FinishShape(a);
    if c.WriteBytes? || c.Close? {
      NoAdjacentWritesAppend(Finish(a), c);
      assert Absorb(a, c).merged == Finish(a) + [c];
    } else if c.Resize? && a.write != [] {
      NoAdjacentWritesAppend(a.merged, Write(a.write));
    } else if c.Write? && a.resize.Some? {
      NoAdjacentWritesAppend(a.merged, Resize(a.resize.value.0, a.resize.value.1));
    }
  }

  /** Unconditional facts about one pass: no empty write, no two writes in a row, and never more
      commands than were read. */
  lemma {:induction false} ScanShape(commands: seq<SessionCommand>)
    ensures WellShaped(Scan(commands))
    ensures |Coalesce(commands)| <= |commands|
    ensures Write([]) !in Coalesce(commands) && NoAdjacentWrites(Coalesce(commands))
  {
    if commands != [] {
      ScanShape(commands[..|commands| - 1]);
      AbsorbShape(Scan(commands[..|commands| - 1]), commands[|commands| - 1]);
    }
    FinishShape(Scan(commands));
  }

  /** Resize, then only empty writes and at least one of them, then resize: the empty write pushes
      the first resize out although nothing follows it. */
  predicate HidesResize(commands: seq<SessionCommand>) {
    exists i, j | 0 <= i < j < |commands| :: Hides(commands, i, j)
  }

  predicate Hides(commands: seq<SessionCommand>, i: nat, j: nat)
    requires i < j < |commands|
  {
    commands[i].Resize? && commands[j].Resize? && i + 1 < j && forall k | i < k < j :: commands[k] == Write([])
  }

  predicate EndsInHiddenResize(commands: seq<SessionCommand>) {
    exists i | 0 <= i < |commands| - 1 :: EndsHidden(commands, i)
  }

  predicate EndsHidden(commands: seq<SessionCommand>, i: nat)
    requires i < |commands|
  {
    commands[i].Resize? && forall k | i < k < |commands| :: commands[k] == Write([])
  }

  lemma HidesResizeAppend(front: seq<SessionCommand>, c: SessionCommand)
    ensures HidesResize(front + [c]) <==> HidesResize(front) || (c.Resize? && EndsInHiddenResize(front))
  {
    var all := front + [c];
    if HidesResize(all) {
      var i, j :| 0 <= i < j < |all| && Hides(all, i, j);
      if j < |front| {
        assert forall k | i < k < j :: front[k] == all[k];
        assert Hides(front, i, j);
      } else {
        assert forall k | i < k < |front| :: front[k] == all[k];
        assert EndsHidden(front, i);
      }
    }
    if HidesResize(front) {
      var i, j :| 0 <= i < j < |front| && Hides(front, i, j);
      assert Hides(all, i, j);
    }
    if c.Resize? && EndsInHiddenResize(front) {
      var i :| 0 <= i < |front| - 1 && EndsHidden(front, i);
      assert Hides(all, i, |front|);
    }
  }

  lemma EndsHiddenAppend(front: seq<SessionCommand>, c: SessionCommand)
    ensures EndsInHiddenResize(front + [c]) <==>
            c == Write([]) && front != [] && (front[|front| - 1].Resize? || EndsInHiddenResize(front))
  {
    var all := front + [c];
    if EndsInHiddenResize(all) {
      var i :| 0 <= i < |all| - 1 && EndsHidden(all, i);
      assert all[|front|] == Write([]);
      if i < |front| - 1 {
        assert forall k | i < k < |front| :: front[k] == all[k];
        assert EndsHidden(front, i);
      }
    }
    if c == Write([]) && front != [] && front[|front| - 1].Resize? {
      assert EndsHidden(all, |front| - 1);
    }
    if c == Write([]) && EndsInHiddenResize(front) {
      var i :| 0 <= i < |front| - 1 && EndsHidden(front, i);
      assert EndsHidden(all, i);
    }
  }

  predicate EndsInResize(r: seq<SessionCommand>) { r != [] && r[|r| - 1].Resize? }

  lemma NoAdjacentResizesAppend(r: seq<SessionCommand>, c: SessionCommand)
    ensures NoAdjacentResizes(r + [c]) <==> NoAdjacentResizes(r) && !(EndsInResize(r) && c.Resize?)
  {
    var all := r + [c];
    if NoAdjacentResizes(all) {
      forall i | 0 <= i < |r| - 1 ensures !(r[i].Resize? && r[i + 1].Resize?) {
        assert !(all[i].Resize? && all[i + 1].Resize?);
      }
      if r != [] { assert !(all[|r| - 1].Resize? && all[|r|].Resize?); }
    }
  }

  predicate Settled(a: Accumulator) { NoAdjacentResizes(a.merged + PendingResize(a.resize)) }

  predicate ResizePushedOut(a: Accumulator) { EndsInResize(a.merged) && a.resize.None? && a.write == [] }

  lemma AbsorbResizes(a: Accumulator, c: SessionCommand)
    requires WellShaped(a)
    ensures var b := Absorb(a, c);
            && b.resize.Some? == c.Resize?
            && (ResizePushedOut(b) <==> c == Write([]) && (a.resize.Some? || ResizePushedOut(a)))
            && (Settled(b) <==> Settled(a) && !(c.Resize? && ResizePushedOut(a)))
  {
    var b := Absorb(a, c);
    if c.WriteBytes? || c.Close? {
      ScanResizesFlush(a, c);
    } else if c.Write? {
      assert b.merged + PendingResize(b.resize) == a.merged + PendingResize(a.resize);
    } else {
      assert b.merged + PendingResize(b.resize) == b.merged + [c];
      NoAdjacentResizesAppend(b.merged, c);
      assert a.merged + [] == a.merged;
      if a.write != [] {
        NoAdjacentResizesAppend(a.merged, Write(a.write));
      } else if a.resize.Some? {
        NoAdjacentResizesAppend(a.merged, Resize(a.resize.value.0, a.resize.value.1));
      }
    }
  }

  /** The pass leaves two resizes in a row exactly when the batch hides one. */
  lemma {:induction false} ScanResizes(commands: seq<SessionCommand>)
    ensures Scan(commands).resize.Some? <==> EndsInResize(commands)
    ensures ResizePushedOut(Scan(commands)) <==> EndsInHiddenResize(commands)
    ensures Settled(Scan(commands)) <==> !HidesResize(commands)
  {
    if commands != [] {
      var n := |commands| - 1;
      var front, c := commands[..n], commands[n];
      assert front + [c] == commands;
      ScanResizes(front);
      ScanShape(front);
      HidesResizeAppend(front, c);
      EndsHiddenAppend(front, c);
      AbsorbResizes(Scan(front), c);
    }
  }

  lemma ScanResizesFlush(a: Accumulator, c: SessionCommand)
    requires c.WriteBytes? || c.Close?
    ensures var b := Absorb(a, c);
            && b.merged + PendingResize(b.resize) == b.merged
            && !EndsInResize(b.merged)
            && NoAdjacentResizes(b.merged) == NoAdjacentResizes(a.merged + PendingResize(a.resize))
  {
    var m := a.merged + PendingResize(a.resize);
    if a.write != [] {
      NoAdjacentResizesAppend(m, Write(a.write));
      NoAdjacentResizesAppend(m + [Write(a.write)], c);
    } else {
      NoAdjacentResizesAppend(m, c);
      assert m + PendingWrite(a.write) + [c] == m + [c];
    }
  }

  /** The result is in normal form exactly when the batch hides no resize, in particular for every
      batch without empty writes. */
  lemma CoalesceNormalIff(commands: seq<SessionCommand>)
    ensures Normal(Coalesce(commands)) <==> !HidesResize(commands)
    ensures Write([]) !in commands ==> Normal(Coalesce(commands))
  {
    var a := Scan(commands);
    ScanShape(commands);
    ScanResizes(commands);
    var m := a.merged + PendingResize(a.resize);
    if a.write != [] {
      NoAdjacentResizesAppend(m, Write(a.write));
    } else {
      assert m + PendingWrite(a.write) == m;
    }
    if HidesResize(commands) {
      var i, j :| 0 <= i < j < |commands| && Hides(commands, i, j);
      assert commands[i + 1] == Write([]);
    }
  }

  // ------------------------------------------------ the normal form is canonical

  /** The leading run of bytes of a trace whose first command is a write is exactly that write. */
  lemma FirstEvent(r: seq<SessionCommand>)
    requires Normal(r)
    ensures r == [] <==> Trace(r) == []
    ensures r != [] ==> Normal(r[1..]) && (Trace(r)[0].Byte? <==> r[0].Write?)
    ensures r != [] && r[0].Write? ==>
              IsRun(r[0].data, Trace(r)) && Trace(r)[|r[0].data|..] == Trace(r[1..])
    ensures r != [] && !r[0].Write? ==> Trace(r)[0] == Events(r[0])[0] && Trace(r)[1..] == Trace(r[1..])
  {
    if r != [] {
      assert r[0] in r;
      NormalTail(r);
      if r[0].Write? { ByteEventsAt(r[0].data); }
      if |r| > 1 {
        assert r[1] in r;
        if r[1].Write? { ByteEventsAt(r[1].data); }
        assert !(r[0].Write? && r[1].Write?);
        assert Trace(r[1..]) == Events(r[1]) + Trace(r[1..][1..]);
      }
    }
  }

  lemma NormalTail(r: seq<SessionCommand>)
    requires Normal(r) && r != []
    ensures Normal(r[1..])
  {
    var t := r[1..];
    forall i | 0 <= i < |t| - 1 ensures !(t[i].Write? && t[i + 1].Write?) && !(t[i].Resize? && t[i + 1].Resize?) {
      assert !(r[i + 1].Write? && r[i + 1 + 1].Write?) && !(r[i + 1].Resize? && r[i + 1 + 1].Resize?);
    }
  }

  lemma {:induction false} NormalTraceIsCollapsed(r: seq<SessionCommand>)
    requires Normal(r)
    ensures Collapse(Trace(r)) == Trace(r)
  {
    if r != [] {
      NormalTail(r);
      NormalTraceIsCollapsed(r[1..]);
      if |r| > 1 {
        FirstEvent(r[1..]);
        assert !(r[0].Resize? && r[1].Resize?);
      }
      match r[0]
      case Write(data) => CollapseBytes(data, Trace(r[1..]));
      case WriteBytes(_) =>
      case Resize(_, _) => assert Trace(r)[1..] == Trace(r[1..]);
      case Close =>
    }
  }

  lemma {:induction false} CollapseBytes(data: Bytes, rest: seq<InputEvent>)
    ensures Collapse(ByteEvents(data) + rest) == ByteEvents(data) + Collapse(rest)
  {
    if data == [] {
      assert ByteEvents(data) + rest == rest;
    } else {
      CollapseBytes(data[1..], rest);
      var head, tail := [Byte(data[0])], ByteEvents(data[1..]);
      ConcatAssociative(head, tail, rest);
      assert (head + (tail + rest))[1..] == tail + rest;
      ConcatAssociative(head, tail, Collapse(rest));
    }
  }

  /** A meaning has at most one normal form. */
  lemma {:induction false} NormalFormUnique(a: seq<SessionCommand>, b: seq<SessionCommand>)
    requires Normal(a) && Normal(b) && Trace(a) == Trace(b)
    ensures a == b
  {
    FirstEvent(a);
    FirstEvent(b);
    if a != [] {
      if a[0].Write? {
        SameRun(a[0].data, b[0].data, Trace(a));
      }
      NormalFormUnique(a[1..], b[1..]);
      assert a == [a[0]] + a[1..] && b == [b[0]] + b[1..];
    }
  }

  predicate IsRun(data: Bytes, trace: seq<InputEvent>) {
    && |data| <= |trace|
    && (forall i | 0 <= i < |data| :: trace[i] == Byte(data[i]))
    && (|trace| > |data| ==> !trace[|data|].Byte?)
  }

  lemma SameRun(x: Bytes, y: Bytes, trace: seq<InputEvent>)
    requires IsRun(x, trace) && IsRun(y, trace)
    ensures x == y
  {
    forall i | 0 <= i < |x| && i < |y| ensures x[i] == y[i] { assert trace[i] == Byte(x[i]); }
  }

  /** Coalescing is idempotent exactly on batches that hide no resize. */
  lemma CoalesceIdempotentIff(commands: seq<SessionCommand>)
    ensures Coalesce(Coalesce(commands)) == Coalesce(commands) <==> !HidesResize(commands)
  {
    var once, twice := Coalesce(commands), Coalesce(Coalesce(commands));
    ScanShape(commands);
    CoalesceNormalIff(commands);
    CoalesceNormalIff(once);
    if Normal(once) {
      CoalesceKeepsMeaning(once);
      NormalTraceIsCollapsed(once);
      NormalTraceIsCollapsed(twice);
      NormalFormUnique(once, twice);
    }
  }

  /** A batch on which a second pass changes the result. */
  lemma CoalesceNotIdempotent(a: SessionCommand, b: SessionCommand)
    requires a.Resize? && b.Resize?
    ensures Coalesce([a, Write([]), b]) == [a, b]
    ensures Coalesce([a, b]) == [b]
  {
    var w := Write([]);
    assert [a, w, b][..2] == [a, w] && [a, w][..1] == [a] && [a, b][..1] == [a];
    assert [a][..0] == [];
    assert Scan([a]) == Accumulator([], [], Some((a.cols, a.rows)));
    assert Scan([a, w]) == Accumulator([a], [], None);
  }
}
