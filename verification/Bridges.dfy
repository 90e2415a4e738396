/** Byte pumps between an SSH channel and a TCP stream. Each end is an input stream with a reading
    position and a log of what was sent to it; the kernel and the network decide how many bytes a
    read or a write moves. */
module Bridges {
  import opened Common
  import opened Utf8


  /** What a read or a write does when it is called: move up to `limit` bytes (a read at the end of
      its stream returns zero bytes), ask to be retried, or fail. */
  datatype Io = Moves(limit: nat) | Retry | Fails

  datatype Sent = Data(bytes: Bytes) | End

  function Delivered(log: seq<Sent>): Bytes {
    if log == [] then []
    else Delivered(log[..|log| - 1]) + (if log[|log| - 1].Data? then log[|log| - 1].bytes else [])
  }

  lemma DeliveredAppend(log: seq<Sent>, s: Sent)
    ensures Delivered(log + [s]) == Delivered(log) + (if s.Data? then s.bytes else [])
  {
    assert (log + [s])[..|log|] == log;
  }

  lemma MoveToLog(log: seq<Sent>, rest: Bytes, count: nat)
    requires count <= |rest|
    ensures Delivered(log + [Data(rest[..count])]) + rest[count..] == Delivered(log) + rest
    ensures |Delivered(log + [Data(rest[..count])])| == |Delivered(log)| + count
  {
    DeliveredAppend(log, Data(rest[..count]));
    ConcatAssociative(Delivered(log), rest[..count], rest[count..]);
    assert rest[..count] + rest[count..] == rest;
  }

  /** `End` is sent at most once and nothing follows it. */
  predicate EndsCleanly(log: seq<Sent>) { forall i | 0 <= i < |log| - 1 :: log[i].Data? }

  datatype ReadResult = Got(count: nat) | ReadRetry | ReadFailed
  datatype WriteResult = Put(count: nat) | WriteRetry | WriteFailed

  // ------------------------------------------------------------- what is in flight

  /** The length of a direction's source and the size of its buffer. */
  datatype Pipe = Pipe(length: nat, capacity: nat)

  /** How far a direction has come: bytes read, bytes waiting in the buffer, and its two end flags. */
  datatype Progress = Progress(position: nat, pending: nat, eof: bool, ended: bool)

  /** The turns of one direction in one round of a bridge; `passEnd` is the attempt to pass the end of
      the stream on. */
  datatype Turn = Turn(read: Io, write: Io, passEnd: Io)

  /** What a read that may move up to `limit` bytes moves: nothing exactly at the end of the source. */
  function Amount(pipe: Pipe, position: nat, limit: nat): nat {
    Min(Min(if limit == 0 then 1 else limit, pipe.capacity), if position <= pipe.length then pipe.length - position else 0)
  }

  predicate ReadFails(p: Progress, io: Io) { !p.eof && p.pending == 0 && io.Fails? }

  predicate WriteFails(p: Progress, io: Io) { p.pending > 0 && (io.Fails? || io == Moves(0)) }

  predicate EndFails(p: Progress, io: Io, endMayRetry: bool) {
    p.eof && p.pending == 0 && !p.ended && (io.Fails? || (io.Retry? && !endMayRetry))
  }

  function AfterRead(pipe: Pipe, p: Progress, io: Io): Progress {
    if p.eof || p.pending > 0 || !io.Moves? then p
    else var count := Amount(pipe, p.position, io.limit); p.(position := p.position + count, pending := count, eof := count == 0)
  }

  function AfterWrite(p: Progress, io: Io): Progress {
    if io.Moves? then p.(pending := p.pending - Min(io.limit, p.pending)) else p
  }

  function AfterEnd(p: Progress, io: Io): Progress {
    if p.eof && p.pending == 0 && io.Moves? then p.(ended := true) else p
  }

  /** One direction's part of a round: nothing when an attempted read, write or end fails, and then the
      attempts after it are not made. */
  function PumpStep(pipe: Pipe, p: Progress, t: Turn, endMayRetry: bool): Option<Progress> {
    if ReadFails(p, t.read) then None
    else
      var q := AfterRead(pipe, p, t.read);
      if WriteFails(q, t.write) then None
      else
        var r := AfterWrite(q, t.write);
        if EndFails(r, t.passEnd, endMayRetry) then None else Some(AfterEnd(r, t.passEnd))
  }

  /** One direction: `source` is what its reading end will ever yield, `log` what its writing end got. */
  class Direction {
    const source: Bytes
    var position: nat
    var log: seq<Sent>
    const buffer: array<byte>
    var start: nat
    var end: nat
    /** The source has returned zero bytes. */
    var eof: bool
    /** The end of the stream has been passed on. */
    var sentEnd: bool

    /** Delivered bytes followed by the unsent part of the buffer are the bytes read; the stream's
        end is passed on only after everything before it. */
    ghost predicate Valid()
      reads this, buffer
    {
      && start <= end <= buffer.Length && buffer.Length > 0
      && position <= |source|
      && Delivered(log) + buffer[start..end] == source[..position]
      && (eof ==> position == |source|)
      && EndsCleanly(log)
      && (sentEnd <==> log != [] && log[|log| - 1].End?)
      && (sentEnd ==> eof && start == end)
    }

    constructor (stream: Bytes, capacity: nat)
      requires capacity > 0
      ensures Valid() && fresh(buffer) && source == stream && position == 0 && log == [] && !eof && !sentEnd
      ensures start == end && buffer.Length == capacity
    {
      source := stream;
      buffer := new byte[capacity];
      position, log, start, end, eof, sentEnd := 0, [], 0, 0, false, false;
    }

    const pipe: Pipe := Pipe(|source|, buffer.Length)

    ghost function State(): Progress
      reads this, buffer
      requires Valid()
    {
      Progress(position, end - start, eof, sentEnd)
    }

    /** `read`: copies the next bytes of the source to the front of the buffer. */
    method ReadSource(io: Io) returns (r: ReadResult)
      requires position <= |source| && buffer.Length > 0
      modifies this`position, buffer
      ensures r.ReadRetry? <==> io.Retry?
      ensures r.ReadFailed? <==> io.Fails?
      ensures !r.Got? ==> position == old(position)
      ensures r.Got? ==>
                && r.count <= buffer.Length && position == old(position) + r.count <= |source|
                && buffer[..r.count] == source[old(position)..position]
                && (r.count == 0 <==> old(position) == |source|)
                && r.count == Amount(pipe, old(position), io.limit)
    {
      match io {
        case Retry => return ReadRetry;
        case Fails => return ReadFailed;
        case Moves(limit) =>
          var from, left := position, |source| - position;
          var count := if limit == 0 then 1 else limit;
          count := if count <= buffer.Length then count else buffer.Length;
          count := if count <= left then count else left;
          for i := 0 to count
            invariant position == from
            invariant forall k | 0 <= k < i :: buffer[k] == source[from + k]
          {
            buffer[i] := source[from + i];
          }
          position := from + count;
          r := Got(count);
      }
    }

    /** Reads when the buffer is empty and the source has not ended. */
    method Refill(io: Io) returns (failed: bool, progressed: bool)
      requires Valid() && !eof && start == end
      modifies this`position, this`start, this`end, this`eof, buffer
      ensures Valid() && log == old(log) && sentEnd == old(sentEnd)
      ensures failed <==> io.Fails?
      ensures !failed ==> State() == AfterRead(pipe, old(State()), io)
      ensures progressed <==> io.Moves?
      ensures eof <==> io.Moves? && old(position) == |source|
      ensures io.Moves? && !eof ==> position > old(position)
      ensures !progressed ==> position == old(position)
      ensures start == 0
    {
      ghost var before := position;
      assert Delivered(log) == source[..position] by { assert Delivered(log) + [] == Delivered(log); }
      start, end := 0, 0;
      var r := ReadSource(io);
      match r {
        case Got(count) =>
          end := count;
          eof := count == 0;
          assert buffer[0..end] == source[before..position];
          assert source[..before] + source[before..position] == source[..position];
          return false, true;
        case ReadRetry =>
          assert Delivered(log) + buffer[0..0] == Delivered(log);
          return false, false;
        case ReadFailed =>
          assert Delivered(log) + buffer[0..0] == Delivered(log);
          return true, false;
      }
    }

    /** Writes part of the buffer, in order; accepting nothing is an error. */
    method Forward(io: Io) returns (failed: bool, progressed: bool)
      requires Valid() && start < end
      modifies this`start, this`log
      ensures Valid()
      ensures failed <==> io.Fails? || io == Moves(0)
      ensures !failed ==> State() == AfterWrite(old(State()), io)
      ensures progressed <==> io.Moves? && io.limit > 0
      ensures progressed ==> start > old(start)
      ensures !progressed ==> log == old(log) && start == old(start)
      ensures |Delivered(log)| - start == old(|Delivered(log)| - start)
    {
      hide Delivered;
      match io {
        case Retry => return false, false;
        case Fails => return true, false;
        case Moves(limit) =>
          var count := if limit <= end - start then limit else end - start;
          if count == 0 { return true, false; }
          ghost var rest := buffer[start..end];
          var bytes := buffer[start..start + count];
          assert bytes == rest[..count] && buffer[start + count..end] == rest[count..];
          MoveToLog(log, rest, count);
          log := log + [Data(bytes)];
          start := start + count;
          return false, true;
      }
    }

    /** Passes the end of the stream on. */
    method PassEnd()
      requires Valid() && eof && start == end && !sentEnd
      modifies this`log, this`sentEnd
      ensures Valid() && sentEnd && log == old(log) + [End]
    {
      DeliveredAppend(log, End);
      assert Delivered(log) + [] == Delivered(log);
      log := log + [End];
      sentEnd := true;
    }

    /** When the end has been passed on, all of the stream was delivered before it. */
    lemma EndMeansAll()
      requires Valid() && sentEnd
      ensures Delivered(log) == source && EndsCleanly(log) && log != [] && log[|log| - 1].End?
    {
      assert Delivered(log) + [] == Delivered(log);
      assert source[..position] == source;
    }

    /** With an empty buffer, everything read so far was delivered. */
    lemma DrainedMeansDelivered()
      requires Valid() && start == end
      ensures Delivered(log) == source[..position]
    {
      assert Delivered(log) + [] == Delivered(log);
    }
  }

  datatype BridgeEnd = Completed | Stopped | Broken | StillRunning

  /** One direction's part of a round: refill, forward, pass the end on. */
  method Pump(d: Direction, t: Turn, endMayRetry: bool) returns (failed: bool, progressed: bool)
    requires d.Valid()
    modifies d, d.buffer
    ensures d.Valid()
    ensures old(d.sentEnd) ==> d.sentEnd && d.log == old(d.log)
    ensures old(d.eof) ==> d.eof && d.position == old(d.position)
    // it fails exactly at the first attempt that fails
    ensures failed <==> PumpStep(d.pipe, old(d.State()), t, endMayRetry).None?
    ensures !failed ==> d.State() == PumpStep(d.pipe, old(d.State()), t, endMayRetry).value
    ensures !failed && !progressed ==> d.position == old(d.position) && d.log == old(d.log)
    // no failure is overlooked: of a read, of a write, and of passing the end on
    ensures t.read.Fails? && old(d.start == d.end && !d.eof) ==> failed
    ensures (t.write.Fails? || t.write == Moves(0)) && old(d.start < d.end) ==> failed
    ensures (t.write.Fails? || t.write == Moves(0)) && t.read.Moves? && old(d.start == d.end && !d.eof && d.position < |d.source|) ==> failed
    ensures !failed && d.eof && d.start == d.end && !old(d.sentEnd) ==> t.passEnd.Moves? || (t.passEnd.Retry? && endMayRetry)
    // whatever can move does
    ensures !failed && t.read.Moves? && old(d.start == d.end && !d.eof) ==> d.position > old(d.position) || d.eof
    ensures !failed && t.write.Moves? && old(d.start < d.end) ==> |Delivered(d.log)| > old(|Delivered(d.log)|)
    ensures !failed && t.passEnd.Moves? && d.eof && d.start == d.end ==> d.sentEnd
  {
    hide Delivered, EndsCleanly, Amount;
    failed, progressed := false, false;
    var moved;
    if !d.eof && d.start == d.end {
      failed, progressed := d.Refill(t.read);
      if failed { return; }
    }
    if d.start < d.end {
      failed, moved := d.Forward(t.write);
      progressed := progressed || moved;
      if failed { return; }
    }
    if d.eof && d.start == d.end && !d.sentEnd {
      match t.passEnd {
        case Moves(_) =>
          d.PassEnd();
          progressed := true;
        case Retry => failed := !endMayRetry;
        case Fails => failed := true;
      }
    }
  }

  datatype Round = Round(cancelled: bool, deadlinePassed: bool, upload: Turn, download: Turn)

  /** How the scoped bridge ends from round `k` on: the first round that is cancelled, is late, fails or
      passes the second end on decides. */
  function ScopedEnd(up: Pipe, down: Pipe, rounds: seq<Round>, k: nat, u: Progress, d: Progress): BridgeEnd
    decreases |rounds| - k
  {
    if k >= |rounds| then StillRunning
    else if rounds[k].cancelled then Stopped
    else if rounds[k].deadlinePassed then Broken
    else match PumpStep(up, u, rounds[k].upload, true)
      case None => Broken
      case Some(v) =>
        (match PumpStep(down, d, rounds[k].download, false)
         case None => Broken
         case Some(e) => if v.ended && e.ended then Completed else ScopedEnd(up, down, rounds, k + 1, v, e))
  }

  /** The scoped bridge: both directions on one thread with half-close. SSH's end-of-file may have to
      be retried, a TCP shutdown may not. It returns normally only when both streams have been
      delivered in full and both ends passed on. */
  method BridgeScopedConnection(upload: Direction, download: Direction, rounds: seq<Round>) returns (end: BridgeEnd)
    requires upload != download && upload.buffer != download.buffer
    requires upload.Valid() && download.Valid()
    modifies upload, download, upload.buffer, download.buffer
    ensures upload.Valid() && download.Valid()
    ensures end.Completed? ==>
              && Delivered(upload.log) == upload.source && EndsCleanly(upload.log) && upload.log != [] && upload.log[|upload.log| - 1].End?
              && Delivered(download.log) == download.source && EndsCleanly(download.log) && download.log != [] && download.log[|download.log| - 1].End?
    ensures end == ScopedEnd(upload.pipe, download.pipe, rounds, 0, old(upload.State()), old(download.State()))
    ensures end.Stopped? ==> exists k | 0 <= k < |rounds| :: rounds[k].cancelled
    ensures end.StillRunning? ==> forall k | 0 <= k < |rounds| :: !rounds[k].cancelled && !rounds[k].deadlinePassed
  {
    hide PumpStep, Delivered, EndsCleanly, Direction.Valid;
    for k := 0 to |rounds|
      invariant upload.Valid() && download.Valid()
      invariant ScopedEnd(upload.pipe, download.pipe, rounds, k, upload.State(), download.State())
             == ScopedEnd(upload.pipe, download.pipe, rounds, 0, old(upload.State()), old(download.State()))
      invariant forall j | 0 <= j < k :: !rounds[j].cancelled && !rounds[j].deadlinePassed
    {
      if rounds[k].cancelled { return Stopped; }
      if rounds[k].deadlinePassed { return Broken; }
      var failed, progressed := Pump(upload, rounds[k].upload, true);
      if failed { return Broken; }
      failed, progressed := Pump(download, rounds[k].download, false);
      if failed { return Broken; }
      if upload.sentEnd && download.sentEnd {
        upload.EndMeansAll();
        download.EndMeansAll();
        return Completed;
      }
    }
    end := StillRunning;
  }

  datatype JumpRound = JumpRound(stopped: bool, upload: Turn, download: Turn)

  /** One direction's part of a round of the jump-host bridge; it reads only while neither side has ended. */
  function JumpStep(pipe: Pipe, p: Progress, t: Turn, closing: bool): Option<Progress> {
    if !closing && ReadFails(p, t.read) then None
    else
      var q := if closing then p else AfterRead(pipe, p, t.read);
      if WriteFails(q, t.write) then None else Some(AfterWrite(q, t.write))
  }

  function JumpEnd(up: Pipe, down: Pipe, rounds: seq<JumpRound>, k: nat, u: Progress, d: Progress): BridgeEnd
    decreases |rounds| - k
  {
    if k >= |rounds| then StillRunning
    else if rounds[k].stopped then Stopped
    else match JumpStep(up, u, rounds[k].upload, u.eof || d.eof)
      case None => Broken
      case Some(v) =>
        (match JumpStep(down, d, rounds[k].download, v.eof || d.eof)
         case None => Broken
         case Some(e) =>
           if (v.eof || e.eof) && v.pending == 0 && e.pending == 0 then Completed
           else JumpEnd(up, down, rounds, k + 1, v, e))
  }

  /** The jump-host bridge: once either side ends, nothing more is read from the other; it returns
      when everything that was read has been delivered. */
  method BridgeChannelTcp(upload: Direction, download: Direction, rounds: seq<JumpRound>) returns (end: BridgeEnd)
    requires upload != download && upload.buffer != download.buffer
    requires upload.Valid() && download.Valid() && !upload.eof && !download.eof
    modifies upload, download, upload.buffer, download.buffer
    ensures upload.Valid() && download.Valid() && !upload.sentEnd && !download.sentEnd
    ensures end.Completed? ==>
              && Delivered(upload.log) == upload.source[..upload.position]
              && Delivered(download.log) == download.source[..download.position]
              && (upload.position == |upload.source| || download.position == |download.source|)
    ensures end == JumpEnd(upload.pipe, download.pipe, rounds, 0, old(upload.State()), old(download.State()))
    ensures end.Stopped? ==> exists k | 0 <= k < |rounds| :: rounds[k].stopped
  {
    hide JumpStep, Delivered, EndsCleanly;
    var closing := false;
    for k := 0 to |rounds|
      invariant upload.Valid() && download.Valid() && !upload.sentEnd && !download.sentEnd
      invariant JumpEnd(upload.pipe, download.pipe, rounds, k, upload.State(), download.State())
             == JumpEnd(upload.pipe, download.pipe, rounds, 0, old(upload.State()), old(download.State()))
      invariant closing <==> upload.eof || download.eof
    {
      if rounds[k].stopped { return Stopped; }
      var failed := JumpPump(upload, rounds[k].upload, closing);
      if failed { return Broken; }
      closing := closing || upload.eof;
      failed := JumpPump(download, rounds[k].download, closing);
      if failed { return Broken; }
      closing := closing || download.eof;
      if closing && upload.start == upload.end && download.start == download.end {
        upload.DrainedMeansDelivered();
        download.DrainedMeansDelivered();
        return Completed;
      }
    }
    end := StillRunning;
  }

  /** One direction's part of a round: it reads only while neither side has ended. */
  method JumpPump(d: Direction, t: Turn, closing: bool) returns (failed: bool)
    requires d.Valid() && !d.sentEnd && (!closing ==> !d.eof)
    modifies d, d.buffer
    ensures d.Valid() && !d.sentEnd
    ensures closing ==> d.eof == old(d.eof) && d.position == old(d.position)
    // no failure is overlooked
    ensures t.read.Fails? && !closing && old(d.start == d.end) ==> failed
    ensures (t.write.Fails? || t.write == Moves(0)) && old(d.start < d.end) ==> failed
    ensures (t.write.Fails? || t.write == Moves(0)) && t.read.Moves? && !closing && old(d.start == d.end && d.position < |d.source|) ==> failed
    // whatever can move does
    ensures !failed && !closing && t.read.Moves? && old(d.start == d.end) ==> d.position > old(d.position) || d.eof
    ensures !failed && t.write.Moves? && old(d.start < d.end) ==> |Delivered(d.log)| > old(|Delivered(d.log)|)
    ensures failed <==> JumpStep(d.pipe, old(d.State()), t, closing).None?
    ensures !failed ==> d.State() == JumpStep(d.pipe, old(d.State()), t, closing).value
  {
    hide Delivered, EndsCleanly, Amount;
    failed := false;
    var moved;
    if !closing && d.start == d.end {
      failed, moved := d.Refill(t.read);
      if failed { return; }
    }
    if d.start < d.end {
      failed, moved := d.Forward(t.write);
    }
  }

  class Counter {
    var value: nat
    constructor () ensures value == 0 { value := 0; }
  }

  /** How forwarding `pending` bytes ends from write `k` on. */
  function ForwardEnd(pending: nat, writes: seq<Io>, k: nat): BridgeEnd
    decreases |writes| - k
  {
    if pending == 0 then Completed
    else if k >= |writes| then StillRunning
    else match writes[k]
      case Retry => ForwardEnd(pending, writes, k + 1)
      case Fails => Broken
      case Moves(limit) => if limit == 0 then Broken else ForwardEnd(pending - Min(limit, pending), writes, k + 1)
  }

  /** Forwarding passes over the answers that ask to retry, and the next one decides how it goes on. */
  lemma {:induction false} ForwardRetries(pending: nat, writes: seq<Io>, k: nat, n: nat)
    requires pending > 0 && k <= n < |writes| && !writes[n].Retry? && forall i | k <= i < n :: writes[i].Retry?
    ensures ForwardEnd(pending, writes, k) ==
            if writes[n].Fails? || writes[n].limit == 0 then Broken
            else if writes[n].limit >= pending then Completed
            else ForwardEnd(pending - writes[n].limit, writes, n + 1)
    decreases n - k
  {
    if k < n { ForwardRetries(pending, writes, k + 1, n); }
  }

  function WritesAt(writeScripts: seq<seq<Io>>, k: nat): seq<Io> { if k < |writeScripts| then writeScripts[k] else [] }

  /** What one read moves. */
  function Copied(pipe: Pipe, position: nat, io: Io): nat { if io.Moves? then Amount(pipe, position, io.limit) else 0 }

  /** How one round of the copy ends it, if it does. */
  function CopyRound(pipe: Pipe, position: nat, io: Io, writes: seq<Io>): Option<BridgeEnd> {
    if io.Fails? then Some(Broken)
    else if io.Retry? then None
    else if Copied(pipe, position, io) == 0 then Some(Completed)
    else
      var written := ForwardEnd(Copied(pipe, position, io), writes, 0);
      if written.Completed? then None else Some(written)
  }

  /** How the copy ends from read `k` on. */
  function CopyEnd(pipe: Pipe, readScript: seq<Io>, writeScripts: seq<seq<Io>>, k: nat, position: nat): BridgeEnd
    decreases |readScript| - k
  {
    if k >= |readScript| then StillRunning
    else match CopyRound(pipe, position, readScript[k], WritesAt(writeScripts, k))
      case Some(end) => end
      case None => CopyEnd(pipe, readScript, writeScripts, k + 1, position + Copied(pipe, position, readScript[k]))
  }

  /** Copies a stream and counts what was forwarded. The counter moves after a whole buffer has been
      forwarded, so it never runs ahead of the delivered bytes and agrees with them at a normal end. */
  method CopyCounted(d: Direction, counter: Counter, readScript: seq<Io>, writeScripts: seq<seq<Io>>) returns (end: BridgeEnd)
    requires d.Valid() && d.log == [] && d.position == 0 && d.start == d.end && !d.eof
    modifies d, d.buffer, counter
    ensures d.Valid() && !d.sentEnd
    ensures end.Completed? ==> Delivered(d.log) == d.source && counter.value == old(counter.value) + |d.source|
    ensures end == CopyEnd(d.pipe, readScript, writeScripts, 0, 0)
    ensures counter.value <= old(counter.value) + |Delivered(d.log)|
    ensures counter.value + d.buffer.Length >= old(counter.value) + |Delivered(d.log)|
  {
    assert Delivered(d.log) == [];
    hide Delivered, EndsCleanly, CopyRound, Copied;
    for k := 0 to |readScript|
      invariant d.Valid() && d.start == d.end && !d.eof && !d.sentEnd
      invariant counter.value == old(counter.value) + |Delivered(d.log)|
      invariant CopyEnd(d.pipe, readScript, writeScripts, k, d.position) == CopyEnd(d.pipe, readScript, writeScripts, 0, 0)
    {
      var ended := CopyOneBuffer(d, counter, readScript[k], WritesAt(writeScripts, k));
      if ended.Some? { return ended.value; }
    }
    end := StillRunning;
  }

  method CopyOneBuffer(d: Direction, counter: Counter, io: Io, writes: seq<Io>) returns (end: Option<BridgeEnd>)
    requires d.Valid() && d.start == d.end && !d.eof && !d.sentEnd
    modifies d, d.buffer, counter
    ensures d.Valid() && !d.sentEnd
    ensures end == CopyRound(d.pipe, old(d.position), io, writes)
    ensures (io.Fails? ==> end == Some(Broken)) && (io.Retry? ==> end.None?)
    ensures io.Moves? && old(d.position) == |d.source| ==> end == Some(Completed)
    ensures end.None? ==> !d.eof && d.start == d.end && d.position == old(d.position) + Copied(d.pipe, old(d.position), io)
    // the counter keeps up with what is delivered, at most one buffer behind
    ensures end.None? || end == Some(Completed) ==> counter.value - old(counter.value) == |Delivered(d.log)| - |old(Delivered(d.log))|
    ensures 0 <= |Delivered(d.log)| - |old(Delivered(d.log))| - (counter.value - old(counter.value)) <= d.buffer.Length
    ensures end == Some(Completed) ==> Delivered(d.log) == d.source
  {
    hide Delivered, EndsCleanly, Amount, ForwardEnd;
    var failed, moved := d.Refill(io);
    if failed { return Some(Broken); }
    if !moved { return None; }
    if d.eof {
      d.DrainedMeansDelivered();
      assert d.source[..d.position] == d.source;
      return Some(Completed);
    }
    var written := ForwardCounted(d, counter, writes);
    end := if written.Completed? then None else Some(written);
  }

  /** Forwards a full buffer and then counts it. */
  method ForwardCounted(d: Direction, counter: Counter, writes: seq<Io>) returns (end: BridgeEnd)
    requires d.Valid() && !d.sentEnd && d.start == 0
    modifies d`start, d`log, counter
    ensures d.Valid() && !d.sentEnd
    ensures |Delivered(d.log)| - d.start == |old(Delivered(d.log))|
    ensures end == ForwardEnd(d.end, writes, 0) && !end.Stopped? && (end.Completed? <==> d.start == d.end)
    ensures counter.value == old(counter.value) + (if end.Completed? then d.end else 0)
  {
    hide Delivered, EndsCleanly, ForwardEnd;
    end := ForwardAll(d, writes);
    if end.Completed? { counter.value := counter.value + d.end; }
  }

  /** Forwards the rest of the buffer. */
  method ForwardAll(d: Direction, writes: seq<Io>) returns (end: BridgeEnd)
    requires d.Valid() && !d.sentEnd
    modifies d`start, d`log
    ensures d.Valid() && !d.sentEnd
    ensures |Delivered(d.log)| - d.start == |old(Delivered(d.log))| - old(d.start)
    ensures end.Completed? <==> d.start == d.end
    ensures end == ForwardEnd(old(d.end - d.start), writes, 0) && !end.Stopped?
  {
    var k := 0;
    while d.start < d.end
      invariant k <= |writes| && d.Valid() && !d.sentEnd
      invariant |Delivered(d.log)| - d.start == |old(Delivered(d.log))| - old(d.start)
      invariant ForwardEnd(d.end - d.start, writes, k) == ForwardEnd(old(d.end - d.start), writes, 0)
      decreases |writes| - k
    {
      if k == |writes| { return StillRunning; }
      var failed, moved := d.Forward(writes[k]);
      if failed { return Broken; }
      k := k + 1;
    }
    end := Completed;
  }

  // ---------------------------------------------------------------- when a bridge ends

  predicate Faulty(t: Turn, endMayRetry: bool) {
    t.read.Fails? || t.write.Fails? || t.write == Moves(0) || t.passEnd.Fails? || (t.passEnd.Retry? && !endMayRetry)
  }

  /** The scoped bridge breaks only in a round that is late or in which something fails. */
  lemma {:induction false} BrokenNeedsCause(up: Pipe, down: Pipe, rounds: seq<Round>, k: nat, u: Progress, d: Progress)
    requires ScopedEnd(up, down, rounds, k, u, d) == Broken
    ensures exists i | k <= i < |rounds| ::
              && !rounds[i].cancelled
              && (rounds[i].deadlinePassed || Faulty(rounds[i].upload, true) || Faulty(rounds[i].download, false))
    decreases |rounds| - k
  {
    hide AfterRead, AfterWrite, AfterEnd;
    if !rounds[k].deadlinePassed && !Faulty(rounds[k].upload, true) && !Faulty(rounds[k].download, false) {
      BrokenNeedsCause(up, down, rounds, k + 1,
                       PumpStep(up, u, rounds[k].upload, true).value, PumpStep(down, d, rounds[k].download, false).value);
    }
  }

  predicate AllMove(t: Turn) { t.read.Moves? && t.write.Moves? && t.write.limit > 0 && t.passEnd.Moves? }

  /** What a direction still has to do. */
  function Remaining(pipe: Pipe, p: Progress): nat {
    if p.ended then 0 else (if p.position <= pipe.length then pipe.length - p.position else 0) + p.pending + 1
  }

  lemma MovingPump(pipe: Pipe, p: Progress, t: Turn, endMayRetry: bool)
    requires AllMove(t) && pipe.capacity > 0 && (p.ended ==> p.eof && p.pending == 0)
    ensures var r := PumpStep(pipe, p, t, endMayRetry);
            && r.Some? && (r.value.ended ==> r.value.eof && r.value.pending == 0)
            && (p.ended ==> r.value == p)
            && (!p.ended ==> Remaining(pipe, r.value) < Remaining(pipe, p))
  {
  }

  /** Both streams get through: when nothing blocks, fails or is cancelled for as many rounds as the longer
      direction has bytes and ends left, the scoped bridge completes. */
  lemma {:induction false} MovingBridgeCompletes(up: Pipe, down: Pipe, rounds: seq<Round>, k: nat, u: Progress, d: Progress)
    requires up.capacity > 0 && down.capacity > 0 && k <= |rounds|
    requires (u.ended ==> u.eof && u.pending == 0) && (d.ended ==> d.eof && d.pending == 0) && !(u.ended && d.ended)
    requires forall i | k <= i < |rounds| ::
               !rounds[i].cancelled && !rounds[i].deadlinePassed && AllMove(rounds[i].upload) && AllMove(rounds[i].download)
    requires |rounds| - k >= Remaining(up, u) && |rounds| - k >= Remaining(down, d)
    ensures ScopedEnd(up, down, rounds, k, u, d) == Completed
    decreases |rounds| - k
  {
    hide PumpStep;
    MovingPump(up, u, rounds[k].upload, true);
    MovingPump(down, d, rounds[k].download, false);
    var v, e := PumpStep(up, u, rounds[k].upload, true).value, PumpStep(down, d, rounds[k].download, false).value;
    if !(v.ended && e.ended) { MovingBridgeCompletes(up, down, rounds, k + 1, v, e); }
  }

  /** The jump-host bridge breaks only in a round in which a read or a write fails. */
  lemma {:induction false} JumpBrokenNeedsCause(up: Pipe, down: Pipe, rounds: seq<JumpRound>, k: nat, u: Progress, d: Progress)
    requires JumpEnd(up, down, rounds, k, u, d) == Broken
    ensures exists i | k <= i < |rounds| ::
              !rounds[i].stopped && (Faulty(rounds[i].upload, true) || Faulty(rounds[i].download, true))
    decreases |rounds| - k
  {
    hide AfterRead, AfterWrite;
    var (t, w) := (rounds[k].upload, rounds[k].download);
    if !Faulty(t, true) && !Faulty(w, true) {
      var v := JumpStep(up, u, t, u.eof || d.eof).value;
      JumpBrokenNeedsCause(up, down, rounds, k + 1, v, JumpStep(down, d, w, v.eof || d.eof).value);
    }
  }

  predicate JumpMoves(t: Turn) { t.read.Moves? && t.write.Moves? && t.write.limit > 0 }

  /** The bytes a direction has still to read or to write. */
  function Waiting(pipe: Pipe, p: Progress): nat {
    (if p.position <= pipe.length then pipe.length - p.position else 0) + p.pending
  }

  lemma MovingJumpStep(pipe: Pipe, p: Progress, t: Turn, closing: bool)
    requires JumpMoves(t) && pipe.capacity > 0 && p.pending <= pipe.capacity && (p.eof ==> closing)
    ensures var r := JumpStep(pipe, p, t, closing);
            && r.Some? && r.value.pending <= pipe.capacity
            && (closing ==> r.value.eof == p.eof && (if p.pending > 0 then r.value.pending < p.pending else r.value.pending == 0))
            && (!closing ==> r.value.eof || Waiting(pipe, r.value) < Waiting(pipe, p))
  {
  }

  function Max(a: nat, b: nat): nat { if a >= b then a else b }

  /** How many rounds the jump-host bridge needs: until the shorter source ends, and then until both buffers
      are empty. */
  function JumpBound(up: Pipe, down: Pipe, u: Progress, d: Progress): nat {
    if u.eof || d.eof then Max(1, Max(u.pending, d.pending))
    else Min(Waiting(up, u), Waiting(down, d)) + 1 + Max(up.capacity, down.capacity)
  }

  /** When nothing blocks, fails or stops for that many rounds, the jump-host bridge completes. */
  lemma {:induction false} MovingJumpCompletes(up: Pipe, down: Pipe, rounds: seq<JumpRound>, k: nat, u: Progress, d: Progress)
    requires up.capacity > 0 && down.capacity > 0 && u.pending <= up.capacity && d.pending <= down.capacity
    requires forall i | k <= i < |rounds| :: !rounds[i].stopped && JumpMoves(rounds[i].upload) && JumpMoves(rounds[i].download)
    requires |rounds| >= k + JumpBound(up, down, u, d)
    ensures JumpEnd(up, down, rounds, k, u, d) == Completed
    decreases |rounds| - k
  {
    hide JumpStep, Waiting;
    var closing := u.eof || d.eof;
    MovingJumpStep(up, u, rounds[k].upload, closing);
    var v := JumpStep(up, u, rounds[k].upload, closing).value;
    MovingJumpStep(down, d, rounds[k].download, v.eof || d.eof);
    var e := JumpStep(down, d, rounds[k].download, v.eof || d.eof).value;
    if !((v.eof || e.eof) && v.pending == 0 && e.pending == 0) { MovingJumpCompletes(up, down, rounds, k + 1, v, e); }
  }

  predicate WritesMove(writes: seq<Io>) { forall w | w in writes :: w.Moves? && w.limit > 0 }

  lemma {:induction false} MovingForwardCompletes(pending: nat, writes: seq<Io>, k: nat)
    requires WritesMove(writes) && |writes| >= k + pending
    ensures ForwardEnd(pending, writes, k) == Completed
    decreases |writes| - k
  {
    if pending > 0 {
      assert writes[k] in writes;
      MovingForwardCompletes(pending - Min(writes[k].limit, pending), writes, k + 1);
    }
  }

  /** When reads and writes move for as long as the source has bytes left, the copy completes. */
  lemma {:induction false} MovingCopyCompletes(pipe: Pipe, readScript: seq<Io>, writeScripts: seq<seq<Io>>, k: nat, position: nat)
    requires pipe.capacity > 0 && position <= pipe.length && |readScript| > k + (pipe.length - position)
    requires forall i | k <= i < |readScript| ::
               readScript[i].Moves? && WritesMove(WritesAt(writeScripts, i)) && |WritesAt(writeScripts, i)| >= pipe.capacity
    ensures CopyEnd(pipe, readScript, writeScripts, k, position) == Completed
    decreases |readScript| - k
  {
    hide ForwardEnd;
    var count := Copied(pipe, position, readScript[k]);
    if count > 0 {
      MovingForwardCompletes(count, WritesAt(writeScripts, k), 0);
      MovingCopyCompletes(pipe, readScript, writeScripts, k + 1, position + count);
    }
  }
}
