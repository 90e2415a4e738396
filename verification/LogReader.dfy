/** The resumable log reader: each read continues where the cursor of the previous one ended, unless the
    file was replaced, truncated or rewritten. */
module LogReader {
  import opened Common
  import opened Utf8

  const MAX_SIZE := 2 * 1024 * 1024
  const ANCHOR := 64

  /** What one read sees of the file. */
  datatype File = File(identity: nat, bytes: Bytes, modifiedAt: Option<nat>)

  datatype LogCursor = LogCursor(identity: nat, offset: nat, anchor: Bytes, size: nat, modifiedAt: Option<nat>)

  datatype LogChunk = LogChunk(content: Bytes, cursor: LogCursor, reset: bool, size: nat)

  /** The read stops at the cap. */
  function End(file: File): nat { Min(|file.bytes|, MAX_SIZE) }

  /** The metadata of the file allows a continuation of `c`. */
  predicate SameFile(c: LogCursor, file: File) {
    && c.identity == file.identity
    && c.offset <= |file.bytes| && c.offset <= c.size <= |file.bytes|
    && (c.size < |file.bytes| || (file.modifiedAt.Some? && c.modifiedAt == file.modifiedAt))
    && |c.anchor| <= ANCHOR && |c.anchor| <= c.offset
  }

  /** The file still holds, before the cursor, the bytes the cursor remembers. */
  predicate Resumes(c: LogCursor, file: File) {
    SameFile(c, file) && file.bytes[c.offset - |c.anchor|..c.offset] == c.anchor
  }

  /** All of the bytes, except for an unfinished character after valid text. */
  function Complete(bytes: Bytes): (n: nat)
    ensures n <= |bytes|
  {
    match FromUtf8(bytes)
    case Ok => |bytes|
    case Err(v, e) => if e.None? then v else |bytes|
  }

  function AnchorBefore(file: File, offset: nat): Bytes
    requires offset <= |file.bytes|
  {
    file.bytes[offset - Min(offset, ANCHOR)..offset]
  }

  function Start(file: File, cursor: Option<LogCursor>): nat {
    if cursor.Some? && Resumes(cursor.value, file) then Min(cursor.value.offset, End(file)) else 0
  }

  function Read(file: File, cursor: Option<LogCursor>): LogChunk {
    var start := Start(file, cursor);
    var bytes := file.bytes[start..End(file)];
    var offset := start + Complete(bytes);
    LogChunk(Lossy(bytes[..Complete(bytes)]),
             LogCursor(file.identity, offset, AnchorBefore(file, offset), |file.bytes|, file.modifiedAt),
             !(cursor.Some? && Resumes(cursor.value, file)), |file.bytes|)
  }

  /** Where to read from, before the cap is applied. */
  method Locate(file: File, cursor: Option<LogCursor>) returns (offset: nat, reset: bool)
    ensures reset <==> !(cursor.Some? && Resumes(cursor.value, file))
    ensures offset == (if reset then 0 else cursor.value.offset) && offset <= |file.bytes|
  {
    offset, reset := 0, true;
    if cursor.Some? {
      var previous := cursor.value;
      if SameFile(previous, file) {
        var from: nat := previous.offset - |previous.anchor|;
        var anchor := file.bytes[from..from + |previous.anchor|];
        if anchor == previous.anchor {
          offset, reset := previous.offset, false;
        }
      }
    }
  }

  /** No cursor, however malformed, makes the read step outside the file. */
  method ReadFile(file: File, cursor: Option<LogCursor>) returns (chunk: LogChunk)
    ensures chunk == Read(file, cursor)
    ensures chunk.cursor.offset <= Min(|file.bytes|, 2_097_152) && chunk.size == chunk.cursor.size == |file.bytes|
    ensures chunk.cursor.identity == file.identity && chunk.cursor.modifiedAt == file.modifiedAt
    ensures chunk.cursor.anchor == file.bytes[chunk.cursor.offset - Min(chunk.cursor.offset, 64)..chunk.cursor.offset]
  {
    hide Lossy, FromUtf8, Resumes;
    var size: nat := |file.bytes|;
    var offset, reset := Locate(file, cursor);
    var end := Min(size, MAX_SIZE);
    offset := Min(offset, end);
    var bytes := file.bytes[offset..end];
    var complete := |bytes|;
    match FromUtf8(bytes) {
      case Ok =>
      case Err(validUpTo, errorLen) => if errorLen.None? { complete := validUpTo; }
    }
    assert offset == Start(file, cursor) && complete == Complete(bytes);
    var content := Lossy(bytes[..complete]);
    offset := offset + complete;
    var anchorLen := Min(offset, ANCHOR);
    var anchor := file.bytes[offset - anchorLen..offset];
    chunk := LogChunk(content, LogCursor(file.identity, offset, anchor, size, file.modifiedAt), reset, size);
  }

  // ------------------------------------------------------------- prefixes of valid text

  ghost predicate PrefixOfValid(s: Bytes) { exists more: Bytes :: Valid(s + more) }

  lemma {:induction false} NothingIllFormed(s: Bytes, more: Bytes)
    requires Valid(s + more)
    ensures FromUtf8(s).Err? ==> FromUtf8(s).errorLen.None?
    decreases |s|
  {
    if s != [] && !NextStep(s).Incomplete? {
      StepStable(s, more);
      assert (s + more)[NextStep(s).n..] == s[NextStep(s).n..] + more;
      NothingIllFormed(s[NextStep(s).n..], more);
    }
  }

  lemma ShorterPrefix(s: Bytes, n: nat)
    requires PrefixOfValid(s) && n <= |s|
    ensures PrefixOfValid(s[..n])
  {
    var more: Bytes :| Valid(s + more);
    assert s[..n] + (s[n..] + more) == s + more;
  }

  /** After valid text, the check continues with the rest. */
  lemma {:induction false} CheckAfterValid(p: Bytes, q: Bytes)
    requires Valid(p)
    ensures FromUtf8(p + q) == match FromUtf8(q) case Ok => Ok case Err(v, e) => Err(|p| + v, e)
    decreases |p|
  {
    if p == [] {
      assert p + q == q;
    } else {
      var n := NextStep(p).n;
      StepStable(p, q);
      assert (p + q)[n..] == p[n..] + q;
      CheckAfterValid(p[n..], q);
    }
  }

  /** One read of the next bytes after valid text: the cursor ends at valid text again, and at most three
      bytes, the start of a character, are left for the next read. */
  lemma CompleteIsBoundary(p: Bytes, s: Bytes)
    requires Valid(p) && PrefixOfValid(p + s)
    ensures Valid(p + s[..Complete(s)]) && Valid(s[..Complete(s)]) && |s| - Complete(s) <= 3
  {
    CheckAfterValid(p, s);
    var more: Bytes :| Valid(p + s + more);
    NothingIllFormed(p + s, more);
    if FromUtf8(s).Ok? {
      assert s[..Complete(s)] == s;
    } else {
      CheckPrefixValid(s);
      CheckFindsStep(s);
    }
    CheckAfterValid(p, s[..Complete(s)]);
  }

  // -------------------------------------------------------------------------- runs

  /** `next` is `file` after bytes may have been appended: same file, an unchanged length means unchanged
      contents, and the modification time is available. */
  predicate Appended(file: File, next: File) {
    && file.identity == next.identity && file.bytes <= next.bytes
    && (|file.bytes| == |next.bytes| ==> next.modifiedAt.Some? && file.modifiedAt == next.modifiedAt)
  }

  ghost predicate AppendOnly(files: seq<File>) { forall k | 0 <= k < |files| - 1 :: Appended(files[k], files[k + 1]) }

  ghost predicate AppendOnlyLog(files: seq<File>) {
    && AppendOnly(files)
    && (forall k | 0 <= k < |files| :: PrefixOfValid(files[k].bytes))
  }

  /** The chunk of the last of a run of reads, each handing its cursor to the next. */
  function LastRead(files: seq<File>): LogChunk
    requires files != []
  {
    var last := |files| - 1;
    Read(files[last], if last == 0 then None else Some(LastRead(files[..last]).cursor))
  }

  /** All contents returned so far, concatenated. */
  function AllContents(files: seq<File>): Bytes {
    if files == [] then [] else AllContents(files[..|files| - 1]) + LastRead(files).content
  }

  /** The cursor is at the end of valid text, within three bytes of what may be read. */
  ghost predicate Follows(c: LogCursor, file: File) {
    && c.identity == file.identity && c.size == |file.bytes| && c.modifiedAt == file.modifiedAt
    && c.offset <= End(file) <= c.offset + 3
    && c.anchor == AnchorBefore(file, c.offset)
    && Valid(file.bytes[..c.offset])
  }

  lemma FirstRead(file: File)
    requires PrefixOfValid(file.bytes)
    ensures var r := Read(file, None);
            r.reset && Follows(r.cursor, file) && r.content == file.bytes[..r.cursor.offset]
  {
    var s := file.bytes[0..End(file)];
    ShorterPrefix(file.bytes, End(file));
    assert [] + s == s == file.bytes[..End(file)];
    CompleteIsBoundary([], s);
    ValidIsUnchanged(s[..Complete(s)]);
    assert file.bytes[..Complete(s)] == s[..Complete(s)];
  }

  lemma NextRead(file: File, next: File, c: LogCursor)
    requires Follows(c, file) && Appended(file, next) && PrefixOfValid(next.bytes)
    ensures var r := Read(next, Some(c));
            && !r.reset && Follows(r.cursor, next)
            && c.offset <= r.cursor.offset && r.content == next.bytes[c.offset..r.cursor.offset]
  {
    hide Lossy, FromUtf8, Drained, Complete, Valid, PrefixOfValid;
    var o, e := c.offset, End(next);
    CursorResumes(file, next, c);
    var s := next.bytes[o..e];
    SlicesJoin(next.bytes, o, e, Complete(s));
    ShorterPrefix(next.bytes, e);
    CompleteIsBoundary(next.bytes[..o], s);
    ValidIsUnchanged(s[..Complete(s)]);
  }

  lemma CursorResumes(file: File, next: File, c: LogCursor)
    requires Follows(c, file) && Appended(file, next)
    ensures Resumes(c, next) && Start(next, Some(c)) == c.offset <= End(next)
    ensures next.bytes[..c.offset] == file.bytes[..c.offset]
  {
    hide Valid;
    var o := c.offset;
    assert next.bytes[o - |c.anchor|..o] == file.bytes[o - |c.anchor|..o] == c.anchor;
  }

  lemma SlicesJoin(b: Bytes, o: nat, e: nat, n: nat)
    requires o <= e <= |b| && n <= e - o
    ensures b[..o] + b[o..e] == b[..e] && b[o..e][..n] == b[o..o + n] && b[..o] + b[o..e][..n] == b[..o + n]
  {
  }

  /** Exactly when a cursor is given up although the file only grew: its length did not change and the
      modification time changed or is not available. */
  lemma GrownFileResetsIff(file: File, next: File, c: LogCursor)
    requires Follows(c, file) && file.identity == next.identity && file.bytes <= next.bytes
    ensures Read(next, Some(c)).reset <==>
            |file.bytes| == |next.bytes| && !(next.modifiedAt.Some? && file.modifiedAt == next.modifiedAt)
  {
    hide Lossy, FromUtf8;
    var o, n := c.offset, |c.anchor|;
    assert next.bytes[..o] == file.bytes[..o];
    assert next.bytes[o - n..o] == next.bytes[..o][o - n..] == file.bytes[o - n..o];
  }

  /** Reading a growing log: only the first read resets; what was returned so far is exactly the valid
      text of the file up to the cursor; and the cursor is within three bytes of the end or the cap. */
  lemma {:induction false} ReadsFollowLog(files: seq<File>)
    requires files != [] && AppendOnlyLog(files)
    ensures var (r, file) := (LastRead(files), files[|files| - 1]);
            && (r.reset <==> |files| == 1)
            && Follows(r.cursor, file)
            && AllContents(files) == file.bytes[..r.cursor.offset] == Lossy(file.bytes[..r.cursor.offset])
    decreases |files|
  {
    hide Read, Follows, Lossy;
    var last := |files| - 1;
    var file, r := files[last], LastRead(files);
    if last == 0 {
      FirstRead(file);
      assert AllContents(files[..0]) == [] && [] + r.content == r.content;
    } else {
      var before := files[..last];
      forall k | 0 <= k < |before| - 1 ensures Appended(before[k], before[k + 1]) { assert Appended(files[k], files[k + 1]); }
      ReadsFollowLog(before);
      var c := LastRead(before).cursor;
      assert Appended(files[last - 1], files[last - 1 + 1]);
      NextRead(files[last - 1], file, c);
      CursorInFile(c, files[last - 1]);
      CursorInFile(r.cursor, file);
      assert file.bytes[..c.offset] == files[last - 1].bytes[..c.offset];
      assert file.bytes[..c.offset] + file.bytes[c.offset..r.cursor.offset] == file.bytes[..r.cursor.offset];
    }
    CursorInFile(r.cursor, file);
  }

  lemma CursorInFile(c: LogCursor, file: File)
    requires Follows(c, file)
    ensures c.offset <= |file.bytes| && Lossy(file.bytes[..c.offset]) == file.bytes[..c.offset]
  {
    ValidIsUnchanged(file.bytes[..c.offset]);
  }

  // ------------------------------------------------------------------- other contents

  /** `p` does not end inside a character that `q` continues. */
  predicate CleanSplit(p: Bytes, q: Bytes) {
    Kept(p) == [] || q == [] || NextStep(Kept(p) + q) == Invalid(|Kept(p)|)
  }

  /** Decoding two stretches separately gives the decoding of both exactly when the first does not end
      inside a character that the second continues; otherwise it gives a longer text. */
  lemma SplitDecodeIff(p: Bytes, q: Bytes)
    ensures Lossy(p) + Lossy(q) == Lossy(p + q) <==> CleanSplit(p, q)
    ensures !CleanSplit(p, q) ==> |Lossy(p) + Lossy(q)| > |Lossy(p + q)|
  {
    hide Lossy, NextStep, Drained, Kept;
    LossyIsDrainedThenFlushed(p);
    LossyIsDrainedThenFlushed(p + q);
    DrainAppend(p, q);
    LossyIsDrainedThenFlushed(Kept(p) + q);
    KeptIsStartOfCharacter(p);
    var k := Kept(p);
    assert Lossy(p + q) == Drained(p) + Lossy(k + q) by {
      ConcatAssociative(Drained(p), Drained(k + q), if Kept(k + q) == [] then [] else REPLACEMENT);
    }
    if k == [] {
      assert k + q == q && Drained(p) + [] == Drained(p);
    } else {
      ConcatAssociative(Drained(p), REPLACEMENT, Lossy(q));
      RestartIff(k, q);
      SamePrefix(Drained(p), REPLACEMENT + Lossy(q), Lossy(k + q));
    }
  }

  lemma SamePrefix(a: Bytes, b: Bytes, c: Bytes)
    ensures a + b == a + c <==> b == c
  {
    assert (a + b)[|a|..] == b && (a + c)[|a|..] == c;
  }

  /** How many bytes a step takes. */
  function Taken(s: Bytes): (n: nat)
    requires s != []
    ensures n <= |s|
  {
    if NextStep(s).Incomplete? then |s| else NextStep(s).n
  }

  /** A started character is continued by continuation bytes only. */
  lemma StartedCharacter(k: Bytes, q: Bytes)
    requires ViablePrefix(k) && q != []
    ensures |k| <= Taken(k + q) <= 4 && !(NextStep(k + q).Char? && Taken(k + q) == |k|)
    ensures forall i | 0 <= i < Taken(k + q) - |k| :: Continuation(q[i])
  {
    ViableMeans(k);
    var s := k + q;
    assert s[0] == k[0] && (|k| > 1 ==> s[1] == k[1]) && (|k| > 2 ==> s[2] == k[2]);
    assert s[|k|] == q[0] && (|q| > 1 ==> s[|k| + 1] == q[1]) && (|q| > 2 ==> s[|k| + 2] == q[2]);
  }

  /** The first step of decoding. */
  lemma LossyStep(s: Bytes)
    requires s != []
    ensures Lossy(s) == (if NextStep(s).Char? then s[..Taken(s)] else REPLACEMENT) + Lossy(s[Taken(s)..])
  {
    assert REPLACEMENT + [] == REPLACEMENT;
  }

  lemma RestartIff(k: Bytes, q: Bytes)
    requires ViablePrefix(k)
    ensures REPLACEMENT + Lossy(q) == Lossy(k + q) <==> q == [] || NextStep(k + q) == Invalid(|k|)
    ensures !(q == [] || NextStep(k + q) == Invalid(|k|)) ==> |REPLACEMENT + Lossy(q)| > |Lossy(k + q)|
  {
    hide NextStep, ViablePrefix, Continuation, Lossy;
    ViableMeans(k);
    StepIncompleteIff(k);
    LossyStep(k + q);
    if q == [] {
      assert k + q == k && Taken(k) == |k| && k[|k|..] == q;
    } else {
      StartedCharacter(k, q);
      var m := Taken(k + q) - |k|;
      assert (k + q)[Taken(k + q)..] == q[m..];
      ContinuationsDecode(q, m);
      if m == 0 { assert q[m..] == q; }
      if NextStep(k + q).Incomplete? { assert |q| == m; }
    }
  }

  /** Continuation bytes out of context each become one U+FFFD. */
  lemma {:induction false} ContinuationsDecode(q: Bytes, m: nat)
    requires m <= |q| && forall i | 0 <= i < m :: Continuation(q[i])
    ensures |Lossy(q)| == 3 * m + |Lossy(q[m..])|
  {
    hide Lossy;
    if m == 0 {
      assert q[0..] == q;
    } else {
      ContinuationsDecode(q[1..], m - 1);
      assert q[1..][m - 1..] == q[m..];
      assert Continuation(q[0]) && NextStep(q) == Invalid(1);
      LossyStep(q);
    }
  }

  // --------------------------------------------------------- runs over other contents

  /** The cursor remembers `file` as it is. */
  predicate Tracks(c: LogCursor, file: File) {
    && c.identity == file.identity && c.size == |file.bytes| && c.modifiedAt == file.modifiedAt
    && c.offset <= End(file) && c.anchor == AnchorBefore(file, c.offset)
  }

  /** Whatever the bytes are, a read tracks the file it saw, and an appended file is continued. */
  lemma NextTracks(file: File, next: File, c: LogCursor)
    requires Tracks(c, file) && Appended(file, next)
    ensures var r := Read(next, Some(c));
            && !r.reset && Tracks(r.cursor, next) && c.offset <= r.cursor.offset
            && r.content == Lossy(next.bytes[c.offset..r.cursor.offset])
    ensures next.bytes[..c.offset] == file.bytes[..c.offset]
  {
    hide Lossy, FromUtf8, Complete;
    var o := c.offset;
    assert next.bytes[o - |c.anchor|..o] == file.bytes[o - |c.anchor|..o] == c.anchor;
    SlicesJoin(next.bytes, o, End(next), Complete(next.bytes[o..End(next)]));
  }

  lemma FirstTracks(file: File)
    ensures var r := Read(file, None); Tracks(r.cursor, file) && r.content == Lossy(file.bytes[..r.cursor.offset])
  {
    hide Lossy, FromUtf8, Complete;
    SlicesJoin(file.bytes, 0, End(file), Complete(file.bytes[0..End(file)]));
    assert file.bytes[0..0 + Complete(file.bytes[0..End(file)])] == file.bytes[..Complete(file.bytes[0..End(file)])];
  }

  /** Where the cursor of read `k` stands. */
  function OffsetAt(files: seq<File>, k: nat): nat
    requires k < |files|
  {
    LastRead(files[..k + 1]).cursor.offset
  }

  /** Read `k` does not end inside a character that read `k + 1` continues. */
  predicate CleanAt(files: seq<File>, k: nat)
    requires k + 1 < |files|
  {
    var (from, to, bytes) := (OffsetAt(files, k), OffsetAt(files, k + 1), files[k + 1].bytes);
    from <= to <= |bytes| && CleanSplit(bytes[..from], bytes[from..to])
  }

  ghost predicate CleanRun(files: seq<File>) { forall k | 0 <= k < |files| - 1 :: CleanAt(files, k) }

  lemma CleanAtFront(files: seq<File>, k: nat)
    requires k + 2 < |files|
    ensures CleanAt(files[..|files| - 1], k) == CleanAt(files, k)
  {
    hide LastRead, CleanSplit;
    var front := files[..|files| - 1];
    assert front[..k + 1] == files[..k + 1] && front[..k + 1 + 1] == files[..k + 1 + 1];
  }

  lemma CleanRunFront(files: seq<File>)
    requires |files| > 1
    ensures CleanRun(files) <==> CleanRun(files[..|files| - 1]) && CleanAt(files, |files| - 2)
  {
    hide CleanAt;
    var front := files[..|files| - 1];
    forall k | 0 <= k < |front| - 1 ensures CleanAt(front, k) == CleanAt(files, k) { CleanAtFront(files, k); }
  }

  /** One more read of the file keeps or loses the decoding, and a text that is already too long never
      recovers. */
  lemma ContentsStep(contents: Bytes, p: Bytes, q: Bytes)
    requires |contents| >= |Lossy(p)| && (|contents| == |Lossy(p)| ==> contents == Lossy(p))
    ensures contents + Lossy(q) == Lossy(p + q) <==> contents == Lossy(p) && CleanSplit(p, q)
    ensures |contents + Lossy(q)| >= |Lossy(p + q)|
    ensures |contents + Lossy(q)| == |Lossy(p + q)| ==> contents + Lossy(q) == Lossy(p + q)
  {
    hide Lossy, CleanSplit;
    SplitDecodeIff(p, q);
  }

  lemma {:induction false} RunContents(files: seq<File>)
    requires files != [] && AppendOnly(files)
    ensures var (r, file) := (LastRead(files), files[|files| - 1]);
            && (r.reset <==> |files| == 1) && Tracks(r.cursor, file)
            && var text := Lossy(file.bytes[..r.cursor.offset]);
            && |AllContents(files)| >= |text|
            && (|AllContents(files)| == |text| ==> AllContents(files) == text)
            && (AllContents(files) == text <==> CleanRun(files))
    decreases |files|
  {
    hide Read, Lossy, CleanSplit, CleanRun, CleanAt, AnchorBefore;
    var last := |files| - 1;
    var file, r := files[last], LastRead(files);
    if last == 0 {
      FirstTracks(file);
      assert AllContents(files[..0]) == [] && [] + r.content == r.content;
      OneReadIsClean(files);
      FirstResets(file);
    } else {
      var front := files[..last];
      forall k | 0 <= k < |front| - 1 ensures Appended(front[k], front[k + 1]) { assert Appended(files[k], files[k + 1]); }
      RunContents(front);
      var c := LastRead(front).cursor;
      assert Appended(files[last - 1], files[last - 1 + 1]);
      NextTracks(files[last - 1], file, c);
      var (p, q) := (file.bytes[..c.offset], file.bytes[c.offset..r.cursor.offset]);
      assert p + q == file.bytes[..r.cursor.offset];
      ContentsStep(AllContents(front), p, q);
      CleanRunFront(files);
      CleanLast(files);
    }
  }

  lemma FirstResets(file: File)
    ensures Read(file, None).reset
  {
  }

  lemma OneReadIsClean(files: seq<File>)
    requires |files| == 1
    ensures CleanRun(files)
  {
  }

  lemma CleanLast(files: seq<File>)
    requires |files| > 1
    requires var (from, to) := (LastRead(files[..|files| - 1]).cursor.offset, LastRead(files).cursor.offset);
             from <= to <= |files[|files| - 1].bytes|
    ensures var (from, to, bytes) := (LastRead(files[..|files| - 1]).cursor.offset, LastRead(files).cursor.offset, files[|files| - 1].bytes);
            CleanAt(files, |files| - 2) <==> CleanSplit(bytes[..from], bytes[from..to])
  {
    var n := |files|;
    assert files[..n - 2 + 1] == files[..n - 1] && files[..n - 2 + 1 + 1] == files;
  }

  /** Over any run of reads of a log that is only appended to, whatever its bytes: the contents returned are
      the decoding of the file up to the cursor exactly when no read ends inside a character that the next
      one continues. */
  lemma ContentsAreDecodingIff(files: seq<File>)
    requires files != [] && AppendOnly(files)
    ensures var (offset, bytes) := (LastRead(files).cursor.offset, files[|files| - 1].bytes);
            && offset <= |bytes|
            && (AllContents(files) == Lossy(bytes[..offset]) <==> forall k | 0 <= k < |files| - 1 :: CleanAt(files, k))
  {
    hide Read, Lossy, CleanAt, AllContents, LastRead;
    RunContents(files);
  }

  /** The case of two reads. */
  lemma TwoReadsIff(file: File, next: File)
    requires Appended(file, next)
    ensures var first := Read(file, None);
            var second := Read(next, Some(first.cursor));
            var (from, to) := (first.cursor.offset, second.cursor.offset);
            && !second.reset && from <= to <= |next.bytes|
            && (first.content + second.content == Lossy(next.bytes[..to]) <==> CleanSplit(next.bytes[..from], next.bytes[from..to]))
  {
    hide Read, Lossy, CleanSplit, AnchorBefore;
    FirstTracks(file);
    var c := Read(file, None).cursor;
    NextTracks(file, next, c);
    var to := Read(next, Some(c)).cursor.offset;
    SplitDecodeIff(next.bytes[..c.offset], next.bytes[c.offset..to]);
    assert next.bytes[..c.offset] + next.bytes[c.offset..to] == next.bytes[..to];
  }

  lemma OneIllFormedByte(s: Bytes)
    requires s != [] && NextStep(s) == Invalid(1)
    ensures Complete(s) == |s| && s[..Complete(s)] == s && Kept(s) == Kept(s[1..])
  {
  }

  /** A read whose first byte is ill-formed takes everything up to the end. */
  lemma TakesEverything(file: File, cursor: Option<LogCursor>)
    requires |file.bytes| <= MAX_SIZE && Start(file, cursor) < |file.bytes| && Width(file.bytes[Start(file, cursor)]) == 0
    ensures var r := Read(file, cursor);
            && r.content == Lossy(file.bytes[Start(file, cursor)..])
            && r.cursor == LogCursor(file.identity, |file.bytes|, AnchorBefore(file, |file.bytes|), |file.bytes|, file.modifiedAt)
            && (r.reset <==> !(cursor.Some? && Resumes(cursor.value, file)))
  {
    hide Lossy, FromUtf8, Complete, Width, Start;
    var s := file.bytes[Start(file, cursor)..End(file)];
    assert s == file.bytes[Start(file, cursor)..] && s[0] == file.bytes[Start(file, cursor)];
    FirstByteIllFormed(s);
  }

  /** The hypothesis on the contents is needed: an ill-formed byte makes a read take the unfinished
      character behind it too, and the next read decodes the rest of that character on its own. */
  lemma IllFormedLogSplitsCharacter(file: File, next: File)
    requires file == File(0, [0xFF, 0xE4, 0xB8], Some(0)) && next == File(0, [0xFF, 0xE4, 0xB8, 0xAD], Some(1))
    ensures Appended(file, next)
    ensures var first := Read(file, None);
            var second := Read(next, Some(first.cursor));
            && !second.reset && second.cursor.offset == 4
            && first.content + second.content != Lossy(next.bytes)
  {
    hide Lossy, FromUtf8, Complete, NextStep, Read;
    var p, q := file.bytes, next.bytes[3..];
    TakesEverything(file, None);
    var c := LogCursor(0, 3, p, 3, Some(0));
    assert p[0..] == p && AnchorBefore(file, 3) == p;
    assert next.bytes[0..3] == p && Start(next, Some(c)) == 3;
    TakesEverything(next, Some(c));
    assert p + q == next.bytes && q == [0xAD];
    SplitCharacter(p, q);
  }

  lemma FirstByteIllFormed(s: Bytes)
    requires s != [] && Width(s[0]) == 0
    ensures Complete(s) == |s| && s[..Complete(s)] == s
  {
    OneIllFormedByte(s);
  }

  lemma SplitCharacter(p: Bytes, q: Bytes)
    requires p == [0xFF, 0xE4, 0xB8] && q == [0xAD]
    ensures Lossy(p) + Lossy(q) != Lossy(p + q)
  {
    hide Lossy, FromUtf8, Drained;
    assert p[1..] == [0xE4, 0xB8];
    OneIllFormedByte(p);
    assert Kept(p) == p[1..];
    assert NextStep(p[1..] + q) == Char(3);
    SplitDecodeIff(p, q);
  }

  // -------------------------------------------------------------------- resets and ends

  /** Exactly when a cursor is given up: another file, a shorter file, an inconsistent cursor, an unchanged
      length without the same modification time, or other bytes before the cursor. */
  lemma ResetIff(file: File, c: LogCursor)
    ensures Read(file, Some(c)).reset <==>
            || c.identity != file.identity
            || c.offset > |file.bytes| || c.size > |file.bytes| || c.offset > c.size || |c.anchor| > 64 || |c.anchor| > c.offset
            || (c.size == |file.bytes| && (file.modifiedAt.None? || c.modifiedAt != file.modifiedAt))
            || file.bytes[c.offset - |c.anchor|..c.offset] != c.anchor
  {
    hide Lossy, FromUtf8, Complete;
  }

  /** A read that resets returns the file from its start, and one that does not returns it from the cursor. */
  lemma ReadStartsAt(file: File, c: LogCursor)
    ensures var r := Read(file, Some(c));
            && (r.reset ==> r == Read(file, None) && r.content == Lossy(file.bytes[..r.cursor.offset]))
            && (!r.reset ==>
                  var from := Min(c.offset, End(file));
                  from <= r.cursor.offset && r.content == Lossy(file.bytes[from..r.cursor.offset]))
  {
    hide Lossy, FromUtf8, Complete;
    FirstTracks(file);
    var from := Start(file, Some(c));
    SlicesJoin(file.bytes, from, End(file), Complete(file.bytes[from..End(file)]));
  }

  /** Of the bytes read only the start of a character after valid text is left for the next read. */
  lemma CompleteIff(s: Bytes)
    ensures Complete(s) < |s| <==> exists v | 0 <= v < |s| :: UnfinishedAt(s, v)
    ensures Complete(s) < |s| ==> UnfinishedAt(s, Complete(s)) && |s| - Complete(s) <= 3
  {
    hide NextStep;
    if FromUtf8(s).Err? && FromUtf8(s).errorLen.None? {
      CheckPrefixValid(s);
      CheckFindsStep(s);
      StepIncompleteIff(s[Complete(s)..]);
      ViableMeans(s[Complete(s)..]);
      assert UnfinishedAt(s, Complete(s));
    }
    if v :| 0 <= v < |s| && UnfinishedAt(s, v) {
      CheckAfterValid(s[..v], s[v..]);
      StepIncompleteIff(s[v..]);
      assert s[..v] + s[v..] == s;
    }
  }

  /** `s` is valid text up to `v` and then the start of a character. */
  ghost predicate UnfinishedAt(s: Bytes, v: nat)
    requires v <= |s|
  {
    Valid(s[..v]) && ViablePrefix(s[v..])
  }

  /** Whatever the file and the cursor, the next cursor is within three bytes of the end or the cap. */
  lemma ReadsUpToEnd(file: File, cursor: Option<LogCursor>)
    ensures Read(file, cursor).cursor.offset <= End(file) <= Read(file, cursor).cursor.offset + 3
  {
    hide Lossy, FromUtf8, Complete;
    CompleteIff(file.bytes[Start(file, cursor)..End(file)]);
  }
}
