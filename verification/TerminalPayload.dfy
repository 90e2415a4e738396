/** The terminal transport benchmark: a payload is printed between two markers, and the receiver strips
    the control sequences a terminal may have inserted and checks that the payload is intact. */
module TerminalPayload {
  import opened Common
  import opened Utf8

  const CHUNK := 8 * 1024
  const LINE := 80
  const X: byte := 0x78
  const CRLF: Bytes := [0x0D, 0x0A]
  const ESC: byte := 0x1B
  /** `SHELLSPAN_BENCH_PAYLOAD_BEGIN:` */
  const BEGIN: Bytes := [
    0x53, 0x48, 0x45, 0x4C, 0x4C, 0x53, 0x50, 0x41, 0x4E, 0x5F, 0x42, 0x45, 0x4E, 0x43, 0x48, 0x5F,
    0x50, 0x41, 0x59, 0x4C, 0x4F, 0x41, 0x44, 0x5F, 0x42, 0x45, 0x47, 0x49, 0x4E, 0x3A]
  /** `:SHELLSPAN_BENCH_PAYLOAD_END` */
  const END: Bytes := [
    0x3A, 0x53, 0x48, 0x45, 0x4C, 0x4C, 0x53, 0x50, 0x41, 0x4E, 0x5F, 0x42, 0x45, 0x4E, 0x43, 0x48,
    0x5F, 0x50, 0x41, 0x59, 0x4C, 0x4F, 0x41, 0x44, 0x5F, 0x45, 0x4E, 0x44]

  // ------------------------------------------------------------------------ scanner

  datatype State = Ground | Escape | Csi | Osc | OscEscape | Str | StrEscape

  predicate Printable(b: byte) { b >= 0x20 && b != 0x7F }

  function Next(state: State, b: byte): State {
    match state
    case Ground => if b == ESC then Escape else Ground
    case Escape =>
      if b == 0x5B then Csi
      else if b == 0x5D then Osc
      else if b == 0x50 || b == 0x58 || b == 0x5E || b == 0x5F then Str
      else if 0x20 <= b <= 0x2F then Escape
      else Ground
    case Csi => if 0x40 <= b <= 0x7E then Ground else Csi
    case Osc => if b == 0x07 then Ground else if b == ESC then OscEscape else Osc
    case OscEscape => if b == 0x5C then Ground else if b == ESC then OscEscape else Osc
    case Str => if b == ESC then StrEscape else Str
    case StrEscape => if b == 0x5C then Ground else if b == ESC then StrEscape else Str
  }

  function Shown(state: State, b: byte): Bytes { if state == Ground && Printable(b) then [b] else [] }

  /** The state after `input` and what was let through. */
  function Scan(state: State, input: Bytes): (State, Bytes)
    decreases |input|
  {
    if input == [] then (state, [])
    else
      var (last, rest) := Scan(Next(state, input[0]), input[1..]);
      (last, Shown(state, input[0]) + rest)
  }

  function Strip(input: Bytes): Bytes { Scan(Ground, input).1 }

  /** Scanning a concatenation scans its parts in turn. */
  lemma {:induction false} ScanConcat(state: State, a: Bytes, b: Bytes)
    ensures Scan(state, a + b) ==
            var (middle, first) := Scan(state, a);
            var (last, second) := Scan(middle, b);
            (last, first + second)
    decreases |a|
  {
    hide Next, Shown;
    if a == [] {
      assert a + b == b && [] + Scan(state, b).1 == Scan(state, b).1;
    } else {
      assert (a + b)[0] == a[0] && (a + b)[1..] == a[1..] + b;
      var next := Next(state, a[0]);
      ScanConcat(next, a[1..], b);
      ConcatAssociative(Shown(state, a[0]), Scan(next, a[1..]).1, Scan(Scan(next, a[1..]).0, b).1);
    }
  }

  /** The scanner's loop. */
  method StripTerminalControls(input: Bytes) returns (output: Bytes)
    ensures output == Strip(input)
  {
    hide Next;
    var state := Ground;
    output := [];
    assert input[..0] == [];
    for i := 0 to |input|
      invariant (state, output) == Scan(Ground, input[..i])
    {
      ScanConcat(Ground, input[..i], [input[i]]);
      assert input[..i + 1] == input[..i] + [input[i]];
      ScanOne(state, input[i]);
      output := output + Shown(state, input[i]);
      state := Next(state, input[i]);
    }
    assert input[..|input|] == input;
  }

  lemma ScanOne(state: State, b: byte)
    ensures Scan(state, [b]) == (Next(state, b), Shown(state, b))
  {
    hide Next;
    assert [b][1..] == [] && Shown(state, b) + [] == Shown(state, b);
  }

  /** In the ground state every byte but an escape is let through, unless it is a control character. */
  lemma PlainByte(b: byte)
    requires b != 0x1B
    ensures Scan(Ground, [b]) == (Ground, if b < 0x20 || b == 0x7F then [] else [b])
  {
    ScanOne(Ground, b);
  }

  lemma ScanTwo(state: State, a: byte, b: byte)
    ensures Scan(state, [a, b]) == (Next(Next(state, a), b), Shown(state, a) + Shown(Next(state, a), b))
  {
    hide Next, Shown;
    ScanConcat(state, [a], [b]);
    ScanOne(state, a);
    ScanOne(Next(state, a), b);
    assert [a] + [b] == [a, b];
  }

  // -------------------------------------------------------------- control sequences

  predicate FinalByte(b: byte) { 0x40 <= b <= 0x7E }

  predicate Intermediate(b: byte) { 0x20 <= b <= 0x2F }

  /** The sequences with a body: CSI, OSC, and the strings DCS, SOS, PM and APC. */
  function Opened(b: byte): Option<State> {
    if b == 0x5B then Some(Csi)
    else if b == 0x5D then Some(Osc)
    else if b in [0x50, 0x58, 0x5E, 0x5F] then Some(Str)
    else None
  }

  predicate AfterEsc(body: Bytes) { body != [] && body[|body| - 1] == ESC }

  /** `b` ends a sequence whose body so far is `body`: a CSI ends at its final byte, an OSC and a string at
      a backslash right after an escape, and an OSC also at a BEL that is not right after an escape. */
  predicate Terminates(inside: State, body: Bytes, b: byte) {
    match inside
    case Csi => FinalByte(b)
    case Osc => if AfterEsc(body) then b == 0x5C else b == 0x07
    case Str => AfterEsc(body) && b == 0x5C
    case _ => false
  }

  predicate Unclosed(inside: State, body: Bytes) { forall k | 0 <= k < |body| :: !Terminates(inside, body[..k], body[k]) }

  /** The first byte from `i` on that is not an intermediate one. */
  function Opening(c: Bytes, i: nat): (k: nat)
    requires i <= |c|
    ensures i <= k <= |c| && (k < |c| ==> !Intermediate(c[k])) && forall j | i <= j < k :: Intermediate(c[j])
    decreases |c| - i
  {
    if i == |c| || !Intermediate(c[i]) then i else Opening(c, i + 1)
  }

  /** A control sequence: an escape, intermediate bytes, and then either one last byte, or a byte that opens
      a body, the body, and the byte that ends it. */
  predicate IsControl(c: Bytes) {
    && c != [] && c[0] == ESC
    && var k := Opening(c, 1);
    && k < |c|
    && if Opened(c[k]).None? then k == |c| - 1
       else k < |c| - 1 && var body := c[k + 1..|c| - 1];
         Unclosed(Opened(c[k]).value, body) && Terminates(Opened(c[k]).value, body, c[|c| - 1])
  }

  /** A state that swallows every byte of `s` stays, and shows nothing. */
  lemma {:induction false} IntermediatesStay(s: Bytes)
    requires forall k | 0 <= k < |s| :: Intermediate(s[k])
    ensures Scan(Escape, s) == (Escape, [])
  {
    if s != [] {
      IntermediatesStay(s[1..]);
      assert Shown(Escape, s[0]) + [] == [];
    }
  }

  /** Where the scanner is within a body. */
  function Within(inside: State, body: Bytes): State {
    if !AfterEsc(body) then inside else if inside.Osc? then OscEscape else if inside.Str? then StrEscape else inside
  }

  lemma WithinNext(inside: State, body: Bytes, b: byte)
    requires inside.Csi? || inside.Osc? || inside.Str?
    ensures Terminates(inside, body, b) <==> Next(Within(inside, body), b) == Ground
    ensures !Terminates(inside, body, b) ==> Next(Within(inside, body), b) == Within(inside, body + [b])
  {
    assert AfterEsc(body + [b]) == (b == ESC);
  }

  lemma {:induction false} BodyStays(inside: State, body: Bytes)
    requires (inside.Csi? || inside.Osc? || inside.Str?) && Unclosed(inside, body)
    ensures Scan(inside, body) == (Within(inside, body), [])
  {
    hide Scan, Next, Terminates;
    if body == [] {
      ScanNothing(inside);
    } else {
      var n := |body| - 1;
      forall k | 0 <= k < n ensures !Terminates(inside, body[..n][..k], body[..n][k]) { assert body[..n][..k] == body[..k]; }
      BodyStays(inside, body[..n]);
      assert body == body[..n] + [body[n]];
      WithinNext(inside, body[..n], body[n]);
      ScanAppend(inside, body[..n], body[n]);
    }
  }

  lemma ScanNothing(state: State)
    ensures Scan(state, []) == (state, [])
  {
  }

  lemma ScanAppend(state: State, s: Bytes, b: byte)
    requires Scan(state, s).0 != Ground && Scan(state, s).1 == []
    ensures Scan(state, s + [b]) == (Next(Scan(state, s).0, b), [])
  {
    hide Scan, Next;
    var nothing: Bytes := [];
    assert nothing + nothing == nothing;
    ScanConcat(state, s, [b]);
    ScanOne(Scan(state, s).0, b);
  }

  /** Up to its opening a sequence is an escape and intermediate bytes. */
  lemma HeaderStays(c: Bytes, n: nat)
    requires c != [] && c[0] == ESC && 1 <= n <= Opening(c, 1)
    ensures Scan(Ground, c[..n]) == (Escape, [])
  {
    hide Scan;
    var nothing: Bytes := [];
    assert nothing + nothing == nothing && c[..n] == [ESC] + c[1..n];
    ScanOne(Ground, ESC);
    IntermediatesStay(c[1..n]);
    ScanConcat(Ground, [ESC], c[1..n]);
  }

  /** The byte after the intermediate ones opens a body or ends the sequence. */
  lemma OpeningNext(c: Bytes)
    requires c != [] && c[0] == ESC && Opening(c, 1) < |c|
    ensures var k := Opening(c, 1);
            Scan(Ground, c[..k + 1]) == (if Opened(c[k]).Some? then Opened(c[k]).value else Ground, [])
  {
    hide Scan, Opening;
    var k := Opening(c, 1);
    HeaderStays(c, k);
    assert c[..k + 1] == c[..k] + [c[k]];
    ScanAppend(Ground, c[..k], c[k]);
  }

  /** Byte `k` opens a body of kind `inside`. */
  predicate Opens(c: Bytes, k: nat, inside: State) {
    k < |c| && c[0] == ESC && k > 0 && Opening(c, 1) == k && Opened(c[k]) == Some(inside)
  }

  /** The scanner after a sequence with an unclosed body. */
  lemma InsideBody(c: Bytes, k: nat, inside: State, n: nat)
    requires Opens(c, k, inside) && k < n <= |c| && Unclosed(inside, c[k + 1..n])
    ensures Scan(Ground, c[..n]) == (Within(inside, c[k + 1..n]), [])
  {
    hide Scan, Opening, Terminates, Unclosed, Within;
    var body, nothing: Bytes := c[k + 1..n], [];
    OpeningNext(c);
    BodyStays(inside, body);
    ScanConcat(Ground, c[..k + 1], body);
    assert nothing + nothing == nothing && c[..n] == c[..k + 1] + body;
  }

  lemma UnclosedPrefix(inside: State, body: Bytes, n: nat)
    requires n <= |body| && Unclosed(inside, body)
    ensures Unclosed(inside, body[..n])
  {
    forall k | 0 <= k < n ensures !Terminates(inside, body[..n][..k], body[..n][k]) { assert body[..n][..k] == body[..k]; }
  }

  /** The next byte ends the body exactly if it takes the scanner back to the ground state. */
  lemma BodyNext(c: Bytes, k: nat, inside: State, n: nat)
    requires Opens(c, k, inside) && k < n < |c| && Unclosed(inside, c[k + 1..n])
    ensures Terminates(inside, c[k + 1..n], c[n]) <==> Scan(Ground, c[..n + 1]).0 == Ground
    ensures Scan(Ground, c[..n + 1]).1 == []
  {
    hide Scan, Opening, Terminates, Unclosed, Next;
    InsideBody(c, k, inside, n);
    WithinNext(inside, c[k + 1..n], c[n]);
    WithinIsInside(inside, c[k + 1..n]);
    assert c[..n + 1] == c[..n] + [c[n]];
    ScanAppend(Ground, c[..n], c[n]);
  }

  lemma WithinIsInside(inside: State, body: Bytes)
    requires inside != Ground
    ensures Within(inside, body) != Ground
  {
  }

  /** A complete control sequence leaves no trace and returns to the ground state. */
  lemma ControlIsInvisible(c: Bytes)
    requires IsControl(c)
    ensures Scan(Ground, c) == (Ground, [])
  {
    hide Scan, Opening, Terminates, Unclosed;
    var k := Opening(c, 1);
    assert c[..|c|] == c;
    OpeningNext(c);
    if Opened(c[k]).Some? { BodyNext(c, k, Opened(c[k]).value, |c| - 1); }
  }

  /** Before its last byte it has not returned. */
  lemma ControlReturnsLast(c: Bytes, n: nat)
    requires IsControl(c) && 0 < n < |c|
    ensures Scan(Ground, c[..n]).0 != Ground
  {
    hide Scan, Opening, Terminates, Unclosed;
    var k, last := Opening(c, 1), |c| - 1;
    if n <= k {
      HeaderStays(c, n);
    } else {
      var inside := Opened(c[k]).value;
      UnclosedPrefix(inside, c[k + 1..last], n - k - 1);
      assert c[k + 1..last][..n - k - 1] == c[k + 1..n];
      InsideBody(c, k, inside, n);
      WithinIsInside(inside, c[k + 1..n]);
    }
  }

  /** The scanner leaves the ground state at the first byte and comes back to it only at the last. */
  predicate OneTrip(c: Bytes) {
    c != [] && c[0] == ESC && Scan(Ground, c).0 == Ground && forall n | 0 < n < |c| :: Scan(Ground, c[..n]).0 != Ground
  }

  /** While the scanner has not come back to the ground state, the body is unclosed. */
  lemma {:induction false} StaysUnclosed(c: Bytes, k: nat, inside: State, n: nat)
    requires Opens(c, k, inside) && k < n <= |c| && forall m | 0 < m <= n :: Scan(Ground, c[..m]).0 != Ground
    ensures Unclosed(inside, c[k + 1..n])
    decreases n
  {
    hide Scan, Opens, Terminates;
    if n - 1 > k {
      var body, longer := c[k + 1..n - 1], c[k + 1..n];
      StaysUnclosed(c, k, inside, n - 1);
      BodyNext(c, k, inside, n - 1);
      assert longer == body + [c[n - 1]];
      forall j | 0 <= j < |longer| ensures !Terminates(inside, longer[..j], longer[j]) { assert longer[..j] == body[..j]; }
    }
  }

  /** The control sequences are exactly what takes the scanner from an escape back to the ground state. */
  lemma ControlIff(c: Bytes)
    ensures IsControl(c) <==> OneTrip(c)
  {
    hide Scan, Opening, Terminates, Unclosed;
    if IsControl(c) {
      ControlIsInvisible(c);
      forall n | 0 < n < |c| ensures Scan(Ground, c[..n]).0 != Ground { ControlReturnsLast(c, n); }
    } else if OneTrip(c) {
      assert c[..|c|] == c;
      var k := Opening(c, 1);
      if k == |c| { HeaderStays(c, |c|); }
      OpeningNext(c);
      if Opened(c[k]).Some? {
        StaysUnclosed(c, k, Opened(c[k]).value, |c| - 1);
        BodyNext(c, k, Opened(c[k]).value, |c| - 1);
      }
    }
  }

  /** `plain` with the control sequences `gaps[k]` inserted before byte `k`, and the last ones at the end. */
  function Woven(plain: Bytes, gaps: seq<seq<Bytes>>): Bytes
    requires |gaps| == |plain| + 1
  {
    if plain == [] then Flatten(gaps[0])
    else (Flatten(gaps[0]) + [plain[0]]) + Woven(plain[1..], gaps[1..])
  }

  predicate AllControls(gaps: seq<seq<Bytes>>) { forall k | 0 <= k < |gaps| :: forall c | c in gaps[k] :: IsControl(c) }

  lemma {:induction false} GapIsInvisible(gap: seq<Bytes>)
    requires forall c | c in gap :: IsControl(c)
    ensures Scan(Ground, Flatten(gap)) == (Ground, [])
  {
    hide IsControl;
    if gap != [] {
      assert gap[0] in gap;
      ControlIsInvisible(gap[0]);
      GapIsInvisible(gap[1..]);
      ScanConcat(Ground, gap[0], Flatten(gap[1..]));
    }
  }

  /** Control sequences inserted anywhere between the bytes of a text do not change what is shown. */
  lemma {:induction false} InsertedControlsAreStripped(plain: Bytes, gaps: seq<seq<Bytes>>)
    requires |gaps| == |plain| + 1 && AllControls(gaps) && ESC !in plain
    ensures Scan(Ground, Woven(plain, gaps)) == Scan(Ground, plain)
    ensures Scan(Ground, plain).0 == Ground
    decreases |plain|
  {
    hide IsControl;
    GapIsInvisible(gaps[0]);
    if plain != [] {
      var first := [plain[0]];
      InsertedControlsAreStripped(plain[1..], gaps[1..]);
      assert plain[0] in plain && [] + Shown(Ground, plain[0]) == Shown(Ground, plain[0]);
      ScanConcat(Ground, Flatten(gaps[0]), first);
      ScanOne(Ground, plain[0]);
      ScanConcat(Ground, Flatten(gaps[0]) + first, Woven(plain[1..], gaps[1..]));
    }
  }

  // ------------------------------------------------------------------------ payload

  function Xs(n: nat): (s: Bytes)
    ensures |s| == n && forall k | 0 <= k < n :: s[k] == X
  {
    seq(n, i => X)
  }

  function ChunkText(n: nat): Bytes {
    if n == 0 then [] else var line := Min(n, LINE); (Xs(line) + CRLF) + ChunkText(n - line)
  }

  function PayloadText(n: nat): Bytes {
    if n == 0 then [] else var chunk := Min(n, CHUNK); ChunkText(chunk) + PayloadText(n - chunk)
  }

  function Emitted(n: nat): Bytes { (BEGIN + PayloadText(n)) + END }

  /** The lines of a chunk of `n` bytes: as many full lines of 80 as fit, then the rest, each ended by CR LF. */
  function Lines(n: nat): seq<Bytes> {
    seq((n + 79) / 80, i requires 0 <= i < (n + 79) / 80 => Xs(Min(80, n - 80 * i)) + [0x0D, 0x0A])
  }

  lemma {:induction false} ChunkIsItsLines(n: nat)
    ensures ChunkText(n) == Flatten(Lines(n))
  {
    hide Xs;
    if n > 0 {
      var line := Min(n, LINE);
      ChunkIsItsLines(n - line);
      LinesFrom(n);
      assert Lines(n)[1..] == Lines(n - line);
    }
  }

  lemma LinesFrom(n: nat)
    requires n > 0
    ensures Lines(n) == [Xs(Min(80, n)) + [0x0D, 0x0A]] + Lines(n - Min(80, n))
  {
    hide Xs;
    var rest := Lines(n - Min(80, n));
    if n <= 80 {
      assert rest == [] && |Lines(n)| == 1;
    } else {
      assert |Lines(n)| == |rest| + 1;
      forall i | 1 <= i < |Lines(n)| ensures Lines(n)[i] == rest[i - 1] {
        assert n - 80 * i == n - 80 - 80 * (i - 1);
      }
    }
  }

  /** The payload is written in chunks of 8192 bytes, so a line never crosses from one chunk to the next. */
  lemma PayloadChunks(n: nat)
    ensures n >= 8192 ==> PayloadText(n) == ChunkText(8192) + PayloadText(n - 8192)
    ensures n < 8192 ==> PayloadText(n) == ChunkText(n)
  {
    hide ChunkText;
    if 0 < n < 8192 { assert ChunkText(n) + [] == ChunkText(n); }
    if n == 0 { NoLines(); }
  }

  lemma NoLines()
    ensures ChunkText(0) == []
  {
  }

  /** The emitter's loops. */
  method EmitBytes(bytes: nat) returns (out: Bytes)
    ensures out == Emitted(bytes)
  {
    out := BEGIN;
    var remaining := bytes;
    assert BEGIN + PayloadText(bytes) == out + PayloadText(remaining);
    while remaining > 0
      invariant 0 <= remaining
      invariant out + PayloadText(remaining) == BEGIN + PayloadText(bytes)
    {
      var payloadBytes := Min(remaining, CHUNK);
      var chunk := EmitChunk(payloadBytes);
      ConcatAssociative(out, chunk, PayloadText(remaining - payloadBytes));
      out := out + chunk;
      remaining := remaining - payloadBytes;
    }
    assert out + [] == out;
    out := out + END;
  }

  method EmitChunk(payloadBytes: nat) returns (chunk: Bytes)
    ensures chunk == ChunkText(payloadBytes)
  {
    chunk := [];
    var remaining := payloadBytes;
    while remaining > 0
      invariant 0 <= remaining
      invariant chunk + ChunkText(remaining) == ChunkText(payloadBytes)
    {
      var line := Min(remaining, LINE);
      ConcatAssociative(chunk, Xs(line) + CRLF, ChunkText(remaining - line));
      chunk := chunk + (Xs(line) + CRLF);
      remaining := remaining - line;
    }
    assert chunk + [] == chunk;
  }

  lemma {:induction false} PrintableIsShown(s: Bytes)
    requires forall k | 0 <= k < |s| :: Printable(s[k])
    ensures Scan(Ground, s) == (Ground, s) && ESC !in s
  {
    if s != [] {
      PrintableIsShown(s[1..]);
      assert Next(Ground, s[0]) == Ground && Shown(Ground, s[0]) + s[1..] == s;
    }
  }

  lemma {:induction false} ChunkIsShown(n: nat)
    ensures Scan(Ground, ChunkText(n)) == (Ground, Xs(n)) && ESC !in ChunkText(n)
  {
    if n > 0 {
      var line := Min(n, LINE);
      PrintableIsShown(Xs(line));
      ScanTwo(Ground, 0x0D, 0x0A);
      ScanConcat(Ground, Xs(line), CRLF);
      ChunkIsShown(n - line);
      ScanConcat(Ground, Xs(line) + CRLF, ChunkText(n - line));
      assert Xs(line) + [] + Xs(n - line) == Xs(n);
    }
  }

  lemma {:induction false} PayloadIsShown(n: nat)
    ensures Scan(Ground, PayloadText(n)) == (Ground, Xs(n)) && ESC !in PayloadText(n)
  {
    if n > 0 {
      var chunk := Min(n, CHUNK);
      ChunkIsShown(chunk);
      PayloadIsShown(n - chunk);
      ScanConcat(Ground, ChunkText(chunk), PayloadText(n - chunk));
      assert Xs(chunk) + Xs(n - chunk) == Xs(n);
    }
  }

  lemma EmittedIsShown(n: nat)
    ensures Strip(Emitted(n)) == (BEGIN + Xs(n)) + END && ESC !in Emitted(n)
  {
    hide Scan;
    PrintableIsShown(BEGIN);
    PrintableIsShown(END);
    PayloadIsShown(n);
    ScanConcat(Ground, BEGIN, PayloadText(n));
    ScanConcat(Ground, BEGIN + PayloadText(n), END);
  }

  // --------------------------------------------------------------------- validation

  predicate OccursAt(haystack: Bytes, needle: Bytes, i: nat) {
    i + |needle| <= |haystack| && haystack[i..i + |needle|] == needle
  }

  /** The first window of the haystack from `i` on that equals the needle. */
  function FindFrom(haystack: Bytes, needle: Bytes, i: nat): (r: Option<nat>)
    ensures r.Some? ==> r.value >= i && OccursAt(haystack, needle, r.value)
    ensures forall k | i <= k < (if r.Some? then r.value else |haystack|) :: !OccursAt(haystack, needle, k) || needle == []
    decreases |haystack| - i
  {
    if i + |needle| > |haystack| then None
    else if OccursAt(haystack, needle, i) then Some(i)
    else if i == |haystack| then None
    else FindFrom(haystack, needle, i + 1)
  }

  function FindSubslice(haystack: Bytes, needle: Bytes): (r: Option<nat>)
    requires needle != []
    ensures r.Some? ==> r.value + |needle| <= |haystack|
  {
    FindFrom(haystack, needle, 0)
  }

  datatype Verdict = Accepted(n: nat) | NoBegin | NoEnd | WrongLength(n: nat) | Corrupted

  function Validate(output: Bytes, expected: nat): Verdict {
    var printable := Strip(output);
    match FindSubslice(printable, BEGIN)
    case None => NoBegin
    case Some(begin) =>
      var tail := printable[begin + |BEGIN|..];
      match FindSubslice(tail, END)
      case None => NoEnd
      case Some(end) =>
        if end != expected then WrongLength(end)
        else if exists k | 0 <= k < end :: tail[k] != X then Corrupted
        else Accepted(end)
  }

  /** The first occurrence is the only candidate. */
  lemma FoundIff(haystack: Bytes, needle: Bytes, i: nat)
    requires needle != []
    ensures FindSubslice(haystack, needle) == Some(i) <==>
            OccursAt(haystack, needle, i) && forall k | 0 <= k < i :: !OccursAt(haystack, needle, k)
  {
    var r := FindSubslice(haystack, needle);
    if OccursAt(haystack, needle, i) { assert r.Some? && (r.value > i ==> !OccursAt(haystack, needle, i)); }
  }

  lemma OccursAfterXs(tail: Bytes, n: nat)
    requires n + |END| <= |tail| && tail[..n] == Xs(n) && OccursAt(tail, END, n)
    ensures FindSubslice(tail, END) == Some(n)
  {
    forall k | 0 <= k < n ensures !OccursAt(tail, END, k) {
      assert tail[k] == Xs(n)[k] == X;
      assert tail[k..k + |END|][0] == X && END[0] == 0x3A;
    }
    FoundIff(tail, END, n);
  }

  /** What the text after the begin marker must be. */
  lemma TailIff(tail: Bytes, n: nat)
    ensures OccursAt(tail, Xs(n) + END, 0) <==>
            FindSubslice(tail, END) == Some(n) && forall k | 0 <= k < n :: tail[k] == X
  {
    hide FindSubslice;
    if OccursAt(tail, Xs(n) + END, 0) {
      var window := tail[0..n + |END|];
      assert tail[..n] == window[..n] == Xs(n);
      assert tail[n..n + |END|] == window[n..] == END;
      OccursAfterXs(tail, n);
    }
    if FindSubslice(tail, END) == Some(n) && forall k | 0 <= k < n :: tail[k] == X {
      FoundIff(tail, END, n);
      assert tail[..n] == Xs(n);
      assert tail[0..n + |END|] == tail[..n] + tail[n..n + |END|];
    }
  }

  /** Validation accepts exactly the outputs whose shown text has, after its first begin marker, the
      expected number of `x` and then the end marker. */
  lemma ValidateIff(output: Bytes, n: nat, m: nat)
    ensures Validate(output, n) == Accepted(m) <==>
            m == n && var found := FindSubslice(Strip(output), BEGIN);
            found.Some? && OccursAt(Strip(output)[found.value + |BEGIN|..], Xs(n) + END, 0)
  {
    hide Strip, FindSubslice;
    var found := FindSubslice(Strip(output), BEGIN);
    if found.Some? {
      FoundIff(Strip(output), BEGIN, found.value);
      TailIff(Strip(output)[found.value + |BEGIN|..], n);
    }
  }

  predicate Occurs(haystack: Bytes, needle: Bytes) { exists i | 0 <= i <= |haystack| :: OccursAt(haystack, needle, i) }

  /** What each rejection says: there is no begin marker, no end marker after it, a payload of another
      length, or one of the expected length with a foreign byte in it. */
  lemma RejectedIff(output: Bytes, n: nat, m: nat)
    ensures var text := Strip(output);
            && (Validate(output, n) == NoBegin <==> !Occurs(text, BEGIN))
            && (Occurs(text, BEGIN) ==>
                  var tail := text[FindSubslice(text, BEGIN).value + |BEGIN|..];
                  && (Validate(output, n) == NoEnd <==> !Occurs(tail, END))
                  && (Validate(output, n) == WrongLength(m) <==> FindSubslice(tail, END) == Some(m) && m != n)
                  && (Validate(output, n) == Corrupted <==> FindSubslice(tail, END) == Some(n) && exists k | 0 <= k < n :: tail[k] != 0x78))
  {
    hide Strip, FindSubslice, Occurs;
    var text := Strip(output);
    FoundSomewhere(text, BEGIN);
    if Occurs(text, BEGIN) { FoundSomewhere(text[FindSubslice(text, BEGIN).value + |BEGIN|..], END); }
  }

  lemma FoundSomewhere(haystack: Bytes, needle: Bytes)
    requires needle != []
    ensures FindSubslice(haystack, needle).Some? <==> Occurs(haystack, needle)
    ensures FindSubslice(haystack, needle).Some? ==> FindSubslice(haystack, needle).value + |needle| <= |haystack|
  {
    var r := FindSubslice(haystack, needle);
    if r.Some? { FoundIff(haystack, needle, r.value); }
  }

  /** Whatever control sequences the terminal inserts between the bytes of the output, and wherever, the
      payload is accepted with its full length. */
  lemma EmittedIsAccepted(n: nat, gaps: seq<seq<Bytes>>)
    requires |gaps| == |Emitted(n)| + 1 && AllControls(gaps)
    ensures Validate(Woven(Emitted(n), gaps), n) == Accepted(n)
  {
    hide Scan, Woven, Emitted, IsControl, Validate;
    var output, shown := Woven(Emitted(n), gaps), (BEGIN + Xs(n)) + END;
    EmittedIsShown(n);
    InsertedControlsAreStripped(Emitted(n), gaps);
    assert Strip(output) == shown;
    assert shown[0..|BEGIN|] == BEGIN;
    FoundIff(shown, BEGIN, 0);
    ConcatAssociative(BEGIN, Xs(n), END);
    assert shown[|BEGIN|..] == Xs(n) + END;
    assert OccursAt(Xs(n) + END, Xs(n) + END, 0);
    ValidateIff(output, n, n);
  }

  /** In particular the untouched output is accepted. */
  lemma PlainIsAccepted(n: nat)
    ensures Validate(Emitted(n), n) == Accepted(n)
  {
    var gaps: seq<seq<Bytes>> := seq(|Emitted(n)| + 1, i => []);
    NothingWoven(Emitted(n), gaps);
    EmittedIsAccepted(n, gaps);
  }

  lemma {:induction false} NothingWoven(plain: Bytes, gaps: seq<seq<Bytes>>)
    requires |gaps| == |plain| + 1 && forall k | 0 <= k < |gaps| :: gaps[k] == []
    ensures Woven(plain, gaps) == plain
    decreases |plain|
  {
    if plain != [] { NothingWoven(plain[1..], gaps[1..]); }
  }
}
