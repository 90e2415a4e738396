/** UTF-8 as the output pipeline and the log reader need it: well-formedness from Table 3-7 of the
    Unicode Standard (section 3.9), the incremental step that `str::from_utf8` takes, and one-shot
    lossy decoding with one U+FFFD for each maximal ill-formed subpart.

    A Rust `String` is represented by its UTF-8 bytes, so `len()` is the length of the sequence. */
module Utf8 {
  import opened Common

  type byte = b: int | 0 <= b < 256
  type Bytes = seq<byte>

  /** U+FFFD. */
  const REPLACEMENT: Bytes := [0xEF, 0xBF, 0xBD]

  // ---------------------------------------------------------------- Table 3-7

  /** `s` matches one row of Table 3-7: byte `k` lies in the `k`-th range of the row. */
  predicate Matches(s: Bytes, row: seq<(int, int)>) {
    |s| == |row| && forall k | 0 <= k < |s| :: row[k].0 <= s[k] <= row[k].1
  }

  /** The nine rows of Table 3-7. */
  predicate WellFormed(s: Bytes) {
    || Matches(s, [(0x00, 0x7F)])
    || Matches(s, [(0xC2, 0xDF), (0x80, 0xBF)])
    || Matches(s, [(0xE0, 0xE0), (0xA0, 0xBF), (0x80, 0xBF)])
    || Matches(s, [(0xE1, 0xEC), (0x80, 0xBF), (0x80, 0xBF)])
    || Matches(s, [(0xED, 0xED), (0x80, 0x9F), (0x80, 0xBF)])
    || Matches(s, [(0xEE, 0xEF), (0x80, 0xBF), (0x80, 0xBF)])
    || Matches(s, [(0xF0, 0xF0), (0x90, 0xBF), (0x80, 0xBF), (0x80, 0xBF)])
    || Matches(s, [(0xF1, 0xF3), (0x80, 0xBF), (0x80, 0xBF), (0x80, 0xBF)])
    || Matches(s, [(0xF4, 0xF4), (0x80, 0x8F), (0x80, 0xBF), (0x80, 0xBF)])
  }

  /** `s` is a nonempty proper prefix of some well-formed sequence. */
  ghost predicate ViablePrefix(s: Bytes) {
    s != [] && exists t: Bytes :: WellFormed(t) && s < t
  }

  // ------------------------------------------------------- the incremental step

  /** What the start of a nonempty buffer is: a character of `n` bytes, an ill-formed subpart of `n`
      bytes, or the beginning of a character whose rest has not arrived. */
  datatype Utf8Step = Char(n: nat) | Invalid(n: nat) | Incomplete

  function Width(first: byte): nat {
    if first < 0x80 then 1
    else if 0xC2 <= first <= 0xDF then 2
    else if 0xE0 <= first <= 0xEF then 3
    else if 0xF0 <= first <= 0xF4 then 4
    else 0
  }

  predicate Continuation(b: byte) { 0x80 <= b <= 0xBF }

  predicate SecondOk(first: byte, second: byte) {
    if first == 0xE0 then 0xA0 <= second <= 0xBF
    else if first == 0xED then 0x80 <= second <= 0x9F
    else if first == 0xF0 then 0x90 <= second <= 0xBF
    else if first == 0xF4 then 0x80 <= second <= 0x8F
    else Continuation(second)
  }

  function NextStep(s: Bytes): (r: Utf8Step)
    requires s != []
    ensures !r.Incomplete? ==> 1 <= r.n <= |s|
    ensures r.Incomplete? ==> |s| <= 3
  {
    var w := Width(s[0]);
    if w == 0 then Invalid(1)
    else if w == 1 then Char(1)
    else if |s| == 1 then Incomplete
    else if !SecondOk(s[0], s[1]) then Invalid(1)
    else if w == 2 then Char(2)
    else if |s| == 2 then Incomplete
    else if !Continuation(s[2]) then Invalid(2)
    else if w == 3 then Char(3)
    else if |s| == 3 then Incomplete
    else if !Continuation(s[3]) then Invalid(3)
    else Char(4)
  }

  /** The sequence check of `NextStep` is Table 3-7. */
  lemma WellFormedByWidth(s: Bytes)
    ensures WellFormed(s) <==>
            && s != [] && |s| == Width(s[0])
            && (|s| >= 2 ==> SecondOk(s[0], s[1]))
            && (forall k | 2 <= k < |s| :: Continuation(s[k]))
  {
    if |s| == 1 || |s| == 2 {
    } else if |s| == 3 {
    } else if |s| == 4 {
    }
  }

  /** Every start that passes the checks so far can be completed. */
  lemma Completable(s: Bytes)
    requires s != [] && |s| < Width(s[0])
    requires |s| >= 2 ==> SecondOk(s[0], s[1])
    requires forall k | 2 <= k < |s| :: Continuation(s[k])
    ensures ViablePrefix(s)
  {
    var second: byte := if s[0] == 0xE0 then 0xA0 else if s[0] == 0xF0 then 0x90 else 0x80;
    var t: Bytes :=
      s + (if |s| == 1 then [second] else [])
        + (if |s| <= 2 && Width(s[0]) >= 3 then [0x80] else [])
        + (if Width(s[0]) == 4 then [0x80] else []);
    assert |t| == Width(s[0]) && t[0] == s[0] && SecondOk(t[0], t[1]);
    assert forall k | 2 <= k < |t| :: Continuation(t[k]);
    WellFormedByWidth(t);
    assert s < t;
  }

  lemma ViableMeans(s: Bytes)
    requires ViablePrefix(s)
    ensures s != [] && |s| < Width(s[0]) && |s| <= 3
    ensures |s| >= 2 ==> SecondOk(s[0], s[1])
    ensures forall k | 2 <= k < |s| :: Continuation(s[k])
  {
    var t: Bytes :| WellFormed(t) && s < t;
    WellFormedByWidth(t);
  }

  /** A buffer starts with a character exactly when one of its prefixes is well-formed. */
  lemma StepCharIff(s: Bytes, n: nat)
    requires s != [] && n <= |s|
    ensures NextStep(s) == Char(n) <==> WellFormed(s[..n])
  {
    WellFormedByWidth(s[..n]);
  }

  /** A buffer is kept for later exactly when all of it is the start of a character. */
  lemma StepIncompleteIff(s: Bytes)
    requires s != []
    ensures NextStep(s) == Incomplete <==> ViablePrefix(s)
  {
    if NextStep(s) == Incomplete { Completable(s); }
    if ViablePrefix(s) { ViableMeans(s); }
  }

  /** An ill-formed subpart is maximal: it is the longest viable prefix, or one byte when even the
      first byte starts nothing (D93b of the Unicode Standard). */
  lemma {:induction false} StepInvalidIsMaximalSubpart(s: Bytes, k: nat)
    requires s != [] && NextStep(s).Invalid?
    requires 0 < k <= |s|
    ensures !WellFormed(s[..k])
    ensures ViablePrefix(s[..k]) ==> k <= NextStep(s).n
    ensures k == NextStep(s).n && k > 1 ==> ViablePrefix(s[..k])
    ensures k == 1 && !ViablePrefix(s[..1]) ==> NextStep(s).n == 1
  {
    var p := s[..k];
    WellFormedByWidth(p);
    if ViablePrefix(p) { ViableMeans(p); }
    if |p| < Width(p[0]) && (|p| >= 2 ==> SecondOk(p[0], p[1])) && forall j | 2 <= j < |p| :: Continuation(p[j]) {
      Completable(p);
    }
  }

  /** More input does not change a step that was not waiting for it. */
  lemma StepStable(s: Bytes, more: Bytes)
    requires s != [] && !NextStep(s).Incomplete?
    ensures NextStep(s + more) == NextStep(s)
  {
  }

  // ------------------------------------------------------------ str::from_utf8

  /** Result of `str::from_utf8`: `validUpTo` is the length of the longest valid prefix; `errorLen`
      is `None` when the input ends inside a character. */
  datatype Utf8Check = Ok | Err(validUpTo: nat, errorLen: Option<nat>)

  function FromUtf8(s: Bytes): (r: Utf8Check)
    ensures r.Err? ==> r.validUpTo < |s|
    ensures r.Err? && r.errorLen.Some? ==> 1 <= r.errorLen.value && r.validUpTo + r.errorLen.value <= |s|
  {
    if s == [] then Ok
    else match NextStep(s)
      case Char(n) =>
        (match FromUtf8(s[n..])
         case Ok => Ok
         case Err(v, e) => Err(n + v, e))
      case Invalid(n) => Err(0, Some(n))
      case Incomplete => Err(0, None)
  }

  predicate Valid(s: Bytes) { FromUtf8(s).Ok? }

  // ------------------------------------------------------------------ decoding

  /** The text incremental decoding produces from `s` without being told that `s` is all there is. */
  function Drained(s: Bytes): Bytes {
    if s == [] then []
    else match NextStep(s)
      case Char(n) => s[..n] + Drained(s[n..])
      case Invalid(n) => REPLACEMENT + Drained(s[n..])
      case Incomplete => []
  }

  /** The unfinished character incremental decoding keeps back. */
  function Kept(s: Bytes): Bytes {
    if s == [] then []
    else match NextStep(s)
      case Char(n) => Kept(s[n..])
      case Invalid(n) => Kept(s[n..])
      case Incomplete => s
  }

  /** `String::from_utf8_lossy` on the whole input. */
  function Lossy(s: Bytes): Bytes {
    if s == [] then []
    else match NextStep(s)
      case Char(n) => s[..n] + Lossy(s[n..])
      case Invalid(n) => REPLACEMENT + Lossy(s[n..])
      case Incomplete => REPLACEMENT
  }

  function Flatten(parts: seq<Bytes>): Bytes {
    if parts == [] then [] else parts[0] + Flatten(parts[1..])
  }

  lemma {:induction false} FlattenAppend(parts: seq<Bytes>, last: Bytes)
    ensures Flatten(parts + [last]) == Flatten(parts) + last
  {
    FlattenConcat(parts, [last]);
    assert [last][1..] == [] && last + [] == last;
  }

  lemma {:induction false} FlattenConcat(a: seq<Bytes>, b: seq<Bytes>)
    ensures Flatten(a + b) == Flatten(a) + Flatten(b)
  {
    if a == [] {
      assert a + b == b;
    } else {
      FlattenConcat(a[1..], b);
      assert (a + b)[1..] == a[1..] + b;
      ConcatAssociative(a[0], Flatten(a[1..]), Flatten(b));
    }
  }

  /** What is kept back is empty or the start of a character, at most three bytes of it. */
  lemma {:induction false} KeptIsStartOfCharacter(s: Bytes)
    ensures Kept(s) == [] || (ViablePrefix(Kept(s)) && |Kept(s)| <= 3)
    ensures |Kept(s)| <= |s| && Kept(s) == s[|s| - |Kept(s)|..]
    ensures Kept(Kept(s)) == Kept(s) && Drained(Kept(s)) == []
  {
    if s != [] {
      if NextStep(s).Incomplete? {
        StepIncompleteIff(s);
      } else {
        var rest := s[NextStep(s).n..];
        KeptIsStartOfCharacter(rest);
        assert Kept(s) == Kept(rest) == rest[|rest| - |Kept(rest)|..];
      }
    }
  }

  lemma {:induction false} LossyIsDrainedThenFlushed(s: Bytes)
    ensures Lossy(s) == Drained(s) + (if Kept(s) == [] then [] else REPLACEMENT)
  {
    if s != [] && !NextStep(s).Incomplete? {
      var rest := s[NextStep(s).n..];
      LossyIsDrainedThenFlushed(rest);
      assert Kept(s) == Kept(rest);
      var head := if NextStep(s).Char? then s[..NextStep(s).n] else REPLACEMENT;
      assert head + (Drained(rest) + if Kept(rest) == [] then [] else REPLACEMENT)
          == (head + Drained(rest)) + if Kept(rest) == [] then [] else REPLACEMENT;
    }
  }

  /** What was kept back is flushed to one U+FFFD, or to nothing when nothing was kept. */
  lemma LossyOfKept(s: Bytes)
    ensures Lossy(Kept(s)) == (if Kept(s) == [] then [] else REPLACEMENT)
  {
    KeptIsStartOfCharacter(s);
    if Kept(s) != [] { StepIncompleteIff(Kept(s)); }
  }

  /** Decoding in two pieces is decoding in one: only the kept bytes carry over. */
  lemma {:induction false} DrainAppend(p: Bytes, q: Bytes)
    ensures Drained(p + q) == Drained(p) + Drained(Kept(p) + q)
    ensures Kept(p + q) == Kept(Kept(p) + q)
  {
    if p == [] {
      assert p + q == q && Kept(p) + q == q;
    } else if !NextStep(p).Incomplete? {
      StepStable(p, q);
      var n := NextStep(p).n;
      assert (p + q)[n..] == p[n..] + q;
      assert (p + q)[..n] == p[..n];
      DrainAppend(p[n..], q);
    }
  }

  /** The text and the kept bytes after the chunks were decoded one by one. */
  function DrainChunks(chunks: seq<Bytes>): (r: (Bytes, Bytes)) {
    if chunks == [] then ([], [])
    else
      var last := |chunks| - 1;
      var (text, kept) := DrainChunks(chunks[..last]);
      (text + Drained(kept + chunks[last]), Kept(kept + chunks[last]))
  }

  /** Chunking does not matter: any split of the input, decoded chunk by chunk and flushed at the
      end, gives the one-shot lossy decoding of the whole input. */
  lemma {:induction false} ChunkingIndependent(chunks: seq<Bytes>)
    ensures DrainChunks(chunks).0 == Drained(Flatten(chunks))
    ensures DrainChunks(chunks).1 == Kept(Flatten(chunks))
    ensures DrainChunks(chunks).0 + Lossy(DrainChunks(chunks).1) == Lossy(Flatten(chunks))
  {
    if chunks != [] {
      var last := |chunks| - 1;
      ChunkingIndependent(chunks[..last]);
      FlattenAppend(chunks[..last], chunks[last]);
      assert chunks == chunks[..last] + [chunks[last]];
      DrainAppend(Flatten(chunks[..last]), chunks[last]);
    }
    LossyIsDrainedThenFlushed(Flatten(chunks));
    LossyOfKept(Flatten(chunks));
  }

  // ---------------------------------------------------- facts about the result

  lemma {:induction false} ValidPrepend(c: Bytes, s: Bytes)
    requires WellFormed(c)
    ensures FromUtf8(c + s) ==
            match FromUtf8(s) case Ok => Ok case Err(v, e) => Err(|c| + v, e)
  {
    StepCharIff(c + s, |c|);
    assert (c + s)[..|c|] == c && (c + s)[|c|..] == s;
  }

  /** Whatever the input, the decoded text is valid UTF-8, as a `String` must be. */
  lemma {:induction false} DrainedValid(s: Bytes)
    ensures Valid(Drained(s))
  {
    if s != [] {
      match NextStep(s)
      case Char(n) =>
        StepCharIff(s, n);
        DrainedValid(s[n..]);
        ValidPrepend(s[..n], Drained(s[n..]));
      case Invalid(n) =>
        WellFormedByWidth(REPLACEMENT);
        DrainedValid(s[n..]);
        ValidPrepend(REPLACEMENT, Drained(s[n..]));
      case Incomplete =>
    }
  }

  /** Valid text is decoded to itself; nothing is kept back. */
  lemma {:induction false} ValidIsUnchanged(s: Bytes)
    requires Valid(s)
    ensures Drained(s) == s && Kept(s) == [] && Lossy(s) == s
  {
    if s != [] {
      var n := NextStep(s).n;
      ValidIsUnchanged(s[n..]);
      assert s == s[..n] + s[n..];
    }
  }

  /** `validUpTo` is the length of a valid prefix. */
  lemma {:induction false} CheckPrefixValid(s: Bytes)
    requires FromUtf8(s).Err?
    ensures Valid(s[..FromUtf8(s).validUpTo])
  {
    if NextStep(s).Char? {
      var n, rest := NextStep(s).n, s[NextStep(s).n..];
      CheckPrefixValid(rest);
      CharThenValid(s, n, FromUtf8(rest).validUpTo);
    }
  }

  lemma CharThenValid(s: Bytes, n: nat, v: nat)
    requires s != [] && NextStep(s) == Char(n) && v <= |s| - n && Valid(s[n..][..v])
    ensures Valid(s[..n + v])
  {
    StepCharIff(s, n);
    ValidPrepend(s[..n], s[n..][..v]);
    assert s[..n] + s[n..][..v] == s[..n + v];
  }

  /** Decoding resumes right after a valid prefix. */
  lemma ValidPrefixDrains(s: Bytes, v: nat)
    requires v <= |s| && Valid(s[..v])
    ensures Drained(s) == s[..v] + Drained(s[v..]) && Kept(s) == Kept(s[v..])
  {
    ValidIsUnchanged(s[..v]);
    DrainAppend(s[..v], s[v..]);
    assert s[..v] + s[v..] == s;
    assert Kept(s[..v]) + s[v..] == s[v..];
  }

  /** `errorLen` is the length of the ill-formed subpart at `validUpTo`, or `None` when the input
      ends inside a character there. */
  lemma {:induction false} CheckFindsStep(s: Bytes)
    requires FromUtf8(s).Err?
    ensures var e := FromUtf8(s).errorLen;
            NextStep(s[FromUtf8(s).validUpTo..]) == if e.None? then Incomplete else Invalid(e.value)
  {
    var n := if NextStep(s).Char? then NextStep(s).n else 0;
    if n > 0 {
      CheckFindsStep(s[n..]);
      assert s[n..][FromUtf8(s[n..]).validUpTo..] == s[FromUtf8(s).validUpTo..];
    } else {
      assert s[0..] == s;
    }
  }

  lemma InvalidIsReplaced(s: Bytes)
    requires s != [] && NextStep(s).Invalid?
    ensures Drained(s) == REPLACEMENT + Drained(s[NextStep(s).n..]) && Kept(s) == Kept(s[NextStep(s).n..])
  {
  }
}
