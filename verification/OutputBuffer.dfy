/** The two buffers between a transport and the terminal view: raw bytes that may end inside a
    character, and decoded text not yet emitted. */
module OutputBuffers {
  import opened Common
  import opened Utf8

  class OutputBuffer {
    var pendingBytes: Bytes
    var pendingOutput: Bytes

    constructor (initial: Bytes)
      ensures pendingBytes == initial && pendingOutput == []
    {
      pendingBytes := initial;
      pendingOutput := [];
    }

    /** Decodes as much of `pendingBytes` as is decided; an unfinished character stays. */
    method DrainDecodedOutput()
      modifies this
      ensures pendingOutput == old(pendingOutput) + Drained(old(pendingBytes))
      ensures pendingBytes == Kept(old(pendingBytes))
    {
      while true
        invariant pendingOutput + Drained(pendingBytes) == old(pendingOutput) + Drained(old(pendingBytes))
        invariant Kept(pendingBytes) == Kept(old(pendingBytes))
        decreases |pendingBytes|
      {
        match FromUtf8(pendingBytes) {
          case Ok =>
            ValidIsUnchanged(pendingBytes);
            pendingOutput := pendingOutput + pendingBytes;
            pendingBytes := [];
            return;
          case Err(validUpTo, errorLen) =>
            CheckPrefixValid(pendingBytes);
            ValidPrefixDrains(pendingBytes, validUpTo);
            CheckFindsStep(pendingBytes);
            ghost var was, text := pendingBytes, pendingOutput;
            pendingOutput := pendingOutput + pendingBytes[..validUpTo];
            match errorLen {
              case Some(invalidLen) =>
                pendingOutput := pendingOutput + REPLACEMENT;
                pendingBytes := pendingBytes[validUpTo + invalidLen..];
                ResumeAfterInvalid(text, was, validUpTo, invalidLen);
              case None =>
                pendingBytes := pendingBytes[validUpTo..];
                assert Drained(pendingBytes) == [] && Kept(pendingBytes) == pendingBytes;
                return;
            }
        }
      }
    }

    /** Emits whatever is left when a session ends: zero or one chunk. */
    method FlushPendingOutput() returns (emitted: seq<Bytes>)
      modifies this
      ensures pendingBytes == [] && pendingOutput == []
      ensures Flatten(emitted) == old(pendingOutput) + Lossy(old(pendingBytes))
      ensures |emitted| <= 1 && forall chunk | chunk in emitted :: chunk != []
    {
      if pendingBytes != [] {
        pendingOutput := pendingOutput + Lossy(pendingBytes);
        pendingBytes := [];
      }
      emitted := [];
      if pendingOutput != [] {
        emitted := TakePendingOutput();
      }
    }

    /** `std::mem::take` on the decoded text, handed to the view as one chunk. */
    method TakePendingOutput() returns (emitted: seq<Bytes>)
      modifies this`pendingOutput
      ensures pendingOutput == [] && emitted == [old(pendingOutput)]
      ensures Flatten(emitted) == old(pendingOutput)
    {
      emitted := [pendingOutput];
      assert Flatten(emitted) == emitted[0] + Flatten(emitted[1..]);
      pendingOutput := [];
    }

    /** Appends bytes read from the transport. */
    method Extend(bytes: Bytes)
      modifies this`pendingBytes
      ensures pendingBytes == old(pendingBytes) + bytes
    {
      pendingBytes := pendingBytes + bytes;
    }
  }

  lemma ResumeAfterInvalid(text: Bytes, s: Bytes, v: nat, n: nat)
    requires v + n <= |s| && 0 < n
    requires NextStep(s[v..]) == Invalid(n)
    requires Drained(s) == s[..v] + Drained(s[v..]) && Kept(s) == Kept(s[v..])
    ensures text + s[..v] + REPLACEMENT + Drained(s[v + n..]) == text + Drained(s)
    ensures Kept(s[v + n..]) == Kept(s)
  {
    assert s[v..][n..] == s[v + n..];
    InvalidIsReplaced(s[v..]);
    Associative(text, s[..v], REPLACEMENT, Drained(s[v + n..]));
  }

  lemma Associative(a: Bytes, b: Bytes, c: Bytes, d: Bytes)
    ensures a + b + c + d == a + (b + (c + d))
  {
  }

  /** `buffer` holds exactly what decoding `input` chunk by chunk has produced but not yet emitted. */
  ghost predicate Conserves(emitted: seq<Bytes>, pendingOutput: Bytes, pendingBytes: Bytes, input: Bytes) {
    && Flatten(emitted) + pendingOutput == Drained(input)
    && pendingBytes == Kept(input)
  }

  lemma ConservesRead(emitted: seq<Bytes>, pendingOutput: Bytes, pendingBytes: Bytes, input: Bytes, bytes: Bytes)
    requires Conserves(emitted, pendingOutput, pendingBytes, input)
    ensures Conserves(emitted, pendingOutput + Drained(pendingBytes + bytes), Kept(pendingBytes + bytes), input + bytes)
  {
    DrainAppend(input, bytes);
  }

  lemma ConservesEmit(emitted: seq<Bytes>, pendingOutput: Bytes, pendingBytes: Bytes, input: Bytes)
    requires Conserves(emitted, pendingOutput, pendingBytes, input)
    ensures Conserves(emitted + [pendingOutput], [], pendingBytes, input)
  {
    FlattenAppend(emitted, pendingOutput);
  }

  /** After the final flush the view has the one-shot lossy decoding of the whole input. */
  lemma ConservesFlush(emitted: seq<Bytes>, pendingOutput: Bytes, pendingBytes: Bytes, input: Bytes, final: seq<Bytes>)
    requires Conserves(emitted, pendingOutput, pendingBytes, input)
    requires Flatten(final) == pendingOutput + Lossy(pendingBytes)
    ensures Flatten(emitted + final) == Lossy(input)
  {
    hide Flatten, Drained, Kept, Lossy;
    FlattenConcat(emitted, final);
    LossyIsDrainedThenFlushed(input);
    LossyOfKept(input);
    ConcatAssociative(Flatten(emitted), pendingOutput, Lossy(pendingBytes));
  }
}
