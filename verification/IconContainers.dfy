/** The two icon containers the icon script writes: ICO, a directory whose entries point into the tail of
    the file, and ICNS, a list of tagged blobs. */
module IconContainers {
  import opened Common
  import opened Utf8
  import opened Png

  const TWO16 := 0x1_0000

  // ------------------------------------------------------------------------- words

  function Le16(n: nat): (b: Bytes)
    requires n < TWO16
    ensures |b| == 2
  {
    [n % 0x100, n / 0x100]
  }

  function Le32(n: nat): (b: Bytes)
    requires n < TWO32
    ensures |b| == 4
  {
    Le16(n % TWO16) + Le16(n / TWO16)
  }

  function FromLe16(b: Bytes): nat
    requires |b| == 2
  {
    var (low: nat, high: nat) := (b[0], b[1]);
    low + high * 0x100
  }

  function FromLe32(b: Bytes): nat
    requires |b| == 4
  {
    FromLe16(b[..2]) + FromLe16(b[2..]) * TWO16
  }

  lemma Le32RoundTrip(n: nat)
    requires n < TWO32
    ensures FromLe32(Le32(n)) == n
  {
    var b := Le32(n);
    assert b[..2] == Le16(n % TWO16) && b[2..] == Le16(n / TWO16);
  }

  // --------------------------------------------------------------------------- ICO

  /** The key set of a dictionary, largest first. */
  ghost predicate SortedKeys(sizes: seq<nat>, keys: set<nat>) {
    && (forall k | k in keys :: k in sizes) && (forall k | 0 <= k < |sizes| :: sizes[k] in keys)
    && forall i, j | 0 <= i < j < |sizes| :: sizes[i] > sizes[j]
  }

  predicate IsLargest(keys: set<nat>, m: nat) { m in keys && forall k | k in keys :: k <= m }

  lemma LargestExists(keys: set<nat>) returns (largest: nat)
    requires keys != {}
    ensures IsLargest(keys, largest)
  {
    largest :| largest in keys;
    var rest := keys - {largest};
    assert keys == rest + {largest};
    if rest != {} {
      var m := LargestExists(rest);
      if m > largest { largest := m; }
    }
  }

  lemma NextLargest(sizes: seq<nat>, keys: set<nat>, left: set<nat>, largest: nat)
    requires left <= keys && SortedKeys(sizes, keys - left) && IsLargest(left, largest)
    requires forall k, m | 0 <= k < |sizes| && m in left :: sizes[k] > m
    ensures SortedKeys(sizes + [largest], keys - (left - {largest}))
    ensures forall k, m | 0 <= k < |sizes| + 1 && m in left - {largest} :: (sizes + [largest])[k] > m
  {
    var (next, rest) := (sizes + [largest], keys - (left - {largest}));
    forall k | k in rest ensures k in next {
      if k != largest {
        assert k in keys - left && k in sizes;
      } else {
        assert next[|sizes|] == k;
      }
    }
  }

  /** `sorted(..., reverse=True)`. */
  method SortDescending(keys: set<nat>) returns (sizes: seq<nat>)
    ensures SortedKeys(sizes, keys) && |sizes| == |keys|
  {
    sizes := [];
    var left := keys;
    while left != {}
      invariant left <= keys && |sizes| + |left| == |keys|
      invariant SortedKeys(sizes, keys - left)
      invariant forall k, m | 0 <= k < |sizes| && m in left :: sizes[k] > m
      decreases left
    {
      hide SortedKeys;
      ghost var witnessed := LargestExists(left);
      var largest :| IsLargest(left, largest);
      assert IsLargest(left, largest) && largest in left;
      NextLargest(sizes, keys, left, largest);
      sizes, left := sizes + [largest], left - {largest};
    }
    assert keys - left == keys;
  }

  /** The width and height byte: sizes of 256 and more do not fit and are written as 0. */
  function SizeByte(size: nat): byte { if size < 256 then size else 0 }

  datatype IcoEntry = IcoEntry(width: byte, height: byte, colors: byte, zero: byte, planes: nat, bits: nat, length: nat, offset: nat)

  function PackEntry(e: IcoEntry): (b: Bytes)
    requires e.planes < TWO16 && e.bits < TWO16 && e.length < TWO32 && e.offset < TWO32
    ensures |b| == 16
  {
    [e.width, e.height, e.colors, e.zero] + Le16(e.planes) + Le16(e.bits) + Le32(e.length) + Le32(e.offset)
  }

  function UnpackEntry(b: Bytes): IcoEntry
    requires |b| == 16
  {
    IcoEntry(b[0], b[1], b[2], b[3], FromLe16(b[4..6]), FromLe16(b[6..8]), FromLe32(b[8..12]), FromLe32(b[12..]))
  }

  lemma EntryRoundTrip(e: IcoEntry)
    requires e.planes < TWO16 && e.bits < TWO16 && e.length < TWO32 && e.offset < TWO32
    ensures UnpackEntry(PackEntry(e)) == e
  {
    hide Le32, FromLe32;
    var b := PackEntry(e);
    assert b[4..6] == Le16(e.planes) && b[6..8] == Le16(e.bits);
    assert b[8..12] == Le32(e.length) && b[12..] == Le32(e.offset);
    Le32RoundTrip(e.length);
    Le32RoundTrip(e.offset);
  }

  function TotalLength(blobs: seq<Bytes>): nat { if blobs == [] then 0 else TotalLength(blobs[..|blobs| - 1]) + |blobs[|blobs| - 1]| }

  /** Where blob `k` starts: after the header, the directory and the blobs before it. */
  function OffsetOf(blobs: seq<Bytes>, k: nat): nat
    requires k <= |blobs|
  {
    6 + 16 * |blobs| + TotalLength(blobs[..k])
  }

  lemma OffsetNext(blobs: seq<Bytes>, k: nat)
    requires k < |blobs|
    ensures OffsetOf(blobs, k + 1) == OffsetOf(blobs, k) + |blobs[k]|
  {
    assert blobs[..k + 1][..k] == blobs[..k];
  }

  function EntryFor(size: nat, blobs: seq<Bytes>, k: nat): IcoEntry
    requires k < |blobs|
  {
    IcoEntry(SizeByte(size), SizeByte(size), 0, 0, 1, 32, |blobs[k]|, OffsetOf(blobs, k))
  }

  /** The length and offset fields of entry `k` can hold their values. */
  predicate EntryFits(blobs: seq<Bytes>, k: nat)
    requires k < |blobs|
  {
    |blobs[k]| < TWO32 && OffsetOf(blobs, k) < TWO32
  }

  // What a reader of the format sees.

  function EntryAt(file: Bytes, k: nat): IcoEntry
    requires 6 + 16 * k + 16 <= |file|
  {
    UnpackEntry(file[6 + 16 * k..6 + 16 * k + 16])
  }

  /** Entry `k` delimits exactly the `k`-th blob. */
  predicate Delimits(file: Bytes, k: nat, size: nat, blob: Bytes) {
    && 6 + 16 * k + 16 <= |file|
    && var e := EntryAt(file, k);
    && (e.width, e.height, e.colors, e.zero, e.planes, e.bits) == (SizeByte(size), SizeByte(size), 0, 0, 1, 32)
    && e.length == |blob| && e.offset + e.length <= |file| && file[e.offset..e.offset + e.length] == blob
  }

  /** The blobs follow the directory without gaps or overlaps, in directory order, up to the end. */
  predicate Tiles(file: Bytes, n: nat)
    requires 6 + 16 * n <= |file|
  {
    && (n == 0 ==> |file| == 6)
    && (n > 0 ==> EntryAt(file, 0).offset == 6 + 16 * n)
    && (forall k | 0 < k < n :: EntryAt(file, k).offset == EntryAt(file, k - 1).offset + EntryAt(file, k - 1).length)
    && (n > 0 ==> EntryAt(file, n - 1).offset + EntryAt(file, n - 1).length == |file|)
  }

  predicate IsIco(file: Bytes, sizes: seq<nat>, blobs: seq<Bytes>) {
    && |sizes| == |blobs| < TWO16 && 6 + 16 * |sizes| <= |file|
    && file[..6] == Le16(0) + Le16(1) + Le16(|sizes|)
    && (forall k | 0 <= k < |sizes| :: Delimits(file, k, sizes[k], blobs[k]))
    && Tiles(file, |sizes|)
  }

  /** The state of the directory loop after `k` entries. */
  ghost predicate Written(directory: Bytes, tail: Bytes, sizes: seq<nat>, blobs: seq<Bytes>, k: nat)
    requires k <= |blobs| == |sizes|
  {
    && |directory| == 16 * k && |tail| == TotalLength(blobs[..k])
    && forall j | 0 <= j < k :: WrittenAt(directory, tail, sizes, blobs, j)
  }

  ghost predicate WrittenAt(directory: Bytes, tail: Bytes, sizes: seq<nat>, blobs: seq<Bytes>, j: nat)
    requires j < |blobs| == |sizes|
  {
    && EntryFits(blobs, j)
    && 16 * j + 16 <= |directory| && directory[16 * j..16 * j + 16] == PackEntry(EntryFor(sizes[j], blobs, j))
    && TotalLength(blobs[..j]) + |blobs[j]| <= |tail|
    && tail[TotalLength(blobs[..j])..TotalLength(blobs[..j]) + |blobs[j]|] == blobs[j]
  }

  lemma NothingWritten(directory: Bytes, tail: Bytes, sizes: seq<nat>, blobs: seq<Bytes>)
    requires directory == [] && tail == [] && |blobs| == |sizes|
    ensures OffsetOf(blobs, 0) == 6 + 16 * |sizes| && Written(directory, tail, sizes, blobs, 0)
  {
  }

  lemma WriteNext(directory: Bytes, tail: Bytes, sizes: seq<nat>, blobs: seq<Bytes>, k: nat)
    requires k < |blobs| == |sizes| && Written(directory, tail, sizes, blobs, k) && EntryFits(blobs, k)
    ensures Written(directory + PackEntry(EntryFor(sizes[k], blobs, k)), tail + blobs[k], sizes, blobs, k + 1)
  {
    hide PackEntry;
    var d, t := directory + PackEntry(EntryFor(sizes[k], blobs, k)), tail + blobs[k];
    OffsetNext(blobs, k);
    forall j | 0 <= j < k + 1 ensures WrittenAt(d, t, sizes, blobs, j) {
      if j < k {
        assert WrittenAt(directory, tail, sizes, blobs, j);
        var at := TotalLength(blobs[..j]);
        assert d[16 * j..16 * j + 16] == directory[16 * j..16 * j + 16];
        assert t[at..at + |blobs[j]|] == tail[at..at + |blobs[j]|];
      }
    }
  }

  lemma SlicesOfParts(header: Bytes, directory: Bytes, tail: Bytes, i: nat, j: nat, from: nat, to: nat)
    requires i <= j <= |directory| && from <= to <= |tail|
    ensures var file, front := header + directory + tail, |header| + |directory|;
            && file[|header| + i..|header| + j] == directory[i..j]
            && file[front + from..front + to] == tail[from..to]
  {
  }

  lemma EntryReads(header: Bytes, directory: Bytes, tail: Bytes, sizes: seq<nat>, blobs: seq<Bytes>, k: nat)
    requires k < |blobs| == |sizes| && |header| == 6 && |directory| == 16 * |sizes|
    requires WrittenAt(directory, tail, sizes, blobs, k)
    ensures 6 + 16 * k + 16 <= |header + directory + tail|
    ensures EntryAt(header + directory + tail, k) == EntryFor(sizes[k], blobs, k)
    ensures Delimits(header + directory + tail, k, sizes[k], blobs[k])
  {
    hide PackEntry, UnpackEntry, TotalLength;
    var at := TotalLength(blobs[..k]);
    SlicesOfParts(header, directory, tail, 16 * k, 16 * k + 16, at, at + |blobs[k]|);
    EntryRoundTrip(EntryFor(sizes[k], blobs, k));
  }

  lemma EntriesTile(file: Bytes, sizes: seq<nat>, blobs: seq<Bytes>)
    requires |sizes| == |blobs| && |file| == OffsetOf(blobs, |blobs|)
    requires forall k | 0 <= k < |sizes| :: EntryAt(file, k) == EntryFor(sizes[k], blobs, k)
    ensures Tiles(file, |sizes|)
  {
    hide UnpackEntry;
    var n := |blobs|;
    forall k | 0 < k < n ensures EntryAt(file, k).offset == EntryAt(file, k - 1).offset + EntryAt(file, k - 1).length {
      OffsetNext(blobs, k - 1);
    }
    if n > 0 { OffsetNext(blobs, n - 1); }
  }

  /** A finished directory and tail make an ICO file. */
  lemma WrittenIsIco(directory: Bytes, tail: Bytes, sizes: seq<nat>, blobs: seq<Bytes>)
    requires |blobs| == |sizes| < TWO16 && Written(directory, tail, sizes, blobs, |blobs|)
    ensures IsIco(Le16(0) + Le16(1) + Le16(|sizes|) + directory + tail, sizes, blobs)
  {
    hide EntryAt, Delimits, EntryFor, TotalLength, Le16, WrittenAt, Tiles;
    var header := Le16(0) + Le16(1) + Le16(|sizes|);
    var file := header + directory + tail;
    assert file[..6] == header && blobs[..|blobs|] == blobs;
    forall k | 0 <= k < |sizes|
      ensures EntryAt(file, k) == EntryFor(sizes[k], blobs, k) && Delimits(file, k, sizes[k], blobs[k])
    {
      EntryReads(header, directory, tail, sizes, blobs, k);
    }
    EntriesTile(file, sizes, blobs);
  }

  /** Every directory entry delimits exactly its own image, the images tile the rest of the file, and
      the largest comes first. There is no file exactly when a count, a length or an offset does not
      fit its field. */
  method BuildIco(pngBySize: map<nat, Bytes>) returns (file: Option<Bytes>, sizes: seq<nat>, blobs: seq<Bytes>)
    ensures SortedKeys(sizes, pngBySize.Keys) && |sizes| == |blobs| == |pngBySize|
    ensures forall k | 0 <= k < |sizes| :: pngBySize[sizes[k]] == blobs[k]
    ensures file.Some? <==> |sizes| < TWO16 && forall k | 0 <= k < |sizes| :: EntryFits(blobs, k)
    ensures file.Some? ==> IsIco(file.value, sizes, blobs)
  {
    hide PackEntry, TotalLength, IsIco, WrittenAt;
    sizes := SortDescending(pngBySize.Keys);
    blobs := seq(|sizes|, k requires 0 <= k < |sizes| => pngBySize[sizes[k]]);
    if |sizes| >= TWO16 { return None, sizes, blobs; }
    var header := Le16(0) + Le16(1) + Le16(|sizes|);
    var directory: Bytes, offset, tail: Bytes := [], 6 + 16 * |sizes|, [];
    NothingWritten(directory, tail, sizes, blobs);
    for k := 0 to |sizes|
      invariant offset == OffsetOf(blobs, k)
      invariant Written(directory, tail, sizes, blobs, k)
      invariant forall j | 0 <= j < k :: EntryFits(blobs, j)
    {
      var blob := blobs[k];
      if |blob| >= TWO32 || offset >= TWO32 {
        assert !EntryFits(blobs, k);
        return None, sizes, blobs;
      }
      WriteNext(directory, tail, sizes, blobs, k);
      OffsetNext(blobs, k);
      directory := directory + PackEntry(IcoEntry(SizeByte(sizes[k]), SizeByte(sizes[k]), 0, 0, 1, 32, |blob|, offset));
      tail, offset := tail + blob, offset + |blob|;
    }
    WrittenIsIco(directory, tail, sizes, blobs);
    file := Some(header + directory + tail);
  }

  /** The size byte tells the size exactly for the sizes the format knows: 1 to 256, with 0 read as 256. */
  lemma SizeByteIsExactIff(size: nat)
    ensures (if SizeByte(size) == 0 then 256 else SizeByte(size)) == size <==> 1 <= size <= 256
  {
  }

  // -------------------------------------------------------------------------- ICNS

  datatype IcnsEntry = IcnsEntry(ctype: Bytes, blob: Bytes)

  predicate IcnsFits(e: IcnsEntry) { |e.ctype| == 4 && |e.blob| + 8 < TWO32 }

  const ICNS: Bytes := [0x69, 0x63, 0x6E, 0x73]

  function IcnsEntryBytes(e: IcnsEntry): (b: Bytes)
    requires IcnsFits(e)
    ensures |b| == |e.blob| + 8
  {
    e.ctype + Be32(|e.blob| + 8) + e.blob
  }

  function IcnsBody(entries: seq<IcnsEntry>): Bytes
    requires forall e | e in entries :: IcnsFits(e)
  {
    if entries == [] then [] else IcnsEntryBytes(entries[0]) + IcnsBody(entries[1..])
  }

  lemma {:induction false} IcnsBodyAppend(entries: seq<IcnsEntry>, last: IcnsEntry)
    requires (forall e | e in entries :: IcnsFits(e)) && IcnsFits(last)
    ensures IcnsBody(entries + [last]) == IcnsBody(entries) + IcnsEntryBytes(last)
  {
    hide IcnsEntryBytes;
    if entries == [] {
      assert [] + [last] == [last] && [last][1..] == [];
      assert IcnsEntryBytes(last) + [] == [] + IcnsEntryBytes(last);
    } else {
      assert entries[0] in entries;
      assert (entries + [last])[1..] == entries[1..] + [last];
      IcnsBodyAppend(entries[1..], last);
      ConcatAssociative(IcnsEntryBytes(entries[0]), IcnsBody(entries[1..]), IcnsEntryBytes(last));
    }
  }

  /** A reader of the format: tagged blobs, each with its own length. */
  function ReadIcnsBody(body: Bytes): Option<seq<IcnsEntry>>
    decreases |body|
  {
    if body == [] then Some([])
    else if |body| < 8 then None
    else
      var length := ReadBe32(body[4..8]);
      if length < 8 || length > |body| then None
      else match ReadIcnsBody(body[length..])
        case None => None
        case Some(rest) => Some([IcnsEntry(body[..4], body[8..length])] + rest)
  }

  function ReadIcns(file: Bytes): Option<seq<IcnsEntry>> {
    if |file| < 8 || file[..4] != ICNS || ReadBe32(file[4..8]) != |file| then None else ReadIcnsBody(file[8..])
  }

  lemma ReadFirstEntry(e: IcnsEntry, rest: Bytes)
    requires IcnsFits(e)
    ensures var body := IcnsEntryBytes(e) + rest;
            body[..4] == e.ctype && ReadBe32(body[4..8]) == |e.blob| + 8
            && body[8..|e.blob| + 8] == e.blob && body[|e.blob| + 8..] == rest
  {
    hide Be32, ReadBe32;
    var body := IcnsEntryBytes(e) + rest;
    assert body[4..8] == Be32(|e.blob| + 8);
    Be32RoundTrip(|e.blob| + 8);
  }

  lemma {:induction false} IcnsBodyRoundTrip(entries: seq<IcnsEntry>)
    requires forall e | e in entries :: IcnsFits(e)
    ensures ReadIcnsBody(IcnsBody(entries)) == Some(entries)
  {
    hide IcnsEntryBytes, ReadBe32;
    if entries != [] {
      assert entries[0] in entries;
      ReadFirstEntry(entries[0], IcnsBody(entries[1..]));
      IcnsBodyRoundTrip(entries[1..]);
      assert [entries[0]] + entries[1..] == entries;
    }
  }

  /** The entries can be read back from the file, in order. There is no file exactly when an entry or
      the whole is too long for its length field. */
  method BuildIcns(entries: seq<IcnsEntry>) returns (file: Option<Bytes>)
    requires forall e | e in entries :: |e.ctype| == 4
    ensures file.Some? <==> (forall e | e in entries :: IcnsFits(e)) && |IcnsBody(entries)| + 8 < TWO32
    ensures file.Some? ==> ReadIcns(file.value) == Some(entries)
    ensures file.Some? ==>
              && |file.value| == 8 + |IcnsBody(entries)| && file.value[..4] == [0x69, 0x63, 0x6E, 0x73]
              && Word(file.value, 4) == |file.value| && file.value[8..] == IcnsBody(entries)
  {
    hide IcnsEntryBytes, Be32, ReadBe32, ReadIcnsBody;
    var body: Bytes := [];
    assert entries[..0] == [];
    for i := 0 to |entries|
      invariant forall e | e in entries[..i] :: IcnsFits(e)
      invariant body == IcnsBody(entries[..i])
    {
      if |entries[i].blob| + 8 >= TWO32 {
        assert entries[i] in entries;
        return None;
      }
      assert entries[..i + 1] == entries[..i] + [entries[i]];
      IcnsBodyAppend(entries[..i], entries[i]);
      body := body + IcnsEntryBytes(entries[i]);
    }
    assert entries[..|entries|] == entries;
    if |body| + 8 >= TWO32 { return None; }
    var result := ICNS + Be32(|body| + 8) + body;
    IcnsBodyRoundTrip(entries);
    Be32RoundTrip(|body| + 8);
    assert result[..4] == ICNS && result[4..8] == Be32(|body| + 8) && result[8..] == body;
    Be32Digits(|body| + 8);
    WordOfSlice(result, 4);
    file := Some(result);
  }

  // ------------------------------------------------------------------------- bytes

  /** The little-endian word at `i`. */
  function LittleWord(b: Bytes, i: nat): nat
    requires i + 4 <= |b|
  {
    var (b0: int, b1: int, b2: int, b3: int) := (b[i], b[i + 1], b[i + 2], b[i + 3]);
    b0 + b1 * 0x100 + b2 * 0x1_0000 + b3 * 0x100_0000
  }

  /** An ICO file byte by byte: the header gives the number of entries, and each entry its size twice, two
      zeros, one plane, 32 bits, and the length and offset of its blob. */
  lemma IcoBytes(file: Bytes, sizes: seq<nat>, blobs: seq<Bytes>, k: nat)
    requires IsIco(file, sizes, blobs) && k < |sizes|
    ensures file[..6] == [0, 0, 1, 0, |sizes| % 256, |sizes| / 256]
    ensures var at := 6 + 16 * k;
            && at + 16 <= |file|
            && file[at] == file[at + 1] == (if sizes[k] < 256 then sizes[k] else 0)
            && file[at + 2..at + 8] == [0, 0, 1, 0, 32, 0]
            && LittleWord(file, at + 8) == |blobs[k]|
            && LittleWord(file, at + 12) + |blobs[k]| <= |file|
            && file[LittleWord(file, at + 12)..LittleWord(file, at + 12) + |blobs[k]|] == blobs[k]
  {
    hide UnpackEntry, LittleWord, Tiles;
    var at := 6 + 16 * k;
    assert Delimits(file, k, sizes[k], blobs[k]);
    EntryBytes(file[at..at + 16]);
    SliceOfSlice(file, at, at + 16, 2, 8);
    LittleWordOfPart(file, at, 8);
    LittleWordOfPart(file, at, 12);
    assert Le16(0) == [0, 0] && Le16(1) == [1, 0];
  }

  lemma LittleWordOfPart(file: Bytes, at: nat, i: nat)
    requires at + 16 <= |file| && i + 4 <= 16
    ensures LittleWord(file, at + i) == LittleWord(file[at..at + 16], i)
  {
  }

  lemma EntryBytes(b: Bytes)
    requires |b| == 16
    ensures var e := UnpackEntry(b);
            && e.length == LittleWord(b, 8) && e.offset == LittleWord(b, 12) && e.width == b[0] && e.height == b[1]
            && ((e.colors, e.zero, e.planes, e.bits) == (0, 0, 1, 32) ==> b[2..8] == [0, 0, 1, 0, 32, 0])
  {
    assert b[8..12][..2] == b[8..10] && b[8..12][2..] == b[10..12];
    assert b[12..][..2] == b[12..14] && b[12..][2..] == b[14..16];
    assert b[2..8] == [b[2], b[3], b[4], b[5], b[6], b[7]];
  }

  /** An ICNS entry byte by byte: its type, its length with the eight bytes before the blob, the blob. */
  lemma IcnsEntryLayout(e: IcnsEntry)
    requires IcnsFits(e)
    ensures var b := IcnsEntryBytes(e);
            b[..4] == e.ctype && Word(b, 4) == |e.blob| + 8 && b[8..] == e.blob
    ensures IcnsBody([e]) == IcnsEntryBytes(e)
  {
    hide Be32;
    var b := IcnsEntryBytes(e);
    Be32Digits(|e.blob| + 8);
    assert b[4..8] == Be32(|e.blob| + 8);
    WordOfSlice(b, 4);
    assert [e][1..] == [] && b + [] == b;
  }
}
