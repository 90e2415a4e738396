/** Reading and writing 8-bit RGBA PNG images (RFC 2083). Compression and the checksum are parameters:
    all that is asked of them is that decompression inverts compression. */
module Png {
  import opened Common
  import opened Utf8

  const SIGNATURE: Bytes := [0x89, 0x50, 0x4E, 0x47, 0x0D, 0x0A, 0x1A, 0x0A]
  const IHDR: Bytes := [0x49, 0x48, 0x44, 0x52]
  const IDAT: Bytes := [0x49, 0x44, 0x41, 0x54]
  const IEND: Bytes := [0x49, 0x45, 0x4E, 0x44]
  const TWO32 := 0x1_0000_0000
  const CHANNELS := 4

  datatype Codec = Codec(compress: Bytes -> Bytes, decompress: Bytes -> Option<Bytes>, checksum: Bytes -> nat)

  ghost predicate Inverts(z: Codec) { forall raw: Bytes :: z.decompress(z.compress(raw)) == Some(raw) }

  datatype Image = Image(width: nat, height: nat, rows: seq<Bytes>)

  predicate IsRgba(m: Image) { |m.rows| == m.height && forall i | 0 <= i < m.height :: |m.rows[i]| == m.width * CHANNELS }

  datatype Error = NotPng | StructError | NotRgba8 | NoHeader | Corrupt | IndexError | UnsupportedFilter
  datatype Result<+T> = Success(value: T) | Failure(error: Error)

  // ----------------------------------------------------------------- big-endian words

  function Be32(n: nat): (b: Bytes)
    requires n < TWO32
    ensures |b| == 4
  {
    [n / 0x100_0000, n / 0x1_0000 % 0x100, n / 0x100 % 0x100, n % 0x100]
  }

  function ReadBe32(b: Bytes): nat
    requires |b| == 4
  {
    var (b0: int, b1: int, b2: int) := (b[0], b[1], b[2]);
    ((b0 * 0x100 + b1) * 0x100 + b2) * 0x100 + b[3]
  }

  lemma Be32RoundTrip(n: nat)
    requires n < TWO32
    ensures ReadBe32(Be32(n)) == n
  {
    var q := n / 0x100;
    assert n == q * 0x100 + n % 0x100;
    assert q == (q / 0x100) * 0x100 + q % 0x100;
    assert q / 0x100 == n / 0x1_0000;
    assert n / 0x1_0000 == (n / 0x100_0000) * 0x100 + n / 0x1_0000 % 0x100;
  }

  // ------------------------------------------------------------------------ filters

  function Abs(n: int): nat { if n < 0 then -n else n }

  function Paeth(a: byte, b: byte, c: byte): byte {
    var p := a + b - c;
    var (pa, pb, pc) := (Abs(p - a), Abs(p - b), Abs(p - c));
    if pa <= pb && pa <= pc then a else if pb <= pc then b else c
  }

  /** The predictor of filter types 0 to 4: none, left, above, average and Paeth. */
  function Predict(filter: nat, a: byte, b: byte, c: byte): byte {
    if filter == 1 then a
    else if filter == 2 then b
    else if filter == 3 then (a + b) / 2
    else if filter == 4 then Paeth(a, b, c)
    else 0
  }

  function At(s: Bytes, i: int): byte { if 0 <= i < |s| then s[i] else 0 }

  function PredictAt(filter: nat, row: Bytes, prev: Bytes, x: nat): byte {
    Predict(filter, At(row, x - CHANNELS), At(prev, x), At(prev, x - CHANNELS))
  }

  /** The filtering of section 6 of RFC 2083: each byte minus its prediction, modulo 256. */
  function Filter(filter: nat, row: Bytes, prev: Bytes): (coded: Bytes)
    ensures |coded| == |row|
    ensures forall x | 0 <= x < |row| :: coded[x] == (row[x] - PredictAt(filter, row, prev, x)) % 256
  {
    seq(|row|, x requires 0 <= x < |row| => (row[x] - PredictAt(filter, row, prev, x)) % 256)
  }

  function Wrapped(value: int, prediction: int): byte { (value + prediction) % 256 }

  /** The first `n` bytes of a row, reconstructed left to right. */
  function Reconstruct(filter: nat, coded: Bytes, prev: Bytes, n: nat): (row: Bytes)
    requires n <= |coded|
    ensures |row| == n
  {
    if n == 0 then []
    else
      var row := Reconstruct(filter, coded, prev, n - 1);
      row + [Wrapped(coded[n - 1], PredictAt(filter, row, prev, n - 1))]
  }

  /** A prediction looks only at bytes to the left of its own. */
  lemma PredictFromPrefix(filter: nat, row: Bytes, prev: Bytes, x: nat)
    requires x < |row|
    ensures PredictAt(filter, row[..x], prev, x) == PredictAt(filter, row, prev, x)
  {
    hide Predict;
    assert At(row[..x], x - CHANNELS) == At(row, x - CHANNELS);
  }

  lemma WrapsBack(value: byte, prediction: int)
    ensures Wrapped((value - prediction) % 256, prediction) == value
  {
  }

  /** Reconstruction inverts every filter type. */
  lemma {:induction false} ReconstructFilter(filter: nat, row: Bytes, prev: Bytes, n: nat)
    requires n <= |row|
    ensures Reconstruct(filter, Filter(filter, row, prev), prev, n) == row[..n]
  {
    hide PredictAt, Filter, Wrapped;
    if n > 0 {
      var x := n - 1;
      ReconstructFilter(filter, row, prev, x);
      PredictFromPrefix(filter, row, prev, x);
      WrapsBack(row[x], PredictAt(filter, row, prev, x));
      assert row[..n] == row[..x] + [row[x]];
    }
  }

  lemma {:induction false} ReconstructNone(coded: Bytes, prev: Bytes, n: nat)
    requires n <= |coded|
    ensures Reconstruct(0, coded, prev, n) == coded[..n]
  {
    if n > 0 {
      ReconstructNone(coded, prev, n - 1);
      assert coded[..n] == coded[..n - 1] + [coded[n - 1]];
    }
  }

  /** The first pixel has no left neighbour. */
  lemma {:induction false} ReconstructLeftStart(coded: Bytes, prev: Bytes, n: nat)
    requires n <= |coded| && n <= CHANNELS
    ensures Reconstruct(1, coded, prev, n) == coded[..n]
  {
    if n > 0 {
      ReconstructLeftStart(coded, prev, n - 1);
      assert coded[..n] == coded[..n - 1] + [coded[n - 1]];
    }
  }

  /** The prediction for byte `x`, taken from a line whose first `x` bytes are already reconstructed. */
  method PredictInPlace(filter: nat, line: array<byte>, prev: Bytes, x: nat) returns (p: byte)
    requires 1 <= filter <= 4 && |prev| == line.Length && x < line.Length
    requires filter == 1 ==> x >= CHANNELS
    ensures p == PredictAt(filter, line[..x], prev, x)
  {
    if filter == 1 {
      p := line[x - CHANNELS];
    } else if filter == 2 {
      p := prev[x];
    } else {
      var a: int := if x >= CHANNELS then line[x - CHANNELS] else 0;
      var b: int := prev[x];
      if filter == 3 {
        p := (a + b) / 2;
      } else {
        p := Paeth(a, b, if x >= CHANNELS then prev[x - CHANNELS] else 0);
      }
    }
  }

  /** Undoes a filter in place. */
  method Unfilter(filter: nat, line: array<byte>, prev: Bytes)
    requires filter <= 4 && |prev| == line.Length
    modifies line
    ensures line[..] == Reconstruct(filter, old(line[..]), prev, line.Length)
  {
    hide PredictAt;
    ghost var coded := line[..];
    var stride := line.Length;
    if filter == 0 {
      ReconstructNone(coded, prev, stride);
      return;
    }
    var x := 0;
    if filter == 1 {
      x := Min(stride, CHANNELS);
      ReconstructLeftStart(coded, prev, x);
    }
    while x < stride
      invariant x <= stride && (filter == 1 && x < stride ==> x >= CHANNELS)
      invariant line[..x] == Reconstruct(filter, coded, prev, x)
      invariant line[x..] == coded[x..]
    {
      var p := PredictInPlace(filter, line, prev, x);
      assert line[x] == line[x..][0] == coded[x..][0] == coded[x];
      line[x] := Wrapped(line[x], p);
      assert line[..x + 1] == line[..x] + [line[x]];
      assert line[x + 1..] == coded[x..][1..];
      x := x + 1;
    }
    assert line[..] == line[..stride];
  }

  // --------------------------------------------------------------------------- rows

  /** One row read at `i`: a filter byte and up to `stride` bytes. A short last row passes only where
      the loops of its filter touch no missing byte. */
  function ReadRow(raw: Bytes, i: nat, stride: nat, prev: Bytes): Result<Bytes> {
    if i >= |raw| then Failure(IndexError)
    else
      var filter, line := raw[i], raw[i + 1..Min(i + 1 + stride, |raw|)];
      if filter > 4 then Failure(UnsupportedFilter)
      else if |line| == stride then Success(Reconstruct(filter, line, prev, stride))
      else if filter == 0 || (filter == 1 && stride <= CHANNELS) then Success(line)
      else Failure(IndexError)
  }

  function ReadRows(raw: Bytes, i: nat, stride: nat, n: nat, prev: Bytes): Result<seq<Bytes>>
    decreases n
  {
    if n == 0 then Success([])
    else match ReadRow(raw, i, stride, prev)
      case Failure(e) => Failure(e)
      case Success(row) =>
        (match ReadRows(raw, i + 1 + stride, stride, n - 1, row)
         case Failure(e) => Failure(e)
         case Success(rest) => Success([row] + rest))
  }

  function Zeros(n: nat): (z: Bytes)
    ensures |z| == n && forall i | 0 <= i < n :: z[i] == 0
  {
    seq(n, i => 0)
  }

  function FilteredRow(filter: byte, row: Bytes, prev: Bytes): (r: Bytes)
    ensures |r| == |row| + 1
  {
    [filter] + Filter(filter, row, prev)
  }

  /** The decompressed stream of an image whose row `k` uses filter `filters[k]`. */
  function FilteredRows(filters: seq<byte>, rows: seq<Bytes>, prev: Bytes): Bytes
    requires |filters| == |rows|
  {
    if rows == [] then []
    else FilteredRow(filters[0], rows[0], prev) + FilteredRows(filters[1..], rows[1..], rows[0])
  }

  lemma ReadRowInverts(filter: byte, row: Bytes, prev: Bytes, before: Bytes, after: Bytes)
    requires filter <= 4
    ensures ReadRow((before + FilteredRow(filter, row, prev)) + after, |before|, |row|, prev) == Success(row)
  {
    hide Reconstruct, PredictAt;
    var raw, coded := (before + FilteredRow(filter, row, prev)) + after, Filter(filter, row, prev);
    assert raw[|before|] == filter && raw[|before| + 1..|before| + 1 + |row|] == coded;
    ReconstructFilter(filter, row, prev, |row|);
    assert row[..|row|] == row;
  }

  /** Whatever filter each row uses, the rows come back. */
  lemma {:induction false} ReadRowsInverts(filters: seq<byte>, rows: seq<Bytes>, prev: Bytes, before: Bytes, stride: nat)
    requires |filters| == |rows|
    requires forall k | 0 <= k < |rows| :: filters[k] <= 4 && |rows[k]| == stride
    ensures ReadRows(before + FilteredRows(filters, rows, prev), |before|, stride, |rows|, prev) == Success(rows)
    decreases |rows|
  {
    hide FilteredRow, ReadRow;
    if rows != [] {
      var head := FilteredRow(filters[0], rows[0], prev);
      var rest := FilteredRows(filters[1..], rows[1..], rows[0]);
      ConcatAssociative(before, head, rest);
      ReadRowInverts(filters[0], rows[0], prev, before, rest);
      ReadRowsInverts(filters[1..], rows[1..], rows[0], before + head, stride);
      assert rows == [rows[0]] + rows[1..];
    }
  }

  // ------------------------------------------------------------------------- chunks

  datatype Chunk = Chunk(ctype: Bytes, body: Bytes)

  predicate Encodable(c: Chunk) { |c.ctype| == 4 && |c.body| < TWO32 }

  function EncodeChunk(z: Codec, c: Chunk): Bytes
    requires Encodable(c)
  {
    Be32(|c.body|) + c.ctype + c.body + Be32(z.checksum(c.ctype + c.body) % TWO32)
  }

  function EncodeChunks(z: Codec, chunks: seq<Chunk>): Bytes
    requires forall c | c in chunks :: Encodable(c)
  {
    if chunks == [] then [] else EncodeChunk(z, chunks[0]) + EncodeChunks(z, chunks[1..])
  }

  /** What the chunk loop has gathered: the size of the last header and the data of all IDATs. */
  datatype Gathered = Gathered(size: Option<(nat, nat)>, idat: Bytes)

  function Gather(g: Gathered, c: Chunk): Result<Gathered> {
    if c.ctype == IHDR then
      if |c.body| < 10 then Failure(StructError)
      else if c.body[8] != 8 || c.body[9] != 6 then Failure(NotRgba8)
      else Success(g.(size := Some((ReadBe32(c.body[..4]), ReadBe32(c.body[4..8])))))
    else if c.ctype == IDAT then Success(g.(idat := g.idat + c.body))
    else Success(g)
  }

  function GatherAll(g: Gathered, chunks: seq<Chunk>): Result<Gathered>
    decreases |chunks|
  {
    if chunks == [] then Success(g)
    else match Gather(g, chunks[0])
      case Failure(e) => Failure(e)
      case Success(next) => GatherAll(next, chunks[1..])
  }

  /** The chunk that starts at `pos`; its body is cut off where the file ends. */
  function ChunkAt(data: Bytes, pos: nat): (nat, Chunk)
    requires pos + 8 <= |data|
  {
    var length := ReadBe32(data[pos..pos + 4]);
    (length, Chunk(data[pos + 4..pos + 8], data[pos + 8..Min(pos + 8 + length, |data|)]))
  }

  function ScanChunks(data: Bytes, pos: nat, g: Gathered): Result<Gathered>
    decreases |data| - pos
  {
    if pos >= |data| then Success(g)
    else if pos + 8 > |data| then Failure(StructError)
    else
      var (length, c) := ChunkAt(data, pos);
      match Gather(g, c)
      case Failure(e) => Failure(e)
      case Success(next) => ScanChunks(data, pos + 12 + length, next)
  }

  lemma ChunkAtEncoded(z: Codec, before: Bytes, c: Chunk, after: Bytes)
    requires Encodable(c)
    ensures var data := before + EncodeChunk(z, c) + after;
            |before| + 8 <= |data| && ChunkAt(data, |before|) == (|c.body|, c)
    ensures |EncodeChunk(z, c)| == 12 + |c.body|
  {
    var data := before + EncodeChunk(z, c) + after;
    var n := |before|;
    assert data[n..n + 4] == Be32(|c.body|);
    assert data[n + 4..n + 8] == c.ctype;
    assert data[n + 8..n + 8 + |c.body|] == c.body;
    Be32RoundTrip(|c.body|);
  }

  lemma ScanOne(z: Codec, before: Bytes, c: Chunk, after: Bytes, g: Gathered)
    requires Encodable(c)
    ensures ScanChunks((before + EncodeChunk(z, c)) + after, |before|, g) ==
            match Gather(g, c)
            case Failure(e) => Failure(e)
            case Success(next) => ScanChunks((before + EncodeChunk(z, c)) + after, |before + EncodeChunk(z, c)|, next)
  {
    hide EncodeChunk, Gather, ChunkAt;
    ChunkAtEncoded(z, before, c, after);
  }

  /** Scanning a file of encoded chunks sees exactly those chunks, in order. */
  lemma {:induction false} ScanEncoded(z: Codec, before: Bytes, chunks: seq<Chunk>, g: Gathered)
    requires forall c | c in chunks :: Encodable(c)
    ensures ScanChunks(before + EncodeChunks(z, chunks), |before|, g) == GatherAll(g, chunks)
    decreases |chunks|
  {
    hide EncodeChunk, Gather;
    if chunks == [] {
      assert before + [] == before;
    } else {
      assert chunks[0] in chunks;
      var head, rest := EncodeChunk(z, chunks[0]), EncodeChunks(z, chunks[1..]);
      ScanOne(z, before, chunks[0], rest, g);
      ConcatAssociative(before, head, rest);
      if Gather(g, chunks[0]).Success? {
        ScanEncoded(z, before + head, chunks[1..], Gather(g, chunks[0]).value);
      }
    }
  }

  // ------------------------------------------------------------------ whole images

  /** The row loop after the chunks are gathered. */
  function DecodeGathered(z: Codec, g: Gathered): Result<Image> {
    match z.decompress(g.idat)
    case None => Failure(Corrupt)
    case Some(raw) =>
      if g.size.None? then Failure(NoHeader)
      else
        var (width, height) := g.size.value;
        match ReadRows(raw, 0, width * CHANNELS, height, Zeros(width * CHANNELS))
        case Failure(e) => Failure(e)
        case Success(rows) => Success(Image(width, height, rows))
  }

  function Decode(z: Codec, data: Bytes): Result<Image> {
    if |data| < 8 || data[..8] != SIGNATURE then Failure(NotPng)
    else match ScanChunks(data, 8, Gathered(None, []))
      case Failure(e) => Failure(e)
      case Success(g) => DecodeGathered(z, g)
  }

  function Header(m: Image): Bytes
    requires m.width < TWO32 && m.height < TWO32
  {
    Be32(m.width) + Be32(m.height) + [8, 6, 0, 0, 0]
  }

  /** Unfiltered rows. */
  function RawRows(rows: seq<Bytes>): Bytes {
    if rows == [] then [] else ([0] + rows[0]) + RawRows(rows[1..])
  }

  /** `None` where the length fields cannot hold the size. */
  function Encode(z: Codec, m: Image): Option<Bytes> {
    if m.width >= TWO32 || m.height >= TWO32 || |z.compress(RawRows(m.rows))| >= TWO32 then None
    else Some(SIGNATURE + EncodeChunk(z, Chunk(IHDR, Header(m))) + EncodeChunk(z, Chunk(IDAT, z.compress(RawRows(m.rows)))) + EncodeChunk(z, Chunk(IEND, [])))
  }

  lemma FilterNone(row: Bytes, prev: Bytes)
    ensures FilteredRow(0, row, prev) == [0] + row
  {
    hide PredictAt;
    forall x | 0 <= x < |row| ensures Filter(0, row, prev)[x] == row[x] { PredictNone(row, prev, x); }
  }

  lemma PredictNone(row: Bytes, prev: Bytes, x: nat)
    ensures PredictAt(0, row, prev, x) == 0
  {
  }

  lemma {:induction false} RawRowsAreFiltered(rows: seq<Bytes>, prev: Bytes)
    ensures RawRows(rows) == FilteredRows(Zeros(|rows|), rows, prev)
  {
    hide FilteredRow;
    if rows != [] {
      RawRowsAreFiltered(rows[1..], rows[0]);
      assert Zeros(|rows|)[1..] == Zeros(|rows| - 1);
      FilterNone(rows[0], prev);
    }
  }

  lemma GatherHeader(g: Gathered, m: Image)
    requires m.width < TWO32 && m.height < TWO32
    ensures Gather(g, Chunk(IHDR, Header(m))) == Success(g.(size := Some((m.width, m.height))))
  {
    var h := Header(m);
    assert h[..4] == Be32(m.width) && h[4..8] == Be32(m.height);
    Be32RoundTrip(m.width);
    Be32RoundTrip(m.height);
  }

  /** Any file made of a header, image data in one or several chunks and other chunks anywhere decodes
      to its image, whatever filter each row uses. */
  lemma DecodesEveryLayout(z: Codec, m: Image, filters: seq<byte>, chunks: seq<Chunk>)
    requires Inverts(z) && IsRgba(m)
    requires |filters| == m.height && forall k | 0 <= k < m.height :: filters[k] <= 4
    requires forall c | c in chunks :: Encodable(c)
    requires GatherAll(Gathered(None, []), chunks)
               == Success(Gathered(Some((m.width, m.height)), z.compress(FilteredRows(filters, m.rows, Zeros(m.width * CHANNELS)))))
    ensures Decode(z, SIGNATURE + EncodeChunks(z, chunks)) == Success(m)
  {
    var raw, stride := FilteredRows(filters, m.rows, Zeros(m.width * CHANNELS)), m.width * CHANNELS;
    var data := SIGNATURE + EncodeChunks(z, chunks);
    assert data[..8] == SIGNATURE;
    ScanEncoded(z, SIGNATURE, chunks, Gathered(None, []));
    assert z.decompress(z.compress(raw)) == Some(raw);
    ReadRowsInverts(filters, m.rows, Zeros(stride), [], stride);
    assert [] + raw == raw;
  }

  /** Decoding what was encoded gives the same size and the same rows, for every RGBA image that can
      be encoded at all. */
  lemma RoundTrip(z: Codec, m: Image)
    requires Inverts(z) && IsRgba(m)
    ensures Encode(z, m).Some? ==> Decode(z, Encode(z, m).value) == Success(m)
  {
    if Encode(z, m).Some? {
      var h, d, e := Chunk(IHDR, Header(m)), Chunk(IDAT, z.compress(RawRows(m.rows))), Chunk(IEND, []);
      ThreeChunks(z, h, d, e);
      RawRowsAreFiltered(m.rows, Zeros(m.width * CHANNELS));
      GatherHeader(Gathered(None, []), m);
      GatherThree(m, h, d, e);
      DecodesEveryLayout(z, m, Zeros(m.height), [h, d, e]);
    }
  }

  lemma ThreeChunks(z: Codec, h: Chunk, d: Chunk, e: Chunk)
    requires Encodable(h) && Encodable(d) && Encodable(e)
    ensures SIGNATURE + EncodeChunks(z, [h, d, e])
         == SIGNATURE + EncodeChunk(z, h) + EncodeChunk(z, d) + EncodeChunk(z, e)
  {
    var (a, b, c) := (EncodeChunk(z, h), EncodeChunk(z, d), EncodeChunk(z, e));
    assert [h, d, e][1..] == [d, e] && [d, e][1..] == [e] && [e][1..] == [];
    assert EncodeChunks(z, [e]) == c + [] == c;
    assert EncodeChunks(z, [h, d, e]) == a + (b + c);
    ConcatAssociative(SIGNATURE, a, b + c);
    ConcatAssociative(SIGNATURE + a, b, c);
  }

  lemma GatherThree(m: Image, h: Chunk, d: Chunk, e: Chunk)
    requires Gather(Gathered(None, []), h) == Success(Gathered(Some((m.width, m.height)), []))
    requires d.ctype == IDAT && e.ctype == IEND
    ensures GatherAll(Gathered(None, []), [h, d, e]) == Success(Gathered(Some((m.width, m.height)), d.body))
  {
    var g := Gathered(Some((m.width, m.height)), []);
    assert [h, d, e][1..] == [d, e] && [d, e][1..] == [e] && [e][1..] == [];
    assert IDAT != IHDR && IEND != IHDR && IEND != IDAT by { assert IDAT[1] != IHDR[1] && IEND[3] != IHDR[3] && IEND[1] != IDAT[1]; }
    assert [] + d.body == d.body;
    assert Gather(g, d) == Success(g.(idat := d.body));
    assert GatherAll(g.(idat := d.body), [e]) == Success(g.(idat := d.body));
  }

  // ------------------------------------------------------------------- the decoder

  /** The decoder's loops: chunks are gathered, then rows are unfiltered in place one by one. */
  method DecodePng(z: Codec, data: Bytes) returns (result: Result<Image>)
    ensures result == Decode(z, data)
  {
    hide Gather, ChunkAt, ReadRows;
    if |data| < 8 || data[..8] != SIGNATURE { return Failure(NotPng); }
    var pos, g := 8, Gathered(None, []);
    while pos < |data|
      invariant ScanChunks(data, pos, g) == ScanChunks(data, 8, Gathered(None, []))
      decreases |data| - pos
    {
      if pos + 8 > |data| { return Failure(StructError); }
      var (length, c) := ChunkAt(data, pos);
      match Gather(g, c) {
        case Failure(e) => return Failure(e);
        case Success(next) => g := next;
      }
      pos := pos + 12 + length;
    }
    var inflated := z.decompress(g.idat);
    if inflated.None? { return Failure(Corrupt); }
    if g.size.None? { return Failure(NoHeader); }
    var (width, height) := g.size.value;
    var rows := DecodeRows(inflated.value, width * CHANNELS, height);
    match rows {
      case Failure(e) => result := Failure(e);
      case Success(r) => result := Success(Image(width, height, r));
    }
  }

  function Joined(rows: seq<Bytes>, rest: Result<seq<Bytes>>): Result<seq<Bytes>> {
    match rest case Failure(e) => Failure(e) case Success(r) => Success(rows + r)
  }

  /** One more row read extends the rows so far. */
  lemma JoinedStep(rows: seq<Bytes>, row: Bytes, raw: Bytes, i: nat, stride: nat, n: nat, prev: Bytes)
    requires n > 0 && ReadRow(raw, i, stride, prev) == Success(row)
    ensures Joined(rows, ReadRows(raw, i, stride, n, prev))
         == Joined(rows + [row], ReadRows(raw, i + 1 + stride, stride, n - 1, row))
  {
    hide ReadRow;
    var rest := ReadRows(raw, i + 1 + stride, stride, n - 1, row);
    if rest.Success? { ConcatAssociative(rows, [row], rest.value); }
  }

  method DecodeRows(raw: Bytes, stride: nat, height: nat) returns (result: Result<seq<Bytes>>)
    ensures result == ReadRows(raw, 0, stride, height, Zeros(stride))
  {
    hide ReadRow;
    var rows: seq<Bytes>, prev, i: nat, k: nat := [], Zeros(stride), 0, 0;
    ghost var all := ReadRows(raw, 0, stride, height, prev);
    assert all.Success? ==> [] + all.value == all.value;
    while k < height
      invariant k <= height && (|prev| == stride || i >= |raw|)
      invariant Joined(rows, ReadRows(raw, i, stride, height - k, prev)) == all
    {
      var next := DecodeRow(raw, i, stride, prev);
      if next.Failure? { return Failure(next.error); }
      JoinedStep(rows, next.value, raw, i, stride, height - k, prev);
      rows, prev, i, k := rows + [next.value], next.value, i + 1 + stride, k + 1;
    }
    assert rows + [] == rows;
    result := Success(rows);
  }

  method DecodeRow(raw: Bytes, i: nat, stride: nat, prev: Bytes) returns (result: Result<Bytes>)
    requires |prev| == stride || i >= |raw|
    ensures result == ReadRow(raw, i, stride, prev)
    ensures result.Success? ==> |result.value| == stride || i + 1 + stride >= |raw|
  {
    if i >= |raw| { return Failure(IndexError); }
    var filter := raw[i];
    var bytes := raw[i + 1..Min(i + 1 + stride, |raw|)];
    if filter > 4 { return Failure(UnsupportedFilter); }
    if |bytes| == stride {
      var row := UnfilterCopy(filter, bytes, prev);
      return Success(row);
    }
    // a short last line: only a loop that touches no byte gets through it
    result := if filter == 0 || (filter == 1 && stride <= CHANNELS) then Success(bytes) else Failure(IndexError);
  }

  /** A row is copied out of the stream and unfiltered in place. */
  method UnfilterCopy(filter: nat, bytes: Bytes, prev: Bytes) returns (row: Bytes)
    requires filter <= 4 && |prev| == |bytes|
    ensures row == Reconstruct(filter, bytes, prev, |bytes|)
  {
    var line := new byte[|bytes|](i requires 0 <= i < |bytes| => bytes[i]);
    assert line[..] == bytes;
    Unfilter(filter, line, prev);
    row := line[..];
  }

  // ------------------------------------------------------------ predictions and bytes

  function Distance(p: int, v: int): nat { if p >= v then p - v else v - p }

  /** The Paeth predictor is whichever of left, up and upper left is nearest to left + up - upper left; ties
      go to left, then to up (section 6.6 of RFC 2083). */
  lemma PaethNearest(left: byte, up: byte, upLeft: byte)
    ensures var (p: int, r) := (left as int + up - upLeft, Paeth(left, up, upLeft));
            && r in {left, up, upLeft}
            && Distance(p, r) <= Distance(p, left) && Distance(p, r) <= Distance(p, up) && Distance(p, r) <= Distance(p, upLeft)
            && (r != left ==> Distance(p, r) < Distance(p, left))
            && (r != left && r != up ==> Distance(p, r) < Distance(p, up))
  {
  }

  /** What each filter predicts for byte `x` from the pixel to the left, the row above, or both; the first
      pixel has zeros to its left. */
  lemma PredictMeans(filter: nat, row: Bytes, prev: Bytes, x: nat)
    requires filter <= 4 && x <= |row| && x < |prev|
    ensures var (left: int, up: int) := (if x >= 4 then row[x - 4] else 0, prev[x]);
            var (upLeft: byte, p: int) := (if x >= 4 then prev[x - 4] else 0, PredictAt(filter, row, prev, x));
            && (filter == 0 ==> p == 0)
            && (filter == 1 ==> p == left)
            && (filter == 2 ==> p == up)
            && (filter == 3 ==> 2 * p <= left + up <= 2 * p + 1)
            && (filter == 4 ==> p == Paeth(left, up, upLeft))
  {
  }

  /** Each reconstructed byte is the coded byte plus its prediction, modulo 256. */
  lemma {:induction false} ReconstructedAt(filter: nat, coded: Bytes, prev: Bytes, n: nat, x: nat)
    requires x < n <= |coded|
    ensures var row := Reconstruct(filter, coded, prev, n);
            row[x] as int == (coded[x] as int + PredictAt(filter, row[..x], prev, x)) % 256
    decreases n
  {
    hide PredictAt;
    var before := Reconstruct(filter, coded, prev, n - 1);
    if x < n - 1 {
      ReconstructedAt(filter, coded, prev, n - 1, x);
      assert Reconstruct(filter, coded, prev, n)[..x] == before[..x];
    } else {
      assert Reconstruct(filter, coded, prev, n)[..x] == before;
    }
  }

  /** The big-endian word at `i`. */
  function Word(b: Bytes, i: nat): nat
    requires i + 4 <= |b|
  {
    var (b0: int, b1: int, b2: int, b3: int) := (b[i], b[i + 1], b[i + 2], b[i + 3]);
    b0 * 0x100_0000 + b1 * 0x1_0000 + b2 * 0x100 + b3
  }

  lemma Be32Digits(n: nat)
    requires n < TWO32
    ensures Word(Be32(n), 0) == n
  {
    Be32RoundTrip(n);
  }

  /** A chunk is its length, its type, its body and the checksum of both (section 3.2 of RFC 2083). */
  lemma ChunkLayout(z: Codec, c: Chunk)
    requires Encodable(c)
    ensures var (e, n) := (EncodeChunk(z, c), |c.body|);
            && |e| == n + 12 && Word(e, 0) == n && e[4..8] == c.ctype && e[8..n + 8] == c.body
            && Word(e, n + 8) == z.checksum(c.ctype + c.body) % TWO32
  {
    hide Be32;
    var (e, n) := (EncodeChunk(z, c), |c.body|);
    var crc := z.checksum(c.ctype + c.body) % TWO32;
    Be32Digits(n);
    Be32Digits(crc);
    assert e[..4] == Be32(n) && e[n + 8..] == Be32(crc);
    WordOfSlice(e, 0);
    WordOfSlice(e, n + 8);
    assert e[n + 8..n + 12] == e[n + 8..] && e[0..4] == e[..4];
  }

  lemma WordOfSlice(b: Bytes, i: nat)
    requires i + 4 <= |b|
    ensures Word(b, i) == Word(b[i..i + 4], 0)
  {
  }

  /** What one chunk contributes: a header chunk the size in its first two words, provided it is long enough
      and says eight bits and RGBA; a data chunk its body; any other chunk nothing. */
  lemma GatherMeans(g: Gathered, c: Chunk)
    ensures c.ctype == IHDR && |c.body| < 10 ==> Gather(g, c) == Failure(StructError)
    ensures c.ctype == IHDR && |c.body| >= 10 && !(c.body[8] == 8 && c.body[9] == 6) ==> Gather(g, c) == Failure(NotRgba8)
    ensures c.ctype == IHDR && |c.body| >= 10 && c.body[8] == 8 && c.body[9] == 6 ==>
              Gather(g, c) == Success(Gathered(Some((Word(c.body, 0), Word(c.body, 4))), g.idat))
    ensures c.ctype == IDAT ==> Gather(g, c) == Success(Gathered(g.size, g.idat + c.body))
    ensures c.ctype != IHDR && c.ctype != IDAT ==> Gather(g, c) == Success(g)
  {
    assert IDAT[1] != IHDR[1];
  }

  lemma {:induction false} RawRowsConcat(a: seq<Bytes>, b: seq<Bytes>)
    ensures RawRows(a + b) == RawRows(a) + RawRows(b)
    ensures |a| == 1 ==> RawRows(a) == [0] + a[0]
  {
    if a == [] {
      assert a + b == b;
    } else {
      RawRowsConcat(a[1..], b);
      assert (a + b)[1..] == a[1..] + b;
      ConcatAssociative([0] + a[0], RawRows(a[1..]), RawRows(b));
    }
  }

  /** The files written: signature, header with width before height, one data chunk, end. */
  lemma EncodedLayout(z: Codec, m: Image)
    requires Encode(z, m).Some?
    ensures var (e, idat) := (Encode(z, m).value, z.compress(RawRows(m.rows)));
            && |e| == 57 + |idat|
            && e[..8] == [0x89, 0x50, 0x4E, 0x47, 0x0D, 0x0A, 0x1A, 0x0A]
            && Word(e, 8) == 13 && e[12..16] == IHDR && Word(e, 16) == m.width && Word(e, 20) == m.height && e[24..29] == [8, 6, 0, 0, 0]
            && Word(e, 33) == |idat| && e[37..41] == IDAT && e[41..41 + |idat|] == idat
            && Word(e, 45 + |idat|) == 0 && e[49 + |idat|..53 + |idat|] == IEND
  {
    hide EncodeChunk, Be32, Header, Encode;
    var (e, idat) := (Encode(z, m).value, z.compress(RawRows(m.rows)));
    EncodedParts(z, m);
    ChunkInFile(z, e, 8, Chunk(IHDR, Header(m)));
    ChunkInFile(z, e, 33, Chunk(IDAT, idat));
    ChunkInFile(z, e, 45 + |idat|, Chunk(IEND, []));
    HeaderWords(m);
    WordOfPart(e, 16, 13, 0);
    WordOfPart(e, 16, 13, 4);
    assert e[24..29] == e[16..29][8..13];
  }

  lemma EncodedParts(z: Codec, m: Image)
    requires Encode(z, m).Some?
    ensures var (e, idat) := (Encode(z, m).value, z.compress(RawRows(m.rows)));
            && m.width < TWO32 && m.height < TWO32 && |idat| < TWO32 && |Header(m)| == 13
            && |e| == 57 + |idat| && e[..8] == SIGNATURE
            && e[8..33] == EncodeChunk(z, Chunk(IHDR, Header(m)))
            && e[33..45 + |idat|] == EncodeChunk(z, Chunk(IDAT, idat))
            && e[45 + |idat|..57 + |idat|] == EncodeChunk(z, Chunk(IEND, []))
  {
    var idat := z.compress(RawRows(m.rows));
    HeaderWords(m);
    var (a, b, c) := (EncodeChunk(z, Chunk(IHDR, Header(m))), EncodeChunk(z, Chunk(IDAT, idat)), EncodeChunk(z, Chunk(IEND, [])));
    FourParts(SIGNATURE, a, b, c);
  }

  lemma FourParts(s: Bytes, a: Bytes, b: Bytes, c: Bytes)
    ensures var (e, i, j) := (s + a + b + c, |s| + |a|, |s| + |a| + |b|);
            && |e| == j + |c| && e[..|s|] == s && e[|s|..i] == a && e[i..j] == b && e[j..] == c
  {
  }

  lemma ChunkInFile(z: Codec, e: Bytes, i: nat, c: Chunk)
    requires Encodable(c) && i + |c.body| + 12 <= |e| && e[i..i + |c.body| + 12] == EncodeChunk(z, c)
    ensures Word(e, i) == |c.body| && e[i + 4..i + 8] == c.ctype && e[i + 8..i + 8 + |c.body|] == c.body
  {
    hide EncodeChunk;
    var n := |c.body|;
    ChunkLayout(z, c);
    WordOfPart(e, i, n + 12, 0);
    SliceOfSlice(e, i, i + n + 12, 4, 8);
    SliceOfSlice(e, i, i + n + 12, 8, 8 + n);
  }

  lemma WordOfPart(e: Bytes, i: nat, n: nat, j: nat)
    requires i + n <= |e| && j + 4 <= n
    ensures Word(e, i + j) == Word(e[i..i + n], j)
  {
  }

  lemma HeaderWords(m: Image)
    requires m.width < TWO32 && m.height < TWO32
    ensures |Header(m)| == 13 && Word(Header(m), 0) == m.width && Word(Header(m), 4) == m.height && Header(m)[8..13] == [8, 6, 0, 0, 0]
  {
    hide Be32;
    var h := Header(m);
    Be32Digits(m.width);
    Be32Digits(m.height);
    assert h[0..4] == Be32(m.width) && h[4..8] == Be32(m.height);
    WordOfSlice(h, 0);
    WordOfSlice(h, 4);
  }

  /** Reads only the size of an image file. */
  function Size(data: Bytes): Result<(nat, nat)> {
    if |data| < 8 || data[..8] != SIGNATURE then Failure(NotPng)
    else if |data| < 24 then Failure(StructError)
    else Success((ReadBe32(data[16..20]), ReadBe32(data[20..24])))
  }

  /** Reading just the size of an encoded image gives its width and height. */
  lemma SizeOfEncoded(z: Codec, m: Image)
    requires Encode(z, m).Some?
    ensures Size(Encode(z, m).value) == Success((m.width, m.height))
  {
    hide Encode;
    EncodedLayout(z, m);
    var e := Encode(z, m).value;
    WordOfSlice(e, 16);
    WordOfSlice(e, 20);
  }
}
