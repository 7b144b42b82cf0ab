/** The integer half of readpng.c: the signature check, big-endian fields,
    IHDR validation, the per-chunk checks, filter reversal for filter
    method 0 (sections 9.2 and 9.4 of the PNG Specification, Second Edition)
    and the assembly of pixels from unfiltered bytes. The file cursor and
    zlib's inflate are outside the model: the inflated stream is a parameter. */
module ReadPng {
  import opened Bytes
  import opened Wrappers
  import opened Grids

  /** The eight bytes every PNG file starts with (section 5.2). */
  const Signature: seq<byte> := [137, 80, 78, 71, 13, 10, 26, 10]

  /** The two error labels of readpng: `malformed` and `notimplemented`. */
  datatype DecodeError = Malformed | NotImplemented

  // ---------------------------------------------------------------------------
  // Signature

  /** The file's first bytes, up to eight, agree with the signature. A file
      shorter than eight bytes ends the reading loop before a mismatch can be seen. */
  predicate SignatureOk(file: seq<byte>) {
    forall i :: 0 <= i < |file| && i < 8 ==> file[i] == Signature[i]
  }

  /** The first branch of the reading loop: compare byte i with signature[i]
      while i < 8 and the file has bytes left. */
  method CheckSignature(file: seq<byte>) returns (ok: bool)
    ensures ok <==> SignatureOk(file)
    ensures ok && |file| >= 8 ==> file[..8] == Signature
  {
    var i := 0;
    while i < 8 && i < |file|
      invariant 0 <= i <= 8 && i <= |file|
      invariant forall k :: 0 <= k < i ==> file[k] == Signature[k]
    {
      if file[i] != Signature[i] {
        return false;
      }
      i := i + 1;
    }
    ok := true;
  }

  // ---------------------------------------------------------------------------
  // Big-endian fields

  /** The shift-or loops over four bytes (chunk length, IHDR width and height,
      pHYs densities): `v = (v << 8) | s[j]` for j from `from` to `to - 1`. */
  method ReadBigEndian(s: seq<byte>, from: nat, to: nat) returns (v: nat)
    requires from <= to <= |s|
    ensures v == BigEndian(s[from..to])
    ensures v < Pow256(to - from)
  {
    v := 0;
    var j := from;
    while j < to
      invariant from <= j <= to
      invariant v == BigEndian(s[from..j])
    {
      assert s[from..j + 1][..j - from] == s[from..j];
      v := v * 256 + s[j];
      j := j + 1;
    }
    ghost var digits: seq<int> := s[from..to];
    forall k | 0 <= k < |digits| ensures 0 <= digits[k] < 256 {
      assert digits[k] == s[from + k];
    }
    BigEndianBound(digits);
  }

  /** A chunk length: four bytes at `pos`, most significant first. */
  method ReadChunkLength(file: seq<byte>, pos: nat) returns (length: nat)
    requires pos + 4 <= |file|
    ensures length == file[pos] as int * 0x100_0000 + file[pos + 1] as int * 0x1_0000 + file[pos + 2] as int * 0x100 + file[pos + 3]
    ensures length < TwoTo32
  {
    length := ReadBigEndian(file, pos, pos + 4);
    BigEndianFour(file[pos..pos + 4]);
    assert Pow256(4) == TwoTo32;
  }

  // ---------------------------------------------------------------------------
  // IHDR (section 11.2.2)

  /** The seven IHDR fields as readpng stores them in `ihdr[7]`; width and
      height are C `int`s, so a field of 2^31 or more reads negative. */
  datatype Header = Header(width: int, height: int, bitDepth: byte, colourType: byte,
                           compression: byte, filter: byte, interlace: byte)

  /** The signed value of four big-endian bytes. */
  function Int32At(data: seq<byte>, at: nat): (v: int)
    requires at + 4 <= |data|
    ensures IsInt32(v)
    ensures v % TwoTo32 == data[at] as int * 0x100_0000 + data[at + 1] as int * 0x1_0000 + data[at + 2] as int * 0x100 + data[at + 3]
  {
    BigEndianBound(data[at..at + 4]);
    BigEndianFour(data[at..at + 4]);
    assert Pow256(4) == TwoTo32;
    ToInt32(BigEndian(data[at..at + 4]))
  }

  /** The IHDR branch: a length other than 13 is malformed; a colour type or
      interlace method other than 0 is not implemented; a compression or filter
      method other than 0 is malformed; in that order. */
  function ParseIhdr(length: nat, data: seq<byte>): (r: Result<Header, DecodeError>)
    requires |data| == length
    ensures r == Failure(Malformed) <==>
              length != 13 || (data[9] == 0 && data[12] == 0 && (data[10] != 0 || data[11] != 0))
    ensures r == Failure(NotImplemented) <==> length == 13 && (data[9] != 0 || data[12] != 0)
    ensures r.Success? ==> r.value == Header(Int32At(data, 0), Int32At(data, 4), data[8], 0, 0, 0, 0)
  {
    if length != 13 then Failure(Malformed)
    else
      var h := Header(Int32At(data, 0), Int32At(data, 4), data[8], data[9], data[10], data[11], data[12]);
      if h.colourType != 0 || h.interlace != 0 then Failure(NotImplemented)
      else if h.compression != 0 || h.filter != 0 then Failure(Malformed)
      else Success(h)
  }

  /** The IHDR branch with its two shift-or loops. */
  method ReadIhdr(length: nat, data: seq<byte>) returns (r: Result<Header, DecodeError>)
    requires |data| == length
    ensures r == ParseIhdr(length, data)
  {
    if length != 13 {
      return Failure(Malformed);
    }
    var width := ReadBigEndian(data, 0, 4);
    var height := ReadBigEndian(data, 4, 8);
    assert Pow256(4) == TwoTo32;
    var h := Header(ToInt32(width), ToInt32(height), data[8], data[9], data[10], data[11], data[12]);
    if h.colourType != 0 || h.interlace != 0 {
      return Failure(NotImplemented);
    }
    if h.compression != 0 || h.filter != 0 {
      return Failure(Malformed);
    }
    r := Success(h);
  }

  // ---------------------------------------------------------------------------
  // Chunk dispatch

  /** The ASCII chunk types readpng distinguishes. */
  const IHDR: seq<byte> := [73, 72, 68, 82]
  const IEND: seq<byte> := [73, 69, 78, 68]
  const IDAT: seq<byte> := [73, 68, 65, 84]
  const PHYS: seq<byte> := [112, 72, 89, 115]

  /** What processing one chunk does to the decoding. */
  datatype ChunkEffect =
    | HeaderRead(header: Header)   // IHDR accepted
    | EndOfImage                   // IEND: leave the chunk loop
    | ImageData                    // IDAT: hand the data to inflate
    | Skip                         // pHYs, tEXt and every other chunk: nothing to keep
    | Fail(error: DecodeError)

  /** The chunk branches of readpng (the received CRC is never checked). */
  function ProcessChunk(kind: seq<byte>, length: nat, data: seq<byte>): (e: ChunkEffect)
    requires |kind| == 4 && |data| == length
    ensures e.Fail? && e.error == Malformed <==>
              (kind == IHDR && ParseIhdr(length, data) == Failure(Malformed)) ||
              (kind == IDAT && length == 0) ||
              (kind == PHYS && length != 9)
    ensures e.Fail? && e.error == NotImplemented <==>
              kind == IHDR && ParseIhdr(length, data) == Failure(NotImplemented)
    ensures e == EndOfImage <==> kind == IEND
    ensures e.HeaderRead? <==> kind == IHDR && ParseIhdr(length, data).Success?
  {
    if kind == IHDR then
      match ParseIhdr(length, data)
      case Success(h) => HeaderRead(h)
      case Failure(err) => Fail(err)
    else if kind == IEND then EndOfImage
    else if kind == IDAT then (if length == 0 then Fail(Malformed) else ImageData)
    else if kind == PHYS then (if length != 9 then Fail(Malformed) else Skip)
    else Skip
  }

  // ---------------------------------------------------------------------------
  // Filter reversal (sections 9.2 and 9.4)

  function Abs(x: int): nat {
    if x < 0 then -x else x
  }

  /** The Paeth predictor: of a (left), b (up) and c (upper left), the one
      closest to p = a + b - c, preferring a, then b, then c on ties. */
  function Paeth(a: int, b: int, c: int): (r: int)
    ensures r == a || r == b || r == c
  {
    var p := a + b - c;
    var pa := Abs(p - a);
    var pb := Abs(p - b);
    var pc := Abs(p - c);
    if pa <= pb && pa <= pc then a
    else if pb <= pc then b
    else c
  }

  /** The Paeth predictor is the neighbour nearest to the initial estimate
      a + b - c, and ties go to a, then to b. */
  lemma PaethNearest(a: int, b: int, c: int)
    ensures var p, r := a + b - c, Paeth(a, b, c);
      Abs(p - r) <= Abs(p - a) && Abs(p - r) <= Abs(p - b) && Abs(p - r) <= Abs(p - c)
    ensures var p, r := a + b - c, Paeth(a, b, c);
      (Abs(p - a) == Abs(p - r) ==> r == a) &&
      (Abs(p - b) == Abs(p - r) && Abs(p - a) > Abs(p - r) ==> r == b)
  {
  }

  /** The amount filter type ft (1 to 4) adds back to a filtered byte, from
      the reconstructed neighbours: a left, b up, c upper left. The average is
      C's truncating division, which equals the floor for the non-negative bytes here. */
  function Predictor(ft: int, a: byte, b: byte, c: byte): (v: byte)
    requires 1 <= ft <= 4
  {
    if ft == 1 then a
    else if ft == 2 then b
    else if ft == 3 then (a + b) / 2
    else Paeth(a, b, c)
  }

  /** The reconstructed byte for filtered byte x: a copy for type 0, else
      x plus the predictor, modulo 256. */
  function Recon(ft: int, x: byte, a: byte, b: byte, c: byte): byte
    requires 0 <= ft <= 4
  {
    if ft == 0 then x else (x + Predictor(ft, a, b, c)) % 256
  }

  /** The first n reconstructed bytes of a scanline `line` whose filter type is
      ft, below the reconstructed row `prev` (all zeros for the first row).
      A neighbour left of the scanline's start reads as 0. */
  function UnfilterRow(prev: seq<byte>, line: seq<byte>, ft: int, bpp: nat, n: nat): (row: seq<byte>)
    requires |line| == |prev| && n <= |line|
    requires n == 0 || (0 <= ft <= 4 && bpp >= 1)
    ensures |row| == n
    decreases n
  {
    if n == 0 then []
    else
      var done := UnfilterRow(prev, line, ft, bpp, n - 1);
      var x := n - 1;
      var a: byte := if x >= bpp then done[x - bpp] else 0;
      var c: byte := if x >= bpp then prev[x - bpp] else 0;
      done + [Recon(ft, line[x], a, prev[x], c)]
  }

  /** Filter type 0 leaves the bytes as they are. */
  lemma {:induction false} UnfilterNone(prev: seq<byte>, line: seq<byte>, bpp: nat, n: nat)
    requires |line| == |prev| && n <= |line| && bpp >= 1
    ensures UnfilterRow(prev, line, 0, bpp, n) == line[..n]
  {
    if n > 0 {
      UnfilterNone(prev, line, bpp, n - 1);
      assert line[..n] == line[..n - 1] + [line[n - 1]];
    }
  }

  /** One more reconstructed byte extends the row by its Recon value. */
  lemma UnfilterRowStep(prev: seq<byte>, line: seq<byte>, ft: int, bpp: nat, n: nat)
    requires |line| == |prev| && 1 <= n <= |line| && 0 <= ft <= 4 && bpp >= 1
    ensures var done := UnfilterRow(prev, line, ft, bpp, n - 1);
      var x := n - 1;
      UnfilterRow(prev, line, ft, bpp, n) ==
        done + [Recon(ft, line[x], if x >= bpp then done[x - bpp] else 0, prev[x],
                      if x >= bpp then prev[x - bpp] else 0)]
  {
  }

  /** Bytes per scanline (without its filter byte) and bytes per pixel, as
      readpng computes them from the width and the bit depth. */
  function RowBytes(width: nat, bitDepth: nat): nat {
    (width * bitDepth + 7) / 8
  }

  function PixelBytes(bitDepth: nat): nat {
    (bitDepth + 7) / 8
  }

  lemma RowBytesPositive(width: nat, bitDepth: nat)
    requires RowBytes(width, bitDepth) >= 1
    ensures PixelBytes(bitDepth) >= 1
  {
  }

  /** Row i of the inflated stream fits in it. */
  lemma RowInStream(i: nat, height: nat, w: nat)
    requires i < height
    ensures i * (w + 1) + w + 1 <= height * (w + 1)
  {
    MulMonotone(i + 1, height, w + 1);
    assert (i + 1) * (w + 1) == i * (w + 1) + w + 1;
  }

  lemma MulMonotone(a: nat, b: nat, c: nat)
    requires a <= b
    ensures a * c <= b * c
  {
  }

  /** The inflated stream cut into its h scanlines of w + 1 bytes: scanline i
      starts at offset i * (w + 1) with its filter type byte. */
  function Scanlines(data: seq<byte>, w: nat, h: nat): (lines: seq<seq<byte>>)
    requires h * (w + 1) <= |data|
    ensures |lines| == h
    ensures Uniform(lines, w)
  {
    seq(h, i requires 0 <= i < h => Scanline(data, w, h, i))
  }

  /** Scanline i of the inflated stream: its w + 1 bytes from offset i * (w + 1). */
  function Scanline(data: seq<byte>, w: nat, h: nat, i: nat): (line: seq<byte>)
    requires h * (w + 1) <= |data| && i < h
    ensures |line| == w + 1
  {
    RowInStream(i, h, w);
    var start := i * (w + 1);
    data[start .. start + w + 1]
  }

  /** The offset of scanline i in the stream. */
  function Offset(i: nat, w: nat): nat {
    i * (w + 1)
  }

  /** Consecutive scanlines are w + 1 bytes apart. */
  lemma OffsetNext(i: nat, w: nat)
    ensures Offset(i + 1, w) == Offset(i, w) + w + 1
  {
  }

  /** Scanline i is the slice of the stream from offset Offset(i, w). */
  lemma ScanlineAt(data: seq<byte>, w: nat, h: nat, i: nat)
    requires h * (w + 1) <= |data| && i < h
    ensures Offset(i, w) + w + 1 <= |data|
    ensures Scanlines(data, w, h)[i] == data[Offset(i, w) .. Offset(i, w) + w + 1]
    ensures Scanlines(data, w, h)[i][0] == data[Offset(i, w)]
    ensures Scanlines(data, w, h)[i][1..] == data[Offset(i, w) + 1 .. Offset(i, w) + w + 1]
  {
    RowInStream(i, h, w);
  }

  /** Each of the first n scanlines has a filter type of at most 4; a
      scanline without pixel bytes never has its type examined. */
  predicate ValidUpTo(lines: seq<seq<byte>>, n: nat)
    requires n <= |lines|
  {
    forall i :: 0 <= i < n ==> |lines[i]| <= 1 || lines[i][0] <= 4
  }

  predicate FilterTypesValid(lines: seq<seq<byte>>) {
    ValidUpTo(lines, |lines|)
  }

  /** The scanlines all hold w + 1 bytes. */
  predicate Uniform(lines: seq<seq<byte>>, w: nat) {
    forall i :: 0 <= i < |lines| ==> |lines[i]| == w + 1
  }

  function Zeros(w: nat): (z: seq<byte>)
    ensures |z| == w && forall k :: 0 <= k < w ==> z[k] == 0
  {
    seq(w, _ => 0)
  }

  /** The first n reconstructed rows, top to bottom: each scanline is
      unfiltered against the row above it, the first one against zeros. */
  function Rows(lines: seq<seq<byte>>, w: nat, bpp: nat, n: nat): (image: seq<seq<byte>>)
    requires n <= |lines| && Uniform(lines, w) && ValidUpTo(lines, n)
    requires w == 0 || bpp >= 1
    ensures |image| == n
    ensures forall i :: 0 <= i < n ==> |image[i]| == w
  {
    if n == 0 then []
    else
      var done := Rows(lines, w, bpp, n - 1);
      var prev := if n == 1 then Zeros(w) else done[n - 2];
      done + [UnfilterRow(prev, lines[n - 1][1..], lines[n - 1][0], bpp, w)]
  }

  /** The reconstructed image: one row per scanline. */
  function Unfiltered(lines: seq<seq<byte>>, w: nat, bpp: nat): (image: seq<seq<byte>>)
    requires Uniform(lines, w) && FilterTypesValid(lines)
    requires w == 0 || bpp >= 1
  {
    Rows(lines, w, bpp, |lines|)
  }

  /** The number of inflated bytes the unfiltering loop reads: a filter byte
      and RowBytes bytes for each of the height scanlines. */
  function StreamBytes(height: nat, width: nat, bitDepth: nat): nat {
    height * (RowBytes(width, bitDepth) + 1)
  }

  /** The switch on the filter type for one byte: byte x of row i is the
      filtered byte k plus its predictor from the left, upper and upper-left
      neighbours already in `u` (0 outside the image), modulo 256. A filter
      type above 4 fails. */
  method ReconstructByte(u: array2<int>, i: nat, x: nat, bpp: nat, ft: byte, k: byte)
    returns (ok: bool, v: int)
    requires i < u.Length0 && x < u.Length1 && bpp >= 1
    requires x >= bpp ==> 0 <= u[i, x - bpp] < 256
    requires i > 0 ==> 0 <= u[i - 1, x] < 256
    requires i > 0 && x >= bpp ==> 0 <= u[i - 1, x - bpp] < 256
    ensures ok <==> ft <= 4
    ensures ok ==> v == Recon(ft, k,
      if x >= bpp then u[i, x - bpp] else 0,
      if i > 0 then u[i - 1, x] else 0,
      if i > 0 && x >= bpp then u[i - 1, x - bpp] else 0)
  {
    ok := true;
    if ft == 0 {
      v := k;
    } else if ft == 1 {
      v := (k + (if x - bpp < 0 then 0 else u[i, x - bpp])) % 256;
    } else if ft == 2 {
      v := (k + (if i == 0 then 0 else u[i - 1, x])) % 256;
    } else if ft == 3 {
      var left, up := 0, 0;
      if x - bpp >= 0 {
        left := u[i, x - bpp];
      }
      if i > 0 {
        up := u[i - 1, x];
      }
      v := (k + (left + up) / 2) % 256;
    } else if ft == 4 {
      var left, up, upLeft := 0, 0, 0;
      if x - bpp >= 0 {
        left := u[i, x - bpp];
      }
      if i > 0 {
        up := u[i - 1, x];
      }
      if i > 0 && x - bpp >= 0 {
        upLeft := u[i - 1, x - bpp];
      }
      v := (k + Paeth(left, up, upLeft)) % 256;
    } else {
      ok, v := false, 0;
    }
  }

  /** The inner loop of the unfiltering: reconstruct the w bytes of the
      scanline at offset `base` of the stream, whose filter type byte ft the
      caller has read, into row i of `unfiltered`; row i - 1 holds the
      previous reconstructed row. An invalid filter type is noticed at the
      first byte. */
  method UnfilterScanline(data: seq<byte>, base: nat, ft: byte, unfiltered: array2<int>,
                          i: nat, w: nat, bpp: nat, ghost prev: seq<byte>)
    returns (ok: bool)
    requires base + w + 1 <= |data| && data[base] == ft
    requires i < unfiltered.Length0 && unfiltered.Length1 == w && |prev| == w
    requires w == 0 || bpp >= 1
    requires i == 0 ==> prev == Zeros(w)
    requires i > 0 ==> forall x :: 0 <= x < w ==> unfiltered[i - 1, x] == prev[x]
    modifies unfiltered
    ensures ok <==> w == 0 || ft <= 4
    ensures ok ==> forall x :: 0 <= x < w ==>
      unfiltered[i, x] == UnfilterRow(prev, data[base + 1 .. base + w + 1], ft, bpp, w)[x]
    ensures forall i', x :: 0 <= i' < unfiltered.Length0 && i' != i && 0 <= x < w ==>
      unfiltered[i', x] == old(unfiltered[i', x])
  {
    ghost var line := data[base + 1 .. base + w + 1];
    var j := 1;
    while j <= w
      invariant 1 <= j <= w + 1
      invariant j > 1 ==> ft <= 4
      invariant forall x :: 0 <= x < j - 1 ==>
        unfiltered[i, x] == UnfilterRow(prev, line, ft, bpp, j - 1)[x]
      invariant forall i', x :: 0 <= i' < unfiltered.Length0 && i' != i && 0 <= x < w ==>
        unfiltered[i', x] == old(unfiltered[i', x])
    {
      var k := data[base + j];
      assert k == line[j - 1];
      ghost var done := UnfilterRow(prev, line, ft, bpp, j - 1);
      assert j - 1 >= bpp ==> unfiltered[i, j - 1 - bpp] == done[j - 1 - bpp];
      assert i > 0 ==> unfiltered[i - 1, j - 1] == prev[j - 1];
      assert i > 0 && j - 1 >= bpp ==> unfiltered[i - 1, j - 1 - bpp] == prev[j - 1 - bpp];
      var good, v := ReconstructByte(unfiltered, i, j - 1, bpp, ft, k);
      if !good {
        return false;
      }
      UnfilterRowStep(prev, line, ft, bpp, j);
      unfiltered[i, j - 1] := v;
      j := j + 1;
    }
    ok := true;
  }

  /** `lines` are the consecutive scanlines of w + 1 bytes at the start of
      the stream. */
  predicate CutInto(data: seq<byte>, w: nat, lines: seq<seq<byte>>) {
    Uniform(lines, w) &&
    forall i {:trigger Offset(i, w)} :: 0 <= i < |lines| ==>
      Offset(i, w) + w + 1 <= |data| && lines[i] == data[Offset(i, w) .. Offset(i, w) + w + 1]
  }

  lemma ScanlinesCut(data: seq<byte>, w: nat, h: nat)
    requires h * (w + 1) <= |data|
    ensures CutInto(data, w, Scanlines(data, w, h))
  {
    forall i | 0 <= i < h
      ensures Offset(i, w) + w + 1 <= |data|
      ensures Scanlines(data, w, h)[i] == data[Offset(i, w) .. Offset(i, w) + w + 1]
    {
      ScanlineAt(data, w, h, i);
    }
  }

  /** Scanline i of the stream: its filter type at Offset(i, w), its w
      filtered bytes right after. */
  lemma ScanlineInStream(data: seq<byte>, w: nat, lines: seq<seq<byte>>, i: nat)
    requires CutInto(data, w, lines) && i < |lines|
    ensures Offset(i, w) + w + 1 <= |data|
    ensures lines[i][0] == data[Offset(i, w)]
    ensures lines[i][1..] == data[Offset(i, w) + 1 .. Offset(i, w) + w + 1]
  {
    var base := Offset(i, w);
    assert lines[i] == data[base .. base + w + 1];
  }

  /** One more scanline with a valid filter type extends the reconstructed
      rows by that scanline unfiltered against the last row. */
  lemma RowsNext(lines: seq<seq<byte>>, w: nat, bpp: nat, i: nat)
    requires Uniform(lines, w) && i < |lines| && ValidUpTo(lines, i) && (w == 0 || bpp >= 1)
    requires w == 0 || lines[i][0] <= 4
    ensures ValidUpTo(lines, i + 1)
    ensures Rows(lines, w, bpp, i + 1) == Rows(lines, w, bpp, i) +
      [UnfilterRow(if i == 0 then Zeros(w) else Rows(lines, w, bpp, i)[i - 1], lines[i][1..], lines[i][0], bpp, w)]
  {
  }

  /** One iteration of the unfiltering loop: scanline i into row i of
      `unfiltered`, against the row above it; false for a filter type above 4. */
  method UnfilterRowAt(data: seq<byte>, w: nat, bpp: nat, ghost lines: seq<seq<byte>>,
                       unfiltered: array2<int>, i: nat, ghost rows: seq<seq<byte>>)
    returns (ok: bool)
    requires CutInto(data, w, lines) && i < |lines| && (w == 0 || bpp >= 1)
    requires unfiltered.Length0 == |lines| && unfiltered.Length1 == w
    requires ValidUpTo(lines, i) && rows == Rows(lines, w, bpp, i)
    requires forall i', x :: 0 <= i' < i && 0 <= x < w ==> unfiltered[i', x] == rows[i'][x]
    modifies unfiltered
    ensures ok <==> ValidUpTo(lines, i + 1)
    ensures ok ==> forall i', x :: 0 <= i' <= i && 0 <= x < w ==>
      unfiltered[i', x] == Rows(lines, w, bpp, i + 1)[i'][x]
  {
    ghost var prev := if i == 0 then Zeros(w) else rows[i - 1];
    var base := Offset(i, w);
    ScanlineInStream(data, w, lines, i);
    var ft := data[base];
    ok := UnfilterScanline(data, base, ft, unfiltered, i, w, bpp, prev);
    if ok {
      RowsNext(lines, w, bpp, i);
    }
  }

  /** The unfiltering loop of readpng: reconstruct every scanline of w
      bytes, top to bottom, into a fresh `unfiltered` array of one row per
      scanline. A filter type above 4 is malformed. */
  method UnfilterRows(data: seq<byte>, height: nat, w: nat, bpp: nat, ghost lines: seq<seq<byte>>)
    returns (r: Result<array2<int>, DecodeError>)
    requires CutInto(data, w, lines) && |lines| == height && (w == 0 || bpp >= 1)
    ensures r.Failure? <==> !FilterTypesValid(lines)
    ensures r.Failure? ==> r.error == Malformed
    ensures r.Success? ==>
      fresh(r.value) && r.value.Length0 == height && r.value.Length1 == w &&
      Grid(r.value) == Unfiltered(lines, w, bpp)
  {
    ghost var rows: seq<seq<byte>> := [];
    var unfiltered := new int[height, w];
    var i := 0;
    while i < height
      invariant 0 <= i <= height
      invariant ValidUpTo(lines, i)
      invariant rows == Rows(lines, w, bpp, i)
      invariant forall i', x :: 0 <= i' < i && 0 <= x < w ==> unfiltered[i', x] == rows[i'][x]
    {
      var ok := UnfilterRowAt(data, w, bpp, lines, unfiltered, i, rows);
      if !ok {
        return Failure(Malformed);
      }
      rows := Rows(lines, w, bpp, i + 1);
      i := i + 1;
    }
    r := Success(unfiltered);
    forall i' | 0 <= i' < height ensures Grid(unfiltered)[i'] == rows[i'] {
      assert |Grid(unfiltered)[i']| == w;
    }
  }

  /** Unfiltering of an image of the given width and bit depth: scanlines of
      RowBytes bytes, neighbours PixelBytes bytes to the left. */
  method Unfilter(data: seq<byte>, height: nat, width: nat, bitDepth: nat)
    returns (r: Result<array2<int>, DecodeError>)
    requires StreamBytes(height, width, bitDepth) <= |data|
    ensures r.Failure? <==> !FilterTypesValid(Scanlines(data, RowBytes(width, bitDepth), height))
    ensures r.Failure? ==> r.error == Malformed
    ensures r.Success? ==>
      var w := RowBytes(width, bitDepth);
      var lines := Scanlines(data, w, height);
      fresh(r.value) && r.value.Length0 == height && r.value.Length1 == w &&
      FilterTypesValid(lines) && (w == 0 || PixelBytes(bitDepth) >= 1) &&
      Grid(r.value) == Unfiltered(lines, w, PixelBytes(bitDepth))
  {
    var bpp := PixelBytes(bitDepth);
    var w := RowBytes(width, bitDepth);
    if w >= 1 {
      RowBytesPositive(width, bitDepth);
    }
    ScanlinesCut(data, w, height);
    r := UnfilterRows(data, height, w, bpp, Scanlines(data, w, height));
  }

  /** The filter an encoder applies (section 9.2): each byte minus its
      predictor, modulo 256, the predictor taken from the original bytes. */
  function FilterByte(ft: int, x: byte, a: byte, b: byte, c: byte): byte
    requires 0 <= ft <= 4
  {
    if ft == 0 then x else (x - Predictor(ft, a, b, c)) % 256
  }

  /** Reconstruction undoes filtering, byte by byte. */
  lemma ReconFilterByte(ft: int, x: byte, a: byte, b: byte, c: byte)
    requires 0 <= ft <= 4
    ensures Recon(ft, FilterByte(ft, x, a, b, c), a, b, c) == x
  {
    if ft != 0 {
      var p := Predictor(ft, a, b, c);
      var f := (x - p) % 256;
      assert x - p == 256 * ((x - p) / 256) + f;
      assert f + p == x - 256 * ((x - p) / 256);
    }
  }

  /** A scanline `raw` filtered with type ft against the row above it. */
  function FilterRow(prev: seq<byte>, raw: seq<byte>, ft: int, bpp: nat): (line: seq<byte>)
    requires |raw| == |prev| && 0 <= ft <= 4 && bpp >= 1
    ensures |line| == |raw|
    ensures forall x :: 0 <= x < |raw| ==>
      line[x] == FilterByte(ft, raw[x], if x >= bpp then raw[x - bpp] else 0, prev[x],
                            if x >= bpp then prev[x - bpp] else 0)
  {
    seq(|raw|, x requires 0 <= x < |raw| =>
      FilterByte(ft, raw[x], if x >= bpp then raw[x - bpp] else 0, prev[x],
                 if x >= bpp then prev[x - bpp] else 0))
  }

  /** Unfiltering a filtered scanline gives back the original bytes, for every
      filter type and every row above. */
  lemma {:induction false} UnfilterFilterRow(prev: seq<byte>, raw: seq<byte>, ft: int, bpp: nat, n: nat)
    requires |raw| == |prev| && 0 <= ft <= 4 && bpp >= 1 && n <= |raw|
    ensures UnfilterRow(prev, FilterRow(prev, raw, ft, bpp), ft, bpp, n) == raw[..n]
  {
    if n > 0 {
      UnfilterFilterRow(prev, raw, ft, bpp, n - 1);
      UnfilterFilterStep(prev, raw, FilterRow(prev, raw, ft, bpp), ft, bpp, n);
    }
  }

  /** One byte of the round trip: once the first n - 1 bytes are back, so is byte n - 1. */
  lemma UnfilterFilterStep(prev: seq<byte>, raw: seq<byte>, line: seq<byte>, ft: int, bpp: nat, n: nat)
    requires |raw| == |prev| && 0 <= ft <= 4 && bpp >= 1 && 1 <= n <= |raw|
    requires line == FilterRow(prev, raw, ft, bpp)
    requires UnfilterRow(prev, line, ft, bpp, n - 1) == raw[..n - 1]
    ensures UnfilterRow(prev, line, ft, bpp, n) == raw[..n]
  {
    var x := n - 1;
    var a: byte := if x >= bpp then raw[x - bpp] else 0;
    var c: byte := if x >= bpp then prev[x - bpp] else 0;
    ReconFilterByte(ft, raw[x], a, prev[x], c);
    UnfilterRowStep(prev, line, ft, bpp, n);
    assert raw[..n] == raw[..x] + [raw[x]];
  }

  // ---------------------------------------------------------------------------
  // Pixel assembly

  /** Where sample j starts in a row of samples of n bytes. */
  function SampleStart(j: nat, n: nat): nat {
    j * n
  }

  /** Sample j of a reconstructed row: its n bytes, most significant first.
      readpng takes n = bitDepth / 8, so below a bit depth of 8 every sample
      is the empty fold, 0. */
  function Sample(row: seq<int>, j: nat, n: nat): int
    requires SampleStart(j, n) + n <= |row|
  {
    BigEndian(row[SampleStart(j, n) .. SampleStart(j, n) + n])
  }

  /** Every sample of a pixel of width `width` lies inside its row of RowBytes bytes. */
  lemma SampleInRow(j: nat, width: nat, bitDepth: nat)
    requires j < width
    ensures SampleStart(j, bitDepth / 8) + bitDepth / 8 <= RowBytes(width, bitDepth)
  {
    var n := bitDepth / 8;
    MulMonotone(j + 1, width, n);
    assert (j + 1) * n == j * n + n;
    assert 8 * n <= bitDepth;
    assert width * (8 * n) <= width * bitDepth by { MulMonotoneLeft(width, 8 * n, bitDepth); }
    assert width * n * 8 == width * (8 * n);
  }

  lemma MulMonotoneLeft(a: nat, b: nat, c: nat)
    requires b <= c
    ensures a * b <= a * c
  {
  }

  /** With a bit depth of 8 a pixel is its byte. */
  lemma SampleEight(row: seq<int>, j: nat)
    requires j < |row|
    ensures SampleStart(j, 1) + 1 <= |row| && Sample(row, j, 1) == row[j]
  {
    var s := row[j .. j + 1];
    assert SampleStart(j, 1) == j;
    assert s[..0] == [];
    assert BigEndian(s) == s[0];
  }

  /** With a bit depth of 16 a pixel is its two bytes, high byte first. */
  lemma SampleSixteen(row: seq<int>, j: nat)
    requires 2 * j + 2 <= |row|
    ensures SampleStart(j, 2) + 2 <= |row| && Sample(row, j, 2) == row[2 * j] * 256 + row[2 * j + 1]
  {
    var s := row[2 * j .. 2 * j + 2];
    assert SampleStart(j, 2) == 2 * j;
    assert s[..1][..0] == [];
    assert BigEndian(s[..1]) == s[0];
    assert BigEndian(s) == s[0] * 256 + s[1];
  }

  /** Bytes assemble to a sample below 256^n: 0 to 2^bitDepth - 1 for the
      whole-byte depths. */
  lemma SampleBound(row: seq<int>, j: nat, n: nat)
    requires SampleStart(j, n) + n <= |row|
    requires forall k :: 0 <= k < |row| ==> 0 <= row[k] < 256
    ensures 0 <= Sample(row, j, n) < Pow256(n)
  {
    BigEndianBound(row[SampleStart(j, n) .. SampleStart(j, n) + n]);
  }

  /** Below a bit depth of 8 readpng assembles no byte at all: every pixel is 0. */
  lemma SubByteDepthGivesZero(row: seq<int>, j: nat, bitDepth: nat)
    requires bitDepth < 8
    ensures SampleStart(j, bitDepth / 8) + bitDepth / 8 <= |row|
    ensures Sample(row, j, bitDepth / 8) == 0
  {
    assert bitDepth / 8 == 0;
    assert SampleStart(j, 0) == 0;
    assert row[0..0] == [];
  }

  /** The innermost loop of the pixel assembly: `array[i][j] = (array[i][j]
      << 8) | unfiltered[i][start + z]` for z below n, from the zero calloc
      left there. Each byte is below 256, so the or fills the eight bits the
      shift cleared. */
  method AssembleSample(u: array2<int>, i: nat, start: nat, n: nat) returns (v: int)
    requires i < u.Length0 && start + n <= u.Length1
    requires forall r, x :: 0 <= r < u.Length0 && 0 <= x < u.Length1 ==> 0 <= u[r, x] < 256
    ensures v == BigEndian(Grid(u)[i][start .. start + n])
    ensures 0 <= v < Pow256(n)
  {
    ghost var row := Grid(u)[i];
    v := 0;
    var z := 0;
    while z < n
      invariant 0 <= z <= n
      invariant v == BigEndian(row[start .. start + z])
    {
      assert row[start .. start + z + 1][..z] == row[start .. start + z];
      v := v * 256 + u[i, start + z];
      z := z + 1;
    }
    assert row[start .. start + n] == Grid(u)[i][start .. start + n];
    BigEndianBound(row[start .. start + n]);
  }

  /** Row i of the pixel assembly: pixel (i, j) is sample j of unfiltered row i. */
  method AssembleRow(u: array2<int>, pixels: array2<int>, i: nat, width: nat, bitDepth: nat, ghost row: seq<int>)
    requires u != pixels && i < u.Length0 && i < pixels.Length0 && pixels.Length1 == width
    requires u.Length1 == RowBytes(width, bitDepth) && row == Grid(u)[i]
    requires forall r, x :: 0 <= r < u.Length0 && 0 <= x < u.Length1 ==> 0 <= u[r, x] < 256
    modifies pixels
    ensures forall j :: 0 <= j < width ==>
      SampleStart(j, bitDepth / 8) + bitDepth / 8 <= |row| && pixels[i, j] == Sample(row, j, bitDepth / 8)
    ensures forall i', j :: 0 <= i' < pixels.Length0 && i' != i && 0 <= j < width ==> pixels[i', j] == old(pixels[i', j])
  {
    var n := bitDepth / 8;
    var j := 0;
    while j < width
      invariant 0 <= j <= width
      invariant forall i', j' :: 0 <= i' < pixels.Length0 && i' != i && 0 <= j' < width ==> pixels[i', j'] == old(pixels[i', j'])
      invariant forall j' :: 0 <= j' < j ==> SampleStart(j', n) + n <= |row| && pixels[i, j'] == Sample(row, j', n)
    {
      SampleInRow(j, width, bitDepth);
      pixels[i, j] := AssembleSample(u, i, SampleStart(j, n), n);
      j := j + 1;
    }
  }

  /** The pixel assembly of readpng: a fresh height by width array whose
      pixel (i, j) is sample j of unfiltered row i. */
  method AssemblePixels(u: array2<int>, width: nat, bitDepth: nat) returns (pixels: array2<int>)
    requires u.Length1 == RowBytes(width, bitDepth)
    requires forall r, x :: 0 <= r < u.Length0 && 0 <= x < u.Length1 ==> 0 <= u[r, x] < 256
    ensures fresh(pixels) && pixels.Length0 == u.Length0 && pixels.Length1 == width
    ensures forall i, j :: 0 <= i < u.Length0 && 0 <= j < width ==>
      SampleStart(j, bitDepth / 8) + bitDepth / 8 <= |Grid(u)[i]| &&
      pixels[i, j] == Sample(Grid(u)[i], j, bitDepth / 8)
  {
    ghost var rows := Grid(u);
    ghost var n := bitDepth / 8;
    pixels := new int[u.Length0, width];
    var i := 0;
    while i < u.Length0
      invariant 0 <= i <= u.Length0
      invariant forall i', j :: 0 <= i' < i && 0 <= j < width ==>
        SampleStart(j, n) + n <= |rows[i']| && pixels[i', j] == Sample(rows[i'], j, n)
    {
      AssembleRow(u, pixels, i, width, bitDepth, rows[i]);
      i := i + 1;
    }
  }

  // ---------------------------------------------------------------------------
  // The size of the inflate buffer

  /** The buffer readpng allocates for the inflated stream, and hands to
      inflate as `avail_out`: `height * (width + 1) * bitDepth / 8`, in C
      int arithmetic evaluated left to right. */
  function AllocatedBytes(height: nat, width: nat, bitDepth: nat): nat {
    height * (width + 1) * bitDepth / 8
  }

  /** For a bit depth of 1 the buffer is smaller than the stream the
      unfiltering loop reads: one 8-pixel row needs 2 bytes, 1 is allocated. */
  lemma AllocationTooSmallForOneBit()
    ensures AllocatedBytes(1, 8, 1) == 1 && StreamBytes(1, 8, 1) == 2
    ensures AllocatedBytes(1, 8, 1) < StreamBytes(1, 8, 1)
  {
  }

  /** For bit depths 8 and 16 the allocation is large enough. */
  lemma AllocationSufficesForWholeBytes(height: nat, width: nat, bitDepth: nat)
    requires bitDepth == 8 || bitDepth == 16
    ensures StreamBytes(height, width, bitDepth) <= AllocatedBytes(height, width, bitDepth)
  {
    var m := bitDepth / 8;
    assert RowBytes(width, bitDepth) == width * m;
    assert height * (width + 1) * bitDepth == 8 * (height * (width + 1) * m);
    assert (width * m + 1) <= (width + 1) * m;
    MulMonotoneLeft(height, width * m + 1, (width + 1) * m);
  }

  /** The corrected buffer of StreamBytes bytes holds every byte the
      unfiltering loop reads: byte j of scanline i, filter byte included. */
  lemma StreamBytesCoverScanlines(height: nat, width: nat, bitDepth: nat, i: nat, j: nat)
    requires i < height && j <= RowBytes(width, bitDepth)
    ensures Offset(i, RowBytes(width, bitDepth)) + j < StreamBytes(height, width, bitDepth)
  {
    RowInStream(i, height, RowBytes(width, bitDepth));
  }
}
