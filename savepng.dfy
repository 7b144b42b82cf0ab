/** The integer half of savepng.c: the big-endian split of `write_be32`, the
    guards of `savepng`, the 13-byte IHDR buffer, the chunk layout of
    `write_chunk`, and the raw scanlines of filter type 0 whose bytes are the
    pixels clamped to 0..255 and rounded. zlib's `compress2` and the file
    writes are outside the model; zlib's `crc32` is the CRC-32 of the Crc
    module. */
module SavePng {
  import opened Bytes
  import opened Wrappers
  import Crc
  import opened ReadPng
  import opened Grids

  // ---------------------------------------------------------------------------
  // write_be32

  /** The four bytes `write_be32` emits for the C `int` v: `(v >> 24) & 0xFF`
      down to `v & 0xFF`. The shift of a negative int is arithmetic, which is
      the floor division Dafny's `/` performs for a positive divisor, and the
      mask is the non-negative remainder. */
  function Be32(v: int): (b: seq<byte>)
    requires IsInt32(v)
    ensures |b| == 4
  {
    [(v / 0x100_0000) % 256, (v / 0x1_0000) % 256, (v / 0x100) % 256, v % 256]
  }

  /** The four bytes of v are the base-256 digits of v modulo 2^32, so
      readpng's fold of them gives back v (ReadPng.Int32At). */
  lemma Be32Digits(v: int)
    requires IsInt32(v)
    ensures BigEndian(Be32(v)) == v % TwoTo32
  {
    var u := v % TwoTo32;
    var b := Be32(v);
    ShiftsAgreeModulo(v);
    BigEndianFour(b);
    Digits(u);
  }

  /** Shifting v or v modulo 2^32 right and masking gives the same bytes. */
  lemma ShiftsAgreeModulo(v: int)
    requires IsInt32(v)
    ensures var u := v % TwoTo32;
      (v / 0x100_0000) % 256 == u / 0x100_0000 &&
      (v / 0x1_0000) % 256 == (u / 0x1_0000) % 256 &&
      (v / 0x100) % 256 == (u / 0x100) % 256 &&
      v % 256 == u % 256
  {
    if v < 0 {
      var u := v + TwoTo32;
      NegativeModulo(v);
      NegativeShifts(v);
      ShiftByte(u / 0x100_0000, -1);
      ShiftByte(u / 0x1_0000, -0x100);
      ShiftByte(u / 0x100, -0x1_0000);
      ShiftByte(u, -0x100_0000);
    }
  }

  lemma NegativeModulo(v: int)
    requires -TwoTo31 <= v < 0
    ensures v % TwoTo32 == v + TwoTo32
  {
  }

  /** A negative v shifts to its unsigned counterpart's shift minus 2^(32 - s). */
  lemma NegativeShifts(v: int)
    requires -TwoTo31 <= v < 0
    ensures var u := v + TwoTo32;
      v / 0x100_0000 == u / 0x100_0000 - 0x100 &&
      v / 0x1_0000 == u / 0x1_0000 - 0x1_0000 &&
      v / 0x100 == u / 0x100 - 0x100_0000
  {
  }

  /** Adding a multiple of 256 keeps the low byte. */
  lemma ShiftByte(x: int, k: int)
    ensures (x + k * 256) % 256 == x % 256
  {
  }

  /** A 32-bit value is the sum of its four base-256 digits. */
  lemma Digits(u: int)
    requires 0 <= u < TwoTo32
    ensures u == (u / 0x100_0000) * 0x100_0000 + ((u / 0x1_0000) % 256) * 0x1_0000 +
                 ((u / 0x100) % 256) * 0x100 + u % 256
  {
    var q1, r0 := u / 256, u % 256;
    var q2, r1 := q1 / 256, q1 % 256;
    var q3, r2 := q2 / 256, q2 % 256;
    assert u == 256 * q1 + r0;
    assert q1 == 256 * q2 + r1;
    assert q2 == 256 * q3 + r2;
    assert u == 0x1_0000 * q2 + 256 * r1 + r0;
    assert u / 0x1_0000 == q2;
    assert u == 0x100_0000 * q3 + 0x1_0000 * r2 + 256 * r1 + r0;
    assert u / 0x100_0000 == q3;
  }

  /** Reading back what write_be32 wrote: every C `int` survives the trip. */
  lemma Be32RoundTrip(v: int)
    requires IsInt32(v)
    ensures 0 <= BigEndian(Be32(v)) < TwoTo32 && ToInt32(BigEndian(Be32(v))) == v
  {
    Be32Digits(v);
  }

  // ---------------------------------------------------------------------------
  // Chunks

  /** The bytes `write_chunk` writes: the data length, the type, the data and
      the CRC over type and data, each 32-bit field through write_be32 (the
      `uLong` CRC is first cast to a C `int`). */
  function ChunkBytes(kind: seq<byte>, data: seq<byte>): (c: seq<byte>)
    requires |kind| == 4 && |data| < TwoTo31
    ensures |c| == 12 + |data|
  {
    Be32(|data|) + kind + data + Be32(ToInt32(Crc.CrcOf(kind + data)))
  }

  /** A written chunk reads back as readpng reads chunks: its length field is
      the data length, the type and data follow, and its CRC field holds the
      CRC of type and data. */
  lemma ChunkFields(kind: seq<byte>, data: seq<byte>)
    requires |kind| == 4 && |data| < TwoTo31
    ensures var c := ChunkBytes(kind, data);
      BigEndian(c[..4]) == |data| && c[4..8] == kind && c[8..8 + |data|] == data &&
      BigEndian(c[8 + |data|..]) == Crc.CrcOf(kind + data)
  {
    var crc := Crc.CrcOf(kind + data);
    var len, sum := Be32(|data|), Be32(ToInt32(crc));
    var c := len + kind + data + sum;
    assert c == ChunkBytes(kind, data);
    assert c[..4] == len && c[4..8] == kind && c[8..8 + |data|] == data && c[8 + |data|..] == sum;
    Be32OfNatural(|data|);
    Be32OfNatural32(crc);
  }

  /** A non-negative int is its own unsigned value. */
  lemma Be32OfNatural(v: int)
    requires 0 <= v < TwoTo31
    ensures BigEndian(Be32(v)) == v
  {
    Be32Digits(v);
  }

  /** The int cast of an unsigned 32-bit value writes that value's bytes. */
  lemma Be32OfNatural32(v: int)
    requires 0 <= v < TwoTo32
    ensures BigEndian(Be32(ToInt32(v))) == v
  {
    Be32Digits(ToInt32(v));
  }

  // ---------------------------------------------------------------------------
  // IHDR

  /** The layout of `ihdr_buf`: width and height big-endian, the bit depth and
      colour type cast to `unsigned char`, then compression, filter and
      interlace methods 0. */
  function IhdrBytes(width: int, height: int, bitDepth: int, colourType: int): (b: seq<byte>)
    requires IsInt32(width) && IsInt32(height)
    ensures |b| == 13
  {
    Be32(width) + Be32(height) + [bitDepth % 256, colourType % 256, 0, 0, 0]
  }

  /** Four bytes of `ihdr_buf` from offset `at`: v big-endian. */
  method PutBe32(a: array<byte>, at: nat, v: int)
    requires IsInt32(v) && at + 4 <= a.Length
    modifies a
    ensures a[at .. at + 4] == Be32(v)
    ensures forall k :: 0 <= k < a.Length && !(at <= k < at + 4) ==> a[k] == old(a[k])
  {
    a[at] := (v / 0x100_0000) % 256;
    a[at + 1] := (v / 0x1_0000) % 256;
    a[at + 2] := (v / 0x100) % 256;
    a[at + 3] := v % 256;
  }

  /** Fill `ihdr_buf` index by index. */
  method BuildIhdr(width: int, height: int, bitDepth: int, colourType: int) returns (buf: seq<byte>)
    requires IsInt32(width) && IsInt32(height)
    ensures buf == IhdrBytes(width, height, bitDepth, colourType)
  {
    var a := new byte[13];
    PutBe32(a, 0, width);
    PutBe32(a, 4, height);
    ghost var head := a[..8];
    a[8] := bitDepth % 256;
    a[9] := colourType % 256;
    a[10] := 0;
    a[11] := 0;
    a[12] := 0;
    assert a[..8] == head == Be32(width) + Be32(height);
    assert a[..] == a[..8] + a[8..];
    buf := a[..];
  }

  /** The IHDR savepng writes for an 8-bit greyscale image passes every check
      of readpng and decodes to the same width and height. */
  lemma IhdrRoundTrip(width: int, height: int)
    requires IsInt32(width) && IsInt32(height)
    ensures ParseIhdr(13, IhdrBytes(width, height, 8, 0)) == Success(Header(width, height, 8, 0, 0, 0, 0))
  {
    var b := IhdrBytes(width, height, 8, 0);
    assert b[0..4] == Be32(width);
    assert b[4..8] == Be32(height);
    Be32RoundTrip(width);
    Be32RoundTrip(height);
  }

  // ---------------------------------------------------------------------------
  // Raw scanlines

  /** `(unsigned char)(v + 0.5)` after clamping v to 0..255: the cast
      truncates, which for the non-negative v + 0.5 is the floor. */
  function ClampRound(v: real): (b: byte)
  {
    if v < 0.0 then 0
    else if v > 255.0 then 255
    else (v + 0.5).Floor
  }

  /** A pixel inside 0..255 becomes its nearest byte, halves rounding up;
      one outside becomes the nearer end. */
  lemma ClampRoundNearest(v: real)
    ensures 0.0 <= v <= 255.0 ==> ClampRound(v) as real - 0.5 <= v < ClampRound(v) as real + 0.5
    ensures v < 0.0 ==> ClampRound(v) == 0
    ensures v > 255.0 ==> ClampRound(v) == 255
  {
  }

  /** The pixel bytes of one row: the first `width` values, clamped and rounded. */
  function PixelRow(row: seq<real>, width: nat): (r: seq<byte>)
    requires width <= |row|
    ensures |r| == width && forall x :: 0 <= x < width ==> r[x] == ClampRound(row[x])
  {
    seq(width, x requires 0 <= x < width => ClampRound(row[x]))
  }

  /** The raw image data of the first `height` rows: each scanline a filter
      byte 0 followed by the row's pixel bytes. */
  function RawData(image: seq<seq<real>>, width: nat, height: nat): (raw: seq<byte>)
    requires height <= |image| && forall y :: 0 <= y < |image| ==> width <= |image[y]|
  {
    if height == 0 then []
    else RawData(image, width, height - 1) + ([0] + PixelRow(image[height - 1], width))
  }

  /** The raw data holds (width + 1) * height bytes. */
  lemma {:induction false} RawDataLength(image: seq<seq<real>>, width: nat, height: nat)
    requires height <= |image| && forall y :: 0 <= y < |image| ==> width <= |image[y]|
    ensures |RawData(image, width, height)| == Offset(height, width)
  {
    if height > 0 {
      RawDataLength(image, width, height - 1);
      assert Offset(height, width) == Offset(height - 1, width) + width + 1;
    }
  }

  /** Scanline y of the raw data is the filter byte 0 and row y's pixel bytes. */
  lemma {:induction false} RawDataScanline(image: seq<seq<real>>, width: nat, height: nat, y: nat)
    requires height <= |image| && forall y' :: 0 <= y' < |image| ==> width <= |image[y']|
    requires y < height
    ensures Offset(y, width) + width + 1 <= |RawData(image, width, height)|
    ensures RawData(image, width, height)[Offset(y, width) .. Offset(y, width) + width + 1] ==
            [0] + PixelRow(image[y], width)
  {
    RawDataLength(image, width, height);
    RawDataLength(image, width, height - 1);
    var done := RawData(image, width, height - 1);
    if y < height - 1 {
      RawDataScanline(image, width, height - 1, y);
      RowInStream(y, height - 1, width);
      assert Offset(height - 1, width) == (height - 1) * (width + 1);
    }
  }

  /** One scanline of the raw-data construction: the filter byte 0 at offset
      `start`, then pixel x of row y at `start + 1 + x`. */
  method FillScanline(image: array2<real>, raw: array<byte>, y: nat, start: nat, width: nat,
                      ghost pixels: seq<real>, ghost before: seq<byte>)
    requires y < image.Length0 && width <= image.Length1 && width <= |pixels|
    requires forall x :: 0 <= x < width ==> image[y, x] == pixels[x]
    requires start + 1 + width <= raw.Length && raw[..start] == before
    modifies raw
    ensures raw[..start + 1 + width] == before + ([0] + PixelRow(pixels, width))
  {
    raw[start] := 0;
    ghost var row := PixelRow(pixels, width);
    var x := 0;
    while x < width
      invariant 0 <= x <= width
      invariant raw[..start + 1 + x] == before + ([0] + row[..x])
    {
      var v := image[y, x];
      raw[start + 1 + x] := ClampRound(v);
      assert row[..x + 1] == row[..x] + [ClampRound(v)];
      x := x + 1;
    }
    assert row[..width] == row;
  }

  /** The loop that fills `raw`: row y starts at y * (width + 1) with the
      filter byte 0, followed by the row's pixel bytes. */
  method BuildRaw(image: array2<real>, width: nat, height: nat) returns (raw: array<byte>)
    requires height <= image.Length0 && width <= image.Length1
    ensures fresh(raw)
    ensures raw[..] == RawData(Grid(image), width, height)
  {
    ghost var pixels := Grid(image);
    raw := new byte[Offset(height, width)];
    var y := 0;
    while y < height
      invariant 0 <= y <= height
      invariant Offset(y, width) <= raw.Length
      invariant raw[..Offset(y, width)] == RawData(pixels, width, y)
    {
      var start := Offset(y, width);
      RowInStream(y, height, width);
      OffsetNext(y, width);
      FillScanline(image, raw, y, start, width, pixels[y], RawData(pixels, width, y));
      y := y + 1;
    }
    assert raw[..] == raw[..Offset(height, width)];
  }

  // ---------------------------------------------------------------------------
  // savepng

  /** The only images savepng writes: positive dimensions, 8-bit greyscale. */
  predicate Supported(width: int, height: int, bitDepth: int, colourType: int) {
    width > 0 && height > 0 && bitDepth == 8 && colourType == 0
  }

  /** What savepng writes, in order: the signature, the IHDR chunk, an IDAT
      chunk holding zlib's compression of `raw`, and the empty IEND chunk. */
  datatype Written = Written(signature: seq<byte>, ihdrChunk: seq<byte>, raw: seq<byte>, iendChunk: seq<byte>)

  /** savepng without the file: nothing is written for a missing image or
      header, or for an unsupported header; otherwise the signature, the IHDR
      chunk for the header's fields and the raw scanlines of the image. */
  method SavePng(image: array2?<real>, ihdr: array?<int>) returns (out: Option<Written>)
    requires ihdr != null ==> ihdr.Length == 7 && forall k :: 0 <= k < 7 ==> IsInt32(ihdr[k])
    requires image != null && ihdr != null && Supported(ihdr[0], ihdr[1], ihdr[2], ihdr[3]) ==>
      ihdr[1] <= image.Length0 && ihdr[0] <= image.Length1
    ensures out.None? <==> image == null || ihdr == null || !Supported(ihdr[0], ihdr[1], ihdr[2], ihdr[3])
    ensures out.Some? ==>
      image != null && ihdr != null && Supported(ihdr[0], ihdr[1], ihdr[2], ihdr[3]) &&
      out.value == Written(Signature, ChunkBytes(IHDR, IhdrBytes(ihdr[0], ihdr[1], 8, 0)),
                           RawData(Grid(image), ihdr[0], ihdr[1]), ChunkBytes(IEND, []))
  {
    if image == null || ihdr == null {
      return None;
    }
    var width, height, bitDepth, colourType := ihdr[0], ihdr[1], ihdr[2], ihdr[3];
    if width <= 0 || height <= 0 {
      return None;
    }
    if bitDepth != 8 || colourType != 0 {
      return None;
    }
    var header := BuildIhdr(width, height, bitDepth, colourType);
    var raw := BuildRaw(image, width, height);
    out := Some(Written(Signature, ChunkBytes(IHDR, header), raw[..], ChunkBytes(IEND, [])));
  }

  /** A file savepng writes starts with the signature readpng checks for. */
  lemma SignatureAccepted(rest: seq<byte>)
    ensures SignatureOk(Signature + rest)
  {
  }

  /** The pixel bytes of the first `height` rows. */
  function PixelRows(image: seq<seq<real>>, width: nat, height: nat): (rows: seq<seq<byte>>)
    requires height <= |image| && forall y :: 0 <= y < |image| ==> width <= |image[y]|
    ensures |rows| == height && forall y :: 0 <= y < height ==> rows[y] == PixelRow(image[y], width)
  {
    seq(height, y requires 0 <= y < height => PixelRow(image[y], width))
  }

  /** The raw data savepng builds, inflated again and unfiltered by readpng
      for bit depth 8, gives back exactly the clamped and rounded pixels: every
      scanline has filter type 0, and the stream is as long as readpng reads. */
  lemma RawDataUnfilters(image: seq<seq<real>>, width: nat, height: nat)
    requires height <= |image| && forall y :: 0 <= y < |image| ==> width <= |image[y]|
    ensures RowBytes(width, 8) == width && PixelBytes(8) == 1
    ensures StreamBytes(height, width, 8) == |RawData(image, width, height)|
    ensures var lines := Scanlines(RawData(image, width, height), width, height);
      FilterTypesValid(lines) && Unfiltered(lines, width, 1) == PixelRows(image, width, height)
  {
    var raw := RawData(image, width, height);
    RawDataLength(image, width, height);
    var lines := Scanlines(raw, width, height);
    forall y | 0 <= y < height
      ensures lines[y] == [0] + PixelRow(image[y], width)
    {
      ScanlineAt(raw, width, height, y);
      RawDataScanline(image, width, height, y);
    }
    var rows := PixelRows(image, width, height);
    RowsOfFilterNone(lines, rows, width, height);
    assert rows[..height] == rows;
  }

  /** Rows of scanlines of filter type 0 are the scanlines without their filter byte. */
  lemma {:induction false} RowsOfFilterNone(lines: seq<seq<byte>>, rows: seq<seq<byte>>, width: nat, n: nat)
    requires n <= |lines| == |rows|
    requires forall y :: 0 <= y < |rows| ==> |rows[y]| == width && lines[y] == [0] + rows[y]
    ensures Uniform(lines, width) && ValidUpTo(lines, n)
    ensures Rows(lines, width, 1, n) == rows[..n]
  {
    if n > 0 {
      RowsOfFilterNone(lines, rows, width, n - 1);
      var prev := if n == 1 then Zeros(width) else rows[n - 2];
      var line := lines[n - 1];
      assert line[0] == 0 && line[1..] == rows[n - 1];
      UnfilterNone(prev, line[1..], 1, width);
      assert line[1..][..width] == line[1..];
      assert rows[..n] == rows[..n - 1] + [rows[n - 1]];
    }
  }
}
