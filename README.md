# SVD image compression: a Dafny model of its exact core

The tool reads an 8-bit greyscale PNG and computes a singular value
decomposition A = U·S·Vᵗ of the pixel matrix. It rebuilds a rank-k
approximation from the first k singular triples and writes the result back as
a PNG. This project models the parts of that pipeline that are exact in
integer or real arithmetic, and proves properties about them.

- **PNG reading** (`readpng.dfy`, `crc.dfy`, `bytes.dfy`):
  - the CRC-32 table and its running update;
  - the signature check;
  - big-endian chunk lengths and the IHDR fields, with the header's error cases;
  - the per-chunk checks;
  - reversal of the five scanline filters of filter method 0;
  - assembly of pixel samples from the unfiltered bytes.
- **PNG writing** (`savepng.dfy`):
  - the big-endian split of `write_be32`;
  - the chunk layout;
  - the guards of `savepng`;
  - the 13-byte IHDR buffer;
  - the raw scanlines with filter type 0 and clamp-and-round of each pixel.
- **Matrix helpers** (`matrix.dfy`, `jacobi.dfy`):
  - `multiply`, `transpose`, `normalize` and `frobenius_norm`;
  - from `jacobi`: the identity start, the pivot search, one rotation step with c and s taken as given, the extraction of eigenvalues and the final normalisation of eigenvector columns.
- **SVD assembly** (`svd.dfy`):
  - the stable descending bubble sort of eigenpairs;
  - V as a copy of the sorted eigenvectors;
  - the layout of S;
  - the first min(m, n) columns of U computed from A, V and S;
  - modified Gram–Schmidt with its unit-vector fallback;
  - completion of U by projected standard-basis seeds.
- **Low-rank approximation** (`lra.dfy`): the guards of `low_rank_approx`, the clamping of k, and the rank-k outer-product accumulation. It is proved equal both to the sum of k rank-one terms and to the product of the leading blocks of U, S and Vᵗ.

**How values are modelled**

- Doubles are modelled as Dafny `real`.
- `sqrt` is a parameter. It is constrained only by "for x ≥ 0 the result is ≥ 0 and its square is x" (`Matrix.IsSqrt`).
- The IHDR width and height, read as C `int`, are wrapped to 32 bits explicitly (`Bytes.ToInt32`). Other `int` arithmetic is unbounded (see "Left out").
- Byte buffers are `seq<byte>`, or `array` where the source fills them in place.
- Matrices that the source fills in place are `array2<real>`. Each such method is specified through `Grids.Grid`, which views the array as a sequence of rows.

**Behaviour of the code the model keeps.**

- The sort swaps only on a strict `<`, so equal eigenvalues keep their order. The model proves the sort stable (`Svd.Rearranged`).
- The PNG Specification (section 5.2) requires all eight signature bytes. The code stops reading them at end of file, so a file shorter than eight bytes is not rejected for its signature (`ReadPng.SignatureOk`).
- The PNG Specification (section 9.2) allows filter types 0 to 4 only. The code checks the type inside the loop over a scanline's bytes, so an invalid type on a scanline with no bytes goes unnoticed (`ReadPng.UnfilterRows`).
- svd.c promises an orthonormal U, but both of its fallbacks store a unit vector e_i without projecting it against the earlier columns. Such a fallback can break orthogonality even in exact arithmetic: it does whenever an earlier column has a non-zero entry at row i (`Svd.FallbackNotOrthogonal`). It can also leave U orthogonal, as for A = diag(1, 0) (`Svd.FallbackMayStayOrthogonal`). The model proves that U's columns are unit vectors, and that they are pairwise orthogonal when no fallback was taken while building U. A ghost flag records whether one was: `Svd.BuildU` states exactly which step's norm fell below eps.

## Model

| member | source | states |
|---|---|---|
| Bytes.BigEndianBound | ai25btech11040/SoftwareAssignment/codes/lib/png/readpng.c:115-120 | folding bytes big-endian gives a value below 256^len |
| Bytes.BigEndianFour | ai25btech11040/SoftwareAssignment/codes/lib/png/readpng.c:115-120 | four bytes fold to b0·2^24 + b1·2^16 + b2·2^8 + b3 |
| Bytes.ToInt32 | ai25btech11040/SoftwareAssignment/codes/lib/png/readpng.c:138-146 | storing an unsigned 32-bit fold in a C int gives the int congruent to it modulo 2^32, negative exactly when bit 31 is set |
| Crc.XorBelow | ai25btech11040/SoftwareAssignment/codes/lib/png/readpng.c:22 | exclusive-or of two k-bit values is a k-bit value |
| Crc.RoundBelow | ai25btech11040/SoftwareAssignment/codes/lib/png/readpng.c:21-24 | one shift-and-reduce round keeps a 32-bit register within 32 bits |
| Crc.RoundsBelow | ai25btech11040/SoftwareAssignment/codes/lib/png/readpng.c:20-25 | any number of rounds keeps a 32-bit register within 32 bits |
| Crc.TableEntryBelow | ai25btech11040/SoftwareAssignment/codes/lib/png/readpng.c:18-27 | every table entry is below 2^32 |
| Crc.Slot | ai25btech11040/SoftwareAssignment/codes/lib/png/readpng.c:43 | the table index `(c ^ b) & 0xff` is below 256 |
| Crc.UpdateCrcAppend | ai25btech11040/SoftwareAssignment/codes/lib/png/readpng.c:36-46 | the running CRC composes: update(c, a ++ b) == update(update(c, a), b) |
| Crc.UpdateCrcSnoc | ai25btech11040/SoftwareAssignment/codes/lib/png/readpng.c:42-44 | the bytes are consumed left to right, one table step per byte |
| Crc.UpdateCrcBelow | ai25btech11040/SoftwareAssignment/codes/lib/png/readpng.c:36-46 | a 32-bit register stays within 32 bits through any update |
| Crc.CrcOf | ai25btech11040/SoftwareAssignment/codes/lib/png/readpng.c:49-51 | crc is the update from all ones, complemented; the CRC of no bytes is 0 and every CRC fits in 32 bits |
| Crc.XorSelf | ai25btech11040/SoftwareAssignment/codes/lib/png/readpng.c:50 | x ^ x == 0, which makes the CRC of the empty buffer 0 |
| Crc.Round | ai25btech11040/SoftwareAssignment/codes/lib/png/readpng.c:21-24 | one round of the table loop: the polynomial 0xedb88320 exclusive-or c >> 1 when the low bit of c is set, otherwise c >> 1 |
| Crc.Rounds | ai25btech11040/SoftwareAssignment/codes/lib/png/readpng.c:20-25 | k rounds applied in turn to the register |
| Crc.TableEntry | ai25btech11040/SoftwareAssignment/codes/lib/png/readpng.c:18-26 | table entry n: eight rounds starting from n |
| Crc.Step | ai25btech11040/SoftwareAssignment/codes/lib/png/readpng.c:43 | one byte of update_crc: the table entry at (c ^ b) & 0xff, exclusive-or c >> 8 |
| Crc.UpdateCrc | ai25btech11040/SoftwareAssignment/codes/lib/png/readpng.c:42-44 | the register after one Step per byte of the buffer, left to right |
| Crc.ComputeEntry | ai25btech11040/SoftwareAssignment/codes/lib/png/readpng.c:19-25 | the inner loop yields 8 rounds of "low bit set: 0xedb88320 ^ (c >> 1), else c >> 1" from n |
| Crc.CrcTable.constructor | ai25btech11040/SoftwareAssignment/codes/lib/png/readpng.c:8-11 | the table starts with the computed flag cleared |
| Crc.CrcTable.MakeCrcTable | ai25btech11040/SoftwareAssignment/codes/lib/png/readpng.c:14-29 | afterwards the flag is set and table[n] is the 8-round value for every n < 256, each below 2^32 |
| Crc.CrcTable.Update | ai25btech11040/SoftwareAssignment/codes/lib/png/readpng.c:36-46 | builds the table on first use and returns the running CRC over buf[0..len-1]; a length ≤ 0 returns c unchanged |
| Crc.CrcTable.Crc | ai25btech11040/SoftwareAssignment/codes/lib/png/readpng.c:49-51 | returns the CRC of buf[0..len-1] |
| ReadPng.CheckSignature | ai25btech11040/SoftwareAssignment/codes/lib/png/readpng.c:99-108 | accepts exactly when every byte the file has among the first eight matches 137 80 78 71 13 10 26 10 |
| ReadPng.ReadBigEndian | ai25btech11040/SoftwareAssignment/codes/lib/png/readpng.c:116-120 | the shift-or loop computes the big-endian fold of the bytes |
| ReadPng.ReadChunkLength | ai25btech11040/SoftwareAssignment/codes/lib/png/readpng.c:115-120 | the chunk length is b0·2^24 + b1·2^16 + b2·2^8 + b3, below 2^32 |
| ReadPng.Int32At | ai25btech11040/SoftwareAssignment/codes/lib/png/readpng.c:137-146 | a width or height is a C int congruent to the big-endian fold modulo 2^32 |
| ReadPng.ParseIhdr | ai25btech11040/SoftwareAssignment/codes/lib/png/readpng.c:133-165 | malformed iff the length is not 13 or the compression or filter method is non-zero (with colour type and interlace 0); not implemented iff the colour type or interlace method is non-zero; otherwise the decoded header |
| ReadPng.ReadIhdr | ai25btech11040/SoftwareAssignment/codes/lib/png/readpng.c:133-165 | the IHDR branch with its loops returns exactly ParseIhdr's verdict |
| ReadPng.ProcessChunk | ai25btech11040/SoftwareAssignment/codes/lib/png/readpng.c:133-235 | malformed iff a bad IHDR, an empty IDAT or a pHYs whose length is not 9; not implemented only from IHDR; IEND and only IEND ends the loop |
| ReadPng.Paeth | ai25btech11040/SoftwareAssignment/codes/lib/png/readpng.c:53-64 | the result is one of a, b, c |
| ReadPng.Predictor | ai25btech11040/SoftwareAssignment/codes/lib/png/readpng.c:259-290 | what filter types 1–4 add back: the left byte, the byte above, their truncated average, or the Paeth choice |
| ReadPng.Recon | ai25btech11040/SoftwareAssignment/codes/lib/png/readpng.c:255-290 | the reconstructed byte: a copy for type 0, otherwise the filtered byte plus the predictor modulo 256 |
| ReadPng.UnfilterRow | ai25btech11040/SoftwareAssignment/codes/lib/png/readpng.c:253-294 | the first n reconstructed bytes of a scanline, against the row above and with neighbours left of the scanline read as 0 |
| ReadPng.PaethNearest | ai25btech11040/SoftwareAssignment/codes/lib/png/readpng.c:53-64 | the result is the one nearest to p = a + b − c, ties going to a, then b |
| ReadPng.UnfilterNone | ai25btech11040/SoftwareAssignment/codes/lib/png/readpng.c:256-257 | filter type 0 returns the scanline bytes unchanged |
| ReadPng.UnfilterRowStep | ai25btech11040/SoftwareAssignment/codes/lib/png/readpng.c:253-293 | byte x of a row is the filtered byte plus the predictor of the already reconstructed left, up and upper-left neighbours, modulo 256 |
| ReadPng.Scanlines | ai25btech11040/SoftwareAssignment/codes/lib/png/readpng.c:250-254 | the stream splits into height scanlines of w + 1 bytes |
| ReadPng.ScanlineAt | ai25btech11040/SoftwareAssignment/codes/lib/png/readpng.c:250-254 | scanline i begins at offset i·(w+1) with its filter byte, followed by its w data bytes |
| ReadPng.ScanlinesCut | ai25btech11040/SoftwareAssignment/codes/lib/png/readpng.c:250-254 | every scanline sits at its offset in the stream |
| ReadPng.Rows | ai25btech11040/SoftwareAssignment/codes/lib/png/readpng.c:250-295 | unfiltering yields one row of w bytes per scanline |
| ReadPng.Unfiltered | ai25btech11040/SoftwareAssignment/codes/lib/png/readpng.c:250-295 | the whole reconstructed image: one row per scanline, the first against a row of zeros |
| ReadPng.ReconstructByte | ai25btech11040/SoftwareAssignment/codes/lib/png/readpng.c:255-293 | succeeds iff the filter type is at most 4; the value is the reconstruction with out-of-image neighbours read as 0 |
| ReadPng.UnfilterScanline | ai25btech11040/SoftwareAssignment/codes/lib/png/readpng.c:250-294 | one scanline: fails iff it has bytes and an invalid filter type; otherwise row i holds the unfiltered row and other rows are unchanged |
| ReadPng.ScanlineInStream | ai25btech11040/SoftwareAssignment/codes/lib/png/readpng.c:251-254 | scanline i lies at offset i·(w + 1) of the stream: its filter type first, its w filtered bytes after it |
| ReadPng.UnfilterRowAt | ai25btech11040/SoftwareAssignment/codes/lib/png/readpng.c:251-294 | one row of the loop fails exactly when scanline i brings the first invalid filter type; otherwise rows 0 .. i hold the first i + 1 reconstructed rows |
| ReadPng.UnfilterRows | ai25btech11040/SoftwareAssignment/codes/lib/png/readpng.c:250-295 | malformed exactly when some non-empty scanline has a filter type above 4; otherwise the array is the unfiltered image with every byte in 0..255 |
| ReadPng.Unfilter | ai25btech11040/SoftwareAssignment/codes/lib/png/readpng.c:241-295 | with bpp = (bd+7)/8 and w = (width·bd+7)/8, the same verdict and image for the stream cut into height scanlines |
| ReadPng.FilterByte | ai25btech11040/SoftwareAssignment/codes/lib/png/readpng.c:255-290 | the encoder filter of section 9.2 of the PNG Specification that this reconstruction undoes: each byte minus its predictor modulo 256; it is a reference definition, the tool itself only writes type 0 |
| ReadPng.ReconFilterByte | ai25btech11040/SoftwareAssignment/codes/lib/png/readpng.c:255-290 | reconstruction inverts the filter of section 9.2 of the PNG Specification for every type 0–4 |
| ReadPng.FilterRow | ai25btech11040/SoftwareAssignment/codes/lib/png/readpng.c:255-290 | the encoder's filtered row, byte by byte |
| ReadPng.UnfilterFilterRow | ai25btech11040/SoftwareAssignment/codes/lib/png/readpng.c:250-295 | unfiltering a filtered row gives back the raw row, for every filter type |
| ReadPng.UnfilterFilterStep | ai25btech11040/SoftwareAssignment/codes/lib/png/readpng.c:253-293 | the round trip extends one byte at a time |
| ReadPng.SampleInRow | ai25btech11040/SoftwareAssignment/codes/lib/png/readpng.c:313-319 | every sample the assembly reads lies inside the unfiltered row |
| ReadPng.SampleEight | ai25btech11040/SoftwareAssignment/codes/lib/png/readpng.c:315-316 | at bit depth 8 pixel j is byte j |
| ReadPng.SampleSixteen | ai25btech11040/SoftwareAssignment/codes/lib/png/readpng.c:315-316 | at bit depth 16 pixel j is bytes 2j, 2j+1 big-endian |
| ReadPng.SampleBound | ai25btech11040/SoftwareAssignment/codes/lib/png/readpng.c:315-316 | a sample of n bytes is below 256^n |
| ReadPng.SubByteDepthGivesZero | ai25btech11040/SoftwareAssignment/codes/lib/png/readpng.c:315 | at bit depths 1, 2 and 4 the loop runs zero times and every pixel stays 0 |
| ReadPng.AssembleSample | ai25btech11040/SoftwareAssignment/codes/lib/png/readpng.c:315-317 | on bytes, the shift-or loop is the big-endian fold of the sample's bytes, a value below 256^n |
| ReadPng.AssembleRow | ai25btech11040/SoftwareAssignment/codes/lib/png/readpng.c:314-318 | row i of pixels holds its samples; other rows are unchanged |
| ReadPng.AssemblePixels | ai25btech11040/SoftwareAssignment/codes/lib/png/readpng.c:307-319 | a fresh height × width array whose pixel (i, j) is sample j of row i |
| ReadPng.AllocationTooSmallForOneBit | ai25btech11040/SoftwareAssignment/codes/lib/png/readpng.c:174-178 | as written: for a 1-bit, 8-pixel, one-row image 1 byte is allocated but the unfiltering reads 2 |
| ReadPng.AllocationSufficesForWholeBytes | ai25btech11040/SoftwareAssignment/codes/lib/png/readpng.c:174-178 | at bit depths 8 and 16 the allocation holds the whole stream |
| ReadPng.StreamBytesCoverScanlines | ai25btech11040/SoftwareAssignment/codes/lib/png/readpng.c:250-254 | a buffer of height·(w+1) bytes holds every byte the unfiltering reads |
| SavePng.Be32 | ai25btech11040/SoftwareAssignment/codes/lib/png/savepng.c:6-13 | write_be32 emits four bytes |
| SavePng.Be32Digits | ai25btech11040/SoftwareAssignment/codes/lib/png/savepng.c:6-13 | the four bytes fold back to v modulo 2^32, negative v included |
| SavePng.Be32RoundTrip | ai25btech11040/SoftwareAssignment/codes/lib/png/savepng.c:6-13 | reading the bytes back as readpng does returns exactly the int v |
| SavePng.Be32OfNatural | ai25btech11040/SoftwareAssignment/codes/lib/png/savepng.c:6-13 | for 0 ≤ v < 2^31 the fold of the bytes is v itself |
| SavePng.Be32OfNatural32 | ai25btech11040/SoftwareAssignment/codes/lib/png/savepng.c:21-24 | an unsigned 32-bit CRC cast to int is written as its own four big-endian bytes |
| SavePng.ChunkBytes | ai25btech11040/SoftwareAssignment/codes/lib/png/savepng.c:15-26 | a chunk is 12 bytes longer than its data |
| SavePng.ChunkFields | ai25btech11040/SoftwareAssignment/codes/lib/png/savepng.c:15-26 | a chunk holds the length big-endian, the type, the data, and the CRC over type and data |
| SavePng.IhdrBytes | ai25btech11040/SoftwareAssignment/codes/lib/png/savepng.c:52-65 | the IHDR buffer is 13 bytes |
| SavePng.BuildIhdr | ai25btech11040/SoftwareAssignment/codes/lib/png/savepng.c:52-65 | the indexed assignments fill exactly that layout |
| SavePng.PutBe32 | ai25btech11040/SoftwareAssignment/codes/lib/png/savepng.c:52-55 | four bytes from the offset are v big-endian; the rest of the buffer is unchanged |
| SavePng.IhdrRoundTrip | ai25btech11040/SoftwareAssignment/codes/lib/png/savepng.c:52-65 | readpng's IHDR branch accepts the buffer and decodes the same width and height, bit depth 8, colour type 0 |
| SavePng.ClampRound | ai25btech11040/SoftwareAssignment/codes/lib/png/savepng.c:83-86 | a pixel value clamped to 0..255, then the byte cast of v + 0.5 |
| SavePng.ClampRoundNearest | ai25btech11040/SoftwareAssignment/codes/lib/png/savepng.c:83-86 | a pixel byte is 0 below 0, 255 above 255, otherwise the integer within half a unit of v (floor(v + 0.5)) |
| SavePng.PixelRow | ai25btech11040/SoftwareAssignment/codes/lib/png/savepng.c:82-87 | each of the width bytes is the clamped and rounded pixel |
| SavePng.RawData | ai25btech11040/SoftwareAssignment/codes/lib/png/savepng.c:79-88 | the raw buffer: per row, filter byte 0 followed by the row's clamped and rounded pixels |
| SavePng.RawDataLength | ai25btech11040/SoftwareAssignment/codes/lib/png/savepng.c:74-76 | the raw buffer is (width+1)·height bytes |
| SavePng.RawDataScanline | ai25btech11040/SoftwareAssignment/codes/lib/png/savepng.c:79-88 | scanline y at offset y·(width+1) is filter byte 0 followed by the row's pixel bytes |
| SavePng.FillScanline | ai25btech11040/SoftwareAssignment/codes/lib/png/savepng.c:80-87 | the inner loop appends filter 0 and the row's pixel bytes after what is already there |
| SavePng.BuildRaw | ai25btech11040/SoftwareAssignment/codes/lib/png/savepng.c:73-88 | the fresh buffer is exactly the raw scanlines of the image |
| SavePng.SavePng | ai25btech11040/SoftwareAssignment/codes/lib/png/savepng.c:28-115 | nothing is written iff the image or header is missing, width ≤ 0, height ≤ 0, bit depth ≠ 8 or colour type ≠ 0; otherwise the signature, the IHDR chunk, the raw data and the IEND chunk |
| SavePng.SignatureAccepted | ai25btech11040/SoftwareAssignment/codes/lib/png/savepng.c:48-49 | what savepng writes passes readpng's signature check |
| SavePng.PixelRows | ai25btech11040/SoftwareAssignment/codes/lib/png/savepng.c:79-88 | one clamped and rounded row per image row |
| SavePng.RawDataUnfilters | ai25btech11040/SoftwareAssignment/codes/lib/png/savepng.c:73-88 | readpng's unfiltering of the raw buffer (all type 0) returns exactly the clamped and rounded pixels |
| SavePng.RowsOfFilterNone | ai25btech11040/SoftwareAssignment/codes/lib/png/readpng.c:256-257 | scanlines of filter 0 unfilter to their data bytes, row by row |
| Matrix.Product | ai25btech11040/SoftwareAssignment/codes/lib/matrix/helper.c:10-20 | the product of an m×n and an n×p matrix is m×p |
| Matrix.Transposed | ai25btech11040/SoftwareAssignment/codes/lib/matrix/helper.c:23-32 | the transpose of an m×n matrix is n×m |
| Matrix.TransposeTwice | ai25btech11040/SoftwareAssignment/codes/lib/matrix/helper.c:23-32 | transposing twice gives back A |
| Matrix.GramEntrySymmetric | ai25btech11040/SoftwareAssignment/codes/lib/matrix/svd.c:20-21 | every partial sum of (AᵗA)[i][j] equals that of (AᵗA)[j][i] |
| Matrix.GramSymmetric | ai25btech11040/SoftwareAssignment/codes/lib/matrix/svd.c:20-21 | AᵗA is square and symmetric, as jacobi requires |
| Matrix.MulSumIdentity | ai25btech11040/SoftwareAssignment/codes/lib/matrix/helper.c:15-17 | a partial row sum against the identity picks out one entry |
| Matrix.IdentityProduct | ai25btech11040/SoftwareAssignment/codes/lib/matrix/helper.c:6-21 | multiplying by the identity gives back A |
| Matrix.EntrySum | ai25btech11040/SoftwareAssignment/codes/lib/matrix/helper.c:14-17 | the k loop computes Σ_{k<n1} A[i][k]·B[k][j] |
| Matrix.MultiplyRow | ai25btech11040/SoftwareAssignment/codes/lib/matrix/helper.c:12-18 | row i of C is filled with its sums; other rows are unchanged |
| Matrix.Multiply | ai25btech11040/SoftwareAssignment/codes/lib/matrix/helper.c:6-21 | null exactly when n1 ≠ m2; otherwise a fresh m1×n2 matrix equal to the product |
| Matrix.Transpose | ai25btech11040/SoftwareAssignment/codes/lib/matrix/helper.c:23-32 | a fresh n×m matrix with T[i][j] = A[j][i] |
| Matrix.SumSquares | ai25btech11040/SoftwareAssignment/codes/lib/matrix/helper.c:35-37 | a sum of squares is non-negative |
| Matrix.SumSquaresZero | ai25btech11040/SoftwareAssignment/codes/lib/matrix/helper.c:35-37 | a sum of squares is zero iff every component is zero |
| Matrix.SumSquaresDivided | ai25btech11040/SoftwareAssignment/codes/lib/matrix/helper.c:39-40 | dividing every component by r divides the sum of squares by r² |
| Matrix.NormalizedIsUnit | ai25btech11040/SoftwareAssignment/codes/lib/matrix/helper.c:34-41 | dividing by the norm gives a unit vector |
| Matrix.SqrtPositive | ai25btech11040/SoftwareAssignment/codes/lib/matrix/helper.c:38 | the root of a positive radicand is positive, so the division is defined |
| Matrix.SquaredNorm | ai25btech11040/SoftwareAssignment/codes/lib/matrix/helper.c:35-37 | the loop computes the sum of squares of v[0..n-1] |
| Matrix.Normalize | ai25btech11040/SoftwareAssignment/codes/lib/matrix/helper.c:34-41 | for a non-zero v, every component is divided by the same norm, the result has unit length, and entries past n are unchanged |
| Matrix.MatrixSquares | ai25btech11040/SoftwareAssignment/codes/lib/matrix/helper.c:112-117 | the radicand Σ A[i][j]² is non-negative |
| Matrix.MatrixSquaresZero | ai25btech11040/SoftwareAssignment/codes/lib/matrix/helper.c:112-117 | the radicand is zero iff every entry is zero |
| Matrix.FrobeniusNorm | ai25btech11040/SoftwareAssignment/codes/lib/matrix/helper.c:111-119 | a non-negative value whose square is Σ A[i][j]², zero iff A is zero |
| Jacobi.InitIdentity | ai25btech11040/SoftwareAssignment/codes/lib/matrix/helper.c:47-49 | the eigenvector matrix starts as the identity |
| Jacobi.PivotSearch | ai25btech11040/SoftwareAssignment/codes/lib/matrix/helper.c:54-61 | max_off bounds every \|A[i][j]\| above the diagonal; when it is positive, p < q and it is attained at (p, q), and every earlier pair in row-major order is strictly smaller; otherwise p = 0, q = 1 |
| Jacobi.ConvergedOffDiagonal | ai25btech11040/SoftwareAssignment/codes/lib/matrix/helper.c:62 | at the loop exit every off-diagonal entry of a symmetric A is below 1e-12 in magnitude |
| Jacobi.NewApp | ai25btech11040/SoftwareAssignment/codes/lib/matrix/helper.c:69 | the new A[p][p]: c²·app − 2cs·apq + s²·aqq |
| Jacobi.NewAqq | ai25btech11040/SoftwareAssignment/codes/lib/matrix/helper.c:70 | the new A[q][q]: s²·app + 2cs·apq + c²·aqq |
| Jacobi.RotatedEntry | ai25btech11040/SoftwareAssignment/codes/lib/matrix/helper.c:69-80 | entry (i, j) after the rotation: the new pivot diagonal, zero at (p, q) and (q, p), c·akp − s·akq and s·akp + c·akq in rows and columns p and q, the rest unchanged |
| Jacobi.Rotated | ai25btech11040/SoftwareAssignment/codes/lib/matrix/helper.c:68-80 | the rotated matrix is n×n |
| Jacobi.RotatePair | ai25btech11040/SoftwareAssignment/codes/lib/matrix/helper.c:76-79 | one k of the off-pivot loop updates (k,p), (p,k), (k,q), (q,k) and nothing else |
| Jacobi.RotationAssembled | ai25btech11040/SoftwareAssignment/codes/lib/matrix/helper.c:68-80 | the entrywise effects of the step together are the rotation |
| Jacobi.RotateOffPivot | ai25btech11040/SoftwareAssignment/codes/lib/matrix/helper.c:75-80 | rows and columns p, q are rotated outside the pivot block; every other entry is unchanged |
| Jacobi.RotateMatrix | ai25btech11040/SoftwareAssignment/codes/lib/matrix/helper.c:68-80 | A becomes the rotation of old A |
| Jacobi.SetPivotBlock | ai25btech11040/SoftwareAssignment/codes/lib/matrix/helper.c:71-73 | the pivot diagonal gets its new values and A[p][q] = A[q][p] = 0; no other entry changes |
| Jacobi.PivotThenOffPivot | ai25btech11040/SoftwareAssignment/codes/lib/matrix/helper.c:68-80 | replacing the pivot block and then rotating rows and columns p, q against every other index gives the rotation of A |
| Jacobi.RotatedColumns | ai25btech11040/SoftwareAssignment/codes/lib/matrix/helper.c:83-87 | the rotated eigenvector matrix is n×n |
| Jacobi.RotateColumns | ai25btech11040/SoftwareAssignment/codes/lib/matrix/helper.c:83-87 | columns p and q of eigvecs are rotated; every other column is unchanged |
| Jacobi.Rotate | ai25btech11040/SoftwareAssignment/codes/lib/matrix/helper.c:64-87 | one step with given c and s: A and eigvecs become their rotations |
| Jacobi.RotationClearsPivot | ai25btech11040/SoftwareAssignment/codes/lib/matrix/helper.c:73 | the step sets A[p][q] = A[q][p] = 0 and leaves entries outside rows and columns p, q unchanged |
| Jacobi.RotationKeepsSymmetry | ai25btech11040/SoftwareAssignment/codes/lib/matrix/helper.c:68-80 | a symmetric A stays symmetric |
| Jacobi.DiagonalSumChange | ai25btech11040/SoftwareAssignment/codes/lib/matrix/helper.c:71-72 | the trace changes only through the two pivot diagonal entries |
| Jacobi.PivotPairSum | ai25btech11040/SoftwareAssignment/codes/lib/matrix/helper.c:69-70 | when c² + s² = 1, app_new + aqq_new = app + aqq |
| Jacobi.RotationKeepsTrace | ai25btech11040/SoftwareAssignment/codes/lib/matrix/helper.c:68-80 | when c² + s² = 1 the rotation keeps the trace |
| Jacobi.RotateColumnsBack | ai25btech11040/SoftwareAssignment/codes/lib/matrix/helper.c:83-87 | rotating by (c, −s) undoes the eigenvector update |
| Jacobi.ExtractEigenvalues | ai25btech11040/SoftwareAssignment/codes/lib/matrix/helper.c:91-92 | eigvals[i] = A[i][i] |
| Jacobi.NormalizeColumn | ai25btech11040/SoftwareAssignment/codes/lib/matrix/helper.c:96-101 | column j becomes its normalised form; other columns are unchanged |
| Jacobi.NormalizedColumn | ai25btech11040/SoftwareAssignment/codes/lib/matrix/helper.c:96-101 | the normalised column has the same length |
| Jacobi.NormalizedColumnIsUnit | ai25btech11040/SoftwareAssignment/codes/lib/matrix/helper.c:94-102 | a non-zero column becomes a unit vector; a zero column (norm 0) is left as it is |
| Jacobi.NormalizeColumns | ai25btech11040/SoftwareAssignment/codes/lib/matrix/helper.c:94-102 | every column of eigvecs becomes its normalised form |
| LowRank.ClampRank | ai25btech11040/SoftwareAssignment/codes/lib/matrix/lra.c:9-11 | the rank used is k, or min(m, n) when k is larger |
| LowRank.LowRankMatrix | ai25btech11040/SoftwareAssignment/codes/lib/matrix/lra.c:22-37 | A_k is m×n |
| LowRank.ArraysAreFactors | ai25btech11040/SoftwareAssignment/codes/lib/matrix/lra.c:13-15 | arrays of the documented shapes give factors of rank min(m, n) |
| LowRank.Approximation | ai25btech11040/SoftwareAssignment/codes/lib/matrix/lra.c:22-37 | the approximation of the arrays is m×n |
| LowRank.Term | ai25btech11040/SoftwareAssignment/codes/lib/matrix/lra.c:24-34 | term t of entry (i, j): (σ_t·U[i][t])·V[j][t], grouped as the source groups it |
| LowRank.Approx | ai25btech11040/SoftwareAssignment/codes/lib/matrix/lra.c:22-37 | entry (i, j) of A_k: the sum of the first k terms |
| LowRank.AddRow | ai25btech11040/SoftwareAssignment/codes/lib/matrix/lra.c:30-35 | Ai[j] += coeff·V[j][t] for every j; other rows are unchanged |
| LowRank.AddTerm | ai25btech11040/SoftwareAssignment/codes/lib/matrix/lra.c:26-36 | the row loop, with its skip on U[i][t] = 0, turns the sum of t terms into the sum of t + 1 terms |
| LowRank.AddTermRow | ai25btech11040/SoftwareAssignment/codes/lib/matrix/lra.c:29-35 | row i takes the sum of t terms to the sum of t + 1 terms whether or not U[i][t] is zero; the other rows are unchanged |
| LowRank.RowStep | ai25btech11040/SoftwareAssignment/codes/lib/matrix/lra.c:29-35 | adding coeff·V[j][t] adds term t of entry (i, j) |
| LowRank.ZeroSigmaStep | ai25btech11040/SoftwareAssignment/codes/lib/matrix/lra.c:25 | when sigma = 0, term t adds nothing anywhere |
| LowRank.Accumulate | ai25btech11040/SoftwareAssignment/codes/lib/matrix/lra.c:17-37 | a fresh zeroed m×n matrix accumulates A_k[i][j] = Σ_{t<k} S[t][t]·U[i][t]·V[j][t] |
| LowRank.LowRankApprox | ai25btech11040/SoftwareAssignment/codes/lib/matrix/lra.c:5-40 | null exactly when svd, U, S or V is missing or m, n or k is ≤ 0; otherwise a fresh m×n A_k for the clamped k, reading U, S, V only |
| LowRank.GridIsLowRank | ai25btech11040/SoftwareAssignment/codes/lib/matrix/lra.c:23-37 | entries equal to the sums make the array the approximation |
| LowRank.SkippedTermsVanish | ai25btech11040/SoftwareAssignment/codes/lib/matrix/lra.c:24-29 | a term whose sigma or U[i][t] is zero is zero, so skipping it changes nothing |
| LowRank.ClampedRanksAgree | ai25btech11040/SoftwareAssignment/codes/lib/matrix/lra.c:9-11 | every k ≥ min(m, n) gives the same result as k = min(m, n) |
| LowRank.RankOne | ai25btech11040/SoftwareAssignment/codes/lib/matrix/lra.c:23-37 | σ_t·u_t·v_tᵗ is m×n |
| LowRank.Sum | ai25btech11040/SoftwareAssignment/codes/lib/matrix/lra.c:34 | the entrywise sum of two m×n matrices is m×n |
| LowRank.LowRankStep | ai25btech11040/SoftwareAssignment/codes/lib/matrix/lra.c:23-37 | A_{k+1} = A_k + σ_k·u_k·v_kᵗ |
| LowRank.Leading | ai25btech11040/SoftwareAssignment/codes/lib/matrix/lra.c:13-15 | the leading block has the requested shape |
| LowRank.DiagonalProductEntry | ai25btech11040/SoftwareAssignment/codes/lib/matrix/lra.c:24-29 | for a diagonal S, (U_k·S_k)[i][t] = U[i][t]·S[t][t] |
| LowRank.FactoredSum | ai25btech11040/SoftwareAssignment/codes/lib/matrix/lra.c:23-37 | the partial sums of (U_k·S_k·V_kᵗ)[i][j] are the partial sums of the accumulated terms |
| LowRank.LowRankIsProduct | ai25btech11040/SoftwareAssignment/codes/lib/matrix/lra.c:22-37 | for a diagonal S, A_k = U_k·S_k·V_kᵗ with the leading k columns |
| Svd.SwapAt | ai25btech11040/SoftwareAssignment/codes/lib/matrix/svd.c:37-39 | entries j and j+1 are exchanged; the rest are unchanged |
| Svd.SwapColumns | ai25btech11040/SoftwareAssignment/codes/lib/matrix/svd.c:41-50 | the matrix with columns j and j+1 exchanged is n×n |
| Svd.RearrangedStart | ai25btech11040/SoftwareAssignment/codes/lib/matrix/svd.c:33 | before the sort, the identity permutation relates the state to itself |
| Svd.SwapRearranged | ai25btech11040/SoftwareAssignment/codes/lib/matrix/svd.c:35-51 | a swap on a strict `<` keeps values and columns together and keeps equal eigenvalues in their original order |
| Svd.ColumnsSwapped | ai25btech11040/SoftwareAssignment/codes/lib/matrix/svd.c:41-50 | the three column loops together exchange the two columns |
| Svd.SwapEigenpairs | ai25btech11040/SoftwareAssignment/codes/lib/matrix/svd.c:35-51 | ev[j], ev[j+1] and evec columns j, j+1 are exchanged, and nothing else changes |
| Svd.ReadColumn | ai25btech11040/SoftwareAssignment/codes/lib/matrix/svd.c:41-44 | a fresh temporary holds eigenvector column j |
| Svd.CopyColumnWithin | ai25btech11040/SoftwareAssignment/codes/lib/matrix/svd.c:45-47 | the column at `to` holds the old column at `from`; every other column is unchanged |
| Svd.LoadColumn | ai25btech11040/SoftwareAssignment/codes/lib/matrix/svd.c:48-50 | the column at `to` holds the saved temporary; every other column is unchanged |
| Svd.BubblePass | ai25btech11040/SoftwareAssignment/codes/lib/matrix/svd.c:34-52 | one pass moves the smallest remaining eigenvalue to the end of the unsorted part and keeps the eigenpairs |
| Svd.BubbleStep | ai25btech11040/SoftwareAssignment/codes/lib/matrix/svd.c:35-51 | one compare-and-swap keeps the sorted tail sorted and leaves at j + 1 the smallest of positions 0 .. j + 1 |
| Svd.SortEigenpairs | ai25btech11040/SoftwareAssignment/codes/lib/matrix/svd.c:33-53 | ev ends non-increasing, a stable permutation of the old ev with each evec column moved with its eigenvalue |
| Svd.MulSumSameColumn | ai25btech11040/SoftwareAssignment/codes/lib/matrix/svd.c:41-50 | equal columns give equal products M·column |
| Svd.EigenpairsKept | ai25btech11040/SoftwareAssignment/codes/lib/matrix/svd.c:33-53 | eigenpairs of AᵗA before the sort are still eigenpairs after it |
| Svd.BuildV | ai25btech11040/SoftwareAssignment/codes/lib/matrix/svd.c:55-61 | V is a fresh n×n exact copy of the sorted eigenvectors |
| Svd.SMatrix | ai25btech11040/SoftwareAssignment/codes/lib/matrix/svd.c:64-75 | S is m×n |
| Svd.SingularValue | ai25btech11040/SoftwareAssignment/codes/lib/matrix/svd.c:69-70 | sqrt(ev) for a positive eigenvalue, 0 otherwise |
| Svd.BuildS | ai25btech11040/SoftwareAssignment/codes/lib/matrix/svd.c:63-75 | a fresh m×n S with the layout of SMatrix |
| Svd.SingularValueSquares | ai25btech11040/SoftwareAssignment/codes/lib/matrix/svd.c:69-70 | a diagonal entry is 0 when ev[i] ≤ 0 and otherwise positive with square ev[i] |
| Svd.SquareIncreasing | ai25btech11040/SoftwareAssignment/codes/lib/matrix/svd.c:69-70 | squaring is strictly increasing on non-negative reals |
| Svd.SingularValueMonotone | ai25btech11040/SoftwareAssignment/codes/lib/matrix/svd.c:69-70 | a smaller eigenvalue gives a singular value that is not larger |
| Svd.SMatrixShape | ai25btech11040/SoftwareAssignment/codes/lib/matrix/svd.c:64-75 | every entry of S is ≥ 0, off-diagonal entries are 0, and the diagonal is non-increasing after the sort |
| Svd.LeftEntryScales | ai25btech11040/SoftwareAssignment/codes/lib/matrix/svd.c:85-97 | when sigma ≥ eps, sigma·U[row][i] = (A·V)[row][i]; otherwise U[row][i] = 0 |
| Svd.LeftEntry | ai25btech11040/SoftwareAssignment/codes/lib/matrix/svd.c:86-96 | entry (row, i) of U: row of A times column i of V, over sigma; 0 when sigma is below eps |
| Svd.LeftColumn | ai25btech11040/SoftwareAssignment/codes/lib/matrix/svd.c:86-97 | column i becomes (A·v_i)/sigma, or all zeros when sigma < eps; other columns are unchanged |
| Svd.LeftColumns | ai25btech11040/SoftwareAssignment/codes/lib/matrix/svd.c:78-98 | the first min(m, n) columns of U are set that way from S's diagonal; the rest are unchanged |
| Svd.Subtracted | ai25btech11040/SoftwareAssignment/codes/lib/matrix/svd.c:106 | the vector less dot times b keeps its length |
| Svd.Project | ai25btech11040/SoftwareAssignment/codes/lib/matrix/svd.c:104-106 | the projection step keeps the length |
| Svd.ProjectAll | ai25btech11040/SoftwareAssignment/codes/lib/matrix/svd.c:103-107 | projecting against the previous columns keeps the length |
| Svd.Unit | ai25btech11040/SoftwareAssignment/codes/lib/matrix/svd.c:114-115 | e_i has length m |
| Svd.Finish | ai25btech11040/SoftwareAssignment/codes/lib/matrix/svd.c:109-118 | the normalised or fallback column keeps the length |
| Svd.DotSelf | ai25btech11040/SoftwareAssignment/codes/lib/matrix/svd.c:110 | b·b is the sum of squares |
| Svd.DotMinus | ai25btech11040/SoftwareAssignment/codes/lib/matrix/svd.c:105-106 | the dot product distributes over a difference |
| Svd.DotScaled | ai25btech11040/SoftwareAssignment/codes/lib/matrix/svd.c:106 | the dot product is linear in a scaled vector |
| Svd.DotSubtractedBy | ai25btech11040/SoftwareAssignment/codes/lib/matrix/svd.c:104-106 | a·(c − d·b) = a·c − d·(a·b): a projection step changes a dot product only through the column it projects on |
| Svd.ProjectKeepsOrthogonal | ai25btech11040/SoftwareAssignment/codes/lib/matrix/svd.c:104-106 | a projection step along b keeps a vector orthogonal to a when b is orthogonal to a |
| Svd.DotSubtracted | ai25btech11040/SoftwareAssignment/codes/lib/matrix/svd.c:104-106 | b·(c − d·b) = b·c − d·(b·b) |
| Svd.ProjectionOrthogonal | ai25btech11040/SoftwareAssignment/codes/lib/matrix/svd.c:104-106 | after subtracting its projection on a unit column, a vector is orthogonal to that column |
| Svd.UnitPrefixSquares | ai25btech11040/SoftwareAssignment/codes/lib/matrix/svd.c:114-115 | a prefix of e_i has sum of squares 1 if it contains i, else 0 |
| Svd.UnitIsUnit | ai25btech11040/SoftwareAssignment/codes/lib/matrix/svd.c:114-115 | e_i is a unit vector |
| Svd.FinishIsUnit | ai25btech11040/SoftwareAssignment/codes/lib/matrix/svd.c:108-118 | whether normalised or replaced by e_i, the column ends as a unit vector |
| Svd.ZeroColumnFallsBack | ai25btech11040/SoftwareAssignment/codes/lib/matrix/svd.c:112-115 | a zero vector stays zero under projection and falls back to e_i |
| Svd.ProjectAllOrthogonal | ai25btech11040/SoftwareAssignment/codes/lib/matrix/svd.c:102-107 | against orthonormal columns 0..j−1, the projection loop leaves the vector orthogonal to every one of them |
| Svd.DotDivided | ai25btech11040/SoftwareAssignment/codes/lib/matrix/svd.c:116-117 | dividing a vector by its norm divides its dot products by the norm |
| Svd.FinishOrthogonal | ai25btech11040/SoftwareAssignment/codes/lib/matrix/svd.c:108-118 | normalising without the fallback keeps a vector orthogonal to whatever it was orthogonal to |
| Svd.OrthonormalizeStep | ai25btech11040/SoftwareAssignment/codes/lib/matrix/svd.c:101-119 | with orthonormal earlier columns and no fallback, the new column is orthogonal to each earlier column |
| Svd.FallbackNotOrthogonal | ai25btech11040/SoftwareAssignment/codes/lib/matrix/svd.c:112-115 | with column 0 = (√½, √½) and a zero column 1, the fallback stores e_1, whose dot product with column 0 is √½ > 0: U is not orthogonal |
| Svd.DotZero | ai25btech11040/SoftwareAssignment/codes/lib/matrix/svd.c:105 | the dot product with the zero vector is 0 |
| Svd.ColumnsDot | ai25btech11040/SoftwareAssignment/codes/lib/matrix/svd.c:104-105 | the loop computes the dot product of columns j and i |
| Svd.ProjectColumn | ai25btech11040/SoftwareAssignment/codes/lib/matrix/svd.c:103-107 | column i loses its projection on column j; other columns are unchanged |
| Svd.NormalizeColumn | ai25btech11040/SoftwareAssignment/codes/lib/matrix/svd.c:108-118 | column i becomes Finish of its value; other columns are unchanged |
| Svd.ProjectPrevious | ai25btech11040/SoftwareAssignment/codes/lib/matrix/svd.c:103-107 | column i becomes its projection against columns 0..i−1 in turn; other columns are unchanged |
| Svd.ProjectAllFrame | ai25btech11040/SoftwareAssignment/codes/lib/matrix/svd.c:102-107 | the projections against columns 0..j−1 read only those columns of the matrix |
| Svd.OrthonormalizeColumn | ai25btech11040/SoftwareAssignment/codes/lib/matrix/svd.c:101-119 | column i becomes Finish of its projection against columns 0..i−1; other columns are unchanged |
| Svd.GramSchmidt | ai25btech11040/SoftwareAssignment/codes/lib/matrix/svd.c:100-119 | each of the first r columns ends as a unit vector; `fellBack` holds exactly when some step i's projected column had a norm below eps (read from the input column i and the finished columns 0..i−1); when none did, the r columns are pairwise orthogonal; later columns are unchanged |
| Svd.PassFrame | ai25btech11040/SoftwareAssignment/codes/lib/matrix/svd.c:100-119 | whether a step before i fell back depends only on columns 0..i−1 of the matrix it is read from |
| Svd.GramSchmidtColumn | ai25btech11040/SoftwareAssignment/codes/lib/matrix/svd.c:101-119 | one pass step: column i orthonormalised, the fallback record extended by step i, and "unit, and pairwise orthogonal when no step fell back" extended to columns 0..i |
| Svd.GramSchmidtTracked | ai25btech11040/SoftwareAssignment/codes/lib/matrix/svd.c:101-119 | from the matrix before a step to the one after: the columns so far gain the orthonormalised column, the fallback record gains step i, orthogonality is kept when no step fell back |
| Svd.PassStep | ai25btech11040/SoftwareAssignment/codes/lib/matrix/svd.c:108-115 | the fallback record over steps 0..i is the record over steps 0..i−1 or step i's own norm below eps |
| Svd.GramSchmidtStep | ai25btech11040/SoftwareAssignment/codes/lib/matrix/svd.c:101-119 | the new column is a unit vector; when its projection's norm is at least eps, pairwise orthogonal columns stay so with it added |
| Svd.FallbackMayStayOrthogonal | ai25btech11040/SoftwareAssignment/codes/lib/matrix/svd.c:112-115 | with column 0 = e_0 and a zero column 1, as for A = diag(1, 0), step 1 falls back to e_1, which is orthogonal to column 0 |
| Svd.Candidate | ai25btech11040/SoftwareAssignment/codes/lib/matrix/svd.c:141-147 | a seed's projected vector has length m |
| Svd.SeedLoop | ai25btech11040/SoftwareAssignment/codes/lib/matrix/svd.c:140-151 | the seed loop yields a vector of length m |
| Svd.CompletionVector | ai25btech11040/SoftwareAssignment/codes/lib/matrix/svd.c:124-167 | the vector left after the seeds and the retry has length m |
| Svd.CompletionColumn | ai25btech11040/SoftwareAssignment/codes/lib/matrix/svd.c:122-178 | the stored column has length m |
| Svd.CompletionIsUnit | ai25btech11040/SoftwareAssignment/codes/lib/matrix/svd.c:169-176 | every completed column is a unit vector, e_col as the last resort |
| Svd.SeedLoopStarts | ai25btech11040/SoftwareAssignment/codes/lib/matrix/svd.c:140 | a seed loop that ends degenerate started degenerate: a vector of norm at least eps ends it at once |
| Svd.SeedLoopIsCandidate | ai25btech11040/SoftwareAssignment/codes/lib/matrix/svd.c:140-151 | the seed loop, started from a seed's candidate, ends with some seed's candidate |
| Svd.CompletionIsCandidate | ai25btech11040/SoftwareAssignment/codes/lib/matrix/svd.c:124-167 | whichever branch the completion takes, its vector is the candidate of some seed |
| Svd.SeedLoopFrame | ai25btech11040/SoftwareAssignment/codes/lib/matrix/svd.c:140-151 | the seed loop reads only columns 0..col−1 |
| Svd.CompletionFrame | ai25btech11040/SoftwareAssignment/codes/lib/matrix/svd.c:124-167 | the completion vector of column col reads only columns 0..col−1 |
| Svd.CompletionOrthogonal | ai25btech11040/SoftwareAssignment/codes/lib/matrix/svd.c:124-176 | with orthonormal earlier columns and no last-resort fallback, the completed column is orthogonal to each of them |
| Svd.SeedLoopTried | ai25btech11040/SoftwareAssignment/codes/lib/matrix/svd.c:140-151 | when the seed loop from a given seed ends degenerate, the candidate of every seed from there to m − 1 was degenerate |
| Svd.RetryRedundant | ai25btech11040/SoftwareAssignment/codes/lib/matrix/svd.c:139-173 | for an exact square root: when the seed loop from e_col ends degenerate, the e_0 retry is degenerate too and the stored column is e_col. The hypothesis can hold only for m > 10^24, so for any image both fallbacks are dead code in exact arithmetic (a dimension argument, not formalised) |
| Svd.ColumnDot | ai25btech11040/SoftwareAssignment/codes/lib/matrix/svd.c:130-131 | the loop computes the dot product of column j and vec |
| Svd.SubtractColumn | ai25btech11040/SoftwareAssignment/codes/lib/matrix/svd.c:132 | vec loses dot times column j |
| Svd.ProjectVector | ai25btech11040/SoftwareAssignment/codes/lib/matrix/svd.c:129-133 | vec is projected against columns 0..count−1 |
| Svd.TrySeed | ai25btech11040/SoftwareAssignment/codes/lib/matrix/svd.c:141-150 | vec becomes the projected seed and norm its norm |
| Svd.StoreColumn | ai25btech11040/SoftwareAssignment/codes/lib/matrix/svd.c:169-176 | column col becomes vec divided by its norm, or e_col when the norm is below eps; other columns are unchanged |
| Svd.CompleteColumn | ai25btech11040/SoftwareAssignment/codes/lib/matrix/svd.c:123-177 | column col becomes the completion of the columns before it; other columns are unchanged |
| Svd.Complete | ai25btech11040/SoftwareAssignment/codes/lib/matrix/svd.c:121-178 | columns r..m−1 end as unit vectors; the first r are unchanged; `fellBack` holds exactly when some column's completion vector had a norm below eps; when none did and the first r came in orthonormal, all m columns end pairwise orthogonal |
| Svd.CompleteColumnTracked | ai25btech11040/SoftwareAssignment/codes/lib/matrix/svd.c:123-177 | one completion step: column col completed, the last-resort record extended by it, and the unit and orthogonality facts extended to it |
| Svd.CompletionTracked | ai25btech11040/SoftwareAssignment/codes/lib/matrix/svd.c:123-177 | the columns so far gain the completed unit column, and the last-resort record gains column col |
| Svd.CompletionStep | ai25btech11040/SoftwareAssignment/codes/lib/matrix/svd.c:123-177 | when the completion takes no last resort, pairwise orthogonal columns stay so with the completed column added |
| Svd.CompletionFlagStep | ai25btech11040/SoftwareAssignment/codes/lib/matrix/svd.c:169-173 | the last-resort record over columns r..col is the record over r..col−1 or column col's own norm below eps |
| Svd.SMatrixDiagonal | ai25btech11040/SoftwareAssignment/codes/lib/matrix/svd.c:67-73 | S is diagonal, which the low-rank product identity requires |
| Svd.BuildU | ai25btech11040/SoftwareAssignment/codes/lib/matrix/svd.c:77-178 | U is a fresh m×m matrix whose every column is a unit vector; `fellBack` holds exactly when a Gram–Schmidt step on an input column A·v_i/σ_i or a completion fell below eps; when none did, U's columns are pairwise orthogonal |
| Svd.FirstColumns | ai25btech11040/SoftwareAssignment/codes/lib/matrix/svd.c:77-119 | the first min(m, n) columns from A, V and S, orthonormalised: unit vectors, pairwise orthogonal unless a step fell back, which `passFell` records exactly |
| Svd.LeftInput | ai25btech11040/SoftwareAssignment/codes/lib/matrix/svd.c:85-98 | column i as the first stage leaves it: A·v_i/σ_i, or zeros for σ_i below eps |
| Svd.UBuilt | ai25btech11040/SoftwareAssignment/codes/lib/matrix/svd.c:77-178 | the fallback records of the two stages make up U's fallback record, and U is a left factor: unit columns, pairwise orthogonal when no fallback was taken |
| Svd.Factorize | ai25btech11040/SoftwareAssignment/codes/lib/matrix/svd.c:8-194 | from the eigenpairs: sorted stably, V their copy, S the m×n layout of their roots, U m×m with unit columns, pairwise orthogonal unless a fallback was taken while building it, which `fellBack` records exactly; the three fit low_rank_approx's shapes |

## Left out

- File I/O: `fopen`, `fread`, `fwrite`, `fseek` and `feof`. The signature check and the chunk functions take the file's bytes as a sequence.
- The cursor of the chunk loop over the file is not modelled; each chunk is modelled on its own by `ReadPng.ProcessChunk`.
- The `printf` output of tEXt and pHYs chunks is not modelled.
- zlib's `inflate` and `compress2` are foreign calls. The inflated stream is a parameter of `ReadPng.Unfilter`, and `SavePng.SavePng` returns the raw bytes it would compress. readpng.c:176-177 point the output of `inflate` back at the start of the buffer for every IDAT chunk, so with several IDAT chunks each chunk's output overwrites the previous one's; the model takes the whole stream as one parameter and does not capture this.
- zlib's `crc32` is taken to be the CRC of `Crc.CrcOf`, which is the same polynomial. The received CRCs are never checked by the reader, so no CRC check is modelled on decoding.
- The Jacobi `while (1)` loop as a whole is not modelled. It uses `atan2`, `cos`, `sin` and a floating-point convergence test, so its termination and accuracy are facts about floating point. The model covers its identity start, pivot search, one rotation step with given c and s, the extraction of eigenvalues and the column normalisation.
- `eigen_decomposition` is not called. `Svd.Factorize` takes its outputs (ev, evec) as parameters.
- `Svd.Factorize` does not compute AᵗA itself. `Matrix.Transpose`, `Matrix.Multiply` and `Matrix.GramSymmetric` model that part.
- Floating point: doubles are exact reals, so rounding, overflow and NaN are not modelled. `sqrt` is any function satisfying `Matrix.IsSqrt`.
- `Svd.GramSchmidt`: does not promise orthogonal columns outright, because a fallback (svd.c:112-115) can break orthogonality (`Svd.FallbackNotOrthogonal`). It promises them when no step took the fallback, and says exactly when one did.
- `Svd.BuildU`: states unit columns that are pairwise orthogonal when no fallback was taken, not UᵗU = I, which can fail once one is taken. A ≈ U·S·Vᵗ is not stated: it depends on the eigen-decomposition, which is an input here.
- `Matrix.Normalize`: requires a non-zero vector, because the source divides by a zero norm otherwise.
- `malloc`/`free` and the leaks are not modelled (for example the temporary vector in the sort). Fresh arrays stand for successful allocations.
- Negative dimensions in the matrix functions are not modelled: sizes are `nat`. `low_rank_approx`, which tests them, takes `int`.
- `ReadPng.Unfilter`: height and width are `nat`. A negative IHDR width or height, which `ReadPng.Int32At` can yield and readpng.c carries into its loops and its truncating `(width * bitDepth + 7) / 8`, is not modelled.
- `ReadPng.AssemblePixels`: sizes are `nat`, so negative IHDR sizes are not modelled. Like `ReadPng.AssembleRow` it requires the unfiltered entries to be bytes, which `ReadPng.Unfilter`'s output is.
- `ReadPng.AssembleSample`: the accumulator is an unbounded integer. In C it is an `int`, and readpng.c never rejects a bit depth, so from bit depth 25 upward the shifts overflow; that overflow is not modelled. The entries are required to be bytes, as `ReadPng.Unfilter` produces them.
- `Svd.Complete`: states that columns r .. m−1 end as unit vectors and the first r columns are untouched, not the contents of the new columns. `Svd.CompleteColumn` states each step's column exactly, as `Svd.CompletionColumn` of the matrix before that step, but the steps are not composed into one function of the starting matrix.
- Overflow of C `int` in `ihdr[1] * (ihdr[0] + 1) * ihdr[2] / 8` and in index arithmetic is not modelled.
- `main.c`, `helper.h` and the analysis script are not part of this model.

## Findings

| source | as written | input that shows it | evidently intended | confidence | as-written member | corrected member |
|---|---|---|---|---|---|---|
| ai25btech11040/SoftwareAssignment/codes/lib/png/readpng.c:174-178 | the inflate buffer is `height * (width + 1) * bitDepth / 8` bytes, but the unfiltering loop reads `height * ((width * bitDepth + 7) / 8 + 1)` bytes | bit depth 1, width 8, height 1: 1 byte allocated, 2 bytes read | allocate one filter byte plus the row bytes per scanline | not executed | ReadPng.AllocationTooSmallForOneBit | ReadPng.StreamBytesCoverScanlines |
