/** The bitmap reader and writer, as methods over a file cursor, and the round trip between them. */
module BitmapFile {
  import opened Arithmetic
  import opened Pixels
  import opened RowBytes

  type U16 = n: int | 0 <= n < 0x1_0000
  type U32 = n: int | 0 <= n < 0x1_0000_0000
  type I32 = n: int | -0x8000_0000 <= n < 0x8000_0000

  /** `bmp_header`: everything after the magic number. */
  datatype Header = Header(
    bfSize: U32, bfReserved: U32, bfOffBits: U32,
    biSize: U32, biWidth: I32, biHeight: I32, biPlanes: U16, biBitCount: U16,
    biCompression: U32, biSizeImage: U32, biXPelsPerMeter: I32, biYPelsPerMeter: I32,
    biClrUsed: U32, biClrImportant: U32) {

    /** `abs(biHeight)`. */
    function Rows(): nat {
      Abs(biHeight)
    }

    /** The row index of the code stays inside: of the negative heights, only -1 has no second row. */
    predicate Indexable() {
      0 <= biWidth && -1 <= biHeight
    }
  }

  datatype Bitmap = Bitmap(header: Header, pixels: Grid) {
    /** The pixel rows agree with the header. */
    predicate Consistent() {
      header.Indexable() && Shaped(pixels, header.biWidth, header.Rows())
    }
  }

  /** OutsideModel stands for headers on which the row arithmetic of the original underflows. */
  datatype Decoded = Ok(bitmap: Bitmap) | InvalidFile | ShortFile | OutsideModel

  const MAGIC: U16 := 19778
  const MAGIC_BYTES := 2
  const HEADER_BYTES := 52

  // ---- integers as little-endian bytes --------------------------------------------------------

  function LittleEndian(n: nat, count: nat): (b: seq<Byte>)
    ensures |b| == count
  {
    if count == 0 then [] else [n % 256] + LittleEndian(n / 256, count - 1)
  }

  function FromLittleEndian(b: seq<Byte>): nat {
    if b == [] then 0 else b[0] + 256 * FromLittleEndian(b[1..])
  }

  function Power256(count: nat): nat {
    if count == 0 then 1 else 256 * Power256(count - 1)
  }

  lemma {:induction false} LittleEndianRoundTrip(n: nat, count: nat)
    requires n < Power256(count)
    ensures FromLittleEndian(LittleEndian(n, count)) == n
  {
    if count > 0 {
      LittleEndianRoundTrip(n / 256, count - 1);
      assert LittleEndian(n, count)[1..] == LittleEndian(n / 256, count - 1);
    }
  }

  lemma {:induction false} FromLittleEndianRoundTrip(b: seq<Byte>)
    ensures FromLittleEndian(b) < Power256(|b|)
    ensures LittleEndian(FromLittleEndian(b), |b|) == b
  {
    if b != [] {
      FromLittleEndianRoundTrip(b[1..]);
      DivModUnique(FromLittleEndian(b), 256, FromLittleEndian(b[1..]), b[0]);
    }
  }

  // ---- the header as a list of fields ---------------------------------------------------------

  /** Two's complement. */
  function Unsigned(n: I32): U32 {
    if n < 0 then n + 0x1_0000_0000 else n
  }

  function Signed(n: U32): I32 {
    if n < 0x8000_0000 then n else n - 0x1_0000_0000
  }

  /** The struct has no padding: twelve four-byte fields around two two-byte ones. */
  const WIDTHS: seq<nat> := [4, 4, 4, 4, 4, 4, 2, 2, 4, 4, 4, 4, 4, 4]

  function Fields(h: Header): (f: seq<nat>)
    ensures |f| == |WIDTHS|
  {
    [h.bfSize, h.bfReserved, h.bfOffBits, h.biSize, Unsigned(h.biWidth), Unsigned(h.biHeight), h.biPlanes, h.biBitCount,
     h.biCompression, h.biSizeImage, Unsigned(h.biXPelsPerMeter), Unsigned(h.biYPelsPerMeter), h.biClrUsed, h.biClrImportant]
  }

  predicate Fit(f: seq<nat>, widths: seq<nat>) {
    |f| == |widths| && forall i :: 0 <= i < |f| ==> f[i] < Power256(widths[i])
  }

  lemma PowersOf256()
    ensures Power256(2) == 0x1_0000 && Power256(4) == 0x1_0000_0000
  {
    assert Power256(2) == 256 * Power256(1);
    assert Power256(4) == 256 * (256 * Power256(2));
  }

  function HeaderOf(f: seq<nat>): Header
    requires Fit(f, WIDTHS)
  {
    PowersOf256();
    Header(f[0], f[1], f[2], f[3], Signed(f[4]), Signed(f[5]), f[6], f[7],
           f[8], f[9], Signed(f[10]), Signed(f[11]), f[12], f[13])
  }

  lemma FieldsFit(h: Header)
    ensures Fit(Fields(h), WIDTHS) && HeaderOf(Fields(h)) == h
  {
    PowersOf256();
  }

  lemma HeaderOfFields(f: seq<nat>)
    requires Fit(f, WIDTHS)
    ensures Fields(HeaderOf(f)) == f
  {
    PowersOf256();
  }

  function TotalWidth(widths: seq<nat>): nat {
    if widths == [] then 0 else widths[0] + TotalWidth(widths[1..])
  }

  function EncodeFields(f: seq<nat>, widths: seq<nat>): (b: seq<Byte>)
    requires |f| == |widths|
    ensures |b| == TotalWidth(widths)
  {
    if f == [] then [] else LittleEndian(f[0], widths[0]) + EncodeFields(f[1..], widths[1..])
  }

  function DecodeFields(b: seq<Byte>, widths: seq<nat>): (f: seq<nat>)
    requires |b| == TotalWidth(widths)
    ensures |f| == |widths|
  {
    if widths == [] then [] else [FromLittleEndian(b[..widths[0]])] + DecodeFields(b[widths[0]..], widths[1..])
  }

  lemma {:induction false} DecodeEncodedFields(f: seq<nat>, widths: seq<nat>)
    requires Fit(f, widths)
    ensures DecodeFields(EncodeFields(f, widths), widths) == f
  {
    if f != [] {
      LittleEndianRoundTrip(f[0], widths[0]);
      DecodeEncodedFields(f[1..], widths[1..]);
      var b := EncodeFields(f, widths);
      assert b[..widths[0]] == LittleEndian(f[0], widths[0]);
      assert b[widths[0]..] == EncodeFields(f[1..], widths[1..]);
    }
  }

  lemma {:induction false} EncodeDecodedFields(b: seq<Byte>, widths: seq<nat>)
    requires |b| == TotalWidth(widths)
    ensures Fit(DecodeFields(b, widths), widths)
    ensures EncodeFields(DecodeFields(b, widths), widths) == b
  {
    if widths != [] {
      FromLittleEndianRoundTrip(b[..widths[0]]);
      EncodeDecodedFields(b[widths[0]..], widths[1..]);
      var f := DecodeFields(b, widths);
      assert f[1..] == DecodeFields(b[widths[0]..], widths[1..]);
      assert b == b[..widths[0]] + b[widths[0]..];
    }
  }

  lemma {:induction false} TotalOfTwoLists(a: seq<nat>, b: seq<nat>)
    ensures TotalWidth(a + b) == TotalWidth(a) + TotalWidth(b)
  {
    if a == [] {
      assert a + b == b;
    } else {
      assert (a + b)[1..] == a[1..] + b;
      TotalOfTwoLists(a[1..], b);
    }
  }

  lemma TotalOfThree()
    ensures TotalWidth([4, 4, 4]) == 12 && TotalWidth([2, 2]) == 4
  {
    assert [4, 4, 4][1..] == [4, 4] && [4, 4][1..] == [4] && [4][1..] == [];
    assert TotalWidth([4]) == 4 && TotalWidth([4, 4]) == 8;
    assert [2, 2][1..] == [2] && [2][1..] == [];
  }

  lemma HeaderTotal()
    ensures TotalWidth(WIDTHS) == HEADER_BYTES
  {
    var threeFours: seq<nat>, twoTwos: seq<nat> := [4, 4, 4], [2, 2];
    var sixFours := threeFours + threeFours;
    TotalOfThree();
    TotalOfTwoLists(threeFours, threeFours);
    TotalOfTwoLists(sixFours, twoTwos);
    TotalOfTwoLists(sixFours + twoTwos, sixFours);
    assert WIDTHS == sixFours + twoTwos + sixFours;
  }

  function EncodeHeader(h: Header): (b: seq<Byte>)
    ensures |b| == HEADER_BYTES
  {
    HeaderTotal();
    EncodeFields(Fields(h), WIDTHS)
  }

  function DecodeHeader(b: seq<Byte>): Header
    requires |b| == HEADER_BYTES
  {
    HeaderTotal();
    EncodeDecodedFields(b, WIDTHS);
    HeaderOf(DecodeFields(b, WIDTHS))
  }

  lemma HeaderRoundTrip(h: Header)
    ensures DecodeHeader(EncodeHeader(h)) == h
  {
    FieldsFit(h);
    DecodeEncodedFields(Fields(h), WIDTHS);
  }

  lemma HeaderBytesRoundTrip(b: seq<Byte>)
    requires |b| == HEADER_BYTES
    ensures EncodeHeader(DecodeHeader(b)) == b
  {
    HeaderTotal();
    EncodeDecodedFields(b, WIDTHS);
    HeaderOfFields(DecodeFields(b, WIDTHS));
  }

  /** What precedes the pixels: the magic number and the header. */
  function HeaderBytes(h: Header): (b: seq<Byte>)
    ensures |b| == MAGIC_BYTES + HEADER_BYTES
  {
    LittleEndian(MAGIC, MAGIC_BYTES) + EncodeHeader(h)
  }

  // ---- pixel rows -----------------------------------------------------------------------------

  /** `BMP_GET_PADDING`. */
  function PaddingOf(width: nat): nat {
    width % 4
  }

  /** Bytes of one stored row. */
  function RowLength(width: nat): nat {
    3 * width + PaddingOf(width)
  }

  /** The padding rule of the code gives the row stride of the format: 24-bit pixels rounded up to 32 bits. */
  lemma RowLengthIsStride(width: nat)
    ensures RowLength(width) % 4 == 0
    ensures RowLength(width) == (24 * width + 31) / 32 * 4
  {
  }

  function Zeros(n: nat): (b: seq<Byte>)
    ensures |b| == n
  {
    seq(n, _ => 0)
  }

  function EncodeRow(row: seq<Pixel>): (b: seq<Byte>)
    ensures |b| == RowLength(|row|)
  {
    Packed(row) + Zeros(PaddingOf(|row|))
  }

  /** The rows as stored, bottom row first, from the y-th stored row on. */
  function EncodeRows(pixels: Grid, y: nat): seq<Byte>
    requires y <= |pixels|
    decreases |pixels| - y
  {
    if y == |pixels| then [] else EncodeRow(pixels[|pixels| - 1 - y]) + EncodeRows(pixels, y + 1)
  }

  function Encode(img: Bitmap): seq<Byte> {
    HeaderBytes(img.header) + EncodeRows(img.pixels, 0)
  }

  datatype RowsResult = Rows(rows: Grid) | TooShort

  /** Reads n stored rows from a position; the last row's padding may be missing. */
  function DecodeRows(b: seq<Byte>, pos: nat, width: nat, n: nat): (r: RowsResult)
    ensures r.Rows? ==> |r.rows| == n
    decreases n
  {
    if n == 0 then Rows([])
    else if pos + 3 * width > |b| then TooShort
    else
      match DecodeRows(b, pos + RowLength(width), width, n - 1)
      case TooShort => TooShort
      case Rows(rows) => Rows([Unpacked(b[pos..pos + 3 * width], width)] + rows)
  }

  function Reversed(rows: Grid): (g: Grid)
    ensures |g| == |rows| && forall y :: 0 <= y < |rows| ==> g[y] == rows[|rows| - 1 - y]
  {
    seq(|rows|, y requires 0 <= y < |rows| => rows[|rows| - 1 - y])
  }

  /** What reading a file yields. */
  function Decode(b: seq<Byte>): Decoded {
    if |b| < MAGIC_BYTES || b[..MAGIC_BYTES] != LittleEndian(MAGIC, MAGIC_BYTES) then InvalidFile
    else if |b| < MAGIC_BYTES + HEADER_BYTES then ShortFile
    else
      var h := DecodeHeader(b[MAGIC_BYTES..MAGIC_BYTES + HEADER_BYTES]);
      if !h.Indexable() then OutsideModel
      else
        match DecodeRows(b, MAGIC_BYTES + HEADER_BYTES, h.biWidth, h.Rows())
        case TooShort => ShortFile
        case Rows(rows) => Ok(Bitmap(h, Reversed(rows)))
  }

  // ---- the round trips ------------------------------------------------------------------------

  /** The rows in stored order, from the y-th stored row on. */
  function StoredRows(pixels: Grid, y: nat): (rows: Grid)
    requires y <= |pixels|
    ensures |rows| == |pixels| - y
    decreases |pixels| - y
  {
    if y == |pixels| then [] else [pixels[|pixels| - 1 - y]] + StoredRows(pixels, y + 1)
  }

  lemma {:induction false} StoredRowAt(pixels: Grid, y: nat, i: nat)
    requires y + i < |pixels|
    ensures StoredRows(pixels, y)[i] == pixels[|pixels| - 1 - y - i]
    decreases i
  {
    if i > 0 {
      StoredRowAt(pixels, y + 1, i - 1);
    }
  }

  lemma ReversedStoredRows(pixels: Grid)
    ensures Reversed(StoredRows(pixels, 0)) == pixels
  {
    forall y | 0 <= y < |pixels|
      ensures Reversed(StoredRows(pixels, 0))[y] == pixels[y]
    {
      StoredRowAt(pixels, 0, |pixels| - 1 - y);
    }
  }

  /** The bytes of a pixel row stand at a position. */
  predicate RowStandsAt(b: seq<Byte>, at: nat, row: seq<Pixel>) {
    at + 3 * |row| <= |b| && b[at..at + 3 * |row|] == Packed(row)
  }

  lemma RowStandsBehind(prefix: seq<Byte>, row: seq<Pixel>, rest: seq<Byte>)
    ensures RowStandsAt(prefix + EncodeRow(row) + rest, |prefix|, row)
  {
    var bytes, padding := Packed(row), Zeros(PaddingOf(|row|));
    assert prefix + (bytes + padding) + rest == prefix + bytes + (padding + rest);
    MiddleSlice(prefix, bytes, padding + rest);
  }

  lemma JoinBytes(a: seq<Byte>, b: seq<Byte>, c: seq<Byte>)
    ensures a + (b + c) == a + b + c
  {
  }

  lemma EncodeRowsFrom(prefix: seq<Byte>, pixels: Grid, y: nat)
    requires y < |pixels|
    ensures prefix + EncodeRows(pixels, y) == (prefix + EncodeRow(pixels[|pixels| - 1 - y])) + EncodeRows(pixels, y + 1)
    ensures RowStandsAt(prefix + EncodeRows(pixels, y), |prefix|, pixels[|pixels| - 1 - y])
  {
    var row, rest := pixels[|pixels| - 1 - y], EncodeRows(pixels, y + 1);
    JoinBytes(prefix, EncodeRow(row), rest);
    RowStandsBehind(prefix, row, rest);
  }

  lemma DecodeFirstRow(b: seq<Byte>, pos: nat, row: seq<Pixel>, n: nat, rest: Grid)
    requires 0 < n && RowStandsAt(b, pos, row)
    requires DecodeRows(b, pos + RowLength(|row|), |row|, n - 1) == Rows(rest)
    ensures DecodeRows(b, pos, |row|, n) == Rows([row] + rest)
  {
    UnpackedPacked(row);
  }

  lemma {:induction false} DecodeEncodedRows(b: seq<Byte>, prefix: seq<Byte>, pixels: Grid, width: nat, y: nat)
    requires y <= |pixels| && Shaped(pixels, width, |pixels|) && b == prefix + EncodeRows(pixels, y)
    ensures DecodeRows(b, |prefix|, width, |pixels| - y) == Rows(StoredRows(pixels, y))
    decreases |pixels| - y
  {
    if y < |pixels| {
      var row := pixels[|pixels| - 1 - y];
      assert |row| == width;
      EncodeRowsFrom(prefix, pixels, y);
      DecodeEncodedRows(b, prefix + EncodeRow(row), pixels, width, y + 1);
      DecodeFirstRow(b, |prefix|, row, |pixels| - y, StoredRows(pixels, y + 1));
    }
  }

  /** The bytes before the pixels read back as the header. */
  predicate ReadsAs(prefix: seq<Byte>, h: Header) {
    && |prefix| == MAGIC_BYTES + HEADER_BYTES && prefix[..MAGIC_BYTES] == LittleEndian(MAGIC, MAGIC_BYTES)
    && DecodeHeader(prefix[MAGIC_BYTES..]) == h
  }

  lemma HeaderBytesRead(h: Header)
    ensures ReadsAs(HeaderBytes(h), h)
  {
    HeaderRoundTrip(h);
  }

  lemma DecodeParts(prefix: seq<Byte>, rest: seq<Byte>, h: Header, rows: Grid)
    requires ReadsAs(prefix, h) && h.Indexable()
    requires DecodeRows(prefix + rest, MAGIC_BYTES + HEADER_BYTES, h.biWidth, h.Rows()) == Rows(rows)
    ensures Decode(prefix + rest) == Ok(Bitmap(h, Reversed(rows)))
  {
    var b := prefix + rest;
    assert b[..MAGIC_BYTES] == prefix[..MAGIC_BYTES];
    assert b[MAGIC_BYTES..MAGIC_BYTES + HEADER_BYTES] == prefix[MAGIC_BYTES..];
  }

  lemma DecodeAfterHeader(prefix: seq<Byte>, h: Header, pixels: Grid)
    requires ReadsAs(prefix, h) && h.Indexable() && Shaped(pixels, h.biWidth, h.Rows())
    ensures Decode(prefix + EncodeRows(pixels, 0)) == Ok(Bitmap(h, pixels))
  {
    DecodeEncodedRows(prefix + EncodeRows(pixels, 0), prefix, pixels, h.biWidth, 0);
    DecodeParts(prefix, EncodeRows(pixels, 0), h, StoredRows(pixels, 0));
    ReversedStoredRows(pixels);
  }

  /** Reading what was written returns the same header and pixels, for every width. */
  lemma DecodeEncode(img: Bitmap)
    requires img.Consistent()
    ensures Decode(Encode(img)) == Ok(img)
  {
    HeaderBytesRead(img.header);
    DecodeAfterHeader(HeaderBytes(img.header), img.header, img.pixels);
  }

  /** The bytes at which a stored row begins. */
  function RowStart(width: nat, y: nat): nat {
    if y == 0 then MAGIC_BYTES + HEADER_BYTES else RowStart(width, y - 1) + RowLength(width)
  }

  lemma FirstDecodedRow(b: seq<Byte>, pos: nat, width: nat, n: nat)
    requires DecodeRows(b, pos, width, n).Rows? && 0 < n
    ensures RowStandsAt(b, pos, DecodeRows(b, pos, width, n).rows[0])
  {
    PackedUnpacked(b[pos..pos + 3 * width], width);
  }

  lemma LaterDecodedRow(b: seq<Byte>, pos: nat, width: nat, n: nat, y: nat)
    requires DecodeRows(b, pos, width, n).Rows? && 0 < y < n
    ensures DecodeRows(b, pos + RowLength(width), width, n - 1).Rows?
    ensures DecodeRows(b, pos, width, n).rows[y] == DecodeRows(b, pos + RowLength(width), width, n - 1).rows[y - 1]
  {
  }

  /** The rows read from the `first` stored one on: where the y-th stands. */
  lemma {:induction false} DecodedRowBytes(b: seq<Byte>, pos: nat, width: nat, n: nat, first: nat, y: nat)
    requires first <= y < first + n && DecodeRows(b, pos, width, n).Rows? && pos == RowStart(width, first)
    ensures RowStandsAt(b, RowStart(width, y), DecodeRows(b, pos, width, n).rows[y - first])
    decreases n
  {
    if first == y {
      FirstDecodedRow(b, pos, width, n);
    } else {
      LaterDecodedRow(b, pos, width, n, y - first);
      assert RowStart(width, first + 1) == pos + RowLength(width);
      DecodedRowBytes(b, pos + RowLength(width), width, n - 1, first + 1, y);
    }
  }

  lemma {:induction false} DecodedShape(b: seq<Byte>, pos: nat, width: nat, n: nat)
    requires DecodeRows(b, pos, width, n).Rows?
    ensures Shaped(DecodeRows(b, pos, width, n).rows, width, n)
    decreases n
  {
    if n > 0 {
      DecodedShape(b, pos + RowLength(width), width, n - 1);
    }
  }

  lemma DecodedConsistent(b: seq<Byte>)
    requires Decode(b).Ok?
    ensures Decode(b).bitmap.Consistent()
  {
    var h := Decode(b).bitmap.header;
    DecodedShape(b, MAGIC_BYTES + HEADER_BYTES, h.biWidth, h.Rows());
  }

  lemma HeadOfTwo(b: seq<Byte>, m: nat, n: nat, first: seq<Byte>, second: seq<Byte>)
    requires m + n <= |b| && b[..m] == first && b[m..m + n] == second
    ensures b[..m + n] == first + second
  {
  }

  lemma DecodedHeaderBytes(b: seq<Byte>)
    requires Decode(b).Ok?
    ensures b[..MAGIC_BYTES + HEADER_BYTES] == HeaderBytes(Decode(b).bitmap.header)
  {
    HeaderBytesRoundTrip(b[MAGIC_BYTES..MAGIC_BYTES + HEADER_BYTES]);
    HeadOfTwo(b, MAGIC_BYTES, HEADER_BYTES, LittleEndian(MAGIC, MAGIC_BYTES), EncodeHeader(Decode(b).bitmap.header));
  }

  lemma DecodedRows(b: seq<Byte>)
    requires Decode(b).Ok?
    ensures var img := Decode(b).bitmap;
            && img.header.Indexable()
            && DecodeRows(b, MAGIC_BYTES + HEADER_BYTES, img.header.biWidth, img.header.Rows()).Rows?
            && img.pixels == Reversed(DecodeRows(b, MAGIC_BYTES + HEADER_BYTES, img.header.biWidth, img.header.Rows()).rows)
  {
  }

  lemma StoredRowBytes(b: seq<Byte>, pos: nat, width: nat, n: nat, y: nat, pixels: Grid)
    requires DecodeRows(b, pos, width, n).Rows? && y < n && pos == RowStart(width, 0)
    requires pixels == Reversed(DecodeRows(b, pos, width, n).rows)
    ensures |pixels| == n && RowStandsAt(b, RowStart(width, y), pixels[n - 1 - y])
  {
    DecodedRowBytes(b, pos, width, n, 0, y);
  }

  /** Whatever file is read successfully, the bytes of every stored row are those of the picture's row. */
  lemma DecodedPixelBytes(b: seq<Byte>, y: nat)
    requires Decode(b).Ok? && y < Decode(b).bitmap.header.Rows()
    ensures Decode(b).bitmap.Consistent()
    ensures var img := Decode(b).bitmap;
            RowStandsAt(b, RowStart(img.header.biWidth, y), img.pixels[img.header.Rows() - 1 - y])
  {
    DecodedConsistent(b);
    DecodedRows(b);
    var img := Decode(b).bitmap;
    StoredRowBytes(b, MAGIC_BYTES + HEADER_BYTES, img.header.biWidth, img.header.Rows(), y, img.pixels);
  }

  // ---- the default header ---------------------------------------------------------------------

  /** `bmp_header_init_df`; the size field is computed in 32 bits. */
  function DefaultHeader(width: I32, height: I32): Header
    requires 0 <= width
  {
    Header((RowLength(width) * Abs(height)) % 0x1_0000_0000, 0, 54, 40, width, height, 1, 24, 0, 0, 0, 0, 0, 0)
  }

  lemma {:induction false} EncodedRowsLength(pixels: Grid, width: nat, y: nat)
    requires y <= |pixels| && Shaped(pixels, width, |pixels|)
    ensures |EncodeRows(pixels, y)| == RowLength(width) * (|pixels| - y)
    decreases |pixels| - y
  {
    if y < |pixels| {
      EncodedRowsLength(pixels, width, y + 1);
      Distribute(RowLength(width), |pixels| - y - 1, 1);
    }
  }

  lemma SizeFieldOf(length: nat, n: nat, size: nat)
    requires length == 54 + n && size == n % 0x1_0000_0000
    ensures size == (length - 54) % 0x1_0000_0000
    ensures length == 54 + size <==> n < 0x1_0000_0000
  {
  }

  lemma EncodedLength(img: Bitmap)
    requires img.Consistent()
    ensures |Encode(img)| == 54 + RowLength(img.header.biWidth) * img.header.Rows()
  {
    EncodedRowsLength(img.pixels, img.header.biWidth, 0);
  }

  /** The size field counts the stored rows but not the 54 bytes before them; it is exact as long as it does not overflow. */
  lemma DefaultFileLength(img: Bitmap)
    requires img.Consistent() && img.header == DefaultHeader(img.header.biWidth, img.header.biHeight)
    ensures img.header.bfSize == (|Encode(img)| - 54) % 0x1_0000_0000
    ensures |Encode(img)| == 54 + img.header.bfSize <==> RowLength(img.header.biWidth) * img.header.Rows() < 0x1_0000_0000
  {
    var stored := RowLength(img.header.biWidth) * img.header.Rows();
    EncodedLength(img);
    SizeFieldOf(|Encode(img)|, stored, img.header.bfSize);
  }

  // ---- the bytes of the format ----------------------------------------------------------------

  lemma MagicIsBM()
    ensures LittleEndian(MAGIC, MAGIC_BYTES) == [0x42, 0x4D]
  {
    assert LittleEndian(MAGIC, 2) == [MAGIC % 256] + LittleEndian(MAGIC / 256, 1);
    assert LittleEndian(MAGIC / 256, 1) == [MAGIC / 256 % 256];
  }

  /** Every written file begins with the letters BM. */
  lemma WrittenMagic(img: Bitmap)
    ensures 2 <= |Encode(img)| && Encode(img)[0] == 0x42 && Encode(img)[1] == 0x4D
  {
    MagicIsBM();
    assert HeaderBytes(img.header)[..2] == LittleEndian(MAGIC, MAGIC_BYTES);
    assert Encode(img)[0] == HeaderBytes(img.header)[..2][0] && Encode(img)[1] == HeaderBytes(img.header)[..2][1];
  }

  /** A file is refused as no bitmap exactly when it does not begin with them. */
  lemma InvalidIff(b: seq<Byte>)
    ensures Decode(b).InvalidFile? <==> |b| < 2 || b[0] != 0x42 || b[1] != 0x4D
  {
    MagicIsBM();
    if |b| >= 2 {
      assert b[..2] == [b[0], b[1]];
    }
  }

  /** Four bytes and two bytes of a file as numbers, least significant byte first. */
  function Word(b: seq<Byte>, at: nat): nat
    requires at + 4 <= |b|
  {
    (b[at] as int) + 0x100 * (b[at + 1] as int) + 0x1_0000 * (b[at + 2] as int) + 0x100_0000 * (b[at + 3] as int)
  }

  function Half(b: seq<Byte>, at: nat): nat
    requires at + 2 <= |b|
  {
    (b[at] as int) + 0x100 * (b[at + 1] as int)
  }

  lemma FourBytes(b: seq<Byte>)
    requires |b| == 4
    ensures FromLittleEndian(b) == Word(b, 0)
  {
    assert b[1..][1..] == b[2..] && b[2..][1..] == b[3..] && b[3..][1..] == [];
    assert FromLittleEndian(b[2..]) == b[2] + 256 * FromLittleEndian(b[3..]);
    assert FromLittleEndian(b[3..]) == b[3];
  }

  lemma TwoBytes(b: seq<Byte>)
    requires |b| == 2
    ensures FromLittleEndian(b) == Half(b, 0)
  {
    assert b[1..][1..] == [];
    assert FromLittleEndian(b[1..]) == b[1];
  }

  /** The bytes before field k. */
  function Offset(widths: seq<nat>, k: nat): nat
    requires k <= |widths|
    decreases k
  {
    if k == 0 then 0 else Offset(widths, k - 1) + widths[k - 1]
  }

  /** The fields from the k-th on are those of the bytes from its offset on. */
  lemma {:induction false} FieldsFrom(b: seq<Byte>, widths: seq<nat>, k: nat)
    requires |b| == TotalWidth(widths) && k <= |widths|
    ensures Offset(widths, k) <= |b| && |b[Offset(widths, k)..]| == TotalWidth(widths[k..])
    ensures DecodeFields(b, widths)[k..] == DecodeFields(b[Offset(widths, k)..], widths[k..])
  {
    if k == 0 {
      assert b[0..] == b && widths[0..] == widths && DecodeFields(b, widths)[0..] == DecodeFields(b, widths);
    } else {
      FieldsFrom(b, widths, k - 1);
      var rest, tail := b[Offset(widths, k - 1)..], widths[k - 1..];
      assert tail[1..] == widths[k..] && rest[tail[0]..] == b[Offset(widths, k)..];
      assert DecodeFields(b, widths)[k..] == DecodeFields(b, widths)[k - 1..][1..];
    }
  }

  lemma FieldAt(b: seq<Byte>, widths: seq<nat>, k: nat)
    requires |b| == TotalWidth(widths) && k < |widths|
    ensures Offset(widths, k) + widths[k] <= |b|
    ensures DecodeFields(b, widths)[k] == FromLittleEndian(b[Offset(widths, k)..Offset(widths, k) + widths[k]])
  {
    FieldsFrom(b, widths, k);
    var rest, tail := b[Offset(widths, k)..], widths[k..];
    assert rest[..tail[0]] == b[Offset(widths, k)..Offset(widths, k) + widths[k]];
    assert DecodeFields(b, widths)[k] == DecodeFields(b, widths)[k..][0];
  }

  lemma {:induction false} OffsetOfEqual(widths: seq<nat>, from: nat, w: nat, i: nat)
    requires from + i <= |widths| && forall k :: from <= k < from + i ==> widths[k] == w
    ensures Offset(widths, from + i) == Offset(widths, from) + w * i
    decreases i
  {
    if i > 0 {
      OffsetOfEqual(widths, from, w, i - 1);
    }
  }

  lemma SliceOfSlice(b: seq<Byte>, from: nat, to: nat, i: nat, j: nat)
    requires from <= to <= |b| && i <= j <= to - from
    ensures b[from..to][i..j] == b[from + i..from + j]
  {
    assert forall n :: 0 <= n < j - i ==> b[from..to][i..j][n] == b[from + i..from + j][n];
  }

  /** A field of a whole file: the magic number shifts every offset by two. */
  lemma FieldInFile(b: seq<Byte>, widths: seq<nat>, k: nat)
    requires 2 + TotalWidth(widths) <= |b| && k < |widths|
    ensures 2 + Offset(widths, k) + widths[k] <= |b|
    ensures DecodeFields(b[2..2 + TotalWidth(widths)], widths)[k]
         == FromLittleEndian(b[2 + Offset(widths, k)..2 + Offset(widths, k) + widths[k]])
  {
    var total, at := TotalWidth(widths), Offset(widths, k);
    FieldAt(b[2..2 + total], widths, k);
    SliceOfSlice(b, 2, 2 + total, at, at + widths[k]);
  }

  lemma WordField(b: seq<Byte>, widths: seq<nat>, k: nat, at: nat)
    requires 2 + TotalWidth(widths) <= |b| && k < |widths| && widths[k] == 4 && at == 2 + Offset(widths, k)
    ensures at + 4 <= |b| && DecodeFields(b[2..2 + TotalWidth(widths)], widths)[k] == Word(b, at)
  {
    FieldInFile(b, widths, k);
    FourBytes(b[at..at + 4]);
  }

  lemma HalfField(b: seq<Byte>, widths: seq<nat>, k: nat, at: nat)
    requires 2 + TotalWidth(widths) <= |b| && k < |widths| && widths[k] == 2 && at == 2 + Offset(widths, k)
    ensures at + 2 <= |b| && DecodeFields(b[2..2 + TotalWidth(widths)], widths)[k] == Half(b, at)
  {
    FieldInFile(b, widths, k);
    TwoBytes(b[at..at + 2]);
  }

  /** Field k as bytes of the file. */
  function FieldBytes(b: seq<Byte>, k: nat): nat
    requires 54 <= |b| && k < 14
  {
    if k < 6 then Word(b, 2 + 4 * k) else if k < 8 then Half(b, 14 + 2 * k) else Word(b, 4 * k - 2)
  }

  predicate FieldsStand(f: seq<nat>, b: seq<Byte>)
    requires |f| == 14 && 54 <= |b|
  {
    forall k :: 0 <= k < 14 ==> f[k] == FieldBytes(b, k)
  }

  /** Which widths stand where. */
  predicate HeaderWidths(widths: seq<nat>) {
    && |widths| == 14 && TotalWidth(widths) == 52
    && (forall k :: 0 <= k < 6 ==> widths[k] == 4 && Offset(widths, k) == 4 * k)
    && (forall k :: 6 <= k < 8 ==> widths[k] == 2 && Offset(widths, k) == 2 * k + 12)
    && (forall k :: 8 <= k < 14 ==> widths[k] == 4 && Offset(widths, k) == 4 * k - 4)
  }

  lemma WidthsOf(widths: seq<nat>)
    requires widths == WIDTHS
    ensures |widths| == 14 && forall k :: 0 <= k < 14 ==> widths[k] == if 6 <= k < 8 then 2 else 4
  {
  }

  lemma HeaderHasWidths(widths: seq<nat>)
    requires widths == WIDTHS
    ensures HeaderWidths(widths)
  {
    HeaderTotal();
    WidthsOf(widths);
    OffsetsOfHeader(widths);
  }

  lemma OffsetsOfHeader(widths: seq<nat>)
    requires |widths| == 14 && TotalWidth(widths) == 52
    requires forall k :: 0 <= k < 14 ==> widths[k] == if 6 <= k < 8 then 2 else 4
    ensures HeaderWidths(widths)
  {
    forall k | 0 <= k < 14
      ensures Offset(widths, k) == if k < 6 then 4 * k else if k < 8 then 2 * k + 12 else 4 * k - 4
    {
      if k <= 6 {
        OffsetOfEqual(widths, 0, 4, k);
      } else {
        OffsetOfEqual(widths, 0, 4, 6);
        OffsetOfEqual(widths, 6, 2, if k <= 8 then k - 6 else 2);
        OffsetOfEqual(widths, 8, 4, if k <= 8 then 0 else k - 8);
      }
    }
  }

  lemma FieldsStandInFile(b: seq<Byte>, widths: seq<nat>)
    requires 54 <= |b| && HeaderWidths(widths)
    ensures FieldsStand(DecodeFields(b[2..54], widths), b)
  {
    forall k | 0 <= k < 14
      ensures DecodeFields(b[2..54], widths)[k] == FieldBytes(b, k)
    {
      if 6 <= k < 8 {
        HalfField(b, widths, k, 14 + 2 * k);
      } else {
        WordField(b, widths, k, if k < 6 then 2 + 4 * k else 4 * k - 2);
      }
    }
  }

  lemma DecodedFieldsFit(h: seq<Byte>) returns (widths: seq<nat>, f: seq<nat>)
    requires |h| == 52
    ensures widths == WIDTHS && TotalWidth(widths) == 52 && f == DecodeFields(h, widths)
    ensures Fit(f, WIDTHS) && DecodeHeader(h) == HeaderOf(f)
  {
    HeaderTotal();
    widths := WIDTHS;
    EncodeDecodedFields(h, widths);
    f := DecodeFields(h, widths);
  }

  lemma HeaderFieldBytes(b: seq<Byte>) returns (f: seq<nat>)
    requires 54 <= |b|
    ensures Fit(f, WIDTHS) && FieldsStand(f, b) && DecodeHeader(b[2..54]) == HeaderOf(f)
  {
    var widths;
    widths, f := DecodedFieldsFit(b[2..54]);
    HeaderHasWidths(widths);
    FieldsStandInFile(b, widths);
  }

  /** The position of every header field in a file, least significant byte first, four fields in two's complement. */
  lemma DecodedFields(b: seq<Byte>)
    requires Decode(b).Ok?
    ensures 54 <= |b|
    ensures var h := Decode(b).bitmap.header;
            && h.bfSize == Word(b, 2) && h.bfReserved == Word(b, 6) && h.bfOffBits == Word(b, 10) && h.biSize == Word(b, 14)
            && h.biPlanes == Half(b, 26) && h.biBitCount == Half(b, 28)
            && h.biCompression == Word(b, 30) && h.biSizeImage == Word(b, 34)
            && h.biClrUsed == Word(b, 46) && h.biClrImportant == Word(b, 50)
    ensures var h := Decode(b).bitmap.header;
            && TwosComplement(h.biWidth, b, 18) && TwosComplement(h.biHeight, b, 22)
            && TwosComplement(h.biXPelsPerMeter, b, 38) && TwosComplement(h.biYPelsPerMeter, b, 42)
  {
    var f := HeaderFieldBytes(b);
  }

  /** A signed field: the highest bit stands for minus 2^31. */
  predicate TwosComplement(n: int, b: seq<Byte>, at: nat)
    requires at + 4 <= |b|
  {
    n == Word(b, at) - (if b[at + 3] >= 0x80 then 0x1_0000_0000 else 0)
  }

  /** The fixed fields of the file that a picture with a default header is written to. */
  lemma WrittenDefaults(img: Bitmap)
    requires img.Consistent() && img.header == DefaultHeader(img.header.biWidth, img.header.biHeight)
    ensures 54 <= |Encode(img)|
    ensures var b := Encode(img);
            && TwosComplement(img.header.biWidth, b, 18) && TwosComplement(img.header.biHeight, b, 22)
            && Word(b, 10) == 54 && Word(b, 14) == 40 && Half(b, 26) == 1 && Half(b, 28) == 24
            && Word(b, 6) == 0 && (forall at :: at in {30, 34, 38, 42, 46, 50} ==> Word(b, at) == 0)
  {
    DecodeEncode(img);
    DecodedFields(Encode(img));
  }

  lemma {:induction false} RowStartIs(width: nat, y: nat)
    ensures RowStart(width, y) == 54 + RowLength(width) * y
  {
    if y > 0 {
      RowStartIs(width, y - 1);
      Distribute(RowLength(width), y - 1, 1);
    }
  }

  /** Rows are read exactly if the pixels of the last one are there, whether or not its padding is. */
  lemma {:induction false} RowsFitIff(b: seq<Byte>, pos: nat, width: nat, n: nat)
    requires 0 < n
    ensures DecodeRows(b, pos, width, n).Rows? <==> pos + RowLength(width) * (n - 1) + 3 * width <= |b|
    decreases n
  {
    FactorOrder(RowLength(width), 0, n - 1);
    if n > 1 {
      RowsFitIff(b, pos + RowLength(width), width, n - 1);
      Distribute(RowLength(width), n - 2, 1);
    }
  }

  /** Which files are read: the two letters, a whole header of usable sizes, and the pixels of every row. */
  lemma ReadableIff(b: seq<Byte>)
    ensures Decode(b).Ok? <==>
      && 54 <= |b| && b[0] == 0x42 && b[1] == 0x4D
      && var h := DecodeHeader(b[2..54]);
         h.Indexable() && (h.Rows() == 0 || 54 + RowLength(h.biWidth) * (h.Rows() - 1) + 3 * h.biWidth <= |b|)
  {
    InvalidIff(b);
    if 54 <= |b| {
      var h := DecodeHeader(b[2..54]);
      if h.Indexable() && 0 < h.Rows() {
        RowsFitIff(b, 54, h.biWidth, h.Rows());
      }
    }
  }

  /** All bytes of b from one position up to another are zero. */
  predicate ZerosAt(b: seq<Byte>, from: nat, to: nat) {
    to <= |b| && forall i :: from <= i < to ==> b[i] == 0
  }

  lemma FirstRowPadding(prefix: seq<Byte>, row: seq<Pixel>, rest: seq<Byte>)
    ensures ZerosAt(prefix + EncodeRow(row) + rest, |prefix| + 3 * |row|, |prefix| + RowLength(|row|))
  {
  }

  lemma EncodedPadding(b: seq<Byte>, prefix: seq<Byte>, pixels: Grid, width: nat, first: nat, y: nat)
    requires first <= y < |pixels| && Shaped(pixels, width, |pixels|)
    requires b == prefix + EncodeRows(pixels, first) && |prefix| == RowStart(width, first)
    ensures ZerosAt(b, RowStart(width, y) + 3 * width, RowStart(width, y + 1))
    decreases y - first
  {
    EncodeRowsFrom(prefix, pixels, first);
    var row, rest := pixels[|pixels| - 1 - first], EncodeRows(pixels, first + 1);
    assert |row| == width;
    if first == y {
      FirstRowPadding(prefix, row, rest);
    } else {
      EncodedPadding(b, prefix + EncodeRow(row), pixels, width, first + 1, y);
    }
  }

  lemma WrittenPixels(b: seq<Byte>, img: Bitmap, width: nat, y: nat)
    requires img.Consistent() && width == img.header.biWidth && y < |img.pixels| && b == Encode(img)
    ensures RowStandsAt(b, RowStart(width, y), img.pixels[|img.pixels| - 1 - y])
  {
    DecodeEncode(img);
    DecodedPixelBytes(b, y);
  }

  lemma WrittenPadding(img: Bitmap, width: nat, y: nat)
    requires img.Consistent() && width == img.header.biWidth && y < |img.pixels|
    ensures ZerosAt(Encode(img), RowStart(width, y) + 3 * width, RowStart(width, y + 1))
  {
    EncodedPadding(Encode(img), HeaderBytes(img.header), img.pixels, width, 0, y);
  }

  /** A written file is its header, and then each row from the bottom up: blue, green, red, and zeros up to the stride. */
  lemma WrittenRows(img: Bitmap, width: nat, y: nat)
    requires img.Consistent() && width == img.header.biWidth && y < |img.pixels|
    ensures RowStandsAt(Encode(img), RowStart(width, y), img.pixels[|img.pixels| - 1 - y])
    ensures ZerosAt(Encode(img), RowStart(width, y) + 3 * width, RowStart(width, y + 1))
  {
    WrittenPixels(Encode(img), img, width, y);
    WrittenPadding(img, width, y);
  }

  /** Nothing follows the rows. */
  lemma WrittenLength(img: Bitmap)
    requires img.Consistent()
    ensures |Encode(img)| == RowStart(img.header.biWidth, |img.pixels|)
  {
    EncodedLength(img);
    RowStartIs(img.header.biWidth, |img.pixels|);
  }

  // ---- the file loops -------------------------------------------------------------------------

  /** A file opened for binary reading or writing. */
  class BinaryFile {
    var data: seq<Byte>
    var pos: nat

    constructor (content: seq<Byte>)
      ensures data == content && pos == 0
    {
      data := content;
      pos := 0;
    }

    /** `fwrite` at the end of the file. */
    method Append(b: seq<Byte>)
      modifies this
      ensures data == old(data) + b && pos == old(pos)
    {
      data := data + b;
    }

    /** `fread`: the bytes asked for, or as many as there are. */
    method Read(count: nat) returns (b: seq<Byte>)
      modifies this`pos
      ensures old(pos) + count <= |data| ==> b == data[old(pos)..old(pos) + count] && pos == old(pos) + count
      ensures old(pos) + count > |data| ==> |b| < count || count == 0
    {
      if pos + count <= |data| {
        b := data[pos..pos + count];
        pos := pos + count;
      } else if pos <= |data| {
        b := data[pos..];
        pos := |data|;
      } else {
        b := [];
      }
    }

    /** `fseek(..., SEEK_CUR)`, which may move past the end. */
    method Skip(count: nat)
      modifies this`pos
      ensures pos == old(pos) + count
    {
      pos := pos + count;
    }
  }

  /** One stored row: the pixels and then the padding. */
  method WriteRow(row: seq<Pixel>, file: BinaryFile)
    modifies file
    ensures file.data == old(file.data) + EncodeRow(row)
  {
    AppendBoth(Packed(row), Zeros(PaddingOf(|row|)), file);
  }

  /** `bmp_header_write`. */
  method WriteHeader(header: Header, file: BinaryFile)
    modifies file
    ensures file.data == old(file.data) + HeaderBytes(header)
  {
    AppendBoth(LittleEndian(MAGIC, MAGIC_BYTES), EncodeHeader(header), file);
  }

  method AppendBoth(first: seq<Byte>, second: seq<Byte>, file: BinaryFile)
    modifies file
    ensures file.data == old(file.data) + (first + second)
  {
    file.Append(first);
    file.Append(second);
  }

  /** `bmp_img_write`. */
  method WriteImage(img: Bitmap, file: BinaryFile)
    requires img.Consistent() && file.data == []
    modifies file
    ensures file.data == Encode(img)
  {
    WriteHeader(img.header, file);
    WriteRows(img, file, Encode(img));
  }

  /** The row loop of `bmp_img_write`. */
  method WriteRows(img: Bitmap, file: BinaryFile, ghost whole: seq<Byte>)
    requires img.Consistent() && whole == file.data + EncodeRows(img.pixels, 0)
    modifies file
    ensures file.data == whole
  {
    var h := |img.pixels|;
    var offset := if h > 0 then h - 1 else 0;
    var y := 0;
    while y < h
      invariant 0 <= y <= h
      invariant file.data + EncodeRows(img.pixels, y) == whole
    {
      ghost var before := file.data;
      WriteRow(img.pixels[offset - y], file);
      EncodeRowsFrom(before, img.pixels, y);
      y := y + 1;
    }
    assert file.data + [] == file.data;
  }

  /** One stored row: the pixels, and a seek over the padding. */
  method ReadRow(file: BinaryFile, items: nat) returns (r: RowsResult)
    requires items == 0 ==> file.pos <= |file.data|
    modifies file`pos
    ensures r == if old(file.pos) + 3 * items > |file.data| then TooShort
                 else Rows([Unpacked(file.data[old(file.pos)..old(file.pos) + 3 * items], items)])
    ensures r.Rows? ==> file.pos == old(file.pos) + RowLength(items)
  {
    var b := file.Read(3 * items);
    if |b| != 3 * items {
      return TooShort;
    }
    file.Skip(PaddingOf(items));
    return Rows([Unpacked(b, items)]);
  }

  /** `bmp_img_read`. */
  method ReadImage(file: BinaryFile) returns (r: Decoded)
    requires file.pos == 0
    modifies file`pos
    ensures r == Decode(file.data)
  {
    var magic := file.Read(MAGIC_BYTES);
    if |magic| != MAGIC_BYTES || magic != LittleEndian(MAGIC, MAGIC_BYTES) {
      return InvalidFile;
    }
    var headerBytes := file.Read(HEADER_BYTES);
    if |headerBytes| != HEADER_BYTES {
      return ShortFile;
    }
    var header := DecodeHeader(headerBytes);
    if !header.Indexable() {
      return OutsideModel;
    }
    r := ReadRows(file, header);
  }

  /** What is still to be read, behind the rows read so far, completes a result. */
  predicate Completes(b: seq<Byte>, pos: nat, width: nat, n: nat, rows: Grid, result: RowsResult) {
    match DecodeRows(b, pos, width, n)
    case TooShort => result.TooShort?
    case Rows(rest) => result == Rows(rows + rest)
  }

  lemma CompletesFirst(b: seq<Byte>, pos: nat, width: nat, n: nat)
    ensures Completes(b, pos, width, n, [], DecodeRows(b, pos, width, n))
  {
  }

  lemma CompletesShort(b: seq<Byte>, pos: nat, width: nat, n: nat, rows: Grid, result: RowsResult)
    requires Completes(b, pos, width, n, rows, result) && 0 < n && pos + 3 * width > |b|
    ensures result.TooShort?
  {
  }

  lemma CompletesNext(b: seq<Byte>, pos: nat, width: nat, n: nat, rows: Grid, result: RowsResult)
    requires Completes(b, pos, width, n, rows, result) && 0 < n && pos + 3 * width <= |b|
    ensures Completes(b, pos + RowLength(width), width, n - 1, rows + [Unpacked(b[pos..pos + 3 * width], width)], result)
  {
    var row := Unpacked(b[pos..pos + 3 * width], width);
    match DecodeRows(b, pos + RowLength(width), width, n - 1)
    case TooShort =>
    case Rows(rest) => assert (rows + [row]) + rest == rows + ([row] + rest);
  }

  lemma CompletesLast(b: seq<Byte>, pos: nat, width: nat, rows: Grid, result: RowsResult)
    requires Completes(b, pos, width, 0, rows, result)
    ensures result == Rows(rows)
  {
    assert rows + [] == rows;
  }

  lemma FilledBackwards(pixels: Grid, rows: Grid)
    requires |pixels| == |rows| && forall i :: 0 <= i < |rows| ==> pixels[|rows| - 1 - i] == rows[i]
    ensures pixels == Reversed(rows)
  {
    forall y | 0 <= y < |rows|
      ensures pixels[y] == Reversed(rows)[y]
    {
      assert pixels[|rows| - 1 - (|rows| - 1 - y)] == rows[|rows| - 1 - y];
    }
  }

  /** The row loop of `bmp_img_read`. */
  method FillRows(file: BinaryFile, items: nat, pixels: array<seq<Pixel>>) returns (ok: bool)
    requires file.pos <= |file.data|
    modifies file`pos, pixels
    ensures ok == DecodeRows(file.data, old(file.pos), items, pixels.Length).Rows?
    ensures ok ==> pixels[..] == Reversed(DecodeRows(file.data, old(file.pos), items, pixels.Length).rows)
  {
    var h := pixels.Length;
    var offset := if h > 0 then h - 1 else 0;
    ghost var rows: Grid := [];
    ghost var result := DecodeRows(file.data, file.pos, items, h);
    CompletesFirst(file.data, file.pos, items, h);
    var y := 0;
    while y < h
      invariant 0 <= y <= h && |rows| == y && (items == 0 ==> file.pos <= |file.data|)
      invariant forall i :: 0 <= i < y ==> pixels[h - 1 - i] == rows[i]
      invariant Completes(file.data, file.pos, items, h - y, rows, result)
    {
      ghost var pos := file.pos;
      var next := ReadRow(file, items);
      if next.TooShort? {
        CompletesShort(file.data, pos, items, h - y, rows, result);
        return false;
      }
      CompletesNext(file.data, pos, items, h - y, rows, result);
      pixels[offset - y] := next.rows[0];
      rows := rows + next.rows;
      y := y + 1;
    }
    CompletesLast(file.data, file.pos, items, rows, result);
    FilledBackwards(pixels[..], rows);
    return true;
  }

  /** `bmp_img_read` behind the header. */
  method ReadRows(file: BinaryFile, header: Header) returns (r: Decoded)
    requires header.Indexable() && file.pos <= |file.data|
    modifies file`pos
    ensures r == match DecodeRows(file.data, old(file.pos), header.biWidth, header.Rows())
                 case TooShort => ShortFile
                 case Rows(rows) => Ok(Bitmap(header, Reversed(rows)))
  {
    var pixels := new seq<Pixel>[header.Rows()];
    var ok := FillRows(file, header.biWidth, pixels);
    r := if ok then Ok(Bitmap(header, pixels[..])) else ShortFile;
  }
}
