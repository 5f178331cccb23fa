/** The BMP codec: uncompressed, 24 bits per pixel, rows stored bottom-up,
    each scanline padded with zeros to a multiple of four bytes, behind a
    14-byte file header and a 40-byte info header packed little-endian. */
module BmpImage {
  import opened LittleEndian
  import opened ImgLib

  const FileHeaderSize: int := 14
  const InfoHeaderSize: int := 40
  /** Where the pixel data starts in every file this codec writes. */
  const HeadersSize: int := 54

  /** 'B', 'M' read as a little-endian 16-bit value. */
  const Signature: int := 0x4D42
  /** The value this codec writes into, and demands of, significant_colors. */
  const SignificantColorsMark: int := 0x100_0000
  const DefaultResolution: int := 11811

  datatype BitmapFileHeader = BitmapFileHeader(
    signature: int,
    fileSize: int,
    reserved: int,
    dataOffset: int)

  predicate FileHeaderFits(h: BitmapFileHeader) {
    IsU16(h.signature) && IsU32(h.fileSize) && IsU32(h.reserved) && IsU32(h.dataOffset)
  }

  /** The field initialisers of the file header. */
  const DefaultFileHeader: BitmapFileHeader := BitmapFileHeader(Signature, 0, 0, HeadersSize)

  datatype BitmapInfoHeader = BitmapInfoHeader(
    headerSize: int,
    width: int,
    height: int,
    planes: int,
    bpp: int,
    compression: int,
    dataSize: int,
    xResolution: int,
    yResolution: int,
    colorsUsed: int,
    significantColors: int)

  predicate InfoHeaderFits(h: BitmapInfoHeader) {
    && IsU32(h.headerSize) && IsI32(h.width) && IsI32(h.height)
    && IsU16(h.planes) && IsU16(h.bpp) && IsU32(h.compression) && IsU32(h.dataSize)
    && IsU32(h.xResolution) && IsU32(h.yResolution) && IsU32(h.colorsUsed)
    && IsU32(h.significantColors)
  }

  /** The field initialisers of the info header. */
  const DefaultInfoHeader: BitmapInfoHeader :=
    BitmapInfoHeader(InfoHeaderSize, 0, 0, 1, 24, 0, 0, DefaultResolution, DefaultResolution, 0, SignificantColorsMark)

  // ---------------------------------------------------------------------
  // Header packing

  function EncodeFileHeader(h: BitmapFileHeader): (r: seq<Byte>)
    requires FileHeaderFits(h)
    ensures |r| == FileHeaderSize
    ensures ParseFileHeader(r) == h
  {
    Le16(h.signature) + Le32(h.fileSize) + Le32(h.reserved) + Le32(h.dataOffset)
  }

  function ParseFileHeader(s: seq<Byte>): (h: BitmapFileHeader)
    requires |s| == FileHeaderSize
    ensures FileHeaderFits(h)
  {
    BitmapFileHeader(ReadLe16(s, 0), ReadLe32(s, 2), ReadLe32(s, 6), ReadLe32(s, 10))
  }

  /** The info header is packed as two 20-byte halves: the image's shape
      and encoding first, the sizes and palette fields after. */
  function EncodeInfoHeader(h: BitmapInfoHeader): (r: seq<Byte>)
    requires InfoHeaderFits(h)
    ensures |r| == InfoHeaderSize
    ensures ParseInfoHeader(r) == h
  {
    InfoHeaderFront(h) + InfoHeaderBack(h)
  }

  function InfoHeaderFront(h: BitmapInfoHeader): (r: seq<Byte>)
    requires InfoHeaderFits(h)
    ensures |r| == 20
  {
    Le32(h.headerSize) + Le32(I32Bits(h.width)) + Le32(I32Bits(h.height))
    + Le16(h.planes) + Le16(h.bpp) + Le32(h.compression)
  }

  function InfoHeaderBack(h: BitmapInfoHeader): (r: seq<Byte>)
    requires InfoHeaderFits(h)
    ensures |r| == 20
  {
    Le32(h.dataSize) + Le32(h.xResolution) + Le32(h.yResolution) + Le32(h.colorsUsed)
    + Le32(h.significantColors)
  }

  function ParseInfoHeader(s: seq<Byte>): (h: BitmapInfoHeader)
    requires |s| == InfoHeaderSize
    ensures InfoHeaderFits(h)
  {
    BitmapInfoHeader(
      ReadLe32(s, 0), SignedOf(ReadLe32(s, 4)), SignedOf(ReadLe32(s, 8)),
      ReadLe16(s, 12), ReadLe16(s, 14), ReadLe32(s, 16), ReadLe32(s, 20),
      ReadLe32(s, 24), ReadLe32(s, 28), ReadLe32(s, 32), ReadLe32(s, 36))
  }

  /** Packing a parsed file header gives back the same 14 bytes. */
  lemma {:induction false} EncodeParseFileHeader(s: seq<Byte>)
    requires |s| == FileHeaderSize
    ensures EncodeFileHeader(ParseFileHeader(s)) == s
  {
    Le16OfRead(s, 0);
    Le32OfRead(s, 2);
    Le32OfRead(s, 6);
    Le32OfRead(s, 10);
    JoinSlices(s, 0, 2, 6);
    JoinSlices(s, 0, 6, 10);
    JoinSlices(s, 0, 10, 14);
    assert s[0..14] == s;
  }

  /** The first half of a parsed info header packs back to the first 20
      bytes. */
  lemma {:induction false} InfoHeaderFrontOfRead(s: seq<Byte>)
    requires |s| == InfoHeaderSize
    ensures InfoHeaderFront(ParseInfoHeader(s)) == s[..20]
  {
    Le32OfRead(s, 0);
    Le32OfSignedRead(s, 4);
    Le32OfSignedRead(s, 8);
    Le16OfRead(s, 12);
    Le16OfRead(s, 14);
    Le32OfRead(s, 16);
    JoinSlices(s, 0, 4, 8);
    JoinSlices(s, 0, 8, 12);
    JoinSlices(s, 0, 12, 14);
    JoinSlices(s, 0, 14, 16);
    JoinSlices(s, 0, 16, 20);
    assert s[0..20] == s[..20];
  }

  /** The second half of a parsed info header packs back to the last 20
      bytes. */
  lemma {:induction false} InfoHeaderBackOfRead(s: seq<Byte>)
    requires |s| == InfoHeaderSize
    ensures InfoHeaderBack(ParseInfoHeader(s)) == s[20..]
  {
    Le32OfRead(s, 20);
    Le32OfRead(s, 24);
    Le32OfRead(s, 28);
    Le32OfRead(s, 32);
    Le32OfRead(s, 36);
    JoinSlices(s, 20, 24, 28);
    JoinSlices(s, 20, 28, 32);
    JoinSlices(s, 20, 32, 36);
    JoinSlices(s, 20, 36, 40);
    assert s[20..40] == s[20..];
  }

  /** Packing a parsed info header gives back the same 40 bytes. */
  lemma {:induction false} EncodeParseInfoHeader(s: seq<Byte>)
    requires |s| == InfoHeaderSize
    ensures EncodeInfoHeader(ParseInfoHeader(s)) == s
  {
    InfoHeaderFrontOfRead(s);
    InfoHeaderBackOfRead(s);
    JoinSlices(s, 0, 20, 40);
    assert s[0..40] == s;
  }

  // ---------------------------------------------------------------------
  // Scanline layout

  /** C++ `/` on `int`: the quotient is truncated toward zero. */
  function CDiv(a: int, b: int): (q: int)
    requires b > 0
    ensures a >= 0 ==> 0 <= q && q * b <= a < q * b + b
    ensures a < 0 ==> q <= 0 && q * b - b < a <= q * b
  {
    if a >= 0 then
      QuotientBounds(a, b);
      a / b
    else
      QuotientBounds(-a, b);
      assert (-((-a) / b)) * b == -(((-a) / b) * b);
      -((-a) / b)
  }

  /** Division of a non-negative number: the quotient is the number of whole
      divisors it holds. */
  lemma QuotientBounds(m: int, b: int)
    requires 0 <= m && 0 < b
    ensures 0 <= m / b && (m / b) * b <= m < (m / b) * b + b
  {
    var d, r := m / b, m % b;
    assert m == d * b + r && 0 <= r < b;
  }

  /** Bytes in one on-disk scanline: three per pixel, rounded up to a
      multiple of four. */
  function GetBMPStride(w: int): (stride: int)
    ensures w >= 0 ==> stride % 4 == 0 && 3 * w <= stride < 3 * w + 4
  {
    4 * CDiv(w * 3 + 3, 4)
  }

  /** The pixels of `line` as they sit in a scanline: blue, green, red for
      each pixel in turn; alpha is not written. */
  function PixelBytes(line: seq<Color>): (r: seq<Byte>)
    ensures |r| == 3 * |line|
  {
    if line == [] then []
    else
      var last := line[|line| - 1];
      PixelBytes(line[..|line| - 1]) + [last.b, last.g, last.r]
  }

  /** Pixel x of the line is at bytes 3x, 3x+1, 3x+2. */
  lemma {:induction false} PixelBytesAt(line: seq<Color>)
    ensures forall x :: 0 <= x < |line| ==>
      && PixelBytes(line)[3 * x] == line[x].b
      && PixelBytes(line)[3 * x + 1] == line[x].g
      && PixelBytes(line)[3 * x + 2] == line[x].r
  {
    if line != [] {
      PixelBytesAt(line[..|line| - 1]);
    }
  }

  /** One on-disk scanline: the pixel bytes of `line`, then zero bytes up to
      `stride`. */
  function RowBytes(line: seq<Color>, stride: int): (r: seq<Byte>)
    requires 3 * |line| <= stride
    ensures |r| == stride
  {
    PixelBytes(line) + seq(stride - 3 * |line|, _ => 0)
  }

  /** A scanline holds pixel x at bytes 3x, 3x+1, 3x+2 and zeros after the
      last pixel. */
  lemma RowBytesAt(line: seq<Color>, stride: int)
    requires 3 * |line| <= stride
    ensures forall x :: 0 <= x < |line| ==>
      && RowBytes(line, stride)[3 * x] == line[x].b
      && RowBytes(line, stride)[3 * x + 1] == line[x].g
      && RowBytes(line, stride)[3 * x + 2] == line[x].r
    ensures forall i :: 3 * |line| <= i < stride ==> RowBytes(line, stride)[i] == 0
  {
    PixelBytesAt(line);
  }

  /** The first n scanlines on disk, each `stride` bytes long. Scanline k
      holds image row height-1-k: the bottom row is written first. n
      scanlines take n strides. */
  function DiskRows(image: Image, stride: nat, n: nat): (r: seq<Byte>)
    requires WellFormed(image) && n <= image.height && 3 * image.width <= stride
    ensures |r| == n * stride
  {
    if n == 0 then []
    else
      MulStep(n, stride);
      DiskRows(image, stride, n - 1) + RowBytes(image.rows[image.height - n], stride)
  }

  lemma MulStep(n: int, s: int)
    ensures (n - 1) * s + s == n * s
  {
  }

  lemma MulMono(a: int, b: int, c: int)
    requires 0 <= a <= b && 0 <= c
    ensures a * c <= b * c
  {
  }

  /** Scanline k of the first n sits k strides in. */
  lemma {:induction false} DiskRowsAt(image: Image, stride: nat, n: nat, k: nat)
    requires WellFormed(image) && k < n <= image.height && 3 * image.width <= stride
    ensures 0 <= k * stride
    ensures k * stride + stride <= |DiskRows(image, stride, n)|
    ensures DiskRows(image, stride, n)[k * stride..k * stride + stride]
            == RowBytes(image.rows[image.height - 1 - k], stride)
  {
    var front := DiskRows(image, stride, n - 1);
    var row := RowBytes(image.rows[image.height - n], stride);
    var start := k * stride;
    MulMono(0, k, stride);
    if k < n - 1 {
      DiskRowsAt(image, stride, n - 1, k);
      SliceOfFront(front, row, start, start + stride);
    } else {
      SliceOfBack(front, row);
    }
  }

  lemma SliceOfFront(front: seq<Byte>, back: seq<Byte>, i: nat, j: nat)
    requires i <= j <= |front|
    ensures (front + back)[i..j] == front[i..j]
  {
  }

  lemma SliceOfBackAt(front: seq<Byte>, back: seq<Byte>, i: nat, j: nat)
    requires i <= j <= |back|
    ensures (front + back)[|front| + i..|front| + j] == back[i..j]
  {
  }

  lemma SliceOfBack(front: seq<Byte>, back: seq<Byte>)
    ensures (front + back)[|front|..|front| + |back|] == back
  {
  }

  // ---------------------------------------------------------------------
  // Encoding

  /** The info header SaveBMP writes: the defaults, with the image's
      dimensions and the pixel-data size (kept to 32 bits). */
  function InfoHeaderFor(image: Image): (h: BitmapInfoHeader)
    requires WellFormed(image)
    ensures InfoHeaderFits(h)
  {
    DefaultInfoHeader.(
      width := image.width,
      height := image.height,
      dataSize := TruncU32(GetBMPStride(image.width) * image.height))
  }

  /** The file header SaveBMP writes: the defaults, with the total size and
      the offset of the pixel data just past the two headers. */
  function FileHeaderFor(image: Image): (h: BitmapFileHeader)
    requires WellFormed(image)
    ensures FileHeaderFits(h)
  {
    DefaultFileHeader.(
      fileSize := TruncU32(FileHeaderSize + InfoHeaderSize + InfoHeaderFor(image).dataSize),
      dataOffset := FileHeaderSize + InfoHeaderSize)
  }

  /** The bytes SaveBMP writes for `image`. */
  function Encode(image: Image): (r: seq<Byte>)
    requires WellFormed(image)
    ensures |r| >= HeadersSize
    ensures ParseFileHeader(r[..FileHeaderSize]) == FileHeaderFor(image)
    ensures ParseInfoHeader(r[FileHeaderSize..HeadersSize]) == InfoHeaderFor(image)
  {
    HeadersRead(FileHeaderFor(image), InfoHeaderFor(image), DiskRows(image, GetBMPStride(image.width), image.height));
    EncodeFileHeader(FileHeaderFor(image)) + EncodeInfoHeader(InfoHeaderFor(image))
    + DiskRows(image, GetBMPStride(image.width), image.height)
  }

  // ---------------------------------------------------------------------
  // Decoding

  /** The four header fields LoadBMP checks; no other field is consulted. */
  predicate Recognised(fileHeader: BitmapFileHeader, infoHeader: BitmapInfoHeader) {
    && fileHeader.signature == Signature
    && infoHeader.compression == 0
    && infoHeader.bpp == 24
    && infoHeader.significantColors == SignificantColorsMark
  }

  /** The check consults four fields only: headers that agree on them are
      accepted or rejected together. */
  lemma RecognisedConsultsFourFields(fileHeader1: BitmapFileHeader, infoHeader1: BitmapInfoHeader,
                                     fileHeader2: BitmapFileHeader, infoHeader2: BitmapInfoHeader)
    requires fileHeader1.signature == fileHeader2.signature
    requires infoHeader1.compression == infoHeader2.compression && infoHeader1.bpp == infoHeader2.bpp
    requires infoHeader1.significantColors == infoHeader2.significantColors
    ensures Recognised(fileHeader1, infoHeader1) <==> Recognised(fileHeader2, infoHeader2)
  {
  }

  /** The headers the encoder writes for any image pass the check. */
  lemma SavedHeadersRecognised(image: Image)
    requires WellFormed(image)
    ensures Recognised(FileHeaderFor(image), InfoHeaderFor(image))
  {
  }

  /** A read of `count` bytes at position `pos` of the stream: it fails when
      fewer than `count` bytes remain; a read of nothing always succeeds. */
  function ReadBytes(file: seq<Byte>, pos: nat, count: nat): (r: Option<seq<Byte>>)
    ensures r.Some? ==> |r.value| == count
    ensures r.None? <==> count > 0 && pos + count > |file|
  {
    if count == 0 then Some([])
    else if pos + count <= |file| then Some(file[pos..pos + count])
    else None
  }

  lemma ReadBytesWithin(file: seq<Byte>, pos: nat, count: nat)
    requires pos + count <= |file|
    ensures ReadBytes(file, pos, count) == Some(file[pos..pos + count])
  {
    if count == 0 {
      assert file[pos..pos] == [];
    }
  }

  /** A scanline turned back into pixels: each starts as `black` and gets its
      blue, green and red bytes from the scanline; alpha stays black's. */
  function DecodeLine(scanline: seq<Byte>, width: nat, black: Color): (line: seq<Color>)
    requires 3 * width <= |scanline|
    ensures |line| == width
  {
    seq(width, x requires 0 <= x < width =>
      black.(b := scanline[3 * x], g := scanline[3 * x + 1], r := scanline[3 * x + 2]))
  }

  /** Reads n scanlines of `stride` bytes one after the other from `pos`,
      the first read being the bottom row of the picture, and gives the rows
      top first; None as soon as one read comes up short. */
  function ReadRows(file: seq<Byte>, pos: nat, stride: nat, width: nat, n: nat, black: Color)
    : (r: Option<seq<seq<Color>>>)
    requires 3 * width <= stride
    ensures r.Some? ==> |r.value| == n && forall j :: 0 <= j < n ==> |r.value[j]| == width
    decreases n
  {
    if n == 0 then Some([])
    else
      match ReadBytes(file, pos, stride)
      case None => None
      case Some(scanline) =>
        match ReadRows(file, pos + stride, stride, width, n - 1, black)
        case None => None
        case Some(above) => Some(above + [DecodeLine(scanline, width, black)])
  }

  /** What LoadBMP gives for the bytes of a file; None is the empty image.
      `black` is the colour a fresh image is filled with. */
  function Decode(file: seq<Byte>, black: Color): (r: Option<Image>)
    ensures r.Some? ==> WellFormed(r.value)
    ensures |file| >= HeadersSize
            && !Recognised(ParseFileHeader(file[..FileHeaderSize]),
                           ParseInfoHeader(file[FileHeaderSize..HeadersSize]))
            ==> r.None?
  {
    if |file| < HeadersSize then None
    else
      var fileHeader := ParseFileHeader(file[..FileHeaderSize]);
      var infoHeader := ParseInfoHeader(file[FileHeaderSize..HeadersSize]);
      if !Recognised(fileHeader, infoHeader) || infoHeader.width < 0 || infoHeader.height < 0 then None
      else
        var stride := GetBMPStride(infoHeader.width);
        match ReadRows(file, fileHeader.dataOffset, stride, infoHeader.width, infoHeader.height, black)
        case None => None
        case Some(rows) => Some(Image(infoHeader.width, infoHeader.height, rows))
  }

  // ---------------------------------------------------------------------
  // The codec, as the C++ runs it

  /** The inner loop of SaveBMP: the B, G, R bytes of each pixel of `line`
      go to the front of the scanline buffer. The bytes behind them are never
      written, so a buffer whose tail is zero now holds the whole scanline. */
  method FillScanline(buff: array<Byte>, line: seq<Color>)
    requires 3 * |line| <= buff.Length
    requires forall i :: 3 * |line| <= i < buff.Length ==> buff[i] == 0
    modifies buff
    ensures buff[..] == RowBytes(line, buff.Length)
    ensures forall i :: 3 * |line| <= i < buff.Length ==> buff[i] == 0
  {
    var x := 0;
    while x < |line|
      invariant 0 <= x <= |line|
      invariant buff[..3 * x] == PixelBytes(line[..x])
      invariant forall i :: 3 * |line| <= i < buff.Length ==> buff[i] == 0
    {
      buff[x * 3 + 0] := line[x].b;
      buff[x * 3 + 1] := line[x].g;
      buff[x * 3 + 2] := line[x].r;
      assert line[..x + 1][..x] == line[..x];
      x := x + 1;
    }
    assert line[..|line|] == line;
    assert buff[3 * |line|..] == seq(buff.Length - 3 * |line|, _ => 0);
    assert buff[..] == buff[..3 * |line|] + buff[3 * |line|..];
  }

  /** The row loop of SaveBMP: the rows bottom-up through one
      zero-initialised scanline buffer whose first 3*width bytes are
      overwritten for each row. */
  method WritePixelData(image: Image) returns (written: seq<Byte>)
    requires WellFormed(image)
    ensures written == DiskRows(image, GetBMPStride(image.width), image.height)
  {
    var width := image.width;
    var height := image.height;
    var stride := GetBMPStride(width);
    var buff := new Byte[stride](_ => 0);
    written := [];
    var y := 0;
    while y < height
      invariant 0 <= y <= height
      invariant written == DiskRows(image, stride, y)
      invariant forall i :: 3 * width <= i < stride ==> buff[i] == 0
    {
      var line := image.rows[height - 1 - y];
      FillScanline(buff, line);
      written := written + buff[..];
      y := y + 1;
    }
  }

  /** Writes `image` to a stream that opens iff `canOpen`: the two headers,
      then the pixel data. */
  method SaveBMP(image: Image, canOpen: bool) returns (ok: bool, written: seq<Byte>)
    requires WellFormed(image)
    ensures ok == canOpen
    ensures written == if canOpen then Encode(image) else []
  {
    if !canOpen {
      return false, [];
    }
    // Every header field but the dimensions and the two sizes keeps its default.
    var infoHeader := InfoHeaderFor(image);
    var fileHeader := FileHeaderFor(image);
    var pixelData := WritePixelData(image);
    written := EncodeFileHeader(fileHeader) + EncodeInfoHeader(infoHeader) + pixelData;
    return true, written;
  }

  /** `read` followed by the rows `rest`, if the read succeeded. */
  function Extend(read: Option<seq<seq<Color>>>, rest: seq<seq<Color>>): Option<seq<seq<Color>>> {
    match read
    case None => None
    case Some(rows) => Some(rows + rest)
  }

  /** The inner loop of LoadBMP: pixel x of a line filled with `black` gets
      its blue, green and red from bytes 3x, 3x+1, 3x+2 of the buffer. */
  method FillLine(line: array<Color>, buff: array<Byte>, black: Color)
    requires 3 * line.Length <= buff.Length
    requires forall x :: 0 <= x < line.Length ==> line[x] == black
    modifies line
    ensures line[..] == DecodeLine(buff[..], line.Length, black)
  {
    var x := 0;
    while x < line.Length
      invariant 0 <= x <= line.Length
      invariant forall i :: 0 <= i < x ==>
        line[i] == black.(b := buff[3 * i], g := buff[3 * i + 1], r := buff[3 * i + 2])
      invariant forall i :: x <= i < line.Length ==> line[i] == black
    {
      line[x] := line[x].(b := buff[x * 3 + 0], g := buff[x * 3 + 1], r := buff[x * 3 + 2]);
      x := x + 1;
    }
  }

  /** One successful read moves one row from what is still to be read to
      what has been read. */
  lemma ReadRowsStep(file: seq<Byte>, pos: nat, stride: nat, width: nat, n: nat, black: Color,
                     rest: seq<seq<Color>>)
    requires 3 * width <= stride
    requires ReadBytes(file, pos, stride).Some?
    ensures Extend(ReadRows(file, pos, stride, width, n + 1, black), rest)
            == Extend(ReadRows(file, pos + stride, stride, width, n, black),
                      [DecodeLine(ReadBytes(file, pos, stride).value, width, black)] + rest)
  {
    var upper := ReadRows(file, pos + stride, stride, width, n, black);
    var line := DecodeLine(ReadBytes(file, pos, stride).value, width, black);
    if upper.Some? {
      assert upper.value + [line] + rest == upper.value + ([line] + rest);
    }
  }

  /** `ifs.read(buff, stride)`: fills the buffer from the stream at `pos`
      and reports whether the stream is still good. */
  method ReadScanline(file: seq<Byte>, pos: nat, buff: array<Byte>) returns (ok: bool)
    modifies buff
    ensures ok == ReadBytes(file, pos, buff.Length).Some?
    ensures ok ==> buff[..] == ReadBytes(file, pos, buff.Length).value
  {
    var scanline := ReadBytes(file, pos, buff.Length);
    if scanline.None? {
      return false;
    }
    forall i | 0 <= i < buff.Length {
      buff[i] := scanline.value[i];
    }
    return true;
  }

  /** The row loop of LoadBMP: from the seek position `offset`, reads one
      scanline of `stride` bytes per row into a buffer and fills the rows of a
      `width` x `height` picture of `black` pixels bottom-up, giving up on the
      first short read. */
  method ReadPixelData(file: seq<Byte>, offset: nat, width: nat, height: nat, black: Color)
    returns (result: Option<seq<seq<Color>>>)
    ensures result == ReadRows(file, offset, GetBMPStride(width), width, height, black)
  {
    var stride: nat := GetBMPStride(width);
    var pos: nat := offset;
    var blackLine := seq(width, _ => black);
    var rows := seq(height, _ => blackLine);
    var buff := new Byte[stride](_ => 0);
    var y := height - 1;
    ghost var whole := ReadRows(file, pos, stride, width, height, black);
    assert rows[height..] == [];
    assert whole.Some? ==> whole.value + [] == whole.value;
    while y >= 0
      invariant -1 <= y < height
      invariant |rows| == height
      invariant forall j :: 0 <= j <= y ==> rows[j] == blackLine
      invariant whole == Extend(ReadRows(file, pos, stride, width, y + 1, black), rows[y + 1..])
    {
      var ok := ReadScanline(file, pos, buff);
      if !ok {
        return None;
      }
      var line := new Color[width](x requires 0 <= x < width => rows[y][x]);
      FillLine(line, buff, black);
      ReadRowsStep(file, pos, stride, width, y, black, rows[y + 1..]);
      assert rows[y := line[..]][y..] == [line[..]] + rows[y + 1..];
      rows := rows[y := line[..]];
      pos := pos + stride;
      y := y - 1;
    }
    assert [] + rows[0..] == rows;
    return Some(rows);
  }

  /** Reads an image from the bytes of a file: checks the headers, seeks to
      the recorded data offset and reads the pixel data. */
  method LoadBMP(file: seq<Byte>, black: Color) returns (result: Option<Image>)
    ensures result == Decode(file, black)
  {
    if |file| < HeadersSize {
      return None;
    }
    var fileHeader := ParseFileHeader(file[..FileHeaderSize]);
    var infoHeader := ParseInfoHeader(file[FileHeaderSize..HeadersSize]);
    if fileHeader.signature != Signature || infoHeader.compression != 0
       || infoHeader.bpp != 24 || infoHeader.significantColors != SignificantColorsMark {
      return None;
    }
    if infoHeader.width < 0 || infoHeader.height < 0 {
      return None;
    }
    var width: nat := infoHeader.width;
    var height: nat := infoHeader.height;
    var rows := ReadPixelData(file, fileHeader.dataOffset, width, height, black);
    if rows.None? {
      return None;
    }
    return Some(Image(width, height, rows.value));
  }

  // ---------------------------------------------------------------------
  // What the encoder writes

  /** The saved file is the two headers and one stride per row. */
  lemma EncodedLength(image: Image)
    requires WellFormed(image)
    ensures |Encode(image)| == HeadersSize + GetBMPStride(image.width) * image.height
  {
    assert |Encode(image)| == HeadersSize + |DiskRows(image, GetBMPStride(image.width), image.height)|;
  }

  /** The headers of a saved file: the sizes and dimensions of the image,
      every other field at its default. */
  lemma SavedHeaders(image: Image)
    requires WellFormed(image)
    ensures var file := Encode(image);
      && |file| >= HeadersSize
      && file[0] == 0x42 && file[1] == 0x4D
      && var fileHeader := ParseFileHeader(file[..FileHeaderSize]);
      && var infoHeader := ParseInfoHeader(file[FileHeaderSize..HeadersSize]);
      && fileHeader.signature == 0x4D42
      && fileHeader.reserved == 0
      && fileHeader.dataOffset == 54
      && (|file| < TwoTo32 ==> fileHeader.fileSize == |file|)
      && infoHeader.headerSize == 40
      && infoHeader.width == image.width
      && infoHeader.height == image.height
      && infoHeader.planes == 1
      && infoHeader.bpp == 24
      && infoHeader.compression == 0
      && (|file| < TwoTo32 ==> infoHeader.dataSize == GetBMPStride(image.width) * image.height)
      && infoHeader.xResolution == 11811
      && infoHeader.yResolution == 11811
      && infoHeader.colorsUsed == 0
      && infoHeader.significantColors == 0x100_0000
  {
    var file := Encode(image);
    EncodedLength(image);
    var a := EncodeFileHeader(FileHeaderFor(image));
    var b := EncodeInfoHeader(InfoHeaderFor(image));
    assert file[..FileHeaderSize] == a;
    assert file[FileHeaderSize..HeadersSize] == b;
  }

  /** On-disk scanline k of a saved file, k strides past the headers, is
      the scanline of image row height-1-k. */
  lemma EncodedScanline(image: Image, k: nat)
    requires WellFormed(image) && k < image.height
    ensures var stride := GetBMPStride(image.width);
      && 0 <= k * stride
      && HeadersSize + k * stride + stride <= |Encode(image)|
      && Encode(image)[HeadersSize + k * stride..HeadersSize + k * stride + stride]
         == RowBytes(image.rows[image.height - 1 - k], stride)
  {
    var stride := GetBMPStride(image.width);
    var headers := EncodeFileHeader(FileHeaderFor(image)) + EncodeInfoHeader(InfoHeaderFor(image));
    var pixels := DiskRows(image, stride, image.height);
    DiskRowsAt(image, stride, image.height, k);
    SliceOfBackAt(headers, pixels, k * stride, k * stride + stride);
  }

  /** The same scanline byte by byte: pixel x as blue, green, red at 3x,
      3x+1, 3x+2, then zeros up to the stride. */
  lemma EncodedPixels(image: Image, k: nat)
    requires WellFormed(image) && k < image.height
    ensures var stride := GetBMPStride(image.width);
      var start := HeadersSize + k * stride;
      var line := image.rows[image.height - 1 - k];
      && 0 <= k * stride
      && start + stride <= |Encode(image)|
      && (forall x :: 0 <= x < image.width ==>
            && Encode(image)[start + 3 * x] == line[x].b
            && Encode(image)[start + 3 * x + 1] == line[x].g
            && Encode(image)[start + 3 * x + 2] == line[x].r)
      && (forall i :: start + 3 * image.width <= i < start + stride ==> Encode(image)[i] == 0)
  {
    var stride := GetBMPStride(image.width);
    EncodedScanline(image, k);
    ScanlineInFile(Encode(image), HeadersSize + k * stride, image.rows[image.height - 1 - k], stride);
  }

  /** A scanline stored at `start` of a file, seen byte by byte. */
  lemma ScanlineInFile(file: seq<Byte>, start: nat, line: seq<Color>, stride: int)
    requires 3 * |line| <= stride && start + stride <= |file|
    requires file[start..start + stride] == RowBytes(line, stride)
    ensures forall x :: 0 <= x < |line| ==>
      && file[start + 3 * x] == line[x].b
      && file[start + 3 * x + 1] == line[x].g
      && file[start + 3 * x + 2] == line[x].r
    ensures forall i :: start + 3 * |line| <= i < start + stride ==> file[i] == 0
  {
    RowBytesAt(line, stride);
    assert forall i :: 0 <= i < stride ==> file[start + i] == RowBytes(line, stride)[i];
  }

  // ---------------------------------------------------------------------
  // What the decoder reads

  /** Every read succeeds iff the file holds n strides from `pos` on. */
  lemma {:induction false} ReadRowsSucceeds(file: seq<Byte>, pos: nat, stride: nat, width: nat, n: nat, black: Color)
    requires 3 * width <= stride
    decreases n
    ensures ReadRows(file, pos, stride, width, n, black).Some?
            <==> n == 0 || stride == 0 || pos + n * stride <= |file|
  {
    if n > 0 {
      ReadRowsSucceeds(file, pos + stride, stride, width, n - 1, black);
      MulStep(n, stride);
      MulMono(1, n, stride);
    }
  }

  /** Read number k, k strides past `pos`, gives row n-1-k. */
  lemma {:induction false} ReadRowsAt(file: seq<Byte>, pos: nat, stride: nat, width: nat, n: nat, black: Color, k: nat)
    requires 3 * width <= stride
    requires ReadRows(file, pos, stride, width, n, black).Some? && k < n
    decreases n
    ensures 0 <= k * stride
    ensures ReadBytes(file, pos + k * stride, stride).Some?
    ensures ReadRows(file, pos, stride, width, n, black).value[n - 1 - k]
            == DecodeLine(ReadBytes(file, pos + k * stride, stride).value, width, black)
  {
    MulMono(0, k, stride);
    var scanline := ReadBytes(file, pos, stride).value;
    var above := ReadRows(file, pos + stride, stride, width, n - 1, black).value;
    assert ReadRows(file, pos, stride, width, n, black).value == above + [DecodeLine(scanline, width, black)];
    if k > 0 {
      ReadRowsAt(file, pos + stride, stride, width, n - 1, black, k - 1);
      MulStep(k, stride);
    }
  }

  /** The files agree from p1 and p2 on, to their ends. */
  predicate SameFrom(f1: seq<Byte>, p1: nat, f2: seq<Byte>, p2: nat) {
    && |f1| - p1 == |f2| - p2
    && forall i :: p1 <= i < |f1| ==> f1[i] == f2[i - p1 + p2]
  }

  /** The reads depend only on the bytes from the seek position on. */
  lemma {:induction false} ReadRowsFrom(f1: seq<Byte>, p1: nat, f2: seq<Byte>, p2: nat,
                                        stride: nat, width: nat, n: nat, black: Color)
    requires 3 * width <= stride
    requires SameFrom(f1, p1, f2, p2)
    decreases n
    ensures ReadRows(f1, p1, stride, width, n, black) == ReadRows(f2, p2, stride, width, n, black)
  {
    if n > 0 {
      ReadRowsFrom(f1, p1 + stride, f2, p2 + stride, stride, width, n - 1, black);
      if stride > 0 && p1 + stride <= |f1| {
        assert f1[p1..p1 + stride] == f2[p2..p2 + stride];
      }
    }
  }

  /** A decoded scanline has the colours of the pixels it was encoded from;
      alpha comes from `black`. */
  lemma DecodeRowBytes(line: seq<Color>, stride: int, black: Color)
    requires 3 * |line| <= stride
    ensures var decoded := DecodeLine(RowBytes(line, stride), |line|, black);
      forall x :: 0 <= x < |line| ==> SameRgb(decoded[x], line[x]) && decoded[x].a == black.a
  {
    RowBytesAt(line, stride);
  }

  // ---------------------------------------------------------------------
  // Round trip and failure behaviour

  /** Exactly when a load succeeds: the headers are all there, the four
      checked fields hold the expected values, the dimensions are not
      negative and every scanline lies inside the file from the recorded
      data offset on. The image then has the header's dimensions. */
  lemma DecodeSucceeds(file: seq<Byte>, black: Color)
    ensures Decode(file, black).Some? <==>
      && |file| >= HeadersSize
      && var fileHeader := ParseFileHeader(file[..FileHeaderSize]);
      && var infoHeader := ParseInfoHeader(file[FileHeaderSize..HeadersSize]);
      && Recognised(fileHeader, infoHeader)
      && infoHeader.width >= 0 && infoHeader.height >= 0
      && var stride := GetBMPStride(infoHeader.width);
      && (infoHeader.height == 0 || stride == 0 || fileHeader.dataOffset + infoHeader.height * stride <= |file|)
    ensures Decode(file, black).Some? ==>
      && Decode(file, black).value.width == ParseInfoHeader(file[FileHeaderSize..HeadersSize]).width
      && Decode(file, black).value.height == ParseInfoHeader(file[FileHeaderSize..HeadersSize]).height
  {
    if |file| >= HeadersSize {
      var fileHeader := ParseFileHeader(file[..FileHeaderSize]);
      var infoHeader := ParseInfoHeader(file[FileHeaderSize..HeadersSize]);
      if Recognised(fileHeader, infoHeader) && infoHeader.width >= 0 && infoHeader.height >= 0 {
        ReadRowsSucceeds(file, fileHeader.dataOffset, GetBMPStride(infoHeader.width),
                         infoHeader.width, infoHeader.height, black);
      }
    }
  }

  /** Headers written in front of any bytes parse back as written. */
  lemma HeadersRead(fileHeader: BitmapFileHeader, infoHeader: BitmapInfoHeader, rest: seq<Byte>)
    requires FileHeaderFits(fileHeader) && InfoHeaderFits(infoHeader)
    ensures var file := EncodeFileHeader(fileHeader) + EncodeInfoHeader(infoHeader) + rest;
      && |file| >= HeadersSize
      && ParseFileHeader(file[..FileHeaderSize]) == fileHeader
      && ParseInfoHeader(file[FileHeaderSize..HeadersSize]) == infoHeader
  {
    var file := EncodeFileHeader(fileHeader) + EncodeInfoHeader(infoHeader) + rest;
    assert file[..FileHeaderSize] == EncodeFileHeader(fileHeader);
    assert file[FileHeaderSize..HeadersSize] == EncodeInfoHeader(infoHeader);
  }

  /** A scanline read from where RowBytes(line) was written decodes to the
      colours of `line`: read number k gives row y = n-1-k. */
  lemma ReadBackRow(file: seq<Byte>, pos: nat, stride: nat, n: nat, black: Color, y: nat, k: nat, line: seq<Color>)
    requires 3 * |line| <= stride
    requires ReadRows(file, pos, stride, |line|, n, black).Some? && y + k + 1 == n
    requires 0 <= k * stride && pos + k * stride + stride <= |file|
    requires file[pos + k * stride..pos + k * stride + stride] == RowBytes(line, stride)
    ensures var row := ReadRows(file, pos, stride, |line|, n, black).value[y];
      forall x :: 0 <= x < |line| ==> SameRgb(row[x], line[x]) && row[x].a == black.a
  {
    ReadRowsAt(file, pos, stride, |line|, n, black, k);
    ReadBytesWithin(file, pos + k * stride, stride);
    assert ReadRows(file, pos, stride, |line|, n, black).value[y]
        == DecodeLine(RowBytes(line, stride), |line|, black);
    DecodeRowBytes(line, stride, black);
  }

  /** A saved file passes every header check and all its reads succeed. */
  lemma SavedFileDecodes(image: Image, black: Color)
    requires WellFormed(image)
    ensures var rows := ReadRows(Encode(image), HeadersSize, GetBMPStride(image.width),
                                 image.width, image.height, black);
      && rows.Some?
      && Decode(Encode(image), black) == Some(Image(image.width, image.height, rows.value))
  {
    var stride := GetBMPStride(image.width);
    HeadersRead(FileHeaderFor(image), InfoHeaderFor(image), DiskRows(image, stride, image.height));
    EncodedLength(image);
    ReadRowsSucceeds(Encode(image), HeadersSize, stride, image.width, image.height, black);
  }

  /** Every row read back from a saved file has the colours of the same
      image row. */
  lemma SavedRowsRead(image: Image, black: Color)
    requires WellFormed(image)
    ensures var rows := ReadRows(Encode(image), HeadersSize, GetBMPStride(image.width),
                                 image.width, image.height, black);
      && rows.Some?
      && forall y, x :: 0 <= y < image.height && 0 <= x < image.width ==>
           SameRgb(rows.value[y][x], image.rows[y][x]) && rows.value[y][x].a == black.a
  {
    var stride := GetBMPStride(image.width);
    var headers := EncodeFileHeader(FileHeaderFor(image)) + EncodeInfoHeader(InfoHeaderFor(image));
    assert Encode(image) == headers + DiskRows(image, stride, image.height);
    SavedFileDecodes(image, black);
    forall y | 0 <= y < image.height {
      PixelRowRead(headers, image, stride, black, y);
    }
  }

  /** Row y read back from pixel data laid out after any header bytes has
      the colours of image row y. */
  lemma PixelRowRead(headers: seq<Byte>, image: Image, stride: nat, black: Color, y: nat)
    requires WellFormed(image) && 3 * image.width <= stride && y < image.height
    requires ReadRows(headers + DiskRows(image, stride, image.height), |headers|, stride,
                      image.width, image.height, black).Some?
    ensures var rows := ReadRows(headers + DiskRows(image, stride, image.height), |headers|, stride,
                                 image.width, image.height, black);
      forall x :: 0 <= x < image.width ==>
        SameRgb(rows.value[y][x], image.rows[y][x]) && rows.value[y][x].a == black.a
  {
    var pixels := DiskRows(image, stride, image.height);
    var k := image.height - 1 - y;
    DiskRowsAt(image, stride, image.height, k);
    SliceOfBackAt(headers, pixels, k * stride, k * stride + stride);
    ReadBackRow(headers + pixels, |headers|, stride, image.height, black, y, k, image.rows[y]);
  }

  /** Loading a saved image gives back its dimensions and the red, green
      and blue of every pixel; alpha is that of the fill colour. */
  lemma LoadSaveRoundTrip(image: Image, black: Color)
    requires WellFormed(image)
    ensures var loaded := Decode(Encode(image), black);
      && loaded.Some?
      && loaded.value.width == image.width
      && loaded.value.height == image.height
      && forall y, x :: 0 <= y < image.height && 0 <= x < image.width ==>
           SameRgb(loaded.value.rows[y][x], image.rows[y][x]) && loaded.value.rows[y][x].a == black.a
  {
    SavedFileDecodes(image, black);
    SavedRowsRead(image, black);
  }

  /** A saved file cut short anywhere decodes to the empty image, never to a
      partly filled one. */
  lemma TruncatedFileRejected(image: Image, black: Color, m: nat)
    requires WellFormed(image) && image.width > 0 && image.height > 0
    requires m < HeadersSize + image.height * GetBMPStride(image.width)
    ensures m < |Encode(image)| && Decode(Encode(image)[..m], black).None?
  {
    EncodedLength(image);
    var file := Encode(image);
    var cut := file[..m];
    var stride := GetBMPStride(image.width);
    if m >= HeadersSize {
      HeadersRead(FileHeaderFor(image), InfoHeaderFor(image), DiskRows(image, stride, image.height));
      assert cut[..FileHeaderSize] == file[..FileHeaderSize];
      assert cut[FileHeaderSize..HeadersSize] == file[FileHeaderSize..HeadersSize];
      var fileHeader := ParseFileHeader(cut[..FileHeaderSize]);
      var infoHeader := ParseInfoHeader(cut[FileHeaderSize..HeadersSize]);
      assert fileHeader == FileHeaderFor(image) && infoHeader == InfoHeaderFor(image);
      assert stride > 0;
      ReadRowsSucceeds(cut, HeadersSize, stride, image.width, image.height, black);
    }
  }

  /** Pixel data is read from the offset the file header records: moving it
      further back behind `gap` bytes, with the offset updated, decodes the
      same. */
  lemma DataOffsetHonoured(image: Image, black: Color, gap: seq<Byte>)
    requires WellFormed(image) && HeadersSize + |gap| < TwoTo32
    ensures var moved := FileHeaderFor(image).(dataOffset := HeadersSize + |gap|);
      Decode(EncodeFileHeader(moved) + EncodeInfoHeader(InfoHeaderFor(image)) + gap
             + DiskRows(image, GetBMPStride(image.width), image.height), black)
      == Decode(Encode(image), black)
  {
    var stride := GetBMPStride(image.width);
    var moved := FileHeaderFor(image).(dataOffset := HeadersSize + |gap|);
    var original := Encode(image);
    var pixels := DiskRows(image, stride, image.height);
    var file := EncodeFileHeader(moved) + EncodeInfoHeader(InfoHeaderFor(image)) + gap + pixels;
    assert file == EncodeFileHeader(moved) + EncodeInfoHeader(InfoHeaderFor(image)) + (gap + pixels);
    HeadersRead(moved, InfoHeaderFor(image), gap + pixels);
    HeadersRead(FileHeaderFor(image), InfoHeaderFor(image), pixels);
    assert SameFrom(file, HeadersSize + |gap|, original, HeadersSize);
    ReadRowsFrom(file, HeadersSize + |gap|, original, HeadersSize, stride, image.width, image.height, black);
  }

  /** Only signature, compression, bpp and significant_colors are checked:
      rewriting the headers with any header size, planes, sizes, resolutions
      and colours used decodes the same, as long as the pixel data does not
      start inside the headers. */
  lemma UncheckedFieldsIgnored(file: seq<Byte>, black: Color,
                               fileHeader: BitmapFileHeader, infoHeader: BitmapInfoHeader)
    requires |file| >= HeadersSize
    requires FileHeaderFits(fileHeader) && InfoHeaderFits(infoHeader)
    requires var was := ParseFileHeader(file[..FileHeaderSize]);
      && fileHeader.signature == was.signature
      && fileHeader.dataOffset == was.dataOffset >= HeadersSize
    requires var was := ParseInfoHeader(file[FileHeaderSize..HeadersSize]);
      && infoHeader.width == was.width && infoHeader.height == was.height
      && infoHeader.bpp == was.bpp && infoHeader.compression == was.compression
      && infoHeader.significantColors == was.significantColors
    ensures Decode(EncodeFileHeader(fileHeader) + EncodeInfoHeader(infoHeader) + file[HeadersSize..], black)
            == Decode(file, black)
  {
    var rewritten := EncodeFileHeader(fileHeader) + EncodeInfoHeader(infoHeader) + file[HeadersSize..];
    HeadersRead(fileHeader, infoHeader, file[HeadersSize..]);
    var width := infoHeader.width;
    if width >= 0 && infoHeader.height >= 0 {
      assert SameFrom(rewritten, fileHeader.dataOffset, file, fileHeader.dataOffset);
      ReadRowsFrom(rewritten, fileHeader.dataOffset, file, fileHeader.dataOffset,
                   GetBMPStride(width), width, infoHeader.height, black);
    }
  }
}
