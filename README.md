# BMP-24 codec and image converter, modelled in Dafny

This project models the core of a small C++ image converter with two parts.

**BMP codec.** It reads and writes uncompressed 24-bit BMP files:
- a 14-byte file header and a 40-byte info header, packed little-endian;
- then one scanline per image row, bottom row first;
- each pixel stored as blue, green, red;
- each scanline padded with zero bytes to a multiple of four.

**Converter driver.** It picks a codec from each file's extension. It loads with the input codec and saves with the output codec, and reports the outcome as an exit code from 0 to 5.

Files:
- `little_endian.dfy` (module `LittleEndian`): bytes. It packs `uint16_t`, `uint32_t` and `int32_t` fields little-endian, field by field. Assigning a value to a `uint32_t` field truncates it to 32 bits.
- `img_lib.dfy` (module `ImgLib`): the in-memory image, a grid of `Color(r, g, b, a)` with row 0 at the top and `int` dimensions, and `Option` for results that may be missing.
- `bmp_image.dfy` (module `BmpImage`) has three layers:
  - the header layouts and defaults, `GetBMPStride`, and the byte-level specification functions `Encode` and `Decode`;
  - `SaveBMP` and `LoadBMP` as methods that work the way the C++ does: a zero-initialised scanline buffer (an `array`) refilled row by row, and an `array` line written pixel by pixel. Each method is proved equal to its specification function;
  - lemmas about layout, round trip and failure behaviour.
- `img_converter.dfy` (module `ImgConverter`): the `Format` enum, `GetFormatByExtension`, `GetFormatInterface`, and the exit-code ladder of `main` as the function `Convert`.

How the model states things:
- A file is a `seq<Byte>`.
- A load gives `Option<Image>`. `None` stands for the empty image `{}` that `LoadBMP` returns on failure.
- Integers are mathematical. The two size fields the encoder writes are reduced modulo 2^32, as the assignment to a `uint32_t` field does.
- `GetBMPStride` uses C++ truncating division.

## Model

| member | source | states |
|---|---|---|
| LittleEndian.TruncU32 | ImgLib/bmp_image.cpp:56-59 | a size stored in a `uint32_t` field is a 32-bit value, and is unchanged when it is below 2^32 |
| LittleEndian.I32Bits | ImgLib/bmp_image.cpp:22-23 | the bit pattern of an `int32_t` field is a 32-bit value that reads back as the same signed value |
| LittleEndian.SignedOf | ImgLib/bmp_image.cpp:22-23 | a 32-bit pattern read into an `int32_t` field is an `int32` value, non-negative exactly when the top bit is clear |
| LittleEndian.SignedOfBits | ImgLib/bmp_image.cpp:22-23 | reading a pattern as signed and storing it again gives the same pattern |
| LittleEndian.Le16 | ImgLib/bmp_image.cpp:12-33 | a `uint16_t` field is two bytes from which the value reads back |
| LittleEndian.Le32 | ImgLib/bmp_image.cpp:12-33 | a `uint32_t` field is four bytes from which the value reads back |
| LittleEndian.ReadLe16 | ImgLib/bmp_image.cpp:88-89 | two bytes read into a `uint16_t` field give a 16-bit value |
| LittleEndian.ReadLe32 | ImgLib/bmp_image.cpp:88-89 | four bytes read into a `uint32_t` field give a 32-bit value |
| LittleEndian.Le16OfRead | ImgLib/bmp_image.cpp:12-33 | packing the value read from two bytes gives back the same two bytes |
| LittleEndian.Le32OfRead | ImgLib/bmp_image.cpp:12-33 | packing the value read from four bytes gives back the same four bytes |
| BmpImage.EncodeFileHeader | ImgLib/bmp_image.cpp:12-17 | the file header is 14 bytes that parse back to the same four fields |
| BmpImage.ParseFileHeader | ImgLib/bmp_image.cpp:12-17 | any 14 bytes read as a file header give fields within their declared widths |
| BmpImage.EncodeInfoHeader | ImgLib/bmp_image.cpp:20-32 | the info header is 40 bytes that parse back to the same eleven fields, width and height signed |
| BmpImage.ParseInfoHeader | ImgLib/bmp_image.cpp:20-32 | any 40 bytes read as an info header give fields within their declared widths |
| BmpImage.EncodeParseFileHeader | ImgLib/bmp_image.cpp:12-17 | packing the fields parsed from 14 bytes gives back those bytes, so the layout is a bijection |
| BmpImage.EncodeParseInfoHeader | ImgLib/bmp_image.cpp:20-32 | packing the fields parsed from 40 bytes gives back those bytes, so the layout is a bijection |
| BmpImage.CDiv | ImgLib/bmp_image.cpp:37 | `/` on `int` truncates toward zero: for a >= 0 the quotient q is the largest with q*b <= a, for a < 0 it is the smallest with a <= q*b, and its sign never differs from that of a |
| BmpImage.GetBMPStride | ImgLib/bmp_image.cpp:36-38 | for every width w >= 0 the stride is a multiple of 4, at least 3w and less than 3w + 4 |
| BmpImage.PixelBytes | ImgLib/bmp_image.cpp:72-76 | a line's pixels take three bytes each |
| BmpImage.PixelBytesAt | ImgLib/bmp_image.cpp:72-76 | pixel x sits at bytes 3x, 3x+1, 3x+2 as blue, green, red |
| BmpImage.RowBytes | ImgLib/bmp_image.cpp:66-77 | a scanline written for a line is exactly one stride long |
| BmpImage.RowBytesAt | ImgLib/bmp_image.cpp:66-77 | in a scanline, pixel x is blue, green, red at 3x, 3x+1, 3x+2, and every byte from 3*width up to the stride is zero |
| BmpImage.DiskRows | ImgLib/bmp_image.cpp:68-78 | the pixel data the row loop writes for n rows is n strides long |
| BmpImage.DiskRowsAt | ImgLib/bmp_image.cpp:68-78 | scanline k of the pixel data, k strides in, is the scanline of image row height-1-k |
| BmpImage.InfoHeaderFor | ImgLib/bmp_image.cpp:51-56 | the info header written for any image has every field within its declared width |
| BmpImage.FileHeaderFor | ImgLib/bmp_image.cpp:51-60 | the file header written for any image has every field within its declared width |
| BmpImage.Encode | ImgLib/bmp_image.cpp:51-78 | the bytes SaveBMP writes start with the two headers it fills in: they parse back to exactly the file header and info header built for the image |
| BmpImage.FillScanline | ImgLib/bmp_image.cpp:72-76 | writing the B, G, R bytes of each pixel into a buffer whose tail is zero leaves the buffer holding the whole padded scanline, with the tail still zero |
| BmpImage.WritePixelData | ImgLib/bmp_image.cpp:66-78 | the row loop through one reused buffer writes the pixel data of the specification, bottom row first |
| BmpImage.SaveBMP | ImgLib/bmp_image.cpp:40-80 | when the stream opens, the bytes written are the encoding of the image and the result is true; otherwise nothing is written and the result is false |
| BmpImage.Recognised | ImgLib/bmp_image.cpp:92-95 | the loader's four-field header test; it has no contract of its own. What passing it means is stated by `Decode`, `DecodeSucceeds`, `RecognisedConsultsFourFields`, `SavedHeadersRecognised` and `UncheckedFieldsIgnored` |
| BmpImage.RecognisedConsultsFourFields | ImgLib/bmp_image.cpp:92-95 | the test reads only signature, compression, bpp and significant_colors: headers that agree on those four are accepted or rejected together |
| BmpImage.SavedHeadersRecognised | ImgLib/bmp_image.cpp:92-95 | the headers the encoder writes for any image pass the test |
| BmpImage.ReadBytes | ImgLib/bmp_image.cpp:110-113 | a read of `count` bytes gives exactly `count` bytes, and fails exactly when `count` > 0 and fewer bytes remain |
| BmpImage.DecodeLine | ImgLib/bmp_image.cpp:117-121 | a scanline decodes to exactly `width` pixels; DecodeRowBytes gives their colours |
| BmpImage.ReadRows | ImgLib/bmp_image.cpp:104-122 | a successful sequence of n reads gives n rows of `width` pixels each |
| BmpImage.Decode | ImgLib/bmp_image.cpp:82-126 | a decoded image is well formed, and a file whose signature, compression, bpp or significant_colors differ from the expected values decodes to the empty image |
| BmpImage.FillLine | ImgLib/bmp_image.cpp:115-121 | filling a black line from the buffer gives each pixel the blue, green, red of bytes 3x, 3x+1, 3x+2, with alpha left as it was |
| BmpImage.ReadRowsStep | ImgLib/bmp_image.cpp:109-121 | one turn of the load loop: reading one scanline at the cursor and storing it as the lowest row not yet filled keeps the rows read so far equal to the specification |
| BmpImage.ReadScanline | ImgLib/bmp_image.cpp:110-113 | the buffer read succeeds exactly when the specification's read does, and then holds those bytes |
| BmpImage.ReadPixelData | ImgLib/bmp_image.cpp:104-124 | the row loop from height-1 down to 0 gives the rows of the specification, or the empty result on the first short read |
| BmpImage.LoadBMP | ImgLib/bmp_image.cpp:82-126 | the loaded image equals the specification's decoding of the file's bytes |
| BmpImage.EncodedLength | ImgLib/bmp_image.cpp:63-78 | a saved file is 54 + stride*height bytes long |
| BmpImage.SavedHeaders | ImgLib/bmp_image.cpp:51-64 | a saved file starts with 'B', 'M'. It records data_offset 54, the image's width and height, data_size = stride*height, and a file_size equal to its own length (below 2^32). Every other field keeps its default: 40, 1, 24, 0, 11811, 11811, 0, 0x1000000 |
| BmpImage.EncodedScanline | ImgLib/bmp_image.cpp:68-77 | on-disk scanline k of a saved file, 54 + k*stride bytes in, is the padded scanline of image row height-1-k |
| BmpImage.EncodedPixels | ImgLib/bmp_image.cpp:66-77 | in on-disk scanline k of a saved file, pixel x of image row height-1-k is blue, green, red at 3x, 3x+1, 3x+2, and the padding bytes are zero |
| BmpImage.ReadRowsSucceeds | ImgLib/bmp_image.cpp:109-113 | reading n scanlines succeeds exactly when n = 0, the stride is 0, or the file holds n strides from the read position on |
| BmpImage.ReadRowsAt | ImgLib/bmp_image.cpp:109-121 | read number k, k strides past the data offset, becomes row n-1-k of the image |
| BmpImage.ReadRowsFrom | ImgLib/bmp_image.cpp:104-113 | the pixel rows depend only on the bytes from the data offset on |
| BmpImage.DecodeRowBytes | ImgLib/bmp_image.cpp:117-121 | decoding a scanline written for a line gives back each pixel's red, green and blue, with the fill colour's alpha |
| BmpImage.DecodeSucceeds | ImgLib/bmp_image.cpp:88-113 | a load succeeds exactly when both headers are present, the four checked fields are as expected, the dimensions are non-negative and every scanline lies inside the file from data_offset on; the image then has the header's dimensions |
| BmpImage.ReadBackRow | ImgLib/bmp_image.cpp:109-121 | a scanline read from where a line was written decodes to that line's colours |
| BmpImage.SavedFileDecodes | ImgLib/bmp_image.cpp:40-126 | a saved file passes every header check of the loader and all its scanline reads succeed |
| BmpImage.SavedRowsRead | ImgLib/bmp_image.cpp:68-121 | every row read back from a saved file has the red, green and blue of the same image row |
| BmpImage.LoadSaveRoundTrip | ImgLib/bmp_image.cpp:40-126 | loading a saved image succeeds with the same width and height and the same red, green and blue in every pixel |
| BmpImage.TruncatedFileRejected | ImgLib/bmp_image.cpp:109-113 | any proper prefix of a saved non-empty image decodes to the empty image, never to a partly filled one |
| BmpImage.DataOffsetHonoured | ImgLib/bmp_image.cpp:104 | pixel data moved further back behind any gap, with data_offset updated to match, decodes to the same image |
| BmpImage.UncheckedFieldsIgnored | ImgLib/bmp_image.cpp:92-98 | rewriting header_size, planes, file_size, reserved, data_size, the resolutions or colors_used changes nothing about the decoded result, while data_offset stays the same and points past the headers |
| ImgConverter.GetFormatByExtension | ImgConverter/main.cpp:64-79 | JPEG exactly for ".jpg" and ".jpeg", PPM exactly for ".ppm", BMP exactly for ".bmp", UNKNOWN for everything else |
| ImgConverter.FormatByTable | ImgConverter/main.cpp:64-79 | the lookup agrees with a table of the four known extensions, with UNKNOWN for any extension not in it |
| ImgConverter.UpperCaseIsUnknown | ImgConverter/main.cpp:66-76 | the match is case-sensitive: any extension with a capital letter, such as ".BMP" or ".Jpg", is UNKNOWN |
| ImgConverter.HandlerFormat | ImgConverter/main.cpp:28-62 | every codec object serves a known format |
| ImgConverter.GetFormatInterface | ImgConverter/main.cpp:81-92 | no codec object (null) exactly for an UNKNOWN format, and otherwise the object for the extension's format |
| ImgConverter.OneInterfacePerFormat | ImgConverter/main.cpp:82-91 | extensions naming the same format share one codec object |
| ImgConverter.Usable | ImgConverter/main.cpp:117-121 | a loaded, well-formed image passes the test exactly when it holds at least one pixel |
| ImgConverter.Convert | ImgConverter/main.cpp:94-130 | exit 1 exactly when the argument count is not 3, with nothing looked up; the input extension is looked up first; 2 exactly when it is unknown, with the output extension not looked up; every other run with three arguments looks up both; 3 exactly when the output one is unknown; a load happens exactly when both are known, with the input's codec, and 4 exactly when it gives no usable image; a save happens exactly after a usable load, with the output's codec; 5 when it fails, 0 when it succeeds |
| ImgConverter.ConvertSavedBmp | ImgConverter/main.cpp:116-127 | converting a file the BMP codec saved, from ".bmp" to a known format, loads with the BMP codec. It ends with the save's verdict (0 or 5), or with exit code 4 when the image has no rows or no columns |

## Left out

- The JPEG codec, `ImgLib/jpeg_image.cpp`, is not part of this model: it wraps libjpeg. The PPM codec, declared in `ppm_image.h`, is not part of this model either. In `ImgConverter.Convert`, what the load and save calls of these codecs return is an input.
- Real file I/O:
  - files are byte sequences;
  - the stream state is reduced to "the read came up short";
  - a write that fails half-way is not modelled.
- BmpImage.SaveBMP: a stream that does not open and `out.good()` being false after the writes are one flag, `canOpen`.
- The packed structs written and read through `reinterpret_cast` assume a little-endian host. The model packs each field explicitly in little-endian order instead.
- BmpImage.Decode: a file shorter than the two headers (54 bytes) decodes to the empty image. The C++ leaves the unread header fields at their defaults and continues from there. This is a deliberate deviation.
- BmpImage.Decode: a header with a negative width or height decodes to the empty image. The C++ would construct an `Image` with that size, and `img_lib.h`, which defines `Image`, is not part of this model.
- BmpImage.GetBMPStride: the `int` overflow of `w * 3 + 3` for very large widths is not modelled.
- BmpImage.InfoHeaderFor: the `int` overflow of `stride * height` is not modelled. The product is computed exactly and then truncated to 32 bits, as is the file size.
- BmpImage.LoadBMP: the loaded image is filled with `Color::Black()` before the rows are read. That colour is defined in `img_lib.h`, so it is a parameter `black` here. Loaded pixels get their alpha from it.
- ImgConverter.Usable: the converter's `!image` test is defined in `img_lib.h`. The model takes it to be "the load failed, or the width or height is zero".
- ImgConverter.Convert: it takes the two file extensions as inputs. It does not model `std::filesystem::path::extension`.
- ImgConverter.Convert: console messages, the static codec singletons, `const_cast` and virtual dispatch are left out. The codec objects are plain values.
- Load does not consult the info header's `header_size`, although a BMP reader would normally demand 40 there. The model follows the code: `BmpImage.UncheckedFieldsIgnored` states that the field is ignored.
