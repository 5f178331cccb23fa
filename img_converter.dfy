/** The command-line converter: it picks a codec for each of its two file
    arguments by extension, loads with the first, saves with the second and
    reports the outcome as the process exit code. */
module ImgConverter {
  import opened LittleEndian
  import opened ImgLib
  import BmpImage

  /** The formats the converter knows; UNKNOWN stands for every other
      extension. */
  datatype Format = Unknown | Ppm | Jpeg | Bmp

  /** The format named by an extension (the leading dot included). The
      comparison is exact: no case folding. */
  function GetFormatByExtension(ext: string): (f: Format)
    ensures f == Jpeg <==> ext == ".jpg" || ext == ".jpeg"
    ensures f == Ppm <==> ext == ".ppm"
    ensures f == Bmp <==> ext == ".bmp"
  {
    if ext == ".jpg" || ext == ".jpeg" then Jpeg
    else if ext == ".ppm" then Ppm
    else if ext == ".bmp" then Bmp
    else Unknown
  }

  /** Every extension the converter recognises and the format it names. */
  const ExtensionTable: map<string, Format> :=
    map[".jpg" := Jpeg, ".jpeg" := Jpeg, ".ppm" := Ppm, ".bmp" := Bmp]

  /** The lookup agrees with the table: a listed extension gives its entry,
      any other gives UNKNOWN. */
  lemma FormatByTable(ext: string)
    ensures GetFormatByExtension(ext) == if ext in ExtensionTable then ExtensionTable[ext] else Unknown
  {
    if ext in ExtensionTable {
      assert ext == ".jpg" || ext == ".jpeg" || ext == ".ppm" || ext == ".bmp";
    }
  }

  predicate IsUpper(c: char) {
    'A' <= c <= 'Z'
  }

  /** Matching is case-sensitive: an extension with any capital letter, such
      as ".BMP" or ".Jpg", is unknown. */
  lemma UpperCaseIsUnknown(ext: string, i: nat)
    requires i < |ext| && IsUpper(ext[i])
    ensures GetFormatByExtension(ext) == Unknown
  {
  }

  /** The three codec objects the converter shares between its lookups. */
  datatype Handler = PpmInterface | JpegInterface | BmpInterface

  function HandlerFormat(h: Handler): (f: Format)
    ensures f != Unknown
  {
    match h
    case PpmInterface => Ppm
    case JpegInterface => Jpeg
    case BmpInterface => Bmp
  }

  /** The codec object for a file's extension; None plays the null pointer. */
  function GetFormatInterface(ext: string): (r: Option<Handler>)
    ensures r.None? <==> GetFormatByExtension(ext) == Unknown
    ensures r.Some? ==> HandlerFormat(r.value) == GetFormatByExtension(ext)
  {
    match GetFormatByExtension(ext)
    case Ppm => Some(PpmInterface)
    case Jpeg => Some(JpegInterface)
    case Bmp => Some(BmpInterface)
    case Unknown => None
  }

  /** There is one codec object per format: extensions naming the same
      format, such as ".jpg" and ".jpeg", get the same object. */
  lemma OneInterfacePerFormat(ext1: string, ext2: string)
    requires GetFormatByExtension(ext1) == GetFormatByExtension(ext2)
    ensures GetFormatInterface(ext1) == GetFormatInterface(ext2)
  {
    var r1, r2 := GetFormatInterface(ext1), GetFormatInterface(ext2);
    if r1.Some? {
      assert HandlerFormat(r1.value) == HandlerFormat(r2.value);
    }
  }

  /** The test `main` applies to a loaded image: an empty image, or one with
      no rows or no columns, counts as a failed load. */
  predicate Usable(loaded: Option<Image>)
    ensures loaded.Some? && WellFormed(loaded.value) ==>
      (Usable(loaded) <==> loaded.value.width * loaded.value.height > 0)
  {
    loaded.Some? && loaded.value.width > 0 && loaded.value.height > 0
  }

  /** What one run of the converter did: its exit code, the extensions it
      looked up in order, and the codec objects it loaded and saved with. */
  datatype Outcome = Outcome(
    exitCode: int,
    lookups: seq<string>,
    loadedWith: Option<Handler>,
    savedWith: Option<Handler>)

  /** One run of the converter with `argc` arguments (the program name
      included) whose file arguments have extensions `inExt` and `outExt`.
      `loaded` is what the input codec's load gives if it is called and
      `saved` what the output codec's save gives if it is called. */
  function Convert(argc: int, inExt: string, outExt: string, loaded: Option<Image>, saved: bool)
    : (run: Outcome)
    ensures run.exitCode in {0, 1, 2, 3, 4, 5}
    // Wrong usage: nothing is looked up.
    ensures run.exitCode == 1 <==> argc != 3
    ensures argc != 3 ==> run.lookups == [] && run.loadedWith.None? && run.savedWith.None?
    // The input extension is looked up first, the output one only if the input is known.
    ensures argc == 3 ==> |run.lookups| >= 1 && run.lookups[0] == inExt
    ensures run.exitCode == 2 <==> argc == 3 && GetFormatByExtension(inExt) == Unknown
    ensures run.exitCode == 2 ==> run.lookups == [inExt]
    ensures run.exitCode == 3 <==>
      argc == 3 && GetFormatByExtension(inExt) != Unknown && GetFormatByExtension(outExt) == Unknown
    ensures |run.lookups| == 2 ==> run.lookups == [inExt, outExt]
    ensures argc == 3 && GetFormatByExtension(inExt) != Unknown ==> run.lookups == [inExt, outExt]
    // A load is attempted exactly when both formats are known, with the input's codec.
    ensures run.loadedWith.Some? <==>
      argc == 3 && GetFormatByExtension(inExt) != Unknown && GetFormatByExtension(outExt) != Unknown
    ensures run.loadedWith.Some? ==> run.loadedWith == GetFormatInterface(inExt)
    ensures run.exitCode == 4 <==> run.loadedWith.Some? && !Usable(loaded)
    // A save is attempted exactly after a usable load, with the output's codec.
    ensures run.savedWith.Some? <==> run.loadedWith.Some? && Usable(loaded)
    ensures run.savedWith.Some? ==> run.savedWith == GetFormatInterface(outExt)
    ensures run.exitCode == 5 <==> run.savedWith.Some? && !saved
    ensures run.exitCode == 0 <==> run.savedWith.Some? && saved
  {
    if argc != 3 then
      Outcome(1, [], None, None)
    else
      var inputFormat := GetFormatInterface(inExt);
      if inputFormat.None? then
        Outcome(2, [inExt], None, None)
      else
        var outputFormat := GetFormatInterface(outExt);
        if outputFormat.None? then
          Outcome(3, [inExt, outExt], None, None)
        else if !Usable(loaded) then
          Outcome(4, [inExt, outExt], inputFormat, None)
        else if !saved then
          Outcome(5, [inExt, outExt], inputFormat, outputFormat)
        else
          Outcome(0, [inExt, outExt], inputFormat, outputFormat)
  }

  /** Converting a file the BMP codec saved, from ".bmp" to any known
      format, loads it with the BMP codec and ends with the save's verdict;
      an image with no rows or no columns is reported as a failed load even
      though the codec read it back. */
  lemma ConvertSavedBmp(image: Image, black: Color, outExt: string, saved: bool)
    requires WellFormed(image) && GetFormatByExtension(outExt) != Unknown
    ensures var run := Convert(3, ".bmp", outExt, BmpImage.Decode(BmpImage.Encode(image), black), saved);
      && run.loadedWith == Some(BmpInterface)
      && (image.width > 0 && image.height > 0 ==> run.exitCode == (if saved then 0 else 5))
      && (image.width == 0 || image.height == 0 ==> run.exitCode == 4 && run.savedWith.None?)
  {
    BmpImage.LoadSaveRoundTrip(image, black);
  }
}
