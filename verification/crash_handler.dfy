/** The pure fragments of StreamElementsCrashHandler: the stack walker's
    per-frame bookkeeping (the report line and the module-of-interest flag),
    the timestamped file name, the choice of the log file to delete, the colour
    table and row arithmetic of the window capture, and the filter that decides
    which files of the OBS data directory go into the crash package.

    The clock, the directory listing, stat() and the configuration value are
    parameters; the file system calls themselves (unlink, zip writing, GDI) are
    not part of this model. */
module CrashHandler {
  import opened Common

  // ---------------------------------------------------------------------------
  // Stack walker

  /** What the stack walker reports for one frame. */
  datatype CallstackEntry = CallstackEntry(offset: int, loadedImageName: string, undFullName: string,
                                           lineFileName: string, lineNumber: int, moduleName: string)

  /** The walker's state: the report so far and the module-of-interest flag. */
  datatype Walker = Walker(output: string, hasMatchModuleOfInterest: bool)

  /** The report line of one frame: image, function and file separated by tabs,
      then the line number in parentheses (ltoa in base 10). */
  function CallstackLine(e: CallstackEntry): string
  {
    e.loadedImageName + "\t" + e.undFullName + "\t" + e.lineFileName + " (" + IntToString(e.lineNumber) + ")\n"
  }

  /** The test the source applies to each filter: stricmp's result used as a
      truth value, which holds when the two names DIFFER ignoring case. */
  predicate StricmpNonZero(filter: string, moduleName: string)
  {
    !EqualsIgnoreCase(filter, moduleName)
  }

  /** OnCallstackEntry as written: a frame at offset 0 is skipped; any other
      frame adds its line, and while the flag is still clear it is set as soon
      as some filter's name differs from the frame's module name. */
  function OnCallstackEntryAsWritten(w: Walker, filters: seq<string>, e: CallstackEntry): (r: Walker)
    ensures e.offset == 0 ==> r == w
    ensures e.offset != 0 ==> r.output == w.output + CallstackLine(e)
    ensures w.hasMatchModuleOfInterest ==> r.hasMatchModuleOfInterest
    ensures e.offset != 0 && !w.hasMatchModuleOfInterest ==>
              (r.hasMatchModuleOfInterest <==> exists i :: 0 <= i < |filters| && StricmpNonZero(filters[i], e.moduleName))
  {
    if e.offset == 0 then w
    else
      var matched := w.hasMatchModuleOfInterest
                     || exists i :: 0 <= i < |filters| && StricmpNonZero(filters[i], e.moduleName);
      Walker(w.output + CallstackLine(e), matched)
  }

  /** OnCallstackEntry as evidently intended: the flag is set when the frame's
      module is one of the modules of interest, ignoring case. */
  function OnCallstackEntry(w: Walker, filters: seq<string>, e: CallstackEntry): (r: Walker)
    ensures e.offset == 0 ==> r == w
    ensures e.offset != 0 ==> r.output == w.output + CallstackLine(e)
    ensures w.hasMatchModuleOfInterest ==> r.hasMatchModuleOfInterest
    ensures e.offset != 0 && !w.hasMatchModuleOfInterest ==>
              (r.hasMatchModuleOfInterest <==> exists i :: 0 <= i < |filters| && EqualsIgnoreCase(filters[i], e.moduleName))
  {
    if e.offset == 0 then w
    else
      var matched := w.hasMatchModuleOfInterest
                     || exists i :: 0 <= i < |filters| && EqualsIgnoreCase(filters[i], e.moduleName);
      Walker(w.output + CallstackLine(e), matched)
  }

  /** A whole stack walk, frame by frame, with the corrected test. */
  function Walk(w: Walker, filters: seq<string>, frames: seq<CallstackEntry>): Walker
    decreases |frames|
  {
    if |frames| == 0 then w else Walk(OnCallstackEntry(w, filters, frames[0]), filters, frames[1..])
  }

  /** Once set, the flag stays set for the rest of the walk; a walk whose frames
      are all at offset 0 changes nothing. */
  lemma {:induction false} WalkKeepsFlag(w: Walker, filters: seq<string>, frames: seq<CallstackEntry>)
    ensures w.hasMatchModuleOfInterest ==> Walk(w, filters, frames).hasMatchModuleOfInterest
    ensures (forall i :: 0 <= i < |frames| ==> frames[i].offset == 0) ==> Walk(w, filters, frames) == w
    decreases |frames|
  {
    if |frames| > 0 {
      WalkKeepsFlag(OnCallstackEntry(w, filters, frames[0]), filters, frames[1..]);
    }
  }

  /** A frame in a module of interest sets the flag with the corrected test and
      not with the test as written; a frame in any other module does the opposite
      as soon as a filter is configured. */
  lemma StricmpTestIsInverted(w: Walker, e: CallstackEntry)
    requires e.offset != 0 && !w.hasMatchModuleOfInterest
    ensures OnCallstackEntry(w, [e.moduleName], e).hasMatchModuleOfInterest
    ensures !OnCallstackEntryAsWritten(w, [e.moduleName], e).hasMatchModuleOfInterest
    ensures OnCallstackEntryAsWritten(w, [e.moduleName + "x"], e).hasMatchModuleOfInterest
    ensures !OnCallstackEntry(w, [e.moduleName + "x"], e).hasMatchModuleOfInterest
  {
    var other := e.moduleName + "x";
    assert [e.moduleName][0] == e.moduleName;
    assert [other][0] == other;
    assert |Lower(other)| != |Lower(e.moduleName)|;
  }

  // ---------------------------------------------------------------------------
  // GenerateTimeDateFilename

  /** The fields of struct tm the file name uses. */
  datatype Tm = Tm(year: int, mon: int, mday: int, hour: int, min: int, sec: int)

  /** snprintf into a 256-byte buffer keeps at most 255 characters. */
  const FileNameLimit: nat := 255

  /** What "%d-%02d-%02d%c%02d-%02d-%02d.%s" prints before truncation. */
  function TimeDateText(t: Tm, extension: string, noSpace: bool): string
  {
    IntToString(t.year + 1900) + "-" + Pad2(t.mon + 1) + "-" + Pad2(t.mday)
    + [if noSpace then '_' else ' ']
    + Pad2(t.hour) + "-" + Pad2(t.min) + "-" + Pad2(t.sec) + "." + extension
  }

  /** GenerateTimeDateFilename: the formatted local time, cut to what fits the buffer. */
  function GenerateTimeDateFilename(t: Tm, extension: string, noSpace: bool): (r: string)
    ensures |r| <= FileNameLimit
    ensures r <= TimeDateText(t, extension, noSpace)
    ensures |TimeDateText(t, extension, noSpace)| <= FileNameLimit ==> r == TimeDateText(t, extension, noSpace)
  {
    var full := TimeDateText(t, extension, noSpace);
    if |full| <= FileNameLimit then full else full[..FileNameLimit]
  }

  /** A struct tm whose printed fields have their usual widths. */
  predicate Ordinary(t: Tm)
  {
    1000 <= t.year + 1900 < 10000 && 0 <= t.mon + 1 < 100 && 0 <= t.mday < 100
    && 0 <= t.hour < 100 && 0 <= t.min < 100 && 0 <= t.sec < 100
  }

  predicate AllDigits(s: string)
  {
    forall i :: 0 <= i < |s| ==> IsDigit(s[i])
  }

  /** A number from 1000 to 9999 prints as four digits. */
  lemma FourDigits(n: nat)
    requires 1000 <= n < 10000
    ensures |NatToString(n)| == 4
  {
    assert NatToString(n) == NatToString(n / 10) + [DigitChar(n % 10)];
    assert NatToString(n / 10) == NatToString(n / 100) + [DigitChar(n / 10 % 10)];
    assert NatToString(n / 100) == NatToString(n / 1000) + [DigitChar(n / 100 % 10)];
  }

  /** Where the pieces of the format land, whatever the digits are. */
  lemma FieldPositions(y: string, a: string, b: string, sep: char, c: string, d: string, e: string, ext: string)
    requires |y| == 4 && |a| == 2 && |b| == 2 && |c| == 2 && |d| == 2 && |e| == 2
    ensures var full := y + "-" + a + "-" + b + [sep] + c + "-" + d + "-" + e + "." + ext;
            |full| == 20 + |ext|
            && full[..4] == y && full[5..7] == a && full[8..10] == b
            && full[11..13] == c && full[14..16] == d && full[17..19] == e
            && full[4] == '-' && full[7] == '-' && full[10] == sep && full[13] == '-' && full[16] == '-'
            && full[19] == '.' && full[20..] == ext
  {
  }

  /** `s` is a run of decimal digits whose value is `v`. */
  predicate Field(s: string, v: int)
  {
    AllDigits(s) && ParseDigits(s) == v
  }

  lemma Pad2Field(i: int)
    requires 0 <= i < 100
    ensures |Pad2(i)| == 2 && Field(Pad2(i), i)
  {
  }

  lemma YearField(year: int)
    requires 1000 <= year < 10000
    ensures |IntToString(year)| == 4 && Field(IntToString(year), year)
  {
    FourDigits(year);
  }

  /** The file name of an ordinary time reads back: the year, month, day, hour,
      minute and second sit at fixed places, the separator is '_' or ' ' as
      asked, and the extension follows the dot. */
  lemma FilenameFieldsReadBack(t: Tm, extension: string, noSpace: bool)
    requires Ordinary(t) && |extension| <= FileNameLimit - 20
    ensures var r := GenerateTimeDateFilename(t, extension, noSpace);
            |r| == 20 + |extension|
            && Field(r[..4], t.year + 1900) && Field(r[5..7], t.mon + 1) && Field(r[8..10], t.mday)
            && Field(r[11..13], t.hour) && Field(r[14..16], t.min) && Field(r[17..19], t.sec)
            && r[4] == '-' && r[7] == '-' && r[13] == '-' && r[16] == '-' && r[19] == '.'
            && r[10] == (if noSpace then '_' else ' ')
            && r[20..] == extension
  {
    var y, a, b, c, d, e := IntToString(t.year + 1900), Pad2(t.mon + 1), Pad2(t.mday), Pad2(t.hour), Pad2(t.min), Pad2(t.sec);
    YearField(t.year + 1900);
    Pad2Field(t.mon + 1);
    Pad2Field(t.mday);
    Pad2Field(t.hour);
    Pad2Field(t.min);
    Pad2Field(t.sec);
    var sep := if noSpace then '_' else ' ';
    assert TimeDateText(t, extension, noSpace) == y + "-" + a + "-" + b + [sep] + c + "-" + d + "-" + e + "." + extension;
    FieldPositions(y, a, b, sep, c, d, e, extension);
  }

  // ---------------------------------------------------------------------------
  // delete_oldest_file

  /** One directory entry: its name, whether it is a directory, and the change
      time stat() reports (None when stat() fails). */
  datatype DirEntry = DirEntry(name: string, isDirectory: bool, ctime: Option<int>)

  /** The entries the function counts: plain files whose name does not start
      with '.', whose stat() succeeded and whose change time is not 0. */
  predicate Counted(e: DirEntry)
  {
    !e.isDirectory && !(|e.name| > 0 && e.name[0] == '.') && e.ctime.Some? && e.ctime.value != 0
  }

  function EntryPath(logDir: string, e: DirEntry): string
  {
    logDir + "/" + e.name
  }

  /** How many entries are counted. */
  function CountedEntries(entries: seq<DirEntry>): (n: nat)
    ensures n <= |entries|
    ensures n == 0 <==> forall i :: 0 <= i < |entries| ==> !Counted(entries[i])
    decreases |entries|
  {
    if |entries| == 0 then 0
    else
      var rest := CountedEntries(entries[..|entries| - 1]);
      assert forall i :: 0 <= i < |entries| - 1 ==> entries[..|entries| - 1][i] == entries[i];
      rest + (if Counted(entries[|entries| - 1]) then 1 else 0)
  }

  /** The loop as written: the candidate starts as ("", (time_t)-1) and is
      replaced by a counted entry whose change time is smaller. The result is
      the path and change time held at the end. */
  function OldestAsWritten(logDir: string, entries: seq<DirEntry>): (r: (string, int))
    ensures r.1 <= -1
    ensures (forall i :: 0 <= i < |entries| && Counted(entries[i]) ==> entries[i].ctime.value >= -1)
            ==> r == ("", -1)
    decreases |entries|
  {
    if |entries| == 0 then ("", -1)
    else
      var prev := OldestAsWritten(logDir, entries[..|entries| - 1]);
      var e := entries[|entries| - 1];
      assert forall i :: 0 <= i < |entries| - 1 ==> entries[..|entries| - 1][i] == entries[i];
      if Counted(e) && e.ctime.value < prev.1 then (EntryPath(logDir, e), e.ctime.value) else prev
  }

  /** MaxLogs read as an unsigned 64-bit value and cast to unsigned int. */
  function MaxLogs(configured: nat): (maxLogs: nat)
    ensures maxLogs < 0x1_0000_0000 && (configured - maxLogs) % 0x1_0000_0000 == 0
    ensures configured < 0x1_0000_0000 ==> maxLogs == configured
  {
    configured % 0x1_0000_0000
  }

  /** delete_oldest_file as written: the path passed to os_unlink, if any.
      `listing` is None when the directory cannot be opened. */
  function DeleteOldestFileAsWritten(logDir: string, listing: Option<seq<DirEntry>>, configuredMaxLogs: nat)
    : (unlinked: Option<string>)
    ensures unlinked.Some? <==> listing.Some? && CountedEntries(listing.value) > MaxLogs(configuredMaxLogs)
    ensures unlinked.Some? && (forall i :: 0 <= i < |listing.value| && Counted(listing.value[i])
                                          ==> listing.value[i].ctime.value >= -1)
            ==> unlinked.value == ""
  {
    match listing
    case None => None
    case Some(entries) =>
      if CountedEntries(entries) > MaxLogs(configuredMaxLogs) then Some(OldestAsWritten(logDir, entries).0)
      else None
  }

  /** The index of the first counted entry with the smallest change time, as
      the loop would find it with a sentinel meaning "none yet". */
  function OldestIndex(entries: seq<DirEntry>): (r: Option<nat>)
    ensures r.None? <==> forall i :: 0 <= i < |entries| ==> !Counted(entries[i])
    ensures r.Some? ==> r.value < |entries| && Counted(entries[r.value])
    ensures r.Some? ==> forall i :: 0 <= i < |entries| && Counted(entries[i]) ==>
                          entries[r.value].ctime.value <= entries[i].ctime.value
    ensures r.Some? ==> forall i :: 0 <= i < r.value && Counted(entries[i]) ==>
                          entries[i].ctime.value > entries[r.value].ctime.value
    decreases |entries|
  {
    if |entries| == 0 then None
    else
      var init := entries[..|entries| - 1];
      var prev := OldestIndex(init);
      var last := |entries| - 1;
      assert forall i :: 0 <= i < last ==> init[i] == entries[i];
      if Counted(entries[last]) && (prev.None? || entries[last].ctime.value < entries[prev.value].ctime.value)
      then Some(last)
      else prev
  }

  /** delete_oldest_file as evidently intended: when more files are counted
      than MaxLogs allows, the oldest of them (the first, on a tie) is unlinked. */
  function DeleteOldestFile(logDir: string, listing: Option<seq<DirEntry>>, configuredMaxLogs: nat)
    : (unlinked: Option<string>)
    ensures unlinked.Some? <==> listing.Some? && CountedEntries(listing.value) > MaxLogs(configuredMaxLogs)
    ensures unlinked.Some? ==>
              exists i :: 0 <= i < |listing.value| && Counted(listing.value[i])
                          && unlinked.value == EntryPath(logDir, listing.value[i])
                          && (forall j :: 0 <= j < |listing.value| && Counted(listing.value[j]) ==>
                                listing.value[i].ctime.value <= listing.value[j].ctime.value)
                          && (forall j :: 0 <= j < i && Counted(listing.value[j]) ==>
                                listing.value[j].ctime.value > listing.value[i].ctime.value)
  {
    match listing
    case None => None
    case Some(entries) =>
      if CountedEntries(entries) > MaxLogs(configuredMaxLogs) then
        var i := OldestIndex(entries).value;
        Some(EntryPath(logDir, entries[i]))
      else None
  }

  /** With a single log file and MaxLogs 0, the source unlinks the empty path,
      while the intended behaviour removes that file. */
  lemma DeleteOldestSentinelNeverMatches()
    ensures DeleteOldestFileAsWritten("logs", Some([DirEntry("a.txt", false, Some(1000))]), 0) == Some("")
    ensures DeleteOldestFile("logs", Some([DirEntry("a.txt", false, Some(1000))]), 0) == Some("logs/a.txt")
  {
    var entries := [DirEntry("a.txt", false, Some(1000))];
    assert Counted(entries[0]);
    assert entries[..0] == [];
    assert CountedEntries(entries) == 1;
    assert MaxLogs(0) == 0;
    assert OldestIndex(entries) == Some(0);
    assert EntryPath("logs", entries[0]) == "logs/a.txt";
  }

  // ---------------------------------------------------------------------------
  // Window capture

  /** 2 to the power `n`. */
  function Pow2(n: nat): (p: nat)
    ensures p >= 1
  {
    if n == 0 then 1 else 2 * Pow2(n - 1)
  }

  /** The colour table size of the bitmap header: one entry per colour for the
      palette formats, none for 16, 24 and 32 bits; None for any other depth, in
      which case the capture gives up before writing anything. */
  function ColorTableEntries(bitCount: int): (r: Option<nat>)
    ensures r.Some? <==> bitCount in {1, 4, 8, 16, 24, 32}
    ensures r.Some? && bitCount <= 8 ==> r.value == Pow2(bitCount)
    ensures r.Some? && bitCount > 8 ==> r.value == 0
  {
    if bitCount == 1 then Some(2)
    else if bitCount == 4 then Some(16)
    else if bitCount == 8 then Some(256)
    else if bitCount == 16 || bitCount == 24 || bitCount == 32 then Some(0)
    else None
  }

  const DwordModulus: nat := 0x1_0000_0000

  /** Conversion to DWORD: the value modulo 2^32. */
  function Dword(x: int): (d: nat)
    ensures d < DwordModulus && (x - d) % DwordModulus == 0
    ensures 0 <= x < DwordModulus ==> d == x
  {
    x % DwordModulus
  }

  /** The bytes of one bitmap row, computed in DWORD arithmetic: the bit width
      divided by 32, rounded up, times 4. */
  function RowStride(width: int, bitCount: nat): (stride: nat)
    ensures stride % 4 == 0 && stride < DwordModulus
  {
    var bits := Dword(Dword(width) * bitCount);
    var words := bits / 32 + (if bits % 32 != 0 then 1 else 0);
    Dword(words * 4)
  }

  /** Without wrap-around the stride is the least multiple of 4 bytes that holds
      the row's bits. */
  lemma RowStrideHoldsRow(width: nat, bitCount: nat)
    requires width < 0x8000_0000 && width * bitCount < DwordModulus
    ensures RowStride(width, bitCount) * 8 >= width * bitCount
    ensures RowStride(width, bitCount) == 0 || (RowStride(width, bitCount) - 4) * 8 < width * bitCount
  {
    var bits := width * bitCount;
    assert Dword(width) == width;
    assert Dword(bits) == bits;
    var words := bits / 32 + (if bits % 32 != 0 then 1 else 0);
    assert words * 4 < DwordModulus;
    assert RowStride(width, bitCount) == words * 4;
  }

  /** Reducing a multiple of 4 modulo 2^32 leaves a multiple of 4. */
  lemma MultipleOfFourWraps(k: nat)
    ensures Dword(4 * k) % 4 == 0
  {
    var q := 4 * k / DwordModulus;
    assert Dword(4 * k) == 4 * k - DwordModulus * q;
    assert Dword(4 * k) == 4 * (k - 0x4000_0000 * q);
  }

  /** The image size: stride times height, in DWORD arithmetic. */
  function SizeImage(stride: nat, height: int): (size: nat)
    requires stride % 4 == 0
    ensures size < DwordModulus && size % 4 == 0
    ensures 0 <= height && stride * height < DwordModulus ==> size == stride * height
  {
    var product := stride * Dword(height);
    MultipleOfFourWraps(stride / 4 * Dword(height));
    assert product == 4 * (stride / 4 * Dword(height));
    Dword(product)
  }

  /** The fields of the bitmap header the capture fills in, and the length of
      the block that holds the header and its colour table. */
  datatype BitmapHeader = BitmapHeader(structLength: nat, width: int, height: int, bitCount: nat,
                                       clrUsed: nat, sizeImage: nat)

  /** sizeof(BITMAPINFOHEADER) and sizeof(RGBQUAD). */
  const BitmapInfoHeaderSize: nat := 40
  const RgbQuadSize: nat := 4

  /** The header addWindowCaptureToZip builds for a window of the given client
      size, or None when the colour depth is not supported. */
  function CaptureHeader(width: int, height: int, bitCount: int): (r: Option<BitmapHeader>)
    ensures r.None? <==> ColorTableEntries(bitCount).None?
    ensures r.Some? ==> r.value.width == width && r.value.height == height && r.value.bitCount == bitCount
    ensures r.Some? ==> r.value.clrUsed == ColorTableEntries(bitCount).value
                        && r.value.structLength == BitmapInfoHeaderSize + RgbQuadSize * r.value.clrUsed
    ensures r.Some? ==> r.value.sizeImage % 4 == 0 && r.value.sizeImage < DwordModulus
  {
    match ColorTableEntries(bitCount)
    case None => None
    case Some(entries) =>
      var stride := RowStride(width, bitCount);
      Some(BitmapHeader(BitmapInfoHeaderSize + RgbQuadSize * entries, width, height, bitCount, entries,
                        SizeImage(stride, height)))
  }

  lemma MulMonotone(a: nat, b: nat, k: nat)
    requires a <= b
    ensures a * k <= b * k
  {
  }

  /** The 24-bit capture of the main window: no colour table, and for any
      window up to 32767 pixels a side the image size is the exact row length
      times the height, enough to hold every pixel. */
  lemma MainWindowCaptureHoldsImage(width: nat, height: nat)
    requires width < 0x8000 && height < 0x8000
    ensures CaptureHeader(width, height, 24).Some?
    ensures var h := CaptureHeader(width, height, 24).value;
            h.clrUsed == 0 && h.structLength == BitmapInfoHeaderSize
            && h.sizeImage == RowStride(width, 24) * height
            && h.sizeImage * 8 >= 24 * width * height
  {
    var stride := RowStride(width, 24);
    RowStrideHoldsRow(width, 24);
    assert stride < 98305;
    MulMonotone(stride, 98305, height);
    MulMonotone(24 * width, stride * 8, height);
    assert stride * 8 * height == stride * height * 8;
  }

  // ---------------------------------------------------------------------------
  // Which files go into the crash package

  /** The prefixes (lower case, forward slashes) of the files left out of the package. */
  const Blacklist: seq<string> := [
    "plugin_config/obs-streamelements/obs-streamelements-update.exe",
    "plugin_config/obs-browser/cache/",
    "plugin_config/obs-browser/blob_storage/",
    "plugin_config/obs-browser/code cache/",
    "plugin_config/obs-browser/gpucache/",
    "plugin_config/obs-browser/visited links/",
    "plugin_config/obs-browser/transportsecurity/",
    "plugin_config/obs-browser/videodecodestats/",
    "plugin_config/obs-browser/session storage/",
    "plugin_config/obs-browser/service worker/",
    "plugin_config/obs-browser/pepper data/",
    "plugin_config/obs-browser/indexeddb/",
    "plugin_config/obs-browser/file system/",
    "plugin_config/obs-browser/databases/",
    "plugin_config/obs-browser/obs-browser-streamelements.ini.bak",
    "plugin_config/obs-browser/cef.",
    "plugin_config/obs-browser/obs_profile_cookies/",
    "updates/",
    "profiler_data/",
    "obslive_restored_files/",
    "plugin_config/obs-browser/streamelements_restored_files/",
    "crashes/"]

  /** The form a relative path is compared in: lower case, '\' turned into '/'. */
  function NormalizeZipPath(p: string): (r: string)
    ensures |r| == |p|
    ensures '\\' !in r
    ensures forall i :: 0 <= i < |p| ==> r[i] == SwapChar(ToLower(p[i]), '\\', '/')
  {
    ReplaceChar(Lower(p), '\\', '/')
  }

  /** Normalising twice gives what normalising once gives. */
  lemma NormalizeZipPathIdempotent(p: string)
    ensures NormalizeZipPath(NormalizeZipPath(p)) == NormalizeZipPath(p)
  {
  }

  /** The blacklist loop: true unless one of `items` is a prefix of `normalized`. */
  function Accepts(normalized: string, items: seq<string>): (accept: bool)
    ensures accept <==> forall i :: 0 <= i < |items| ==> !(items[i] <= normalized)
    decreases |items|
  {
    if |items| == 0 then true
    else if items[0] <= normalized then false
    else
      var rest := Accepts(normalized, items[1..]);
      assert forall i :: 1 <= i < |items| ==> items[i] == items[1..][i - 1];
      rest
  }

  /** The package entry for the file at `localPath`: "obs-studio\" followed by
      its path below the data directory (whose path is `baseLength` characters
      long), or None when an entry of `blacklist` (the source passes `Blacklist`)
      is a prefix of that relative path. */
  function ZipEntry(localPath: string, baseLength: nat, blacklist: seq<string>): (r: Option<string>)
    requires baseLength + 1 <= |localPath|
    ensures r.Some? <==> Accepts(NormalizeZipPath(localPath[baseLength + 1..]), blacklist)
    ensures r.Some? ==> r.value == "obs-studio\\" + localPath[baseLength + 1..]
  {
    var zipPath := localPath[baseLength + 1..];
    if Accepts(NormalizeZipPath(zipPath), blacklist) then Some("obs-studio\\" + zipPath) else None
  }

  /** The collection loop: the map from local path to package path of every
      accepted file (files deeper than the data directory). */
  method CollectFiles(files: seq<string>, baseLength: nat, blacklist: seq<string>) returns (m: map<string, string>)
    requires forall i :: 0 <= i < |files| ==> baseLength + 1 <= |files[i]|
    ensures forall f :: f in m ==> f in files && ZipEntry(f, baseLength, blacklist) == Some(m[f])
    ensures forall i :: 0 <= i < |files| && ZipEntry(files[i], baseLength, blacklist).Some? ==> files[i] in m
  {
    m := map[];
    var k := 0;
    while k < |files|
      invariant 0 <= k <= |files|
      invariant forall f :: f in m ==> f in files[..k] && ZipEntry(f, baseLength, blacklist) == Some(m[f])
      invariant forall i :: 0 <= i < k && ZipEntry(files[i], baseLength, blacklist).Some? ==> files[i] in m
    {
      var entry := ZipEntry(files[k], baseLength, blacklist);
      if entry.Some? {
        m := m[files[k] := entry.value];
      }
      assert files[..k + 1] == files[..k] + [files[k]];
      k := k + 1;
    }
    assert files[..k] == files;
  }

  /** Case and separators do not matter: a crash dump is left out however its
      path is spelt. */
  lemma ZipEntryLeavesOutCrashDumps()
    ensures ZipEntry("C:\\obs\\Crashes\\x.dmp", 6, Blacklist).None?
  {
    var local := "C:\\obs\\Crashes\\x.dmp";
    assert local[7..] == "Crashes\\x.dmp";
    var n := NormalizeZipPath(local[7..]);
    assert n[..8] == "crashes/";
    assert Blacklist[21] <= n;
  }
}
