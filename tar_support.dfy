/**
 * The tar backend of libxarchiver (libxarchiver/support-tar.c): recognising a
 * ustar archive by its magic, folding the lines of `tar tfv` into the
 * archive's counters, and the `tar` command lines that open, add to, remove
 * from and extract an archive.
 *
 * The processes themselves, the GLib channels and the helpers whose bodies
 * are not part of this model (`concatenatefilenames`, `split_line`,
 * `get_last_field`) are parameters: a started process is the command line it
 * was given plus the pid the caller reports, a channel watch is whether
 * `xarchiver_set_channel` succeeded.
 */
module TarSupport {
  import opened CText

  // ---------------------------------------------------------------------------
  // Recognising a ustar archive
  // ---------------------------------------------------------------------------

  /** The `magic` field of a POSIX ustar header block starts at byte 257. */
  const MagicOffset: nat := 257
  /** "ustar" in ASCII. */
  const UstarMagic: seq<byte> := [0x75, 0x73, 0x74, 0x61, 0x72]

  /** `fread(magic, 1, 5, fp)` after seeking to byte 257: nothing when the file
      ends at or before 257, otherwise the bytes read followed by what the
      uninitialised buffer `stale` held beyond them. */
  function ReadMagic(file: seq<byte>, stale: seq<byte>): (r: Option<seq<byte>>)
    requires |stale| == 5
    ensures r.Some? <==> MagicOffset < |file|
    ensures r.Some? ==> |r.value| == 5
    ensures r.Some? && MagicOffset + 5 <= |file| ==> r.value == file[MagicOffset..MagicOffset + 5]
  {
    if |file| <= MagicOffset then None
    else
      var got := if |file| - MagicOffset < 5 then |file| - MagicOffset else 5;
      Some(file[MagicOffset..MagicOffset + got] + stale[got..])
  }

  /** What `xarchive_tar_support_verify` tests: some byte was read and the
      buffer then compares equal to "ustar". */
  predicate MagicMatches(file: seq<byte>, stale: seq<byte>)
    requires |stale| == 5
  {
    match ReadMagic(file, stale)
    case None => false
    case Some(m) => m == UstarMagic
  }

  /** The file really holds "ustar" at byte 257. */
  predicate HasUstarMagic(file: seq<byte>)
  {
    MagicOffset + 5 <= |file| && file[MagicOffset..MagicOffset + 5] == UstarMagic
  }

  /** A file that holds all five bytes is recognised exactly when they are
      "ustar", whatever the buffer held before. */
  lemma MagicMatchesFullRead(file: seq<byte>, stale: seq<byte>)
    requires |stale| == 5 && MagicOffset + 5 <= |file|
    ensures MagicMatches(file, stale) <==> HasUstarMagic(file)
  {
  }

  /** A file too short to reach byte 257 is never recognised. */
  lemma ShortFileNotTar(file: seq<byte>, stale: seq<byte>)
    requires |stale| == 5 && |file| <= MagicOffset
    ensures !MagicMatches(file, stale) && !HasUstarMagic(file)
  {
  }

  /** `fread` returns how many bytes it read, and the test only asks for one:
      a file that ends one byte after the 'u' is recognised when the buffer
      happens to hold "star" after its first byte. */
  lemma ShortReadUsesBuffer(file: seq<byte>)
    requires |file| == MagicOffset + 1 && file[MagicOffset] == 0x75
    ensures MagicMatches(file, [0, 0x73, 0x74, 0x61, 0x72]) && !HasUstarMagic(file)
  {
    var m := ReadMagic(file, [0, 0x73, 0x74, 0x61, 0x72]).value;
    assert m == [0x75] + [0x73, 0x74, 0x61, 0x72];
  }

  // ---------------------------------------------------------------------------
  // Command lines
  // ---------------------------------------------------------------------------

  /** `g_strconcat` stops at its first NULL argument: the archive path and
      everything after it, or nothing when the path is NULL. */
  function FromPath(path: Option<string>, after: string): (r: string)
    ensures path.None? ==> r == []
    ensures path.Some? ==> |r| == |path.value| + |after| && r[..|path.value|] == path.value
  {
    match path
    case None => ""
    case Some(p) => p + after
  }

  /** `tar tfv <path>`. */
  function OpenCommand(path: Option<string>): string
  {
    "tar tfv " + FromPath(path, "")
  }

  /** `tar rvvf` appends to an archive that exists, `tar cvvf` creates one. */
  function AddCommand(present: bool, path: Option<string>, names: string): string
  {
    (if present then "tar rvvf " else "tar cvvf ") + FromPath(path, " " + names)
  }

  /** The names follow the path with no separator of their own. */
  function RemoveCommand(path: Option<string>, names: string): string
  {
    "tar --delete -vf " + FromPath(path, names)
  }

  /** `levels` is an `unsigned short` holding the count of '/' in the names. */
  function StripLevels(names: string): (r: nat)
    ensures r < 0x1_0000
    ensures CountChar(names, '/') < 0x1_0000 ==> r == CountChar(names, '/')
  {
    CountChar(names, '/') % 0x1_0000
  }

  /** `--strip-components=<levels> `, the level printed with `%d`. */
  function StripOption(names: string): string
  {
    "--strip-components=" + FormatDecimal(StripLevels(names)) + " "
  }

  /** `tar [--strip-components=N ]-xvf <path> -C <destination><names>`. */
  function ExtractCommand(full: bool, path: Option<string>, destination: string, names: string): string
  {
    "tar " + (if full then "" else StripOption(names)) + "-xvf " + FromPath(path, " -C " + destination + names)
  }

  /** A plain word, one space, then the rest: the word comes first. */
  lemma WordThenSpace(w: string, rest: string)
    requires IsWord(w)
    ensures Words(w + " " + rest) == [w] + Words(rest)
  {
    assert w + " " + rest == w + (" " + rest);
    LeadingWord(w, " " + rest);
    LeadingSpace(rest);
  }

  predicate AllWords(ws: seq<string>)
  {
    forall k :: 0 <= k < |ws| ==> IsWord(ws[k])
  }

  /** Fixed words, a space, then the rest: the fixed words come first. */
  lemma WordsAfterHead(head: seq<string>, rest: string)
    requires AllWords(head)
    ensures Words(Unwords(head) + " " + rest) == head + Words(rest)
  {
    WordsSpaceJoin(Unwords(head), rest);
    WordsUnwords(head);
  }

  /** The fixed text in front of the archive path, as words. */
  lemma OpenHead()
    ensures AllWords(["tar", "tfv"]) && "tar tfv " == Unwords(["tar", "tfv"]) + " "
  {
    assert Unwords(["tar", "tfv"][1..]) == "tfv";
  }

  lemma AddHead(present: bool)
    ensures var ws := ["tar", if present then "rvvf" else "cvvf"];
      AllWords(ws) && (if present then "tar rvvf " else "tar cvvf ") == Unwords(ws) + " "
  {
    var ws := ["tar", if present then "rvvf" else "cvvf"];
    assert Unwords(ws[1..]) == ws[1];
  }

  lemma RemoveHead()
    ensures var ws := ["tar", "--delete", "-vf"];
      AllWords(ws) && "tar --delete -vf " == Unwords(ws) + " "
  {
    var ws := ["tar", "--delete", "-vf"];
    assert Unwords(ws[2..]) == "-vf";
    assert Unwords(ws[1..]) == "--delete" + " " + "-vf";
  }

  /** The words the strip option contributes. */
  function StripWords(full: bool, names: string): seq<string>
  {
    if full then [] else ["--strip-components=" + FormatDecimal(StripLevels(names))]
  }

  /** The `--strip-components` option is one word whose number reads back as
      the count of '/' in the names, modulo the width of an `unsigned short`. */
  lemma StripOptionWord(names: string)
    ensures var w := "--strip-components=" + FormatDecimal(StripLevels(names));
      StripOption(names) == w + " " && IsWord(w) && Atoll(w[19..]) == StripLevels(names)
  {
    var d := FormatDecimal(StripLevels(names));
    var w := "--strip-components=" + d;
    assert IsWord(w) by {
      DecimalIsWord(StripLevels(names));
      assert IsWord("--strip-components=");
      WordConcat("--strip-components=", d);
    }
    assert Atoll(w[19..]) == StripLevels(names) by {
      assert w[19..] == d + [];
      AtollFormatDecimal(StripLevels(names), []);
    }
  }

  lemma ExtractHead(full: bool, names: string)
    ensures var ws := ["tar"] + StripWords(full, names) + ["-xvf"];
      AllWords(ws) && "tar " + (if full then "" else StripOption(names)) + "-xvf " == Unwords(ws) + " "
  {
    if full {
      assert ["tar"] + StripWords(full, names) + ["-xvf"] == ["tar", "-xvf"];
      ExtractHeadFull();
    } else {
      var w := "--strip-components=" + FormatDecimal(StripLevels(names));
      assert ["tar"] + StripWords(full, names) + ["-xvf"] == ["tar", w, "-xvf"];
      StripOptionWord(names);
      ExtractHeadStrip(w);
    }
  }

  lemma ExtractHeadFull()
    ensures AllWords(["tar", "-xvf"]) && "tar " + "" + "-xvf " == Unwords(["tar", "-xvf"]) + " "
  {
    var ws := ["tar", "-xvf"];
    assert IsWord(ws[0]) && IsWord(ws[1]);
    assert Unwords(ws[1..]) == "-xvf";
  }

  lemma ExtractHeadStrip(w: string)
    requires IsWord(w)
    ensures AllWords(["tar", w, "-xvf"]) && "tar " + (w + " ") + "-xvf " == Unwords(["tar", w, "-xvf"]) + " "
  {
    var ws := ["tar", w, "-xvf"];
    assert IsWord(ws[0]) && IsWord(ws[2]);
    assert Unwords(ws[2..]) == "-xvf";
    assert Unwords(ws[1..]) == w + " " + "-xvf";
  }

  /** With a NULL path each command ends right after its options. */
  lemma NullPathTruncates(present: bool, full: bool, destination: string, names: string)
    ensures Words(OpenCommand(None)) == ["tar", "tfv"]
    ensures Words(AddCommand(present, None, names)) == ["tar", if present then "rvvf" else "cvvf"]
    ensures Words(RemoveCommand(None, names)) == ["tar", "--delete", "-vf"]
    ensures Words(ExtractCommand(full, None, destination, names)) ==
      ["tar"] + StripWords(full, names) + ["-xvf"]
  {
    assert Words(OpenCommand(None)) == ["tar", "tfv"] by {
      OpenHead();
      WordsAfterHead(["tar", "tfv"], "");
    }
    assert Words(AddCommand(present, None, names)) == ["tar", if present then "rvvf" else "cvvf"] by {
      AddHead(present);
      WordsAfterHead(["tar", if present then "rvvf" else "cvvf"], "");
    }
    assert Words(RemoveCommand(None, names)) == ["tar", "--delete", "-vf"] by {
      RemoveHead();
      WordsAfterHead(["tar", "--delete", "-vf"], "");
    }
    ExtractHead(full, names);
    WordsAfterHead(["tar"] + StripWords(full, names) + ["-xvf"], "");
  }

  /** `tar tfv <path>` reaches tar as three words. */
  lemma OpenCommandWords(p: string)
    requires IsWord(p)
    ensures Words(OpenCommand(Some(p))) == ["tar", "tfv", p]
  {
    OpenHead();
    WordsAfterHead(["tar", "tfv"], p + "");
    OneWord(p);
    assert p + "" == p;
  }

  /** The add command: the mode word, the archive, then the names. */
  lemma AddCommandWords(present: bool, p: string, names: string)
    requires IsWord(p)
    ensures Words(AddCommand(present, Some(p), names)) ==
      ["tar", if present then "rvvf" else "cvvf", p] + Words(names)
  {
    var ws := ["tar", if present then "rvvf" else "cvvf"];
    assert Words(p + (" " + names)) == [p] + Words(names) by {
      WordThenSpace(p, names);
      assert p + " " + names == p + (" " + names);
    }
    assert Words(AddCommand(present, Some(p), names)) == ws + Words(p + (" " + names)) by {
      AddHead(present);
      WordsAfterHead(ws, p + (" " + names));
    }
    assert ws + ([p] + Words(names)) == ["tar", ws[1], p] + Words(names);
  }

  /** The names are glued to the path: only names that start with a space
      come out as separate words. */
  lemma RemoveCommandWords(p: string, names: string)
    requires IsWord(p) && (names == [] || names[0] == ' ')
    ensures Words(RemoveCommand(Some(p), names)) == ["tar", "--delete", "-vf", p] + Words(names)
  {
    var head := ["tar", "--delete", "-vf"];
    var w := Words(names);
    assert Words(RemoveCommand(Some(p), names)) == head + Words(p + names) by {
      RemoveHead();
      WordsAfterHead(head, p + names);
    }
    assert Words(p + names) == [p] + w by {
      LeadingWord(p, names);
    }
    HeadThenWord(head, p, w);
  }

  lemma HeadThenWord<T>(head: seq<T>, p: T, w: seq<T>)
    requires |head| == 3
    ensures head + ([p] + w) == [head[0], head[1], head[2], p] + w
  {
  }

  lemma ConsTwo<T>(a: T, b: T, w: seq<T>)
    ensures [a] + ([b] + w) == [a, b] + w
  {
  }

  lemma ConsThree<T>(a: T, b: T, c: T, w: seq<T>)
    ensures [a] + ([b, c] + w) == [a, b, c] + w
  {
  }

  lemma DestinationText(destination: string, names: string)
    ensures " -C " + destination + names == " " + ("-C" + " " + (destination + names))
  {
  }

  /** After the path: `-C`, the destination, then the names. */
  lemma DestinationWords(destination: string, names: string)
    requires IsWord(destination) && (names == [] || names[0] == ' ')
    ensures Words(" -C " + destination + names) == ["-C", destination] + Words(names)
  {
    var inner := "-C" + " " + (destination + names);
    var w := Words(names);
    assert Words(destination + names) == [destination] + w by {
      LeadingWord(destination, names);
    }
    assert Words(inner) == ["-C"] + ([destination] + w) by {
      WordThenSpace("-C", destination + names);
    }
    ConsTwo("-C", destination, w);
    assert Words(" -C " + destination + names) == Words(inner) by {
      DestinationText(destination, names);
      LeadingSpace(inner);
    }
  }

  lemma ExtractTail(p: string, destination: string, names: string)
    requires IsWord(p) && IsWord(destination) && (names == [] || names[0] == ' ')
    ensures Words(p + (" -C " + destination + names)) == [p, "-C", destination] + Words(names)
  {
    var rest := " -C " + destination + names;
    var w := Words(names);
    assert Words(p + rest) == [p] + (["-C", destination] + w) by {
      DestinationWords(destination, names);
      LeadingWord(p, rest);
    }
    ConsThree(p, "-C", destination, w);
  }

  lemma ExtractText(full: bool, p: string, destination: string, names: string)
    ensures var head := ["tar"] + StripWords(full, names) + ["-xvf"];
      AllWords(head) &&
      ExtractCommand(full, Some(p), destination, names) == Unwords(head) + " " + (p + (" -C " + destination + names))
  {
    ExtractHead(full, names);
  }

  /** The extract command: `tar`, the strip option unless full paths are
      kept, `-xvf <path> -C <destination>`, then the names. */
  lemma ExtractCommandWords(full: bool, p: string, destination: string, names: string)
    requires IsWord(p) && IsWord(destination) && (names == [] || names[0] == ' ')
    ensures Words(ExtractCommand(full, Some(p), destination, names)) ==
      (["tar"] + StripWords(full, names) + ["-xvf"]) + ([p, "-C", destination] + Words(names))
  {
    var head := ["tar"] + StripWords(full, names) + ["-xvf"];
    var rest := p + (" -C " + destination + names);
    assert Words(ExtractCommand(full, Some(p), destination, names)) == head + Words(rest) by {
      ExtractText(full, p, destination, names);
      WordsAfterHead(head, rest);
    }
    ExtractTail(p, destination, names);
  }

  // ---------------------------------------------------------------------------
  // Folding the listing
  // ---------------------------------------------------------------------------

  /** The GLib I/O conditions a channel watch reports. */
  datatype IOFlag = IoIn | IoPri | IoErr | IoHup | IoNval | IoOut

  predicate Readable(cond: set<IOFlag>)
  {
    IoIn in cond || IoPri in cond
  }

  predicate Broken(cond: set<IOFlag>)
  {
    IoErr in cond || IoHup in cond || IoNval in cond
  }

  /** The running totals of a listing. */
  datatype Totals = Totals(files: int, dirs: int, size: int)

  /** A row is a directory when its permissions (field 1) contain a 'd'. */
  predicate IsDirectoryRow(row: seq<string>)
    requires |row| >= 3
  {
    'd' in row[1]
  }

  /** One listing line: one more file or one more directory, and the size
      field read with `atoll`. */
  function Step(t: Totals, row: seq<string>): (r: Totals)
    requires |row| >= 3
    ensures r.files + r.dirs == t.files + t.dirs + 1
    ensures r.dirs == t.dirs + (if IsDirectoryRow(row) then 1 else 0)
    ensures r.size == t.size + Atoll(row[2])
  {
    if !IsDirectoryRow(row) then Totals(t.files + 1, t.dirs, t.size + Atoll(row[2]))
    else Totals(t.files, t.dirs + 1, t.size + Atoll(row[2]))
  }

  predicate AllRows(rows: seq<seq<string>>)
  {
    forall k :: 0 <= k < |rows| ==> |rows[k]| >= 3
  }

  /** The totals after reading `rows` one by one from `t`. */
  function Fold(t: Totals, rows: seq<seq<string>>): Totals
    requires AllRows(rows)
    decreases |rows|
  {
    if rows == [] then t else Fold(Step(t, rows[0]), rows[1..])
  }

  function CountDirs(rows: seq<seq<string>>): nat
    requires AllRows(rows)
  {
    if rows == [] then 0 else (if IsDirectoryRow(rows[0]) then 1 else 0) + CountDirs(rows[1..])
  }

  function SumSizes(rows: seq<seq<string>>): int
    requires AllRows(rows)
  {
    if rows == [] then 0 else Atoll(rows[0][2]) + SumSizes(rows[1..])
  }

  /** After a listing, files and directories together number the lines, the
      directories are the rows with a 'd' in their permissions, and the size
      is the sum of the size fields. */
  lemma {:induction false} FoldTotals(t: Totals, rows: seq<seq<string>>)
    requires AllRows(rows)
    ensures var r := Fold(t, rows);
      && r.files + r.dirs == t.files + t.dirs + |rows|
      && r.dirs == t.dirs + CountDirs(rows)
      && r.size == t.size + SumSizes(rows)
    decreases |rows|
  {
    if rows != [] {
      FoldTotals(Step(t, rows[0]), rows[1..]);
    }
  }

  /** The status of an archive, as far as this backend sets or tests it. */
  datatype Status = Idle | Adding | Removing | Reloading

  /** The test `! archive->status == RELOAD` as C parses it:
      `(!status) == RELOAD` on the enumerators' integer codes. */
  predicate KeepsLineAsWritten(statusCode: int, reloadCode: int)
  {
    (if statusCode == 0 then 1 else 0) == reloadCode
  }

  /** What the test evidently means, `!(status == RELOAD)`. */
  predicate KeepsLineIntended(statusCode: int, reloadCode: int)
  {
    statusCode != reloadCode
  }

  /** The intended test on the status itself: keep the line unless reloading. */
  predicate KeepsLine(status: Status)
  {
    status != Reloading
  }

  /** As written the test only looks at whether the status code is zero, so
      unless RELOAD is the first enumerator some status other than RELOAD
      drops its lines: code 2 when RELOAD is 1, code 0 otherwise. */
  lemma KeepsLineAsWrittenDiffers(reloadCode: int)
    requires reloadCode != 0
    ensures var s := if reloadCode == 1 then 2 else 0;
      s != reloadCode && !KeepsLineAsWritten(s, reloadCode)
  {
  }

  /** The test as written behaves as intended for every status exactly when
      RELOAD is the enumerator with code 0. */
  lemma AsWrittenAgreesOnlyWhenReloadIsZero(reloadCode: int)
    ensures (forall s :: KeepsLineAsWritten(s, reloadCode) == KeepsLineIntended(s, reloadCode))
      <==> reloadCode == 0
  {
    if reloadCode != 0 {
      KeepsLineAsWrittenDiffers(reloadCode);
      var s := if reloadCode == 1 then 2 else 0;
      assert KeepsLineAsWritten(s, reloadCode) != KeepsLineIntended(s, reloadCode);
    }
  }

  /** Whatever distinct codes the enumerators carry, `KeepsLine` is the
      intended test. */
  lemma KeepsLineByCode(status: Status, code: Status -> int)
    requires forall x: Status, y: Status :: code(x) == code(y) ==> x == y
    ensures KeepsLine(status) <==> KeepsLineIntended(code(status), code(Reloading))
  {
  }

  // ---------------------------------------------------------------------------
  // The archive
  // ---------------------------------------------------------------------------

  datatype ArchiveType = UnknownType | TarType | OtherType

  /** Every field of a `TarArchive` at one moment, so that a contract can
      name the fields a method changes and keep all the others. */
  datatype TarState = TarState(
    path: Option<string>, archiveType: ArchiveType, hasPasswd: bool, passwd: Option<string>,
    status: Status, childPid: int, dummySize: int, numberOfFiles: int, numberOfDirs: int,
    output: seq<string>, row: seq<string>, commands: seq<string>)

  class TarArchive {
    var path: Option<string>
    var archiveType: ArchiveType
    var hasPasswd: bool
    var passwd: Option<string>
    var status: Status
    var childPid: int
    var dummySize: int
    var numberOfFiles: int
    var numberOfDirs: int
    /** Lines of the listing kept by `xarchiver_parse_tar_output`, newest first. */
    var output: seq<string>
    /** The fields of the latest listing line, as the row helpers left them. */
    var row: seq<string>
    /** The command lines handed to `xarchiver_async_process`, oldest first. */
    var commands: seq<string>

    constructor(path: Option<string>, archiveType: ArchiveType)
      ensures this.path == path && this.archiveType == archiveType
      ensures status == Idle && commands == [] && output == [] && row == []
      ensures dummySize == 0 && numberOfFiles == 0 && numberOfDirs == 0
    {
      this.path := path;
      this.archiveType := archiveType;
      hasPasswd := false;
      passwd := None;
      status := Idle;
      childPid := 0;
      dummySize := 0;
      numberOfFiles := 0;
      numberOfDirs := 0;
      output := [];
      row := [];
      commands := [];
    }

    function State(): TarState
      reads this
    {
      TarState(path, archiveType, hasPasswd, passwd, status, childPid, dummySize,
               numberOfFiles, numberOfDirs, output, row, commands)
    }

    function CurrentTotals(): Totals
      reads this
    {
      Totals(numberOfFiles, numberOfDirs, dummySize)
    }

    /** `xarchive_tar_support_verify`. `file` is the archive's bytes, or
        `None` when it cannot be opened; `stale` what the `magic` buffer holds
        before the read. Only an archive with a path and an unknown type is
        read; the answer is whether the type is then tar. */
    method Verify(file: Option<seq<byte>>, stale: seq<byte>) returns (isTar: bool)
      requires |stale| == 5
      modifies this
      ensures isTar <==> archiveType == TarType
      ensures if old(path).Some? && old(archiveType) == UnknownType && file.Some? && MagicMatches(file.value, stale)
        then State() == old(State()).(archiveType := TarType, hasPasswd := false, passwd := None)
        else State() == old(State())
    {
      if path.Some? && archiveType == UnknownType {
        if file.None? {
          return false;
        }
        var magic := ReadMagic(file.value, stale);
        if magic.Some? && magic.value == UstarMagic {
          archiveType := TarType;
          hasPasswd := false;
          passwd := None;
        }
      }
      isTar := archiveType == TarType;
    }

    /** `xarchive_tar_support_open`: list the archive with `tar tfv`. The
        size restarts at 0 once both channel watches are set. */
    method Open(pid: int, outWatch: bool, errWatch: bool) returns (ok: bool)
      modifies this
      ensures ok <==> outWatch && errWatch
      ensures State() == old(State()).(
        row := [], commands := old(commands) + [OpenCommand(path)], childPid := pid,
        dummySize := if ok then 0 else old(dummySize))
    {
      row := [];
      commands := commands + [OpenCommand(path)];
      childPid := pid;
      if !outWatch || !errWatch {
        return false;
      }
      dummySize := 0;
      ok := true;
    }

    /** `xarchive_tar_support_add`. Nothing happens without files; otherwise
        the command depends on whether the archive exists, the status becomes
        adding, and the answer is whether the process started. */
    method Add(files: seq<string>, present: bool, concat: seq<string> -> string, pid: int) returns (ok: bool)
      modifies this
      ensures files == [] ==> ok && State() == old(State())
      ensures files != [] ==>
        ok == (pid != 0)
        && State() == old(State()).(
             status := Adding, childPid := pid,
             commands := old(commands) + [AddCommand(present, path, concat(files))])
    {
      if files != [] {
        var names := concat(files);
        var command := AddCommand(present, path, names);
        status := Adding;
        childPid := pid;
        commands := commands + [command];
        if childPid == 0 {
          return false;
        }
      }
      ok := true;
    }

    /** `xarchive_tar_support_remove`: with files, `tar --delete` and the
        removing status; always answers TRUE. */
    method Remove(files: seq<string>, concat: seq<string> -> string, pid: int) returns (ok: bool)
      modifies this
      ensures ok
      ensures files == [] ==> State() == old(State())
      ensures files != [] ==>
        State() == old(State()).(
          status := Removing, childPid := pid,
          commands := old(commands) + [RemoveCommand(path, concat(files))])
    {
      if files != [] {
        var names := concat(files);
        commands := commands + [RemoveCommand(path, names)];
        childPid := pid;
        status := Removing;
      }
      ok := true;
    }

    /** `xarchive_tar_support_extract`. The source dereferences a NULL file
        list and formats the strip level into a two-byte buffer, so the files
        must be given and, without full paths, the level must print as one
        digit. `present` is the answer of `g_file_test` on the path, which is
        FALSE for a NULL path, so a caller passes it false when `path` is
        `None`. */
    method Extract(destination: string, files: seq<string>, full: bool, present: bool,
                   concat: seq<string> -> string, pid: int, outWatch: bool, errWatch: bool)
      returns (ok: bool)
      requires present ==> files != []
      requires present && !full ==> StripLevels(concat(files)) < 10
      modifies this
      ensures ok <==> present && pid != 0 && outWatch && errWatch
      ensures !present ==> State() == old(State())
      ensures present ==>
        State() == old(State()).(
          childPid := pid,
          commands := old(commands) + [ExtractCommand(full, path, destination, concat(files))])
    {
      if !present {
        return false;
      }
      var names := concat(files);
      var command := ExtractCommand(full, path, destination, names);
      childPid := pid;
      commands := commands + [command];
      if childPid == 0 {
        return false;
      }
      if !outWatch || !errWatch {
        return false;
      }
      ok := true;
    }

    /** `xarchiver_parse_tar_output`, one call of the watch. `line` is what
        `g_io_channel_read_line` returned, `fields` the row the helpers make
        of it; field 1 (permissions) and field 2 (size) must exist, as the
        source reads them unchecked. */
    method ParseTarOutput(cond: set<IOFlag>, line: Option<string>, fields: seq<string>) returns (keep: bool)
      requires Readable(cond) ==> |fields| >= 3
      modifies this
      ensures keep <==> Readable(cond) || !Broken(cond)
      ensures Readable(cond) ==>
        var totals := Step(old(CurrentTotals()), fields);
        State() == old(State()).(
          row := fields,
          output := if line.Some? && KeepsLine(status) then [line.value] + old(output) else old(output),
          numberOfFiles := totals.files, numberOfDirs := totals.dirs, dummySize := totals.size)
      ensures !Readable(cond) ==> State() == old(State())
    {
      if Readable(cond) {
        if line.Some? && KeepsLine(status) {
          output := [line.value] + output;
        }
        row := fields;
        if 'd' !in row[1] {
          numberOfFiles := numberOfFiles + 1;
        } else {
          numberOfDirs := numberOfDirs + 1;
        }
        dummySize := dummySize + Atoll(row[2]);
        return true;
      } else if Broken(cond) {
        return false;
      }
      keep := true;
    }
  }
}
