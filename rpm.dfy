/**
 * The RPM handler of src/rpm.c: opening an RPM package (locate the compressed
 * cpio payload, copy it out with `dd`, decompress it), listing the cpio archive
 * line by line, and extracting selected members.
 *
 * The GTK dialogs, the list store and the GLib main loop are not modelled.
 * What the outside world answers (whether the file opens, whether a temporary
 * directory was made, whether a command succeeded, the pid a spawn returned,
 * what the archive-type detector says) comes in as parameters; every command
 * the handler runs or spawns is appended to `commands`.
 */
module Rpm {
  import opened CText
  import opened RpmHeader
  import opened CpioLine

  /** Which line parser the output of the spawned process is handed to. */
  datatype Handler = NoHandler | CpioListing

  /** Where `xa_open_rpm` stops, and why. */
  datatype OpenError =
    | HeaderFailed(error: HeaderError)   // fopen, fseek or fread, or `int` overflow
    | NoTempDirectory                    // xa_create_temp_directory failed
    | CopyFailed                         // the `dd` command failed
    | CannotWriteCpio                    // fopen of <tmp>/file.cpio for writing failed
    | DecompressorNotStarted             // the spawn returned no child

  /** The file the decompressed payload is written to, and the one `cpio` lists. */
  function CpioFile(tmp: string): string
  {
    tmp + "/file.cpio"
  }

  /** `gzip -dc` when the detector says gzip, `bzip2 -dc` for anything else. */
  function DecompressCommand(isGzip: bool, path: string): string
  {
    (if isGzip then "gzip -dc " else "bzip2 -dc ") + path
  }

  lemma DecompressCommandWords(isGzip: bool, path: string)
    requires IsWord(path)
    ensures Words(DecompressCommand(isGzip, path)) ==
      [if isGzip then "gzip" else "bzip2", "-dc", path]
  {
    var tool := if isGzip then "gzip" else "bzip2";
    var ws := [tool, "-dc", path];
    assert Unwords(ws[2..]) == path;
    assert Unwords(ws[1..]) == "-dc" + " " + path;
    assert DecompressCommand(isGzip, path) == Unwords(ws);
    WordsUnwords([tool, "-dc", path]);
  }

  /** The command that lists the decompressed archive. */
  function ListCommand(cpioPath: string): string
  {
    "cpio -tv --file " + cpioPath
  }

  /** `WIFEXITED(w)`: the low seven bits are zero. */
  predicate ExitedNormally(w: int)
  {
    w % 128 == 0
  }

  /** `WEXITSTATUS(w)`: bits 8 to 15. */
  function ExitStatus(w: int): (st: nat)
    ensures st < 256
  {
    (w / 256) % 256
  }

  /** `xa_open_cpio` goes on to list the archive unless the decompressor
      exited normally with a non-zero status; a decompressor killed by a
      signal does not stop it. */
  predicate StartsListing(w: int)
  {
    !(ExitedNormally(w) && ExitStatus(w) != 0)
  }

  /** `exit(st)` is reported as `st << 8`: listing starts exactly on status 0. */
  lemma ListingAfterExit(st: nat)
    requires st < 256
    ensures ExitedNormally(st * 256) && ExitStatus(st * 256) == st
    ensures StartsListing(st * 256) <==> st == 0
  {
  }

  /** A decompressor killed by signal `sig` (reported as the signal number in
      the low bits) never stops the listing. */
  lemma ListingAfterSignal(sig: int, core: bool)
    requires 1 <= sig < 128
    ensures StartsListing((if core then 128 else 0) + sig)
  {
  }

  /** The names handed to `cpio -id`: each escaped name preceded by a space,
      in the order given. */
  function SpacedNames(names: seq<string>): (r: string)
    ensures names == [] <==> r == []
    ensures names != [] ==> r[0] == ' '
  {
    if names == [] then "" else " " + names[0] + SpacedNames(names[1..])
  }

  function Reversed<T>(xs: seq<T>): (r: seq<T>)
    ensures |r| == |xs|
  {
    if xs == [] then [] else Reversed(xs[1..]) + [xs[0]]
  }

  lemma {:induction false} ReversedAt<T>(xs: seq<T>, k: nat)
    requires k < |xs|
    ensures Reversed(xs)[k] == xs[|xs| - 1 - k]
  {
    if k < |xs| - 1 {
      ReversedAt(xs[1..], k);
    }
  }

  /** A list of plain words, space-prefixed, splits back into that list. */
  lemma {:induction false} SpacedNamesWords(names: seq<string>)
    requires forall k :: 0 <= k < |names| ==> IsWord(names[k])
    ensures Words(SpacedNames(names)) == names
  {
    if names != [] {
      var rest := SpacedNames(names[1..]);
      assert Words(rest) == names[1..] by {
        SpacedNamesWords(names[1..]);
      }
      assert SpacedNames(names) == " " + (names[0] + rest);
      assert Words(" " + (names[0] + rest)) == [names[0]] + Words(rest) by {
        LeadingSpace(names[0] + rest);
        LeadingWord(names[0], rest);
      }
      assert names == [names[0]] + names[1..];
    }
  }

  /** Escapes every name of a list with the escaping function given (the body
      of `xa_escape_filename` is not part of this model). */
  function EscapedAll(files: seq<string>, escape: string -> string): seq<string>
  {
    seq(|files|, k requires 0 <= k < |files| => escape(files[k]))
  }

  /** The loop of `xa_rpm_extract`: each escaped name is prepended, then a
      space is prepended, so the list ends up reversed. */
  method PrependEscapedNames(files: seq<string>, escape: string -> string) returns (names: string)
    ensures names == SpacedNames(Reversed(EscapedAll(files, escape)))
  {
    names := "";
    var i := 0;
    while i < |files|
      invariant 0 <= i <= |files|
      invariant names == SpacedNames(Reversed(EscapedAll(files[..i], escape)))
    {
      var e := escape(files[i]);
      names := e + names;
      names := " " + names;
      ghost var before := Reversed(EscapedAll(files[..i], escape));
      assert Reversed(EscapedAll(files[..i + 1], escape)) == [e] + before by {
        assert EscapedAll(files[..i + 1], escape) == EscapedAll(files[..i], escape) + [e];
        ReversedSnoc(EscapedAll(files[..i], escape), e);
      }
      assert ([e] + before)[1..] == before;
      i := i + 1;
    }
    assert files[..i] == files;
  }

  lemma ReversedSnoc<T>(xs: seq<T>, x: T)
    ensures Reversed(xs + [x]) == [x] + Reversed(xs)
  {
    if xs != [] {
      assert (xs + [x])[1..] == xs[1..] + [x];
      ReversedSnoc(xs[1..], x);
    }
  }

  /** The extraction command: `cpio -id <names> -F <tmp>/file.cpio`. */
  function ExtractCommand(names: string, tmp: string): string
  {
    "cpio -id" + names + " -F " + CpioFile(tmp)
  }

  lemma ExtractHeadWords(y: string)
    requires y == [] || y[0] == ' '
    ensures Words("cpio" + (" " + ("-id" + y))) == ["cpio", "-id"] + Words(y)
  {
    var rest := " " + ("-id" + y);
    var w := Words(y);
    assert Words(rest) == ["-id"] + w by {
      OptionWords(y);
    }
    assert Words("cpio" + rest) == ["cpio"] + Words(rest) by {
      assert IsWord("cpio");
      LeadingWord("cpio", rest);
    }
    assert ["cpio"] + (["-id"] + w) == ["cpio", "-id"] + w;
  }

  lemma OptionWords(y: string)
    requires y == [] || y[0] == ' '
    ensures Words(" " + ("-id" + y)) == ["-id"] + Words(y)
  {
    LeadingSpace("-id" + y);
    assert IsWord("-id");
    LeadingWord("-id", y);
  }

  lemma ExtractTailWords(names: string, file: string)
    requires IsWord(file)
    ensures Words(names + (" " + ("-F" + (" " + file)))) == Words(names) + ["-F", file]
  {
    var tail := "-F" + (" " + file);
    assert Words(tail) == ["-F", file] by {
      assert IsWord("-F");
      WordHasNoSpace(file);
      LeadingWord("-F", " " + file);
      LeadingSpace(file);
      OneWord(file);
    }
    WordsSpaceJoin(names, tail);
    assert names + " " + tail == names + (" " + tail);
  }

  /** The words of the extraction command around the names. */
  lemma ExtractCommandSplit(names: string, tmp: string)
    requires names == [] || names[0] == ' '
    requires IsWord(tmp)
    ensures Words(ExtractCommand(names, tmp)) == ["cpio", "-id"] + Words(names) + ["-F", CpioFile(tmp)]
  {
    var file := CpioFile(tmp);
    var y := names + (" " + ("-F" + (" " + file)));
    ExtractTailWords(names, file);
    ExtractHeadWords(y);
    ExtractCommandShape(names, tmp);
  }

  lemma ExtractCommandShape(names: string, tmp: string)
    ensures ExtractCommand(names, tmp) ==
      "cpio" + (" " + ("-id" + (names + (" " + ("-F" + (" " + CpioFile(tmp)))))))
  {
  }

  /** With plain words for names and directory, the shell sees `cpio`, `-id`,
      the selected names in reverse order, `-F` and the cpio file. */
  lemma ExtractCommandWords(files: seq<string>, escape: string -> string, tmp: string)
    requires forall k :: 0 <= k < |files| ==> IsWord(escape(files[k]))
    requires IsWord(tmp)
    ensures Words(ExtractCommand(SpacedNames(Reversed(EscapedAll(files, escape))), tmp)) ==
      ["cpio", "-id"] + Reversed(EscapedAll(files, escape)) + ["-F", CpioFile(tmp)]
  {
    var es := Reversed(EscapedAll(files, escape));
    forall k | 0 <= k < |es| ensures IsWord(es[k]) {
      ReversedAt(EscapedAll(files, escape), k);
    }
    SpacedNamesWords(es);
    ExtractCommandSplit(SpacedNames(es), tmp);
  }

  /** `strlen` of a buffer holding a line and its terminator. */
  method StrLen(line: array<char>, ghost s: string) returns (len: nat)
    requires line[..] == s + [NUL] && NUL !in s
    ensures len == |s|
  {
    len := 0;
    while line[len] != NUL
      invariant 0 <= len <= |s|
      decreases |s| - len
    {
      len := len + 1;
    }
  }

  /** `for (; n < linesize && (line[n] == ' ') == spaces; ++n);` over a buffer
      that still holds the line's own characters from `n` on. */
  method SkipRun(line: array<char>, n0: nat, linesize: nat, spaces: bool, ghost s: string) returns (n: nat)
    requires linesize == |s| < line.Length
    requires forall k :: n0 <= k < |s| ==> line[k] == s[k]
    ensures n == SpanEnd(s, n0, spaces)
  {
    n := n0;
    while n < linesize && (line[n] == ' ') == spaces
      invariant n0 <= n && (n0 <= linesize ==> n <= linesize)
      invariant SpanEnd(s, n, spaces) == SpanEnd(s, n0, spaces)
      decreases linesize - n
    {
      n := n + 1;
    }
  }

  /** The first cuts of `xa_get_cpio_line_content`: measure the line, cut
      the permissions at column 10, keep one character of the link count and
      cut after it, then scan and cut the owner. */
  method CutLinkAndOwner(line: array<char>, ghost s: string) returns (linesize: nat, linkEnd: nat, ownerEnd: nat)
    requires line[..] == s + [NUL] && Parsable(s)
    modifies line
    ensures linesize == |s| && linkEnd == ScanColumns(s).linkEnd && ownerEnd == ScanColumns(s).ownerEnd
    ensures line[..] == (s + [NUL])[10 := NUL][linkEnd + 1 := NUL][ownerEnd := NUL]
  {
    linesize := StrLen(line, s);
    ghost var c := ScanColumns(s);

    // Permissions
    line[10] := NUL;
    ghost var b := (s + [NUL])[10 := NUL];

    // Hard link: the run of spaces, then one character is kept
    var n := SkipRun(line, 11, linesize, true, s);
    assert n == c.linkEnd;
    linkEnd := n;
    n := n + 1;
    line[n] := NUL;
    b := b[n := NUL];
    n := n + 1;

    // Owner
    n := SkipRun(line, n, linesize, false, s);
    assert n == c.ownerEnd;
    line[n] := NUL;
    b := b[n := NUL];
    ownerEnd := n;
    assert line[..] == b;
  }

  /** The cuts that follow the owner: skip the blanks, scan and cut the
      group, then the same for the size. `n0` is just after the owner's cut. */
  method CutGroupAndSize(line: array<char>, linesize: nat, n0: nat, ghost s: string)
    returns (groupStart: nat, groupEnd: nat, sizeStart: nat, sizeEnd: nat)
    requires Parsable(s) && linesize == |s| && line.Length == |s| + 1
    requires n0 == ScanColumns(s).ownerEnd + 1
    requires forall k :: n0 <= k < |s| ==> line[k] == s[k]
    modifies line
    ensures groupStart == ScanColumns(s).groupStart && groupEnd == ScanColumns(s).groupEnd
    ensures sizeStart == ScanColumns(s).sizeStart && sizeEnd == ScanColumns(s).sizeEnd
    ensures line[..] == old(line[..])[groupEnd := NUL][sizeEnd := NUL]
  {
    ghost var c := ScanColumns(s);
    ghost var b := line[..];

    // Group
    var n := SkipRun(line, n0, linesize, true, s);
    assert n == c.groupStart;
    groupStart := n;
    n := SkipRun(line, n, linesize, false, s);
    assert n == c.groupEnd;
    line[n] := NUL;
    b := b[n := NUL];
    groupEnd := n;
    n := n + 1;

    // Size
    n := SkipRun(line, n, linesize, true, s);
    assert n == c.sizeStart;
    sizeStart := n;
    n := SkipRun(line, n, linesize, false, s);
    assert n == c.sizeEnd;
    line[n] := NUL;
    b := b[n := NUL];
    sizeEnd := n;
    assert line[..] == b;
  }

  /** The scans and cuts of `xa_get_cpio_line_content` up to the size:
      measure the line, then cut permissions, link count, owner, group and
      size, returning the line's length and the columns the scans reach. */
  method CutFields(line: array<char>, ghost s: string) returns (linesize: nat, cols: Columns)
    requires line[..] == s + [NUL] && Parsable(s)
    modifies line
    ensures line[..] == SizeCutBuffer(s)
    ensures linesize == |s| && cols == ScanColumns(s)
  {
    var linkEnd, ownerEnd;
    linesize, linkEnd, ownerEnd := CutLinkAndOwner(line, s);
    var groupStart, groupEnd, sizeStart, sizeEnd := CutGroupAndSize(line, linesize, ownerEnd + 1, s);
    cols := Columns(linkEnd, linkEnd + 2, ownerEnd, groupStart, groupEnd, sizeStart, sizeEnd);
  }

  /** The cuts after the size: the date at column 54, the line's last
      character, and the name at the last "->". Returns where the link
      target starts, if there is one. */
  method CutName(line: array<char>, linesize: nat, ghost s: string) returns (target: Option<nat>)
    requires Parsable(s) && linesize == |s| && line[..] == SizeCutBuffer(s)
    modifies line
    ensures line[..] == FinalBuffer(s)
    ensures target == TargetAt(s)
  {
    line[DateEnd] := NUL;
    line[linesize - 1] := NUL;
    assert line[..] == DateCutBuffer(s);
    var n := NameColumn;
    var arrow := LastOccurrence(CStr(line[..], n), "->");
    target := None;
    if arrow.Some? {
      target := Some(n + arrow.value + 3);
      line[n + arrow.value] := NUL;
    }
  }

  /** All the cuts of `xa_get_cpio_line_content`, with the size text as
      `strtoll` reads it between the size cut and the date cut. */
  method CutLine(line: array<char>, ghost s: string)
    returns (linesize: nat, cols: Columns, sizeText: string, target: Option<nat>)
    requires line[..] == s + [NUL] && Parsable(s)
    modifies line
    ensures line[..] == FinalBuffer(s)
    ensures linesize == |s| && cols == ScanColumns(s) && target == TargetAt(s)
    ensures sizeText == CStr(SizeCutBuffer(s), ScanColumns(s).sizeStart)
  {
    linesize, cols := CutFields(line, s);
    sizeText := CStr(line[..], cols.sizeStart);
    target := CutName(line, linesize, s);
  }

  /** Every field of an `RpmArchive` at one moment, so that a contract can
      name the fields a method changes and keep all the others. */
  datatype RpmState = RpmState(
    escapedPath: string, tmp: string, extractionPath: string, workingDirectory: string,
    canExtract: bool, hasProperties: bool, canAdd: bool, hasSfx: bool, hasTest: bool,
    dummySize: int, nrOfFiles: int, nrOfDirs: int, nc: int, format: string,
    childPid: int, parseOutput: Handler, rows: seq<Row>, commands: seq<string>,
    decompressedTo: Option<string>)

  /** The state once `xa_open_rpm` has set the capabilities and counters of
      an opened package (src/rpm.c:44-50) and the column store is new. */
  function Opened(st: RpmState): RpmState
  {
    st.(canExtract := true, hasProperties := true, canAdd := false, hasSfx := false, hasTest := false,
        dummySize := 0, nrOfFiles := 0, nrOfDirs := 0, nc := 8, format := "RPM", rows := [])
  }

  class RpmArchive {
    var escapedPath: string
    var tmp: string
    var extractionPath: string
    var workingDirectory: string
    var canExtract: bool
    var hasProperties: bool
    var canAdd: bool
    var hasSfx: bool
    var hasTest: bool
    var dummySize: int
    var nrOfFiles: int
    var nrOfDirs: int
    var nc: int
    var format: string
    var childPid: int
    var parseOutput: Handler
    /** The rows handed to `xa_set_archive_entries_for_each_row`. */
    var rows: seq<Row>
    /** Every command run or spawned, in order. */
    var commands: seq<string>
    /** The file the decompressor's output is copied to, once a decompressor runs. */
    var decompressedTo: Option<string>

    constructor (escapedPath: string, extractionPath: string)
      ensures this.escapedPath == escapedPath && this.extractionPath == extractionPath
      ensures rows == [] && commands == [] && childPid == 0 && decompressedTo == None
    {
      this.escapedPath := escapedPath;
      this.extractionPath := extractionPath;
      tmp := "";
      workingDirectory := "";
      canExtract, hasProperties, canAdd, hasSfx, hasTest := false, false, false, false, false;
      dummySize, nrOfFiles, nrOfDirs, nc := 0, 0, 0, 0;
      format := "";
      childPid := 0;
      parseOutput := NoHandler;
      rows := [];
      commands := [];
      decompressedTo := None;
    }

    function State(): RpmState
      reads this
    {
      RpmState(escapedPath, tmp, extractionPath, workingDirectory,
               canExtract, hasProperties, canAdd, hasSfx, hasTest,
               dummySize, nrOfFiles, nrOfDirs, nc, format,
               childPid, parseOutput, rows, commands, decompressedTo)
    }

    /** The archive's capabilities and counters as an opened RPM package sets
        them; the column store starts without rows. */
    method Reset()
      modifies this
      ensures canExtract && hasProperties && !canAdd && !hasSfx && !hasTest
      ensures dummySize == 0 && nrOfFiles == 0 && nrOfDirs == 0 && nc == 8 && format == "RPM" && rows == []
      ensures State() == Opened(old(State()))
    {
      SetCapabilities();
      ResetCounters();
    }

    /** What an RPM archive can and cannot do: extract and show properties,
        not add, make a self-extracting archive or test. */
    method SetCapabilities()
      modifies this
      ensures canExtract && hasProperties && !canAdd && !hasSfx && !hasTest
      ensures dummySize == old(dummySize) && nrOfFiles == old(nrOfFiles) && nrOfDirs == old(nrOfDirs)
        && nc == old(nc) && format == old(format) && rows == old(rows)
      ensures escapedPath == old(escapedPath) && extractionPath == old(extractionPath) && tmp == old(tmp)
        && workingDirectory == old(workingDirectory) && commands == old(commands) && childPid == old(childPid)
        && parseOutput == old(parseOutput) && decompressedTo == old(decompressedTo)
    {
      canExtract, hasProperties := true, true;
      canAdd, hasSfx, hasTest := false, false, false;
    }

    /** Zero counters, eight columns, the "RPM" format and no rows. */
    method ResetCounters()
      modifies this
      ensures dummySize == 0 && nrOfFiles == 0 && nrOfDirs == 0 && nc == 8 && format == "RPM" && rows == []
      ensures canExtract == old(canExtract) && hasProperties == old(hasProperties) && canAdd == old(canAdd)
        && hasSfx == old(hasSfx) && hasTest == old(hasTest)
      ensures escapedPath == old(escapedPath) && extractionPath == old(extractionPath) && tmp == old(tmp)
        && workingDirectory == old(workingDirectory) && commands == old(commands) && childPid == old(childPid)
        && parseOutput == old(parseOutput) && decompressedTo == old(decompressedTo)
    {
      dummySize, nrOfFiles, nrOfDirs := 0, 0, 0;
      nc := 8;
      format := "RPM";
      rows := [];
    }

    /** `xa_open_rpm`: `file` is the package's bytes, or `None` when it cannot
        be opened; `stale` what the read buffer holds before the first read;
        `tempDir` the directory made by `xa_create_temp_directory`, if any;
        `ddSucceeds` whether the copy command succeeded; the last three
        parameters are those of `OpenTempFile`. A package that cannot be
        opened leaves the archive as it was; any later failure leaves it
        opened but empty, with the commands run so far. */
    method OpenRpm(file: Option<seq<byte>>, stale: seq<byte>, tempDir: Option<string>, ddSucceeds: bool,
                   canWriteCpio: bool, isGzip: bool, pid: int)
      returns (r: Result<nat, OpenError>)
      requires |stale| == 8
      modifies this
      ensures file.None? ==> r == Err(HeaderFailed(CannotOpen)) && State() == old(State())
      ensures file.Some? ==> (canExtract && hasProperties && !canAdd && !hasSfx && !hasTest
        && dummySize == 0 && nrOfFiles == 0 && nrOfDirs == 0 && nc == 8 && format == "RPM" && rows == [])
      ensures LocatePayload(file, stale).Err? ==> r == Err(HeaderFailed(LocatePayload(file, stale).error))
      ensures file.Some? && LocatePayload(file, stale).Err? ==> State() == Opened(old(State()))
      ensures LocatePayload(file, stale).Ok? && tempDir.None? ==>
        r == Err(NoTempDirectory) && State() == Opened(old(State()))
      ensures LocatePayload(file, stale).Ok? && tempDir.Some? ==>
        var offset := LocatePayload(file, stale).value;
        var dd := DdCommand(old(escapedPath), offset, tempDir.value);
        var copied := Opened(old(State())).(tmp := tempDir.value, commands := old(commands) + [dd]);
        && (!ddSucceeds ==> r == Err(CopyFailed) && State() == copied)
        && (ddSucceeds && !canWriteCpio ==> r == Err(CannotWriteCpio) && State() == copied)
        && (ddSucceeds && canWriteCpio ==>
              && State() == copied.(commands := copied.commands + [DecompressCommand(isGzip, CompressedFile(tempDir.value))],
                                    childPid := pid, parseOutput := NoHandler,
                                    decompressedTo := if pid != 0 then Some(CpioFile(tempDir.value)) else old(decompressedTo))
              && (pid == 0 ==> r == Err(DecompressorNotStarted))
              && (pid != 0 ==> r == Ok(offset)))
    {
      if file.None? {
        return Err(HeaderFailed(CannotOpen));
      }
      Reset();
      ghost var afterReset := State();
      var located := LocatePayload(file, stale);
      if located.Err? {
        return Err(HeaderFailed(located.error));
      }
      var offset := located.value;
      if tempDir.None? {
        return Err(NoTempDirectory);
      }
      tmp := tempDir.value;
      var gzipTmp := CompressedFile(tmp);
      commands := commands + [DdCommand(escapedPath, offset, tmp)];
      assert State() == afterReset.(tmp := tempDir.value, commands := afterReset.commands + [DdCommand(escapedPath, offset, tmp)]);
      if !ddSucceeds {
        return Err(CopyFailed);
      }
      var started := OpenTempFile(gzipTmp, canWriteCpio, isGzip, pid);
      if !canWriteCpio {
        return Err(CannotWriteCpio);
      }
      if !started {
        return Err(DecompressorNotStarted);
      }
      return Ok(offset);
    }

    /** `xa_open_temp_file`: open `<tmp>/file.cpio` for writing (`canWrite`
        says whether that works), spawn the decompressor chosen by the
        detector's answer `isGzip`, and, when the spawn gave a child `pid`,
        copy its output into the cpio file and list that file once it exits. */
    method OpenTempFile(tempPath: string, canWrite: bool, isGzip: bool, pid: int) returns (started: bool)
      modifies this
      ensures started <==> canWrite && pid != 0
      ensures !canWrite ==> State() == old(State())
      ensures canWrite ==> State() == old(State()).(
        commands := old(commands) + [DecompressCommand(isGzip, tempPath)],
        childPid := pid, parseOutput := NoHandler,
        decompressedTo := if started then Some(CpioFile(tmp)) else old(decompressedTo))
    {
      var cpioPath := CpioFile(tmp);
      if !canWrite {
        return false;
      }
      var command := DecompressCommand(isGzip, tempPath);
      parseOutput := NoHandler;
      commands := commands + [command];
      childPid := pid;
      if childPid == 0 {
        return false;
      }
      decompressedTo := Some(cpioPath);
      return true;
    }

    /** `xa_open_cpio`, called when the decompressor exits with wait status
        `exitCode`: `cpioPath` is the file its output went to, `pid` what the
        spawn of the listing returns. */
    method OpenCpio(exitCode: int, cpioPath: string, pid: int)
      modifies this
      ensures !StartsListing(exitCode) ==> State() == old(State()).(childPid := 0)
      ensures StartsListing(exitCode) ==> State() == old(State()).(
        commands := old(commands) + [ListCommand(cpioPath)], parseOutput := CpioListing, childPid := pid)
    {
      childPid := 0;
      if ExitedNormally(exitCode) {
        if ExitStatus(exitCode) != 0 {
          return;
        }
      }
      var command := ListCommand(cpioPath);
      parseOutput := CpioListing;
      commands := commands + [command];
      childPid := pid;
    }

    /** `xa_get_cpio_line_content`: cut one line of `cpio -tv` output in
        place and hand its fields on. The buffer holds the line and its
        terminating NUL. */
    method ParseCpioLine(line: array<char>, ghost s: string)
      requires line[..] == s + [NUL] && Parsable(s)
      modifies this, line
      ensures line[..] == FinalBuffer(s)
      ensures dummySize == old(dummySize) + SizeValue(s) && nrOfFiles == old(nrOfFiles) + FilesAdded(s)
        && rows == old(rows) + [ParsedRow(s)]
      ensures canExtract == old(canExtract) && hasProperties == old(hasProperties) && canAdd == old(canAdd)
        && hasSfx == old(hasSfx) && hasTest == old(hasTest)
      ensures nrOfDirs == old(nrOfDirs) && nc == old(nc) && format == old(format)
      ensures escapedPath == old(escapedPath) && extractionPath == old(extractionPath) && tmp == old(tmp)
        && workingDirectory == old(workingDirectory) && commands == old(commands) && childPid == old(childPid)
        && parseOutput == old(parseOutput) && decompressedTo == old(decompressedTo)
    {
      var linesize, cols, sizeText, target := CutLine(line, s);
      var row := RowFrom(line[..], linesize, cols, target);
      var size := Strtoll(sizeText, true);
      var isFile := line[0] != 'd';
      Record(row, size, isFile);
    }

    /** Add one line's size, file and row to the archive. */
    method Record(row: Row, size: int, isFile: bool)
      modifies this
      ensures State() == old(State()).(
        dummySize := old(dummySize) + size,
        nrOfFiles := old(nrOfFiles) + (if isFile then 1 else 0),
        rows := old(rows) + [row])
    {
      dummySize := dummySize + size;
      if isFile {
        nrOfFiles := nrOfFiles + 1;
      }
      rows := rows + [row];
    }

    /** `xa_rpm_extract`: change to the extraction directory and run
        `cpio -id` on the selected names, escaped by `escape`. */
    method Extract(files: seq<string>, escape: string -> string)
      modifies this
      ensures State() == old(State()).(
        workingDirectory := extractionPath,
        commands := old(commands) + [ExtractCommand(SpacedNames(Reversed(EscapedAll(files, escape))), tmp)])
    {
      var names := PrependEscapedNames(files, escape);
      workingDirectory := extractionPath;
      var command := ExtractCommand(names, tmp);
      commands := commands + [command];
    }
  }
}
