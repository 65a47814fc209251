# Xarchiver's RPM handler and tar backend, in Dafny

This project models two parts of Xarchiver, an archive manager that drives
command-line tools and shows what they print.

The RPM handler (`src/rpm.c`) opens a package in several stages:

- It reads the signature's and the header's two big-endian counts and
  computes where the compressed cpio payload starts.
- It copies the payload out with `dd`.
- It decompresses it with `gzip` or `bzip2`.
- Once the decompressor has exited, it lists the result with `cpio -tv`.
- It cuts each listing line in place into permissions, hard-link count,
  owner, group, size, date, name and link target, and counts the size and
  the files.
- To extract members it runs `cpio -id` on the escaped names.

The tar backend (`libxarchiver/support-tar.c`) does the following:

- It recognises a ustar archive by the magic `ustar` at byte 257.
- It builds the `tar` command lines that open, add to, remove from and
  extract an archive.
- It folds each line of `tar tfv` into file and directory counters and a
  running size.

## Files

- `ctext.dfy` (`CText`) holds the C and GLib pieces the handlers rely on:
  - C strings read out of a buffer;
  - `strtoll` in base 0 and `atoll`, with their white space, sign, base
    prefixes and clamping;
  - `printf("%d")`;
  - `g_strrstr`;
  - counting a character;
  - command lines split into space-separated words, and the plain words
    (no blank, quote, backslash, expansion, globbing or operator character)
    that `/bin/sh` passes on exactly as written.
- `rpm_header.dfy` (`RpmHeader`) holds the payload offset arithmetic.
  Reads at or past the end of the file are modelled, and so are reads that
  stop inside the 8-byte buffer, keeping what the buffer already held. So
  are `int` overflows. A package laid out by the format is built here too,
  as an independent reference for where its payload starts. The `dd`
  command line is here as well.
- `cpio_line.dfy` (`CpioLine`) is the specification of the cpio line parser:
  - where each scan stops;
  - which buffer positions receive a NUL;
  - what each field reads as, stated in terms of the original line.
- `rpm.dfy` (`Rpm`) holds the imperative handler.
  - The class `RpmArchive` has the fields the source updates.
  - `ParseCpioLine` cuts a `char` array in place, through loop-carrying
    helper methods proved against `CpioLine`.
  - The stage decisions of `xa_open_rpm`, `xa_open_temp_file` and
    `xa_open_cpio` are here.
  - `Extract` builds its name list with the prepend loop of
    `xa_rpm_extract`.
- `tar_support.dfy` (`TarSupport`) holds the class `TarArchive` with
  `Verify`, `Open`, `Add`, `Remove`, `Extract` and `ParseTarOutput`. It also
  holds the command lines and the fold of a listing.

What the outside world answers comes in as parameters:

- whether a file opens, and its bytes;
- whether a command succeeded;
- the pid a spawn returned;
- whether a channel watch was set;
- the archive-type detector's verdict;
- the functions `xa_escape_filename` and `concatenatefilenames`, whose
  bodies are not part of this model;
- the row that `split_line`/`get_last_field` make of a tar line.

Each command the code runs or spawns is appended to a `commands` field.

Where the documented behaviour and the code differ, the model follows the
code:

- `xa_get_cpio_line_content` never touches `nr_of_dirs`: a directory line
  adds nothing to any counter.
- `xa_open_cpio` goes on to list the archive when the decompressor was
  killed by a signal. Only a normal exit with a non-zero status stops it.
- The hard-link scan keeps exactly one non-blank character:
  `line[++n] = '\0'` follows the blank run. A two-digit link count therefore
  loses its second digit, and the owner then reads as empty
  (`CpioLine.TwoDigitLinkCount`). Every later field shifts by one: the
  group reads as the owner's name, and the size added to `dummy_size` is
  `strtoll` of the group's name: 0 unless that name starts with digits (a
  group printed as its numeric gid adds the gid).

Each class method's contract gives its whole new state. Most methods compare
a snapshot of all fields (`RpmState`, `TarState`) before and after, with the
changed fields named. `SetCapabilities`, `ResetCounters` and `ParseCpioLine`
list, field by field, the fields that keep their value.

## Model

| member | source | states |
|---|---|---|
| CText.Strtoll | src/rpm.c:195 | the value is always within `long long` |
| CText.StrtollBase0FormatDecimal | src/rpm.c:195 | `strtoll(_, NULL, 0)` of a printed non-negative number gives that number back |
| CText.StrtollBase0Octal | src/rpm.c:195 | in base 0 a leading `0` makes the rest octal: `"0" + d` reads as the base-8 value of `d` |
| CText.StrtollNoDigits | src/rpm.c:195 | text with no digit after white space and sign reads as 0 |
| CText.Atoll | libxarchiver/support-tar.c:238 | `atoll` is within `long long` |
| CText.AtollFormatDecimal | libxarchiver/support-tar.c:238 | `atoll` of a printed number followed by a non-digit gives the number back |
| CText.AtollSaturates | libxarchiver/support-tar.c:238 | a decimal number above LLONG_MAX reads as LLONG_MAX, and its negation as LLONG_MIN |
| CText.CStr | src/rpm.c:163-204 | a `char *` into a buffer denotes the NUL-free slice from that index up to the next NUL or the end |
| CText.FormatDecimal | src/rpm.c:99 | `%u`/`%d` output is one or more decimal digits, with a leading `0` only for zero |
| CText.LastOccurrence | src/rpm.c:207 | `g_strrstr` finds an occurrence, no later one exists, and `None` means none exists |
| CText.CountChar | libxarchiver/support-tar.c:127 | the count of `'/'` is at most the length and is zero exactly when there is no `'/'` |
| RpmHeader.BigEndian32 | src/rpm.c:71-72 | a count read from four bytes is below 2^32 |
| RpmHeader.DecodeEncode32 | src/rpm.c:71-72 | reading the bytes that store `v` gives `v` |
| RpmHeader.EncodeDecode32 | src/rpm.c:71-72 | the four bytes are determined by the count read from them |
| RpmHeader.Padding | src/rpm.c:74 | `(8 - size % 8) % 8` is below 8 and brings the size to a multiple of 8 |
| RpmHeader.PaddingIsLeast | src/rpm.c:74 | no smaller amount reaches a multiple of 8 |
| RpmHeader.HeaderCountsOffset | src/rpm.c:73-74 | the header's counts sit at a multiple of 8, the header starting within 8 bytes after the signature ends |
| RpmHeader.PayloadOffsetMonotone | src/rpm.c:73-90 | larger counts never move the payload earlier |
| RpmHeader.WorkedExample | src/rpm.c:71-90 | counts (2, 100) and (3, 50) put the header's counts at 256 and the payload at 362 |
| RpmHeader.Read8 | src/rpm.c:81 | `fread` of 8 bytes yields data exactly when the position is inside the file; a short read keeps the buffer's old tail |
| RpmHeader.LocatePayload | src/rpm.c:59-90 | `None` file is exactly the open error; a success lies after the signature's counts and within `int` |
| RpmHeader.LocatePayloadOfPackage | src/rpm.c:59-90 | in a package laid out by the format (96-byte lead, signature with big-endian counts, index and data, padding to 8, header the same way, payload), whatever the other bytes hold, the offset found is where the payload starts, whenever that fits an `int` |
| RpmHeader.LocatePayloadFromHeaderBytes | src/rpm.c:65-90 | in a long enough file the offset depends only on the bytes at 104 and at the header's counts |
| RpmHeader.ShortReadReusesBuffer | src/rpm.c:81-88 | a file ending one byte into the header's counts takes the other seven bytes from the signature's counts left in the buffer |
| RpmHeader.OverflowExample | src/rpm.c:73-74 | 2^27 signature entries overflow a C `int` and are reported as `IntOverflow` |
| RpmHeader.DdCommandIsUnwords | src/rpm.c:102 | the `dd` command is its five words joined by single spaces |
| RpmHeader.DdCommandWords | src/rpm.c:98-102 | the shell sees `dd`, `if=`, `ibs=`, `skip=1`, `of=<tmp>/file.gz_bz`, and the block size reads back as the offset |
| CpioLine.SpanEnd | src/rpm.c:167 | a scan stops at or after its start, and within the line when it starts within it |
| CpioLine.SpanEndRun | src/rpm.c:174-192 | every character a scan passes is of the scanned kind, and it stops at the line's end or at the other kind |
| CpioLine.ScanColumns | src/rpm.c:164-192 | the owner starts two past the link count's first character, and owner, group and size follow one another in order |
| CpioLine.FinalBufferAt | src/rpm.c:162-213 | after parsing, the buffer holds NUL exactly at the cuts and the line's own character everywhere else |
| CpioLine.PermissionsField | src/rpm.c:162-163 | the permissions are the first ten characters |
| CpioLine.HardLinkField | src/rpm.c:166-169 | the hard-link field is the blanks and the first non-blank character after column 11 |
| CpioLine.OwnerField | src/rpm.c:173-176 | the owner is the non-blank run after the link field, followed by a blank |
| CpioLine.GroupField | src/rpm.c:179-185 | the group is the next non-blank run, followed by a blank |
| CpioLine.SizeField | src/rpm.c:188-194 | the size text is the next non-blank run, followed by a blank |
| CpioLine.Separators | src/rpm.c:179-190 | only blanks lie between owner and group and between group and size |
| CpioLine.SizeText | src/rpm.c:193-195 | `strtoll` reads exactly the size field's characters |
| CpioLine.SizeValueOfField | src/rpm.c:195 | the amount added to `dummy_size` is `strtoll` of the size field in base 0 |
| CpioLine.SizeAgreesWithRow | src/rpm.c:194-195 | the size handed on in the row is the text that was added to the total |
| CpioLine.DateField | src/rpm.c:198-200 | the date runs from after the size's cut up to column 54 |
| CpioLine.NameWithoutArrow | src/rpm.c:203-216 | with no `->` the name is columns 55 up to the last character, and there is no target |
| CpioLine.NameWithArrow | src/rpm.c:207-214 | with a `->` the name stops at the last occurrence |
| CpioLine.TargetField | src/rpm.c:207-212 | the target is the text three characters after the last `->`, up to the last character |
| CpioLine.DirectoryLine | src/rpm.c:218-233 | a line is a directory exactly when it starts with `d`, and only other lines add one file |
| CpioLine.DirectoryRule | src/rpm.c:218-228 | a directory's name gets a `/` unless the character before the last one is already `/` |
| CpioLine.DirectoryNameEndsWithSlash | src/rpm.c:218-228 | a directory line without an arrow always yields a name ending in `/` |
| CpioLine.TwoDigitLinkCount | src/rpm.c:166-176 | a two-digit link count keeps its first digit only, and the owner reads as empty |
| Rpm.DecompressCommandWords | src/rpm.c:258-261 | the decompressor is `gzip -dc <file>` when the detector says gzip and `bzip2 -dc <file>` otherwise |
| Rpm.ExitStatus | src/rpm.c:130 | `WEXITSTATUS` is below 256 |
| Rpm.ListingAfterExit | src/rpm.c:128-139 | after `exit(st)` the listing starts exactly when `st` is 0 |
| Rpm.ListingAfterSignal | src/rpm.c:128-139 | a decompressor killed by a signal never stops the listing |
| Rpm.SpacedNames | src/rpm.c:332-333 | the name list is empty exactly when there are no names, and otherwise starts with a space |
| Rpm.ReversedAt | src/rpm.c:329-335 | prepending reverses the order: element `k` is the original's `n - 1 - k` |
| Rpm.SpacedNamesWords | src/rpm.c:331-333 | space-prefixed plain names split back into those names |
| Rpm.PrependEscapedNames | src/rpm.c:328-335 | the loop builds the escaped names in reverse order, each preceded by a space |
| Rpm.ExtractCommandSplit | src/rpm.c:340 | the `cpio -id` command's words are `cpio`, `-id`, the names' words, `-F` and the cpio file |
| Rpm.ExtractCommandWords | src/rpm.c:328-340 | with plain names the shell sees `cpio -id`, the escaped names in reverse order, `-F <tmp>/file.cpio` |
| Rpm.StrLen | src/rpm.c:159 | `strlen` of a buffer holding the line and its NUL is the line's length |
| Rpm.SkipRun | src/rpm.c:167 | each scan loop stops where `SpanEnd` says |
| Rpm.CutLinkAndOwner | src/rpm.c:159-175 | after the first three cuts the buffer is the line with NULs at 10, after the link count, and after the owner |
| Rpm.CutGroupAndSize | src/rpm.c:179-193 | the group and size scans stop at the specified columns and cut there only |
| Rpm.CutFields | src/rpm.c:159-193 | after the size cut the buffer is the specified size-cut buffer |
| Rpm.CutName | src/rpm.c:198-214 | the date, last-character and arrow cuts give the final buffer and the target's start |
| Rpm.CutLine | src/rpm.c:159-214 | all the cuts together give the final buffer, the columns and the size text |
| Rpm.RpmArchive.Reset | src/rpm.c:44-50 | an opened package can extract and show properties, cannot add, make SFX or test, and has zero counters and 8 columns; every other field keeps its value |
| Rpm.RpmArchive.SetCapabilities | src/rpm.c:44-45 | the capability flags as set, every other field unchanged |
| Rpm.RpmArchive.ResetCounters | src/rpm.c:46-50 | size and counters zero, 8 columns, format `RPM`, a new column store without rows, every other field unchanged |
| Rpm.RpmArchive.OpenRpm | src/rpm.c:23-115 | a package that cannot be opened changes nothing; a later failure leaves the archive opened and empty with the commands run so far; on success `dd` with the located offset and the decompressor are run in order; the whole new state is given on every path |
| Rpm.RpmArchive.OpenTempFile | src/rpm.c:239-278 | nothing changes when the cpio file cannot be written; otherwise the chosen decompressor is spawned, and the copy happens only when it started; no other field changes |
| Rpm.RpmArchive.OpenCpio | src/rpm.c:117-148 | the child pid is cleared; the listing starts with the cpio handler exactly when `StartsListing` holds; no other field changes |
| Rpm.RpmArchive.ParseCpioLine | src/rpm.c:150-237 | the buffer ends as the final buffer, the size grows by the size value, files by one unless a directory, the row is handed on, and no other field changes |
| Rpm.RpmArchive.Record | src/rpm.c:195-235 | size, file count and rows grow by what one line contributes, no other field changes |
| Rpm.RpmArchive.Extract | src/rpm.c:322-345 | the working directory becomes the extraction path and the `cpio -id` command with the reversed escaped names is run; no other field changes |
| TarSupport.ReadMagic | libxarchiver/support-tar.c:163-167 | `fread` of 5 bytes at 257 yields data exactly when the file extends past 257, and the file's bytes when all five are there |
| TarSupport.MagicMatchesFullRead | libxarchiver/support-tar.c:163-175 | a file holding all five bytes is recognised exactly when they are `ustar` |
| TarSupport.ShortFileNotTar | libxarchiver/support-tar.c:163-167 | a file ending at or before byte 257 is never recognised |
| TarSupport.ShortReadUsesBuffer | libxarchiver/support-tar.c:167-169 | a one-byte read passes the test, so stale buffer bytes can make a non-ustar file look like tar |
| TarSupport.TarArchive.Verify | libxarchiver/support-tar.c:152-183 | only a path with unknown type is read; a match sets TAR and clears the password, and nothing else changes in any case; the answer is whether the type is TAR |
| TarSupport.FromPath | libxarchiver/support-tar.c:198 | `g_strconcat` stops at a NULL path, and otherwise starts its tail with the path |
| TarSupport.NullPathTruncates | libxarchiver/support-tar.c:132 | with a NULL path each command is just its options |
| TarSupport.OpenCommandWords | libxarchiver/support-tar.c:198 | open runs `tar tfv <path>` |
| TarSupport.AddCommandWords | libxarchiver/support-tar.c:78-81 | add runs `tar rvvf` on an existing archive and `tar cvvf` otherwise, then the path and the names |
| TarSupport.RemoveCommandWords | libxarchiver/support-tar.c:48 | remove runs `tar --delete -vf <path>` followed directly by the names |
| TarSupport.StripLevels | libxarchiver/support-tar.c:127 | the level fits an `unsigned short` and is the count of `/` whenever that fits |
| TarSupport.StripOptionWord | libxarchiver/support-tar.c:128-130 | the strip option is one word whose number reads back as the level |
| TarSupport.ExtractCommandWords | libxarchiver/support-tar.c:132 | extract runs `tar`, the strip option unless full paths are kept, `-xvf <path> -C <dest>`, then the names |
| TarSupport.TarArchive.Open | libxarchiver/support-tar.c:191-214 | the row is emptied, `tar tfv` is spawned, the answer is whether both watches were set, and the size restarts only then; no other field changes |
| TarSupport.TarArchive.Add | libxarchiver/support-tar.c:63-96 | without files nothing changes and TRUE; otherwise the add command, status ADD, and FALSE exactly when no child started; no other field changes |
| TarSupport.TarArchive.Remove | libxarchiver/support-tar.c:38-57 | with files the remove command and status REMOVE, without them no change; always TRUE; no other field changes |
| TarSupport.TarArchive.Extract | libxarchiver/support-tar.c:102-150 | FALSE and no change without the archive; otherwise the extract command, and TRUE exactly when the child started and both watches were set; no other field changes |
| TarSupport.Step | libxarchiver/support-tar.c:233-238 | a line adds exactly one file or directory (a directory when field 1 contains `d`) and `atoll` of field 2 to the size |
| TarSupport.FoldTotals | libxarchiver/support-tar.c:227-239 | after a listing, files plus directories is the number of lines, directories are the rows with `d`, size is the sum of the size fields |
| TarSupport.TarArchive.ParseTarOutput | libxarchiver/support-tar.c:222-248 | on IN/PRI the totals take one `Step`, the row is the line's fields and the line is kept unless reloading, no other field changing; otherwise nothing changes, and the answer is FALSE on ERR/HUP/NVAL alone |
| TarSupport.KeepsLineAsWrittenDiffers | libxarchiver/support-tar.c:230 | unless RELOAD is code 0, a status other than RELOAD fails the test as written |
| TarSupport.AsWrittenAgreesOnlyWhenReloadIsZero | libxarchiver/support-tar.c:230 | the test as written agrees with `status != RELOAD` for all statuses exactly when RELOAD is code 0 |
| TarSupport.KeepsLineByCode | libxarchiver/support-tar.c:230 | for any distinct enumerator codes, the test the model uses is `!(status == RELOAD)` |

## Findings

| source | as written | input that shows it | evidently intended | confidence | as-written member | corrected member |
|---|---|---|---|---|---|---|
| libxarchiver/support-tar.c:230 | `! archive->status == RELOAD` parses as `(!status) == RELOAD` | RELOAD = 1 and a status with code 2: the line is dropped although no reload is going on (with RELOAD not 0 or 1, `!status` never equals RELOAD and every line is dropped) | keep the line unless the status is RELOAD | not executed; the enumerators' values are not part of this model | TarSupport.KeepsLineAsWrittenDiffers | TarSupport.KeepsLineByCode |

## Left out

- The GTK dialogs, the list store and its column setup (`src/rpm.c:52-58`), and the column table of `xarchive_tar_support_new` are user-interface work.
- The GLib main loop, channel set-up and the byte pump `xa_extract_to_different_location` (`src/rpm.c:280-320`) are left out. The model records only where the decompressor's output goes (`decompressedTo`).
- `xa_create_liststore` (`src/rpm.c:58`) is not modelled; `ResetCounters` stands for it by emptying `rows`, as a new list store holds no rows.
- `xa_open_temp_file` and `xa_open_cpio` update `archive[idx]`, the archive of the current notebook page (`src/rpm.c:123-127`, `src/rpm.c:245-246`). The model takes that to be the archive being opened, the `RpmArchive` the methods are called on; the notebook and its pages are not modelled.
- `chdir`/`fchdir(n_cwd)` and `signal(SIGPIPE, SIG_IGN)` are process-wide effects. Only `xa_rpm_extract`'s change of directory is kept, as `workingDirectory`.
- The processes themselves (`dd`, `gzip`, `bzip2`, `cpio`, `tar`) are not run. Their outcome, the spawned pid and the archive-type detector's answer are parameters.
- `xa_escape_filename`, `concatenatefilenames`, `split_line`, `get_last_field`, `xa_set_archive_entries_for_each_row`, `xa_create_temp_directory` and `g_file_test` have bodies that are not part of this model. Their results are parameters, or the row handed on.
- The command-line lemmas describe what the shell sees for plain words only. A name that `xa_escape_filename` changes (by backslash-escaping a special character) is not characterised, as the shell's removal of the escapes is not modelled.
- `countcharacters` is taken to count the occurrences of the character, like `CText.CountChar`.
- The second `fclose(stream)` at `src/rpm.c:109` closes a stream already closed at line 91. A closed stream has no state in the model.
- `fseek` is taken to succeed. Seeking past the end is allowed in C, and the following `fread` then reports the short file.
- Rpm.RpmArchive.ParseCpioLine requires a line the parser stays inside: at least 55 characters, with the size field ending before the line does. A shorter line, or one whose size field runs to the end, makes the source read or write out of bounds.
- TarSupport.TarArchive.Extract requires files when the archive exists. Without them the source dereferences a NULL list in its "single file" branch (lines 114-121).
- TarSupport.TarArchive.Extract requires a strip level below 10. `char digit[2]` cannot hold a longer number.
- TarSupport.TarArchive.ParseTarOutput requires a row with at least three fields on IN/PRI, as the source reads fields 1 and 2 unchecked. The dangling `archive->row` left by `g_list_free` in `xarchive_tar_support_open` is modelled as an empty row.
- Rpm.RpmArchive.ParseCpioLine and TarSupport.TarArchive.ParseTarOutput keep `dummy_size` and the counters as unbounded integers. The wrap-around of the C types at 2^63 or 2^31 is not modelled.
- RpmHeader.LocatePayload reports an `int` overflow in the offset arithmetic as `IntOverflow` instead of reproducing undefined behaviour.
