/**
 * What `xa_get_cpio_line_content` (src/rpm.c) makes of one line of
 * `cpio -tv` output, stated on the line's text. The parser cuts the line in
 * place by writing NULs into its buffer; the functions here give the buffer
 * after each group of writes, and the row of fields read out of the final
 * buffer. The class method that does the work step by step is
 * `Rpm.RpmArchive.ParseCpioLine`.
 *
 * GNU cpio prints `-rw-r--r--   1 root     root         1024 Jan  1 12:00 name`:
 * permissions in columns 0-9, the link count right-aligned in 3 columns, owner
 * and group in 8 columns each, the size in 8, the date in columns 42-53 and the
 * name from column 55.
 */
module CpioLine {
  import opened CText

  /** Where the date field is cut off. */
  const DateEnd: nat := 54
  /** Where the file name starts. */
  const NameColumn: nat := 55

  /** Where a C scan `for (; n < linesize && (line[n] == ' ') == spaces; ++n);`
      started at `i` stops. */
  function SpanEnd(s: string, i: nat, spaces: bool): (j: nat)
    ensures i <= j
    ensures i <= |s| ==> j <= |s|
    ensures i >= |s| ==> j == i
    ensures j < |s| ==> (s[j] == ' ') != spaces
    decreases |s| - i
  {
    if i < |s| && (s[i] == ' ') == spaces then SpanEnd(s, i + 1, spaces) else i
  }

  /** Everything a scan passes over is of the kind it skips. */
  lemma {:induction false} SpanEndRun(s: string, i: nat, spaces: bool)
    ensures forall k :: i <= k < SpanEnd(s, i, spaces) ==> (s[k] == ' ') == spaces
    decreases |s| - i
  {
    if i < |s| && (s[i] == ' ') == spaces {
      SpanEndRun(s, i + 1, spaces);
    }
  }

  /** The positions the scans of the parser reach. */
  datatype Columns = Columns(
    linkEnd: nat,     // first non-space after column 11: the link count's first digit
    ownerStart: nat,
    ownerEnd: nat,
    groupStart: nat,
    groupEnd: nat,
    sizeStart: nat,
    sizeEnd: nat)

  function ScanColumns(s: string): (c: Columns)
    ensures 11 <= c.linkEnd && c.ownerStart == c.linkEnd + 2
    ensures c.ownerStart <= c.ownerEnd < c.groupStart <= c.groupEnd < c.sizeStart <= c.sizeEnd
    ensures c.ownerEnd == SpanEnd(s, c.ownerStart, false)
  {
    var linkEnd := SpanEnd(s, 11, true);
    var ownerEnd := SpanEnd(s, linkEnd + 2, false);
    var groupStart := SpanEnd(s, ownerEnd + 1, true);
    var groupEnd := SpanEnd(s, groupStart, false);
    var sizeStart := SpanEnd(s, groupEnd + 1, true);
    Columns(linkEnd, linkEnd + 2, ownerEnd, groupStart, groupEnd, sizeStart, SpanEnd(s, sizeStart, false))
  }

  /** A line the parser reads and writes only inside of: at least 55
      characters, and the size field ends before the line does. A line without
      a NUL, as `strlen` measured it. */
  predicate Parsable(s: string)
  {
    NUL !in s && |s| >= NameColumn && ScanColumns(s).sizeEnd < |s|
  }

  /** The usual case: owner, group and size all end before the date column. */
  predicate FieldsBeforeDate(s: string)
  {
    Parsable(s) && ScanColumns(s).sizeEnd < DateEnd
  }

  /** The buffer when `strtoll` reads the size: NULs at column 10, after the
      link count's first digit, and at the ends of owner, group and size. */
  function SizeCutBuffer(s: string): (b: seq<char>)
    requires Parsable(s)
    ensures |b| == |s| + 1
  {
    var c := ScanColumns(s);
    (s + [NUL])[10 := NUL][c.linkEnd + 1 := NUL][c.ownerEnd := NUL][c.groupEnd := NUL][c.sizeEnd := NUL]
  }

  /** Then the date is cut at column 54 and the last character (the newline) dropped. */
  function DateCutBuffer(s: string): (b: seq<char>)
    requires Parsable(s)
    ensures |b| == |s| + 1
  {
    SizeCutBuffer(s)[DateEnd := NUL][|s| - 1 := NUL]
  }

  /** Where `g_strrstr` finds the last "->" in the file name, if anywhere. */
  function LinkArrow(s: string): (r: Option<nat>)
    requires Parsable(s)
    ensures r.Some? ==> NameColumn + r.value + 3 <= |s|
  {
    var b := DateCutBuffer(s);
    assert NameColumn + |CStr(b, NameColumn)| + 1 <= |s| || CStr(b, NameColumn) == [] by {
      if |s| > NameColumn {
        CStrBefore(b, NameColumn, |s| - 1);
      } else {
        assert b[NameColumn] == NUL;
      }
    }
    LastOccurrence(CStr(b, NameColumn), "->")
  }

  /** The buffer once the name is cut at the arrow. */
  function FinalBuffer(s: string): (b: seq<char>)
    requires Parsable(s)
    ensures |b| == |s| + 1
  {
    match LinkArrow(s)
    case None => DateCutBuffer(s)
    case Some(k) => DateCutBuffer(s)[NameColumn + k := NUL]
  }

  /** The value the parser adds to the running size: `strtoll(size, NULL, 0)`. */
  function SizeValue(s: string): int
    requires Parsable(s)
  {
    Strtoll(CStr(SizeCutBuffer(s), ScanColumns(s).sizeStart), true)
  }

  /** The name before any arrow, as read from the final buffer. */
  function BaseName(s: string): string
    requires Parsable(s)
  {
    CStr(FinalBuffer(s), NameColumn)
  }

  /** `line[0] == 'd'`. */
  predicate IsDirectoryLine(s: string)
    requires Parsable(s)
  {
    FinalBuffer(s)[0] == 'd'
  }

  /** The fields handed on for the row, in the source's `item` order after the name. */
  datatype Row = Row(
    name: string,
    target: Option<string>,   // item[0], "Points to"
    size: string,             // item[1]
    permissions: string,      // item[2]
    date: string,             // item[3]
    hardLink: string,         // item[4]
    owner: string,            // item[5]
    group: string)            // item[6]

  /** The name handed on: a directory's name gets a '/' unless the character
      before the line's last one already is one. */
  function NameFrom(b: seq<char>, len: nat): string
    requires NameColumn <= len < |b|
  {
    if b[0] == 'd' && b[len - 2] != '/' then CStr(b, NameColumn) + "/" else CStr(b, NameColumn)
  }

  /** The row read out of a cut buffer `b` of a line of length `len`, given
      the scanned columns and where the link target starts, if anywhere. */
  function RowFrom(b: seq<char>, len: nat, c: Columns, target: Option<nat>): Row
    requires NameColumn <= len < |b|
    requires c.ownerStart <= c.groupStart <= c.sizeStart <= c.sizeEnd < len
    requires target.Some? ==> target.value <= len
  {
    Row(NameFrom(b, len), match target case None => None case Some(t) => Some(CStr(b, t)),
        CStr(b, c.sizeStart), CStr(b, 0), CStr(b, c.sizeEnd + 1),
        CStr(b, 11), CStr(b, c.ownerStart), CStr(b, c.groupStart))
  }

  /** Where the link target starts: three characters after the last "->". */
  function TargetAt(s: string): (t: Option<nat>)
    requires Parsable(s)
    ensures t.Some? ==> t.value <= |s|
  {
    match LinkArrow(s)
    case None => None
    case Some(k) => Some(NameColumn + k + 3)
  }

  function ParsedRow(s: string): Row
    requires Parsable(s)
  {
    RowFrom(FinalBuffer(s), |s|, ScanColumns(s), TargetAt(s))
  }

  /** What the line adds to `nr_of_files`: one for anything but a directory. */
  function FilesAdded(s: string): nat
    requires Parsable(s)
  {
    if IsDirectoryLine(s) then 0 else 1
  }

  // ---------------------------------------------------------------------------
  // What the fields are, in terms of the line
  // ---------------------------------------------------------------------------

  /** The positions where the parser writes a NUL, and the terminator. */
  predicate IsCut(s: string, k: nat)
    requires Parsable(s)
  {
    var c := ScanColumns(s);
    k == 10 || k == c.linkEnd + 1 || k == c.ownerEnd || k == c.groupEnd || k == c.sizeEnd
    || k == DateEnd || k == |s| - 1 || k == |s|
    || (LinkArrow(s).Some? && k == NameColumn + LinkArrow(s).value)
  }

  /** The final buffer holds a NUL exactly where the parser wrote one and the
      line's own character everywhere else. */
  lemma FinalBufferAt(s: string, k: nat)
    requires Parsable(s) && k <= |s|
    ensures IsCut(s, k) ==> FinalBuffer(s)[k] == NUL
    ensures !IsCut(s, k) ==> FinalBuffer(s)[k] == s[k]
  {
    var c := ScanColumns(s);
    var early := k == 10 || k == c.linkEnd + 1 || k == c.ownerEnd || k == c.groupEnd || k == c.sizeEnd || k == |s|;
    var late := early || k == DateEnd || k == |s| - 1;
    assert SizeCutBuffer(s)[k] == if early then NUL else s[k] by {
      SizeCutAt(s, k);
    }
    assert DateCutBuffer(s)[k] == if late then NUL else s[k];
    match LinkArrow(s)
    case None =>
    case Some(a) =>
      assert FinalBuffer(s) == DateCutBuffer(s)[NameColumn + a := NUL];
  }

  /** The buffer `strtoll` reads, position by position. */
  lemma SizeCutAt(s: string, k: nat)
    requires Parsable(s) && k <= |s|
    ensures var c := ScanColumns(s);
      SizeCutBuffer(s)[k] ==
        if k == 10 || k == c.linkEnd + 1 || k == c.ownerEnd || k == c.groupEnd || k == c.sizeEnd || k == |s|
        then NUL else s[k]
  {
    var c := ScanColumns(s);
    var b0 := s + [NUL];
    assert b0[k] == if k == |s| then NUL else s[k];
    var b2 := b0[10 := NUL][c.linkEnd + 1 := NUL];
    assert b2[k] == if k == 10 || k == c.linkEnd + 1 then NUL else b0[k];
    var b4 := b2[c.ownerEnd := NUL][c.groupEnd := NUL];
    assert b4[k] == if k == c.ownerEnd || k == c.groupEnd then NUL else b2[k];
    assert SizeCutBuffer(s) == b4[c.sizeEnd := NUL];
  }

  lemma FinalBufferRange(s: string, i: nat, j: nat)
    requires Parsable(s) && i <= j <= |s|
    requires forall k :: i <= k < j ==> !IsCut(s, k)
    ensures forall k :: i <= k < j ==> FinalBuffer(s)[k] == s[k]
  {
    forall k | i <= k < j ensures FinalBuffer(s)[k] == s[k] {
      FinalBufferAt(s, k);
    }
  }

  /** A field that runs up to a cut and has no cut inside reads as the line's
      text there. */
  lemma FieldIs(s: string, i: nat, j: nat)
    requires Parsable(s) && i <= j <= |s|
    requires IsCut(s, j)
    requires forall k :: i <= k < j ==> !IsCut(s, k)
    ensures CStr(FinalBuffer(s), i) == s[i..j]
  {
    FinalBufferAt(s, j);
    FinalBufferRange(s, i, j);
    CStrOfCopy(FinalBuffer(s), s, i, j);
  }

  /** Before the date column the only cuts are the five the scans place. */
  lemma NoCutBeforeDate(s: string, i: nat, j: nat)
    requires FieldsBeforeDate(s) && i <= j <= DateEnd
    requires var c := ScanColumns(s);
      && !(i <= 10 < j) && !(i <= c.linkEnd + 1 < j) && !(i <= c.ownerEnd < j)
      && !(i <= c.groupEnd < j) && !(i <= c.sizeEnd < j)
    ensures forall k :: i <= k < j ==> !IsCut(s, k)
  {
  }

  /** A field before the date column reads as the line's text up to its cut. */
  lemma FieldBeforeDate(s: string, i: nat, j: nat)
    requires FieldsBeforeDate(s) && i <= j <= DateEnd && IsCut(s, j)
    requires var c := ScanColumns(s);
      && !(i <= 10 < j) && !(i <= c.linkEnd + 1 < j) && !(i <= c.ownerEnd < j)
      && !(i <= c.groupEnd < j) && !(i <= c.sizeEnd < j)
    ensures CStr(FinalBuffer(s), i) == s[i..j]
  {
    NoCutBeforeDate(s, i, j);
    FieldIs(s, i, j);
  }

  /** Where in the final buffer each field of the row starts. */
  lemma RowColumns(s: string)
    requires Parsable(s)
    ensures var b, c, r := FinalBuffer(s), ScanColumns(s), ParsedRow(s);
      && r.permissions == CStr(b, 0) && r.hardLink == CStr(b, 11)
      && r.owner == CStr(b, c.ownerStart) && r.group == CStr(b, c.groupStart)
      && r.size == CStr(b, c.sizeStart) && r.date == CStr(b, c.sizeEnd + 1)
  {
    var b, c := FinalBuffer(s), ScanColumns(s);
    assert ParsedRow(s) == RowFrom(b, |s|, c, TargetAt(s));
  }

  /** Permissions are exactly the first ten characters. */
  lemma PermissionsField(s: string)
    requires Parsable(s)
    ensures ParsedRow(s).permissions == s[..10]
  {
    FieldIs(s, 0, 10);
  }

  /** The hard-link field is the run of spaces from column 11 and exactly one
      character after it. */
  lemma HardLinkField(s: string)
    requires FieldsBeforeDate(s)
    ensures var c := ScanColumns(s);
      && ParsedRow(s).hardLink == s[11..c.linkEnd + 1]
      && (forall k :: 11 <= k < c.linkEnd ==> s[k] == ' ')
      && s[c.linkEnd] != ' '
  {
    var c := ScanColumns(s);
    FieldBeforeDate(s, 11, c.linkEnd + 1);
    RowColumns(s);
    LinkColumnSpaces(s);
  }

  /** The hard-link count is right-aligned: blanks, then its digits. */
  lemma LinkColumnSpaces(s: string)
    requires FieldsBeforeDate(s)
    ensures var c := ScanColumns(s);
      (forall k :: 11 <= k < c.linkEnd ==> s[k] == ' ') && s[c.linkEnd] != ' '
  {
    SpanEndRun(s, 11, true);
  }

  /** A scan over non-spaces yields a field without spaces. */
  lemma NoSpaceIn(s: string, i: nat)
    requires i <= |s|
    ensures ' ' !in s[i..SpanEnd(s, i, false)]
  {
    SpanEndRun(s, i, false);
    var j := SpanEnd(s, i, false);
    forall k | 0 <= k < j - i ensures s[i..j][k] != ' ' {
      assert s[i..j][k] == s[i + k];
    }
  }

  /** The owner is the maximal run of non-spaces starting two columns after
      the link count's first digit, and a space follows it. */
  lemma OwnerField(s: string)
    requires FieldsBeforeDate(s)
    ensures var c := ScanColumns(s); var r := ParsedRow(s);
      && r.owner == s[c.ownerStart..c.ownerEnd] && ' ' !in r.owner && s[c.ownerEnd] == ' '
  {
    var c := ScanColumns(s);
    FieldBeforeDate(s, c.ownerStart, c.ownerEnd);
    RowColumns(s);
    NoSpaceIn(s, c.ownerStart);
  }

  /** The group is the next run of non-spaces after a run of spaces. */
  lemma GroupField(s: string)
    requires FieldsBeforeDate(s)
    ensures var c := ScanColumns(s); var r := ParsedRow(s);
      && r.group == s[c.groupStart..c.groupEnd] && ' ' !in r.group && s[c.groupEnd] == ' '
  {
    var c := ScanColumns(s);
    FieldBeforeDate(s, c.groupStart, c.groupEnd);
    RowColumns(s);
    NoSpaceIn(s, c.groupStart);
  }

  /** The size shown is the next run of non-spaces after a run of spaces. */
  lemma SizeField(s: string)
    requires FieldsBeforeDate(s)
    ensures var c := ScanColumns(s); var r := ParsedRow(s);
      && r.size == s[c.sizeStart..c.sizeEnd] && ' ' !in r.size && s[c.sizeEnd] == ' '
  {
    var c := ScanColumns(s);
    FieldBeforeDate(s, c.sizeStart, c.sizeEnd);
    RowColumns(s);
    NoSpaceIn(s, c.sizeStart);
  }

  /** Between the fields there are only spaces. */
  lemma Separators(s: string)
    requires Parsable(s)
    ensures var c := ScanColumns(s);
      && (forall k :: c.ownerEnd < k < c.groupStart ==> s[k] == ' ')
      && (forall k :: c.groupEnd < k < c.sizeStart ==> s[k] == ' ')
  {
    var c := ScanColumns(s);
    SpanEndRun(s, c.ownerEnd + 1, true);
    SpanEndRun(s, c.groupEnd + 1, true);
  }

  lemma SizeCutRange(s: string)
    requires Parsable(s)
    ensures var c := ScanColumns(s);
      forall k :: c.sizeStart <= k < c.sizeEnd ==> SizeCutBuffer(s)[k] == s[k]
  {
  }

  /** `strtoll` reads the size field as the line shows it. */
  lemma SizeText(s: string)
    requires Parsable(s)
    ensures var c := ScanColumns(s);
      CStr(SizeCutBuffer(s), c.sizeStart) == s[c.sizeStart..c.sizeEnd]
  {
    var c := ScanColumns(s);
    SizeCutRange(s);
    CStrOfCopy(SizeCutBuffer(s), s, c.sizeStart, c.sizeEnd);
  }

  /** The running size grows by `strtoll(size, NULL, 0)` of the size field,
      whatever the date column: the size is read before the date is cut. */
  lemma SizeValueOfField(s: string)
    requires Parsable(s)
    ensures var c := ScanColumns(s);
      SizeValue(s) == Strtoll(s[c.sizeStart..c.sizeEnd], true)
  {
    SizeText(s);
  }

  /** In the usual layout the size added to the total is the size shown in the row. */
  lemma SizeAgreesWithRow(s: string)
    requires FieldsBeforeDate(s)
    ensures SizeValue(s) == Strtoll(ParsedRow(s).size, true)
  {
    SizeValueOfField(s);
    SizeField(s);
  }

  /** The date runs from after the size field up to column 54. */
  lemma DateField(s: string)
    requires FieldsBeforeDate(s)
    ensures ParsedRow(s).date == s[ScanColumns(s).sizeEnd + 1..DateEnd]
  {
    var c := ScanColumns(s);
    FieldBeforeDate(s, c.sizeEnd + 1, DateEnd);
    RowColumns(s);
  }

  /** Where the name text ends: before the line's last character, but not
      before column 55. */
  function NameEnd(s: string): (e: nat)
    requires |s| >= NameColumn
    ensures NameColumn <= e <= |s| && (e == |s| - 1 || e == |s| == NameColumn)
  {
    if |s| > NameColumn then |s| - 1 else |s|
  }

  /** The name text: from column 55 to the character before the last one. */
  function NameText(s: string): (f: string)
    requires |s| >= NameColumn
    ensures |f| == NameEnd(s) - NameColumn
  {
    s[NameColumn..NameEnd(s)]
  }

  lemma DateCutRange(s: string)
    requires FieldsBeforeDate(s)
    ensures forall k :: NameColumn <= k < NameEnd(s) ==> DateCutBuffer(s)[k] == s[k]
    ensures DateCutBuffer(s)[NameEnd(s)] == NUL
  {
  }

  /** The name field from column 55 loses the line's last character and is
      read before any arrow cut. */
  lemma NameFieldBeforeCut(s: string)
    requires FieldsBeforeDate(s)
    ensures CStr(DateCutBuffer(s), NameColumn) == NameText(s)
    ensures LinkArrow(s) == LastOccurrence(NameText(s), "->")
  {
    DateCutRange(s);
    CStrOfCopy(DateCutBuffer(s), s, NameColumn, NameEnd(s));
  }

  /** Without an arrow the name is the whole name text and there is no target. */
  lemma NameWithoutArrow(s: string)
    requires FieldsBeforeDate(s)
    requires LastOccurrence(NameText(s), "->").None?
    ensures BaseName(s) == NameText(s) && ParsedRow(s).target == None
  {
    NameFieldBeforeCut(s);
    FieldIs(s, NameColumn, NameEnd(s));
  }

  /** With an arrow the name stops at the last "->" and the target starts
      three characters after it ("-> " skipped), or is empty when the line
      ends first. */
  lemma NameWithArrow(s: string)
    requires FieldsBeforeDate(s)
    requires LastOccurrence(NameText(s), "->").Some?
    ensures var f := NameText(s); var k := LastOccurrence(f, "->").value;
      && k + 2 <= |f| && BaseName(s) == f[..k]
      && ParsedRow(s).target == Some(if k + 3 <= |f| then f[k + 3..] else [])
  {
    BaseNameWithArrow(s);
    TargetWithArrow(s);
  }

  lemma BaseNameWithArrow(s: string)
    requires FieldsBeforeDate(s)
    requires LastOccurrence(NameText(s), "->").Some?
    ensures var f := NameText(s); var k := LastOccurrence(f, "->").value;
      k + 2 <= |f| && BaseName(s) == f[..k]
  {
    var f := NameText(s);
    var k := LastOccurrence(f, "->").value;
    assert LinkArrow(s) == Some(k) by {
      NameFieldBeforeCut(s);
    }
    assert OccursAt(f, "->", k);
    NameBeforeArrow(s, k);
    SliceOfSlice(s, NameColumn, NameEnd(s), k);
  }

  lemma NameBeforeArrow(s: string, k: nat)
    requires FieldsBeforeDate(s) && LinkArrow(s) == Some(k)
    ensures BaseName(s) == s[NameColumn..NameColumn + k]
  {
    NoCutInName(s, NameColumn, NameColumn + k);
    FieldIs(s, NameColumn, NameColumn + k);
  }

  lemma TargetWithArrow(s: string)
    requires FieldsBeforeDate(s)
    requires LastOccurrence(NameText(s), "->").Some?
    ensures var f := NameText(s); var k := LastOccurrence(f, "->").value;
      ParsedRow(s).target == Some(if k + 3 <= |f| then f[k + 3..] else [])
  {
    var f := NameText(s);
    var k := LastOccurrence(f, "->").value;
    assert LinkArrow(s) == Some(k) by {
      NameFieldBeforeCut(s);
    }
    ParsedTarget(s);
    TargetField(s);
    if k + 3 <= |f| {
      SliceOfSlice(s, NameColumn, NameEnd(s), k + 3);
    }
  }

  /** The target is read three characters after the arrow's cut. */
  lemma ParsedTarget(s: string)
    requires Parsable(s)
    ensures ParsedRow(s).target ==
      match LinkArrow(s)
      case None => None
      case Some(k) => Some(CStr(FinalBuffer(s), NameColumn + k + 3))
  {
  }

  /** Inside the name text the only cut is the one at the arrow. */
  lemma NoCutInName(s: string, i: nat, j: nat)
    requires FieldsBeforeDate(s) && NameColumn <= i <= j <= NameEnd(s)
    requires LinkArrow(s).Some? ==> NameColumn + LinkArrow(s).value < i || j <= NameColumn + LinkArrow(s).value
    ensures forall k :: i <= k < j ==> !IsCut(s, k)
  {
  }

  /** The target is the rest of the name text three characters after the
      arrow, or empty when the line ends first. */
  lemma TargetField(s: string)
    requires FieldsBeforeDate(s)
    requires LinkArrow(s).Some?
    ensures var k := LinkArrow(s).value;
      CStr(FinalBuffer(s), NameColumn + k + 3) ==
        if NameColumn + k + 3 <= NameEnd(s) then s[NameColumn + k + 3..NameEnd(s)] else []
  {
    var t := NameColumn + LinkArrow(s).value + 3;
    if t <= NameEnd(s) {
      NoCutInName(s, t, NameEnd(s));
      FieldIs(s, t, NameEnd(s));
    } else {
      assert t == |s|;
      FieldIs(s, t, t);
    }
  }

  /** A line is a directory exactly when it starts with 'd'; every line but a
      directory adds one file. */
  lemma DirectoryLine(s: string)
    requires Parsable(s)
    ensures IsDirectoryLine(s) <==> s[0] == 'd'
    ensures FilesAdded(s) == if s[0] == 'd' then 0 else 1
  {
    FinalBufferAt(s, 0);
  }

  /** The character the parser checks before appending '/' is the line's
      own, except on a 56-character line, where it is column 54 and already
      cut; a cut there is never a '/'. */
  lemma SecondLastCharacter(s: string)
    requires FieldsBeforeDate(s)
    ensures (FinalBuffer(s)[|s| - 2] != '/') <==> (|s| == NameColumn + 1 || s[|s| - 2] != '/')
  {
    var c := ScanColumns(s);
    FinalBufferAt(s, |s| - 2);
    if IsCut(s, |s| - 2) && |s| != NameColumn + 1 {
      assert |s| - 2 in {c.ownerEnd, c.groupEnd, c.sizeEnd};
      assert s[|s| - 2] == ' ';
    }
  }

  /** A directory's name gets a '/' appended exactly when the character
      before the last one is not '/' (on a 56-character line that character
      is column 54, already overwritten, so the '/' is always added); other
      names are left alone. */
  lemma DirectoryRule(s: string)
    requires FieldsBeforeDate(s)
    ensures ParsedRow(s).name ==
      if s[0] == 'd' && (|s| == NameColumn + 1 || s[|s| - 2] != '/') then BaseName(s) + "/" else BaseName(s)
  {
    DirectoryLine(s);
    SecondLastCharacter(s);
  }

  /** A directory line with a name and no arrow always yields a name ending in '/'. */
  lemma DirectoryNameEndsWithSlash(s: string)
    requires FieldsBeforeDate(s) && |s| > NameColumn && s[0] == 'd'
    requires LastOccurrence(NameText(s), "->").None?
    ensures var name := ParsedRow(s).name; |name| > 0 && name[|name| - 1] == '/'
  {
    var f := NameText(s);
    var slash := |s| != NameColumn + 1 && s[|s| - 2] == '/';
    assert ParsedRow(s).name == if slash then f else f + "/" by {
      DirectoryRule(s);
      NameWithoutArrow(s);
    }
    assert slash ==> |f| > 0 && f[|f| - 1] == '/' by {
      if slash {
        assert NameEnd(s) == |s| - 1;
        assert f[|f| - 1] == s[|s| - 2];
      }
    }
    SlashAppended(f, ParsedRow(s).name, slash);
  }

  lemma SlashAppended(f: string, name: string, slash: bool)
    requires name == if slash then f else f + "/"
    requires slash ==> |f| > 0 && f[|f| - 1] == '/'
    ensures |name| > 0 && name[|name| - 1] == '/'
  {
  }

  /** With a two-digit link count the hard-link field keeps only the first
      digit, the second is overwritten, and the owner field comes out empty:
      every later field shifts by one. */
  lemma TwoDigitLinkCount(s: string)
    requires Parsable(s)
    requires s[11] == ' ' && s[12] != ' ' && s[13] != ' ' && s[14] == ' '
    ensures ParsedRow(s).hardLink == s[11..13]
    ensures ParsedRow(s).owner == []
  {
    assert SpanEnd(s, 12, true) == 12;
    assert SpanEnd(s, 14, false) == 14;
    FieldIs(s, 11, 13);
    FieldIs(s, 14, 14);
  }
}
