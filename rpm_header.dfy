/**
 * Where the compressed cpio payload of an RPM package starts, as `xa_open_rpm`
 * computes it (src/rpm.c).
 *
 * An RPM file is a 96-byte lead, then the signature, then the main header, then
 * the payload. The signature and the header have the same layout: 8 intro bytes
 * (magic, version, reserved), two 4-byte big-endian counts -- the number of
 * index entries `il` and the length of the data store `dl` -- then `il` index
 * entries of 16 bytes and `dl` bytes of data. The signature is padded to a
 * multiple of 8 bytes; the header is not.
 */
module RpmHeader {
  import opened CText

  const LeadSize: nat := 96
  /** Magic, version and reserved bytes that open the signature and the header. */
  const IntroSize: nat := 8
  /** Where the signature's two counts are read. */
  const SignatureCountsAt: nat := LeadSize + IntroSize
  const IndexEntrySize: nat := 16
  /** The largest value of a C `int`. */
  const IntMax: int := 0x7FFF_FFFF

  /** A count read as in `256 * (256 * (256 * b0 + b1) + b2) + b3`. */
  function BigEndian32(b: seq<byte>): (v: nat)
    requires |b| == 4
    ensures v < 0x1_0000_0000
  {
    256 * (256 * (256 * b[0] as int + b[1] as int) + b[2] as int) + b[3] as int
  }

  /** The four bytes that store `v` most significant first. */
  function Encode32(v: nat): (b: seq<byte>)
    requires v < 0x1_0000_0000
    ensures |b| == 4
  {
    [(v / 0x100_0000) as byte, (v / 0x1_0000 % 256) as byte, (v / 0x100 % 256) as byte, (v % 256) as byte]
  }

  lemma DecodeEncode32(v: nat)
    requires v < 0x1_0000_0000
    ensures BigEndian32(Encode32(v)) == v
  {
    var b := Encode32(v);
    assert 256 * b[0] as int + b[1] as int == v / 0x1_0000;
    assert 256 * (256 * b[0] as int + b[1] as int) + b[2] as int == v / 0x100;
  }

  lemma EncodeDecode32(b: seq<byte>)
    requires |b| == 4
    ensures Encode32(BigEndian32(b)) == b
  {
    var v := BigEndian32(b);
    var x0, x1, x2, x3 := b[0] as int, b[1] as int, b[2] as int, b[3] as int;
    QuotientOfSum(x0, x1 * 0x1_0000 + x2 * 0x100 + x3, 0x100_0000);
    QuotientOfSum(x0 * 0x100 + x1, x2 * 0x100 + x3, 0x1_0000);
    QuotientOfSum(x0, x1, 0x100);
    QuotientOfSum(x0 * 0x1_0000 + x1 * 0x100 + x2, x3, 0x100);
    QuotientOfSum(x0 * 0x100 + x1, x2, 0x100);
    var e := Encode32(v);
    assert e[0] == b[0] && e[1] == b[1] && e[2] == b[2] && e[3] == b[3];
  }

  /** Division by `m` recovers the quotient and remainder it was built from. */
  lemma QuotientOfSum(q: int, r: int, m: int)
    requires m == 0x100 || m == 0x1_0000 || m == 0x100_0000
    requires 0 <= r < m
    ensures (q * m + r) / m == q && (q * m + r) % m == r
  {
    if m == 0x100 {
      assert q * m + r == q * 0x100 + r;
    } else if m == 0x1_0000 {
      assert q * m + r == q * 0x1_0000 + r;
    } else {
      assert q * m + r == q * 0x100_0000 + r;
    }
  }

  /** The two counts of a signature or header. */
  datatype Counts = Counts(indexCount: nat, dataLength: nat)

  /** The counts held by the 8 bytes read, `il` from bytes 0-3 and `dl` from bytes 4-7. */
  function ReadCounts(b: seq<byte>): (c: Counts)
    requires |b| == 8
    ensures c.indexCount < 0x1_0000_0000 && c.dataLength < 0x1_0000_0000
    ensures Encode32(c.indexCount) + Encode32(c.dataLength) == b
  {
    EncodeDecode32(b[..4]);
    EncodeDecode32(b[4..]);
    assert b == b[..4] + b[4..];
    Counts(BigEndian32(b[..4]), BigEndian32(b[4..]))
  }

  /** Bytes from the counts to the end of the data store: `sigsize = 8 + 16 * il + dl`. */
  function StructureSize(c: Counts): nat
  {
    8 + IndexEntrySize * c.indexCount + c.dataLength
  }

  /** `(8 - n % 8) % 8`: what brings `n` up to a multiple of 8. */
  function Padding(n: nat): (p: nat)
    ensures p < 8 && (n + p) % 8 == 0
  {
    (8 - n % 8) % 8
  }

  /** No smaller amount brings `n` to a multiple of 8. */
  lemma PaddingIsLeast(n: nat, q: nat)
    requires (n + q) % 8 == 0
    ensures Padding(n) <= q
    ensures q < 8 ==> Padding(n) == q
  {
  }

  /** `offset = 104 + sigsize + (8 - sigsize % 8) % 8 + 8`: where the main
      header's counts are read. The header starts at the first multiple of 8
      at or after the end of the signature, 8 intro bytes before that offset. */
  function HeaderCountsOffset(sig: Counts): (off: nat)
    ensures off % 8 == 0 && off >= 120
    ensures var sigEnd := SignatureCountsAt + StructureSize(sig);
      sigEnd <= off - IntroSize < sigEnd + 8
  {
    var size := StructureSize(sig);
    SignatureCountsAt + size + Padding(size) + IntroSize
  }

  /** `offset = offset + sigsize`: the payload starts right after the main
      header's data store, with no second padding. */
  function PayloadOffset(sig: Counts, hdr: Counts): nat
  {
    HeaderCountsOffset(sig) + StructureSize(hdr)
  }

  /** The offset grows with each count of either structure. */
  lemma PayloadOffsetMonotone(sig: Counts, hdr: Counts, sig': Counts, hdr': Counts)
    requires sig.indexCount <= sig'.indexCount && sig.dataLength <= sig'.dataLength
    requires hdr.indexCount <= hdr'.indexCount && hdr.dataLength <= hdr'.dataLength
    ensures PayloadOffset(sig, hdr) <= PayloadOffset(sig', hdr')
  {
    StructureSizeMonotone(sig, sig');
    StructureSizeMonotone(hdr, hdr');
    RoundUpMonotone(StructureSize(sig), StructureSize(sig'));
  }

  lemma StructureSizeMonotone(c: Counts, c': Counts)
    requires c.indexCount <= c'.indexCount && c.dataLength <= c'.dataLength
    ensures StructureSize(c) <= StructureSize(c')
  {
    assert IndexEntrySize * c.indexCount <= IndexEntrySize * c'.indexCount;
  }

  /** Rounding up to a multiple of 8 keeps the order. */
  lemma RoundUpMonotone(a: nat, b: nat)
    requires a <= b
    ensures a + Padding(a) <= b + Padding(b)
  {
    var y := b + Padding(b);
    PaddingIsLeast(a, y - a);
  }

  /** The end-to-end case: counts (2, 100) then (3, 50) put the header's counts
      at byte 256 and the payload at byte 362. */
  lemma WorkedExample()
    ensures HeaderCountsOffset(Counts(2, 100)) == 256
    ensures PayloadOffset(Counts(2, 100), Counts(3, 50)) == 362
  {
  }

  // ---------------------------------------------------------------------------
  // A package laid out by the format
  // ---------------------------------------------------------------------------

  /** A signature or header as the format lays it out: 8 intro bytes, the
      counts `il` and `dl` stored big-endian, `il` index entries of 16 bytes
      and `dl` bytes of data store. */
  function Structure(intro: seq<byte>, c: Counts, index: seq<byte>, store: seq<byte>): seq<byte>
    requires |intro| == IntroSize && c.indexCount < 0x1_0000_0000 && c.dataLength < 0x1_0000_0000
    requires |index| == IndexEntrySize * c.indexCount && |store| == c.dataLength
  {
    intro + (Encode32(c.indexCount) + Encode32(c.dataLength)) + (index + store)
  }

  /** A whole package: the lead, the signature padded to a multiple of 8, the
      header and the compressed payload. */
  function Package(lead: seq<byte>, sigIntro: seq<byte>, sig: Counts, sigIndex: seq<byte>, sigStore: seq<byte>,
                   pad: seq<byte>, hdrIntro: seq<byte>, hdr: Counts, hdrIndex: seq<byte>, hdrStore: seq<byte>,
                   payload: seq<byte>): seq<byte>
    requires |lead| == LeadSize
    requires |sigIntro| == IntroSize && sig.indexCount < 0x1_0000_0000 && sig.dataLength < 0x1_0000_0000
    requires |sigIndex| == IndexEntrySize * sig.indexCount && |sigStore| == sig.dataLength
    requires |pad| == Padding(StructureSize(sig))
    requires |hdrIntro| == IntroSize && hdr.indexCount < 0x1_0000_0000 && hdr.dataLength < 0x1_0000_0000
    requires |hdrIndex| == IndexEntrySize * hdr.indexCount && |hdrStore| == hdr.dataLength
  {
    lead + Structure(sigIntro, sig, sigIndex, sigStore) + pad
      + Structure(hdrIntro, hdr, hdrIndex, hdrStore) + payload
  }

  /** Counts stored big-endian read back as themselves. */
  lemma ReadEncodedCounts(c: Counts)
    requires c.indexCount < 0x1_0000_0000 && c.dataLength < 0x1_0000_0000
    ensures ReadCounts(Encode32(c.indexCount) + Encode32(c.dataLength)) == c
  {
    var b := Encode32(c.indexCount) + Encode32(c.dataLength);
    assert b[..4] == Encode32(c.indexCount) && b[4..] == Encode32(c.dataLength);
    DecodeEncode32(c.indexCount);
    DecodeEncode32(c.dataLength);
  }

  /** The slice of `x + y + z` after `x` and as long as `y` is `y`. */
  lemma MiddleSlice(x: seq<byte>, y: seq<byte>, z: seq<byte>)
    ensures (x + y + z)[|x|..|x| + |y|] == y
  {
    assert (x + y + z)[|x|..|x| + |y|] == (x + y)[|x|..];
  }

  /** A structure is 8 intro bytes plus its `StructureSize`, and its counts
      follow the intro. */
  lemma StructureLayout(intro: seq<byte>, c: Counts, index: seq<byte>, store: seq<byte>, before: seq<byte>, after: seq<byte>)
    requires |intro| == IntroSize && c.indexCount < 0x1_0000_0000 && c.dataLength < 0x1_0000_0000
    requires |index| == IndexEntrySize * c.indexCount && |store| == c.dataLength
    ensures |Structure(intro, c, index, store)| == IntroSize + StructureSize(c)
    ensures var at := |before| + IntroSize;
      (before + Structure(intro, c, index, store) + after)[at..at + 8]
        == Encode32(c.indexCount) + Encode32(c.dataLength)
  {
    var counts := Encode32(c.indexCount) + Encode32(c.dataLength);
    assert before + Structure(intro, c, index, store) + after
        == (before + intro) + counts + ((index + store) + after);
    MiddleSlice(before + intro, counts, (index + store) + after);
  }

  /** Whatever the lead, intro, index, data and payload bytes hold, the two
      reads of `xa_open_rpm` combine into the position where a well-formed
      package's payload starts, whenever that position fits a C `int`. */
  lemma LocatePayloadOfPackage(lead: seq<byte>, sigIntro: seq<byte>, sig: Counts, sigIndex: seq<byte>,
                               sigStore: seq<byte>, pad: seq<byte>, hdrIntro: seq<byte>, hdr: Counts,
                               hdrIndex: seq<byte>, hdrStore: seq<byte>, payload: seq<byte>, stale: seq<byte>)
    requires |lead| == LeadSize
    requires |sigIntro| == IntroSize && sig.indexCount < 0x1_0000_0000 && sig.dataLength < 0x1_0000_0000
    requires |sigIndex| == IndexEntrySize * sig.indexCount && |sigStore| == sig.dataLength
    requires |pad| == Padding(StructureSize(sig))
    requires |hdrIntro| == IntroSize && hdr.indexCount < 0x1_0000_0000 && hdr.dataLength < 0x1_0000_0000
    requires |hdrIndex| == IndexEntrySize * hdr.indexCount && |hdrStore| == hdr.dataLength
    requires |stale| == 8
    requires var pkg := Package(lead, sigIntro, sig, sigIndex, sigStore, pad, hdrIntro, hdr, hdrIndex, hdrStore, payload);
      |pkg| - |payload| <= IntMax
    ensures var pkg := Package(lead, sigIntro, sig, sigIndex, sigStore, pad, hdrIntro, hdr, hdrIndex, hdrStore, payload);
      LocatePayload(Some(pkg), stale) == Ok(|pkg| - |payload|)
  {
    var sigPart := Structure(sigIntro, sig, sigIndex, sigStore);
    var hdrPart := Structure(hdrIntro, hdr, hdrIndex, hdrStore);
    var pkg := Package(lead, sigIntro, sig, sigIndex, sigStore, pad, hdrIntro, hdr, hdrIndex, hdrStore, payload);
    StructureLayout(sigIntro, sig, sigIndex, sigStore, lead, pad + hdrPart + payload);
    assert pkg == lead + sigPart + (pad + hdrPart + payload);
    ReadEncodedCounts(sig);
    assert ReadCounts(pkg[104..112]) == sig;
    var at := HeaderCountsOffset(sig);
    var before := lead + sigPart + pad;
    assert |before| + IntroSize == at;
    StructureLayout(hdrIntro, hdr, hdrIndex, hdrStore, before, payload);
    assert pkg == before + hdrPart + payload;
    ReadEncodedCounts(hdr);
    assert ReadCounts(pkg[at..at + 8]) == hdr;
    assert |pkg| - |payload| == PayloadOffset(sig, hdr);
    LocatePayloadFromHeaderBytes(pkg, stale);
  }

  // ---------------------------------------------------------------------------
  // Reading the file
  // ---------------------------------------------------------------------------

  datatype HeaderError =
    | CannotOpen      // fopen failed
    | CannotRead      // fread read nothing: the position is at or past the end
    | IntOverflow     // the C `int` arithmetic would overflow

  /** `fread(bytes, 1, 8, stream)` at `pos`: nothing when no byte is left,
      otherwise the bytes read followed by what the buffer `buf` already held
      beyond them. */
  function Read8(file: seq<byte>, pos: nat, buf: seq<byte>): (r: Option<seq<byte>>)
    requires |buf| == 8
    ensures r.Some? <==> pos < |file|
    ensures r.Some? ==> |r.value| == 8
    ensures r.Some? && pos + 8 <= |file| ==> r.value == file[pos..pos + 8]
    ensures r.Some? && pos + 8 > |file| ==> r.value == file[pos..] + buf[|file| - pos..]
  {
    if pos >= |file| then None
    else
      var got := if |file| - pos < 8 then |file| - pos else 8;
      Some(file[pos..pos + got] + buf[got..])
  }

  /** Lines 59-90 of `xa_open_rpm`: read the signature's counts at byte 104,
      then the header's counts at the offset they give, and return where the
      payload starts. `stale` is what the uninitialised `bytes` buffer holds
      before the first read. Where the source's `int` arithmetic would overflow
      (undefined behaviour in C) the result is `IntOverflow`: every
      intermediate value is a partial sum of the offset being computed, so
      checking the offsets is enough. */
  function LocatePayload(file: Option<seq<byte>>, stale: seq<byte>): (r: Result<nat, HeaderError>)
    requires |stale| == 8
    ensures r == Err(CannotOpen) <==> file.None?
    ensures r.Ok? ==> SignatureCountsAt < |file.value| && 128 <= r.value <= IntMax
  {
    if file.None? then Err(CannotOpen)
    else
      match Read8(file.value, SignatureCountsAt, stale)
      case None => Err(CannotRead)
      case Some(first) =>
        var sig := ReadCounts(first);
        var headerAt := HeaderCountsOffset(sig);
        if headerAt > IntMax then Err(IntOverflow)
        else
          match Read8(file.value, headerAt, first)
          case None => Err(CannotRead)
          case Some(second) =>
            var payloadAt := PayloadOffset(sig, ReadCounts(second));
            if payloadAt > IntMax then Err(IntOverflow) else Ok(payloadAt)
  }

  /** In a file long enough for both reads, the offset depends only on the 8
      bytes at 104 and the 8 bytes at the header's counts, and not on what the
      buffer held before. */
  lemma LocatePayloadFromHeaderBytes(file: seq<byte>, stale: seq<byte>)
    requires |stale| == 8 && |file| >= SignatureCountsAt + 8
    requires HeaderCountsOffset(ReadCounts(file[104..112])) + 8 <= |file|
    ensures var sig := ReadCounts(file[104..112]);
      var at := HeaderCountsOffset(sig);
      var hdr := ReadCounts(file[at..at + 8]);
      LocatePayload(Some(file), stale) ==
        if PayloadOffset(sig, hdr) > IntMax then Err(IntOverflow) else Ok(PayloadOffset(sig, hdr))
  {
    var first := file[104..112];
    assert Read8(file, SignatureCountsAt, stale) == Some(first);
    var at := HeaderCountsOffset(ReadCounts(first));
    assert Read8(file, at, first) == Some(file[at..at + 8]);
  }

  /** Bytes that cannot all be read come from the previous contents of the
      buffer: a file that ends inside the header's counts gets its offset from
      the signature's counts left in the buffer. */
  lemma ShortReadReusesBuffer(file: seq<byte>, stale: seq<byte>)
    requires |stale| == 8 && |file| >= SignatureCountsAt + 8
    requires HeaderCountsOffset(ReadCounts(file[104..112])) + 1 == |file|
    requires HeaderCountsOffset(ReadCounts(file[104..112])) <= IntMax
    ensures var sig := ReadCounts(file[104..112]);
      var at := HeaderCountsOffset(sig);
      var hdr := ReadCounts(file[at..] + file[105..112]);
      LocatePayload(Some(file), stale) ==
        if PayloadOffset(sig, hdr) > IntMax then Err(IntOverflow) else Ok(PayloadOffset(sig, hdr))
  {
    var first := file[104..112];
    assert first[1..] == file[105..112];
  }

  /** A signature with 2^27 index entries already overflows a C `int`
      (16 * 2^27 = 2^31), so the source's arithmetic cannot be trusted there. */
  lemma OverflowExample(file: seq<byte>, stale: seq<byte>)
    requires |stale| == 8 && |file| >= SignatureCountsAt + 8
    requires file[104..112] == [8, 0, 0, 0, 0, 0, 0, 0]
    ensures LocatePayload(Some(file), stale) == Err(IntOverflow)
  {
    var first := file[104..112];
    assert first[..4] == [8, 0, 0, 0] && first[4..] == [0, 0, 0, 0];
    assert ReadCounts(first) == Counts(0x800_0000, 0);
  }

  /** The file `dd` writes the still-compressed payload to. */
  function CompressedFile(tmp: string): string
  {
    tmp + "/file.gz_bz"
  }

  /** The `dd` command that copies the payload out: `ibs=<offset> skip=1`
      skips exactly the first `offset` bytes. */
  function DdCommand(escapedPath: string, offset: nat, tmp: string): string
  {
    "dd if=" + escapedPath + " ibs=" + FormatDecimal(offset) + " skip=1 of=" + CompressedFile(tmp)
  }

  lemma DdCommandIsUnwords(escapedPath: string, offset: nat, tmp: string)
    ensures DdCommand(escapedPath, offset, tmp) ==
      Unwords(["dd", "if=" + escapedPath, "ibs=" + FormatDecimal(offset), "skip=1", "of=" + CompressedFile(tmp)])
  {
    var ws := ["dd", "if=" + escapedPath, "ibs=" + FormatDecimal(offset), "skip=1", "of=" + CompressedFile(tmp)];
    var tail := ws[1] + " " + (ws[2] + " " + (ws[3] + " " + ws[4]));
    assert Unwords(ws[1..]) == tail by {
      assert Unwords(ws[4..]) == ws[4];
      assert Unwords(ws[3..]) == ws[3] + " " + ws[4];
      assert Unwords(ws[2..]) == ws[2] + " " + (ws[3] + " " + ws[4]);
    }
    assert Unwords(ws) == "dd" + " " + tail;
    assert DdCommand(escapedPath, offset, tmp) == "dd" + " " + tail;
  }

  /** The shell sees five words, and the block size reads back as the offset. */
  lemma DdCommandWords(escapedPath: string, offset: nat, tmp: string)
    requires IsWord(escapedPath) && IsWord(tmp) && offset <= IntMax
    ensures Words(DdCommand(escapedPath, offset, tmp)) ==
      ["dd", "if=" + escapedPath, "ibs=" + FormatDecimal(offset), "skip=1", "of=" + CompressedFile(tmp)]
    ensures Atoll(Words(DdCommand(escapedPath, offset, tmp))[2][4..]) == offset
  {
    var d := FormatDecimal(offset);
    var ws := ["dd", "if=" + escapedPath, "ibs=" + d, "skip=1", "of=" + CompressedFile(tmp)];
    DecimalIsWord(offset);
    assert IsWord("if=") && IsWord("ibs=") && IsWord("of=") && IsWord("/file.gz_bz");
    WordConcat("if=", escapedPath);
    WordConcat("ibs=", d);
    WordConcat(tmp, "/file.gz_bz");
    WordConcat("of=", CompressedFile(tmp));
    DdCommandIsUnwords(escapedPath, offset, tmp);
    WordsUnwords(ws);
    assert ws[2][4..] == d + [];
    AtollFormatDecimal(offset, []);
  }
}
