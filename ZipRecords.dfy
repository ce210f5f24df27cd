/**
  The three fixed-layout records of the ZIP format (section 4.3 of PKWARE's
  APPNOTE.TXT) as the reader parses them (src/archive.js:13-18, 154-162,
  180-225): the End of Central Directory record, the central directory file
  header and the local file header. All fields are little-endian.
  Beside each parser stands an encoder for the same record, and a lemma that
  parsing what was encoded gives back the encoded fields.
*/
module ZipRecords {
  import opened Wrappers
  import opened Bytes

  const LOCAL_HEADER_SIZE: nat := 30
  const LOCAL_SIGNATURE: nat := 0x04034b50
  const EOCD_SIZE: nat := 22
  const EOCD_SIGNATURE: nat := 0x06054b50
  const CENTRAL_HEADER_SIZE: nat := 46
  const CENTRAL_SIGNATURE: nat := 0x02014b50

  /** The record whose signature check failed. */
  datatype Signature = EndSignature | CentralSignature | LocalSignature

  /** What the reader throws. */
  datatype Error =
    | BadSignature(record: Signature)     // a failed signature assertion
    | ShortRead(expected: nat, got: nat)  // a positioned read returned fewer bytes than asked
    | OutOfRange(position: nat)           // `readUIntLE` past the end of the central directory buffer
    | UnsupportedMethod(compression: nat)      // a compression method other than 0 and 8
    | InflateFailed                       // the raw-deflate decoder rejected the payload
    | NoSuchFile                          // opening a container the host does not have

  /** One central directory record as the index keeps it (src/archive.js:193-200). */
  datatype Entry = Entry(name: string, compression: nat, csize: nat, usize: nat, offset: nat, dir: bool)

  /** `s.substr(-1) == '/'`. */
  predicate EndsWithSlash(s: string)
  {
    s != [] && s[|s| - 1] == '/'
  }

  // ---------------------------------------------------------------------------
  // End of Central Directory record (APPNOTE section 4.3.16)

  /** The fields the reader takes from the End of Central Directory record. */
  datatype EndRecord = EndRecord(records: nat, cdSize: nat, cdOffset: nat)

  /**
    Where `_getCD` reads the End of Central Directory record: 22 bytes before
    the end of the file. In a shorter file that position is negative, and the
    read starts at the beginning of the file instead (see `ReadStart`).
  */
  function EndPosition(data: seq<byte>): (r: nat)
    ensures |data| >= EOCD_SIZE ==> r + EOCD_SIZE == |data|
    ensures |data| < EOCD_SIZE ==> r == 0
  {
    ReadStart(|data| - EOCD_SIZE)
  }

  /** The 22 bytes of the zero-filled buffer `_getCD` reads the record into. */
  function EndWindow(data: seq<byte>): (r: seq<byte>)
    ensures |r| == EOCD_SIZE
    ensures |data| >= EOCD_SIZE ==> r == data[|data| - EOCD_SIZE..]
    ensures |data| < EOCD_SIZE ==> r == data + Zeros(EOCD_SIZE - |data|)
  {
    var w := Filled(data, EndPosition(data), EOCD_SIZE);
    assert |data| < EOCD_SIZE ==> w == data + Zeros(EOCD_SIZE - |data|);
    w
  }

  /**
    The End of Central Directory record is looked for only at a fixed distance
    from the end of the file (src/archive.js:210-216, 222): a trailing comment
    makes the signature check fail.
  */
  function ParseEnd(data: seq<byte>): (r: Result<EndRecord, Error>)
    ensures var w := EndWindow(data);
      && (r.Success? <==> w[..4] == LE32(EOCD_SIGNATURE))
      && (r.Failure? ==> r.error == BadSignature(EndSignature))
      && (r.Success? ==> r.value == EndRecord(U16(w, 10), U32(w, 12), U32(w, 16)))
    ensures |data| >= EOCD_SIZE ==>
      (r.Success? <==> data[|data| - EOCD_SIZE..|data| - EOCD_SIZE + 4] == LE32(EOCD_SIGNATURE))
  {
    var w := EndWindow(data);
    U32Matches(w, 0, EOCD_SIGNATURE);
    if U32(w, 0) != EOCD_SIGNATURE then Failure(BadSignature(EndSignature))
    else Success(EndRecord(U16(w, 10), U32(w, 12), U32(w, 16)))
  }

  /**
    A file shorter than the record is read from its start, zero-filled: it
    opens exactly when it starts with the signature.
  */
  lemma ShortEndRecord(data: seq<byte>)
    requires |data| < EOCD_SIZE
    ensures ParseEnd(data).Success? <==> |data| >= 4 && data[..4] == LE32(EOCD_SIGNATURE)
  {
    var w := EndWindow(data);
    if |data| < 4 {
      assert w[|data|..4] == Zeros(4 - |data|);
      assert w[3] == 0;
    } else {
      assert w[..4] == data[..4];
    }
  }

  /** The central directory table: the record count and the bytes read for it. */
  datatype CentralDirectory = CentralDirectory(records: nat, buf: seq<byte>)

  /**
    `_getCD` (src/archive.js:209-225): the End of Central Directory record,
    then one positioned read of the whole table, which must return exactly
    the declared size.
  */
  function ReadCentralDirectory(data: seq<byte>): (r: Result<CentralDirectory, Error>)
    ensures ParseEnd(data).Failure? ==> r == Failure(ParseEnd(data).error)
    ensures r.Success? ==>
      var e := ParseEnd(data).value;
      && r.value.records == e.records
      && |r.value.buf| == e.cdSize
      && (e.cdSize > 0 ==> e.cdOffset + e.cdSize <= |data| && r.value.buf == data[e.cdOffset..e.cdOffset + e.cdSize])
    ensures ParseEnd(data).Success? ==>
      var e := ParseEnd(data).value;
      r.Failure? <==> e.cdSize > 0 && e.cdOffset + e.cdSize > |data|
  {
    match ParseEnd(data)
    case Failure(err) => Failure(err)
    case Success(e) =>
      var buf := ReadAt(data, e.cdOffset, e.cdSize);
      if |buf| != e.cdSize then Failure(ShortRead(e.cdSize, |buf|))
      else Success(CentralDirectory(e.records, buf))
  }

  // ---------------------------------------------------------------------------
  // Central directory file header (APPNOTE section 4.3.12)

  /**
    `_readCDEntry` without its index update (src/archive.js:180-200, 206):
    the record at `off` of the table `cd`, and the number of bytes it
    occupies. A field read past the end of the buffer throws; the name is
    cut short, without an error, where the buffer ends.
  */
  function ParseCentralHeader(cd: seq<byte>, off: nat): (r: Result<(Entry, nat), Error>)
    ensures r.Success? ==> off + CENTRAL_HEADER_SIZE <= |cd| && U32(cd, off) == CENTRAL_SIGNATURE
    ensures off + 4 <= |cd| && U32(cd, off) != CENTRAL_SIGNATURE ==> r == Failure(BadSignature(CentralSignature))
    ensures off + CENTRAL_HEADER_SIZE <= |cd| && U32(cd, off) == CENTRAL_SIGNATURE ==> r.Success?
    ensures r.Success? ==> r.value.1 >= CENTRAL_HEADER_SIZE
    ensures r.Success? ==> r.value.0.dir == EndsWithSlash(r.value.0.name)
    ensures r.Success? ==> |r.value.0.name| <= r.value.1 - CENTRAL_HEADER_SIZE
  {
    if off + 4 > |cd| then Failure(OutOfRange(off))
    else
      if U32(cd, off) != CENTRAL_SIGNATURE then Failure(BadSignature(CentralSignature))
      else if off + CENTRAL_HEADER_SIZE > |cd| then Failure(OutOfRange(off))
      else
        var nameLen := U16(cd, off + 28);
        var extraLen := U16(cd, off + 30);
        var commentLen := U16(cd, off + 32);
        var start := off + CENTRAL_HEADER_SIZE;
        var name := DecodeName(cd[start..Min(start + nameLen, |cd|)]);
        var entry := Entry(name, U16(cd, off + 10), U32(cd, off + 20), U32(cd, off + 24),
                           U32(cd, off + 42), EndsWithSlash(name));
        Success((entry, CENTRAL_HEADER_SIZE + nameLen + extraLen + commentLen))
  }

  // ---------------------------------------------------------------------------
  // Local file header (APPNOTE section 4.3.7)

  /**
    `_getDataOffset` (src/archive.js:154-162): the payload of an entry starts
    after the local header and the local header's own name and extra fields,
    whatever lengths the central directory recorded.
  */
  function DataOffset(e: Entry, hdr: seq<byte>): (r: Result<nat, Error>)
    requires |hdr| == LOCAL_HEADER_SIZE
    ensures r.Success? <==> hdr[..4] == LE32(LOCAL_SIGNATURE)
    ensures r.Failure? ==> r.error == BadSignature(LocalSignature)
    ensures r.Success? ==> e.offset + LOCAL_HEADER_SIZE <= r.value < e.offset + LOCAL_HEADER_SIZE + 2 * 0x1_0000
  {
    U32Matches(hdr, 0, LOCAL_SIGNATURE);
    if U32(hdr, 0) != LOCAL_SIGNATURE then Failure(BadSignature(LocalSignature))
    else Success(e.offset + LOCAL_HEADER_SIZE + U16(hdr, 26) + U16(hdr, 28))
  }

  // ---------------------------------------------------------------------------
  // Writers, and parsing what they write

  /** Every field of a central directory file header, in the order it is stored. */
  datatype CentralHeader = CentralHeader(
    versionMadeBy: nat, versionNeeded: nat, flags: nat, compression: nat, modTime: nat, modDate: nat,
    crc32: nat, csize: nat, usize: nat, diskStart: nat, internalAttrs: nat, externalAttrs: nat,
    localOffset: nat, name: seq<byte>, extra: seq<byte>, comment: seq<byte>)
  {
    predicate Fits()
    {
      && versionMadeBy < 0x1_0000 && versionNeeded < 0x1_0000 && flags < 0x1_0000 && compression < 0x1_0000
      && modTime < 0x1_0000 && modDate < 0x1_0000 && crc32 < 0x1_0000_0000 && csize < 0x1_0000_0000
      && usize < 0x1_0000_0000 && diskStart < 0x1_0000 && internalAttrs < 0x1_0000
      && externalAttrs < 0x1_0000_0000 && localOffset < 0x1_0000_0000
      && |name| < 0x1_0000 && |extra| < 0x1_0000 && |comment| < 0x1_0000
    }
  }

  /** The 46 fixed bytes of a central directory file header. */
  function CentralFixed(h: CentralHeader): (r: seq<byte>)
    requires h.Fits()
    ensures |r| == CENTRAL_HEADER_SIZE
  {
    LE32(CENTRAL_SIGNATURE) + LE16(h.versionMadeBy) + LE16(h.versionNeeded) + LE16(h.flags)
    + LE16(h.compression) + LE16(h.modTime) + LE16(h.modDate) + LE32(h.crc32) + LE32(h.csize)
    + LE32(h.usize) + LE16(|h.name|) + LE16(|h.extra|) + LE16(|h.comment|) + LE16(h.diskStart)
    + LE16(h.internalAttrs) + LE32(h.externalAttrs) + LE32(h.localOffset)
  }

  function EncodeCentralHeader(h: CentralHeader): (r: seq<byte>)
    requires h.Fits()
    ensures |r| == CENTRAL_HEADER_SIZE + |h.name| + |h.extra| + |h.comment|
  {
    CentralFixed(h) + h.name + h.extra + h.comment
  }

  lemma CentralFixedFields(h: CentralHeader)
    requires h.Fits()
    ensures var f := CentralFixed(h);
      && U32(f, 0) == CENTRAL_SIGNATURE && U16(f, 10) == h.compression && U32(f, 20) == h.csize
      && U32(f, 24) == h.usize && U16(f, 28) == |h.name| && U16(f, 30) == |h.extra|
      && U16(f, 32) == |h.comment| && U32(f, 42) == h.localOffset
  {
  }

  /** The fields of `h`, read from a table holding its fixed part at `off`. */
  lemma CentralFieldsAt(cd: seq<byte>, off: nat, h: CentralHeader)
    requires h.Fits()
    requires off + CENTRAL_HEADER_SIZE <= |cd|
    requires cd[off..off + CENTRAL_HEADER_SIZE] == CentralFixed(h)
    ensures && U32(cd, off) == CENTRAL_SIGNATURE && U16(cd, off + 10) == h.compression
            && U32(cd, off + 20) == h.csize && U32(cd, off + 24) == h.usize
            && U16(cd, off + 28) == |h.name| && U16(cd, off + 30) == |h.extra|
            && U16(cd, off + 32) == |h.comment| && U32(cd, off + 42) == h.localOffset
  {
    var f := CentralFixed(h);
    CentralFixedFields(h);
    U32Window(cd, off, f, 0);
    U16Window(cd, off, f, 10);
    U32Window(cd, off, f, 20);
    U32Window(cd, off, f, 24);
    U16Window(cd, off, f, 28);
    U16Window(cd, off, f, 30);
    U16Window(cd, off, f, 32);
    U32Window(cd, off, f, 42);
  }

  /** A table holding the fixed part of `h` and then its name at `off`. */
  lemma ParseCentralHeaderAt(cd: seq<byte>, off: nat, h: CentralHeader)
    requires h.Fits()
    requires off + CENTRAL_HEADER_SIZE + |h.name| <= |cd|
    requires cd[off..off + CENTRAL_HEADER_SIZE] == CentralFixed(h)
    requires cd[off + CENTRAL_HEADER_SIZE..off + CENTRAL_HEADER_SIZE + |h.name|] == h.name
    ensures var name := DecodeName(h.name);
      ParseCentralHeader(cd, off)
      == Success((Entry(name, h.compression, h.csize, h.usize, h.localOffset, EndsWithSlash(name)),
                  CENTRAL_HEADER_SIZE + |h.name| + |h.extra| + |h.comment|))
  {
    CentralFieldsAt(cd, off, h);
    var start := off + CENTRAL_HEADER_SIZE;
    assert Min(start + |h.name|, |cd|) == start + |h.name|;
  }

  /** Parsing an encoded central directory file header, wherever it sits in the table. */
  lemma ParseEncodedCentralHeader(pre: seq<byte>, h: CentralHeader, post: seq<byte>)
    requires h.Fits()
    ensures var name := DecodeName(h.name);
      ParseCentralHeader(pre + EncodeCentralHeader(h) + post, |pre|)
      == Success((Entry(name, h.compression, h.csize, h.usize, h.localOffset, EndsWithSlash(name)),
                  CENTRAL_HEADER_SIZE + |h.name| + |h.extra| + |h.comment|))
  {
    var cd := pre + EncodeCentralHeader(h) + post;
    var off := |pre|;
    assert cd[off..off + CENTRAL_HEADER_SIZE] == CentralFixed(h);
    assert cd[off + CENTRAL_HEADER_SIZE..off + CENTRAL_HEADER_SIZE + |h.name|] == h.name;
    ParseCentralHeaderAt(cd, off, h);
  }

  /** Every field of an End of Central Directory record without a comment. */
  datatype EndOfCentralDirectory = EndOfCentralDirectory(
    diskNumber: nat, cdDisk: nat, diskEntries: nat, totalEntries: nat,
    cdSize: nat, cdOffset: nat, commentLength: nat)
  {
    predicate Fits()
    {
      && diskNumber < 0x1_0000 && cdDisk < 0x1_0000 && diskEntries < 0x1_0000 && totalEntries < 0x1_0000
      && cdSize < 0x1_0000_0000 && cdOffset < 0x1_0000_0000 && commentLength < 0x1_0000
    }
  }

  function EncodeEnd(e: EndOfCentralDirectory): (r: seq<byte>)
    requires e.Fits()
    ensures |r| == EOCD_SIZE
  {
    LE32(EOCD_SIGNATURE) + LE16(e.diskNumber) + LE16(e.cdDisk) + LE16(e.diskEntries)
    + LE16(e.totalEntries) + LE32(e.cdSize) + LE32(e.cdOffset) + LE16(e.commentLength)
  }

  lemma EncodeEndFields(e: EndOfCentralDirectory)
    requires e.Fits()
    ensures var f := EncodeEnd(e);
      U32(f, 0) == EOCD_SIGNATURE && U16(f, 10) == e.totalEntries && U32(f, 12) == e.cdSize && U32(f, 16) == e.cdOffset
  {
  }

  /** A file that ends with an encoded End of Central Directory record yields its fields. */
  lemma ParseEncodedEnd(body: seq<byte>, e: EndOfCentralDirectory)
    requires e.Fits()
    ensures ParseEnd(body + EncodeEnd(e)) == Success(EndRecord(e.totalEntries, e.cdSize, e.cdOffset))
  {
    var f := EncodeEnd(e);
    var data := body + f;
    assert EndWindow(data) == f;
    EncodeEndFields(e);
    U32Matches(f, 0, EOCD_SIGNATURE);
  }

  /** Every field of a local file header, in the order it is stored. */
  datatype LocalHeader = LocalHeader(
    versionNeeded: nat, flags: nat, compression: nat, modTime: nat, modDate: nat,
    crc32: nat, csize: nat, usize: nat, name: seq<byte>, extra: seq<byte>)
  {
    predicate Fits()
    {
      && versionNeeded < 0x1_0000 && flags < 0x1_0000 && compression < 0x1_0000
      && modTime < 0x1_0000 && modDate < 0x1_0000 && crc32 < 0x1_0000_0000
      && csize < 0x1_0000_0000 && usize < 0x1_0000_0000 && |name| < 0x1_0000 && |extra| < 0x1_0000
    }
  }

  /** The 30 fixed bytes of a local file header. */
  function LocalFixed(h: LocalHeader): (r: seq<byte>)
    requires h.Fits()
    ensures |r| == LOCAL_HEADER_SIZE
  {
    LE32(LOCAL_SIGNATURE) + LE16(h.versionNeeded) + LE16(h.flags) + LE16(h.compression)
    + LE16(h.modTime) + LE16(h.modDate) + LE32(h.crc32) + LE32(h.csize) + LE32(h.usize)
    + LE16(|h.name|) + LE16(|h.extra|)
  }

  function EncodeLocalHeader(h: LocalHeader): (r: seq<byte>)
    requires h.Fits()
    ensures |r| == LOCAL_HEADER_SIZE + |h.name| + |h.extra|
    ensures r[..LOCAL_HEADER_SIZE] == LocalFixed(h)
  {
    LocalFixed(h) + h.name + h.extra
  }

  /**
    The payload of an entry starts right after its encoded local header and
    that header's name and extra field.
  */
  lemma DataOffsetOfEncoded(e: Entry, h: LocalHeader)
    requires h.Fits()
    ensures DataOffset(e, LocalFixed(h)) == Success(e.offset + |EncodeLocalHeader(h)|)
  {
  }
}
