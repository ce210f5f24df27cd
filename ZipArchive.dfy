/**
  The `Archive` object (src/archive.js:29-246): an open container file and
  the index of its central directory, filled in place while the directory
  is walked. Every operation is proved against the function that states
  what it computes: `ReadAt` and `Filled` for the reads,
  `ReadCentralDirectory` for `_getCD`, `Put`, `Register` and `Walk` for the
  index updates, and the functions of ZipAccess for the queries.
*/
module ZipArchive {
  import opened Wrappers
  import opened Bytes
  import opened Paths
  import opened ZipRecords
  import opened ZipIndex
  import opened ZipAccess

  class Archive {
    /** The path the archive was opened with; it roots every `realpathSync`. */
    const path: string
    /** The bytes of the container file, which nothing changes while it is open. */
    const data: seq<byte>
    /** `this.files`: its keys in insertion order, and what each key holds. */
    var order: seq<string>
    var files: map<string, Entry>

    /** The index as a value. */
    function Snapshot(): Index
      reads this
    {
      Index(order, files)
    }

    ghost predicate Valid()
      reads this
    {
      ZipIndex.Valid(Snapshot())
    }

    /** `this.path = path; this.files = {}` before the directory is loaded (src/archive.js:31-36). */
    constructor (path: string, data: seq<byte>)
      ensures this.path == path && this.data == data
      ensures Snapshot() == EMPTY && Valid()
    {
      this.path := path;
      this.data := data;
      order := [];
      files := map[];
    }

    /**
      `_readSync(buf, position)` (src/archive.js:165-170): nothing is read
      into an empty buffer; otherwise the bytes at `ReadStart(position)` are
      copied to the front of `buf` and their number returned.
    */
    method ReadSync(buf: array<byte>, position: int) returns (r: nat)
      modifies buf
      ensures buf.Length == 0 ==> r == 0
      ensures buf.Length > 0 ==>
        var got := ReadAt(data, ReadStart(position), buf.Length);
        && r == |got|
        && buf[..|got|] == got
        && buf[|got|..] == old(buf[|got|..])
    {
      if buf.Length == 0 {
        return 0;
      }
      var got := ReadAt(data, ReadStart(position), buf.Length);
      forall i | 0 <= i < |got| {
        buf[i] := got[i];
      }
      return |got|;
    }

    /**
      A fresh zero-filled buffer of `n` bytes after `_readSync` at `position`
      holds `Filled(data, ReadStart(position), n)`; `r` is the count read.
    */
    method ReadInto(n: nat, position: int) returns (buf: array<byte>, r: nat)
      ensures fresh(buf) && buf.Length == n
      ensures buf[..] == Filled(data, ReadStart(position), n)
      ensures r == |ReadAt(data, ReadStart(position), n)|
    {
      buf := new byte[n](_ => 0);
      ghost var zeros := buf[..];
      r := ReadSync(buf, position);
      var got := ReadAt(data, ReadStart(position), n);
      if n > 0 {
        assert buf[..] == buf[..|got|] + buf[|got|..];
        assert buf[|got|..] == zeros[|got|..];
      }
    }

    /** `_getCD` (src/archive.js:209-225). */
    method GetCD() returns (r: Result<CentralDirectory, Error>)
      ensures r == ReadCentralDirectory(data)
    {
      var eocd, _ := ReadInto(EOCD_SIZE, |data| - EOCD_SIZE);
      assert eocd[..] == EndWindow(data);
      U32Matches(eocd[..], 0, EOCD_SIGNATURE);
      if U32(eocd[..], 0) != EOCD_SIGNATURE {
        return Failure(BadSignature(EndSignature));
      }
      var size := U32(eocd[..], 12);
      var offset := U32(eocd[..], 16);
      var cdbuf, read := ReadInto(size, offset);
      if read != size {
        return Failure(ShortRead(size, read));
      }
      return Success(CentralDirectory(U16(eocd[..], 10), cdbuf[..]));
    }

    /** `this.files[k] = e`: a new key goes to the end of the order. */
    method Store(k: string, e: Entry)
      modifies this
      ensures Snapshot() == Put(old(Snapshot()), k, e)
    {
      if k !in files {
        order := order + [k];
      }
      files := files[k := e];
    }

    /**
      `_readCDEntry(cdbuf, offset)` (src/archive.js:180-207): parse the record
      at `offset`, store a directory under its name without the trailing '/'
      and then every entry under its name, and return the record's length.
      The parser is `CENTRAL_RECORD`, which `LoadCD` passes down; the walk's
      proof needs nothing of it but its results.
    */
    method ReadCDEntry(parse: RecordParser, cdbuf: seq<byte>, offset: nat) returns (r: Result<nat, Error>)
      modifies this
      ensures parse(cdbuf, offset).Failure? ==>
        r == Failure(parse(cdbuf, offset).error) && Snapshot() == old(Snapshot())
      ensures parse(cdbuf, offset).Success? ==>
        var parsed := parse(cdbuf, offset).value;
        r == Success(parsed.1) && Snapshot() == Register(old(Snapshot()), parsed.0)
    {
      var parsed := parse(cdbuf, offset);
      if parsed.Failure? {
        return Failure(parsed.error);
      }
      var (file, size) := parsed.value;
      if file.dir {
        Store(DirAlias(file.name), file);
      }
      Store(file.name, file);
      return Success(size);
    }

    /**
      The loop of `_loadCD` (src/archive.js:229-232): `records` records of
      the table `buf`, each starting where the one before it ended.
    */
    method WalkRecords(parse: RecordParser, buf: seq<byte>, records: nat) returns (r: Result<(), Error>)
      modifies this
      ensures var w := Walk(parse, buf, records, 0, old(Snapshot()));
        && (w.Failure? ==> r == Failure(w.error))
        && (w.Success? ==> r == Success(()) && Snapshot() == w.value)
    {
      ghost var w := Walk(parse, buf, records, 0, Snapshot());
      var off: nat := 0;
      var i := 0;
      while i < records
        invariant 0 <= i <= records
        invariant w == Walk(parse, buf, records - i, off, Snapshot())
      {
        WalkStep(parse, buf, records - i, off, Snapshot());
        var size := ReadCDEntry(parse, buf, off);
        if size.Failure? {
          return Failure(size.error);
        }
        off := off + size.value;
        i := i + 1;
      }
      return Success(());
    }

    /** `_loadCD` (src/archive.js:227-233): read the table, then walk it. */
    method LoadCD() returns (r: Result<(), Error>)
      modifies this
      ensures Load(data, old(Snapshot())).Failure? ==> r == Failure(Load(data, old(Snapshot())).error)
      ensures Load(data, old(Snapshot())).Success? ==> r == Success(()) && Snapshot() == Load(data, old(Snapshot())).value
    {
      var cd := GetCD();
      if cd.Failure? {
        return Failure(cd.error);
      }
      r := WalkRecords(CENTRAL_RECORD, cd.value.buf, cd.value.records);
    }

    /**
      `new Archive(path)` on a container holding `data`: the index is the one
      `LoadIndex` builds, or construction throws its error.
    */
    static method Open(path: string, data: seq<byte>) returns (r: Result<Archive, Error>)
      ensures LoadIndex(data).Failure? ==> r == Failure(LoadIndex(data).error)
      ensures LoadIndex(data).Success? ==>
        && r.Success? && fresh(r.value)
        && r.value.path == path && r.value.data == data
        && r.value.Snapshot() == LoadIndex(data).value
        && r.value.Valid()
    {
      var a := new Archive(path, data);
      var loaded := a.LoadCD();
      if loaded.Failure? {
        return Failure(loaded.error);
      }
      return Success(a);
    }

    /** `readFileSync(fname)` (src/archive.js:41-66), contents left undecoded. */
    method ReadFileSync(fname: string, inflate: Inflater) returns (r: FileResult)
      ensures r == ReadFile(Snapshot(), data, fname, inflate)
    {
      if fname !in files {
        return Host(fname);
      }
      var file := files[fname];
      var hdr, _ := ReadInto(LOCAL_HEADER_SIZE, file.offset);
      var dataOff := DataOffset(file, hdr[..]);
      if dataOff.Failure? {
        return Fail(dataOff.error);
      }
      var cbuf, read := ReadInto(file.csize, dataOff.value);
      if read != cbuf.Length {
        return Fail(ShortRead(file.csize, read));
      }
      assert cbuf[..] == ReadAt(data, dataOff.value, file.csize);
      if file.compression == 0 {
        return Contents(cbuf[..]);
      } else if file.compression == 8 {
        var out := inflate(cbuf[..]);
        if out.None? {
          return Fail(InflateFailed);
        }
        return Contents(out.value);
      }
      return Fail(UnsupportedMethod(file.compression));
    }

    /** `exists(path)` / `existsSync(path)` (src/archive.js:239-245), as corrected in ZipAccess. */
    predicate ExistsSync(p: string)
      reads this
    {
      Exists(Snapshot(), p)
    }

    /** `statSync(path)` (src/archive.js:68-82). */
    method StatSync(p: string) returns (r: Stat)
      ensures r == StatOf(Snapshot(), p)
    {
      if !ExistsSync(p) {
        return HostAnswer(p);
      }
      var file := files[p];
      return EntryStat(file);
    }

    /**
      `filter(pred)` (src/archive.js:118-129): the entries whose key `pred`
      accepts, visiting the keys in insertion order.
    */
    method Filter(pred: (string, Entry) -> bool) returns (r: seq<Entry>)
      requires Valid()
      ensures r == Selected(order, files, pred)
    {
      r := [];
      var i := 0;
      while i < |order|
        invariant 0 <= i <= |order|
        invariant r == Selected(order[..i], files, pred)
      {
        var f := order[i];
        var file := files[f];
        if pred(f, file) {
          r := r + [file];
        }
        assert order[..i + 1][..i] == order[..i];
        i := i + 1;
      }
      assert order[..i] == order;
    }

    /** `readdir(dir)` / `readdirSync(dir)` (src/archive.js:131-148). */
    method Readdir(dir: string) returns (r: seq<string>)
      requires Valid()
      ensures r == ListDir(Snapshot(), dir)
    {
      var filtered := Filter(ChildOf(DirPrefix(dir)));
      r := Basenames(filtered);
    }

    /**
      `realpathSync(p)` (src/archive.js:150-152): the entry's path below the
      container's own path. It is never empty, so it is always truthy.
    */
    function RealpathSync(p: string): (r: string)
      ensures r != [] && '\\' !in r
    {
      Zjoin(path, p)
    }
  }
}
