/**
  What the archive's operations compute, as functions of the archive file's
  bytes and of the index built from them: the index the constructor leaves
  (src/archive.js:31-39, 227-233), `readFileSync` (src/archive.js:41-66),
  `statSync` (src/archive.js:68-82), `filter` and `readdir`
  (src/archive.js:118-148) and `exists` (src/archive.js:239-245). The
  `Archive` class proves its methods against these.
*/
module ZipAccess {
  import opened Wrappers
  import opened Bytes
  import opened Paths
  import opened ZipRecords
  import opened ZipIndex

  // ---------------------------------------------------------------------------
  // Loading

  /** The central directory file header parser, as the walk applies it. */
  const CENTRAL_RECORD: RecordParser := ParseCentralHeader

  /** `_loadCD` on an index that already holds `idx`: read the table, then walk it. */
  function Load(data: seq<byte>, idx: Index): (r: Result<Index, Error>)
    ensures Valid(idx) && r.Success? ==> Valid(r.value)
    ensures ReadCentralDirectory(data).Failure? ==> r == Failure(ReadCentralDirectory(data).error)
  {
    match ReadCentralDirectory(data)
    case Failure(err) => Failure(err)
    case Success(cd) =>
      WalkValid(CENTRAL_RECORD, cd.buf, cd.records, 0, idx);
      Walk(CENTRAL_RECORD, cd.buf, cd.records, 0, idx)
  }

  /**
    What constructing an `Archive` over a file holding `data` leaves in
    `this.files`, or the error the constructor throws.
  */
  function LoadIndex(data: seq<byte>): (r: Result<Index, Error>)
    ensures r.Success? ==> Valid(r.value)
  {
    Load(data, EMPTY)
  }

  /**
    The records of the central directory of `data`, parsed one after the
    other from the start of the table, as many as the End of Central
    Directory record declares.
  */
  function TableRecords(data: seq<byte>): Result<seq<Located>, Error>
  {
    match ReadCentralDirectory(data)
    case Failure(err) => Failure(err)
    case Success(cd) => Records(CENTRAL_RECORD, cd.buf, cd.records, 0)
  }

  /**
    A 21-byte file holding just the record's signature opens as an empty
    archive: 22 bytes before its end is position -1, so the record is read
    from the start of the file and the missing last byte reads as zero.
  */
  lemma ShortFileOpensEmpty()
    ensures LoadIndex(LE32(EOCD_SIGNATURE) + Zeros(17)) == Success(EMPTY)
  {
    var data := LE32(EOCD_SIGNATURE) + Zeros(17);
    var w := EndWindow(data);
    assert w[..4] == LE32(EOCD_SIGNATURE);
    assert w[4..] == Zeros(18);
    assert U16(w, 10) == 0 && U32(w, 12) == 0 && U32(w, 16) == 0;
    assert ParseEnd(data) == Success(EndRecord(0, 0, 0));
  }

  /**
    Construction succeeds exactly when the table is read and every declared
    record parses; the index then holds the records' entries registered in
    table order.
  */
  lemma LoadIndexIsFold(data: seq<byte>)
    ensures TableRecords(data).Failure? ==> LoadIndex(data) == Failure(TableRecords(data).error)
    ensures TableRecords(data).Success? ==> LoadIndex(data) == Success(Fold(EMPTY, TableRecords(data).value))
  {
    if ReadCentralDirectory(data).Success? {
      var cd := ReadCentralDirectory(data).value;
      if Records(CENTRAL_RECORD, cd.buf, cd.records, 0).Failure? {
        WalkFails(CENTRAL_RECORD, cd.buf, cd.records, 0, EMPTY);
      } else {
        WalkIsFold(CENTRAL_RECORD, cd.buf, cd.records, 0, EMPTY);
      }
    }
  }

  /**
    `_loadCD` visits exactly as many records as the End of Central Directory
    record declares, and record i starts where records 0..i-1 end.
  */
  lemma TableLayout(data: seq<byte>)
    requires TableRecords(data).Success?
    ensures var rs := TableRecords(data).value;
      var cd := ReadCentralDirectory(data).value;
      && |rs| == ParseEnd(data).value.records
      && forall i :: 0 <= i < |rs| ==>
           && rs[i].start == SumSizes(rs[..i])
           && CENTRAL_RECORD(cd.buf, rs[i].start) == Success((rs[i].entry, rs[i].size))
  {
    var cd := ReadCentralDirectory(data).value;
    RecordsLayout(CENTRAL_RECORD, cd.buf, cd.records, 0);
  }

  /** Every record of a table that parses has a directory flag that agrees with its name. */
  lemma TableWellFormed(data: seq<byte>)
    requires TableRecords(data).Success?
    ensures var rs := TableRecords(data).value;
      forall i :: 0 <= i < |rs| ==> WellFormed(rs[i].entry)
  {
    var rs := TableRecords(data).value;
    var cd := ReadCentralDirectory(data).value;
    TableLayout(data);
    forall i | 0 <= i < |rs|
      ensures WellFormed(rs[i].entry)
    {
      var p := CENTRAL_RECORD(cd.buf, rs[i].start);
      assert p.Success? && p.value.0 == rs[i].entry;
    }
  }

  /** After construction the index holds exactly the keys of the records. */
  lemma LoadIndexKeys(data: seq<byte>)
    requires TableRecords(data).Success?
    ensures LoadIndex(data).Success? && LoadIndex(data).value.files.Keys == AllKeys(TableRecords(data).value)
  {
    LoadIndexIsFold(data);
    FoldKeys(EMPTY, TableRecords(data).value);
  }

  /** After construction every entry is a directory exactly when its name ends in '/'. */
  lemma LoadIndexWellFormed(data: seq<byte>)
    requires TableRecords(data).Success?
    ensures LoadIndex(data).Success? && AllWellFormed(LoadIndex(data).value)
  {
    LoadIndexIsFold(data);
    TableWellFormed(data);
    FoldWellFormed(EMPTY, TableRecords(data).value);
  }

  /** After construction a key holds the last record stored under it. */
  lemma LoadIndexLastWins(data: seq<byte>, i: nat, k: string)
    requires TableRecords(data).Success?
    requires var rs := TableRecords(data).value;
      && i < |rs| && k in KeysOf(rs[i].entry)
      && forall j :: i < j < |rs| ==> k !in KeysOf(rs[j].entry)
    ensures LoadIndex(data).Success?
    ensures k in LoadIndex(data).value.files && LoadIndex(data).value.files[k] == TableRecords(data).value[i].entry
  {
    LoadIndexIsFold(data);
    FoldLastWins(EMPTY, TableRecords(data).value, i, k);
  }

  // ---------------------------------------------------------------------------
  // readFileSync

  /** What `readFileSync` gives back: the host's answer for a name the archive lacks, the contents, or an error. */
  datatype FileResult = Host(path: string) | Contents(bytes: seq<byte>) | Fail(error: Error)

  /** `zlib.inflateRawSync`: the inflated bytes, or None where it throws. */
  type Inflater = seq<byte> -> Option<seq<byte>>

  /**
    `_getDataOffset` on the 30 bytes read at the entry's offset. The read's
    count is not checked: bytes past the end of the file stay zero.
  */
  function PayloadStart(data: seq<byte>, e: Entry): (r: Result<nat, Error>)
    ensures e.offset + LOCAL_HEADER_SIZE <= |data| ==>
      r == DataOffset(e, data[e.offset..e.offset + LOCAL_HEADER_SIZE])
    ensures r.Success? ==> r.value >= e.offset + LOCAL_HEADER_SIZE
  {
    DataOffset(e, Filled(data, e.offset, LOCAL_HEADER_SIZE))
  }

  /**
    `readFileSync` for an index entry (src/archive.js:47-63): locate the
    payload through the local header, read `csize` bytes there, and return
    them as they are (method 0) or inflated (method 8).
  */
  function ReadEntry(data: seq<byte>, e: Entry, inflate: Inflater): (r: FileResult)
    ensures !r.Host?
    ensures PayloadStart(data, e).Failure? ==> r == Fail(BadSignature(LocalSignature))
    ensures PayloadStart(data, e).Success? ==>
      var off := PayloadStart(data, e).value;
      && (e.csize > 0 && off + e.csize > |data| ==> r.Fail? && r.error.ShortRead?)
      && (e.csize == 0 || off + e.csize <= |data| ==>
            var payload := if e.csize == 0 then [] else data[off..off + e.csize];
            && (e.compression == 0 ==> r == Contents(payload))
            && (e.compression == 8 ==> r == (if inflate(payload).Some? then Contents(inflate(payload).value) else Fail(InflateFailed)))
            && (e.compression != 0 && e.compression != 8 ==> r == Fail(UnsupportedMethod(e.compression))))
  {
    match PayloadStart(data, e)
    case Failure(err) => Fail(err)
    case Success(off) =>
      var cbuf := ReadAt(data, off, e.csize);
      if |cbuf| != e.csize then Fail(ShortRead(e.csize, |cbuf|))
      else if e.compression == 0 then Contents(cbuf)
      else if e.compression == 8 then
        match inflate(cbuf)
        case None => Fail(InflateFailed)
        case Some(out) => Contents(out)
      else Fail(UnsupportedMethod(e.compression))
  }

  /** `readFileSync(fname)`: names that are not keys of the index go to the host. */
  function ReadFile(idx: Index, data: seq<byte>, fname: string, inflate: Inflater): (r: FileResult)
    ensures r.Host? <==> fname !in idx.files
    ensures r.Host? ==> r.path == fname
  {
    if fname in idx.files then ReadEntry(data, idx.files[fname], inflate) else Host(fname)
  }

  /** The first `n` bytes of `b` inside `a + b + c`. */
  lemma PrefixOfMiddle(a: seq<byte>, b: seq<byte>, c: seq<byte>, n: nat)
    requires n <= |b|
    ensures (a + b + c)[|a|..|a| + n] == b[..n]
  {
  }

  /** `_getDataOffset` sees the 30 bytes written at the entry's offset. */
  lemma PayloadAfterHeader(pre: seq<byte>, hdr: seq<byte>, rest: seq<byte>, e: Entry, fixed: seq<byte>)
    requires e.offset == |pre| && LOCAL_HEADER_SIZE <= |hdr| && hdr[..LOCAL_HEADER_SIZE] == fixed
    ensures PayloadStart(pre + hdr + rest, e) == DataOffset(e, fixed)
  {
    PrefixOfMiddle(pre, hdr, rest, LOCAL_HEADER_SIZE);
  }

  /** The payload of an entry whose local header was written at its offset starts right after that header. */
  lemma EncodedPayloadStart(pre: seq<byte>, h: LocalHeader, rest: seq<byte>, e: Entry)
    requires h.Fits() && e.offset == |pre|
    ensures PayloadStart(pre + EncodeLocalHeader(h) + rest, e) == Success(|pre| + |EncodeLocalHeader(h)|)
  {
    PayloadAfterHeader(pre, EncodeLocalHeader(h), rest, e, LocalFixed(h));
    DataOffsetOfEncoded(e, h);
  }

  /**
    A stored entry whose local header and payload were written at its offset
    reads back as exactly that payload, whatever surrounds it.
  */
  lemma ReadStoredEntry(pre: seq<byte>, h: LocalHeader, payload: seq<byte>, post: seq<byte>, e: Entry, inflate: Inflater)
    requires h.Fits()
    requires e.offset == |pre| && e.compression == 0 && e.csize == |payload|
    ensures ReadEntry(pre + EncodeLocalHeader(h) + payload + post, e, inflate) == Contents(payload)
  {
    var hdr := EncodeLocalHeader(h);
    var data := pre + hdr + payload + post;
    assert data == pre + hdr + (payload + post);
    EncodedPayloadStart(pre, h, payload + post, e);
    var off := |pre| + |hdr|;
    assert data[off..off + |payload|] == payload;
  }

  // ---------------------------------------------------------------------------
  // statSync and exists

  /**
    What `statSync` gives back: for a name the archive lacks, the host's
    `existsSync` answer; for a key, an object carrying the entry's fields.
  */
  datatype Stat = HostAnswer(path: string) | EntryStat(entry: Entry)
  {
    /** `isDirectory()`; the host's boolean answer has no such method. */
    predicate IsDirectory()
      requires EntryStat?
    {
      entry.dir
    }

    /** `isFile()`. */
    predicate IsFile()
      requires EntryStat?
    {
      !entry.dir
    }
  }

  /** `exists(path)` (src/archive.js:239-241), as a lookup of the index's own keys. */
  predicate Exists(idx: Index, p: string)
  {
    p in idx.files
  }

  /** `statSync(path)` (src/archive.js:68-82). */
  function StatOf(idx: Index, p: string): (r: Stat)
    ensures r.EntryStat? <==> Exists(idx, p)
    ensures r.EntryStat? ==> r.entry == idx.files[p]
  {
    if !Exists(idx, p) then HostAnswer(p) else EntryStat(idx.files[p])
  }

  /**
    A registered directory is reported as a directory, and as the same entry,
    under both of its keys; any other entry is reported as a file under its
    one key.
  */
  lemma StatAfterRegister(idx: Index, e: Entry)
    requires WellFormed(e)
    ensures var r := Register(idx, e);
      && StatOf(r, e.name) == EntryStat(e)
      && (e.dir <==> StatOf(r, e.name).IsDirectory())
      && (e.dir ==> StatOf(r, DirAlias(e.name)) == EntryStat(e) && StatOf(r, DirAlias(e.name)).IsDirectory())
      && (!e.dir ==> StatOf(r, e.name).IsFile())
  {
    RegisterFacts(idx, e);
  }

  /** In a built index, `isDirectory()` of a key says whether its entry's name ends in '/'. */
  lemma StatIsDirectory(idx: Index, p: string)
    requires AllWellFormed(idx) && Exists(idx, p)
    ensures StatOf(idx, p).IsDirectory() <==> EndsWithSlash(idx.files[p].name)
    ensures StatOf(idx, p).IsFile() <==> !EndsWithSlash(idx.files[p].name)
  {
    assert WellFormed(idx.files[p]);
  }

  /**
    `exists` as written: `path in this.files` also finds the properties
    every JavaScript object inherits from `Object.prototype`.
  */
  predicate ExistsAsWritten(idx: Index, p: string)
  {
    p in idx.files || p in INHERITED
  }

  /** The names `Object.prototype` provides to every plain object. */
  const INHERITED: set<string> := {
    "constructor", "hasOwnProperty", "isPrototypeOf", "propertyIsEnumerable",
    "toLocaleString", "toString", "valueOf", "__proto__", "__defineGetter__",
    "__defineSetter__", "__lookupGetter__", "__lookupSetter__"}

  /** An archive with no entries at all claims to hold "toString". */
  lemma ExistsAsWrittenOnEmpty()
    ensures ExistsAsWritten(EMPTY, "toString")
    ensures !Exists(EMPTY, "toString")
  {
    assert "toString" in INHERITED;
  }

  // ---------------------------------------------------------------------------
  // filter and readdir

  /**
    `filter(pred)` over `keys`: the entries stored under the keys that `pred`
    accepts, in the order of the keys.
  */
  function Selected(keys: seq<string>, files: map<string, Entry>, pred: (string, Entry) -> bool): (r: seq<Entry>)
    requires forall i :: 0 <= i < |keys| ==> keys[i] in files
    ensures |r| <= |keys|
    ensures forall e :: e in r <==> exists i :: 0 <= i < |keys| && pred(keys[i], files[keys[i]]) && e == files[keys[i]]
  {
    if keys == [] then []
    else
      var k := keys[|keys| - 1];
      var init := Selected(keys[..|keys| - 1], files, pred);
      if pred(k, files[k]) then init + [files[k]] else init
  }

  /** `zjoin(dir, '/')`: the prefix the children of `dir` start with. */
  function DirPrefix(dir: string): (r: string)
    ensures r != []
  {
    Zjoin(dir, "/")
  }

  /** The `readdir` predicate (src/archive.js:134-137) on a key. */
  predicate Listed(prefix: string, key: string)
    requires prefix != []
  {
    var ss := IndexOfFrom(key, "/", |prefix|);
    IndexOf(key, prefix) == 0 && key != prefix && (ss == -1 || ss == |key| - 1)
  }

  /**
    The `readdir` predicate accepts exactly the keys that extend the prefix
    and have no '/' after it, except possibly as their last character.
  */
  lemma ListedIff(prefix: string, key: string)
    requires prefix != []
    ensures Listed(prefix, key) <==>
      && |prefix| < |key| && key[..|prefix|] == prefix
      && forall j :: |prefix| <= j < |key| - 1 ==> key[j] != '/'
  {
    var ss := IndexOfFrom(key, "/", |prefix|);
    if |prefix| < |key| && key[..|prefix|] == prefix && forall j :: |prefix| <= j < |key| - 1 ==> key[j] != '/' {
      assert OccursAt(key, prefix, 0);
      if ss != -1 {
        assert key[ss..ss + 1] == "/";
        assert key[ss] == '/';
      }
    }
    if Listed(prefix, key) {
      assert OccursAt(key, prefix, 0);
      forall j | |prefix| <= j < |key| - 1
        ensures key[j] != '/'
      {
        if key[j] == '/' {
          assert key[j..j + 1] == "/";
          assert OccursAt(key, "/", j);
        }
      }
    }
  }

  /** A key two or more levels below the prefix is never listed. */
  lemma DeeperNotListed(prefix: string, a: string, b: string)
    requires prefix != [] && b != []
    ensures !Listed(prefix, prefix + a + "/" + b)
  {
    var key := prefix + a + "/" + b;
    ListedIff(prefix, key);
    assert key[|prefix| + |a|] == '/';
  }

  /** `readdir`'s filter predicate, for the prefix of `dir`. */
  function ChildOf(prefix: string): (string, Entry) -> bool
    requires prefix != []
  {
    (key: string, e: Entry) => Listed(prefix, key)
  }

  /** `xs.map(f)`, built from the back as `Selected` is. */
  function Mapped<T>(f: T -> string, xs: seq<T>): (r: seq<string>)
    ensures |r| == |xs|
    ensures forall i :: 0 <= i < |xs| ==> r[i] == f(xs[i])
  {
    if xs == [] then []
    else
      var init := xs[..|xs| - 1];
      var rest := Mapped(f, init);
      var r := rest + [f(xs[|xs| - 1])];
      assert forall i :: 0 <= i < |init| ==> r[i] == rest[i] && init[i] == xs[i];
      r
  }

  /** The base names of the entries' names (`files.map(file => path.basename(file.name))`). */
  function Basenames(es: seq<Entry>): (r: seq<string>)
    ensures |r| == |es|
    ensures forall i :: 0 <= i < |es| ==> r[i] == Basename(es[i].name)
  {
    Mapped((e: Entry) => Basename(e.name), es)
  }

  /** `readdir(dir)` (src/archive.js:131-144). */
  function ListDir(idx: Index, dir: string): seq<string>
    requires forall i :: 0 <= i < |idx.order| ==> idx.order[i] in idx.files
  {
    Basenames(Selected(idx.order, idx.files, ChildOf(DirPrefix(dir))))
  }

  /** The keys of `keys` that `readdir` lists under `prefix`, in order. */
  function ListedKeys(keys: seq<string>, prefix: string): (r: seq<string>)
    requires prefix != []
    ensures forall k :: k in r <==> k in keys && Listed(prefix, k)
  {
    if keys == [] then []
    else
      var k := keys[|keys| - 1];
      var init := ListedKeys(keys[..|keys| - 1], prefix);
      assert keys == keys[..|keys| - 1] + [k];
      if Listed(prefix, k) then init + [k] else init
  }

  /** Stored under a key, an entry has the key's base name (a directory's alias drops only the '/'). */
  lemma KeyBasename(e: Entry, k: string)
    requires WellFormed(e) && k in KeysOf(e)
    ensures Basename(e.name) == Basename(k)
  {
    if e.dir && k != e.name {
      assert e.name == DirAlias(e.name) + "/";
      BasenameTrailingSlash(DirAlias(e.name));
    }
  }

  /** The base names of keys. */
  function KeyNames(keys: seq<string>): (r: seq<string>)
    ensures |r| == |keys|
    ensures forall i :: 0 <= i < |keys| ==> r[i] == Basename(keys[i])
  {
    Mapped(Basename, keys)
  }

  /** Appending an entry and a key with the same base name keeps the two name lists equal. */
  lemma NamesSnoc(sel: seq<Entry>, lk: seq<string>, e: Entry, k: string)
    requires Basenames(sel) == KeyNames(lk)
    requires Basename(e.name) == Basename(k)
    ensures Basenames(sel + [e]) == KeyNames(lk + [k])
  {
    var a := Basenames(sel + [e]);
    var b := KeyNames(lk + [k]);
    assert |sel| == |lk|;
    forall i | 0 <= i < |a|
      ensures a[i] == b[i]
    {
      if i < |sel| {
        assert (sel + [e])[i] == sel[i] && (lk + [k])[i] == lk[i];
        assert Basenames(sel)[i] == KeyNames(lk)[i];
      }
    }
  }

  lemma {:induction false} SelectedNames(keys: seq<string>, files: map<string, Entry>, prefix: string)
    requires prefix != []
    requires forall i :: 0 <= i < |keys| ==> keys[i] in files
    requires forall i :: 0 <= i < |keys| ==> WellFormed(files[keys[i]]) && keys[i] in KeysOf(files[keys[i]])
    ensures Basenames(Selected(keys, files, ChildOf(prefix))) == KeyNames(ListedKeys(keys, prefix))
    decreases |keys|
  {
    if keys != [] {
      var init := keys[..|keys| - 1];
      var k := keys[|keys| - 1];
      SelectedNames(init, files, prefix);
      KeyBasename(files[k], k);
      var sel := Selected(init, files, ChildOf(prefix));
      var lk := ListedKeys(init, prefix);
      if Listed(prefix, k) {
        assert Selected(keys, files, ChildOf(prefix)) == sel + [files[k]];
        assert ListedKeys(keys, prefix) == lk + [k];
        NamesSnoc(sel, lk, files[k], k);
      } else {
        assert Selected(keys, files, ChildOf(prefix)) == sel;
        assert ListedKeys(keys, prefix) == lk;
      }
    }
  }

  /**
    `readdir(dir)` returns, in index order, the base names of exactly the
    keys the `readdir` predicate accepts; a subdirectory's two keys give its
    name twice.
  */
  lemma ListDirIsListedKeys(idx: Index, dir: string)
    requires Valid(idx) && AllWellFormed(idx)
    ensures ListDir(idx, dir) == KeyNames(ListedKeys(idx.order, DirPrefix(dir)))
  {
    forall i | 0 <= i < |idx.order|
      ensures WellFormed(idx.files[idx.order[i]]) && idx.order[i] in KeysOf(idx.files[idx.order[i]])
    {
    }
    SelectedNames(idx.order, idx.files, DirPrefix(dir));
  }

  /** The prefix of "a" is "a/". */
  lemma PrefixOfPlainName()
    ensures DirPrefix("a") == "a/"
  {
    SplitNoSlash("a");
    DirPrefixPlain("a");
  }

  /** Both keys of the directory "a/c/" are children of "a/". */
  lemma AliasKeysListed()
    ensures Listed("a/", "a/c") && Listed("a/", "a/c/")
  {
    ListedIff("a/", "a/c");
    ListedIff("a/", "a/c/");
  }

  lemma BasenameOfDirectory()
    ensures Basename("a/c/") == "c"
  {
    BasenameOfChild("a/", "c");
    assert "a/c/" == "a/" + "c" + "/";
  }

  /** Registering the directory "a/c/" stores it under "a/c" and then "a/c/". */
  lemma AliasIndex(e: Entry)
    requires e.name == "a/c/" && e.dir
    ensures Register(EMPTY, e) == Index(["a/c", "a/c/"], map["a/c" := e, "a/c/" := e])
  {
    assert DirAlias("a/c/") == "a/c";
  }

  /** The `readdir` filter of "a" keeps both keys of "a/c/". */
  lemma AliasSelected(e: Entry)
    ensures Selected(["a/c", "a/c/"], map["a/c" := e, "a/c/" := e], ChildOf("a/")) == [e, e]
  {
    var order: seq<string> := ["a/c", "a/c/"];
    var files := map["a/c" := e, "a/c/" := e];
    AliasKeysListed();
    var first := order[..1];
    assert first == ["a/c"] && first[..0] == [];
    assert Selected(first, files, ChildOf("a/")) == [e];
  }

  /** Mapping over two copies of an element gives two copies of its image. */
  lemma MappedTwice<T>(f: T -> string, x: T)
    ensures Mapped(f, [x, x]) == [f(x), f(x)]
  {
    var r := Mapped(f, [x, x]);
    assert r[0] == f(x) && r[1] == f(x);
  }

  /**
    `readdir` does not list a subdirectory once: an archive holding only the
    directory "a/c/" lists "c" under "a" twice, once for each of its keys.
  */
  lemma ReaddirListsAliasTwice()
    ensures ListDir(Register(EMPTY, Entry("a/c/", 0, 0, 0, 0, true)), "a") == ["c", "c"]
  {
    var e := Entry("a/c/", 0, 0, 0, 0, true);
    AliasIndex(e);
    PrefixOfPlainName();
    AliasSelected(e);
    BasenameOfDirectory();
    MappedTwice((e: Entry) => Basename(e.name), e);
  }
}
