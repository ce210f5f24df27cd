/**
  The path logic of the module loader hooks (src/zip-parse.js): splitting a
  path at its container, the cache of open archives, and the first-match
  search for a module file inside an archive.
*/
module ZipParse {
  import opened Wrappers
  import opened Bytes
  import opened Paths
  import opened ZipRecords
  import opened ZipIndex
  import opened ZipAccess
  import opened ZipArchive

  /** The marker a container path is recognised by. */
  const ZIP: string := ".zip"

  // ---------------------------------------------------------------------------
  // parseZipPath

  /** A path split into the container file and the entry inside it. */
  datatype ZipPath = ZipPath(zip: string, entry: string)

  /**
    `parseZipPath(path)` (src/zip-parse.js:34-44): split after the first
    ".zip" and drop the one character that follows it, whatever it is; None
    stands for `false`.
  */
  function ParseZipPath(p: string): (r: Option<ZipPath>)
    ensures r.None? <==> forall j: nat :: !OccursAt(p, ZIP, j)
    ensures r.Some? ==> '\\' !in r.value.zip && '\\' !in r.value.entry
  {
    var i := IndexOf(p, ZIP);
    if i == -1 then None
    else Some(ZipPath(Znorm(p[..i + 4]), Znorm(p[Min(i + 5, |p|)..])))
  }

  /** Normalization neither makes nor breaks an occurrence of ".zip". */
  lemma ZnormOccurs(s: string, j: nat)
    ensures OccursAt(Znorm(s), ZIP, j) <==> OccursAt(s, ZIP, j)
  {
    var z := Znorm(s);
    if j + 4 <= |s| {
      if OccursAt(s, ZIP, j) {
        forall k | 0 <= k < 4
          ensures z[j + k] == ZIP[k]
        {
          assert s[j..j + 4][k] == s[j + k];
        }
        assert z[j..j + 4] == ZIP;
      }
      if OccursAt(z, ZIP, j) {
        forall k | 0 <= k < 4
          ensures s[j + k] == ZIP[k]
        {
          assert z[j..j + 4][k] == z[j + k];
        }
        assert s[j..j + 4] == ZIP;
      }
    }
  }

  /**
    The split is made at the first ".zip": the container part is the
    normalized path up to and including it, the entry part the normalized
    rest after the character that follows it.
  */
  lemma ParseZipPathAt(p: string, i: nat)
    requires OccursAt(p, ZIP, i)
    requires forall j: nat :: j < i ==> !OccursAt(p, ZIP, j)
    ensures ParseZipPath(p) == Some(ZipPath(Znorm(p[..i + 4]), Znorm(p[Min(i + 5, |p|)..])))
  {
  }

  /** The prefix that ends with the first ".zip" holds no earlier one, before or after normalization. */
  lemma FirstZipPrefix(p: string, i: nat)
    requires OccursAt(p, ZIP, i)
    requires forall j: nat :: j < i ==> !OccursAt(p, ZIP, j)
    ensures var zip := Znorm(p[..i + 4]);
      && OccursAt(zip, ZIP, i)
      && forall j: nat :: j < i ==> !OccursAt(zip, ZIP, j)
  {
    var s := p[..i + 4];
    assert s[i..i + 4] == p[i..i + 4];
    ZnormOccurs(s, i);
    forall j: nat | j < i
      ensures !OccursAt(Znorm(s), ZIP, j)
    {
      ZnormOccurs(s, j);
      if j + 4 <= |s| {
        assert s[j..j + 4] == p[j..j + 4];
      }
      assert !OccursAt(p, ZIP, j);
    }
  }

  /**
    The container part ends in ".zip", holds no earlier ".zip", and parses
    back to itself with an empty entry.
  */
  lemma ParseZipPathContainer(p: string)
    requires ParseZipPath(p).Some?
    ensures var zip := ParseZipPath(p).value.zip;
      && |zip| >= 4 && zip[|zip| - 4..] == ZIP
      && (forall j: nat :: j < |zip| - 4 ==> !OccursAt(zip, ZIP, j))
      && ParseZipPath(zip) == Some(ZipPath(zip, []))
  {
    var i := IndexOf(p, ZIP);
    var zip := Znorm(p[..i + 4]);
    FirstZipPrefix(p, i);
    ParseZipPathAt(zip, i);
    ZnormFixed(zip);
    assert zip[..i + 4] == zip;
  }

  /** ".zip" cannot begin inside ".zip" followed by anything: its '.' would have to match "zip". */
  lemma FirstZipAfter(a: string, c: char, b: string)
    requires forall j: nat :: !OccursAt(a, ZIP, j)
    ensures var p := a + ZIP + [c] + b;
      && OccursAt(p, ZIP, |a|)
      && forall j: nat :: j < |a| ==> !OccursAt(p, ZIP, j)
  {
    var p := a + ZIP + [c] + b;
    assert p[|a|..|a| + 4] == ZIP;
    forall j: nat | j < |a|
      ensures !OccursAt(p, ZIP, j)
    {
      if j + 4 <= |a| {
        assert p[j..j + 4] == a[j..j + 4];
        assert !OccursAt(a, ZIP, j);
      } else {
        assert p[j..j + 4][|a| - j] == '.';
      }
    }
  }

  /**
    A container path without ".zip" before its end, one separator and an
    entry path parse back into that container and that entry.
  */
  lemma ParseZipPathCompose(a: string, c: char, b: string)
    requires forall j: nat :: !OccursAt(a, ZIP, j)
    requires '\\' !in a && '\\' !in b
    ensures ParseZipPath(a + ZIP + [c] + b) == Some(ZipPath(a + ZIP, b))
  {
    var p := a + ZIP + [c] + b;
    FirstZipAfter(a, c, b);
    ParseZipPathAt(p, |a|);
    assert p[..|a| + 4] == a + ZIP;
    assert p[|a| + 5..] == b;
    ZnormFixed(a + ZIP);
    ZnormFixed(b);
  }

  // ---------------------------------------------------------------------------
  // getZip

  /** `ZIP_CACHE` (src/zip-parse.js:18): the archives opened so far, by normalized path. */
  class ZipCache {
    /** The container files the host holds, by path. */
    const disk: map<string, seq<byte>>
    var cache: map<string, Archive>

    /** Each cached archive was opened on the file at its own key, and holds the index opening it built. */
    ghost predicate Valid()
      reads this, cache.Values
    {
      forall k :: k in cache ==>
        && k in disk && cache[k].path == k && cache[k].data == disk[k]
        && LoadIndex(disk[k]).Success? && cache[k].Snapshot() == LoadIndex(disk[k]).value
    }

    constructor (disk: map<string, seq<byte>>)
      ensures this.disk == disk && cache == map[] && Valid()
    {
      this.disk := disk;
      cache := map[];
    }

    /**
      `getZip(path)` (src/zip-parse.js:21-32): the archive cached under the
      normalized path, or a new one opened there and cached only once its
      construction succeeded.
    */
    method GetZip(p: string) returns (r: Result<Archive, Error>)
      requires Valid()
      modifies this
      ensures Valid()
      ensures var key := Znorm(p);
        && (key in old(cache) ==> r == Success(old(cache)[key]) && cache == old(cache))
        && (key !in old(cache) && key !in disk ==> r == Failure(NoSuchFile) && cache == old(cache))
        && (key !in old(cache) && key in disk && LoadIndex(disk[key]).Failure? ==>
              r == Failure(LoadIndex(disk[key]).error) && cache == old(cache))
        && (key !in old(cache) && key in disk && LoadIndex(disk[key]).Success? ==>
              && r.Success? && fresh(r.value)
              && r.value.Snapshot() == LoadIndex(disk[key]).value
              && cache == old(cache)[key := r.value])
      ensures r.Success? ==>
        var key := Znorm(p);
        && key in cache && cache[key] == r.value && r.value.path == key && r.value.data == disk[key]
        && r.value.Snapshot() == LoadIndex(disk[key]).value && r.value.Valid()
    {
      var key := Znorm(p);
      if key in cache {
        return Success(cache[key]);
      }
      if key !in disk {
        return Failure(NoSuchFile);
      }
      var zip := Archive.Open(key, disk[key]);
      if zip.Failure? {
        return zip;
      }
      cache := cache[key := zip.value];
      return zip;
    }
  }

  // ---------------------------------------------------------------------------
  // tryFile, tryExtensions, tryPackage

  /**
    `tryFile(zip, entry)` (src/zip-parse.js:75-84): the real path of an
    entry that is a file. A name the archive lacks gets the host's boolean,
    which is either false or has no `isDirectory` to call, and the throw is
    swallowed; a directory gives false too.
  */
  function TryFile(zip: Archive, entry: string): (r: Option<string>)
    reads zip
    ensures r.Some? <==> entry in zip.files && !zip.files[entry].dir
    ensures r.Some? ==> r.value == zip.RealpathSync(entry) && r.value != []
  {
    var stat := StatOf(zip.Snapshot(), entry);
    if stat.EntryStat? && !stat.IsDirectory() then Some(zip.RealpathSync(entry)) else None
  }

  /**
    `tryFile` as written, where `statSync` trusts `exists`: a name inherited
    from `Object.prototype` yields a stat whose `dir` is undefined, so it
    passes for a file.
  */
  function TryFileAsWritten(idx: Index, root: string, entry: string): (r: Option<string>)
    ensures entry !in INHERITED ==> (r.Some? <==> entry in idx.files && !idx.files[entry].dir)
  {
    if !ExistsAsWritten(idx, entry) then None
    else if entry in idx.files && idx.files[entry].dir then None
    else Some(Zjoin(root, entry))
  }

  /** In an archive with no entries, `tryFile` as written finds "toString". */
  lemma TryFileAsWrittenOnEmpty(root: string)
    ensures TryFileAsWritten(EMPTY, root, "toString").Some?
  {
    ExistsAsWrittenOnEmpty();
  }

  /** The first candidate `tryFile` finds, or None. */
  function FirstHit(zip: Archive, candidates: seq<string>): (r: Option<string>)
    reads zip
    decreases |candidates|
  {
    if candidates == [] then None
    else
      var hit := TryFile(zip, candidates[0]);
      if hit.Some? then hit else FirstHit(zip, candidates[1..])
  }

  /**
    FirstHit finds nothing exactly when no candidate is a file, and otherwise
    what `tryFile` gives for a candidate that every earlier one misses.
  */
  lemma {:induction false} FirstHitIsFirst(zip: Archive, candidates: seq<string>)
    ensures FirstHit(zip, candidates).None? <==>
      forall i :: 0 <= i < |candidates| ==> TryFile(zip, candidates[i]).None?
    ensures FirstHit(zip, candidates).Some? ==>
      exists i :: 0 <= i < |candidates| && FirstHit(zip, candidates) == TryFile(zip, candidates[i])
        && forall j :: 0 <= j < i ==> TryFile(zip, candidates[j]).None?
    decreases |candidates|
  {
    if candidates != [] {
      var rest := candidates[1..];
      FirstHitIsFirst(zip, rest);
      if TryFile(zip, candidates[0]).None? {
        forall i | 0 <= i < |rest|
          ensures rest[i] == candidates[i + 1]
        {
        }
        if FirstHit(zip, rest).Some? {
          var i :| 0 <= i < |rest| && FirstHit(zip, rest) == TryFile(zip, rest[i])
            && forall j :: 0 <= j < i ==> TryFile(zip, rest[j]).None?;
          assert FirstHit(zip, candidates) == TryFile(zip, candidates[i + 1]);
          forall j | 0 <= j < i + 1
            ensures TryFile(zip, candidates[j]).None?
          {
            if j > 0 {
              assert candidates[j] == rest[j - 1];
            }
          }
        } else {
          forall i | 0 <= i < |candidates|
            ensures TryFile(zip, candidates[i]).None?
          {
            if i > 0 {
              assert candidates[i] == rest[i - 1];
            }
          }
        }
      }
    }
  }

  /** Searching `a + b` searches `a` first and `b` only when nothing in `a` is a file. */
  lemma {:induction false} FirstHitAppend(zip: Archive, a: seq<string>, b: seq<string>)
    ensures FirstHit(zip, a + b) == if FirstHit(zip, a).Some? then FirstHit(zip, a) else FirstHit(zip, b)
    decreases |a|
  {
    if a == [] {
      assert a + b == b;
    } else {
      assert (a + b)[0] == a[0];
      assert (a + b)[1..] == a[1..] + b;
      FirstHitAppend(zip, a[1..], b);
    }
  }

  /** `entry + exts[i]` for every extension, in list order. */
  function WithExtensions(entry: string, exts: seq<string>): (r: seq<string>)
    ensures |r| == |exts|
    ensures forall i :: 0 <= i < |exts| ==> r[i] == entry + exts[i]
  {
    seq(|exts|, i requires 0 <= i < |exts| => entry + exts[i])
  }

  /**
    `tryExtensions(zip, entry, exts)` (src/zip-parse.js:86-94): the first
    `entry + ext` that is a file, trying the extensions in list order.
  */
  method TryExtensions(zip: Archive, entry: string, exts: seq<string>) returns (r: Option<string>)
    ensures r == FirstHit(zip, WithExtensions(entry, exts))
  {
    ghost var names := WithExtensions(entry, exts);
    var i := 0;
    while i < |exts|
      invariant 0 <= i <= |exts|
      invariant FirstHit(zip, names) == FirstHit(zip, names[i..])
    {
      var filename := TryFile(zip, entry + exts[i]);
      assert names[i..][0] == entry + exts[i];
      assert names[i..][1..] == names[i + 1..];
      if filename.Some? {
        return filename;
      }
      i := i + 1;
    }
    return None;
  }

  /**
    The candidates `tryPackage` tries for a package whose `main` is `main`:
    none when there is no main or it is empty; otherwise `entry/main`, then
    it with each extension, then `entry/main/index` with each extension.
  */
  function PackageCandidates(entry: string, main: Option<string>, exts: seq<string>): (r: seq<string>)
    ensures main.None? || main.value == [] ==> r == []
    ensures main.Some? && main.value != [] ==>
      var filename := Zjoin(entry, main.value);
      r == MainCandidates(filename, Zjoin(filename, "index"), exts)
  {
    if main.None? || main.value == [] then []
    else
      var filename := Zjoin(entry, main.value);
      MainCandidates(filename, Zjoin(filename, "index"), exts)
  }

  /**
    The candidates for a package whose main resolves to `filename`, in the
    order they are tried; `index` is `filename/index`.
  */
  function MainCandidates(filename: string, index: string, exts: seq<string>): (r: seq<string>)
    ensures |r| == 1 + 2 * |exts| && r[0] == filename
    ensures forall i :: 0 <= i < |exts| ==> r[1 + i] == filename + exts[i]
    ensures forall i :: 0 <= i < |exts| ==> r[1 + |exts| + i] == index + exts[i]
  {
    [filename] + WithExtensions(filename, exts) + WithExtensions(index, exts)
  }

  /**
    `tryPackage(zip, entry, exts)` (src/zip-parse.js:96-103), with the
    package's `main` field as `readPackage` returns it: the first candidate
    that is a file.
  */
  method TryPackage(zip: Archive, entry: string, main: Option<string>, exts: seq<string>) returns (r: Option<string>)
    ensures r == FirstHit(zip, PackageCandidates(entry, main, exts))
  {
    if main.None? || main.value == [] {
      return None;
    }
    var filename := Zjoin(entry, main.value);
    ghost var first := [filename];
    ghost var plain := WithExtensions(filename, exts);
    ghost var index := WithExtensions(Zjoin(filename, "index"), exts);
    FirstHitAppend(zip, first + plain, index);
    FirstHitAppend(zip, first, plain);
    assert FirstHit(zip, first[1..]) == None;
    r := TryFile(zip, filename);
    if r.None? {
      r := TryExtensions(zip, filename, exts);
    }
    if r.None? {
      r := TryExtensions(zip, Zjoin(filename, "index"), exts);
    }
  }
}
