/**
  The in-memory index `this.files` of an archive (src/archive.js:36,
  193-206) and the central directory walk that builds it
  (src/archive.js:227-233), as values.
*/
module ZipIndex {
  import opened Wrappers
  import opened Bytes
  import opened ZipRecords

  /**
    `this.files`: its keys in the order JavaScript enumerates them (the order
    of first insertion; writing an existing key again keeps its place) and
    the entry stored under each.
  */
  datatype Index = Index(order: seq<string>, files: map<string, Entry>)

  const EMPTY: Index := Index([], map[])

  /** `name.substr(0, name.length - 1)`: a directory name without its trailing '/'. */
  function DirAlias(name: string): (r: string)
    ensures name != [] ==> name == r + [name[|name| - 1]]
    ensures name == [] ==> r == []
  {
    if name == [] then [] else name[..|name| - 1]
  }

  /** The directory flag of an entry says whether its name ends in '/'. */
  predicate WellFormed(e: Entry)
  {
    e.dir == EndsWithSlash(e.name)
  }

  /** The keys an entry is stored under: its name, and for a directory the name without the '/'. */
  function KeysOf(e: Entry): set<string>
  {
    if e.dir then {e.name, DirAlias(e.name)} else {e.name}
  }

  /**
    The index invariant: every key is listed once in `order`, exactly the
    keys of `files` are listed, and each key is the name of its entry or,
    for a directory entry, that name without the trailing '/'.
  */
  ghost predicate Valid(idx: Index)
  {
    && (forall i, j :: 0 <= i < j < |idx.order| ==> idx.order[i] != idx.order[j])
    && (forall i :: 0 <= i < |idx.order| ==> idx.order[i] in idx.files)
    && (forall k :: k in idx.files ==> k in idx.order)
    && (forall k :: k in idx.files ==> k in KeysOf(idx.files[k]))
  }

  /** `this.files[k] = e`. */
  function Put(idx: Index, k: string, e: Entry): (r: Index)
    ensures r.files == idx.files[k := e]
    ensures |idx.order| <= |r.order| && r.order[..|idx.order|] == idx.order
  {
    Index(if k in idx.files then idx.order else idx.order + [k], idx.files[k := e])
  }

  lemma PutValid(idx: Index, k: string, e: Entry)
    requires Valid(idx) && k in KeysOf(e)
    ensures Valid(Put(idx, k, e))
  {
    var r := Put(idx, k, e);
    if k !in idx.files {
      assert k !in idx.order;
      assert r.order == idx.order + [k];
      forall i, j | 0 <= i < j < |r.order|
        ensures r.order[i] != r.order[j]
      {
        if j == |idx.order| {
          assert r.order[i] == idx.order[i];
        }
      }
    }
  }

  /**
    The index update of `_readCDEntry` (src/archive.js:200-204): a directory
    is stored first under its name without the '/', then under its name;
    any other entry under its name only.
  */
  function Register(idx: Index, e: Entry): Index
  {
    var first := if e.dir then Put(idx, DirAlias(e.name), e) else idx;
    Put(first, e.name, e)
  }

  /**
    Registering adds exactly the entry's keys, each mapped to the entry,
    leaves every other key as it was, and only appends to the key order:
    for a new directory its alias and then its name, for a new file its
    name, and nothing for keys already present.
  */
  lemma RegisterFacts(idx: Index, e: Entry)
    ensures var r := Register(idx, e);
      && r.files.Keys == idx.files.Keys + KeysOf(e)
      && (forall k :: k in KeysOf(e) ==> r.files[k] == e)
      && (forall k :: k in idx.files && k !in KeysOf(e) ==> r.files[k] == idx.files[k])
      && |idx.order| <= |r.order| && r.order[..|idx.order|] == idx.order
    ensures e.dir && e.name != [] && DirAlias(e.name) !in idx.files && e.name !in idx.files ==>
      Register(idx, e).order == idx.order + [DirAlias(e.name), e.name]
    ensures !e.dir && e.name !in idx.files ==> Register(idx, e).order == idx.order + [e.name]
    ensures KeysOf(e) <= idx.files.Keys ==> Register(idx, e).order == idx.order
  {
    if e.dir && e.name != [] {
      assert |DirAlias(e.name)| < |e.name|;
    }
  }

  /** Registering an entry keeps the index invariant. */
  lemma RegisterValid(idx: Index, e: Entry)
    requires Valid(idx)
    ensures Valid(Register(idx, e))
  {
    if e.dir {
      PutValid(idx, DirAlias(e.name), e);
      PutValid(Put(idx, DirAlias(e.name), e), e.name, e);
    } else {
      PutValid(idx, e.name, e);
    }
  }

  /**
    Reads one record of a table: the entry at an offset and the number of
    bytes the record takes. The archive's parser is `ParseCentralHeader`; the
    walk and its lemmas hold for any parser.
  */
  type RecordParser = (seq<byte>, nat) -> Result<(Entry, nat), Error>

  /**
    `_loadCD` from a given point on (src/archive.js:229-232): `remaining`
    more records, the next one at `off`, each registered as it is parsed.
  */
  function Walk(parse: RecordParser, cd: seq<byte>, remaining: nat, off: nat, idx: Index): (r: Result<Index, Error>)
    decreases remaining
  {
    if remaining == 0 then Success(idx)
    else
      match parse(cd, off)
      case Failure(err) => Failure(err)
      case Success((entry, size)) => Walk(parse, cd, remaining - 1, off + size, Register(idx, entry))
  }

  /** One step of the walk: the record at `off` fails it or is registered before the rest. */
  lemma WalkStep(parse: RecordParser, cd: seq<byte>, remaining: nat, off: nat, idx: Index)
    requires remaining > 0
    ensures parse(cd, off).Failure? ==> Walk(parse, cd, remaining, off, idx) == Failure(parse(cd, off).error)
    ensures parse(cd, off).Success? ==>
      Walk(parse, cd, remaining, off, idx)
      == Walk(parse, cd, remaining - 1, off + parse(cd, off).value.1, Register(idx, parse(cd, off).value.0))
  {
  }

  // ---------------------------------------------------------------------------
  // The walk as a list of records

  /** A parsed record: its entry, where it starts in the table, and how many bytes it takes. */
  datatype Located = Located(entry: Entry, start: nat, size: nat)

  /** The `n` records that follow one another from `off`, or the first error. */
  function Records(parse: RecordParser, cd: seq<byte>, n: nat, off: nat): (r: Result<seq<Located>, Error>)
    ensures r.Success? ==> |r.value| == n
    decreases n
  {
    if n == 0 then Success([])
    else
      match parse(cd, off)
      case Failure(err) => Failure(err)
      case Success((entry, size)) =>
        match Records(parse, cd, n - 1, off + size)
        case Failure(err) => Failure(err)
        case Success(rest) => Success([Located(entry, off, size)] + rest)
  }

  function SumSizes(rs: seq<Located>): nat
  {
    if rs == [] then 0 else rs[0].size + SumSizes(rs[1..])
  }

  /** Registering the entries of the records one after the other. */
  function Fold(idx: Index, rs: seq<Located>): Index
    decreases |rs|
  {
    if rs == [] then idx else Fold(Register(idx, rs[0].entry), rs[1..])
  }

  lemma FoldCons(idx: Index, x: Located, rest: seq<Located>)
    ensures Fold(idx, [x] + rest) == Fold(Register(idx, x.entry), rest)
  {
    assert ([x] + rest)[1..] == rest;
  }

  /** The walk fails, with the same error, exactly where parsing the records fails. */
  lemma {:induction false} WalkFails(parse: RecordParser, cd: seq<byte>, n: nat, off: nat, idx: Index)
    requires Records(parse, cd, n, off).Failure?
    ensures Walk(parse, cd, n, off, idx) == Failure(Records(parse, cd, n, off).error)
    decreases n
  {
    if parse(cd, off).Success? {
      var (entry, size) := parse(cd, off).value;
      WalkFails(parse, cd, n - 1, off + size, Register(idx, entry));
    }
  }

  /**
    When all `n` records parse, the walk registers their entries in order.
  */
  lemma {:induction false} WalkIsFold(parse: RecordParser, cd: seq<byte>, n: nat, off: nat, idx: Index)
    requires Records(parse, cd, n, off).Success?
    ensures Walk(parse, cd, n, off, idx) == Success(Fold(idx, Records(parse, cd, n, off).value))
    decreases n
  {
    if n > 0 {
      var (entry, size) := parse(cd, off).value;
      var rest := Records(parse, cd, n - 1, off + size).value;
      WalkIsFold(parse, cd, n - 1, off + size, Register(idx, entry));
      FoldCons(idx, Located(entry, off, size), rest);
    }
  }

  /** Registering records one after the other keeps the index invariant. */
  lemma {:induction false} FoldValid(idx: Index, rs: seq<Located>)
    requires Valid(idx)
    ensures Valid(Fold(idx, rs))
    decreases |rs|
  {
    if rs != [] {
      RegisterValid(idx, rs[0].entry);
      FoldValid(Register(idx, rs[0].entry), rs[1..]);
    }
  }

  /** The walk keeps the index invariant. */
  lemma WalkValid(parse: RecordParser, cd: seq<byte>, n: nat, off: nat, idx: Index)
    ensures Valid(idx) && Walk(parse, cd, n, off, idx).Success? ==> Valid(Walk(parse, cd, n, off, idx).value)
  {
    if !Valid(idx) {
    } else if Records(parse, cd, n, off).Failure? {
      WalkFails(parse, cd, n, off, idx);
    } else {
      WalkIsFold(parse, cd, n, off, idx);
      FoldValid(idx, Records(parse, cd, n, off).value);
    }
  }

  /** Every stored entry's directory flag agrees with its name. */
  ghost predicate AllWellFormed(idx: Index)
  {
    forall k :: k in idx.files ==> WellFormed(idx.files[k])
  }

  /** Registering well-formed records keeps every stored entry well-formed. */
  lemma {:induction false} FoldWellFormed(idx: Index, rs: seq<Located>)
    requires AllWellFormed(idx)
    requires forall i :: 0 <= i < |rs| ==> WellFormed(rs[i].entry)
    ensures AllWellFormed(Fold(idx, rs))
    decreases |rs|
  {
    if rs != [] {
      RegisterFacts(idx, rs[0].entry);
      FoldWellFormed(Register(idx, rs[0].entry), rs[1..]);
    }
  }

  /**
    Record i starts where the records before it end: at `off` plus the sum of
    their sizes, and parsing there gives the recorded entry and size.
  */
  lemma {:induction false} RecordsLayout(parse: RecordParser, cd: seq<byte>, n: nat, off: nat)
    requires Records(parse, cd, n, off).Success?
    ensures var rs := Records(parse, cd, n, off).value;
      forall i :: 0 <= i < n ==>
        && rs[i].start == off + SumSizes(rs[..i])
        && parse(cd, rs[i].start) == Success((rs[i].entry, rs[i].size))
    decreases n
  {
    if n > 0 {
      var rs := Records(parse, cd, n, off).value;
      var (entry, size) := parse(cd, off).value;
      var rest := Records(parse, cd, n - 1, off + size).value;
      RecordsLayout(parse, cd, n - 1, off + size);
      assert rs == [Located(entry, off, size)] + rest;
      forall i | 0 <= i < n
        ensures rs[i].start == off + SumSizes(rs[..i])
        ensures parse(cd, rs[i].start) == Success((rs[i].entry, rs[i].size))
      {
        if i == 0 {
          assert rs[..0] == [];
        } else {
          assert rs[i] == rest[i - 1];
          assert rs[..i][1..] == rest[..i - 1];
        }
      }
    }
  }

  /** The keys of the records' entries. */
  function AllKeys(rs: seq<Located>): set<string>
  {
    if rs == [] then {} else KeysOf(rs[0].entry) + AllKeys(rs[1..])
  }

  /** Folding records in adds exactly their keys. */
  lemma {:induction false} FoldKeys(idx: Index, rs: seq<Located>)
    ensures Fold(idx, rs).files.Keys == idx.files.Keys + AllKeys(rs)
    decreases |rs|
  {
    if rs != [] {
      RegisterFacts(idx, rs[0].entry);
      FoldKeys(Register(idx, rs[0].entry), rs[1..]);
    }
  }

  /** A key holds the entry of the last record stored under it. */
  lemma {:induction false} FoldLastWins(idx: Index, rs: seq<Located>, i: nat, k: string)
    requires i < |rs| && k in KeysOf(rs[i].entry)
    requires forall j :: i < j < |rs| ==> k !in KeysOf(rs[j].entry)
    ensures k in Fold(idx, rs).files && Fold(idx, rs).files[k] == rs[i].entry
    decreases |rs|
  {
    var next := Register(idx, rs[0].entry);
    RegisterFacts(idx, rs[0].entry);
    if i == 0 {
      FoldUntouched(next, rs[1..], k);
    } else {
      FoldLastWins(next, rs[1..], i - 1, k);
    }
  }

  /** Records that do not name a key leave it as it was. */
  lemma {:induction false} FoldUntouched(idx: Index, rs: seq<Located>, k: string)
    requires k in idx.files
    requires forall j :: 0 <= j < |rs| ==> k !in KeysOf(rs[j].entry)
    ensures k in Fold(idx, rs).files && Fold(idx, rs).files[k] == idx.files[k]
    decreases |rs|
  {
    if rs != [] {
      RegisterFacts(idx, rs[0].entry);
      FoldUntouched(Register(idx, rs[0].entry), rs[1..], k);
    }
  }
}
