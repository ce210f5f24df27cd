# ZIP-backed module loading: a verified model

This project models the core of a small Node.js library that lets `require`
load modules from inside `.zip` files. The model has two parts.

**The archive reader (`src/archive.js`).** An `Archive` opens a container
file and reads its End of Central Directory record (section 4.3.16 of
PKWARE's APPNOTE.TXT). It then walks the central directory, one file header
at a time (section 4.3.12). Each file header becomes an entry in an
in-memory index, `this.files`. A directory `a/c/` is stored twice: first
under `a/c`, then under `a/c/`. The queries over the index are:

- `exists` / `existsSync`;
- `statSync`;
- `filter`;
- `readdir` / `readdirSync`, which return direct children only;
- `realpathSync`;
- `readFileSync`. It reads the local file header (section 4.3.7) to find
  where the data starts. It returns stored data (method 0) as it is,
  inflates deflated data (method 8), and throws on any other method.

**The path logic (`src/zip-parse.js`).** This part covers:

- `parseZipPath`, which splits `x.zip/entry` into its container and entry
  parts;
- `getZip` and its `ZIP_CACHE`, which hold one archive per normalised path;
- `tryFile`, `tryExtensions` and `tryPackage`, which try candidate file
  names in order and return the first that exists.

The modules follow the program's layers:

- `Wrappers`: the `Option` and `Result` types.
- `Bytes`: little-endian `readUIntLE` fields and their encoders. Also
  positioned reads into zero-filled buffers, and the byte-to-character
  decoding of names.
- `Paths`: `znorm`, a segment model of POSIX `path.join` (and so `zjoin`),
  `path.basename`, and `indexOf`.
- `ZipRecords`: the three record layouts, with their signatures, fields and
  error outcomes. Each record has an encoder, and the parser is proved to
  invert it.
- `ZipIndex`: the index as a value (insertion order plus a map). Also the
  directory alias rule, and the record walk of `_loadCD` as a function, both
  as a walk and as a fold over the parsed records.
- `ZipAccess`: the specification functions for the queries, including
  `readdir`'s filter. It also holds the finding about `exists`.
- `ZipArchive`: the `Archive` class. Its fields are updated in place, and
  every method is proved against the function that states its result:
  `ReadAt` and `Filled` for the reads, `ReadCentralDirectory` for `_getCD`,
  `Put`, `Register` and `Walk` for the index updates, and the functions of
  `ZipAccess` for the queries.
- `ZipParse`: `parseZipPath`, the `ZipCache` class standing for
  `ZIP_CACHE`, and the first-match lookups.

The file contents are a fixed byte sequence. A host file absent from the
archive is answered by the host, which the model records as `Host` or
`HostAnswer` results. `zlib.inflateRawSync` is a function parameter, and so
is `readPackage`, which is reduced to an optional `main` string.

## Model

| member | source | states |
|---|---|---|
| Paths.Znorm | src/archive.js:21-23 | the result has the input's length, holds no backslash, and maps each backslash to '/' and every other character to itself |
| Paths.ZnormIdempotent | src/archive.js:21-23 | applying `znorm` twice gives the same result as applying it once |
| Paths.ZnormFixed | src/archive.js:21-23 | a string without backslashes is left unchanged |
| Paths.Split | src/archive.js:25-27 | a path splits into at least one segment, and no segment contains '/' |
| Paths.Glue | src/archive.js:25-27 | joining segments with '/'; GlueSplit and SplitGlue prove it inverts `Split` |
| Paths.SplitConcat | src/archive.js:25-27 | splitting `a + "/" + b` gives the segments of `a` followed by those of `b` |
| Paths.SplitNoSlash | src/archive.js:25-27 | a string without '/' is a single segment |
| Paths.GlueSplit | src/archive.js:25-27 | joining the segments of a path with '/' gives the path back |
| Paths.GlueConcat | src/archive.js:25-27 | gluing two non-empty segment lists puts a '/' between their gluings |
| Paths.SplitGlue | src/archive.js:25-27 | splitting glued slash-free segments gives the segments back |
| Paths.Resolve | src/archive.js:25-27 | the resolved segments are non-empty, never ".", each is ".." or an input segment, and ".." survives only in a relative path |
| Paths.ResolveAppendPlain | src/archive.js:25-27 | resolving after appending plain segments appends them unchanged |
| Paths.Normalize | src/archive.js:25-27 | normalising never gives the empty string, keeps a trailing '/', and gives a leading '/' exactly when the input has one |
| Paths.PosixJoin | src/archive.js:25-27 | `path.join` is never empty and keeps the trailing '/' of its last argument |
| Paths.Zjoin | src/archive.js:25-27 | `zjoin` is never empty, holds no backslash, and keeps a trailing '/' of its second argument |
| Paths.SplitEdges | src/archive.js:25-27 | a leading or trailing '/' yields an empty first or last segment |
| Paths.PlainPathShape | src/archive.js:25-27 | a plain path is non-empty and neither starts nor ends with '/' |
| Paths.PlainConcat | src/archive.js:25-27 | two plain paths joined by '/' split into plain segments only |
| Paths.GluePlain | src/archive.js:25-27 | the plain segments of `a` and `b` glue back to `a/b` |
| Paths.ResolveRelativePlain | src/archive.js:25-27 | resolving a relative `a/b` of plain paths changes no segment |
| Paths.ResolveAbsolutePlain | src/archive.js:25-27 | resolving an absolute `/a/b` of plain paths changes no segment |
| Paths.NormalizeRelativePlain | src/archive.js:25-27 | `a/b` of plain paths is already normal |
| Paths.NormalizeAbsolutePlain | src/archive.js:25-27 | `/a/b` of plain paths is already normal |
| Paths.JoinPlain | src/archive.js:25-27 | `path.join(a, b)` of plain paths is `a/b` |
| Paths.JoinAbsolutePlain | src/archive.js:25-27 | `path.join("/a", b)` of plain paths is `/a/b` |
| Paths.SplitDoubleSlash | src/archive.js:25-27 | `d//` splits into the segments of `d` and two empty ones |
| Paths.ResolvePlainThenTwoEmpty | src/archive.js:25-27 | plain segments followed by two empty ones resolve to the plain segments |
| Paths.NormalizeDirPrefix | src/archive.js:132 | normalising `d//` for a plain `d` gives `d/` |
| Paths.DirPrefixPlain | src/archive.js:132 | `zjoin(d, '/')` for a plain `d` is `d/`, the prefix `readdir` filters on |
| Paths.StripTrailingSlashes | src/archive.js:140 | the result is a prefix without a trailing '/', and only '/' characters are removed |
| Paths.LastSegment | src/archive.js:140 | the result is the suffix after the last '/', and contains no '/' |
| Paths.Basename | src/archive.js:140 | `path.basename` contains no '/'; BasenameTrailingSlash and BasenameOfChild prove what it returns |
| Paths.BasenameTrailingSlash | src/archive.js:140 | `path.basename` ignores a trailing '/' |
| Paths.LastSegmentAfterSlash | src/archive.js:140 | after a '/', a slash-free suffix is the last segment |
| Paths.BasenameOfChild | src/archive.js:140 | the base name of `p + x` and of `p + x + "/"` is `x` |
| Paths.IndexOfFrom | src/archive.js:134 | the result is -1 or the first occurrence at or after `from` |
| Paths.IndexOf | src/zip-parse.js:35 | the result is -1 exactly when the pattern never occurs, and otherwise is its first occurrence |
| Bytes.U16 | src/archive.js:181-183 | a 2-byte little-endian field is below 2^16 |
| Bytes.U32 | src/archive.js:181-183 | a 4-byte little-endian field is below 2^32 |
| Bytes.LE16 | src/archive.js:181-183 | encoding gives 2 bytes that read back as the value |
| Bytes.LE32 | src/archive.js:181-183 | encoding gives 4 bytes that read back as the value |
| Bytes.LE32OfU32 | src/archive.js:181-183 | re-encoding a 4-byte field gives its bytes back |
| Bytes.U32Matches | src/archive.js:184 | a field equals a constant exactly when its bytes are the constant's encoding |
| Bytes.U16Window | src/archive.js:211-222 | a field of a buffer copied from the file equals the field at the matching file position |
| Bytes.U32Window | src/archive.js:211-222 | a field of a buffer copied from the file equals the field at the matching file position |
| Bytes.Zeros | src/archive.js:47 | a new buffer of `n` bytes is all zeros |
| Bytes.ReadStart | src/archive.js:165-170 | a read at a non-negative position starts there; a read at a negative position starts at the start of the file, where the descriptor stands |
| Bytes.ReadAt | src/archive.js:165-170 | a positioned read gives the file's bytes at the position, falls short exactly when the request passes the end of the file, and then returns the bytes up to the end |
| Bytes.Filled | src/archive.js:211-218 | a read buffer has `n` bytes: at each index the file's byte where the file has one, and zero past the end |
| Bytes.DecodeName | src/archive.js:191 | a name has one character per byte, and each character's code is its byte |
| ZipRecords.EndPosition | src/archive.js:212 | the record is read 22 bytes before the end of the file, or from its start when the file is shorter |
| ZipRecords.EndWindow | src/archive.js:211-212 | the window is the last 22 bytes of the file, or a shorter file followed by zeros |
| ZipRecords.ParseEnd | src/archive.js:211-222 | the record is read from the 22-byte window; it parses exactly when the window starts with 0x06054b50, otherwise fails with the EOCD signature error; the count, size and offset are the fields at 10, 12 and 16; in a file of at least 22 bytes the window is its last 22 bytes |
| ZipRecords.ShortEndRecord | src/archive.js:211-213 | a file shorter than 22 bytes opens its record exactly when it starts with the signature |
| ZipRecords.ReadCentralDirectory | src/archive.js:209-225 | the EOCD errors are passed on; the table is the `size` bytes at `offset`, with the record count from offset 10; it fails exactly when those bytes pass the end of the file |
| ZipRecords.ParseCentralHeader | src/archive.js:180-200 | a record parses exactly when its 46 fixed bytes are present and it starts with 0x02014b50; a wrong signature is that error; the advance is at least 46 and covers the name; `dir` holds exactly when the name ends in '/' |
| ZipRecords.DataOffset | src/archive.js:154-162 | the local header is accepted exactly when it starts with 0x04034b50; the data offset is at least the entry's offset plus 30, and less than that plus two 16-bit lengths |
| ZipRecords.EndsWithSlash | src/archive.js:200 | `fname.substr(-1) == '/'`; TableWellFormed and StatIsDirectory prove that the `dir` flag and `isDirectory()` agree with it |
| ZipRecords.CentralFixed | src/archive.js:180-199 | a header's fixed part is 46 bytes |
| ZipRecords.EncodeCentralHeader | src/archive.js:206 | an encoded record is 46 bytes plus its name, extra field and comment |
| ZipRecords.CentralFixedFields | src/archive.js:184-199 | the signature, method, sizes, name/extra/comment lengths and local offset sit at offsets 0, 10, 20, 24, 28, 30, 32 and 42 |
| ZipRecords.CentralFieldsAt | src/archive.js:184-199 | each field of a header laid out in the table reads back at its offset |
| ZipRecords.ParseCentralHeaderAt | src/archive.js:180-207 | a record laid out from a header parses to that header's entry, with advance `46 + nameLen + extraLen + commentLen` |
| ZipRecords.ParseEncodedCentralHeader | src/archive.js:180-207 | parsing an encoded record inside any surrounding bytes returns its entry and full length |
| ZipRecords.EncodeEnd | src/archive.js:211 | an encoded EOCD record is 22 bytes |
| ZipRecords.EncodeEndFields | src/archive.js:213-222 | the signature, record count, table size and table offset sit at offsets 0, 10, 12 and 16 |
| ZipRecords.ParseEncodedEnd | src/archive.js:211-222 | an EOCD record at the end of any file reads back as its count, size and offset |
| ZipRecords.LocalFixed | src/archive.js:47 | a local header's fixed part is 30 bytes |
| ZipRecords.EncodeLocalHeader | src/archive.js:154-162 | an encoded local header is 30 bytes plus its name and extra field |
| ZipRecords.DataOffsetOfEncoded | src/archive.js:154-162 | the data offset is the entry's offset plus the encoded local header's full length |
| ZipIndex.DirAlias | src/archive.js:202 | a directory's alias is its name without its last character |
| ZipIndex.KeysOf | src/archive.js:200-204 | the keys an entry is stored under: its name, and for a directory its alias too; RegisterFacts proves they are exactly the keys `_readCDEntry` adds |
| ZipIndex.Put | src/archive.js:202-204 | storing sets one key and keeps the old insertion order as a prefix |
| ZipIndex.PutValid | src/archive.js:202-204 | storing a key of the entry keeps the index consistent |
| ZipIndex.Register | src/archive.js:200-204 | `_readCDEntry`'s index update; RegisterFacts proves it adds exactly the entry's keys, both mapping to the entry, the alias first, leaving other keys alone |
| ZipIndex.RegisterFacts | src/archive.js:200-204 | registering adds exactly the entry's keys, maps each to the entry, and leaves the other keys alone; the order gains the alias and then the name of a new directory, the name of a new file, and nothing when the keys already exist |
| ZipIndex.RegisterValid | src/archive.js:200-204 | registering an entry keeps the index consistent |
| ZipIndex.Walk | src/archive.js:227-233 | the `_loadCD` loop as a function; WalkIsFold and WalkFails prove it registers the parsed records in order or fails with the first record error |
| ZipIndex.Records | src/archive.js:227-233 | a successful walk visits exactly `records` records |
| ZipIndex.Fold | src/archive.js:229-232 | registering records in order; FoldKeys, FoldLastWins and FoldUntouched prove its keys and which record each key holds |
| ZipIndex.WalkFails | src/archive.js:229-232 | the walk fails with the first record's error |
| ZipIndex.WalkIsFold | src/archive.js:227-233 | a successful walk registers the parsed records in order |
| ZipIndex.FoldValid | src/archive.js:229-232 | folding records keeps the index consistent |
| ZipIndex.WalkValid | src/archive.js:229-232 | a successful walk keeps the index consistent |
| ZipIndex.FoldWellFormed | src/archive.js:200-204 | if every record is well formed, so is every indexed entry |
| ZipIndex.RecordsLayout | src/archive.js:229-232 | record i starts at the sum of the advances of the records before it, and parses there to its entry and advance |
| ZipIndex.FoldKeys | src/archive.js:200-204 | the index's keys are the old keys plus every record's keys |
| ZipIndex.FoldLastWins | src/archive.js:202-204 | a key maps to the last record that has it |
| ZipIndex.FoldUntouched | src/archive.js:202-204 | a key no record has keeps its old entry |
| ZipAccess.Load | src/archive.js:227-233 | loading keeps the index consistent and passes on the table's errors |
| ZipAccess.LoadIndex | src/archive.js:31-39 | a freshly loaded index is consistent |
| ZipAccess.TableRecords | src/archive.js:227-233 | the records of the table, parsed back to back; TableLayout and TableWellFormed prove their count, positions and flags |
| ZipAccess.ShortFileOpensEmpty | src/archive.js:211-222 | a 21-byte file holding only the record's signature opens as an empty archive |
| ZipAccess.LoadIndexIsFold | src/archive.js:31-39 | opening fails with the first record error, or builds the fold of all records over the empty index |
| ZipAccess.TableLayout | src/archive.js:227-233 | the table holds exactly `records` records, each starting where the ones before it end |
| ZipAccess.TableWellFormed | src/archive.js:200 | every parsed entry is a directory exactly when its name ends in '/' |
| ZipAccess.LoadIndexKeys | src/archive.js:200-204 | the keys of an opened archive are exactly the keys of its records |
| ZipAccess.LoadIndexWellFormed | src/archive.js:200-204 | every entry of an opened archive is well formed |
| ZipAccess.LoadIndexLastWins | src/archive.js:202-204 | a key maps to the last record that has it |
| ZipAccess.PayloadStart | src/archive.js:47-50 | the data offset comes from the 30 bytes at the entry's offset, and lies at least 30 bytes past it |
| ZipAccess.ReadEntry | src/archive.js:47-63 | a bad local signature fails; a short read fails; method 0 gives the `csize` bytes at the data offset; method 8 gives their inflation; any other method fails |
| ZipAccess.ReadFile | src/archive.js:41-45 | the host answers exactly for names that are not index keys |
| ZipAccess.EncodedPayloadStart | src/archive.js:154-162 | the payload of an entry starts right after the local header written at its offset, whatever surrounds it |
| ZipAccess.ReadStoredEntry | src/archive.js:47-58 | a stored entry behind an encoded local header reads back as its payload, whatever surrounds it |
| ZipAccess.Exists | src/archive.js:239-241 | `exists` as corrected: a path exists exactly when it is a stored key; StatOf and TryFile build on it |
| ZipAccess.StatOf | src/archive.js:68-82 | an entry's stat is returned exactly when the path exists, and it is that key's entry |
| ZipAccess.Stat.IsDirectory | src/archive.js:75-77 | `isDirectory()` is the entry's `dir` flag; StatIsDirectory proves it holds exactly when the name ends in '/' |
| ZipAccess.Stat.IsFile | src/archive.js:78-80 | `isFile()` is the negation of `dir`; StatIsDirectory proves it holds exactly when the name does not end in '/' |
| ZipAccess.StatAfterRegister | src/archive.js:74-81 | after registering an entry, both keys of a directory stat as a directory, and a file stats as a file |
| ZipAccess.StatIsDirectory | src/archive.js:74-81 | `isDirectory()` holds exactly when the entry's name ends in '/', and `isFile()` exactly when it does not |
| ZipAccess.ExistsAsWritten | src/archive.js:239-241 | `path in this.files` as written: a stored key or a name Object.prototype provides; ExistsAsWrittenOnEmpty exhibits the difference |
| ZipAccess.ExistsAsWrittenOnEmpty | src/archive.js:239-241 | `path in this.files` reports "toString" present in an empty archive, and the corrected `Exists` does not |
| ZipAccess.Selected | src/archive.js:118-129 | the selection has at most one entry per key, and an entry is in it exactly when some key's entry passes the predicate |
| ZipAccess.DirPrefix | src/archive.js:132 | the prefix `readdir` filters on is never empty |
| ZipAccess.Listed | src/archive.js:133-138 | `readdir`'s predicate, written with `indexOf`; ListedIff states what it accepts and DeeperNotListed what it rejects |
| ZipAccess.ListedIff | src/archive.js:133-138 | a key is listed exactly when it starts with the prefix, is longer than it, and has no '/' after it except possibly at the end |
| ZipAccess.DeeperNotListed | src/archive.js:133-138 | a descendant two levels down is never listed |
| ZipAccess.Mapped | src/archive.js:139-141 | `Array.prototype.map`: one result per element, the i-th being the function applied to the i-th element |
| ZipAccess.Basenames | src/archive.js:139-141 | the i-th result is the base name of the i-th entry's name |
| ZipAccess.ListedKeys | src/archive.js:133-138 | a key is kept exactly when it is in the order and listed |
| ZipAccess.ListDir | src/archive.js:131-143 | `readdir(dir)` on an index; ListDirIsListedKeys proves it is the base names of the listed keys in order, and ReaddirListsAliasTwice that a directory shows up once per key |
| ZipAccess.KeyBasename | src/archive.js:139-141 | both keys of an entry have the base name of the entry's name |
| ZipAccess.KeyNames | src/archive.js:139-141 | the i-th result is the base name of the i-th key |
| ZipAccess.SelectedNames | src/archive.js:131-143 | the names `readdir` returns are the base names of the listed keys, in index order |
| ZipAccess.ListDirIsListedKeys | src/archive.js:131-143 | `readdir(d)` is the base names of exactly the keys below `d/` with no further '/', in insertion order |
| ZipAccess.AliasIndex | src/archive.js:200-204 | registering `a/c/` gives the keys `a/c` then `a/c/`, both for the same entry |
| ZipAccess.AliasSelected | src/archive.js:133-138 | both aliases of `a/c/` pass the `readdir("a")` filter |
| ZipAccess.ReaddirListsAliasTwice | src/archive.js:131-143 | `readdir("a")` on an archive holding only the directory `a/c/` returns `["c", "c"]` |
| ZipArchive.Archive.constructor | src/archive.js:31-36 | a new archive has its path and contents and an empty index |
| ZipArchive.Archive.ReadSync | src/archive.js:165-170 | an empty buffer reads 0; otherwise the bytes at `ReadStart(position)` fill the front of the buffer, their count is returned, and the rest of the buffer is unchanged |
| ZipArchive.Archive.ReadInto | src/archive.js:47-53 | a fresh buffer holds `Filled` of the file at `ReadStart(position)`, and the count is the bytes the read found |
| ZipArchive.Archive.GetCD | src/archive.js:209-225 | the result is `ReadCentralDirectory` of the file |
| ZipArchive.Archive.Store | src/archive.js:202-204 | assignment to `this.files[k]` is `Put` on the index |
| ZipArchive.Archive.ReadCDEntry | src/archive.js:180-207 | the record's error is passed on with the index unchanged, or the record's entry is registered and its advance returned |
| ZipArchive.Archive.WalkRecords | src/archive.js:229-232 | the loop leaves the index the walk function computes, or fails with its error |
| ZipArchive.Archive.LoadCD | src/archive.js:227-233 | the archive's index becomes `Load` of its contents, or the load's error is returned |
| ZipArchive.Archive.Open | src/archive.js:31-39 | construction gives a fresh, consistent archive whose index is `LoadIndex` of the contents, or fails with its error |
| ZipArchive.Archive.ReadFileSync | src/archive.js:41-66 | the result is `ReadFile` on the archive's index and contents |
| ZipArchive.Archive.ExistsSync | src/archive.js:239-245 | `exists`/`existsSync` on the archive's index, as corrected in `ZipAccess.Exists` |
| ZipArchive.Archive.StatSync | src/archive.js:68-82 | the result is `StatOf` on the archive's index |
| ZipArchive.Archive.Filter | src/archive.js:118-129 | the result is the entries of the keys that pass, in insertion order |
| ZipArchive.Archive.Readdir | src/archive.js:131-148 | the result is `ListDir` of the archive's index |
| ZipArchive.Archive.RealpathSync | src/archive.js:150-152 | the real path is never empty, so it is truthy, and holds no backslash |
| ZipParse.ParseZipPath | src/zip-parse.js:34-44 | the result is absent exactly when ".zip" does not occur, and neither part holds a backslash |
| ZipParse.ZnormOccurs | src/zip-parse.js:41 | normalising does not move or create an occurrence of ".zip" |
| ZipParse.ParseZipPathAt | src/zip-parse.js:35-43 | at the first ".zip", at index i, the parts are `znorm` of the first i+4 characters and of everything from i+5 on |
| ZipParse.FirstZipPrefix | src/zip-parse.js:41 | the container part keeps the first ".zip" where it was |
| ZipParse.ParseZipPathContainer | src/zip-parse.js:40-43 | the container part ends in ".zip", holds no earlier ".zip", and parses to itself with an empty entry |
| ZipParse.FirstZipAfter | src/zip-parse.js:35 | in `a + ".zip" + c + b` with no ".zip" in `a`, the first ".zip" follows `a` |
| ZipParse.ParseZipPathCompose | src/zip-parse.js:34-44 | `a + ".zip" + c + b` parses to the container `a.zip` and the entry `b`, whatever the separator `c` is |
| ZipParse.ZipCache.constructor | src/zip-parse.js:18 | the cache starts empty |
| ZipParse.ZipCache.Valid | src/zip-parse.js:18-32 | each cached archive is keyed by its own path and holds the index opening that file built; GetZip keeps it |
| ZipParse.ZipCache.GetZip | src/zip-parse.js:21-32 | a normalised path already in the cache returns the cached archive and changes nothing; otherwise a new archive is opened and cached only when that succeeds; a returned archive is the one cached under the normalised path, opened on that file, holding `LoadIndex` of its contents, and consistent |
| ZipParse.TryFile | src/zip-parse.js:75-84 | a real path is returned exactly when the entry is a key of a non-directory, and it is the archive's non-empty `realpathSync` |
| ZipParse.TryFileAsWritten | src/zip-parse.js:75-84 | for a name Object.prototype does not provide, a hit happens exactly when the key is a non-directory |
| ZipParse.TryFileAsWrittenOnEmpty | src/zip-parse.js:75-84 | in an empty archive, `tryFile("toString")` succeeds as written |
| ZipParse.FirstHitIsFirst | src/zip-parse.js:86-94 | the lookup fails exactly when every candidate fails, and otherwise returns the hit of the first candidate that succeeds |
| ZipParse.FirstHitAppend | src/zip-parse.js:102 | trying `a` then `b` gives the first hit of `a`, or else the first hit of `b` |
| ZipParse.WithExtensions | src/zip-parse.js:88 | candidate i is the entry followed by extension i |
| ZipParse.TryExtensions | src/zip-parse.js:86-94 | the loop returns the first hit among the entry with each extension, in list order |
| ZipParse.PackageCandidates | src/zip-parse.js:97-102 | without a truthy main there is no candidate; otherwise the candidates are those of `f = zjoin(entry, main)` with `zjoin(f, 'index')` as the index path |
| ZipParse.MainCandidates | src/zip-parse.js:101-102 | the candidates are `f`, then `f` with each extension in order, then the index path with each extension in order |
| ZipParse.TryPackage | src/zip-parse.js:96-103 | the result is the first hit among `entry/main`, then `entry/main` with each extension, then `entry/main/index` with each extension |

## Left out

- `stat` and `_readAsync` (src/archive.js:84-91, 172-178) are callback-driven and left out.
- The optional `callback` of `readdir` (src/archive.js:142) is left out. When one is given, `readdir` also calls it with `(null, files)`; `Readdir` only returns the list.
- Async `readFile` (src/archive.js:93-116) is left out. It differs from `readFileSync` in four ways: it never calls back for a method other than 0 or 8, where `readFileSync` throws; it ignores `encoding`; `readFile(name, callback)` on an archive entry leaves `callback` undefined, because the arguments are shifted only for names outside the archive (src/archive.js:96); and its short-read assertion throws inside an I/O callback.
- `zlib.inflateRawSync` (DEFLATE, RFC 1951) is an uninterpreted function parameter, `Inflater`. A failing inflation is the `InflateFailed` error.
- Host filesystem calls are left out. The container's contents are a fixed byte sequence, and the host files `getZip` can open are a fixed map from path to contents.
- The fallbacks `fs.readFileSync` and `fs.existsSync` for names outside the archive are results (`Host`, `HostAnswer`) naming the path, not their answers.
- `close` and the file descriptor are left out, because the model's contents never change while an archive is open.
- The UTF-8 decoding of entry names decodes one byte to one character. This agrees with UTF-8 on ASCII names, and is exact for the '/' tests either way.
- The decoding of file contents by `encoding` is left out: `ReadFileSync` returns bytes.
- The order of JavaScript object keys is modelled as insertion order. JavaScript lists integer-like keys (such as "12") first, in numeric order, and that quirk is not modelled in `Filter` and `Readdir`.
- `this.files[fname]` in `readFileSync` and `statSync`, and `ZIP_CACHE[path]` in `getZip`, also find names inherited from Object.prototype. The model looks up own keys only. The effect on `exists` is the finding below.
- ZipArchive.Archive.ReadSync: a negative position reads at the descriptor's current position, as Node 8 does; the model takes that position to be the start of the file and does not track the descriptor. Only the first read of `_getCD` can have a negative position, in a file shorter than 22 bytes, and nothing has moved the descriptor before it. Newer Node versions throw for a position below -1 instead, so on them a file of 1 to 20 bytes fails where the model reads it from its start.
- `new Buffer(n)` is modelled as zero-filled, as Node 8 and later allocate it.
- `path.join` is modelled as POSIX `path.join`. The Windows variant and its override (src/zip-parse.js:11-16) are left out.
- The `fs` monkey-patching and `Module._findPath` hijack (src/zip-parse.js:105-188) are global runtime plumbing and are left out.
- `readPackage` is a parameter `main: Option<string>`. `JSON.parse`, its error message and `packageMainCache` are left out. A `main` that is not a string is not modelled.
- rollup.config.js is build configuration only.
- ZipParse.FirstHit has no contract of its own. `FirstHitIsFirst` and `FirstHitAppend` state what it means.
- ZipArchive.Archive.ReadCDEntry and ZipArchive.Archive.WalkRecords take the record parser as a parameter. `LoadCD` passes `ParseCentralHeader`, so their contracts hold for the real parser. `ReadCDEntry` does not restate that parser's checks.
- ZipRecords.ParseCentralHeader: every record that ends before its 46 fixed bytes is the one error `OutOfRange`. The source raises a `RangeError` at whichever field read first passes the end of the buffer.

## Findings

| source | as written | input that shows it | evidently intended | confidence | as-written member | corrected member |
|---|---|---|---|---|---|---|
| src/archive.js:239-241 | `exists` tests `path in this.files`, which also sees the properties `this.files` inherits from Object.prototype | `exists("toString")` on an archive without that entry is true; `statSync("toString")` then returns a stat, so `tryFile` in src/zip-parse.js:75-84 returns a real path for a file that is not there | `exists(p)` holds exactly when `p` is a key stored by `_readCDEntry` | high, not executed | ZipAccess.ExistsAsWrittenOnEmpty, ZipParse.TryFileAsWrittenOnEmpty | ZipAccess.Exists, ZipParse.TryFile |
