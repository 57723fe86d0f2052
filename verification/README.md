# servenix — a Dafny model of the `NixServer` binary cache

`servenix` serves a local Nix store over HTTP as a binary cache. A client
asks `/nix-cache-info` for the cache descriptor, `/<hash>.narinfo` for the
metadata of a store object named by its 32-character hash, and
`/nar/<hash><ext>` for the compressed archive (NAR) of that object.
`NixServer` keeps two in-process caches:

- `_hashes_to_paths` maps object hashes to store paths. A miss scans the
  store directory and indexes every matching entry it passes.
- `_paths_to_info` maps store paths to their metadata record, a Python dict
  whose insertion order is the order of the narinfo lines.

This project models that class.

- `NixServer` is a Dafny `class` whose fields are the configuration and the
  two caches. Its methods run the Python methods step by step: the scan
  loop, the archive lookup loop and the cache updates.
- Each method is proved equal to a function of the state before the call.
  `HashIndex.Resolve` gives the lookup, `Metadata.InfoFor` gives
  `get_object_info`, `Servenix.NarinfoOutcome` gives the narinfo route and
  `Servenix.NarOutcome` gives the archive route.
- Lemmas prove what the source promises about those functions.

Modules:

- `PyText`: the Python built-ins the server relies on: `str.split()`,
  `sep.join`, `str.endswith`, `int()`/`str()` on a decimal field,
  `os.path.join` and `os.path.basename`.
- `Narinfo`: the insertion-ordered record dict, its `Key: Value` rendering,
  and a parser used only to state that rendering loses nothing.
- `Exceptions`: the exceptions the server raises, plus `Result`.
- `Host`: the outside world as total functions. These are the directory
  listing, `nix-build`, `du`, `nix-hash`, `nix-store --query` and the
  corrective sqlite update. The model is a function of them.
- `HashIndex`: `store_path_from_hash` as functions of the index and the
  listing.
- `Metadata`: `build_nar`, `get_object_info` and the narinfo record.
- `Servenix`: the class, the route outcome functions and the route lemmas.

The model follows what the code does, in places where that is less than
its docstrings suggest:

- **The hash check is not anchored at the end.** The docstrings of both
  routes (lines 181 and 208) describe `obj_hash` as the first 32 characters
  of the store path. But `_HASH_REGEX.match` anchors only at the start, so
  a longer string whose first 32 characters qualify passes the 400 check
  (`HashIndex.MatchesHashPatternPrefix`). Such a string is never in the
  index and never matches a listing entry, so the request still ends in
  404 (`Servenix.NarinfoLongHashNotFound`).
- **A scan overwrites existing index entries.** Line 70 assigns
  unconditionally, so a hash already in the index is re-pointed at any
  later-listed entry with the same hash. `HashIndex.RescanReplacesEntry`
  exhibits this: two store entries with the same hash, and a later scan
  re-points the hash at the other one.
- **`serve_nar` does not check the hash's form** that its docstring
  (line 208) describes. With only hashes as index keys, anything but an
  exact hash still ends in 404 (`Servenix.NarNonHashNotFound`).

One place departs from the code on purpose. When the corrective update
fails, lines 117-119 raise `NameError`, because `path` is undefined there.
The model's operations raise the evidently intended `CouldNotUpdateHash`
instead (see Findings and "## Left out").

The record is modelled as an insertion-ordered dict, so the narinfo lines
come out in the order the keys were first assigned. Python guarantees that
order from 3.7 on. Under Python 2, which `six` suggests the code may also
target, a plain dict's order is arbitrary, and the order of the lines would
not be fixed.

Two ghost out-parameters stand for the corrective sqlite update:

- `repairs` of `NixServer.GetObjectInfo` and `NixServer.GetNarinfo`
- `writes` of `NixServer.FetchObjectInfo`

Each lists the store paths whose registered hash a call tried to overwrite.
That is at most one path, and only on a cache miss with a stale registered
hash.

## Model

| member | source | states |
|---|---|---|
| Servenix.NixServer.constructor | src/servenix/servenix.py:22-44 | keeps the three paths and the compression type; the database path is `<state>/nix/db/db.sqlite`; the descriptor is `CacheInfo(store)`; `bzip2` gives `.nar.bz2` with `application/x-bzip2` and anything else gives `.nar.xz` with `application/x-xz`; both caches start empty and the class invariant holds |
| Servenix.CacheInfoDocument | src/servenix/servenix.py:34-38 | the descriptor reads back as exactly the entries `StoreDir: <store>`, `WantMassQuery: 1` and `Priority: 30`, in that order, when the store path has no newline |
| Servenix.NixServer.NixCacheInfo | src/servenix/servenix.py:167-170 | the route answers 200 with the start-up descriptor, and the body reads back as its three entries |
| Servenix.NixServer.StorePathFromHash | src/servenix/servenix.py:46-74 | the result and the index afterwards are `Resolve` of the index before, the store listing and the hash; the record cache is untouched; every index key stays a 32-character hash |
| Servenix.NixServer.BuildNar | src/servenix/servenix.py:136-157 | the result is `NarFile`: the build directory joined with its first entry ending in the archive extension, else `NoNarGenerated(dir, ext)` |
| Servenix.NixServer.GetObjectInfo | src/servenix/servenix.py:76-134 | the result is `InfoFor` of the cache before; a successful miss caches the new record under its path and nothing else changes; the corrective writes are `RepairWrites` (none on a hit); every cached record stays a well-formed dict naming its own path |
| Servenix.NixServer.FetchObjectInfo | src/servenix/servenix.py:87-132 | a cache miss gives `FreshInfo`, and its corrective writes are `FreshWrites` |
| Servenix.NixServer.NewRecord | src/servenix/servenix.py:120-132 | the dict literal plus the conditional `References` and `Deriver` assignments give `InfoRecord` |
| Servenix.NixServer.GetNarinfo | src/servenix/servenix.py:184-200 | the reply and the index and cache afterwards are `NarinfoOutcome` of the state before; the corrective writes are `NarinfoWrites`; the class invariant is kept |
| Servenix.NixServer.ServeStoredRecord | src/servenix/servenix.py:189-200 | fetching the record, assigning `URL` and `Compression` into the cached dict itself and rendering it is `ServeRecord` of the cache before |
| Servenix.NixServer.ServeNar | src/servenix/servenix.py:202-216 | the reply and the index afterwards are `NarOutcome` of the index before; the record cache is untouched |
| Servenix.NarinfoWrites | src/servenix/servenix.py:184-200 | a narinfo request tries at most one corrective write |
| Servenix.NarinfoBadRequest | src/servenix/servenix.py:184-186 | the reply is 400 if and only if the hash fails the pattern, and then the state is unchanged |
| Servenix.NarinfoLongHashNotFound | src/servenix/servenix.py:17 | a string longer than 32 characters that passes the pattern is answered 404 with the not-found message |
| Servenix.NarinfoServed | src/servenix/servenix.py:184-200 | a 200 reply is for an exact hash; the index then maps the hash to the store directory joined with the name of an object whose first 32 characters are that hash, and that path's cached record holds `URL = nar/<hash><ext>` and the compression type, and the reply is that record rendered, typed `text/x-nix-narinfo` |
| Servenix.NarinfoRepeatable | src/servenix/servenix.py:184-200 | after a 200, asking again for the same hash gives the same reply, leaves the index and cache as they are and tries no corrective write, whatever the store lists by then |
| Servenix.ServeRecordRepeatable | src/servenix/servenix.py:85-86 | once a record is served it is cached under its path, so serving it again is a hit that changes nothing |
| Servenix.ServeInfoRepeatable | src/servenix/servenix.py:194-196 | assigning the download keys into a record that already holds them leaves the reply and the cache unchanged |
| Servenix.NarNonHashNotFound | src/servenix/servenix.py:211-214 | without validation, any string that is not an exact hash still ends in 404 on the archive route |
| HashIndex.MatchesHashPatternPrefix | src/servenix/servenix.py:17 | start-anchored `[a-z0-9]{32}`: a string passes exactly when its first 32 characters form a hash, so a hash passes and so does a hash followed by anything |
| HashIndex.MatchesPathPatternShape | src/servenix/servenix.py:18 | `([a-z0-9]{32})-.*` matches exactly the names of at least 33 characters whose first 32 form a hash and whose 33rd is a dash; such a name is its hash, a dash and its tail, and every hash, dash and tail is such a name |
| HashIndex.HashOf | src/servenix/servenix.py:69 | the captured group of a matching store entry is a 32-character hash, its first 32 characters |
| HashIndex.FirstWithHash | src/servenix/servenix.py:64-72 | the position of the first entry carrying the hash; no earlier entry carries it; no position means no entry carries it |
| HashIndex.ScanIsIndexed | src/servenix/servenix.py:63-74 | a miss indexes the listing in order up to and including the first entry with the hash and returns its joined path; without one it indexes the whole listing and raises `NoSuchObject` |
| HashIndex.IndexedKeys | src/servenix/servenix.py:64-70 | indexing keeps every key and adds exactly the hashes of the matching entries |
| HashIndex.IndexedUntouched | src/servenix/servenix.py:64-70 | an indexed hash that no scanned entry carries keeps its path |
| HashIndex.IndexedLatest | src/servenix/servenix.py:68-70 | after indexing, a hash maps to the last scanned entry carrying it |
| HashIndex.ResolveKeepsKeys | src/servenix/servenix.py:61-74 | a lookup never removes an index key |
| HashIndex.ScanKeepsStoreEntries | src/servenix/servenix.py:63-72 | a scan stores under each hash only the store directory joined with the name of an object carrying that hash |
| HashIndex.ResolveFindsStoreObject | src/servenix/servenix.py:61-74 | a lookup keeps that index invariant, and a path it finds is the store directory joined with the name of an object carrying the requested hash |
| HashIndex.ResolveKeepsHashKeys | src/servenix/servenix.py:61-74 | a lookup keeps every index key a 32-character hash |
| HashIndex.MissRecordsWholeListing | src/servenix/servenix.py:63-74 | a miss whose hash is nowhere in the listing raises `NoSuchObject`, adds every matching entry's hash, and maps each to its last entry |
| HashIndex.MissFindsFirst | src/servenix/servenix.py:63-72 | a miss returns the first entry carrying the hash, indexes exactly the prefix up to it, and caches the hash |
| HashIndex.ResolveThenCached | src/servenix/servenix.py:61-62 | after a successful lookup the hash is a hit with the same path and the same index, whatever the store lists later |
| HashIndex.ScanFoundIsCached | src/servenix/servenix.py:68-72 | a scan that finds the hash leaves it in the index, mapped to the returned path |
| HashIndex.NonHashNeverFound | src/servenix/servenix.py:17-18 | with hash keys only, a string that is not an exact hash is never found |
| HashIndex.RescanReplacesEntry | src/servenix/servenix.py:70 | a later scan overwrites an indexed hash with another entry of the same hash, so lookups then return a different path |
| Metadata.FirstEndingWith | src/servenix/servenix.py:154-156 | the first name ending with the extension; none before it does; none found means none does |
| Metadata.NarFile | src/servenix/servenix.py:136-157 | failure exactly when no entry of the build directory ends with the extension, and the failure is `NoNarGenerated(dir, ext)` |
| Metadata.NarFileFirst | src/servenix/servenix.py:154-156 | the first entry with the extension, joined to the directory, is the result |
| Metadata.NarExpressionShape | src/servenix/servenix.py:139-144 | the expression is the fixed head, the store path, the fixed middle with `hashAlgo = "sha256";`, the compression type and the fixed tail |
| Metadata.NarExpressionInjective | src/servenix/servenix.py:139-144 | for store paths without a double quote, different store paths or compression types give different expressions |
| Metadata.FileSizeOf | src/servenix/servenix.py:94-95 | fails with `InvalidSize` exactly when `du` prints no field or its first field is not a number; a success is a canonical decimal |
| Metadata.FileSizeOfDuOutput | src/servenix/servenix.py:94-95 | `du` output beginning with a size and whitespace gives that size back |
| Metadata.FileSizeKeepsCanonicalField | src/servenix/servenix.py:95 | `str(int(field))` is the field itself when the field is a canonical decimal |
| Metadata.AsWrittenUpdateFailureHidesPath | src/servenix/servenix.py:117-119 | as written, the error is the same `NameError` whichever path failed, and it is never `CouldNotUpdateHash`; the corrected errors for two paths differ |
| Metadata.PutOptionalPair | src/servenix/servenix.py:127-132 | assigning two new optional keys appends those present, in order, and changes nothing else |
| Metadata.BaseRecordFields | src/servenix/servenix.py:120-126 | the dict literal has the keys `StorePath`, `NarHash`, `NarSize`, `FileSize`, `FileHash` in that order, with their values |
| Metadata.InfoRecordKeys | src/servenix/servenix.py:120-132 | the record's keys are the literal's, then `References` if there are references, then `Deriver` if the deriver is not `unknown-deriver`; none twice |
| Metadata.InfoRecordValues | src/servenix/servenix.py:120-132 | `NarHash` is always the recomputed hash; `References` is the space-joined basenames; `Deriver` is the deriver's basename; no download keys yet |
| Metadata.ReferencesRoundTrip | src/servenix/servenix.py:127-129 | `References` is present exactly when there are references, and splitting it gives their basenames in order |
| Metadata.ObjectInfo | src/servenix/servenix.py:93-134 | an unreadable `du` output fails first; a stale registered hash whose update fails gives the update error; otherwise the record is `InfoRecord` |
| Metadata.NarHashIsRecomputed | src/servenix/servenix.py:103-122 | with a stale registered hash, a record exists only if the update succeeded, and its `NarHash` is never the stale hash |
| Metadata.FreshInfo | src/servenix/servenix.py:93 | a failed archive build propagates its error |
| Metadata.FreshWrites | src/servenix/servenix.py:106-116 | a miss writes nothing or exactly its own path; it writes exactly when the archive was built, `du` was read and the registered hash differs from the recomputed one, and a write implies a stale hash |
| Metadata.InfoFor | src/servenix/servenix.py:85-86 | a cached path returns its cached record |
| Metadata.RepairWrites | src/servenix/servenix.py:85-116 | one `get_object_info` call writes nothing or exactly its own path; a cache hit writes nothing; it writes exactly on a miss whose archive was built, whose `du` was read and whose registered hash is stale |
| Metadata.FreshInfoValid | src/servenix/servenix.py:120-126 | a fresh record is a well-formed dict whose `StorePath` is the path it was made for |
| Metadata.InfoForValid | src/servenix/servenix.py:85-86 | with a valid cache, every record `get_object_info` returns is well formed and names its path |
| Metadata.CacheValidPut | src/servenix/servenix.py:133 | caching a well-formed record under its own path keeps the cache valid |
| Metadata.CacheDownloadValid | src/servenix/servenix.py:194-196 | the record with the download keys, kept in the cache, leaves the cache valid |
| Metadata.WithDownload | src/servenix/servenix.py:194-196 | `URL` becomes `nar/<hash><ext>` and `Compression` the compression type; every other key keeps its value |
| Metadata.WithDownloadKeys | src/servenix/servenix.py:194-196 | the first time, the keys become the record's keys followed by `URL` and `Compression`, and the URL ends with the extension |
| Metadata.NarinfoDocument | src/servenix/servenix.py:194-198 | the narinfo document reads back as the record's items in insertion order when no value spans lines |
| Metadata.NarinfoEndsWithDownload | src/servenix/servenix.py:194-198 | the document's last two lines are `URL: nar/<hash><ext>` and `Compression: <type>` |
| Metadata.WithDownloadIdempotent | src/servenix/servenix.py:194-196 | assigning the download keys a second time changes nothing |
| Narinfo.FieldName | src/servenix/servenix.py:120-132 | every key is non-empty and holds no colon or newline |
| Narinfo.Get | src/servenix/servenix.py:120-132 | in a well-formed dict a key has a value exactly when it is listed |
| Narinfo.Put | src/servenix/servenix.py:129 | after `d[k] = v`, `k` holds `v` and no other key changes; an existing key keeps its place, a new key goes last; well-formedness is kept |
| Narinfo.ItemsOf | src/servenix/servenix.py:197-198 | one item per key |
| Narinfo.ItemAt | src/servenix/servenix.py:197-198 | the i-th item is the i-th key with the value it holds |
| Narinfo.ItemsValue | src/servenix/servenix.py:197-198 | the i-th item is the i-th key's name with its value |
| Narinfo.Lines | src/servenix/servenix.py:197-198 | one `k: v` line per item, in order |
| Narinfo.LineRoundTrip | src/servenix/servenix.py:197 | a `k: v` line reads back as `(k, v)` when the key has no colon and neither part has a newline |
| Narinfo.LinesRoundTrip | src/servenix/servenix.py:197-198 | the lines read back as the items |
| Narinfo.RenderRoundTrip | src/servenix/servenix.py:197-198 | the newline-joined, newline-terminated document reads back as its entries, in order |
| Narinfo.RecordRoundTrip | src/servenix/servenix.py:197-198 | a record's document reads back as the record's items when no value spans lines |
| Narinfo.PutOneLine | src/servenix/servenix.py:194-196 | assigning a one-line value keeps every value on one line |
| Narinfo.PutSame | src/servenix/servenix.py:194-196 | assigning a key the value it already holds leaves the dict unchanged |
| PyText.SplitWhitespace | src/servenix/servenix.py:127 | `str.split()` yields non-empty, whitespace-free words |
| PyText.SplitJoinedWords | src/servenix/servenix.py:129 | splitting words joined by single spaces gives the words back |
| PyText.SplitWhitespaceWord | src/servenix/servenix.py:95 | the first field of `word + whitespace + rest` is `word` |
| PyText.NatToDecimal | src/servenix/servenix.py:124 | `str(n)` is a non-empty digit string without a leading zero |
| PyText.DecimalRoundTrip | src/servenix/servenix.py:95 | `int(str(n)) == n` |
| PyText.DecimalCanonical | src/servenix/servenix.py:95 | `str(int(s)) == s` for a canonical decimal |
| PyText.Basename | src/servenix/servenix.py:129 | the basename is a suffix of the path and holds no `/` |
| PyText.BasenameOfJoin | src/servenix/servenix.py:68 | the basename of a store entry joined to the store directory is the entry |
| PyText.PathJoinInjective | src/servenix/servenix.py:68 | different entry names give different joined paths |

## Left out

- Flask plumbing is not modelled: `make_app`, routing, `make_response`, `send_file` streaming, and `main`/`_get_args`. A route's reply is a `Servenix.Reply` value.
- `get_missing_paths` is outside this model, as is the rest of the module after `serve_nar`.
- `utils.py` is not part of this model. `decode_str` and `strip_output` are folded into the `Host` functions, which return the already-stripped text output of each tool.
- A tool that exits with an error is not modelled. In Python, `strip_output` raises `CalledProcessError`; here every `Host` function returns a value.
- `nix_bin_path` only locates the tools, so it is folded into `Host`.
- The text of the sqlite statement (lines 110-116) is not modelled; `Host.updateHash` stands for the connection and the update. That statement's WHERE clause compares `path` with `'sha256:' + store_path`, and a real store path never has that prefix. The statement therefore matches no row, yet it still counts as success.
- Logging (line 107) is left out.
- `int()` accepts more than the model does: a sign, surrounding whitespace, underscores and non-ASCII digits. `Metadata.FileSizeOf` only accepts ASCII digit strings, which is what `du -sb` prints.
- Lines 14-15 import `CouldNotUpdateHash` and `ClientError`, and `exceptions.py` defines neither, so the module as written fails to import. The model assumes `CouldNotUpdateHash` exists (`Exceptions.Error`). `ClientError` is never raised in the core.
- Concurrency between request threads is left out. Each method runs alone on the shared caches.
- The archive route's file streaming and MIME headers are reduced to `Reply.File(path, mimetype)`.
- Metadata.ObjectInfo: when the corrective update fails, it returns the corrected `CouldNotUpdateHash(store_path, registered, correct)`, and so do `Servenix.NixServer.FetchObjectInfo` and the routes above it. As written, line 118 raises `NameError` there. Only `Metadata.UpdateFailureAsWritten` models that behaviour (see Findings).
- Metadata.FreshInfo: its own contract states only the build-failure case. The full behaviour is in `Metadata.ObjectInfo` and `Servenix.NixServer.FetchObjectInfo`.
- Metadata.InfoFor: its own contract states only the cache hit. A miss is `FreshInfo`, stated through `Servenix.NixServer.GetObjectInfo`.

## Findings

| source | as written | input that shows it | evidently intended | confidence | as-written member | corrected member |
|---|---|---|---|---|---|---|
| src/servenix/servenix.py:117-119 | the handler for a failed corrective update builds `CouldNotUpdateHash(path, ...)`, but no `path` is in scope (the parameter is `store_path`), so it raises `NameError` and loses the store path and both hashes | any store path whose registered hash differs from the recomputed one while the sqlite update raises `OperationalError` | raise `CouldNotUpdateHash(store_path, registered, correct)` | not executed | Metadata.UpdateFailureAsWritten, Metadata.AsWrittenUpdateFailureHidesPath | Metadata.UpdateFailure |
