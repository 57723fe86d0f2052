/**
 * `NixServer`: the binary-cache server's state (its configuration, the
 * hash index and the record cache) and the operations that change it, run
 * step by step as the Python methods run them.  Each method is proved to
 * agree with a function of the state before the call (modules HashIndex
 * and Metadata, and the outcome functions below), and the lemmas at the
 * end state what the routes promise about those functions.
 */
module Servenix {
  import opened Wrappers
  import opened PyText
  import opened Exceptions
  import opened Narinfo
  import opened Host
  import opened HashIndex
  import opened Metadata

  /** What a route hands back to Flask: a text body with a status and,
      when the route sets one, a content type; or a file to send. */
  datatype Reply =
    | Text(body: string, status: nat, contentType: Option<string>)
    | File(path: string, mimetype: string)

  /** The `/nix-cache-info` document of lines 34-38: the store directory,
      mass queries allowed, priority 30. */
  function CacheInfo(store: string): string {
    JoinWith(["StoreDir: " + store, "WantMassQuery: 1", "Priority: 30"], "\n") + "\n"
  }

  /** The body of the 400 reply of lines 184-186; `.pattern` is the text
      the hash expression was compiled from. */
  function BadHashMessage(objHash: string): string {
    "Hash " + objHash + " must match " + "[a-z0-9]{32}"
  }

  /** An exception reaching the `except NoSuchObject` of a route: that one
      becomes a 404 carrying its message, any other propagates. */
  function Caught(e: Error): (r: Result<Reply>)
    ensures e.NoSuchObject? ==> r == Success(Text(e.message, 404, None))
    ensures !e.NoSuchObject? ==> r == Failure(e)
  {
    if e.NoSuchObject? then Success(Text(e.message, 404, None)) else Failure(e)
  }

  /** The store state a narinfo request leaves behind. */
  datatype State = State(index: Index, cache: map<string, Record>)

  /** The part of `get_narinfo` after the store path is known (lines
      189-200): the record, with the download keys assigned into the cached
      dict itself, rendered as the narinfo document.  Gives the reply and
      the cache afterwards. */
  function ServeRecord(cache: map<string, Record>, storePath: string, compressionType: string, ext: string,
                       objHash: string, host: Host): (Result<Reply>, map<string, Record>)
  {
    ServeInfo(cache, storePath, InfoFor(cache, storePath, compressionType, ext, host), compressionType, ext, objHash)
  }

  /** Lines 192-200 once `get_object_info` has given `info`. */
  function ServeInfo(cache: map<string, Record>, storePath: string, info: Result<Record>,
                     compressionType: string, ext: string, objHash: string): (Result<Reply>, map<string, Record>)
  {
    match info
    case Failure(e) => (Caught(e), cache)
    case Success(info) =>
      var doc := WithDownload(info, objHash, ext, compressionType);
      (Success(Text(Render(doc), 200, Some("text/x-nix-narinfo"))), cache[storePath := doc])
  }

  /** `get_narinfo` (lines 184-200) as a function of the state before the
      request: the reply, and the hash index and record cache afterwards. */
  function NarinfoOutcome(st: State, store: string, compressionType: string, ext: string,
                          objHash: string, host: Host): (Result<Reply>, State)
  {
    if !MatchesHashPattern(objHash) then
      (Success(Text(BadHashMessage(objHash), 400, None)), st)
    else
      var resolved := Resolve(st.index, store, host.listdir(store), objHash);
      match resolved.0
      case Failure(e) => (Caught(e), State(resolved.1, st.cache))
      case Success(storePath) =>
        var served := ServeRecord(st.cache, storePath, compressionType, ext, objHash, host);
        (served.0, State(resolved.1, served.1))
  }

  /** The store paths whose registered hash a narinfo request tries to
      overwrite. */
  function NarinfoWrites(st: State, store: string, compressionType: string, ext: string,
                         objHash: string, host: Host): (w: seq<string>)
    ensures |w| <= 1
  {
    if !MatchesHashPattern(objHash) then []
    else match Resolve(st.index, store, host.listdir(store), objHash).0
      case Failure(_) => []
      case Success(storePath) => RepairWrites(st.cache, storePath, compressionType, ext, host)
  }

  /** `serve_nar` (lines 202-216): resolve the hash without checking its
      form, build the archive, and send it with the configured content
      type. */
  function NarOutcome(index: Index, store: string, compressionType: string, ext: string,
                      contentType: string, objHash: string, host: Host): (Result<Reply>, Index)
  {
    var (found, index') := Resolve(index, store, host.listdir(store), objHash);
    match found
    case Failure(e) => (Caught(e), index')
    case Success(storePath) =>
      match NarFile(storePath, compressionType, ext, host)
      case Failure(e) => (Failure(e), index')
      case Success(narPath) => (Success(File(narPath, contentType)), index')
  }

  /** Assigning a path's entry replaces whatever an earlier lookup in the
      same request cached for it. */
  lemma ReplaceEntry(cache: map<string, Record>, cached: map<string, Record>, storePath: string, doc: Record)
    requires cached == cache || (storePath in cached && cached == cache[storePath := cached[storePath]])
    ensures cached[storePath := doc] == cache[storePath := doc]
  {
  }

  class NixServer {
    const nixStorePath: string
    const nixStatePath: string
    const nixBinPath: string
    const dbPath: string
    const compressionType: string
    /** The `/nix-cache-info` document. */
    const cacheInfo: string
    /** The MIME type archives are sent with. */
    const contentType: string
    /** The file extension of the archives `nix-build` produces. */
    const narExtension: string

    /** Hash of a store object to its full path. */
    var hashesToPaths: Index
    /** Store path to the object's record. */
    var pathsToInfo: map<string, Record>

    /** The hash index and the record cache are consistent. */
    ghost predicate Valid()
      reads this
    {
      IndexValid() && CacheValid(pathsToInfo)
    }

    /** Every index key is a hash mapped to the store path of an object
        carrying that hash. */
    ghost predicate IndexValid()
      reads this
    {
      HashKeys(hashesToPaths) && StoreEntries(hashesToPaths, nixStorePath)
    }

    /** The index and the cache, as one value. */
    function Snapshot(): State
      reads this
    {
      State(hashesToPaths, pathsToInfo)
    }

    /** Lines 22-44. */
    constructor(nixStorePath: string, nixBinPath: string, nixStatePath: string, compressionType: string)
      ensures this.nixStorePath == nixStorePath && this.nixBinPath == nixBinPath
      ensures this.nixStatePath == nixStatePath && this.compressionType == compressionType
      ensures dbPath == PathJoin(PathJoin(PathJoin(nixStatePath, "nix"), "db"), "db.sqlite")
      ensures cacheInfo == CacheInfo(nixStorePath)
      ensures compressionType == "bzip2" ==>
        contentType == "application/x-bzip2" && narExtension == ".nar.bz2"
      ensures compressionType != "bzip2" ==>
        contentType == "application/x-xz" && narExtension == ".nar.xz"
      ensures hashesToPaths == map[] && pathsToInfo == map[]
      ensures Valid()
    {
      this.nixStorePath := nixStorePath;
      this.nixStatePath := nixStatePath;
      this.nixBinPath := nixBinPath;
      dbPath := PathJoin(PathJoin(PathJoin(nixStatePath, "nix"), "db"), "db.sqlite");
      this.compressionType := compressionType;
      hashesToPaths := map[];
      pathsToInfo := map[];
      cacheInfo := CacheInfo(nixStorePath);
      if compressionType == "bzip2" {
        contentType := "application/x-bzip2";
        narExtension := ".nar.bz2";
      } else {
        contentType := "application/x-xz";
        narExtension := ".nar.xz";
      }
    }

    /** Lines 46-74: a cached hash answers at once; otherwise the store
        listing is scanned, every matching name is indexed, and the scan
        stops at the first name with the requested hash. */
    method StorePathFromHash(objHash: string, host: Host) returns (r: Result<string>)
      requires Valid()
      modifies this
      ensures Valid()
      ensures (r, hashesToPaths) == Resolve(old(hashesToPaths), nixStorePath, host.listdir(nixStorePath), objHash)
      ensures pathsToInfo == old(pathsToInfo)
    {
      ResolveKeepsHashKeys(hashesToPaths, nixStorePath, host.listdir(nixStorePath), objHash);
      ResolveFindsStoreObject(hashesToPaths, nixStorePath, host.listdir(nixStorePath), objHash);
      if objHash in hashesToPaths {
        return Success(hashesToPaths[objHash]);
      }
      var names := host.listdir(nixStorePath);
      var i := 0;
      while i < |names|
        invariant 0 <= i <= |names|
        invariant Scan(old(hashesToPaths), nixStorePath, names, objHash)
               == Scan(hashesToPaths, nixStorePath, names[i..], objHash)
        invariant pathsToInfo == old(pathsToInfo)
      {
        var name := names[i];
        assert names[i..][0] == name && names[i..][1..] == names[i + 1..];
        if MatchesPathPattern(name) {
          var fullPath := PathJoin(nixStorePath, name);
          var h := HashOf(name);
          hashesToPaths := hashesToPaths[h := fullPath];
          if h == objHash {
            return Success(fullPath);
          }
        }
        i := i + 1;
      }
      return Failure(NoSuchObject(NotFoundMessage(objHash)));
    }

    /** Lines 136-157: build the archive of a store path and return the
        first entry of the output directory with the archive extension. */
    method BuildNar(storePath: string, host: Host) returns (r: Result<string>)
      ensures r == NarFile(storePath, compressionType, narExtension, host)
    {
      var narExpr := NarExpression(storePath, compressionType);
      var compressedPath := host.nixBuild(narExpr);
      var contents := host.listdir(compressedPath);
      var i := 0;
      while i < |contents|
        invariant 0 <= i <= |contents|
        invariant forall j :: 0 <= j < i ==> !EndsWith(contents[j], narExtension)
      {
        if EndsWith(contents[i], narExtension) {
          NarFileFirst(storePath, compressionType, narExtension, host, i);
          return Success(PathJoin(compressedPath, contents[i]));
        }
        i := i + 1;
      }
      return Failure(NoNarGenerated(compressedPath, narExtension));
    }

    /** Lines 76-134: the cached record, or a fresh one, which is then
        cached; a miss may first try to repair the registered hash. */
    method GetObjectInfo(storePath: string, host: Host) returns (r: Result<Record>, ghost repairs: seq<string>)
      requires Valid()
      modifies this
      ensures Valid()
      ensures r == InfoFor(old(pathsToInfo), storePath, compressionType, narExtension, host)
      ensures pathsToInfo == if storePath !in old(pathsToInfo) && r.Success?
                             then old(pathsToInfo)[storePath := r.value] else old(pathsToInfo)
      ensures hashesToPaths == old(hashesToPaths)
      ensures repairs == RepairWrites(old(pathsToInfo), storePath, compressionType, narExtension, host)
    {
      if storePath in pathsToInfo {
        return Success(pathsToInfo[storePath]), [];
      }
      r, repairs := FetchObjectInfo(storePath, host);
      if r.Success? {
        FreshInfoValid(storePath, compressionType, narExtension, host);
        CacheValidPut(pathsToInfo, storePath, r.value);
        pathsToInfo := pathsToInfo[storePath := r.value];
      }
    }

    /** Lines 93-132, the work of a cache miss: build the archive, read its
        size, try to overwrite a stale registered hash, make the record.
        Also gives the store paths whose hash it tried to overwrite. */
    method FetchObjectInfo(storePath: string, host: Host) returns (r: Result<Record>, ghost writes: seq<string>)
      ensures r == FreshInfo(storePath, compressionType, narExtension, host)
      ensures writes == FreshWrites(storePath, compressionType, narExtension, host)
    {
      writes := [];
      var narPath := BuildNar(storePath, host);
      if narPath.Failure? {
        return Failure(narPath.error), writes;
      }
      var fileSize := FileSizeOf(host.du(narPath.value));
      if fileSize.Failure? {
        return Failure(fileSize.error), writes;
      }
      var registered := host.query("--hash", storePath);
      var correct := "sha256:" + host.hashPath(storePath);
      if correct != registered {
        writes := [storePath];
        var updated := host.updateHash(storePath);
        if !updated {
          return Failure(UpdateFailure(storePath, registered, correct)), writes;
        }
      }
      var info := NewRecord(storePath, fileSize.value, narPath.value, host);
      return Success(info), writes;
    }

    /** Lines 120-132: the dict literal, then the optional `References`
        and `Deriver`. */
    method NewRecord(storePath: string, fileSize: string, narPath: string, host: Host) returns (info: Record)
      ensures info == InfoRecord(storePath, fileSize, narPath, host)
    {
      var fileHash := host.hashFile(narPath);
      info := Record(BaseKeys,
                     map[StorePath := storePath, NarHash := "sha256:" + host.hashPath(storePath),
                         NarSize := host.query("--size", storePath),
                         FileSize := fileSize, FileHash := "sha256:" + fileHash]);
      assert info == BaseRecord(storePath, fileSize, narPath, host);
      var references := SplitWhitespace(host.query("--references", storePath));
      if references != [] {
        info := Put(info, References, JoinWith(Basenames(references), " "));
      }
      var deriver := host.query("--deriver", storePath);
      if deriver != "unknown-deriver" {
        info := Put(info, Deriver, Basename(deriver));
      }
    }

    /** The `/nix-cache-info` route (lines 167-170): the descriptor made
        at start-up, which reads back as its three entries. */
    function NixCacheInfo(): (r: Reply)
      requires cacheInfo == CacheInfo(nixStorePath)
      reads this
      ensures r.Text? && r.status == 200 && r.contentType == None
      ensures '\n' !in nixStorePath ==>
        Parse(r.body) == Some([("StoreDir", nixStorePath), ("WantMassQuery", "1"), ("Priority", "30")])
    {
      if '\n' in nixStorePath then Text(cacheInfo, 200, None)
      else
        CacheInfoDocument(nixStorePath);
        Text(cacheInfo, 200, None)
    }

    /** The `/<hash>.narinfo` route (lines 184-200). */
    method GetNarinfo(objHash: string, host: Host) returns (r: Result<Reply>, ghost repairs: seq<string>)
      requires Valid()
      modifies this
      ensures Valid()
      ensures (r, Snapshot()) == NarinfoOutcome(old(Snapshot()), nixStorePath, compressionType, narExtension, objHash, host)
      ensures repairs == NarinfoWrites(old(Snapshot()), nixStorePath, compressionType, narExtension, objHash, host)
    {
      if !MatchesHashPattern(objHash) {
        return Success(Text(BadHashMessage(objHash), 400, None)), [];
      }
      var storePath := StorePathFromHash(objHash, host);
      if storePath.Failure? {
        return Caught(storePath.error), [];
      }
      r, repairs := ServeStoredRecord(storePath.value, objHash, host);
    }

    /** Lines 189-200: fetch the record, assign the download keys into it,
        and render it. */
    method ServeStoredRecord(storePath: string, objHash: string, host: Host)
      returns (r: Result<Reply>, ghost repairs: seq<string>)
      requires Valid()
      modifies this
      ensures Valid()
      ensures r == ServeRecord(old(pathsToInfo), storePath, compressionType, narExtension, objHash, host).0
      ensures pathsToInfo == ServeRecord(old(pathsToInfo), storePath, compressionType, narExtension, objHash, host).1
      ensures hashesToPaths == old(hashesToPaths)
      ensures repairs == RepairWrites(old(pathsToInfo), storePath, compressionType, narExtension, host)
    {
      ghost var cache := pathsToInfo;
      var storeInfo;
      storeInfo, repairs := GetObjectInfo(storePath, host);
      if storeInfo.Failure? {
        return Caught(storeInfo.error), repairs;
      }
      CacheDownloadValid(cache, storePath, compressionType, narExtension, objHash, host);
      var doc := WithDownload(storeInfo.value, objHash, narExtension, compressionType);
      ReplaceEntry(cache, pathsToInfo, storePath, doc);
      pathsToInfo := pathsToInfo[storePath := doc];
      var infoString := Render(doc);
      return Success(Text(infoString, 200, Some("text/x-nix-narinfo"))), repairs;
    }

    /** The `/nar/<hash><extension>` route (lines 202-216). */
    method ServeNar(objHash: string, host: Host) returns (r: Result<Reply>)
      requires Valid()
      modifies this
      ensures Valid()
      ensures (r, hashesToPaths) == NarOutcome(old(hashesToPaths), nixStorePath, compressionType, narExtension,
                                               contentType, objHash, host)
      ensures pathsToInfo == old(pathsToInfo)
    {
      var storePath := StorePathFromHash(objHash, host);
      if storePath.Failure? {
        return Caught(storePath.error);
      }
      var narPath := BuildNar(storePath.value, host);
      if narPath.Failure? {
        return Failure(narPath.error);
      }
      return Success(File(narPath.value, contentType));
    }
  }

  // =====================================================================
  // What the routes promise
  // =====================================================================

  /** The cache descriptor reads back as its three entries when the store
      directory is one line. */
  lemma CacheInfoDocument(store: string)
    requires '\n' !in store
    ensures Parse(CacheInfo(store)) == Some([("StoreDir", store), ("WantMassQuery", "1"), ("Priority", "30")])
  {
    var ps := [("StoreDir", store), ("WantMassQuery", "1"), ("Priority", "30")];
    assert Line(ps[0]) == "StoreDir: " + store by {
      assert "StoreDir" + ": " == "StoreDir: ";
    }
    assert Line(ps[1]) == "WantMassQuery: 1" by {
      assert "WantMassQuery" + ": " + "1" == "WantMassQuery: 1";
    }
    assert Line(ps[2]) == "Priority: 30" by {
      assert "Priority" + ": " + "30" == "Priority: 30";
    }
    assert Lines(ps) == ["StoreDir: " + store, "WantMassQuery: 1", "Priority: 30"];
    assert OneLine(ps[0]) && OneLine(ps[1]) && OneLine(ps[2]);
    RenderRoundTrip(ps);
  }

  /** A narinfo request answers 400 exactly when the hash fails the
      pattern, and then changes nothing. */
  lemma NarinfoBadRequest(st: State, store: string, compressionType: string, ext: string,
                          objHash: string, host: Host)
    ensures var (r, st') := NarinfoOutcome(st, store, compressionType, ext, objHash, host);
      (r.Success? && r.value.Text? && r.value.status == 400) <==> !MatchesHashPattern(objHash)
    ensures !MatchesHashPattern(objHash) ==>
      NarinfoOutcome(st, store, compressionType, ext, objHash, host).1 == st
  {
  }

  /** The pattern only checks the first 32 characters, so a longer string
      gets past it, but it is never in the index nor in any listing: the
      request ends in 404, after scanning the store. */
  lemma NarinfoLongHashNotFound(st: State, store: string, compressionType: string, ext: string,
                                objHash: string, host: Host)
    requires HashKeys(st.index)
    requires MatchesHashPattern(objHash) && |objHash| > 32
    ensures NarinfoOutcome(st, store, compressionType, ext, objHash, host).0
         == Success(Text(NotFoundMessage(objHash), 404, None))
  {
    NonHashNeverFound(st.index, store, host.listdir(store), objHash);
  }

  /** A 200 narinfo reply is for an exact hash; the index then maps it to
      the path of a store object whose name starts with that hash, the
      cached record of that path carries the download keys, and the reply
      is that record rendered, typed as a narinfo. */
  lemma NarinfoServed(st: State, store: string, compressionType: string, ext: string,
                      objHash: string, host: Host)
    requires HashKeys(st.index) && StoreEntries(st.index, store)
    ensures var (r, st') := NarinfoOutcome(st, store, compressionType, ext, objHash, host);
      r.Success? && r.value.Text? && r.value.status == 200 ==>
        && IsHash(objHash)
        && objHash in st'.index
        && StoreObjectPath(st'.index[objHash], store, objHash)
        && st'.index[objHash] in st'.cache
        && var doc := st'.cache[st'.index[objHash]];
        && Get(doc, URL) == Some("nar/" + objHash + ext)
        && Get(doc, Compression) == Some(compressionType)
        && r.value == Text(Render(doc), 200, Some("text/x-nix-narinfo"))
  {
    if MatchesHashPattern(objHash) {
      var names := host.listdir(store);
      var (found, index) := Resolve(st.index, store, names, objHash);
      if !IsHash(objHash) {
        NonHashNeverFound(st.index, store, names, objHash);
      } else if found.Success? {
        ResolveThenCached(st.index, store, names, objHash, names);
        ResolveFindsStoreObject(st.index, store, names, objHash);
      }
    }
  }

  /** Once a narinfo request has succeeded, asking again for the same hash
      gives the same reply, leaves the state as it is and repairs nothing,
      whatever the store directory lists by then. */
  lemma NarinfoRepeatable(st: State, store: string, compressionType: string, ext: string,
                          objHash: string, host: Host, later: Host)
    requires var (r, _) := NarinfoOutcome(st, store, compressionType, ext, objHash, host);
      r.Success? && r.value.Text? && r.value.status == 200
    ensures var (r, st') := NarinfoOutcome(st, store, compressionType, ext, objHash, host);
      && NarinfoOutcome(st', store, compressionType, ext, objHash, later) == (r, st')
      && NarinfoWrites(st', store, compressionType, ext, objHash, later) == []
  {
    var names := host.listdir(store);
    var (found, index) := Resolve(st.index, store, names, objHash);
    assert found.Success?;
    ResolveThenCached(st.index, store, names, objHash, later.listdir(store));
    ServeRecordRepeatable(st.cache, found.value, compressionType, ext, objHash, host, later);
  }

  /** Serving a record that was found leaves it cached with its download
      keys, so serving it again is a cache hit that changes nothing. */
  lemma ServeRecordRepeatable(cache: map<string, Record>, storePath: string, compressionType: string,
                              ext: string, objHash: string, host: Host, later: Host)
    requires InfoFor(cache, storePath, compressionType, ext, host).Success?
    ensures var served := ServeRecord(cache, storePath, compressionType, ext, objHash, host);
      storePath in served.1 && ServeRecord(served.1, storePath, compressionType, ext, objHash, later) == served
  {
    var info := InfoFor(cache, storePath, compressionType, ext, host).value;
    var served := ServeInfo(cache, storePath, Success(info), compressionType, ext, objHash);
    ServeInfoRepeatable(cache, storePath, info, compressionType, ext, objHash);
    assert InfoFor(served.1, storePath, compressionType, ext, later) == Success(served.1[storePath]);
  }

  lemma ServeInfoRepeatable(cache: map<string, Record>, storePath: string, info: Record,
                            compressionType: string, ext: string, objHash: string)
    ensures var served := ServeInfo(cache, storePath, Success(info), compressionType, ext, objHash);
      && storePath in served.1
      && ServeInfo(served.1, storePath, Success(served.1[storePath]), compressionType, ext, objHash) == served
  {
    var doc := WithDownload(info, objHash, ext, compressionType);
    WithDownloadIdempotent(info, objHash, ext, compressionType);
    assert cache[storePath := doc][storePath := doc] == cache[storePath := doc];
  }

  /** `serve_nar` does not check the hash's form; with only hashes as
      index keys, anything but an exact hash still ends in 404. */
  lemma NarNonHashNotFound(index: Index, store: string, compressionType: string, ext: string,
                           contentType: string, objHash: string, host: Host)
    requires HashKeys(index)
    requires !IsHash(objHash)
    ensures NarOutcome(index, store, compressionType, ext, contentType, objHash, host).0
         == Success(Text(NotFoundMessage(objHash), 404, None))
  {
    NonHashNeverFound(index, store, host.listdir(store), objHash);
  }
}
