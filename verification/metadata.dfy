/**
 * What `NixServer.build_nar` and `NixServer.get_object_info` compute, as
 * functions of the answers of the external tools (module Host): the nix
 * expression handed to `nix-build`, the archive found in its output
 * directory, the `FileSize` read from `du`, the hash-repair decision and
 * the store-object record.  The class in servenix.dfy performs these steps
 * one by one and is proved to agree with the functions here.
 */
module Metadata {
  import opened Wrappers
  import opened PyText
  import opened Exceptions
  import opened Narinfo
  import opened Host

  // ---------------------------------------------------------------------
  // build_nar
  // ---------------------------------------------------------------------

  /** The five parts the expression of lines 139-144 is joined from: the
      nar.nix builder, the store path binding, the fixed hash algorithm,
      the compression type binding and the closing brace. */
  const NarOpen := "(import <nix/nar.nix> {"
  function StorePathBinding(storePath: string): string {
    "storePath = \"" + storePath + "\";"
  }
  const HashAlgoBinding := "hashAlgo = \"sha256\";"
  function CompressionBinding(compressionType: string): string {
    "compressionType = \"" + compressionType + "\";"
  }
  const NarClose := "})"

  function NarExpression(storePath: string, compressionType: string): string {
    NarOpen + StorePathBinding(storePath) + HashAlgoBinding + CompressionBinding(compressionType) + NarClose
  }

  /** The position of the first name that ends with `ext`. */
  function FirstEndingWith(names: seq<string>, ext: string): (r: Option<nat>)
    ensures r.Some? ==> r.value < |names| && EndsWith(names[r.value], ext)
    ensures r.Some? ==> forall j :: 0 <= j < r.value ==> !EndsWith(names[j], ext)
    ensures r.None? ==> forall j :: 0 <= j < |names| ==> !EndsWith(names[j], ext)
  {
    if names == [] then None
    else if EndsWith(names[0], ext) then Some(0)
    else match FirstEndingWith(names[1..], ext)
      case None => None
      case Some(i) => Some(i + 1)
  }

  /** The directory `nix-build` reports for the archive of a store path. */
  function BuildDir(storePath: string, compressionType: string, host: Host): string {
    host.nixBuild(NarExpression(storePath, compressionType))
  }

  /** The result of `build_nar`: the output directory joined with its first
      entry ending with the extension, or `NoNarGenerated`. */
  function NarFile(storePath: string, compressionType: string, ext: string, host: Host): (r: Result<string>)
    ensures var dir := BuildDir(storePath, compressionType, host);
      var names := host.listdir(dir);
      && (r.Failure? <==> forall j :: 0 <= j < |names| ==> !EndsWith(names[j], ext))
      && (r.Failure? ==> r.error == NoNarGenerated(dir, ext))
  {
    var dir := BuildDir(storePath, compressionType, host);
    var names := host.listdir(dir);
    match FirstEndingWith(names, ext)
    case Some(i) => Success(PathJoin(dir, names[i]))
    case None => Failure(NoNarGenerated(dir, ext))
  }

  // ---------------------------------------------------------------------
  // get_object_info
  // ---------------------------------------------------------------------

  /** `str(int(du.split()[0]))`: the first field of the `du` output read
      as a number and printed back.  No field, or a field that is not a
      number, raises. */
  function FileSizeOf(du: string): (r: Result<string>)
    ensures r.Success? ==> r.value != [] && IsDigits(r.value) && (r.value[0] != '0' || |r.value| == 1)
    ensures r.Failure? <==> SplitWhitespace(du) == [] || ParseDecimal(SplitWhitespace(du)[0]).None?
    ensures r.Failure? ==> r.error == InvalidSize(du)
  {
    var fields := SplitWhitespace(du);
    if fields == [] then Failure(InvalidSize(du))
    else match ParseDecimal(fields[0])
      case None => Failure(InvalidSize(du))
      case Some(n) => Success(NatToDecimal(n))
  }

  /** The hash recomputed from the store path itself, in the form
      `nix-store --query --hash` reports. */
  function CorrectHash(storePath: string, host: Host): string {
    "sha256:" + host.hashPath(storePath)
  }

  /** The registered hash differs from the recomputed one: the database
      needs the corrective write. */
  predicate NeedsRepair(storePath: string, host: Host) {
    CorrectHash(storePath, host) != host.query("--hash", storePath)
  }

  /** The error the failed corrective write should raise: it names the
      store path and both hashes. */
  function UpdateFailure(storePath: string, registered: string, correct: string): (e: Error)
    ensures e.CouldNotUpdateHash? && e.path == storePath
    ensures e.registered == registered && e.correct == correct
  {
    CouldNotUpdateHash(storePath, registered, correct)
  }

  /** The error the failed corrective write raises as line 118 is written:
      evaluating the undefined name `path` raises `NameError` before the
      intended exception is built. */
  function UpdateFailureAsWritten(storePath: string, registered: string, correct: string): (e: Error)
    ensures e == NameError("path")
  {
    NameError("path")
  }

  /** The keys every record starts with, in the order of the dict literal. */
  const BaseKeys: seq<Field> := [StorePath, NarHash, NarSize, FileSize, FileHash]

  /** The dict literal of lines 120-126: its five keys in the order
      written, each holding its value. */
  function BaseRecord(storePath: string, fileSize: string, narPath: string, host: Host): Record {
    Record(BaseKeys,
           map[StorePath := storePath,
               NarHash := CorrectHash(storePath, host),
               NarSize := host.query("--size", storePath),
               FileSize := fileSize,
               FileHash := "sha256:" + host.hashFile(narPath)])
  }

  /** Lines 127-129: the `References` value, the space-joined basenames
      of what `nix-store --query --references` lists, or no value when it
      lists nothing. */
  function ReferencesValue(queryOutput: string): Option<string> {
    var refs := SplitWhitespace(queryOutput);
    if refs != [] then Some(JoinWith(Basenames(refs), " ")) else None
  }

  /** Lines 130-132: the `Deriver` value, the basename of what
      `nix-store --query --deriver` prints, or no value when it prints
      `unknown-deriver`. */
  function DeriverValue(queryOutput: string): Option<string> {
    if queryOutput != "unknown-deriver" then Some(Basename(queryOutput)) else None
  }

  /** Assigns `k` only when there is a value for it. */
  function PutOptional(d: Record, k: Field, v: Option<string>): (r: Record)
    ensures v.None? ==> r == d
    ensures v.Some? ==> r == Put(d, k, v.value)
  {
    match v
    case None => d
    case Some(x) => Put(d, k, x)
  }

  /** The record of lines 120-132: the five fixed keys, then `References`
      when the object has references, then `Deriver` when it has a known
      deriver. */
  function InfoRecord(storePath: string, fileSize: string, narPath: string, host: Host): Record {
    var info := BaseRecord(storePath, fileSize, narPath, host);
    var info := PutOptional(info, References, ReferencesValue(host.query("--references", storePath)));
    PutOptional(info, Deriver, DeriverValue(host.query("--deriver", storePath)))
  }

  /** Lines 93-134 on a cache miss, given the archive `build_nar` produced:
      `du` must be readable, and for a stale registered hash the corrective
      update must raise no error, before the record is made. */
  function ObjectInfo(storePath: string, narPath: string, host: Host): (r: Result<Record>)
    ensures var size := FileSizeOf(host.du(narPath));
      && (size.Failure? ==> r == Failure(size.error))
      && (size.Success? && NeedsRepair(storePath, host) && !host.updateHash(storePath) ==>
            r == Failure(UpdateFailure(storePath, host.query("--hash", storePath), CorrectHash(storePath, host))))
      && (r.Success? <==> size.Success? && (NeedsRepair(storePath, host) ==> host.updateHash(storePath)))
      && (r.Success? ==> r.value == InfoRecord(storePath, size.value, narPath, host))
  {
    match FileSizeOf(host.du(narPath))
    case Failure(e) => Failure(e)
    case Success(fileSize) =>
      var registered := host.query("--hash", storePath);
      var correct := CorrectHash(storePath, host);
      if correct != registered && !host.updateHash(storePath) then
        Failure(UpdateFailure(storePath, registered, correct))
      else
        Success(InfoRecord(storePath, fileSize, narPath, host))
  }

  /** A corrective write is issued: the archive was built, `du` was read,
      and the registered hash is stale. */
  predicate RepairAttempted(storePath: string, narPath: string, host: Host) {
    FileSizeOf(host.du(narPath)).Success? && NeedsRepair(storePath, host)
  }

  /** Lines 93-134 on a cache miss: build the archive, then make the
      record. */
  function FreshInfo(storePath: string, compressionType: string, ext: string, host: Host): (r: Result<Record>)
    ensures NarFile(storePath, compressionType, ext, host).Failure? ==>
      r == Failure(NarFile(storePath, compressionType, ext, host).error)
  {
    match NarFile(storePath, compressionType, ext, host)
    case Failure(e) => Failure(e)
    case Success(narPath) => ObjectInfo(storePath, narPath, host)
  }

  /** The store paths whose registered hash a cache miss tries to
      overwrite: the argument when the archive was built, `du` was read and
      the registered hash is stale; nothing otherwise. */
  function FreshWrites(storePath: string, compressionType: string, ext: string, host: Host): (w: seq<string>)
    ensures w == [] || w == [storePath]
    ensures w != [] ==> NeedsRepair(storePath, host)
    ensures var nar := NarFile(storePath, compressionType, ext, host);
      w == [storePath] <==> nar.Success? && RepairAttempted(storePath, nar.value, host)
  {
    match NarFile(storePath, compressionType, ext, host)
    case Failure(_) => []
    case Success(narPath) => if RepairAttempted(storePath, narPath, host) then [storePath] else []
  }

  /** `get_object_info` against a cache: a hit returns the cached record
      and touches nothing else, a miss builds a fresh one. */
  function InfoFor(cache: map<string, Record>, storePath: string, compressionType: string,
                   ext: string, host: Host): (r: Result<Record>)
    ensures storePath in cache ==> r == Success(cache[storePath])
  {
    if storePath in cache then Success(cache[storePath])
    else FreshInfo(storePath, compressionType, ext, host)
  }

  /** The database writes of one `get_object_info` call: none on a hit;
      on a miss, one for the argument exactly when the archive was built,
      `du` was read and the registered hash is stale. */
  function RepairWrites(cache: map<string, Record>, storePath: string, compressionType: string,
                        ext: string, host: Host): (w: seq<string>)
    ensures w == [] || w == [storePath]
    ensures storePath in cache ==> w == []
    ensures var nar := NarFile(storePath, compressionType, ext, host);
      w == [storePath] <==> storePath !in cache && nar.Success? && RepairAttempted(storePath, nar.value, host)
  {
    if storePath in cache then [] else FreshWrites(storePath, compressionType, ext, host)
  }

  // ---------------------------------------------------------------------
  // get_narinfo's additions
  // ---------------------------------------------------------------------

  /** Lines 194-196: the download URL and the compression type, assigned
      into the record. */
  function WithDownload(info: Record, objHash: string, ext: string, compressionType: string): (d: Record)
    ensures Get(d, URL) == Some("nar/" + objHash + ext)
    ensures Get(d, Compression) == Some(compressionType)
    ensures forall k :: k != URL && k != Compression ==> Get(d, k) == Get(info, k)
    ensures WellFormed(info) ==> WellFormed(d)
  {
    Put(Put(info, URL, "nar/" + objHash + ext), Compression, compressionType)
  }

  // =====================================================================
  // Lemmas
  // =====================================================================

  /** The dict literal holds exactly its five keys, in order, each with
      its value. */
  lemma BaseRecordFields(storePath: string, fileSize: string, narPath: string, host: Host)
    ensures var info := BaseRecord(storePath, fileSize, narPath, host);
      && WellFormed(info)
      && Keys(info) == BaseKeys
      && Get(info, StorePath) == Some(storePath)
      && Get(info, NarHash) == Some(CorrectHash(storePath, host))
      && Get(info, NarSize) == Some(host.query("--size", storePath))
      && Get(info, FileSize) == Some(fileSize)
      && Get(info, FileHash) == Some("sha256:" + host.hashFile(narPath))
      && Get(info, References) == None && Get(info, Deriver) == None
      && Get(info, URL) == None && Get(info, Compression) == None
  {
  }

  /** Assigning two new optional keys to a dict appends those present,
      in order, and leaves every other key as it was. */
  lemma PutOptionalPair(d: Record, k1: Field, v1: Option<string>, k2: Field, v2: Option<string>)
    requires WellFormed(d) && k1 != k2 && Get(d, k1) == None && Get(d, k2) == None
    ensures var r := PutOptional(PutOptional(d, k1, v1), k2, v2);
      && WellFormed(r)
      && Keys(r) == Keys(d) + (if v1.Some? then [k1] else []) + (if v2.Some? then [k2] else [])
      && Get(r, k1) == v1 && Get(r, k2) == v2
      && forall k :: k != k1 && k != k2 ==> Get(r, k) == Get(d, k)
  {
  }

  /** The record's keys: the fixed ones in literal order, then
      `References` when the object has references, then `Deriver` when it
      has a known deriver; none twice. */
  lemma InfoRecordKeys(storePath: string, fileSize: string, narPath: string, host: Host)
    ensures var info := InfoRecord(storePath, fileSize, narPath, host);
      var refs := SplitWhitespace(host.query("--references", storePath));
      var deriver := host.query("--deriver", storePath);
      && WellFormed(info)
      && Keys(info) == BaseKeys + (if refs != [] then [References] else [])
                                + (if deriver != "unknown-deriver" then [Deriver] else [])
  {
    BaseRecordFields(storePath, fileSize, narPath, host);
    PutOptionalPair(BaseRecord(storePath, fileSize, narPath, host),
                    References, ReferencesValue(host.query("--references", storePath)),
                    Deriver, DeriverValue(host.query("--deriver", storePath)));
  }

  /** The record's values: `StorePath` the argument, `NarHash` always the
      recomputed hash, `NarSize` as queried, `FileSize` as read from `du`,
      `FileHash` the archive's hash, `References` the space-joined
      basenames and `Deriver` the deriver's basename, the last two only
      when present; no download keys yet. */
  lemma InfoRecordValues(storePath: string, fileSize: string, narPath: string, host: Host)
    ensures var info := InfoRecord(storePath, fileSize, narPath, host);
      && Get(info, StorePath) == Some(storePath)
      && Get(info, NarHash) == Some(CorrectHash(storePath, host))
      && Get(info, NarSize) == Some(host.query("--size", storePath))
      && Get(info, FileSize) == Some(fileSize)
      && Get(info, FileHash) == Some("sha256:" + host.hashFile(narPath))
      && Get(info, References) == ReferencesValue(host.query("--references", storePath))
      && Get(info, Deriver) == DeriverValue(host.query("--deriver", storePath))
      && Get(info, URL) == None && Get(info, Compression) == None
  {
    BaseRecordFields(storePath, fileSize, narPath, host);
    PutOptionalPair(BaseRecord(storePath, fileSize, narPath, host),
                    References, ReferencesValue(host.query("--references", storePath)),
                    Deriver, DeriverValue(host.query("--deriver", storePath)));
  }

  /** A cache whose every record is a well-formed dict naming its own
      store path. */
  predicate CacheValid(cache: map<string, Record>) {
    forall p :: p in cache ==> WellFormed(cache[p]) && Get(cache[p], StorePath) == Some(p)
  }

  /** A fresh record is a well-formed dict naming the path it was made
      for. */
  lemma FreshInfoValid(storePath: string, compressionType: string, ext: string, host: Host)
    ensures var r := FreshInfo(storePath, compressionType, ext, host);
      r.Success? ==> WellFormed(r.value) && Get(r.value, StorePath) == Some(storePath)
  {
    var nar := NarFile(storePath, compressionType, ext, host);
    if nar.Success? {
      var size := FileSizeOf(host.du(nar.value));
      if size.Success? {
        InfoRecordKeys(storePath, size.value, nar.value, host);
        InfoRecordValues(storePath, size.value, nar.value, host);
      }
    }
  }

  /** `get_object_info` hands back a well-formed record of the path it
      was asked about, from a valid cache or freshly made. */
  lemma InfoForValid(cache: map<string, Record>, storePath: string, compressionType: string,
                     ext: string, host: Host)
    requires CacheValid(cache)
    ensures var r := InfoFor(cache, storePath, compressionType, ext, host);
      r.Success? ==> WellFormed(r.value) && Get(r.value, StorePath) == Some(storePath)
  {
    FreshInfoValid(storePath, compressionType, ext, host);
  }

  /** Caching a valid record under its own path keeps the cache valid. */
  lemma CacheValidPut(cache: map<string, Record>, storePath: string, info: Record)
    requires CacheValid(cache)
    requires WellFormed(info) && Get(info, StorePath) == Some(storePath)
    ensures CacheValid(cache[storePath := info])
  {
  }

  /** Caching a record obtained for a path, with the download keys added,
      under that path keeps the cache valid. */
  lemma CacheDownloadValid(cache: map<string, Record>, storePath: string, compressionType: string,
                           ext: string, objHash: string, host: Host)
    requires CacheValid(cache)
    requires InfoFor(cache, storePath, compressionType, ext, host).Success?
    ensures var info := InfoFor(cache, storePath, compressionType, ext, host).value;
      CacheValid(cache[storePath := WithDownload(info, objHash, ext, compressionType)])
  {
    InfoForValid(cache, storePath, compressionType, ext, host);
    var info := InfoFor(cache, storePath, compressionType, ext, host).value;
    CacheValidPut(cache, storePath, WithDownload(info, objHash, ext, compressionType));
  }

  /** `build_nar` returns the first entry of the output directory with the
      extension, joined to the directory. */
  lemma NarFileFirst(storePath: string, compressionType: string, ext: string, host: Host, i: nat)
    requires var names := host.listdir(BuildDir(storePath, compressionType, host));
      && i < |names| && EndsWith(names[i], ext)
      && forall j :: 0 <= j < i ==> !EndsWith(names[j], ext)
    ensures var dir := BuildDir(storePath, compressionType, host);
      NarFile(storePath, compressionType, ext, host) == Success(PathJoin(dir, host.listdir(dir)[i]))
  {
  }

  /** The frame around the two values the expression carries. */
  const ExprHead := NarOpen + "storePath = \""
  const ExprMiddle := "\";" + HashAlgoBinding + "compressionType = \""
  const ExprTail := "\";" + NarClose

  /** The expression is the head, the store path, the middle, the
      compression type and the tail, in that order. */
  lemma NarExpressionShape(storePath: string, compressionType: string)
    ensures NarExpression(storePath, compressionType)
         == ExprHead + storePath + ExprMiddle + compressionType + ExprTail
  {
    var q1, q2 := "storePath = \"", "\";";
    var q3 := "compressionType = \"";
    assert StorePathBinding(storePath) == q1 + storePath + q2;
    assert CompressionBinding(compressionType) == q3 + compressionType + q2;
    assert NarOpen + (q1 + storePath + q2) == (NarOpen + q1) + storePath + q2;
    assert q2 + HashAlgoBinding + (q3 + compressionType + q2) == (q2 + HashAlgoBinding + q3) + compressionType + q2;
  }

  /** Two fillings of the same frame agree when the first hole cannot
      hold the character the middle starts with. */
  lemma FramedInjective(h: string, p1: string, m: string, c1: string, t: string, p2: string, c2: string)
    requires m != [] && m[0] !in p1 && m[0] !in p2
    requires h + p1 + m + c1 + t == h + p2 + m + c2 + t
    ensures p1 == p2 && c1 == c2
  {
    var e := h + p1 + m + c1 + t;
    var rest1 := m[1..] + c1 + t;
    var rest2 := m[1..] + c2 + t;
    assert e[|h|..] == p1 + [m[0]] + rest1;
    assert e[|h|..] == p2 + [m[0]] + rest2;
    IndexOfAfter(p1, m[0], rest1);
    IndexOfAfter(p2, m[0], rest2);
    assert p1 == e[|h|..][..|p1|];
    assert p2 == e[|h|..][..|p2|];
    var k := |h| + |p1| + |m|;
    assert c1 == e[k..|e| - |t|];
    assert c2 == e[k..|e| - |t|];
  }

  /** The expression determines its store path and compression type: two
      requests for different archives never share an expression (store
      paths hold no double quote). */
  lemma NarExpressionInjective(p1: string, c1: string, p2: string, c2: string)
    requires '"' !in p1 && '"' !in p2
    requires NarExpression(p1, c1) == NarExpression(p2, c2)
    ensures p1 == p2 && c1 == c2
  {
    NarExpressionShape(p1, c1);
    NarExpressionShape(p2, c2);
    assert ExprMiddle[0] == '"';
    FramedInjective(ExprHead, p1, ExprMiddle, c1, ExprTail, p2, c2);
  }

  /** `du -sb` prints the size, whitespace, then the path: `FileSize` is
      the size in decimal, whatever the path. */
  lemma FileSizeOfDuOutput(n: nat, sep: string, path: string)
    requires sep != [] && forall i :: 0 <= i < |sep| ==> IsSpace(sep[i])
    ensures FileSizeOf(NatToDecimal(n) + sep + path) == Success(NatToDecimal(n))
  {
    var s := NatToDecimal(n);
    DigitsAreWord(s);
    SplitWhitespaceWord(s, sep, path);
    DecimalRoundTrip(n);
  }

  /** A first field already written canonically (no sign, no leading zero)
      is passed through unchanged. */
  lemma FileSizeKeepsCanonicalField(field: string, sep: string, rest: string)
    requires field != [] && IsDigits(field) && (field[0] != '0' || |field| == 1)
    requires sep != [] && forall i :: 0 <= i < |sep| ==> IsSpace(sep[i])
    ensures FileSizeOf(field + sep + rest) == Success(field)
  {
    DigitsAreWord(field);
    SplitWhitespaceWord(field, sep, rest);
    var fields := SplitWhitespace(field + sep + rest);
    assert fields != [] && fields[0] == field;
    assert ParseDecimal(field) == Some(DigitsValue(field));
    DecimalCanonical(field);
  }

  /** The `References` value reads back, with `str.split()`, as the
      basenames of the references, in order (basenames are never empty
      and hold no whitespace in a store). */
  lemma ReferencesRoundTrip(storePath: string, fileSize: string, narPath: string, host: Host)
    requires var refs := SplitWhitespace(host.query("--references", storePath));
      forall i :: 0 <= i < |refs| ==> IsWord(Basename(refs[i]))
    ensures var refs := SplitWhitespace(host.query("--references", storePath));
      var v := Get(InfoRecord(storePath, fileSize, narPath, host), References);
      && (v.Some? <==> refs != [])
      && (v.Some? ==> SplitWhitespace(v.value) == Basenames(refs))
  {
    InfoRecordValues(storePath, fileSize, narPath, host);
    var refs := SplitWhitespace(host.query("--references", storePath));
    SplitJoinedWords(Basenames(refs));
  }

  /** With a stale registered hash the record never carries it: `NarHash`
      is the recomputed one, and a record exists only when the corrective
      update raised no error. */
  lemma NarHashIsRecomputed(storePath: string, narPath: string, host: Host)
    requires ObjectInfo(storePath, narPath, host).Success?
    requires NeedsRepair(storePath, host)
    ensures host.updateHash(storePath)
    ensures Get(ObjectInfo(storePath, narPath, host).value, NarHash) != Some(host.query("--hash", storePath))
  {
    var fileSize := FileSizeOf(host.du(narPath)).value;
    InfoRecordValues(storePath, fileSize, narPath, host);
  }

  /** As written, a failed corrective write raises the same `NameError`
      whichever path and hashes were involved, so the caller cannot learn
      which object was left stale; the corrected error tells them apart. */
  lemma AsWrittenUpdateFailureHidesPath(p1: string, p2: string, registered: string, correct: string)
    requires p1 != p2
    ensures UpdateFailureAsWritten(p1, registered, correct) == UpdateFailureAsWritten(p2, registered, correct)
    ensures UpdateFailure(p1, registered, correct) != UpdateFailure(p2, registered, correct)
    ensures !UpdateFailureAsWritten(p1, registered, correct).CouldNotUpdateHash?
  {
  }

  /** The first narinfo of a record: its keys followed by `URL` and
      `Compression`, none twice, the URL ending in the archive extension. */
  lemma WithDownloadKeys(info: Record, objHash: string, ext: string, compressionType: string)
    requires WellFormed(info) && Get(info, URL) == None && Get(info, Compression) == None
    ensures var doc := WithDownload(info, objHash, ext, compressionType);
      && WellFormed(doc)
      && Keys(doc) == Keys(info) + [URL, Compression]
      && EndsWith(Get(doc, URL).value, ext)
  {
    var url := "nar/" + objHash + ext;
    assert url[|url| - |ext|..] == ext;
  }

  /** The narinfo document reads back as the record's entries, in order,
      when no value spans lines. */
  lemma NarinfoDocument(info: Record, objHash: string, ext: string, compressionType: string)
    requires WellFormed(info) && Get(info, URL) == None && Get(info, Compression) == None
    requires OneLineValues(info) && '\n' !in objHash + ext && '\n' !in compressionType
    ensures var doc := WithDownload(info, objHash, ext, compressionType);
      Parse(Render(doc)) == Some(Items(doc))
  {
    var doc := WithDownload(info, objHash, ext, compressionType);
    WithDownloadKeys(info, objHash, ext, compressionType);
    var url := "nar/" + objHash + ext;
    assert '\n' !in url by {
      assert url == "nar/" + (objHash + ext);
    }
    PutOneLine(info, URL, url);
    PutOneLine(Put(info, URL, url), Compression, compressionType);
    RecordRoundTrip(doc);
  }

  /** The document's last two lines are the download keys. */
  lemma NarinfoEndsWithDownload(info: Record, objHash: string, ext: string, compressionType: string)
    requires WellFormed(info) && Get(info, URL) == None && Get(info, Compression) == None
    ensures var ps := Items(WithDownload(info, objHash, ext, compressionType));
      |ps| >= 2 && ps[|ps| - 2..] == [("URL", "nar/" + objHash + ext), ("Compression", compressionType)]
  {
    var doc := WithDownload(info, objHash, ext, compressionType);
    WithDownloadKeys(info, objHash, ext, compressionType);
    var n := |Keys(doc)|;
    ItemAt(doc, n - 2);
    ItemAt(doc, n - 1);
  }

  /** Serving the same narinfo twice leaves the record as the first time
      left it: re-assigning `URL` and `Compression` keeps their values and
      their places. */
  lemma WithDownloadIdempotent(info: Record, objHash: string, ext: string, compressionType: string)
    ensures var d := WithDownload(info, objHash, ext, compressionType);
      WithDownload(d, objHash, ext, compressionType) == d
  {
    var d := WithDownload(info, objHash, ext, compressionType);
    PutSame(d, URL, "nar/" + objHash + ext);
    PutSame(d, Compression, compressionType);
  }
}
