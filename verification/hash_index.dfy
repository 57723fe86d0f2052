/**
 * The hash index of `NixServer.store_path_from_hash`: a dict from the
 * 32-character hash that starts every store object's name to the object's
 * full path, filled lazily by scanning the store directory.
 *
 * This module states what one lookup does to the index, as functions of the
 * index before the call and the directory listing; the class in servenix.dfy
 * runs the same lookup as a loop and is proved to agree with `Resolve`.
 */
module HashIndex {
  import opened Wrappers
  import opened PyText
  import opened Exceptions

  /** A character of the class `[a-z0-9]`. */
  predicate IsHashChar(c: char) {
    'a' <= c <= 'z' || '0' <= c <= '9'
  }

  /** `_HASH_REGEX.match(s) is not None` for `_HASH_REGEX = [a-z0-9]{32}`:
      `re.match` anchors at the start only, so a longer string whose first
      32 characters qualify matches too. */
  predicate MatchesHashPattern(s: string) {
    |s| >= 32 && forall i :: 0 <= i < 32 ==> IsHashChar(s[i])
  }

  /** Exactly a 32-character hash. */
  predicate IsHash(s: string) {
    |s| == 32 && MatchesHashPattern(s)
  }

  /** `_PATH_REGEX.match(name) is not None` for `([a-z0-9]{32})-.*`: `.*`
      may match nothing, so the name needs 33 characters, the last of them
      a dash. */
  predicate MatchesPathPattern(name: string) {
    |name| >= 33 && MatchesHashPattern(name) && name[32] == '-'
  }

  /** `match.group(1)`: the hash a matching name starts with. */
  function HashOf(name: string): (h: string)
    requires MatchesPathPattern(name)
    ensures IsHash(h) && h == name[..32]
  {
    name[..32]
  }

  /** `name` is a store object whose hash is `h`. */
  predicate HasHash(name: string, h: string) {
    MatchesPathPattern(name) && name[..32] == h
  }

  /** The message of the `NoSuchObject` raised on a miss. */
  function NotFoundMessage(h: string): string {
    "No object with hash " + h + " was found."
  }

  type Index = map<string, string>

  /** One turn of the scanning loop: a matching name is stored under its
      hash, overwriting whatever was there. */
  function Learn(m: Index, store: string, name: string): Index {
    if MatchesPathPattern(name) then m[HashOf(name) := PathJoin(store, name)] else m
  }

  /** The index after every name of `names` has been recorded in turn. */
  function Indexed(m: Index, store: string, names: seq<string>): Index
    decreases |names|
  {
    if names == [] then m else Indexed(Learn(m, store, names[0]), store, names[1..])
  }

  /** The scan of a miss: record names in listing order and stop at the
      first one carrying the requested hash; without one, `NoSuchObject`. */
  function Scan(m: Index, store: string, names: seq<string>, h: string): (Result<string>, Index)
    decreases |names|
  {
    if names == [] then (Failure(NoSuchObject(NotFoundMessage(h))), m)
    else
      var m' := Learn(m, store, names[0]);
      if HasHash(names[0], h) then (Success(PathJoin(store, names[0])), m')
      else Scan(m', store, names[1..], h)
  }

  /** One lookup: the cached path on a hit (the listing is not read),
      otherwise the scan.  Gives the result and the index afterwards. */
  function Resolve(m: Index, store: string, names: seq<string>, h: string): (Result<string>, Index) {
    if h in m then (Success(m[h]), m) else Scan(m, store, names, h)
  }

  /** The position of the first name in the listing that carries hash `h`. */
  function FirstWithHash(names: seq<string>, h: string): (r: Option<nat>)
    ensures r.Some? ==> r.value < |names| && HasHash(names[r.value], h)
    ensures r.Some? ==> forall j :: 0 <= j < r.value ==> !HasHash(names[j], h)
    ensures r.None? ==> forall j :: 0 <= j < |names| ==> !HasHash(names[j], h)
  {
    if names == [] then None
    else if HasHash(names[0], h) then Some(0)
    else match FirstWithHash(names[1..], h)
      case None => None
      case Some(i) => Some(i + 1)
  }

  /** The hashes of all the matching names of a listing. */
  function MatchedHashes(names: seq<string>): set<string> {
    set i | 0 <= i < |names| && MatchesPathPattern(names[i]) :: names[i][..32]
  }

  /** `names[j]` matches and no later name carries the same hash. */
  predicate LastWithItsHash(names: seq<string>, j: nat)
    requires j < |names|
  {
    MatchesPathPattern(names[j]) &&
    forall j' :: j < j' < |names| ==> !HasHash(names[j'], names[j][..32])
  }

  /** Every key of the index is a 32-character hash. */
  predicate HashKeys(m: Index) {
    forall k :: k in m ==> IsHash(k)
  }

  /** Every entry maps a hash to the path, in the store directory, of an
      object whose name starts with that hash: the one assignment of the
      scan (line 70) stores a joined name under that name's own hash. */
  ghost predicate StoreEntries(m: Index, store: string) {
    forall k :: k in m ==> StoreObjectPath(m[k], store, k)
  }

  /** `path` is the store directory joined with the name of an object whose
      hash is `h`. */
  ghost predicate StoreObjectPath(path: string, store: string, h: string) {
    exists n :: HasHash(n, h) && path == PathJoin(store, n)
  }

  // =====================================================================
  // Lemmas
  // =====================================================================

  /** `_HASH_REGEX.match` asks only that the first 32 characters form a
      hash: a hash passes, and so does a hash followed by anything. */
  lemma MatchesHashPatternPrefix(s: string, rest: string)
    ensures MatchesHashPattern(s) <==> |s| >= 32 && IsHash(s[..32])
    ensures IsHash(s) ==> MatchesHashPattern(s) && MatchesHashPattern(s + rest)
  {
    if |s| >= 32 {
      assert forall i :: 0 <= i < 32 ==> s[..32][i] == s[i];
    }
    if IsHash(s) {
      assert forall i :: 0 <= i < 32 ==> (s + rest)[i] == s[i];
    }
  }

  /** `_PATH_REGEX` matches a hash, a dash and any tail, and nothing else:
      the name splits back into its hash, the dash and the tail. */
  lemma MatchesPathPatternShape(name: string, h: string, tail: string)
    ensures MatchesPathPattern(name) <==> |name| >= 33 && IsHash(name[..32]) && name[32] == '-'
    ensures MatchesPathPattern(name) ==> name == HashOf(name) + "-" + name[33..]
    ensures IsHash(h) ==> MatchesPathPattern(h + "-" + tail) && HashOf(h + "-" + tail) == h
  {
    MatchesHashPatternPrefix(name, "");
    if MatchesPathPattern(name) {
      assert name == name[..32] + [name[32]] + name[33..];
    }
    if IsHash(h) {
      var s := h + "-" + tail;
      MatchesHashPatternPrefix(h, "-" + tail);
      assert s == h + ("-" + tail);
      assert s[..32] == h;
      assert s[32] == '-';
    }
  }

  /** The scan is the prefix of the listing up to and including the first
      name with the requested hash, recorded in order; names after it are
      neither looked at nor recorded. */
  lemma {:induction false} ScanIsIndexed(m: Index, store: string, names: seq<string>, h: string)
    ensures FirstWithHash(names, h).Some? ==>
      var i := FirstWithHash(names, h).value;
      Scan(m, store, names, h) == (Success(PathJoin(store, names[i])), Indexed(m, store, names[..i + 1]))
    ensures FirstWithHash(names, h).None? ==>
      Scan(m, store, names, h) == (Failure(NoSuchObject(NotFoundMessage(h))), Indexed(m, store, names))
    decreases |names|
  {
    if names != [] {
      var m' := Learn(m, store, names[0]);
      if HasHash(names[0], h) {
        assert names[..1][1..] == [];
      } else {
        ScanIsIndexed(m', store, names[1..], h);
        if FirstWithHash(names, h).Some? {
          var i := FirstWithHash(names, h).value;
          assert names[..i + 1][1..] == names[1..][..i];
        }
      }
    }
  }

  /** Recording never removes a key, and adds exactly the hashes of the
      matching names. */
  lemma {:induction false} IndexedKeys(m: Index, store: string, names: seq<string>)
    ensures Indexed(m, store, names).Keys == m.Keys + MatchedHashes(names)
    decreases |names|
  {
    if names != [] {
      IndexedKeys(Learn(m, store, names[0]), store, names[1..]);
      var first := if MatchesPathPattern(names[0]) then {names[0][..32]} else {};
      assert MatchedHashes(names) == first + MatchedHashes(names[1..]) by {
        forall k | k in MatchedHashes(names) ensures k in first + MatchedHashes(names[1..]) {
          var i :| 0 <= i < |names| && MatchesPathPattern(names[i]) && names[i][..32] == k;
          if i > 0 { assert names[1..][i - 1] == names[i]; }
        }
        forall k | k in MatchedHashes(names[1..]) ensures k in MatchedHashes(names) {
          var i :| 0 <= i < |names[1..]| && MatchesPathPattern(names[1..][i]) && names[1..][i][..32] == k;
          assert names[i + 1] == names[1..][i];
        }
      }
    }
  }

  /** A key that no listed name carries keeps its old value. */
  lemma {:induction false} IndexedUntouched(m: Index, store: string, names: seq<string>, k: string)
    requires k in m
    requires forall j :: 0 <= j < |names| ==> !HasHash(names[j], k)
    ensures k in Indexed(m, store, names) && Indexed(m, store, names)[k] == m[k]
    decreases |names|
  {
    if names != [] {
      IndexedUntouched(Learn(m, store, names[0]), store, names[1..], k);
    }
  }

  /** A matching name that no later name shares a hash with is what the
      index holds for its hash: the last such name wins. */
  lemma {:induction false} IndexedLatest(m: Index, store: string, names: seq<string>, j: nat)
    requires j < |names| && LastWithItsHash(names, j)
    ensures var k := names[j][..32];
      k in Indexed(m, store, names) && Indexed(m, store, names)[k] == PathJoin(store, names[j])
    decreases |names|
  {
    var k := names[j][..32];
    var m' := Learn(m, store, names[0]);
    if j == 0 {
      IndexedUntouched(m', store, names[1..], k);
    } else {
      IndexedLatest(m', store, names[1..], j - 1);
    }
  }

  /** A lookup never removes a key from the index. */
  lemma {:induction false} ResolveKeepsKeys(m: Index, store: string, names: seq<string>, h: string)
    ensures m.Keys <= Resolve(m, store, names, h).1.Keys
  {
    if h !in m {
      ScanIsIndexed(m, store, names, h);
      match FirstWithHash(names, h)
      case Some(i) => IndexedKeys(m, store, names[..i + 1]);
      case None => IndexedKeys(m, store, names);
    }
  }

  /** A lookup keeps every key of the index a 32-character hash. */
  lemma ResolveKeepsHashKeys(m: Index, store: string, names: seq<string>, h: string)
    requires HashKeys(m)
    ensures HashKeys(Resolve(m, store, names, h).1)
  {
    if h !in m {
      ScanIsIndexed(m, store, names, h);
      var stop := match FirstWithHash(names, h) case Some(i) => i + 1 case None => |names|;
      IndexedKeys(m, store, names[..stop]);
      assert names[..stop] == if FirstWithHash(names, h).Some? then names[..stop] else names;
    }
  }

  /** A scan only ever stores a store object's joined path under that
      object's own hash. */
  lemma {:induction false} ScanKeepsStoreEntries(m: Index, store: string, names: seq<string>, h: string)
    requires StoreEntries(m, store)
    ensures StoreEntries(Scan(m, store, names, h).1, store)
    decreases |names|
  {
    if names != [] {
      var m' := Learn(m, store, names[0]);
      assert StoreEntries(m', store) by {
        if MatchesPathPattern(names[0]) {
          forall k | k in m' ensures StoreObjectPath(m'[k], store, k) {
            if k == HashOf(names[0]) {
              assert HasHash(names[0], k);
            } else {
              assert k in m && m'[k] == m[k];
            }
          }
        }
      }
      if !HasHash(names[0], h) {
        ScanKeepsStoreEntries(m', store, names[1..], h);
      }
    }
  }

  /** A lookup keeps every entry a store object under its own hash, and a
      path it finds is the store directory joined with the name of an
      object whose hash is the one asked for. */
  lemma ResolveFindsStoreObject(m: Index, store: string, names: seq<string>, h: string)
    requires StoreEntries(m, store)
    ensures StoreEntries(Resolve(m, store, names, h).1, store)
    ensures Resolve(m, store, names, h).0.Success? ==>
      StoreObjectPath(Resolve(m, store, names, h).0.value, store, h)
  {
    if h !in m {
      ScanKeepsStoreEntries(m, store, names, h);
      if Scan(m, store, names, h).0.Success? {
        ScanFoundIsCached(m, store, names, h);
      }
    }
  }

  /** A miss on a listing without the requested hash: `NoSuchObject`, and
      afterwards every matching name of the listing is indexed under its
      hash, with the path of the last name carrying that hash. */
  lemma MissRecordsWholeListing(m: Index, store: string, names: seq<string>, h: string)
    requires h !in m
    requires forall j :: 0 <= j < |names| ==> !HasHash(names[j], h)
    ensures Resolve(m, store, names, h).0 == Failure(NoSuchObject(NotFoundMessage(h)))
    ensures Resolve(m, store, names, h).1.Keys == m.Keys + MatchedHashes(names)
    ensures forall j :: 0 <= j < |names| && LastWithItsHash(names, j) ==>
      Resolve(m, store, names, h).1[names[j][..32]] == PathJoin(store, names[j])
  {
    ScanIsIndexed(m, store, names, h);
    IndexedKeys(m, store, names);
    forall j | 0 <= j < |names| && LastWithItsHash(names, j)
      ensures Indexed(m, store, names)[names[j][..32]] == PathJoin(store, names[j])
    {
      IndexedLatest(m, store, names, j);
    }
  }

  /** A miss on a listing with the requested hash: the path of the first
      name carrying it, and the index gains the hashes of the names up to
      that one and of no name after it. */
  lemma MissFindsFirst(m: Index, store: string, names: seq<string>, h: string, i: nat)
    requires h !in m
    requires i < |names| && HasHash(names[i], h)
    requires forall j :: 0 <= j < i ==> !HasHash(names[j], h)
    ensures Resolve(m, store, names, h).0 == Success(PathJoin(store, names[i]))
    ensures Resolve(m, store, names, h).1.Keys == m.Keys + MatchedHashes(names[..i + 1])
    ensures Resolve(m, store, names, h).1[h] == PathJoin(store, names[i])
  {
    assert FirstWithHash(names, h) == Some(i);
    ScanIsIndexed(m, store, names, h);
    IndexedKeys(m, store, names[..i + 1]);
    IndexedLatest(m, store, names[..i + 1], i);
  }

  /** Once a lookup has succeeded, the same hash is a cache hit with the
      same path, whatever the directory lists later, and the index stays as
      it is. */
  lemma {:induction false} ResolveThenCached(m: Index, store: string, names: seq<string>, h: string, later: seq<string>)
    requires Resolve(m, store, names, h).0.Success?
    ensures var (r, m') := Resolve(m, store, names, h);
      h in m' && Resolve(m', store, later, h) == (r, m')
  {
    if h !in m {
      ScanFoundIsCached(m, store, names, h);
    }
  }

  lemma {:induction false} ScanFoundIsCached(m: Index, store: string, names: seq<string>, h: string)
    requires Scan(m, store, names, h).0.Success?
    ensures var (r, m') := Scan(m, store, names, h);
      h in m' && r == Success(m'[h])
    decreases |names|
  {
    if !HasHash(names[0], h) {
      ScanFoundIsCached(Learn(m, store, names[0]), store, names[1..], h);
    }
  }

  /** A string that is not exactly a 32-character hash is never found,
      however long the listing: only its scan side effect remains. */
  lemma {:induction false} NonHashNeverFound(m: Index, store: string, names: seq<string>, h: string)
    requires HashKeys(m)
    requires !IsHash(h)
    ensures Resolve(m, store, names, h).0 == Failure(NoSuchObject(NotFoundMessage(h)))
  {
    assert h !in m;
    ScanIsIndexed(m, store, names, h);
    forall j | 0 <= j < |names| ensures !HasHash(names[j], h) {
      if MatchesPathPattern(names[j]) {
        assert IsHash(HashOf(names[j]));
      }
    }
  }

  /** As written, a scan overwrites entries that are already indexed (line
      70 assigns unconditionally): after a hash has been resolved to one
      path, a scan for another hash can re-point it at a different object
      with the same hash, and later lookups return that one instead. */
  lemma RescanReplacesEntry(store: string, h: string, a: string, b: string, other: string)
    requires HasHash(a, h) && HasHash(b, h) && a != b && '/' !in a && '/' !in b
    requires MatchesPathPattern(other) && other[..32] != h
    ensures var (r1, m1) := Resolve(map[], store, [a], h);
      var (r2, m2) := Resolve(m1, store, [b, other], other[..32]);
      && r1 == Success(PathJoin(store, a))
      && r2 == Success(PathJoin(store, other))
      && Resolve(m2, store, [], h).0 == Success(PathJoin(store, b))
      && PathJoin(store, a) != PathJoin(store, b)
  {
    PathJoinInjective(store, a, b);
    var m1 := Resolve(map[], store, [a], h).1;
    assert m1 == map[h := PathJoin(store, a)];
    var m1' := Learn(m1, store, b);
    assert m1' == map[h := PathJoin(store, b)];
    assert [b, other][1..] == [other];
    assert Scan(m1, store, [b, other], other[..32]) == Scan(m1', store, [other], other[..32]);
    var m2 := m1'[other[..32] := PathJoin(store, other)];
    assert Scan(m1', store, [other], other[..32]) == (Success(PathJoin(store, other)), m2);
    assert h in m2 && m2[h] == PathJoin(store, b);
  }
}
