/** internal/barrier/barrier.go: the barrier object.  While it is Valid, the disk unsealed with
    `root` answers like the plain map `contents`, and so does the unsealed barrier. */
module Barriers {
  import opened Wrappers
  import opened Text
  import opened Crypto
  import opened PathCodecs
  import opened BarrierSpec
  import opened Sequences
  import opened Storage
  import opened PathListing

  /** n bytes from the random source. */
  method Draw(n: nat) returns (r: Bytes)
    ensures |r| == n
  {
    r := [];
    while |r| < n
      invariant |r| <= n
    {
      var b: Byte := *;
      r := r + [b];
    }
  }

  // ---- the invariant, as a predicate on the disk and the in-memory keyring ----

  /** The disk is recoverable with `root`; an unsealed keyring answers the same and holds no key
      the disk does not hold (the disk may still list older ones). */
  ghost predicate Consistent(t: Toolkit, data: Disk, root: Bytes, m: map<Bytes, Bytes>, mem: Option<Ring>) {
    && Lawful(t) && |root| == KEY_SIZE && Recoverable(t, data, root, m)
    && (mem.Some? ==>
          && GoodRing(t, mem.value) && LoadMeta(t, data) == Success((mem.value.suite, mem.value.flags))
          && Represents(t, mem.value, data, m)
          && Covers(LoadRing(t, data, root).value, mem.value)
          && LoadRing(t, data, root).value.active == mem.value.active)
  }

  lemma PutConsistent(t: Toolkit, data: Disk, root: Bytes, m: map<Bytes, Bytes>, r: Ring, key: Bytes, entry: Bytes,
      value: Bytes)
    requires Consistent(t, data, root, m, Some(r)) && !Reserved(key)
    requires OpenEntry(r, Phys(t, r, key), entry) == Some(value)
    ensures Consistent(t, data[Phys(t, r, key) := entry], root, m[key := value], Some(r))
  {
    hide Reserved, OpenEntry, Phys, LoadRing, LoadMeta, Represents, Covers;
    var pk, disk := Phys(t, r, key), LoadRing(t, data, root).value;
    PhysLaws(t, r, key, key);
    StoredOutside(t, data, data[pk := entry], pk, root);
    PutRepresents(t, r, data, m, key, entry, value);
    CoversSame(t, disk, r, pk, key, entry);
    PutRepresents(t, disk, data, m, key, entry, value);
  }

  lemma DeleteConsistent(t: Toolkit, data: Disk, root: Bytes, m: map<Bytes, Bytes>, r: Ring, key: Bytes)
    requires Consistent(t, data, root, m, Some(r)) && !Reserved(key)
    ensures Consistent(t, data - {Phys(t, r, key)}, root, m - {key}, Some(r))
  {
    hide Reserved, OpenEntry, Phys, LoadRing, LoadMeta, Represents, Covers;
    var pk, disk := Phys(t, r, key), LoadRing(t, data, root).value;
    PhysLaws(t, r, key, key);
    StoredOutside(t, data, data - {pk}, pk, root);
    DeleteRepresents(t, r, data, m, key);
    CoversSame(t, disk, r, pk, key, []);
    DeleteRepresents(t, disk, data, m, key);
  }

  /** Storing a keyring that covers the old one, wrapped with any root key. */
  lemma PersistConsistent(t: Toolkit, data: Disk, root: Bytes, m: map<Bytes, Bytes>, r: Ring, r': Ring, w: Bytes,
      root': Bytes)
    requires Consistent(t, data, root, m, Some(r)) && |root'| == KEY_SIZE
    requires GoodRing(t, r') && Covers(r', r) && (!r'.flags.versioned ==> r'.active == r.active)
    requires LoadRing(t, data[KEYRING_PATH := w], root') == Success(r')
    ensures Consistent(t, data[KEYRING_PATH := w], root', m, Some(r'))
  {
    hide LoadRing, Represents;
    PathsReserved();
    CoversRepresents(t, r', r, data, m);
    KeyringOutside(t, r', data, w, m);
  }

  /** Re-encrypting entries under the in-memory keyring. */
  lemma ReencryptConsistent(t: Toolkit, data: Disk, data': Disk, root: Bytes, m: map<Bytes, Bytes>, r: Ring)
    requires Consistent(t, data, root, m, Some(r)) && Rewritten(r, data, data')
    ensures Consistent(t, data', root, m, Some(r))
  {
    hide LoadRing, Represents, LoadMeta, Rewritten;
    var disk := LoadRing(t, data, root).value;
    RewrittenLoads(t, r, data, data', root);
    RewrittenRepresents(t, r, data, data', m);
    CoversRepresents(t, disk, r, data', m);
  }

  lemma DropConsistent(t: Toolkit, data: Disk, root: Bytes, m: map<Bytes, Bytes>, r: Ring)
    requires Consistent(t, data, root, m, Some(r)) && r.flags.versioned
    requires forall pk :: pk in data && !Reserved(pk) ==> Current(r, data[pk])
    ensures Consistent(t, data, root, m, Some(OnlyActive(r)))
  {
    hide LoadRing, Represents, LoadMeta, Current, Reserved;
    DropRepresents(t, r, data, m);
  }

  // ---- rewriting entries under another key ----

  /** Same keys; every rewritten entry lies outside "barrier/" and opens to its old plaintext. */
  ghost predicate Rewritten(r: Ring, before: Disk, after: Disk) {
    && after.Keys == before.Keys
    && forall pk :: pk in before && after[pk] != before[pk] ==>
         !Reserved(pk) && OpenEntry(r, pk, before[pk]).Some?
             && OpenEntry(r, pk, after[pk]) == OpenEntry(r, pk, before[pk])
  }

  lemma RewrittenRepresents(t: Toolkit, r: Ring, before: Disk, after: Disk, m: map<Bytes, Bytes>)
    requires Rewritten(r, before, after) && Represents(t, r, before, m)
    ensures Represents(t, r, after, m)
  {
    hide OpenEntry, Phys, Reserved;
    forall key | !Reserved(key)
      ensures AnswerFor(t, r, after, key) == MapAnswer(m, key)
    {
      assert AnswerFor(t, r, before, key) == MapAnswer(m, key);
    }
  }

  lemma RewrittenLoads(t: Toolkit, r: Ring, before: Disk, after: Disk, root: Bytes)
    requires Rewritten(r, before, after)
    ensures LoadRing(t, after, root) == LoadRing(t, before, root)
    ensures LoadMeta(t, after) == LoadMeta(t, before)
  {
    hide Reserved, OpenEntry, LoadRing;
    LoadRingFrame(t, before, after, root);
    PathsReserved();
  }

  lemma RewrittenStep(r: Ring, before: Disk, now: Disk, pk: Bytes, entry: Bytes)
    requires Rewritten(r, before, now) && pk in before && !Reserved(pk) && now[pk] == before[pk]
    requires OpenEntry(r, pk, now[pk]).Some? && OpenEntry(r, pk, entry) == OpenEntry(r, pk, now[pk])
    ensures Rewritten(r, before, now[pk := entry])
  {
    hide OpenEntry, Reserved;
  }

  predicate Carries(r: Ring, entry: Bytes, version: nat) {
    EntryVersion(r, entry).Some? && EntryVersion(r, entry).value.0 == version
  }

  /** The entry outside "barrier/" carries the active version. */
  predicate Current(r: Ring, entry: Bytes) {
    Carries(r, entry, r.active)
  }

  /** Every entry outside "barrier/" opens: nothing was written past the barrier. */
  ghost predicate AllOpen(r: Ring, data: Disk) {
    forall pk :: pk in data && !Reserved(pk) ==> OpenEntry(r, pk, data[pk]).Some?
  }

  /** Every entry outside "barrier/" opens, unless it carries this version. */
  ghost predicate OthersOpen(r: Ring, data: Disk, version: nat) {
    forall pk :: pk in data && !Reserved(pk) && !Carries(r, data[pk], version) ==> OpenEntry(r, pk, data[pk]).Some?
  }

  /** A new key does not change which entries open, other than those that carry its version. */
  lemma NewKeyOthersOpen(r: Ring, nk: Bytes, data: Disk, w: Bytes)
    requires r.flags.versioned
    ensures OthersOpen(WithNewKey(r, nk), data[KEYRING_PATH := w], r.active + 1) <==> OthersOpen(r, data, r.active + 1)
  {
    hide Reserved, SuiteOpen;
    PathsReserved();
    var new', after := WithNewKey(r, nk), data[KEYRING_PATH := w];
    forall pk | pk in data && !Reserved(pk) && !Carries(r, data[pk], r.active + 1)
      ensures after[pk] == data[pk] && OpenEntry(new', pk, after[pk]) == OpenEntry(r, pk, data[pk])
    {
    }
  }

  lemma UnversionedCloses(r: Ring, pk: Bytes, entry: Bytes)
    requires EntryVersion(r, entry).None?
    ensures OpenEntry(r, pk, entry).None?
  {}

  /** The physical keys that re-encryption has to rewrite. */
  ghost function Stale(r: Ring, data: Disk): set<Bytes> {
    set pk | pk in data && !Reserved(pk) && !Current(r, data[pk])
  }

  /** Only the active key is left. */
  function OnlyActive(r: Ring): Ring
    requires r.active in r.keys
  {
    r.(keys := map[r.active := r.keys[r.active]])
  }

  /** Once every entry is current, dropping the other keys changes no answer. */
  lemma DropRepresents(t: Toolkit, r: Ring, data: Disk, m: map<Bytes, Bytes>)
    requires GoodRing(t, r) && r.flags.versioned && Represents(t, r, data, m)
    requires forall pk :: pk in data && !Reserved(pk) ==> Current(r, data[pk])
    ensures GoodRing(t, OnlyActive(r)) && Represents(t, OnlyActive(r), data, m) && Covers(r, OnlyActive(r))
  {
    hide Reserved, SuiteOpen;
    var s := OnlyActive(r);
    forall key | !Reserved(key)
      ensures AnswerFor(t, s, data, key) == MapAnswer(m, key)
    {
      var pk := Phys(t, r, key);
      PhysLaws(t, r, key, key);
      assert Phys(t, s, key) == pk;
      assert AnswerFor(t, r, data, key) == MapAnswer(m, key);
      if pk in data {
        assert Current(r, data[pk]);
        assert OpenEntry(s, pk, data[pk]) == OpenEntry(r, pk, data[pk]);
      }
    }
  }

  /** A new key under the next version number becomes the active one. */
  function WithNewKey(r: Ring, nk: Bytes): Ring {
    r.(keys := r.keys[r.active + 1 := nk], active := r.active + 1)
  }

  lemma NewKeyCovers(t: Toolkit, r: Ring, nk: Bytes)
    requires GoodRing(t, r) && r.flags.versioned && r.active + 1 < U32 && |nk| == KEY_SIZE
    ensures GoodRing(t, WithNewKey(r, nk)) && Covers(WithNewKey(r, nk), r)
  {}

  class Barrier {
    const t: Toolkit
    const backend: Store<Byte, Bytes>
    var keys: Option<map<nat, Bytes>>   // barrier keys by version; None when sealed
    var active: nat
    var rootKey: Bytes
    var suite: Option<Suite>
    var bindAAD: bool
    var versioned: bool
    var pathKey: Bytes
    var paths: Option<PathCodec>

    ghost var root: Bytes                  // the root key the keyring is wrapped with
    ghost var contents: map<Bytes, Bytes>  // what the store holds, in the clear

    constructor (t: Toolkit, backend: Store<Byte, Bytes>)
      ensures this.t == t && this.backend == backend && keys == None
    {
      this.t, this.backend := t, backend;
      keys, active, rootKey, suite := None, 0, [], None;
      bindAAD, versioned, pathKey, paths := false, false, [], None;
    }

    /** The in-memory fields as one keyring. */
    function Mem(): Ring
      requires keys.Some? && suite.Some?
      reads this
    {
      Ring(suite.value, Flags(bindAAD, versioned, paths.Some?), keys.value, active, pathKey)
    }

    ghost predicate Valid()
      reads this, backend
    {
      && (keys.Some? ==> suite.Some? && rootKey == root && (paths.Some? ==> paths.value == Codec(t, Mem())))
      && Consistent(t, backend.data, root, contents, if keys.Some? then Some(Mem()) else None)
    }

    method PhysKey(key: Bytes) returns (pk: Bytes)
      requires keys.Some? && suite.Some? && (paths.Some? ==> paths.value == Codec(t, Mem()))
      ensures pk == Phys(t, Mem(), key)
    {
      if paths.None? {
        return key;
      }
      pk := EncodeKey(t, paths.value, key);
    }

    method Get(key: Bytes) returns (r: Result<Option<Bytes>, BarrierError>)
      requires Valid() && !Reserved(key)
      ensures keys.None? ==> r == Failure(SealedError)
      ensures keys.Some? && r.Success? ==> r.value == if key in contents then Some(contents[key]) else None
      ensures keys.Some? && r.Failure? ==> r.error == StorageError && !backend.reliable
    {
      hide OpenEntry, Reserved, Phys, GoodRing, Covers, Recoverable, LoadMeta;
      if keys.None? {
        return Failure(SealedError);
      }
      assert AnswerFor(t, Mem(), backend.data, key) == MapAnswer(contents, key);
      var pk := PhysKey(key);
      var e := backend.Get(pk);
      if e.Failure? {
        return Failure(StorageError);
      }
      if e.value.None? {
        return Success(None);
      }
      var plain := OpenEntry(Mem(), pk, e.value.value);
      if plain.None? {
        return Failure(Undecryptable);
      }
      return Success(plain);
    }

    method Put(key: Bytes, value: Bytes) returns (r: Result<(), BarrierError>)
      requires Valid() && !Reserved(key)
      modifies backend, this`contents
      ensures Valid() && root == old(root)
      ensures keys.Some? ==> Past(t, Mem(), backend.data) == old(Past(t, Mem(), backend.data))
      ensures keys.None? ==> r == Failure(SealedError)
      ensures r.Success? ==> contents == old(contents)[key := value]
      ensures r.Failure? ==> contents == old(contents) && backend.data == old(backend.data)
      ensures keys.Some? && r.Failure? ==> r.error == StorageError && !backend.reliable
    {
      hide Reserved, OpenEntry, SealEntry, Phys, Consistent, Codec, Past;
      if keys.None? {
        return Failure(SealedError);
      }
      InMemoryGood(t, backend.data, root, contents, Mem());
      var pk := PhysKey(key);
      var random := Draw(suite.value.aead(keys.value[active]).nonceSize);
      var ct := SealEntry(Mem(), random, pk, value);
      SealedEntryOpens(t, Mem(), random, pk, value);
      PutConsistent(t, backend.data, root, contents, Mem(), key, ct.value, value);
      KeyStored(t, Mem(), backend.data, key, ct.value);
      var ok := backend.Put(pk, ct.value);
      if !ok {
        return Failure(StorageError);
      }
      contents := contents[key := value];
      return Success(());
    }

    method Delete(key: Bytes) returns (r: Result<(), BarrierError>)
      requires Valid() && !Reserved(key)
      modifies backend, this`contents
      ensures Valid() && root == old(root)
      ensures keys.Some? ==> Past(t, Mem(), backend.data) == old(Past(t, Mem(), backend.data))
      ensures keys.None? ==> r == Failure(SealedError)
      ensures r.Success? ==> contents == old(contents) - {key}
      ensures r.Failure? ==> contents == old(contents) && backend.data == old(backend.data)
      ensures keys.Some? && r.Failure? ==> r.error == StorageError && !backend.reliable
    {
      hide Reserved, Phys, Consistent, Codec, Past;
      if keys.None? {
        return Failure(SealedError);
      }
      var pk := PhysKey(key);
      DeleteConsistent(t, backend.data, root, contents, Mem(), key);
      KeyStored(t, Mem(), backend.data, key, []);
      var ok := backend.Delete(pk);
      if !ok {
        return Failure(StorageError);
      }
      contents := contents - {key};
      return Success(());
    }

    /** Keys with the given prefix; sorted when stored keys are encrypted. */
    method List(prefix: Bytes) returns (r: Result<seq<Bytes>, BarrierError>)
      requires Valid()
      ensures keys.None? ==> r == Failure(SealedError)
      ensures keys.Some? && Unmixed(t, Mem(), backend.data, prefix) ==>
                && (backend.reliable ==> r.Success?)
                && (r.Success? ==> Distinct(r.value))
                && (r.Success? ==> forall k :: k in r.value <==> prefix <= k && Phys(t, Mem(), k) in backend.data)
                && (r.Success? ==> forall k :: !Reserved(k) ==> (k in r.value <==> prefix <= k && k in contents))
      ensures keys.Some? && r.Success? && paths.Some? ==> Sorted(r.value)
    {
      hide Reserved, Consistent, Sorted, Distinct, NewPathCodec, Encode, Decode, ScanPrefix, Unmixed;
      if keys.None? {
        return Failure(SealedError);
      }
      StoredIffHeld(t, backend.data, root, contents, Mem());
      if Unmixed(t, Mem(), backend.data, prefix) {
        ScannedEncoded(t, Mem(), backend.data, prefix);
      }
      if paths.None? {
        var plain := backend.List(prefix);
        if plain.Failure? {
          return Failure(StorageError);
        }
        return Success(plain.value);
      }
      var listed := ListEncrypted(t, paths.value, backend, prefix);
      if listed.Failure? {
        return Failure(listed.error);
      }
      return Success(listed.value);
    }

    /** Wraps the in-memory keyring with newRoot and stores it. */
    method PersistKeyring(newRoot: Bytes) returns (r: Result<(), BarrierError>)
      requires keys.Some? && suite.Some? && GoodRing(t, Mem())
      requires LoadMeta(t, backend.data) == Success((suite.value, Mem().flags))
      modifies backend
      ensures r.Success? ==> |newRoot| == KEY_SIZE && LoadRing(t, backend.data, newRoot) == Success(Mem())
      ensures r.Success? ==> KEYRING_PATH in backend.data
      ensures r.Success? ==> backend.data == old(backend.data)[KEYRING_PATH := backend.data[KEYRING_PATH]]
      ensures r.Success? ==> backend.trace == old(backend.trace) + [backend.data]
      ensures r.Failure? ==> backend.data == old(backend.data) && backend.trace == old(backend.trace)
      ensures r.Failure? ==> if |newRoot| == KEY_SIZE then r.error == StorageError && !backend.reliable
                else r.error == BadRootKey
    {
      hide LoadRing, LoadMeta, RingPlain;
      var plain := RingPlain(t, Mem());
      if |newRoot| != KEY_SIZE {
        return Failure(BadRootKey);
      }
      var random := Draw(suite.value.aead(newRoot).nonceSize);
      PersistLoads(t, Mem(), backend.data, newRoot, random);
      var wrapped := SuiteSeal(suite.value, newRoot, random, plain, AadFor(Mem().flags, KEYRING_PATH));
      var ok := backend.Put(KEYRING_PATH, wrapped.value);
      if !ok {
        return Failure(StorageError);
      }
      return Success(());
    }

    method Rekey(newRoot: Bytes) returns (r: Result<(), BarrierError>)
      requires Valid()
      modifies backend, this`rootKey, this`root
      ensures Valid() && contents == old(contents)
      ensures keys.Some? ==> Past(t, Mem(), backend.data) == old(Past(t, Mem(), backend.data))
      ensures keys.None? ==> r == Failure(SealedError)
      ensures r.Success? ==> root == newRoot
      ensures r.Failure? ==> root == old(root) && backend.data == old(backend.data)
      ensures keys.Some? && r.Failure? ==>
                (|newRoot| != KEY_SIZE && r.error == BadRootKey) || (r.error == StorageError && !backend.reliable)
    {
      hide LoadRing, LoadMeta, Consistent, GoodRing, Codec, Past;
      if keys.None? {
        return Failure(SealedError);
      }
      ghost var before := backend.data;
      InMemoryGood(t, before, root, contents, Mem());
      r := PersistKeyring(newRoot);
      if r.Failure? {
        return;
      }
      PersistConsistent(t, before, root, contents, Mem(), Mem(), backend.data[KEYRING_PATH], newRoot);
      KeyringStored(t, Mem(), before, backend.data[KEYRING_PATH]);
      rootKey := newRoot;
      root := newRoot;
    }

    method Seal()
      requires Valid()
      modifies this
      ensures Valid() && keys.None? && root == old(root) && contents == old(contents)
    {
      hide Recoverable, Represents, GoodRing, LoadMeta, Covers;
      keys, rootKey, pathKey, paths := None, [], [], None;
    }

    /** A new store in the current format.  The metadata goes first, so a crash between the two
        writes leaves a store that still counts as uninitialized. */
    method Initialize(key: Bytes, suiteName: Bytes) returns (r: Result<(), BarrierError>)
      requires Lawful(t) && keys.None?
      modifies backend, this`root, this`contents
      ensures SuiteNamed(t, suiteName).None? ==> r == Failure(UnknownSuite)
      ensures SuiteNamed(t, suiteName).Some? && |key| != KEY_SIZE ==> r == Failure(BadRootKey)
      ensures KEYRING_PATH in old(backend.data) ==> r.Failure? && backend.data == old(backend.data)
      ensures r.Failure? && SuiteNamed(t, suiteName).Some? && |key| == KEY_SIZE ==>
                (r.error == AlreadyInitialized && KEYRING_PATH in old(backend.data))
                    || (r.error == StorageError && !backend.reliable)
      ensures r.Failure? ==> (KEYRING_PATH in backend.data <==> KEYRING_PATH in old(backend.data))
      ensures r.Success? && (forall k :: k in old(backend.data) ==> Reserved(k)) ==>
                && Valid() && root == key && contents == map[] && (forall p :: p in Prefixes(t, backend.data, root))
                && LoadRing(t, backend.data, root).value.flags == Flags(true, true, true)
    {
      hide Reserved, UnwrapRing, SuiteOpen, SuiteSeal, Past;
      var suite' := SuiteNamed(t, suiteName);
      if suite'.None? {
        return Failure(UnknownSuite);
      }
      if |key| != KEY_SIZE {
        return Failure(BadRootKey);
      }
      var e := backend.Get(KEYRING_PATH);
      if e.Failure? {
        return Failure(StorageError);
      }
      if e.value.Some? {
        return Failure(AlreadyInitialized);
      }
      PathsReserved();
      var barrierKey := Draw(KEY_SIZE);
      var pathKey' := Draw(KEY_SIZE);
      var ring := Ring(suite'.value, Flags(true, true, true), map[1 := barrierKey], 1, pathKey');
      var name := if suiteName == [] then DEFAULT_SUITE else suiteName;
      var random := Draw(ring.suite.aead(key).nonceSize);
      var wrapped := SuiteSeal(ring.suite, key, random, RingPlain(t, ring), AadFor(ring.flags, KEYRING_PATH));
      var ok := backend.Put(META_PATH, t.metaJson(StoreMeta(META_PATH_ENCRYPTION, name)));
      if !ok {
        return Failure(StorageError);
      }
      ghost var withMeta := backend.data;
      FreshMeta(t, withMeta, suiteName, name);
      PersistLoads(t, ring, withMeta, key, random);
      ok := backend.Put(KEYRING_PATH, wrapped.value);
      if !ok {
        return Failure(StorageError);
      }
      root, contents := key, map[];
      if forall k :: k in old(backend.data) ==> Reserved(k) {
        NothingStored(t, ring, backend.data);
        ReservedOnly(t, ring, backend.data);
      }
      return Success(());
    }

    /** loadMeta. */
    method ReadMeta() returns (r: Result<(Suite, Flags), BarrierError>)
      ensures r == LoadMeta(t, backend.data) || (r == Failure(StorageError) && !backend.reliable)
    {
      var e := backend.Get(META_PATH);
      if e.Failure? {
        return Failure(StorageError);
      }
      if e.value.None? {
        r := LoadMeta(t, map[]);
      } else {
        r := LoadMeta(t, map[META_PATH := e.value.value]);
      }
    }

    /** The reading half of Unseal. */
    method ReadKeyring(key: Bytes) returns (r: Result<Ring, BarrierError>)
      ensures r == LoadRing(t, backend.data, key) || (r == Failure(StorageError) && !backend.reliable)
    {
      hide LoadMeta, UnwrapRing;
      var e := backend.Get(KEYRING_PATH);
      if e.Failure? {
        return Failure(StorageError);
      }
      if e.value.None? {
        return Failure(NotInitialized);
      }
      var meta := ReadMeta();
      if meta.Failure? {
        return Failure(meta.error);
      }
      var ring := UnwrapRing(t, meta.value.0, meta.value.1, e.value.value, key);
      if ring.None? {
        return Failure(UnsealFailed);
      }
      return Success(ring.value);
    }

    /** The writing half of Unseal. */
    method Install(key: Bytes, ring: Ring)
      modifies this
      ensures root == old(root) && contents == old(contents)
      ensures keys.Some? && suite.Some? && rootKey == key && Mem() == ring
      ensures paths.Some? ==> paths.value == Codec(t, ring)
    {
      hide NewPathCodec, Ascii;
      suite, bindAAD, versioned := Some(ring.suite), ring.flags.bindAAD, ring.flags.versioned;
      pathKey := ring.pathKey;
      paths := if ring.flags.encPaths then Some(NewPathCodec(t, ring.suite, ring.pathKey)) else None;
      keys, active := Some(ring.keys), ring.active;
      rootKey := key;
    }

    /** With any root key; the last clause is about the current one. */
    method Unseal(key: Bytes) returns (r: Result<(), BarrierError>)
      modifies this
      ensures root == old(root) && contents == old(contents)
      ensures old(keys).Some? ==> r.Success? && unchanged(this)
      ensures r.Failure? ==> unchanged(this)
      ensures r.Failure? ==>
                LoadRing(t, backend.data, key) == Failure(r.error) || (r.error == StorageError && !backend.reliable)
      ensures old(keys).None? && r.Success? ==>
                keys.Some? && suite.Some? && LoadRing(t, backend.data, key) == Success(Mem())
      ensures old(Valid()) && key == root ==> Valid()
    {
      hide Consistent, LoadRing, Codec;
      if keys.Some? {
        return Success(());
      }
      var loaded := ReadKeyring(key);
      if loaded.Failure? {
        return Failure(loaded.error);
      }
      Install(key, loaded.value);
      if old(Valid()) && key == root {
        UnsealConsistent(t, backend.data, root, contents, loaded.value);
      }
      return Success(());
    }

    /** Re-encrypts one entry unless it already carries the active version; says whether it wrote. */
    method ReencryptEntry(pk: Bytes) returns (r: Result<bool, BarrierError>)
      requires keys.Some? && suite.Some? && GoodRing(t, Mem()) && pk in backend.data && !Reserved(pk)
      modifies backend
      ensures pk in backend.data
      ensures r.Success? ==> Current(Mem(), backend.data[pk]) && (r.value <==> !Current(Mem(), old(backend.data[pk])))
      ensures r == Success(true) ==>
                && backend.data == old(backend.data)[pk := backend.data[pk]]
                && OpenEntry(Mem(), pk, old(backend.data[pk])).Some?
                && OpenEntry(Mem(), pk, backend.data[pk]) == OpenEntry(Mem(), pk, old(backend.data[pk]))
                && backend.trace == old(backend.trace) + [backend.data]
      ensures r != Success(true) ==> backend.data == old(backend.data) && backend.trace == old(backend.trace)
      ensures r.Failure? && backend.reliable ==>
                OpenEntry(Mem(), pk, old(backend.data[pk])).None? && !Current(Mem(), old(backend.data[pk]))
    {
      hide OpenEntry, SealEntry, Reserved;
      var e := backend.Get(pk);
      if e.Failure? {
        return Failure(StorageError);
      }
      var entry := e.value.value;
      var ver := EntryVersion(Mem(), entry);
      if ver.None? {
        UnversionedCloses(Mem(), pk, entry);
        return Failure(Undecryptable);
      }
      if ver.value.0 == active {
        return Success(false);
      }
      var plain := OpenEntry(Mem(), pk, entry);
      if plain.None? {
        return Failure(Undecryptable);
      }
      var random := Draw(suite.value.aead(keys.value[active]).nonceSize);
      var ct := SealEntry(Mem(), random, pk, plain.value);
      SealedEntryOpens(t, Mem(), random, pk, plain.value);
      var ok := backend.Put(pk, ct.value);
      if !ok {
        return Failure(StorageError);
      }
      return Success(true);
    }

    /** Rewrites every entry not sealed under the active key and counts the rewritten ones. */
    method ReencryptLocked() returns (n: nat, r: Result<(), BarrierError>)
      requires keys.Some? && suite.Some? && GoodRing(t, Mem())
      modifies backend
      ensures Rewritten(Mem(), old(backend.data), backend.data)
      ensures old(backend.trace) <= backend.trace
      ensures forall i :: |old(backend.trace)| <= i < |backend.trace| ==>
                Rewritten(Mem(), old(backend.data), backend.trace[i])
      ensures r.Success? ==> Stale(Mem(), backend.data) == {} && n == |Stale(Mem(), old(backend.data))|
      ensures r.Success? ==> OthersOpen(Mem(), old(backend.data), active)
      ensures r.Failure? ==> !backend.reliable || !OthersOpen(Mem(), old(backend.data), active)
    {
      hide OpenEntry, Reserved, Current, GoodRing, Rewritten, Stale, Swept, OthersOpen;
      ghost var before, mem := backend.data, Mem();
      n, r := 0, Success(());
      RewrittenNothing(mem, before);
      var listed := backend.List([]);
      if listed.Failure? {
        return n, Failure(StorageError);
      }
      var ks := listed.value;
      SweepStarts(mem, before, ks);
      for i := 0 to |ks|
        invariant Swept(mem, before, backend.data, ks, i, n)
        invariant old(backend.trace) <= backend.trace
        invariant forall j :: |old(backend.trace)| <= j < |backend.trace| ==> Rewritten(mem, before, backend.trace[j])
      {
        var pk := ks[i];
        ghost var now := backend.data;
        SweepAt(mem, before, now, ks, i, n);
        if !Reserved(pk) {
          var wrote := ReencryptEntry(pk);
          if wrote.Failure? {
            NotOpen(mem, before, pk);
            return n, Failure(wrote.error);
          }
          if wrote.value {
            SweepWrites(mem, before, now, ks, i, n, backend.data[pk]);
            n := n + 1;
          }
        }
      }
      SweepEnds(mem, before, backend.data, ks, n);
    }

    /** Every disk state written since the trace had length `from` holds the contents. */
    ghost predicate CrashSafe(from: nat)
      reads this, backend
    {
      from <= |backend.trace| && forall i :: from <= i < |backend.trace| ==>
          Recoverable(t, backend.trace[i], root, contents)
    }

    /** First half of a rotation: a new key under the next version number becomes the active one. */
    method ActivateNewKey() returns (r: Result<(), BarrierError>)
      requires Valid() && keys.Some? && versioned && active + 1 < U32
      modifies this`keys, this`active, backend
      ensures Valid() && keys.Some? && CrashSafe(|old(backend.trace)|) && old(backend.trace) <= backend.trace
      ensures r.Success? ==> LoadRing(t, backend.data, root) == Success(Mem())
      ensures r.Success? ==> active == old(active) + 1 && keys.value - {active} == old(keys).value
      ensures r.Failure? ==> keys == old(keys) && active == old(active) && !backend.reliable
      ensures r.Success? ==>
                (OthersOpen(Mem(), backend.data, active) <==> OthersOpen(old(Mem()), old(backend.data), active))
      ensures Past(t, Mem(), backend.data) == old(Past(t, Mem(), backend.data))
      ensures r.Success? ==> KEYRING_PATH in backend.data
      ensures r.Success? ==> backend.data == old(backend.data)[KEYRING_PATH := backend.data[KEYRING_PATH]]
    {
      hide Consistent, GoodRing, LoadRing, LoadMeta, Codec, Covers, Recoverable, OthersOpen, Past;
      ghost var disk, mem := backend.data, Mem();
      InMemoryGood(t, disk, root, contents, mem);
      var nk := Draw(KEY_SIZE);
      NewKeyCovers(t, mem, nk);
      var prev, prevKeys := active, keys;
      active := active + 1;
      keys := Some(keys.value[active := nk]);
      assert Mem() == WithNewKey(mem, nk);
      CodecFrame(t, mem, Mem());
      r := PersistKeyring(rootKey);
      if r.Failure? {
        keys, active := prevKeys, prev;
        return;
      }
      PersistConsistent(t, disk, root, contents, mem, Mem(), backend.data[KEYRING_PATH], root);
      ConsistentRecovers(t, backend.data, root, contents, Some(Mem()));
      NewKeyOthersOpen(mem, nk, disk, backend.data[KEYRING_PATH]);
      SameForms(t, mem, Mem(), disk);
      KeyringStored(t, Mem(), disk, backend.data[KEYRING_PATH]);
    }

    /** Second half: rewrite every stale entry, drop the other keys, store the keyring again. */
    method ReencryptAndDrop() returns (n: nat, r: Result<(), BarrierError>)
      requires Valid() && keys.Some? && versioned
      modifies this`keys, backend
      ensures Valid() && keys.Some? && CrashSafe(|old(backend.trace)|) && old(backend.trace) <= backend.trace
      ensures r.Success? ==> LoadRing(t, backend.data, root) == Success(Mem())
      ensures r.Success? ==> keys.value.Keys == {active} && Stale(Mem(), backend.data) == {}
      ensures r.Success? ==> n == |Stale(old(Mem()), old(backend.data))|
      ensures r.Success? ==> OthersOpen(old(Mem()), old(backend.data), active)
      ensures r.Failure? ==> !backend.reliable || !OthersOpen(old(Mem()), old(backend.data), active)
      ensures Past(t, Mem(), backend.data) == old(Past(t, Mem(), backend.data))
    {
      hide Consistent, GoodRing, LoadRing, LoadMeta, Codec, Covers, Recoverable, Rewritten, Stale, OthersOpen,
          Past;
      ghost var disk, mem := backend.data, Mem();
      InMemoryGood(t, disk, root, contents, mem);
      n, r := ReencryptLocked();
      ReencryptConsistent(t, disk, backend.data, root, contents, mem);
      RewrittenStored(t, mem, disk, backend.data);
      forall i | |old(backend.trace)| <= i < |backend.trace|
        ensures Recoverable(t, backend.trace[i], root, contents)
      {
        ReencryptConsistent(t, disk, backend.trace[i], root, contents, mem);
        ConsistentRecovers(t, backend.trace[i], root, contents, Some(mem));
      }
      if r.Failure? {
        return;
      }
      NothingStale(mem, backend.data);
      DropConsistent(t, backend.data, root, contents, mem);
      ghost var rewritten := backend.data;
      keys := Some(map[active := keys.value[active]]);
      assert Mem() == OnlyActive(mem);
      CodecFrame(t, mem, Mem());
      InMemoryGood(t, rewritten, root, contents, Mem());
      SameForms(t, mem, Mem(), rewritten);
      r := PersistKeyring(rootKey);
      if r.Failure? {
        return;
      }
      KeyringStored(t, Mem(), rewritten, backend.data[KEYRING_PATH]);
      PersistConsistent(t, rewritten, root, contents, Mem(), Mem(), backend.data[KEYRING_PATH], root);
      ConsistentRecovers(t, backend.data, root, contents, Some(Mem()));
      StaleAfterDrop(mem, rewritten, backend.data[KEYRING_PATH]);
    }

    /** A new data key becomes the active one.  With reencrypt, every entry is rewritten under it
        and the old keys are dropped.  Whatever the outcome, every disk state left behind by any
        single write is recoverable with the current root key and holds the same contents.

        The counter has 32 bits; at its last value the source would wrap to 0. */
    method RotateDataKey(reencrypt: bool) returns (version: nat, n: nat, r: Result<(), BarrierError>)
      requires Valid()
      requires keys.Some? ==> active + 1 < U32
      modifies this`keys, this`active, backend
      ensures Valid() && keys.Some? == old(keys).Some?
      ensures CrashSafe(|old(backend.trace)|) && old(backend.trace) <= backend.trace
      ensures active <= old(active) + 1
      ensures keys.None? ==> r == Failure(SealedError) && backend.data == old(backend.data)
      ensures keys.Some? && !versioned ==> r == Failure(NotVersioned)
      ensures r.Success? ==> version == active == old(active) + 1
      ensures r.Success? ==> LoadRing(t, backend.data, root) == Success(Mem())
      ensures r.Success? && !reencrypt ==> n == 0 && keys.value - {active} == old(keys).value
      ensures r.Success? && reencrypt ==> keys.value.Keys == {active} && Stale(Mem(), backend.data) == {}
      ensures r.Success? && reencrypt ==> n == |Stale(Mem(), old(backend.data))|
      ensures r.Success? && reencrypt ==> OthersOpen(old(Mem()), old(backend.data), active)
      ensures keys.Some? && versioned && backend.reliable ==>
                (r.Success? <==> !reencrypt || OthersOpen(old(Mem()), old(backend.data), old(active) + 1))
      ensures keys.Some? ==> Past(t, Mem(), backend.data) == old(Past(t, Mem(), backend.data))
      ensures keys.Some? && versioned && backend.reliable && Past(t, Mem(), backend.data) == {} ==> r.Success?
    {
      hide Consistent, LoadRing, Codec, Recoverable, Stale, OthersOpen, Past;
      version, n := 0, 0;
      if keys.None? {
        return version, n, Failure(SealedError);
      }
      if !versioned {
        return version, n, Failure(NotVersioned);
      }
      if Past(t, Mem(), backend.data) == {} {
        StoredOpens(t, backend.data, root, contents, Mem());
        AllOthersOpen(Mem(), backend.data, active + 1);
      }
      r := ActivateNewKey();
      if r.Failure? {
        return;
      }
      version := active;
      if reencrypt {
        ghost var mem, disk := Mem(), backend.data;
        n, r := ReencryptAndDrop();
        StaleFrame(mem, Mem(), old(backend.data), disk);
      }
    }
  }

  lemma FreshMeta(t: Toolkit, data: Disk, suiteName: Bytes, name: Bytes)
    requires Lawful(t) && SuiteNamed(t, suiteName).Some? && name == if suiteName == [] then DEFAULT_SUITE else suiteName
    requires META_PATH in data && data[META_PATH] == t.metaJson(StoreMeta(META_PATH_ENCRYPTION, name))
    ensures LoadMeta(t, data) == Success((SuiteNamed(t, suiteName).value, Flags(true, true, true)))
    ensures LawfulSuite(SuiteNamed(t, suiteName).value)
  {
    var m := StoreMeta(META_PATH_ENCRYPTION, name);
    assert t.parseMeta(t.metaJson(m)) == Some(m);
    assert SuiteNamed(t, name) == SuiteNamed(t, suiteName);
  }

  lemma NothingStored(t: Toolkit, r: Ring, data: Disk)
    requires GoodRing(t, r) && forall k :: k in data ==> Reserved(k)
    ensures Represents(t, r, data, map[])
  {
    hide Reserved, OpenEntry, Phys;
    forall key | !Reserved(key)
      ensures AnswerFor(t, r, data, key) == MapAnswer(map[], key)
    {
      PhysLaws(t, r, key, key);
    }
  }

  lemma StoredIffHeld(t: Toolkit, data: Disk, root: Bytes, m: map<Bytes, Bytes>, r: Ring)
    requires Consistent(t, data, root, m, Some(r))
    ensures forall k :: !Reserved(k) ==> (k in m <==> Phys(t, r, k) in data)
    ensures r.flags.encPaths ==> Sound(t, Codec(t, r))
  {
    hide Reserved, OpenEntry, Encode, Covers, Recoverable, LoadMeta;
    forall k | !Reserved(k)
      ensures k in m <==> Phys(t, r, k) in data
    {
      assert AnswerFor(t, r, data, k) == MapAnswer(m, k);
    }
  }

  // ---- what was stored past the barrier ----

  ghost predicate StoredForm(t: Toolkit, r: Ring, s: Bytes) {
    exists k :: Phys(t, r, k) == s
  }

  /** The stored keys that are no key's stored form: something stored them past the barrier. */
  ghost function Past(t: Toolkit, r: Ring, data: Disk): set<Bytes> {
    set s | s in data && !StoredForm(t, r, s)
  }

  /** The stored keys that a listing reads start with this. */
  function Scan(t: Toolkit, r: Ring, prefix: Bytes): Bytes {
    if r.flags.encPaths then ScanPrefix(t, Codec(t, r), prefix) else prefix
  }

  /** A listing comes across nothing that was stored past the barrier. */
  ghost predicate Unmixed(t: Toolkit, r: Ring, data: Disk, prefix: Bytes) {
    forall s :: s in Past(t, r, data) ==> !(Scan(t, r, prefix) <= s)
  }

  /** The prefixes of which this is true, for a disk alone, read with the root key. */
  ghost function Prefixes(t: Toolkit, data: Disk, root: Bytes): iset<Bytes> {
    match LoadRing(t, data, root)
    case Success(r) => iset p | Unmixed(t, r, data, p)
    case Failure(_) => iset{}
  }

  lemma ScannedEncoded(t: Toolkit, r: Ring, data: Disk, prefix: Bytes)
    requires Unmixed(t, r, data, prefix)
    ensures r.flags.encPaths ==>
              forall s :: s in data && ScanPrefix(t, Codec(t, r), prefix) <= s ==> Encoded(t, Codec(t, r), s)
  {
    hide Encode, ScanPrefix, NewPathCodec;
    forall s | r.flags.encPaths && s in data && ScanPrefix(t, Codec(t, r), prefix) <= s
      ensures Encoded(t, Codec(t, r), s)
    {
      assert s !in Past(t, r, data);
      var k :| Phys(t, r, k) == s;
    }
  }

  /** Reading everything comes across everything. */
  lemma EmptyPrefix(t: Toolkit, r: Ring, data: Disk)
    ensures Unmixed(t, r, data, []) <==> Past(t, r, data) == {}
  {
    hide StoredForm, Encode;
    assert Scan(t, r, []) == [];
    assert forall s :: s in data ==> [] <= s;
  }

  /** The stored form of a key does not depend on the data keys. */
  lemma SameForms(t: Toolkit, a: Ring, b: Ring, data: Disk)
    requires a.suite == b.suite && a.flags == b.flags && a.pathKey == b.pathKey
    ensures Past(t, a, data) == Past(t, b, data)
    ensures forall p :: Unmixed(t, a, data, p) == Unmixed(t, b, data, p)
  {
    hide NewPathCodec, Encode;
    forall s
      ensures StoredForm(t, a, s) == StoredForm(t, b, s)
    {
      if StoredForm(t, a, s) {
        var k :| Phys(t, a, k) == s;
        assert Phys(t, b, k) == s;
      }
      if StoredForm(t, b, s) {
        var k :| Phys(t, b, k) == s;
        assert Phys(t, a, k) == s;
      }
    }
    hide StoredForm, ScanPrefix;
    assert Past(t, a, data) == Past(t, b, data);
    assert forall p :: Scan(t, a, p) == Scan(t, b, p);
  }

  lemma PrefixesUnsealed(t: Toolkit, data: Disk, root: Bytes, m: map<Bytes, Bytes>, r: Ring)
    requires Consistent(t, data, root, m, Some(r))
    ensures Prefixes(t, data, root) == iset p | Unmixed(t, r, data, p)
  {
    hide LoadRing, Unmixed, Represents, LoadMeta, GoodRing;
    SameForms(t, LoadRing(t, data, root).value, r, data);
  }

  lemma ReservedStored(t: Toolkit, r: Ring, s: Bytes)
    requires Reserved(s)
    ensures StoredForm(t, r, s)
  {
    EncodeReserved(t, Codec(t, r), s);
    assert Phys(t, r, s) == s;
  }

  lemma ReservedOnly(t: Toolkit, r: Ring, data: Disk)
    requires forall k :: k in data ==> Reserved(k)
    ensures Past(t, r, data) == {}
  {
    hide StoredForm, Reserved;
    forall s | s in data
      ensures StoredForm(t, r, s)
    {
      ReservedStored(t, r, s);
    }
  }

  lemma KeyringStored(t: Toolkit, r: Ring, data: Disk, w: Bytes)
    ensures Past(t, r, data[KEYRING_PATH := w]) == Past(t, r, data)
  {
    hide StoredForm;
    PathsReserved();
    ReservedStored(t, r, KEYRING_PATH);
  }

  lemma KeyStored(t: Toolkit, r: Ring, data: Disk, key: Bytes, entry: Bytes)
    ensures Past(t, r, data[Phys(t, r, key) := entry]) == Past(t, r, data)
    ensures Past(t, r, data - {Phys(t, r, key)}) == Past(t, r, data)
  {
    hide Phys;
    assert StoredForm(t, r, Phys(t, r, key));
    hide StoredForm;
  }

  /** If nothing was, every entry outside "barrier/" opens. */
  lemma StoredOpens(t: Toolkit, data: Disk, root: Bytes, m: map<Bytes, Bytes>, r: Ring)
    requires Consistent(t, data, root, m, Some(r)) && Past(t, r, data) == {}
    ensures AllOpen(r, data)
  {
    hide Reserved, OpenEntry, LoadMeta, LoadRing, Covers;
    forall pk | pk in data && !Reserved(pk)
      ensures OpenEntry(r, pk, data[pk]).Some?
    {
      assert pk !in Past(t, r, data);
      var k :| Phys(t, r, k) == pk;
      PhysLaws(t, r, k, k);
      assert AnswerFor(t, r, data, k) == MapAnswer(m, k);
    }
  }

  lemma CodecFrame(t: Toolkit, a: Ring, b: Ring)
    requires a.suite == b.suite && a.pathKey == b.pathKey
    ensures Codec(t, a) == Codec(t, b)
  {}

  lemma ConsistentRecovers(t: Toolkit, data: Disk, root: Bytes, m: map<Bytes, Bytes>, mem: Option<Ring>)
    requires Consistent(t, data, root, m, mem)
    ensures Recoverable(t, data, root, m)
  {}

  lemma NothingStale(r: Ring, data: Disk)
    requires Stale(r, data) == {}
    ensures forall pk :: pk in data && !Reserved(pk) ==> Current(r, data[pk])
  {
    hide Reserved, Current;
    forall pk | pk in data && !Reserved(pk)
      ensures Current(r, data[pk])
    {
      assert pk !in Stale(r, data);
    }
  }

  lemma StaleFrame(r: Ring, r': Ring, data: Disk, data': Disk)
    requires r.active == r'.active && r.flags == r'.flags
    requires KEYRING_PATH in data' ==> data' == data[KEYRING_PATH := data'[KEYRING_PATH]]
    ensures KEYRING_PATH in data' ==> Stale(r, data') == Stale(r', data)
  {
    PathsReserved();
    assert forall e :: Current(r, e) == Current(r', e);
    hide Reserved, Current;
  }

  lemma StaleAfterDrop(r: Ring, data: Disk, w: Bytes)
    requires r.active in r.keys && Stale(r, data) == {}
    ensures Stale(OnlyActive(r), data[KEYRING_PATH := w]) == {}
  {
    NothingStale(r, data);
    PathsReserved();
  }

  lemma RewrittenStored(t: Toolkit, r: Ring, before: Disk, after: Disk)
    requires Rewritten(r, before, after)
    ensures Past(t, r, after) == Past(t, r, before)
  {
    hide OpenEntry, Reserved, StoredForm;
  }

  lemma RewrittenNothing(r: Ring, data: Disk)
    ensures Rewritten(r, data, data)
  {}

  /** After the first i listed keys: n entries were rewritten, and whatever is still stale comes later. */
  ghost predicate Swept(r: Ring, before: Disk, data: Disk, ks: seq<Bytes>, i: nat, n: nat) {
    && i <= |ks| && (forall k :: k in ks <==> k in before) && Distinct(ks)
    && Rewritten(r, before, data)
    && (forall pk :: pk in Stale(r, data) ==> pk in ks[i..])
    && (forall pk :: pk in ks[i..] ==> pk in data && pk in before && data[pk] == before[pk])
    && n + |Stale(r, data)| == |Stale(r, before)|
  }

  lemma SweepStarts(r: Ring, before: Disk, ks: seq<Bytes>)
    requires (forall k :: k in ks <==> k in before) && Distinct(ks)
    ensures Swept(r, before, before, ks, 0, 0)
  {
    hide OpenEntry, Reserved, Current;
    assert ks[0..] == ks;
  }

  /** The next key has its old entry, and unless that is stale the sweep may go on. */
  lemma SweepAt(r: Ring, before: Disk, data: Disk, ks: seq<Bytes>, i: nat, n: nat)
    requires Swept(r, before, data, ks, i, n) && i < |ks|
    ensures ks[i] in data && ks[i] in before && data[ks[i]] == before[ks[i]] && Rewritten(r, before, data)
    ensures Reserved(ks[i]) || Current(r, data[ks[i]]) ==> Swept(r, before, data, ks, i + 1, n)
  {
    hide OpenEntry, Reserved, Current, Rewritten;
    var pk := ks[i];
    assert pk in ks[i..] && ks[i..] == [pk] + ks[i + 1..];
    assert pk in Stale(r, data) <==> !Reserved(pk) && !Current(r, data[pk]);
    hide Stale;
  }

  lemma SweepWrites(r: Ring, before: Disk, data: Disk, ks: seq<Bytes>, i: nat, n: nat, entry: Bytes)
    requires Swept(r, before, data, ks, i, n) && i < |ks| && ks[i] in data && !Reserved(ks[i])
    requires !Current(r, data[ks[i]]) && Current(r, entry)
    requires OpenEntry(r, ks[i], data[ks[i]]).Some? && OpenEntry(r, ks[i], entry) == OpenEntry(r, ks[i], data[ks[i]])
    ensures Swept(r, before, data[ks[i] := entry], ks, i + 1, n + 1) && Rewritten(r, before, data[ks[i] := entry])
  {
    hide OpenEntry, Reserved, Current, Rewritten;
    var pk := ks[i];
    assert pk in ks[i..] && ks[i..] == [pk] + ks[i + 1..];
    assert pk in Stale(r, data);
    StaleStep(r, data, pk, entry);
    hide Stale;
    RewrittenStep(r, before, data, pk, entry);
  }

  lemma SweepEnds(r: Ring, before: Disk, data: Disk, ks: seq<Bytes>, n: nat)
    requires Swept(r, before, data, ks, |ks|, n)
    ensures Rewritten(r, before, data) && Stale(r, data) == {} && n == |Stale(r, before)|
    ensures OthersOpen(r, before, r.active)
  {
    assert Stale(r, data) == {} by {
      hide Stale, Rewritten;
      assert forall pk :: pk !in Stale(r, data);
    }
    hide OpenEntry, Reserved, Current;
    NothingStale(r, data);
  }

  lemma NotOpen(r: Ring, data: Disk, pk: Bytes)
    requires pk in data && !Reserved(pk)
    ensures OthersOpen(r, data, r.active) ==> Current(r, data[pk]) || OpenEntry(r, pk, data[pk]).Some?
  {}

  lemma AllOthersOpen(r: Ring, data: Disk, version: nat)
    requires AllOpen(r, data)
    ensures OthersOpen(r, data, version)
  {}

  // ---- an entry stored past the barrier ----

  /** Where a cluster keeps the wrapped root key, in the clear. */
  const SEAL_META := Ascii("core/seal-meta")

  /** An entry past the barrier whose first bytes name no key of the keyring, and not the next one either, stops every
      rotation with re-encryption. */
  lemma SealMetaStopsRotation(r: Ring, data: Disk)
    requires r.flags.versioned && SEAL_META in data
    requires |data[SEAL_META]| >= 4 ==> Read32(data[SEAL_META]) !in r.keys && Read32(data[SEAL_META]) != r.active + 1
    ensures !OthersOpen(r, data, r.active + 1)
  {
    assert SEAL_META[0] == 99 && RESERVED[0] == 98;
    assert OpenEntry(r, SEAL_META, data[SEAL_META]).None?;
    assert !Carries(r, data[SEAL_META], r.active + 1);
  }

  lemma StaleStep(r: Ring, now: Disk, pk: Bytes, entry: Bytes)
    requires pk in Stale(r, now) && Current(r, entry)
    ensures Stale(r, now[pk := entry]) == Stale(r, now) - {pk}
  {
    hide Reserved, Current;
  }

  lemma UnsealConsistent(t: Toolkit, data: Disk, root: Bytes, m: map<Bytes, Bytes>, r: Ring)
    requires Consistent(t, data, root, m, None) && LoadRing(t, data, root) == Success(r)
    ensures Consistent(t, data, root, m, Some(r))
  {
    hide Represents, SuiteOpen;
  }

  lemma InMemoryGood(t: Toolkit, data: Disk, root: Bytes, m: map<Bytes, Bytes>, r: Ring)
    requires Consistent(t, data, root, m, Some(r))
    ensures GoodRing(t, r) && LoadMeta(t, data) == Success((r.suite, r.flags)) && |root| == KEY_SIZE
    ensures r.active in r.keys && r.active < U32 && Covers(r, r)
  {}

  /** A write outside "barrier/" leaves the keyring and the metadata alone. */
  lemma StoredOutside(t: Toolkit, before: Disk, after: Disk, pk: Bytes, root: Bytes)
    requires !Reserved(pk) && (after == before - {pk} || (pk in after && after == before[pk := after[pk]]))
    ensures LoadRing(t, after, root) == LoadRing(t, before, root)
    ensures LoadMeta(t, after) == LoadMeta(t, before)
  {
    hide LoadRing;
    PathsReserved();
    LoadRingFrame(t, before, after, root);
  }

  /** Two rings of one format store a key in the same place, and the larger opens what the smaller opens. */
  lemma CoversSame(t: Toolkit, big: Ring, small: Ring, pk: Bytes, key: Bytes, entry: Bytes)
    requires Covers(big, small) && big.active == small.active
    ensures Phys(t, big, key) == Phys(t, small, key)
    ensures OpenEntry(small, pk, entry).Some? ==> OpenEntry(big, pk, entry) == OpenEntry(small, pk, entry)
  {
    hide SuiteOpen, Encode;
    if OpenEntry(small, pk, entry).Some? {
      CoversOpens(big, small, pk, entry);
    }
  }

  /** Rewriting the keyring changes no answer outside "barrier/". */
  lemma KeyringOutside(t: Toolkit, r: Ring, before: Disk, w: Bytes, m: map<Bytes, Bytes>)
    requires GoodRing(t, r) && Represents(t, r, before, m)
    ensures Represents(t, r, before[KEYRING_PATH := w], m)
  {
    hide OpenEntry, Phys;
    PathsReserved();
    forall key | !Reserved(key)
      ensures AnswerFor(t, r, before[KEYRING_PATH := w], key) == MapAnswer(m, key)
    {
      PhysLaws(t, r, key, key);
      assert AnswerFor(t, r, before, key) == MapAnswer(m, key);
    }
  }
}
