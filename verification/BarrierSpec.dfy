/** internal/barrier/barrier.go as functions of the stored bytes: how a keyring is loaded, how an
    entry is opened and sealed, and what a store answers for a key. */
module BarrierSpec {
  import opened Wrappers
  import opened Text
  import opened Crypto
  import opened PathCodecs

  const KEYRING_PATH: Bytes := Ascii("barrier/keyring")
  const META_PATH: Bytes := Ascii("barrier/meta")
  const DEFAULT_SUITE: Bytes := Ascii("aes-256-gcm")

  const META_AAD_BINDING := 1
  const META_VERSIONED_KEYS := 2
  const META_PATH_ENCRYPTION := 3

  const U32: nat := 0x1_0000_0000

  type Disk = map<Bytes, Bytes>

  datatype BarrierError = SealedError | AlreadyInitialized | NotInitialized | UnsealFailed
                        | BadMetadata | UnknownSuite | BadRootKey | NotVersioned
                        | Undecryptable | StorageError

  datatype Flags = Flags(bindAAD: bool, versioned: bool, encPaths: bool)

  /** An unwrapped keyring together with the store format it belongs to. */
  datatype Ring = Ring(suite: Suite, flags: Flags, keys: map<nat, Bytes>, active: nat, pathKey: Bytes)

  lemma PathsReserved()
    ensures Reserved(KEYRING_PATH) && Reserved(META_PATH) && KEYRING_PATH != META_PATH
  {
    var k, m, b := "barrier/keyring", "barrier/meta", "barrier/";
    assert k[..8] == b && m[..8] == b;
    assert |KEYRING_PATH| == 15 && |META_PATH| == 12;
    assert forall i :: 0 <= i < 8 ==> k[i] == k[..8][i] && m[i] == m[..8][i];
    assert forall i :: 0 <= i < 8 ==> KEYRING_PATH[i] == RESERVED[i] && META_PATH[i] == RESERVED[i];
  }

  // ---- metadata and keyring ----

  function SuiteNamed(t: Toolkit, name: Bytes): Option<Suite> {
    var name := if name == [] then DEFAULT_SUITE else name;
    if name in t.suites then Some(t.suites[name]) else None
  }

  /** A store without a metadata record predates cipher suites. */
  function LoadMeta(t: Toolkit, data: Disk): Result<(Suite, Flags), BarrierError> {
    if META_PATH !in data then
      match SuiteNamed(t, DEFAULT_SUITE)
      case Some(s) => Success((s, Flags(false, false, false)))
      case None => Failure(UnknownSuite)
    else match t.parseMeta(data[META_PATH])
      case None => Failure(BadMetadata)
      case Some(m) =>
        match SuiteNamed(t, m.cipher)
        case None => Failure(UnknownSuite)
        case Some(s) => Success((s, Flags(m.version >= META_AAD_BINDING, m.version >= META_VERSIONED_KEYS,
            m.version >= META_PATH_ENCRYPTION)))
  }

  /** From which format on entries are bound to their keys, keys have versions, and paths are encrypted; a store without
      a metadata record has none of it. */
  lemma FormatMeans(t: Toolkit, data: Disk)
    requires LoadMeta(t, data).Success?
    ensures var flags := LoadMeta(t, data).value.1;
            if META_PATH !in data then flags == Flags(false, false, false)
            else
              && t.parseMeta(data[META_PATH]).Some?
              && var format := t.parseMeta(data[META_PATH]).value.version;
              && (flags.bindAAD <==> format >= 1) && (flags.versioned <==> format >= 2)
              && (flags.encPaths <==> format >= 3)
  {}

  function AadFor(flags: Flags, key: Bytes): Bytes {
    if flags.bindAAD then key else []
  }

  /** parseKeyring's checks on a decoded document. */
  predicate GoodDoc(d: KeyringDoc) {
    && (forall v :: v in d.keys ==> v < U32 && |d.keys[v]| == KEY_SIZE)
    && d.active in d.keys
  }

  /** Opens a wrapped keyring with a root key and checks it. */
  function UnwrapRing(t: Toolkit, suite: Suite, flags: Flags, wrapped: Bytes, root: Bytes): Option<Ring> {
    match SuiteOpen(suite, root, wrapped, AadFor(flags, KEYRING_PATH))
    case None => None
    case Some(plain) =>
      if !flags.versioned then (if flags.encPaths then None else Some(Ring(suite, flags, map[0 := plain], 0, [])))
      else match t.parseRing(plain)
        case None => None
        case Some(d) =>
          if !GoodDoc(d) || (flags.encPaths && |d.pathKey| != KEY_SIZE) then None
          else Some(Ring(suite, flags, d.keys, d.active, d.pathKey))
  }

  /** What Unseal reads with the given root key. */
  function LoadRing(t: Toolkit, data: Disk, root: Bytes): Result<Ring, BarrierError> {
    if KEYRING_PATH !in data then Failure(NotInitialized)
    else match LoadMeta(t, data)
      case Failure(e) => Failure(e)
      case Success((suite, flags)) =>
        match UnwrapRing(t, suite, flags, data[KEYRING_PATH], root)
        case None => Failure(UnsealFailed)
        case Some(r) => Success(r)
  }

  /** The plaintext persistKeyring wraps. */
  function RingPlain(t: Toolkit, r: Ring): Bytes
    requires r.active in r.keys
  {
    if r.flags.versioned then t.ringJson(KeyringDoc(r.active, r.keys, r.pathKey)) else r.keys[r.active]
  }

  // ---- entries ----

  /** Four bytes, most significant first. */
  function Prefix32(v: nat): (b: Bytes)
    requires v < U32
    ensures |b| == 4
  {
    [v / 0x100 / 0x100 / 0x100, v / 0x100 / 0x100 % 0x100, v / 0x100 % 0x100, v % 0x100]
  }

  function Read32(b: Bytes): (v: nat)
    requires |b| >= 4
    ensures v < U32
  {
    (((b[0] as int) * 0x100 + b[1]) * 0x100 + b[2]) * 0x100 + b[3]
  }

  lemma Prefix32RoundTrip(v: nat, rest: Bytes)
    requires v < U32
    ensures Read32(Prefix32(v) + rest) == v && (Prefix32(v) + rest)[4..] == rest
    ensures var b := Prefix32(v); v == (b[0] as int) * 16_777_216 + (b[1] as int) * 65_536 + (b[2] as int) * 256 + b[3]
  {}

  /** The key version an entry was sealed under, and its ciphertext. */
  function EntryVersion(r: Ring, entry: Bytes): Option<(nat, Bytes)> {
    if !r.flags.versioned then Some((r.active, entry))
    else if |entry| < 4 then None
    else Some((Read32(entry), entry[4..]))
  }

  function OpenEntry(r: Ring, pk: Bytes, entry: Bytes): Option<Bytes> {
    match EntryVersion(r, entry)
    case None => None
    case Some((ver, body)) =>
      if ver in r.keys then SuiteOpen(r.suite, r.keys[ver], body, AadFor(r.flags, pk)) else None
  }

  function SealEntry(r: Ring, random: Bytes, pk: Bytes, value: Bytes): Option<Bytes>
    requires r.active in r.keys && r.active < U32
    requires |random| >= r.suite.aead(r.keys[r.active]).nonceSize
  {
    match SuiteSeal(r.suite, r.keys[r.active], random, value, AadFor(r.flags, pk))
    case None => None
    case Some(ct) => Some(if r.flags.versioned then Prefix32(r.active) + ct else ct)
  }

  /** A keyring whose keys all have the right size, none newer than the active one. */
  ghost predicate GoodRing(t: Toolkit, r: Ring) {
    && Lawful(t) && LawfulSuite(r.suite)
    && (forall v :: v in r.keys ==> v <= r.active && |r.keys[v]| == KEY_SIZE)
    && r.active in r.keys && r.active < U32
    && (r.flags.encPaths ==> |r.pathKey| == KEY_SIZE)
    && (!r.flags.versioned ==>
            r.keys == map[0 := r.keys[r.active]] && r.active == 0 && r.pathKey == [] && !r.flags.encPaths)
  }

  lemma SealedEntryOpens(t: Toolkit, r: Ring, random: Bytes, pk: Bytes, value: Bytes)
    requires GoodRing(t, r) && |random| >= r.suite.aead(r.keys[r.active]).nonceSize
    ensures var e := SealEntry(r, random, pk, value);
            && e.Some? && OpenEntry(r, pk, e.value) == Some(value)
            && EntryVersion(r, e.value).Some? && EntryVersion(r, e.value).value.0 == r.active
  {
    hide Prefix32, Read32, SuiteSeal, SuiteOpen;
    SealOpens(r.suite, r.keys[r.active], random, value, AadFor(r.flags, pk));
    var ct := SuiteSeal(r.suite, r.keys[r.active], random, value, AadFor(r.flags, pk)).value;
    Prefix32RoundTrip(r.active, ct);
  }

  // ---- the store as a key/value map ----

  function Codec(t: Toolkit, r: Ring): PathCodec {
    NewPathCodec(t, r.suite, r.pathKey)
  }

  /** phys: the stored form of a logical key. */
  function Phys(t: Toolkit, r: Ring, key: Bytes): Bytes {
    if r.flags.encPaths then Encode(t, Codec(t, r), key) else key
  }

  lemma PhysLaws(t: Toolkit, r: Ring, a: Bytes, b: Bytes)
    requires GoodRing(t, r)
    ensures Phys(t, r, a) == Phys(t, r, b) ==> a == b
    ensures Reserved(Phys(t, r, a)) <==> Reserved(a)
  {
    hide Encode, Reserved;
    if r.flags.encPaths {
      assert Sound(t, Codec(t, r));
      EncodeStaysOutside(t, Codec(t, r), a);
      if Phys(t, r, a) == Phys(t, r, b) {
        EncodeInjective(t, Codec(t, r), a, b);
      }
    }
  }

  /** An entry moved to another key opens there if and only if the store is older than the binding of entries to their
      keys. */
  lemma MovedEntryOpensIff(t: Toolkit, r: Ring, random: Bytes, key: Bytes, other: Bytes, value: Bytes)
    requires GoodRing(t, r) && |random| >= r.suite.aead(r.keys[r.active]).nonceSize && key != other
    requires Authentic(r.suite.aead(r.keys[r.active]))
    ensures var e := SealEntry(r, random, Phys(t, r, key), value);
            && e.Some? && (OpenEntry(r, Phys(t, r, other), e.value).Some? <==> !r.flags.bindAAD)
            && (!r.flags.bindAAD ==> OpenEntry(r, Phys(t, r, other), e.value) == Some(value))
  {
    hide Prefix32, Read32, SuiteSeal, SuiteOpen, Phys, Authentic;
    var k, pk, qk := r.keys[r.active], Phys(t, r, key), Phys(t, r, other);
    PhysLaws(t, r, key, other);
    SealOpens(r.suite, k, random, value, AadFor(r.flags, pk));
    SealedShape(r.suite, k, random, value, AadFor(r.flags, pk), AadFor(r.flags, qk));
    Prefix32RoundTrip(r.active, SuiteSeal(r.suite, k, random, value, AadFor(r.flags, pk)).value);
  }

  datatype Answer = Missing | Found(value: Bytes) | Broken

  /** What Get answers. */
  function AnswerFor(t: Toolkit, r: Ring, data: Disk, key: Bytes): Answer {
    var pk := Phys(t, r, key);
    if pk !in data then Missing
    else match OpenEntry(r, pk, data[pk])
      case None => Broken
      case Some(v) => Found(v)
  }

  function MapAnswer(m: map<Bytes, Bytes>, key: Bytes): Answer {
    if key in m then Found(m[key]) else Missing
  }

  /** Read through r, the disk answers like the plain map m for every key outside "barrier/". */
  ghost predicate Represents(t: Toolkit, r: Ring, data: Disk, m: map<Bytes, Bytes>) {
    forall key :: !Reserved(key) ==> AnswerFor(t, r, data, key) == MapAnswer(m, key)
  }

  /** After a crash: the disk alone, unsealed with the root key, answers like m. */
  ghost predicate Recoverable(t: Toolkit, data: Disk, root: Bytes, m: map<Bytes, Bytes>) {
    match LoadRing(t, data, root)
    case Failure(_) => false
    case Success(r) => GoodRing(t, r) && Represents(t, r, data, m)
  }

  // ---- how one write changes the answers ----

  lemma LoadRingFrame(t: Toolkit, data: Disk, data': Disk, root: Bytes)
    requires forall k :: Reserved(k) ==> (k in data <==> k in data') && (k in data ==> data[k] == data'[k])
    ensures LoadRing(t, data, root) == LoadRing(t, data', root)
  {
    hide Reserved, SuiteOpen;
    PathsReserved();
  }

  lemma PutRepresents(t: Toolkit, r: Ring, data: Disk, m: map<Bytes, Bytes>, key: Bytes, entry: Bytes, value: Bytes)
    requires GoodRing(t, r) && Represents(t, r, data, m) && !Reserved(key)
    requires OpenEntry(r, Phys(t, r, key), entry) == Some(value)
    ensures Represents(t, r, data[Phys(t, r, key) := entry], m[key := value])
  {
    hide OpenEntry, Phys, Reserved;
    forall k | !Reserved(k)
      ensures AnswerFor(t, r, data[Phys(t, r, key) := entry], k) == MapAnswer(m[key := value], k)
    {
      PhysLaws(t, r, key, k);
      assert AnswerFor(t, r, data, k) == MapAnswer(m, k);
    }
  }

  lemma DeleteRepresents(t: Toolkit, r: Ring, data: Disk, m: map<Bytes, Bytes>, key: Bytes)
    requires GoodRing(t, r) && Represents(t, r, data, m) && !Reserved(key)
    ensures Represents(t, r, data - {Phys(t, r, key)}, m - {key})
  {
    hide OpenEntry, Phys, Reserved;
    forall k | !Reserved(k)
      ensures AnswerFor(t, r, data - {Phys(t, r, key)}, k) == MapAnswer(m - {key}, k)
    {
      PhysLaws(t, r, key, k);
      assert AnswerFor(t, r, data, k) == MapAnswer(m, k);
    }
  }

  /** The same format, and at least the same keys. */
  ghost predicate Covers(big: Ring, small: Ring) {
    && big.suite == small.suite && big.flags == small.flags && big.pathKey == small.pathKey
    && forall v :: v in small.keys ==> v in big.keys && big.keys[v] == small.keys[v]
  }

  lemma CoversOpens(big: Ring, small: Ring, pk: Bytes, entry: Bytes)
    requires Covers(big, small) && OpenEntry(small, pk, entry).Some?
    requires !big.flags.versioned ==> big.active == small.active
    ensures OpenEntry(big, pk, entry) == OpenEntry(small, pk, entry)
  {
    hide SuiteOpen;
  }

  /** A larger keyring answers the same. */
  lemma CoversRepresents(t: Toolkit, big: Ring, small: Ring, data: Disk, m: map<Bytes, Bytes>)
    requires Covers(big, small) && Represents(t, small, data, m)
    requires !big.flags.versioned ==> big.active == small.active
    ensures Represents(t, big, data, m)
  {
    hide OpenEntry, Reserved;
    forall key | !Reserved(key)
      ensures AnswerFor(t, big, data, key) == MapAnswer(m, key)
    {
      var pk := Phys(t, small, key);
      assert Phys(t, big, key) == pk;
      assert AnswerFor(t, small, data, key) == MapAnswer(m, key);
      if pk in data {
        CoversOpens(big, small, pk, data[pk]);
      }
    }
  }

  /** Wrapping a keyring and loading it back with the same root key. */
  lemma PersistLoads(t: Toolkit, r: Ring, data: Disk, root: Bytes, random: Bytes)
    requires GoodRing(t, r) && |root| == KEY_SIZE && |random| >= r.suite.aead(root).nonceSize
    requires LoadMeta(t, data) == Success((r.suite, r.flags))
    ensures var w := SuiteSeal(r.suite, root, random, RingPlain(t, r), AadFor(r.flags, KEYRING_PATH));
            w.Some? && LoadRing(t, data[KEYRING_PATH := w.value], root) == Success(r)
  {
    hide SuiteSeal, SuiteOpen;
    PathsReserved();
    var aad := AadFor(r.flags, KEYRING_PATH);
    SealOpens(r.suite, root, random, RingPlain(t, r), aad);
    var w := SuiteSeal(r.suite, root, random, RingPlain(t, r), aad).value;
    var data' := data[KEYRING_PATH := w];
    assert LoadMeta(t, data') == LoadMeta(t, data);
    if r.flags.versioned {
      var d := KeyringDoc(r.active, r.keys, r.pathKey);
      assert t.parseRing(t.ringJson(d)) == Some(d);
      assert GoodDoc(d);
    }
  }
}
