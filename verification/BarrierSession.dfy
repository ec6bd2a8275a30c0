/** Whole runs of the barrier: whatever sequence of operations is issued, the answers are those of
    an unencrypted map while unsealed, and "sealed" while sealed. */
module BarrierSession {
  import opened Wrappers
  import opened Text
  import opened Crypto
  import opened PathCodecs
  import opened BarrierSpec
  import opened Barriers
  import opened Sequences

  datatype Op = PutOp(key: Bytes, value: Bytes) | GetOp(key: Bytes) | DeleteOp(key: Bytes) | ListOp(prefix: Bytes)
              | RekeyOp(newRoot: Bytes) | RotateOp(reencrypt: bool) | SealOp | UnsealOp

  datatype Reply = Done | Value(found: Option<Bytes>) | Names(keys: seq<Bytes>) | RefusedSealed | Refused | Unavailable

  /** The plain store: a map, whether it is sealed, whether its format has key versions, and the prefixes whose listing
      comes across nothing that was stored past the barrier. */
  datatype Plain = Plain(m: map<Bytes, Bytes>, isSealed: bool, versioned: bool, clean: iset<Bytes>)

  /** How an operation with this reply changes the plain store. */
  ghost function Next(p: Plain, op: Op, reply: Reply): Plain {
    match (op, reply)
    case (PutOp(k, v), Done) => p.(m := p.m[k := v])
    case (DeleteOp(k), Done) => p.(m := p.m - {k})
    case (SealOp, Done) => p.(isSealed := true)
    case (UnsealOp, Done) => p.(isSealed := false)
    case _ => p
  }

  /** Each key with the prefix once.  Nothing is said about the barrier's own keys. */
  ghost predicate Lists(names: seq<Bytes>, m: map<Bytes, Bytes>, prefix: Bytes) {
    Distinct(names) && forall k :: !Reserved(k) ==> (k in names <==> k in m && prefix <= k)
  }

  /** A listing, or a rotation that re-encrypts everything, may come across what was stored past the barrier. */
  ghost predicate Hampered(p: Plain, op: Op) {
    (op.ListOp? && op.prefix !in p.clean) || (op == RotateOp(true) && [] !in p.clean)
  }

  /** The one reply a plain store gives.  Only an unreliable backend may be unavailable, or an operation hampered by
      what was stored past the barrier. */
  ghost predicate Answers(p: Plain, op: Op, reply: Reply, reliable: bool) {
    if op.SealOp? then reply == Done
    else if op.UnsealOp? then reply == Done || (reply == Unavailable && !reliable)
    else if p.isSealed then reply == RefusedSealed
    else if reply == Unavailable then !reliable || Hampered(p, op)
    else match op
      case GetOp(k) => reply == Value(if k in p.m then Some(p.m[k]) else None)
      case ListOp(prefix) => reply.Names? && (Hampered(p, op) || Lists(reply.keys, p.m, prefix))
      case RekeyOp(root) => reply == if |root| == 32 then Done else Refused
      case RotateOp(_) => reply == if p.versioned then Done else Refused
      case _ => reply == Done
  }

  /** The plain store after the first n operations. */
  ghost function After(p: Plain, ops: seq<Op>, replies: seq<Reply>, n: nat): Plain
    requires n <= |ops| && n <= |replies|
  {
    if n == 0 then p else Next(After(p, ops, replies, n - 1), ops[n - 1], replies[n - 1])
  }

  lemma {:induction false} AfterPrefix(p: Plain, ops: seq<Op>, replies: seq<Reply>, more: seq<Reply>, n: nat)
    requires n <= |ops| && n <= |replies| <= |more| && more[..|replies|] == replies
    ensures After(p, ops, more, n) == After(p, ops, replies, n)
  {
    if n != 0 {
      AfterPrefix(p, ops, replies, more, n - 1);
      assert more[n - 1] == more[..|replies|][n - 1];
    }
  }

  predicate TouchesReserved(op: Op) {
    (op.PutOp? || op.GetOp? || op.DeleteOp?) && Reserved(op.key)
  }

  /** The active version of the keyring on disk. */
  ghost function DiskVersion(t: Toolkit, data: Disk, root: Bytes): nat {
    match LoadRing(t, data, root)
    case Success(r) => r.active
    case Failure(_) => 0
  }

  /** Whether entries on disk carry a key version. */
  ghost predicate DiskVersioned(t: Toolkit, data: Disk, root: Bytes) {
    match LoadRing(t, data, root)
    case Success(r) => r.flags.versioned
    case Failure(_) => false
  }

  lemma DiskAgrees(t: Toolkit, data: Disk, root: Bytes, m: map<Bytes, Bytes>, r: Ring)
    requires Consistent(t, data, root, m, Some(r))
    ensures DiskVersion(t, data, root) == r.active && DiskVersioned(t, data, root) == r.flags.versioned
    ensures Prefixes(t, data, root) == iset p | Unmixed(t, r, data, p)
    ensures [] in Prefixes(t, data, root) <==> Past(t, r, data) == {}
  {
    PrefixesUnsealed(t, data, root, m, r);
    EmptyPrefix(t, r, data);
  }

  /** What a listing comes across depends on what was stored past the barrier only. */
  lemma SamePast(t: Toolkit, a: Ring, before: Disk, b: Ring, after: Disk)
    requires a.suite == b.suite && a.flags == b.flags && a.pathKey == b.pathKey
    requires Past(t, a, before) == Past(t, b, after)
    ensures (iset p | Unmixed(t, a, before, p)) == (iset p | Unmixed(t, b, after, p))
  {
    hide Past, ScanPrefix, NewPathCodec;
    assert forall p :: Scan(t, a, p) == Scan(t, b, p);
  }

  ghost function Abstract(b: Barrier): Plain
    reads b, b.backend
  {
    Plain(b.contents, b.keys.None?, DiskVersioned(b.t, b.backend.data, b.root), Prefixes(b.t, b.backend.data, b.root))
  }

  ghost function Version(b: Barrier): nat
    reads b, b.backend
  {
    DiskVersion(b.t, b.backend.data, b.root)
  }

  function ReplyOf(r: Result<(), BarrierError>): Reply {
    match r
    case Success(_) => Done
    case Failure(SealedError) => RefusedSealed
    case Failure(StorageError) => Unavailable
    case Failure(_) => Refused
  }

  method StepGet(b: Barrier, key: Bytes) returns (reply: Reply)
    requires b.Valid() && !Reserved(key)
    ensures Answers(Abstract(b), GetOp(key), reply, b.backend.reliable)
              && Next(Abstract(b), GetOp(key), reply) == Abstract(b)
  {
    hide Consistent, Past, Unmixed, Prefixes, DiskVersioned, Reserved;
    var r := b.Get(key);
    match r
    case Success(v) => reply := Value(v);
    case Failure(e) => reply := if e.SealedError? then RefusedSealed else Unavailable;
  }

  method StepList(b: Barrier, prefix: Bytes) returns (reply: Reply)
    requires b.Valid()
    ensures Answers(Abstract(b), ListOp(prefix), reply, b.backend.reliable)
    ensures Next(Abstract(b), ListOp(prefix), reply) == Abstract(b)
  {
    hide Consistent, Past, Unmixed, Prefixes, DiskVersioned, Reserved, Codec;
    if b.keys.Some? {
      DiskAgrees(b.t, b.backend.data, b.root, b.contents, b.Mem());
    }
    var r := b.List(prefix);
    match r
    case Success(names) => reply := Names(names);
    case Failure(e) => reply := if b.keys.None? then RefusedSealed else Unavailable;
  }

  method StepPut(b: Barrier, key: Bytes, value: Bytes) returns (reply: Reply)
    requires b.Valid() && !Reserved(key)
    modifies b, b.backend
    ensures b.Valid() && Version(b) == old(Version(b)) && b.root == old(b.root)
    ensures Answers(old(Abstract(b)), PutOp(key, value), reply, b.backend.reliable)
    ensures Abstract(b) == Next(old(Abstract(b)), PutOp(key, value), reply)
  {
    hide Consistent, Past, Unmixed, Prefixes, DiskVersioned, Reserved, DiskVersion, Codec;
    if b.keys.Some? {
      DiskAgrees(b.t, b.backend.data, b.root, b.contents, b.Mem());
    }
    ghost var disk, mem := b.backend.data, if b.keys.Some? then Some(b.Mem()) else None;
    var r := b.Put(key, value);
    if b.keys.Some? {
      DiskAgrees(b.t, b.backend.data, b.root, b.contents, b.Mem());
      SamePast(b.t, mem.value, disk, b.Mem(), b.backend.data);
    }
    reply := ReplyOf(r);
  }

  method StepDelete(b: Barrier, key: Bytes) returns (reply: Reply)
    requires b.Valid() && !Reserved(key)
    modifies b, b.backend
    ensures b.Valid() && Version(b) == old(Version(b)) && b.root == old(b.root)
    ensures Answers(old(Abstract(b)), DeleteOp(key), reply, b.backend.reliable)
    ensures Abstract(b) == Next(old(Abstract(b)), DeleteOp(key), reply)
  {
    hide Consistent, Past, Unmixed, Prefixes, DiskVersioned, Reserved, DiskVersion, Codec;
    if b.keys.Some? {
      DiskAgrees(b.t, b.backend.data, b.root, b.contents, b.Mem());
    }
    ghost var disk, mem := b.backend.data, if b.keys.Some? then Some(b.Mem()) else None;
    var r := b.Delete(key);
    if b.keys.Some? {
      DiskAgrees(b.t, b.backend.data, b.root, b.contents, b.Mem());
      SamePast(b.t, mem.value, disk, b.Mem(), b.backend.data);
    }
    reply := ReplyOf(r);
  }

  method StepRekey(b: Barrier, newRoot: Bytes) returns (reply: Reply)
    requires b.Valid()
    modifies b, b.backend
    ensures b.Valid() && Version(b) == old(Version(b)) && Abstract(b) == old(Abstract(b))
    ensures Answers(old(Abstract(b)), RekeyOp(newRoot), reply, b.backend.reliable)
    ensures b.root == if reply == Done then newRoot else old(b.root)
  {
    hide Consistent, Past, Unmixed, Prefixes, DiskVersioned, DiskVersion, Codec;
    if b.keys.Some? {
      DiskAgrees(b.t, b.backend.data, b.root, b.contents, b.Mem());
    }
    ghost var disk, mem := b.backend.data, if b.keys.Some? then Some(b.Mem()) else None;
    var r := b.Rekey(newRoot);
    if b.keys.Some? {
      DiskAgrees(b.t, b.backend.data, b.root, b.contents, b.Mem());
      SamePast(b.t, mem.value, disk, b.Mem(), b.backend.data);
      if r.Success? {
        RootSize(b.t, b.backend.data, b.root, b.contents, b.Mem());
      }
    }
    reply := ReplyOf(r);
  }

  lemma RootSize(t: Toolkit, data: Disk, root: Bytes, m: map<Bytes, Bytes>, r: Ring)
    requires Consistent(t, data, root, m, Some(r))
    ensures |root| == KEY_SIZE
  {}

  method StepRotate(b: Barrier, reencrypt: bool) returns (reply: Reply)
    requires b.Valid() && Version(b) + 1 < U32
    modifies b, b.backend
    ensures b.Valid() && Version(b) <= old(Version(b)) + 1 && Abstract(b) == old(Abstract(b)) && b.root == old(b.root)
    ensures Answers(old(Abstract(b)), RotateOp(reencrypt), reply, b.backend.reliable)
  {
    hide Consistent, Past, Unmixed, Prefixes, DiskVersioned, DiskVersion, Codec;
    if b.keys.Some? {
      DiskAgrees(b.t, b.backend.data, b.root, b.contents, b.Mem());
    }
    ghost var disk, mem := b.backend.data, if b.keys.Some? then Some(b.Mem()) else None;
    var version, n, r := b.RotateDataKey(reencrypt);
    if b.keys.Some? {
      DiskAgrees(b.t, b.backend.data, b.root, b.contents, b.Mem());
      SamePast(b.t, mem.value, disk, b.Mem(), b.backend.data);
    }
    reply := if b.keys.None? then RefusedSealed else if r.Success? then Done else if !b.versioned then Refused
        else Unavailable;
  }

  method StepSeals(b: Barrier, unseal: bool, currentRoot: Bytes) returns (reply: Reply)
    requires b.Valid() && currentRoot == b.root
    modifies b
    ensures b.Valid() && b.root == old(b.root)
    ensures var op := if unseal then UnsealOp else SealOp;
            Answers(old(Abstract(b)), op, reply, b.backend.reliable) && Abstract(b) == Next(old(Abstract(b)), op, reply)
  {
    hide Consistent, Past, Unmixed, Prefixes, DiskVersioned, Codec, LoadRing;
    if unseal {
      assert LoadRing(b.t, b.backend.data, b.root).Success? by {
        Loads(b.t, b.backend.data, b.root, b.contents, if b.keys.Some? then Some(b.Mem()) else None);
      }
      var r := b.Unseal(currentRoot);
      reply := if r.Success? then Done else Unavailable;
    } else {
      b.Seal();
      reply := Done;
    }
  }

  lemma Loads(t: Toolkit, data: Disk, root: Bytes, m: map<Bytes, Bytes>, mem: Option<Ring>)
    requires Consistent(t, data, root, m, mem)
    ensures LoadRing(t, data, root).Success?
  {}

  /** Issues the operations one after the other, unsealing always with the current root key. */
  method RunSession(b: Barrier, ops: seq<Op>, root0: Bytes) returns (replies: seq<Reply>)
    requires b.Valid() && root0 == b.root && Version(b) + |ops| < U32
    requires forall i :: 0 <= i < |ops| ==> !TouchesReserved(ops[i])
    modifies b, b.backend
    ensures b.Valid() && |replies| == |ops|
    ensures forall i :: 0 <= i < |ops| ==> Answers(After(old(Abstract(b)), ops, replies, i), ops[i], replies[i],
              b.backend.reliable)
    ensures Abstract(b) == After(old(Abstract(b)), ops, replies, |ops|)
  {
    hide Consistent, Past, Unmixed, Prefixes, DiskVersioned, DiskVersion, Codec, Answers, Next, Reserved;
    ghost var p := Abstract(b);
    var root := root0;
    replies := [];
    for i := 0 to |ops|
      invariant b.Valid() && root == b.root && Version(b) + (|ops| - i) < U32
      invariant |replies| == i && Abstract(b) == After(p, ops, replies, i)
      invariant forall j :: 0 <= j < i ==> Answers(After(p, ops, replies, j), ops[j], replies[j], b.backend.reliable)
    {
      ghost var before, was := replies, Abstract(b);
      var reply := Step(b, ops[i], root);
      if ops[i].RekeyOp? && reply == Done {
        root := ops[i].newRoot;
      }
      replies := replies + [reply];
      forall j | 0 <= j <= i
        ensures After(p, ops, replies, j) == After(p, ops, before, j)
      {
        AfterPrefix(p, ops, before, replies, j);
      }
    }
  }

  /** One operation: a legal answer, and the plain store moves accordingly. */
  method Step(b: Barrier, op: Op, currentRoot: Bytes) returns (reply: Reply)
    requires b.Valid() && !TouchesReserved(op) && currentRoot == b.root && Version(b) + 1 < U32
    modifies b, b.backend
    ensures b.Valid() && Version(b) <= old(Version(b)) + 1
    ensures Answers(old(Abstract(b)), op, reply, b.backend.reliable) && Abstract(b) == Next(old(Abstract(b)), op, reply)
    ensures b.root == if op.RekeyOp? && reply == Done then op.newRoot else old(b.root)
  {
    hide Consistent, Past, Unmixed, Prefixes, DiskVersioned, DiskVersion, Codec, Reserved;
    match op
    case PutOp(k, v) => reply := StepPut(b, k, v);
    case GetOp(k) => reply := StepGet(b, k);
    case ListOp(p) => reply := StepList(b, p);
    case DeleteOp(k) => reply := StepDelete(b, k);
    case RekeyOp(r) => reply := StepRekey(b, r);
    case RotateOp(re) => reply := StepRotate(b, re);
    case SealOp => reply := StepSeals(b, false, currentRoot);
    case UnsealOp => reply := StepSeals(b, true, currentRoot);
  }
}
