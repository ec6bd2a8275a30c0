/** Any sequence of KV v2 calls on any paths, over storage that may fail. */
module KvRuns {
  import opened KvLedger
  import opened KvPaths
  import opened KvSpec
  import opened KvStore
  import opened Storage
  import opened Text

  // ---- what one call does to the histories ----

  ghost predicate SameAtPath(h: Histories, d: Destroyed, h': Histories, d': Destroyed, q: Bytes) {
    HistoryOf(h', q) == HistoryOf(h, q) && DestroyedOf(d', q) == DestroyedOf(d, q)
  }

  ghost predicate Effect(h: Histories, d: Destroyed, h': Histories, d': Destroyed, call: Call, reply: Reply) {
    var p := call.p;
    && (forall q :: q != p ==> SameAtPath(h, d, h', d', q))
    && (match reply
        case Wrote(v) =>
          && call.WriteCall? && v == |HistoryOf(h, p)| + 1 && (call.cas.Some? ==> call.cas.value == v - 1)
          && HistoryOf(h', p) == HistoryOf(h, p) + [call.value] && DestroyedOf(d', p) == DestroyedOf(d, p)
        case Got(bytes, v) =>
          && call.ReadCall? && SameAtPath(h, d, h', d', p)
          && 1 <= v <= |HistoryOf(h, p)| && bytes == HistoryOf(h, p)[v - 1] && v !in DestroyedOf(d, p)
        case Done =>
          && !call.WriteCall?
          && (call.DeleteAllCall? ==> HistoryOf(h', p) == [] && DestroyedOf(d', p) == {})
          && (call.DestroyCall? ==>
                && HistoryOf(h', p) == HistoryOf(h, p) && DestroyedOf(d, p) <= DestroyedOf(d', p)
                && forall v: nat :: v in call.versions && 1 <= v <= |HistoryOf(h, p)| ==> v in DestroyedOf(d', p))
          && (!call.DeleteAllCall? && !call.DestroyCall? ==> SameAtPath(h, d, h', d', p))
        case Absent(_) => SameAtPath(h, d, h', d', p)
        case Failed(_) => SameAtPath(h, d, h', d', p))
  }

  lemma NoMetaNoHistory(data: Data, h: Histories, d: Destroyed, p: Bytes)
    requires AllOk(data, h, d)
    ensures MetaOf(data, p).None? ==> HistoryOf(h, p) == [] && DestroyedOf(d, p) == {}
    ensures MetaOf(data, p).Some? ==> MetaOf(data, p).value.current == |HistoryOf(h, p)|
  {
    assert PathOk(data, p, HistoryOf(h, p), DestroyedOf(d, p));
  }

  method StepWrite(kv: Kv, call: Call, ghost l: Ledger) returns (reply: Reply)
    requires kv.Valid() && call.WriteCall?
    modifies kv, kv.b
    ensures kv.Valid() && Effect(old(kv.history), old(kv.destroyed), kv.history, kv.destroyed, call, reply)
    ensures kv.b.reliable && old(AllTidy(kv.b.data)) ==> AllTidy(kv.b.data)
    ensures kv.b.reliable && old(Mirrors(l, kv.b.data, kv.history)) ==>
              reply == Expected(l, call, kv.utf8) && Mirrors(Next(l, call, kv.utf8), kv.b.data, kv.history)
  {
    hide AllOk, AllComplete, AllTidy, Complete, OnlyPath, AllSurvive, ReadResult, MetaOf, Bounded, AfterWrite, Mirrors,
      CasResult;
    ghost var was, h, mirrored := kv.b.data, kv.history, Mirrors(l, kv.b.data, kv.history);
    var r := kv.Write(call.p, call.value, call.cas, call.def);
    reply := if r.Success? then Wrote(r.value) else Failed(r.error);
    if kv.b.reliable && mirrored {
      MirrorsAt(l, was, h, call.p);
      MirrorsStep(l, was, h, call.p, kv.b.data, kv.history, Next(l, call, kv.utf8));
    }
  }

  lemma MirrorsAt(l: Ledger, data: Data, h: Histories, p: Bytes)
    requires Mirrors(l, data, h)
    ensures MetaOf(data, p) == MetaIn(l, p) && HistoryOf(h, p) == HistoryIn(l, p)
    ensures forall def :: MetaOr(data, p, def) == MetaOrFresh(l, p, def)
  {
    hide MetaOf;
  }

  method StepRead(kv: Kv, call: Call, ghost l: Ledger) returns (reply: Reply)
    requires kv.Valid() && call.ReadCall?
    ensures Effect(kv.history, kv.destroyed, kv.history, kv.destroyed, call, reply)
    ensures kv.b.reliable && Mirrors(l, kv.b.data, kv.history) ==> reply == Expected(l, call, kv.utf8)
  {
    hide AllOk, AllComplete, AllTidy, ReadResult, Mirrors, ReadAnswer, PathOk, Complete;
    var r := kv.Read(call.p, call.version);
    reply := FoundReply(r);
    if kv.b.reliable && Mirrors(l, kv.b.data, kv.history) {
      MirrorsAt(l, kv.b.data, kv.history, call.p);
      OneOk(kv.b.data, kv.history, kv.destroyed, call.p);
      ReadMirrors(kv.b.data, call.p, call.version, HistoryOf(kv.history, call.p), DestroyedOf(kv.destroyed, call.p));
    }
  }

  method StepFlags(kv: Kv, call: Call, ghost l: Ledger) returns (reply: Reply)
    requires kv.Valid() && (call.SoftDeleteCall? || call.UndeleteCall?)
    modifies kv, kv.b
    ensures kv.Valid() && Effect(old(kv.history), old(kv.destroyed), kv.history, kv.destroyed, call, reply)
    ensures kv.b.reliable && old(AllTidy(kv.b.data)) ==> AllTidy(kv.b.data)
    ensures kv.b.reliable && old(Mirrors(l, kv.b.data, kv.history)) ==>
              reply == Expected(l, call, kv.utf8) && Mirrors(Next(l, call, kv.utf8), kv.b.data, kv.history)
  {
    hide AllOk, AllComplete, AllTidy, MetaOf, DestroyedOf, Mirrors, SoftDeleted, Undeleted;
    ghost var was := kv.b.data;
    if Mirrors(l, was, kv.history) {
      MirrorsAt(l, was, kv.history, call.p);
    }
    var ok: bool;
    match call {
      case SoftDeleteCall(p, versions) =>
        ok := kv.SoftDelete(p, versions);
        if kv.b.reliable && Mirrors(l, was, kv.history) && p in l {
          MirrorsPut(l, was, kv.history, p, SoftDeleted(l[p].meta, versions));
        }
      case UndeleteCall(p, versions) =>
        ok := kv.Undelete(p, versions);
        if kv.b.reliable && Mirrors(l, was, kv.history) && p in l {
          MirrorsPut(l, was, kv.history, p, Undeleted(l[p].meta, versions));
        }
    }
    reply := if ok then Done else Failed(StorageFailed);
  }

  method StepUpdate(kv: Kv, call: Call, ghost l: Ledger) returns (reply: Reply)
    requires kv.Valid() && call.UpdateCall?
    modifies kv, kv.b
    ensures kv.Valid() && Effect(old(kv.history), old(kv.destroyed), kv.history, kv.destroyed, call, reply)
    ensures kv.b.reliable && old(AllTidy(kv.b.data)) ==> AllTidy(kv.b.data)
    ensures kv.b.reliable && old(Mirrors(l, kv.b.data, kv.history)) ==>
              reply == Expected(l, call, kv.utf8) && Mirrors(Next(l, call, kv.utf8), kv.b.data, kv.history)
  {
    hide AllOk, AllComplete, AllTidy, MetaOf, MetaOr, DestroyedOf, ConfigResult, Mirrors;
    ghost var was, h := kv.b.data, kv.history;
    var r := kv.UpdateMetadata(call.p, call.update, call.def);
    reply := if r.Success? then Done else Failed(r.error);
    if kv.b.reliable && Mirrors(l, was, h) {
      MirrorsAt(l, was, h, call.p);
      if r.Success? {
        MirrorsPut(l, was, h, call.p, r.value);
      }
    }
  }

  method StepDestroy(kv: Kv, call: Call, ghost l: Ledger) returns (reply: Reply)
    requires kv.Valid() && call.DestroyCall?
    modifies kv, kv.b
    ensures kv.Valid() && Effect(old(kv.history), old(kv.destroyed), kv.history, kv.destroyed, call, reply)
    ensures kv.b.reliable && old(AllTidy(kv.b.data)) ==> AllTidy(kv.b.data)
    ensures kv.b.reliable && old(Mirrors(l, kv.b.data, kv.history)) ==>
              reply == Expected(l, call, kv.utf8) && Mirrors(Next(l, call, kv.utf8), kv.b.data, kv.history)
  {
    hide AllOk, AllComplete, AllTidy, OnlyPath, MetaOf, LosingSince, DoomedAt, DestroyMetas, Mirrors, AfterDestroy;
    ghost var was, h := kv.b.data, kv.history;
    NoMetaNoHistory(was, h, kv.destroyed, call.p);
    var ok := kv.Destroy(call.p, call.versions);
    reply := if ok then Done else Failed(StorageFailed);
    if kv.b.reliable && Mirrors(l, was, h) {
      MirrorsAt(l, was, h, call.p);
      MirrorsStep(l, was, h, call.p, kv.b.data, h, Next(l, call, kv.utf8));
    }
  }

  method StepDeleteAll(kv: Kv, call: Call, ghost l: Ledger) returns (reply: Reply)
    requires kv.Valid() && call.DeleteAllCall?
    modifies kv, kv.b
    ensures kv.Valid() && Effect(old(kv.history), old(kv.destroyed), kv.history, kv.destroyed, call, reply)
    ensures kv.b.reliable && old(AllTidy(kv.b.data)) ==> AllTidy(kv.b.data)
    ensures kv.b.reliable && old(Mirrors(l, kv.b.data, kv.history)) ==>
              reply == Expected(l, call, kv.utf8) && Mirrors(Next(l, call, kv.utf8), kv.b.data, kv.history)
  {
    hide AllOk, AllComplete, AllTidy, OnlyPath, MetaOf, LosingSince, TrackedAt, Mirrors;
    ghost var was, h := kv.b.data, kv.history;
    NoMetaNoHistory(was, h, kv.destroyed, call.p);
    var ok := kv.DeleteAll(call.p);
    reply := if ok then Done else Failed(StorageFailed);
    if kv.b.reliable && Mirrors(l, was, h) {
      MirrorsAt(l, was, h, call.p);
      MirrorsStep(l, was, h, call.p, kv.b.data, kv.history, Next(l, call, kv.utf8));
    }
  }

  method Step(kv: Kv, call: Call, ghost l: Ledger) returns (reply: Reply)
    requires kv.Valid()
    modifies kv, kv.b
    ensures kv.Valid() && Effect(old(kv.history), old(kv.destroyed), kv.history, kv.destroyed, call, reply)
    ensures kv.b.reliable && old(AllTidy(kv.b.data)) ==> AllTidy(kv.b.data)
    ensures kv.b.reliable && old(Mirrors(l, kv.b.data, kv.history)) ==>
              reply == Expected(l, call, kv.utf8) && Mirrors(Next(l, call, kv.utf8), kv.b.data, kv.history)
  {
    hide AllOk, AllComplete, AllTidy, Effect, Mirrors;
    match call {
      case WriteCall(_, _, _, _) => reply := StepWrite(kv, call, l);
      case ReadCall(_, _) => reply := StepRead(kv, call, l);
      case DestroyCall(_, _) => reply := StepDestroy(kv, call, l);
      case DeleteAllCall(_) => reply := StepDeleteAll(kv, call, l);
      case UpdateCall(_, _, _) => reply := StepUpdate(kv, call, l);
      case _ => reply := StepFlags(kv, call, l);
    }
  }

  // ---- what the calls and replies so far say ----

  /** Call i wrote version v of p. */
  ghost predicate WroteAt(calls: seq<Call>, replies: seq<Reply>, i: nat, p: Bytes, v: nat) {
    i < |replies| <= |calls| && calls[i].WriteCall? && calls[i].p == p && replies[i] == Wrote(v)
  }

  /** Call k destroyed version v of p. */
  ghost predicate DestroyedAt(calls: seq<Call>, replies: seq<Reply>, k: nat, p: Bytes, v: nat) {
    k < |replies| <= |calls| && calls[k].DestroyCall? && calls[k].p == p && v in calls[k].versions && replies[k] == Done
  }

  /** Call j returned version v of p. */
  ghost predicate GotAt(calls: seq<Call>, replies: seq<Reply>, j: nat, p: Bytes, v: nat) {
    j < |replies| <= |calls| && calls[j].ReadCall? && calls[j].p == p && replies[j].Got? && replies[j].version == v
  }

  /** Call k deleted p altogether. */
  ghost predicate ClearedAt(calls: seq<Call>, replies: seq<Reply>, k: nat, p: Bytes) {
    k < |replies| <= |calls| && calls[k].DeleteAllCall? && calls[k].p == p && replies[k] == Done
  }

  ghost predicate ClearedBetween(calls: seq<Call>, replies: seq<Reply>, p: Bytes, i: nat, n: nat) {
    exists k: nat :: i < k < n && ClearedAt(calls, replies, k, p)
  }

  /** The two calls are writes to one path with one cas value, and both succeeded. */
  ghost predicate SameCas(calls: seq<Call>, replies: seq<Reply>, i: nat, j: nat) {
    && i < j < |replies| <= |calls| && calls[i].WriteCall? && calls[j].WriteCall? && calls[i].p == calls[j].p
    && calls[i].cas.Some? && calls[i].cas == calls[j].cas && replies[i].Wrote? && replies[j].Wrote?
  }

  ghost predicate CasOnce(calls: seq<Call>, replies: seq<Reply>) {
    forall i: nat, j: nat :: SameCas(calls, replies, i, j) ==> ClearedBetween(calls, replies, calls[i].p, i, j)
  }

  /** A write before call j put these bytes there under this number, and p was not deleted since. */
  ghost predicate WrittenBefore(calls: seq<Call>, replies: seq<Reply>, j: nat, p: Bytes, v: nat, bytes: Bytes) {
    exists i: nat :: i < j && WroteAt(calls, replies, i, p, v) && calls[i].value == bytes
        && !ClearedBetween(calls, replies, p, i, j)
  }

  ghost predicate ReadsBack(calls: seq<Call>, replies: seq<Reply>) {
    forall j: nat, p, v: nat :: GotAt(calls, replies, j, p, v) ==>
        WrittenBefore(calls, replies, j, p, v, replies[j].bytes)
  }

  ghost predicate DestroyedStays(calls: seq<Call>, replies: seq<Reply>) {
    forall i: nat, k: nat, j: nat, p, v: nat ::
      WroteAt(calls, replies, i, p, v) && DestroyedAt(calls, replies, k, p, v) && GotAt(calls, replies, j, p, v)
          && i < k < j ==>
        ClearedBetween(calls, replies, p, i, j)
  }

  ghost predicate Kept(calls: seq<Call>, replies: seq<Reply>, n: nat, p: Bytes, v: nat, history: seq<Bytes>) {
    1 <= v <= |history| ==> WrittenBefore(calls, replies, n, p, v, history[v - 1])
  }

  /** The histories are what the calls and replies say. */
  ghost predicate Recorded(calls: seq<Call>, replies: seq<Reply>, h: Histories, d: Destroyed) {
    var n := |replies|;
    && n <= |calls|
    && (forall i: nat, p, v: nat :: WroteAt(calls, replies, i, p, v) && !ClearedBetween(calls, replies, p, i, n) ==>
          1 <= v <= |HistoryOf(h, p)| && (calls[i].cas.Some? ==> calls[i].cas.value == v - 1))
    && (forall p, v: nat :: Kept(calls, replies, n, p, v, HistoryOf(h, p)))
    && (forall i: nat, k: nat, p, v: nat ::
          WroteAt(calls, replies, i, p, v) && DestroyedAt(calls, replies, k, p, v) && i < k
              && !ClearedBetween(calls, replies, p, i, n) ==>
            v in DestroyedOf(d, p))
  }

  // ---- one more call ----

  lemma ClearedLonger(calls: seq<Call>, replies: seq<Reply>, reply: Reply, p: Bytes, i: nat)
    requires |replies| < |calls| && i < |replies|
    ensures var n := |replies|;
            ClearedBetween(calls, replies + [reply], p, i, n + 1) <==>
              ClearedBetween(calls, replies, p, i, n) || ClearedAt(calls, replies + [reply], n, p)
  {
    var n := |replies|;
    if ClearedBetween(calls, replies, p, i, n) {
      var k: nat :| i < k < n && ClearedAt(calls, replies, k, p);
      assert ClearedAt(calls, replies + [reply], k, p);
    }
    if ClearedBetween(calls, replies + [reply], p, i, n + 1) {
      var k: nat :| i < k < n + 1 && ClearedAt(calls, replies + [reply], k, p);
      assert k < n ==> ClearedAt(calls, replies, k, p);
    }
  }

  lemma ClearedSame(calls: seq<Call>, replies: seq<Reply>, reply: Reply, p: Bytes, i: nat, j: nat)
    requires |replies| < |calls| && j <= |replies|
    ensures ClearedBetween(calls, replies + [reply], p, i, j) <==> ClearedBetween(calls, replies, p, i, j)
  {
    if ClearedBetween(calls, replies, p, i, j) {
      var k: nat :| i < k < j && ClearedAt(calls, replies, k, p);
      assert ClearedAt(calls, replies + [reply], k, p);
    }
    if ClearedBetween(calls, replies + [reply], p, i, j) {
      var k: nat :| i < k < j && ClearedAt(calls, replies + [reply], k, p);
      assert ClearedAt(calls, replies, k, p);
    }
  }

  lemma WritesRecorded(calls: seq<Call>, replies: seq<Reply>, h: Histories, d: Destroyed,
      h': Histories, d': Destroyed, reply: Reply, i: nat, p: Bytes, v: nat)
    requires |replies| < |calls| && Recorded(calls, replies, h, d) && Effect(h, d, h', d', calls[|replies|], reply)
    requires WroteAt(calls, replies + [reply], i, p, v)
              && !ClearedBetween(calls, replies + [reply], p, i, |replies| + 1)
    ensures 1 <= v <= |HistoryOf(h', p)| && (calls[i].cas.Some? ==> calls[i].cas.value == v - 1)
    ensures i < |replies| ==> !ClearedBetween(calls, replies, p, i, |replies|)
    ensures i < |replies| ==> v <= |HistoryOf(h, p)| <= |HistoryOf(h', p)|
  {
    hide ClearedBetween, Kept;
    if i < |replies| {
      ClearedLonger(calls, replies, reply, p, i);
      assert WroteAt(calls, replies, i, p, v);
      assert calls[|replies|].p != p ==> SameAtPath(h, d, h', d', p);
    }
  }

  lemma HistoryRecorded(calls: seq<Call>, replies: seq<Reply>, h: Histories, d: Destroyed,
      h': Histories, d': Destroyed, reply: Reply, p: Bytes, v: nat)
    requires |replies| < |calls| && Recorded(calls, replies, h, d) && Effect(h, d, h', d', calls[|replies|], reply)
    ensures Kept(calls, replies + [reply], |replies| + 1, p, v, HistoryOf(h', p))
  {
    var n := |replies|;
    var after := replies + [reply];
    if 1 <= v <= |HistoryOf(h', p)| {
      assert calls[n].p != p ==> SameAtPath(h, d, h', d', p);
      if calls[n].p == p && reply.Wrote? && v == |HistoryOf(h, p)| + 1 {
        assert WroteAt(calls, after, n, p, v) && calls[n].value == HistoryOf(h', p)[v - 1];
      } else {
        assert !ClearedAt(calls, after, n, p);
        assert Kept(calls, replies, n, p, v, HistoryOf(h, p));
        assert HistoryOf(h', p)[v - 1] == HistoryOf(h, p)[v - 1];
        var i: nat :| i < n && WroteAt(calls, replies, i, p, v) && calls[i].value == HistoryOf(h, p)[v - 1]
                      && !ClearedBetween(calls, replies, p, i, n);
        ClearedLonger(calls, replies, reply, p, i);
        assert WroteAt(calls, after, i, p, v);
      }
    }
  }

  lemma DestroysRecorded(calls: seq<Call>, replies: seq<Reply>, h: Histories, d: Destroyed,
      h': Histories, d': Destroyed, reply: Reply, i: nat, k: nat, p: Bytes, v: nat)
    requires |replies| < |calls| && Recorded(calls, replies, h, d) && Effect(h, d, h', d', calls[|replies|], reply)
    requires WroteAt(calls, replies + [reply], i, p, v) && DestroyedAt(calls, replies + [reply], k, p, v) && i < k
    requires !ClearedBetween(calls, replies + [reply], p, i, |replies| + 1)
    ensures v in DestroyedOf(d', p)
  {
    WritesRecorded(calls, replies, h, d, h', d', reply, i, p, v);
    hide ClearedBetween, Kept;
    var n := |replies|;
    ClearedLonger(calls, replies, reply, p, i);
    assert calls[n].p != p ==> SameAtPath(h, d, h', d', p);
    if k < n {
      assert WroteAt(calls, replies, i, p, v) && DestroyedAt(calls, replies, k, p, v);
      assert v in DestroyedOf(d, p);
    }
  }

  lemma RecordedStep(calls: seq<Call>, replies: seq<Reply>, h: Histories, d: Destroyed,
      h': Histories, d': Destroyed, reply: Reply)
    requires |replies| < |calls| && Recorded(calls, replies, h, d) && Effect(h, d, h', d', calls[|replies|], reply)
    ensures Recorded(calls, replies + [reply], h', d')
  {
    hide Effect, DestroyedAt, ClearedBetween, Kept;
    var after := replies + [reply];
    var n := |after|;
    forall i: nat, p, v: nat | WroteAt(calls, after, i, p, v) && !ClearedBetween(calls, after, p, i, n)
      ensures 1 <= v <= |HistoryOf(h', p)| && (calls[i].cas.Some? ==> calls[i].cas.value == v - 1)
    {
      WritesRecorded(calls, replies, h, d, h', d', reply, i, p, v);
    }
    forall p, v: nat
      ensures Kept(calls, after, n, p, v, HistoryOf(h', p))
    {
      HistoryRecorded(calls, replies, h, d, h', d', reply, p, v);
    }
    forall i: nat, k: nat, p, v: nat |
      WroteAt(calls, after, i, p, v) && DestroyedAt(calls, after, k, p, v) && i < k
          && !ClearedBetween(calls, after, p, i, n)
      ensures v in DestroyedOf(d', p)
    {
      DestroysRecorded(calls, replies, h, d, h', d', reply, i, k, p, v);
    }
  }

  lemma CasOnceStep(calls: seq<Call>, replies: seq<Reply>, h: Histories, d: Destroyed,
      h': Histories, d': Destroyed, reply: Reply)
    requires |replies| < |calls| && Recorded(calls, replies, h, d) && Effect(h, d, h', d', calls[|replies|], reply)
    requires CasOnce(calls, replies)
    ensures CasOnce(calls, replies + [reply])
  {
    var n := |replies|;
    var after := replies + [reply];
    forall i: nat, j: nat | SameCas(calls, after, i, j)
      ensures ClearedBetween(calls, after, calls[i].p, i, j)
    {
      hide ClearedBetween, Kept;
      ClearedSame(calls, replies, reply, calls[i].p, i, j);
      if j < n {
        assert SameCas(calls, replies, i, j);
      } else {
        assert WroteAt(calls, replies, i, calls[i].p, replies[i].version);
      }
    }
  }

  lemma ReadsBackStep(calls: seq<Call>, replies: seq<Reply>, h: Histories, d: Destroyed,
      h': Histories, d': Destroyed, reply: Reply)
    requires |replies| < |calls| && Recorded(calls, replies, h, d) && Effect(h, d, h', d', calls[|replies|], reply)
    requires ReadsBack(calls, replies)
    ensures ReadsBack(calls, replies + [reply])
  {
    var n := |replies|;
    var after := replies + [reply];
    forall j: nat, p, v: nat | GotAt(calls, after, j, p, v)
      ensures WrittenBefore(calls, after, j, p, v, after[j].bytes)
    {
      if j < n {
        assert GotAt(calls, replies, j, p, v);
      } else {
        assert Kept(calls, replies, n, p, v, HistoryOf(h, p));
      }
      WrittenStays(calls, replies, reply, j, p, v, after[j].bytes);
    }
  }

  lemma WrittenStays(calls: seq<Call>, replies: seq<Reply>, reply: Reply, j: nat, p: Bytes, v: nat, bytes: Bytes)
    requires |replies| < |calls| && j <= |replies| && WrittenBefore(calls, replies, j, p, v, bytes)
    ensures WrittenBefore(calls, replies + [reply], j, p, v, bytes)
  {
    var i: nat :| i < j && WroteAt(calls, replies, i, p, v) && calls[i].value == bytes
        && !ClearedBetween(calls, replies, p, i, j);
    ClearedSame(calls, replies, reply, p, i, j);
    assert WroteAt(calls, replies + [reply], i, p, v);
  }

  lemma DestroyedStaysStep(calls: seq<Call>, replies: seq<Reply>, h: Histories, d: Destroyed,
      h': Histories, d': Destroyed, reply: Reply)
    requires |replies| < |calls| && Recorded(calls, replies, h, d) && Effect(h, d, h', d', calls[|replies|], reply)
    requires DestroyedStays(calls, replies)
    ensures DestroyedStays(calls, replies + [reply])
  {
    var n := |replies|;
    var after := replies + [reply];
    forall i: nat, k: nat, j: nat, p, v: nat |
      WroteAt(calls, after, i, p, v) && DestroyedAt(calls, after, k, p, v) && GotAt(calls, after, j, p, v) && i < k < j
      ensures ClearedBetween(calls, after, p, i, j)
    {
      hide ClearedBetween, Kept;
      ClearedSame(calls, replies, reply, p, i, j);
      assert WroteAt(calls, replies, i, p, v) && DestroyedAt(calls, replies, k, p, v);
      if j < n {
        assert GotAt(calls, replies, j, p, v);
      }
    }
  }

  /** Every reply is the one the ledger of the calls before it gives. */
  ghost predicate AsExpected(calls: seq<Call>, replies: seq<Reply>, utf8: Bytes -> bool) {
    |replies| <= |calls| && forall i :: 0 <= i < |replies| ==>
      replies[i] == Expected(After(calls[..i], utf8), calls[i], utf8)
  }

  /** From an empty store: between deletions of its path a cas value succeeds once, a value read is the one written
      under its number, and a version that was destroyed is not read again.  On storage that never fails every reply is
      that of the ledger, and exactly the data of the referenced versions is stored. */
  method Run(b: Store<Byte, KvValue>, utf8: Bytes -> bool, calls: seq<Call>) returns (replies: seq<Reply>)
    requires b.data == map[]
    modifies b
    ensures |replies| == |calls|
    ensures CasOnce(calls, replies) && ReadsBack(calls, replies) && DestroyedStays(calls, replies)
    ensures b.reliable ==> AsExpected(calls, replies, utf8)
    ensures b.reliable ==> AllComplete(b.data) && AllTidy(b.data)
  {
    hide AllOk, AllComplete, AllTidy, Effect, Told, CasOnce, ReadsBack, DestroyedStays, Mirrors, AsExpected, Next;
    var kv := new Kv(b, utf8);
    replies := [];
    ghost var l: Ledger := map[];
    NothingTold(calls, b.data, utf8);
    for i := 0 to |calls|
      invariant kv.Valid() && kv.b == b && kv.utf8 == utf8 && fresh(kv) && |replies| == i
      invariant b.reliable ==> AllTidy(b.data) && Mirrors(l, b.data, kv.history) && AsExpected(calls, replies, utf8)
      invariant l == After(calls[..i], utf8)
      invariant Told(calls, replies, kv.history, kv.destroyed)
    {
      ghost var h, d := kv.history, kv.destroyed;
      var reply := Step(kv, calls[i], l);
      ToldStep(calls, replies, h, d, kv.history, kv.destroyed, reply);
      if b.reliable {
        ExpectedStep(calls, replies, utf8, reply);
      }
      replies := replies + [reply];
      assert calls[..i + 1][..i] == calls[..i];
      l := Next(l, calls[i], utf8);
    }
    ToldIs(calls, replies, kv.history, kv.destroyed);
  }

  /** The histories, and all that is to be shown of the replies so far. */
  ghost predicate Told(calls: seq<Call>, replies: seq<Reply>, h: Histories, d: Destroyed) {
    Recorded(calls, replies, h, d) && CasOnce(calls, replies) && ReadsBack(calls, replies)
      && DestroyedStays(calls, replies)
  }

  lemma NothingTold(calls: seq<Call>, data: Data, utf8: Bytes -> bool)
    requires data == map[]
    ensures Told(calls, [], map[], map[]) && AllTidy(data) && Mirrors(map[], data, map[]) && AsExpected(calls, [], utf8)
    ensures After(calls[..0], utf8) == map[]
  {}

  lemma ToldStep(calls: seq<Call>, replies: seq<Reply>, h: Histories, d: Destroyed, h': Histories, d': Destroyed,
      reply: Reply)
    requires |replies| < |calls| && Told(calls, replies, h, d) && Effect(h, d, h', d', calls[|replies|], reply)
    ensures Told(calls, replies + [reply], h', d')
  {
    hide Effect, Recorded, CasOnce, ReadsBack, DestroyedStays;
    RecordedStep(calls, replies, h, d, h', d', reply);
    CasOnceStep(calls, replies, h, d, h', d', reply);
    ReadsBackStep(calls, replies, h, d, h', d', reply);
    DestroyedStaysStep(calls, replies, h, d, h', d', reply);
  }

  lemma ToldIs(calls: seq<Call>, replies: seq<Reply>, h: Histories, d: Destroyed)
    requires Told(calls, replies, h, d)
    ensures CasOnce(calls, replies) && ReadsBack(calls, replies) && DestroyedStays(calls, replies)
  {
    hide Recorded, CasOnce, ReadsBack, DestroyedStays;
  }

  lemma ExpectedStep(calls: seq<Call>, replies: seq<Reply>, utf8: Bytes -> bool, reply: Reply)
    requires |replies| < |calls| && AsExpected(calls, replies, utf8)
    requires reply == Expected(After(calls[..|replies|], utf8), calls[|replies|], utf8)
    ensures AsExpected(calls, replies + [reply], utf8)
  {
    hide Expected, After;
  }

  // ---- paths as callers write them ----

  function Named(call: Call): Call {
    call.(p := Clean(call.p))
  }

  function NamedAll(calls: seq<Call>): seq<Call> {
    seq(|calls|, i requires 0 <= i < |calls| => Named(calls[i]))
  }

  /** The same for paths that still have to be cleaned: what counts is the name a path stands for. */
  method RunPaths(b: Store<Byte, KvValue>, utf8: Bytes -> bool, calls: seq<Call>) returns (replies: seq<Reply>)
    requires b.data == map[]
    modifies b
    ensures |replies| == |calls|
    ensures var names := NamedAll(calls);
            && CasOnce(names, replies) && ReadsBack(names, replies) && DestroyedStays(names, replies)
            && (b.reliable ==> AsExpected(names, replies, utf8))
    ensures b.reliable ==> AllComplete(b.data) && AllTidy(b.data)
  {
    hide CasOnce, ReadsBack, DestroyedStays, AllComplete, AllTidy, AsExpected;
    var names := NamedAll(calls);
    replies := Run(b, utf8, names);
  }
}
