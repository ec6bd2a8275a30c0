/** internal/kvv2: versioned secrets.  The path lock makes each call on a path one step; storage calls may fail. */
module KvStore {
  import opened KvCustom
  import opened KvSpec
  import opened Storage
  import opened Text
  import opened Wrappers

  // ---- metadata updates ----

  /** oldest is the smallest tracked version, 0 when there is none. */
  ghost predicate Normal(m: KvMeta) {
    if m.versions == map[] then m.oldest == 0
    else 1 <= m.oldest && m.oldest in m.versions && forall v :: v in m.versions ==> m.oldest <= v
  }

  method Normalize(m: KvMeta) returns (r: KvMeta)
    requires 0 !in m.versions
    ensures r == m.(oldest := r.oldest) && Normal(r)
    ensures Normal(m) ==> r == m
  {
    hide Normal;
    var todo := m.versions.Keys;
    var oldest := 0;
    while todo != {}
      invariant todo <= m.versions.Keys
      invariant oldest == 0 ==> todo == m.versions.Keys
      invariant oldest != 0 ==> oldest in m.versions && forall v :: v in m.versions && v !in todo ==> oldest <= v
      decreases |todo|
    {
      var v :| v in todo;
      todo := todo - {v};
      if oldest == 0 || v < oldest {
        oldest := v;
      }
    }
    r := m.(oldest := oldest);
    SmallestIsNormal(m, oldest);
  }

  lemma SmallestIsNormal(m: KvMeta, oldest: nat)
    requires 0 !in m.versions
    requires if oldest == 0 then m.versions.Keys == {} else oldest in m.versions && forall v :: v in m.versions ==>
              oldest <= v
    ensures Normal(m.(oldest := oldest)) && (Normal(m) ==> m.oldest == oldest)
  {}

  /** Forgets every version at or below current - maxVersions, and says which. */
  method Evict(m: KvMeta) returns (r: KvMeta, gone: seq<nat>)
    requires 0 !in m.versions
    ensures Normal(r) && r == m.(oldest := r.oldest, versions := r.versions)
    ensures forall v :: v in gone <==> v in m.versions && m.maxVersions > 0 && v <= m.current - m.maxVersions
    ensures r.versions == map v | v in m.versions && v !in gone :: m.versions[v]
  {
    gone := [];
    var versions := m.versions;
    if m.maxVersions > 0 {
      var todo := m.versions.Keys;
      while todo != {}
        invariant todo <= m.versions.Keys
        invariant forall v :: v in gone <==> v in m.versions && v !in todo && v <= m.current - m.maxVersions
        invariant versions == map v | v in m.versions && v !in gone :: m.versions[v]
        decreases |todo|
      {
        var v :| v in todo;
        todo := todo - {v};
        if v <= m.current - m.maxVersions {
          gone := gone + [v];
          versions := versions - {v};
        }
      }
    }
    r := Normalize(m.(versions := versions));
  }

  function Fresh(def: Defaults): KvMeta {
    KvMeta(0, 0, if def.maxVersions > 0 then def.maxVersions else DEFAULT_MAX, false, map[], map[])
  }

  function WithNewVersion(m: KvMeta): KvMeta {
    m.(current := m.current + 1, versions := m.versions[m.current + 1 := VerMeta(false, false)])
  }

  /** The new version is tracked, and of the older ones as many as maxVersions leaves room for. */
  function AfterWrite(m: KvMeta): KvMeta {
    var w := WithNewVersion(m);
    var lo := if m.current == 0 then 1 else m.oldest;
    var first := if w.maxVersions > 0 && w.current - w.maxVersions + 1 > lo then w.current - w.maxVersions + 1 else lo;
    w.(oldest := first, versions := map v | v in w.versions && first <= v :: w.versions[v])
  }

  lemma OkIsNormal(m: KvMeta, history: seq<Bytes>, destroyed: set<nat>)
    requires MetaOk(m, history, destroyed)
    ensures Normal(m) && 0 !in m.versions && 0 !in WithNewVersion(m).versions
  {
    if m.current != 0 {
      assert m.oldest in m.versions;
    }
  }

  /** After a write the tracked versions are the last maxVersions numbers that were tracked or just written. */
  lemma WriteKeepsInterval(m: KvMeta, r: KvMeta, gone: seq<nat>, history: seq<Bytes>, destroyed: set<nat>, value: Bytes)
    requires MetaOk(m, history, destroyed) && Normal(r)
    requires var w := WithNewVersion(m);
             && r == w.(oldest := r.oldest, versions := r.versions)
             && (forall v :: v in gone <==> v in w.versions && w.maxVersions > 0 && v <= w.current - w.maxVersions)
             && r.versions == map v | v in w.versions && v !in gone :: w.versions[v]
    ensures MetaOk(r, history + [value], destroyed)
    ensures r.current in r.versions && r.versions[r.current] == VerMeta(false, false)
    ensures r.maxVersions > 0 ==> r.oldest > r.current - r.maxVersions
    ensures forall v :: v in r.versions && v != r.current ==> v in m.versions && r.versions[v] == m.versions[v]
    ensures forall v :: v in m.versions && v !in r.versions ==> v in gone
  {
    var w := WithNewVersion(m);
    var lo := if m.current == 0 then 1 else m.oldest;
    assert forall v :: v in w.versions <==> lo <= v <= w.current;
    assert r.current in r.versions;
    var first := if w.maxVersions > 0 && w.current - w.maxVersions + 1 > lo then w.current - w.maxVersions + 1 else lo;
    assert forall v :: v in r.versions <==> first <= v <= r.current;
    assert r.oldest == first by {
      assert first in r.versions;
    }
  }

  lemma WriteTracks(m: KvMeta, r: KvMeta, gone: seq<nat>, history: seq<Bytes>, destroyed: set<nat>)
    requires MetaOk(m, history, destroyed) && Normal(r)
    requires var w := WithNewVersion(m);
             && r == w.(oldest := r.oldest, versions := r.versions)
             && (forall v :: v in gone <==> v in w.versions && w.maxVersions > 0 && v <= w.current - w.maxVersions)
             && r.versions == map v | v in w.versions && v !in gone :: w.versions[v]
    ensures r == AfterWrite(m)
  {
    var w, first := WithNewVersion(m), AfterWrite(m).oldest;
    assert forall v :: v in r.versions <==> first <= v <= r.current;
    assert first in r.versions && r.oldest == first;
    assert r.versions == AfterWrite(m).versions;
  }

  // ---- storage steps of a write ----

  /** A state that a crash may leave: p shows the old history or the new one, and nothing it refers to is missing. */
  ghost predicate Survives(state: Data, p: Bytes, before: seq<Bytes>, after: seq<Bytes>, destroyed: set<nat>) {
    (PathOk(state, p, before, destroyed) || PathOk(state, p, after, destroyed)) && Complete(state, p)
  }

  ghost predicate AllSurvive(states: seq<Data>, p: Bytes, before: seq<Bytes>, after: seq<Bytes>, destroyed: set<nat>) {
    forall i :: 0 <= i < |states| ==> Survives(states[i], p, before, after, destroyed)
  }

  /** The metadata of p now refers to the version whose data was put first. */
  lemma MetaStep(data: Data, p: Bytes, m: KvMeta, r: KvMeta, history: seq<Bytes>, destroyed: set<nat>, value: Bytes)
    requires PathOk(data, p, history, destroyed)
    requires match MetaOf(data, p) case Some(x) => x == m case None => m.versions == map[]
    requires MetaOk(r, history + [value], destroyed) && r.current == m.current + 1
    requires r.current in r.versions && r.versions[r.current] == VerMeta(false, false)
    requires forall v :: v in r.versions && v != r.current ==> v in m.versions && r.versions[v] == m.versions[v]
    requires DataKey(p, r.current) in data && data[DataKey(p, r.current)] == DataValue(value)
    ensures var after := data[MetaKey(p) := MetaValue(r)];
            && PathOk(after, p, history + [value], destroyed) && (Complete(data, p) ==> Complete(after, p))
            && MetaOf(after, p) == Some(r)
  {
    var after := data[MetaKey(p) := MetaValue(r)];
    forall v | Referenced(after, p, v)
      ensures DataKey(p, v) in after ==> after[DataKey(p, v)] == DataValue((history + [value])[v - 1])
      ensures Complete(data, p) ==> DataKey(p, v) in after && after[DataKey(p, v)].DataValue?
    {
      KeysApart(p, p, v);
      if v != r.current {
        assert Referenced(data, p, v);
      }
    }
  }

  /** The metadata before a write, the metadata after it, and the versions it evicts. */
  datatype Plan = Plan(meta: KvMeta, next: KvMeta, gone: seq<nat>)

  ghost predicate Planned(data: Data, p: Bytes, history: seq<Bytes>, destroyed: set<nat>, value: Bytes, plan: Plan) {
    var Plan(m, r, gone) := plan;
    && (match MetaOf(data, p) case Some(x) => x == m case None => m.versions == map[])
    && MetaOk(m, history, destroyed)
    && Normal(r) && MetaOk(r, history + [value], destroyed) && r.current == m.current + 1
    && r.current in r.versions && r.versions[r.current] == VerMeta(false, false)
    && (forall v :: v in r.versions && v != r.current ==> v in m.versions && r.versions[v] == m.versions[v])
    && (forall v :: v in gone ==> v !in r.versions) && (forall v :: v in m.versions && v !in r.versions ==> v in gone)
  }

  lemma PlanReady(data: Data, p: Bytes, history: seq<Bytes>, destroyed: set<nat>, def: Defaults, next: KvMeta,
      gone: seq<nat>, value: Bytes)
    requires PathOk(data, p, history, destroyed) && Normal(next)
    requires var w := WithNewVersion(MetaOr(data, p, def));
             && next == w.(oldest := next.oldest, versions := next.versions)
             && (forall v :: v in gone <==> v in w.versions && w.maxVersions > 0 && v <= w.current - w.maxVersions)
             && next.versions == map v | v in w.versions && v !in gone :: w.versions[v]
    ensures Planned(data, p, history, destroyed, value, Plan(MetaOr(data, p, def), next, gone)) && Bounded(Some(next))
    ensures next == AfterWrite(MetaOr(data, p, def)) && next.current == |history| + 1
  {
    var m := MetaOr(data, p, def);
    StoredMetaOk(data, p, history, destroyed, def);
    hide PathOk;
    WriteKeepsInterval(m, next, gone, history, destroyed, value);
    WriteTracks(m, next, gone, history, destroyed);
    hide MetaOk, Normal, AfterWrite;
  }

  lemma PutOwned(data: Data, p: Bytes, k: Bytes, x: KvValue)
    requires Owned(p, k)
    ensures OnlyPath(data, data[k := x], p) && OnlyPath(data, data - {k}, p)
  {}

  lemma OnlyPathChains(a: Data, b: Data, c: Data, p: Bytes)
    requires OnlyPath(a, b, p) && OnlyPath(b, c, p)
    ensures OnlyPath(a, c, p)
  {}

  class Kv {
    const b: Store<Byte, KvValue>
    const utf8: Bytes -> bool
    /** The bytes written to each path since it was last deleted, in order of version. */
    ghost var history: Histories
    /** The versions destroyed since then. */
    ghost var destroyed: Destroyed

    /** What is stored always agrees with the history; nothing referenced is missing if storage never fails. */
    ghost predicate Valid()
      reads this, b
    {
      AllOk(b.data, history, destroyed) && (b.reliable ==> AllComplete(b.data))
    }

    constructor (b: Store<Byte, KvValue>, utf8: Bytes -> bool)
      requires b.data == map[]
      ensures Valid() && this.b == b && this.utf8 == utf8 && history == map[] && destroyed == map[]
    {
      this.b, this.utf8, history, destroyed := b, utf8, map[], map[];
    }

    method GetMeta(p: Bytes) returns (r: Result<Option<KvMeta>, ()>)
      requires Valid()
      ensures r.Success? ==> r.value == MetaOf(b.data, p)
      ensures b.reliable ==> r.Success?
    {
      var e := b.Get(MetaKey(p));
      assert PathOk(b.data, p, HistoryOf(history, p), DestroyedOf(destroyed, p));
      if e.Failure? || e.value.None? {
        return if e.Failure? then Failure(()) else Success(None);
      }
      OkIsNormal(e.value.value.meta, HistoryOf(history, p), DestroyedOf(destroyed, p));
      var m := Normalize(e.value.value.meta);
      return Success(Some(m));
    }

    method PutMeta(p: Bytes, m: KvMeta) returns (ok: bool)
      requires Normal(m)
      modifies b
      ensures b.reliable ==> ok
      ensures ok ==> b.data == old(b.data)[MetaKey(p) := MetaValue(m)] && b.trace == old(b.trace) + [b.data]
      ensures !ok ==> b.data == old(b.data) && b.trace == old(b.trace)
    {
      var n := Normalize(m);
      ok := b.Put(MetaKey(p), MetaValue(n));
    }

    /** Wipes the data of versions the metadata no longer mentions. */
    method Wipe(p: Bytes, gone: seq<nat>)
      requires Valid() && forall v :: v in gone ==> !Referenced(b.data, p, v)
      modifies b
      ensures Valid() && OnlyPath(old(b.data), b.data, p) && MetaOf(b.data, p) == MetaOf(old(b.data), p)
      ensures forall k :: k in b.data ==> k in old(b.data)
      ensures b.reliable ==> forall v :: v in gone ==> DataKey(p, v) !in b.data
      ensures old(Complete(b.data, p)) ==> Complete(b.data, p)
      ensures old(b.trace) <= b.trace
      ensures old(Complete(b.data, p)) ==>
                AllSurvive(b.trace[|old(b.trace)|..], p, HistoryOf(history, p), HistoryOf(history, p),
                    DestroyedOf(destroyed, p))
    {
      hide PathOk, Complete, AllOk, AllComplete, OnlyPath, Referenced;
      ghost var was := b.data;
      ghost var h, d := HistoryOf(history, p), DestroyedOf(destroyed, p);
      OnlyPathSame(was, p);
      OneOk(b.data, history, destroyed, p);
      for i := 0 to |gone|
        invariant AllOk(b.data, history, destroyed) && (b.reliable ==> AllComplete(b.data))
        invariant PathOk(b.data, p, h, d)
        invariant OnlyPath(was, b.data, p) && MetaOf(b.data, p) == MetaOf(was, p)
        invariant forall k :: k in b.data ==> k in was
        invariant b.reliable ==> forall j :: 0 <= j < i ==> DataKey(p, gone[j]) !in b.data
        invariant Complete(was, p) ==> Complete(b.data, p)
        invariant old(b.trace) <= b.trace
        invariant Complete(was, p) ==> AllSurvive(b.trace[|old(b.trace)|..], p, h, h, d)
      {
        ghost var data, trace := b.data, b.trace;
        SameReferences(was, data, p, gone[i]);
        DataStep(data, data - {DataKey(p, gone[i])}, p, gone[i], h, d);
        PutOwned(data, p, DataKey(p, gone[i]), DataValue([]));
        OnlyPathChains(was, data, data - {DataKey(p, gone[i])}, p);
        StepKeepsSame(data, data - {DataKey(p, gone[i])}, p, history, destroyed);
        var ok := b.Delete(DataKey(p, gone[i]));
        if ok {
          assert b.trace[|old(b.trace)|..] == trace[|old(b.trace)|..] + [b.data];
        }
      }
    }

    /** The new data, then the metadata that refers to it, then the data nothing refers to any more. */
    method StoreVersion(p: Bytes, value: Bytes, m: KvMeta, r: KvMeta, gone: seq<nat>) returns (ok: bool)
      requires Valid() && Planned(b.data, p, HistoryOf(history, p), DestroyedOf(destroyed, p), value, Plan(m, r, gone))
      modifies this, b
      ensures Valid() && OnlyPath(old(b.data), b.data, p) && destroyed == old(destroyed)
      ensures b.reliable ==> ok
      ensures ok ==> history == old(history)[p := HistoryOf(old(history), p) + [value]]
      ensures ok ==> MetaOf(b.data, p) == Some(r) && r.current == |HistoryOf(old(history), p)| + 1
      ensures !ok ==> history == old(history) && MetaOf(b.data, p) == MetaOf(old(b.data), p)
      ensures b.reliable && old(AllTidy(b.data)) ==> AllTidy(b.data)
      ensures old(b.trace) <= b.trace
      ensures old(Complete(b.data, p)) ==>
                && Complete(b.data, p)
                && AllSurvive(b.trace[|old(b.trace)|..], p, HistoryOf(old(history), p),
                    HistoryOf(old(history), p) + [value],
                              DestroyedOf(destroyed, p))
    {
      hide PathOk, Complete, AllOk, AllComplete, AllTidy, OnlyPath, Referenced, AllSurvive, Normal, Planned, MetaOf;
      ghost var h, d := HistoryOf(history, p), DestroyedOf(destroyed, p);
      ghost var s0, t0 := b.data, b.trace;
      ghost var s1 := s0[DataKey(p, r.current) := DataValue(value)];
      ghost var s2 := s1[MetaKey(p) := MetaValue(r)];
      NothingWritten(t0, p, h, h + [value], d);
      OnlyPathSame(s0, p);
      FirstStep(s0, p, history, destroyed, value, Plan(m, r, gone));
      ok := b.Put(DataKey(p, r.current), DataValue(value));
      if !ok {
        return;
      }
      SecondStep(s0, p, history, destroyed, value, Plan(m, r, gone));
      ok := PutMeta(p, r);
      if Complete(s0, p) {
        DataWritten(t0, s1, p, h, h + [value], d);
        MetaWritten(t0, s1, s2, p, h, h + [value], d);
      }
      if !ok {
        return;
      }
      history := history[p := h + [value]];
      ghost var t2 := b.trace;
      Wipe(p, gone);
      OnlyPathChains(s0, s2, b.data, p);
      if b.reliable && AllTidy(s0) {
        WriteTidy(s0, b.data, p, h, d, value, Plan(m, r, gone));
      }
      if Complete(s0, p) {
        TraceSurvives(t0, t2, b.trace, p, h, h + [value], d);
      }
    }

    /** Reads the metadata, checks cas, and works out the metadata after the write. */
    method PlanWrite(p: Bytes, cas: Option<int>, def: Defaults, ghost value: Bytes) returns (r: Result<Plan, KvError>)
      requires Valid()
      ensures b.reliable ==> r.Success? == WriteResult(b.data, p, cas, def).Success?
      ensures b.reliable && r.Failure? ==> WriteResult(b.data, p, cas, def) == Failure(r.error)
      ensures r.Success? ==>
                && Planned(b.data, p, HistoryOf(history, p), DestroyedOf(destroyed, p), value, r.value)
                && WriteResult(b.data, p, cas, def) == Success(r.value.next.current)
                && r.value.next == AfterWrite(MetaOr(b.data, p, def))
                && (cas.Some? ==> cas.value == |HistoryOf(history, p)|)
                && Bounded(Some(r.value.next))
    {
      hide PathOk, AllOk, AllComplete, MetaOf, Normal, MetaOk, AfterWrite, Planned, Bounded;
      ghost var h, d := HistoryOf(history, p), DestroyedOf(destroyed, p);
      OneOk(b.data, history, destroyed, p);
      StoredMetaOk(b.data, p, h, d, def);
      var got := GetMeta(p);
      if got.Failure? {
        return Failure(StorageFailed);
      }
      var meta := if got.value.Some? then got.value.value else Fresh(def);
      if cas.None? && (meta.casRequired || def.casRequired) {
        return Failure(CasRequired);
      }
      if cas.Some? && meta.current != cas.value {
        return Failure(CasMismatch);
      }
      OkIsNormal(meta, h, d);
      var next, evicted := Evict(WithNewVersion(meta));
      PlanReady(b.data, p, h, d, def, next, evicted, value);
      return Success(Plan(meta, next, evicted));
    }

    method Write(p: Bytes, value: Bytes, cas: Option<int>, def: Defaults) returns (r: Result<nat, KvError>)
      requires Valid()
      modifies this, b
      ensures Valid() && OnlyPath(old(b.data), b.data, p) && destroyed == old(destroyed)
      ensures r.Success? ==>
                && r.value == |HistoryOf(old(history), p)| + 1
                    && (cas.Some? ==> cas.value == |HistoryOf(old(history), p)|)
                && history == old(history)[p := HistoryOf(old(history), p) + [value]]
                && Bounded(MetaOf(b.data, p)) && MetaOf(b.data, p) == Some(AfterWrite(MetaOr(old(b.data), p, def)))
                && (old(Complete(b.data, p)) ==> ReadResult(b.data, p, 0) == Success(Value(value, r.value)))
      ensures r.Failure? ==> history == old(history) && MetaOf(b.data, p) == MetaOf(old(b.data), p)
      ensures b.reliable ==> r == WriteResult(old(b.data), p, cas, def)
      ensures b.reliable && old(AllTidy(b.data)) ==> AllTidy(b.data)
      ensures old(b.trace) <= b.trace
      ensures old(Complete(b.data, p)) ==>
                && Complete(b.data, p)
                && AllSurvive(b.trace[|old(b.trace)|..], p, HistoryOf(old(history), p),
                    HistoryOf(old(history), p) + [value],
                              DestroyedOf(destroyed, p))
    {
      hide PathOk, Complete, AllOk, AllComplete, AllTidy, OnlyPath, Referenced, MetaOk, Survives, AllSurvive, Normal,
        ReadResult, MetaOf, WriteResult, AfterWrite, MetaOr;
      ghost var h, d := HistoryOf(history, p), DestroyedOf(destroyed, p);
      OnlyPathSame(b.data, p);
      NothingWritten(b.trace, p, h, h + [value], d);
      var plan := PlanWrite(p, cas, def, value);
      if plan.Failure? {
        return Failure(plan.error);
      }
      var Plan(meta, next, evicted) := plan.value;
      var ok := StoreVersion(p, value, meta, next, evicted);
      if !ok {
        return Failure(StorageFailed);
      }
      OneOk(b.data, history, destroyed, p);
      ReadsNewest(b.data, p, next, h + [value], d);
      return Success(next.current);
    }

    /** Version 0 asks for the newest one. */
    method Read(p: Bytes, version: int) returns (r: Result<Found, KvError>)
      requires Valid()
      ensures r == ReadResult(b.data, p, version) || (r == Failure(StorageFailed) && !b.reliable)
      ensures r.Success? && r.value.Value? ==>
                var v := r.value.version;
                && 1 <= v <= |HistoryOf(history, p)| && r.value.bytes == HistoryOf(history, p)[v - 1]
                && v !in DestroyedOf(destroyed, p)
                && (version == 0 ==> v == |HistoryOf(history, p)|) && (version != 0 ==> v == version)
    {
      hide AllOk, AllComplete, PathOk;
      OneOk(b.data, history, destroyed, p);
      ReadsWhatWasWritten(b.data, p, version, HistoryOf(history, p), DestroyedOf(destroyed, p));
      var got := GetMeta(p);
      if got.Failure? {
        return Failure(StorageFailed);
      }
      if got.value.None? || got.value.value.current == 0 {
        return Success(Never);
      }
      var m := got.value.value;
      var v := if version == 0 then m.current else version;
      if v !in m.versions {
        return Failure(VersionNotFound);
      }
      if m.versions[v].destroyed {
        return Failure(VersionDestroyed);
      }
      if m.versions[v].deleted {
        return Success(Hidden(v));
      }
      var e := b.Get(DataKey(p, v));
      if e.Failure? {
        return Failure(StorageFailed);
      }
      return if e.value.Some? && e.value.value.DataValue? then Success(Value(e.value.value.bytes, v))
          else Failure(DataMissing);
    }

    /** Replaces the metadata by one that refers to no further version. */
    method Replace(p: Bytes, m: KvMeta, ghost gone: set<nat>) returns (ok: bool)
      requires AllOk(b.data, history, destroyed)
      requires Normal(m) && MetaOk(m, HistoryOf(history, p), gone) && Narrower(b.data, p, m)
      requires b.reliable ==> AllComplete(b.data[MetaKey(p) := MetaValue(m)])
      modifies this, b
      ensures AllOk(b.data, history, destroyed) && history == old(history)
      ensures b.reliable ==> ok && Valid()
      ensures ok ==> b.data == old(b.data)[MetaKey(p) := MetaValue(m)] && destroyed == old(destroyed)[p := gone]
      ensures !ok ==> b.data == old(b.data) && destroyed == old(destroyed)
      ensures b.trace == if ok then old(b.trace) + [b.data] else old(b.trace)
    {
      hide PathOk, Complete, AllOk, AllComplete, OnlyPath, Normal, MetaOf, MetaOk, Narrower;
      ghost var h, d := HistoryOf(history, p), DestroyedOf(destroyed, p);
      ghost var was := b.data;
      OneOk(was, history, destroyed, p);
      ReplaceStep(was, p, m, h, d, gone);
      PutOwned(was, p, MetaKey(p), MetaValue(m));
      StepKeepsAll(was, was[MetaKey(p) := MetaValue(m)], p, history, destroyed, h, gone);
      SameHistory(was[MetaKey(p) := MetaValue(m)], history, destroyed[p := gone], p);
      ok := PutMeta(p, m);
      if ok {
        destroyed := destroyed[p := gone];
      }
    }

    method SoftDelete(p: Bytes, versions: seq<int>) returns (ok: bool)
      requires Valid()
      modifies this, b
      ensures Valid() && history == old(history) && (b.reliable ==> ok)
      ensures ok ==> b.data == WithMeta(old(b.data), p, m => SoftDeleted(m, versions))
      ensures b.reliable && old(AllTidy(b.data)) ==> AllTidy(b.data)
      ensures !ok ==> b.data == old(b.data)
      ensures forall q :: DestroyedOf(destroyed, q) == DestroyedOf(old(destroyed), q)
    {
      hide PathOk, Complete, AllOk, AllComplete, AllTidy, MetaOf, MetaOk, Normal, Narrower;
      var got := GetMeta(p);
      if got.Failure? || got.value.None? {
        return got.Success?;
      }
      var m := got.value.value;
      var flags := m.versions;
      for i := 0 to |versions|
        invariant flags.Keys == m.versions.Keys
        invariant forall v :: v in flags ==> flags[v] == SoftFlag(m.versions[v], v in versions[..i])
      {
        var v := versions[i];
        if v in flags && !flags[v].destroyed && !flags[v].deleted {
          flags := flags[v := VerMeta(true, false)];
        }
      }
      assert versions[..|versions|] == versions;
      assert flags == SoftDeleted(m, versions).versions;
      Reflag(b.data, p, m, SoftDeleted(m, versions), history, destroyed);
      ok := Replace(p, m.(versions := flags), DestroyedOf(destroyed, p));
    }

    method Undelete(p: Bytes, versions: seq<int>) returns (ok: bool)
      requires Valid()
      modifies this, b
      ensures Valid() && history == old(history) && (b.reliable ==> ok)
      ensures ok ==> b.data == WithMeta(old(b.data), p, m => Undeleted(m, versions))
      ensures b.reliable && old(AllTidy(b.data)) ==> AllTidy(b.data)
      ensures !ok ==> b.data == old(b.data)
      ensures forall q :: DestroyedOf(destroyed, q) == DestroyedOf(old(destroyed), q)
    {
      hide PathOk, Complete, AllOk, AllComplete, AllTidy, MetaOf, MetaOk, Normal, Narrower;
      var got := GetMeta(p);
      if got.Failure? || got.value.None? {
        return got.Success?;
      }
      var m := got.value.value;
      var flags := m.versions;
      for i := 0 to |versions|
        invariant flags.Keys == m.versions.Keys
        invariant forall v :: v in flags ==> flags[v] == LiveFlag(m.versions[v], v in versions[..i])
      {
        var v := versions[i];
        if v in flags && !flags[v].destroyed {
          flags := flags[v := VerMeta(false, false)];
        }
      }
      assert versions[..|versions|] == versions;
      assert flags == Undeleted(m, versions).versions;
      Reflag(b.data, p, m, Undeleted(m, versions), history, destroyed);
      ok := Replace(p, m.(versions := flags), DestroyedOf(destroyed, p));
    }

    method UpdateMetadata(p: Bytes, u: MetaUpdate, def: Defaults) returns (r: Result<KvMeta, KvError>)
      requires Valid()
      modifies this, b
      ensures Valid() && history == old(history)
      ensures r == UpdateResult(old(b.data), p, u, def, utf8) || (r == Failure(StorageFailed) && !b.reliable)
      ensures b.data == if r.Success? then old(b.data)[MetaKey(p) := MetaValue(r.value)] else old(b.data)
      ensures b.reliable && old(AllTidy(b.data)) ==> AllTidy(b.data)
      ensures forall q :: DestroyedOf(destroyed, q) == DestroyedOf(old(destroyed), q)
    {
      hide PathOk, Complete, AllOk, AllComplete, AllTidy, MetaOf, MetaOk, Normal, Narrower, ConfigResult;
      OutOfRange(MetaOr(b.data, p, def), u, utf8);
      if u.maxVersions.Some? && (u.maxVersions.value < 0 || u.maxVersions.value > MAX_VERSIONS_LIMIT) {
        return Failure(InvalidMetadata);
      }
      var got := GetMeta(p);
      if got.Failure? {
        return Failure(StorageFailed);
      }
      var next := Apply(if got.value.Some? then got.value.value else Fresh(def), u);
      if next.Failure? {
        return Failure(next.error);
      }
      var m := next.value;
      OnlyConfigured(MetaOr(b.data, p, def), u, utf8, m);
      Reconfigure(b.data, p, def, m, history, destroyed);
      var ok := Replace(p, m, DestroyedOf(destroyed, p));
      return if ok then Success(m) else Failure(StorageFailed);
    }

    /** Checks the custom data and changes what the update names. */
    method Apply(was: KvMeta, u: MetaUpdate) returns (r: Result<KvMeta, KvError>)
      requires u.maxVersions.Some? ==> 0 <= u.maxVersions.value <= MAX_VERSIONS_LIMIT
      ensures r == ConfigResult(was, u, utf8)
    {
      hide Merged, FineCustom;
      var m := was;
      if u.custom.Some? {
        var next := Merge(m.custom, u.custom.value, u.replace);
        var fine := ValidateCustom(utf8, next);
        if !fine {
          return Failure(InvalidMetadata);
        }
        m := m.(custom := next);
      }
      if u.maxVersions.Some? {
        m := m.(maxVersions := u.maxVersions.value);
      }
      if u.casRequired.Some? {
        m := m.(casRequired := u.casRequired.value);
      }
      return Success(m);
    }

    /** Deletes the data of one version, whatever the metadata says about it. */
    method EraseData(p: Bytes, v: nat)
      requires AllOk(b.data, history, destroyed)
      modifies b
      ensures AllOk(b.data, history, destroyed) && OnlyPath(old(b.data), b.data, p)
                && MetaOf(b.data, p) == MetaOf(old(b.data), p)
      ensures forall w :: w != v ==> SameAt(old(b.data), b.data, DataKey(p, w))
      ensures forall k :: k in b.data ==> k in old(b.data)
      ensures b.reliable ==> DataKey(p, v) !in b.data
      ensures || (b.data == old(b.data) && b.trace == old(b.trace))
              || (b.data == old(b.data) - {DataKey(p, v)} && b.trace == old(b.trace) + [b.data])
    {
      hide PathOk, AllOk, OnlyPath, MetaOf, AllComplete, Complete;
      ghost var was := b.data;
      OneOk(was, history, destroyed, p);
      EraseStep(was, p, v, HistoryOf(history, p), DestroyedOf(destroyed, p));
      PutOwned(was, p, DataKey(p, v), DataValue([]));
      StepKeepsSame(was, was - {DataKey(p, v)}, p, history, destroyed);
      OnlyPathSame(was, p);
      var _ := b.Delete(DataKey(p, v));
    }

    /** Erases the data of the listed versions that were not destroyed, and flags them. */
    method EraseListed(p: Bytes, m: KvMeta, versions: seq<int>) returns (flags: map<nat, VerMeta>)
      requires AllOk(b.data, history, destroyed) && MetaOf(b.data, p) == Some(m)
      modifies b
      ensures AllOk(b.data, history, destroyed) && OnlyPath(old(b.data), b.data, p) && MetaOf(b.data, p) == Some(m)
      ensures flags == AfterDestroy(m, versions).versions
      ensures forall k :: k in b.data ==> k in old(b.data)
      ensures forall v :: v in flags && !flags[v].destroyed ==> SameAt(old(b.data), b.data, DataKey(p, v))
      ensures b.reliable ==> forall v :: v in flags && flags[v].destroyed && !m.versions[v].destroyed ==>
                DataKey(p, v) !in b.data
      ensures LosingSince(old(b.data), b.data, old(b.trace), b.trace, p, Doomed(m, versions), {Some(m)})
    {
      hide AllOk, OnlyPath, MetaOf, DataKey, Erased, LosingSince;
      OnlyPathSame(b.data, p);
      NothingLost(b.data, b.trace, p, Doomed(m, versions), {Some(m)});
      flags := m.versions;
      NothingErased(b.data, p, m, versions, b.reliable);
      for i := 0 to |versions|
        invariant AllOk(b.data, history, destroyed) && OnlyPath(old(b.data), b.data, p) && MetaOf(b.data, p) == Some(m)
        invariant Erased(old(b.data), b.data, p, m, flags, versions[..i], b.reliable)
        invariant forall k :: k in b.data ==> k in old(b.data)
        invariant LosingSince(old(b.data), b.data, old(b.trace), b.trace, p, Doomed(m, versions), {Some(m)})
      {
        var v := versions[i];
        ghost var data, trace := b.data, b.trace;
        EraseSkips(old(b.data), data, p, m, flags, versions, i, b.reliable);
        if v in flags && !flags[v].destroyed {
          FlagsTracked(old(b.data), data, p, m, flags, versions, i, b.reliable);
          LoseOne(old(b.data), data, old(b.trace), trace, p, v, Doomed(m, versions), {Some(m)});
          EraseData(p, v);
          OnlyPathChains(old(b.data), data, b.data, p);
          EraseMarks(old(b.data), data, b.data, p, m, flags, versions, i, b.reliable);
          flags := flags[v := flags[v].(destroyed := true)];
        }
      }
      assert versions[..|versions|] == versions;
      AllErased(old(b.data), b.data, p, m, flags, versions, b.reliable);
    }

    /** The listed versions that exist can never be read again: their data goes, and their metadata says so. */
    method Destroy(p: Bytes, versions: seq<int>) returns (ok: bool)
      requires Valid()
      modifies this, b
      ensures Valid() && history == old(history) && OnlyPath(old(b.data), b.data, p) && (b.reliable ==> ok)
      ensures !ok ==> destroyed == old(destroyed)
      ensures b.reliable && old(AllTidy(b.data)) ==> AllTidy(b.data)
      ensures ok ==> match MetaOf(old(b.data), p)
                     case None => b.data == old(b.data) && destroyed == old(destroyed)
                     case Some(m) =>
                       && MetaOf(b.data, p) == Some(AfterDestroy(m, versions))
                       && destroyed == old(destroyed)[p := DestroyedOf(old(destroyed), p) + Listed(m, versions)]
                       && (b.reliable ==> forall v :: v in m.versions && !m.versions[v].destroyed && v in versions ==>
                           DataKey(p, v) !in b.data)
      ensures LosingSince(old(b.data), b.data, old(b.trace), b.trace, p, DoomedAt(old(b.data), p, versions),
                  DestroyMetas(old(b.data), p, versions))
    {
      hide PathOk, Complete, AllOk, AllComplete, AllTidy, OnlyPath, MetaOf, MetaOk, Normal, Narrower, LosingSince;
      ghost var was, d := b.data, DestroyedOf(destroyed, p);
      OnlyPathSame(was, p);
      NothingLost(was, b.trace, p, DoomedAt(was, p, versions), DestroyMetas(was, p, versions));
      var got := GetMeta(p);
      if got.Failure? || got.value.None? {
        return got.Success?;
      }
      var m := got.value.value;
      var flags := EraseListed(p, m, versions);
      ghost var data, trace := b.data, b.trace;
      var next := m.(versions := flags);
      LosingMore(was, data, old(b.trace), trace, p, Doomed(m, versions), {Some(m)}, DestroyMetas(was, p, versions));
      LoseMeta(was, data, old(b.trace), trace, p, Doomed(m, versions), DestroyMetas(was, p, versions), next);
      DestroyReady(was, data, p, m, versions, history, destroyed);
      if b.reliable && AllTidy(was) {
        DestroyTidy(was, data, p, m, versions);
      }
      PutOwned(data, p, MetaKey(p), MetaValue(next));
      ok := Replace(p, next, d + Listed(m, versions));
      OnlyPathChains(was, data, data[MetaKey(p) := MetaValue(next)], p);
      DestroyDone(data, p, m, versions);
    }

    /** Removes the data of every tracked version and then the metadata; the path starts over. */
    method DeleteAll(p: Bytes) returns (ok: bool)
      requires Valid()
      modifies this, b
      ensures Valid() && OnlyPath(old(b.data), b.data, p) && (b.reliable ==> ok)
      ensures ok ==> MetaOf(b.data, p) == None
      ensures ok && MetaOf(old(b.data), p).Some? ==>
                history == old(history)[p := []] && destroyed == old(destroyed)[p := {}]
      ensures !ok || MetaOf(old(b.data), p).None? ==> history == old(history) && destroyed == old(destroyed)
      ensures b.reliable && old(AllTidy(b.data)) ==> AllTidy(b.data) && forall k :: Owned(p, k) ==> k !in b.data
      ensures LosingSince(old(b.data), b.data, old(b.trace), b.trace, p, TrackedAt(old(b.data), p),
                  {MetaOf(old(b.data), p), None})
    {
      hide PathOk, Complete, AllOk, AllComplete, AllTidy, OnlyPath, MetaOf, MetaOk, DataKey, Owned, LosingSince;
      ghost var was := b.data;
      ghost var metas := {MetaOf(was, p), None};
      NothingLost(was, b.trace, p, TrackedAt(was, p), metas);
      OnlyPathSame(was, p);
      OneOk(was, history, destroyed, p);
      var got := GetMeta(p);
      if got.Failure? || got.value.None? {
        NothingOwned(was, p, history, destroyed);
        return got.Success?;
      }
      var m := got.value.value;
      var todo := m.versions.Keys;
      while todo != {}
        invariant todo <= m.versions.Keys && history == old(history) && destroyed == old(destroyed)
        invariant AllOk(b.data, history, destroyed) && OnlyPath(was, b.data, p) && MetaOf(b.data, p) == Some(m)
        invariant b.reliable ==> forall v :: v in m.versions && v !in todo ==> DataKey(p, v) !in b.data
        invariant forall k :: k in b.data ==> k in was
        invariant LosingSince(was, b.data, old(b.trace), b.trace, p, m.versions.Keys, metas)
        decreases |todo|
      {
        var v :| v in todo;
        todo := todo - {v};
        ghost var data := b.data;
        LoseOne(was, data, old(b.trace), b.trace, p, v, m.versions.Keys, metas);
        EraseData(p, v);
        OnlyPathChains(was, data, b.data, p);
      }
      ghost var data := b.data;
      LoseAll(was, data, old(b.trace), b.trace, p, m.versions.Keys, metas);
      ForgetPath(was, data, p, history, destroyed);
      if b.reliable && AllTidy(was) {
        ForgottenTidy(was, data, p, m);
      }
      ok := b.Delete(MetaKey(p));
      if ok {
        history := history[p := []];
        destroyed := destroyed[p := {}];
      }
    }
  }

  // ---- what a crash can leave of a destroyed or deleted secret ----

  /** From before to state, p lost nothing but data of these versions, and shows one of these metadata. */
  ghost predicate Losing(before: Data, state: Data, p: Bytes, lost: set<nat>, metas: set<Option<KvMeta>>) {
    && OnlyPath(before, state, p) && MetaOf(state, p) in metas
    && (forall v :: DataKey(p, v) in state ==> SameAt(before, state, DataKey(p, v)))
    && (forall v :: v !in lost ==> SameAt(before, state, DataKey(p, v)))
  }

  /** And so it is after every storage step since. */
  ghost predicate LosingSince(before: Data, now: Data, t0: seq<Data>, t: seq<Data>, p: Bytes, lost: set<nat>,
      metas: set<Option<KvMeta>>)
  {
    && Losing(before, now, p, lost, metas)
    && t0 <= t && forall i :: |t0| <= i < |t| ==> Losing(before, t[i], p, lost, metas)
  }

  /** The tracked versions that are listed. */
  ghost function Doomed(m: KvMeta, versions: seq<int>): set<nat> {
    set v | v in m.versions && v in versions
  }

  ghost function DoomedAt(data: Data, p: Bytes, versions: seq<int>): set<nat> {
    match MetaOf(data, p) case Some(m) => Doomed(m, versions) case None => {}
  }

  ghost function TrackedAt(data: Data, p: Bytes): set<nat> {
    match MetaOf(data, p) case Some(m) => m.versions.Keys case None => {}
  }

  ghost function DestroyMetas(data: Data, p: Bytes, versions: seq<int>): set<Option<KvMeta>> {
    match MetaOf(data, p) case Some(m) => {Some(m), Some(AfterDestroy(m, versions))} case None => {None}
  }

  lemma NothingLost(data: Data, t: seq<Data>, p: Bytes, lost: set<nat>, metas: set<Option<KvMeta>>)
    requires MetaOf(data, p) in metas
    ensures LosingSince(data, data, t, t, p, lost, metas)
  {}

  lemma LosingMore(before: Data, now: Data, t0: seq<Data>, t: seq<Data>, p: Bytes, lost: set<nat>,
      metas: set<Option<KvMeta>>, more: set<Option<KvMeta>>)
    requires LosingSince(before, now, t0, t, p, lost, metas) && metas <= more
    ensures LosingSince(before, now, t0, t, p, lost, more)
  {
    hide OnlyPath, MetaOf, SameAt;
  }

  lemma LosingNext(before: Data, now: Data, next: Data, t0: seq<Data>, t: seq<Data>, p: Bytes, lost: set<nat>,
      metas: set<Option<KvMeta>>)
    requires LosingSince(before, now, t0, t, p, lost, metas) && Losing(before, next, p, lost, metas)
    ensures LosingSince(before, next, t0, t + [next], p, lost, metas)
  {
    hide Losing;
  }

  /** The data of one more of these versions goes. */
  lemma LoseOne(before: Data, now: Data, t0: seq<Data>, t: seq<Data>, p: Bytes, v: nat, lost: set<nat>,
      metas: set<Option<KvMeta>>)
    requires LosingSince(before, now, t0, t, p, lost, metas) && v in lost
    ensures var next := now - {DataKey(p, v)}; LosingSince(before, next, t0, t + [next], p, lost, metas)
  {
    var next := now - {DataKey(p, v)};
    assert Losing(before, next, p, lost, metas) by {
      KeysApart(p, p, v);
      forall w | w != v
        ensures DataKey(p, w) != DataKey(p, v)
      {
        if DataKey(p, w) == DataKey(p, v) {
          DataKeyInjective(p, w, p, v);
        }
      }
      hide DataKey, MetaKey;
      PutOwned(now, p, DataKey(p, v), DataValue([]));
      OnlyPathChains(before, now, next, p);
      hide OnlyPath;
    }
    hide Losing;
    LosingNext(before, now, next, t0, t, p, lost, metas);
  }

  /** Other metadata is stored. */
  lemma LoseMeta(before: Data, now: Data, t0: seq<Data>, t: seq<Data>, p: Bytes, lost: set<nat>,
      metas: set<Option<KvMeta>>, m: KvMeta)
    requires LosingSince(before, now, t0, t, p, lost, metas) && Some(m) in metas
    ensures var next := now[MetaKey(p) := MetaValue(m)]; LosingSince(before, next, t0, t + [next], p, lost, metas)
  {
    var next := now[MetaKey(p) := MetaValue(m)];
    assert Losing(before, next, p, lost, metas) by {
      forall v ensures MetaKey(p) != DataKey(p, v) { KeysApart(p, p, v); }
      hide DataKey, MetaKey;
      PutOwned(now, p, MetaKey(p), MetaValue(m));
      OnlyPathChains(before, now, next, p);
      hide OnlyPath;
    }
    hide Losing;
    LosingNext(before, now, next, t0, t, p, lost, metas);
  }

  /** The metadata goes. */
  lemma LoseAll(before: Data, now: Data, t0: seq<Data>, t: seq<Data>, p: Bytes, lost: set<nat>,
      metas: set<Option<KvMeta>>)
    requires LosingSince(before, now, t0, t, p, lost, metas) && None in metas
    ensures var next := now - {MetaKey(p)}; LosingSince(before, next, t0, t + [next], p, lost, metas)
  {
    var next := now - {MetaKey(p)};
    assert Losing(before, next, p, lost, metas) by {
      forall v ensures MetaKey(p) != DataKey(p, v) { KeysApart(p, p, v); }
      hide DataKey, MetaKey;
      PutOwned(now, p, MetaKey(p), DataValue([]));
      OnlyPathChains(before, now, next, p);
      hide OnlyPath;
    }
    hide Losing;
    LosingNext(before, now, next, t0, t, p, lost, metas);
  }

  /** Whatever state a destruction leaves, versions that are not listed read as before, and no other bytes come back. */
  lemma ReadsWhileDestroying(before: Data, state: Data, p: Bytes, versions: seq<int>, v: nat)
    requires Losing(before, state, p, DoomedAt(before, p, versions), DestroyMetas(before, p, versions)) && v != 0
    ensures v !in versions ==> ReadResult(state, p, v) == ReadResult(before, p, v)
    ensures var r := ReadResult(state, p, v); r.Success? && r.value.Value? ==> r == ReadResult(before, p, v)
  {
    hide OnlyPath, DataKey, MetaKey;
  }

  /** Whatever state a deletion leaves, no other bytes come back. */
  lemma ReadsWhileDeleting(before: Data, state: Data, p: Bytes, v: int)
    requires Losing(before, state, p, TrackedAt(before, p), {MetaOf(before, p), None})
    ensures var r := ReadResult(state, p, v); r.Success? && r.value.Value? ==> r == ReadResult(before, p, v)
  {
    hide OnlyPath, DataKey, MetaKey;
  }

  // ---- the steps of a write, as facts about the stored values ----

  lemma FirstStep(s0: Data, p: Bytes, history: Histories, destroyed: Destroyed, value: Bytes, plan: Plan)
    requires AllOk(s0, history, destroyed) && Planned(s0, p, HistoryOf(history, p), DestroyedOf(destroyed, p), value,
              plan)
    ensures Normal(plan.next) && plan.next.current == |HistoryOf(history, p)| + 1
    ensures var s1 := s0[DataKey(p, plan.next.current) := DataValue(value)];
            && AllOk(s1, history, destroyed) && (AllComplete(s0) ==> AllComplete(s1))
            && PathOk(s1, p, HistoryOf(history, p), DestroyedOf(destroyed, p)) && (Complete(s0, p) ==> Complete(s1, p))
            && OnlyPath(s0, s1, p) && MetaOf(s1, p) == MetaOf(s0, p)
  {
    hide PathOk, Complete, AllOk, AllComplete, OnlyPath, Referenced, Normal;
    var h, d := HistoryOf(history, p), DestroyedOf(destroyed, p);
    var s1 := s0[DataKey(p, plan.next.current) := DataValue(value)];
    OneOk(s0, history, destroyed, p);
    NotYetReferenced(s0, p, plan.meta, h, d);
    DataStep(s0, s1, p, plan.next.current, h, d);
    PutOwned(s0, p, DataKey(p, plan.next.current), DataValue(value));
    StepKeepsSame(s0, s1, p, history, destroyed);
  }

  lemma SecondStep(s0: Data, p: Bytes, history: Histories, destroyed: Destroyed, value: Bytes, plan: Plan)
    requires AllOk(s0, history, destroyed) && Planned(s0, p, HistoryOf(history, p), DestroyedOf(destroyed, p), value,
              plan)
    ensures var s2 := s0[DataKey(p, plan.next.current) := DataValue(value)][MetaKey(p) := MetaValue(plan.next)];
            var h2 := HistoryOf(history, p) + [value];
            && AllOk(s2, history[p := h2], destroyed) && (AllComplete(s0) ==> AllComplete(s2))
            && PathOk(s2, p, h2, DestroyedOf(destroyed, p)) && (Complete(s0, p) ==> Complete(s2, p))
            && OnlyPath(s0, s2, p) && MetaOf(s2, p) == Some(plan.next)
            && (forall v :: v in plan.gone ==> !Referenced(s2, p, v))
  {
    hide PathOk, Complete, AllOk, AllComplete, OnlyPath, Referenced, Normal, MetaOk;
    var h, d := HistoryOf(history, p), DestroyedOf(destroyed, p);
    var s1 := s0[DataKey(p, plan.next.current) := DataValue(value)];
    var s2 := s1[MetaKey(p) := MetaValue(plan.next)];
    FirstStep(s0, p, history, destroyed, value, plan);
    MetaStep(s1, p, plan.meta, plan.next, h, d, value);
    PutOwned(s1, p, MetaKey(p), MetaValue(plan.next));
    OnlyPathChains(s0, s1, s2, p);
    if AllComplete(s0) {
      OneOk(s0, history, destroyed, p);
    }
    StepKeepsAll(s1, s2, p, history, destroyed, h + [value], d);
    SameDestroyed(s2, history[p := h + [value]], destroyed, p, d);
    UnlistedUnreferenced(s2, p, plan.next, plan.gone);
  }

  /** What a write leaves in storage is referenced. */
  lemma WriteTidy(s0: Data, data: Data, p: Bytes, history: seq<Bytes>, destroyed: set<nat>, value: Bytes, plan: Plan)
    requires AllTidy(s0) && OnlyPath(s0, data, p) && Planned(s0, p, history, destroyed, value, plan)
              && MetaOf(data, p) == Some(plan.next)
    requires forall k :: k in data ==> k in s0 || k in {DataKey(p, plan.next.current), MetaKey(p)}
    requires forall v :: v in plan.gone ==> DataKey(p, v) !in data
    ensures AllTidy(data)
  {
    forall v | DataKey(p, v) in data
      ensures Referenced(data, p, v)
    {
      KeysApart(p, p, v);
      if v != plan.next.current {
        if DataKey(p, v) == DataKey(p, plan.next.current) {
          DataKeyInjective(p, v, p, plan.next.current);
        }
        assert Tidy(s0, p) && Referenced(s0, p, v);
      }
    }
    TidyStep(s0, data, p);
  }

  // ---- small facts the methods use ----

  /** What a write on healthy storage answers; a missing cas is refused before a wrong one. */
  function WriteResult(data: Data, p: Bytes, cas: Option<int>, def: Defaults): Result<nat, KvError> {
    CasResult(MetaOr(data, p, def), cas, def)
  }

  function CasResult(m: KvMeta, cas: Option<int>, def: Defaults): Result<nat, KvError> {
    if cas.None? && (m.casRequired || def.casRequired) then Failure(CasRequired)
    else if cas.Some? && cas.value != m.current then Failure(CasMismatch)
    else Success(m.current + 1)
  }

  /** No more versions are tracked than max_versions allows. */
  predicate Bounded(m: Option<KvMeta>) {
    m.Some? && (m.value.maxVersions > 0 ==> m.value.oldest > m.value.current - m.value.maxVersions)
  }

  lemma FlagsTracked(was: Data, data: Data, p: Bytes, m: KvMeta, flags: map<nat, VerMeta>, versions: seq<int>, i: nat,
      gone: bool)
    requires i < |versions| && Erased(was, data, p, m, flags, versions[..i], gone) && versions[i] in flags
    ensures versions[i] in Doomed(m, versions)
  {}

  lemma NothingWritten(trace: seq<Data>, p: Bytes, h: seq<Bytes>, h2: seq<Bytes>, d: set<nat>)
    ensures AllSurvive(trace[|trace|..], p, h, h2, d)
  {}

  lemma DataWritten(t0: seq<Data>, s1: Data, p: Bytes, h: seq<Bytes>, h2: seq<Bytes>, d: set<nat>)
    requires PathOk(s1, p, h, d) && Complete(s1, p)
    ensures AllSurvive((t0 + [s1])[|t0|..], p, h, h2, d)
  {
    hide PathOk, Complete;
    assert (t0 + [s1])[|t0|..] == [s1];
  }

  lemma MetaWritten(t0: seq<Data>, s1: Data, s2: Data, p: Bytes, h: seq<Bytes>, h2: seq<Bytes>, d: set<nat>)
    requires PathOk(s1, p, h, d) && Complete(s1, p) && PathOk(s2, p, h2, d) && Complete(s2, p)
    ensures AllSurvive((t0 + [s1] + [s2])[|t0|..], p, h, h2, d)
  {
    hide PathOk, Complete;
    assert (t0 + [s1] + [s2])[|t0|..] == [s1, s2];
  }

  lemma OnlyPathSame(data: Data, p: Bytes)
    ensures OnlyPath(data, data, p)
  {}

  lemma OneOk(data: Data, h: Histories, d: Destroyed, p: Bytes)
    requires AllOk(data, h, d)
    ensures PathOk(data, p, HistoryOf(h, p), DestroyedOf(d, p))
    ensures AllComplete(data) ==> Complete(data, p)
  {}

  lemma SameReferences(a: Data, b: Data, p: Bytes, v: nat)
    requires MetaOf(a, p) == MetaOf(b, p)
    ensures Referenced(a, p, v) <==> Referenced(b, p, v)
  {}

  lemma StepKeepsSame(before: Data, after: Data, p: Bytes, h: Histories, d: Destroyed)
    requires AllOk(before, h, d) && OnlyPath(before, after, p) && PathOk(after, p, HistoryOf(h, p), DestroyedOf(d, p))
    ensures AllOk(after, h, d)
    ensures AllComplete(before) && Complete(after, p) ==> AllComplete(after)
  {
    hide PathOk, Complete, OnlyPath;
    StepKeepsAll(before, after, p, h, d, HistoryOf(h, p), DestroyedOf(d, p));
    var h', d' := h[p := HistoryOf(h, p)], d[p := DestroyedOf(d, p)];
    forall q
      ensures PathOk(after, q, HistoryOf(h, q), DestroyedOf(d, q))
    {
      assert PathOk(after, q, HistoryOf(h', q), DestroyedOf(d', q));
    }
  }

  lemma SameDestroyed(data: Data, h: Histories, d: Destroyed, p: Bytes, dp: set<nat>)
    requires AllOk(data, h, d[p := dp]) && dp == DestroyedOf(d, p)
    ensures AllOk(data, h, d)
  {
    hide PathOk;
    forall q
      ensures PathOk(data, q, HistoryOf(h, q), DestroyedOf(d, q))
    {
      assert PathOk(data, q, HistoryOf(h, q), DestroyedOf(d[p := dp], q));
    }
  }

  lemma NotYetReferenced(data: Data, p: Bytes, m: KvMeta, history: seq<Bytes>, destroyed: set<nat>)
    requires MetaOk(m, history, destroyed) && (match MetaOf(data, p) case Some(x) => x == m case None => true)
    ensures !Referenced(data, p, m.current + 1)
  {}

  lemma UnlistedUnreferenced(data: Data, p: Bytes, r: KvMeta, gone: seq<nat>)
    requires MetaOf(data, p) == Some(r) && forall v :: v in gone ==> v !in r.versions
    ensures forall v :: v in gone ==> !Referenced(data, p, v)
  {}

  lemma TraceSurvives(t0: seq<Data>, t2: seq<Data>, t: seq<Data>, p: Bytes, h: seq<Bytes>, h2: seq<Bytes>, d: set<nat>)
    requires t0 <= t2 <= t
    requires AllSurvive(t2[|t0|..], p, h, h2, d) && AllSurvive(t[|t2|..], p, h2, h2, d)
    ensures AllSurvive(t[|t0|..], p, h, h2, d)
  {
    hide PathOk, Complete;
    assert t[|t0|..] == t2[|t0|..] + t[|t2|..];
  }

  lemma StoredMetaOk(data: Data, p: Bytes, history: seq<Bytes>, destroyed: set<nat>, def: Defaults)
    requires PathOk(data, p, history, destroyed)
    ensures match MetaOf(data, p)
            case Some(m) => MetaOk(m, history, destroyed)
            case None => MetaOk(Fresh(def), history, destroyed)
    ensures (match MetaOf(data, p) case Some(m) => m case None => Fresh(def)).current == |history|
  {}

  lemma ReadsNewest(data: Data, p: Bytes, m: KvMeta, history: seq<Bytes>, destroyed: set<nat>)
    requires PathOk(data, p, history, destroyed) && MetaOf(data, p) == Some(m) && m.current >= 1
    requires m.current in m.versions && m.versions[m.current] == VerMeta(false, false)
    ensures Complete(data, p) ==> ReadResult(data, p, 0) == Success(Value(history[|history| - 1], |history|))
  {
    assert Referenced(data, p, m.current);
  }

  // ---- flags ----

  function SoftFlag(f: VerMeta, listed: bool): VerMeta {
    if listed && !f.destroyed then VerMeta(true, false) else f
  }

  function LiveFlag(f: VerMeta, listed: bool): VerMeta {
    if listed && !f.destroyed then VerMeta(false, false) else f
  }

  function DeadFlag(f: VerMeta, listed: bool): VerMeta {
    if listed && !f.destroyed then f.(destroyed := true) else f
  }

  function SoftDeleted(m: KvMeta, versions: seq<int>): KvMeta {
    m.(versions := map v | v in m.versions :: SoftFlag(m.versions[v], v in versions))
  }

  function Undeleted(m: KvMeta, versions: seq<int>): KvMeta {
    m.(versions := map v | v in m.versions :: LiveFlag(m.versions[v], v in versions))
  }

  function AfterDestroy(m: KvMeta, versions: seq<int>): KvMeta {
    m.(versions := map v | v in m.versions :: DeadFlag(m.versions[v], v in versions))
  }

  /** Only the configurable part changes, and only where the update says so. */
  function Configured(m: KvMeta, u: MetaUpdate): KvMeta {
    m.(maxVersions := if u.maxVersions.Some? then u.maxVersions.value else m.maxVersions,
       casRequired := if u.casRequired.Some? then u.casRequired.value else m.casRequired,
       custom := if u.custom.Some? then Merged(m.custom, u.custom.value, u.replace) else m.custom)
  }

  /** What an update on healthy storage answers. */
  function UpdateResult(data: Data, p: Bytes, u: MetaUpdate, def: Defaults, utf8: Bytes -> bool)
    : Result<KvMeta, KvError>
  {
    ConfigResult(MetaOr(data, p, def), u, utf8)
  }

  function ConfigResult(m: KvMeta, u: MetaUpdate, utf8: Bytes -> bool): Result<KvMeta, KvError> {
    var next := Configured(m, u);
    if u.maxVersions.Some? && !(0 <= u.maxVersions.value <= MAX_VERSIONS_LIMIT) then Failure(InvalidMetadata)
    else if u.custom.Some? && !FineCustom(utf8, next.custom) then Failure(InvalidMetadata)
    else Success(next)
  }

  lemma OutOfRange(m: KvMeta, u: MetaUpdate, utf8: Bytes -> bool)
    ensures u.maxVersions.Some? && !(0 <= u.maxVersions.value <= MAX_VERSIONS_LIMIT) ==>
              ConfigResult(m, u, utf8) == Failure(InvalidMetadata)
  {}

  lemma OnlyConfigured(m: KvMeta, u: MetaUpdate, utf8: Bytes -> bool, next: KvMeta)
    requires ConfigResult(m, u, utf8) == Success(next)
    ensures next == m.(maxVersions := next.maxVersions, casRequired := next.casRequired, custom := next.custom)
  {}

  function MetaOr(data: Data, p: Bytes, def: Defaults): KvMeta {
    match MetaOf(data, p) case Some(m) => m case None => Fresh(def)
  }

  function WithMeta(data: Data, p: Bytes, f: KvMeta -> KvMeta): Data {
    match MetaOf(data, p) case Some(m) => data[MetaKey(p) := MetaValue(f(m))] case None => data
  }

  /** The listed numbers that were handed out so far. */
  ghost function Listed(m: KvMeta, versions: seq<int>): set<nat> {
    set v: nat | v in versions && 1 <= v <= m.current
  }

  /** Undelete takes back a soft delete exactly when none of the listed versions was deleted already. */
  lemma UndeleteRestores(m: KvMeta, versions: seq<int>)
    ensures Undeleted(SoftDeleted(m, versions), versions) == m <==>
              forall v :: v in m.versions && v in versions && !m.versions[v].destroyed ==> !m.versions[v].deleted
  {
    var r := Undeleted(SoftDeleted(m, versions), versions);
    assert forall v :: v in m.versions ==>
            r.versions[v] == LiveFlag(SoftFlag(m.versions[v], v in versions), v in versions);
    if forall v :: v in m.versions && v in versions && !m.versions[v].destroyed ==> !m.versions[v].deleted {
      assert r.versions == m.versions;
    }
    if r == m {
      forall v | v in m.versions && v in versions && !m.versions[v].destroyed
        ensures !m.versions[v].deleted
      {
        assert m.versions[v] == r.versions[v];
      }
    }
  }

  /** m refers to nothing that the stored metadata does not refer to. */
  ghost predicate Narrower(data: Data, p: Bytes, m: KvMeta) {
    forall v :: v in m.versions && !m.versions[v].destroyed ==> Referenced(data, p, v)
  }

  ghost predicate SameAt(a: Data, b: Data, k: Bytes) {
    (k in a <==> k in b) && (k in a ==> a[k] == b[k])
  }

  lemma ReplaceStep(data: Data, p: Bytes, m: KvMeta, history: seq<Bytes>, destroyed: set<nat>, gone: set<nat>)
    requires PathOk(data, p, history, destroyed) && MetaOk(m, history, gone) && Narrower(data, p, m)
    ensures var after := data[MetaKey(p) := MetaValue(m)];
            PathOk(after, p, history, gone) && MetaOf(after, p) == Some(m) && (Complete(data, p) ==> Complete(after, p))
  {
    var after := data[MetaKey(p) := MetaValue(m)];
    forall v
      ensures Referenced(after, p, v) ==> Referenced(data, p, v) && SameAt(data, after, DataKey(p, v))
    {
      KeysApart(p, p, v);
    }
  }

  lemma SameHistory(data: Data, h: Histories, d: Destroyed, p: Bytes)
    requires AllOk(data, h[p := HistoryOf(h, p)], d)
    ensures AllOk(data, h, d)
  {
    hide PathOk;
    forall q
      ensures PathOk(data, q, HistoryOf(h, q), DestroyedOf(d, q))
    {
      assert PathOk(data, q, HistoryOf(h[p := HistoryOf(h, p)], q), DestroyedOf(d, q));
    }
  }

  /** Metadata with other flags, as long as no destroyed version comes back, may replace the stored one. */
  lemma Reflag(data: Data, p: Bytes, m: KvMeta, next: KvMeta, h: Histories, d: Destroyed)
    requires AllOk(data, h, d) && MetaOf(data, p) == Some(m)
    requires next == m.(versions := next.versions) && next.versions.Keys == m.versions.Keys
    requires forall v :: v in m.versions ==> next.versions[v].destroyed == m.versions[v].destroyed
    ensures Normal(next) && MetaOk(next, HistoryOf(h, p), DestroyedOf(d, p)) && Narrower(data, p, next)
    ensures AllComplete(data) ==> AllComplete(data[MetaKey(p) := MetaValue(next)])
    ensures AllTidy(data) ==> AllTidy(data[MetaKey(p) := MetaValue(next)])
  {
    var hp, dp := HistoryOf(h, p), DestroyedOf(d, p);
    assert PathOk(data, p, hp, dp);
    assert forall v :: v in next.versions <==> v in m.versions;
    OkIsNormal(next, hp, dp);
    hide PathOk, MetaOk;
    if AllTidy(data) {
      ReplacedTidy(data, p, next);
    }
    hide Narrower;
    NarrowerComplete(data, p, next, h, d, dp);
  }

  /** Metadata that refers to all that the stored metadata refers to leaves nothing without a reference. */
  lemma ReplacedTidy(data: Data, p: Bytes, next: KvMeta)
    requires AllTidy(data) && forall v :: Referenced(data, p, v) ==> v in next.versions && !next.versions[v].destroyed
    ensures AllTidy(data[MetaKey(p) := MetaValue(next)])
  {
    var after := data[MetaKey(p) := MetaValue(next)];
    forall v | DataKey(p, v) in after
      ensures Referenced(after, p, v)
    {
      KeysApart(p, p, v);
      assert Tidy(data, p);
    }
    PutOwned(data, p, MetaKey(p), MetaValue(next));
    TidyStep(data, after, p);
  }

  lemma NarrowerComplete(data: Data, p: Bytes, next: KvMeta, h: Histories, d: Destroyed, gone: set<nat>)
    requires AllOk(data, h, d) && MetaOk(next, HistoryOf(h, p), gone) && Narrower(data, p, next)
    ensures AllComplete(data) ==> AllComplete(data[MetaKey(p) := MetaValue(next)])
  {
    hide PathOk, Complete, OnlyPath, MetaOk, Narrower;
    assert PathOk(data, p, HistoryOf(h, p), DestroyedOf(d, p));
    ReplaceStep(data, p, next, HistoryOf(h, p), DestroyedOf(d, p), gone);
    PutOwned(data, p, MetaKey(p), MetaValue(next));
    StepKeepsAll(data, data[MetaKey(p) := MetaValue(next)], p, h, d, HistoryOf(h, p), gone);
  }

  lemma Reconfigure(data: Data, p: Bytes, def: Defaults, next: KvMeta, h: Histories, d: Destroyed)
    requires AllOk(data, h, d)
    requires var m := MetaOr(data, p, def);
             next == m.(maxVersions := next.maxVersions, casRequired := next.casRequired, custom := next.custom)
    ensures Normal(next) && MetaOk(next, HistoryOf(h, p), DestroyedOf(d, p)) && Narrower(data, p, next)
    ensures AllComplete(data) ==> AllComplete(data[MetaKey(p) := MetaValue(next)])
    ensures AllTidy(data) ==> AllTidy(data[MetaKey(p) := MetaValue(next)])
  {
    var hp, dp := HistoryOf(h, p), DestroyedOf(d, p);
    assert PathOk(data, p, hp, dp);
    assert MetaOk(next, hp, dp) && Narrower(data, p, next);
    OkIsNormal(next, hp, dp);
    if AllTidy(data) {
      ReplacedTidy(data, p, next);
    }
    hide PathOk, MetaOk, Narrower;
    NarrowerComplete(data, p, next, h, d, dp);
  }

  lemma EraseStep(data: Data, p: Bytes, v: nat, history: seq<Bytes>, destroyed: set<nat>)
    requires PathOk(data, p, history, destroyed)
    ensures var after := data - {DataKey(p, v)};
            && PathOk(after, p, history, destroyed) && MetaOf(after, p) == MetaOf(data, p)
            && (forall w :: w != v ==> SameAt(data, after, DataKey(p, w)))
    ensures forall w :: w != v ==> DataKey(p, w) != DataKey(p, v)
  {
    KeysApart(p, p, v);
    forall w | w != v
      ensures DataKey(p, w) != DataKey(p, v)
    {
      if DataKey(p, w) == DataKey(p, v) {
        DataKeyInjective(p, w, p, v);
      }
    }
  }

  /** The listed versions are flagged, the data of the others is untouched, and what was newly flagged is gone. */
  ghost predicate Erased(was: Data, data: Data, p: Bytes, m: KvMeta, flags: map<nat, VerMeta>, listed: seq<int>,
      reliable: bool) {
    && flags.Keys == m.versions.Keys
    && (forall v :: v in flags ==> flags[v] == DeadFlag(m.versions[v], v in listed))
    && (forall v :: v in flags && !flags[v].destroyed ==> SameAt(was, data, DataKey(p, v)))
    && (reliable ==> forall v :: v in flags && flags[v].destroyed && !m.versions[v].destroyed ==>
        DataKey(p, v) !in data)
  }

  lemma NothingErased(data: Data, p: Bytes, m: KvMeta, versions: seq<int>, reliable: bool)
    ensures Erased(data, data, p, m, m.versions, versions[..0], reliable)
  {
    hide DataKey;
  }

  lemma EraseSkips(was: Data, data: Data, p: Bytes, m: KvMeta, flags: map<nat, VerMeta>, versions: seq<int>, i: nat,
      reliable: bool)
    requires i < |versions| && Erased(was, data, p, m, flags, versions[..i], reliable)
    ensures versions[i] !in flags || flags[versions[i] as nat].destroyed ==>
              Erased(was, data, p, m, flags, versions[..i + 1], reliable)
  {
    hide DataKey, SameAt;
    assert versions[..i + 1] == versions[..i] + [versions[i]];
  }

  lemma EraseMarks(was: Data, data: Data, after: Data, p: Bytes, m: KvMeta, flags: map<nat, VerMeta>,
      versions: seq<int>, i: nat, reliable: bool)
    requires i < |versions| && Erased(was, data, p, m, flags, versions[..i], reliable)
    requires versions[i] in flags && !flags[versions[i] as nat].destroyed
    requires forall w :: w != versions[i] ==> SameAt(data, after, DataKey(p, w))
    requires reliable ==> DataKey(p, versions[i] as nat) !in after
    ensures Erased(was, after, p, m, flags[versions[i] as nat := flags[versions[i] as nat].(destroyed := true)],
              versions[..i + 1], reliable)
  {
    hide DataKey;
    assert versions[..i + 1] == versions[..i] + [versions[i]];
  }

  lemma AllErased(was: Data, data: Data, p: Bytes, m: KvMeta, flags: map<nat, VerMeta>, versions: seq<int>,
      reliable: bool)
    requires Erased(was, data, p, m, flags, versions, reliable)
    ensures flags == AfterDestroy(m, versions).versions
    ensures forall v :: v in flags && !flags[v].destroyed ==> SameAt(was, data, DataKey(p, v))
    ensures reliable ==> forall v :: v in flags && flags[v].destroyed && !m.versions[v].destroyed ==>
              DataKey(p, v) !in data
  {
    hide DataKey, SameAt;
  }

  lemma DestroyReady(was: Data, data: Data, p: Bytes, m: KvMeta, versions: seq<int>, h: Histories, d: Destroyed)
    requires AllOk(was, h, d) && AllOk(data, h, d) && OnlyPath(was, data, p)
    requires MetaOf(was, p) == Some(m) && MetaOf(data, p) == Some(m)
    requires var flags := AfterDestroy(m, versions).versions;
             forall v :: v in flags && !flags[v].destroyed ==> SameAt(was, data, DataKey(p, v))
    ensures var next := AfterDestroy(m, versions);
            && Normal(next) && MetaOk(next, HistoryOf(h, p), DestroyedOf(d, p) + Listed(m, versions))
                && Narrower(data, p, next)
            && (AllComplete(was) ==> AllComplete(data[MetaKey(p) := MetaValue(next)]))
  {
    var next := AfterDestroy(m, versions);
    var gone := DestroyedOf(d, p) + Listed(m, versions);
    assert PathOk(data, p, HistoryOf(h, p), DestroyedOf(d, p));
    assert MetaOk(next, HistoryOf(h, p), gone) by {
      assert forall v :: v in next.versions <==> v in m.versions;
    }
    OkIsNormal(next, HistoryOf(h, p), gone);
    assert Narrower(data, p, next);
    if AllComplete(was) {
      DestroyComplete(was, data, p, m, versions);
    }
  }

  lemma DestroyComplete(was: Data, data: Data, p: Bytes, m: KvMeta, versions: seq<int>)
    requires AllComplete(was) && OnlyPath(was, data, p) && MetaOf(was, p) == Some(m)
    requires var flags := AfterDestroy(m, versions).versions;
             forall v :: v in flags && !flags[v].destroyed ==> SameAt(was, data, DataKey(p, v))
    ensures AllComplete(data[MetaKey(p) := MetaValue(AfterDestroy(m, versions))])
  {
    var next := AfterDestroy(m, versions);
    var after := data[MetaKey(p) := MetaValue(next)];
    assert Complete(after, p) by {
      assert Complete(was, p);
      forall v | Referenced(after, p, v)
        ensures DataKey(p, v) in after && after[DataKey(p, v)].DataValue?
      {
        KeysApart(p, p, v);
        assert Referenced(was, p, v);
      }
    }
    PutOwned(data, p, MetaKey(p), MetaValue(next));
    hide Complete, OnlyPath;
    OnlyPathChains(was, data, after, p);
    forall q | q != p
      ensures Complete(after, q)
    {
      OtherPathsKeep(was, after, p, q, [], {});
    }
  }

  lemma DestroyTidy(was: Data, data: Data, p: Bytes, m: KvMeta, versions: seq<int>)
    requires AllTidy(was) && OnlyPath(was, data, p) && MetaOf(was, p) == Some(m) && forall k :: k in data ==> k in was
    requires var flags := AfterDestroy(m, versions).versions;
             forall v :: v in flags && flags[v].destroyed && !m.versions[v].destroyed ==> DataKey(p, v) !in data
    ensures AllTidy(data[MetaKey(p) := MetaValue(AfterDestroy(m, versions))])
  {
    var next := AfterDestroy(m, versions);
    var after := data[MetaKey(p) := MetaValue(next)];
    forall v | DataKey(p, v) in after
      ensures Referenced(after, p, v)
    {
      KeysApart(p, p, v);
      assert Tidy(was, p) && Referenced(was, p, v);
      assert next.versions[v] == DeadFlag(m.versions[v], v in versions);
    }
    PutOwned(data, p, MetaKey(p), MetaValue(next));
    OnlyPathChains(was, data, after, p);
    TidyStep(was, after, p);
  }

  lemma DestroyDone(data: Data, p: Bytes, m: KvMeta, versions: seq<int>)
    ensures var after := data[MetaKey(p) := MetaValue(AfterDestroy(m, versions))];
            && MetaOf(after, p) == Some(AfterDestroy(m, versions))
            && forall v :: DataKey(p, v) in after <==> DataKey(p, v) in data
  {
    forall v ensures MetaKey(p) != DataKey(p, v) { KeysApart(p, p, v); }
  }

  lemma NothingOwned(data: Data, p: Bytes, h: Histories, d: Destroyed)
    requires AllOk(data, h, d)
    ensures MetaOf(data, p).None? && AllTidy(data) ==> forall k :: Owned(p, k) ==> k !in data
  {
    assert PathOk(data, p, HistoryOf(h, p), DestroyedOf(d, p));
    if MetaOf(data, p).None? && AllTidy(data) {
      assert Tidy(data, p);
    }
  }

  lemma ForgottenTidy(was: Data, data: Data, p: Bytes, m: KvMeta)
    requires AllTidy(was) && OnlyPath(was, data, p) && MetaOf(was, p) == Some(m) && forall k :: k in data ==> k in was
    requires forall v :: v in m.versions ==> DataKey(p, v) !in data
    ensures AllTidy(data - {MetaKey(p)}) && forall k :: Owned(p, k) ==> k !in data - {MetaKey(p)}
  {
    var after := data - {MetaKey(p)};
    forall v
      ensures DataKey(p, v) !in after
    {
      assert Tidy(was, p);
      assert DataKey(p, v) in was ==> Referenced(was, p, v);
    }
    PutOwned(data, p, MetaKey(p), DataValue([]));
    OnlyPathChains(was, data, after, p);
    TidyStep(was, after, p);
  }

  /** Without its metadata the path is as if it had never been written. */
  lemma ForgetPath(was: Data, data: Data, p: Bytes, h: Histories, d: Destroyed)
    requires AllOk(data, h, d) && OnlyPath(was, data, p)
    ensures var after := data - {MetaKey(p)};
            && AllOk(after, h[p := []], d[p := {}]) && OnlyPath(was, after, p) && MetaOf(after, p) == None
            && (AllComplete(was) ==> AllComplete(after))
            && forall v :: DataKey(p, v) in after ==> DataKey(p, v) in data
  {
    var after := data - {MetaKey(p)};
    assert PathOk(after, p, [], {}) && Complete(after, p);
    PutOwned(data, p, MetaKey(p), DataValue([]));
    hide PathOk, Complete, OnlyPath;
    StepKeepsAll(data, after, p, h, d, [], {});
    OnlyPathChains(was, data, after, p);
    forall q | q != p
      ensures Complete(was, q) ==> Complete(after, q)
    {
      OtherPathsKeep(was, after, p, q, [], {});
    }
  }
}
