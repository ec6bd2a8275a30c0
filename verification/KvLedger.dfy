/** What versioned secrets answer while nothing fails: for each name, the metadata and the values written so far. */
module KvLedger {
  import opened KvCustom
  import opened KvSpec
  import opened KvStore
  import opened Text
  import opened Wrappers

  datatype Call =
    | WriteCall(p: Bytes, value: Bytes, cas: Option<int>, def: Defaults)
    | ReadCall(p: Bytes, version: int)
    | SoftDeleteCall(p: Bytes, versions: seq<int>)
    | UndeleteCall(p: Bytes, versions: seq<int>)
    | DestroyCall(p: Bytes, versions: seq<int>)
    | UpdateCall(p: Bytes, update: MetaUpdate, def: Defaults)
    | DeleteAllCall(p: Bytes)

  /** Absent(0) when nothing was ever written, Absent(v) when version v is soft-deleted. */
  datatype Reply = Wrote(version: nat) | Got(bytes: Bytes, version: nat) | Absent(version: nat) | Done
                 | Failed(error: KvError)

  datatype Secret = Secret(meta: KvMeta, history: seq<Bytes>)

  type Ledger = map<Bytes, Secret>

  function MetaIn(l: Ledger, p: Bytes): Option<KvMeta> {
    if p in l then Some(l[p].meta) else None
  }

  function HistoryIn(l: Ledger, p: Bytes): seq<Bytes> {
    if p in l then l[p].history else []
  }

  function MetaOrFresh(l: Ledger, p: Bytes, def: Defaults): KvMeta {
    if p in l then l[p].meta else Fresh(def)
  }

  /** A tracked version answers with what was written under its number, unless it is hidden or destroyed. */
  function ReadAnswer(m: Option<KvMeta>, history: seq<Bytes>, version: int): Reply {
    if m.None? || m.value.current == 0 then Absent(0)
    else
      var v := if version == 0 then m.value.current else version;
      if v !in m.value.versions then Failed(VersionNotFound)
      else if m.value.versions[v].destroyed then Failed(VersionDestroyed)
      else if m.value.versions[v].deleted then Absent(v)
      else if 1 <= v <= |history| then Got(history[v - 1], v)
      else Failed(DataMissing)
  }

  function Expected(l: Ledger, call: Call, utf8: Bytes -> bool): Reply {
    match call
    case WriteCall(p, _, cas, def) =>
      (match CasResult(MetaOrFresh(l, p, def), cas, def) case Success(v) => Wrote(v) case Failure(e) => Failed(e))
    case ReadCall(p, version) => ReadAnswer(MetaIn(l, p), HistoryIn(l, p), version)
    case UpdateCall(p, update, def) =>
      (match ConfigResult(MetaOrFresh(l, p, def), update, utf8) case Success(_) => Done case Failure(e) => Failed(e))
    case _ => Done
  }

  function Next(l: Ledger, call: Call, utf8: Bytes -> bool): Ledger {
    match call
    case WriteCall(p, value, cas, def) =>
      var m := MetaOrFresh(l, p, def);
      if CasResult(m, cas, def).Success? then l[p := Secret(AfterWrite(m), HistoryIn(l, p) + [value])] else l
    case ReadCall(_, _) => l
    case SoftDeleteCall(p, versions) => if p in l then l[p := l[p].(meta := SoftDeleted(l[p].meta, versions))] else l
    case UndeleteCall(p, versions) => if p in l then l[p := l[p].(meta := Undeleted(l[p].meta, versions))] else l
    case DestroyCall(p, versions) => if p in l then l[p := l[p].(meta := AfterDestroy(l[p].meta, versions))] else l
    case UpdateCall(p, update, def) =>
      (match ConfigResult(MetaOrFresh(l, p, def), update, utf8)
       case Success(m) => l[p := Secret(m, HistoryIn(l, p))]
       case Failure(_) => l)
    case DeleteAllCall(p) => l - {p}
  }

  function After(calls: seq<Call>, utf8: Bytes -> bool): Ledger
    decreases |calls|
  {
    if calls == [] then map[] else Next(After(calls[..|calls| - 1], utf8), calls[|calls| - 1], utf8)
  }

  // ---- the stored keys and the ledger ----

  ghost predicate Mirrors(l: Ledger, data: Data, h: Histories) {
    forall q :: MetaOf(data, q) == MetaIn(l, q) && HistoryOf(h, q) == HistoryIn(l, q)
  }

  lemma MetaPut(data: Data, p: Bytes, m: KvMeta, q: Bytes)
    ensures MetaOf(data[MetaKey(p) := MetaValue(m)], q) == if q == p then Some(m) else MetaOf(data, q)
  {
    if q != p && MetaKey(p) == MetaKey(q) {
      MetaKeyInjective(p, q);
    }
  }

  /** One secret changes, in storage and in the ledger. */
  lemma MirrorsStep(l: Ledger, before: Data, h: Histories, p: Bytes, after: Data, h': Histories, next: Ledger)
    requires Mirrors(l, before, h) && OnlyPath(before, after, p)
    requires forall q :: q != p ==> HistoryOf(h', q) == HistoryOf(h, q) && (q in next <==> q in l)
    requires forall q :: q != p && q in l ==> next[q] == l[q]
    requires MetaOf(after, p) == MetaIn(next, p) && HistoryOf(h', p) == HistoryIn(next, p)
    ensures Mirrors(next, after, h')
  {
    hide OnlyPath, MetaOf;
    forall q
      ensures MetaOf(after, q) == MetaIn(next, q) && HistoryOf(h', q) == HistoryIn(next, q)
    {
      if q != p {
        OtherPathsKeep(before, after, p, q, [], {});
      }
    }
  }

  lemma MirrorsPut(l: Ledger, data: Data, h: Histories, p: Bytes, m: KvMeta)
    requires Mirrors(l, data, h)
    ensures Mirrors(l[p := Secret(m, HistoryIn(l, p))], data[MetaKey(p) := MetaValue(m)], h)
  {
    hide OnlyPath, MetaOf;
    MetaPut(data, p, m, p);
    PutOwned(data, p, MetaKey(p), MetaValue(m));
    MirrorsStep(l, data, h, p, data[MetaKey(p) := MetaValue(m)], h, l[p := Secret(m, HistoryIn(l, p))]);
  }

  function FoundReply(r: Result<Found, KvError>): Reply {
    match r
    case Success(Never) => Absent(0)
    case Success(Hidden(v)) => Absent(v)
    case Success(Value(bytes, v)) => Got(bytes, v)
    case Failure(e) => Failed(e)
  }

  lemma ReadMirrors(data: Data, p: Bytes, version: int, history: seq<Bytes>, destroyed: set<nat>)
    requires PathOk(data, p, history, destroyed) && Complete(data, p)
    ensures FoundReply(ReadResult(data, p, version)) == ReadAnswer(MetaOf(data, p), history, version)
  {
    hide DataKey, MetaKey;
    var m := MetaOf(data, p);
    if m.Some? && m.value.current != 0 {
      var v := if version == 0 then m.value.current else version;
      assert v in m.value.versions && !m.value.versions[v].destroyed ==> Referenced(data, p, v);
    }
  }
}
