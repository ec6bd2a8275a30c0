/** What callers see of versioned secrets while nothing fails, in calls and replies only. */
module KvLaws {
  import opened KvCustom
  import opened KvLedger
  import opened KvRuns
  import opened KvSpec
  import opened KvStore
  import opened Text
  import opened Wrappers

  // ---- what the calls so far have set ----

  /** How many versions of p were written since it was last deleted. */
  function Count(calls: seq<Call>, replies: seq<Reply>, n: nat, p: Bytes): nat
    requires n <= |replies| <= |calls|
  {
    if n == 0 then 0
    else
      var before, call := Count(calls, replies, n - 1, p), calls[n - 1];
      if call.p != p then before
      else if call.DeleteAllCall? && replies[n - 1] == Done then 0
      else if call.WriteCall? && replies[n - 1].Wrote? then before + 1
      else before
  }

  /** Whether an update of p said that a cas value is required, and none took it back or deleted p. */
  predicate CasOn(calls: seq<Call>, replies: seq<Reply>, n: nat, p: Bytes)
    requires n <= |replies| <= |calls|
  {
    n != 0 &&
    var call := calls[n - 1];
    if call.p != p then CasOn(calls, replies, n - 1, p)
    else if call.DeleteAllCall? && replies[n - 1] == Done then false
    else if call.UpdateCall? && replies[n - 1] == Done && call.update.casRequired.Some?
    then call.update.casRequired.value
    else CasOn(calls, replies, n - 1, p)
  }

  /** The limit on the versions of p: the last one set, or else the one in force when p was first used; 10 if the mount
      does not say.  None while there is no p. */
  function Limit(calls: seq<Call>, replies: seq<Reply>, n: nat, p: Bytes): Option<int>
    requires n <= |replies| <= |calls|
  {
    if n == 0 then None
    else
      var before, call := Limit(calls, replies, n - 1, p), calls[n - 1];
      if call.p != p then before
      else if call.DeleteAllCall? && replies[n - 1] == Done then None
      else if call.UpdateCall? && replies[n - 1] == Done && call.update.maxVersions.Some? then call.update.maxVersions
      else if before.None?
        && ((call.WriteCall? && replies[n - 1].Wrote?) || (call.UpdateCall? && replies[n - 1] == Done))
      then Some(if call.def.maxVersions > 0 then call.def.maxVersions else 10)
      else before
  }

  // ---- the ledger keeps to it ----

  ghost predicate Fits(l: Ledger, calls: seq<Call>, replies: seq<Reply>, n: nat, p: Bytes)
    requires n <= |replies| <= |calls|
  {
    && |HistoryIn(l, p)| == Count(calls, replies, n, p)
    && (p in l <==> Limit(calls, replies, n, p).Some?)
    && (p in l ==>
          && MetaOk(l[p].meta, l[p].history, {})
          && l[p].meta.casRequired == CasOn(calls, replies, n, p)
          && Some(l[p].meta.maxVersions) == Limit(calls, replies, n, p))
    && (p !in l ==> !CasOn(calls, replies, n, p))
  }

  lemma WriteFits(m: KvMeta, history: seq<Bytes>, value: Bytes)
    requires MetaOk(m, history, {})
    ensures MetaOk(AfterWrite(m), history + [value], {})
    ensures AfterWrite(m).casRequired == m.casRequired && AfterWrite(m).maxVersions == m.maxVersions
    ensures AfterWrite(m).current == |history| + 1
  {
    var w, r := WithNewVersion(m), AfterWrite(m);
    assert forall v :: v in w.versions <==> (if m.current == 0 then 1 else m.oldest) <= v <= w.current;
    assert forall v :: v in r.versions <==> r.oldest <= v <= r.current;
  }

  lemma FlagsFit(m: KvMeta, history: seq<Bytes>, versions: seq<int>)
    requires MetaOk(m, history, {})
    ensures MetaOk(SoftDeleted(m, versions), history, {}) && MetaOk(Undeleted(m, versions), history, {})
    ensures MetaOk(AfterDestroy(m, versions), history, {})
  {
    assert forall v :: v in SoftDeleted(m, versions).versions <==> v in m.versions;
    assert forall v :: v in Undeleted(m, versions).versions <==> v in m.versions;
    assert forall v :: v in AfterDestroy(m, versions).versions <==> v in m.versions;
  }

  lemma ConfigFits(m: KvMeta, u: MetaUpdate, utf8: Bytes -> bool, next: KvMeta)
    requires ConfigResult(m, u, utf8) == Success(next)
    ensures next == m.(maxVersions := next.maxVersions, casRequired := next.casRequired, custom := next.custom)
    ensures next.maxVersions == if u.maxVersions.Some? then u.maxVersions.value else m.maxVersions
    ensures next.casRequired == if u.casRequired.Some? then u.casRequired.value else m.casRequired
  {}

  lemma FreshFits(def: Defaults)
    ensures MetaOk(Fresh(def), [], {}) && !Fresh(def).casRequired
    ensures Fresh(def).maxVersions == if def.maxVersions > 0 then def.maxVersions else 10
  {}

  lemma FitsNext(l: Ledger, calls: seq<Call>, replies: seq<Reply>, n: nat, utf8: Bytes -> bool, p: Bytes)
    requires n < |replies| <= |calls| && Fits(l, calls, replies, n, p) && replies[n] == Expected(l, calls[n], utf8)
    ensures Fits(Next(l, calls[n], utf8), calls, replies, n + 1, p)
  {
    hide MetaOk, AfterWrite, ConfigResult, SoftDeleted, Undeleted, AfterDestroy, Fresh;
    var call := calls[n];
    if call.p == p {
      match call
      case WriteCall(_, value, cas, def) =>
        FreshFits(def);
        WriteFits(MetaOrFresh(l, p, def), HistoryIn(l, p), value);
      case UpdateCall(_, update, def) =>
        FreshFits(def);
        var m := MetaOrFresh(l, p, def);
        if ConfigResult(m, update, utf8).Success? {
          ConfigFits(m, update, utf8, ConfigResult(m, update, utf8).value);
          ConfigOk(m, ConfigResult(m, update, utf8).value, HistoryIn(l, p));
        }
      case SoftDeleteCall(_, versions) => if p in l { FlagsKeep(l[p].meta, l[p].history, versions); }
      case UndeleteCall(_, versions) => if p in l { FlagsKeep(l[p].meta, l[p].history, versions); }
      case DestroyCall(_, versions) => if p in l { FlagsKeep(l[p].meta, l[p].history, versions); }
      case _ =>
    }
  }

  lemma ConfigOk(m: KvMeta, next: KvMeta, history: seq<Bytes>)
    requires MetaOk(m, history, {})
    requires next == m.(maxVersions := next.maxVersions, casRequired := next.casRequired, custom := next.custom)
    ensures MetaOk(next, history, {})
  {}

  lemma FlagsKeep(m: KvMeta, history: seq<Bytes>, versions: seq<int>)
    requires MetaOk(m, history, {})
    ensures forall r :: r in {SoftDeleted(m, versions), Undeleted(m, versions), AfterDestroy(m, versions)} ==>
              MetaOk(r, history, {}) && r.casRequired == m.casRequired && r.maxVersions == m.maxVersions
  {
    FlagsFit(m, history, versions);
  }

  lemma {:induction false} FitsAfter(calls: seq<Call>, replies: seq<Reply>, n: nat, utf8: Bytes -> bool, p: Bytes)
    requires AsExpected(calls, replies, utf8) && n <= |replies|
    ensures Fits(After(calls[..n], utf8), calls, replies, n, p)
    decreases n
  {
    hide Fits, Next, Expected;
    if n == 0 {
      FitsFirst(calls, replies, p);
    } else {
      FitsAfter(calls, replies, n - 1, utf8, p);
      FitsNext(After(calls[..n - 1], utf8), calls, replies, n - 1, utf8, p);
      assert calls[..n][..n - 1] == calls[..n - 1];
    }
  }

  lemma FitsFirst(calls: seq<Call>, replies: seq<Reply>, p: Bytes)
    requires |replies| <= |calls|
    ensures Fits(map[], calls, replies, 0, p)
  {}

  // ---- writing ----

  /** A write is refused without a cas value if the mount or an update of the secret requires one, and with one that is
      not the number of versions written so far; otherwise it writes the next version. */
  lemma {:induction false} WriteReplies(calls: seq<Call>, replies: seq<Reply>, utf8: Bytes -> bool, i: nat)
    requires AsExpected(calls, replies, utf8) && i < |replies| && calls[i].WriteCall?
    ensures var call := calls[i];
            var m := Count(calls, replies, i, call.p);
            replies[i] ==
              if call.cas == None && (call.def.casRequired || CasOn(calls, replies, i, call.p)) then Failed(CasRequired)
              else if call.cas.Some? && call.cas.value != m then Failed(CasMismatch)
              else Wrote(m + 1)
  {
    hide After, Fits, Count, CasOn, Limit, Expected;
    var l := After(calls[..i], utf8);
    FitsAfter(calls, replies, i, utf8, calls[i].p);
    FitsIs(l, calls, replies, i, calls[i].p);
    WriteExpected(l, calls[i], utf8, Count(calls, replies, i, calls[i].p), CasOn(calls, replies, i, calls[i].p));
  }

  lemma {:induction false} FitsIs(l: Ledger, calls: seq<Call>, replies: seq<Reply>, n: nat, p: Bytes)
    requires n <= |replies| <= |calls| && Fits(l, calls, replies, n, p)
    ensures p in l ==> l[p].meta.current == |l[p].history| == Count(calls, replies, n, p)
    ensures p in l ==> l[p].meta.casRequired == CasOn(calls, replies, n, p)
    ensures p in l ==> Some(l[p].meta.maxVersions) == Limit(calls, replies, n, p)
    ensures p in l ==> MetaOk(l[p].meta, l[p].history, {})
    ensures p !in l ==> Count(calls, replies, n, p) == 0 && !CasOn(calls, replies, n, p)
  {}

  lemma WriteExpected(l: Ledger, call: Call, utf8: Bytes -> bool, m: nat, on: bool)
    requires call.WriteCall?
    requires if call.p in l then l[call.p].meta.current == m && l[call.p].meta.casRequired == on else m == 0 && !on
    ensures Expected(l, call, utf8) ==
              if call.cas == None && (call.def.casRequired || on) then Failed(CasRequired)
              else if call.cas.Some? && call.cas.value != m then Failed(CasMismatch)
              else Wrote(m + 1)
  {}

  // ---- reading ----

  /** What a read of version v of p would be answered. */
  function Shown(l: Ledger, p: Bytes, v: nat): Reply {
    ReadAnswer(MetaIn(l, p), HistoryIn(l, p), v)
  }

  /** The call may change what is shown of version v of p. */
  predicate Concerns(call: Call, reply: Reply, p: Bytes, v: nat, limit: Option<int>) {
    call.p == p &&
    match call
    case WriteCall(_, _, _, _) => reply.Wrote? && (v >= reply.version || Evicts(reply.version, v, limit))
    case SoftDeleteCall(_, versions) => v in versions
    case UndeleteCall(_, versions) => v in versions
    case DestroyCall(_, versions) => v in versions
    case DeleteAllCall(_) => true
    case _ => false
  }

  /** Writing this version leaves no room for v. */
  predicate Evicts(written: nat, v: nat, limit: Option<int>) {
    limit.Some? && limit.value > 0 && v <= written - limit.value
  }

  /** Shown after a call that concerns v, given what was shown before. */
  ghost predicate Becomes(call: Call, reply: Reply, v: nat, limit: Option<int>, before: Reply, after: Reply) {
    match call
    case WriteCall(_, value, _, _) =>
      reply.Wrote? ==>
        after == if v == reply.version then Got(value, v) else Failed(VersionNotFound)
    case SoftDeleteCall(_, _) => after == if before.Got? then Absent(v) else before
    case UndeleteCall(_, _) => if before == Absent(v) then after.Got? && after.version == v else after == before
    case DestroyCall(_, _) => after == if before.Got? || before == Absent(v) then Failed(VersionDestroyed) else before
    case DeleteAllCall(_) => after == Absent(0)
    case _ => true
  }

  lemma FlagsShown(m: KvMeta, history: seq<Bytes>, versions: seq<int>, v: nat)
    requires MetaOk(m, history, {}) && v != 0
    ensures var before := ReadAnswer(Some(m), history, v);
            var hidden := ReadAnswer(Some(SoftDeleted(m, versions)), history, v);
            var shown := ReadAnswer(Some(Undeleted(m, versions)), history, v);
            var dead := ReadAnswer(Some(AfterDestroy(m, versions)), history, v);
            && (v !in versions ==> hidden == shown == dead == before)
            && (v in versions ==> hidden == if before.Got? then Absent(v) else before)
            && (v in versions ==> if before == Absent(v) then shown == Got(history[v - 1], v) else shown == before)
            && (v in versions ==>
                  dead == if before.Got? || before == Absent(v) then Failed(VersionDestroyed) else before)
  {}

  lemma WriteShown(m: KvMeta, history: seq<Bytes>, value: Bytes, v: nat)
    requires MetaOk(m, history, {}) && v != 0
    ensures var n := |history| + 1;
            ReadAnswer(Some(AfterWrite(m)), history + [value], v) ==
              if v == n then Got(value, v)
              else if v > n || Evicts(n, v, Some(m.maxVersions)) then Failed(VersionNotFound)
              else ReadAnswer(Some(m), history, v)
  {
    var w, r := WithNewVersion(m), AfterWrite(m);
    assert forall x :: x in w.versions <==> (if m.current == 0 then 1 else m.oldest) <= x <= w.current;
    assert forall x :: x in r.versions <==> r.oldest <= x <= r.current;
  }

  /** What one more call makes of it, whatever it is. */
  ghost predicate Moves(l: Ledger, call: Call, reply: Reply, next: Ledger, p: Bytes, v: nat, limit: Option<int>) {
    if Concerns(call, reply, p, v, limit)
    then
      && Becomes(call, reply, v, limit, Shown(l, p, v), Shown(next, p, v))
      && (!call.DeleteAllCall? ==> HistoryIn(l, p) <= HistoryIn(next, p))
    else Shown(next, p, v) == Shown(l, p, v) && HistoryIn(l, p) <= HistoryIn(next, p)
  }

  lemma WriteMoves(l: Ledger, call: Call, utf8: Bytes -> bool, v: nat, limit: Option<int>)
    requires call.WriteCall? && v != 0 && (call.p in l ==> MetaOk(l[call.p].meta, l[call.p].history, {}))
    requires Expected(l, call, utf8).Wrote? ==> limit == Some(MetaOrFresh(l, call.p, call.def).maxVersions)
    ensures Moves(l, call, Expected(l, call, utf8), Next(l, call, utf8), call.p, v, limit)
  {
    hide AfterWrite, Fresh, ReadAnswer, Evicts;
    FreshFits(call.def);
    FreshShown(call.def, v);
    WriteFits(MetaOrFresh(l, call.p, call.def), HistoryIn(l, call.p), call.value);
    WriteShown(MetaOrFresh(l, call.p, call.def), HistoryIn(l, call.p), call.value, v);
  }

  lemma UpdateMoves(l: Ledger, call: Call, utf8: Bytes -> bool, v: nat, limit: Option<int>)
    requires call.UpdateCall?
    ensures Moves(l, call, Expected(l, call, utf8), Next(l, call, utf8), call.p, v, limit)
  {
    hide ConfigResult, Fresh, ReadAnswer, Evicts;
    FreshShown(call.def, v);
    var m := MetaOrFresh(l, call.p, call.def);
    if ConfigResult(m, call.update, utf8).Success? {
      ConfigFits(m, call.update, utf8, ConfigResult(m, call.update, utf8).value);
      ConfigShown(m, ConfigResult(m, call.update, utf8).value, HistoryIn(l, call.p), v);
    }
  }

  lemma FlagsMove(l: Ledger, call: Call, utf8: Bytes -> bool, v: nat, limit: Option<int>)
    requires call.SoftDeleteCall? || call.UndeleteCall? || call.DestroyCall?
    requires v != 0 && (call.p in l ==> MetaOk(l[call.p].meta, l[call.p].history, {}))
    ensures Moves(l, call, Expected(l, call, utf8), Next(l, call, utf8), call.p, v, limit)
  {
    hide SoftDeleted, Undeleted, AfterDestroy, ReadAnswer, Evicts;
    FlagsSeen(l, call.p, call.versions, v);
  }

  /** One more call. */
  lemma {:induction false} ShownNext(l: Ledger, calls: seq<Call>, replies: seq<Reply>, n: nat, utf8: Bytes -> bool,
      p: Bytes, v: nat)
    requires n < |replies| <= |calls| && Fits(l, calls, replies, n, p) && replies[n] == Expected(l, calls[n], utf8)
    requires v != 0
    ensures Moves(l, calls[n], replies[n], Next(l, calls[n], utf8), p, v, Limit(calls, replies, n + 1, p))
  {
    FitsIs(l, calls, replies, n, p);
    var call, limit := calls[n], Limit(calls, replies, n + 1, p);
    if call.p == p {
      match call
      case WriteCall(_, _, _, def) =>
        FreshFits(def);
        assert limit == Some(MetaOrFresh(l, p, def).maxVersions) || !replies[n].Wrote? by {
          hide Fresh, MetaOk, Count, CasOn, CasResult, HistoryIn;
        }
        hide *;
        WriteMoves(l, call, utf8, v, limit);
      case UpdateCall(_, _, _) =>
        hide *;
        UpdateMoves(l, call, utf8, v, limit);
      case DeleteAllCall(_) =>
        NothingShown(v);
      case ReadCall(_, _) =>
      case _ =>
        hide *;
        FlagsMove(l, call, utf8, v, limit);
    } else {
      hide MetaOk, AfterWrite, ConfigResult, SoftDeleted, Undeleted, AfterDestroy, Fresh, ReadAnswer, Evicts, Count,
        CasOn, CasResult, Fits;
    }
  }

  lemma NothingShown(v: nat)
    ensures ReadAnswer(None, [], v) == Absent(0)
  {}

  lemma FreshShown(def: Defaults, v: nat)
    ensures ReadAnswer(Some(Fresh(def)), [], v) == ReadAnswer(None, [], v) == Absent(0)
  {}

  lemma ConfigShown(m: KvMeta, next: KvMeta, history: seq<Bytes>, v: nat)
    requires next == m.(maxVersions := next.maxVersions, casRequired := next.casRequired, custom := next.custom)
    ensures ReadAnswer(Some(next), history, v) == ReadAnswer(Some(m), history, v)
  {}

  lemma FlagsSeen(l: Ledger, p: Bytes, versions: seq<int>, v: nat)
    requires v != 0 && (p in l ==> MetaOk(l[p].meta, l[p].history, {}))
    ensures p !in l ==> Shown(l, p, v) == Absent(0)
    ensures p in l ==>
              var m, history, before := l[p].meta, l[p].history, Shown(l, p, v);
              var hidden := ReadAnswer(Some(SoftDeleted(m, versions)), history, v);
              var shown := ReadAnswer(Some(Undeleted(m, versions)), history, v);
              var dead := ReadAnswer(Some(AfterDestroy(m, versions)), history, v);
              if v in versions
              then
                && hidden == (if before.Got? then Absent(v) else before)
                && (if before == Absent(v) then shown.Got? && shown.version == v else shown == before)
                && dead == (if before.Got? || before == Absent(v) then Failed(VersionDestroyed) else before)
              else hidden == shown == dead == before
  {
    if p in l {
      FlagsShown(l[p].meta, l[p].history, versions, v);
    }
  }

  // ---- in a run ----

  /** None of the calls from a up to b may change what is shown of version v of p. */
  ghost predicate Untouched(calls: seq<Call>, replies: seq<Reply>, a: nat, b: nat, p: Bytes, v: nat)
    requires b <= |replies| <= |calls|
  {
    forall k: nat :: a <= k < b ==> !Concerns(calls[k], replies[k], p, v, Limit(calls, replies, k + 1, p))
  }

  lemma {:induction false} ShownKeeps(calls: seq<Call>, replies: seq<Reply>, utf8: Bytes -> bool, a: nat, b: nat,
      p: Bytes, v: nat)
    requires AsExpected(calls, replies, utf8) && a <= b <= |replies| && v != 0
    requires Untouched(calls, replies, a, b, p, v)
    ensures Shown(After(calls[..b], utf8), p, v) == Shown(After(calls[..a], utf8), p, v)
    ensures HistoryIn(After(calls[..a], utf8), p) <= HistoryIn(After(calls[..b], utf8), p)
    decreases b
  {
    hide Next, Expected, Fits, Shown, Concerns, Limit, HistoryIn;
    if a < b {
      ShownKeeps(calls, replies, utf8, a, b - 1, p, v);
      OneStep(calls, replies, utf8, b - 1, p, v);
    }
  }

  lemma OneStep(calls: seq<Call>, replies: seq<Reply>, utf8: Bytes -> bool, k: nat, p: Bytes, v: nat)
    requires AsExpected(calls, replies, utf8) && k < |replies| && v != 0
    ensures Moves(After(calls[..k], utf8), calls[k], replies[k], After(calls[..k + 1], utf8), p, v,
              Limit(calls, replies, k + 1, p))
  {
    hide Next, Expected, Fits, Limit, Moves;
    FitsAfter(calls, replies, k, utf8, p);
    ShownNext(After(calls[..k], utf8), calls, replies, k, utf8, p, v);
    assert calls[..k + 1][..k] == calls[..k];
  }

  /** Reading a version again gives the same reply, if no call in between concerns it. */
  lemma ReadAgain(calls: seq<Call>, replies: seq<Reply>, utf8: Bytes -> bool, a: nat, b: nat, p: Bytes, v: nat)
    requires AsExpected(calls, replies, utf8) && a < b < |replies| && v != 0
    requires calls[a] == calls[b] == ReadCall(p, v) && Untouched(calls, replies, a + 1, b, p, v)
    ensures replies[b] == replies[a]
  {
    hide After, Limit, ReadAnswer;
    ShownKeeps(calls, replies, utf8, a, b, p, v);
  }

  /** One call in between that concerns it: a write makes its own version readable and evicts others, a soft delete
      hides, an undelete shows again, a destruction and a deletion take away for good; other replies stay. */
  lemma {:induction false} ReadChanged(calls: seq<Call>, replies: seq<Reply>, utf8: Bytes -> bool, a: nat, k: nat,
      b: nat, p: Bytes, v: nat)
    requires AsExpected(calls, replies, utf8) && a < k < b < |replies| && v != 0
    requires calls[a] == calls[b] == ReadCall(p, v)
    requires Untouched(calls, replies, a + 1, k, p, v) && Untouched(calls, replies, k + 1, b, p, v)
    requires Concerns(calls[k], replies[k], p, v, Limit(calls, replies, k + 1, p))
    ensures Becomes(calls[k], replies[k], v, Limit(calls, replies, k + 1, p), replies[a], replies[b])
  {
    hide After, Limit, ReadAnswer, Becomes;
    ShownKeeps(calls, replies, utf8, a, k, p, v);
    OneStep(calls, replies, utf8, k, p, v);
    ShownKeeps(calls, replies, utf8, k + 1, b, p, v);
  }

  /** A soft delete and a later undelete give the same value back. */
  lemma HiddenThenShown(calls: seq<Call>, replies: seq<Reply>, utf8: Bytes -> bool, a: nat, k: nat, m: nat, b: nat,
      p: Bytes, v: nat)
    requires AsExpected(calls, replies, utf8) && a < k < m < b < |replies| && v != 0
    requires calls[a] == calls[b] == ReadCall(p, v) && replies[a].Got?
    requires calls[k].SoftDeleteCall? && calls[k].p == p && v in calls[k].versions
    requires calls[m].UndeleteCall? && calls[m].p == p && v in calls[m].versions
    requires Untouched(calls, replies, a + 1, k, p, v) && Untouched(calls, replies, k + 1, m, p, v)
    requires Untouched(calls, replies, m + 1, b, p, v)
    ensures replies[b] == replies[a]
  {
    hide After, Limit, Shown, Expected, Next, HistoryIn;
    ReadIs(calls, replies, utf8, a, p, v);
    ShownKeeps(calls, replies, utf8, a, k, p, v);
    OneStep(calls, replies, utf8, k, p, v);
    ShownKeeps(calls, replies, utf8, k + 1, m, p, v);
    OneStep(calls, replies, utf8, m, p, v);
    ShownKeeps(calls, replies, utf8, m + 1, b, p, v);
    ReadIs(calls, replies, utf8, b, p, v);
    GotIs(After(calls[..a], utf8), p, v);
    GotIs(After(calls[..b], utf8), p, v);
  }

  lemma ReadIs(calls: seq<Call>, replies: seq<Reply>, utf8: Bytes -> bool, i: nat, p: Bytes, v: nat)
    requires AsExpected(calls, replies, utf8) && i < |replies| && calls[i] == ReadCall(p, v)
    ensures replies[i] == Shown(After(calls[..i], utf8), p, v)
  {}

  lemma GotIs(l: Ledger, p: Bytes, v: nat)
    requires Shown(l, p, v).Got? && v != 0
    ensures 1 <= v <= |HistoryIn(l, p)| && Shown(l, p, v) == Got(HistoryIn(l, p)[v - 1], v)
  {}

  /** What was written is read back, if no call in between concerns it. */
  lemma WrittenThenRead(calls: seq<Call>, replies: seq<Reply>, utf8: Bytes -> bool, k: nat, b: nat)
    requires AsExpected(calls, replies, utf8) && k < b < |replies| && calls[k].WriteCall? && replies[k].Wrote?
    requires replies[k].version != 0 && calls[b] == ReadCall(calls[k].p, replies[k].version)
    requires Untouched(calls, replies, k + 1, b, calls[k].p, replies[k].version)
    ensures replies[b] == Got(calls[k].value, replies[k].version)
  {
    hide After, Limit, ReadAnswer;
    OneStep(calls, replies, utf8, k, calls[k].p, replies[k].version);
    ShownKeeps(calls, replies, utf8, k + 1, b, calls[k].p, replies[k].version);
  }

  /** Version 0 stands for the newest one. */
  lemma NewestRead(calls: seq<Call>, replies: seq<Reply>, utf8: Bytes -> bool, i: nat)
    requires AsExpected(calls, replies, utf8) && i + 1 < |replies| && calls[i].ReadCall? && calls[i].version == 0
    requires calls[i + 1] == ReadCall(calls[i].p, Count(calls, replies, i, calls[i].p))
    ensures replies[i] == if Count(calls, replies, i, calls[i].p) == 0 then Absent(0) else replies[i + 1]
  {
    hide Fits, Count, CasOn, Limit, Expected, MetaOk;
    var p, l := calls[i].p, After(calls[..i], utf8);
    FitsAfter(calls, replies, i, utf8, p);
    FitsIs(l, calls, replies, i, p);
    assert calls[..i + 1][..i] == calls[..i];
    assert After(calls[..i + 1], utf8) == Next(l, calls[i], utf8) == l;
    hide After, Next;
    ReadIs(calls, replies, utf8, i, p, 0);
    ReadIs(calls, replies, utf8, i + 1, p, Count(calls, replies, i, p));
  }

  /** A version that was never written is not found, and before the first write there is nothing. */
  lemma {:induction false} ReadOutside(calls: seq<Call>, replies: seq<Reply>, utf8: Bytes -> bool, i: nat)
    requires AsExpected(calls, replies, utf8) && i < |replies| && calls[i].ReadCall?
    ensures var m := Count(calls, replies, i, calls[i].p);
            && (m == 0 <==> replies[i] == Absent(0))
            && (m != 0 && !(0 <= calls[i].version <= m) ==> replies[i] == Failed(VersionNotFound))
  {
    hide Fits, Count, CasOn, Limit, After;
    FitsAfter(calls, replies, i, utf8, calls[i].p);
    FitsIs(After(calls[..i], utf8), calls, replies, i, calls[i].p);
  }

  // ---- the user's own data ----

  /** What an update makes of one key: what it names it sets or deletes; the rest stays unless all is replaced. */
  function Told(u: MetaUpdate, before: Option<Bytes>, k: Bytes): Option<Bytes> {
    if u.custom.None? then before
    else if k in u.custom.value then u.custom.value[k]
    else if u.replace then None
    else before
  }

  /** The value of key k among the user's own data on p. */
  function Tag(calls: seq<Call>, replies: seq<Reply>, n: nat, p: Bytes, k: Bytes): Option<Bytes>
    requires n <= |replies| <= |calls|
  {
    if n == 0 then None
    else
      var before, call := Tag(calls, replies, n - 1, p, k), calls[n - 1];
      if call.p != p then before
      else if call.DeleteAllCall? && replies[n - 1] == Done then None
      else if call.UpdateCall? && replies[n - 1] == Done then Told(call.update, before, k)
      else before
  }

  function TagIn(l: Ledger, p: Bytes, k: Bytes): Option<Bytes> {
    if p in l then Lookup(l[p].meta.custom, k) else None
  }

  lemma ConfigTags(m: KvMeta, u: MetaUpdate, utf8: Bytes -> bool, k: Bytes)
    ensures Lookup(Configured(m, u).custom, k) == Told(u, Lookup(m.custom, k), k)
    ensures ConfigResult(m, u, utf8).Success? ==> ConfigResult(m, u, utf8).value == Configured(m, u)
  {}

  lemma TagNext(l: Ledger, calls: seq<Call>, replies: seq<Reply>, n: nat, utf8: Bytes -> bool, p: Bytes, k: Bytes)
    requires n < |replies| <= |calls| && replies[n] == Expected(l, calls[n], utf8)
    requires Tag(calls, replies, n, p, k) == TagIn(l, p, k)
    ensures Tag(calls, replies, n + 1, p, k) == TagIn(Next(l, calls[n], utf8), p, k)
  {
    hide Told, ConfigResult, Configured, ReadAnswer, CasResult;
    if calls[n].p == p && calls[n].UpdateCall? {
      ConfigTags(MetaOrFresh(l, p, calls[n].def), calls[n].update, utf8, k);
    }
  }

  lemma {:induction false} TagAfter(calls: seq<Call>, replies: seq<Reply>, n: nat, utf8: Bytes -> bool, p: Bytes,
      k: Bytes)
    requires AsExpected(calls, replies, utf8) && n <= |replies|
    ensures Tag(calls, replies, n, p, k) == TagIn(After(calls[..n], utf8), p, k)
    decreases n
  {
    hide Next, Expected, Told;
    if n != 0 {
      TagAfter(calls, replies, n - 1, utf8, p, k);
      TagNext(After(calls[..n - 1], utf8), calls, replies, n - 1, utf8, p, k);
      assert calls[..n][..n - 1] == calls[..n - 1];
    }
  }

  /** Valid UTF-8 without control characters. */
  predicate Printable(utf8: Bytes -> bool, s: Bytes) {
    utf8(s) && forall i :: 0 <= i < |s| ==> 32 <= s[i] && s[i] != 127
  }

  /** At most 64 entries, keys of 1 to 128 bytes, values of at most 512 bytes. */
  predicate Acceptable(utf8: Bytes -> bool, m: Custom) {
    |m| <= 64 && forall k :: k in m ==>
                               1 <= |k| <= 128 && |m[k]| <= 512 && Printable(utf8, k) && Printable(utf8, m[k])
  }

  lemma FineIsAcceptable(utf8: Bytes -> bool, m: Custom)
    ensures FineCustom(utf8, m) <==> Acceptable(utf8, m)
  {
    assert forall s :: PlainText(utf8, s) <==> Printable(utf8, s);
  }

  /** An update is refused if and only if its version limit is not from 0 to 1000, or if it touches the user's own data
      and leaves too much of it or an entry that is not allowed. */
  lemma {:induction false} UpdateReplies(calls: seq<Call>, replies: seq<Reply>, utf8: Bytes -> bool, i: nat,
      next: Custom)
    requires AsExpected(calls, replies, utf8) && i < |replies| && calls[i].UpdateCall?
    requires forall k :: Lookup(next, k) == Told(calls[i].update, Tag(calls, replies, i, calls[i].p, k), k)
    ensures var u := calls[i].update;
            replies[i] ==
              if u.maxVersions.Some? && !(0 <= u.maxVersions.value <= 1000) then Failed(InvalidMetadata)
              else if u.custom.Some? && !Acceptable(utf8, next) then Failed(InvalidMetadata)
              else Done
  {
    hide Told, Tag, After, Configured, FineCustom, Acceptable, Lookup;
    var p, u, l := calls[i].p, calls[i].update, After(calls[..i], utf8);
    var m := MetaOrFresh(l, p, calls[i].def);
    NoTags(calls[i].def);
    forall k
      ensures Lookup(next, k) == Lookup(Configured(m, u).custom, k)
    {
      TagAfter(calls, replies, i, utf8, p, k);
      ConfigTags(m, u, utf8, k);
    }
    SameLookups(next, Configured(m, u).custom);
    FineIsAcceptable(utf8, next);
  }

  lemma NoTags(def: Defaults)
    ensures forall k :: Lookup(Fresh(def).custom, k) == None
  {}

  lemma SameLookups(a: Custom, b: Custom)
    requires forall k :: Lookup(a, k) == Lookup(b, k)
    ensures a == b
  {
    forall k
      ensures k in a <==> k in b
      ensures k in a ==> a[k] == b[k]
    {
      assert Lookup(a, k) == Lookup(b, k);
    }
  }
}
