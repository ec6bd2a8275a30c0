/** Any sequence of wrapping calls, with restarts of the process in between. */
module WrappingRuns {
  import opened Storage
  import opened Wrappers
  import opened WrappingSpec
  import opened Wrapping

  datatype Op =
    | WrapOp(id: string, payload: string, ttl: int)
    | UnwrapOp(token: string)
    | LookupOp(token: string)
    | RevokeOp(token: string)
    | RevokeExpiredOp
    | RevokeByAccessorOp(accessor: string, allow: (string, Value) -> bool)
    | RestartOp

  datatype Call = Call(now: int, op: Op)

  datatype Reply = Capsule(token: string, expires: int) | Handed(payload: string) | Ok | Refused

  /** The ids drawn by the wrap calls are all different, and none is empty. */
  ghost predicate FreshIds(calls: seq<Call>) {
    && (forall i :: 0 <= i < |calls| && calls[i].op.WrapOp? ==> calls[i].op.id != "")
    && (forall i, j :: 0 <= i < j < |calls| && calls[i].op.WrapOp? && calls[j].op.WrapOp? ==>
        calls[i].op.id != calls[j].op.id)
  }

  ghost predicate Wraps(call: Call, id: string, payload: string) {
    call.op.WrapOp? && call.op.id == id && call.op.payload == payload
  }

  // ---- what becomes of a capsule while nothing fails ----

  /** The call takes this capsule away. */
  predicate Takes(call: Call, id: string, expires: int) {
    match call.op
    case UnwrapOp(token) => TokenId(token) == id
    case LookupOp(token) => TokenId(token) == id && expires < call.now
    case RevokeOp(token) => TokenId(token) == id
    case RevokeExpiredOp => expires < call.now
    case RevokeByAccessorOp(accessor, _) => ACCESSOR_PREFIX <= accessor && expires < call.now
    case _ => false
  }

  /** The call asks for capsules with this one's accessor, and may take it away. */
  predicate MayTake(call: Call, id: string, accessorOf: string -> string) {
    call.op.RevokeByAccessorOp? && accessorOf(id) == call.op.accessor
  }

  /** Five minutes by default, and a day at most. */
  function ExpiryOf(call: Call): int
    requires call.op.WrapOp?
  {
    call.now + if call.op.ttl == 0 then 300 else if call.op.ttl > 86_400 then 86_400 else call.op.ttl
  }

  function RecordOf(call: Call): Value
    requires call.op.WrapOp?
  {
    Record(call.op.payload, call.now, ExpiryOf(call))
  }

  ghost predicate Fate(call: Call, accessorOf: string -> string, id: string, before: Data, after: Data) {
    var key := KeyOf(id);
    && (call.op.WrapOp? && call.op.id == id ==> key in after && after[key] == RecordOf(call))
    && (!(call.op.WrapOp? && call.op.id == id) && key in after ==> key in before && after[key] == before[key])
    && (key in before && before[key].Record? && Takes(call, id, before[key].expiresAt) ==> key !in after)
    && (key in before && before[key].Record? ==>
          Takes(call, id, before[key].expiresAt) || MayTake(call, id, accessorOf) || key in after)
  }

  lemma DroppedAt(data: Data, key: string, c: Counter, id: string)
    ensures KeyOf(id) in Dropped(data, key, c) <==> KeyOf(id) in data && KeyOf(id) != key
    ensures KeyOf(id) in Dropped(data, key, c) ==> Dropped(data, key, c)[KeyOf(id)] == data[KeyOf(id)]
  {
    StatsKeyApart();
    assert STORAGE_PREFIX <= KeyOf(id);
  }

  lemma KeyOfInjective(a: string, b: string)
    requires KeyOf(a) == KeyOf(b)
    ensures a == b
  {
    assert a == KeyOf(a)[|STORAGE_PREFIX|..] && b == KeyOf(b)[|STORAGE_PREFIX|..];
  }

  lemma WrapFate(call: Call, accessorOf: string -> string, before: Data, id: string)
    requires call.op.WrapOp?
    ensures Fate(call, accessorOf, id, before, Counted(before[KeyOf(call.op.id) := RecordOf(call)], Wrapped))
  {
    StatsKeyApart();
    assert STORAGE_PREFIX <= KeyOf(id);
    if KeyOf(id) == KeyOf(call.op.id) {
      KeyOfInjective(id, call.op.id);
    }
  }

  ghost function AfterTokenOp(call: Call, before: Data): Data
    requires call.op.UnwrapOp? || call.op.LookupOp? || call.op.RevokeOp?
  {
    match call.op
    case UnwrapOp(token) => AfterUnwrap(before, token, call.now).0
    case LookupOp(token) => AfterLookup(before, token, call.now)
    case RevokeOp(token) =>
      if TokenId(token) == "" then before else AfterRevoke(before, KeyOf(TokenId(token)), call.now).0
  }

  lemma TokenFates(call: Call, accessorOf: string -> string, before: Data)
    requires call.op.UnwrapOp? || call.op.LookupOp? || call.op.RevokeOp?
    ensures forall id :: id != "" ==> Fate(call, accessorOf, id, before, AfterTokenOp(call, before))
  {
    hide Dropped, TokenId;
    forall id | id != ""
      ensures Fate(call, accessorOf, id, before, AfterTokenOp(call, before))
    {
      var key := KeyOf(TokenId(call.op.token));
      DroppedAt(before, key, Unwrapped, id);
      DroppedAt(before, key, Expired, id);
      DroppedAt(before, key, Revoked, id);
      if key == KeyOf(id) {
        KeyOfInjective(TokenId(call.op.token), id);
      }
    }
  }

  lemma ScanFate(call: Call, accessorOf: string -> string, before: Data, after: Data, id: string, also: set<string>)
    requires call.op.RevokeExpiredOp? || (call.op.RevokeByAccessorOp? && ACCESSOR_PREFIX <= call.op.accessor)
    requires LiveKeys(after) == Unexpired(before, call.now) - also
    requires forall k :: k in LiveKeys(after) && k in before ==> after[k] == before[k]
    requires forall k :: k in also ==>
               call.op.RevokeByAccessorOp? && Named(before, k, accessorOf, call.op.accessor, call.now)
    ensures Fate(call, accessorOf, id, before, after)
  {
    var key := KeyOf(id);
    assert STORAGE_PREFIX <= key && key[|STORAGE_PREFIX|..] == id;
    assert key in after <==> key in LiveKeys(after);
    assert key in before <==> key in LiveKeys(before);
  }

  lemma NoFate(call: Call, accessorOf: string -> string, before: Data, after: Data, id: string)
    requires call.op.RestartOp? || (call.op.RevokeByAccessorOp? && !(ACCESSOR_PREFIX <= call.op.accessor))
    requires LiveKeys(after) == LiveKeys(before)
    requires forall k :: k in LiveKeys(after) && k in before ==> after[k] == before[k]
    ensures Fate(call, accessorOf, id, before, after)
  {
    var key := KeyOf(id);
    assert STORAGE_PREFIX <= key;
    assert key in after <==> key in LiveKeys(after);
    assert key in before <==> key in LiveKeys(before);
  }

  lemma Swept(call: Call, accessorOf: string -> string, before: Data, after: Data, also: set<string>)
    requires call.op.RevokeExpiredOp? || (call.op.RevokeByAccessorOp? && ACCESSOR_PREFIX <= call.op.accessor)
    requires LiveKeys(after) == Unexpired(before, call.now) - also
    requires forall k :: k in LiveKeys(after) && k in before ==> after[k] == before[k]
    requires forall k :: k in also ==>
               call.op.RevokeByAccessorOp? && Named(before, k, accessorOf, call.op.accessor, call.now)
    ensures forall id :: Fate(call, accessorOf, id, before, after)
  {
    hide Fate, Named, LiveKeys, Unexpired;
    forall id
      ensures Fate(call, accessorOf, id, before, after)
    {
      ScanFate(call, accessorOf, before, after, id, also);
    }
  }

  lemma AccessorFate(call: Call, accessorOf: string -> string, before: Data, after: Data, found: bool)
    requires call.op.RevokeByAccessorOp?
    requires forall k :: k in LiveKeys(after) && k in before ==> after[k] == before[k]
    requires found ==> exists k :: Named(before, k, accessorOf, call.op.accessor, call.now)
                               && LiveKeys(after) == Unexpired(before, call.now) - {k}
    requires found ==> ACCESSOR_PREFIX <= call.op.accessor
    requires !found ==> LiveKeys(after) == if ACCESSOR_PREFIX <= call.op.accessor then Unexpired(before, call.now)
                                           else LiveKeys(before)
    ensures forall id :: Fate(call, accessorOf, id, before, after)
  {
    hide Fate, Named, LiveKeys, Unexpired;
    if found {
      var k :| Named(before, k, accessorOf, call.op.accessor, call.now)
          && LiveKeys(after) == Unexpired(before, call.now) - {k};
      Swept(call, accessorOf, before, after, {k});
    } else if ACCESSOR_PREFIX <= call.op.accessor {
      Swept(call, accessorOf, before, after, {});
    } else {
      forall id ensures Fate(call, accessorOf, id, before, after) { NoFate(call, accessorOf, before, after, id); }
    }
  }

  function HandedOut(r: Result<string, WrapError>): Reply {
    if r.Success? then Handed(r.value) else Refused
  }

  function Acknowledged(ok: bool): Reply {
    if ok then Ok else Refused
  }

  /** The counters go up by this reply, apart from that of expired capsules. */
  ghost predicate CountsUp(before: Data, after: Data, call: Call, reply: Reply) {
    var was, now := StoredStats(before), StoredStats(after);
    && now.wrapped == was.wrapped + (if reply.Capsule? then 1 else 0)
    && now.unwrapped == was.unwrapped + (if reply.Handed? then 1 else 0)
    && now.revoked == was.revoked + if Revokes(call, reply) then 1 else 0
  }

  predicate Revokes(call: Call, reply: Reply) {
    (call.op.RevokeOp? || call.op.RevokeByAccessorOp?) && reply == Ok
  }

  lemma WrapCounts(before: Data, call: Call, reply: Reply)
    requires call.op.WrapOp? && reply.Capsule?
    ensures CountsUp(before, Counted(before[KeyOf(call.op.id) := RecordOf(call)], Wrapped), call, reply)
  {
    PutKeepsStats(before, call.op.id, RecordOf(call));
    CountedKeys(before[KeyOf(call.op.id) := RecordOf(call)], Wrapped);
  }

  function TokenReply(call: Call, before: Data): Reply
    requires call.op.UnwrapOp? || call.op.LookupOp? || call.op.RevokeOp?
  {
    match call.op
    case UnwrapOp(token) => HandedOut(AfterUnwrap(before, token, call.now).1)
    case LookupOp(token) => Acknowledged(LiveRecord(before, token, call.now))
    case RevokeOp(token) =>
      Acknowledged(TokenId(token) != "" && AfterRevoke(before, KeyOf(TokenId(token)), call.now).1.Success?)
  }

  lemma TokenCounts(before: Data, call: Call, reply: Reply)
    requires call.op.UnwrapOp? || call.op.LookupOp? || call.op.RevokeOp?
    requires reply == TokenReply(call, before)
    ensures CountsUp(before, AfterTokenOp(call, before), call, reply)
  {
    hide Dropped, TokenId, StoredStats;
    var key := KeyOf(TokenId(call.op.token));
    assert STORAGE_PREFIX <= key;
    if key in before {
      DroppedStats(before, key, Unwrapped);
      DroppedStats(before, key, Expired);
      DroppedStats(before, key, Revoked);
    }
  }

  // ---- one call ----

  method Step(w: Wrapper, call: Call) returns (next: Wrapper, reply: Reply)
    requires w.Valid() && (call.op.WrapOp? ==> call.op.id != "" && call.op.id !in w.issued)
    modifies w, w.b
    ensures next.Valid() && next.b == w.b && next.accessorOf == w.accessorOf && (next == w || fresh(next))
    ensures reply.Handed? ==>
              && call.op.UnwrapOp?
              && var id := TokenId(call.op.token);
              && id in next.issued && reply.payload == next.issued[id]
              && id !in old(w.spent) && next.spent == old(w.spent) + [id]
    ensures !reply.Handed? ==> next.spent == old(w.spent)
    ensures next.issued == old(w.issued) || (call.op.WrapOp?
              && next.issued == old(w.issued)[call.op.id := call.op.payload])
    ensures reply.Capsule? ==> call.op.WrapOp? && reply == Capsule("tuck_wrap_" + call.op.id, ExpiryOf(call))
    ensures w.b.reliable && call.op.WrapOp? ==> reply.Capsule?
    ensures w.b.reliable ==> forall id :: id != "" ==> Fate(call, w.accessorOf, id, old(w.b.data), w.b.data)
    ensures w.b.reliable ==> CountsUp(old(w.b.data), w.b.data, call, reply)
    ensures w.b.reliable && (call.op.UnwrapOp? || call.op.LookupOp? || call.op.RevokeOp?) ==>
              reply == TokenReply(call, old(w.b.data))
  {
    hide LiveRecord, Tracked, Balanced, Counted, StoredStats, LiveKeys, AfterUnwrap, AfterLookup, AfterRevoke, Fate,
      Named, TokenId, CountsUp;
    next := w;
    ghost var was := w.b.data;
    match call.op {
      case WrapOp(id, payload, ttl) =>
        var r := w.Wrap(id, payload, ttl, call.now);
        reply := if r.Success? then Capsule(r.value.0, r.value.1) else Refused;
        if w.b.reliable {
          forall x ensures Fate(call, w.accessorOf, x, was, w.b.data) { WrapFate(call, w.accessorOf, was, x); }
          WrapCounts(was, call, reply);
        }
      case UnwrapOp(token) =>
        var r := w.Unwrap(token, call.now);
        reply := HandedOut(r);
        if w.b.reliable {
          TokenFates(call, w.accessorOf, was);
          TokenCounts(was, call, reply);
          assert w.b.data == AfterTokenOp(call, was);
        }
      case LookupOp(token) =>
        var r := w.Lookup(token, call.now);
        reply := Acknowledged(r.Success?);
        if w.b.reliable {
          TokenFates(call, w.accessorOf, was);
          TokenCounts(was, call, reply);
          assert w.b.data == AfterTokenOp(call, was);
        }
      case RevokeOp(token) =>
        var r := w.Revoke(token, call.now);
        reply := Acknowledged(r.Success?);
        if w.b.reliable {
          TokenFates(call, w.accessorOf, was);
          TokenCounts(was, call, reply);
          assert w.b.data == AfterTokenOp(call, was);
        }
      case RevokeExpiredOp =>
        var ok := w.RevokeExpired(call.now);
        reply := Acknowledged(ok);
        if w.b.reliable {
          Swept(call, w.accessorOf, was, w.b.data, {});
          SweptCounts(was, w.b.data, call, reply);
        }
      case RevokeByAccessorOp(accessor, allow) =>
        var r := w.RevokeByAccessor(accessor, allow, call.now);
        reply := Acknowledged(r.Success?);
        if w.b.reliable {
          AccessorFate(call, w.accessorOf, was, w.b.data, r.Success?);
          AccessorCounts(was, w.b.data, call, reply);
        }
      case RestartOp =>
        next := new Wrapper(w.b, w.accessorOf, w.issued, w.spent);
        reply := Ok;
        forall x ensures Fate(call, w.accessorOf, x, was, was) { NoFate(call, w.accessorOf, was, was, x); }
        RestartCounts(was, call);
    }
  }

  lemma SweptCounts(before: Data, after: Data, call: Call, reply: Reply)
    requires call.op.RevokeExpiredOp? && OnlyExpiries(before, after) && (reply == Ok || reply == Refused)
    ensures CountsUp(before, after, call, reply)
  {}

  lemma AccessorCounts(before: Data, after: Data, call: Call, reply: Reply)
    requires call.op.RevokeByAccessorOp? && (reply == Ok || reply == Refused)
    requires var was, stats := StoredStats(before), StoredStats(after);
             && stats.wrapped == was.wrapped && stats.unwrapped == was.unwrapped
             && stats.revoked == was.revoked + if reply == Ok then 1 else 0
    ensures CountsUp(before, after, call, reply)
  {}

  lemma RestartCounts(data: Data, call: Call)
    requires call.op.RestartOp?
    ensures CountsUp(data, data, call, Ok)
  {}

  /** One of the first n calls wrapped this payload under this id. */
  ghost predicate WrappedBefore(calls: seq<Call>, n: nat, id: string, payload: string) {
    n <= |calls| && exists k :: 0 <= k < n && Wraps(calls[k], id, payload)
  }

  lemma StillWrapped(calls: seq<Call>, n: nat, id: string, payload: string)
    requires WrappedBefore(calls, n, id, payload) && n < |calls|
    ensures WrappedBefore(calls, n + 1, id, payload)
  {
    var k :| 0 <= k < n && Wraps(calls[k], id, payload);
    assert k < n + 1;
  }

  /** What the first calls, answered by these replies, have issued and spent. */
  ghost predicate Account(calls: seq<Call>, replies: seq<Reply>, issued: map<string, string>,
      spent: seq<string>) {
    && |replies| <= |calls|
    && (forall id :: id in issued ==> WrappedBefore(calls, |replies|, id, issued[id]))
    && (forall i :: 0 <= i < |replies| && replies[i].Handed? ==>
        calls[i].op.UnwrapOp? && TokenId(calls[i].op.token) in spent)
  }

  /** No token was answered twice, and each answer is what an earlier call wrapped under that token. */
  ghost predicate SingleUse(calls: seq<Call>, replies: seq<Reply>) {
    && |replies| <= |calls|
    && (forall i :: 0 <= i < |replies| && replies[i].Handed? ==> calls[i].op.UnwrapOp?)
    && (forall i, j :: 0 <= i < j < |replies| && replies[i].Handed? && replies[j].Handed? ==>
          TokenId(calls[i].op.token) != TokenId(calls[j].op.token))
    && (forall i :: 0 <= i < |replies| && replies[i].Handed? ==>
          WrappedBefore(calls, i, TokenId(calls[i].op.token), replies[i].payload))
  }

  lemma FreshSoFar(calls: seq<Call>, replies: seq<Reply>, issued: map<string, string>, spent: seq<string>)
    requires FreshIds(calls) && Account(calls, replies, issued, spent) && |replies| < |calls|
    ensures var op := calls[|replies|].op; op.WrapOp? ==> op.id != "" && op.id !in issued
  {
    var i := |replies|;
    if calls[i].op.WrapOp? {
      assert forall k :: 0 <= k < i && calls[k].op.WrapOp? ==> calls[k].op.id != calls[i].op.id;
    }
  }

  lemma SilentCall(calls: seq<Call>, replies: seq<Reply>, reply: Reply, issued: map<string, string>,
      next: map<string, string>, spent: seq<string>)
    requires !reply.Handed?
    requires Account(calls, replies, issued, spent) && |replies| < |calls| && SingleUse(calls, replies)
    requires var op := calls[|replies|].op;
             next == issued || (op.WrapOp? && op.id !in issued && next == issued[op.id := op.payload])
    ensures Account(calls, replies + [reply], next, spent) && SingleUse(calls, replies + [reply])
  {
    var i := |replies|;
    var after := replies + [reply];
    forall id | id in next
      ensures WrappedBefore(calls, |after|, id, next[id])
    {
      if id in issued && next[id] == issued[id] {
        StillWrapped(calls, i, id, issued[id]);
      } else {
        assert Wraps(calls[i], id, next[id]);
      }
    }
    assert forall j :: 0 <= j < |after| && after[j].Handed? ==> j < i && after[j] == replies[j];
  }

  lemma AnsweredCall(calls: seq<Call>, replies: seq<Reply>, issued: map<string, string>, spent: seq<string>,
      payload: string)
    requires Account(calls, replies, issued, spent) && |replies| < |calls| && SingleUse(calls, replies)
    requires var op := calls[|replies|].op;
             op.UnwrapOp? && TokenId(op.token) in issued && payload == issued[TokenId(op.token)]
                 && TokenId(op.token) !in spent
    ensures Account(calls, replies + [Handed(payload)], issued, spent + [TokenId(calls[|replies|].op.token)])
    ensures SingleUse(calls, replies + [Handed(payload)])
  {
    var i := |replies|;
    var after := replies + [Handed(payload)];
    var id := TokenId(calls[i].op.token);
    hide TokenId, WrappedBefore;
    forall x | x in issued
      ensures WrappedBefore(calls, |after|, x, issued[x])
    {
      StillWrapped(calls, i, x, issued[x]);
    }
    assert forall j :: 0 <= j < i ==> after[j] == replies[j];
    assert forall x :: x in spent ==> x in spent + [id];
  }

  // ---- answers while nothing fails ----

  /** Between call k, which wrapped a capsule, and call n, no call took it away or may have done so. */
  ghost predicate Undisturbed(calls: seq<Call>, k: nat, n: nat, accessorOf: string -> string)
    requires k < n <= |calls| && calls[k].op.WrapOp?
  {
    forall j :: k < j < n ==>
      !Takes(calls[j], calls[k].op.id, RecordOf(calls[k]).expiresAt) && !MayTake(calls[j], calls[k].op.id, accessorOf)
  }

  /** Between call k and call n, some call took it away. */
  ghost predicate Taken(calls: seq<Call>, k: nat, n: nat)
    requires k < n <= |calls| && calls[k].op.WrapOp?
  {
    exists j :: k < j < n && Takes(calls[j], calls[k].op.id, RecordOf(calls[k]).expiresAt)
  }

  /** Call i is to unwrap, look up or revoke what call k wrapped. */
  ghost predicate Asks(calls: seq<Call>, k: nat, i: nat)
    requires k < i < |calls|
  {
    && calls[k].op.WrapOp? && (calls[i].op.UnwrapOp? || calls[i].op.LookupOp? || calls[i].op.RevokeOp?)
    && calls[i].op.token == "tuck_wrap_" + calls[k].op.id
  }

  lemma AsksById(id: string)
    ensures TokenId("tuck_wrap_" + id) == id
  {}

  /** It is answered if the capsule was left alone and has not expired, and refused if it was taken away or has. */
  ghost predicate AnsweredAt(calls: seq<Call>, replies: seq<Reply>, k: nat, i: nat,
      accessorOf: string -> string)
    requires k < i < |replies| <= |calls| && Asks(calls, k, i)
  {
    var expires := RecordOf(calls[k]).expiresAt;
    && (Undisturbed(calls, k, i, accessorOf) && calls[i].now <= expires ==>
          replies[i] == if calls[i].op.UnwrapOp? then Handed(calls[k].op.payload) else Ok)
    && (Taken(calls, k, i) || expires < calls[i].now ==> replies[i] == Refused)
  }

  ghost predicate Answered(calls: seq<Call>, replies: seq<Reply>, accessorOf: string -> string) {
    && |replies| <= |calls|
    && forall k: nat, i: nat :: k < i < |replies| && Asks(calls, k, i) ==>
         AnsweredAt(calls, replies, k, i, accessorOf)
  }

  /** What storage holds for the capsule that call k wrapped. */
  ghost predicate ShelvedOne(calls: seq<Call>, n: nat, data: Data, accessorOf: string -> string, k: nat)
    requires k < n <= |calls| && calls[k].op.WrapOp?
  {
    var key := KeyOf(calls[k].op.id);
    && (key in data ==> data[key] == RecordOf(calls[k]))
    && (Undisturbed(calls, k, n, accessorOf) ==> key in data)
    && (Taken(calls, k, n) ==> key !in data)
  }

  ghost predicate Shelved(calls: seq<Call>, n: nat, data: Data, accessorOf: string -> string) {
    n <= |calls| && forall k: nat :: k < n && calls[k].op.WrapOp? ==> ShelvedOne(calls, n, data, accessorOf, k)
  }

  lemma ShelvedStep(calls: seq<Call>, n: nat, before: Data, after: Data, accessorOf: string -> string, k: nat)
    requires FreshIds(calls) && Shelved(calls, n, before, accessorOf) && n < |calls|
    requires k <= n && calls[k].op.WrapOp? && Fate(calls[n], accessorOf, calls[k].op.id, before, after)
    ensures ShelvedOne(calls, n + 1, after, accessorOf, k)
  {
    hide Takes, MayTake;
    if k < n {
      assert ShelvedOne(calls, n, before, accessorOf, k);
      assert calls[n].op.WrapOp? ==> calls[n].op.id != calls[k].op.id;
      if Taken(calls, k, n + 1) {
        var j :| k < j < n + 1 && Takes(calls[j], calls[k].op.id, RecordOf(calls[k]).expiresAt);
        assert j < n ==> Taken(calls, k, n);
      }
      if Undisturbed(calls, k, n + 1, accessorOf) {
        assert Undisturbed(calls, k, n, accessorOf);
      }
    }
  }

  lemma AllShelved(calls: seq<Call>, n: nat, before: Data, after: Data, accessorOf: string -> string)
    requires FreshIds(calls) && Shelved(calls, n, before, accessorOf) && n < |calls|
    requires forall id :: id != "" ==> Fate(calls[n], accessorOf, id, before, after)
    ensures Shelved(calls, n + 1, after, accessorOf)
  {
    hide Fate, ShelvedOne;
    forall k: nat | k < n + 1 && calls[k].op.WrapOp?
      ensures ShelvedOne(calls, n + 1, after, accessorOf, k)
    {
      assert calls[k].op.id != "";
      ShelvedStep(calls, n, before, after, accessorOf, k);
    }
  }

  lemma AnsweredStep(calls: seq<Call>, replies: seq<Reply>, data: Data, accessorOf: string -> string,
      reply: Reply)
    requires FreshIds(calls) && |replies| < |calls| && Answered(calls, replies, accessorOf)
    requires Shelved(calls, |replies|, data, accessorOf)
    requires var call := calls[|replies|];
             call.op.UnwrapOp? || call.op.LookupOp? || call.op.RevokeOp? ==> reply == TokenReply(call, data)
    ensures Answered(calls, replies + [reply], accessorOf)
  {
    hide Undisturbed, Taken, Dropped, TokenId;
    var n := |replies|;
    var more := replies + [reply];
    forall k: nat, i: nat | k < i < |more| && Asks(calls, k, i)
      ensures AnsweredAt(calls, more, k, i, accessorOf)
    {
      assert calls[k].op.id != "";
      if i < n {
        assert AnsweredAt(calls, replies, k, i, accessorOf);
      } else {
        assert ShelvedOne(calls, n, data, accessorOf, k);
        AsksById(calls[k].op.id);
      }
    }
  }

  // ---- the counters ----

  /** The positions that are marked. */
  ghost function Marked(marks: seq<bool>): set<nat> {
    set i: nat | i < |marks| && marks[i]
  }

  lemma MarkedMore(marks: seq<bool>, mark: bool)
    ensures |Marked(marks + [mark])| == |Marked(marks)| + if mark then 1 else 0
  {
    if mark {
      assert Marked(marks + [mark]) == Marked(marks) + {|marks|};
    } else {
      assert Marked(marks + [mark]) == Marked(marks);
    }
  }

  ghost function Capsules(replies: seq<Reply>): seq<bool> {
    seq(|replies|, i requires 0 <= i < |replies| => replies[i].Capsule?)
  }

  ghost function HandedOver(replies: seq<Reply>): seq<bool> {
    seq(|replies|, i requires 0 <= i < |replies| => replies[i].Handed?)
  }

  ghost function Revocations(calls: seq<Call>, replies: seq<Reply>): seq<bool>
    requires |replies| <= |calls|
  {
    seq(|replies|, i requires 0 <= i < |replies| => Revokes(calls[i], replies[i]))
  }

  /** Each counter is the number of replies of its kind, and expired are those that are neither unwrapped nor revoked
      and yet gone. */
  ghost predicate Tallied(calls: seq<Call>, replies: seq<Reply>, data: Data) {
    var stats := StoredStats(data);
    && |replies| <= |calls| && stats.wrapped == |Marked(Capsules(replies))|
    && stats.unwrapped == |Marked(HandedOver(replies))|
    && stats.revoked == |Marked(Revocations(calls, replies))|
    && stats.expired == stats.wrapped - stats.unwrapped - stats.revoked - |LiveKeys(data)|
  }

  lemma TalliedStep(calls: seq<Call>, replies: seq<Reply>, before: Data, after: Data, reply: Reply)
    requires |replies| < |calls| && Tallied(calls, replies, before) && CountsUp(before, after, calls[|replies|], reply)
    requires Balanced(after)
    ensures Tallied(calls, replies + [reply], after)
  {
    hide LiveKeys, Marked, Revokes, StoredStats;
    var n, more := |replies|, replies + [reply];
    assert Capsules(more) == Capsules(replies) + [reply.Capsule?];
    assert HandedOver(more) == HandedOver(replies) + [reply.Handed?];
    assert Revocations(calls, more) == Revocations(calls, replies) + [Revokes(calls[n], reply)];
    MarkedMore(Capsules(replies), reply.Capsule?);
    MarkedMore(HandedOver(replies), reply.Handed?);
    MarkedMore(Revocations(calls, replies), Revokes(calls[n], reply));
  }

  lemma NothingYet(calls: seq<Call>, data: Data, accessorOf: string -> string)
    requires data == map[]
    ensures Tracked(data, map[], []) && Balanced(data) && Account(calls, [], map[], []) && SingleUse(calls, [])
    ensures Shelved(calls, 0, data, accessorOf) && Answered(calls, [], accessorOf) && Tallied(calls, [], data)
  {
    assert LiveKeys(data) == {};
  }

  /** From an empty store: every payload goes out at most once and as it was wrapped, whatever fails; and if
      storage never fails, a capsule can be looked up, revoked and unwrapped as long as it is there, and the counters
      count what was done and account for every capsule. */
  method Run(b: Store<char, Value>, accessorOf: string -> string, calls: seq<Call>)
      returns (replies: seq<Reply>)
    requires b.data == map[] && FreshIds(calls)
    modifies b
    ensures |replies| == |calls| && SingleUse(calls, replies)
    ensures forall i :: 0 <= i < |calls| && replies[i].Capsule? ==>
              calls[i].op.WrapOp? && replies[i] == Capsule("tuck_wrap_" + calls[i].op.id, ExpiryOf(calls[i]))
    ensures b.reliable ==> forall i :: 0 <= i < |calls| && calls[i].op.WrapOp? ==> replies[i].Capsule?
    ensures b.reliable ==> Answered(calls, replies, accessorOf) && Tallied(calls, replies, b.data)
  {
    hide Tracked, Balanced, StoredStats, LiveKeys, Account, SingleUse, FreshIds, Shelved, Answered, Fate, AfterUnwrap,
      Tallied, CountsUp;
    NothingYet(calls, b.data, accessorOf);
    var w := new Wrapper(b, accessorOf, map[], []);
    replies := [];
    for i := 0 to |calls|
      invariant w.Valid() && w.b == b && w.accessorOf == accessorOf && fresh(w) && |replies| == i
      invariant Account(calls, replies, w.issued, w.spent) && SingleUse(calls, replies)
      invariant forall j :: 0 <= j < i && replies[j].Capsule? ==>
                  calls[j].op.WrapOp? && replies[j] == Capsule("tuck_wrap_" + calls[j].op.id, ExpiryOf(calls[j]))
      invariant b.reliable ==> forall j :: 0 <= j < i && calls[j].op.WrapOp? ==> replies[j].Capsule?
      invariant b.reliable ==> Shelved(calls, i, b.data, accessorOf) && Answered(calls, replies, accessorOf)
      invariant b.reliable ==> Tallied(calls, replies, b.data)
    {
      FreshSoFar(calls, replies, w.issued, w.spent);
      ghost var issued, spent, data := w.issued, w.spent, b.data;
      var next, reply := Step(w, calls[i]);
      if reply.Handed? {
        AnsweredCall(calls, replies, issued, spent, reply.payload);
      } else {
        SilentCall(calls, replies, reply, issued, next.issued, spent);
      }
      if b.reliable {
        AnsweredStep(calls, replies, data, accessorOf, reply);
        AllShelved(calls, i, data, b.data, accessorOf);
        TalliedStep(calls, replies, data, b.data, reply);
      }
      w := next;
      replies := replies + [reply];
    }
  }
}
