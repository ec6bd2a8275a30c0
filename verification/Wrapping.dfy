/** internal/wrapping: single-use wrapping tokens with lifetime counters.  Every method runs under the
    store's mutex, so it is one step. */
module Wrapping {
  import opened Sequences
  import opened Storage
  import opened Wrappers
  import opened WrappingSpec

  class Wrapper {
    const b: Store<char, Value>
    const accessorOf: string -> string
    var stats: Stats
    var statsLoaded: bool
    ghost var issued: map<string, string>
    ghost var spent: seq<string>

    /** The counters balance as long as storage never fails; single use does not depend on that. */
    ghost predicate Valid()
      reads this, b
    {
      && Tracked(b.data, issued, spent)
      && (b.reliable ==> Balanced(b.data) && (statsLoaded ==> stats == StoredStats(b.data)))
    }

    /** A process that starts over records which earlier ones left behind. */
    constructor (b: Store<char, Value>, accessorOf: string -> string, ghost issued: map<string, string>,
        ghost spent: seq<string>)
      requires Tracked(b.data, issued, spent) && (b.reliable ==> Balanced(b.data))
      ensures Valid() && this.b == b && this.accessorOf == accessorOf && this.issued == issued && this.spent == spent
    {
      this.b, this.accessorOf, this.issued, this.spent := b, accessorOf, issued, spent;
      stats, statsLoaded := Stats(0, 0, 0, 0), false;
    }

    method LoadStats() returns (ok: bool)
      requires STATS_KEY in b.data ==> b.data[STATS_KEY].Counters?
      requires b.reliable && statsLoaded ==> stats == StoredStats(b.data)
      modifies this`stats, this`statsLoaded
      ensures b.reliable ==> ok
      ensures b.reliable && statsLoaded ==> stats == StoredStats(b.data)
      ensures ok ==> statsLoaded
    {
      if statsLoaded {
        return true;
      }
      var entry := b.Get(STATS_KEY);
      if entry.Failure? {
        return false;
      }
      stats := if entry.value.Some? && entry.value.value.Counters? then entry.value.value.stats else Stats(0, 0, 0, 0);
      statsLoaded := true;
      return true;
    }

    method Bump(c: Counter)
      requires Tracked(b.data, issued, spent)
      requires b.reliable && statsLoaded ==> stats == StoredStats(b.data)
      modifies this`stats, this`statsLoaded, b
      ensures Tracked(b.data, issued, spent) && LiveKeys(b.data) == old(LiveKeys(b.data))
      ensures forall k :: k in old(b.data) && k != STATS_KEY ==> k in b.data && b.data[k] == old(b.data)[k]
      ensures b.reliable ==> b.data == Counted(old(b.data), c) && statsLoaded && stats == StoredStats(b.data)
    {
      var loaded := LoadStats();
      if !loaded {
        return;
      }
      stats := Bumped(stats, c);
      var ok := b.Put(STATS_KEY, Counters(stats));
      if ok {
        StatsKeyApart();
      }
    }

    method Wrap(id: string, payload: string, ttl: int, now: int) returns (r: Result<(string, int), WrapError>)
      requires Valid() && id != "" && id !in issued
      modifies this, b
      ensures Valid() && spent == old(spent)
      ensures r.Success? ==> r.value == (TokenOf(id), now + Lifetime(ttl)) && issued == old(issued)[id := payload]
      ensures r.Success? ==> r.value.1 <= now + 24 * 60 * 60
      ensures r.Failure? ==> issued == old(issued) && b.data == old(b.data)
      ensures b.reliable ==>
                && r.Success?
                && b.data == Counted(old(b.data)[KeyOf(id) := Record(payload, now, now + Lifetime(ttl))], Wrapped)
    {
      hide Tracked, Balanced, Counted, LiveKeys, StoredStats;
      var rec := Record(payload, now, now + Lifetime(ttl));
      WrapTracked(b.data, issued, spent, id, rec);
      PutKeepsStats(b.data, id, rec);
      var ok := b.Put(KeyOf(id), rec);
      if !ok {
        return Failure(Storage);
      }
      issued := issued[id := payload];
      Bump(Wrapped);
      if b.reliable {
        WrapBalances(old(b.data), id, rec);
      }
      return Success((TokenOf(id), now + Lifetime(ttl)));
    }

    /** Deletes a record and, if that worked, counts it. */
    method Drop(key: string, c: Counter) returns (ok: bool)
      requires Valid() && key in LiveKeys(b.data) && c != Wrapped
      modifies this`stats, this`statsLoaded, b
      ensures Valid()
      ensures b.reliable ==> ok && b.data == Dropped(old(b.data), key, c)
      ensures LiveKeys(b.data) == if ok then old(LiveKeys(b.data)) - {key} else old(LiveKeys(b.data))
      ensures forall k :: k in old(b.data) && k != key && k != STATS_KEY ==> k in b.data && b.data[k] == old(b.data)[k]
      ensures !ok ==> b.data == old(b.data)
    {
      hide Tracked, Balanced, Counted, StoredStats;
      DeleteTracked(b.data, issued, spent, key);
      DeleteKeepsStats(b.data, key);
      ok := b.Delete(key);
      if ok {
        Bump(c);
        if b.reliable {
          DropBalances(old(b.data), key, c);
        }
      }
    }

    method Unwrap(token: string, now: int) returns (r: Result<string, WrapError>)
      requires Valid()
      modifies this, b
      ensures Valid() && issued == old(issued)
      ensures r.Success? ==>
                var id := TokenId(token);
                && id in issued && r.value == issued[id]
                && id !in old(spent) && spent == old(spent) + [id]
      ensures r.Failure? ==> spent == old(spent)
      ensures b.reliable ==> (b.data, r) == AfterUnwrap(old(b.data), token, now)
    {
      hide Tracked, Balanced, Counted, StoredStats;
      var id := TokenId(token);
      if id == "" {
        return Failure(NotFound);
      }
      var key := KeyOf(id);
      var entry := b.Get(key);
      if entry.Failure? {
        return Failure(Storage);
      }
      if entry.value.None? {
        return Failure(NotFound);
      }
      var rec := entry.value.value;
      if !rec.Record? {
        return Failure(Storage);
      }
      var counter := if now > rec.expiresAt then Expired else Unwrapped;
      SpendTracked(b.data, issued, spent, id);
      var ok := Drop(key, counter);
      if !ok {
        return Failure(Storage);
      }
      if counter == Expired {
        return Failure(HasExpired);
      }
      SpentStays(b.data, issued, spent, id);
      spent := spent + [id];
      return Success(rec.payload);
    }

    /** Success carries the creation and expiry times. */
    method Lookup(token: string, now: int) returns (r: Result<(int, int), WrapError>)
      requires Valid()
      modifies this`stats, this`statsLoaded, b
      ensures Valid()
      ensures b.reliable ==> b.data == AfterLookup(old(b.data), token, now)
      ensures b.reliable ==> (r.Success? <==> LiveRecord(old(b.data), token, now))
      ensures r.Success? ==>
                && LiveRecord(old(b.data), token, now) && b.data == old(b.data)
                && r.value == (b.data[KeyOf(TokenId(token))].createdAt, b.data[KeyOf(TokenId(token))].expiresAt)
    {
      hide Tracked, Balanced, Counted, StoredStats;
      var id := TokenId(token);
      if id == "" {
        return Failure(NotFound);
      }
      var entry := b.Get(KeyOf(id));
      if entry.Failure? {
        return Failure(Storage);
      }
      if entry.value.None? {
        return Failure(NotFound);
      }
      var rec := entry.value.value;
      if !rec.Record? {
        return Failure(Storage);
      }
      if now > rec.expiresAt {
        var _ := Drop(KeyOf(id), Expired);
        return Failure(HasExpired);
      }
      return Success((rec.createdAt, rec.expiresAt));
    }

    method RevokeKey(key: string, now: int) returns (r: Result<(), WrapError>)
      requires Valid() && STORAGE_PREFIX <= key
      modifies this`stats, this`statsLoaded, b
      ensures Valid()
      ensures b.reliable ==> (b.data, r) == AfterRevoke(old(b.data), key, now)
    {
      hide Tracked, Balanced, Counted, StoredStats;
      var entry := b.Get(key);
      if entry.Failure? {
        return Failure(Storage);
      }
      if entry.value.None? {
        return Failure(NotFound);
      }
      var rec := entry.value.value;
      var stale := rec.Record? && now > rec.expiresAt;
      var ok := Drop(key, if stale then Expired else Revoked);
      if !ok {
        return Failure(Storage);
      }
      return if stale then Failure(NotFound) else Success(());
    }

    method Revoke(token: string, now: int) returns (r: Result<(), WrapError>)
      requires Valid()
      modifies this`stats, this`statsLoaded, b
      ensures Valid()
      ensures b.reliable ==>
                (b.data, r) == if TokenId(token) == "" then (old(b.data), Failure(NotFound))
                               else AfterRevoke(old(b.data), KeyOf(TokenId(token)), now)
    {
      hide Tracked, Balanced, Counted, StoredStats;
      if TokenId(token) == "" {
        return Failure(NotFound);
      }
      r := RevokeKey(KeyOf(TokenId(token)), now);
    }

    /** Deletes and counts expired records; returns the keys of the readable ones that are left. */
    method Scan(now: int) returns (r: Result<seq<string>, WrapError>)
      requires Valid()
      modifies this`stats, this`statsLoaded, b
      ensures Valid()
      ensures b.reliable ==> r.Success?
      ensures r.Success? ==> forall k :: k in r.value ==>
                k in LiveKeys(b.data) && b.data[k].Record? && b.data[k].expiresAt >= now
      ensures b.reliable ==>
                && LiveKeys(b.data) == Unexpired(old(b.data), now)
                && (forall k :: k in LiveKeys(b.data) ==> b.data[k] == old(b.data)[k])
                && (forall k :: k in r.value <==> k in LiveKeys(b.data) && b.data[k].Record?)
                && OnlyExpiries(old(b.data), b.data)
    {
      hide Tracked, Balanced, Counted, StoredStats, Scanned, OnlyExpiries;
      NoExpiries(b.data);
      ghost var was := b.data;
      var keys := b.List(STORAGE_PREFIX);
      if keys.Failure? {
        return Failure(Storage);
      }
      var live: seq<string> := [];
      ScanStarts(was, keys.value, now, b.reliable);
      for i := 0 to |keys.value|
        invariant Valid()
        invariant Scanned(was, b.data, keys.value, i, live, now, b.reliable)
        invariant b.reliable ==> OnlyExpiries(was, b.data)
      {
        var key := keys.value[i];
        ghost var data := b.data;
        ScanNext(was, data, keys.value, i, live, now, b.reliable);
        var entry := b.Get(key);
        if entry.Success? && entry.value.Some? && entry.value.value.Record? {
          if entry.value.value.expiresAt < now {
            var _ := Drop(key, Expired);
            ScanDrops(was, data, b.data, keys.value, i, live, now, b.reliable);
            if b.reliable {
              OneMoreExpiry(was, data, key);
            }
          } else {
            live := live + [key];
          }
        }
      }
      ScanEnds(was, b.data, keys.value, live, now, b.reliable);
      return Success(live);
    }

    method RevokeExpired(now: int) returns (ok: bool)
      requires Valid()
      modifies this`stats, this`statsLoaded, b
      ensures Valid()
      ensures b.reliable ==>
                && ok
                && LiveKeys(b.data) == Unexpired(old(b.data), now)
                && (forall k :: k in LiveKeys(b.data) ==> b.data[k] == old(b.data)[k])
                && OnlyExpiries(old(b.data), b.data)
    {
      hide Tracked, Balanced, Counted, StoredStats;
      var r := Scan(now);
      ok := r.Success?;
    }

    /** allow decides from the capsule whether the caller may touch it. */
    method RevokeByAccessor(accessor: string, allow: (string, Value) -> bool, now: int)
        returns (r: Result<(), WrapError>)
      requires Valid()
      modifies this`stats, this`statsLoaded, b
      ensures Valid()
      ensures b.reliable ==> forall k :: k in LiveKeys(b.data) ==> k in old(b.data) && b.data[k] == old(b.data)[k]
      ensures r.Success? ==> ACCESSOR_PREFIX <= accessor
      ensures b.reliable ==>
                var was, stats := StoredStats(old(b.data)), StoredStats(b.data);
                && stats.wrapped == was.wrapped && stats.unwrapped == was.unwrapped
                && stats.revoked == was.revoked + if r.Success? then 1 else 0
      ensures b.reliable && r.Success? ==>
                exists k ::
                  && Named(old(b.data), k, accessorOf, accessor, now) && allow(k[|STORAGE_PREFIX|..], old(b.data)[k])
                  && LiveKeys(b.data) == Unexpired(old(b.data), now) - {k}
      ensures b.reliable && r.Failure? ==>
                LiveKeys(b.data) == if ACCESSOR_PREFIX <= accessor then Unexpired(old(b.data), now)
                    else LiveKeys(old(b.data))
      ensures b.reliable && r.Failure? && ACCESSOR_PREFIX <= accessor ==>
                forall k :: Named(old(b.data), k, accessorOf, accessor, now) ==>
                  exists x :: Named(old(b.data), x, accessorOf, accessor, now)
                      && !allow(x[|STORAGE_PREFIX|..], old(b.data)[x])
    {
      hide Tracked, Balanced, Counted, StoredStats;
      if !(ACCESSOR_PREFIX <= accessor) {
        return Failure(NotFound);
      }
      var live := Scan(now);
      if live.Failure? {
        return Failure(Storage);
      }
      ghost var scanned := b.data;
      for i := 0 to |live.value|
        invariant Valid() && b.data == scanned
        invariant forall j :: 0 <= j < i ==>
                  live.value[j] in LiveKeys(scanned) && accessorOf(live.value[j][|STORAGE_PREFIX|..]) != accessor
      {
        var key := live.value[i];
        assert key in live.value && key in LiveKeys(scanned);
        if accessorOf(key[|STORAGE_PREFIX|..]) == accessor {
          assert b.reliable ==> Named(old(b.data), key, accessorOf, accessor, now);
          if !allow(key[|STORAGE_PREFIX|..], b.data[key]) {
            return Failure(NotFound);
          }
          r := RevokeKey(key, now);
          if b.reliable {
            RevokedKeys(scanned, key, now);
            RevokedStats(scanned, key, now);
          }
          return;
        }
      }
      return Failure(NotFound);
    }
  }

  /** The records that have not expired, unreadable ones included. */
  ghost function Unexpired(data: Data, now: int): set<string> {
    set k | k in LiveKeys(data) && !Stale(data[k], now)
  }

  /** k holds a readable record that has not expired and goes by this accessor. */
  ghost predicate Named(data: Data, k: string, accessorOf: string -> string, accessor: string, now: int) {
    k in LiveKeys(data) && data[k].Record? && data[k].expiresAt >= now && accessorOf(k[|STORAGE_PREFIX|..]) == accessor
  }

  // ---- what each call does to healthy storage ----

  predicate Stale(v: Value, now: int) {
    v.Record? && v.expiresAt < now
  }

  predicate LiveRecord(data: Data, token: string, now: int) {
    var id := TokenId(token);
    id != "" && KeyOf(id) in data && data[KeyOf(id)].Record? && now <= data[KeyOf(id)].expiresAt
  }

  function AfterUnwrap(data: Data, token: string, now: int): (Data, Result<string, WrapError>) {
    var key := KeyOf(TokenId(token));
    if TokenId(token) == "" || key !in data then (data, Failure(NotFound))
    else if !data[key].Record? then (data, Failure(Storage))
    else if now > data[key].expiresAt then (Dropped(data, key, Expired), Failure(HasExpired))
    else (Dropped(data, key, Unwrapped), Success(data[key].payload))
  }

  function AfterLookup(data: Data, token: string, now: int): Data {
    var key := KeyOf(TokenId(token));
    if TokenId(token) != "" && key in data && Stale(data[key], now) then Dropped(data, key, Expired) else data
  }

  function AfterRevoke(data: Data, key: string, now: int): (Data, Result<(), WrapError>) {
    if key !in data then (data, Failure(NotFound))
    else if Stale(data[key], now) then (Dropped(data, key, Expired), Failure(NotFound))
    else (Dropped(data, key, Revoked), Success(()))
  }

  lemma PutKeepsStats(data: Data, id: string, rec: Value)
    ensures StoredStats(data[KeyOf(id) := rec]) == StoredStats(data)
  {
    StatsKeyApart();
  }

  lemma DeleteKeepsStats(data: Data, key: string)
    requires key in LiveKeys(data)
    ensures StoredStats(data - {key}) == StoredStats(data)
    ensures LiveKeys(data - {key}) == LiveKeys(data) - {key}
  {
    StatsKeyApart();
  }

  lemma SpentStays(data: Data, issued: map<string, string>, spent: seq<string>, id: string)
    requires Tracked(data, issued, spent) && id in issued && id !in spent && KeyOf(id) !in LiveKeys(data)
    ensures Tracked(data, issued, spent + [id])
  {
    forall k | k in LiveKeys(data)
      ensures k[|STORAGE_PREFIX|..] != id
    {
      assert k == STORAGE_PREFIX + k[|STORAGE_PREFIX|..];
    }
  }

  /** The first i listed keys were dealt with. */
  ghost predicate Scanned(was: Data, data: Data, keys: seq<string>, i: nat, live: seq<string>, now: int, reliable: bool)
  {
    && i <= |keys|
    && Distinct(keys)
    && (forall k :: k in keys <==> k in LiveKeys(was))
    && (forall k :: k in live ==> k in LiveKeys(data) && k in keys[..i] && data[k].Record? && data[k].expiresAt >= now)
    && (forall k :: k in LiveKeys(data) ==> k in LiveKeys(was) && data[k] == was[k])
    && (forall k :: k in keys[i..] ==> k in LiveKeys(data))
    && (reliable ==> forall k :: k in keys[..i] && k in was ==> Settled(was[k], k in LiveKeys(data), k in live, now))
  }

  /** A stale record is gone, and exactly the readable ones that are left are reported. */
  predicate Settled(v: Value, kept: bool, reported: bool, now: int) {
    (kept <==> !Stale(v, now)) && (reported <==> kept && v.Record?)
  }

  lemma ScanStarts(was: Data, keys: seq<string>, now: int, reliable: bool)
    requires Distinct(keys)
    requires forall k :: k in keys <==> k in was && STORAGE_PREFIX <= k
    ensures Scanned(was, was, keys, 0, [], now, reliable)
  {}

  lemma Advance(keys: seq<string>, i: nat)
    requires i < |keys| && Distinct(keys)
    ensures keys[i] !in keys[..i] && keys[i] !in keys[i + 1..]
    ensures keys[..i + 1] == keys[..i] + [keys[i]] && keys[i..] == [keys[i]] + keys[i + 1..]
  {}

  /** A key whose record is kept: it is reported when it could be read. */
  lemma ScanNext(was: Data, data: Data, keys: seq<string>, i: nat, live: seq<string>, now: int, reliable: bool)
    requires i < |keys| && Scanned(was, data, keys, i, live, now, reliable)
    ensures var key := keys[i];
            && key in LiveKeys(data) && key !in live
            && (data[key].Record? && data[key].expiresAt >= now ==>
                Scanned(was, data, keys, i + 1, live + [key], now, reliable))
            && (!reliable || !data[key].Record? ==> Scanned(was, data, keys, i + 1, live, now, reliable))
  {
    hide LiveKeys;
    Advance(keys, i);
    assert keys[i] in keys[i..];
  }

  lemma ScanDrops(was: Data, data: Data, next: Data, keys: seq<string>, i: nat, live: seq<string>, now: int,
      reliable: bool)
    requires i < |keys| && Scanned(was, data, keys, i, live, now, reliable)
    requires keys[i] in LiveKeys(data) && Stale(data[keys[i]], now)
    requires LiveKeys(next) == LiveKeys(data) - {keys[i]} || (!reliable && next == data)
    requires forall k :: k in data && k != keys[i] && k != STATS_KEY ==> k in next && next[k] == data[k]
    ensures Scanned(was, next, keys, i + 1, live, now, reliable)
  {
    StatsKeyApart();
    forall k | k in LiveKeys(next)
      ensures k in LiveKeys(data) && next[k] == data[k]
    {}
    Advance(keys, i);
    hide LiveKeys;
  }

  lemma ScanEnds(was: Data, data: Data, keys: seq<string>, live: seq<string>, now: int, reliable: bool)
    requires Scanned(was, data, keys, |keys|, live, now, reliable)
    ensures forall k :: k in live ==> k in LiveKeys(data) && data[k].Record? && data[k].expiresAt >= now
    ensures reliable ==>
              && LiveKeys(data) == Unexpired(was, now)
              && (forall k :: k in LiveKeys(data) ==> data[k] == was[k])
              && (forall k :: k in live <==> k in LiveKeys(data) && data[k].Record?)
  {
    assert keys[..|keys|] == keys;
  }

  /** Only the counter of expired capsules went up. */
  ghost predicate OnlyExpiries(before: Data, after: Data) {
    StoredStats(after) == StoredStats(before).(expired := StoredStats(after).expired)
  }

  lemma NoExpiries(data: Data)
    ensures OnlyExpiries(data, data)
  {}

  lemma DroppedStats(data: Data, key: string, c: Counter)
    requires key in LiveKeys(data)
    ensures StoredStats(Dropped(data, key, c)) == Bumped(StoredStats(data), c)
  {
    CountedKeys(data - {key}, c);
    DeleteKeepsStats(data, key);
  }

  lemma OneMoreExpiry(before: Data, data: Data, key: string)
    requires OnlyExpiries(before, data) && key in LiveKeys(data)
    ensures OnlyExpiries(before, Dropped(data, key, Expired))
  {
    DroppedStats(data, key, Expired);
  }

  lemma RevokedStats(data: Data, key: string, now: int)
    requires key in LiveKeys(data) && !Stale(data[key], now)
    ensures var was, stats := StoredStats(data), StoredStats(AfterRevoke(data, key, now).0);
            stats == was.(revoked := was.revoked + 1)
  {
    DroppedStats(data, key, Revoked);
  }

  lemma RevokedKeys(data: Data, key: string, now: int)
    requires key in LiveKeys(data) && !Stale(data[key], now)
    ensures var after := AfterRevoke(data, key, now).0;
            && LiveKeys(after) == LiveKeys(data) - {key}
            && forall k :: k in LiveKeys(after) ==> after[k] == data[k]
  {
    StatsKeyApart();
    CountedKeys(data - {key}, Revoked);
  }
}
