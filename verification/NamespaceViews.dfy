/** internal/barrier/view.go and DeleteNamespace: many namespaces in one key space. */
module NamespaceViews {
  import opened Namespaces
  import opened Sequences
  import opened Storage
  import opened Text
  import opened Wrappers

  /** What one prefix sees, under its own keys. */
  ghost function Scoped<V>(data: map<Bytes, V>, prefix: Bytes): (m: map<Bytes, V>)
    ensures forall k :: k in m <==> prefix + k in data
    ensures forall k :: k in m ==> m[k] == data[prefix + k]
  {
    var keys := set x | x in data && prefix <= x :: x[|prefix|..];
    assert forall k :: k in keys <==> prefix + k in data by {
      forall k
        ensures k in keys <==> prefix + k in data
      {
        if k in keys {
          var x :| x in data && prefix <= x && x[|prefix|..] == k;
          assert x == prefix + k;
        }
        if prefix + k in data {
          assert (prefix + k)[|prefix|..] == k;
        }
      }
    }
    map k | k in keys :: data[prefix + k]
  }

  // ---- the view ----

  class View<V> {
    const b: Store<Byte, V>
    const prefix: Bytes

    constructor (b: Store<Byte, V>, prefix: Bytes)
      ensures this.b == b && this.prefix == prefix
    {
      this.b, this.prefix := b, prefix;
    }

    ghost function Contents(): map<Bytes, V>
      reads b
    {
      Scoped(b.data, prefix)
    }

    method Get(key: Bytes) returns (r: Result<Option<V>, ()>)
      ensures r.Success? ==> r.value == if key in Contents() then Some(Contents()[key]) else None
      ensures b.reliable ==> r.Success?
    {
      r := b.Get(prefix + key);
    }

    method Put(key: Bytes, value: V) returns (ok: bool)
      modifies b
      ensures b.reliable ==> ok
      ensures b.data == if ok then old(b.data)[prefix + key := value] else old(b.data)
      ensures Contents() == if ok then old(Contents())[key := value] else old(Contents())
    {
      ok := b.Put(prefix + key, value);
      if ok {
        ScopedPut(old(b.data), prefix, prefix, key, value);
      }
    }

    method Delete(key: Bytes) returns (ok: bool)
      modifies b
      ensures b.reliable ==> ok
      ensures b.data == if ok then old(b.data) - {prefix + key} else old(b.data)
      ensures Contents() == if ok then old(Contents()) - {key} else old(Contents())
    {
      ok := b.Delete(prefix + key);
      if ok {
        ScopedDelete(old(b.data), prefix, prefix, key);
      }
    }

    /** Keys come back relative to the view. */
    method List(within: Bytes) returns (r: Result<seq<Bytes>, ()>)
      ensures b.reliable ==> r.Success?
      ensures r.Success? ==> forall k :: k in r.value <==> k in Contents() && within <= k
      ensures r.Success? ==> Distinct(r.value)
    {
      var listed := b.List(prefix + within);
      if listed.Failure? {
        return Failure(());
      }
      var keys := listed.value;
      var out: seq<Bytes> := [];
      for i := 0 to |keys|
        invariant forall k :: k in out <==> prefix + k in keys[..i]
        invariant |out| == i && forall j :: 0 <= j < i ==> prefix + out[j] == keys[j]
      {
        assert keys[i] in keys && prefix <= prefix + within <= keys[i];
        assert keys[i] == prefix + keys[i][|prefix|..];
        assert keys[..i + 1] == keys[..i] + [keys[i]];
        assert forall k :: prefix + k == keys[i] ==> k == keys[i][|prefix|..];
        out := out + [keys[i][|prefix|..]];
      }
      assert keys[..|keys|] == keys;
      forall k
        ensures prefix + within <= prefix + k <==> within <= k
      {
        PrefixCancels(prefix, within, k);
      }
      return Success(out);
    }
  }

  lemma PrefixCancels(prefix: Bytes, a: Bytes, b: Bytes)
    ensures prefix + a <= prefix + b <==> a <= b
  {
    if prefix + a <= prefix + b {
      assert a == (prefix + a)[|prefix|..] && b == (prefix + b)[|prefix|..];
    }
  }

  /** A put through one prefix, as another prefix sees it. */
  lemma ScopedPut<V>(data: map<Bytes, V>, prefix: Bytes, other: Bytes, key: Bytes, value: V)
    ensures other == prefix ==> Scoped(data[prefix + key := value], other) == Scoped(data, other)[key := value]
    ensures !(other <= prefix + key) ==> Scoped(data[prefix + key := value], other) == Scoped(data, other)
  {
    hide Scoped;
    if other == prefix {
      assert forall k :: prefix + k == prefix + key ==> k == (prefix + k)[|prefix|..] == key;
    }
    if !(other <= prefix + key) {
      assert forall k :: other <= other + k;
    }
  }

  lemma ScopedDelete<V>(data: map<Bytes, V>, prefix: Bytes, other: Bytes, key: Bytes)
    ensures other == prefix ==> Scoped(data - {prefix + key}, other) == Scoped(data, other) - {key}
    ensures !(other <= prefix + key) ==> Scoped(data - {prefix + key}, other) == Scoped(data, other)
  {
    hide Scoped;
    if other == prefix {
      assert forall k :: prefix + k == prefix + key ==> k == (prefix + k)[|prefix|..] == key;
    }
    if !(other <= prefix + key) {
      assert forall k :: other <= other + k;
    }
  }

  // ---- any interleaving of calls through the views ----

  datatype Op<V> = GetOp(key: Bytes) | PutOp(key: Bytes, value: V) | DeleteOp(key: Bytes) | ListOp(within: Bytes)
  datatype Call<V> = Call(ns: Bytes, op: Op<V>)
  datatype Reply<V> = Found(value: Option<V>) | Keys(keys: set<Bytes>) | Done | Unavailable

  ghost function After<V>(own: map<Bytes, V>, op: Op<V>): map<Bytes, V> {
    match op
    case PutOp(key, value) => own[key := value]
    case DeleteOp(key) => own - {key}
    case _ => own
  }

  /** The same calls on a store of one's own. */
  ghost function Replay<V>(own: map<Bytes, V>, ops: seq<Op<V>>): map<Bytes, V> {
    if ops == [] then own else After(Replay(own, ops[..|ops| - 1]), ops[|ops| - 1])
  }

  ghost function Answer<V>(own: map<Bytes, V>, op: Op<V>): Reply<V> {
    match op
    case GetOp(key) => Found(if key in own then Some(own[key]) else None)
    case ListOp(within) => Keys(set k | k in own && within <= k)
    case _ => Done
  }

  /** The operations of one namespace that went through. */
  ghost function OpsOf<V>(calls: seq<Call<V>>, replies: seq<Reply<V>>, ns: Bytes): seq<Op<V>>
    requires |replies| == |calls|
  {
    if calls == [] then []
    else
      var n := |calls| - 1;
      OpsOf(calls[..n], replies[..n], ns) +
      if calls[n].ns == ns && replies[n] != Unavailable then [calls[n].op] else []
  }

  /** The call did to its own namespace what it says, if it went through, and nothing to any other. */
  ghost predicate Moved<V>(before: map<Bytes, V>, after: map<Bytes, V>, call: Call<V>, reply: Reply<V>) {
    forall n :: ValidName(n) ==>
      Scoped(after, StoragePrefix(n)) ==
        if n == call.ns && reply != Unavailable then After(Scoped(before, StoragePrefix(n)), call.op)
        else Scoped(before, StoragePrefix(n))
  }

  /** Every namespace holds what its own calls alone would have left in a store of its own. */
  ghost predicate OwnStores<V>(start: map<Bytes, V>, data: map<Bytes, V>, calls: seq<Call<V>>, replies: seq<Reply<V>>)
    requires |replies| == |calls|
  {
    forall n :: ValidName(n) ==>
      Scoped(data, StoragePrefix(n)) == Replay(Scoped(start, StoragePrefix(n)), OpsOf(calls, replies, n))
  }

  /** The answer a call gets when only its own namespace's earlier calls count. */
  ghost function OwnAnswer<V>(start: map<Bytes, V>, calls: seq<Call<V>>, replies: seq<Reply<V>>, i: nat): Reply<V>
    requires i < |calls| && i <= |replies|
  {
    Answer(Replay(Scoped(start, StoragePrefix(calls[i].ns)), OpsOf(calls[..i], replies[..i], calls[i].ns)), calls[i].op)
  }

  method Perform<V>(b: Store<Byte, V>, call: Call<V>) returns (reply: Reply<V>)
    requires ValidName(call.ns)
    modifies b
    ensures reply == Answer(Scoped(old(b.data), StoragePrefix(call.ns)), call.op)
              || (reply == Unavailable && !b.reliable)
    ensures Moved(old(b.data), b.data, call, reply)
  {
    hide Scoped, StoragePrefix, ValidName;
    var view := new View(b, StoragePrefix(call.ns));
    match call.op {
      case GetOp(key) =>
        var r := view.Get(key);
        reply := if r.Success? then Found(r.value) else Unavailable;
      case PutOp(key, value) =>
        var ok := view.Put(key, value);
        OthersKeep(old(b.data), call.ns, key, value);
        reply := if ok then Done else Unavailable;
      case DeleteOp(key) =>
        var ok := view.Delete(key);
        OthersKeepDeleted(old(b.data), call.ns, key);
        reply := if ok then Done else Unavailable;
      case ListOp(within) =>
        var r := view.List(within);
        reply := if r.Success? then Keys(set k | k in r.value) else Unavailable;
    }
  }

  lemma OthersKeep<V>(data: map<Bytes, V>, ns: Bytes, key: Bytes, value: V)
    requires ValidName(ns)
    ensures forall n :: ValidName(n) && n != ns ==>
              Scoped(data[StoragePrefix(ns) + key := value], StoragePrefix(n)) == Scoped(data, StoragePrefix(n))
  {
    hide Scoped, StoragePrefix, ValidName;
    forall n | ValidName(n) && n != ns
      ensures Scoped(data[StoragePrefix(ns) + key := value], StoragePrefix(n)) == Scoped(data, StoragePrefix(n))
    {
      PrefixesDisjoint(n, ns, key);
      ScopedPut(data, StoragePrefix(ns), StoragePrefix(n), key, value);
    }
  }

  lemma OthersKeepDeleted<V>(data: map<Bytes, V>, ns: Bytes, key: Bytes)
    requires ValidName(ns)
    ensures forall n :: ValidName(n) && n != ns ==>
              Scoped(data - {StoragePrefix(ns) + key}, StoragePrefix(n)) == Scoped(data, StoragePrefix(n))
  {
    hide Scoped, StoragePrefix, ValidName;
    forall n | ValidName(n) && n != ns
      ensures Scoped(data - {StoragePrefix(ns) + key}, StoragePrefix(n)) == Scoped(data, StoragePrefix(n))
    {
      PrefixesDisjoint(n, ns, key);
      ScopedDelete(data, StoragePrefix(ns), StoragePrefix(n), key);
    }
  }

  /** Whatever the other namespaces do, each one answers as if it had a store to itself; calls that fail count for
      nothing, and there are none if the backend never fails. */
  method Interleave<V>(b: Store<Byte, V>, calls: seq<Call<V>>) returns (replies: seq<Reply<V>>)
    requires forall i :: 0 <= i < |calls| ==> ValidName(calls[i].ns)
    modifies b
    ensures |replies| == |calls|
    ensures forall i :: 0 <= i < |calls| ==>
              replies[i] == OwnAnswer(old(b.data), calls, replies, i) || (replies[i] == Unavailable && !b.reliable)
    ensures OwnStores(old(b.data), b.data, calls, replies)
  {
    hide ValidName, OwnStores, OwnAnswer, Moved, Answer;
    replies := [];
    StartAlone(b.data, calls);
    for i := 0 to |calls|
      invariant |replies| == i
      invariant forall j :: 0 <= j < i ==>
                  replies[j] == OwnAnswer(old(b.data), calls, replies, j) || (replies[j] == Unavailable && !b.reliable)
      invariant OwnStores(old(b.data), b.data, calls[..i], replies)
    {
      ghost var before := b.data;
      AnsweredAlone(old(b.data), before, calls, replies, i);
      var reply := Perform(b, calls[i]);
      StillAlone(old(b.data), before, b.data, calls, replies, reply);
      forall j | 0 <= j <= i
        ensures OwnAnswer(old(b.data), calls, replies + [reply], j) == OwnAnswer(old(b.data), calls, replies, j)
      {
        SameAnswer(old(b.data), calls, replies, reply, j);
      }
      replies := replies + [reply];
    }
    assert calls[..|calls|] == calls;
  }

  lemma SameAnswer<V>(start: map<Bytes, V>, calls: seq<Call<V>>, replies: seq<Reply<V>>, reply: Reply<V>, j: nat)
    requires j < |calls| && j <= |replies|
    ensures OwnAnswer(start, calls, replies + [reply], j) == OwnAnswer(start, calls, replies, j)
  {
    hide Scoped, StoragePrefix, Replay, OpsOf, Answer;
    assert (replies + [reply])[..j] == replies[..j];
  }

  lemma StartAlone<V>(data: map<Bytes, V>, calls: seq<Call<V>>)
    ensures OwnStores(data, data, calls[..0], [])
  {
    hide Scoped, StoragePrefix, ValidName;
  }

  lemma AnsweredAlone<V>(start: map<Bytes, V>, data: map<Bytes, V>, calls: seq<Call<V>>, replies: seq<Reply<V>>, i: nat)
    requires i < |calls| && |replies| == i && ValidName(calls[i].ns) && OwnStores(start, data, calls[..i], replies)
    ensures Answer(Scoped(data, StoragePrefix(calls[i].ns)), calls[i].op) == OwnAnswer(start, calls, replies, i)
  {
    hide Scoped, StoragePrefix, ValidName, Replay, OpsOf, Answer;
    assert replies[..i] == replies;
  }

  lemma StillAlone<V>(start: map<Bytes, V>, before: map<Bytes, V>, after: map<Bytes, V>, calls: seq<Call<V>>,
      replies: seq<Reply<V>>, reply: Reply<V>)
    requires var i := |replies|;
             i < |calls| && OwnStores(start, before, calls[..i], replies) && Moved(before, after, calls[i], reply)
    ensures OwnStores(start, after, calls[..|replies| + 1], replies + [reply])
  {
    hide Scoped, StoragePrefix, ValidName, Replay, OpsOf, After;
    forall n | ValidName(n)
      ensures Scoped(after, StoragePrefix(n)) ==
                Replay(Scoped(start, StoragePrefix(n)), OpsOf(calls[..|replies| + 1], replies + [reply], n))
    {
      ReplayMore(Scoped(start, StoragePrefix(n)), calls, replies, reply, n);
    }
  }

  lemma {:induction false} ReplayMore<V>(own: map<Bytes, V>, calls: seq<Call<V>>, replies: seq<Reply<V>>,
      reply: Reply<V>, n: Bytes)
    requires |replies| < |calls|
    ensures var i := |replies|;
            var before := Replay(own, OpsOf(calls[..i], replies, n));
            Replay(own, OpsOf(calls[..i + 1], replies + [reply], n)) ==
              if calls[i].ns == n && reply != Unavailable then After(before, calls[i].op) else before
  {
    hide After, OpsOf;
    var i := |replies|;
    OpsMore(calls, replies, reply, n);
    ReplaySnoc(own, OpsOf(calls[..i], replies, n), calls[i].op);
  }

  lemma {:induction false} OpsMore<V>(calls: seq<Call<V>>, replies: seq<Reply<V>>, reply: Reply<V>, n: Bytes)
    requires |replies| < |calls|
    ensures var i := |replies|;
            var ops := OpsOf(calls[..i], replies, n);
            OpsOf(calls[..i + 1], replies + [reply], n) ==
              if calls[i].ns == n && reply != Unavailable then ops + [calls[i].op] else ops
  {
    var i := |replies|;
    assert calls[..i + 1][..i] == calls[..i] && (replies + [reply])[..i] == replies;
  }

  lemma {:induction false} ReplaySnoc<V>(own: map<Bytes, V>, ops: seq<Op<V>>, op: Op<V>)
    ensures Replay(own, ops + [op]) == After(Replay(own, ops), op)
  {
    hide After;
    assert (ops + [op])[..|ops|] == ops;
  }

  // ---- deleting a namespace ----

  /** name is not validated here.  False when a storage call failed; true once everything under its prefix is gone. */
  method DeleteNamespace<V>(b: Store<Byte, V>, name: Bytes) returns (r: Result<(), ()>)
    modifies b
    ensures name in {[], Root()} ==> r.Failure? && b.data == old(b.data)
    ensures name !in {[], Root()} && b.reliable ==> r.Success?
    ensures r.Success? ==>
              b.data == map k | k in old(b.data) && !(StoragePrefix(name) <= k) && k != RecordPrefix() + name ::
                  old(b.data)[k]
    ensures r.Success? ==> Scoped(b.data, StoragePrefix(name)) == map[]
    ensures forall n :: ValidName(n) && n != name && !Overlaps(name, n) ==>
              Scoped(b.data, StoragePrefix(n)) == Scoped(old(b.data), StoragePrefix(n))
  {
    hide Scoped, StoragePrefix, ValidName, Overlaps, Root;
    if name == [] || name == Root() {
      return Failure(());
    }
    ghost var was := b.data;
    var prefix := StoragePrefix(name);
    var ok := b.Delete(RecordPrefix() + name);
    if !ok {
      return Failure(());
    }
    Survivors(was, b.data, name);
    var keys := b.List(prefix);
    if keys.Failure? {
      return Failure(());
    }
    var ks := keys.value;
    for i := 0 to |ks|
      invariant b.data == map k | k in was && k !in ks[..i] && k != RecordPrefix() + name :: was[k]
    {
      ok := b.Delete(ks[i]);
      if !ok {
        Survivors(was, b.data, name);
        return Failure(());
      }
      assert ks[..i + 1] == ks[..i] + [ks[i]];
    }
    assert ks[..|ks|] == ks;
    Survivors(was, b.data, name);
    return Success(());
  }

  lemma Survivors<V>(was: map<Bytes, V>, data: map<Bytes, V>, name: Bytes)
    requires name !in {[], Root()}
    requires forall k :: k in data ==> k in was && data[k] == was[k]
    requires forall k :: k in was && k !in data ==> StoragePrefix(name) <= k || k == RecordPrefix() + name
    ensures forall n :: ValidName(n) && n != name && !Overlaps(name, n) ==>
              Scoped(data, StoragePrefix(n)) == Scoped(was, StoragePrefix(n))
    ensures (forall k :: k in data ==> !(StoragePrefix(name) <= k)) ==> Scoped(data, StoragePrefix(name)) == map[]
  {
    forall n | ValidName(n) && n != name && !Overlaps(name, n)
      ensures Scoped(data, StoragePrefix(n)) == Scoped(was, StoragePrefix(n))
    {
      ValidNamesArePlain(n);
      var prefix := StoragePrefix(n);
      forall k | prefix + k in was
        ensures prefix + k in data
      {
        assert (prefix + k)[0] == 110 && (RecordPrefix() + name)[0] == 115;
      }
    }
  }
}
