/** internal/physical: a dumb key/value store.  Calls may fail unless the store is `reliable`; a
    failed call changes nothing.  The ghost `trace` records the state after every successful
    write, that is, every state a crash can leave behind. */
module Storage {
  import opened Sequences
  import opened Wrappers

  /** Keys are strings over the characters C. */
  class Store<C(==), V> {
    var data: map<seq<C>, V>
    ghost var trace: seq<map<seq<C>, V>>
    const reliable: bool

    constructor (reliable: bool)
      ensures data == map[] && trace == [] && this.reliable == reliable
    {
      data, trace := map[], [];
      this.reliable := reliable;
    }

    ghost function Lookup(key: seq<C>): Option<V>
      reads this
    {
      if key in data then Some(data[key]) else None
    }

    /** Success(None) when the key is absent. */
    method Get(key: seq<C>) returns (r: Result<Option<V>, ()>)
      ensures r.Success? ==> r.value == Lookup(key)
      ensures reliable ==> r.Success?
    {
      var up: bool := *;
      if !reliable && !up {
        return Failure(());
      }
      return Success(if key in data then Some(data[key]) else None);
    }

    method Put(key: seq<C>, value: V) returns (ok: bool)
      modifies this
      ensures reliable ==> ok
      ensures ok ==> data == old(data)[key := value] && trace == old(trace) + [data]
      ensures !ok ==> data == old(data) && trace == old(trace)
    {
      var up: bool := *;
      ok := reliable || up;
      if ok {
        data := data[key := value];
        trace := trace + [data];
      }
    }

    method Delete(key: seq<C>) returns (ok: bool)
      modifies this
      ensures reliable ==> ok
      ensures ok ==> data == old(data) - {key} && trace == old(trace) + [data]
      ensures !ok ==> data == old(data) && trace == old(trace)
    {
      var up: bool := *;
      ok := reliable || up;
      if ok {
        data := data - {key};
        trace := trace + [data];
      }
    }

    /** The keys that start with prefix, each once, in no particular order. */
    method List(prefix: seq<C>) returns (r: Result<seq<seq<C>>, ()>)
      ensures reliable ==> r.Success?
      ensures r.Success? ==> forall k :: k in r.value <==> k in data && prefix <= k
      ensures r.Success? ==> Distinct(r.value)
    {
      var up: bool := *;
      if !reliable && !up {
        return Failure(());
      }
      var rest := data.Keys;
      var out: seq<seq<C>> := [];
      while rest != {}
        invariant rest <= data.Keys
        invariant forall k :: k in out <==> k in data && k !in rest && prefix <= k
        invariant Distinct(out)
        decreases |rest|
      {
        var k :| k in rest;
        rest := rest - {k};
        if prefix <= k {
          assert forall i :: 0 <= i < |out| ==> out[i] in out;
          out := out + [k];
        }
      }
      return Success(out);
    }
  }
}
