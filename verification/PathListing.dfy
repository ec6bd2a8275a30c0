/** internal/barrier/paths.go: listKeys over encrypted storage keys. */
module PathListing {
  import opened Wrappers
  import opened Text
  import opened Crypto
  import opened PathCodecs
  import opened BarrierSpec
  import opened Sequences
  import opened Storage

  predicate Decodable(t: Toolkit, c: PathCodec, stored: seq<Bytes>) {
    forall i :: 0 <= i < |stored| ==> Decode(t, c, stored[i]).Some?
  }

  /** The decoded keys that start with the prefix, in the order they were listed. */
  function Matching(t: Toolkit, c: PathCodec, stored: seq<Bytes>, prefix: Bytes): seq<Bytes> {
    if stored == [] then []
    else
      var rest := Matching(t, c, stored[..|stored| - 1], prefix);
      match Decode(t, c, stored[|stored| - 1])
      case Some(k) => if prefix <= k then rest + [k] else rest
      case None => rest
  }

  method DecodeMatching(t: Toolkit, c: PathCodec, stored: seq<Bytes>, prefix: Bytes) returns (out: Option<seq<Bytes>>)
    ensures out == if Decodable(t, c, stored) then Some(Matching(t, c, stored, prefix)) else None
  {
    hide Decode;
    var found: seq<Bytes> := [];
    for i := 0 to |stored|
      invariant found == Matching(t, c, stored[..i], prefix)
      invariant forall j :: 0 <= j < i ==> Decode(t, c, stored[j]).Some?
    {
      var k := DecodeKey(t, c, stored[i]);
      if k.None? {
        return None;
      }
      assert stored[..i + 1][..i] == stored[..i];
      if prefix <= k.value {
        found := found + [k.value];
      }
    }
    assert stored[..|stored|] == stored;
    return Some(found);
  }

  lemma {:induction false} MatchingMembers(t: Toolkit, c: PathCodec, stored: seq<Bytes>, prefix: Bytes, k: Bytes)
    ensures k in Matching(t, c, stored, prefix) <==>
              prefix <= k && exists i :: 0 <= i < |stored| && Decode(t, c, stored[i]) == Some(k)
  {
    hide Decode;
    if stored != [] {
      var n := |stored| - 1;
      var init := stored[..n];
      MatchingMembers(t, c, init, prefix, k);
      assert forall i :: 0 <= i < n ==> init[i] == stored[i];
    }
  }

  /** s is the stored form of some key. */
  ghost predicate Encoded(t: Toolkit, c: PathCodec, s: Bytes) {
    exists k :: Encode(t, c, k) == s
  }

  lemma EncodedDecodes(t: Toolkit, c: PathCodec, s: Bytes)
    requires Sound(t, c) && Encoded(t, c, s)
    ensures Decode(t, c, s).Some? && Encode(t, c, Decode(t, c, s).value) == s
  {
    hide Encode, Decode;
    var k :| Encode(t, c, k) == s;
    DecodeEncode(t, c, k);
  }

  lemma {:induction false} MatchingDistinct(t: Toolkit, c: PathCodec, stored: seq<Bytes>, prefix: Bytes)
    requires Sound(t, c) && Distinct(stored) && forall s :: s in stored ==> Encoded(t, c, s)
    ensures Distinct(Matching(t, c, stored, prefix))
  {
    hide Decode, Encode, Encoded;
    if stored != [] {
      var n := |stored| - 1;
      var init, last := stored[..n], stored[n];
      MatchingDistinct(t, c, init, prefix);
      EncodedDecodes(t, c, last);
      var key := Decode(t, c, last).value;
      MatchingMembers(t, c, init, prefix, key);
      forall i | 0 <= i < n
        ensures Decode(t, c, init[i]) != Some(key)
      {
        assert init[i] == stored[i] && stored[i] in stored;
        EncodedDecodes(t, c, stored[i]);
      }
    }
  }

  lemma {:induction false} ListedExactly(t: Toolkit, c: PathCodec, data: map<Bytes, Bytes>, stored: seq<Bytes>,
      prefix: Bytes)
    requires Sound(t, c) && forall s :: s in stored ==> Encoded(t, c, s)
    requires forall s :: s in stored <==> s in data && ScanPrefix(t, c, prefix) <= s
    requires Distinct(stored)
    ensures Decodable(t, c, stored) && Distinct(Matching(t, c, stored, prefix))
    ensures forall k :: k in Matching(t, c, stored, prefix) <==> prefix <= k && Encode(t, c, k) in data
  {
    hide Decode, Encode, ScanPrefix, Matching, Encoded, Distinct;
    forall i | 0 <= i < |stored|
      ensures Decode(t, c, stored[i]).Some?
    {
      assert stored[i] in stored;
      EncodedDecodes(t, c, stored[i]);
    }
    MatchingDistinct(t, c, stored, prefix);
    forall k
      ensures k in Matching(t, c, stored, prefix) <==> prefix <= k && Encode(t, c, k) in data
    {
      MatchingMembers(t, c, stored, prefix, k);
      DecodeEncode(t, c, k);
      if prefix <= k && Encode(t, c, k) in data {
        ScanMissesNothing(t, c, prefix, k);
        assert Encode(t, c, k) in stored;
      }
      if k in Matching(t, c, stored, prefix) {
        var i :| 0 <= i < |stored| && Decode(t, c, stored[i]) == Some(k);
        assert stored[i] in stored;
        EncodedDecodes(t, c, stored[i]);
      }
    }
  }

  lemma {:induction false} SortKeeps(s: seq<Bytes>)
    ensures forall k :: k in Sort(s) <==> k in s
    ensures Distinct(s) ==> Distinct(Sort(s))
  {
    hide Sort, Sorted;
    var r := Sort(s);
    assert forall k :: k in r <==> k in multiset(r);
    assert forall k :: k in s <==> k in multiset(s);
    if Distinct(s) {
      forall i, j | 0 <= i < j < |r|
        ensures r[i] != r[j]
      {
        if r[i] == r[j] {
          TwiceCounted(r, i, j);
          OnceCounted(s, r[i]);
        }
      }
    }
  }

  lemma TwiceCounted(r: seq<Bytes>, i: nat, j: nat)
    requires i < j < |r| && r[i] == r[j]
    ensures multiset(r)[r[i]] >= 2
  {
    assert r == r[..j] + [r[j]] + r[j + 1..];
    assert r[i] in r[..j];
  }

  lemma {:induction false} OnceCounted(s: seq<Bytes>, x: Bytes)
    requires Distinct(s)
    ensures multiset(s)[x] <= 1
  {
    if s != [] {
      assert s == [s[0]] + s[1..];
      OnceCounted(s[1..], x);
    }
  }

  /** When every stored key that is scanned is the stored form of some key, the result is exactly the sorted list of
      keys that start with the prefix.  One that cannot be decoded makes the listing fail. */
  method ListEncrypted(t: Toolkit, c: PathCodec, backend: Store<Byte, Bytes>, prefix: Bytes)
    returns (r: Result<seq<Bytes>, BarrierError>)
    ensures r.Success? ==> Sorted(r.value)
    ensures backend.reliable ==>
              (r.Success? <==>
                 forall s :: s in backend.data && ScanPrefix(t, c, prefix) <= s ==> Decode(t, c, s).Some?)
    ensures Sound(t, c) && (forall s :: s in backend.data && ScanPrefix(t, c, prefix) <= s ==> Encoded(t, c, s)) ==>
              && (backend.reliable ==> r.Success?)
              && (r.Success? ==> Distinct(r.value))
              && (r.Success? ==> forall k :: k in r.value <==> prefix <= k && Encode(t, c, k) in backend.data)
  {
    hide ScanPrefix, Encode, Decode, Matching, Sort, Sorted, Distinct, Encoded;
    var stored := backend.List(ScanPrefix(t, c, prefix));
    if stored.Failure? {
      return Failure(StorageError);
    }
    if Sound(t, c) && forall s :: s in backend.data && ScanPrefix(t, c, prefix) <= s ==> Encoded(t, c, s) {
      ListedExactly(t, c, backend.data, stored.value, prefix);
    }
    var out := DecodeMatching(t, c, stored.value, prefix);
    assert forall i :: 0 <= i < |stored.value| ==> stored.value[i] in stored.value;
    if out.None? {
      return Failure(Undecryptable);
    }
    SortKeeps(out.value);
    return Success(Sort(out.value));
  }
}
