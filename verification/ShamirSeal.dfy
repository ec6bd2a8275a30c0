/** internal/seal/shamir.go: operators submit shards one at a time until the root key comes out. */
module ShamirUnseal {
  import opened Wrappers
  import opened Lagrange
  import opened Sequences
  import opened Shamir

  datatype SealError = AlreadyUnsealed | BadEncoding | PayloadTooShort | DuplicateShard
                     | CombineFailed(cause: ShamirError)

  datatype Outcome = Waiting | Unsealed(key: seq<bv8>) | Rejected(error: SealError)

  /** The buffer and flag of the seal. */
  datatype SealState = SealState(received: seq<Share>, done: bool)

  const FRESH := SealState([], false)

  /** base64url without padding, section 5 of RFC 4648, kept abstract. */
  datatype Base64 = Base64(encode: Share -> string, decode: string -> Option<Share>)

  ghost predicate RoundTrips(c: Base64) {
    forall raw :: c.decode(c.encode(raw)) == Some(raw)
  }

  /** Shares in the buffer always have a coordinate. */
  ghost predicate Buffered(st: SealState) {
    forall i :: 0 <= i < |st.received| ==> |st.received[i]| >= 2
  }

  predicate Holds(received: seq<Share>, x: bv8)
    requires forall i :: 0 <= i < |received| ==> |received[i]| >= 2
  {
    exists i :: 0 <= i < |received| && received[i][0] == x
  }

  /** One submission: the state afterwards and the answer to the operator. */
  ghost function Accept(st: SealState, k: nat, raw: Option<Share>): (r: (SealState, Outcome))
    requires Buffered(st)
    ensures Buffered(r.0)
  {
    if st.done then (st, Rejected(AlreadyUnsealed))
    else if raw.None? then (st, Rejected(BadEncoding))
    else if |raw.value| < 2 then (st, Rejected(PayloadTooShort))
    else if Holds(st.received, raw.value[0]) then (st, Rejected(DuplicateShard))
    else
      var now := st.received + [raw.value];
      if |now| < k then (SealState(now, false), Waiting)
      else match Combined(now[..k])
        case Failure(e) => (SealState(now, false), Rejected(CombineFailed(e)))
        case Success(key) => (SealState([], true), Unsealed(key))
  }

  class ShamirSeal {
    const n: nat
    const k: nat
    const codec: Base64
    var received: seq<Share>
    var done: bool

    constructor (n: nat, k: nat, codec: Base64)
      requires 2 <= k <= n <= 255
      ensures State() == FRESH && this.k == k && this.codec == codec
    {
      this.n, this.k, this.codec := n, k, codec;
      received, done := [], false;
    }

    ghost function State(): SealState
      reads this
    {
      SealState(received, done)
    }

    method AcceptShard(t: Tables, share: string) returns (o: Outcome)
      requires t.Valid() && Buffered(State())
      modifies this
      ensures Buffered(State())
      ensures (State(), o) == Accept(old(State()), k, codec.decode(share))
    {
      hide Combined, Tables.Valid;
      if done {
        return Rejected(AlreadyUnsealed);
      }
      var raw := codec.decode(share);
      if raw.None? {
        return Rejected(BadEncoding);
      }
      if |raw.value| < 2 {
        return Rejected(PayloadTooShort);
      }
      for i := 0 to |received|
        invariant received == old(received) && done == old(done)
        invariant forall j :: 0 <= j < i ==> received[j][0] != raw.value[0]
      {
        if received[i][0] == raw.value[0] {
          return Rejected(DuplicateShard);
        }
      }
      received := received + [raw.value];
      if |received| < k {
        return Waiting;
      }
      var key := Combine(t, received[..k]);
      if key.Failure? {
        return Rejected(CombineFailed(key.error));
      }
      received, done := [], true;
      return Unsealed(key.value);
    }

    method Reset()
      modifies this
      ensures State() == FRESH
    {
      received, done := [], false;
    }
  }

  // ---- whole unseal runs ----

  /** The keys handed out while the submissions are processed in order. */
  ghost function KeysReturned(st: SealState, k: nat, subs: seq<Option<Share>>): seq<seq<bv8>>
    requires Buffered(st)
    decreases |subs|
  {
    if subs == [] then []
    else
      var (next, o) := Accept(st, k, subs[0]);
      (if o.Unsealed? then [o.key] else []) + KeysReturned(next, k, subs[1..])
  }

  predicate Usable(sub: Option<Share>) {
    sub.Some? && |sub.value| >= 2
  }

  /** Coordinates of the usable submissions. */
  ghost function Submitted(subs: seq<Option<Share>>): set<bv8> {
    if subs == [] then {}
    else (if Usable(subs[0]) then {subs[0].value[0]} else {}) + Submitted(subs[1..])
  }

  /** Every usable submission is one of the shares handed out at initialisation. */
  ghost predicate OnlyGenuine(shares: seq<Share>, subs: seq<Option<Share>>) {
    forall i :: 0 <= i < |subs| && Usable(subs[i]) ==> subs[i].value in shares
  }

  ghost predicate GenuineSplit(secret: seq<bv8>, drawn: seq<seq<bv8>>, n: nat, k: nat) {
    && |secret| > 0 && 1 <= k <= n <= 255
    && |drawn| == |secret| && forall b :: 0 <= b < |drawn| ==> |drawn[b]| == k - 1
  }

  ghost function CoordinateSet(received: seq<Share>): set<bv8>
    requires forall i :: 0 <= i < |received| ==> |received[i]| >= 2
  {
    if received == [] then {}
    else CoordinateSet(received[..|received| - 1]) + {received[|received| - 1][0]}
  }

  lemma {:induction false} CoordinateSetHolds(received: seq<Share>, x: bv8)
    requires forall i :: 0 <= i < |received| ==> |received[i]| >= 2
    ensures x in CoordinateSet(received) <==> Holds(received, x)
  {
    if received != [] {
      var init := received[..|received| - 1];
      CoordinateSetHolds(init, x);
      if Holds(received, x) && x != received[|received| - 1][0] {
        var i :| 0 <= i < |received| && received[i][0] == x;
        assert init[i] == received[i];
      }
    }
  }

  /** Distinct genuine shares are a choice of distinct share numbers. */
  lemma {:induction false} FindPicks(shares: seq<Share>, received: seq<Share>) returns (picks: seq<nat>)
    requires forall i :: 0 <= i < |received| ==> received[i] in shares && |received[i]| >= 2
    requires Distinct(Coordinates(received))
    ensures DistinctPicks(picks, |shares|) && |picks| == |received| && Picked(shares, picks) == received
  {
    picks := [];
    for i := 0 to |received|
      invariant |picks| == i
      invariant forall j :: 0 <= j < i ==> picks[j] < |shares| && shares[picks[j]] == received[j]
    {
      var p: nat :| p < |shares| && shares[p] == received[i];
      picks := picks + [p];
    }
    var xs := Coordinates(received);
    forall i, j | 0 <= i < j < |picks|
      ensures picks[i] != picks[j]
    {
      assert xs[i] != xs[j];
    }
  }

  /** Any k of these shares with distinct coordinates combine to the secret. */
  ghost predicate ThresholdOf(shares: seq<Share>, k: nat, secret: seq<bv8>) {
    forall received :: |received| == k && GenuineBuffer(shares, received) ==> Combined(received) == Success(secret)
  }

  ghost predicate GenuineBuffer(shares: seq<Share>, received: seq<Share>) {
    && (forall i :: 0 <= i < |received| ==> received[i] in shares && |received[i]| >= 2)
    && Distinct(Coordinates(received))
  }

  lemma SplitSharesHaveThreshold(secret: seq<bv8>, drawn: seq<seq<bv8>>, n: nat, k: nat)
    requires GenuineSplit(secret, drawn, n, k)
    ensures ThresholdOf(SharesOf(secret, drawn, n), k, secret)
  {
    hide Combined, ShareAt, Distinct;
    forall received | |received| == k && GenuineBuffer(SharesOf(secret, drawn, n), received)
      ensures Combined(received) == Success(secret)
    {
      var picks := FindPicks(SharesOf(secret, drawn, n), received);
      AnyThresholdSharesCombine(secret, drawn, n, k, picks);
    }
  }

  lemma {:induction false} CoordinateCount(received: seq<Share>)
    requires forall i :: 0 <= i < |received| ==> |received[i]| >= 2
    requires Distinct(Coordinates(received))
    ensures |CoordinateSet(received)| == |received|
  {
    if received != [] {
      var n, xs := |received| - 1, Coordinates(received);
      var init := received[..n];
      assert Coordinates(init) == xs[..n];
      CoordinateCount(init);
      CoordinateSetHolds(init, xs[n]);
      assert forall i :: 0 <= i < n ==> xs[i] == init[i][0];
    }
  }

  lemma {:induction false} NothingAfterDone(st: SealState, k: nat, subs: seq<Option<Share>>)
    requires Buffered(st) && st.done
    ensures KeysReturned(st, k, subs) == []
  {
    hide Combined;
    if subs != [] {
      NothingAfterDone(st, k, subs[1..]);
    }
  }

  ghost predicate Collecting(st: SealState, shares: seq<Share>, k: nat) {
    !st.done && |st.received| < k && GenuineBuffer(shares, st.received)
  }

  /** One accepted share keeps the buffer a set of distinct genuine shares. */
  lemma BufferGrows(st: SealState, shares: seq<Share>, k: nat, share: Share)
    requires Collecting(st, shares, k) && share in shares && |share| >= 2 && !Holds(st.received, share[0])
    ensures var now := st.received + [share];
            && GenuineBuffer(shares, now)
            && CoordinateSet(now) == CoordinateSet(st.received) + {share[0]}
            && |CoordinateSet(now)| == |now|
  {
    var now := st.received + [share];
    var xs, ys := Coordinates(st.received), Coordinates(now);
    assert ys == xs + [share[0]];
    assert forall i :: 0 <= i < |xs| ==> xs[i] != share[0] by {
      assert forall i :: 0 <= i < |xs| ==> xs[i] == st.received[i][0];
    }
    assert now[..|now| - 1] == st.received;
    CoordinateCount(now);
  }

  ghost function Coordinate(sub: Option<Share>): set<bv8> {
    if Usable(sub) then {sub.value[0]} else {}
  }

  /** One submission either completes the threshold with the secret or leaves a smaller buffer. */
  lemma AcceptStep(st: SealState, shares: seq<Share>, k: nat, secret: seq<bv8>, sub: Option<Share>)
    requires ThresholdOf(shares, k, secret) && Collecting(st, shares, k)
    requires Usable(sub) ==> sub.value in shares
    ensures Buffered(st)
    ensures var (next, o) := Accept(st, k, sub);
            var seen := CoordinateSet(st.received) + Coordinate(sub);
            if o.Unsealed? then o.key == secret && next.done && |seen| == k
            else Collecting(next, shares, k) && CoordinateSet(next.received) == seen && |seen| < k
  {
    hide Combined, Distinct, CoordinateSet, Holds, Coordinates;
    CoordinateCount(st.received);
    if !Usable(sub) {
    } else if Holds(st.received, sub.value[0]) {
      CoordinateSetHolds(st.received, sub.value[0]);
      assert CoordinateSet(st.received) + Coordinate(sub) == CoordinateSet(st.received);
    } else {
      var now := st.received + [sub.value];
      BufferGrows(st, shares, k, sub.value);
      if |now| >= k {
        assert now[..k] == now;
      }
    }
  }

  /** From a half-filled buffer: exactly one key, the secret, comes out iff the buffer and the
      remaining submissions together hold k distinct shares. */
  lemma {:induction false} RunFromBuffer(st: SealState, shares: seq<Share>, k: nat, secret: seq<bv8>,
      subs: seq<Option<Share>>)
    requires ThresholdOf(shares, k, secret)
    requires Collecting(st, shares, k) && OnlyGenuine(shares, subs)
    ensures Buffered(st)
    ensures KeysReturned(st, k, subs) == if |CoordinateSet(st.received) + Submitted(subs)| >= k then [secret] else []
    decreases |subs|
  {
    hide Combined, Distinct, CoordinateSet, Coordinates, Accept, ThresholdOf, GenuineBuffer;
    StillCollecting(st, shares, k);
    var had := CoordinateSet(st.received);
    if subs == [] {
      assert had + Submitted(subs) == had;
    } else {
      var sub, rest := subs[0], subs[1..];
      AcceptStep(st, shares, k, secret, sub);
      var (next, o) := Accept(st, k, sub);
      assert had + Submitted(subs) == (had + Coordinate(sub)) + Submitted(rest);
      if o.Unsealed? {
        NothingAfterDone(next, k, rest);
        SubsetCount(had + Coordinate(sub), had + Submitted(subs));
      } else {
        RunFromBuffer(next, shares, k, secret, rest);
      }
    }
  }

  lemma StillCollecting(st: SealState, shares: seq<Share>, k: nat)
    requires Collecting(st, shares, k)
    ensures Buffered(st) && |CoordinateSet(st.received)| < k
  {
    CoordinateCount(st.received);
  }

  lemma SubsetCount(a: set<bv8>, b: set<bv8>)
    requires a <= b
    ensures |a| <= |b|
  {
    assert b == a + (b - a);
  }

  /** Any run of submissions to a fresh seal - shares in any order, repeated, or interleaved with
      undecodable input - returns the root key exactly once when k distinct shares were
      submitted, and returns no key at all otherwise. */
  lemma {:induction false} UnsealRun(c: Base64, secret: seq<bv8>, drawn: seq<seq<bv8>>, n: nat, k: nat,
      lines: seq<string>)
    requires GenuineSplit(secret, drawn, n, k)
    requires OnlyGenuine(SharesOf(secret, drawn, n), Decoded(c, lines))
    ensures KeysReturned(FRESH, k, Decoded(c, lines)) ==
            if |Submitted(Decoded(c, lines))| >= k then [secret] else []
  {
    hide SharesOf, Combined;
    assert CoordinateSet([]) == {};
    var subs := Decoded(c, lines);
    assert CoordinateSet([]) + Submitted(subs) == Submitted(subs);
    SplitSharesHaveThreshold(secret, drawn, n, k);
    RunFromBuffer(FRESH, SharesOf(secret, drawn, n), k, secret, subs);
  }

  lemma {:induction false} SubmittedHas(subs: seq<Option<Share>>, i: nat)
    requires i < |subs| && Usable(subs[i])
    ensures subs[i].value[0] in Submitted(subs)
  {
    if i > 0 {
      SubmittedHas(subs[1..], i - 1);
    }
  }

  ghost function Decoded(c: Base64, lines: seq<string>): seq<Option<Share>> {
    seq(|lines|, i requires 0 <= i < |lines| => c.decode(lines[i]))
  }

  /** In particular: k distinct shares of Init, encoded and submitted in any order, unseal. */
  lemma {:induction false} InitSharesUnseal(c: Base64, secret: seq<bv8>, drawn: seq<seq<bv8>>, n: nat, k: nat,
      picks: seq<nat>)
    requires RoundTrips(c) && GenuineSplit(secret, drawn, n, k)
    requires DistinctPicks(picks, n) && |picks| == k
    ensures var shares := SharesOf(secret, drawn, n);
            var lines := seq(k, i requires 0 <= i < k => c.encode(shares[picks[i]]));
            KeysReturned(FRESH, k, Decoded(c, lines)) == [secret]
  {
    hide Eval, ToByte, Combined;
    var shares := SharesOf(secret, drawn, n);
    var lines := seq(k, i requires 0 <= i < k => c.encode(shares[picks[i]]));
    var subs := Decoded(c, lines);
    var chosen := Picked(shares, picks);
    assert forall i :: 0 <= i < k ==> subs[i] == Some(chosen[i]) && |chosen[i]| >= 2 && chosen[i] in shares;
    PickedCoordinatesDistinct(secret, drawn, n, picks);
    CoordinateCount(chosen);
    forall x | x in CoordinateSet(chosen)
      ensures x in Submitted(subs)
    {
      CoordinateSetHolds(chosen, x);
      var i :| 0 <= i < |chosen| && chosen[i][0] == x;
      SubmittedHas(subs, i);
    }
    SubsetCount(CoordinateSet(chosen), Submitted(subs));
    UnsealRun(c, secret, drawn, n, k, lines);
  }
}
