/** internal/audit/audit.go and verify.go: the hash chain and its verifier. */
module AuditChain {
  import opened Wrappers

  type Hash = string

  /** strings.Repeat for one character. */
  function Repeat(c: char, n: nat): (s: string)
    ensures |s| == n
  {
    seq(n, _ => c)
  }

  /** prev_hash of the first record of a chain: 64 zeros. */
  function Genesis(): Hash {
    Repeat('0', 64)
  }

  /** The request facts of a record; `rest` stands for the fields the chain does not look at. */
  datatype Facts = Facts(time: string, httpMethod: string, path: string, operation: string, rest: string)

  datatype Entry = Entry(facts: Facts, sequence: nat, prevHash: Hash, hash: Hash)

  /** SHA-256 over the JSON encoding of an entry, kept abstract. */
  type Hasher = Entry -> Hash

  /** No two encodings collide, and no hash is empty or the genesis hash. */
  ghost predicate CollisionFree(h: Hasher) {
    && (forall a, b :: h(a) == h(b) ==> a == b)
    && (forall a :: h(a) != "" && h(a) != Genesis())
  }

  /** The hash of e with its Hash field empty. */
  function ComputeHash(h: Hasher, e: Entry): Hash {
    h(e.(hash := ""))
  }

  // ---- the verifier ----

  datatype Reason = Intact | HashMismatch | PrevMismatch | SequenceGap(got: nat, after: nat) | AnchorMismatch
                  | TooLarge | NotARecord | ReadError

  datatype VerifyResult = VerifyResult(ok: bool, checked: nat, firstBroken: int, brokenSeq: nat, reason: Reason,
                                       legacy: nat, fromGenesis: bool, headHash: Hash)

  /** What is wrong with record e after prev, if anything. */
  function Fault(h: Hasher, prev: Option<Entry>, e: Entry, anchor: Hash): Reason {
    if ComputeHash(h, e) == "" || ComputeHash(h, e) != e.hash then HashMismatch
    else match prev
      case Some(p) =>
        if e.prevHash != p.hash then PrevMismatch
        else if p.sequence != 0 && e.sequence != 0 && e.sequence != p.sequence + 1
            then SequenceGap(e.sequence, p.sequence)
        else Intact
      case None => if anchor != "" && e.prevHash != anchor then AnchorMismatch else Intact
  }

  function Before(entries: seq<Entry>, i: nat): Option<Entry>
    requires i < |entries|
  {
    if i == 0 then None else Some(entries[i - 1])
  }

  function FaultAt(h: Hasher, entries: seq<Entry>, anchor: Hash, i: nat): Reason
    requires i < |entries|
  {
    Fault(h, Before(entries, i), entries[i], anchor)
  }

  /** The number of leading records without fault. */
  function GoodPrefix(h: Hasher, entries: seq<Entry>, anchor: Hash): (n: nat)
    ensures n <= |entries|
    ensures forall i :: 0 <= i < n ==> FaultAt(h, entries, anchor, i) == Intact
    ensures n < |entries| ==> FaultAt(h, entries, anchor, n) != Intact
  {
    GoodFrom(h, entries, anchor, 0)
  }

  function GoodFrom(h: Hasher, entries: seq<Entry>, anchor: Hash, i: nat): (n: nat)
    requires i <= |entries|
    ensures i <= n <= |entries|
    ensures forall j :: i <= j < n ==> FaultAt(h, entries, anchor, j) == Intact
    ensures n < |entries| ==> FaultAt(h, entries, anchor, n) != Intact
    decreases |entries| - i
  {
    if i == |entries| || FaultAt(h, entries, anchor, i) != Intact then i else GoodFrom(h, entries, anchor, i + 1)
  }

  /** Records written before sequence numbers existed. */
  function Legacy(entries: seq<Entry>): nat {
    if entries == [] then 0
    else Legacy(entries[..|entries| - 1]) + if entries[|entries| - 1].sequence == 0 then 1 else 0
  }

  function HeadHash(entries: seq<Entry>): Hash {
    if entries == [] then "" else entries[|entries| - 1].hash
  }

  predicate FromGenesis(entries: seq<Entry>) {
    entries != [] && entries[0].prevHash == Genesis()
  }

  /** What a check of the whole list must report. */
  function Verdict(h: Hasher, entries: seq<Entry>, anchor: Hash): VerifyResult {
    var n := GoodPrefix(h, entries, anchor);
    var good := entries[..n];
    if n == |entries| then VerifyResult(true, n, -1, 0, Intact, Legacy(entries), FromGenesis(good), HeadHash(good))
    else VerifyResult(false, n + 1, n, entries[n].sequence, FaultAt(h, entries, anchor, n),
                      Legacy(entries[..n + 1]), FromGenesis(good), HeadHash(good))
  }

  lemma GoodPrefixIs(h: Hasher, entries: seq<Entry>, anchor: Hash, n: nat)
    requires n <= |entries|
    requires forall i :: 0 <= i < n ==> FaultAt(h, entries, anchor, i) == Intact
    requires n < |entries| ==> FaultAt(h, entries, anchor, n) != Intact
    ensures GoodPrefix(h, entries, anchor) == n
  {
    hide FaultAt;
    var m := GoodPrefix(h, entries, anchor);
    assert n < |entries| ==> m <= n;
    assert m < |entries| ==> n <= m;
  }

  method VerifyEntries(h: Hasher, entries: seq<Entry>, anchor: Hash) returns (res: VerifyResult)
    ensures res == Verdict(h, entries, anchor)
  {
    hide ComputeHash, Genesis;
    res := VerifyResult(true, 0, -1, 0, Intact, 0, false, "");
    var prev: Option<Entry> := None;
    for i := 0 to |entries|
      invariant forall j :: 0 <= j < i ==> FaultAt(h, entries, anchor, j) == Intact
      invariant prev == if i == 0 then None else Some(entries[i - 1])
      invariant res == VerifyResult(true, i, -1, 0, Intact, Legacy(entries[..i]), FromGenesis(entries[..i]),
                HeadHash(entries[..i]))
    {
      var e := entries[i];
      assert entries[..i + 1][..i] == entries[..i];
      res := res.(checked := res.checked + 1);
      if e.sequence == 0 {
        res := res.(legacy := res.legacy + 1);
      }
      var got := ComputeHash(h, e);
      var reason := Intact;
      if got == "" || got != e.hash {
        reason := HashMismatch;
      } else if prev.Some? {
        if e.prevHash != prev.value.hash {
          reason := PrevMismatch;
        } else if prev.value.sequence != 0 && e.sequence != 0 && e.sequence != prev.value.sequence + 1 {
          reason := SequenceGap(e.sequence, prev.value.sequence);
        }
      } else if anchor != "" {
        if e.prevHash != anchor {
          reason := AnchorMismatch;
        }
      }
      assert reason == FaultAt(h, entries, anchor, i);
      if reason != Intact {
        GoodPrefixIs(h, entries, anchor, i);
        return res.(ok := false, firstBroken := i, brokenSeq := e.sequence, reason := reason);
      }
      if i == 0 {
        res := res.(fromGenesis := e.prevHash == Genesis());
      }
      prev := Some(e);
      res := res.(headHash := e.hash);
    }
    GoodPrefixIs(h, entries, anchor, |entries|);
    assert entries[..|entries|] == entries;
  }

  // ---- tamper evidence ----

  /** A list that verifies and starts at the beginning of a chain. */
  ghost predicate VerifiesFromGenesis(h: Hasher, entries: seq<Entry>) {
    Verdict(h, entries, Genesis()).ok
  }

  lemma IntactLink(h: Hasher, entries: seq<Entry>, i: nat)
    requires CollisionFree(h) && VerifiesFromGenesis(h, entries) && i < |entries|
    ensures entries[i].hash == h(entries[i].(hash := ""))
    ensures entries[i].prevHash == if i == 0 then Genesis() else entries[i - 1].hash
  {
    assert FaultAt(h, entries, Genesis(), i) == Intact;
    assert |Genesis()| == 64;
    hide Genesis;
  }

  lemma VerifiedInit(h: Hasher, entries: seq<Entry>)
    requires VerifiesFromGenesis(h, entries) && entries != []
    ensures VerifiesFromGenesis(h, entries[..|entries| - 1])
  {
    hide Fault;
    var init := entries[..|entries| - 1];
    forall i | 0 <= i < |init|
      ensures FaultAt(h, init, Genesis(), i) == Intact
    {
      assert FaultAt(h, entries, Genesis(), i) == Intact;
      assert Before(init, i) == Before(entries, i);
    }
    GoodPrefixIs(h, init, Genesis(), |init|);
  }

  lemma HeadNotEmpty(h: Hasher, entries: seq<Entry>)
    requires CollisionFree(h) && VerifiesFromGenesis(h, entries)
    ensures HeadHash(entries) == "" <==> entries == []
  {
    hide Verdict, FaultAt, Genesis, VerifiesFromGenesis;
    if entries != [] {
      IntactLink(h, entries, |entries| - 1);
    }
  }

  /** Two lists anchored at genesis that both verify and share a head hash are the same list:
      nothing was changed, inserted, reordered or removed, not even at the front. */
  lemma {:induction false} SameHeadSameChain(h: Hasher, a: seq<Entry>, b: seq<Entry>)
    requires CollisionFree(h) && VerifiesFromGenesis(h, a) && VerifiesFromGenesis(h, b)
    requires HeadHash(a) == HeadHash(b)
    ensures a == b
    decreases |a|
  {
    hide Verdict, FaultAt, Genesis, VerifiesFromGenesis;
    if a == [] || b == [] {
      HeadNotEmpty(h, a);
      HeadNotEmpty(h, b);
      return;
    }
    var m, n := |a| - 1, |b| - 1;
    IntactLink(h, a, m);
    IntactLink(h, b, n);
    assert a[m] == b[n];
    if m > 0 && n > 0 {
      VerifiedInit(h, a);
      VerifiedInit(h, b);
      SameHeadSameChain(h, a[..m], b[..n]);
      assert a == a[..m] + [a[m]] && b == b[..n] + [b[n]];
    } else if m > 0 {
      IntactLink(h, a, m - 1);
      assert false;
    } else if n > 0 {
      IntactLink(h, b, n - 1);
      assert false;
    }
  }
}
