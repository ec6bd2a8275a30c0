/** internal/audit/dispatcher.go and the Logger of audit.go: every record is sealed once, and the
    file and the in-memory window share one chain. */
module AuditDispatcher {
  import opened Wrappers
  import opened AuditChain
  import opened AuditRing

  /** Operation(method, path), kept abstract. */
  type Classifier = (string, string) -> string

  /** Record i hashes to its Hash, links to its predecessor and is numbered by its position. */
  ghost predicate Linked(h: Hasher, log: seq<Entry>, i: nat)
    requires i < |log|
  {
    && log[i].hash == ComputeHash(h, log[i])
    && log[i].prevHash == (if i == 0 then Genesis() else log[i - 1].hash)
    && log[i].sequence == i + 1
  }

  ghost predicate Chained(h: Hasher, log: seq<Entry>) {
    forall i :: 0 <= i < |log| ==> Linked(h, log, i)
  }

  lemma LinkedIntact(h: Hasher, log: seq<Entry>, i: nat)
    requires CollisionFree(h) && Chained(h, log) && i < |log|
    ensures Fault(h, Before(log, i), log[i], Genesis()) == Intact
    ensures Fault(h, Before(log, i), log[i], "") == Intact && Fault(h, None, log[i], "") == Intact
  {
    hide Genesis;
    assert Linked(h, log, i) && (i > 0 ==> Linked(h, log, i - 1));
  }

  /** Any consecutive part of a chain verifies, whatever its start. */
  lemma ChainPartVerifies(h: Hasher, log: seq<Entry>, from: nat)
    requires CollisionFree(h) && Chained(h, log) && from <= |log|
    ensures Verdict(h, log[from..], "").ok
  {
    hide Genesis, Fault, Chained;
    var part := log[from..];
    forall i | 0 <= i < |part|
      ensures FaultAt(h, part, "", i) == Intact
    {
      LinkedIntact(h, log, from + i);
      assert part[i] == log[from + i] && (i > 0 ==> part[i - 1] == log[from + i - 1]);
    }
    GoodPrefixIs(h, part, "", |part|);
  }

  /** The whole chain verifies from genesis. */
  lemma ChainVerifies(h: Hasher, log: seq<Entry>)
    requires CollisionFree(h) && Chained(h, log)
    ensures VerifiesFromGenesis(h, log)
  {
    hide Genesis, Fault, Chained;
    forall i | 0 <= i < |log|
      ensures FaultAt(h, log, Genesis(), i) == Intact
    {
      LinkedIntact(h, log, i);
    }
    GoodPrefixIs(h, log, Genesis(), |log|);
  }

  lemma ChainedSnoc(h: Hasher, log: seq<Entry>, e: Entry)
    requires Chained(h, log) && e.hash == ComputeHash(h, e) && e.sequence == |log| + 1
    requires e.prevHash == if log == [] then Genesis() else log[|log| - 1].hash
    ensures Chained(h, log + [e])
  {
    hide Genesis, ComputeHash;
    forall i | 0 <= i < |log| + 1
      ensures Linked(h, log + [e], i)
    {
      if i < |log| {
        assert Linked(h, log, i);
      }
    }
  }

  /** The primary log.  A record that arrives sealed is written verbatim, others are chained here.  The writer may
      fail unless it is `reliable`; the chain has advanced by then. */
  class Logger {
    const h: Hasher
    const reliable: bool
    const past: seq<Entry>   // what the file held when it was opened
    var prevHash: Hash
    var lines: seq<Entry>

    /** The file may hold records already. */
    constructor (h: Hasher, reliable: bool, past: seq<Entry>)
      ensures this.h == h && this.reliable == reliable && this.past == past
      ensures lines == past && prevHash == Genesis()
    {
      this.h, this.reliable, this.past := h, reliable, past;
      lines, prevHash := past, Genesis();
    }

    method Write(e: Entry) returns (ok: bool)
      modifies this
      ensures var sealed := if e.hash != "" then e else Chain(h, old(prevHash), e);
              && (sealed.hash == "" ==> !ok && prevHash == old(prevHash))
              && (sealed.hash != "" ==> prevHash == sealed.hash && (reliable ==> ok))
              && lines == if ok then old(lines) + [sealed] else old(lines)
    {
      hide ComputeHash;
      var entry := e;
      if entry.hash == "" {
        entry := entry.(prevHash := prevHash);
        entry := entry.(hash := ComputeHash(h, entry));
        if entry.hash == "" {
          return false;
        }
      }
      prevHash := entry.hash;
      var up: bool := *;
      ok := reliable || up;
      if ok {
        lines := lines + [entry];
      }
    }

    /** Hash and number of the last record that was in the file when it was opened; an empty hash if there was none. */
    method LastHash() returns (hash: Hash, sequence: nat)
      ensures past == [] ==> hash == ""
      ensures past != [] ==> hash == past[|past| - 1].hash && sequence == past[|past| - 1].sequence
    {
      if past == [] {
        return "", 0;
      }
      return past[|past| - 1].hash, past[|past| - 1].sequence;
    }
  }

  /** e linked to a predecessor and hashed. */
  function Chain(h: Hasher, prevHash: Hash, e: Entry): Entry {
    var linked := e.(prevHash := prevHash);
    linked.(hash := ComputeHash(h, linked))
  }

  class Dispatcher {
    const h: Hasher
    const classify: Classifier
    const logger: Logger
    const ring: Ring
    var prevHash: Hash
    var sealed: nat   // sequence number of the newest sealed entry

    ghost var chain: seq<Entry>  // all records, those of earlier processes included
    ghost var start: nat         // the records before it never were in the ring
    ghost var filed: nat         // the records before it are in files that were rotated away

    ghost predicate Valid()
      reads this, logger, ring, ring.buf
    {
      && CollisionFree(h) && ring.Valid() && Chained(h, chain)
      && EndsIn(chain, start, ring.log) && filed <= |chain| && (logger.reliable ==> EndsIn(chain, filed, logger.lines))
      && AtHead(chain, prevHash, sealed)
    }

    /** Continues the chain that ends in the file of a logger that was just opened; its `earlier` records, if any, were
        rotated away, and `kept` of those in the file are in the part that is read back.  An empty file starts a new
        chain. */
    constructor (h: Hasher, classify: Classifier, logger: Logger, bufSize: int, blank: Entry, kept: nat,
        ghost earlier: seq<Entry>)
      requires CollisionFree(h) && Chained(h, earlier + logger.past)
      requires logger.lines == logger.past && kept <= |logger.past|
      ensures Valid() && fresh(ring) && fresh(ring.buf) && this.h == h && this.classify == classify
                && this.logger == logger
      ensures chain == (if logger.past == [] then [] else earlier + logger.past)
      ensures ring.buf.Length == if bufSize <= 0 then 10000 else bufSize
      ensures ring.log == LastOf(LastOf(logger.past, kept), ring.buf.Length)
    {
      hide Genesis, ComputeHash, CollisionFree, LastOf, Chained, Holds, EndsIn, AtHead;
      this.h, this.classify, this.logger := h, classify, logger;
      ring := new Ring(if bufSize <= 0 then 10000 else bufSize, blank);
      prevHash, sealed := Genesis(), 0;
      chain, start, filed := [], 0, 0;
      if logger.past != [] {
        chain, filed := earlier + logger.past, |earlier|;
      }
      new;
      var hash, sequence := logger.LastHash();
      Resumed(h, earlier, logger.past, kept, ring.buf.Length);
      if hash != "" {
        prevHash, sealed := hash, sequence;
      }
      var tail := LastOf(LastOf(logger.past, kept), ring.buf.Length);
      start := |chain| - |tail|;
      ring.Fill(tail);
      assert ring.log == tail;
    }

    /** Seals e into the chain exactly once and delivers it. */
    method Log(e: Entry)
      requires Valid()
      modifies this, logger, ring, ring.buf
      ensures Valid() && |chain| == |old(chain)| + 1 && chain[..|old(chain)|] == old(chain) && start == old(start)
      ensures var got := chain[|chain| - 1];
              && prevHash == got.hash && sealed == got.sequence
              && (e.facts.operation != "" ==> got.facts == e.facts)
              && (e.facts.operation == "" ==>
                    got.facts == e.facts.(operation := classify(e.facts.httpMethod, e.facts.path)))
    {
      hide Genesis, ComputeHash, CollisionFree, Chained, EndsIn, Holds;
      var entry := e;
      if entry.facts.operation == "" {
        entry := entry.(facts := entry.facts.(operation := classify(entry.facts.httpMethod, entry.facts.path)));
      }
      sealed := sealed + 1;
      entry := entry.(sequence := sealed);
      entry := entry.(prevHash := prevHash);
      HashIgnoresHash(h, entry);
      entry := entry.(hash := ComputeHash(h, entry));
      NeverEmpty(h, entry);
      prevHash := entry.hash;
      ChainedSnoc(h, chain, entry);
      EndGrows(chain, start, ring.log, entry);
      if logger.reliable {
        EndGrows(chain, filed, logger.lines, entry);
      }
      chain := chain + [entry];
      var _ := logger.Write(entry);
      ring.Append(entry);
    }

    /** The in-memory window verifies in every reachable state. */
    method VerifyMemory() returns (res: VerifyResult)
      requires Valid()
      ensures res == Verdict(h, LastOf(ring.log, ring.buf.Length), "")
      ensures res.ok && res.checked == |LastOf(ring.log, ring.buf.Length)|
      ensures res.checked > 0 ==> res.headHash == prevHash
    {
      hide Genesis, ComputeHash, Chained, CollisionFree, GoodPrefix, LastOf, EndsIn;
      var window := ring.Snapshot();
      WindowOfEnd(chain, start, ring.log, ring.buf.Length);
      ghost var from := |chain| - |window|;
      ChainPartVerifies(h, chain, from);
      res := VerifyEntries(h, window, "");
      assert window[..|window|] == window;
    }

    method Head() returns (hash: Hash, sequence: nat)
      requires Valid()
      ensures sequence == |chain| && hash == if chain == [] then Genesis() else HeadHash(chain)
    {
      return prevHash, sealed;
    }
  }

  ghost predicate EndsIn(chain: seq<Entry>, from: nat, end: seq<Entry>) {
    from <= |chain| && chain[from..] == end
  }

  /** What the next record will be linked to. */
  ghost predicate AtHead(chain: seq<Entry>, hash: Hash, sequence: nat) {
    sequence == |chain| && hash == if chain == [] then Genesis() else chain[|chain| - 1].hash
  }

  lemma EndGrows(chain: seq<Entry>, from: nat, end: seq<Entry>, e: Entry)
    requires EndsIn(chain, from, end)
    ensures EndsIn(chain + [e], from, end + [e])
  {
    assert (chain + [e])[from..] == chain[from..] + [e];
  }

  lemma WindowOfEnd(chain: seq<Entry>, from: nat, end: seq<Entry>, cap: nat)
    requires EndsIn(chain, from, end)
    ensures var window := LastOf(end, cap); |window| <= |chain| && window == chain[|chain| - |window|..]
  {}

  lemma EmptyChained(h: Hasher)
    ensures Chained(h, [])
  {}

  /** What a process that starts over finds. */
  lemma Resumed(h: Hasher, earlier: seq<Entry>, past: seq<Entry>, kept: nat, cap: nat)
    requires CollisionFree(h) && Chained(h, earlier + past)
    ensures var chain, tail := if past == [] then [] else earlier + past, LastOf(LastOf(past, kept), cap);
            && Chained(h, chain) && |tail| <= |past| <= |chain| && EndsIn(chain, |chain| - |tail|, tail)
            && EndsIn(chain, |chain| - |past|, past)
    ensures AtHead([], Genesis(), 0)
    ensures past != [] ==>
              past[|past| - 1].hash != "" && AtHead(earlier + past, past[|past| - 1].hash, past[|past| - 1].sequence)
  {
    hide Genesis, CollisionFree, LastOf, Chained;
    EmptyChained(h);
    LastNotEmpty(h, earlier + past);
    LastOfIsEnd(past, kept, cap);
    var tail := LastOf(LastOf(past, kept), cap);
    assert (earlier + past)[|earlier|..] == past;
    assert (earlier + past)[|earlier| + |past| - |tail|..] == past[|past| - |tail|..];
  }

  lemma LastNotEmpty(h: Hasher, chain: seq<Entry>)
    requires CollisionFree(h) && Chained(h, chain)
    ensures chain != [] ==> chain[|chain| - 1].hash != "" && chain[|chain| - 1].sequence == |chain|
  {
    if chain != [] {
      assert Linked(h, chain, |chain| - 1);
    }
  }

  lemma NeverEmpty(h: Hasher, e: Entry)
    requires CollisionFree(h)
    ensures ComputeHash(h, e) != ""
  {}

  /** A list presented as the log verifies from genesis with the dispatcher's head hash only if it
      is the log. */
  lemma PresentedLogIsTheLog(h: Hasher, log: seq<Entry>, presented: seq<Entry>)
    requires CollisionFree(h) && Chained(h, log)
    requires VerifiesFromGenesis(h, presented) && HeadHash(presented) == HeadHash(log)
    ensures presented == log
  {
    hide VerifiesFromGenesis, Chained;
    ChainVerifies(h, log);
    SameHeadSameChain(h, presented, log);
  }

  lemma HashIgnoresHash(h: Hasher, e: Entry)
    ensures forall x :: ComputeHash(h, e.(hash := x)) == ComputeHash(h, e)
  {
    assert forall x :: e.(hash := x).(hash := "") == e.(hash := "");
  }
}
