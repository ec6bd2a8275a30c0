/** What the verifiers' answers mean, in terms of the records alone. */
module AuditMeaning {
  import opened Wrappers
  import opened AuditChain
  import opened AuditFile

  // ---- lists of records ----

  /** The record is what its hash was taken of. */
  ghost predicate Genuine(h: Hasher, e: Entry) {
    e.hash != "" && e.hash == h(e.(hash := ""))
  }

  /** e may stand behind p. */
  ghost predicate Joined(p: Entry, e: Entry) {
    e.prevHash == p.hash && (p.sequence == 0 || e.sequence == 0 || e.sequence == p.sequence + 1)
  }

  /** Every record is genuine and joined to the one before; the first one is linked to the anchor, if there is one. */
  ghost predicate Unbroken(h: Hasher, entries: seq<Entry>, anchor: Hash) {
    && (forall i :: 0 <= i < |entries| ==> Genuine(h, entries[i]))
    && (forall i :: 0 < i < |entries| ==> Joined(entries[i - 1], entries[i]))
    && (entries != [] && anchor != "" ==> entries[0].prevHash == anchor)
  }

  ghost predicate FineAt(h: Hasher, entries: seq<Entry>, anchor: Hash, i: nat)
    requires i < |entries|
  {
    && Genuine(h, entries[i])
    && (if i > 0 then Joined(entries[i - 1], entries[i]) else anchor == "" || entries[0].prevHash == anchor)
  }

  lemma NoFaultIff(h: Hasher, entries: seq<Entry>, anchor: Hash, i: nat)
    requires i < |entries|
    ensures FaultAt(h, entries, anchor, i) == Intact <==> FineAt(h, entries, anchor, i)
  {}

  lemma UnbrokenIff(h: Hasher, entries: seq<Entry>, anchor: Hash)
    ensures Unbroken(h, entries, anchor) <==> forall i :: 0 <= i < |entries| ==> FineAt(h, entries, anchor, i)
  {
    hide Genuine, Joined;
    if forall i :: 0 <= i < |entries| ==> FineAt(h, entries, anchor, i) {
      assert entries != [] ==> FineAt(h, entries, anchor, 0);
      forall i | 0 <= i < |entries|
        ensures Genuine(h, entries[i]) && (i > 0 ==> Joined(entries[i - 1], entries[i]))
      {
        assert FineAt(h, entries, anchor, i);
      }
    }
    if Unbroken(h, entries, anchor) {
      forall i | 0 <= i < |entries|
        ensures FineAt(h, entries, anchor, i)
      {
        assert Genuine(h, entries[i]);
        assert i > 0 ==> Joined(entries[i - 1], entries[i]);
      }
    }
  }

  /** A list verifies if and only if it is unbroken. */
  lemma VerifiesIff(h: Hasher, entries: seq<Entry>, anchor: Hash)
    ensures Verdict(h, entries, anchor).ok <==> Unbroken(h, entries, anchor)
  {
    hide FaultAt, FineAt, Unbroken;
    UnbrokenIff(h, entries, anchor);
    forall i | 0 <= i < |entries|
      ensures FaultAt(h, entries, anchor, i) == Intact <==> FineAt(h, entries, anchor, i)
    {
      NoFaultIff(h, entries, anchor, i);
    }
  }

  /** The reported record is the one that breaks the list, and it is reported for the first thing that is wrong with
      it. */
  lemma BreaksAtTheReported(h: Hasher, entries: seq<Entry>, anchor: Hash)
    requires !Verdict(h, entries, anchor).ok
    ensures var v := Verdict(h, entries, anchor); var n := v.firstBroken;
            && 0 <= n < |entries| && v.checked == n + 1 && v.brokenSeq == entries[n].sequence
            && Unbroken(h, entries[..n], anchor) && !Unbroken(h, entries[..n + 1], anchor)
            && (v.reason == HashMismatch <==> !Genuine(h, entries[n]))
            && (v.reason == PrevMismatch <==>
                  Genuine(h, entries[n]) && n > 0 && entries[n].prevHash != entries[n - 1].hash)
            && (v.reason == AnchorMismatch <==> Genuine(h, entries[n]) && n == 0)
            && (v.reason.SequenceGap? <==>
                  Genuine(h, entries[n]) && n > 0 && entries[n].prevHash == entries[n - 1].hash)
            && (v.reason.SequenceGap? ==> v.reason == SequenceGap(entries[n].sequence, entries[n - 1].sequence))
  {
    var v := Verdict(h, entries, anchor);
    var n := v.firstBroken;
    assert FaultAt(h, entries, anchor, n) == v.reason != Intact;
    NoFaultIff(h, entries, anchor, n);
    PrefixUnbroken(h, entries, anchor, n);
  }

  lemma PrefixUnbroken(h: Hasher, entries: seq<Entry>, anchor: Hash, n: nat)
    requires n < |entries| && !FineAt(h, entries, anchor, n)
    requires forall i :: 0 <= i < n ==> FaultAt(h, entries, anchor, i) == Intact
    ensures Unbroken(h, entries[..n], anchor) && !Unbroken(h, entries[..n + 1], anchor)
  {
    hide Genuine, Joined, FaultAt;
    forall i | 0 <= i < n
      ensures FineAt(h, entries[..n], anchor, i)
    {
      NoFaultIff(h, entries, anchor, i);
    }
    UnbrokenIff(h, entries[..n], anchor);
    UnbrokenIff(h, entries[..n + 1], anchor);
    assert !FineAt(h, entries[..n + 1], anchor, n);
  }

  /** Positions of records without a number, of those looked at. */
  ghost function Unnumbered(entries: seq<Entry>, n: nat): set<nat>
    requires n <= |entries|
  {
    set i: nat | i < n && entries[i].sequence == 0
  }

  lemma {:induction false} LegacyCounts(entries: seq<Entry>)
    ensures Legacy(entries) == |Unnumbered(entries, |entries|)|
  {
    if entries != [] {
      var n := |entries| - 1;
      LegacyCounts(entries[..n]);
      assert Unnumbered(entries[..n], n) == Unnumbered(entries, n);
      assert Unnumbered(entries, n + 1) == Unnumbered(entries, n) + if entries[n].sequence == 0 then {n} else {};
    }
  }

  /** The counters speak of the records looked at, and the head is that of the unbroken part. */
  lemma Reported(h: Hasher, entries: seq<Entry>, anchor: Hash)
    ensures var v := Verdict(h, entries, anchor);
            var good := if v.ok then |entries| else v.checked - 1;
            && 0 <= good <= |entries| && v.checked <= |entries|
            && v.legacy == |Unnumbered(entries, v.checked)|
            && v.headHash == (if good == 0 then "" else entries[good - 1].hash)
            && (v.fromGenesis <==> good > 0 && entries[0].prevHash == Repeat('0', 64))
            && (v.ok ==> v.checked == |entries| && v.firstBroken == -1 && v.brokenSeq == 0 && v.reason == Intact)
  {
    hide FaultAt;
    var v := Verdict(h, entries, anchor);
    LegacyCounts(entries[..v.checked]);
    assert entries[..v.checked] == if v.ok then entries else entries[..v.firstBroken + 1];
    assert Unnumbered(entries[..v.checked], v.checked) == Unnumbered(entries, v.checked);
  }

  // ---- tamper evidence without an anchor ----

  /** Of two lists that verify without an anchor and share a head hash, one is an end of the other: nothing was changed,
      inserted, reordered or removed, other than at the front. */
  lemma {:induction false} SameHeadSameEnd(h: Hasher, a: seq<Entry>, b: seq<Entry>)
    requires CollisionFree(h) && Verdict(h, a, "").ok && Verdict(h, b, "").ok && HeadHash(a) == HeadHash(b)
    ensures if |a| <= |b| then b[|b| - |a|..] == a else a[|a| - |b|..] == b
    decreases |a|
  {
    hide Verdict, CollisionFree;
    VerifiesIff(h, a, "");
    VerifiesIff(h, b, "");
    if a != [] && b != [] {
      var m, n := |a| - 1, |b| - 1;
      SameHash(h, a[m], b[n]);
      VerifiesIff(h, a[..m], "");
      VerifiesIff(h, b[..n], "");
      if m > 0 && n > 0 {
        assert Joined(a[m - 1], a[m]) && Joined(b[n - 1], b[n]);
        SameHeadSameEnd(h, a[..m], b[..n]);
        assert a == a[..m] + [a[m]] && b == b[..n] + [b[n]];
      }
    }
  }

  lemma SameHash(h: Hasher, a: Entry, b: Entry)
    requires CollisionFree(h) && Genuine(h, a) && Genuine(h, b) && a.hash == b.hash
    ensures a == b
  {
    assert a.(hash := "") == b.(hash := "");
  }

  // ---- files ----

  /** Between the records of lines i and j there are only blank lines. */
  ghost predicate Neighbours(lines: seq<Line>, i: nat, j: nat) {
    && i < j < |lines| && lines[i].Record? && lines[j].Record?
    && forall k :: i < k < j ==> lines[k].Blank?
  }

  /** No line is bad, every record is genuine, and each is joined to the one before. */
  ghost predicate UnbrokenFile(h: Hasher, lines: seq<Line>) {
    && (forall i :: 0 <= i < |lines| ==> !(lines[i].Oversized? || lines[i].Garbage? || lines[i].Unreadable?))
    && (forall i :: 0 <= i < |lines| && lines[i].Record? ==> Genuine(h, lines[i].entry))
    && (forall i: nat, j: nat :: Neighbours(lines, i, j) ==> Joined(lines[i].entry, lines[j].entry))
  }

  /** The last record of these lines stands in line i. */
  ghost predicate LastRecordAt(lines: seq<Line>, i: nat) {
    i < |lines| && lines[i].Record? && forall k :: i < k < |lines| ==> lines[k].Blank?
  }

  /** Without bad lines, the last of the records is the last line that holds one. */
  lemma {:induction false} LastRecord(lines: seq<Line>) returns (i: nat)
    requires FirstBad(lines) == None && Records(lines) != []
    ensures LastRecordAt(lines, i) && lines[i].entry == Records(lines)[|Records(lines)| - 1]
    decreases |lines|
  {
    var n := |lines| - 1;
    if lines[n].Record? {
      i := n;
    } else {
      i := LastRecord(lines[..n]);
      forall k | i < k < |lines|
        ensures lines[k].Blank?
      {
        assert k < n ==> lines[..n][k] == lines[k];
      }
    }
  }

  lemma {:induction false} NoRecord(lines: seq<Line>)
    requires FirstBad(lines) == None && Records(lines) == []
    ensures forall i :: 0 <= i < |lines| ==> lines[i].Blank?
    decreases |lines|
  {
    if lines != [] {
      var n := |lines| - 1;
      NoRecord(lines[..n]);
      assert forall k :: 0 <= k < n ==> lines[..n][k] == lines[k];
    }
  }

  lemma {:induction false} NoBadLine(lines: seq<Line>)
    ensures FirstBad(lines) == None <==>
              forall i :: 0 <= i < |lines| ==> !(lines[i].Oversized? || lines[i].Garbage? || lines[i].Unreadable?)
    decreases |lines|
  {
    if lines != [] {
      var n := |lines| - 1;
      NoBadLine(lines[..n]);
      assert forall k :: 0 <= k < n ==> lines[..n][k] == lines[k];
    }
  }

  /** One more record behind an unbroken list. */
  lemma UnbrokenMore(h: Hasher, entries: seq<Entry>, e: Entry)
    ensures Unbroken(h, entries + [e], "") <==>
              Unbroken(h, entries, "") && Genuine(h, e) && (entries != [] ==> Joined(entries[|entries| - 1], e))
  {
    hide Genuine, Joined;
    var n, more := |entries|, entries + [e];
    assert more[n] == e && forall i :: 0 <= i < n ==> more[i] == entries[i];
    if Unbroken(h, more, "") {
      assert n > 0 ==> Joined(more[n - 1], more[n]);
      forall i | 0 < i < n
        ensures Joined(entries[i - 1], entries[i])
      {
        assert Joined(more[i - 1], more[i]);
      }
    }
  }

  lemma UnbrokenFileMore(h: Hasher, lines: seq<Line>, l: Line, i: nat)
    requires l.Record? && LastRecordAt(lines, i)
    ensures UnbrokenFile(h, lines + [l]) <==>
              UnbrokenFile(h, lines) && Genuine(h, l.entry) && Joined(lines[i].entry, l.entry)
  {
    hide Genuine, Joined;
    var n, more := |lines|, lines + [l];
    assert more[n] == l && forall k :: 0 <= k < n ==> more[k] == lines[k];
    forall a: nat, b: nat
      ensures Neighbours(more, a, b) <==> Neighbours(lines, a, b) || (a == i && b == n)
    {
      assert Neighbours(more, a, b) && b == n ==> a == i;
    }
    assert Neighbours(more, i, n);
  }

  lemma UnbrokenFileFirst(h: Hasher, lines: seq<Line>, l: Line)
    requires forall i :: 0 <= i < |lines| ==> lines[i].Blank?
    ensures l.Record? ==> (UnbrokenFile(h, lines + [l]) <==> Genuine(h, l.entry))
    ensures UnbrokenFile(h, lines)
  {
    hide Genuine, Joined;
    var n, more := |lines|, lines + [l];
    assert more[n] == l && forall k :: 0 <= k < n ==> more[k] == lines[k];
  }

  lemma UnbrokenFileBlank(h: Hasher, lines: seq<Line>)
    ensures UnbrokenFile(h, lines + [Blank]) <==> UnbrokenFile(h, lines)
  {
    hide Genuine, Joined;
    var n, more := |lines|, lines + [Blank];
    assert more[n] == Blank && forall k :: 0 <= k < n ==> more[k] == lines[k];
    forall a: nat, b: nat
      ensures Neighbours(more, a, b) <==> Neighbours(lines, a, b)
    {}
  }

  lemma {:induction false} RecordsUnbroken(h: Hasher, lines: seq<Line>)
    requires FirstBad(lines) == None
    ensures Unbroken(h, Records(lines), "") <==> UnbrokenFile(h, lines)
    decreases |lines|
  {
    hide Unbroken, UnbrokenFile, Genuine, Joined;
    if lines == [] {
      UnbrokenFileFirst(h, [], Blank);
      assert Unbroken(h, [], "") by { UnbrokenIff(h, [], ""); }
      return;
    }
    var n := |lines| - 1;
    var init, last := lines[..n], lines[n];
    RecordsUnbroken(h, init);
    assert lines == init + [last];
    if !last.Record? {
      UnbrokenFileBlank(h, init);
    } else if Records(init) == [] {
      NoRecord(init);
      UnbrokenFileFirst(h, init, last);
      UnbrokenMore(h, [], last.entry);
      assert Unbroken(h, [], "") by { UnbrokenIff(h, [], ""); }
      assert Records(lines) == [] + [last.entry];
    } else {
      var i := LastRecord(init);
      UnbrokenFileMore(h, init, last, i);
      UnbrokenMore(h, Records(init), last.entry);
    }
  }

  /** A file verifies if and only if it is unbroken. */
  lemma FileVerifiesIff(h: Hasher, lines: seq<Line>)
    ensures FileVerdict(h, lines).ok <==> UnbrokenFile(h, lines)
  {
    hide Verdict, Unbroken, Records, FirstBad;
    VerifiesIff(h, Records(lines), "");
    if FirstBad(lines) == None {
      RecordsUnbroken(h, lines);
    } else {
      NoBadLine(lines);
    }
  }

  /** The lines before line i that hold a record. */
  function Recorded(lines: seq<Line>, i: nat): set<nat>
    requires i <= |lines|
  {
    set j: nat | j < i && lines[j].Record?
  }

  lemma {:induction false} RecordCount(lines: seq<Line>, i: nat)
    requires i <= |lines| && FirstBad(lines[..i]) == None
    ensures |Records(lines[..i])| == |Recorded(lines, i)|
    decreases i
  {
    if i != 0 {
      assert lines[..i][..i - 1] == lines[..i - 1];
      RecordCount(lines, i - 1);
      if lines[i - 1].Record? {
        assert Recorded(lines, i) == Recorded(lines, i - 1) + {i - 1};
      } else {
        assert Recorded(lines, i) == Recorded(lines, i - 1);
      }
    }
  }

  lemma UnbrokenPrefix(h: Hasher, entries: seq<Entry>, n: nat, m: nat)
    requires n <= m <= |entries| && Unbroken(h, entries[..m], "")
    ensures Unbroken(h, entries[..n], "")
  {
    hide Genuine, Joined;
    var a, b := entries[..n], entries[..m];
    assert forall i :: 0 <= i < n ==> a[i] == b[i];
  }

  /** If the first i lines of a file are unbroken and one more line breaks them, that line is reported: as its kind if
      it is bad, and otherwise by the number of the record and for the first thing that is wrong with it. */
  lemma FileBreaksAtTheReported(h: Hasher, lines: seq<Line>, i: nat)
    requires i < |lines| && UnbrokenFile(h, lines[..i]) && !UnbrokenFile(h, lines[..i + 1])
    ensures var v := FileVerdict(h, lines);
            && !v.ok && v.firstBroken == |Recorded(lines, i)| && v.checked == v.firstBroken + 1
            && (lines[i].Oversized? <==> v.reason == TooLarge) && (lines[i].Garbage? <==> v.reason == NotARecord)
            && (lines[i].Unreadable? <==> v.reason == ReadError)
            && (lines[i].Record? ==>
                  && v.brokenSeq == lines[i].entry.sequence
                  && (v.reason == HashMismatch <==> !Genuine(h, lines[i].entry)))
  {
    hide Verdict, Unbroken, UnbrokenFile, Records, FirstBad, Genuine, Joined, Legacy;
    var some, more, records := lines[..i], lines[..i + 1], Records(lines);
    assert more == some + [lines[i]] && more[..i] == some;
    NoBadBefore(h, some);
    RecordCount(lines, i);
    RecordsUnbroken(h, some);
    VerifiesIff(h, Records(some), "");
    NextLine(some, lines[i]);
    RecordsGrow(lines, i + 1);
    if lines[i].Record? {
      RecordsUnbroken(h, more);
      RecordBreaks(h, records, Records(some), lines[i].entry);
    } else if lines[i].Blank? {
      UnbrokenFileBlank(h, some);
    }
  }

  lemma NoBadBefore(h: Hasher, lines: seq<Line>)
    requires UnbrokenFile(h, lines)
    ensures FirstBad(lines) == None
  {
    hide Genuine, Joined;
    NoBadLine(lines);
  }

  lemma NextLine(lines: seq<Line>, l: Line)
    requires FirstBad(lines) == None
    ensures Records(lines + [l]) == if l.Record? then Records(lines) + [l.entry] else Records(lines)
    ensures FirstBad(lines + [l]) == if l.Record? || l.Blank? then None else Some(l)
  {
    assert (lines + [l])[..|lines|] == lines;
  }

  lemma RecordBreaks(h: Hasher, records: seq<Entry>, some: seq<Entry>, e: Entry)
    requires some + [e] <= records && Unbroken(h, some, "") && !Unbroken(h, some + [e], "")
    ensures var v := Verdict(h, records, "");
            && !v.ok && v.firstBroken == |some| && v.checked == |some| + 1 && v.brokenSeq == e.sequence
            && v.reason !in {TooLarge, NotARecord, ReadError} && (v.reason == HashMismatch <==> !Genuine(h, e))
  {
    hide Verdict, Unbroken, Genuine, Joined;
    var n := |some|;
    assert records[..n] == some && records[..n + 1] == some + [e] && records[n] == e;
    if Verdict(h, records, "").ok {
      VerifiesIff(h, records, "");
      assert records[..|records|] == records;
      UnbrokenPrefix(h, records, n + 1, |records|);
    }
    BreaksAtTheReported(h, records, "");
    var m := Verdict(h, records, "").firstBroken;
    if m < n {
      UnbrokenPrefix(h, records, m + 1, n);
    } else if n < m {
      UnbrokenPrefix(h, records, n + 1, m);
    }
  }
}
