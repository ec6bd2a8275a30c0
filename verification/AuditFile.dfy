/** internal/audit/verify.go: VerifyFile checks one record at a time against its predecessor only,
    and still reports what a check of the whole list would. */
module AuditFile {
  import opened Wrappers
  import opened AuditChain

  /** A complete line of the log file, or a read that failed in its place. */
  datatype Line = Blank | Oversized | Garbage | Unreadable | Record(entry: Entry)

  predicate Bad(l: Line) {
    l.Oversized? || l.Garbage? || l.Unreadable?
  }

  function BadReason(l: Line): Reason {
    if l.Oversized? then TooLarge else if l.Garbage? then NotARecord else ReadError
  }

  /** The records before the first bad line. */
  function Records(lines: seq<Line>): seq<Entry> {
    if lines == [] then []
    else
      var init, last := lines[..|lines| - 1], lines[|lines| - 1];
      if last.Record? && FirstBad(init).None? then Records(init) + [last.entry] else Records(init)
  }

  function FirstBad(lines: seq<Line>): Option<Line> {
    if lines == [] then None
    else
      var init, last := lines[..|lines| - 1], lines[|lines| - 1];
      if FirstBad(init).Some? then FirstBad(init) else if Bad(last) then Some(last) else None
  }

  /** What the file check must report: a broken record counts as in the check of the whole list,
      except that it is not counted as a legacy record. */
  function FileVerdict(h: Hasher, lines: seq<Line>): VerifyResult {
    var records := Records(lines);
    var whole := Verdict(h, records, "");
    if !whole.ok then whole.(legacy := Legacy(records[..whole.checked - 1]))
    else match FirstBad(lines)
      case None => whole
      case Some(l) => whole.(ok := false, checked := |records| + 1, firstBroken := |records|,
                             reason := BadReason(l))
  }

  /** Checking a record behind its verified predecessor finds its fault and no other. */
  lemma PairVerdict(h: Hasher, entries: seq<Entry>, i: nat)
    requires i < |entries| && forall j :: 0 <= j < i ==> FaultAt(h, entries, "", j) == Intact
    ensures var window := if i == 0 then [entries[i]] else [entries[i - 1], entries[i]];
            && Verdict(h, window, "").ok == (FaultAt(h, entries, "", i) == Intact)
            && (!Verdict(h, window, "").ok ==> Verdict(h, window, "").reason == FaultAt(h, entries, "", i))
  {
    hide ComputeHash, Legacy;
    var window := if i == 0 then [entries[i]] else [entries[i - 1], entries[i]];
    if i > 0 {
      assert FaultAt(h, entries, "", i - 1) == Intact;
      assert FaultAt(h, window, "", 0) == Intact;
      assert FaultAt(h, window, "", 1) == FaultAt(h, entries, "", i);
      if FaultAt(h, entries, "", i) == Intact {
        GoodPrefixIs(h, window, "", 2);
      } else {
        GoodPrefixIs(h, window, "", 1);
      }
    } else {
      assert FaultAt(h, window, "", 0) == FaultAt(h, entries, "", 0);
      if FaultAt(h, entries, "", 0) == Intact {
        GoodPrefixIs(h, window, "", 1);
      } else {
        GoodPrefixIs(h, window, "", 0);
      }
    }
  }

  lemma {:induction false} RecordsGrow(lines: seq<Line>, i: nat)
    requires i <= |lines|
    ensures Records(lines[..i]) <= Records(lines)
    ensures FirstBad(lines[..i]).Some? ==>
              Records(lines) == Records(lines[..i]) && FirstBad(lines) == FirstBad(lines[..i])
    decreases |lines| - i
  {
    if i < |lines| {
      RecordsGrow(lines, i + 1);
      assert lines[..i + 1][..i] == lines[..i];
    } else {
      assert lines[..i] == lines;
    }
  }

  /** A fault among the first records is the fault of the longer list. */
  lemma BrokenEarly(h: Hasher, part: seq<Entry>, whole: seq<Entry>, n: nat)
    requires part <= whole && n < |part|
    requires forall j :: 0 <= j < n ==> FaultAt(h, part, "", j) == Intact
    requires FaultAt(h, part, "", n) != Intact
    ensures Verdict(h, whole, "") == Verdict(h, part, "") && !Verdict(h, part, "").ok
              && Verdict(h, part, "").checked == n + 1
  {
    hide Fault, Legacy;
    forall j | 0 <= j <= n
      ensures FaultAt(h, whole, "", j) == FaultAt(h, part, "", j)
    {
      assert whole[j] == part[j] && (j > 0 ==> whole[j - 1] == part[j - 1]);
    }
    GoodPrefixIs(h, part, "", n);
    GoodPrefixIs(h, whole, "", n);
    assert whole[..n] == part[..n] && whole[..n + 1] == part[..n + 1];
  }

  method VerifyLines(h: Hasher, lines: seq<Line>) returns (res: VerifyResult)
    ensures res == FileVerdict(h, lines)
  {
    hide ComputeHash, Legacy, Fault, FaultAt, Genesis, GoodPrefix, Verdict, FromGenesis, HeadHash;
    res := VerifyResult(true, 0, -1, 0, Intact, 0, false, "");
    EmptyRun(h);
    var prev: Option<Entry> := None;
    var idx := 0;
    for i := 0 to |lines|
      invariant FirstBad(lines[..i]) == None
      invariant idx == |Records(lines[..i])| && prev == (if idx == 0 then None else Some(Records(lines[..i])[idx - 1]))
      invariant AllIntact(h, Records(lines[..i]))
      invariant res == Progress(Records(lines[..i]))
    {
      hide AllIntact, Progress, FileVerdict, Records, FirstBad;
      ghost var done := Records(lines[..i]);
      NextLine(lines, i);
      if Bad(lines[i]) {
        StopsAtBadLine(h, lines, i);
        return res.(ok := false, checked := res.checked + 1, firstBroken := idx,
                    reason := BadReason(lines[i]));
      }
      if lines[i].Record? {
        var e := lines[i].entry;
        var window := if prev.None? then [e] else [prev.value, e];
        PairStep(h, done, e);
        var r := VerifyEntries(h, window, "");
        if !r.ok {
          StopsAtBrokenRecord(h, lines, i, r.reason);
          return res.(checked := res.checked + 1, ok := false, firstBroken := idx, brokenSeq := e.sequence,
                      reason := r.reason);
        }
        ProgressSnoc(done, e);
        if idx == 0 {
          res := res.(fromGenesis := e.prevHash == Genesis());
        }
        if e.sequence == 0 {
          res := res.(legacy := res.legacy + 1);
        }
        res := res.(checked := res.checked + 1);
        res := res.(headHash := e.hash);
        prev := Some(e);
        idx := idx + 1;
      }
    }
    assert lines[..|lines|] == lines;
    IntactVerdict(h, Records(lines));
  }

  /** file is None when it cannot be opened. */
  method VerifyFile(h: Hasher, file: Option<seq<Line>>) returns (r: Result<VerifyResult, ()>)
    ensures r == match file case None => Failure(()) case Some(lines) => Success(FileVerdict(h, lines))
  {
    hide FileVerdict;
    if file.None? {
      return Failure(());
    }
    var res := VerifyLines(h, file.value);
    return Success(res);
  }

  ghost predicate AllIntact(h: Hasher, entries: seq<Entry>) {
    forall j :: 0 <= j < |entries| ==> FaultAt(h, entries, "", j) == Intact
  }

  lemma NextLine(lines: seq<Line>, i: nat)
    requires i < |lines|
    ensures FirstBad(lines[..i]) == None ==> FirstBad(lines[..i + 1]) == if Bad(lines[i]) then Some(lines[i]) else None
    ensures FirstBad(lines[..i]) == None ==>
              Records(lines[..i + 1]) == if lines[i].Record? then Records(lines[..i]) + [lines[i].entry]
                  else Records(lines[..i])
  {
    assert lines[..i + 1][..i] == lines[..i];
  }

  lemma StopsAtBadLine(h: Hasher, lines: seq<Line>, i: nat)
    requires i < |lines| && FirstBad(lines[..i]) == None && Bad(lines[i]) && AllIntact(h, Records(lines[..i]))
    ensures var done := Records(lines[..i]);
            FileVerdict(h, lines) == Progress(done).(ok := false, checked := |done| + 1, firstBroken := |done|,
                                                     reason := BadReason(lines[i]))
  {
    hide Verdict, FaultAt, Legacy, FromGenesis, HeadHash;
    NextLine(lines, i);
    RecordsGrow(lines, i + 1);
    IntactVerdict(h, Records(lines[..i]));
    hide Records, FirstBad;
  }

  /** The two-record check decides whether the longer list is still intact. */
  lemma PairStep(h: Hasher, done: seq<Entry>, e: Entry)
    requires AllIntact(h, done)
    ensures var window := if done == [] then [e] else [done[|done| - 1], e];
            var v, now := Verdict(h, window, ""), done + [e];
            && (v.ok ==> AllIntact(h, now))
            && (!v.ok ==> v.reason == FaultAt(h, now, "", |done|) != Intact)
  {
    hide Verdict, FaultAt;
    SnocFaults(h, done, e);
    PairVerdict(h, done + [e], |done|);
  }

  lemma StopsAtBrokenRecord(h: Hasher, lines: seq<Line>, i: nat, reason: Reason)
    requires i < |lines| && FirstBad(lines[..i]) == None && lines[i].Record? && AllIntact(h, Records(lines[..i]))
    requires reason == FaultAt(h, Records(lines[..i]) + [lines[i].entry], "", |Records(lines[..i])|) != Intact
    ensures var done := Records(lines[..i]);
            FileVerdict(h, lines) == Progress(done).(checked := |done| + 1, ok := false, firstBroken := |done|,
                                                     brokenSeq := lines[i].entry.sequence, reason := reason)
  {
    hide Verdict, FaultAt, Legacy, FromGenesis, HeadHash;
    var done := Records(lines[..i]);
    var now := done + [lines[i].entry];
    NextLine(lines, i);
    RecordsGrow(lines, i + 1);
    hide Records, FirstBad;
    SnocFaults(h, done, lines[i].entry);
    BrokenEarly(h, now, Records(lines), |done|);
    BrokenVerdict(h, now, |done|);
    assert now[..|done|] == done && Records(lines)[..|done|] == done;
  }

  /** The counters after these records, none of them broken. */
  function Progress(done: seq<Entry>): VerifyResult {
    VerifyResult(true, |done|, -1, 0, Intact, Legacy(done), FromGenesis(done), HeadHash(done))
  }

  lemma EmptyRun(h: Hasher)
    ensures Progress([]) == VerifyResult(true, 0, -1, 0, Intact, 0, false, "")
  {}

  lemma ProgressSnoc(done: seq<Entry>, e: Entry)
    ensures var p, q := Progress(done), Progress(done + [e]);
            && q.legacy == p.legacy + (if e.sequence == 0 then 1 else 0) && q.headHash == e.hash
                && q.checked == p.checked + 1
            && q.fromGenesis == if done == [] then e.prevHash == Genesis() else p.fromGenesis
  {
    assert (done + [e])[..|done|] == done;
  }

  lemma SnocFaults(h: Hasher, done: seq<Entry>, e: Entry)
    ensures forall j :: 0 <= j < |done| ==> FaultAt(h, done + [e], "", j) == FaultAt(h, done, "", j)
  {
    hide Fault;
    forall j | 0 <= j < |done|
      ensures FaultAt(h, done + [e], "", j) == FaultAt(h, done, "", j)
    {
      assert Before(done + [e], j) == Before(done, j);
    }
  }

  lemma IntactVerdict(h: Hasher, done: seq<Entry>)
    requires forall j :: 0 <= j < |done| ==> FaultAt(h, done, "", j) == Intact
    ensures Verdict(h, done, "") == Progress(done)
  {
    hide FaultAt, Legacy;
    GoodPrefixIs(h, done, "", |done|);
    assert done[..|done|] == done;
  }

  lemma BrokenVerdict(h: Hasher, now: seq<Entry>, n: nat)
    requires |now| == n + 1 && (forall j :: 0 <= j < n ==> FaultAt(h, now, "", j) == Intact)
              && FaultAt(h, now, "", n) != Intact
    ensures var v, p := Verdict(h, now, ""), Progress(now[..n]);
            v == p.(ok := false, checked := n + 1, firstBroken := n, brokenSeq := now[n].sequence,
                    reason := FaultAt(h, now, "", n), legacy := v.legacy)
  {
    hide FaultAt, Legacy;
    GoodPrefixIs(h, now, "", n);
  }

  /** The relation between the two checks on a file of records only: they agree on everything
      when the chain is intact, and on everything but the legacy count when it is broken. */
  lemma StreamingAgrees(h: Hasher, entries: seq<Entry>)
    ensures var file, whole := FileVerdict(h, AsLines(entries)), Verdict(h, entries, "");
            && file.(legacy := whole.legacy) == whole && (whole.ok ==> file == whole)
            && (!whole.ok ==> whole.legacy == file.legacy + if entries[whole.firstBroken].sequence == 0 then 1 else 0)
  {
    hide Fault, FaultAt, GoodPrefix;
    RecordsOfEntries(entries);
    var whole := Verdict(h, entries, "");
    if !whole.ok {
      var n := whole.firstBroken;
      assert entries[..n + 1][..n] == entries[..n];
    }
  }

  function AsLines(entries: seq<Entry>): seq<Line> {
    seq(|entries|, i requires 0 <= i < |entries| => Record(entries[i]))
  }

  lemma {:induction false} RecordsOfEntries(entries: seq<Entry>)
    ensures Records(AsLines(entries)) == entries && FirstBad(AsLines(entries)) == None
  {
    if entries != [] {
      var n := |entries| - 1;
      RecordsOfEntries(entries[..n]);
      assert AsLines(entries)[..n] == AsLines(entries[..n]);
      assert entries[..n] + [entries[n]] == entries;
    }
  }
}
