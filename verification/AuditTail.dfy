/** The live tail of internal/api/audit_log.go over the ring: polls interleave with appends, and
    the reader sees every later record exactly once, in order, or is told about the gap. */
module AuditTail {
  import opened AuditChain
  import opened AuditDispatcher
  import opened AuditRing

  /** A chain numbers its records by position. */
  ghost predicate Numbered(log: seq<Entry>) {
    forall i :: 0 <= i < |log| ==> log[i].sequence == i + 1
  }

  datatype Event = Gap(missedAfter: nat) | Visit(sequence: nat)

  function Visits(entries: seq<Entry>): seq<Event> {
    seq(|entries|, i requires 0 <= i < |entries| => Visit(entries[i].sequence))
  }

  /** One pass of the loop body: an optional gap event, then the batch; the cursor ends on its last record. */
  function PollEvents(window: seq<Entry>, cursor: nat, batch: nat): seq<Event> {
    (if GapAfter(window, cursor) then [Gap(cursor)] else []) + Visits(Limit(Later(window, cursor), batch))
  }

  function PollCursor(window: seq<Entry>, cursor: nat, batch: nat): nat {
    var got := Limit(Later(window, cursor), batch);
    if got == [] then cursor else got[|got| - 1].sequence
  }

  /** Each visit is the next number, except right after a gap event naming the last number seen. */
  predicate Faithful(cursor: nat, events: seq<Event>)
    decreases |events|
  {
    if events == [] then true
    else match events[0]
      case Visit(x) => x == cursor + 1 && Faithful(x, events[1..])
      case Gap(m) => m == cursor && |events| >= 2 && events[1].Visit? && events[1].sequence > cursor + 1
                     && Faithful(events[1].sequence, events[2..])
  }

  function EndOf(cursor: nat, events: seq<Event>): nat {
    if events == [] then cursor
    else match events[|events| - 1]
      case Visit(x) => x
      case Gap(m) => m
  }

  lemma {:induction false} FaithfulConcat(cursor: nat, a: seq<Event>, b: seq<Event>)
    requires Faithful(cursor, a) && Faithful(EndOf(cursor, a), b)
    ensures Faithful(cursor, a + b)
    decreases |a|
  {
    if a == [] {
      assert a + b == b;
    } else if a[0].Visit? {
      assert (a + b)[1..] == a[1..] + b;
      assert EndOf(a[0].sequence, a[1..]) == EndOf(cursor, a);
      FaithfulConcat(a[0].sequence, a[1..], b);
    } else {
      assert (a + b)[2..] == a[2..] + b;
      assert EndOf(a[1].sequence, a[2..]) == EndOf(cursor, a);
      FaithfulConcat(a[1].sequence, a[2..], b);
    }
  }

  /** In a numbered window the later entries are a suffix. */
  lemma {:induction false} LaterIsSuffix(window: seq<Entry>, before: nat, cursor: nat)
    requires forall i :: 0 <= i < |window| ==> window[i].sequence == before + i + 1
    ensures Later(window, cursor) ==
            if cursor <= before then window else if cursor >= before + |window| then [] else window[cursor - before..]
  {
    if window != [] {
      var init := window[..|window| - 1];
      LaterIsSuffix(init, before, cursor);
      assert window == init + [window[|window| - 1]];
    }
  }

  lemma {:induction false} ConsecutiveFaithful(cursor: nat, entries: seq<Entry>)
    requires forall i :: 0 <= i < |entries| ==> entries[i].sequence == cursor + i + 1
    ensures Faithful(cursor, Visits(entries))
    decreases |entries|
  {
    if entries != [] {
      ConsecutiveFaithful(cursor + 1, entries[1..]);
      assert Visits(entries)[1..] == Visits(entries[1..]);
    }
  }

  lemma WindowNumbered(log: seq<Entry>, cap: nat)
    requires Numbered(log)
    ensures var w := LastOf(log, cap); forall i :: 0 <= i < |w| ==> w[i].sequence == (|log| - |w|) + i + 1
  {}

  /** The later entries of a numbered window: consecutive, from the next number or the oldest one. */
  lemma {:induction false} LaterNumbers(log: seq<Entry>, cap: nat, cursor: nat)
    requires Numbered(log)
    ensures var later, before := Later(LastOf(log, cap), cursor), |log| - |LastOf(log, cap)|;
            && (later == [] <==> cursor >= |log| || LastOf(log, cap) == [])
            && (later != [] ==> later[0].sequence == if cursor <= before then before + 1 else cursor + 1)
            && (forall i :: 0 <= i < |later| ==> later[i].sequence == later[0].sequence + i)
            && (later != [] ==> later[0].sequence + |later| == |log| + 1)
  {
    var w := LastOf(log, cap);
    WindowNumbered(log, cap);
    LaterIsSuffix(w, |log| - |w|, cursor);
    hide Later, LastOf;
  }

  /** A batch of consecutive records, announced by a gap event exactly when it does not start next. */
  lemma {:induction false} BatchFaithful(cursor: nat, got: seq<Entry>)
    requires got != [] && got[0].sequence >= cursor + 1 && forall i :: 0 <= i < |got| ==>
              got[i].sequence == got[0].sequence + i
    ensures var events := (if got[0].sequence > cursor + 1 then [Gap(cursor)] else []) + Visits(got);
            Faithful(cursor, events) && EndOf(cursor, events) == got[|got| - 1].sequence
  {
    var first := got[0].sequence;
    if first > cursor + 1 {
      var events := [Gap(cursor)] + Visits(got);
      assert events[1] == Visit(first) && events[2..] == Visits(got[1..]);
      ConsecutiveFaithful(first, got[1..]);
    } else {
      assert [] + Visits(got) == Visits(got);
      ConsecutiveFaithful(cursor, got);
    }
  }

  /** One poll is faithful and ends on the new cursor. */
  lemma {:induction false} PollFaithful(log: seq<Entry>, cap: nat, cursor: nat, batch: nat)
    requires Numbered(log) && cursor != 0
    ensures var w := LastOf(log, cap);
            && Faithful(cursor, PollEvents(w, cursor, batch)) && PollCursor(w, cursor, batch) != 0
            && EndOf(cursor, PollEvents(w, cursor, batch)) == PollCursor(w, cursor, batch)
  {
    hide Later, LastOf, Faithful;
    var w := LastOf(log, cap);
    LaterNumbers(log, cap, cursor);
    var got := Limit(Later(w, cursor), batch);
    if got != [] {
      BatchFaithful(cursor, got);
    } else {
      NoEvents(cursor);
      assert PollEvents(w, cursor, batch) == [];
    }
  }

  lemma {:induction false} NoEvents(cursor: nat)
    ensures Faithful(cursor, [])
  {}

  /** A poll that does not fill its batch has caught up with the log. */
  lemma {:induction false} PollCatchesUp(log: seq<Entry>, cap: nat, cursor: nat, batch: nat)
    requires Numbered(log) && cap >= 1
    requires batch == 0 || |Limit(Later(LastOf(log, cap), cursor), batch)| < batch
    ensures PollCursor(LastOf(log, cap), cursor, batch) == if cursor >= |log| then cursor else |log|
  {
    assert LastOf(log, cap) == [] <==> log == [];
    hide Later, LastOf;
    LaterNumbers(log, cap, cursor);
  }

  /** Polls of the windows that the ring shows one after the other; appends happen in between. */
  function TailEvents(windows: seq<seq<Entry>>, batch: nat, cursor: nat): seq<Event> {
    if windows == [] then []
    else
      PollEvents(windows[0], cursor, batch) + TailEvents(windows[1..], batch, PollCursor(windows[0], cursor, batch))
  }

  /** The end of a numbered log. */
  ghost predicate EndOfNumbered(window: seq<Entry>) {
    exists log, cap: nat :: Numbered(log) && window == LastOf(log, cap)
  }

  /** However appends and polls interleave, a tail from a non-zero cursor visits every later
      sequence number exactly once and in order, unless a gap was signalled before the jump. */
  lemma {:induction false} TailIsFaithful(windows: seq<seq<Entry>>, batch: nat, cursor: nat)
    requires cursor != 0 && forall k :: 0 <= k < |windows| ==> EndOfNumbered(windows[k])
    ensures Faithful(cursor, TailEvents(windows, batch, cursor))
    decreases |windows|
  {
    if windows != [] {
      var w := windows[0];
      var log, cap: nat :| Numbered(log) && w == LastOf(log, cap);
      PollFaithful(log, cap, cursor, batch);
      var next := PollCursor(w, cursor, batch);
      TailIsFaithful(windows[1..], batch, next);
      FaithfulConcat(cursor, PollEvents(w, cursor, batch), TailEvents(windows[1..], batch, next));
    }
  }

  lemma ChainedNumbered(h: Hasher, chain: seq<Entry>)
    requires Chained(h, chain)
    ensures Numbered(chain)
  {
    forall i | 0 <= i < |chain|
      ensures chain[i].sequence == i + 1
    {
      assert Linked(h, chain, i);
    }
  }

  /** The same for the window of a dispatcher's ring, whose first `start` records never were in it. */
  lemma RingWindowIsEnd(h: Hasher, chain: seq<Entry>, start: nat, cap: nat)
    requires Chained(h, chain) && start <= |chain|
    ensures EndOfNumbered(LastOf(chain[start..], cap))
  {
    ChainedNumbered(h, chain);
    var window := LastOf(chain[start..], cap);
    assert window == LastOf(chain, |window|);
  }
}
