/** internal/audit/ring.go: the bounded window of recent records refines the unbounded log. */
module AuditRing {
  import opened AuditChain

  /** The last min(|log|, cap) records. */
  function LastOf<T>(log: seq<T>, cap: nat): seq<T> {
    if |log| <= cap then log else log[|log| - cap..]
  }

  lemma LastOfSnoc<T>(log: seq<T>, cap: nat, e: T)
    requires cap >= 1
    ensures LastOf(log + [e], cap) == (if |LastOf(log, cap)| < cap then LastOf(log, cap)
              else LastOf(log, cap)[1..]) + [e]
  {}

  lemma LastOfIsEnd<T>(log: seq<T>, kept: nat, cap: nat)
    ensures var tail := LastOf(LastOf(log, kept), cap); |tail| <= |log| && tail == log[|log| - |tail|..]
  {}

  lemma WrapsOnce(x: int, n: int)
    requires 0 <= x < 2 * n
    ensures x % n == if x < n then x else x - n
  {
    if x >= n {
      assert x % n == (x - n) % n;
    }
  }

  /** The entries after a cursor, oldest first. */
  function Later(window: seq<Entry>, cursor: nat): seq<Entry> {
    if window == [] then []
    else
      var rest := Later(window[..|window| - 1], cursor);
      var e := window[|window| - 1];
      if e.sequence > cursor then rest + [e] else rest
  }

  /** At most max of them; 0 means unlimited. */
  function Limit(entries: seq<Entry>, max: nat): (r: seq<Entry>)
    ensures r <= entries && |r| == if 0 < max < |entries| then max else |entries|
  {
    if max > 0 && |entries| > max then entries[..max] else entries
  }

  /** Whether records between the cursor and the first later one are gone. */
  predicate GapAfter(window: seq<Entry>, cursor: nat) {
    var later := Later(window, cursor);
    cursor != 0 && later != [] && later[0].sequence > cursor + 1
  }

  lemma {:induction false} LaterGrows(window: seq<Entry>, cursor: nat, i: nat, j: nat)
    requires i <= j <= |window|
    ensures Later(window[..i], cursor) <= Later(window[..j], cursor)
    decreases j
  {
    if i < j {
      LaterGrows(window, cursor, i, j - 1);
      assert window[..j][..j - 1] == window[..j - 1];
    }
  }

  /** The slot of the i-th oldest of n entries in a ring of size cap. */
  function Slot(next: int, n: int, cap: int, i: int): int {
    if next - n + i < 0 then next - n + i + cap else next - n + i
  }

  /** The slots behind `next` hold exactly this window. */
  ghost predicate Holds(slots: seq<Entry>, next: nat, n: nat, window: seq<Entry>) {
    && next < |slots| && n == |window| <= |slots|
    && (n < |slots| ==> next == n)
    && forall i :: 0 <= i < n ==> slots[Slot(next, n, |slots|, i)] == window[i]
  }

  lemma HoldsAfterAppend(slots: seq<Entry>, next: nat, n: nat, window: seq<Entry>, e: Entry)
    requires Holds(slots, next, n, window)
    ensures var next' := if next + 1 < |slots| then next + 1 else 0;
            var n' := if n < |slots| then n + 1 else n;
            Holds(slots[next := e], next', n', (if n < |slots| then window else window[1..]) + [e])
  {
    var cap := |slots|;
    var next' := if next + 1 < cap then next + 1 else 0;
    var n' := if n < cap then n + 1 else n;
    var window' := (if n < cap then window else window[1..]) + [e];
    forall i | 0 <= i < n'
      ensures slots[next := e][Slot(next', n', cap, i)] == window'[i]
    {
      var old_i := if n < cap then i else i + 1;
      if i < n' - 1 {
        assert Slot(next', n', cap, i) == Slot(next, n, cap, old_i);
        assert slots[Slot(next, n, cap, old_i)] == window[old_i];
      }
    }
  }

  class Ring {
    const buf: array<Entry>
    var next: nat   // index the next entry is written to
    var n: nat      // number of valid entries
    var last: nat

    ghost var log: seq<Entry>  // everything ever appended

    ghost predicate Valid()
      reads this, buf
    {
      && buf.Length >= 1 && Holds(buf[..], next, n, LastOf(log, buf.Length))
    }

    /** A capacity below 1 becomes 1. */
    constructor (capacity: int, blank: Entry)
      ensures Valid() && fresh(buf) && log == [] && last == 0
      ensures buf.Length == if capacity < 1 then 1 else capacity
    {
      buf := new Entry[if capacity < 1 then 1 else capacity](_ => blank);
      next, n, last, log := 0, 0, 0, [];
    }

    method Append(e: Entry)
      requires Valid()
      modifies this, buf
      ensures Valid() && log == old(log) + [e]
      ensures last == if e.sequence > old(last) then e.sequence else old(last)
    {
      hide Holds, LastOf;
      HoldsBounds(buf[..], next, n, LastOf(log, buf.Length));
      LastOfSnoc(log, buf.Length, e);
      HoldsAfterAppend(buf[..], next, n, LastOf(log, buf.Length), e);
      buf[next] := e;
      WrapsOnce(next + 1, buf.Length);
      next := (next + 1) % buf.Length;
      if n < buf.Length {
        n := n + 1;
      }
      if e.sequence > last {
        last := e.sequence;
      }
      log := log + [e];
    }

    /** Appends the records one after the other. */
    method Fill(entries: seq<Entry>)
      requires Valid()
      modifies this, buf
      ensures Valid() && log == old(log) + entries
    {
      hide Holds, LastOf;
      for i := 0 to |entries|
        invariant Valid() && log == old(log) + entries[..i]
      {
        Append(entries[i]);
        assert entries[..i + 1] == entries[..i] + [entries[i]];
      }
      assert entries[..|entries|] == entries;
    }

    /** Oldest to newest. */
    method Snapshot() returns (out: seq<Entry>)
      requires Valid()
      ensures out == LastOf(log, buf.Length)
    {
      hide LastOf;
      ghost var window := LastOf(log, buf.Length);
      out := [];
      WrapsOnce(next - n + buf.Length, buf.Length);
      var start := (next - n + buf.Length) % buf.Length;
      for i := 0 to n
        invariant out == window[..i]
      {
        WrapsOnce(start + i, buf.Length);
        assert buf[..][Slot(next, n, buf.Length, i)] == window[i];
        out := out + [buf[(start + i) % buf.Length]];
      }
    }

    method After(cursor: nat, max: nat) returns (out: seq<Entry>, gap: bool)
      requires Valid()
      ensures out == Limit(Later(LastOf(log, buf.Length), cursor), max)
      ensures gap == GapAfter(LastOf(log, buf.Length), cursor)
    {
      hide Later, LastOf;
      ghost var window := LastOf(log, buf.Length);
      out, gap := [], false;
      WrapsOnce(next - n + buf.Length, buf.Length);
      var start := (next - n + buf.Length) % buf.Length;
      LaterOfNone(window, cursor);
      for i := 0 to n
        invariant out == Later(window[..i], cursor)
        invariant gap == (cursor != 0 && out != [] && out[0].sequence > cursor + 1)
        invariant max > 0 ==> |out| < max
      {
        WrapsOnce(start + i, buf.Length);
        var e := buf[(start + i) % buf.Length];
        assert e == buf[..][Slot(next, n, buf.Length, i)] == window[i];
        LaterNext(window, cursor, i);
        if e.sequence > cursor {
          if |out| == 0 && cursor != 0 && e.sequence > cursor + 1 {
            gap := true;
          }
          out := out + [e];
          if max > 0 && |out| >= max {
            LaterGrows(window, cursor, i + 1, n);
            assert window[..n] == window;
            return;
          }
        }
      }
      assert window[..n] == window;
    }

    method Window() returns (size: nat, capacity: nat, oldest: nat, newest: nat)
      requires Valid()
      ensures size == |LastOf(log, buf.Length)| && capacity == buf.Length && newest == last
      ensures oldest == if size == 0 then 0 else LastOf(log, buf.Length)[0].sequence
    {
      hide LastOf;
      oldest := 0;
      HoldsBounds(buf[..], next, n, LastOf(log, buf.Length));
      if n > 0 {
        WrapsOnce(next - n + buf.Length, buf.Length);
        HoldsOldest(buf[..], next, n, LastOf(log, buf.Length));
        hide Holds;
        oldest := buf[(next - n + buf.Length) % buf.Length].sequence;
      }
      return n, buf.Length, oldest, last;
    }
  }

  lemma HoldsBounds(slots: seq<Entry>, next: nat, n: nat, window: seq<Entry>)
    requires Holds(slots, next, n, window)
    ensures next < |slots| && n == |window| <= |slots|
  {}

  lemma HoldsOldest(slots: seq<Entry>, next: nat, n: nat, window: seq<Entry>)
    requires Holds(slots, next, n, window) && n > 0
    ensures slots[Slot(next, n, |slots|, 0)] == window[0]
  {}

  lemma {:induction false} LaterOfNone(window: seq<Entry>, cursor: nat)
    ensures Later(window[..0], cursor) == []
  {}

  lemma {:induction false} LaterNext(window: seq<Entry>, cursor: nat, i: nat)
    requires i < |window|
    ensures Later(window[..i + 1], cursor) == Later(window[..i], cursor) + if window[i].sequence > cursor
              then [window[i]] else []
  {
    assert window[..i + 1][..i] == window[..i];
  }
}
