/** The election's guarantees over whole runs, and the exact timing they need. */
module LeaseTheorems {
  import opened Wrappers
  import opened Lease
  import opened LeaseSafety

  lemma {:induction false} RunInv(c: Config, states: seq<Cluster>, steps: seq<Step>, k: nat)
    requires ValidConfig(c) && IsRun(c, states, steps) && k <= |steps|
    ensures Inv(c, states[k])
  {
    if k == 0 {
    } else {
      hide Inv, Apply, Enabled, Initial;
      RunInv(c, states, steps, k - 1);
      InvStep(c, states[k - 1], steps[k - 1]);
    }
  }

  /** No live lease is taken over: whenever the stored holder changes, the lease of the previous
      holder has run out. */
  lemma NoLiveTakeover(c: Config, states: seq<Cluster>, steps: seq<Step>, k: nat)
    requires ValidConfig(c) && IsRun(c, states, steps) && k < |steps| && states[k].register.Some?
    ensures states[k + 1].register.Some?
    ensures var before, after := states[k].register.value.spec, states[k + 1].register.value.spec;
            after.holder != before.holder && before.holder.Some? && before.renew.Some? && before.seconds.Some?
              && before.renew.value != 0 ==>
              states[k].now > before.renew.value + 1_000_000_000 * before.seconds.value
  {
    hide Inv, Apply, Enabled, Initial;
    RunInv(c, states, steps, k);
    TakeoverNeedsExpiry(c, states[k], steps[k]);
    HolderKept(c, states[k], steps[k]);
  }

  /** A holder's name goes only when another one comes. */
  lemma HolderKept(c: Config, s: Cluster, step: Step)
    requires ValidConfig(c) && Inv(c, s) && Enabled(c, s, step) && s.register.Some?
    ensures var s' := Apply(c, s, step);
            && s'.register.Some?
            && (s'.register.value.spec.holder != s.register.value.spec.holder && s.register.value.spec.holder.Some? ==>
                  HolderOf(s'.register.value.spec) != HolderOf(s.register.value.spec))
  {
    hide IsExpired, TryAcquire, TryRenew, BuildSpec;
    if step.Commit? {
      assert WriteOk(c, s, step.w);
    }
  }

  /** RenewPeriod, two rounds and the rest of a microsecond fit into the whole seconds of LeaseDuration. */
  predicate LongEnough(c: Config) {
    c.renewPeriod + 2 * c.round + 999 <= c.leaseDuration / 1_000_000_000 * 1_000_000_000
  }

  /** The number of times the stored holder has changed during the first k steps. */
  function ChangesSoFar(states: seq<Cluster>, k: nat): nat
    requires k < |states|
  {
    if k == 0 then 0
    else
      var a, b := states[k - 1].register, states[k].register;
      ChangesSoFar(states, k - 1) + (if a.Some? && b.Some? && HolderOf(a.value.spec) != HolderOf(b.value.spec) then 1
          else 0)
  }

  lemma {:induction false} ChangesCounted(c: Config, states: seq<Cluster>, steps: seq<Step>, k: nat)
    requires ValidConfig(c) && IsRun(c, states, steps) && k <= |steps|
    ensures states[k].holderChanges == ChangesSoFar(states, k) && states[k].origin == states[0].origin
  {
    if k != 0 {
      ChangesCounted(c, states, steps, k - 1);
      assert states[k] == Apply(c, states[k - 1], steps[k - 1]);
    }
  }

  /** LeaseTransitions is the initial count plus the number of holder changes (as an int32). */
  lemma {:induction false} TransitionsCountHolderChanges(c: Config, states: seq<Cluster>, steps: seq<Step>, k: nat)
    requires ValidConfig(c) && IsRun(c, states, steps) && |states| == |steps| + 1 && k <= |steps|
              && states[k].register.Some?
    ensures TransitionsOf(states[k].register.value.spec) == Wrap32(states[0].origin + ChangesSoFar(states, k))
  {
    hide Apply, Enabled, Initial, Wrap32, IsRun, WriteOk, PhaseOk;
    RunInv(c, states, steps, k);
    ChangesCounted(c, states, steps, k);
  }

  lemma {:induction false} RunTimed(c: Config, states: seq<Cluster>, steps: seq<Step>, k: nat)
    requires ValidConfig(c) && SafeTiming(c) && IsRun(c, states, steps) && k <= |steps|
    ensures TimedInv(c, states[k])
  {
    if k == 0 {
      RunInv(c, states, steps, 0);
      hide Inv;
    } else {
      hide TimedInv, Apply, Enabled, Initial;
      RunTimed(c, states, steps, k - 1);
      TimedStep(c, states[k - 1], steps[k - 1]);
    }
  }

  /** With such timing, leadership intervals (up to leadCancel) never overlap. */
  lemma AtMostOneLeader(c: Config, states: seq<Cluster>, steps: seq<Step>, k: nat, i: Id, j: Id)
    requires ValidConfig(c) && LongEnough(c) && IsRun(c, states, steps) && k <= |steps|
    requires i in states[k].replicas && states[k].replicas[i].leading
    requires j in states[k].replicas && states[k].replicas[j].leading
    ensures i == j
  {
    hide Inv, Apply, Enabled, Initial;
    RunTimed(c, states, steps, k);
    LeaderNotExpired(c, states[k], i);
    LeaderNotExpired(c, states[k], j);
  }

  // ---- and the condition is exact ----

  lemma Extend(c: Config, states: seq<Cluster>, steps: seq<Step>, step: Step)
      returns (states': seq<Cluster>, steps': seq<Step>)
    requires ValidConfig(c) && IsRun(c, states, steps) && |states| == |steps| + 1 && Enabled(c, states[|steps|], step)
    ensures IsRun(c, states', steps') && |states'| == |steps'| + 1
              && states'[|steps'|] == Apply(c, states[|steps|], step)
  {
    hide Apply, Enabled, Initial;
    states', steps' := states + [Apply(c, states[|steps|], step)], steps + [step];
  }

  /** The clock of the first round, which is stored as 1000. */
  const T0 := 1_999

  /** Replica a acquires the lease and receives the answer as late as its round allows (but no later than `until`). */
  lemma AcquireLate(c: Config, a: Id, b: Id, until: int) returns (states: seq<Cluster>, steps: seq<Step>)
    requires a != b && ValidConfig(c) && until >= T0
    ensures IsRun(c, states, steps) && |states| == |steps| + 1
    ensures var s := states[|steps|];
            && s.now == T0 + (if c.round < until - T0 then c.round else until - T0) && s.wire == {}
            && Two(s, a, Replica(true, Idle(s.now)), b, Replica(false, Idle(T0)))
            && s.register == Some(Register(BuildSpec(c, a, T0, T0, 0), 0, Some(a), T0))
  {
    states, steps := AcquireAnswered(c, a, b);
    hide BuildSpec, IsRun;
    states, steps := Extend(c, states, steps, Tick((if c.round < until - T0 then c.round else until - T0)));
    states, steps := Extend(c, states, steps, Receive(a));
  }

  /** The cluster has exactly these two replicas. */
  ghost predicate Two(s: Cluster, a: Id, ra: Replica, b: Id, rb: Replica) {
    s.replicas.Keys == {a, b} && s.replicas[a] == ra && s.replicas[b] == rb
  }

  lemma AcquireAnswered(c: Config, a: Id, b: Id) returns (states: seq<Cluster>, steps: seq<Step>)
    requires a != b && ValidConfig(c)
    ensures IsRun(c, states, steps) && |states| == |steps| + 1
    ensures var s := states[|steps|];
            && s.now == T0 && s.wire == {}
            && Two(s, a, Replica(false, Answered(T0, true)), b, Replica(false, Idle(T0)))
            && s.register == Some(Register(BuildSpec(c, a, T0, T0, 0), 0, Some(a), T0))
  {
    states, steps := AcquireSent(c, a, b);
    hide BuildSpec, IsRun;
    var w := Write(a, T0, Create(BuildSpec(c, a, T0, T0, 0)), None, T0);
    states, steps := Extend(c, states, steps, Commit(w));
  }

  lemma AcquireSent(c: Config, a: Id, b: Id) returns (states: seq<Cluster>, steps: seq<Step>)
    requires a != b && ValidConfig(c)
    ensures IsRun(c, states, steps) && |states| == |steps| + 1
    ensures var w := Write(a, T0, Create(BuildSpec(c, a, T0, T0, 0)), None, T0);
            var s := states[|steps|];
            s.now == T0 && s.wire == {w} && s.register == None
                && Two(s, a, Replica(false, Writing(w)), b, Replica(false, Idle(T0)))
  {
    var s0 := Cluster(T0, None, map[a := Replica(false, Idle(T0)), b := Replica(false, Idle(T0))], {}, 0, 0);
    states, steps := [s0], [];
    assert IsRun(c, states, steps) && Two(s0, a, Replica(false, Idle(T0)), b, Replica(false, Idle(T0)));
    hide BuildSpec, IsRun;
    states, steps := Extend(c, states, steps, Begin(a));
    states, steps := Extend(c, states, steps, Get(a));
    states, steps := Extend(c, states, steps, Decide(a));
  }

  /** Replica a keeps leading until `until`: idle for a renew period, then in a renewal round. */
  lemma HoldOn(c: Config, a: Id, b: Id, until: int) returns (states: seq<Cluster>, steps: seq<Step>)
    requires a != b && ValidConfig(c) && T0 <= until <= T0 + c.renewPeriod + 2 * c.round
    ensures IsRun(c, states, steps) && |states| == |steps| + 1
    ensures var s := states[|steps|];
            && s.now == until && s.wire == {}
            && a in s.replicas && s.replicas[a].leading && InTime(c, s.replicas[a], until)
            && b in s.replicas && s.replicas[b] == Replica(false, Idle(T0))
            && s.register == Some(Register(BuildSpec(c, a, T0, T0, 0), 0, Some(a), T0))
  {
    hide BuildSpec, IsRun;
    states, steps := AcquireLate(c, a, b, until);
    var s := states[|steps|];
    states, steps := Extend(c, states, steps, Tick((if c.renewPeriod < until - s.now then c.renewPeriod
        else until - s.now)));
    s := states[|steps|];
    if s.now < until {
      states, steps := Extend(c, states, steps, Begin(a));
      states, steps := Extend(c, states, steps, Tick(until - s.now));
    }
  }

  /** Otherwise some run has two leaders at once. */
  lemma OverlapWithoutSafeTiming(c: Config, a: Id, b: Id) returns (states: seq<Cluster>, steps: seq<Step>)
    requires a != b && ValidConfig(c) && !LongEnough(c)
    ensures IsRun(c, states, steps) && |states| == |steps| + 1
    ensures var s := states[|steps|];
            a in s.replicas && b in s.replicas && s.replicas[a].leading && s.replicas[b].leading
  {
    var lasts := DurationSeconds(c) * SECOND;
    var until := if lasts < MICROSECOND then T0 else T0 + lasts - (MICROSECOND - 2);
    states, steps := HoldOn(c, a, b, until);
    var s := states[|steps|];
    var spec := s.register.value.spec;
    assert IsExpired(spec, until);
    hide BuildSpec, IsExpired, IsRun;
    states, steps := Extend(c, states, steps, Begin(b));
    states, steps := Extend(c, states, steps, Get(b));
    states, steps := Extend(c, states, steps, Decide(b));
    var d := TryAcquire(c, b, until, Some(Snapshot(spec, 0)), until);
    var w := Write(b, until, d, Some(Snapshot(spec, 0)), until);
    assert states[|steps|].wire == {w};
    states, steps := Extend(c, states, steps, Commit(w));
    states, steps := Extend(c, states, steps, Receive(b));
  }
}
