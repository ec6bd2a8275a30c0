/** What holds in every interleaving of the election: a lease changes hands only after it has
    expired, and with suitable timing no two replicas lead at once. */
module LeaseSafety {
  import opened Wrappers
  import opened Lease

  // ---- untimed invariant: every decision was based on a snapshot the server can recognise ----

  /** A snapshot is older than the register or equal to it. */
  ghost predicate Fits(reg: Option<Register>, seen: Option<Snapshot>) {
    seen.Some? ==>
      && reg.Some? && seen.value.version <= reg.value.version
      && (seen.value.version == reg.value.version ==> seen.value.spec == reg.value.spec)
  }

  /** A PUT in flight stamps its author, its start and its duration; it takes a lease from another
      holder only if that lease had expired when it decided. */
  ghost predicate Justified(c: Config, w: Write)
    requires ValidConfig(c)
  {
    match w.decision
    case Refuse => false
    case Create(spec) => spec == BuildSpec(c, w.author, w.start, w.start, 0) && w.seen.None?
    case Update(base, spec) =>
      && w.seen.Some? && base == w.seen.value.version
      && spec.holder == Some(w.author) && spec.seconds == Some(DurationSeconds(c))
          && spec.renew == Some(Format(w.start))
      && (if HolderOf(w.seen.value.spec) == w.author
          then TransitionsOf(spec) == TransitionsOf(w.seen.value.spec)
          else
            && IsExpired(w.seen.value.spec, w.decided)
            && TransitionsOf(spec) == Increment32(TransitionsOf(w.seen.value.spec)))
  }

  ghost predicate WriteOk(c: Config, s: Cluster, w: Write)
    requires ValidConfig(c)
  {
    MICROSECOND <= w.start <= w.decided <= s.now && Fits(s.register, w.seen) && Justified(c, w)
  }

  function StartOf(p: Phase): Option<int> {
    match p
    case Idle(_) => None
    case Started(n) => Some(n)
    case Fetched(n, _) => Some(n)
    case Writing(w) => Some(w.start)
    case Answered(n, _) => Some(n)
  }

  ghost predicate PhaseOk(s: Cluster, i: Id, p: Phase) {
    && (StartOf(p).Some? ==> MICROSECOND <= StartOf(p).value <= s.now)
    && (p.Fetched? ==> Fits(s.register, p.seen))
    && (p.Writing? ==> p.write.author == i)
  }

  /** LeaseTransitions counts the holder changes. */
  ghost predicate Counted(s: Cluster) {
    match s.register
    case None => s.origin == 0 && s.holderChanges == 0
    case Some(r) => TransitionsOf(r.spec) == Wrap32(s.origin + s.holderChanges)
  }

  ghost predicate Inv(c: Config, s: Cluster)
    requires ValidConfig(c)
  {
    && s.now >= MICROSECOND && Counted(s)
    && (forall w :: w in s.wire ==> WriteOk(c, s, w))
    && (forall i :: i in s.replicas ==> PhaseOk(s, i, s.replicas[i].phase))
  }

  lemma DecideJustified(c: Config, leading: bool, i: Id, start: int, seen: Option<Snapshot>, now: int)
    requires ValidConfig(c)
    ensures var d := if leading then TryRenew(c, i, start, seen) else TryAcquire(c, i, start, seen, now);
            d.Refuse? || Justified(c, Write(i, start, d, seen, now))
  {}

  lemma Increment32Wraps(n: int)
    ensures Increment32(Wrap32(n)) == Wrap32(n + 1)
  {}

  /** Committing keeps every snapshot recognisable: the version only grows. */
  lemma CommitFits(c: Config, s: Cluster, w: Write, seen: Option<Snapshot>)
    requires ValidConfig(c) && WriteOk(c, s, w) && Fits(s.register, seen)
    ensures Fits(Stored(s.register, w), seen)
  {}

  lemma CommitCounted(c: Config, s: Cluster, w: Write)
    requires ValidConfig(c) && Inv(c, s) && w in s.wire
    ensures Counted(Apply(c, s, Commit(w)))
  {
    hide Wrap32, Increment32;
    assert WriteOk(c, s, w);
    Increment32Wraps(s.origin + s.holderChanges);
    assert Wrap32(0) == 0 by { WrapZero(); }
  }

  lemma WrapZero()
    ensures Wrap32(0) == 0
  {}

  lemma InvStep(c: Config, s: Cluster, step: Step)
    requires ValidConfig(c) && Inv(c, s) && Enabled(c, s, step)
    ensures Inv(c, Apply(c, s, step))
  {
    hide Wrap32, Increment32, Justified, IsExpired, TryRenew, TryAcquire, BuildSpec;
    var s' := Apply(c, s, step);
    match step
    case Commit(w) =>
      hide Stored, Accepts;
      CommitCounted(c, s, w);
      forall w' | w' in s'.wire
        ensures WriteOk(c, s', w')
      {
        CommitFits(c, s, w, w'.seen);
      }
      forall i | i in s'.replicas
        ensures PhaseOk(s', i, s'.replicas[i].phase)
      {
        if s.replicas[i].phase.Fetched? {
          CommitFits(c, s, w, s.replicas[i].phase.seen);
        }
      }
    case Decide(i) =>
      var r := s.replicas[i];
      assert PhaseOk(s, i, r.phase);
      DecideJustified(c, r.leading, i, r.phase.start, r.phase.seen, s.now);
    case _ =>
  }

  /** The holder changes only by a commit, and only when the stored lease has expired. */
  lemma TakeoverNeedsExpiry(c: Config, s: Cluster, step: Step)
    requires ValidConfig(c) && Inv(c, s) && Enabled(c, s, step) && s.register.Some?
    ensures var s' := Apply(c, s, step);
            && s'.register.Some?
            && (HolderOf(s'.register.value.spec) != HolderOf(s.register.value.spec) ==>
                IsExpired(s.register.value.spec, s.now))
  {
    if step.Commit? {
      assert WriteOk(c, s, step.w);
    }
  }

  // ---- timed invariant: a leader's lease is always younger than its duration ----

  /** RenewPeriod plus two rounds, plus the part of a microsecond that formatting cuts off. */
  predicate SafeTiming(c: Config)
    requires ValidConfig(c)
  {
    c.renewPeriod + 2 * c.round + (MICROSECOND - 1) <= DurationSeconds(c) * SECOND
  }

  /** Replica i wrote the stored lease in a round that began at reg.start. */
  ghost predicate Owns(c: Config, reg: Option<Register>, i: Id)
    requires ValidConfig(c)
  {
    && reg.Some? && reg.value.writer == Some(i) && reg.value.start >= MICROSECOND
    && reg.value.spec.holder == Some(i) && reg.value.spec.seconds == Some(DurationSeconds(c))
    && reg.value.spec.renew == Some(Format(reg.value.start))
  }

  /** How long ago a leader's stored lease can have been started. */
  ghost predicate Recent(c: Config, start: int, p: Phase) {
    match p
    case Idle(since) => since <= start + c.round
    case _ => StartOf(p).value <= start + c.round + c.renewPeriod
  }

  ghost predicate ReplicaTimed(c: Config, s: Cluster, i: Id, r: Replica)
    requires ValidConfig(c)
  {
    && InTime(c, r, s.now)
    && (r.leading ==> Owns(c, s.register, i) && Recent(c, s.register.value.start, r.phase))
    && (r.phase.Answered? && r.phase.ok ==>
          && Owns(c, s.register, i) && s.register.value.start == r.phase.start
          && forall w :: w in s.wire && w.author == i && w.decision.Update? ==>
              w.decision.base < s.register.value.version)
    && (StartOf(r.phase).Some? ==>
          && (s.register.Some? && s.register.value.writer == Some(i) ==>
              s.register.value.start <= StartOf(r.phase).value)
          && forall w :: w in s.wire && w.author == i ==> w.start <= StartOf(r.phase).value)
  }

  /** A replica's later PUTs carry later times. */
  ghost predicate WriteTimed(s: Cluster, w: Write) {
    (s.register.Some? && s.register.value.writer == Some(w.author) && w.decision.Update?
        && w.decision.base == s.register.value.version)
    ==> s.register.value.start <= w.start
  }

  ghost predicate TimedInv(c: Config, s: Cluster)
    requires ValidConfig(c)
  {
    && Inv(c, s)
    && (s.register.Some? && s.register.value.writer.Some? ==> s.register.value.start <= s.now)
    && (forall w :: w in s.wire ==> WriteTimed(s, w))
    && (forall i :: i in s.replicas ==> ReplicaTimed(c, s, i, s.replicas[i]))
  }

  /** A lease no older than SafeTiming allows has not expired. */
  lemma NotExpired(c: Config, reg: Option<Register>, i: Id, now: int)
    requires ValidConfig(c) && SafeTiming(c) && Owns(c, reg, i)
    requires now <= reg.value.start + c.renewPeriod + 2 * c.round
    ensures !IsExpired(reg.value.spec, now)
  {}

  /** While a replica leads, or is about to, its lease has not expired. */
  lemma LeaderNotExpired(c: Config, s: Cluster, i: Id)
    requires ValidConfig(c) && SafeTiming(c) && TimedInv(c, s) && i in s.replicas
    requires s.replicas[i].leading || (s.replicas[i].phase.Answered? && s.replicas[i].phase.ok)
    ensures Owns(c, s.register, i) && !IsExpired(s.register.value.spec, s.now)
  {
    hide IsExpired, Inv;
    var r := s.replicas[i];
    assert ReplicaTimed(c, s, i, r);
    NotExpired(c, s.register, i, s.now);
  }

  lemma ExpiryIsMonotone(spec: Spec, a: int, b: int)
    requires a <= b && IsExpired(spec, a)
    ensures IsExpired(spec, b)
  {}

  /** So no PUT of another replica can be accepted meanwhile. */
  lemma OthersRejected(c: Config, s: Cluster, i: Id, w: Write)
    requires ValidConfig(c) && SafeTiming(c) && TimedInv(c, s) && i in s.replicas && w in s.wire && w.author != i
    requires s.replicas[i].leading || (s.replicas[i].phase.Answered? && s.replicas[i].phase.ok)
    ensures !Accepts(s.register, w)
  {
    hide IsExpired;
    LeaderNotExpired(c, s, i);
    assert WriteOk(c, s, w);
    if Accepts(s.register, w) {
      ExpiryIsMonotone(s.register.value.spec, w.decided, s.now);
    }
  }

  lemma CommitWriteTimed(c: Config, s: Cluster, w: Write, w': Write)
    requires ValidConfig(c) && TimedInv(c, s) && w in s.wire && w' in s.wire
    ensures WriteTimed(Apply(c, s, Commit(w)), w')
  {
    hide IsExpired, Justified;
    assert WriteOk(c, s, w) && WriteOk(c, s, w') && WriteTimed(s, w');
    if w'.decision.Update? {
      BaseFits(c, s, w');
    }
  }

  lemma BaseFits(c: Config, s: Cluster, w: Write)
    requires ValidConfig(c) && WriteOk(c, s, w) && w.decision.Update?
    ensures s.register.Some? && w.decision.base <= s.register.value.version
  {}

  /** An accepted commit, seen from the replica that waits for it or leads. */
  lemma CommitReplicaTimed(c: Config, s: Cluster, w: Write, i: Id)
    requires ValidConfig(c) && SafeTiming(c) && TimedInv(c, s) && w in s.wire && i in s.replicas
    ensures var s' := Apply(c, s, Commit(w)); ReplicaTimed(c, s', i, s'.replicas[i])
  {
    hide IsExpired;
    var r := s.replicas[i];
    assert ReplicaTimed(c, s, i, r) && WriteOk(c, s, w) && WriteTimed(s, w) && PhaseOk(s, i, r.phase);
    if Accepts(s.register, w) {
      if w.author != i && (r.leading || (r.phase.Answered? && r.phase.ok)) {
        OthersRejected(c, s, i, w);
      }
      forall w' | w' in s.wire && w'.decision.Update?
        ensures s.register.Some? && w'.decision.base <= s.register.value.version
      {
        BaseFits(c, s, w');
      }
    }
  }

  /** A replica none of whose data changed. */
  lemma BystanderTimed(c: Config, s: Cluster, s': Cluster, j: Id, r: Replica)
    requires ValidConfig(c) && ReplicaTimed(c, s, j, r) && s'.register == s.register && s'.now == s.now
    requires forall w :: w in s'.wire && w.author == j ==> w in s.wire
    ensures ReplicaTimed(c, s', j, r)
  {}

  /** The replica that takes a step of its own. */
  lemma MoverTimed(c: Config, s: Cluster, step: Step, i: Id)
    requires ValidConfig(c) && TimedInv(c, s) && Enabled(c, s, step)
    requires step == Begin(i) || step == Get(i) || step == Decide(i) || step == GiveUp(i) || step == Receive(i)
    ensures var s' := Apply(c, s, step); ReplicaTimed(c, s', i, s'.replicas[i])
  {
    hide IsExpired, Justified, TryRenew, TryAcquire, Counted, Fits;
    assert ReplicaTimed(c, s, i, s.replicas[i]) && PhaseOk(s, i, s.replicas[i].phase);
    assert forall w :: w in s.wire ==> w.start <= s.now by {
      forall w | w in s.wire
        ensures w.start <= s.now
      {
        assert WriteOk(c, s, w);
      }
    }
    hide Inv;
  }

  /** Steps of one replica: only that replica's entry and the wire change. */
  lemma LocalTimed(c: Config, s: Cluster, step: Step, i: Id)
    requires ValidConfig(c) && TimedInv(c, s) && Enabled(c, s, step)
    requires step == Begin(i) || step == Get(i) || step == Decide(i) || step == GiveUp(i) || step == Receive(i)
    ensures var s' := Apply(c, s, step);
            (forall j :: j in s'.replicas ==> ReplicaTimed(c, s', j, s'.replicas[j]))
                && (forall w :: w in s'.wire ==> WriteTimed(s', w))
  {
    hide IsExpired, Justified, TryRenew, TryAcquire, Inv;
    var s' := Apply(c, s, step);
    MoverTimed(c, s, step, i);
    assert ReplicaTimed(c, s, i, s.replicas[i]);
    assert forall w :: w in s'.wire ==> WriteTimed(s', w);
    hide ReplicaTimed;
    forall j | j in s'.replicas && j != i
      ensures ReplicaTimed(c, s', j, s'.replicas[j])
    {
      BystanderTimed(c, s, s', j, s.replicas[j]);
    }
  }

  lemma TimedStep(c: Config, s: Cluster, step: Step)
    requires ValidConfig(c) && SafeTiming(c) && TimedInv(c, s) && Enabled(c, s, step)
    ensures TimedInv(c, Apply(c, s, step))
  {
    hide IsExpired, Justified, TryRenew, TryAcquire;
    InvStep(c, s, step);
    var s' := Apply(c, s, step);
    match step
    case Tick(d) =>
      hide Inv;
      forall i | i in s'.replicas
        ensures ReplicaTimed(c, s', i, s'.replicas[i])
      {
        assert ReplicaTimed(c, s, i, s.replicas[i]);
      }
    case Lose(w) =>
      hide Inv;
      forall i | i in s'.replicas
        ensures ReplicaTimed(c, s', i, s'.replicas[i])
      {
        assert ReplicaTimed(c, s, i, s.replicas[i]);
      }
    case Begin(i) => hide Inv; LocalTimed(c, s, step, i);
    case Get(i) => hide Inv; LocalTimed(c, s, step, i);
    case Decide(i) => hide Inv; LocalTimed(c, s, step, i);
    case GiveUp(i) => hide Inv; LocalTimed(c, s, step, i);
    case Receive(i) => hide Inv; LocalTimed(c, s, step, i);
    case Commit(w) =>
      assert WriteOk(c, s, w);
      hide Inv;
      forall w' | w' in s'.wire
        ensures WriteTimed(s', w')
      {
        CommitWriteTimed(c, s, w, w');
      }
      forall i | i in s'.replicas
        ensures ReplicaTimed(c, s', i, s'.replicas[i])
      {
        CommitReplicaTimed(c, s, w, i);
      }
  }
}
