/** internal/operator/leader.go: lease-based leader election as a timed state machine.

    Replicas share one API-server register and one clock (nanoseconds since the zero time).  A
    replica's attempt is a round: read the clock, GET the lease, decide, PUT.  A PUT that the
    replica has given up on may still reach the server later. */
module Lease {
  import opened Wrappers

  type Id = string

  const SECOND := 1_000_000_000
  const MICROSECOND := 1_000

  /** RenewPeriod, the longest a round may take, and LeaseDuration, in nanoseconds. */
  datatype Config = Config(renewPeriod: int, round: int, leaseDuration: int)

  predicate ValidConfig(c: Config) {
    c.renewPeriod >= 0 && c.round >= 0 && c.leaseDuration >= 0
  }

  /** The duration a lease carries: whole seconds only. */
  function DurationSeconds(c: Config): int
    requires ValidConfig(c)
  {
    c.leaseDuration / SECOND
  }

  /** Every field of a Lease spec is optional on the wire; unparsable times count as absent. */
  datatype Spec = Spec(holder: Option<Id>, seconds: Option<int>, acquire: Option<int>, renew: Option<int>,
      transitions: Option<int>)

  /** Times are written with microsecond precision. */
  function Format(t: int): int {
    t - t % MICROSECOND
  }

  function Wrap32(n: int): int {
    (n + 0x8000_0000) % 0x1_0000_0000 - 0x8000_0000
  }

  /** int32 increment. */
  function Increment32(n: int): int {
    if n == 0x7fff_ffff then -0x8000_0000 else n + 1
  }

  function HolderOf(s: Spec): Id {
    match s.holder case Some(h) => h case None => ""
  }

  function TransitionsOf(s: Spec): int {
    match s.transitions case Some(n) => n case None => 0
  }

  predicate IsExpired(s: Spec, now: int) {
    s.renew.None? || s.seconds.None? || s.renew.value == 0 || now > s.renew.value + s.seconds.value * SECOND
  }

  function BuildSpec(c: Config, id: Id, acquire: int, renew: int, transitions: int): Spec
    requires ValidConfig(c)
  {
    Spec(Some(id), Some(DurationSeconds(c)), Some(Format(acquire)), Some(Format(renew)), Some(transitions))
  }

  // ---- what a round writes ----

  datatype Snapshot = Snapshot(spec: Spec, version: nat)

  datatype Decision = Refuse | Create(spec: Spec) | Update(base: nat, spec: Spec)

  /** tryAcquire after its GET: `start` is the clock at the start of the round, `now` at the expiry check. */
  function TryAcquire(c: Config, id: Id, start: int, seen: Option<Snapshot>, now: int): Decision
    requires ValidConfig(c)
  {
    match seen
    case None => Create(BuildSpec(c, id, start, start, 0))
    case Some(snap) =>
      var holderIsUs := HolderOf(snap.spec) == id;
      if !holderIsUs && !IsExpired(snap.spec, now) then Refuse
      else
        var transitions := if holderIsUs then TransitionsOf(snap.spec) else Increment32(TransitionsOf(snap.spec));
        Update(snap.version, BuildSpec(c, id, start, start, transitions))
  }

  /** tryRenew after its GET. */
  function TryRenew(c: Config, id: Id, start: int, seen: Option<Snapshot>): Decision
    requires ValidConfig(c)
  {
    match seen
    case None => Refuse
    case Some(snap) =>
      if HolderOf(snap.spec) != id then Refuse
      else
        var acquired := match snap.spec.acquire case Some(a) => a case None => start;
        Update(snap.version, BuildSpec(c, id, acquired, start, TransitionsOf(snap.spec)))
  }

  // ---- the cluster ----

  /** A PUT in flight, with the snapshot its decision was based on and the clock of that decision. */
  datatype Write = Write(author: Id, start: int, decision: Decision, seen: Option<Snapshot>, decided: int)

  datatype Phase = Idle(since: int) | Started(start: int) | Fetched(start: int, seen: Option<Snapshot>)
                 | Writing(write: Write) | Answered(start: int, ok: bool)

  /** `leading` spans from a successful acquisition to leadCancel. */
  datatype Replica = Replica(leading: bool, phase: Phase)

  /** The stored lease; `writer` and `start` record which round wrote it. */
  datatype Register = Register(spec: Spec, version: nat, writer: Option<Id>, start: int)

  datatype Cluster = Cluster(now: int, register: Option<Register>, replicas: map<Id, Replica>, wire: set<Write>,
                             origin: int, holderChanges: nat)

  datatype Step = Tick(d: nat) | Begin(i: Id) | Get(i: Id) | Decide(i: Id) | GiveUp(i: Id) | Receive(i: Id)
                | Commit(w: Write) | Lose(w: Write)

  /** The latest time until which a replica can stay in its phase. */
  predicate InTime(c: Config, r: Replica, now: int) {
    match r.phase
    case Idle(since) => r.leading ==> now <= since + c.renewPeriod
    case Started(n) => now <= n + c.round
    case Fetched(n, _) => now <= n + c.round
    case Writing(w) => now <= w.start + c.round
    case Answered(n, _) => now <= n + c.round
  }

  predicate Accepts(reg: Option<Register>, w: Write) {
    match w.decision
    case Create(_) => reg.None?
    case Update(base, _) => reg.Some? && reg.value.version == base
    case Refuse => false
  }

  ghost predicate Enabled(c: Config, s: Cluster, step: Step) {
    match step
    case Tick(d) => forall i :: i in s.replicas ==> InTime(c, s.replicas[i], s.now + d)
    case Begin(i) => i in s.replicas && s.replicas[i].phase.Idle?
    case Get(i) => i in s.replicas && s.replicas[i].phase.Started?
    case Decide(i) => i in s.replicas && s.replicas[i].phase.Fetched?
    case GiveUp(i) => i in s.replicas
    case Receive(i) => i in s.replicas && s.replicas[i].phase.Answered?
    case Commit(w) => w in s.wire
    case Lose(w) => w in s.wire
  }

  function SetReplica(s: Cluster, i: Id, r: Replica): Cluster {
    s.(replicas := s.replicas[i := r])
  }

  function SnapshotOf(reg: Option<Register>): Option<Snapshot> {
    match reg case None => None case Some(r) => Some(Snapshot(r.spec, r.version))
  }

  /** The server handles a PUT: optimistic concurrency on the resource version. */
  function Stored(reg: Option<Register>, w: Write): Option<Register> {
    if !Accepts(reg, w) then reg
    else match w.decision
      case Create(spec) => Some(Register(spec, 0, Some(w.author), w.start))
      case Update(_, spec) => Some(Register(spec, reg.value.version + 1, Some(w.author), w.start))
  }

  function Apply(c: Config, s: Cluster, step: Step): Cluster
    requires ValidConfig(c) && Enabled(c, s, step)
  {
    match step
    case Tick(d) => s.(now := s.now + d)
    case Begin(i) => SetReplica(s, i, s.replicas[i].(phase := Started(s.now)))
    case Get(i) =>
      var r := s.replicas[i];
      SetReplica(s, i, r.(phase := Fetched(r.phase.start, SnapshotOf(s.register))))
    case Decide(i) =>
      var r := s.replicas[i];
      var start, seen := r.phase.start, r.phase.seen;
      var decision := if r.leading then TryRenew(c, i, start, seen) else TryAcquire(c, i, start, seen, s.now);
      if decision.Refuse? then SetReplica(s, i, Replica(false, Idle(s.now)))
      else
        var w := Write(i, start, decision, seen, s.now);
        SetReplica(s, i, r.(phase := Writing(w))).(wire := s.wire + {w})
    case GiveUp(i) => SetReplica(s, i, Replica(false, Idle(s.now)))
    case Receive(i) => SetReplica(s, i, Replica(s.replicas[i].phase.ok, Idle(s.now)))
    case Commit(w) =>
      var register' := Stored(s.register, w);
      var waiting := w.author in s.replicas && s.replicas[w.author].phase == Writing(w);
      var changed := s.register.Some? && register'.Some?
          && HolderOf(s.register.value.spec) != HolderOf(register'.value.spec);
      s.(register := register', wire := s.wire - {w},
         holderChanges := s.holderChanges + (if changed then 1 else 0),
         replicas := if waiting
           then s.replicas[w.author := s.replicas[w.author].(phase := Answered(w.start, Accepts(s.register, w)))]
           else s.replicas)
    case Lose(w) => s.(wire := s.wire - {w})
  }

  /** Any existing lease (or none), nobody leading, nothing in flight. */
  ghost predicate Initial(s: Cluster) {
    && s.now >= MICROSECOND && s.wire == {} && s.holderChanges == 0
    && (forall i :: i in s.replicas ==> !s.replicas[i].leading && s.replicas[i].phase.Idle?)
    && (match s.register
        case None => s.origin == 0
        case Some(r) => r.writer.None? && s.origin == TransitionsOf(r.spec) == Wrap32(TransitionsOf(r.spec)))
  }

  /** An interleaving: the states passed through, and the step taken from each. */
  ghost predicate IsRun(c: Config, states: seq<Cluster>, steps: seq<Step>)
    requires ValidConfig(c)
  {
    && |states| == |steps| + 1 && Initial(states[0])
    && forall k :: 0 <= k < |steps| ==>
            Enabled(c, states[k], steps[k]) && states[k + 1] == Apply(c, states[k], steps[k])
  }
}
