/** When an attempt to acquire or renew the lease goes through, and what it stores. */
module LeaseLiveness {
  import opened Wrappers
  import opened Lease

  // ---- an attempt among the steps of others ----

  /** A step that is not replica i's, and stores nothing. */
  predicate Aside(step: Step, i: Id) {
    match step
    case Tick(_) => true
    case Begin(j) => j != i
    case Get(j) => j != i
    case Decide(j) => j != i
    case GiveUp(j) => j != i
    case Receive(j) => j != i
    case Commit(_) => false
    case Lose(w) => w.author != i
  }

  ghost predicate OnlyAside(steps: seq<Step>, i: Id, lo: nat, hi: nat) {
    lo < hi <= |steps| && forall k :: lo < k < hi ==> Aside(steps[k], i)
  }

  /** What an attempt of replica i depends on. */
  ghost predicate SameFor(s: Cluster, s': Cluster, i: Id) {
    && s'.register == s.register && s'.now >= s.now
    && i in s.replicas && i in s'.replicas && s'.replicas[i] == s.replicas[i]
    && forall w :: w in s.wire && w.author == i ==> w in s'.wire
  }

  lemma AsideKeeps(c: Config, s: Cluster, step: Step, i: Id)
    requires ValidConfig(c) && Enabled(c, s, step) && Aside(step, i) && i in s.replicas
    ensures SameFor(s, Apply(c, s, step), i)
  {
    hide TryAcquire, TryRenew;
  }

  lemma {:induction false} AsidesKeep(c: Config, states: seq<Cluster>, steps: seq<Step>, i: Id, lo: nat, hi: nat)
    requires ValidConfig(c) && IsRun(c, states, steps) && OnlyAside(steps, i, lo, hi) && i in states[lo + 1].replicas
    ensures SameFor(states[lo + 1], states[hi], i)
    decreases hi
  {
    hide Apply, Enabled, Initial, Aside;
    if lo + 1 < hi {
      AsidesKeep(c, states, steps, i, lo, hi - 1);
      assert Aside(steps[hi - 1], i);
      AsideKeeps(c, states[hi - 1], steps[hi - 1], i);
    }
  }

  /** Replica i starts a round at step b, reads the lease at g and decides at d, and nothing is stored meanwhile. */
  ghost predicate Attempt(c: Config, states: seq<Cluster>, steps: seq<Step>, i: Id, b: nat, g: nat, d: nat)
    requires ValidConfig(c)
  {
    && IsRun(c, states, steps) && b < g < d < |steps|
    && steps[b] == Begin(i) && steps[g] == Get(i) && steps[d] == Decide(i)
    && OnlyAside(steps, i, b, g) && OnlyAside(steps, i, g, d)
  }

  lemma AttemptDecides(c: Config, states: seq<Cluster>, steps: seq<Step>, i: Id, b: nat, g: nat, d: nat)
    requires ValidConfig(c) && Attempt(c, states, steps, i, b, g, d)
    ensures i in states[b].replicas && i in states[d].replicas && states[d].register == states[b].register
    ensures states[d].replicas[i] ==
              Replica(states[b].replicas[i].leading, Fetched(states[b].now, SnapshotOf(states[b].register)))
    ensures states[d + 1] == Apply(c, states[d], Decide(i))
  {
    hide Initial, TryAcquire, TryRenew;
    assert Enabled(c, states[b], steps[b]) && states[b + 1] == Apply(c, states[b], steps[b]);
    AsidesKeep(c, states, steps, i, b, g);
    assert Enabled(c, states[g], steps[g]) && states[g + 1] == Apply(c, states[g], steps[g]);
    AsidesKeep(c, states, steps, i, g, d);
    assert Enabled(c, states[d], steps[d]);
  }

  // ---- acquiring ----

  predicate Names(spec: Spec, i: Id) {
    spec.holder == Some(i) || (spec.holder == None && i == "")
  }

  /** There is no lease, or it is the replica's own, or it has no usable times, or they have run out. */
  predicate Free(register: Option<Register>, i: Id, now: int) {
    register.Some? ==>
      var spec := register.value.spec;
      || Names(spec, i)
      || spec.renew.None? || spec.seconds.None? || spec.renew.value == 0
      || now > spec.renew.value + 1_000_000_000 * spec.seconds.value
  }

  /** The number of holder changes that a lease acquired by i carries, as an int32. */
  function Transitions(register: Option<Register>, i: Id): int {
    if register.None? then 0
    else
      var spec := register.value.spec;
      var n := if spec.transitions.Some? then spec.transitions.value else 0;
      if Names(spec, i) then n else if n == 2_147_483_647 then -2_147_483_648 else n + 1
  }

  /** What a replica that acquires the lease in a round begun at start stores. */
  predicate Acquired(c: Config, spec: Spec, i: Id, start: int, transitions: int) {
    && spec.holder == Some(i) && spec.seconds == Some(c.leaseDuration / 1_000_000_000)
    && spec.acquire == Some(start - start % 1_000) && spec.renew == Some(start - start % 1_000)
    && spec.transitions == Some(transitions)
  }

  function SpecOf(d: Decision): Spec
    requires !d.Refuse?
  {
    d.spec
  }

  /** An attempt of a replica that does not lead goes on to store the lease if and only if the lease is free. */
  lemma AcquiresIff(c: Config, states: seq<Cluster>, steps: seq<Step>, i: Id, b: nat, g: nat, d: nat)
    requires ValidConfig(c) && Attempt(c, states, steps, i, b, g, d) && i in states[b].replicas
    requires !states[b].replicas[i].leading
    ensures i in states[d + 1].replicas && !states[d + 1].replicas[i].leading
    ensures var s, r := states[b], states[d + 1].replicas[i];
            && (Free(s.register, i, states[d].now) <==> r.phase.Writing?)
            && (!Free(s.register, i, states[d].now) ==> r.phase.Idle?)
            && (r.phase.Writing? ==>
                  var w := r.phase.write;
                  && w in states[d + 1].wire && w.author == i && w.start == s.now && Accepts(s.register, w)
                  && Acquired(c, SpecOf(w.decision), i, s.now, Transitions(s.register, i)))
  {
    hide Attempt, Initial;
    AttemptDecides(c, states, steps, i, b, g, d);
  }

  /** After the decision at d, what replica i wrote reaches the server at m and is answered at v. */
  ghost predicate Completed(states: seq<Cluster>, steps: seq<Step>, i: Id, d: nat, m: nat, v: nat) {
    && d < m < v < |steps| < |states| && OnlyAside(steps, i, d, m) && OnlyAside(steps, i, m, v)
    && i in states[m].replicas && states[m].replicas[i].phase.Writing?
    && steps[m] == Commit(states[m].replicas[i].phase.write) && steps[v] == Receive(i)
  }

  /** And then, once it is stored and answered, the replica leads. */
  lemma AcquiredLeads(c: Config, states: seq<Cluster>, steps: seq<Step>, i: Id, b: nat, g: nat, d: nat, m: nat, v: nat)
    requires ValidConfig(c) && Attempt(c, states, steps, i, b, g, d) && i in states[b].replicas
    requires !states[b].replicas[i].leading && Free(states[b].register, i, states[d].now)
    requires Completed(states, steps, i, d, m, v)
    ensures i in states[v + 1].replicas && states[v + 1].replicas[i].leading
    ensures states[m + 1].register.Some?
    ensures Acquired(c, states[m + 1].register.value.spec, i, states[b].now, Transitions(states[b].register, i))
  {
    AcquiresIff(c, states, steps, i, b, g, d);
    AttemptDecides(c, states, steps, i, b, g, d);
    WrittenLeads(c, states, steps, i, d, m, v);
  }

  lemma WrittenLeads(c: Config, states: seq<Cluster>, steps: seq<Step>, i: Id, d: nat, m: nat, v: nat)
    requires ValidConfig(c) && IsRun(c, states, steps) && Completed(states, steps, i, d, m, v)
    requires i in states[d + 1].replicas && states[d + 1].replicas[i].phase.Writing?
    requires var w := states[d + 1].replicas[i].phase.write; w.author == i && Accepts(states[d + 1].register, w)
    ensures i in states[v + 1].replicas && states[v + 1].replicas[i].leading
    ensures states[m + 1].register.Some?
    ensures states[m + 1].register.value.spec == SpecOf(states[d + 1].replicas[i].phase.write.decision)
  {
    hide Initial, TryAcquire, TryRenew;
    AsidesKeep(c, states, steps, i, d, m);
    assert Enabled(c, states[m], steps[m]) && states[m + 1] == Apply(c, states[m], steps[m]);
    AsidesKeep(c, states, steps, i, m, v);
    assert Enabled(c, states[v], steps[v]) && states[v + 1] == Apply(c, states[v], steps[v]);
  }

  // ---- renewing ----

  /** What a leader that renews the lease in a round begun at start stores: only the renew time moves. */
  predicate Renewed(c: Config, was: Spec, spec: Spec, i: Id, start: int) {
    && spec.holder == Some(i) && spec.seconds == Some(c.leaseDuration / 1_000_000_000)
    && (was.acquire.Some? ==> spec.acquire == Some(was.acquire.value - was.acquire.value % 1_000))
    && (was.acquire.None? ==> spec.acquire == Some(start - start % 1_000))
    && spec.renew == Some(start - start % 1_000)
    && spec.transitions == Some(if was.transitions.Some? then was.transitions.value else 0)
  }

  /** A leader goes on to renew if and only if the lease is still there and its own; otherwise it steps down. */
  lemma RenewsIff(c: Config, states: seq<Cluster>, steps: seq<Step>, i: Id, b: nat, g: nat, d: nat)
    requires ValidConfig(c) && Attempt(c, states, steps, i, b, g, d) && i in states[b].replicas
    requires states[b].replicas[i].leading
    ensures i in states[d + 1].replicas
    ensures var s, r := states[b], states[d + 1].replicas[i];
            var own := s.register.Some? && Names(s.register.value.spec, i);
            && (own <==> r.phase.Writing?) && (own <==> r.leading) && (!own ==> r.phase.Idle?)
            && (own ==>
                  var w := r.phase.write;
                  && w in states[d + 1].wire && w.author == i && w.start == s.now && Accepts(s.register, w)
                  && Renewed(c, s.register.value.spec, SpecOf(w.decision), i, s.now))
  {
    hide Attempt, Initial;
    AttemptDecides(c, states, steps, i, b, g, d);
  }

  /** And then, once it is stored and answered, it still leads. */
  lemma RenewedLeads(c: Config, states: seq<Cluster>, steps: seq<Step>, i: Id, b: nat, g: nat, d: nat, m: nat, v: nat)
    requires ValidConfig(c) && Attempt(c, states, steps, i, b, g, d) && i in states[b].replicas
    requires states[b].replicas[i].leading && states[b].register.Some? && Names(states[b].register.value.spec, i)
    requires Completed(states, steps, i, d, m, v)
    ensures i in states[v + 1].replicas && states[v + 1].replicas[i].leading
    ensures states[m + 1].register.Some?
    ensures Renewed(c, states[b].register.value.spec, states[m + 1].register.value.spec, i, states[b].now)
  {
    RenewsIff(c, states, steps, i, b, g, d);
    AttemptDecides(c, states, steps, i, b, g, d);
    WrittenLeads(c, states, steps, i, d, m, v);
  }
}
