/** Runs of token operations, with storage calls that fail or not as each operation finds them. */
module TokenRuns {
  import opened Reachability
  import opened TokenSpec
  import opened TokenTree

  datatype Call =
    | CreateCall(id: Id, accessor: string, ttl: int, now: int, opts: seq<TokenOpt>)
    | RenewCall(id: Id, ttl: int, now: int)
    | RevokeCall(id: Id)
    | AccessorCall(accessor: string)
    | TreeCall(id: Id)
    | CollectCall(now: int)
    | CubbyCall(id: Id, path: string, value: string)

  /** looking is the storage as a call first looks things up, where it does so separately. */
  datatype Step = Step(call: Call, looking: Uptime, up: Uptime)

  datatype World = World(s: Tokens, h: History)

  ghost function TokenOf(call: Call): Token
    requires call.CreateCall?
  {
    ApplyOpts(Generated(call.id, call.accessor, call.ttl, call.now), call.opts)
  }

  ghost function Next(w: World, step: Step): World {
    var s, h, up := w.s, w.h, step.up;
    match step.call
    case CreateCall(id, _, _, _, _) =>
      var t := TokenOf(step.call);
      World(Stored(s, t, up), if up(PutRecord(id)) then Grown(h, t) else h)
    case RenewCall(id, ttl, now) =>
      var r := RenewResult(s, id, ttl, now, up);
      World(if r.Success? then Stored(s, r.value, up) else s, h)
    case RevokeCall(id) => Lessened(w, Cleared(s, {id}, up))
    case AccessorCall(accessor) => World(WithoutAccessor(s, accessor, step.looking, up), h)
    case TreeCall(id) => Lessened(w, TreeRevoked(s, id, up))
    case CollectCall(now) => Lessened(w, Cleared(s, Listed(s, now, step.looking), up))
    case CubbyCall(id, path, value) =>
      World(if id in s.tokens && up(PutCubby(id, path)) then s.(cubby := s.cubby[(id, path) := value]) else s, h)
  }

  ghost function Lessened(w: World, r: Tokens): World {
    World(r, Noted(w.h, w.s, r))
  }

  ghost function After(steps: seq<Step>): World
    decreases |steps|
  {
    if steps == [] then World(Tokens(map[], map[], {}, map[]), History({}, map[], 0, {}))
    else Next(After(steps[..|steps| - 1]), steps[|steps| - 1])
  }

  ghost predicate AllHealthy(steps: seq<Step>) {
    forall i :: 0 <= i < |steps| ==> Healthy(steps[i].looking) && Healthy(steps[i].up)
  }

  /** Ids and accessors are drawn afresh for every token, and unlike anything named before. */
  ghost predicate FreshDraws(steps: seq<Step>) {
    forall i :: 0 <= i < |steps| && steps[i].call.CreateCall? ==> FreshDraw(steps, i)
  }

  ghost predicate FreshDraw(steps: seq<Step>, i: nat)
    requires i < |steps| && steps[i].call.CreateCall?
  {
    var c := steps[i].call;
    && c.id != "" && c.accessor != "" && WithParent(c.id) !in c.opts
    && !NamesId(steps[..i], c.id) && !NamesAccessor(steps[..i], c.accessor)
  }

  ghost predicate NamesId(steps: seq<Step>, id: Id) {
    exists i :: 0 <= i < |steps| && steps[i].call.CreateCall? &&
      (steps[i].call.id == id || WithParent(id) in steps[i].call.opts)
  }

  ghost predicate NamesAccessor(steps: seq<Step>, accessor: string) {
    exists i :: 0 <= i < |steps| && steps[i].call.CreateCall? && steps[i].call.accessor == accessor
  }

  // ---- one more step ----

  lemma NamesMore(steps: seq<Step>, step: Step)
    ensures forall id :: NamesId(steps, id) ==> NamesId(steps + [step], id)
    ensures forall a :: NamesAccessor(steps, a) ==> NamesAccessor(steps + [step], a)
    ensures step.call.CreateCall? ==>
              && NamesId(steps + [step], step.call.id) && NamesAccessor(steps + [step], step.call.accessor)
              && forall p :: WithParent(p) in step.call.opts ==> NamesId(steps + [step], p)
  {
    var more := steps + [step];
    assert more[|steps|] == step && forall i :: 0 <= i < |steps| ==> more[i] == steps[i];
  }

  /** Whatever the world knows was named. */
  ghost predicate AllNamed(w: World, steps: seq<Step>) {
    && (forall id :: id in w.h.births ==> NamesId(steps, id))
    && (forall a :: a in w.s.accessors ==> NamesAccessor(steps, a))
    && (forall x :: x in w.s.tokens && w.s.tokens[x].accessor != "" ==> NamesAccessor(steps, w.s.tokens[x].accessor))
  }

  lemma NextNamed(w: World, steps: seq<Step>, step: Step)
    requires AllNamed(w, steps)
    ensures AllNamed(Next(w, step), steps + [step])
  {
    hide NamesId, NamesAccessor;
    NamesMore(steps, step);
    if step.call.CreateCall? {
      var blank := Generated(step.call.id, step.call.accessor, step.call.ttl, step.call.now);
      OrphanOptionWins(blank, step.call.opts);
      ParentFromOptions(blank, step.call.opts);
    }
  }

  ghost predicate Admissible(w: World, call: Call) {
    call.CreateCall? ==> Fresh(w.s, w.h, call.id, call.accessor) && WithParent(call.id) !in call.opts
  }

  lemma CubbyExact(s: Tokens, h: History, id: Id, path: string, value: string)
    requires Sound(s, h) && id in s.tokens
    ensures var r := s.(cubby := s.cubby[(id, path) := value]); Sound(r, h) && (Exact(s, h) ==> Exact(r, h))
  {
    var r := s.(cubby := s.cubby[(id, path) := value]);
    OtherCubbyhole(s, r, h);
    hide Sound, Accessible, LinksKept;
  }

  lemma CreateKeeps(w: World, step: Step)
    requires Sound(w.s, w.h) && step.call.CreateCall? && Admissible(w, step.call)
    ensures var n := Next(w, step);
            && Sound(n.s, n.h)
            && (Healthy(step.up) && Exact(w.s, w.h) ==> Exact(n.s, n.h))
  {
    hide Sound, Exact;
    var t, blank := TokenOf(step.call), Generated(step.call.id, step.call.accessor, step.call.ttl, step.call.now);
    OrphanOptionWins(blank, step.call.opts);
    ParentFromOptions(blank, step.call.opts);
    if step.up(PutRecord(t.id)) {
      CreatedSound(w.s, w.h, t, step.up);
      if Healthy(step.up) && Exact(w.s, w.h) {
        CreatedExact(w.s, w.h, t, step.up);
      }
    }
  }

  lemma LessKeeps(w: World, gone: set<Id>, up: Uptime)
    requires Sound(w.s, w.h)
    ensures var n := Lessened(w, Cleared(w.s, gone, up));
            Sound(n.s, n.h) && (Healthy(up) && Exact(w.s, w.h) ==> Exact(n.s, n.h))
  {
    hide Sound, Exact, Cleared;
    ClearedSound(w.s, w.h, gone, up);
    if Healthy(up) && Exact(w.s, w.h) {
      ClearedExact(w.s, w.h, gone, up);
    }
  }

  lemma NextKeeps(w: World, step: Step)
    requires Sound(w.s, w.h) && Admissible(w, step.call)
    ensures var n := Next(w, step);
            && Sound(n.s, n.h)
            && (Healthy(step.looking) && Healthy(step.up) && Exact(w.s, w.h) ==> Exact(n.s, n.h))
  {
    hide Sound, Exact, Cleared, Stored, WithoutAccessor, Lessened, Grown, Healthy, Listed, Subtree, Readable;
    var s, h, up, exact := w.s, w.h, step.up, Exact(w.s, w.h);
    match step.call
    case CreateCall(_, _, _, _, _) => CreateKeeps(w, step);
    case RenewCall(id, ttl, now) =>
      if RenewResult(s, id, ttl, now, up).Success? {
        var expiresAt := NewExpiry(s.tokens[id], ttl, now);
        RenewedSound(s, h, id, expiresAt, up);
        if exact {
          RenewedExact(s, h, id, expiresAt, up);
        }
      }
    case RevokeCall(id) => LessKeeps(w, {id}, up);
    case AccessorCall(accessor) =>
      UnlinkedSound(s, h, accessor, step.looking, up);
      if Healthy(step.looking) && Healthy(up) && exact {
        UnlinkedExact(s, h, accessor, step.looking, up);
      }
    case TreeCall(id) => LessKeeps(w, Subtree(Readable(s.children, up), id), up);
    case CollectCall(now) => LessKeeps(w, Listed(s, now, step.looking), up);
    case CubbyCall(id, path, value) =>
      if id in s.tokens {
        CubbyExact(s, h, id, path, value);
      }
  }

  lemma FreshIsAdmissible(w: World, steps: seq<Step>, i: nat)
    requires FreshDraws(steps) && i < |steps| && AllNamed(w, steps[..i])
    ensures Admissible(w, steps[i].call)
  {
    if steps[i].call.CreateCall? {
      assert FreshDraw(steps, i);
    }
  }

  // ---- every run ----

  /** Whatever fails, no entry of any reachable state is wrong; while nothing fails, all are exact. */
  lemma {:induction false} ReachableStates(steps: seq<Step>)
    requires FreshDraws(steps)
    ensures var w := After(steps); Sound(w.s, w.h) && AllNamed(w, steps) && (AllHealthy(steps) ==> Exact(w.s, w.h))
    decreases |steps|
  {
    hide Next, AllNamed, Admissible;
    if steps == [] {
      NothingYet();
    } else {
      var n := |steps| - 1;
      var before, w := steps[..n], After(steps[..n]);
      assert steps == before + [steps[n]];
      EarlierFresh(steps, n);
      ReachableStates(before);
      FreshIsAdmissible(w, steps, n);
      NextKeeps(w, steps[n]);
      NextNamed(w, before, steps[n]);
    }
  }

  lemma NothingYet()
    ensures var w := After([]); Sound(w.s, w.h) && AllNamed(w, []) && Exact(w.s, w.h)
  {}

  lemma EarlierFresh(steps: seq<Step>, n: nat)
    requires FreshDraws(steps) && n <= |steps|
    ensures FreshDraws(steps[..n])
  {
    hide NamesId, NamesAccessor;
    forall i | 0 <= i < n && steps[..n][i].call.CreateCall?
      ensures FreshDraw(steps[..n], i)
    {
      assert FreshDraw(steps, i);
      assert steps[..n][..i] == steps[..i];
    }
  }

  /** Neither an accessor nor cubbyhole data outlives its token in a run without failures, however the token went. */
  lemma {:induction false} NothingLeftBehind(steps: seq<Step>, x: Id)
    requires FreshDraws(steps) && AllHealthy(steps) && x !in After(steps).s.tokens
    ensures forall a :: a in After(steps).s.accessors ==> After(steps).s.accessors[a] != x
    ensures forall k :: k in After(steps).s.cubby ==> k.0 != x
  {
    hide After, Sound, FreshDraws;
    ReachableStates(steps);
  }

  // ---- what the history stands for ----

  /** A token was stored as a child of another. */
  ghost predicate LinkMade(steps: seq<Step>, e: (Id, Id)) {
    exists i :: 0 <= i < |steps| && LinksAt(steps[i], e)
  }

  ghost predicate LinksAt(step: Step, e: (Id, Id)) {
    && step.call.CreateCall? && step.up(PutRecord(step.call.id))
    && Linked(TokenOf(step.call)) && e == (TokenOf(step.call).parent, step.call.id)
  }

  /** A live token went in a step other than a revocation by accessor. */
  ghost predicate RemovedInRun(steps: seq<Step>, x: Id) {
    exists i :: 0 <= i < |steps| && RemovedAt(steps, i, x)
  }

  ghost predicate RemovedAt(steps: seq<Step>, i: nat, x: Id)
    requires i < |steps|
  {
    !steps[i].call.AccessorCall? && x in After(steps[..i]).s.tokens && x !in After(steps[..i + 1]).s.tokens
  }

  lemma NextHistory(w: World, step: Step)
    ensures var n := Next(w, step);
            && (forall e :: e in n.h.links <==> e in w.h.links || LinksAt(step, e))
            && (forall x :: x in n.h.removed <==>
                  x in w.h.removed || (!step.call.AccessorCall? && x in w.s.tokens && x !in n.s.tokens))
  {
    hide Cleared, WithoutAccessor;
    if step.call.CreateCall? {
      OrphanOptionWins(Generated(step.call.id, step.call.accessor, step.call.ttl, step.call.now), step.call.opts);
    }
  }

  lemma {:induction false} HistoryIs(steps: seq<Step>)
    ensures forall e :: e in After(steps).h.links <==> LinkMade(steps, e)
    ensures forall x :: x in After(steps).h.removed <==> RemovedInRun(steps, x)
    decreases |steps|
  {
    hide Next, LinksAt;
    if steps != [] {
      var n := |steps| - 1;
      HistoryIs(steps[..n]);
      NextHistory(After(steps[..n]), steps[n]);
      assert steps[..n + 1] == steps;
      LinkMadeLast(steps, n);
      RemovedLast(steps, n);
    }
  }

  lemma LinkMadeLast(steps: seq<Step>, n: nat)
    requires n + 1 == |steps|
    ensures forall e :: LinkMade(steps, e) <==> LinkMade(steps[..n], e) || LinksAt(steps[n], e)
  {
    hide LinksAt;
    assert forall i :: 0 <= i < n ==> steps[..n][i] == steps[i];
  }

  lemma RemovedLast(steps: seq<Step>, n: nat)
    requires n + 1 == |steps|
    ensures forall x :: RemovedInRun(steps, x) <==> RemovedInRun(steps[..n], x) || RemovedAt(steps, n, x)
  {
    forall i, x | 0 <= i < n
      ensures RemovedAt(steps[..n], i, x) == RemovedAt(steps, i, x)
    {
      assert steps[..n][..i] == steps[..i] && steps[..n][..i + 1] == steps[..i + 1];
    }
  }

  /** After any run without failures, a live token created under id, through any number of links, survives a tree
      revocation of id if and only if its record cannot be deleted or a link on the way is broken: the token at its
      lower end was removed in the run, other than by accessor, or its index entry cannot be listed or read. */
  lemma {:induction false} SurvivorsIff(steps: seq<Step>, id: Id, up: Uptime, x: Id)
    requires FreshDraws(steps) && AllHealthy(steps)
    requires x in After(steps).s.tokens && Reaches(After(steps).h.links, id, x)
    ensures var w := After(steps);
            x in TreeRevoked(w.s, id, up).tokens <==>
            || !up(DeleteRecord(x))
            || exists e :: OnTheWay(w.h.links, id, e, x) &&
                 (RemovedInRun(steps, e.1) || !up(ListChildren(e.0)) || !up(ReadChild(e.0, e.1)))
  {
    hide After, Exact, Sound, FreshDraws, AllNamed, TreeRevoked, OnTheWay, RemovedInRun, LinkMade;
    ReachableStates(steps);
    HistoryIs(steps);
    SurvivesIff(After(steps).s, After(steps).h, id, up, x);
  }

  // ---- the run itself ----

  method Run(steps: seq<Step>) returns (core: Core)
    requires FreshDraws(steps)
    ensures core.State() == After(steps).s && core.history == After(steps).h && core.Valid()
    ensures AllHealthy(steps) ==> Exact(core.State(), core.history)
  {
    hide Sound, Exact, Next, AllNamed, AllHealthy, FreshDraws;
    core := new Core();
    ReachableStates(steps);
    for i := 0 to |steps|
      invariant fresh(core) && core.Valid()
      invariant core.State() == After(steps[..i]).s && core.history == After(steps[..i]).h
    {
      EarlierFresh(steps, i);
      ReachableStates(steps[..i]);
      FreshIsAdmissible(After(steps[..i]), steps, i);
      assert steps[..i + 1][..i] == steps[..i];
      Perform(core, steps[i]);
    }
    assert steps[..|steps|] == steps;
  }

  method Perform(core: Core, step: Step)
    requires core.Valid() && Admissible(World(core.State(), core.history), step.call)
    modifies core
    ensures World(core.State(), core.history) == Next(old(World(core.State(), core.history)), step) && core.Valid()
  {
    hide Sound, Exact, Cleared, Stored, WithoutAccessor, Grown, Healthy, Removed, Subtree, Readable, Noted;
    match step.call
    case CreateCall(id, accessor, ttl, now, opts) =>
      var _ := core.CreateToken(id, accessor, ttl, now, opts, step.up);
    case RenewCall(id, ttl, now) =>
      var _ := core.RenewToken(id, ttl, now, step.up);
    case RevokeCall(id) =>
      var _ := core.RevokeToken(id, step.up);
    case AccessorCall(accessor) =>
      var _ := core.RevokeTokenByAccessor(accessor, step.looking, step.up);
    case TreeCall(id) =>
      var _ := core.RevokeTokenTree(id, step.up);
    case CollectCall(now) =>
      var listed := core.ListExpired(now, step.looking);
      if listed.Success? {
        core.CollectTokens(listed.value, step.up);
      } else {
        ClearedNone(core.State(), step.up);
        NotedNone(core.State(), core.history);
      }
    case CubbyCall(id, path, value) =>
      if id in core.tokens {
        var _ := core.PutCubbyhole(id, path, value, step.up);
      }
  }
}
