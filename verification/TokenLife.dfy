/** How long tokens live, in terms of the calls of a run without failures. */
module TokenLife {
  import opened TokenRuns
  import opened TokenSpec
  import opened TokenTree
  import opened Wrappers

  // ---- what a creation asks for ----

  predicate Renewable(opts: seq<TokenOpt>) {
    exists o :: o in opts && (o.WithRenewable? || o.WithPeriod?)
  }

  /** The cap on the lifetime, as the last option that names one says; 0 if none does. */
  function Cap(opts: seq<TokenOpt>): int {
    if opts == [] then 0
    else
      var last := opts[|opts| - 1];
      if last.WithRenewable? then last.maxTtl else Cap(opts[..|opts| - 1])
  }

  /** The period, likewise. */
  function Period(opts: seq<TokenOpt>): int {
    if opts == [] then 0
    else
      var last := opts[|opts| - 1];
      if last.WithPeriod? then last.period else Period(opts[..|opts| - 1])
  }

  /** A new token expires ttl after its creation, and never if that is not positive. */
  function FirstExpiry(create: Call): Option<int>
    requires create.CreateCall?
  {
    if create.ttl > 0 then Some(create.now + create.ttl) else None
  }

  /** A renewed one expires after its period, or else after the time asked for, an hour by default, but not after its
      cap. */
  function NextExpiry(create: Call, renew: Call): int
    requires create.CreateCall? && renew.RenewCall?
  {
    var period, cap := Period(create.opts), Cap(create.opts);
    var wanted := renew.now + if renew.ttl > 0 then renew.ttl else 60 * 60;
    if period > 0 then renew.now + period
    else if cap > 0 && wanted > create.now + cap then create.now + cap
    else wanted
  }

  lemma {:induction false} ApplySnoc(t: Token, opts: seq<TokenOpt>, o: TokenOpt)
    ensures ApplyOpts(t, opts + [o]) == ApplyOpt(ApplyOpts(t, opts), o)
    decreases |opts|
  {
    if opts == [] {
      assert [o][1..] == [];
    } else {
      assert (opts + [o])[1..] == opts[1..] + [o];
      ApplySnoc(ApplyOpt(t, opts[0]), opts[1..], o);
    }
  }

  lemma {:induction false} OptionsSay(t: Token, opts: seq<TokenOpt>)
    requires !t.terms.renewable && t.terms.maxTtl == 0 && t.terms.period == 0
    ensures var r := ApplyOpts(t, opts).terms;
            && (r.renewable <==> Renewable(opts)) && r.maxTtl == Cap(opts) && r.period == Period(opts)
    decreases |opts|
  {
    if opts != [] {
      var n := |opts| - 1;
      OptionsSay(t, opts[..n]);
      ApplySnoc(t, opts[..n], opts[n]);
      assert opts == opts[..n] + [opts[n]];
    }
  }

  // ---- what the token is ----

  /** The token that this call creates, with another expiry; times are counted from before the clock's first reading. */
  ghost predicate Made(t: Token, create: Call, expiry: Option<int>) {
    && create.CreateCall?
    && t.id == create.id && t.expiresAt == (if expiry.Some? then expiry.value else 0)
    && t.terms.createdAt == create.now
    && (t.terms.renewable <==> Renewable(create.opts))
    && t.terms.maxTtl == Cap(create.opts) && t.terms.period == Period(create.opts)
  }

  lemma Creates(call: Call)
    requires call.CreateCall?
    ensures Made(TokenOf(call), call, FirstExpiry(call))
  {
    var blank := Generated(call.id, call.accessor, call.ttl, call.now);
    OptionsSay(blank, call.opts);
    OrphanOptionWins(blank, call.opts);
  }

  /** A renewal is refused for a token that is not there or past its expiry, or was not made renewable. */
  function RenewReply(t: Option<Token>, create: Call, expiry: Option<int>, renew: Call): Option<RenewError>
    requires create.CreateCall? && renew.RenewCall?
  {
    if t.None? || (expiry.Some? && expiry.value < renew.now) then Some(TokenInvalid)
    else if !Renewable(create.opts) then Some(NotRenewable)
    else None
  }

  lemma Renews(s: Tokens, create: Call, expiry: Option<int>, renew: Call, up: Uptime)
    requires create.CreateCall? && renew.RenewCall? && renew.id == create.id && Healthy(up)
    requires expiry.Some? ==> expiry.value != 0
    requires renew.id in s.tokens ==> Made(s.tokens[renew.id], create, expiry)
    ensures var r := RenewResult(s, renew.id, renew.ttl, renew.now, up);
            match RenewReply(if renew.id in s.tokens then Some(s.tokens[renew.id]) else None, create, expiry, renew)
            case Some(e) => r == Failure(e)
            case None => r.Success? && Made(r.value, create, Some(NextExpiry(create, renew)))
  {}

  // ---- in a run ----

  /** The clock is past its zero. */
  ghost predicate Clocked(steps: seq<Step>) {
    forall i :: 0 <= i < |steps| ==>
      && (steps[i].call.CreateCall? ==> steps[i].call.now > 0)
      && (steps[i].call.RenewCall? ==> steps[i].call.now > 0)
  }

  ghost predicate LiveAfter(steps: seq<Step>, n: nat, id: Id) {
    n <= |steps| && id in After(steps[..n]).s.tokens
  }

  /** Step j renews the token that step k created. */
  ghost predicate RenewsIt(steps: seq<Step>, k: nat, j: nat, expiry: Option<int>) {
    && k < j < |steps| && steps[k].call.CreateCall? && steps[j].call.RenewCall? && steps[j].call.id == steps[k].call.id
    && LiveAfter(steps, j, steps[k].call.id) && (expiry.Some? ==> steps[j].call.now <= expiry.value)
    && Renewable(steps[k].call.opts)
  }

  /** When the token that step k created expires, after the first n steps: as the creation or the last renewal says. */
  ghost function Expiry(steps: seq<Step>, k: nat, n: nat): Option<int>
    requires k < n <= |steps| && steps[k].call.CreateCall?
    decreases n
  {
    if n == k + 1 then FirstExpiry(steps[k].call)
    else
      var before := Expiry(steps, k, n - 1);
      if RenewsIt(steps, k, n - 1, before) then Some(NextExpiry(steps[k].call, steps[n - 1].call)) else before
  }

  lemma {:induction false} ExpiryPositive(steps: seq<Step>, k: nat, n: nat)
    requires Clocked(steps) && k < n <= |steps| && steps[k].call.CreateCall?
    ensures Expiry(steps, k, n).Some? ==> Expiry(steps, k, n).value > 0
    decreases n
  {
    hide LiveAfter;
    if n > k + 1 {
      ExpiryPositive(steps, k, n - 1);
    }
  }

  lemma OthersLeaveIt(w: World, step: Step, id: Id)
    requires Sound(w.s, w.h) && id in Next(w, step).s.tokens
    requires !(step.call.CreateCall? && step.call.id == id) && !(step.call.RenewCall? && step.call.id == id)
    ensures id in w.s.tokens && Next(w, step).s.tokens[id] == w.s.tokens[id]
  {
    hide Unambiguous, Remembered, Aged, Subtree, Readable, Listed;
    if step.call.CreateCall? {
      OrphanOptionWins(Generated(step.call.id, step.call.accessor, step.call.ttl, step.call.now), step.call.opts);
    }
  }

  /** A live token is the one that was created, with the expiry that the calls since have left it. */
  lemma {:induction false} TokenIs(steps: seq<Step>, k: nat, n: nat)
    requires FreshDraws(steps) && AllHealthy(steps) && Clocked(steps)
    requires k < n <= |steps| && steps[k].call.CreateCall? && LiveAfter(steps, n, steps[k].call.id)
    ensures Made(After(steps[..n]).s.tokens[steps[k].call.id], steps[k].call, Expiry(steps, k, n))
    decreases n
  {
    hide Sound, Made, FreshDraws, Next;
    var id, before, step := steps[k].call.id, After(steps[..n - 1]), steps[n - 1];
    assert steps[..n][..n - 1] == steps[..n - 1];
    assert After(steps[..n]) == Next(before, step);
    EarlierFresh(steps, n - 1);
    ReachableStates(steps[..n - 1]);
    if n == k + 1 {
      Creates(step.call);
      CreatedIs(before, step);
    } else {
      NotCreatedAgain(steps, k, n - 1);
      ExpiryPositive(steps, k, n - 1);
      if step.call.RenewCall? && step.call.id == id {
        RenewedIs(before, step);
        TokenIs(steps, k, n - 1);
        Renews(before.s, steps[k].call, Expiry(steps, k, n - 1), step.call, step.up);
      } else {
        OthersLeaveIt(before, step, id);
        TokenIs(steps, k, n - 1);
      }
    }
  }

  lemma CreatedIs(w: World, step: Step)
    requires step.call.CreateCall? && Healthy(step.up)
    ensures step.call.id in Next(w, step).s.tokens && Next(w, step).s.tokens[step.call.id] == TokenOf(step.call)
  {
    OrphanOptionWins(Generated(step.call.id, step.call.accessor, step.call.ttl, step.call.now), step.call.opts);
  }

  lemma RenewedIs(w: World, step: Step)
    requires Sound(w.s, w.h) && step.call.RenewCall? && Healthy(step.up)
    ensures var id, r := step.call.id, RenewResult(w.s, step.call.id, step.call.ttl, step.call.now, step.up);
            var n := Next(w, step).s.tokens;
            && (id in n <==> id in w.s.tokens)
            && (id in n ==> n[id] == if r.Success? then r.value else w.s.tokens[id])
  {
    hide Unambiguous, Remembered, Aged;
  }

  lemma NotCreatedAgain(steps: seq<Step>, k: nat, j: nat)
    requires FreshDraws(steps) && k < j < |steps| && steps[k].call.CreateCall?
    ensures !(steps[j].call.CreateCall? && steps[j].call.id == steps[k].call.id)
  {
    if steps[j].call.CreateCall? {
      assert FreshDraw(steps, j) && steps[..j][k] == steps[k];
    }
  }

  /** A collection takes a token if and only if it is past its expiry. */
  lemma Collected(steps: seq<Step>, k: nat, n: nat)
    requires FreshDraws(steps) && AllHealthy(steps) && Clocked(steps)
    requires k < n < |steps| && steps[k].call.CreateCall? && LiveAfter(steps, n, steps[k].call.id)
    requires steps[n].call.CollectCall?
    ensures LiveAfter(steps, n + 1, steps[k].call.id) <==>
              Expiry(steps, k, n).None? || steps[n].call.now <= Expiry(steps, k, n).value
  {
    hide Expiry, FreshDraws, Clocked;
    TokenIs(steps, k, n);
    ExpiryPositive(steps, k, n);
    assert steps[..n + 1][..n] == steps[..n];
    CollectTakes(After(steps[..n]), steps[n], steps[k].call.id);
  }

  lemma CollectTakes(w: World, step: Step, id: Id)
    requires step.call.CollectCall? && Healthy(step.looking) && Healthy(step.up) && id in w.s.tokens
    ensures id in Next(w, step).s.tokens <==>
              w.s.tokens[id].expiresAt == 0 || step.call.now <= w.s.tokens[id].expiresAt
  {}

  /** And a renewal is refused for the same reason, or because the token was not made renewable. */
  lemma {:induction false} Refused(steps: seq<Step>, k: nat, n: nat)
    requires FreshDraws(steps) && AllHealthy(steps) && Clocked(steps)
    requires k < n < |steps| && steps[k].call.CreateCall? && LiveAfter(steps, n, steps[k].call.id)
    requires steps[n].call.RenewCall? && steps[n].call.id == steps[k].call.id
    ensures var renew, expiry := steps[n].call, Expiry(steps, k, n);
            var r := RenewResult(After(steps[..n]).s, renew.id, renew.ttl, renew.now, steps[n].up);
            && (r == Failure(TokenInvalid) <==> expiry.Some? && renew.now > expiry.value)
            && (r == Failure(NotRenewable) <==>
                  !(expiry.Some? && renew.now > expiry.value) && !Renewable(steps[k].call.opts))
            && (r.Success? <==> RenewsIt(steps, k, n, expiry)) && r != Failure(NotStored)
  {
    hide Expiry, FreshDraws, Clocked, Made;
    TokenIs(steps, k, n);
    ExpiryPositive(steps, k, n);
    Renews(After(steps[..n]).s, steps[k].call, Expiry(steps, k, n), steps[n].call, steps[n].up);
  }

  // ---- the usual cases ----

  /** A token that is never renewed lives for the time it was created with, and for ever if that is not positive. */
  lemma {:induction false} NeverRenewed(steps: seq<Step>, k: nat, n: nat)
    requires k < n <= |steps| && steps[k].call.CreateCall?
    requires forall j :: k < j < n && steps[j].call.RenewCall? ==> steps[j].call.id != steps[k].call.id
    ensures Expiry(steps, k, n) ==
              if steps[k].call.ttl > 0 then Some(steps[k].call.now + steps[k].call.ttl) else None
    decreases n
  {
    if n > k + 1 {
      NeverRenewed(steps, k, n - 1);
    }
  }

  /** However often it is renewed, a token with a cap and no period does not outlive the cap, unless it was created
      to. */
  lemma {:induction false} NeverPastTheCap(steps: seq<Step>, k: nat, n: nat)
    requires k < n <= |steps| && steps[k].call.CreateCall?
    requires Cap(steps[k].call.opts) > 0 && Period(steps[k].call.opts) <= 0
    ensures var create, expiry := steps[k].call, Expiry(steps, k, n);
            expiry == FirstExpiry(create) || (expiry.Some? && expiry.value <= create.now + Cap(create.opts))
    decreases n
  {
    if n > k + 1 {
      NeverPastTheCap(steps, k, n - 1);
    }
  }

  /** A token with a period lives for its period after every renewal. */
  lemma LivesForItsPeriod(steps: seq<Step>, k: nat, n: nat)
    requires k < n < |steps| && steps[k].call.CreateCall? && RenewsIt(steps, k, n, Expiry(steps, k, n))
    requires Period(steps[k].call.opts) > 0
    ensures Expiry(steps, k, n + 1) == Some(steps[n].call.now + Period(steps[k].call.opts))
  {}
}
