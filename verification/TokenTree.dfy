/** internal/core, internal/token, internal/cubbyhole: creating and revoking tokens.  Each operation is told which
    storage calls go through while it runs; most failures are passed over in silence.  The hash that names a token's
    storage key is taken to be injective. */
module TokenTree {
  import opened Sequences
  import opened TokenSpec
  import opened Wrappers
  import opened Wrapping
  import opened WrappingSpec

  datatype AccessorError = UnknownAccessor | Unavailable

  class Core {
    var tokens: map<Id, Token>
    var accessors: map<string, Id>
    var children: set<(Id, Id)>
    var cubby: map<(Id, string), string>
    ghost var history: History

    ghost function State(): Tokens
      reads this
    {
      Tokens(tokens, accessors, children, cubby)
    }

    ghost predicate Valid()
      reads this
    {
      Sound(State(), history)
    }

    constructor ()
      ensures State() == Tokens(map[], map[], {}, map[]) && history == History({}, map[], 0, {})
      ensures Exact(State(), history)
    {
      tokens, accessors, children, cubby := map[], map[], {}, map[];
      history := History({}, map[], 0, {});
    }

    // ---- internal/token/store.go, internal/cubbyhole/cubbyhole.go ----

    /** Only a failure to store the token itself is reported. */
    method PutToken(t: Token, up: Uptime) returns (ok: bool)
      modifies this
      ensures State() == Stored(old(State()), t, up) && ok == up(PutRecord(t.id)) && history == old(history)
    {
      if !up(PutRecord(t.id)) {
        return false;
      }
      tokens := tokens[t.id := t];
      if t.accessor != "" {
        if up(PutAccessor(t.accessor)) {
          accessors := accessors[t.accessor := t.id];
        }
      }
      if t.parent != "" && !t.orphan {
        if up(PutChild(t.parent, t.id)) {
          children := children + {(t.parent, t.id)};
        }
      }
      return true;
    }

    /** Entries that cannot be read are left out. */
    method Children(parent: Id, up: Uptime) returns (r: Result<seq<Id>, ()>)
      ensures r.Success? <==> up(ListChildren(parent))
      ensures r.Success? ==> forall c :: c in r.value <==> (parent, c) in children && up(ReadChild(parent, c))
      ensures r.Success? ==> Distinct(r.value)
    {
      if !up(ListChildren(parent)) {
        return Failure(());
      }
      var ids: seq<Id> := [];
      var rest := children;
      while rest != {}
        invariant rest <= children
        invariant forall c :: c in ids <==> (parent, c) in children && (parent, c) !in rest && up(ReadChild(parent, c))
        invariant Distinct(ids)
        decreases |rest|
      {
        var e :| e in rest;
        assert forall i :: 0 <= i < |ids| ==> ids[i] in ids;
        rest := rest - {e};
        if e.0 == parent && up(ReadChild(e.0, e.1)) {
          ids := ids + [e.1];
        }
      }
      return Success(ids);
    }

    /** Only a failure to delete the token itself is reported. */
    method DeleteToken(id: Id, up: Uptime) returns (ok: bool)
      requires Valid()
      modifies this
      ensures State() == Cleared(old(State()), {id}, up).(cubby := old(cubby)) && ok == up(DeleteRecord(id))
      ensures history == Noted(old(history), old(State()), State())
    {
      hide Cleared, Sound;
      ghost var before := State();
      DeletedExactly(before, history, id, up);
      if id in tokens && up(ReadRecord(id)) {
        var tok := tokens[id];
        if tok.accessor != "" && up(DeleteAccessor(tok.accessor)) {
          accessors := accessors - {tok.accessor};
        }
        if tok.parent != "" && up(DeleteChild(tok.parent, id)) {
          children := children - {(tok.parent, id)};
        }
      }
      ok := up(DeleteRecord(id));
      if ok {
        tokens := tokens - {id};
      }
      history := Noted(history, before, State());
    }

    /** Entries that cannot be deleted stay. */
    method PurgeCubbyhole(id: Id, up: Uptime) returns (ok: bool)
      modifies this
      ensures State() == old(State()).(cubby := Purged(old(cubby), {id}, up)) && history == old(history)
      ensures ok == up(ListCubby(id))
    {
      hide Purged, PurgedSoFar;
      PurgeEnds(cubby, id, up);
      if !up(ListCubby(id)) {
        return false;
      }
      var keys := cubby.Keys;
      while keys != {}
        invariant keys <= old(cubby.Keys)
        invariant State() == old(State()).(cubby := cubby) && history == old(history)
        invariant cubby == PurgedSoFar(old(cubby), keys, id, up)
        decreases |keys|
      {
        var k :| k in keys;
        PurgeStep(old(cubby), keys, id, up, k);
        keys := keys - {k};
        if k.0 == id && up(DeleteCubby(k.0, k.1)) {
          cubby := cubby - {k};
        }
      }
      return true;
    }

    // ---- internal/core/core.go ----

    /** id and accessor are freshly drawn: no token, parent or accessor has used them. */
    method CreateToken(id: Id, accessor: string, ttl: int, now: int, opts: seq<TokenOpt>, up: Uptime)
      returns (r: Result<Token, ()>)
      requires Valid() && Fresh(State(), history, id, accessor) && WithParent(id) !in opts
      modifies this
      ensures var t := ApplyOpts(Generated(id, accessor, ttl, now), opts);
              && t.id == id && t.accessor == accessor && (t.orphan <==> WithOrphan in opts)
              && r == (if up(PutRecord(id)) then Success(t) else Failure(()))
              && State() == Stored(old(State()), t, up)
              && history == if r.Success? then Grown(old(history), t) else old(history)
      ensures Valid()
      ensures Healthy(up) && old(Exact(State(), history)) ==> Exact(State(), history)
    {
      hide Sound, Exact;
      var blank := Generated(id, accessor, ttl, now);
      var t := ApplyOpts(blank, opts);
      OrphanOptionWins(blank, opts);
      ParentFromOptions(blank, opts);
      ghost var before := State();
      var ok := PutToken(t, up);
      if !ok {
        return Failure(());
      }
      CreatedSound(before, history, t, up);
      if Healthy(up) && Exact(before, history) {
        CreatedExact(before, history, t, up);
      }
      history := Grown(history, t);
      return Success(t);
    }

    /** A renewed token is written back with its new expiry. */
    method RenewToken(id: Id, ttl: int, now: int, up: Uptime) returns (r: Result<Token, RenewError>)
      requires Valid()
      modifies this
      ensures var s := old(State());
              && r == RenewResult(s, id, ttl, now, up)
              && State() == (if r.Success? then Stored(s, r.value, up) else s)
      ensures Valid() && history == old(history)
      ensures Healthy(up) && old(Exact(State(), history)) ==>
                Exact(State(), history) && accessors == old(accessors) && children == old(children)
    {
      hide Sound, Exact;
      if !up(ReadRecord(id)) || id !in tokens {
        return Failure(TokenInvalid);
      }
      var tok := tokens[id];
      if IsExpired(tok, now) {
        return Failure(TokenInvalid);
      }
      if !tok.terms.renewable {
        return Failure(NotRenewable);
      }
      var expiresAt: int;
      if tok.terms.period > 0 {
        expiresAt := now + tok.terms.period;
      } else {
        expiresAt := now + if ttl <= 0 then HOUR else ttl;
        if tok.terms.maxTtl > 0 && expiresAt > tok.terms.createdAt + tok.terms.maxTtl {
          expiresAt := tok.terms.createdAt + tok.terms.maxTtl;
        }
      }
      RenewedSound(State(), history, id, expiresAt, up);
      if Healthy(up) && Exact(State(), history) {
        RenewedExact(State(), history, id, expiresAt, up);
      }
      tok := tok.(expiresAt := expiresAt);
      var ok := PutToken(tok, up);
      if !ok {
        return Failure(NotStored);
      }
      return Success(tok);
    }

    /** The API writes a cubbyhole only for the token that authenticated the call. */
    method PutCubbyhole(id: Id, path: string, value: string, up: Uptime) returns (ok: bool)
      requires Valid() && id in tokens
      modifies this
      ensures State() == (if ok then old(State()).(cubby := old(cubby)[(id, path) := value]) else old(State()))
      ensures ok == up(PutCubby(id, path)) && Valid() && history == old(history)
      ensures old(Exact(State(), history)) ==> Exact(State(), history)
    {
      ok := up(PutCubby(id, path));
      if ok {
        cubby := cubby[(id, path) := value];
      }
    }

    method RevokeToken(id: Id, up: Uptime) returns (ok: bool)
      requires Valid()
      modifies this
      ensures State() == Cleared(old(State()), {id}, up) && ok == up(DeleteRecord(id))
      ensures Valid() && history == Noted(old(history), old(State()), State())
      ensures Healthy(up) && old(Exact(State(), history)) ==> Exact(State(), history)
    {
      hide Sound, Exact;
      ghost var before, h := State(), history;
      var _ := PurgeCubbyhole(id, up);
      OtherCubbyhole(before, State(), h);
      PurgedFirst(before, id, up);
      ok := DeleteToken(id, up);
      ClearedSound(before, h, {id}, up);
      if Healthy(up) && Exact(before, h) {
        ClearedExact(before, h, {id}, up);
      }
    }

    /** Revoking by accessor leaves the token's entry in its parent's children index.  The accessor is read twice: once
        to find the cubbyhole, and once more to delete. */
    method RevokeTokenByAccessor(accessor: string, looking: Uptime, up: Uptime) returns (r: Result<(), AccessorError>)
      requires Valid()
      modifies this
      ensures State() == WithoutAccessor(old(State()), accessor, looking, up)
      ensures r == Failure(UnknownAccessor) <==> up(ReadAccessor(accessor)) && accessor !in old(accessors)
      ensures r.Success? <==>
                && up(ReadAccessor(accessor)) && accessor in old(accessors)
                && up(DeleteRecord(old(accessors)[accessor]))
      ensures Valid() && history == old(history)
      ensures Healthy(looking) && Healthy(up) && old(Exact(State(), history)) ==>
                && Exact(State(), history)
                && (accessor in old(accessors) ==>
                      State() == Removed(old(State()), {old(accessors)[accessor]}).(children := old(children)))
    {
      hide Sound, Exact, Removed, Healthy, Purged;
      ghost var before := State();
      UnlinkedSound(before, history, accessor, looking, up);
      if Healthy(looking) && Healthy(up) && Exact(before, history) {
        UnlinkedExact(before, history, accessor, looking, up);
      }
      if looking(ReadAccessor(accessor)) && accessor in accessors {
        if looking(ReadRecord(accessors[accessor])) && accessors[accessor] in tokens {
          var _ := PurgeCubbyhole(accessors[accessor], up);
        }
      }
      if !up(ReadAccessor(accessor)) {
        return Failure(Unavailable);
      }
      if accessor !in accessors {
        return Failure(UnknownAccessor);
      }
      var id := accessors[accessor];
      if up(DeleteAccessor(accessor)) {
        accessors := accessors - {accessor};
      }
      if !up(DeleteRecord(id)) {
        return Failure(Unavailable);
      }
      tokens := tokens - {id};
      return Success(());
    }

    ghost function Height(id: Id): nat
      requires Valid()
      reads this
    {
      if id in history.births then history.clock - history.births[id] else 0
    }

    /** What fails below a token is not reported: success says that the token's own record could be deleted. */
    method RevokeTokenTree(id: Id, up: Uptime) returns (ok: bool)
      requires Valid()
      modifies this
      ensures State() == TreeRevoked(old(State()), id, up) && ok == up(DeleteRecord(id))
      ensures Valid() && history == Noted(old(history), old(State()), State())
      ensures Healthy(up) && old(Exact(State(), history)) ==>
                Exact(State(), history) && State() == Removed(old(State()), Subtree(old(children), id))
      decreases Height(id)
    {
      hide Sound, Exact, Cleared, Readable, Subtree, Forest, Removed, Noted, Healthy;
      ghost var before, h := State(), history;
      ghost var links := Readable(before.children, up);
      var listed := Children(id, up);
      var kids := if listed.Success? then listed.value else [];
      Followed(before.children, id, kids, up);
      StartUntouched(before, h, links, kids, up);
      for i := 0 to |kids|
        invariant Valid() && history == Noted(h, before, State()) && SameAges(history, h)
        invariant State() == Cleared(before, Forest(links, kids[..i]), up)
      {
        YoungerChild(before, h, id, kids[i]);
        var _ := RevokeTokenTree(kids[i], up);
        RevokedNext(before, h, kids, i, up);
      }
      assert kids[..|kids|] == kids;
      var own := RevokeToken(id, up);
      NotedTwice(h, before, Forest(links, kids), {id}, up);
      ClearedTwice(before, Forest(links, kids), {id}, up);
      SubtreeUnfolds(links, id, kids);
      if Healthy(up) && Exact(before, h) {
        ClearedExact(before, h, Subtree(links, id), up);
        HealthyTree(before, h, id, up);
      }
      return own;
    }

    /** Drops the tokens whose expiry has passed, and nothing else; then does the same to wrapped responses. */
    method RunGC(now: int, wrapping: Wrapper, listing: Uptime, up: Uptime)
      requires Valid() && wrapping.Valid()
      modifies this, wrapping`stats, wrapping`statsLoaded, wrapping.b
      ensures State() == Cleared(old(State()), Listed(old(State()), now, listing), up)
      ensures Valid() && history == Noted(old(history), old(State()), State()) && wrapping.Valid()
      ensures Healthy(listing) && Healthy(up) && old(Exact(State(), history)) ==>
                Exact(State(), history) && State() == Removed(old(State()), ExpiredTokens(old(State()), now))
      ensures Healthy(listing) && wrapping.b.reliable ==>
                LiveKeys(wrapping.b.data) == Unexpired(old(wrapping.b.data), now)
    {
      hide Sound, Exact, Cleared, Removed, Noted, Tracked, Balanced, StoredStats;
      ghost var before, h := State(), history;
      ClearedNone(before, up);
      NotedNone(before, h);
      var listed := ListExpired(now, listing);
      if listed.Failure? {
        return;
      }
      CollectTokens(listed.value, up);
      if Healthy(listing) && Healthy(up) && Exact(before, h) {
        assert Listed(before, now, listing) == ExpiredTokens(before, now);
        HealthyClears(before, h, listed.value, up);
      }
      var _ := wrapping.RevokeExpired(now);
    }

    /** Tokens that cannot be read are left out. */
    method ListExpired(now: int, up: Uptime) returns (r: Result<set<Id>, ()>)
      ensures r.Success? <==> up(ListRecords)
      ensures Listed(State(), now, up) == if r.Success? then r.value else {}
    {
      if !up(ListRecords) {
        return Failure(());
      }
      var expired, rest := {}, tokens.Keys;
      while rest != {}
        invariant rest <= tokens.Keys
        invariant expired == set id | id in Listed(State(), now, up) && id !in rest
        decreases |rest|
      {
        var id :| id in rest;
        rest := rest - {id};
        if up(ReadRecord(id)) && tokens[id].expiresAt != 0 && tokens[id].expiresAt < now {
          expired := expired + {id};
        }
      }
      return Success(expired);
    }

    method CollectTokens(expired: set<Id>, up: Uptime)
      requires Valid()
      modifies this
      ensures State() == Cleared(old(State()), expired, up)
      ensures Valid() && history == Noted(old(history), old(State()), State())
      ensures Healthy(up) && old(Exact(State(), history)) ==> Exact(State(), history)
    {
      hide Sound, Exact, Cleared, Noted;
      ghost var before, h := State(), history;
      var todo := expired;
      ghost var gone: set<Id> := {};
      ClearedNone(before, up);
      NotedNone(before, h);
      while todo != {}
        invariant Valid() && history == Noted(h, before, State())
        invariant gone + todo == expired
        invariant State() == Cleared(before, gone, up)
        decreases |todo|
      {
        var id :| id in todo;
        todo := todo - {id};
        CollectToken(id, up);
        ClearedTwice(before, gone, {id}, up);
        NotedTwice(h, before, gone, {id}, up);
        gone := gone + {id};
      }
      assert gone == expired;
      if Healthy(up) && Exact(before, h) {
        ClearedExact(before, h, expired, up);
      }
    }

    method CollectToken(id: Id, up: Uptime)
      requires Valid()
      modifies this
      ensures State() == Cleared(old(State()), {id}, up)
      ensures Valid() && history == Noted(old(history), old(State()), State())
    {
      hide Sound;
      ghost var before, h := State(), history;
      var _ := DeleteToken(id, up);
      var _ := PurgeCubbyhole(id, up);
      ClearedSound(before, h, {id}, up);
    }
  }

  /** token.Generate: a ttl that is not positive means no expiry. */
  function Generated(id: Id, accessor: string, ttl: int, now: int): Token {
    Token(id, accessor, "", false, if ttl > 0 then now + ttl else 0, Terms(now, false, 0, 0, 0))
  }

  ghost predicate Fresh(s: Tokens, h: History, id: Id, accessor: string) {
    && id != "" && id !in h.births
    && accessor != "" && accessor !in s.accessors && forall x :: x in s.tokens ==> s.tokens[x].accessor != accessor
  }

  ghost function RenewResult(s: Tokens, id: Id, ttl: int, now: int, up: Uptime): Result<Token, RenewError> {
    if !up(ReadRecord(id)) || id !in s.tokens || IsExpired(s.tokens[id], now) then Failure(TokenInvalid)
    else if !s.tokens[id].terms.renewable then Failure(NotRenewable)
    else if !up(PutRecord(s.tokens[id].id)) then Failure(NotStored)
    else Success(s.tokens[id].(expiresAt := NewExpiry(s.tokens[id], ttl, now)))
  }

  ghost function ExpiredTokens(s: Tokens, now: int): set<Id> {
    set id | id in s.tokens && s.tokens[id].expiresAt != 0 && s.tokens[id].expiresAt < now
  }

  /** The expired tokens that can be found. */
  ghost function Listed(s: Tokens, now: int, up: Uptime): set<Id> {
    set id | id in ExpiredTokens(s, now) && up(ListRecords) && up(ReadRecord(id))
  }

  // ---- deleting ----

  lemma DeletedExactly(s: Tokens, h: History, id: Id, up: Uptime)
    requires Sound(s, h)
    ensures var r, found := Cleared(s, {id}, up), id in s.tokens && up(ReadRecord(id));
            && r.tokens == (if up(DeleteRecord(id)) then s.tokens - {id} else s.tokens)
            && r.accessors == (if found && s.tokens[id].accessor != "" && up(DeleteAccessor(s.tokens[id].accessor))
                then s.accessors - {s.tokens[id].accessor} else s.accessors)
            && r.children == (if found && s.tokens[id].parent != "" && up(DeleteChild(s.tokens[id].parent, id))
                then s.children - {(s.tokens[id].parent, id)} else s.children)
  {
    DeletedAccessor(s, h, id, up);
    DeletedLink(s, h, id, up);
    assert Cleared(s, {id}, up).tokens == if up(DeleteRecord(id)) then s.tokens - {id} else s.tokens;
  }

  lemma DeletedAccessor(s: Tokens, h: History, id: Id, up: Uptime)
    requires Sound(s, h)
    ensures var found := id in s.tokens && up(ReadRecord(id));
            Cleared(s, {id}, up).accessors ==
              if found && s.tokens[id].accessor != "" && up(DeleteAccessor(s.tokens[id].accessor))
              then s.accessors - {s.tokens[id].accessor} else s.accessors
  {
    hide Remembered, Aged;
  }

  lemma DeletedLink(s: Tokens, h: History, id: Id, up: Uptime)
    requires Sound(s, h)
    ensures var found := id in s.tokens && up(ReadRecord(id));
            Cleared(s, {id}, up).children ==
              if found && s.tokens[id].parent != "" && up(DeleteChild(s.tokens[id].parent, id))
              then s.children - {(s.tokens[id].parent, id)} else s.children
  {
    hide Unambiguous, Aged;
  }

  lemma OtherCubbyhole(s: Tokens, r: Tokens, h: History)
    requires Sound(s, h) && r == s.(cubby := r.cubby)
    ensures Sound(r, h)
  {
    hide TokenSpec.Named, Unambiguous, Remembered, Aged;
  }

  ghost function PurgedSoFar(cubby: map<(Id, string), string>, left: set<(Id, string)>, id: Id, up: Uptime)
    : map<(Id, string), string>
  {
    map k | k in cubby && (k in left || !(k.0 == id && up(DeleteCubby(k.0, k.1)))) :: cubby[k]
  }

  lemma PurgeEnds(cubby: map<(Id, string), string>, id: Id, up: Uptime)
    ensures PurgedSoFar(cubby, cubby.Keys, id, up) == cubby
    ensures Purged(cubby, {id}, up) == if up(ListCubby(id)) then PurgedSoFar(cubby, {}, id, up) else cubby
  {}

  lemma PurgeStep(cubby: map<(Id, string), string>, left: set<(Id, string)>, id: Id, up: Uptime, k: (Id, string))
    requires k in left && left <= cubby.Keys
    ensures var now := PurgedSoFar(cubby, left, id, up);
            PurgedSoFar(cubby, left - {k}, id, up) == if k.0 == id && up(DeleteCubby(k.0, k.1)) then now - {k} else now
  {}

  lemma PurgedFirst(s: Tokens, id: Id, up: Uptime)
    ensures var purged := s.(cubby := Purged(s.cubby, {id}, up));
            Cleared(purged, {id}, up).(cubby := purged.cubby) == Cleared(s, {id}, up)
  {
    var purged := s.(cubby := Purged(s.cubby, {id}, up));
    assert Cleared(purged, {id}, up).accessors == Cleared(s, {id}, up).accessors;
  }

  // ---- revoking by accessor ----

  ghost function WithoutAccessor(s: Tokens, accessor: string, looking: Uptime, up: Uptime): Tokens {
    if accessor !in s.accessors then s
    else
      var id, readable := s.accessors[accessor], up(ReadAccessor(accessor));
      var found := looking(ReadAccessor(accessor)) && looking(ReadRecord(id)) && id in s.tokens;
      Tokens(
        if readable && up(DeleteRecord(id)) then s.tokens - {id} else s.tokens,
        if readable && up(DeleteAccessor(accessor)) then s.accessors - {accessor} else s.accessors,
        s.children,
        if found then Purged(s.cubby, {id}, up) else s.cubby)
  }

  lemma UnlinkedSound(s: Tokens, h: History, accessor: string, looking: Uptime, up: Uptime)
    requires Sound(s, h)
    ensures Sound(WithoutAccessor(s, accessor, looking, up), h)
  {}

  lemma UnlinkedExact(s: Tokens, h: History, accessor: string, looking: Uptime, up: Uptime)
    requires Exact(s, h) && Healthy(looking) && Healthy(up)
    ensures var r := WithoutAccessor(s, accessor, looking, up);
            && Exact(r, h)
            && (accessor in s.accessors ==> r == Removed(s, {s.accessors[accessor]}).(children := s.children))
  {
    hide Sound, LinksKept, Accessible, Removed, WithoutAccessor;
    UnlinkedSound(s, h, accessor, looking, up);
    if accessor in s.accessors {
      UnlinkedAccessor(s, h, accessor);
      UnlinkedIsRemoved(s, h, accessor, looking, up);
    } else {
      assert WithoutAccessor(s, accessor, looking, up) == s by {
        NoSuchAccessor(s, accessor, looking, up);
      }
    }
  }

  lemma NoSuchAccessor(s: Tokens, accessor: string, looking: Uptime, up: Uptime)
    requires accessor !in s.accessors
    ensures WithoutAccessor(s, accessor, looking, up) == s
  {}

  lemma UnlinkedIsRemoved(s: Tokens, h: History, accessor: string, looking: Uptime, up: Uptime)
    requires Exact(s, h) && Healthy(looking) && Healthy(up) && accessor in s.accessors
    requires s.accessors - {accessor} == Removed(s, {s.accessors[accessor]}).accessors
    ensures var r, id := WithoutAccessor(s, accessor, looking, up), s.accessors[accessor];
            && r == Removed(s, {id}).(children := s.children)
            && r.tokens == s.tokens - {id} && r.accessors == s.accessors - {accessor} && r.children == s.children
            && forall k :: k in r.cubby ==> k.0 in r.tokens
  {
    hide Purged, Sound, LinksKept;
    var id := s.accessors[accessor];
    HealthyPurge(s, id, up);
    assert up(ReadAccessor(accessor)) && up(DeleteRecord(id)) && up(DeleteAccessor(accessor));
    assert looking(ReadAccessor(accessor)) && looking(ReadRecord(id));
  }

  lemma HealthyPurge(s: Tokens, id: Id, up: Uptime)
    requires Healthy(up)
    ensures Purged(s.cubby, {id}, up) == Removed(s, {id}).cubby
  {}

  lemma UnlinkedAccessor(s: Tokens, h: History, accessor: string)
    requires Exact(s, h) && accessor in s.accessors
    ensures var id := s.accessors[accessor];
            && s.accessors - {accessor} == Removed(s, {id}).accessors
            && Accessible(s.tokens - {id}, s.accessors - {accessor})
  {
    hide Remembered, Aged;
  }

  // ---- walking the tree ----

  ghost predicate SameAges(h: History, g: History) {
    h.births == g.births && h.clock == g.clock
  }

  lemma Followed(children: set<(Id, Id)>, id: Id, kids: seq<Id>, up: Uptime)
    requires up(ListChildren(id)) ==> forall c :: c in kids <==> (id, c) in children && up(ReadChild(id, c))
    requires !up(ListChildren(id)) ==> kids == []
    ensures forall c :: c in kids <==> (id, c) in Readable(children, up)
    ensures Readable(children, up) <= children
  {}

  lemma NotedNone(s: Tokens, h: History)
    ensures Noted(h, s, s) == h
  {
    assert s.tokens.Keys - s.tokens.Keys == {};
  }

  lemma {:induction false} StartUntouched(s: Tokens, h: History, links: set<(Id, Id)>, kids: seq<Id>, up: Uptime)
    ensures s == Cleared(s, Forest(links, kids[..0]), up) && h == Noted(h, s, s)
  {
    ClearedNone(s, up);
    NotedNone(s, h);
  }

  lemma YoungerChild(s: Tokens, h: History, id: Id, kid: Id)
    requires Sound(s, h) && (id, kid) in s.children
    ensures id in h.births && kid in h.births && h.births[id] < h.births[kid] < h.clock
  {
    assert (id, kid) in h.links;
  }

  /** One more child's subtree. */
  lemma RevokedNext(s: Tokens, h: History, kids: seq<Id>, i: nat, up: Uptime)
    requires i < |kids|
    ensures var links := Readable(s.children, up);
            var done, next := Cleared(s, Forest(links, kids[..i]), up), Cleared(s, Forest(links, kids[..i + 1]), up);
            && TreeRevoked(done, kids[i], up) == next
            && Noted(Noted(h, s, done), done, next) == Noted(h, s, next) && SameAges(Noted(h, s, next), h)
  {
    var links, f := Readable(s.children, up), Forest(Readable(s.children, up), kids[..i]);
    var done := Cleared(s, f, up);
    var left := Readable(done.children, up);
    assert left <= links && forall e :: e in links && e !in left ==> e.1 in f;
    hide Cleared, Readable, Subtree;
    SubtreeAfter(links, left, kids[..i], kids[i]);
    ClearedTwice(s, f, Subtree(left, kids[i]), up);
    NotedTwice(h, s, f, Subtree(left, kids[i]), up);
    assert kids[..i + 1][..i] == kids[..i];
  }

  lemma HealthyTree(s: Tokens, h: History, id: Id, up: Uptime)
    requires Exact(s, h) && Healthy(up)
    ensures TreeRevoked(s, id, up) == Removed(s, Subtree(s.children, id))
  {
    assert Readable(s.children, up) == s.children;
    hide Cleared, Removed, Exact, Readable;
    HealthyClears(s, h, Subtree(s.children, id), up);
  }

  // ---- creating ----

  /** A new token is younger than its parent, which is numbered now if it never was. */
  ghost function Grown(h: History, t: Token): History {
    if !Linked(t) then History(h.links, h.births[t.id := h.clock], h.clock + 1, h.removed)
    else
      var births := if t.parent in h.births then h.births else h.births[t.parent := h.clock];
      History(h.links + {(t.parent, t.id)}, births[t.id := h.clock + 1], h.clock + 2, h.removed)
  }

  lemma {:induction false} ParentFromOptions(t: Token, opts: seq<TokenOpt>)
    ensures var p := ApplyOpts(t, opts).parent; p == "" || p == t.parent || WithParent(p) in opts
    decreases |opts|
  {
    if opts != [] {
      ParentFromOptions(ApplyOpt(t, opts[0]), opts[1..]);
    }
  }

  lemma GrownAged(h: History, t: Token)
    requires Aged(h) && t.id !in h.births && t.parent != t.id
    ensures Aged(Grown(h, t))
  {}

  lemma CreatedUnambiguous(s: Tokens, h: History, t: Token, up: Uptime)
    requires Sound(s, h) && Fresh(s, h, t.id, t.accessor)
    ensures var r := Stored(s, t, up); Unambiguous(r.tokens, r.accessors, Grown(h, t))
  {
    hide Remembered, Aged;
    assert t.id !in s.tokens && forall a :: a in s.accessors ==> s.accessors[a] != t.id;
  }

  lemma CreatedRemembered(s: Tokens, h: History, t: Token, up: Uptime)
    requires Sound(s, h) && t.id !in h.births && up(PutRecord(t.id)) && (t.orphan ==> t.parent == "")
    ensures var r := Stored(s, t, up); Remembered(r.tokens, r.children, Grown(h, t))
  {
    hide Unambiguous;
    assert t.id !in s.tokens;
  }

  lemma CreatedSound(s: Tokens, h: History, t: Token, up: Uptime)
    requires Sound(s, h) && Fresh(s, h, t.id, t.accessor) && up(PutRecord(t.id))
    requires t.parent != t.id && (t.orphan ==> t.parent == "")
    ensures Sound(Stored(s, t, up), Grown(h, t))
  {
    assert t.id !in h.removed;
    hide Unambiguous, Remembered, Aged;
    CreatedUnambiguous(s, h, t, up);
    CreatedRemembered(s, h, t, up);
    GrownAged(h, t);
  }

  lemma CreatedAccessible(s: Tokens, h: History, t: Token, up: Uptime)
    requires Exact(s, h) && Healthy(up) && Fresh(s, h, t.id, t.accessor)
    ensures var r := Stored(s, t, up); Accessible(r.tokens, r.accessors)
  {
    hide Remembered, Aged;
    assert t.id !in s.tokens;
  }

  lemma CreatedExact(s: Tokens, h: History, t: Token, up: Uptime)
    requires Exact(s, h) && Healthy(up) && Fresh(s, h, t.id, t.accessor)
    requires t.parent != t.id && (t.orphan ==> t.parent == "")
    ensures Exact(Stored(s, t, up), Grown(h, t))
  {
    assert t.id !in h.removed;
    hide Sound, Accessible;
    CreatedSound(s, h, t, up);
    CreatedAccessible(s, h, t, up);
  }

  // ---- renewing ----

  lemma RenewedUnambiguous(s: Tokens, h: History, id: Id, expiresAt: int, up: Uptime)
    requires Sound(s, h) && id in s.tokens
    ensures var r := Stored(s, s.tokens[id].(expiresAt := expiresAt), up); Unambiguous(r.tokens, r.accessors, h)
  {
    hide Remembered, Aged;
  }

  lemma RenewedRemembered(s: Tokens, h: History, id: Id, expiresAt: int, up: Uptime)
    requires Sound(s, h) && id in s.tokens
    ensures var r := Stored(s, s.tokens[id].(expiresAt := expiresAt), up); Remembered(r.tokens, r.children, h)
  {
    hide Unambiguous, Aged;
  }

  lemma RenewedSound(s: Tokens, h: History, id: Id, expiresAt: int, up: Uptime)
    requires Sound(s, h) && id in s.tokens
    ensures Sound(Stored(s, s.tokens[id].(expiresAt := expiresAt), up), h) && s.tokens[id].id == id
  {
    hide Unambiguous, Remembered, Aged;
    RenewedUnambiguous(s, h, id, expiresAt, up);
    RenewedRemembered(s, h, id, expiresAt, up);
  }

  lemma RenewedEntries(s: Tokens, h: History, id: Id, expiresAt: int, up: Uptime)
    requires Exact(s, h) && id in s.tokens
    ensures var r := Stored(s, s.tokens[id].(expiresAt := expiresAt), up);
            r.accessors == s.accessors && r.children == s.children
  {
    hide Aged;
  }

  lemma RenewedExact(s: Tokens, h: History, id: Id, expiresAt: int, up: Uptime)
    requires Exact(s, h) && id in s.tokens
    ensures var r := Stored(s, s.tokens[id].(expiresAt := expiresAt), up);
            Exact(r, h) && r.accessors == s.accessors && r.children == s.children
  {
    RenewedEntries(s, h, id, expiresAt, up);
    RenewedSound(s, h, id, expiresAt, up);
    hide Sound, LinksKept;
  }
}
