/** The token key spaces as values: tokens, accessor index, children index and cubbyhole data. */
module TokenSpec {
  import opened Reachability

  type Id = string

  /** In seconds; 0 stands for no limit. */
  datatype Terms = Terms(createdAt: int, renewable: bool, maxTtl: int, period: int, maxUses: int)

  /** parent is "" for a token without one; expiresAt is 0 for a token that never expires. */
  datatype Token = Token(id: Id, accessor: string, parent: Id, orphan: bool, expiresAt: int, terms: Terms)

  datatype Tokens = Tokens(
    tokens: map<Id, Token>,
    accessors: map<string, Id>,
    children: set<(Id, Id)>,
    cubby: map<(Id, string), string>)

  /** What operations leave behind for good: the links that creation made, a birth number for every id it named, and
      the tokens removed, other than by accessor. */
  datatype History = History(links: set<(Id, Id)>, births: map<Id, nat>, clock: nat, removed: set<Id>)

  // ---- storage calls ----

  datatype StorageCall =
    | ListRecords | ReadRecord(id: Id) | PutRecord(id: Id) | DeleteRecord(id: Id)
    | ReadAccessor(accessor: string) | PutAccessor(accessor: string) | DeleteAccessor(accessor: string)
    | ListChildren(parent: Id) | ReadChild(parent: Id, child: Id)
    | PutChild(parent: Id, child: Id) | DeleteChild(parent: Id, child: Id)
    | ListCubby(id: Id) | PutCubby(id: Id, path: string) | DeleteCubby(id: Id, path: string)

  /** Which storage calls go through while an operation runs; the others fail and change nothing. */
  type Uptime = StorageCall -> bool

  ghost predicate Healthy(up: Uptime) {
    forall c :: up(c)
  }

  predicate Linked(t: Token) {
    t.parent != "" && !t.orphan
  }

  // ---- creation options ----

  datatype TokenOpt = WithOrphan | WithParent(id: Id) | WithRenewable(maxTtl: int)
                    | WithPeriod(period: int) | WithMaxUses(n: int)

  function ApplyOpt(t: Token, o: TokenOpt): Token {
    match o
    case WithOrphan => t.(orphan := true, parent := "")
    case WithParent(p) => if t.orphan then t else t.(parent := p)
    case WithRenewable(maxTtl) => t.(terms := t.terms.(renewable := true, maxTtl := maxTtl))
    case WithPeriod(period) => t.(terms := t.terms.(renewable := true, period := period))
    case WithMaxUses(n) => t.(terms := t.terms.(maxUses := n))
  }

  function ApplyOpts(t: Token, opts: seq<TokenOpt>): Token
    decreases |opts|
  {
    if opts == [] then t else ApplyOpts(ApplyOpt(t, opts[0]), opts[1..])
  }

  /** An orphan option wins wherever it stands in the list; no option touches ids, accessors or times. */
  lemma {:induction false} OrphanOptionWins(t: Token, opts: seq<TokenOpt>)
    requires t.orphan ==> t.parent == ""
    ensures var r := ApplyOpts(t, opts);
            && (r.orphan <==> t.orphan || WithOrphan in opts) && (r.orphan ==> r.parent == "")
            && r == t.(orphan := r.orphan, parent := r.parent, terms := r.terms)
                && r.terms.createdAt == t.terms.createdAt
    decreases |opts|
  {
    if opts != [] {
      OrphanOptionWins(ApplyOpt(t, opts[0]), opts[1..]);
    }
  }

  // ---- renewal ----

  const HOUR := 3600

  datatype RenewError = TokenInvalid | NotRenewable | NotStored

  predicate IsExpired(t: Token, now: int) {
    t.expiresAt != 0 && now > t.expiresAt
  }

  /** A period token renews for its period, any other for the time asked for, an hour by default, within its cap. */
  function NewExpiry(t: Token, ttl: int, now: int): int {
    if t.terms.period > 0 then now + t.terms.period
    else
      var wanted := now + if ttl <= 0 then HOUR else ttl;
      var cap := t.terms.createdAt + t.terms.maxTtl;
      if t.terms.maxTtl > 0 && wanted > cap then cap else wanted
  }

  // ---- what every operation keeps ----

  ghost predicate Named(tokens: map<Id, Token>, h: History) {
    forall id :: id in tokens ==>
      && tokens[id].id == id && id in h.births && id !in h.removed
      && (tokens[id].orphan ==> tokens[id].parent == "")
  }

  /** No two tokens carry one accessor, and none leads to a token that does not carry it. */
  ghost predicate Unambiguous(tokens: map<Id, Token>, accessors: map<string, Id>, h: History) {
    && (forall x, y :: x in tokens && y in tokens && tokens[x].accessor == tokens[y].accessor != "" ==> x == y)
    && (forall id :: id in tokens && tokens[id].accessor in accessors ==> accessors[tokens[id].accessor] == id)
    && (forall a :: a in accessors ==> accessors[a] in h.births)
    && (forall a :: a in accessors && accessors[a] in tokens ==> tokens[accessors[a]].accessor == a)
    && "" !in accessors
  }

  /** The creation links of the live tokens are known, and the index holds nothing but creation links. */
  ghost predicate Remembered(tokens: map<Id, Token>, children: set<(Id, Id)>, h: History) {
    && (forall id :: id in tokens && Linked(tokens[id]) ==> (tokens[id].parent, id) in h.links)
    && children <= h.links
    && (forall p, c :: (p, c) in h.links && c in tokens ==> Linked(tokens[c]) && tokens[c].parent == p)
  }

  /** Every token was created once, after its parent was. */
  ghost predicate Aged(h: History) {
    && (forall p, c :: (p, c) in h.links ==> p in h.births && c in h.births && h.births[p] < h.births[c])
    && (forall p, q, c :: (p, c) in h.links && (q, c) in h.links ==> p == q)
    && (forall id :: id in h.births ==> h.births[id] < h.clock)
    && h.removed <= h.births.Keys
  }

  /** Whatever fails, no entry is wrong, but entries may be missing or stale. */
  ghost predicate Sound(s: Tokens, h: History) {
    Named(s.tokens, h) && Unambiguous(s.tokens, s.accessors, h) && Remembered(s.tokens, s.children, h) && Aged(h)
  }

  /** Accessors lead to the live tokens that carry them, and to nothing else. */
  ghost predicate Accessible(tokens: map<Id, Token>, accessors: map<string, Id>) {
    && (forall a :: a in accessors ==> accessors[a] in tokens)
    && (forall id :: id in tokens && tokens[id].accessor != "" ==> tokens[id].accessor in accessors)
  }

  ghost function LinksKept(h: History): set<(Id, Id)> {
    set e | e in h.links && e.1 !in h.removed
  }

  /** While nothing fails the indexes are exact, and only live tokens have cubbyhole data. */
  ghost predicate Exact(s: Tokens, h: History) {
    && Sound(s, h)
    && Accessible(s.tokens, s.accessors)
    && s.children == LinksKept(h)
    && (forall k :: k in s.cubby ==> k.0 in s.tokens)
  }

  // ---- storing a token ----

  /** t as storage holds it afterwards, and its index entries. */
  ghost function Stored(s: Tokens, t: Token, up: Uptime): Tokens {
    if !up(PutRecord(t.id)) then s
    else
      Tokens(
        s.tokens[t.id := t],
        if t.accessor != "" && up(PutAccessor(t.accessor)) then s.accessors[t.accessor := t.id] else s.accessors,
        if Linked(t) && up(PutChild(t.parent, t.id)) then s.children + {(t.parent, t.id)} else s.children,
        s.cubby)
  }

  // ---- removing a set of tokens ----

  /** What a healthy storage keeps. */
  ghost function Removed(s: Tokens, gone: set<Id>): Tokens {
    Tokens(
      s.tokens - gone,
      map a | a in s.accessors && s.accessors[a] !in gone :: s.accessors[a],
      (set e | e in s.children && !(e.1 in gone && e.1 in s.tokens)),
      map k | k in s.cubby && k.0 !in gone :: s.cubby[k])
  }

  predicate RecordGoes(gone: set<Id>, up: Uptime, id: Id) {
    id in gone && up(DeleteRecord(id))
  }

  /** Index entries are looked up in the token's record, which has to be read. */
  predicate EntriesGo(s: Tokens, gone: set<Id>, up: Uptime, id: Id) {
    id in gone && id in s.tokens && up(ReadRecord(id))
  }

  /** What storage keeps whose calls may fail. */
  ghost function Cleared(s: Tokens, gone: set<Id>, up: Uptime): Tokens {
    Tokens(
      map id | id in s.tokens && !RecordGoes(gone, up, id) :: s.tokens[id],
      map a | a in s.accessors && !(EntriesGo(s, gone, up, s.accessors[a]) && up(DeleteAccessor(a))) :: s.accessors[a],
      (set e | e in s.children && !(EntriesGo(s, gone, up, e.1) && up(DeleteChild(e.0, e.1)))),
      Purged(s.cubby, gone, up))
  }

  ghost function Purged(cubby: map<(Id, string), string>, gone: set<Id>, up: Uptime): map<(Id, string), string> {
    map k | k in cubby && !(k.0 in gone && up(ListCubby(k.0)) && up(DeleteCubby(k.0, k.1))) :: cubby[k]
  }

  lemma ClearedNone(s: Tokens, up: Uptime)
    ensures Cleared(s, {}, up) == s
  {
    assert Cleared(s, {}, up).accessors == s.accessors;
    assert Cleared(s, {}, up).cubby == s.cubby;
  }

  lemma ClearedTwice(s: Tokens, a: set<Id>, b: set<Id>, up: Uptime)
    ensures Cleared(Cleared(s, a, up), b, up) == Cleared(s, a + b, up)
  {
    var twice, once := Cleared(Cleared(s, a, up), b, up), Cleared(s, a + b, up);
    assert twice.tokens == once.tokens;
    assert twice.accessors == once.accessors;
    assert twice.children == once.children;
    assert twice.cubby == once.cubby;
  }

  lemma HealthyClears(s: Tokens, h: History, gone: set<Id>, up: Uptime)
    requires Exact(s, h) && Healthy(up)
    ensures Cleared(s, gone, up) == Removed(s, gone)
  {
    hide Sound;
    var c, r := Cleared(s, gone, up), Removed(s, gone);
    assert c.tokens == r.tokens;
    assert c.accessors == r.accessors;
    assert c.children == r.children;
    assert c.cubby == r.cubby;
  }

  /** The tokens that went are remembered. */
  ghost function Noted(h: History, s: Tokens, r: Tokens): History {
    h.(removed := h.removed + (s.tokens.Keys - r.tokens.Keys))
  }

  lemma NotedTwice(h: History, s: Tokens, a: set<Id>, b: set<Id>, up: Uptime)
    ensures var m := Cleared(s, a, up);
            Noted(Noted(h, s, m), m, Cleared(m, b, up)) == Noted(h, s, Cleared(s, a + b, up))
  {
    ClearedTwice(s, a, b, up);
    var m, r := Cleared(s, a, up), Cleared(s, a + b, up);
    assert (s.tokens.Keys - m.tokens.Keys) + (m.tokens.Keys - r.tokens.Keys) == s.tokens.Keys - r.tokens.Keys;
  }

  lemma ClearedSound(s: Tokens, h: History, gone: set<Id>, up: Uptime)
    requires Sound(s, h)
    ensures Sound(Cleared(s, gone, up), Noted(h, s, Cleared(s, gone, up)))
  {}

  lemma ClearedLinks(s: Tokens, h: History, gone: set<Id>)
    requires Exact(s, h)
    ensures Removed(s, gone).children == LinksKept(Noted(h, s, Removed(s, gone)))
  {
    hide Unambiguous, Accessible, Aged;
  }

  lemma ClearedAccessible(s: Tokens, h: History, gone: set<Id>)
    requires Exact(s, h)
    ensures Accessible(Removed(s, gone).tokens, Removed(s, gone).accessors)
  {
    hide Remembered, Aged;
  }

  lemma ClearedExact(s: Tokens, h: History, gone: set<Id>, up: Uptime)
    requires Exact(s, h) && Healthy(up)
    ensures Exact(Cleared(s, gone, up), Noted(h, s, Cleared(s, gone, up)))
  {
    hide Sound, LinksKept, Accessible;
    ClearedAccessible(s, h, gone);
    ClearedSound(s, h, gone, up);
    HealthyClears(s, h, gone, up);
    ClearedLinks(s, h, gone);
  }

  // ---- the subtree below a token ----

  /** id and everything these links lead to from it. */
  ghost function Subtree(children: set<(Id, Id)>, id: Id): set<Id> {
    {id} + set e | e in children && Reaches(children, id, e.1) :: e.1
  }

  lemma InSubtree(children: set<(Id, Id)>, id: Id, x: Id)
    ensures x in Subtree(children, id) <==> Reaches(children, id, x)
  {
    ReachesSelf(children, id);
    if Reaches(children, id, x) && x != id {
      var path :| IsPath(children, path) && path[0] == id && path[|path| - 1] == x;
      var n := |path| - 2;
      assert (path[n], path[n + 1]) in children;
    }
  }

  ghost function Forest(children: set<(Id, Id)>, roots: seq<Id>): set<Id> {
    if roots == [] then {} else Forest(children, roots[..|roots| - 1]) + Subtree(children, roots[|roots| - 1])
  }

  lemma {:induction false} InForest(children: set<(Id, Id)>, roots: seq<Id>, x: Id)
    ensures x in Forest(children, roots) <==> exists r :: r in roots && Reaches(children, r, x)
    decreases |roots|
  {
    if roots != [] {
      var last := |roots| - 1;
      InForest(children, roots[..last], x);
      InSubtree(children, roots[last], x);
      assert roots == roots[..last] + [roots[last]];
    }
  }

  /** Its children's subtrees and the token itself make up a token's subtree. */
  lemma {:induction false} SubtreeUnfolds(children: set<(Id, Id)>, id: Id, kids: seq<Id>)
    requires forall c :: c in kids <==> (id, c) in children
    ensures Forest(children, kids) + {id} == Subtree(children, id)
  {
    forall x
      ensures x in Forest(children, kids) + {id} <==> x in Subtree(children, id)
    {
      InSubtree(children, id, x);
      InForest(children, kids, x);
      ReachesSelf(children, id);
      if Reaches(children, id, x) && x != id {
        var c := ReachesFirst(children, id, x);
        assert c in kids && Reaches(children, c, x);
      }
      if x in Forest(children, kids) {
        var c :| c in kids && Reaches(children, c, x);
        ReachesBefore(children, id, c, x);
      }
    }
  }

  lemma {:induction false} ForestClosed(children: set<(Id, Id)>, roots: seq<Id>, a: Id, b: Id)
    requires (a, b) in children
    ensures a in Forest(children, roots) ==> b in Forest(children, roots)
  {
    InForest(children, roots, a);
    InForest(children, roots, b);
    if a in Forest(children, roots) {
      var r :| r in roots && Reaches(children, r, a);
      ReachesNext(children, r, a, b);
    }
  }

  /** Losing links into whole subtrees loses nothing of the next one. */
  lemma {:induction false} SubtreeAfter(links: set<(Id, Id)>, left: set<(Id, Id)>, roots: seq<Id>, id: Id)
    requires left <= links && forall e :: e in links && e !in left ==> e.1 in Forest(links, roots)
    ensures var f := Forest(links, roots); f + Subtree(left, id) == f + Subtree(links, id)
  {
    var f := Forest(links, roots);
    forall x
      ensures x in f + Subtree(left, id) <==> x in f + Subtree(links, id)
    {
      InSubtree(left, id, x);
      InSubtree(links, id, x);
      if Reaches(left, id, x) {
        ReachesMore(left, links, id, x);
      }
      if Reaches(links, id, x) {
        var seen := iset y | y in f || Reaches(left, id, y);
        ReachesSelf(left, id);
        forall a, b | a in seen && (a, b) in links
          ensures b in seen
        {
          ForestClosed(links, roots, a, b);
          if a !in f && b !in f {
            ReachesNext(left, id, a, b);
          }
        }
        ClosedHolds(links, seen, id, x);
      }
    }
  }

  // ---- revoking a tree ----

  /** The index entries that the walk can follow. */
  ghost function Readable(children: set<(Id, Id)>, up: Uptime): set<(Id, Id)> {
    set e | e in children && up(ListChildren(e.0)) && up(ReadChild(e.0, e.1))
  }

  ghost function TreeRevoked(s: Tokens, id: Id, up: Uptime): Tokens {
    Cleared(s, Subtree(Readable(s.children, up), id), up)
  }

  /** A token is lost exactly when the walk gets to it and its record can be deleted. */
  lemma LostIff(s: Tokens, id: Id, up: Uptime, x: Id)
    requires x in s.tokens
    ensures x !in TreeRevoked(s, id, up).tokens <==> Reaches(Readable(s.children, up), id, x) && up(DeleteRecord(x))
  {
    InSubtree(Readable(s.children, up), id, x);
  }

  lemma LinksFormTree(h: History)
    requires Aged(h)
    ensures Tree(h.links)
  {
    forall p, c | (p, c) in h.links
      ensures !Reaches(h.links, c, p)
    {
      NoCycles(h, p, c);
    }
  }

  /** No chain of creation links leads back to where it started. */
  lemma NoCycles(h: History, a: Id, b: Id)
    requires Aged(h) && (a, b) in h.links
    ensures !Reaches(h.links, b, a)
  {
    if Reaches(h.links, b, a) {
      var younger := iset x | x in h.births && h.births[x] >= h.births[b];
      ClosedHolds(h.links, younger, b, a);
    }
  }

  /** Every entry on the way to a live token of the subtree can be listed and read, and its record deleted. */
  ghost predicate NothingInTheWay(s: Tokens, id: Id, up: Uptime) {
    forall x :: x in s.tokens && Reaches(s.children, id, x) ==>
      && up(DeleteRecord(x))
      && forall e :: OnTheWay(s.children, id, e, x) ==> up(ListChildren(e.0)) && up(ReadChild(e.0, e.1))
  }

  /** No live token of the subtree is left if and only if nothing is in the way; no other failure matters. */
  lemma RevokesAllIff(s: Tokens, h: History, id: Id, up: Uptime)
    requires Sound(s, h)
    ensures (forall x :: x in s.tokens && Reaches(s.children, id, x) ==> x !in TreeRevoked(s, id, up).tokens)
            <==> NothingInTheWay(s, id, up)
  {
    LinksFormTree(h);
    PartOfTree(h.links, s.children);
    hide Tree, TreeRevoked, Sound;
    forall x | x in s.tokens && Reaches(s.children, id, x)
      ensures x !in TreeRevoked(s, id, up).tokens <==>
              && up(DeleteRecord(x))
              && forall e :: OnTheWay(s.children, id, e, x) ==> up(ListChildren(e.0)) && up(ReadChild(e.0, e.1))
    {
      LostIff(s, id, up, x);
      CutOffIff(s.children, Readable(s.children, up), id, x);
    }
  }

  /** With exact indexes, a live token created under id survives if and only if its record cannot be deleted or a
      creation link on the way is broken: its lower end was removed, other than by accessor, or the index entry cannot
      be listed or read. */
  lemma SurvivesIff(s: Tokens, h: History, id: Id, up: Uptime, x: Id)
    requires Exact(s, h) && x in s.tokens && Reaches(h.links, id, x)
    ensures x in TreeRevoked(s, id, up).tokens <==>
            || !up(DeleteRecord(x))
            || exists e :: OnTheWay(h.links, id, e, x) &&
                 (e.1 in h.removed || !up(ListChildren(e.0)) || !up(ReadChild(e.0, e.1)))
  {
    LinksFormTree(h);
    hide Tree, TreeRevoked, Sound, Accessible;
    LostIff(s, id, up, x);
    CutOffIff(h.links, Readable(s.children, up), id, x);
  }

  /** The non-orphan parent links of the live tokens. */
  ghost function LiveLinks(s: Tokens): set<(Id, Id)> {
    set id | id in s.tokens && Linked(s.tokens[id]) :: (s.tokens[id].parent, id)
  }

  /** With exact indexes and no failures, every token that descends from id through parent links of live tokens goes. */
  lemma LiveDescendantsRemoved(s: Tokens, h: History, id: Id, up: Uptime, x: Id)
    requires Exact(s, h) && Healthy(up) && x in s.tokens && Reaches(LiveLinks(s), id, x)
    ensures x !in TreeRevoked(s, id, up).tokens
  {
    ReachesMore(LiveLinks(s), Readable(s.children, up), id, x);
    LostIff(s, id, up, x);
  }

  /** A token is removed only if it was created, through any number of links, under id, whatever failed. */
  lemma OnlyDescendantsRemoved(s: Tokens, h: History, id: Id, up: Uptime, x: Id)
    requires Sound(s, h) && x in s.tokens && x !in TreeRevoked(s, id, up).tokens
    ensures Reaches(h.links, id, x)
  {
    LostIff(s, id, up, x);
    ReachesMore(Readable(s.children, up), h.links, id, x);
  }

  /** Revoking any other token leaves an orphan alone, with its accessor and its cubbyhole, whatever failed. */
  lemma OrphanSurvives(s: Tokens, h: History, id: Id, up: Uptime, x: Id)
    requires Sound(s, h) && x in s.tokens && !Linked(s.tokens[x]) && x != id
    ensures var r := TreeRevoked(s, id, up);
            && x in r.tokens && r.tokens[x] == s.tokens[x]
            && (forall a :: a in s.accessors && s.accessors[a] == x ==> a in r.accessors && r.accessors[a] == x)
            && (forall k :: k in s.cubby && k.0 == x ==> k in r.cubby && r.cubby[k] == s.cubby[k])
  {
    var links := Readable(s.children, up);
    assert x !in Subtree(links, id) by {
      InSubtree(links, id, x);
      if Reaches(links, id, x) {
        var p := ReachesLast(links, id, x);
      }
    }
  }

  /** A token "p" with a child "c", and nothing else. */
  function Family(): (s: Tokens) {
    var terms := Terms(0, false, 0, 0, 0);
    var p, c := Token("p", "", "", false, 0, terms), Token("c", "", "p", false, 0, terms);
    Tokens(map["p" := p, "c" := c], map[], {("p", "c")}, map[])
  }

  function FamilyHistory(): History {
    History({("p", "c")}, map["p" := 0, "c" := 1], 2, {})
  }

  lemma FamilyIsExact()
    ensures Exact(Family(), FamilyHistory())
  {
    var s, h := Family(), FamilyHistory();
    assert Named(s.tokens, h) && Aged(h);
    assert Unambiguous(s.tokens, s.accessors, h);
    assert Remembered(s.tokens, s.children, h);
    assert LinksKept(h) == s.children;
    hide Named, Aged, Unambiguous, Remembered, LinksKept;
  }

  /** If only the listing of p's children fails, revoking p reports success and leaves c alive. */
  lemma ListingFailsExample()
    ensures var up: Uptime := call => call != ListChildren("p");
            && Exact(Family(), FamilyHistory())
            && up(DeleteRecord("p")) && "c" in TreeRevoked(Family(), "p", up).tokens
  {
    hide Exact, TreeRevoked;
    var up: Uptime := call => call != ListChildren("p");
    FamilyIsExact();
    var links := Readable(Family().children, up);
    assert links == {};
    LostIff(Family(), "p", up, "c");
    if Reaches(links, "p", "c") {
      var b := ReachesLast(links, "p", "c");
    }
  }
}
