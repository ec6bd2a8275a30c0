/** internal/identity/identity.go: policies through nested group membership. */
module Identity {
  import opened Reachability
  import opened Sequences
  import opened Wrappers

  datatype Group = Group(id: string, memberEntityIds: seq<string>, memberGroupIds: seq<string>, policies: seq<string>)
  datatype Entity = Entity(disabled: bool, policies: seq<string>)

  // ---- the upward membership closure ----

  /** One link from each member group to the group that lists it. */
  ghost function Links(groups: seq<Group>): set<(string, string)> {
    set g, c | g in groups && c in g.memberGroupIds :: (c, g.id)
  }

  /** gid is reached from one of the starts by going up any number of memberships. */
  ghost predicate InClosure(groups: seq<Group>, starts: set<string>, gid: string) {
    exists s :: s in starts && Reaches(Links(groups), s, gid)
  }

  lemma StartsInClosure(groups: seq<Group>, starts: set<string>, gid: string)
    requires gid in starts
    ensures InClosure(groups, starts, gid)
  {
    ReachesSelf(Links(groups), gid);
  }

  lemma ParentInClosure(groups: seq<Group>, starts: set<string>, gid: string, parent: string)
    requires InClosure(groups, starts, gid) && (gid, parent) in Links(groups)
    ensures InClosure(groups, starts, parent)
  {
    var s :| s in starts && Reaches(Links(groups), s, gid);
    ReachesNext(Links(groups), s, gid, parent);
  }

  // ---- the breadth-first search of both resolvers ----

  ghost function Universe(groups: seq<Group>, queue: seq<string>): set<string> {
    (set g | g in groups :: g.id) + (set q | q in queue)
  }

  /** The groups to look at next: parents of gid that were not visited. */
  method Parents(groups: seq<Group>, gid: string, visited: set<string>) returns (found: seq<string>)
    ensures forall p :: p in found <==> p !in visited && (gid, p) in Links(groups)
  {
    found := [];
    for i := 0 to |groups|
      invariant forall p :: p in found <==> p !in visited && (gid, p) in Links(groups[..i])
    {
      var pg := groups[i];
      assert groups[..i + 1] == groups[..i] + [pg];
      if pg.id !in visited && gid in pg.memberGroupIds {
        found := found + [pg.id];
      }
    }
    assert groups[..|groups|] == groups;
  }

  lemma ParentInUniverse(groups: seq<Group>, start: seq<string>, gid: string, parent: string)
    requires (gid, parent) in Links(groups)
    ensures parent in Universe(groups, start)
  {}

  /** Between two rounds: nothing outside the closure was met, and only the queue is still to be followed. */
  ghost predicate Searching(groups: seq<Group>, starts: set<string>, visited: set<string>, queue: seq<string>) {
    && (forall g :: g in visited ==> InClosure(groups, starts, g))
    && (forall q :: q in queue ==> InClosure(groups, starts, q))
    && (forall s :: s in starts ==> s in visited || s in queue)
    && (forall g, p :: g in visited && (g, p) in Links(groups) ==> p in visited || p in queue)
  }

  lemma SearchSkips(groups: seq<Group>, starts: set<string>, visited: set<string>, queue: seq<string>)
    requires queue != [] && queue[0] in visited && Searching(groups, starts, visited, queue)
    ensures Searching(groups, starts, visited, queue[1..])
  {
    hide InClosure, Links;
    assert forall q :: q in queue ==> q == queue[0] || q in queue[1..];
  }

  lemma SearchVisits(groups: seq<Group>, starts: set<string>, visited: set<string>, queue: seq<string>,
      more: seq<string>)
    requires queue != [] && Searching(groups, starts, visited, queue)
    requires forall p :: p in more <==> p !in visited + {queue[0]} && (queue[0], p) in Links(groups)
    ensures Searching(groups, starts, visited + {queue[0]}, queue[1..] + more)
  {
    hide InClosure, Links;
    assert forall q :: q in queue ==> q == queue[0] || q in queue[1..];
    forall p | p in more
      ensures InClosure(groups, starts, p)
    {
      ParentInClosure(groups, starts, queue[0], p);
    }
  }

  method BreadthFirst(groups: seq<Group>, start: seq<string>) returns (visited: set<string>)
    ensures forall gid :: gid in visited <==> InClosure(groups, (set s | s in start), gid)
  {
    hide InClosure, Links, Universe;
    ghost var starts := set s | s in start;
    ghost var all := Universe(groups, start);
    var queue := start;
    visited := {};
    StartsSearch(groups, start);
    while queue != []
      invariant visited <= all && forall q :: q in queue ==> q in all
      invariant Searching(groups, starts, visited, queue)
      decreases |all - visited|, |queue|
    {
      hide Searching;
      var gid := queue[0];
      if gid in visited {
        SearchSkips(groups, starts, visited, queue);
        queue := queue[1..];
      } else {
        ghost var unvisited := all - visited;
        var more := Parents(groups, gid, visited + {gid});
        SearchVisits(groups, starts, visited, queue, more);
        forall p | p in more { ParentInUniverse(groups, start, gid, p); }
        visited := visited + {gid};
        queue := queue[1..] + more;
        assert all - visited == unvisited - {gid};
      }
    }
    ClosureVisited(groups, starts, visited);
  }

  lemma StartsSearch(groups: seq<Group>, start: seq<string>)
    ensures Searching(groups, (set s | s in start), {}, start)
    ensures forall s :: s in start ==> s in Universe(groups, start)
  {
    forall s | s in start { StartsInClosure(groups, (set s | s in start), s); }
  }

  lemma ClosureVisited(groups: seq<Group>, starts: set<string>, visited: set<string>)
    requires starts <= visited && forall g, p :: g in visited && (g, p) in Links(groups) ==> p in visited
    ensures forall gid :: InClosure(groups, starts, gid) ==> gid in visited
  {
    forall gid | InClosure(groups, starts, gid)
      ensures gid in visited
    {
      var s :| s in starts && Reaches(Links(groups), s, gid);
      ClosedHolds(Links(groups), (iset v | v in visited), s, gid);
    }
  }

  // ---- collecting policies ----

  method AddNew(result: seq<string>, policies: seq<string>) returns (out: seq<string>)
    requires Distinct(result)
    ensures Distinct(out) && forall p :: p in out <==> p in result || p in policies
  {
    out := result;
    for i := 0 to |policies|
      invariant Distinct(out) && forall p :: p in out <==> p in result || p in policies[..i]
    {
      assert policies[..i + 1] == policies[..i] + [policies[i]];
      if policies[i] !in out {
        out := out + [policies[i]];
      }
    }
    assert policies[..|policies|] == policies;
  }

  /** The first stored group with this id, as the lookup loop finds it. */
  function FirstWithId(groups: seq<Group>, gid: string): Option<Group> {
    if groups == [] then None else if groups[0].id == gid then Some(groups[0]) else FirstWithId(groups[1..], gid)
  }

  /** p is a policy of the group stored under gid. */
  predicate GroupPolicy(groups: seq<Group>, gid: string, p: string) {
    FirstWithId(groups, gid).Some? && p in FirstWithId(groups, gid).value.policies
  }

  method FindGroup(groups: seq<Group>, gid: string) returns (g: Option<Group>)
    ensures g == FirstWithId(groups, gid)
  {
    for i := 0 to |groups|
      invariant FirstWithId(groups, gid) == FirstWithId(groups[i..], gid)
    {
      if groups[i].id == gid {
        return Some(groups[i]);
      }
    }
    return None;
  }

  /** Adds the policies of all these groups, in whatever order the map yields them. */
  method AddGroups(result: seq<string>, groups: seq<Group>, ids: set<string>) returns (out: seq<string>)
    requires Distinct(result)
    ensures Distinct(out)
    ensures forall p :: p in out <==> p in result || exists gid :: gid in ids && GroupPolicy(groups, gid, p)
  {
    hide Distinct, FirstWithId;
    out := result;
    var todo := ids;
    while todo != {}
      invariant todo <= ids && Distinct(out)
      invariant forall p :: p in out <==> p in result || exists gid :: gid in ids - todo && GroupPolicy(groups, gid, p)
      decreases |todo|
    {
      var gid :| gid in todo;
      var g := FindGroup(groups, gid);
      ghost var seen, was := ids - todo, out;
      todo := todo - {gid};
      assert ids - todo == seen + {gid};
      if g.Some? {
        out := AddNew(out, g.value.policies);
      }
      forall p
        ensures p in out <==> p in result || exists x :: x in ids - todo && GroupPolicy(groups, x, p)
      {
        if p in was {
          if p !in result {
            var x :| x in seen && GroupPolicy(groups, x, p);
            assert x in ids - todo;
          }
        } else if g.Some? && p in g.value.policies {
          assert gid in ids - todo && GroupPolicy(groups, gid, p);
        }
      }
    }
  }

  /** The groups that list the entity directly. */
  ghost function DirectGroups(groups: seq<Group>, entityId: string): set<string> {
    set g | g in groups && entityId in g.memberEntityIds :: g.id
  }

  method FindDirect(groups: seq<Group>, entityId: string) returns (queue: seq<string>)
    ensures (set s | s in queue) == DirectGroups(groups, entityId)
  {
    queue := [];
    for i := 0 to |groups|
      invariant forall s :: s in queue <==> s in DirectGroups(groups[..i], entityId)
    {
      assert groups[..i + 1] == groups[..i] + [groups[i]];
      if entityId in groups[i].memberEntityIds {
        queue := queue + [groups[i].id];
      }
    }
    assert groups[..|groups|] == groups;
  }

  /** Every group the entity belongs to, directly or through nesting. */
  ghost predicate MemberOf(groups: seq<Group>, entityId: string, gid: string) {
    InClosure(groups, DirectGroups(groups, entityId), gid)
  }

  /** `entity` is None when the lookup failed, `groups` is None when listing them failed. */
  method ResolveEntityPolicies(entity: Option<Entity>, entityId: string, groups: Option<seq<Group>>)
      returns (result: seq<string>)
    ensures Distinct(result)
    ensures entity.None? || entity.value.disabled ==> result == []
    ensures entity.Some? && !entity.value.disabled && groups.None? ==> forall p :: p in result <==>
              p in entity.value.policies
    ensures entity.Some? && !entity.value.disabled && groups.Some? ==>
              forall p :: p in result <==>
                p in entity.value.policies ||
                exists gid :: MemberOf(groups.value, entityId, gid) && GroupPolicy(groups.value, gid, p)
  {
    hide InClosure, FirstWithId, DirectGroups;
    if entity.None? || entity.value.disabled {
      return [];
    }
    result := AddNew([], entity.value.policies);
    if groups.None? {
      return;
    }
    var queue := FindDirect(groups.value, entityId);
    var memberSet := BreadthFirst(groups.value, queue);
    result := AddGroups(result, groups.value, memberSet);
  }

  /** The groups some of these external names are aliased to under the mount. */
  ghost function AliasedGroups(aliases: map<string, string>, externalGroups: seq<string>): set<string> {
    set e | e in externalGroups && e in aliases :: aliases[e]
  }

  method MatchAliases(aliases: map<string, string>, externalGroups: seq<string>) returns (matched: set<string>)
    ensures matched == AliasedGroups(aliases, externalGroups)
  {
    matched := {};
    for i := 0 to |externalGroups|
      invariant matched == AliasedGroups(aliases, externalGroups[..i])
    {
      assert externalGroups[..i + 1] == externalGroups[..i] + [externalGroups[i]];
      if externalGroups[i] in aliases {
        matched := matched + {aliases[externalGroups[i]]};
      }
    }
    assert externalGroups[..|externalGroups|] == externalGroups;
  }

  method Enqueue(matched: set<string>) returns (queue: seq<string>)
    ensures (set s | s in queue) == matched
  {
    queue := [];
    var todo := matched;
    while todo != {}
      invariant todo <= matched && forall s :: s in queue <==> s in matched && s !in todo
      decreases |todo|
    {
      var gid :| gid in todo;
      todo := todo - {gid};
      queue := queue + [gid];
    }
  }

  /** `aliases` are the group aliases of one mount: external name to group id. */
  method ResolveExternalGroupPolicies(aliases: map<string, string>, externalGroups: seq<string>,
      groups: Option<seq<Group>>)
    returns (result: seq<string>)
    ensures Distinct(result)
    ensures groups.None? ==> result == []
    ensures groups.Some? ==>
              forall p :: p in result <==>
                exists gid :: InClosure(groups.value, AliasedGroups(aliases, externalGroups), gid)
                    && GroupPolicy(groups.value, gid, p)
  {
    hide FirstWithId, AliasedGroups, InClosure;
    var matched := MatchAliases(aliases, externalGroups);
    if matched == {} {
      if groups.Some? {
        NothingFromNothing(groups.value);
      }
      return [];
    }
    if groups.None? {
      return [];
    }
    var queue := Enqueue(matched);
    var visited := BreadthFirst(groups.value, queue);
    result := AddGroups([], groups.value, visited);
  }

  lemma NothingFromNothing(groups: seq<Group>)
    ensures forall gid :: !InClosure(groups, {}, gid)
  {}
}
