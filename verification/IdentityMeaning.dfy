/** Whose policies an entity gets, in terms of the stored groups alone. */
module IdentityMeaning {
  import opened Identity
  import opened Reachability

  /** A way up: stored groups, each of them a member of the next. */
  ghost predicate Climb(groups: seq<Group>, way: seq<Group>) {
    && |way| >= 1 && (forall i :: 0 <= i < |way| ==> way[i] in groups)
    && forall i :: 0 < i < |way| ==> way[i - 1].id in way[i].memberGroupIds
  }

  /** Groups are stored under their ids. */
  ghost predicate UniqueIds(groups: seq<Group>) {
    forall i, j :: 0 <= i < j < |groups| ==> groups[i].id != groups[j].id
  }

  /** The group is one of these, or has one of these as a member, stored or not. */
  ghost predicate From(starts: set<string>, g: Group) {
    g.id in starts || exists s :: s in starts && s in g.memberGroupIds
  }

  ghost predicate ClimbsTo(groups: seq<Group>, starts: set<string>, way: seq<Group>, g: Group) {
    Climb(groups, way) && From(starts, way[0]) && way[|way| - 1] == g
  }

  // ---- the closure and the ways up ----

  lemma {:induction false} WayInClosure(groups: seq<Group>, starts: set<string>, way: seq<Group>, i: nat)
    requires Climb(groups, way) && From(starts, way[0]) && i < |way|
    ensures InClosure(groups, starts, way[i].id)
    decreases i
  {
    hide InClosure;
    var g := way[i];
    assert g in groups;
    if i > 0 {
      WayInClosure(groups, starts, way, i - 1);
      assert (way[i - 1].id, g.id) in Links(groups);
      ParentInClosure(groups, starts, way[i - 1].id, g.id);
    } else if g.id in starts {
      StartsInClosure(groups, starts, g.id);
    } else {
      var s :| s in starts && s in g.memberGroupIds;
      assert (s, g.id) in Links(groups);
      StartsInClosure(groups, starts, s);
      ParentInClosure(groups, starts, s, g.id);
    }
  }

  lemma OneUp(groups: seq<Group>, starts: set<string>, id: string, g: Group)
    requires id in starts || exists way, x :: ClimbsTo(groups, starts, way, x) && x.id == id
    requires g in groups && id in g.memberGroupIds
    ensures exists way :: ClimbsTo(groups, starts, way, g)
  {
    if id in starts {
      assert ClimbsTo(groups, starts, [g], g);
    } else {
      var way, x :| ClimbsTo(groups, starts, way, x) && x.id == id;
      assert ClimbsTo(groups, starts, way + [g], g);
    }
  }

  lemma ClosureHasWay(groups: seq<Group>, starts: set<string>, gid: string)
    requires InClosure(groups, starts, gid) && gid !in starts
    ensures exists way, g :: ClimbsTo(groups, starts, way, g) && g.id == gid
  {
    hide ClimbsTo;
    var s :| s in starts && Reaches(Links(groups), s, gid);
    var seen := iset x | x in starts || exists way, g :: ClimbsTo(groups, starts, way, g) && g.id == x;
    forall a, b | a in seen && (a, b) in Links(groups)
      ensures b in seen
    {
      var g :| g in groups && a in g.memberGroupIds && g.id == b;
      OneUp(groups, starts, a, g);
    }
    ClosedHolds(Links(groups), seen, s, gid);
  }

  // ---- looking groups up ----

  lemma {:induction false} FirstIs(groups: seq<Group>, gid: string)
    ensures FirstWithId(groups, gid).None? <==> forall g :: g in groups ==> g.id != gid
    ensures FirstWithId(groups, gid).Some? ==>
              FirstWithId(groups, gid).value in groups && FirstWithId(groups, gid).value.id == gid
  {
    if groups != [] {
      FirstIs(groups[1..], gid);
      assert forall g :: g in groups <==> g == groups[0] || g in groups[1..];
    }
  }

  lemma StoredPolicy(groups: seq<Group>, g: Group, p: string)
    requires UniqueIds(groups) && g in groups
    ensures GroupPolicy(groups, g.id, p) <==> p in g.policies
  {
    FirstIs(groups, g.id);
    SameId(groups, g, FirstWithId(groups, g.id).value);
  }

  /** The policies of the closure are those at the end of some way up. */
  lemma PoliciesIff(groups: seq<Group>, starts: set<string>, p: string)
    requires UniqueIds(groups)
    ensures (exists gid :: InClosure(groups, starts, gid) && GroupPolicy(groups, gid, p)) <==>
              exists way, g :: ClimbsTo(groups, starts, way, g) && p in g.policies
  {
    hide InClosure, UniqueIds, FirstWithId, GroupPolicy;
    if exists gid :: InClosure(groups, starts, gid) && GroupPolicy(groups, gid, p) {
      var gid :| InClosure(groups, starts, gid) && GroupPolicy(groups, gid, p);
      PolicyHasWay(groups, starts, gid, p);
    }
    if exists way, g :: ClimbsTo(groups, starts, way, g) && p in g.policies {
      var way, g :| ClimbsTo(groups, starts, way, g) && p in g.policies;
      WayInClosure(groups, starts, way, |way| - 1);
      StoredPolicy(groups, g, p);
    }
  }

  lemma PolicyHasWay(groups: seq<Group>, starts: set<string>, gid: string, p: string)
    requires UniqueIds(groups) && InClosure(groups, starts, gid) && GroupPolicy(groups, gid, p)
    ensures exists way, g :: ClimbsTo(groups, starts, way, g) && p in g.policies
  {
    hide InClosure, UniqueIds, FirstWithId;
    FirstIs(groups, gid);
    var g := FirstWithId(groups, gid).value;
    if gid in starts {
      assert ClimbsTo(groups, starts, [g], g);
    } else {
      ClosureHasWay(groups, starts, gid);
      var way, x :| ClimbsTo(groups, starts, way, x) && x.id == gid;
      StoredPolicy(groups, x, p);
    }
  }

  /** An entity inherits a policy if and only if there is a way up from a group that lists it to one that has the
      policy. */
  lemma EntityInheritsIff(groups: seq<Group>, entityId: string, p: string)
    requires UniqueIds(groups)
    ensures (exists gid :: MemberOf(groups, entityId, gid) && GroupPolicy(groups, gid, p)) <==>
              exists way: seq<Group> ::
                Climb(groups, way) && entityId in way[0].memberEntityIds && p in way[|way| - 1].policies
  {
    hide InClosure, GroupPolicy, UniqueIds;
    var starts := DirectGroups(groups, entityId);
    PoliciesIff(groups, starts, p);
    if exists way, g :: ClimbsTo(groups, starts, way, g) && p in g.policies {
      var way, g :| ClimbsTo(groups, starts, way, g) && p in g.policies;
      Directly(groups, entityId, way);
    }
    if way: seq<Group> :| Climb(groups, way) && entityId in way[0].memberEntityIds && p in way[|way| - 1].policies {
      assert way[0] in groups && way[0].id in starts;
      assert ClimbsTo(groups, starts, way, way[|way| - 1]);
    }
  }

  lemma StartOfWay(groups: seq<Group>, way: seq<Group>)
    requires Climb(groups, way)
    ensures |way| >= 1 && way[0] in groups
  {}

  lemma SameId(groups: seq<Group>, a: Group, b: Group)
    requires UniqueIds(groups) && a in groups && b in groups && a.id == b.id
    ensures a == b
  {
    var i, j :| 0 <= i < |groups| && 0 <= j < |groups| && groups[i] == a && groups[j] == b;
    assert i == j;
  }

  lemma FromBelow(groups: seq<Group>, d: Group, way: seq<Group>)
    requires Climb(groups, way) && d in groups && d.id in way[0].memberGroupIds
    ensures Climb(groups, [d] + way) && ([d] + way)[|way|] == way[|way| - 1]
  {}

  lemma Directly(groups: seq<Group>, entityId: string, way: seq<Group>)
    requires UniqueIds(groups) && Climb(groups, way) && From(DirectGroups(groups, entityId), way[0])
    ensures exists w: seq<Group> ::
              Climb(groups, w) && entityId in w[0].memberEntityIds && w[|w| - 1] == way[|way| - 1]
  {
    hide UniqueIds, Climb;
    StartOfWay(groups, way);
    var starts := DirectGroups(groups, entityId);
    var s :| s in starts && (s == way[0].id || s in way[0].memberGroupIds);
    var d :| d in groups && entityId in d.memberEntityIds && d.id == s;
    if s == way[0].id {
      SameId(groups, d, way[0]);
    } else {
      FromBelow(groups, d, way);
    }
  }

  /** External names give a policy if and only if there is a way up from a group that one of them is an alias of, or
      that has such a group as a member, to one that has the policy. */
  lemma ExternalInheritsIff(aliases: map<string, string>, externalGroups: seq<string>, groups: seq<Group>, p: string)
    requires UniqueIds(groups)
    ensures var starts := AliasedGroups(aliases, externalGroups);
            (exists gid :: InClosure(groups, starts, gid) && GroupPolicy(groups, gid, p)) <==>
              exists way: seq<Group>, e ::
                && Climb(groups, way) && e in externalGroups && e in aliases && p in way[|way| - 1].policies
                && (aliases[e] == way[0].id || aliases[e] in way[0].memberGroupIds)
  {
    hide InClosure, GroupPolicy, UniqueIds;
    var starts := AliasedGroups(aliases, externalGroups);
    PoliciesIff(groups, starts, p);
    if exists way, g :: ClimbsTo(groups, starts, way, g) && p in g.policies {
      var way: seq<Group>, g :| ClimbsTo(groups, starts, way, g) && p in g.policies;
      var s :| s in starts && (s == way[0].id || s in way[0].memberGroupIds);
      var e :| e in externalGroups && e in aliases && aliases[e] == s;
    }
    if way: seq<Group>, e :|
        && Climb(groups, way) && e in externalGroups && e in aliases && p in way[|way| - 1].policies
        && (aliases[e] == way[0].id || aliases[e] in way[0].memberGroupIds) {
      assert aliases[e] in starts;
      assert ClimbsTo(groups, starts, way, way[|way| - 1]);
    }
  }
}
