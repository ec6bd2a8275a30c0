/** internal/policy/policy.go: deny-overrides evaluation of policies. */
module PolicyAcl {
  import opened Glob

  const CAP_READ: bv8 := 1
  const CAP_WRITE: bv8 := 2
  const CAP_DELETE: bv8 := 4
  const CAP_LIST: bv8 := 8
  const CAP_DENY: bv8 := 16

  datatype Rule = Rule(path: string, capabilities: bv8)
  datatype Policy = Policy(name: string, rules: seq<Rule>)

  predicate Covers(r: Rule, path: string) {
    Matches(Tokens(r.path), path, true)
  }

  predicate Carries(r: Rule, cap: bv8) {
    r.capabilities & cap != 0
  }

  /** Some rule of some policy covers the path and carries one of the capabilities. */
  ghost predicate Granted(policies: seq<Policy>, path: string, cap: bv8) {
    exists p, r :: p in policies && r in p.rules && Covers(r, path) && Carries(r, cap)
  }

  /** One of the two scans of Allowed. */
  method AnyRule(policies: seq<Policy>, path: string, cap: bv8) returns (found: bool)
    ensures found <==> Granted(policies, path, cap)
  {
    hide Covers, Carries;
    for i := 0 to |policies|
      invariant forall p, r :: p in policies[..i] && r in p.rules ==> !(Covers(r, path) && Carries(r, cap))
    {
      var rules := policies[i].rules;
      for j := 0 to |rules|
        invariant forall r :: r in rules[..j] ==> !(Covers(r, path) && Carries(r, cap))
      {
        var matched := RuleMatches(rules[j], path);
        var carries := Carries(rules[j], cap);
        if matched && carries {
          assert policies[i] in policies && rules[j] in policies[i].rules;
          return true;
        }
        assert rules[..j + 1] == rules[..j] + [rules[j]];
      }
      assert rules[..|rules|] == rules;
      assert policies[..i + 1] == policies[..i] + [policies[i]];
    }
    assert policies[..|policies|] == policies;
    return false;
  }

  method RuleMatches(r: Rule, path: string) returns (b: bool)
    ensures b == Covers(r, path)
  {
    b := GlobMatch(r.path, path);
  }

  /** No matching rule denies, and some matching rule grants. */
  ghost predicate Permitted(policies: seq<Policy>, path: string, cap: bv8) {
    !Granted(policies, path, CAP_DENY) && Granted(policies, path, cap)
  }

  method Allowed(policies: seq<Policy>, path: string, cap: bv8) returns (ok: bool)
    ensures ok <==> Permitted(policies, path, cap)
  {
    hide Granted;
    var denied := AnyRule(policies, path, CAP_DENY);
    if denied {
      return false;
    }
    ok := AnyRule(policies, path, cap);
  }

  /** The rules of all policies, without order or repetition. */
  ghost function RuleSet(policies: seq<Policy>): set<Rule> {
    if policies == [] then {} else (set r | r in policies[0].rules) + RuleSet(policies[1..])
  }

  ghost predicate Listed(policies: seq<Policy>, r: Rule) {
    exists p :: p in policies && r in p.rules
  }

  lemma {:induction false} InRuleSet(policies: seq<Policy>, r: Rule)
    ensures r in RuleSet(policies) <==> Listed(policies, r)
  {
    if policies != [] {
      InRuleSet(policies[1..], r);
      if Listed(policies, r) {
        var p :| p in policies && r in p.rules;
        assert p == policies[0] || p in policies[1..];
      }
    }
  }

  lemma {:induction false} SameRulesGrant(a: seq<Policy>, b: seq<Policy>, path: string, cap: bv8)
    requires RuleSet(a) == RuleSet(b) && Granted(a, path, cap)
    ensures Granted(b, path, cap)
  {
    hide Covers, Carries, RuleSet;
    var p, r :| p in a && r in p.rules && Covers(r, path) && Carries(r, cap);
    InRuleSet(a, r);
    InRuleSet(b, r);
    var q :| q in b && r in q.rules;
  }

  /** Only the set of rules decides: not their order, not how they are grouped into policies. */
  lemma {:induction false} OrderDoesNotMatter(a: seq<Policy>, b: seq<Policy>, path: string, cap: bv8)
    requires RuleSet(a) == RuleSet(b)
    ensures Permitted(a, path, cap) <==> Permitted(b, path, cap)
  {
    hide Granted, RuleSet;
    forall c | c in {cap, CAP_DENY}
      ensures Granted(a, path, c) <==> Granted(b, path, c)
    {
      if Granted(a, path, c) {
        SameRulesGrant(a, b, path, c);
      }
      if Granted(b, path, c) {
        SameRulesGrant(b, a, path, c);
      }
    }
  }

  // ---- what a decision means ----

  /** Rule j of policy i matches the path and has one of these bits. */
  ghost predicate Speaks(policies: seq<Policy>, i: nat, j: nat, path: string, bits: bv8) {
    && i < |policies| && j < |policies[i].rules|
    && Matches(Tokens(policies[i].rules[j].path), path, true) && policies[i].rules[j].capabilities & bits != 0
  }

  lemma GrantedIff(policies: seq<Policy>, path: string, cap: bv8)
    ensures Granted(policies, path, cap) <==> exists i: nat, j: nat :: Speaks(policies, i, j, path, cap)
  {
    if Granted(policies, path, cap) {
      var p, r :| p in policies && r in p.rules && Covers(r, path) && Carries(r, cap);
      var i: nat :| i < |policies| && policies[i] == p;
      var j: nat :| j < |p.rules| && p.rules[j] == r;
      assert Speaks(policies, i, j, path, cap);
    }
    if exists i: nat, j: nat :: Speaks(policies, i, j, path, cap) {
      var i: nat, j: nat :| Speaks(policies, i, j, path, cap);
      var p, r := policies[i], policies[i].rules[j];
      assert p in policies && r in p.rules && Covers(r, path) && Carries(r, cap);
    }
  }

  /** A path is open to a capability if and only if some rule that matches it has that bit, and none that does has the
      deny bit, 16; wherever they stand. */
  lemma PermittedIff(policies: seq<Policy>, path: string, cap: bv8)
    ensures Permitted(policies, path, cap) <==>
              && (exists i: nat, j: nat :: Speaks(policies, i, j, path, cap))
              && !exists i: nat, j: nat :: Speaks(policies, i, j, path, 16)
  {
    hide Granted, Speaks;
    GrantedIff(policies, path, cap);
    GrantedIff(policies, path, 16);
  }

  /** The root policy. */
  function RootPolicy(): Policy {
    Policy("root", [Rule("**", CAP_READ | CAP_WRITE | CAP_DELETE | CAP_LIST)])
  }

  /** It opens every path to reading, writing, deleting and listing, and to nothing else. */
  lemma RootMayDoAll(path: string, cap: bv8)
    ensures Permitted([RootPolicy()], path, cap) <==> cap & 0x0f != 0
  {
    var all := [RootPolicy()];
    EverythingMatches(path);
    assert all[0].rules[0] == Rule("**", 15);
    GrantedIff(all, path, cap);
    GrantedIff(all, path, 16);
    assert (15 as bv8) & 16 == 0 && (15 as bv8) & cap == cap & 0x0f;
    assert cap & 0x0f != 0 ==> Speaks(all, 0, 0, path, cap);
  }

  /** Each capability opens a path to itself alone. */
  lemma OneCapability(path: string, c: bv8, d: bv8)
    requires c in {CAP_READ, CAP_WRITE, CAP_DELETE, CAP_LIST} && d in {CAP_READ, CAP_WRITE, CAP_DELETE, CAP_LIST}
    ensures Permitted([Policy("one", [Rule("**", c)])], path, d) <==> c == d
  {
    var one := [Policy("one", [Rule("**", c)])];
    EverythingMatches(path);
    GrantedIff(one, path, d);
    GrantedIff(one, path, 16);
    assert c & 16 == 0 && (c & d != 0 <==> c == d);
    assert c == d ==> Speaks(one, 0, 0, path, d);
  }
}
