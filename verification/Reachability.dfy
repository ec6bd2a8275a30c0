/** Reachability along a finite set of directed links between ids. */
module Reachability {
  ghost predicate IsPath(links: set<(string, string)>, path: seq<string>) {
    |path| >= 1 && forall i :: 0 <= i < |path| - 1 ==> (path[i], path[i + 1]) in links
  }

  ghost predicate Reaches(links: set<(string, string)>, start: string, goal: string) {
    exists path :: IsPath(links, path) && path[0] == start && path[|path| - 1] == goal
  }

  lemma PathTail(links: set<(string, string)>, path: seq<string>)
    requires IsPath(links, path) && |path| > 1
    ensures (path[0], path[1]) in links && IsPath(links, path[1..])
  {
    var rest := path[1..];
    forall i | 0 <= i < |rest| - 1
      ensures (rest[i], rest[i + 1]) in links
    {
      assert (path[i + 1], path[i + 1 + 1]) in links;
    }
    assert (path[0], path[0 + 1]) in links;
  }

  lemma ReachesSelf(links: set<(string, string)>, a: string)
    ensures Reaches(links, a, a)
  {
    assert IsPath(links, [a]);
  }

  lemma ReachesNext(links: set<(string, string)>, a: string, b: string, c: string)
    requires Reaches(links, a, b) && (b, c) in links
    ensures Reaches(links, a, c)
  {
    var path :| IsPath(links, path) && path[0] == a && path[|path| - 1] == b;
    assert IsPath(links, path + [c]);
    assert (path + [c])[0] == a;
  }

  lemma ReachesBefore(links: set<(string, string)>, a: string, b: string, c: string)
    requires (a, b) in links && Reaches(links, b, c)
    ensures Reaches(links, a, c)
  {
    var path :| IsPath(links, path) && path[0] == b && path[|path| - 1] == c;
    assert IsPath(links, [a] + path);
    assert ([a] + path)[|path|] == c;
  }

  ghost predicate Closed(links: set<(string, string)>, s: iset<string>) {
    forall a, b :: a in s && (a, b) in links ==> b in s
  }

  lemma {:induction false} ClosedHoldsPath(links: set<(string, string)>, s: iset<string>, path: seq<string>)
    requires IsPath(links, path) && path[0] in s && Closed(links, s)
    ensures path[|path| - 1] in s
    decreases |path|
  {
    if |path| > 1 {
      var rest := path[1..];
      PathTail(links, path);
      ClosedHoldsPath(links, s, rest);
    }
  }

  /** A set closed under the links holds all that its members reach. */
  lemma ClosedHolds(links: set<(string, string)>, s: iset<string>, a: string, b: string)
    requires a in s && Closed(links, s) && Reaches(links, a, b)
    ensures b in s
  {
    var path :| IsPath(links, path) && path[0] == a && path[|path| - 1] == b;
    ClosedHoldsPath(links, s, path);
  }

  lemma ReachesMore(links: set<(string, string)>, more: set<(string, string)>, a: string, b: string)
    requires links <= more && Reaches(links, a, b)
    ensures Reaches(more, a, b)
  {
    var path :| IsPath(links, path) && path[0] == a && path[|path| - 1] == b;
    assert IsPath(more, path);
  }

  lemma ReachesFirst(links: set<(string, string)>, a: string, c: string) returns (b: string)
    requires Reaches(links, a, c) && a != c
    ensures (a, b) in links && Reaches(links, b, c)
  {
    var path :| IsPath(links, path) && path[0] == a && path[|path| - 1] == c;
    b := path[1];
    PathTail(links, path);
  }

  lemma ReachesLast(links: set<(string, string)>, a: string, c: string) returns (b: string)
    requires Reaches(links, a, c) && a != c
    ensures Reaches(links, a, b) && (b, c) in links
  {
    var path :| IsPath(links, path) && path[0] == a && path[|path| - 1] == c;
    var n := |path| - 2;
    b := path[n];
    assert IsPath(links, path[..n + 1]);
    assert (path[n], path[n + 1]) in links;
  }

  lemma ReachesThrough(links: set<(string, string)>, a: string, b: string, c: string)
    requires Reaches(links, a, b) && Reaches(links, b, c)
    ensures Reaches(links, a, c)
  {
    var path :| IsPath(links, path) && path[0] == b && path[|path| - 1] == c;
    PathReaches(links, a, path);
  }

  lemma {:induction false} PathReaches(links: set<(string, string)>, a: string, path: seq<string>)
    requires IsPath(links, path) && Reaches(links, a, path[0])
    ensures Reaches(links, a, path[|path| - 1])
    decreases |path|
  {
    if |path| > 1 {
      PathTail(links, path);
      ReachesNext(links, a, path[0], path[1]);
      PathReaches(links, a, path[1..]);
    }
  }

  // ---- trees ----

  /** Nothing has two parents, and nothing is below itself. */
  ghost predicate Tree(links: set<(string, string)>) {
    && (forall p, q, c :: (p, c) in links && (q, c) in links ==> p == q)
    && (forall p, c :: (p, c) in links ==> !Reaches(links, c, p))
  }

  lemma PartOfTree(links: set<(string, string)>, some: set<(string, string)>)
    requires Tree(links) && some <= links
    ensures Tree(some)
  {
    forall p, c | (p, c) in some
      ensures !Reaches(some, c, p)
    {
      if Reaches(some, c, p) {
        ReachesMore(some, links, c, p);
      }
    }
  }

  /** What two nodes of a tree both reach is below one another. */
  lemma {:induction false} OneAboveTheOther(links: set<(string, string)>, a: string, b: string, path: seq<string>)
    requires Tree(links) && IsPath(links, path) && path[0] == b && Reaches(links, a, path[|path| - 1])
    ensures Reaches(links, a, b) || Reaches(links, b, a)
    decreases |path|
  {
    var n := |path| - 1;
    if path[n] == a {
      assert Reaches(links, b, a);
    } else if n > 0 {
      var before := ReachesLast(links, a, path[n]);
      assert (path[n - 1], path[n - 1 + 1]) in links;
      OneAboveTheOther(links, a, b, path[..n]);
    }
  }

  /** A walk down a tree comes to nothing twice. */
  lemma BranchesApart(links: set<(string, string)>, node: string, a: string, b: string, x: string)
    requires Tree(links) && (node, a) in links && (node, b) in links && a != b
    ensures !(Reaches(links, a, x) && Reaches(links, b, x)) && !Reaches(links, a, node)
  {
    if Reaches(links, a, x) && Reaches(links, b, x) {
      var path :| IsPath(links, path) && path[0] == b && path[|path| - 1] == x;
      OneAboveTheOther(links, a, b, path);
      if Reaches(links, a, b) {
        var before := ReachesLast(links, a, b);
      } else {
        var before := ReachesLast(links, b, a);
      }
    }
  }

  /** This link leads from start towards goal. */
  ghost predicate OnTheWay(links: set<(string, string)>, start: string, link: (string, string), goal: string) {
    link in links && Reaches(links, start, link.0) && Reaches(links, link.1, goal)
  }

  /** In a tree there is one way only: the goal is cut off exactly when a link on the way is missing. */
  lemma CutOffIff(links: set<(string, string)>, left: set<(string, string)>, start: string, goal: string)
    requires Tree(links) && left <= links && Reaches(links, start, goal)
    ensures !Reaches(left, start, goal) <==> exists link :: OnTheWay(links, start, link, goal) && link !in left
  {
    hide Tree, OnTheWay, Reaches;
    if forall link :: OnTheWay(links, start, link, goal) ==> link in left {
      AllLeft(links, left, start, goal);
    }
    if Reaches(left, start, goal) {
      forall link | OnTheWay(links, start, link, goal)
        ensures link in left
      {
        LinkLeft(links, left, start, link, goal);
      }
    }
  }

  lemma AllLeft(links: set<(string, string)>, left: set<(string, string)>, start: string, goal: string)
    requires Reaches(links, start, goal) && forall link :: OnTheWay(links, start, link, goal) ==> link in left
    ensures Reaches(left, start, goal)
  {
    var path :| IsPath(links, path) && path[0] == start && path[|path| - 1] == goal;
    forall i | 0 <= i < |path| - 1
      ensures (path[i], path[i + 1]) in left
    {
      assert IsPath(links, path[..i + 1]) && IsPath(links, path[i + 1..]);
      assert path[..i + 1][i] == path[i] && path[i + 1..][0] == path[i + 1];
      assert OnTheWay(links, start, (path[i], path[i + 1]), goal);
    }
    assert IsPath(left, path);
  }

  lemma LinkLeft(links: set<(string, string)>, left: set<(string, string)>, start: string, link: (string, string),
      goal: string)
    requires Tree(links) && left <= links && OnTheWay(links, start, link, goal) && Reaches(left, start, goal)
    ensures link in left
  {
    var path :| IsPath(links, path) && path[0] == link.1 && path[|path| - 1] == goal;
    LinkLeftAlong(links, left, start, link, path);
  }

  lemma {:induction false} LinkLeftAlong(links: set<(string, string)>, left: set<(string, string)>, start: string,
      link: (string, string), path: seq<string>)
    requires Tree(links) && left <= links && link in links && Reaches(links, start, link.0)
    requires IsPath(links, path) && path[0] == link.1 && Reaches(left, start, path[|path| - 1])
    ensures link in left
    decreases |path|
  {
    var n := |path| - 1;
    var goal := path[n];
    assert Reaches(links, link.1, goal);
    assert goal != start by {
      if goal == start {
        ReachesThrough(links, link.1, start, link.0);
      }
    }
    var before := ReachesLast(left, start, goal);
    if n == 0 {
      assert (before, link.1) in links && (link.0, link.1) in links;
    } else {
      assert (path[n - 1], path[n - 1 + 1]) in links;
      LinkLeftAlong(links, left, start, link, path[..n]);
    }
  }
}
