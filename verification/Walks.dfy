/**
 * Walks and cycles in a finite dependency relation.
 *
 * This is the reference against which the graph algorithms are judged: it knows nothing of
 * colours, in-degrees or queues.
 */
module Walks {
  /** Service names are only ever compared for equality. */
  type ServiceName(==, !new)

  /** `b in edges[a]` reads "a depends on b". */
  type Edges = map<ServiceName, set<ServiceName>>

  predicate Edge(edges: Edges, a: ServiceName, b: ServiceName) {
    a in edges && b in edges[a]
  }

  /** Every dependency of a node is itself a node. */
  ghost predicate Closed(edges: Edges) {
    forall a, b :: Edge(edges, a, b) ==> b in edges
  }

  ghost predicate Distinct<T>(s: seq<T>) {
    forall i, j :: 0 <= i < j < |s| ==> s[i] != s[j]
  }

  /** A nonempty sequence of nodes in which each depends on the next. */
  ghost predicate IsWalk(edges: Edges, p: seq<ServiceName>) {
    && |p| > 0
    && forall i, j :: 0 <= i < j < |p| && j == i + 1 ==> Edge(edges, p[i], p[j])
  }

  /** A walk whose last node depends on its first. */
  ghost predicate IsCycle(edges: Edges, c: seq<ServiceName>) {
    IsWalk(edges, c) && Edge(edges, c[|c| - 1], c[0])
  }

  ghost predicate Acyclic(edges: Edges) {
    forall c :: !IsCycle(edges, c)
  }

  ghost predicate WalkBetween(edges: Edges, p: seq<ServiceName>, a: ServiceName, b: ServiceName) {
    IsWalk(edges, p) && p[0] == a && p[|p| - 1] == b
  }

  /** Reflexive-transitive dependency. */
  ghost predicate Reaches(edges: Edges, a: ServiceName, b: ServiceName) {
    exists p :: WalkBetween(edges, p, a, b)
  }

  ghost predicate ReachesCycle(edges: Edges, a: ServiceName) {
    exists c :: IsCycle(edges, c) && Reaches(edges, a, c[0])
  }

  /** No repetition, and every listed node comes after all its dependencies. */
  ghost predicate Ordered(edges: Edges, s: seq<ServiceName>) {
    && Distinct(s)
    && (forall i :: 0 <= i < |s| ==> s[i] in edges)
    && (forall i, d :: 0 <= i < |s| && d in edges[s[i]] ==> d in s[..i])
  }

  lemma ReachesSelf(edges: Edges, a: ServiceName)
    ensures Reaches(edges, a, a)
  {
    assert WalkBetween(edges, [a], a, a);
  }

  lemma ReachesStep(edges: Edges, a: ServiceName, d: ServiceName, b: ServiceName)
    requires Edge(edges, a, d) && Reaches(edges, d, b)
    ensures Reaches(edges, a, b)
  {
    var p :| WalkBetween(edges, p, d, b);
    assert WalkBetween(edges, [a] + p, a, b);
  }

  /** Reaching `b` means being `b`, or depending on something that reaches `b`. */
  lemma ReachesUnfold(edges: Edges, a: ServiceName, b: ServiceName)
    requires Reaches(edges, a, b)
    ensures a == b || exists d :: Edge(edges, a, d) && Reaches(edges, d, b)
  {
    var p :| WalkBetween(edges, p, a, b);
    if a != b {
      assert WalkBetween(edges, p[1..], p[1], b);
      assert Edge(edges, p[0], p[1]);
    }
  }

  /** Along an ordered list a walk of n edges moves at least n places towards the front. */
  lemma {:induction false} WalkDescends(edges: Edges, s: seq<ServiceName>, i: nat, p: seq<ServiceName>) returns (j: nat)
    requires Ordered(edges, s) && i < |s|
    requires IsWalk(edges, p) && p[0] == s[i]
    ensures j < |s| && s[j] == p[|p| - 1] && j + |p| - 1 <= i
    decreases |p|
  {
    if |p| == 1 {
      j := i;
    } else {
      assert Edge(edges, p[0], p[1]);
      var k :| 0 <= k < i && s[k] == p[1];
      j := WalkDescends(edges, s, k, p[1..]);
    }
  }

  lemma OrderedReach(edges: Edges, s: seq<ServiceName>, i: nat, b: ServiceName) returns (j: nat)
    requires Ordered(edges, s) && i < |s| && Reaches(edges, s[i], b)
    ensures j <= i && s[j] == b && (s[i] != b ==> j < i)
  {
    var p :| WalkBetween(edges, p, s[i], b);
    j := WalkDescends(edges, s, i, p);
  }

  /** What can be listed in dependency order cannot reach a cycle. */
  lemma OrderedAvoidsCycles(edges: Edges, s: seq<ServiceName>, i: nat)
    requires Ordered(edges, s) && i < |s|
    ensures !ReachesCycle(edges, s[i])
  {
    forall c | IsCycle(edges, c) && Reaches(edges, s[i], c[0])
      ensures false
    {
      var j := OrderedReach(edges, s, i, c[0]);
      var loop := c + [c[0]];
      assert IsWalk(edges, loop);
      var k := WalkDescends(edges, s, j, loop);
    }
  }

  /** Every member of the set depends on some member of it. */
  ghost predicate Trap(edges: Edges, trap: set<ServiceName>) {
    forall n {:trigger HasSuccessorIn(edges, trap, n)} :: n in trap ==> HasSuccessorIn(edges, trap, n)
  }

  ghost predicate HasSuccessorIn(edges: Edges, trap: set<ServiceName>, n: ServiceName) {
    exists d :: d in trap && Edge(edges, n, d)
  }

  ghost predicate Within(p: seq<ServiceName>, s: set<ServiceName>) {
    forall i :: 0 <= i < |p| ==> p[i] in s
  }

  lemma WalkBackClosesCycle(edges: Edges, p: seq<ServiceName>, k: nat)
    requires IsWalk(edges, p) && k < |p| && Edge(edges, p[|p| - 1], p[k])
    ensures ReachesCycle(edges, p[0])
  {
    var c := p[k..];
    assert IsCycle(edges, c);
    assert WalkBetween(edges, p[..k + 1], p[0], c[0]);
  }

  /** A walk kept inside a finite trap must close up: its first node reaches a cycle. */
  lemma {:induction false} TrappedWalkCloses(edges: Edges, trap: set<ServiceName>, p: seq<ServiceName>)
    requires Trap(edges, trap)
    requires IsWalk(edges, p) && Distinct(p) && Within(p, trap)
    ensures ReachesCycle(edges, p[0])
    decreases |trap| - |p|
  {
    DistinctFits(p, trap);
    assert HasSuccessorIn(edges, trap, p[|p| - 1]);
    var d :| d in trap && Edge(edges, p[|p| - 1], d);
    if k :| 0 <= k < |p| && p[k] == d {
      WalkBackClosesCycle(edges, p, k);
    } else {
      var q := p + [d];
      DistinctFits(q, trap);
      TrappedWalkCloses(edges, trap, q);
    }
  }

  lemma {:induction false} DistinctFits(p: seq<ServiceName>, s: set<ServiceName>)
    requires Distinct(p) && Within(p, s)
    ensures |p| <= |s|
  {
    if p != [] {
      DistinctFits(p[1..], s - {p[0]});
    }
  }
}
