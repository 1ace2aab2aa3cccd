/**
Naming a cycle among the steps a settle could not place: the first strongly
connected component of more than one step.
*/
module Cycles {
  import opened Settle

  ghost predicate Path(edges: set<Edge>, path: seq<nat>, a: nat, b: nat) {
    && path != []
    && path[0] == a
    && path[|path| - 1] == b
    && (forall i :: 0 <= i < |path| - 1 ==> Edge(path[i], path[i + 1]) in edges)
  }

  /** Following edges from `a`, none or more, leads to `b`. */
  ghost predicate Reaches(edges: set<Edge>, a: nat, b: nat) {
    exists path :: Path(edges, path, a, b)
  }

  ghost predicate Mutual(edges: set<Edge>, a: nat, b: nat) {
    Reaches(edges, a, b) && Reaches(edges, b, a)
  }

  lemma ReachesItself(edges: set<Edge>, a: nat)
    ensures Reaches(edges, a, a)
  {
    assert Path(edges, [a], a, a);
  }

  lemma ReachesNext(edges: set<Edge>, a: nat, b: nat, c: nat)
    requires Reaches(edges, a, b) && Edge(b, c) in edges
    ensures Reaches(edges, a, c)
  {
    var path :| Path(edges, path, a, b);
    assert Path(edges, path + [c], a, c);
  }

  lemma ReachesFrom(edges: set<Edge>, a: nat, b: nat, c: nat)
    requires Edge(a, b) in edges && Reaches(edges, b, c)
    ensures Reaches(edges, a, c)
  {
    var path :| Path(edges, path, b, c);
    assert Path(edges, [a] + path, a, c);
  }

  lemma ReachesJoin(edges: set<Edge>, a: nat, b: nat, c: nat)
    requires Reaches(edges, a, b) && Reaches(edges, b, c)
    ensures Reaches(edges, a, c)
  {
    var p :| Path(edges, p, a, b);
    var q :| Path(edges, q, b, c);
    var joined := p + q[1..];
    forall i | 0 <= i < |joined| - 1 ensures Edge(joined[i], joined[i + 1]) in edges {
      if i >= |p| - 1 {
        assert joined[i] == q[i - (|p| - 1)] && joined[i + 1] == q[i - (|p| - 1) + 1];
      }
    }
    assert Path(edges, joined, a, c);
  }

  function Reversed(edges: set<Edge>): set<Edge> {
    set e | e in edges :: Edge(e.after, e.before)
  }

  lemma {:induction false} ReversedReaches(edges: set<Edge>, path: seq<nat>, a: nat, b: nat)
    requires Path(edges, path, a, b)
    ensures Reaches(Reversed(edges), b, a)
    decreases |path|
  {
    if |path| == 1 {
      ReachesItself(Reversed(edges), a);
    } else {
      assert Path(edges, path[1..], path[1], b);
      ReversedReaches(edges, path[1..], path[1], b);
      assert Edge(path[0], path[1]) in edges;
      ReachesNext(Reversed(edges), b, path[1], a);
    }
  }

  lemma ReversedExactly(edges: set<Edge>, a: nat, b: nat)
    ensures Reaches(Reversed(edges), a, b) <==> Reaches(edges, b, a)
  {
    if Reaches(edges, b, a) {
      var path :| Path(edges, path, b, a);
      ReversedReaches(edges, path, b, a);
    }
    if Reaches(Reversed(edges), a, b) {
      var path :| Path(Reversed(edges), path, a, b);
      ReversedReaches(Reversed(edges), path, a, b);
      assert Reversed(Reversed(edges)) == edges by {
        assert forall e :: e in Reversed(edges) <==> Edge(e.after, e.before) in edges;
      }
    }
  }

  // ------------------------------------------------------- finding a component

  lemma {:induction false} StaysWithin(edges: set<Edge>, seen: set<nat>, path: seq<nat>, a: nat, b: nat)
    requires a in seen && Path(edges, path, a, b)
    requires forall e :: e in edges && e.before in seen ==> e.after in seen
    ensures b in seen
    decreases |path|
  {
    if |path| > 1 {
      assert Edge(path[0], path[1]) in edges;
      StaysWithin(edges, seen, path[1..], path[1], b);
    }
  }

  method Reachable(edges: set<Edge>, a: nat) returns (seen: set<nat>)
    ensures forall b :: b in seen <==> Reaches(edges, a, b)
  {
    seen := {a};
    ReachesItself(edges, a);
    var out := set e | e in edges && e.before in seen && e.after !in seen;
    while out != {}
      invariant a in seen && forall b :: b in seen ==> Reaches(edges, a, b)
      invariant out == set e | e in edges && e.before in seen && e.after !in seen
      decreases set e | e in edges && e.after !in seen
    {
      var e :| e in out;
      ghost var left := set x | x in edges && x.after !in seen;
      assert e in left;
      ReachesNext(edges, a, e.before, e.after);
      seen := seen + {e.after};
      out := set x | x in edges && x.before in seen && x.after !in seen;
    }
    assert forall e :: e in edges && e.before in seen && e.after !in seen ==> e in out;
    forall b | Reaches(edges, a, b) ensures b in seen {
      var path :| Path(edges, path, a, b);
      StaysWithin(edges, seen, path, a, b);
    }
  }

  /** The component of `a`: the steps that reach it and that it reaches. */
  method ComponentOf(edges: set<Edge>, a: nat) returns (members: set<nat>)
    ensures forall b :: b in members <==> Mutual(edges, a, b)
  {
    var ahead := Reachable(edges, a);
    var behind := Reachable(Reversed(edges), a);
    members := ahead * behind;
    forall b ensures b in members <==> Mutual(edges, a, b) {
      ReversedExactly(edges, a, b);
    }
  }

  /** Mutually reachable steps, and all that are mutually reachable with them. */
  ghost predicate Component(edges: set<Edge>, members: set<nat>) {
    && members != {}
    && (forall a, b :: a in members && b in members ==> Reaches(edges, a, b))
    && (forall a, b :: a in members && Mutual(edges, a, b) ==> b in members)
  }

  /** Step `k` is on no cycle with another. */
  ghost predicate Alone(edges: set<Edge>, k: nat) {
    forall b :: Mutual(edges, k, b) ==> b == k
  }

  /** The component of more than one step whose least member is least. */
  ghost predicate FirstComponent(edges: set<Edge>, members: set<nat>) {
    && Component(edges, members)
    && exists least, other :: least in members && other in members && FirstOf(edges, members, least, other)
  }

  ghost predicate FirstOf(edges: set<Edge>, members: set<nat>, least: nat, other: nat) {
    && other != least
    && (forall b :: b in members ==> least <= b)
    && (forall k: nat :: k < least ==> Alone(edges, k))
  }

  // ------------------------------------------------ steps that wait on each other

  /** One edge or more lead from `a` to `b`. */
  ghost predicate Leads(edges: set<Edge>, a: nat, b: nat) {
    exists x :: Edge(a, x) in edges && Reaches(edges, x, b)
  }

  ghost function Behind(edges: set<Edge>, steps: set<nat>, i: nat): set<nat> {
    set j | j in steps && Leads(edges, j, i)
  }

  lemma LeadsOn(edges: set<Edge>, a: nat, b: nat, c: nat)
    requires Leads(edges, a, b) && Edge(b, c) in edges
    ensures Leads(edges, a, c)
  {
    var x :| Edge(a, x) in edges && Reaches(edges, x, b);
    ReachesNext(edges, x, b, c);
  }

  /** Going back along what holds each step never ends, so it comes round. */
  lemma {:induction false} ComesRound(n: nat, edges: set<Edge>, steps: set<nat>, i: nat) returns (j: nat)
    requires Stuck(n, edges, steps) && i in steps
    ensures j in steps && Leads(edges, j, j)
    decreases Behind(edges, steps, i)
  {
    assert HeldBy(edges, steps, i);
    var e :| e in edges && e.after == i && e.before in steps;
    j := e.before;
    ReachesItself(edges, i);
    assert Edge(j, i) in edges && j in Behind(edges, steps, i);
    if j !in Behind(edges, steps, j) {
      forall k | k in Behind(edges, steps, j) ensures k in Behind(edges, steps, i) {
        LeadsOn(edges, k, j, i);
      }
      j := ComesRound(n, edges, steps, j);
    }
  }

  lemma StuckHasCycle(n: nat, edges: set<Edge>, steps: set<nat>) returns (j: nat, x: nat)
    requires WellFormed(n, edges) && Stuck(n, edges, steps)
    ensures x != j && Mutual(edges, j, x)
  {
    var i :| i in steps;
    j := ComesRound(n, edges, steps, i);
    x :| Edge(j, x) in edges && Reaches(edges, x, j);
    ReachesItself(edges, x);
    ReachesFrom(edges, j, x, x);
  }

  lemma MutualComponent(edges: set<Edge>, a: nat, members: set<nat>)
    requires forall b :: b in members <==> Mutual(edges, a, b)
    ensures Component(edges, members)
  {
    ReachesItself(edges, a);
    assert Mutual(edges, a, a);
    forall b, c | b in members && c in members ensures Reaches(edges, b, c) {
      ReachesJoin(edges, b, a, c);
    }
    forall b, c | b in members && Mutual(edges, b, c) ensures c in members {
      ReachesJoin(edges, a, b, c);
      ReachesJoin(edges, c, b, a);
    }
  }

  /** The cycle a refusal names. */
  method FirstCycle(n: nat, edges: set<Edge>, ghost steps: set<nat>) returns (members: set<nat>)
    requires WellFormed(n, edges) && Stuck(n, edges, steps)
    ensures FirstComponent(edges, members)
  {
    ghost var j, x := StuckHasCycle(n, edges, steps);
    var i := 0;
    members := ComponentOf(edges, i);
    while members <= {i}
      invariant i <= j
      invariant forall b :: b in members <==> Mutual(edges, i, b)
      invariant forall k: nat :: k < i ==> Alone(edges, k)
      decreases j - i
    {
      assert i == j ==> x in members;
      assert Alone(edges, i);
      i := i + 1;
      members := ComponentOf(edges, i);
    }
    MutualComponent(edges, i, members);
    ReachesItself(edges, i);
    assert Mutual(edges, i, i);
    ghost var other :| other in members && other != i;
    forall b | b in members ensures i <= b {
      assert Mutual(edges, b, i);
      assert b < i ==> Alone(edges, b);
    }
    assert FirstOf(edges, members, i, other);
  }

  /** No step on a cycle with another comes before all of the component named. */
  lemma NamedFirst(edges: set<Edge>, members: set<nat>, a: nat, b: nat)
    requires FirstComponent(edges, members) && Mutual(edges, a, b) && a != b
    ensures exists m :: m in members && m <= a
  {
    var least, other :| least in members && other in members && FirstOf(edges, members, least, other);
    assert a < least ==> Alone(edges, a);
  }

  /** So the component named is determined by the edges. */
  lemma NamedUnique(edges: set<Edge>, a: set<nat>, b: set<nat>)
    requires FirstComponent(edges, a) && FirstComponent(edges, b)
    ensures a == b
  {
    var x, y :| x in a && y in a && FirstOf(edges, a, x, y);
    var u, v :| u in b && v in b && FirstOf(edges, b, u, v);
    assert Mutual(edges, x, y) && Mutual(edges, u, v);
    assert x < u ==> Alone(edges, x);
    assert u < x ==> Alone(edges, u);
    forall c ensures c in a <==> c in b {
      assert c in a ==> Mutual(edges, x, c);
      assert c in b ==> Mutual(edges, x, c);
    }
  }

  lemma LastEdge(edges: set<Edge>, a: nat, b: nat) returns (d: nat)
    requires Reaches(edges, a, b) && a != b
    ensures Reaches(edges, a, d) && Edge(d, b) in edges
  {
    var path :| Path(edges, path, a, b);
    var last := |path| - 1;
    d := path[last - 1];
    assert Path(edges, path[..last], a, d);
    assert Edge(path[last - 1], path[last - 1 + 1]) in edges;
  }

  /** A component of more than one step is stuck, so none of it was placed. */
  lemma ComponentUnplaced(n: nat, edges: set<Edge>, members: set<nat>, placed: seq<nat>)
    requires WellFormed(n, edges) && Settled(n, edges, placed) && FirstComponent(edges, members)
    ensures members <= Missing(n, placed)
  {
    var least, other :| least in members && other in members && FirstOf(edges, members, least, other);
    forall b | b in members ensures b < n && HeldBy(edges, members, b) {
      var c := if b == least then other else least;
      var d := LastEdge(edges, c, b);
      ReachesJoin(edges, b, c, d);
      ReachesItself(edges, b);
      ReachesFrom(edges, d, b, b);
      assert Mutual(edges, b, d);
      assert Edge(d, b).before in members;
    }
    SettledRespects(n, edges, placed);
    NothingStuckIsPlaced(n, edges, placed, members, |placed|);
  }
}
