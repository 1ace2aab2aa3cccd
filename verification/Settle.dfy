/**
Settling a plan's order from its constraints: Kahn's algorithm with the order
the steps arrive in as the tie-break. A step an edge holds back sinks to right
after what it waits for, and nothing else moves.
*/
module Settle {

  /** `before` runs before `after`; both are positions in the order given. */
  datatype Edge = Edge(before: nat, after: nat)

  /** What a schedule accepts: an edge joins two different steps it has. */
  predicate WellFormed(n: nat, edges: set<Edge>) {
    forall e :: e in edges ==> e.before < n && e.after < n && e.before != e.after
  }

  function Elems<T>(s: seq<T>): set<T> {
    set x | x in s
  }

  /** Step `i` is not placed yet and everything it waits for is. */
  predicate Ready(n: nat, edges: set<Edge>, placed: set<nat>, i: nat) {
    i < n && i !in placed && forall e :: e in edges && e.after == i ==> e.before in placed
  }

  /** What a placed step waits for is placed. */
  predicate Closed(edges: set<Edge>, placed: set<nat>) {
    forall e :: e in edges && e.after in placed ==> e.before in placed
  }

  /** The lowest ready position after `placed`. */
  ghost predicate Lowest(n: nat, edges: set<Edge>, placed: set<nat>, i: nat) {
    Ready(n, edges, placed, i) && forall j :: Ready(n, edges, placed, j) ==> i <= j
  }

  /** What the algorithm returns: the lowest ready step each time, until none is ready. */
  ghost predicate Settled(n: nat, edges: set<Edge>, out: seq<nat>) {
    && (forall k :: 0 <= k < |out| ==> Lowest(n, edges, Elems(out[..k]), out[k]))
    && (forall j :: !Ready(n, edges, Elems(out), j))
  }

  /** Every edge runs forward in `order`. */
  ghost predicate Respects(edges: set<Edge>, order: seq<nat>) {
    forall e, k :: e in edges && 0 <= k < |order| && e.after == order[k] ==> e.before in order[..k]
  }

  ghost predicate Distinct<T>(s: seq<T>) {
    forall i, j :: 0 <= i < j < |s| ==> s[i] != s[j]
  }

  /** `order` places each of the `n` steps exactly once. */
  ghost predicate Permutes(n: nat, order: seq<nat>) {
    |order| == n && Distinct(order) && forall k :: 0 <= k < |order| ==> order[k] < n
  }

  /** Some edge into `i` comes from `steps`. */
  ghost predicate HeldBy(edges: set<Edge>, steps: set<nat>, i: nat) {
    exists e :: e in edges && e.after == i && e.before in steps
  }

  /** Steps that wait on one another: each member has a member to wait for. */
  ghost predicate Stuck(n: nat, edges: set<Edge>, steps: set<nat>) {
    && steps != {}
    && (forall i :: i in steps ==> i < n)
    && (forall i {:trigger HeldBy(edges, steps, i)} :: i in steps ==> HeldBy(edges, steps, i))
  }

  /** The order given, unchanged. */
  function Identity(n: nat): (s: seq<nat>)
    ensures |s| == n && forall k :: 0 <= k < n ==> s[k] == k
  {
    seq(n, k => k)
  }

  // ------------------------------------------------------------ the algorithm

  /** The edges that still hold step `i` back. */
  function Holding(edges: set<Edge>, placed: set<nat>, i: nat): set<Edge> {
    set e | e in edges && e.after == i && e.before !in placed
  }

  method LeastOf(s: set<nat>) returns (least: nat)
    requires s != {}
    ensures least in s && forall x :: x in s ==> least <= x
  {
    least :| least in s;
    var rest := s - {least};
    while rest != {}
      invariant rest <= s
      invariant least in s
      invariant forall x :: x in s && x !in rest ==> least <= x
      decreases rest
    {
      var x :| x in rest;
      if x < least { least := x; }
      rest := rest - {x};
    }
  }

  /** `incoming` counts what each step still waits for; `outgoing` lists what waits for it. */
  ghost predicate Counted(n: nat, edges: set<Edge>, placed: set<nat>, incoming: seq<nat>, outgoing: seq<set<nat>>) {
    && |incoming| == n && |outgoing| == n
    && (forall i :: 0 <= i < n ==> incoming[i] == |Holding(edges, placed, i)|)
    && (forall i, a :: 0 <= i < n ==> (a in outgoing[i] <==> Edge(i, a) in edges))
  }

  /** The counters and successor sets read off the constraints. */
  method Count(n: nat, edges: set<Edge>) returns (incoming: seq<nat>, outgoing: seq<set<nat>>)
    requires WellFormed(n, edges)
    ensures Counted(n, edges, {}, incoming, outgoing)
  {
    incoming := seq(n, _ => 0);
    outgoing := seq(n, _ => {});
    var rest := edges;
    assert edges - rest == {};
    while rest != {}
      invariant rest <= edges
      invariant Counted(n, edges - rest, {}, incoming, outgoing)
      decreases rest
    {
      var e :| e in rest;
      CountStep(n, edges - rest, e, incoming, outgoing);
      assert edges - rest + {e} == edges - (rest - {e});
      if e.after !in outgoing[e.before] {
        outgoing := outgoing[e.before := outgoing[e.before] + {e.after}];
        incoming := incoming[e.after := incoming[e.after] + 1];
      }
      rest := rest - {e};
    }
    assert edges - rest == edges;
  }

  lemma CountStep(n: nat, seen: set<Edge>, e: Edge, incoming: seq<nat>, outgoing: seq<set<nat>>)
    requires e.before < n && e.after < n
    requires Counted(n, seen, {}, incoming, outgoing)
    ensures if e.after in outgoing[e.before] then Counted(n, seen + {e}, {}, incoming, outgoing)
      else Counted(n, seen + {e}, {}, incoming[e.after := incoming[e.after] + 1],
                   outgoing[e.before := outgoing[e.before] + {e.after}])
  {
    assert Edge(e.before, e.after) == e;
    forall i | 0 <= i < n
      ensures |Holding(seen + {e}, {}, i)| == incoming[i] + (if i == e.after && e !in seen then 1 else 0)
    {
      HoldingGrows(seen, e, i);
    }
  }

  lemma HoldingGrows(seen: set<Edge>, e: Edge, i: nat)
    ensures |Holding(seen + {e}, {}, i)| ==
      |Holding(seen, {}, i)| + (if i == e.after && e !in seen then 1 else 0)
  {
    var was, now := Holding(seen, {}, i), Holding(seen + {e}, {}, i);
    if i == e.after && e !in seen {
      assert now == was + {e};
    } else {
      assert now == was;
    }
  }

  /** One placed step releases its successors. */
  method Release(n: nat, incoming0: seq<nat>, ready0: set<nat>, next: set<nat>)
      returns (incoming: seq<nat>, ready: set<nat>)
    requires |incoming0| == n
    requires forall i :: i in next ==> i < n && 0 < incoming0[i]
    ensures |incoming| == n
    ensures forall i :: 0 <= i < n ==> incoming[i] == if i in next then incoming0[i] - 1 else incoming0[i]
    ensures ready == ready0 + set i | i in next && incoming0[i] == 1
  {
    incoming, ready := incoming0, ready0;
    var rest := next;
    while rest != {}
      invariant rest <= next
      invariant |incoming| == n
      invariant forall i :: 0 <= i < n ==>
        incoming[i] == if i in next && i !in rest then incoming0[i] - 1 else incoming0[i]
      invariant ready == ready0 + set i | i in next && i !in rest && incoming0[i] == 1
      decreases rest
    {
      var after :| after in rest;
      incoming := incoming[after := incoming[after] - 1];
      if incoming[after] == 0 { ready := ready + {after}; }
      rest := rest - {after};
    }
  }

  lemma ReadyByCount(n: nat, edges: set<Edge>, placed: set<nat>, i: nat)
    requires i < n && i !in placed
    ensures |Holding(edges, placed, i)| == 0 <==> Ready(n, edges, placed, i)
  {
    var open := Holding(edges, placed, i);
    if |open| == 0 {
      forall e | e in edges && e.after == i ensures e.before in placed {
        assert e !in open;
      }
    } else {
      var e :| e in open;
    }
  }

  /** Between two steps of the main loop. */
  ghost predicate Working(n: nat, edges: set<Edge>, out: seq<nat>, incoming: seq<nat>, outgoing: seq<set<nat>>,
                          ready: set<nat>) {
    && Counted(n, edges, Elems(out), incoming, outgoing)
    && Distinct(out) && (forall k :: 0 <= k < |out| ==> out[k] < n) && Closed(edges, Elems(out))
    && (forall i :: i in ready <==> Ready(n, edges, Elems(out), i))
    && (forall k :: 0 <= k < |out| ==> Lowest(n, edges, Elems(out[..k]), out[k]))
  }

  method Kahn(n: nat, edges: set<Edge>) returns (out: seq<nat>)
    requires WellFormed(n, edges)
    ensures Settled(n, edges, out)
  {
    var incoming, outgoing := Count(n, edges);
    var ready: set<nat> := set i: nat | i < n && incoming[i] == 0;
    out := [];
    Start(n, edges, incoming, outgoing, ready);
    while ready != {}
      invariant Working(n, edges, out, incoming, outgoing, ready)
      decreases n - |out|
    {
      var i := LeastOf(ready);
      Advance(n, edges, out, incoming, outgoing, ready, i);
      var incoming', ready' := Release(n, incoming, ready - {i}, outgoing[i]);
      Advanced(n, edges, out, incoming, outgoing, ready, i, incoming', ready');
      out, incoming, ready := out + [i], incoming', ready';
    }
  }

  lemma Start(n: nat, edges: set<Edge>, incoming: seq<nat>, outgoing: seq<set<nat>>, ready: set<nat>)
    requires WellFormed(n, edges) && Counted(n, edges, {}, incoming, outgoing)
    requires ready == set i: nat | i < n && incoming[i] == 0
    ensures Working(n, edges, [], incoming, outgoing, ready)
  {
    assert Elems<nat>([]) == {};
    forall i | 0 <= i < n ensures i in ready <==> Ready(n, edges, {}, i) {
      ReadyByCount(n, edges, {}, i);
    }
  }

  lemma Advance(n: nat, edges: set<Edge>, out: seq<nat>, incoming: seq<nat>, outgoing: seq<set<nat>>,
                ready: set<nat>, i: nat)
    requires WellFormed(n, edges) && Working(n, edges, out, incoming, outgoing, ready)
    requires i in ready && forall j :: j in ready ==> i <= j
    ensures i < n && |out| < n
    ensures forall j :: j in outgoing[i] ==> j < n && 0 < incoming[j]
  {
    assert Ready(n, edges, Elems(out), i);
    PlacedBelow(n, out, i);
    forall j | j in outgoing[i] ensures j < n && 0 < incoming[j] {
      assert Edge(i, j) in edges;
      AdvanceCounts(edges, out, i, j);
    }
  }

  lemma Advanced(n: nat, edges: set<Edge>, out: seq<nat>, incoming: seq<nat>, outgoing: seq<set<nat>>,
                 ready: set<nat>, i: nat, incoming': seq<nat>, ready': set<nat>)
    requires WellFormed(n, edges) && Working(n, edges, out, incoming, outgoing, ready)
    requires i in ready && forall j :: j in ready ==> i <= j
    requires i < n && forall j :: j in outgoing[i] ==> j < n && 0 < incoming[j]
    requires |incoming'| == n
    requires forall j :: 0 <= j < n ==> incoming'[j] == if j in outgoing[i] then incoming[j] - 1 else incoming[j]
    requires ready' == ready - {i} + set j | j in outgoing[i] && incoming[j] == 1
    ensures Working(n, edges, out + [i], incoming', outgoing, ready')
  {
    var next := out + [i];
    assert Lowest(n, edges, Elems(out), i);
    assert Elems(next) == Elems(out) + {i};
    forall j | 0 <= j < n ensures incoming'[j] == |Holding(edges, Elems(next), j)| {
      AdvanceCounts(edges, out, i, j);
    }
    forall j ensures j in ready' <==> Ready(n, edges, Elems(next), j) {
      ReadyAdvances(n, edges, out, i, j);
    }
    forall k | 0 <= k < |next| ensures Lowest(n, edges, Elems(next[..k]), next[k]) {
      assert next[..k] == if k < |out| then out[..k] else out;
    }
  }

  lemma ElemsBounded(n: nat, s: set<nat>)
    requires forall x :: x in s ==> x < n
    ensures |s| <= n
  {
    if n == 0 {
      assert s == {};
    } else {
      ElemsBounded(n - 1, s - {n - 1});
    }
  }

  lemma ElemsCount(s: seq<nat>)
    requires Distinct(s)
    ensures |Elems(s)| == |s|
  {
    if s != [] {
      var last := s[|s| - 1];
      ElemsCount(s[..|s| - 1]);
      assert Elems(s) == Elems(s[..|s| - 1]) + {last};
    }
  }

  lemma PlacedBelow(n: nat, out: seq<nat>, i: nat)
    requires Distinct(out) && (forall k :: 0 <= k < |out| ==> out[k] < n)
    requires i < n && i !in Elems(out)
    ensures |out| < n
  {
    ElemsCount(out);
    ElemsBounded(n, Elems(out) + {i});
  }

  lemma AdvanceCounts(edges: set<Edge>, out: seq<nat>, i: nat, j: nat)
    requires i !in Elems(out)
    ensures Elems(out + [i]) == Elems(out) + {i}
    ensures |Holding(edges, Elems(out + [i]), j)| ==
      |Holding(edges, Elems(out), j)| - (if Edge(i, j) in edges then 1 else 0)
    ensures Edge(i, j) in edges ==> 0 < |Holding(edges, Elems(out), j)|
  {
    assert Elems(out + [i]) == Elems(out) + {i};
    var open := Holding(edges, Elems(out), j);
    if Edge(i, j) in edges {
      assert Edge(i, j) in open;
      assert Holding(edges, Elems(out + [i]), j) == open - {Edge(i, j)};
    } else {
      forall e | e in open ensures e.before != i {
        assert e == Edge(e.before, j);
      }
      assert Holding(edges, Elems(out + [i]), j) == open;
    }
  }

  /** Placing the ready step `i` makes exactly its last-waiting successors ready. */
  lemma ReadyAdvances(n: nat, edges: set<Edge>, out: seq<nat>, i: nat, j: nat)
    requires WellFormed(n, edges) && Ready(n, edges, Elems(out), i) && Closed(edges, Elems(out))
    ensures Ready(n, edges, Elems(out + [i]), j) <==>
      (Ready(n, edges, Elems(out), j) && j != i)
      || (Edge(i, j) in edges && |Holding(edges, Elems(out), j)| == 1)
  {
    AdvanceCounts(edges, out, i, j);
    if j < n && j !in Elems(out) && j != i {
      ReadyByCount(n, edges, Elems(out), j);
      ReadyByCount(n, edges, Elems(out + [i]), j);
    }
  }

  // ------------------------------------------------------ what an order means

  lemma Membership<T>(s: seq<T>, x: T)
    ensures x in Elems(s) <==> x in s
  {
  }

  lemma SettledPlacesOnce(n: nat, edges: set<Edge>, out: seq<nat>)
    requires Settled(n, edges, out)
    ensures Distinct(out) && forall k :: 0 <= k < |out| ==> out[k] < n
  {
    forall i, j | 0 <= i < j < |out| ensures out[i] != out[j] {
      assert Lowest(n, edges, Elems(out[..j]), out[j]);
      assert out[i] in out[..j];
    }
    forall k | 0 <= k < |out| ensures out[k] < n {
      assert Lowest(n, edges, Elems(out[..k]), out[k]);
    }
  }

  /** Whatever is placed has everything it waits for placed before it. */
  lemma SettledRespects(n: nat, edges: set<Edge>, out: seq<nat>)
    requires Settled(n, edges, out)
    ensures Respects(edges, out)
  {
    forall e, k | e in edges && 0 <= k < |out| && e.after == out[k] ensures e.before in out[..k] {
      assert Lowest(n, edges, Elems(out[..k]), out[k]);
      Membership(out[..k], e.before);
    }
  }

  /** The tie-break leaves one answer only. */
  lemma {:induction false} SettledAgree(n: nat, edges: set<Edge>, a: seq<nat>, b: seq<nat>, k: nat)
    requires Settled(n, edges, a) && Settled(n, edges, b)
    requires k <= |a| && k <= |b|
    ensures a[..k] == b[..k]
  {
    if k > 0 {
      SettledAgree(n, edges, a, b, k - 1);
      assert Lowest(n, edges, Elems(a[..k - 1]), a[k - 1]);
      assert Lowest(n, edges, Elems(b[..k - 1]), b[k - 1]);
      assert a[..k] == a[..k - 1] + [a[k - 1]];
      assert b[..k] == b[..k - 1] + [b[k - 1]];
    }
  }

  lemma SettledUnique(n: nat, edges: set<Edge>, a: seq<nat>, b: seq<nat>)
    requires Settled(n, edges, a) && Settled(n, edges, b)
    ensures a == b
  {
    SettledNotLonger(n, edges, a, b);
    SettledNotLonger(n, edges, b, a);
    SettledAgree(n, edges, a, b, |a|);
    assert a == a[..|a|] && b == b[..|a|];
  }

  lemma SettledNotLonger(n: nat, edges: set<Edge>, a: seq<nat>, b: seq<nat>)
    requires Settled(n, edges, a) && Settled(n, edges, b)
    ensures |a| >= |b|
  {
    assert a[..|a|] == a;
    if |a| < |b| {
      SettledAgree(n, edges, a, b, |a|);
    }
  }

  /** The steps left over wait on one another; where no steps do, every step is placed. */
  lemma CompleteIffNoCycle(n: nat, edges: set<Edge>, out: seq<nat>)
    requires WellFormed(n, edges) && Settled(n, edges, out)
    ensures |out| == n <==> !exists steps :: Stuck(n, edges, steps)
  {
    SettledPlacesOnce(n, edges, out);
    SettledRespects(n, edges, out);
    LeftOver(n, out);
    if |out| < n {
      LeftoverIsStuck(n, edges, out);
    } else {
      forall steps ensures !Stuck(n, edges, steps) {
        if Stuck(n, edges, steps) {
          NothingStuckIsPlaced(n, edges, out, steps, n);
        }
      }
    }
  }

  lemma LeftoverIsStuck(n: nat, edges: set<Edge>, out: seq<nat>)
    requires WellFormed(n, edges) && Settled(n, edges, out)
    requires Missing(n, out) != {}
    ensures Stuck(n, edges, Missing(n, out))
  {
    var left := Missing(n, out);
    forall i | i in left ensures HeldBy(edges, left, i) {
      assert !Ready(n, edges, Elems(out), i);
      var e :| e in edges && e.after == i && e.before !in Elems(out);
      assert e.before in left;
    }
  }

  function Missing(n: nat, out: seq<nat>): set<nat> {
    set i: nat | i < n && i !in out
  }

  lemma {:induction false} MissingCount(n: nat, placed: set<nat>, left: set<nat>)
    requires forall i :: i in placed ==> i < n
    requires left == set i: nat | i < n && i !in placed
    ensures |left| + |placed| == n
  {
    if n > 0 {
      var placed', left' := placed - {n - 1}, left - {n - 1};
      MissingCount(n - 1, placed', left');
    }
  }

  /** Distinct steps below `n` leave some step out exactly when there are fewer than `n`. */
  lemma LeftOver(n: nat, out: seq<nat>)
    requires Distinct(out) && forall k :: 0 <= k < |out| ==> out[k] < n
    ensures |out| <= n
    ensures |out| < n <==> Missing(n, out) != {}
    ensures |out| == n ==> forall i :: 0 <= i < n ==> i in out
  {
    ElemsCount(out);
    var left := Missing(n, out);
    MissingCount(n, Elems(out), left);
    forall i | 0 <= i < n && |out| == n ensures i in out {
      assert i !in left;
    }
  }

  /** An order that runs every edge forward never gets past a step of a stuck set. */
  lemma {:induction false} NothingStuckIsPlaced(n: nat, edges: set<Edge>, order: seq<nat>, steps: set<nat>, k: nat)
    requires Respects(edges, order) && Stuck(n, edges, steps) && k <= |order|
    ensures forall i :: 0 <= i < k ==> order[i] !in steps
  {
    if k > 0 {
      NothingStuckIsPlaced(n, edges, order, steps, k - 1);
      assert order[k - 1] in steps ==> HeldBy(edges, steps, order[k - 1]);
    }
  }

  lemma OrderableIsComplete(n: nat, edges: set<Edge>, out: seq<nat>, other: seq<nat>)
    requires WellFormed(n, edges) && Settled(n, edges, out)
    requires Permutes(n, other) && Respects(edges, other)
    ensures |out| == n
  {
    SettledPlacesOnce(n, edges, out);
    LeftOver(n, out);
    LeftOver(n, other);
    if Missing(n, out) != {} {
      LeftoverIsStuck(n, edges, out);
      NothingStuckIsPlaced(n, edges, other, Missing(n, out), n);
    }
  }

  /** An order the edges already allow is returned unchanged. */
  lemma ForwardStays(n: nat, edges: set<Edge>, out: seq<nat>)
    requires WellFormed(n, edges) && Settled(n, edges, out)
    requires forall e :: e in edges ==> e.before < e.after
    ensures out == Identity(n)
  {
    var same := Identity(n);
    forall k | 0 <= k < n ensures Lowest(n, edges, Elems(same[..k]), k) {
      forall j: nat ensures j in Elems(same[..k]) <==> j < k {
        Membership(same[..k], j);
        assert j < k ==> same[..k][j] == j;
      }
    }
    forall j: nat ensures !Ready(n, edges, Elems(same), j) {
      if j < n { assert same[j] == j; }
    }
    SettledUnique(n, edges, out, same);
  }

  /** `a` comes first where the two first differ. */
  ghost predicate LexicallyFirst(a: seq<nat>, b: seq<nat>) {
    a == b || exists k :: 0 <= k < |a| && k < |b| && a[..k] == b[..k] && a[k] < b[k]
  }

  /** Of all orders the edges allow, the settled one keeps the given order longest. */
  lemma SettledIsFirst(n: nat, edges: set<Edge>, out: seq<nat>, other: seq<nat>)
    requires WellFormed(n, edges) && Settled(n, edges, out)
    requires Permutes(n, other) && Respects(edges, other)
    ensures |out| == n && LexicallyFirst(out, other)
  {
    OrderableIsComplete(n, edges, out, other);
    var k := CommonPrefix(out, other);
    if k < n {
      assert out[..k] == other[..k];
      forall e | e in edges && e.after == other[k] ensures e.before in Elems(out[..k]) {
        assert e.before in other[..k];
      }
      assert Ready(n, edges, Elems(out[..k]), other[k]);
      assert Lowest(n, edges, Elems(out[..k]), out[k]);
    } else {
      assert out == out[..k] && other == other[..k];
    }
  }

  function CommonPrefix(a: seq<nat>, b: seq<nat>): (k: nat)
    ensures k <= |a| && k <= |b| && a[..k] == b[..k]
    ensures k < |a| && k < |b| ==> a[k] != b[k]
  {
    if a == [] || b == [] || a[0] != b[0] then 0
    else
      var k := 1 + CommonPrefix(a[1..], b[1..]);
      assert a[..k] == [a[0]] + a[1..][..k - 1] && b[..k] == [b[0]] + b[1..][..k - 1];
      k
  }

  /** A later step runs ahead of an earlier one only while an edge still holds the earlier one. */
  lemma OnlyHeldStepsSink(n: nat, edges: set<Edge>, out: seq<nat>, k: nat, i: nat)
    requires Settled(n, edges, out) && k < |out| && i < out[k] && i !in out[..k]
    ensures exists e :: e in edges && e.after == i && e.before !in out[..k]
  {
    assert Lowest(n, edges, Elems(out[..k]), out[k]);
    assert !Ready(n, edges, Elems(out[..k]), i);
  }

  // --------------------------------------------------------- how many moved

  /** A step that an earlier-placed, later-positioned one now precedes. */
  predicate Overtaken(sequence: seq<nat>, k: nat)
    requires k < |sequence|
  {
    exists j :: 0 <= j < k && sequence[j] > sequence[k]
  }

  function OvertakenUpTo(sequence: seq<nat>, k: nat): nat
    requires k <= |sequence|
  {
    if k == 0 then 0
    else OvertakenUpTo(sequence, k - 1) + if Overtaken(sequence, k - 1) then 1 else 0
  }

  method Moved(sequence: seq<nat>) returns (count: nat)
    ensures count == OvertakenUpTo(sequence, |sequence|)
  {
    var furthest := -1;
    count := 0;
    for at := 0 to |sequence|
      invariant forall j :: 0 <= j < at ==> sequence[j] <= furthest
      invariant furthest == -1 || exists j :: 0 <= j < at && sequence[j] == furthest
      invariant count == OvertakenUpTo(sequence, at)
    {
      var i := sequence[at];
      if furthest > i {
        count := count + 1;
      } else {
        furthest := i;
      }
    }
  }

  lemma {:induction false} NoneMoved(sequence: seq<nat>, k: nat)
    requires k <= |sequence|
    ensures OvertakenUpTo(sequence, k) == 0 <==> forall i, j :: 0 <= j < i < k ==> sequence[j] <= sequence[i]
  {
    if k > 0 {
      NoneMoved(sequence, k - 1);
      if Overtaken(sequence, k - 1) {
        var j :| 0 <= j < k - 1 && sequence[j] > sequence[k - 1];
      }
    }
  }

  /** Nothing moved exactly when the order is the one given. */
  lemma NoneMovedIffUnchanged(n: nat, sequence: seq<nat>)
    requires Permutes(n, sequence)
    ensures OvertakenUpTo(sequence, n) == 0 <==> sequence == Identity(n)
  {
    NoneMoved(sequence, n);
    if OvertakenUpTo(sequence, n) == 0 {
      AscendingIsIdentity(n, sequence);
    }
  }

  lemma {:induction false} AscendingIsIdentity(n: nat, sequence: seq<nat>)
    requires Permutes(n, sequence)
    requires forall i, j :: 0 <= j < i < n ==> sequence[j] <= sequence[i]
    ensures sequence == Identity(n)
  {
    forall k | 0 <= k < n ensures k <= sequence[k] <= k {
      AtLeast(sequence, k);
      AtMost(n, sequence, k);
    }
  }

  lemma {:induction false} AtLeast(sequence: seq<nat>, k: nat)
    requires k < |sequence| && Distinct(sequence)
    requires forall i, j :: 0 <= j < i < |sequence| ==> sequence[j] <= sequence[i]
    ensures k <= sequence[k]
  {
    if k > 0 { AtLeast(sequence, k - 1); }
  }

  lemma {:induction false} AtMost(n: nat, sequence: seq<nat>, k: nat)
    requires Permutes(n, sequence) && k < n
    requires forall i, j :: 0 <= j < i < n ==> sequence[j] <= sequence[i]
    ensures sequence[k] <= k
    decreases n - k
  {
    if k + 1 < n { AtMost(n, sequence, k + 1); }
  }
}
