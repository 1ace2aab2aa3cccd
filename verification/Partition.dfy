/**
The split of one invocation's tests over shards. Every shard computes it on
its own from its own listing, so it must be the same whatever the order of
that listing, cover every test once and keep the tests that need the Express
fixture on shard zero.
*/
module Partition {
  import opened Catalog
  import opened Sorting

  type Name = string

  datatype Mode =
    | RoundRobin
    | Pinned
    /** Seconds of earlier runs by test, and the median of them all for a test without. */
    | Weighted(seconds: map<string, real>, fallback: real)
    /** A digest of a test's identity, read as a number. */
    | Hashed(digest: string -> nat)
  {
    predicate Sensible() {
      Weighted? ==> fallback > 0.0 && forall id :: id in seconds ==> seconds[id] > 0.0
    }
  }

  function Weight(mode: Mode, identity: string, name: Name): real
    requires mode.Weighted?
  {
    var id := identity + ":" + name;
    if id in mode.seconds then mode.seconds[id] else mode.fallback
  }

  type Weigh = Name -> real

  function WeighBy(mode: Mode, identity: string): Weigh
    requires mode.Weighted?
  {
    name => Weight(mode, identity, name)
  }

  /** Heaviest first, ties by name. */
  function HeavierLeq(weigh: Weigh): (Name, Name) -> bool {
    (a, b) => weigh(a) > weigh(b) || (weigh(a) == weigh(b) && NameLeq(a, b))
  }

  lemma HeavierTotal(weigh: Weigh)
    ensures TotalOrder(HeavierLeq(weigh))
  {
    NamesOrdered();
  }

  predicate NoDuplicates(s: seq<Name>) {
    forall i, j :: 0 <= i < j < |s| ==> s[i] != s[j]
  }

  function Sorted(s: seq<Name>): seq<Name> {
    Sort(NameLeq, s)
  }

  function SortEach(groups: seq<seq<Name>>): seq<seq<Name>> {
    seq(|groups|, i requires 0 <= i < |groups| => Sorted(groups[i]))
  }

  // ---------- What each mode assigns ----------

  function Empty(count: nat): seq<seq<Name>> {
    seq(count, _ => [])
  }

  function Put(groups: seq<seq<Name>>, i: nat, name: Name): seq<seq<Name>>
    requires i < |groups|
  {
    groups[i := groups[i] + [name]]
  }

  /** Dealt out in turn. */
  function Deal(names: seq<Name>, count: nat): (groups: seq<seq<Name>>)
    requires count > 0
    ensures |groups| == count
  {
    if names == [] then Empty(count)
    else
      var last := |names| - 1;
      Put(Deal(names[..last], count), last % count, names[last])
  }

  function Bucket(digest: string -> nat, express: set<Name>, identity: string, count: nat, name: Name): nat
    requires count > 0
  {
    if name in express then 0 else digest(identity + ":" + name) % count
  }

  /** The names that fall in one bucket, in their own order. */
  function Pick(names: seq<Name>, bucket: Name -> nat, j: nat): seq<Name> {
    if names == [] then []
    else
      var last := |names| - 1;
      Pick(names[..last], bucket, j) + if bucket(names[last]) == j then [names[last]] else []
  }

  function Load(weigh: Weigh, group: seq<Name>): real {
    if group == [] then 0.0 else weigh(group[0]) + Load(weigh, group[1..])
  }

  function Loads(weigh: Weigh, groups: seq<seq<Name>>): seq<real> {
    seq(|groups|, i requires 0 <= i < |groups| => Load(weigh, groups[i]))
  }

  /** The first of the lightest. */
  ghost predicate Lightest(loads: seq<real>, i: nat) {
    && i < |loads|
    && (forall k :: 0 <= k < |loads| ==> loads[i] <= loads[k])
    && (forall k :: 0 <= k < i ==> loads[i] < loads[k])
  }

  function LightestOf(loads: seq<real>): (i: nat)
    requires loads != []
    ensures Lightest(loads, i)
  {
    if |loads| == 1 then 0
    else
      var last := |loads| - 1;
      var i := LightestOf(loads[..last]);
      assert forall k :: 0 <= k < last ==> loads[..last][k] == loads[k];
      if loads[last] < loads[i] then last else i
  }

  /** Each name in turn to the lightest shard so far. */
  function Greedy(weigh: Weigh, start: seq<seq<Name>>, order: seq<Name>): (groups: seq<seq<Name>>)
    requires start != []
    ensures |groups| == |start|
  {
    if order == [] then start
    else
      var last := |order| - 1;
      var groups := Greedy(weigh, start, order[..last]);
      Put(groups, LightestOf(Loads(weigh, groups)), order[last])
  }

  function Keep(names: seq<Name>, keep: Name -> bool): seq<Name> {
    if names == [] then []
    else
      var last := |names| - 1;
      Keep(names[..last], keep) + if keep(names[last]) then [names[last]] else []
  }

  function ExpressOf(names: seq<Name>, express: set<Name>): seq<Name> {
    Sorted(Keep(names, n => n in express))
  }

  function Order(weigh: Weigh, names: seq<Name>, express: set<Name>): seq<Name> {
    Sort(HeavierLeq(weigh), Keep(names, n => n !in express))
  }

  /** The whole split: what every shard must agree on. */
  function Groups(names: seq<Name>, count: nat, identity: string, mode: Mode, express: set<Name>): seq<seq<Name>>
    requires count > 0
  {
    match mode
    case RoundRobin => SortEach(Deal(Sorted(names), count))
    case Pinned => Empty(count)[0 := Sorted(names)]
    case Weighted(_, _) =>
      var weigh := WeighBy(mode, identity);
      SortEach(Greedy(weigh, Empty(count)[0 := ExpressOf(names, express)], Order(weigh, names, express)))
    case Hashed(digest) =>
      var bucket := n => Bucket(digest, express, identity, count, n);
      seq(count, j requires 0 <= j < count => Sorted(Pick(names, bucket, j)))
  }

  // ---------- The split covers every name once ----------

  function Union(groups: seq<seq<Name>>): multiset<Name> {
    if groups == [] then multiset{} else multiset(groups[0]) + Union(groups[1..])
  }

  lemma {:induction false} UnionEmpty(count: nat)
    ensures Union(Empty(count)) == multiset{}
  {
    if count > 0 {
      assert Empty(count)[1..] == Empty(count - 1);
      UnionEmpty(count - 1);
    }
  }

  lemma Rearrange(head: multiset<Name>, a: multiset<Name>, x: multiset<Name>, b: multiset<Name>, y: multiset<Name>)
    requires a + x == b + y
    ensures (head + a) + x == (head + b) + y
  {
    assert (head + a) + x == head + (a + x);
    assert (head + b) + y == head + (b + y);
  }

  lemma Cancel(a: multiset<Name>, b: multiset<Name>, x: multiset<Name>)
    requires a + x == b + x
    ensures a == b
  {
    forall n ensures a[n] == b[n] {
      assert (a + x)[n] == (b + x)[n];
    }
  }

  lemma {:induction false} UnionChange(groups: seq<seq<Name>>, i: nat, group: seq<Name>)
    requires i < |groups|
    ensures Union(groups[i := group]) + multiset(groups[i]) == Union(groups) + multiset(group)
  {
    var changed := groups[i := group];
    if i == 0 {
      assert changed[1..] == groups[1..];
    } else {
      UnionChange(groups[1..], i - 1, group);
      assert changed[1..] == groups[1..][i - 1 := group];
      assert changed[0] == groups[0] && groups[1..][i - 1] == groups[i];
      Rearrange(multiset(groups[0]), Union(changed[1..]), multiset(groups[i]), Union(groups[1..]), multiset(group));
    }
  }

  lemma UnionPut(groups: seq<seq<Name>>, i: nat, name: Name)
    requires i < |groups|
    ensures Union(Put(groups, i, name)) == Union(groups) + multiset{name}
  {
    UnionChange(groups, i, groups[i] + [name]);
    var put, held := Union(Put(groups, i, name)), multiset(groups[i]);
    assert multiset(groups[i] + [name]) == multiset{name} + held;
    assert Union(groups) + (multiset{name} + held) == (Union(groups) + multiset{name}) + held;
    Cancel(put, Union(groups) + multiset{name}, held);
  }

  lemma {:induction false} UnionSortEach(groups: seq<seq<Name>>)
    ensures Union(SortEach(groups)) == Union(groups)
  {
    if groups != [] {
      assert SortEach(groups)[1..] == SortEach(groups[1..]);
      UnionSortEach(groups[1..]);
      SortKeeps(NameLeq, groups[0]);
    }
  }

  lemma LastElement(names: seq<Name>)
    requires names != []
    ensures multiset(names) == multiset(names[..|names| - 1]) + multiset{names[|names| - 1]}
  {
    assert names == names[..|names| - 1] + [names[|names| - 1]];
  }

  lemma {:induction false} DealCovers(names: seq<Name>, count: nat)
    requires count > 0
    ensures Union(Deal(names, count)) == multiset(names)
  {
    if names == [] {
      UnionEmpty(count);
    } else {
      var last := |names| - 1;
      DealCovers(names[..last], count);
      UnionPut(Deal(names[..last], count), last % count, names[last]);
      LastElement(names);
    }
  }

  lemma {:induction false} GreedyCovers(weigh: Weigh, start: seq<seq<Name>>, order: seq<Name>)
    requires start != []
    ensures Union(Greedy(weigh, start, order)) == Union(start) + multiset(order)
  {
    if order != [] {
      var last := |order| - 1;
      GreedyCovers(weigh, start, order[..last]);
      var groups := Greedy(weigh, start, order[..last]);
      UnionPut(groups, LightestOf(Loads(weigh, groups)), order[last]);
      LastElement(order);
    }
  }

  lemma {:induction false} KeepSplits(names: seq<Name>, express: set<Name>)
    ensures multiset(Keep(names, n => n in express)) + multiset(Keep(names, n => n !in express)) == multiset(names)
  {
    if names != [] {
      KeepSplits(names[..|names| - 1], express);
      LastElement(names);
    }
  }

  /** The buckets together hold every name. */
  lemma {:induction false} PicksCover(names: seq<Name>, bucket: Name -> nat, count: nat)
    requires forall n :: n in names ==> bucket(n) < count
    ensures Union(seq(count, j requires 0 <= j < count => Pick(names, bucket, j))) == multiset(names)
  {
    var groups := seq(count, j requires 0 <= j < count => Pick(names, bucket, j));
    if names == [] {
      assert groups == Empty(count);
      UnionEmpty(count);
    } else {
      var last := |names| - 1;
      var before := seq(count, j requires 0 <= j < count => Pick(names[..last], bucket, j));
      PicksCover(names[..last], bucket, count);
      var put := Put(before, bucket(names[last]), names[last]);
      assert |groups| == |put|;
      forall j | 0 <= j < count ensures groups[j] == put[j] {
      }
      assert groups == put;
      UnionPut(before, bucket(names[last]), names[last]);
      LastElement(names);
    }
  }

  /** In every mode the groups hold every listed name, each exactly as often as listed. */
  lemma GroupsCover(names: seq<Name>, count: nat, identity: string, mode: Mode, express: set<Name>)
    requires count > 0
    ensures |Groups(names, count, identity, mode, express)| == count
    ensures Union(Groups(names, count, identity, mode, express)) == multiset(names)
  {
    SortKeeps(NameLeq, names);
    UnionEmpty(count);
    match mode {
      case RoundRobin =>
        DealCovers(Sorted(names), count);
        UnionSortEach(Deal(Sorted(names), count));
      case Pinned =>
        UnionChange(Empty(count), 0, Sorted(names));
      case Weighted(_, _) =>
        var weigh := WeighBy(mode, identity);
        var start := Empty(count)[0 := ExpressOf(names, express)];
        UnionChange(Empty(count), 0, ExpressOf(names, express));
        SortKeeps(NameLeq, Keep(names, n => n in express));
        SortKeeps(HeavierLeq(weigh), Keep(names, n => n !in express));
        KeepSplits(names, express);
        GreedyCovers(weigh, start, Order(weigh, names, express));
        UnionSortEach(Greedy(weigh, start, Order(weigh, names, express)));
      case Hashed(digest) =>
        var bucket := n => Bucket(digest, express, identity, count, n);
        var picks := seq(count, j requires 0 <= j < count => Pick(names, bucket, j));
        PicksCover(names, bucket, count);
        UnionSortEach(picks);
        assert SortEach(picks) == Groups(names, count, identity, mode, express);
    }
  }

  // ---------- Shards agree ----------

  lemma {:induction false} KeepCounts(names: seq<Name>, keep: Name -> bool, n: Name)
    ensures multiset(Keep(names, keep))[n] == if keep(n) then multiset(names)[n] else 0
  {
    if names != [] {
      KeepCounts(names[..|names| - 1], keep, n);
      LastElement(names);
    }
  }

  lemma {:induction false} PickKeeps(names: seq<Name>, bucket: Name -> nat, j: nat)
    ensures Pick(names, bucket, j) == Keep(names, n => bucket(n) == j)
  {
    if names != [] {
      PickKeeps(names[..|names| - 1], bucket, j);
    }
  }

  lemma KeepPermutes(a: seq<Name>, b: seq<Name>, keep: Name -> bool)
    requires multiset(a) == multiset(b)
    ensures multiset(Keep(a, keep)) == multiset(Keep(b, keep))
  {
    forall n ensures multiset(Keep(a, keep))[n] == multiset(Keep(b, keep))[n] {
      KeepCounts(a, keep, n);
      KeepCounts(b, keep, n);
    }
  }

  /** Two shards whose listings differ only in order compute the same split. */
  lemma GroupsPermute(a: seq<Name>, b: seq<Name>, count: nat, identity: string, mode: Mode, express: set<Name>)
    requires count > 0 && multiset(a) == multiset(b)
    ensures Groups(a, count, identity, mode, express) == Groups(b, count, identity, mode, express)
  {
    NamesOrdered();
    match mode {
      case RoundRobin => SortsAlike(NameLeq, a, b);
      case Pinned => SortsAlike(NameLeq, a, b);
      case Weighted(_, _) =>
        var weigh := WeighBy(mode, identity);
        KeepPermutes(a, b, n => n in express);
        KeepPermutes(a, b, n => n !in express);
        SortsAlike(NameLeq, Keep(a, n => n in express), Keep(b, n => n in express));
        HeavierTotal(weigh);
        SortsAlike(HeavierLeq(weigh), Keep(a, n => n !in express), Keep(b, n => n !in express));
      case Hashed(digest) =>
        var bucket := n => Bucket(digest, express, identity, count, n);
        forall j: nat | j < count ensures Sorted(Pick(a, bucket, j)) == Sorted(Pick(b, bucket, j)) {
          PickKeeps(a, bucket, j);
          PickKeeps(b, bucket, j);
          KeepPermutes(a, b, n => bucket(n) == j);
          SortsAlike(NameLeq, Pick(a, bucket, j), Pick(b, bucket, j));
        }
    }
  }

  // ---------- Express stays on shard zero ----------

  predicate ExpressOnZero(groups: seq<seq<Name>>, express: set<Name>) {
    forall j, n :: 1 <= j < |groups| && n in groups[j] ==> n !in express
  }

  lemma {:induction false} KeepOnly(names: seq<Name>, keep: Name -> bool)
    ensures forall n :: n in Keep(names, keep) ==> keep(n) && n in names
  {
    if names != [] {
      KeepOnly(names[..|names| - 1], keep);
    }
  }

  lemma SortMembers(leq: (Name, Name) -> bool, s: seq<Name>)
    ensures forall n :: n in Sort(leq, s) <==> n in s
  {
    SortKeeps(leq, s);
    assert forall n :: n in s <==> n in multiset(s);
    assert forall n :: n in Sort(leq, s) <==> n in multiset(Sort(leq, s));
  }

  lemma {:induction false} GreedyKeepsExpress(weigh: Weigh, start: seq<seq<Name>>, order: seq<Name>, express: set<Name>)
    requires start != [] && ExpressOnZero(start, express) && forall n :: n in order ==> n !in express
    ensures ExpressOnZero(Greedy(weigh, start, order), express)
  {
    if order != [] {
      GreedyKeepsExpress(weigh, start, order[..|order| - 1], express);
    }
  }

  lemma SortEachKeepsExpress(groups: seq<seq<Name>>, express: set<Name>)
    requires ExpressOnZero(groups, express)
    ensures ExpressOnZero(SortEach(groups), express)
  {
    forall j, n | 1 <= j < |groups| && n in SortEach(groups)[j] ensures n !in express {
      SortMembers(NameLeq, groups[j]);
      assert n in groups[j];
    }
  }

  /** Whatever the mode, save the round robin of the CI split. */
  lemma GroupsKeepExpress(names: seq<Name>, count: nat, identity: string, mode: Mode, express: set<Name>)
    requires count > 0 && !mode.RoundRobin?
    ensures ExpressOnZero(Groups(names, count, identity, mode, express), express)
  {
    match mode {
      case Pinned =>
      case Weighted(_, _) =>
        var weigh := WeighBy(mode, identity);
        var start := Empty(count)[0 := ExpressOf(names, express)];
        var rest := Keep(names, n => n !in express);
        KeepOnly(names, n => n !in express);
        SortMembers(HeavierLeq(weigh), rest);
        GreedyKeepsExpress(weigh, start, Order(weigh, names, express), express);
        SortEachKeepsExpress(Greedy(weigh, start, Order(weigh, names, express)), express);
      case Hashed(digest) =>
        var bucket := n => Bucket(digest, express, identity, count, n);
        forall j: nat, n | 1 <= j < count && n in Groups(names, count, identity, mode, express)[j]
          ensures n !in express
        {
          SortMembers(NameLeq, Pick(names, bucket, j));
          PickKeeps(names, bucket, j);
          KeepOnly(names, n => bucket(n) == j);
        }
    }
  }

  /** The round robin does not look at it: two Express tests are enough to leave shard zero. */
  lemma RoundRobinSpreadsExpress()
    ensures !ExpressOnZero(Groups(["a", "b"], 2, "", RoundRobin, {"a", "b"}), {"a", "b"})
  {
    var names := ["a", "b"];
    assert NameLeq("a", "b");
    assert names[1..] == ["b"] && ["b"][1..] == [];
    assert Sort(NameLeq, ["b"]) == ["b"];
    assert Sorted(names) == names;
    assert names[..1] == ["a"] && ["a"][..0] == [];
    assert Deal([], 2) == [[], []];
    var one := Put([[], []], 0, "a");
    assert Deal(["a"], 2) == one;
    assert one[0] == [] + ["a"] == ["a"] && one[1] == [];
    assert one == [["a"], []];
    assert Deal(names, 2) == Put(one, 1, "b");
    assert Put(one, 1, "b")[1] == [] + ["b"] == ["b"];
    assert Put(one, 1, "b") == [["a"], ["b"]];
    assert SortEach([["a"], ["b"]])[1] == ["b"];
    assert "b" in ["b"];
  }

  // ---------- Balance ----------

  /**
  No shard that was given a test of its own choosing is heavier than another
  by more than that test: the test went where the load was least.
  */
  ghost predicate Balanced(weigh: Weigh, groups: seq<seq<Name>>, express: set<Name>) {
    forall i, k, t :: 0 <= i < |groups| && 0 <= k < |groups| && t in groups[i] && t !in express
      ==> Load(weigh, groups[i]) <= Load(weigh, groups[k]) + weigh(t)
  }

  lemma {:induction false} LoadAppends(weigh: Weigh, group: seq<Name>, name: Name)
    ensures Load(weigh, group + [name]) == Load(weigh, group) + weigh(name)
  {
    if group == [] {
      assert [name][1..] == [];
    } else {
      LoadAppends(weigh, group[1..], name);
      assert (group + [name])[1..] == group[1..] + [name];
    }
  }

  lemma {:induction false} LoadInserts(weigh: Weigh, leq: (Name, Name) -> bool, name: Name, group: seq<Name>)
    ensures Load(weigh, Insert(leq, name, group)) == Load(weigh, group) + weigh(name)
  {
    if group == [] {
      assert [name][1..] == [];
    } else if leq(name, group[0]) {
      assert ([name] + group)[1..] == group;
    } else {
      LoadInserts(weigh, leq, name, group[1..]);
    }
  }

  /** Sorting a group does not change its load. */
  lemma {:induction false} LoadSorts(weigh: Weigh, leq: (Name, Name) -> bool, group: seq<Name>)
    ensures Load(weigh, Sort(leq, group)) == Load(weigh, group)
  {
    if group != [] {
      LoadSorts(weigh, leq, group[1..]);
      LoadInserts(weigh, leq, group[0], Sort(leq, group[1..]));
    }
  }

  /** A test no heavier than any given before goes to the lightest shard: the balance holds. */
  lemma PutBalances(weigh: Weigh, groups: seq<seq<Name>>, express: set<Name>, name: Name)
    requires groups != [] && Balanced(weigh, groups, express)
    requires weigh(name) > 0.0
    requires forall i, t :: 0 <= i < |groups| && t in groups[i] && t !in express ==> weigh(name) <= weigh(t)
    ensures Balanced(weigh, Put(groups, LightestOf(Loads(weigh, groups)), name), express)
  {
    var loads := Loads(weigh, groups);
    var m := LightestOf(loads);
    var after := Put(groups, m, name);
    LoadAppends(weigh, groups[m], name);
    forall i, k, t | 0 <= i < |after| && 0 <= k < |after| && t in after[i] && t !in express
      ensures Load(weigh, after[i]) <= Load(weigh, after[k]) + weigh(t)
    {
      assert loads[m] <= loads[k];
      assert t == name || t in groups[i];
    }
  }

  lemma {:induction false} GreedyMembers(weigh: Weigh, start: seq<seq<Name>>, order: seq<Name>, express: set<Name>)
    requires start != []
    requires forall j, n :: 0 <= j < |start| && n in start[j] ==> n in express
    ensures forall j, n :: 0 <= j < |start| && n in Greedy(weigh, start, order)[j] ==> n in express || n in order
  {
    if order != [] {
      GreedyMembers(weigh, start, order[..|order| - 1], express);
    }
  }

  lemma {:induction false} GreedyBalances(weigh: Weigh, start: seq<seq<Name>>, order: seq<Name>, express: set<Name>)
    requires start != [] && Ordered(HeavierLeq(weigh), order)
    requires forall n :: n in order ==> weigh(n) > 0.0
    requires forall j, n :: 0 <= j < |start| && n in start[j] ==> n in express
    ensures Balanced(weigh, Greedy(weigh, start, order), express)
  {
    if order != [] {
      var last := |order| - 1;
      var groups := Greedy(weigh, start, order[..last]);
      GreedyBalances(weigh, start, order[..last], express);
      GreedyMembers(weigh, start, order[..last], express);
      forall i, t | 0 <= i < |groups| && t in groups[i] && t !in express ensures weigh(order[last]) <= weigh(t) {
        LastIsLightest(weigh, order, t);
      }
      PutBalances(weigh, groups, express, order[last]);
    }
  }

  lemma LastIsLightest(weigh: Weigh, order: seq<Name>, t: Name)
    requires order != [] && Ordered(HeavierLeq(weigh), order) && t in order[..|order| - 1]
    ensures weigh(order[|order| - 1]) <= weigh(t)
  {
    var last := |order| - 1;
    var j :| 0 <= j < last && order[j] == t;
    assert HeavierLeq(weigh)(order[j], order[last]);
  }

  lemma SortEachBalances(weigh: Weigh, groups: seq<seq<Name>>, express: set<Name>)
    requires Balanced(weigh, groups, express)
    ensures Balanced(weigh, SortEach(groups), express)
  {
    var sorted := SortEach(groups);
    forall i, k, t | 0 <= i < |sorted| && 0 <= k < |sorted| && t in sorted[i] && t !in express
      ensures Load(weigh, sorted[i]) <= Load(weigh, sorted[k]) + weigh(t)
    {
      LoadSorts(weigh, NameLeq, groups[i]);
      LoadSorts(weigh, NameLeq, groups[k]);
      SortMembers(NameLeq, groups[i]);
      assert t in groups[i];
    }
  }

  /** The weighted split is balanced, whatever Express load shard zero began with. */
  lemma WeightedBalances(names: seq<Name>, count: nat, identity: string, mode: Mode, express: set<Name>)
    requires count > 0 && mode.Weighted? && mode.Sensible()
    ensures Balanced(WeighBy(mode, identity), Groups(names, count, identity, mode, express), express)
  {
    var weigh := WeighBy(mode, identity);
    var start := Empty(count)[0 := ExpressOf(names, express)];
    var order := Order(weigh, names, express);
    HeavierTotal(weigh);
    SortOrders(HeavierLeq(weigh), Keep(names, n => n !in express));
    KeepOnly(names, n => n in express);
    SortMembers(NameLeq, Keep(names, n => n in express));
    GreedyBalances(weigh, start, order, express);
    SortEachBalances(weigh, Greedy(weigh, start, order), express);
  }

  // ---------- The computation ----------

  method DealOut(names: seq<Name>, count: nat) returns (groups: seq<seq<Name>>)
    requires count > 0
    ensures groups == Deal(names, count)
  {
    groups := Empty(count);
    for index := 0 to |names|
      invariant groups == Deal(names[..index], count)
    {
      groups := Put(groups, index % count, names[index]);
      assert names[..index + 1][..index] == names[..index];
    }
    assert names[..|names|] == names;
  }

  method FindLightest(loads: seq<real>) returns (index: nat)
    requires loads != []
    ensures index == LightestOf(loads)
  {
    index := 0;
    for i := 1 to |loads|
      invariant index < i && Lightest(loads[..i], index)
    {
      if loads[i] < loads[index] { index := i; }
    }
    assert loads[..|loads|] == loads;
    LightestUnique(loads, index, LightestOf(loads));
  }

  lemma LightestUnique(loads: seq<real>, a: nat, b: nat)
    requires Lightest(loads, a) && Lightest(loads, b)
    ensures a == b
  {
    assert loads[a] <= loads[b] && loads[b] <= loads[a];
  }

  /** Each name goes to the lightest shard; the loads are kept up to date as it goes. */
  method Spread(weigh: Weigh, start: seq<seq<Name>>, order: seq<Name>) returns (groups: seq<seq<Name>>)
    requires start != []
    ensures groups == Greedy(weigh, start, order)
  {
    groups := start;
    var loads := Loads(weigh, start);
    for i := 0 to |order|
      invariant groups == Greedy(weigh, start, order[..i])
      invariant loads == Loads(weigh, groups)
    {
      var index := FindLightest(loads);
      LoadAppends(weigh, groups[index], order[i]);
      assert order[..i + 1][..i] == order[..i];
      groups := Put(groups, index, order[i]);
      loads := loads[index := loads[index] + weigh(order[i])];
      assert loads == Loads(weigh, groups);
    }
    assert order[..|order|] == order;
  }

  method Hash(names: seq<Name>, bucket: Name -> nat, count: nat) returns (groups: seq<seq<Name>>)
    requires forall n :: n in names ==> bucket(n) < count
    ensures groups == seq(count, j requires 0 <= j < count => Pick(names, bucket, j))
  {
    groups := Empty(count);
    for i := 0 to |names|
      invariant |groups| == count && forall j :: 0 <= j < count ==> groups[j] == Pick(names[..i], bucket, j)
    {
      assert names[..i + 1][..i] == names[..i];
      groups := Put(groups, bucket(names[i]), names[i]);
    }
    assert names[..|names|] == names;
  }

  /**
  The split a shard computes. It refuses a listing that names a test twice,
  and no other: the check of the union at the end never finds a difference.
  */
  method Split(names: seq<Name>, count: nat, identity: string, mode: Mode, express: set<Name>)
      returns (result: Option<seq<seq<Name>>>)
    requires count > 0
    ensures result.Some? <==> NoDuplicates(names)
    ensures result.Some? ==> result.value == Groups(names, count, identity, mode, express)
    ensures result.Some? ==> |result.value| == count && Union(result.value) == multiset(names)
    ensures result.Some? && !mode.RoundRobin? ==> ExpressOnZero(result.value, express)
    ensures (result.Some? && mode.Weighted? && mode.Sensible()
             ==> Balanced(WeighBy(mode, identity), result.value, express))
  {
    if !NoDuplicates(names) { return None; }
    var groups: seq<seq<Name>>;
    match mode {
      case RoundRobin =>
        groups := DealOut(Sorted(names), count);
      case Pinned =>
        groups := Empty(count)[0 := names];
        assert SortEach(groups) == Groups(names, count, identity, mode, express);
      case Weighted(_, _) =>
        var weigh := WeighBy(mode, identity);
        groups := Spread(weigh, Empty(count)[0 := ExpressOf(names, express)], Order(weigh, names, express));
      case Hashed(digest) =>
        groups := Hash(names, n => Bucket(digest, express, identity, count, n), count);
        assert SortEach(groups) == Groups(names, count, identity, mode, express);
    }
    GroupsCover(names, count, identity, mode, express);
    UnionSortEach(groups);
    if Union(groups) != multiset(names) { return None; }
    if !mode.RoundRobin? { GroupsKeepExpress(names, count, identity, mode, express); }
    if mode.Weighted? && mode.Sensible() { WeightedBalances(names, count, identity, mode, express); }
    result := Some(SortEach(groups));
  }
}
