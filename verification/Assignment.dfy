/**
Which test goes to which shard, told for each test without the computation of
the split.
*/
module Assignment {
  import opened Sorting
  import opened Partition

  lemma InSorted(s: seq<Name>, n: Name)
    ensures n in Sorted(s) <==> n in s
  {
    SortMembers(NameLeq, s);
  }

  /** Every group is in the order of its names, whatever the mode. */
  lemma GroupsSorted(names: seq<Name>, count: nat, identity: string, mode: Mode, express: set<Name>, j: nat)
    requires count > 0 && j < count
    ensures |Groups(names, count, identity, mode, express)| == count
    ensures Ordered(NameLeq, Groups(names, count, identity, mode, express)[j])
  {
    GroupsCover(names, count, identity, mode, express);
    NamesOrdered();
    match mode {
      case RoundRobin => SortOrders(NameLeq, Deal(Sorted(names), count)[j]);
      case Pinned => SortOrders(NameLeq, names);
      case Weighted(_, _) =>
        var weigh := WeighBy(mode, identity);
        var start := Empty(count)[0 := ExpressOf(names, express)];
        SortOrders(NameLeq, Greedy(weigh, start, Order(weigh, names, express))[j]);
      case Hashed(digest) =>
        SortOrders(NameLeq, Pick(names, n => Bucket(digest, express, identity, count, n), j));
    }
  }

  // ---------- By digest ----------

  /** Without weights, a test goes where the digest of its identity says, an Express test to shard zero. */
  lemma HashedExactly(names: seq<Name>, count: nat, identity: string, digest: string -> nat, express: set<Name>,
                      n: Name, j: nat)
    requires count > 0 && j < count
    ensures |Groups(names, count, identity, Hashed(digest), express)| == count
    ensures (n in Groups(names, count, identity, Hashed(digest), express)[j]
             <==> n in names && j == if n in express then 0 else digest(identity + ":" + n) % count)
  {
    var bucket: Name -> nat := m => Bucket(digest, express, identity, count, m);
    InSorted(Pick(names, bucket, j), n);
    PickKeeps(names, bucket, j);
    KeepCounts(names, m => bucket(m) == j, n);
    assert n in names <==> multiset(names)[n] > 0;
    assert n in Pick(names, bucket, j) <==> multiset(Pick(names, bucket, j))[n] > 0;
  }

  // ---------- Pinned ----------

  /** A pinned invocation runs on shard zero alone. */
  lemma PinnedExactly(names: seq<Name>, count: nat, identity: string, express: set<Name>, n: Name, j: nat)
    requires count > 0 && j < count
    ensures |Groups(names, count, identity, Pinned, express)| == count
    ensures n in Groups(names, count, identity, Pinned, express)[j] <==> j == 0 && n in names
  {
    InSorted(names, n);
  }

  // ---------- In turn ----------

  lemma {:induction false} DealtExactly(names: seq<Name>, count: nat, n: Name, j: nat)
    requires count > 0 && j < count
    ensures n in Deal(names, count)[j] <==> exists i: nat :: i < |names| && names[i] == n && i % count == j
  {
    if names != [] {
      var last := |names| - 1;
      DealtExactly(names[..last], count, n, j);
      assert forall i: nat :: i < last ==> names[..last][i] == names[i];
      if n in Deal(names, count)[j] && !(names[last] == n && last % count == j) {
        assert n in Deal(names[..last], count)[j];
      }
    }
  }

  /** How many of the names come before this one. */
  ghost function RankIn(names: seq<Name>, n: Name): nat {
    |set m | m in names && NameLeq(m, n) && m != n|
  }

  lemma {:induction false} PrefixSet(s: seq<Name>, i: nat)
    requires NoDuplicates(s) && i <= |s|
    ensures |set m | m in s[..i]| == i
  {
    if i > 0 {
      PrefixSet(s, i - 1);
      var before := s[..i - 1];
      assert s[..i] == before + [s[i - 1]];
      assert s[i - 1] !in before;
      assert (set m | m in s[..i]) == (set m | m in before) + {s[i - 1]};
    }
  }

  /** In a list in order without repetition, the place of a name is the number of names before it. */
  lemma PlaceIsRank(s: seq<Name>, i: nat)
    requires Ordered(NameLeq, s) && NoDuplicates(s) && i < |s|
    ensures RankIn(s, s[i]) == i
  {
    NamesOrdered();
    PrefixSet(s, i);
    assert forall k :: i < k < |s| ==> NameLeq(s[i], s[k]);
    forall m ensures m in s[..i] <==> m in s && NameLeq(m, s[i]) && m != s[i] {
      if m in s && NameLeq(m, s[i]) && m != s[i] {
        var k :| 0 <= k < |s| && s[k] == m;
        assert k < i;
      }
    }
    assert (set m | m in s[..i]) == set m | m in s && NameLeq(m, s[i]) && m != s[i];
  }

  lemma SortedDistinct(s: seq<Name>)
    requires NoDuplicates(s)
    ensures NoDuplicates(Sorted(s))
  {
    SortKeeps(NameLeq, s);
    forall n ensures multiset(Sorted(s))[n] <= 1 {
      Once(s, n);
    }
    OnceBack(Sorted(s));
  }

  lemma Once(s: seq<Name>, n: Name)
    requires NoDuplicates(s)
    ensures multiset(s)[n] <= 1
  {
    if n in s {
      var i :| 0 <= i < |s| && s[i] == n;
      assert s == s[..i] + [s[i]] + s[i + 1..];
      assert n !in s[..i] && n !in s[i + 1..];
    }
  }

  lemma OnceBack(s: seq<Name>)
    requires forall n :: multiset(s)[n] <= 1
    ensures NoDuplicates(s)
  {
    forall i, j | 0 <= i < j < |s| ensures s[i] != s[j] {
      assert s == s[..j] + s[j..];
      assert s[..j][i] == s[i] && s[j..][0] == s[j];
      var n := s[i];
      assert multiset(s)[n] == multiset(s[..j])[n] + multiset(s[j..])[n];
      assert n in multiset(s[..j]) && s[j] in multiset(s[j..]);
    }
  }

  /** In the CI split a test goes by its place among the names in order. */
  lemma RoundRobinExactly(names: seq<Name>, count: nat, identity: string, express: set<Name>, n: Name, j: nat)
    requires count > 0 && j < count && NoDuplicates(names)
    ensures |Groups(names, count, identity, RoundRobin, express)| == count
    ensures (n in Groups(names, count, identity, RoundRobin, express)[j]
             <==> n in names && RankIn(names, n) % count == j)
  {
    var s := Sorted(names);
    NamesOrdered();
    SortOrders(NameLeq, names);
    SortedDistinct(names);
    InSorted(Deal(s, count)[j], n);
    DealtExactly(s, count, n, j);
    InSorted(names, n);
    forall m ensures m in s <==> m in names {
      InSorted(names, m);
    }
    assert RankIn(s, n) == RankIn(names, n) by {
      assert (set m | m in s && NameLeq(m, n) && m != n) == set m | m in names && NameLeq(m, n) && m != n;
    }
    if n in names {
      var i :| 0 <= i < |s| && s[i] == n;
      PlaceIsRank(s, i);
      assert forall k: nat :: k < |s| && s[k] == n ==> k == i;
    }
  }

  // ---------- By weight ----------

  /** Heavier, or as heavy and first by name. */
  predicate Ahead(weigh: Weigh, a: Name, b: Name) {
    weigh(a) > weigh(b) || (weigh(a) == weigh(b) && NameLeq(a, b) && a != b)
  }

  /** What a test ahead of `t`, or one that needs Express, weighs; anything else nothing. */
  function AheadOnly(weigh: Weigh, express: set<Name>, t: Name): Weigh {
    n => if n in express || Ahead(weigh, n, t) then weigh(n) else 0.0
  }

  /** The load of a group counting only Express tests and those ahead of `t`. */
  function LoadAhead(weigh: Weigh, express: set<Name>, group: seq<Name>, t: Name): real {
    Load(AheadOnly(weigh, express, t), group)
  }

  lemma {:induction false} LoadSame(weigh: Weigh, other: Weigh, group: seq<Name>)
    requires forall n :: n in group ==> weigh(n) == other(n)
    ensures Load(weigh, group) == Load(other, group)
  {
    if group != [] {
      LoadSame(weigh, other, group[1..]);
    }
  }

  /** Nothing given out later counts as ahead. */
  lemma {:induction false} LoadsAhead(weigh: Weigh, express: set<Name>, start: seq<seq<Name>>, order: seq<Name>,
                                      m: nat, k: nat)
    requires start != [] && m < |order| && k < |start|
    requires Ordered(HeavierLeq(weigh), order) && NoDuplicates(order) && forall n :: n in order ==> n !in express
    requires forall j, n :: 0 <= j < |start| && n in start[j] ==> n in express
    ensures (LoadAhead(weigh, express, Greedy(weigh, start, order)[k], order[m])
             == Load(weigh, Greedy(weigh, start, order[..m])[k]))
    decreases |order|
  {
    var last := |order| - 1;
    var before := order[..last];
    NotAhead(weigh, order, m, last);
    PutNothing(weigh, AheadOnly(weigh, express, order[m]), start, order, k);
    if m == last {
      NowAhead(weigh, express, start, order, k);
    } else {
      LoadsAhead(weigh, express, start, before, m, k);
      assert before[..m] == order[..m];
    }
  }

  lemma PutNothing(weigh: Weigh, only: Weigh, start: seq<seq<Name>>, order: seq<Name>, k: nat)
    requires start != [] && order != [] && k < |start| && only(order[|order| - 1]) == 0.0
    ensures (Load(only, Greedy(weigh, start, order)[k])
             == Load(only, Greedy(weigh, start, order[..|order| - 1])[k]))
  {
    var last := |order| - 1;
    var groups := Greedy(weigh, start, order[..last]);
    LoadAppends(only, groups[LightestOf(Loads(weigh, groups))], order[last]);
  }

  lemma NowAhead(weigh: Weigh, express: set<Name>, start: seq<seq<Name>>, order: seq<Name>, k: nat)
    requires start != [] && order != [] && k < |start|
    requires Ordered(HeavierLeq(weigh), order) && NoDuplicates(order)
    requires forall j, n :: 0 <= j < |start| && n in start[j] ==> n in express
    ensures var last := |order| - 1;
            var group := Greedy(weigh, start, order[..last])[k];
            LoadAhead(weigh, express, group, order[last]) == Load(weigh, group)
  {
    var last := |order| - 1;
    var group := Greedy(weigh, start, order[..last])[k];
    var only := AheadOnly(weigh, express, order[last]);
    GreedyMembers(weigh, start, order[..last], express);
    forall n | n in group ensures only(n) == weigh(n) {
      if n !in express { EarlierAhead(weigh, order, last, n); }
    }
    LoadSame(only, weigh, group);
  }

  lemma NotAhead(weigh: Weigh, order: seq<Name>, m: nat, i: nat)
    requires Ordered(HeavierLeq(weigh), order) && m <= i < |order|
    ensures !Ahead(weigh, order[i], order[m])
  {
    NamesOrdered();
    assert m < i ==> HeavierLeq(weigh)(order[m], order[i]);
  }

  lemma EarlierAhead(weigh: Weigh, order: seq<Name>, m: nat, n: Name)
    requires Ordered(HeavierLeq(weigh), order) && NoDuplicates(order) && m < |order| && n in order[..m]
    ensures Ahead(weigh, n, order[m])
  {
    var i :| 0 <= i < m && order[i] == n;
    assert HeavierLeq(weigh)(order[i], order[m]);
  }

  /** The group a test ends in is the one it was put in. */
  lemma {:induction false} PutThere(weigh: Weigh, express: set<Name>, start: seq<seq<Name>>, order: seq<Name>, m: nat,
                                    i: nat)
    requires start != [] && m < |order| && i < |start| && NoDuplicates(order)
    requires forall n :: n in order ==> n !in express
    requires forall j, n :: 0 <= j < |start| && n in start[j] ==> n in express
    requires order[m] in Greedy(weigh, start, order)[i]
    ensures i == LightestOf(Loads(weigh, Greedy(weigh, start, order[..m])))
    decreases |order|
  {
    var last := |order| - 1;
    var before := order[..last];
    GreedyMembers(weigh, start, before, express);
    assert order[last] !in before;
    if m < last {
      assert order[m] in Greedy(weigh, start, before)[i];
      PutThere(weigh, express, start, before, m, i);
      assert before[..m] == order[..m];
    }
  }

  lemma OrderDistinct(weigh: Weigh, names: seq<Name>, express: set<Name>)
    requires NoDuplicates(names)
    ensures NoDuplicates(Order(weigh, names, express))
  {
    var rest := Keep(names, n => n !in express);
    SortKeeps(HeavierLeq(weigh), rest);
    forall n ensures multiset(Order(weigh, names, express))[n] <= 1 {
      KeepCounts(names, m => m !in express, n);
      Once(names, n);
    }
    OnceBack(Order(weigh, names, express));
  }

  lemma OrderMembers(weigh: Weigh, names: seq<Name>, express: set<Name>, n: Name)
    ensures n in Order(weigh, names, express) <==> n in names && n !in express
  {
    var rest := Keep(names, m => m !in express);
    SortMembers(HeavierLeq(weigh), rest);
    KeepCounts(names, m => m !in express, n);
    assert n in rest <==> multiset(rest)[n] > 0;
    assert n in names <==> multiset(names)[n] > 0;
  }

  /** What the heaviest-first order gives `Greedy`. */
  lemma OrderReady(weigh: Weigh, names: seq<Name>, count: nat, express: set<Name>)
    requires count > 0 && NoDuplicates(names)
    ensures var order, start := Order(weigh, names, express), Empty(count)[0 := ExpressOf(names, express)];
            && Ordered(HeavierLeq(weigh), order) && NoDuplicates(order) && (forall n :: n in order ==> n !in express)
            && (forall j, n :: 0 <= j < |start| && n in start[j] ==> n in express)
  {
    HeavierTotal(weigh);
    SortOrders(HeavierLeq(weigh), Keep(names, n => n !in express));
    OrderDistinct(weigh, names, express);
    KeepOnly(names, n => n in express);
    SortMembers(NameLeq, Keep(names, n => n in express));
    forall n | n in Order(weigh, names, express) ensures n !in express {
      OrderMembers(weigh, names, express, n);
    }
  }

  lemma GreedyExactly(weigh: Weigh, express: set<Name>, start: seq<seq<Name>>, order: seq<Name>, i: nat, k: nat,
                      t: Name)
    requires start != [] && i < |start| && k < |start|
    requires Ordered(HeavierLeq(weigh), order) && NoDuplicates(order) && forall n :: n in order ==> n !in express
    requires forall j, n :: 0 <= j < |start| && n in start[j] ==> n in express
    requires t in Greedy(weigh, start, order)[i] && t !in express
    ensures var a := LoadAhead(weigh, express, Greedy(weigh, start, order)[i], t);
            var b := LoadAhead(weigh, express, Greedy(weigh, start, order)[k], t);
            a <= b && (k < i ==> a < b)
  {
    var m := PlaceInOrder(weigh, express, start, order, i, t);
    PutThere(weigh, express, start, order, m, i);
    LoadsAhead(weigh, express, start, order, m, i);
    LoadsAhead(weigh, express, start, order, m, k);
    LightestLoads(weigh, Greedy(weigh, start, order[..m]), i, k);
  }

  lemma PlaceInOrder(weigh: Weigh, express: set<Name>, start: seq<seq<Name>>, order: seq<Name>, i: nat, t: Name)
      returns (m: nat)
    requires start != [] && i < |start|
    requires forall j, n :: 0 <= j < |start| && n in start[j] ==> n in express
    requires t in Greedy(weigh, start, order)[i] && t !in express
    ensures m < |order| && order[m] == t
  {
    GreedyMembers(weigh, start, order, express);
    m :| 0 <= m < |order| && order[m] == t;
  }

  lemma LightestLoads(weigh: Weigh, groups: seq<seq<Name>>, i: nat, k: nat)
    requires groups != [] && k < |groups| && i == LightestOf(Loads(weigh, groups))
    ensures Load(weigh, groups[i]) <= Load(weigh, groups[k])
    ensures k < i ==> Load(weigh, groups[i]) < Load(weigh, groups[k])
  {
    var loads := Loads(weigh, groups);
    assert Lightest(loads, i) && loads[k] == Load(weigh, groups[k]);
  }

  /**
  By weight, a test that does not need Express goes to the first of the shards
  least loaded with Express tests and with the tests ahead of it.
  */
  lemma WeightedExactly(names: seq<Name>, count: nat, identity: string, seconds: map<string, real>, fallback: real,
                        express: set<Name>, i: nat, k: nat, t: Name)
    requires count > 0 && NoDuplicates(names) && i < count && k < count && t !in express
    requires |Groups(names, count, identity, Weighted(seconds, fallback), express)| == count
    requires t in Groups(names, count, identity, Weighted(seconds, fallback), express)[i]
    ensures var weigh: Weigh := n => if identity + ":" + n in seconds then seconds[identity + ":" + n] else fallback;
            var groups := Groups(names, count, identity, Weighted(seconds, fallback), express);
            && LoadAhead(weigh, express, groups[i], t) <= LoadAhead(weigh, express, groups[k], t)
            && (k < i ==> LoadAhead(weigh, express, groups[i], t) < LoadAhead(weigh, express, groups[k], t))
  {
    var weigh := WeighBy(Weighted(seconds, fallback), identity);
    var start := Empty(count)[0 := ExpressOf(names, express)];
    var dealt := Greedy(weigh, start, Order(weigh, names, express));
    OrderReady(weigh, names, count, express);
    InSorted(dealt[i], t);
    GreedyExactly(weigh, express, start, Order(weigh, names, express), i, k, t);
    AheadSorted(weigh, express, dealt[i], t);
    AheadSorted(weigh, express, dealt[k], t);
    RawWeigh(identity, seconds, fallback, express, Sorted(dealt[i]), t);
    RawWeigh(identity, seconds, fallback, express, Sorted(dealt[k]), t);
  }

  lemma AheadSorted(weigh: Weigh, express: set<Name>, group: seq<Name>, t: Name)
    ensures LoadAhead(weigh, express, Sorted(group), t) == LoadAhead(weigh, express, group, t)
  {
    LoadSorts(AheadOnly(weigh, express, t), NameLeq, group);
  }

  lemma RawWeigh(identity: string, seconds: map<string, real>, fallback: real, express: set<Name>, group: seq<Name>,
                 t: Name)
    ensures var weigh: Weigh := n => if identity + ":" + n in seconds then seconds[identity + ":" + n] else fallback;
            (LoadAhead(weigh, express, group, t)
             == LoadAhead(WeighBy(Weighted(seconds, fallback), identity), express, group, t))
  {
    var weigh: Weigh := n => if identity + ":" + n in seconds then seconds[identity + ":" + n] else fallback;
    var other := WeighBy(Weighted(seconds, fallback), identity);
    assert forall n :: weigh(n) == other(n);
    assert forall n :: Ahead(weigh, n, t) == Ahead(other, n, t);
    LoadSame(AheadOnly(weigh, express, t), AheadOnly(other, express, t), group);
  }
}
