/**
The audit told over what is on disk: which directories it accepts and what its
totals count, without the tables and tallies it works with.
*/
module Reckoning {
  import opened Catalog
  import opened Receipts
  import opened Proxy
  import opened Audit
  import opened Sorting
  import P = Partition

  // ---------- One invocation ----------

  /** What a shard was asked to do in an invocation, as its files say. */
  ghost predicate Owes(d: ShardDir, k: Key, what: Obligation) {
    if k in d.receipts then d.receipts[k].what == what else k in d.expected && d.expected[k] == what
  }

  /** The shard has a valid receipt with a result for each test of its share, and for no other. */
  ghost predicate Finished(d: ShardDir, k: Key) {
    && k in d.receipts
    && d.receipts[k].valid
    && forall n :: n in d.receipts[k].reported <==> n in d.receipts[k].what.share
  }

  /** It had tests to run and was cut short, or never answered. */
  ghost predicate Stopped(d: ShardDir, k: Key) {
    if k in d.receipts then
      && d.receipts[k].what.share != []
      && !d.receipts[k].valid
      && d.receipts[k].interrupted
      && forall n :: n in d.receipts[k].reported ==> n in d.receipts[k].what.share
    else k in d.expected && d.expected[k].share != []
  }

  /** Shard `i` was asked to run its group of this invocation and accounts for it. */
  ghost predicate Stands(d: ShardDir, i: nat, k: Key, w: Obligation, diagnostic: bool)
    requires i < |w.groups|
  {
    && (forall what :: Owes(d, k, what) ==>
          && what.args == w.args && what.identity == w.identity && what.listed == w.listed
          && what.groups == w.groups && what.pinned == w.pinned && what.carried == w.carried
          && what.share == w.groups[i])
    && (k in d.Keys() ==> Finished(d, k) || (diagnostic && Stopped(d, k)))
    && (k in d.receipts && d.receipts[k].pending ==> diagnostic)
    && (k !in d.Keys() && w.pinned && i > 0 ==> w.groups[i] == [])
  }

  /** Every shard took part, or a pinned invocation stayed on shard zero. */
  ghost predicate TookPart(shards: seq<ShardDir>, k: Key, pinned: bool) {
    forall i: nat :: i < |shards| ==>
      (k in shards[i].Keys() <==> i == 0 || !pinned || exists j: nat :: 0 < j < |shards| && k in shards[j].Keys())
  }

  /**
  The shards account for an invocation they agree on as `w`: each for its own
  group; together the groups and the carried names are the listing, name by
  name; nothing carried is run again; and the Express tests stay on shard zero.
  */
  ghost predicate AccountFor(shards: seq<ShardDir>, k: Key, w: Obligation, express: set<Name>, diagnostic: bool) {
    && |w.groups| == |shards|
    && (exists i: nat :: i < |shards| && Owes(shards[i], k, w))
    && AllStand(shards, k, w, diagnostic)
    && (diagnostic || TookPart(shards, k, w.pinned))
    && ListedOnce(w)
    && KeepsExpress(w, express)
  }

  ghost predicate AllStand(shards: seq<ShardDir>, k: Key, w: Obligation, diagnostic: bool)
    requires |w.groups| == |shards|
  {
    forall i: nat :: i < |shards| ==> Stands(shards[i], i, k, w, diagnostic)
  }

  ghost predicate ListedOnce(w: Obligation) {
    && (forall n :: multiset(w.listed)[n] == P.Union(w.groups)[n] + if n in w.carried then 1 else 0)
    && (forall i: nat, n :: i < |w.groups| && n in w.groups[i] ==> n !in w.carried)
  }

  ghost predicate KeepsExpress(w: Obligation, express: set<Name>) {
    forall i: nat, n :: i < |w.groups| && n in w.groups[i] && n in express ==> i == 0
  }

  lemma RankAt(shards: seq<ShardDir>, k: Key, i: nat)
    requires i < |shards|
    ensures |RankOf(TablesOf(shards), k)| == |shards|
    ensures (RankOf(TablesOf(shards), k)[i]
             == if k in shards[i].receipts then Some(shards[i].receipts[k])
                else if k in shards[i].expected then Some(Pending(shards[i].expected[k])) else None)
  {
    assert TablesOf(shards)[i] == Rows(shards[i]);
  }

  lemma StandsExactly(shards: seq<ShardDir>, i: nat, k: Key, w: Obligation, diagnostic: bool)
    requires i < |shards| == |w.groups| && |RankOf(TablesOf(shards), k)| == |shards|
    ensures Stands(shards[i], i, k, w, diagnostic) <==> ShardOk(RankOf(TablesOf(shards), k), w, i, diagnostic)
  {
    var d := shards[i];
    RankAt(shards, k, i);
    if k in d.receipts {
      assert Owes(d, k, d.receipts[k].what);
    } else if k in d.expected {
      assert Owes(d, k, d.expected[k]);
    }
  }

  lemma PresentAt(shards: seq<ShardDir>, k: Key)
    ensures var rows := RankOf(TablesOf(shards), k);
            && |rows| == |shards|
            && forall i: nat :: i < |shards| ==> (rows[i].Some? <==> k in shards[i].Keys())
  {
    forall i: nat | i < |shards|
      ensures RankOf(TablesOf(shards), k)[i].Some? <==> k in shards[i].Keys()
    {
      RankAt(shards, k, i);
    }
  }

  lemma PresentExactly(shards: seq<ShardDir>, k: Key, w: Obligation, diagnostic: bool)
    requires exists i: nat :: i < |shards| && k in shards[i].Keys()
    ensures (AllPresent(RankOf(TablesOf(shards), k), w, diagnostic)
             <==> diagnostic || TookPart(shards, k, w.pinned))
  {
    PresentAt(shards, k);
    var rows := RankOf(TablesOf(shards), k);
    if !diagnostic && TookPart(shards, k, w.pinned) {
      assert rows[0].Some?;
      if j: nat :| 0 < j < |shards| && k in shards[j].Keys() {
        assert forall i: nat :: i < |shards| ==> rows[i].Some?;
      }
    }
  }

  lemma UnionExactly(w: Obligation)
    ensures UnionOk(w) <==> ListedOnce(w)
  {
    var all := P.Union(w.groups) + multiset(w.carried.Keys);
    assert forall n :: all[n] == P.Union(w.groups)[n] + if n in w.carried then 1 else 0;
    assert all == multiset(w.listed) <==> forall n :: all[n] == multiset(w.listed)[n];
  }

  /** The audit of an invocation for a given reference. */
  ghost predicate OkFor(rows: Rank, w: Obligation, express: set<Name>, diagnostic: bool) {
    && AllPresent(rows, w, diagnostic)
    && |w.groups| == |rows|
    && (forall i: nat :: i < |rows| ==> ShardOk(rows, w, i, diagnostic))
    && UnionOk(w)
    && P.ExpressOnZero(w.groups, express)
  }

  /** The reference may be any that the rows agree with. */
  lemma AnyReference(rows: Rank, w: Obligation, express: set<Name>, diagnostic: bool)
    requires OkFor(rows, w, express, diagnostic) && Reference(rows).Some?
    ensures InvocationOk(rows, express, diagnostic)
  {
    ReferenceIsARow(rows);
    var i: nat :| i < |rows| && rows[i].Some? && rows[i].value.what == Reference(rows).value;
    assert ShardOk(rows, w, i, diagnostic);
    var r := Reference(rows).value;
    forall j: nat | j < |rows| ensures ShardOk(rows, r, j, diagnostic) {
      assert ShardOk(rows, w, j, diagnostic);
    }
  }

  lemma AllStandExactly(shards: seq<ShardDir>, k: Key, w: Obligation, diagnostic: bool)
    requires |w.groups| == |shards| && |RankOf(TablesOf(shards), k)| == |shards|
    ensures (AllStand(shards, k, w, diagnostic)
             <==> forall i: nat :: i < |shards| ==> ShardOk(RankOf(TablesOf(shards), k), w, i, diagnostic))
  {
    forall i: nat | i < |shards|
      ensures Stands(shards[i], i, k, w, diagnostic) <==> ShardOk(RankOf(TablesOf(shards), k), w, i, diagnostic)
    {
      StandsExactly(shards, i, k, w, diagnostic);
    }
  }

  lemma AddsUpExactly(w: Obligation, express: set<Name>)
    ensures UnionOk(w) && P.ExpressOnZero(w.groups, express) <==> ListedOnce(w) && KeepsExpress(w, express)
  {
    UnionExactly(w);
  }

  lemma AccountForIsOk(shards: seq<ShardDir>, k: Key, w: Obligation, express: set<Name>, diagnostic: bool)
    requires exists i: nat :: i < |shards| && Owes(shards[i], k, w)
    ensures (AccountFor(shards, k, w, express, diagnostic)
             <==> OkFor(RankOf(TablesOf(shards), k), w, express, diagnostic))
  {
    PresentAt(shards, k);
    PresentExactly(shards, k, w, diagnostic);
    AddsUpExactly(w, express);
    if |w.groups| == |shards| {
      AllStandExactly(shards, k, w, diagnostic);
    }
  }

  lemma SomeoneOwes(shards: seq<ShardDir>, k: Key)
    ensures (Reference(RankOf(TablesOf(shards), k)).Some? ==>
               exists i: nat :: i < |shards| && Owes(shards[i], k, Reference(RankOf(TablesOf(shards), k)).value))
    ensures (exists i: nat :: i < |shards| && k in shards[i].Keys()) ==> Reference(RankOf(TablesOf(shards), k)).Some?
  {
    var rows := RankOf(TablesOf(shards), k);
    ReferenceIsARow(rows);
    PresentAt(shards, k);
    if Reference(rows).Some? {
      var i: nat :| i < |rows| && rows[i].Some? && rows[i].value.what == Reference(rows).value;
      RankAt(shards, k, i);
    }
  }

  /** An invocation is accepted exactly if there is one the shards account for together. */
  lemma InvocationExactly(shards: seq<ShardDir>, k: Key, express: set<Name>, diagnostic: bool)
    ensures (KeyOk(TablesOf(shards), express, diagnostic, k)
             <==> Explained(shards, k, express, diagnostic))
  {
    var rows := RankOf(TablesOf(shards), k);
    SomeoneOwes(shards, k);
    if InvocationOk(rows, express, diagnostic) {
      var w := Reference(rows).value;
      AccountForIsOk(shards, k, w, express, diagnostic);
    }
    if w :| AccountFor(shards, k, w, express, diagnostic) {
      AccountForIsOk(shards, k, w, express, diagnostic);
      AnyReference(rows, w, express, diagnostic);
    }
  }

  // ---------- The suite ----------

  /** The shard published or answered an invocation; with `busy`, one with tests of its own to run. */
  ghost predicate Worked(d: ShardDir, busy: bool) {
    exists k, w :: Owes(d, k, w) && (busy ==> w.share != [])
  }

  /** Some shard carried a pass from an earlier run: this run resumes one. */
  ghost predicate Resumes(shards: seq<ShardDir>) {
    exists i: nat, k, w, n :: i < |shards| && Owes(shards[i], k, w) && n in w.carried
  }

  /** What the audit of a suite accepts. */
  ghost predicate Accounted(shards: seq<ShardDir>, invocations: Option<nat>, express: set<Name>, diagnostic: bool) {
    && (forall i: nat, k :: i < |shards| && k in shards[i].receipts && k in shards[i].expected
          ==> shards[i].receipts[k].what == shards[i].expected[k])
    && (invocations.Some? ==> forall i: nat :: i < |shards| ==> |shards[i].Keys()| == invocations.value)
    && (|| (diagnostic && exists i: nat :: i < |shards| && Worked(shards[i], false))
        || (forall i: nat :: i < |shards| ==> Worked(shards[i], !Resumes(shards))))
    && AllExplained(shards, express, diagnostic)
  }

  ghost function KeysOf(shards: seq<ShardDir>): set<Key> {
    set i: nat, k | i < |shards| && k in shards[i].Keys() :: k
  }

  ghost predicate AllExplained(shards: seq<ShardDir>, express: set<Name>, diagnostic: bool) {
    forall k :: k in KeysOf(shards) ==> Explained(shards, k, express, diagnostic)
  }

  ghost predicate Explained(shards: seq<ShardDir>, k: Key, express: set<Name>, diagnostic: bool) {
    exists w :: AccountFor(shards, k, w, express, diagnostic)
  }

  lemma RowsKeys(d: ShardDir)
    ensures Rows(d).Keys == d.Keys()
    ensures |Rows(d)| == |d.Keys()|
    ensures Rows(d) == map[] <==> d.Keys() == {}
    ensures forall k, w :: Owes(d, k, w) <==> k in Rows(d) && Rows(d)[k].what == w
  {
    assert Rows(d) == map[] <==> Rows(d).Keys == {};
  }

  lemma WorkedExactly(d: ShardDir, resumed: bool)
    ensures HasWork(Rows(d), resumed) <==> Worked(d, !resumed)
    ensures Rows(d) != map[] <==> Worked(d, false)
  {
    RowsKeys(d);
    if Rows(d) != map[] {
      var k :| k in Rows(d).Keys;
      assert Owes(d, k, Rows(d)[k].what);
    }
    if k: Key :| k in Rows(d) && Rows(d)[k].what.share != [] {
      assert Owes(d, k, Rows(d)[k].what);
    }
  }

  lemma ResumesExactly(shards: seq<ShardDir>)
    ensures AnyCarried(TablesOf(shards)) <==> Resumes(shards)
  {
    var tables: Tables := TablesOf(shards);
    if i: nat, k: Key :| i < |tables| && k in tables[i] && tables[i][k].what.carried != map[] {
      RowsKeys(shards[i]);
      var carried: map<Name, Proof> := tables[i][k].what.carried;
      assert carried.Keys != {};
      var n :| n in carried;
      assert Owes(shards[i], k, tables[i][k].what);
    }
    if i: nat, k: Key, w: Obligation, n: Name :| i < |shards| && Owes(shards[i], k, w) && n in w.carried {
      RowsKeys(shards[i]);
      assert k in tables[i] && tables[i][k].what.carried != map[];
    }
  }

  lemma FairExactly(shards: seq<ShardDir>, invocations: Option<nat>, diagnostic: bool)
    ensures (ShardsOk(TablesOf(shards), invocations, diagnostic)
             <==> && (invocations.Some? ==> forall i: nat :: i < |shards| ==> |shards[i].Keys()| == invocations.value)
                  && (|| (diagnostic && exists i: nat :: i < |shards| && Worked(shards[i], false))
                      || (forall i: nat :: i < |shards| ==> Worked(shards[i], !Resumes(shards)))))
  {
    var tables: Tables := TablesOf(shards);
    ResumesExactly(shards);
    forall i: nat | i < |shards|
      ensures |tables[i]| == |shards[i].Keys()|
      ensures tables[i] != map[] <==> Worked(shards[i], false)
      ensures HasWork(tables[i], AnyCarried(tables)) <==> Worked(shards[i], !Resumes(shards))
    {
      RowsKeys(shards[i]);
      WorkedExactly(shards[i], AnyCarried(tables));
    }
  }

  lemma KeysExactly(shards: seq<ShardDir>, k: Key)
    ensures k in AllKeys(TablesOf(shards)) <==> exists i: nat :: i < |shards| && k in shards[i].Keys()
  {
    var tables: Tables := TablesOf(shards);
    forall i: nat | i < |shards| ensures k in tables[i] <==> k in shards[i].Keys() {
      RowsKeys(shards[i]);
    }
  }

  lemma KeysSame(shards: seq<ShardDir>)
    ensures AllKeys(TablesOf(shards)) == KeysOf(shards)
  {
    forall k ensures k in AllKeys(TablesOf(shards)) <==> k in KeysOf(shards) {
      KeysExactly(shards, k);
    }
  }

  lemma InvocationsExactly(shards: seq<ShardDir>, express: set<Name>, diagnostic: bool)
    ensures AllKeysOk(TablesOf(shards), express, diagnostic) <==> AllExplained(shards, express, diagnostic)
  {
    KeysSame(shards);
    forall k ensures KeyOk(TablesOf(shards), express, diagnostic, k) <==> Explained(shards, k, express, diagnostic) {
      InvocationExactly(shards, k, express, diagnostic);
    }
  }

  /**
  The audit accepts a suite exactly if no receipt contradicts its obligation,
  no shard came out of it empty-handed or with another number of invocations
  than expected, and each invocation is accounted for.
  */
  lemma AuditsExactly(shards: seq<ShardDir>, invocations: Option<nat>, express: set<Name>, diagnostic: bool)
    ensures (AllAgree(shards) && SuiteOk(TablesOf(shards), invocations, express, diagnostic)
             <==> Accounted(shards, invocations, express, diagnostic))
  {
    FairExactly(shards, invocations, diagnostic);
    InvocationsExactly(shards, express, diagnostic);
  }

  // ---------- The totals ----------

  ghost function Pairs<T>(keys: set<Key>, of: Key -> set<T>): set<(Key, T)> {
    set k, x | k in keys && x in of(k) :: (k, x)
  }

  lemma PairsOne<T>(k: Key, xs: set<T>)
    ensures |Pairs({k}, _ => xs)| == |xs|
    decreases xs
  {
    if xs == {} {
      assert Pairs({k}, _ => xs) == {};
    } else {
      var x :| x in xs;
      PairsOne(k, xs - {x});
      assert Pairs({k}, _ => xs) == Pairs({k}, _ => xs - {x}) + {(k, x)};
    }
  }

  /** Adding up sizes key by key counts pairs. */
  lemma {:induction false} SumCounts<T>(keys: set<Key>, f: Key -> nat, of: Key -> set<T>)
    requires forall k :: k in keys ==> f(k) == |of(k)|
    ensures Sum(keys, f) == |Pairs(keys, of)|
  {
    if keys == {} {
      assert Pairs(keys, of) == {};
    } else {
      var k :| k in keys;
      SumTakes(keys, f, k);
      SumCounts(keys - {k}, f, of);
      PairsOne(k, of(k));
      var one := Pairs({k}, _ => of(k));
      assert Pairs(keys, of) == Pairs(keys - {k}, of) + one;
      assert Pairs(keys - {k}, of) !! one;
    }
  }

  /** The results with this status that the receipts of an invocation hold, shard by shard. */
  ghost function ResultsOf(shards: seq<ShardDir>, k: Key, status: Status): set<(nat, Name)> {
    set i: nat, n | i < |shards| && n in Reports(shards[i], k, status) :: (i, n)
  }

  ghost function Reports(d: ShardDir, k: Key, status: Status): set<Name> {
    if k !in d.receipts then {} else set n | n in d.receipts[k].reported && d.receipts[k].reported[n] == status
  }

  lemma ImageOf(i: nat, names: set<Name>)
    ensures |set n | n in names :: (i, n)| == |names|
    decreases names
  {
    if names == {} {
      assert (set n | n in names :: (i, n)) == {};
    } else {
      var x :| x in names;
      ImageOf(i, names - {x});
      assert (set n | n in names :: (i, n)) == (set n | n in names - {x} :: (i, n)) + {(i, x)};
    }
  }

  lemma {:induction false} CountsResults(shards: seq<ShardDir>, k: Key, status: Status)
    ensures CountIn(RankOf(TablesOf(shards), k), status) == |ResultsOf(shards, k, status)|
  {
    var rows := RankOf(TablesOf(shards), k);
    if shards == [] {
      assert ResultsOf(shards, k, status) == {};
    } else {
      var last := |shards| - 1;
      var d := shards[last];
      CountsResults(shards[..last], k, status);
      RankBefore(shards, k);
      RankAt(shards, k, last);
      var more := set n | n in Reports(d, k, status) :: (last, n);
      ImageOf(last, Reports(d, k, status));
      ResultsMore(shards, k, status);
      if rows[last].Some? {
        assert Having(rows[last].value.reported, status) == Reports(d, k, status);
      } else {
        assert Reports(d, k, status) == {};
      }
    }
  }

  lemma RankBefore(shards: seq<ShardDir>, k: Key)
    requires shards != []
    ensures (RankOf(TablesOf(shards), k)[..|shards| - 1] == RankOf(TablesOf(shards[..|shards| - 1]), k))
  {
    var a, b := RankOf(TablesOf(shards), k)[..|shards| - 1], RankOf(TablesOf(shards[..|shards| - 1]), k);
    forall i: nat | i < |shards| - 1 ensures a[i] == b[i] {
      RankAt(shards, k, i);
      RankAt(shards[..|shards| - 1], k, i);
    }
  }

  lemma ResultsMore(shards: seq<ShardDir>, k: Key, status: Status)
    requires shards != []
    ensures var last := |shards| - 1; var before := ResultsOf(shards[..last], k, status);
            var more := set n | n in Reports(shards[last], k, status) :: (last, n);
            ResultsOf(shards, k, status) == before + more && |before + more| == |before| + |more|
  {
    var last := |shards| - 1;
    var before := ResultsOf(shards[..last], k, status);
    var more := set n | n in Reports(shards[last], k, status) :: (last, n);
    assert ResultsOf(shards, k, status) == before + more;
    assert before !! more;
  }

  /** The names some shard carried into an invocation. */
  ghost function CarriedInto(shards: seq<ShardDir>, k: Key): set<Name> {
    set i: nat, n | i < |shards| && n in Carries(shards[i], k) :: n
  }

  ghost function Carries(d: ShardDir, k: Key): set<Name> {
    if k in d.receipts then d.receipts[k].what.carried.Keys
    else if k in d.expected then d.expected[k].carried.Keys else {}
  }

  lemma OweCarries(d: ShardDir, k: Key, w: Obligation)
    requires Owes(d, k, w)
    ensures Carries(d, k) == w.carried.Keys
  {
  }

  /** The shards agree on what is carried, and on the groups. */
  lemma AgreeOn(shards: seq<ShardDir>, k: Key, w: Obligation, r: Obligation, express: set<Name>, diagnostic: bool)
    requires AccountFor(shards, k, w, express, diagnostic)
    requires exists i: nat :: i < |shards| && Owes(shards[i], k, r)
    ensures r.groups == w.groups && r.carried == w.carried && CarriedInto(shards, k) == w.carried.Keys
  {
    forall i: nat | i < |shards| ensures Carries(shards[i], k) <= w.carried.Keys {
      assert Stands(shards[i], i, k, w, diagnostic);
      if k in shards[i].receipts {
        assert Owes(shards[i], k, shards[i].receipts[k].what);
      } else if k in shards[i].expected {
        assert Owes(shards[i], k, shards[i].expected[k]);
      }
    }
    var i: nat :| i < |shards| && Owes(shards[i], k, r);
    assert Stands(shards[i], i, k, w, diagnostic);
    OweCarries(shards[i], k, r);
  }

  /** What an accepted invocation contributes to the totals. */
  lemma TallyExactly(shards: seq<ShardDir>, k: Key, express: set<Name>, diagnostic: bool)
    requires Explained(shards, k, express, diagnostic)
    ensures var t := TallyAt(TablesOf(shards), diagnostic, k);
            && t.failed == |ResultsOf(shards, k, Failed)|
            && t.carried == |CarriedInto(shards, k)|
            && t.passed == |ResultsOf(shards, k, Passed)| + t.carried
  {
    var rows := RankOf(TablesOf(shards), k);
    var w :| AccountFor(shards, k, w, express, diagnostic);
    InvocationExactly(shards, k, express, diagnostic);
    SomeoneOwes(shards, k);
    AgreeOn(shards, k, w, Reference(rows).value, express, diagnostic);
    PresentAt(shards, k);
    CountsResults(shards, k, Failed);
    CountsResults(shards, k, Passed);
    assert |w.carried.Keys| == |w.carried|;
  }

  ghost predicate Counts(t: Tally, failed: set<(nat, Name)>, passed: set<(nat, Name)>, carried: set<Name>) {
    t.failed == |failed| && t.carried == |carried| && t.passed == |passed| + |carried|
  }

  ghost predicate CountEach(tallies: map<Key, Tally>, failed: Key -> set<(nat, Name)>,
                            passed: Key -> set<(nat, Name)>, carried: Key -> set<Name>)
  {
    forall k :: k in tallies ==> Counts(tallies[k], failed(k), passed(k), carried(k))
  }

  lemma TallyCounts(shards: seq<ShardDir>, k: Key, express: set<Name>, diagnostic: bool)
    requires AllExplained(shards, express, diagnostic) && k in KeysOf(shards)
    ensures Counts(TallyAt(TablesOf(shards), diagnostic, k), ResultsOf(shards, k, Failed), ResultsOf(shards, k, Passed),
                   CarriedInto(shards, k))
  {
    TallyExactly(shards, k, express, diagnostic);
  }

  lemma TalliesExactly(shards: seq<ShardDir>, express: set<Name>, diagnostic: bool)
    requires AllExplained(shards, express, diagnostic)
    ensures CountEach(TalliesOf(TablesOf(shards), diagnostic), k => ResultsOf(shards, k, Failed),
                      k => ResultsOf(shards, k, Passed), k => CarriedInto(shards, k))
    ensures TalliesOf(TablesOf(shards), diagnostic).Keys == KeysOf(shards)
  {
    KeysSame(shards);
    forall k | k in KeysOf(shards)
      ensures Counts(TallyAt(TablesOf(shards), diagnostic, k), ResultsOf(shards, k, Failed),
                     ResultsOf(shards, k, Passed), CarriedInto(shards, k))
    {
      TallyCounts(shards, k, express, diagnostic);
    }
  }

  lemma TalliesCount(tallies: map<Key, Tally>, report: Report, failed: Key -> set<(nat, Name)>,
                     passed: Key -> set<(nat, Name)>, carried: Key -> set<Name>)
    requires AddsUp(report, tallies) && CountEach(tallies, failed, passed, carried)
    ensures report.failed == |Pairs(tallies.Keys, failed)|
    ensures report.carried == |Pairs(tallies.Keys, carried)|
    ensures report.passed == |Pairs(tallies.Keys, passed)| + report.carried
  {
    var passes: Key -> nat := k => |passed(k)|;
    SumCounts(tallies.Keys, FailedIn(tallies), failed);
    SumCounts(tallies.Keys, CarriedBy(tallies), carried);
    SumCounts(tallies.Keys, passes, passed);
    SumsAdd(tallies.Keys, passes, CarriedBy(tallies), PassedIn(tallies));
  }

  /**
  The totals of an accepted audit count results, one for each shard, invocation
  and test that a receipt reports, and the names carried into each invocation
  as passed.
  */
  lemma TotalsExactly(shards: seq<ShardDir>, express: set<Name>, diagnostic: bool, report: Report)
    requires AllExplained(shards, express, diagnostic)
    requires AddsUp(report, TalliesOf(TablesOf(shards), diagnostic))
    ensures report.failed == |Pairs(KeysOf(shards), k => ResultsOf(shards, k, Failed))|
    ensures report.carried == |Pairs(KeysOf(shards), k => CarriedInto(shards, k))|
    ensures report.passed == |Pairs(KeysOf(shards), k => ResultsOf(shards, k, Passed))| + report.carried
  {
    TalliesExactly(shards, express, diagnostic);
    TalliesCount(TalliesOf(TablesOf(shards), diagnostic), report, k => ResultsOf(shards, k, Failed),
                 k => ResultsOf(shards, k, Passed), k => CarriedInto(shards, k));
  }

  // ---------- The losses ----------

  lemma {:induction false} MissingMembers(rows: Rank, groups: seq<seq<Name>>, diagnostic: bool, n: Name)
    requires |rows| <= |groups|
    ensures (n in Missing(rows, groups, diagnostic)
             <==> exists i: nat :: i < |rows| && Absent(rows, i, diagnostic) && n in groups[i])
  {
    if rows != [] {
      var last := |rows| - 1;
      MissingMembers(rows[..last], groups, diagnostic, n);
      forall i: nat | i < last ensures Absent(rows[..last], i, diagnostic) == Absent(rows, i, diagnostic) {
      }
    }
  }

  /** The test is in the group of a shard that did not finish the invocation. */
  ghost predicate LeftUndone(shards: seq<ShardDir>, k: Key, w: Obligation, n: Name)
    requires |w.groups| == |shards|
  {
    exists i: nat :: i < |shards| && n in w.groups[i] && !Finished(shards[i], k)
  }

  lemma AbsentExactly(shards: seq<ShardDir>, i: nat, k: Key, w: Obligation, diagnostic: bool)
    requires i < |shards| == |w.groups| == |RankOf(TablesOf(shards), k)| && Stands(shards[i], i, k, w, diagnostic)
    ensures Absent(RankOf(TablesOf(shards), k), i, diagnostic) <==> !Finished(shards[i], k)
  {
    RankAt(shards, k, i);
  }

  lemma ReportNames(tallies: map<Key, Tally>, report: Report, k: Key, n: Name)
    requires AddsUp(report, tallies) && k in tallies
    ensures k in report.missing && n in report.missing[k] <==> n in tallies[k].missing
  {
    P.SortMembers(NameLeq, tallies[k].missing);
  }

  lemma TallyMissing(shards: seq<ShardDir>, k: Key, w: Obligation, express: set<Name>, diagnostic: bool)
    requires AccountFor(shards, k, w, express, diagnostic)
    ensures k in TalliesOf(TablesOf(shards), diagnostic) && |RankOf(TablesOf(shards), k)| == |w.groups|
    ensures (TalliesOf(TablesOf(shards), diagnostic)[k].missing
             == Missing(RankOf(TablesOf(shards), k), w.groups, diagnostic))
  {
    InvocationExactly(shards, k, express, diagnostic);
    SomeoneOwes(shards, k);
    AgreeOn(shards, k, w, Reference(RankOf(TablesOf(shards), k)).value, express, diagnostic);
    PresentAt(shards, k);
    KeysSame(shards);
    assert k in KeysOf(shards);
  }

  lemma MissingExactly(shards: seq<ShardDir>, k: Key, w: Obligation, diagnostic: bool, n: Name)
    requires |RankOf(TablesOf(shards), k)| == |w.groups| == |shards| && AllStand(shards, k, w, diagnostic)
    ensures n in Missing(RankOf(TablesOf(shards), k), w.groups, diagnostic) <==> LeftUndone(shards, k, w, n)
  {
    var rows := RankOf(TablesOf(shards), k);
    MissingMembers(rows, w.groups, diagnostic, n);
    forall i: nat | i < |shards| ensures Absent(rows, i, diagnostic) <==> !Finished(shards[i], k) {
      AbsentExactly(shards, i, k, w, diagnostic);
    }
  }

  /** The losses an accepted audit reports are exactly the tests of shards that did not finish. */
  lemma LossesExactly(shards: seq<ShardDir>, k: Key, w: Obligation, express: set<Name>, diagnostic: bool,
                      report: Report, n: Name)
    requires AccountFor(shards, k, w, express, diagnostic)
    requires AddsUp(report, TalliesOf(TablesOf(shards), diagnostic))
    ensures k in report.missing && n in report.missing[k] <==> LeftUndone(shards, k, w, n)
  {
    TallyMissing(shards, k, w, express, diagnostic);
    MissingExactly(shards, k, w, diagnostic, n);
    ReportNames(TalliesOf(TablesOf(shards), diagnostic), report, k, n);
  }
}
