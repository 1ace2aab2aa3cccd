/**
The audit of a suite: the receipts of all shards together account for every
listed test of every invocation, exactly once. Its diagnostic form tolerates
lost work and names it.
*/
module Audit {
  import opened Catalog
  import opened Receipts
  import opened Proxy
  import P = Partition

  /** The receipts of one invocation, by shard. */
  type Rank = seq<Option<Row>>

  function Names(s: seq<Name>): set<Name> {
    set n | n in s
  }

  /** Work the shard owes and whose results cannot be used. */
  predicate Lost(row: Row) {
    && !row.valid
    && row.interrupted
    && row.what.share != []
    && row.reported.Keys <= Names(row.what.share)
  }

  /**
  A run cut short before its summary is lost work, never proof: its receipt
  is not valid, whatever it printed was its own, and nothing twice. So is an
  obligation nobody answered.
  */
  lemma CutShortIsLost(what: Obligation, lines: seq<Line>, code: int, tree: Option<Tree>, n: Name)
    requires what.share != []
    ensures Lost(Pending(what))
    ensures Final(what, lines, code, tree).interrupted ==> Lost(Final(what, lines, code, tree))
    ensures (Final(what, lines, code, tree).interrupted ==>
               forall i: nat :: Prints(lines, i, n) ==> n in what.share && PrintedOnlyAt(lines, i, n))
  {
    ReportedIsPrinted(lines, n);
  }

  predicate SameInvocation(a: Obligation, b: Obligation) {
    && a.args == b.args
    && a.identity == b.identity
    && a.listed == b.listed
    && a.groups == b.groups
    && a.pinned == b.pinned
    && a.carried == b.carried
  }

  /** What the audit asks of one shard's row. */
  predicate RowOk(row: Row, reference: Obligation, i: nat, diagnostic: bool)
    requires i < |reference.groups|
  {
    && SameInvocation(row.what, reference)
    && row.what.share == reference.groups[i]
    && (row.pending ==> diagnostic)
    && (row.valid || (diagnostic && Lost(row)))
    && row.reported.Keys <= Names(row.what.share)
    && ((diagnostic && Lost(row)) || row.reported.Keys == Names(row.what.share))
  }

  /** What it asks where a shard has no row. */
  predicate GapOk(reference: Obligation, i: nat)
    requires i < |reference.groups|
  {
    reference.pinned && i > 0 ==> reference.groups[i] == []
  }

  function Reference(rows: Rank): Option<Obligation> {
    if rows == [] then None
    else if rows[0].Some? then Some(rows[0].value.what)
    else Reference(rows[1..])
  }

  predicate AllPresent(rows: Rank, reference: Obligation, diagnostic: bool) {
    || diagnostic
    || (forall i :: 0 <= i < |rows| ==> rows[i].Some?)
    || (reference.pinned && rows != [] && rows[0].Some? && forall i :: 1 <= i < |rows| ==> rows[i].None?)
  }

  predicate ShardOk(rows: Rank, reference: Obligation, i: nat, diagnostic: bool)
    requires i < |rows| == |reference.groups|
  {
    if rows[i].None? then GapOk(reference, i) else RowOk(rows[i].value, reference, i, diagnostic)
  }

  /** No name is carried and run again; the groups and what is carried are the listing. */
  predicate UnionOk(reference: Obligation) {
    && (forall i, n :: 0 <= i < |reference.groups| && n in reference.groups[i] ==> n !in reference.carried)
    && P.Union(reference.groups) + multiset(reference.carried.Keys) == multiset(reference.listed)
  }

  predicate InvocationOk(rows: Rank, express: set<Name>, diagnostic: bool) {
    && Reference(rows).Some?
    && var reference := Reference(rows).value;
      && AllPresent(rows, reference, diagnostic)
      && |reference.groups| == |rows|
      && (forall i: nat :: i < |rows| ==> ShardOk(rows, reference, i, diagnostic))
      && UnionOk(reference)
      && P.ExpressOnZero(reference.groups, express)
  }

  // ---------- Counting ----------

  function CountIn(rows: Rank, status: Status): nat {
    if rows == [] then 0
    else
      var last := |rows| - 1;
      CountIn(rows[..last], status) + if rows[last].Some? then |Having(rows[last].value.reported, status)| else 0
  }

  predicate Absent(rows: Rank, i: nat, diagnostic: bool)
    requires i < |rows|
  {
    rows[i].None? || (diagnostic && Lost(rows[i].value))
  }

  /** The shares nothing usable came back for. */
  function Missing(rows: Rank, groups: seq<seq<Name>>, diagnostic: bool): seq<Name>
    requires |rows| <= |groups|
  {
    if rows == [] then []
    else
      var last := |rows| - 1;
      Missing(rows[..last], groups, diagnostic) + if Absent(rows, last, diagnostic) then groups[last] else []
  }

  /** The shares whose results count. */
  function Covered(rows: Rank, groups: seq<seq<Name>>, diagnostic: bool): seq<Name>
    requires |rows| <= |groups|
  {
    if rows == [] then []
    else
      var last := |rows| - 1;
      Covered(rows[..last], groups, diagnostic) + if Absent(rows, last, diagnostic) then [] else groups[last]
  }

  lemma {:induction false} UnionAppends(groups: seq<seq<Name>>, g: seq<Name>)
    ensures P.Union(groups + [g]) == P.Union(groups) + multiset(g)
  {
    if groups == [] {
      assert ([g])[1..] == [] && groups + [g] == [g];
    } else {
      assert (groups + [g])[1..] == groups[1..] + [g];
      UnionAppends(groups[1..], g);
    }
  }

  /** Every share is missing or covered. */
  lemma {:induction false} MissingOrCovered(rows: Rank, groups: seq<seq<Name>>, diagnostic: bool)
    requires |rows| <= |groups|
    ensures (multiset(Missing(rows, groups, diagnostic)) + multiset(Covered(rows, groups, diagnostic))
             == P.Union(groups[..|rows|]))
  {
    if rows != [] {
      var last := |rows| - 1;
      MissingOrCovered(rows[..last], groups, diagnostic);
      assert groups[..last + 1] == groups[..last] + [groups[last]];
      UnionAppends(groups[..last], groups[last]);
    }
  }

  // ---------- Exact loss ----------

  /** The three fates of a listed name, in the audit's own bookkeeping. */
  lemma Fates(rows: Rank, express: set<Name>, diagnostic: bool)
    requires InvocationOk(rows, express, diagnostic)
    ensures var reference := Reference(rows).value;
            multiset(Missing(rows, reference.groups, diagnostic))
            + multiset(Covered(rows, reference.groups, diagnostic))
            + multiset(reference.carried.Keys) == multiset(reference.listed)
  {
    var reference := Reference(rows).value;
    MissingOrCovered(rows, reference.groups, diagnostic);
    assert reference.groups[..|rows|] == reference.groups;
  }

  /** A test some valid receipt reports. */
  ghost predicate Proven(rows: Rank, n: Name) {
    exists i: nat :: i < |rows| && ReportedBy(rows, i, n)
  }

  ghost predicate ReportedBy(rows: Rank, i: nat, n: Name) {
    i < |rows| && rows[i].Some? && rows[i].value.valid && n in rows[i].value.reported
  }

  lemma {:induction false} CoveredMembers(rows: Rank, groups: seq<seq<Name>>, diagnostic: bool, n: Name)
    requires |rows| <= |groups|
    ensures (n in Covered(rows, groups, diagnostic)
             <==> exists i: nat :: i < |rows| && !Absent(rows, i, diagnostic) && n in groups[i])
  {
    if rows != [] {
      var last := |rows| - 1;
      CoveredMembers(rows[..last], groups, diagnostic, n);
      forall i: nat | i < last ensures Absent(rows[..last], i, diagnostic) == Absent(rows, i, diagnostic) {
      }
    }
  }

  lemma CoveredIsProven(rows: Rank, express: set<Name>, diagnostic: bool, n: Name)
    requires InvocationOk(rows, express, diagnostic)
    ensures n in Covered(rows, Reference(rows).value.groups, diagnostic) <==> Proven(rows, n)
  {
    var reference := Reference(rows).value;
    CoveredMembers(rows, reference.groups, diagnostic, n);
    forall i: nat | i < |rows|
      ensures (!Absent(rows, i, diagnostic) && n in reference.groups[i]) <==> ReportedBy(rows, i, n)
    {
      assert ShardOk(rows, reference, i, diagnostic);
    }
  }

  /**
  Each listed name is carried, or reported by a valid receipt, or missing, and
  never two of these; nothing else is any of them.
  */
  lemma LossIsExact(rows: Rank, express: set<Name>, diagnostic: bool, n: Name)
    requires InvocationOk(rows, express, diagnostic)
    requires P.NoDuplicates(Reference(rows).value.listed)
    ensures var reference := Reference(rows).value;
            var missing := n in Missing(rows, reference.groups, diagnostic);
            && (n in reference.listed <==> n in reference.carried || Proven(rows, n) || missing)
            && !(n in reference.carried && Proven(rows, n))
            && !(n in reference.carried && missing)
            && !(Proven(rows, n) && missing)
  {
    var reference := Reference(rows).value;
    Fates(rows, express, diagnostic);
    CoveredIsProven(rows, express, diagnostic, n);
    OnceEach(reference.listed, n);
    var missing, covered := Missing(rows, reference.groups, diagnostic), Covered(rows, reference.groups, diagnostic);
    var carried, listed := multiset(reference.carried.Keys), multiset(reference.listed);
    assert multiset(missing)[n] + multiset(covered)[n] + carried[n] == listed[n];
    assert n in missing <==> multiset(missing)[n] > 0;
    assert n in covered <==> multiset(covered)[n] > 0;
  }

  /** The strict audit leaves nothing missing. */
  lemma {:induction false} StrictMissesNothing(rows: Rank, groups: seq<seq<Name>>)
    requires |rows| <= |groups|
    requires forall i: nat :: i < |rows| && rows[i].None? ==> groups[i] == []
    ensures Missing(rows, groups, false) == []
  {
    if rows != [] {
      StrictMissesNothing(rows[..|rows| - 1], groups);
    }
  }

  lemma StrictGapsAreEmpty(rows: Rank, express: set<Name>)
    requires InvocationOk(rows, express, false)
    ensures Missing(rows, Reference(rows).value.groups, false) == []
  {
    var reference := Reference(rows).value;
    forall i: nat | i < |rows| && rows[i].None? ensures reference.groups[i] == [] {
      assert ShardOk(rows, reference, i, false);
    }
    StrictMissesNothing(rows, reference.groups);
  }

  // ---------- Conservation ----------

  lemma BothStatuses(reported: map<Name, Status>)
    ensures |Having(reported, Passed)| + |Having(reported, Failed)| == |reported|
  {
    assert Having(reported, Passed) + Having(reported, Failed) == reported.Keys;
    var passed, failed := Having(reported, Passed), Having(reported, Failed);
    assert |passed + failed| == |passed| + |failed|;
  }

  lemma {:induction false} DistinctCount(s: seq<Name>)
    requires P.NoDuplicates(s)
    ensures |Names(s)| == |s|
  {
    if s != [] {
      var last := |s| - 1;
      DistinctCount(s[..last]);
      assert s == s[..last] + [s[last]];
      assert Names(s) == Names(s[..last]) + {s[last]};
    }
  }

  /** In the strict audit the results are exactly as many as the covered names. */
  lemma {:induction false} ResultsCount(rows: Rank, groups: seq<seq<Name>>)
    requires |rows| <= |groups|
    requires forall i: nat :: i < |rows| && rows[i].Some? ==> rows[i].value.reported.Keys == Names(groups[i])
    requires forall i: nat :: i < |rows| ==> P.NoDuplicates(groups[i])
    ensures CountIn(rows, Passed) + CountIn(rows, Failed) == |Covered(rows, groups, false)|
  {
    if rows != [] {
      var last := |rows| - 1;
      ResultsCount(rows[..last], groups);
      if rows[last].Some? {
        BothStatuses(rows[last].value.reported);
        DistinctCount(groups[last]);
      }
    }
  }

  lemma {:induction false} GroupWithinUnion(groups: seq<seq<Name>>, i: nat, n: Name)
    requires i < |groups|
    ensures multiset(groups[i])[n] <= P.Union(groups)[n]
  {
    if i > 0 {
      GroupWithinUnion(groups[1..], i - 1, n);
    }
  }

  lemma SharesDistinct(reference: Obligation, i: nat)
    requires UnionOk(reference) && P.NoDuplicates(reference.listed) && i < |reference.groups|
    ensures P.NoDuplicates(reference.groups[i])
  {
    var g := reference.groups[i];
    forall a, b | 0 <= a < b < |g| ensures g[a] != g[b] {
      OnceEach(reference.listed, g[a]);
      GroupWithinUnion(reference.groups, i, g[a]);
      assert P.Union(reference.groups)[g[a]] <= multiset(reference.listed)[g[a]] by {
        assert (P.Union(reference.groups) + multiset(reference.carried.Keys))[g[a]] == multiset(reference.listed)[g[a]];
      }
      assert multiset(g)[g[a]] <= 1;
      TwiceCounts(g, a, b);
    }
  }

  lemma TwiceCounts(g: seq<Name>, a: nat, b: nat)
    requires a < b < |g|
    ensures g[a] == g[b] ==> multiset(g)[g[a]] >= 2
  {
    assert g == g[..a] + [g[a]] + g[a + 1..b] + [g[b]] + g[b + 1..];
  }

  /** Passed and failed add up to the listing. */
  lemma InvocationConserves(rows: Rank, express: set<Name>)
    requires InvocationOk(rows, express, false)
    requires P.NoDuplicates(Reference(rows).value.listed)
    ensures var reference := Reference(rows).value;
            CountIn(rows, Passed) + |reference.carried| + CountIn(rows, Failed) == |reference.listed|
  {
    var reference := Reference(rows).value;
    forall i: nat | i < |rows| ensures P.NoDuplicates(reference.groups[i]) {
      SharesDistinct(reference, i);
    }
    forall i: nat | i < |rows| && rows[i].Some? ensures rows[i].value.reported.Keys == Names(reference.groups[i]) {
      assert ShardOk(rows, reference, i, false);
    }
    ResultsCount(rows, reference.groups);
    StrictGapsAreEmpty(rows, express);
    Fates(rows, express, false);
    var covered := Covered(rows, reference.groups, false);
    assert |multiset(covered) + multiset(reference.carried.Keys)| == |covered| + |reference.carried|;
    assert multiset(Missing(rows, reference.groups, false)) == multiset{};
    assert multiset(covered) + multiset(reference.carried.Keys) == multiset(reference.listed);
    assert |multiset(reference.listed)| == |reference.listed|;
  }

  lemma {:induction false} TwoGroups(groups: seq<seq<Name>>, i: nat, j: nat, n: Name)
    requires i < j < |groups|
    ensures multiset(groups[i])[n] + multiset(groups[j])[n] <= P.Union(groups)[n]
  {
    if i > 0 {
      TwoGroups(groups[1..], i - 1, j - 1, n);
    } else {
      GroupWithinUnion(groups[1..], j - 1, n);
    }
  }

  lemma OneOwner(reference: Obligation, i: nat, j: nat, n: Name)
    requires UnionOk(reference) && P.NoDuplicates(reference.listed)
    requires i < j < |reference.groups| && n in reference.groups[i]
    ensures n !in reference.groups[j]
  {
    TwoGroups(reference.groups, i, j, n);
    OnceEach(reference.listed, n);
    assert (P.Union(reference.groups) + multiset(reference.carried.Keys))[n] == multiset(reference.listed)[n];
    assert n in multiset(reference.groups[i]);
    assert n in reference.groups[j] <==> multiset(reference.groups[j])[n] > 0;
  }

  /** A listed name is carried, or reported by the one shard it was assigned to and by no other. */
  lemma ReportedByItsShard(rows: Rank, express: set<Name>, n: Name)
    requires InvocationOk(rows, express, false)
    requires P.NoDuplicates(Reference(rows).value.listed) && n in Reference(rows).value.listed
    ensures var reference := Reference(rows).value;
            n in reference.carried
            <==> !exists i: nat :: ReportedBy(rows, i, n)
    ensures forall i: nat :: ReportedBy(rows, i, n) ==> n in Reference(rows).value.groups[i]
    ensures forall i: nat, j: nat :: ReportedBy(rows, i, n) && ReportedBy(rows, j, n) ==> i == j
  {
    var reference := Reference(rows).value;
    LossIsExact(rows, express, false, n);
    StrictGapsAreEmpty(rows, express);
    assert Proven(rows, n) <==> exists i: nat :: ReportedBy(rows, i, n);
    forall i: nat | ReportedBy(rows, i, n) ensures n in reference.groups[i] {
      assert ShardOk(rows, reference, i, false);
    }
    forall i: nat, j: nat | ReportedBy(rows, i, n) && ReportedBy(rows, j, n) ensures i == j {
      if i < j { OneOwner(reference, i, j, n); }
      if j < i { OneOwner(reference, j, i, n); }
    }
  }

  // ---------- The audit of one invocation ----------

  datatype Tally = Tally(passed: nat, failed: nat, carried: nat, missing: seq<Name>)

  /** What an accepted invocation contributes. */
  function TallyOf(rows: Rank, diagnostic: bool): Tally
    requires Reference(rows).Some? && |rows| <= |Reference(rows).value.groups|
  {
    var reference := Reference(rows).value;
    Tally(CountIn(rows, Passed) + |reference.carried|, CountIn(rows, Failed), |reference.carried|,
          Missing(rows, reference.groups, diagnostic))
  }

  method AuditInvocation(rows: Rank, express: set<Name>, diagnostic: bool) returns (r: Option<Tally>)
    ensures r.Some? <==> InvocationOk(rows, express, diagnostic)
    ensures r.Some? ==> r.value == TallyOf(rows, diagnostic)
  {
    if Reference(rows).None? { return None; }
    var reference := Reference(rows).value;
    if !AllPresent(rows, reference, diagnostic) || |reference.groups| != |rows| { return None; }
    var groups: seq<seq<Name>>, passed, failed, absent: seq<Name> := [], 0, 0, [];
    for i := 0 to |rows|
      invariant groups == reference.groups[..i]
      invariant forall j: nat :: j < i ==> ShardOk(rows, reference, j, diagnostic)
      invariant passed == CountIn(rows[..i], Passed) && failed == CountIn(rows[..i], Failed)
      invariant absent == Missing(rows[..i], reference.groups, diagnostic)
    {
      assert rows[..i + 1][..i] == rows[..i];
      if rows[i].None? {
        assert ShardOk(rows, reference, i, diagnostic) == GapOk(reference, i);
        if !GapOk(reference, i) { return None; }
        groups := groups + [reference.groups[i]];
        absent := absent + reference.groups[i];
      } else {
        var row := rows[i].value;
        assert ShardOk(rows, reference, i, diagnostic) == RowOk(row, reference, i, diagnostic);
        if !RowOk(row, reference, i, diagnostic) { return None; }
        groups := groups + [row.what.share];
        if diagnostic && Lost(row) {
          absent := absent + row.what.share;
        }
        passed := passed + |Having(row.reported, Passed)|;
        failed := failed + |Having(row.reported, Failed)|;
      }
    }
    assert groups == reference.groups && rows[..|rows|] == rows;
    if exists i, n :: 0 <= i < |groups| && n in groups[i] && n in reference.carried { return None; }
    if P.Union(groups) + multiset(reference.carried.Keys) != multiset(reference.listed) { return None; }
    if !P.ExpressOnZero(groups, express) { return None; }
    r := Some(Tally(passed + |reference.carried|, failed, |reference.carried|, absent));
  }

  // ---------- The audit of a suite ----------

  type Tables = seq<map<Key, Row>>

  function AllKeys(tables: Tables): set<Key> {
    set i, k | 0 <= i < |tables| && k in tables[i] :: k
  }

  function RankOf(tables: Tables, key: Key): Rank {
    seq(|tables|, i requires 0 <= i < |tables| => if key in tables[i] then Some(tables[i][key]) else None)
  }

  predicate AnyCarried(tables: Tables) {
    exists i, k :: 0 <= i < |tables| && k in tables[i] && tables[i][k].what.carried != map[]
  }

  predicate HasWork(table: map<Key, Row>, resumed: bool) {
    if resumed then table != map[] else exists k :: k in table && table[k].what.share != []
  }

  /** No shard came out of the suite empty-handed, and none has more or fewer invocations than it should. */
  predicate ShardsOk(tables: Tables, invocations: Option<nat>, diagnostic: bool) {
    && (invocations.Some? ==> forall i :: 0 <= i < |tables| ==> |tables[i]| == invocations.value)
    && ((diagnostic && exists i :: 0 <= i < |tables| && tables[i] != map[])
        || forall i :: 0 <= i < |tables| ==> HasWork(tables[i], AnyCarried(tables)))
  }

  predicate KeyOk(tables: Tables, express: set<Name>, diagnostic: bool, key: Key) {
    InvocationOk(RankOf(tables, key), express, diagnostic)
  }

  predicate AllKeysOk(tables: Tables, express: set<Name>, diagnostic: bool) {
    forall key :: key in AllKeys(tables) ==> KeyOk(tables, express, diagnostic, key)
  }

  predicate SuiteOk(tables: Tables, invocations: Option<nat>, express: set<Name>, diagnostic: bool) {
    ShardsOk(tables, invocations, diagnostic) && AllKeysOk(tables, express, diagnostic)
  }

  datatype Report = Report(passed: nat, failed: nat, carried: nat, missing: map<Key, seq<Name>>)

  ghost function Sum(keys: set<Key>, f: Key -> nat): nat {
    if keys == {} then 0 else
      var k :| k in keys;
      f(k) + Sum(keys - {k}, f)
  }

  lemma {:induction false} SumTakes(keys: set<Key>, f: Key -> nat, k: Key)
    requires k in keys
    ensures Sum(keys, f) == f(k) + Sum(keys - {k}, f)
  {
    var first :| first in keys && Sum(keys, f) == f(first) + Sum(keys - {first}, f);
    if first != k {
      SumTakes(keys - {first}, f, k);
      SumTakes(keys - {k}, f, first);
      assert keys - {first} - {k} == keys - {k} - {first};
    }
  }

  lemma {:induction false} SumsAdd(keys: set<Key>, f: Key -> nat, g: Key -> nat, h: Key -> nat)
    requires forall k :: k in keys ==> f(k) + g(k) == h(k)
    ensures Sum(keys, f) + Sum(keys, g) == Sum(keys, h)
    decreases keys
  {
    if keys != {} {
      var k :| k in keys;
      SumTakes(keys, f, k);
      SumTakes(keys, g, k);
      SumTakes(keys, h, k);
      SumsAdd(keys - {k}, f, g, h);
    }
  }

  /** What an invocation contributes to the suite. */
  function TallyAt(tables: Tables, diagnostic: bool, key: Key): Tally {
    var rows := RankOf(tables, key);
    if Reference(rows).Some? && |rows| <= |Reference(rows).value.groups| then TallyOf(rows, diagnostic)
    else Tally(0, 0, 0, [])
  }

  ghost function ListedAt(tables: Tables): Key -> nat {
    k => if Reference(RankOf(tables, k)).Some? then |Reference(RankOf(tables, k)).value.listed| else 0
  }

  method AuditKey(tables: Tables, express: set<Name>, diagnostic: bool, key: Key) returns (t: Option<Tally>)
    ensures t.Some? <==> KeyOk(tables, express, diagnostic, key)
    ensures t.Some? ==> t.value == TallyAt(tables, diagnostic, key)
  {
    t := AuditInvocation(RankOf(tables, key), express, diagnostic);
  }

  method AuditKeys(tables: Tables, express: set<Name>, diagnostic: bool) returns (r: Option<map<Key, Tally>>)
    ensures r.Some? <==> AllKeysOk(tables, express, diagnostic)
    ensures r.Some? ==> r.value == TalliesOf(tables, diagnostic)
  {
    var all := AllKeys(tables);
    var keys, tallies: map<Key, Tally> := all, map[];
    while keys != {}
      invariant keys <= all && tallies.Keys == all - keys
      invariant forall k :: k in tallies ==> KeyOk(tables, express, diagnostic, k)
      invariant forall k :: k in tallies ==> tallies[k] == TallyAt(tables, diagnostic, k)
      decreases keys
    {
      var key :| key in keys;
      var tally := AuditKey(tables, express, diagnostic, key);
      if tally.None? { return None; }
      tallies := tallies[key := tally.value];
      keys := keys - {key};
    }
    r := Some(tallies);
  }

  ghost function PassedIn(tallies: map<Key, Tally>): Key -> nat {
    k => if k in tallies then tallies[k].passed else 0
  }

  ghost function FailedIn(tallies: map<Key, Tally>): Key -> nat {
    k => if k in tallies then tallies[k].failed else 0
  }

  ghost function CarriedBy(tallies: map<Key, Tally>): Key -> nat {
    k => if k in tallies then tallies[k].carried else 0
  }

  /** The report adds up the invocations and names the losses of each. */
  ghost predicate AddsUp(report: Report, tallies: map<Key, Tally>) {
    && report.passed == Sum(tallies.Keys, PassedIn(tallies))
    && report.failed == Sum(tallies.Keys, FailedIn(tallies))
    && report.carried == Sum(tallies.Keys, CarriedBy(tallies))
    && report.missing.Keys <= tallies.Keys
    && (forall k :: k in tallies ==> (k in report.missing <==> tallies[k].missing != []))
    && (forall k :: k in report.missing ==> report.missing[k] == P.Sorted(tallies[k].missing))
  }

  method Totals(tallies: map<Key, Tally>) returns (report: Report)
    ensures AddsUp(report, tallies)
  {
    report := Report(0, 0, 0, map[]);
    var keys := tallies.Keys;
    while keys != {}
      invariant keys <= tallies.Keys
      invariant report.passed + Sum(keys, PassedIn(tallies)) == Sum(tallies.Keys, PassedIn(tallies))
      invariant report.failed + Sum(keys, FailedIn(tallies)) == Sum(tallies.Keys, FailedIn(tallies))
      invariant report.carried + Sum(keys, CarriedBy(tallies)) == Sum(tallies.Keys, CarriedBy(tallies))
      invariant report.missing.Keys <= tallies.Keys - keys
      invariant forall k :: k in tallies && k !in keys ==> (k in report.missing <==> tallies[k].missing != [])
      invariant forall k :: k in report.missing ==> report.missing[k] == P.Sorted(tallies[k].missing)
      decreases keys
    {
      var key :| key in keys;
      SumTakes(keys, PassedIn(tallies), key);
      SumTakes(keys, FailedIn(tallies), key);
      SumTakes(keys, CarriedBy(tallies), key);
      var t := tallies[key];
      var missing := if t.missing == [] then report.missing else report.missing[key := P.Sorted(t.missing)];
      report := Report(report.passed + t.passed, report.failed + t.failed, report.carried + t.carried, missing);
      keys := keys - {key};
    }
  }

  function TalliesOf(tables: Tables, diagnostic: bool): map<Key, Tally> {
    map k | k in AllKeys(tables) :: TallyAt(tables, diagnostic, k)
  }

  method AuditTables(tables: Tables, invocations: Option<nat>, express: set<Name>, diagnostic: bool)
      returns (r: Option<Report>)
    ensures r.Some? <==> SuiteOk(tables, invocations, express, diagnostic)
    ensures r.Some? ==> AddsUp(r.value, TalliesOf(tables, diagnostic))
  {
    var fair := ShardsOk(tables, invocations, diagnostic);
    if !fair { return None; }
    var tallies := AuditKeys(tables, express, diagnostic);
    if tallies.None? { return None; }
    var report := Totals(tallies.value);
    r := Some(report);
  }

  method ReadAll(shards: seq<ShardDir>) returns (tables: Option<Tables>)
    ensures tables.Some? <==> AllAgree(shards)
    ensures tables.Some? ==> tables.value == TablesOf(shards)
  {
    var read: Tables := [];
    for i := 0 to |shards|
      invariant |read| == i
      invariant forall j :: 0 <= j < i ==> Agrees(shards[j]) && read[j] == Rows(shards[j])
    {
      var rows := ReadShard(shards[i]);
      if rows.None? { return None; }
      read := read + [rows.value];
    }
    tables := Some(read);
  }

  predicate AllAgree(shards: seq<ShardDir>) {
    forall i :: 0 <= i < |shards| ==> Agrees(shards[i])
  }

  /** Reads every shard and audits them together. */
  method AuditSuite(shards: seq<ShardDir>, invocations: Option<nat>, express: set<Name>, diagnostic: bool)
      returns (r: Option<Report>)
    ensures r.Some? <==> AllAgree(shards) && SuiteOk(TablesOf(shards), invocations, express, diagnostic)
    ensures r.Some? ==> AddsUp(r.value, TalliesOf(TablesOf(shards), diagnostic))
  {
    var tables := ReadAll(shards);
    if tables.None? { return None; }
    r := AuditTables(tables.value, invocations, express, diagnostic);
  }

  function TablesOf(shards: seq<ShardDir>): Tables {
    seq(|shards|, i requires 0 <= i < |shards| => Rows(shards[i]))
  }

  /** Every listed test of the suite passed or failed, once: the counts add up to the listings. */
  lemma AuditConserves(tables: Tables, express: set<Name>, report: Report)
    requires AllKeysOk(tables, express, false)
    requires AddsUp(report, TalliesOf(tables, false))
    requires DistinctListings(tables)
    ensures report.passed + report.failed == Sum(TalliesOf(tables, false).Keys, ListedAt(tables))
    ensures report.missing == map[]
  {
    AllConserved(tables, express);
    AddsUpTo(report, TalliesOf(tables, false), ListedAt(tables));
  }

  lemma AllConserved(tables: Tables, express: set<Name>)
    requires AllKeysOk(tables, express, false) && DistinctListings(tables)
    ensures Conserved(TalliesOf(tables, false), ListedAt(tables))
  {
    forall k | k in AllKeys(tables)
      ensures var t := TallyAt(tables, false, k); t.passed + t.failed == ListedAt(tables)(k) && t.missing == []
    {
      KeyConserves(tables, express, k);
    }
  }

  ghost predicate Conserved(tallies: map<Key, Tally>, listed: Key -> nat) {
    forall k :: k in tallies ==> tallies[k].passed + tallies[k].failed == listed(k) && tallies[k].missing == []
  }

  lemma AddsUpTo(report: Report, tallies: map<Key, Tally>, listed: Key -> nat)
    requires AddsUp(report, tallies) && Conserved(tallies, listed)
    ensures report.passed + report.failed == Sum(tallies.Keys, listed)
    ensures report.missing == map[]
  {
    SumsAdd(tallies.Keys, PassedIn(tallies), FailedIn(tallies), listed);
  }

  /** The test runner lists no test twice. */
  ghost predicate DistinctListings(tables: Tables) {
    forall i, k :: 0 <= i < |tables| && k in tables[i] ==> P.NoDuplicates(tables[i][k].what.listed)
  }

  lemma KeyConserves(tables: Tables, express: set<Name>, k: Key)
    requires KeyOk(tables, express, false, k)
    requires DistinctListings(tables)
    ensures TallyAt(tables, false, k).passed + TallyAt(tables, false, k).failed == ListedAt(tables)(k)
    ensures TallyAt(tables, false, k).missing == []
  {
    ReferenceIsARow(RankOf(tables, k));
    InvocationConserves(RankOf(tables, k), express);
    StrictGapsAreEmpty(RankOf(tables, k), express);
  }

  lemma {:induction false} ReferenceIsARow(rows: Rank)
    ensures (Reference(rows).Some? ==>
               exists i: nat :: i < |rows| && rows[i].Some? && rows[i].value.what == Reference(rows).value)
    ensures Reference(rows).None? ==> forall i: nat :: i < |rows| ==> rows[i].None?
  {
    if rows != [] && rows[0].None? {
      ReferenceIsARow(rows[1..]);
      if Reference(rows).Some? {
        var i: nat :| i < |rows[1..]| && rows[1..][i].Some? && rows[1..][i].value.what == Reference(rows).value;
        assert rows[i + 1] == rows[1..][i];
      } else {
        forall i: nat | i < |rows| ensures rows[i].None? {
          if i > 0 { assert rows[i] == rows[1..][i - 1]; }
        }
      }
    }
  }

  /** What the strict audit accepts, the diagnostic one accepts too, with nothing missing. */
  lemma StrictImpliesDiagnostic(rows: Rank, express: set<Name>)
    requires InvocationOk(rows, express, false)
    ensures InvocationOk(rows, express, true)
    ensures Missing(rows, Reference(rows).value.groups, true) == []
  {
    var reference := Reference(rows).value;
    forall i: nat | i < |rows|
      ensures ShardOk(rows, reference, i, true)
      ensures if rows[i].None? then reference.groups[i] == [] else rows[i].value.valid
    {
      assert ShardOk(rows, reference, i, false);
    }
    NothingLost(rows, reference.groups);
  }

  lemma {:induction false} NothingLost(rows: Rank, groups: seq<seq<Name>>)
    requires |rows| <= |groups|
    requires forall i: nat :: i < |rows| ==> if rows[i].None? then groups[i] == [] else rows[i].value.valid
    ensures Missing(rows, groups, true) == []
  {
    if rows != [] {
      NothingLost(rows[..|rows| - 1], groups);
    }
  }
}
