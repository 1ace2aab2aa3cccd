/**
Chains of gate runs, each resuming the one before. Nothing counts as passed
unless a run of the same head passed it and no later run ran it again, and
failures add up against one budget.
*/
module Chain {
  import opened Catalog
  import opened Receipts
  import opened Proxy
  import opened Audit
  import opened Resume
  import P = Partition

  // ---------- Runs ----------

  /** What a run tells the proxies of one shard. */
  function EnvOf(out: Output, m: Manifest, s: Suite, i: nat, express: set<Name>): Env
    requires s in out.shards
  {
    Env(s, i, |out.shards[s]|, m.tree, m.inputs, if m.resumedFrom.Some? then out.snapshot else None,
        out.mode, express)
  }

  /** Every shard directory was written by the run's own proxies, each of them stopped anywhere. */
  ghost predicate HonestRun(out: Output, express: set<Name>) {
    && out.manifest.Some?
    && (forall s :: s in out.shards ==> s in out.manifest.value.suites)
    && (forall s, i: nat :: s in out.shards && i < |out.shards[s]|
          ==> Honest(EnvOf(out, out.manifest.value, s, i, express), out.shards[s][i]))
  }

  /** A run that resumes nothing. */
  ghost predicate Fresh(out: Output) {
    && out.manifest.Some?
    && out.manifest.value.resumedFrom.None?
    && out.manifest.value.failed == map[]
    && out.manifest.value.targeted == {}
  }

  function Given(prev: Output, q: Request): Origin
    requires prev.manifest.Some?
  {
    OriginOf(prev, prev.manifest.value, q, ReadOf(prev, q))
  }

  /** A run started from an accepted resume of the one before. */
  ghost predicate Continues(prev: Output, q: Request, next: Output) {
    && Accepts(prev, q)
    && next.manifest.Some?
    && var o, m := Given(prev, q), next.manifest.value;
      var snapshot := Snapshot(o.run, q.tree, q.inputs, o.proven);
      && next.snapshot == Some(snapshot)
      && m.resumedFrom == Some(Link(o.run, q.digest(snapshot)))
      && m.tree == q.tree
      && m.inputs == q.inputs
      && m.suites == q.suites
      && m.failed == o.failures
      && m.targeted == o.targeted
  }

  ghost predicate AllHonest(outs: seq<Output>, express: set<Name>) {
    forall i :: 0 <= i < |outs| ==> HonestRun(outs[i], express)
  }

  ghost predicate Linked(outs: seq<Output>, asks: seq<Request>) {
    && |outs| == |asks| + 1
    && forall i :: 0 <= i < |asks| ==> Continues(outs[i], asks[i], outs[i + 1])
  }

  ghost predicate IsChain(outs: seq<Output>, asks: seq<Request>, express: set<Name>) {
    Linked(outs, asks) && Fresh(outs[0]) && AllHonest(outs, express)
  }

  /** Starts a run that resumes nothing: a chain of its own, whatever its proxies then do. */
  method Begin(q: Request, run: RunId, mode: P.Mode, express: set<Name>) returns (out: Output)
    ensures IsChain([out], [], express)
    ensures forall p, n :: Count(HistoryAt(out.manifest.value, p), n) == 0 && p !in Inherited(out)
  {
    out := Output(Some(Manifest(run, q.suites, q.tree, q.inputs, map[], None, {})), None, mode, map[], false);
  }

  /**
  Starts a run from an accepted resume. The snapshot is written before the
  manifest that names it, so what a kill in between leaves has no manifest.
  */
  method Continue(prev: Output, q: Request, run: RunId, mode: P.Mode, express: set<Name>)
      returns (out: Option<Output>, ghost killed: seq<Output>)
    ensures out.Some? <==> Accepts(prev, q)
    ensures out.Some? ==> Continues(prev, q, out.value) && HonestRun(out.value, express)
    ensures out.Some? ==> out.value.manifest.value.run == run
    ensures forall i :: 0 <= i < |killed| ==> killed[i].manifest.None?
  {
    var origin := LoadResume(prev, q);
    if origin.None? { return None, []; }
    var o := origin.value;
    var snapshot := Snapshot(o.run, q.tree, q.inputs, o.proven);
    var empty := Output(None, None, mode, map[], false);
    var written := empty.(snapshot := Some(snapshot));
    killed := [empty, written];
    out := Some(written.(manifest := Some(Manifest(run, q.suites, q.tree, q.inputs, o.failures,
                                                   Some(Link(o.run, q.digest(snapshot))), o.targeted))));
  }

  lemma LinkedGrows(outs: seq<Output>, asks: seq<Request>, q: Request, next: Output)
    requires Linked(outs, asks) && Continues(outs[|outs| - 1], q, next)
    ensures Linked(outs + [next], asks + [q])
  {
    var longer, more := outs + [next], asks + [q];
    forall i | 0 <= i < |more| ensures Continues(longer[i], more[i], longer[i + 1]) {
      if i < |asks| {
        assert longer[i] == outs[i] && longer[i + 1] == outs[i + 1] && more[i] == asks[i];
      }
    }
  }

  lemma HonestGrow(outs: seq<Output>, express: set<Name>, next: Output)
    requires AllHonest(outs, express) && HonestRun(next, express)
    ensures AllHonest(outs + [next], express)
  {
    var longer := outs + [next];
    forall i | 0 <= i < |longer| ensures HonestRun(longer[i], express) {
      if i < |outs| { assert longer[i] == outs[i]; }
    }
  }

  /**
  A run continued from the last run of a chain makes the chain longer,
  whatever its own proxies do and wherever they are killed.
  */
  lemma ChainGrows(outs: seq<Output>, asks: seq<Request>, express: set<Name>, q: Request, next: Output)
    requires IsChain(outs, asks, express) && Continues(outs[|outs| - 1], q, next) && HonestRun(next, express)
    ensures IsChain(outs + [next], asks + [q], express)
  {
    LinkedGrows(outs, asks, q, next);
    HonestGrow(outs, express, next);
    assert (outs + [next])[0] == outs[0];
  }

  /** What a run was started from is settled; what its proxies write after that keeps the chain. */
  lemma WritesKeepContinues(prev: Output, q: Request, next: Output, later: Output)
    requires Continues(prev, q, next) && later.manifest == next.manifest && later.snapshot == next.snapshot
    ensures Continues(prev, q, later)
  {
  }

  /** A continued run inherits what the resume proved, and says which run that was. */
  lemma ContinuesInherit(prev: Output, q: Request, next: Output)
    requires Continues(prev, q, next)
    ensures Inherited(next) == Given(prev, q).proven
    ensures next.manifest.value.resumedFrom.Some?
    ensures next.manifest.value.resumedFrom.value.run == prev.manifest.value.run
    ensures next.manifest.value.failed == Given(prev, q).failures
    ensures next.manifest.value.targeted == Given(prev, q).targeted
  {
  }

  /** Its snapshot is sealed: exchanged for one with another digest, or gone, it makes every resume be refused. */
  lemma SnapshotIsSealed(prev: Output, q: Request, next: Output, edited: Output, q': Request)
    requires Continues(prev, q, next) && q'.digest == q.digest
    requires edited == next.(snapshot := edited.snapshot)
    requires edited.snapshot.Some? ==> q.digest(edited.snapshot.value) != q.digest(next.snapshot.value)
    ensures !Accepts(edited, q')
  {
  }

  /** And a run without a manifest can never be resumed. */
  lemma NoManifestNoResume(out: Output, q: Request)
    requires out.manifest.None?
    ensures !Accepts(out, q)
  {
  }

  lemma ChainPrefix(outs: seq<Output>, asks: seq<Request>, express: set<Name>)
    requires IsChain(outs, asks, express) && asks != []
    ensures IsChain(outs[..|outs| - 1], asks[..|asks| - 1], express)
    ensures Continues(outs[|outs| - 2], asks[|asks| - 1], outs[|outs| - 1])
  {
    var n := |asks| - 1;
    assert outs[..|outs| - 1][n] == outs[n];
  }

  // ---------- Rows of an honest run ----------

  lemma HonestRow(env: Env, d: ShardDir, k: Key)
    requires Honest(env, d) && k in Rows(d)
    ensures Owed(env, k, Rows(d)[k].what)
    ensures Rows(d)[k].valid ==> Rows(d)[k].reported.Keys == Names(Rows(d)[k].what.share)
  {
    assert k in d.expected && Owed(env, k, d.expected[k]);
    if k in d.receipts {
      var row, what := d.receipts[k], d.expected[k];
      assert Answers(env, row, what);
      assert row.what.share == what.share;
    }
  }

  /** Shard `i` of the invocation was given the test. */
  ghost predicate GivenTo(rows: Rank, i: nat, n: Name) {
    i < |rows| && rows[i].Some? && n in rows[i].value.what.share
  }

  /** Some shard of the run was given the test in this invocation. */
  ghost predicate Assigned(out: Output, p: Place, n: Name) {
    exists i: nat :: GivenTo(RowsAt(out, p), i, n)
  }

  /** What is carried is not in any group. */
  lemma CarriedNotOwed(env: Env, k: Key, what: Obligation, n: Name, j: nat)
    requires Owed(env, k, what) && n in what.carried && j < |what.groups|
    ensures n !in what.groups[j] && n in what.listed
  {
    OnceEach(what.listed, n);
    GroupWithinUnion(what.groups, j, n);
    assert (P.Union(what.groups) + multiset(what.carried.Keys))[n] == multiset(what.listed)[n];
    assert n in what.groups[j] <==> multiset(what.groups[j])[n] > 0;
  }

  /** The environment of the shard a row belongs to. */
  lemma RowOwed(out: Output, express: set<Name>, p: Place, i: nat)
    requires HonestRun(out, express) && i < |RowsAt(out, p)| && RowsAt(out, p)[i].Some?
    ensures p.0 in out.shards
    ensures Owed(EnvOf(out, out.manifest.value, p.0, i, express), p.1, RowsAt(out, p)[i].value.what)
    ensures var row := RowsAt(out, p)[i].value;
            row.valid ==> row.reported.Keys == Names(row.what.share)
  {
    HonestRow(EnvOf(out, out.manifest.value, p.0, i, express), out.shards[p.0][i], p.1);
  }

  // ---------- What is proven was passed ----------

  /** What the shard carried is what the run's snapshot gives for its listing. */
  lemma RowCarried(out: Output, express: set<Name>, p: Place, i: nat)
    requires HonestRun(out, express) && i < |RowsAt(out, p)| && RowsAt(out, p)[i].Some?
    ensures var what := RowsAt(out, p)[i].value.what;
            var m := out.manifest.value;
            Resumed(if m.resumedFrom.Some? then out.snapshot else None, p, what.listed) == Some(what.carried)
            && P.NoDuplicates(what.listed)
  {
    RowOwed(out, express, p, i);
  }

  /** A valid receipt of a pass of an assigned test, for this head and these inputs. */
  ghost predicate PassedWith(rows: Rank, i: nat, n: Name, tree: Option<Tree>, inputs: Option<Inputs>) {
    && PassedBy(rows, i, n)
    && GivenTo(rows, i, n)
    && rows[i].value.what.tree == tree
    && rows[i].value.what.inputs == inputs
  }

  ghost predicate PassedIn(out: Output, p: Place, n: Name, tree: Option<Tree>, inputs: Option<Inputs>) {
    exists i: nat :: PassedWith(RowsAt(out, p), i, n, tree, inputs)
  }

  ghost predicate NotAssignedAfter(outs: seq<Output>, p: Place, n: Name, i: nat) {
    forall j: nat :: i < j < |outs| ==> !Assigned(outs[j], p, n)
  }

  /** Run `i` of the chain is the one that passed the test, and none ran it after. */
  ghost predicate ProvenAt(outs: seq<Output>, p: Place, n: Name, i: nat, run: RunId, tree: Option<Tree>,
                           inputs: Option<Inputs>)
  {
    && i < |outs|
    && outs[i].manifest.Some?
    && outs[i].manifest.value.run == run
    && outs[i].manifest.value.tree == tree
    && outs[i].manifest.value.inputs == inputs
    && PassedIn(outs[i], p, n, tree, inputs)
    && FailCount(RowsAt(outs[i], p), n) == 0
    && NotAssignedAfter(outs, p, n, i)
  }

  lemma PassesHere(out: Output, express: set<Name>, q: Request, p: Place, n: Name)
    requires HonestRun(out, express) && ConsistentAt(out, q, p) && Passes(RowsAt(out, p), n)
    ensures PassedIn(out, p, n, q.tree, q.inputs)
  {
    var rows := RowsAt(out, p);
    var i: nat :| i < |rows| && PassedBy(rows, i, n);
    RowOwed(out, express, p, i);
    assert SameHead(rows[i].value.what, Reference(rows).value, q.tree, q.inputs);
    assert n in rows[i].value.reported;
    assert PassedWith(rows, i, n, q.tree, q.inputs);
  }

  lemma CarriedNotAssigned(out: Output, express: set<Name>, q: Request, p: Place, n: Name)
    requires HonestRun(out, express) && ConsistentAt(out, q, p) && n in Reference(RowsAt(out, p)).value.carried
    ensures !Assigned(out, p, n)
  {
    var rows := RowsAt(out, p);
    forall i: nat | i < |rows| && rows[i].Some? ensures n !in rows[i].value.what.share {
      RowOwed(out, express, p, i);
      assert SameHead(rows[i].value.what, Reference(rows).value, q.tree, q.inputs);
      CarriedNotOwed(EnvOf(out, out.manifest.value, p.0, i, express), p.1, rows[i].value.what, n, i);
    }
  }

  lemma UnreachedNotAssigned(out: Output, p: Place, n: Name)
    requires Reference(RowsAt(out, p)).None?
    ensures !Assigned(out, p, n)
  {
    ReferenceIsARow(RowsAt(out, p));
  }

  lemma ProvenSuite(prev: Output, q: Request, p: Place)
    requires Accepts(prev, q) && p in Given(prev, q).proven
    ensures p.0 in q.suites
  {
    ReachedExactly(prev, q.suites, p);
  }

  lemma OneMoreRun(outs: seq<Output>, p: Place, n: Name, i: nat, run: RunId, tree: Option<Tree>, inputs: Option<Inputs>)
    requires outs != [] && ProvenAt(outs[..|outs| - 1], p, n, i, run, tree, inputs)
    requires !Assigned(outs[|outs| - 1], p, n)
    ensures ProvenAt(outs, p, n, i, run, tree, inputs)
  {
    var last := |outs| - 1;
    forall j: nat | i < j < |outs| ensures !Assigned(outs[j], p, n) {
      assert j < last ==> outs[..last][j] == outs[j];
    }
  }

  /** A name the last run was given: carried from the run before, or passed by it. */
  lemma ProvenStep(out: Output, express: set<Name>, q: Request, p: Place, n: Name)
    requires HonestRun(out, express) && Accepts(out, q)
    requires p in Given(out, q).proven && n in Given(out, q).proven[p].ok
    ensures || (&& PassedIn(out, p, n, q.tree, q.inputs)
                && FailCount(RowsAt(out, p), n) == 0
                && Given(out, q).proven[p].ok[n] == Proof(out.manifest.value.run))
            || (&& !Assigned(out, p, n)
                && p in Inherited(out) && n in Inherited(out)[p].ok
                && Given(out, q).proven[p].ok[n] == Inherited(out)[p].ok[n])
  {
    ProvenSuite(out, q, p);
    var rows := RowsAt(out, p);
    if Reference(rows).None? {
      AcceptedUnreached(out, q, p);
      UnreachedNotAssigned(out, p, n);
    } else {
      AcceptedReached(out, q, p);
      if Passes(rows, n) {
        PassesHere(out, express, q, p, n);
      } else {
        CarriedNotAssigned(out, express, q, p, n);
      }
    }
  }

  /** Every proof an accepted resume of a chain hands on is a pass of the run it names. */
  lemma {:induction false} ProvenSound(outs: seq<Output>, asks: seq<Request>, express: set<Name>, q: Request, p: Place,
                                       n: Name)
      returns (i: nat)
    requires IsChain(outs, asks, express) && Accepts(outs[|outs| - 1], q)
    requires p in Given(outs[|outs| - 1], q).proven && n in Given(outs[|outs| - 1], q).proven[p].ok
    ensures ProvenAt(outs, p, n, i, Given(outs[|outs| - 1], q).proven[p].ok[n].run, q.tree, q.inputs)
    decreases |outs|, 1
  {
    var last := |outs| - 1;
    var out := outs[last];
    ProvenStep(out, express, q, p, n);
    if PassedIn(out, p, n, q.tree, q.inputs) && FailCount(RowsAt(out, p), n) == 0
       && Given(out, q).proven[p].ok[n] == Proof(out.manifest.value.run) {
      i := last;
    } else {
      i := InheritedSound(outs, asks, express, p, n);
    }
  }

  /** Two shards with the same split do not share a test. */
  lemma OwedApart(env: Env, k: Key, what: Obligation, i: nat, j: nat, n: Name)
    requires Owed(env, k, what) && i < |what.groups| && j < |what.groups|
    requires n in what.groups[i] && n in what.groups[j]
    ensures i == j
  {
    OnceEach(what.listed, n);
    assert (P.Union(what.groups) + multiset(what.carried.Keys))[n] == multiset(what.listed)[n];
    assert multiset(what.groups[i])[n] > 0 && multiset(what.groups[j])[n] > 0;
    if i < j { TwoGroups(what.groups, i, j, n); }
    if j < i { TwoGroups(what.groups, j, i, n); }
  }

  ghost predicate SameSplit(rows: Rank, i: nat) {
    && i < |rows|
    && rows[i].Some?
    && forall j :: 0 <= j < |rows| && rows[j].Some? ==> rows[j].value.what.groups == rows[i].value.what.groups
  }

  /** The shards run the invocation under one identity and one pinning. */
  ghost predicate SameCall(rows: Rank, i: nat) {
    && i < |rows|
    && rows[i].Some?
    && (forall j :: 0 <= j < |rows| && rows[j].Some? ==>
          && rows[j].value.what.identity == rows[i].value.what.identity
          && rows[j].value.what.pinned == rows[i].value.what.pinned)
  }

  /** Obligations for the same listing in another order, with the same names carried, have one split. */
  lemma OwedSplits(a: Env, b: Env, k: Key, l: Key, x: Obligation, y: Obligation)
    requires Owed(a, k, x) && Owed(b, l, y)
    requires a.count == b.count && a.mode == b.mode && a.express == b.express
    requires x.identity == y.identity && x.pinned == y.pinned
    requires multiset(x.listed) == multiset(y.listed) && x.carried == y.carried
    ensures x.groups == y.groups
  {
    P.KeepPermutes(x.listed, y.listed, n => n !in x.carried);
    assert Rest(x.listed, x.carried) == P.Keep(x.listed, n => n !in x.carried);
    P.GroupsPermute(Rest(x.listed, x.carried), Rest(y.listed, y.carried), a.count, x.identity, ModeOf(a, x.pinned),
                    a.express);
  }

  /** The rows of a resumable run were split alike: each shard computed the split on its own listing. */
  lemma ShardsSplitAlike(out: Output, express: set<Name>, q: Request, p: Place, i: nat)
    requires HonestRun(out, express) && ConsistentAt(out, q, p) && SameCall(RowsAt(out, p), i)
    ensures SameSplit(RowsAt(out, p), i)
  {
    var rows, m := RowsAt(out, p), out.manifest.value;
    var first := Reference(rows).value;
    forall j: nat | j < |rows| && rows[j].Some? ensures rows[j].value.what.groups == rows[i].value.what.groups {
      RowOwed(out, express, p, i);
      RowOwed(out, express, p, j);
      assert SameHead(rows[i].value.what, first, q.tree, q.inputs);
      assert SameHead(rows[j].value.what, first, q.tree, q.inputs);
      OwedSplits(EnvOf(out, m, p.0, j, express), EnvOf(out, m, p.0, i, express), p.1, p.1, rows[j].value.what,
                 rows[i].value.what);
    }
  }

  lemma KilledNotPassed(out: Output, express: set<Name>, p: Place, i: nat, n: Name)
    requires HonestRun(out, express) && SameSplit(RowsAt(out, p), i) && !RowsAt(out, p)[i].value.valid
    requires n in RowsAt(out, p)[i].value.what.share
    ensures !Passes(RowsAt(out, p), n)
  {
    var rows := RowsAt(out, p);
    var env, what := EnvOf(out, out.manifest.value, p.0, i, express), rows[i].value.what;
    RowOwed(out, express, p, i);
    forall j: nat | j < |rows| && PassedBy(rows, j, n) ensures j == i {
      RowOwed(out, express, p, j);
      assert n in rows[j].value.reported;
      OwedApart(env, p.1, what, i, j, n);
    }
  }

  /**
  Where shard `i` was killed before its final receipt, no test of its share
  is proven by resuming the run, whatever its lines already said.
  */
  lemma KilledProvesNothing(out: Output, express: set<Name>, q: Request, p: Place, i: nat, n: Name)
    requires HonestRun(out, express) && Accepts(out, q) && p.0 in q.suites
    requires SameCall(RowsAt(out, p), i) && !RowsAt(out, p)[i].value.valid
    requires n in RowsAt(out, p)[i].value.what.share
    ensures p in Given(out, q).proven && n !in Given(out, q).proven[p].ok
  {
    var rows := RowsAt(out, p);
    SomeRow(rows, i);
    AcceptedReached(out, q, p);
    ShardsSplitAlike(out, express, q, p, i);
    KilledNotPassed(out, express, p, i, n);
    assert GivenTo(rows, i, n);
    if n in Reference(rows).value.carried {
      CarriedNotAssigned(out, express, q, p, n);
    }
  }

  /** What the last run of a chain inherited and did not run again. */
  lemma {:induction false} InheritedSound(outs: seq<Output>, asks: seq<Request>, express: set<Name>, p: Place, n: Name)
      returns (i: nat)
    requires IsChain(outs, asks, express)
    requires p in Inherited(outs[|outs| - 1]) && n in Inherited(outs[|outs| - 1])[p].ok
    requires !Assigned(outs[|outs| - 1], p, n)
    ensures i < |outs| - 1
    ensures var m := outs[|outs| - 1].manifest.value;
            ProvenAt(outs, p, n, i, Inherited(outs[|outs| - 1])[p].ok[n].run, m.tree, m.inputs)
    decreases |outs|, 0
  {
    var last := |outs| - 1;
    assert asks != [];
    ChainPrefix(outs, asks, express);
    var q := asks[|asks| - 1];
    i := ProvenSound(outs[..last], asks[..|asks| - 1], express, q, p, n);
    OneMoreRun(outs, p, n, i, Given(outs[last - 1], q).proven[p].ok[n].run, q.tree, q.inputs);
  }

  // ---------- The last audit speaks for the whole chain ----------

  /** The strict audit of a suite of the run succeeded and counted no failure. */
  ghost predicate Clean(out: Output, s: Suite, express: set<Name>) {
    && s in out.shards
    && AllAgree(out.shards[s])
    && AllKeysOk(TablesOf(out.shards[s]), express, false)
    && forall k :: k in AllKeys(TablesOf(out.shards[s])) ==> CountIn(RowsAt(out, (s, k)), Failed) == 0
  }

  lemma {:induction false} SumZero(keys: set<Key>, f: Key -> nat, k: Key)
    requires Sum(keys, f) == 0 && k in keys
    ensures f(k) == 0
  {
    SumTakes(keys, f, k);
  }

  /** That is what an audit reporting no failure says. */
  lemma CleanAudit(out: Output, s: Suite, express: set<Name>, invocations: Option<nat>, report: Report)
    requires s in out.shards && AllAgree(out.shards[s])
    requires SuiteOk(TablesOf(out.shards[s]), invocations, express, false)
    requires AddsUp(report, TalliesOf(TablesOf(out.shards[s]), false)) && report.failed == 0
    ensures Clean(out, s, express)
  {
    var tables := TablesOf(out.shards[s]);
    var tallies := TalliesOf(tables, false);
    forall k | k in AllKeys(tables) ensures CountIn(RowsAt(out, (s, k)), Failed) == 0 {
      SumZero(tallies.Keys, FailedIn(tallies), k);
      assert KeyOk(tables, express, false, k);
    }
  }

  /** The last run itself passed the test: its receipt is for this run's inputs, and for its head or for none. */
  ghost predicate PassedLast(out: Output, p: Place, n: Name) {
    exists i: nat :: PassedAnyhow(out, RowsAt(out, p), i, n)
  }

  ghost predicate PassedAnyhow(out: Output, rows: Rank, i: nat, n: Name) {
    && PassedBy(rows, i, n)
    && GivenTo(rows, i, n)
    && out.manifest.Some?
    && rows[i].value.what.inputs == out.manifest.value.inputs
    && (rows[i].value.what.tree == None || rows[i].value.what.tree == out.manifest.value.tree)
  }

  lemma {:induction false} NoFailures(rows: Rank, i: nat)
    requires CountIn(rows, Failed) == 0 && i < |rows| && rows[i].Some?
    ensures Having(rows[i].value.reported, Failed) == {}
  {
    if i < |rows| - 1 {
      NoFailures(rows[..|rows| - 1], i);
    }
  }

  lemma ListingDistinct(out: Output, express: set<Name>, p: Place)
    requires HonestRun(out, express) && Reference(RowsAt(out, p)).Some?
    ensures P.NoDuplicates(Reference(RowsAt(out, p)).value.listed)
  {
    var rows := RowsAt(out, p);
    ReferenceIsARow(rows);
    var r: nat :| r < |rows| && rows[r].Some? && rows[r].value.what == Reference(rows).value;
    RowCarried(out, express, p, r);
  }

  lemma ReportedIsPassed(out: Output, express: set<Name>, p: Place, n: Name, i: nat)
    requires HonestRun(out, express) && CountIn(RowsAt(out, p), Failed) == 0 && ReportedBy(RowsAt(out, p), i, n)
    ensures PassedAnyhow(out, RowsAt(out, p), i, n)
  {
    var rows := RowsAt(out, p);
    NoFailures(rows, i);
    RowOwed(out, express, p, i);
    var reported := rows[i].value.reported;
    assert n in Having(reported, Failed) || n in Having(reported, Passed);
  }

  /** Where the strict audit succeeds, a test no receipt reports was given to no shard. */
  lemma UnreportedNotGiven(rows: Rank, express: set<Name>, n: Name, i: nat)
    requires InvocationOk(rows, express, false) && !Proven(rows, n)
    ensures !GivenTo(rows, i, n)
  {
    if i < |rows| && rows[i].Some? {
      assert ShardOk(rows, Reference(rows).value, i, false);
      assert n in rows[i].value.reported ==> ReportedBy(rows, i, n);
    }
  }

  /** Audited without failures, a listed name was passed by this run or carried into it. */
  lemma AuditedFate(out: Output, express: set<Name>, p: Place, n: Name)
    requires HonestRun(out, express) && InvocationOk(RowsAt(out, p), express, false)
    requires CountIn(RowsAt(out, p), Failed) == 0 && n in Reference(RowsAt(out, p)).value.listed
    ensures || PassedLast(out, p, n)
            || (n in Reference(RowsAt(out, p)).value.carried && !Assigned(out, p, n))
  {
    var rows := RowsAt(out, p);
    ListingDistinct(out, express, p);
    if Proven(rows, n) {
      var i: nat :| i < |rows| && ReportedBy(rows, i, n);
      ReportedIsPassed(out, express, p, n, i);
    } else {
      LossIsExact(rows, express, false, n);
      StrictGapsAreEmpty(rows, express);
      forall i: nat ensures !GivenTo(rows, i, n) {
        UnreportedNotGiven(rows, express, n, i);
      }
    }
  }

  /** What a run carried is what its snapshot proved. */
  lemma CarriedIsInherited(out: Output, express: set<Name>, p: Place, n: Name)
    requires HonestRun(out, express) && Reference(RowsAt(out, p)).Some? && n in Reference(RowsAt(out, p)).value.carried
    ensures p in Inherited(out) && n in Inherited(out)[p].ok
    ensures Inherited(out)[p].ok[n] == Reference(RowsAt(out, p)).value.carried[n]
  {
    var rows := RowsAt(out, p);
    ReferenceIsARow(rows);
    var r: nat :| r < |rows| && rows[r].Some? && rows[r].value.what == Reference(rows).value;
    RowCarried(out, express, p, r);
    var m := out.manifest.value;
    ResumedGives(if m.resumedFrom.Some? then out.snapshot else None, p, Reference(rows).value, n);
  }

  lemma ResumedGives(snapshot: Option<Snapshot>, p: Place, what: Obligation, n: Name)
    requires Resumed(snapshot, p, what.listed) == Some(what.carried) && n in what.carried
    ensures snapshot.Some? && p in snapshot.value.keys && n in snapshot.value.keys[p].ok
    ensures snapshot.value.keys[p].ok[n] == what.carried[n]
  {
  }

  /**
  If the last run's audit succeeds without failures, every listed test of
  every invocation it audited was passed, in a valid receipt, by some run of
  the chain on the same head and inputs, and no later run was given it again.
  */
  lemma ChainSafety(outs: seq<Output>, asks: seq<Request>, express: set<Name>, s: Suite, k: Key, n: Name)
      returns (i: nat)
    requires IsChain(outs, asks, express) && Clean(outs[|outs| - 1], s, express)
    requires k in AllKeys(TablesOf(outs[|outs| - 1].shards[s]))
    requires n in Reference(RankOf(TablesOf(outs[|outs| - 1].shards[s]), k)).value.listed
    ensures i < |outs| && NotAssignedAfter(outs, (s, k), n, i)
    ensures outs[i].manifest.value.tree == outs[|outs| - 1].manifest.value.tree
    ensures outs[i].manifest.value.inputs == outs[|outs| - 1].manifest.value.inputs
    ensures i < |outs| - 1 ==> PassedIn(outs[i], (s, k), n, outs[i].manifest.value.tree, outs[i].manifest.value.inputs)
    ensures i == |outs| - 1 ==> PassedLast(outs[i], (s, k), n)
    ensures (i < |outs| - 1 ==>
               var carried := Reference(RowsAt(outs[|outs| - 1], (s, k))).value.carried;
               n in carried && carried[n].run == outs[i].manifest.value.run)
  {
    var last := |outs| - 1;
    var out, p := outs[last], (s, k);
    assert KeyOk(TablesOf(out.shards[s]), express, false, k);
    AuditedFate(out, express, p, n);
    if PassedLast(out, p, n) {
      i := last;
    } else {
      CarriedIsInherited(out, express, p, n);
      i := InheritedSound(outs, asks, express, p, n);
    }
  }

  // ---------- The head the last audit does not ask for ----------

  /** Every test a run passed has its own head on the receipt. */
  ghost predicate HeadsRecorded(out: Output, s: Suite)
    requires s in out.shards && out.manifest.Some?
  {
    var m := out.manifest.value;
    forall k, n :: k in AllKeys(TablesOf(out.shards[s])) && ListedNotCarried(RowsAt(out, (s, k)), n)
      ==> PassedIn(out, (s, k), n, m.tree, m.inputs)
  }

  ghost predicate ListedNotCarried(rows: Rank, n: Name) {
    Reference(rows).Some? && n in Reference(rows).value.listed && n !in Reference(rows).value.carried
  }

  /** No shard that had something to run lost sight of the head. */
  ghost predicate HeadsKept(out: Output, s: Suite)
    requires s in out.shards && out.manifest.Some?
  {
    forall k, i: nat :: k in AllKeys(TablesOf(out.shards[s]))
      ==> HeadKept(RowsAt(out, (s, k)), i, out.manifest.value.tree)
  }

  ghost predicate HeadKept(rows: Rank, i: nat, tree: Option<Tree>) {
    i < |rows| && rows[i].Some? && rows[i].value.what.share != [] ==> rows[i].value.what.tree == tree
  }

  lemma PassedWithHead(out: Output, p: Place, n: Name)
    requires PassedLast(out, p, n)
    requires forall i: nat :: HeadKept(RowsAt(out, p), i, out.manifest.value.tree)
    ensures PassedIn(out, p, n, out.manifest.value.tree, out.manifest.value.inputs)
  {
    var i: nat :| PassedAnyhow(out, RowsAt(out, p), i, n);
    assert HeadKept(RowsAt(out, p), i, out.manifest.value.tree);
    assert PassedWith(RowsAt(out, p), i, n, out.manifest.value.tree, out.manifest.value.inputs);
  }

  lemma ShareListed(rows: Rank, express: set<Name>, i: nat, n: Name)
    requires InvocationOk(rows, express, false) && GivenTo(rows, i, n)
    ensures ListedNotCarried(rows, n)
    ensures n in Reference(rows).value.groups[i]
  {
    var reference := Reference(rows).value;
    assert ShardOk(rows, reference, i, false);
    GroupWithinUnion(reference.groups, i, n);
    assert n in multiset(reference.groups[i]);
    assert (P.Union(reference.groups) + multiset(reference.carried.Keys))[n] == multiset(reference.listed)[n];
    assert n in multiset(reference.listed);
  }

  lemma OneShardOnly(rows: Rank, express: set<Name>, i: nat, j: nat, n: Name)
    requires InvocationOk(rows, express, false) && P.NoDuplicates(Reference(rows).value.listed)
    requires GivenTo(rows, i, n) && GivenTo(rows, j, n)
    ensures i == j
  {
    var reference := Reference(rows).value;
    ShareListed(rows, express, i, n);
    ShareListed(rows, express, j, n);
    if i < j { OneOwner(reference, i, j, n); }
    if j < i { OneOwner(reference, j, i, n); }
  }

  lemma KeptFromRecorded(out: Output, express: set<Name>, p: Place, i: nat)
    requires HonestRun(out, express) && InvocationOk(RowsAt(out, p), express, false)
    requires (forall n :: ListedNotCarried(RowsAt(out, p), n)
                ==> PassedIn(out, p, n, out.manifest.value.tree, out.manifest.value.inputs))
    ensures HeadKept(RowsAt(out, p), i, out.manifest.value.tree)
  {
    var rows, m := RowsAt(out, p), out.manifest.value;
    if i < |rows| && rows[i].Some? && rows[i].value.what.share != [] {
      var n := rows[i].value.what.share[0];
      assert GivenTo(rows, i, n);
      ShareListed(rows, express, i, n);
      var j: nat :| PassedWith(rows, j, n, m.tree, m.inputs);
      ListingDistinct(out, express, p);
      OneShardOnly(rows, express, i, j, n);
    }
  }

  /** A clean audit vouches for the head exactly if every receipt of work done has it. */
  lemma HeadRecordedExactly(out: Output, express: set<Name>, s: Suite)
    requires HonestRun(out, express) && Clean(out, s, express)
    ensures HeadsRecorded(out, s) <==> HeadsKept(out, s)
  {
    var keys, m := AllKeys(TablesOf(out.shards[s])), out.manifest.value;
    if HeadsKept(out, s) {
      forall k, n | k in keys && ListedNotCarried(RowsAt(out, (s, k)), n)
        ensures PassedIn(out, (s, k), n, m.tree, m.inputs)
      {
        assert KeyOk(TablesOf(out.shards[s]), express, false, k);
        AuditedFate(out, express, (s, k), n);
        PassedWithHead(out, (s, k), n);
      }
    }
    if HeadsRecorded(out, s) {
      forall k, i: nat | k in keys ensures HeadKept(RowsAt(out, (s, k)), i, m.tree) {
        assert KeyOk(TablesOf(out.shards[s]), express, false, k);
        KeptFromRecorded(out, express, (s, k), i);
      }
    }
  }

  // One run whose worktree changed while it ran: nothing on the receipt says which head was tested.

  const KEY := Key("k", 0)

  function Headless(): Obligation {
    Obligation([], "", ["a"], [["a"]], ["a"], true, None, Some("i"), map[])
  }

  function HeadlessRun(): Output {
    Output(Some(Manifest("r", ["pg"], Some("t"), Some("i"), map[], None, {})), None, P.Weighted(map[], 1.0),
           map["pg" := [ShardDir(map[KEY := Row(Headless(), map["a" := Passed], true, false, false)],
                                 map[KEY := Headless()])]],
           false)
  }

  lemma HeadlessRows()
    ensures RowsAt(HeadlessRun(), ("pg", KEY)) == [Some(Row(Headless(), map["a" := Passed], true, false, false))]
    ensures AllKeys(TablesOf(HeadlessRun().shards["pg"])) == {KEY}
  {
    var tables := TablesOf(HeadlessRun().shards["pg"]);
    assert KEY in tables[0];
    assert tables[0].Keys == {KEY};
  }

  lemma HeadlessUnion()
    ensures UnionOk(Headless()) && P.Union(Headless().groups) == multiset(["a"])
  {
    assert [["a"]][1..] == [];
    assert P.Union([["a"]]) == multiset(["a"]) + P.Union([]);
  }

  lemma HeadlessOk()
    ensures InvocationOk([Some(Row(Headless(), map["a" := Passed], true, false, false))], {}, false)
    ensures CountIn([Some(Row(Headless(), map["a" := Passed], true, false, false))], Failed) == 0
  {
    HeadlessUnion();
    var rows: Rank := [Some(Row(Headless(), map["a" := Passed], true, false, false))];
    assert map["a" := Passed].Keys == Names(["a"]);
    assert ShardOk(rows, Headless(), 0, false);
    assert rows[..0] == [];
    assert Having(map["a" := Passed], Failed) == {};
    assert CountIn(rows, Failed) == CountIn(rows[..0], Failed) + |Having(map["a" := Passed], Failed)|;
  }

  lemma HeadlessSplit()
    ensures P.Groups(Rest(["a"], map[]), 1, "", P.Pinned, {}) == [["a"]]
  {
    assert ["a"][..0] == [];
    assert Rest(["a"], map[]) == ["a"];
    assert ["a"][1..] == [] && P.Sorted(["a"]) == ["a"];
    assert P.Empty(1)[0 := ["a"]] == [["a"]];
  }

  lemma HeadlessOwed()
    ensures Owed(EnvOf(HeadlessRun(), HeadlessRun().manifest.value, "pg", 0, {}), KEY, Headless())
  {
    HeadlessUnion();
    HeadlessSplit();
  }

  lemma OneHonest(env: Env, key: Key, what: Obligation, row: Row)
    requires Owed(env, key, what) && Answers(env, row, what)
    ensures Honest(env, ShardDir(map[key := row], map[key := what]))
  {
  }

  lemma HeadlessAnswers()
    ensures Answers(EnvOf(HeadlessRun(), HeadlessRun().manifest.value, "pg", 0, {}),
                    Row(Headless(), map["a" := Passed], true, false, false), Headless())
  {
    assert map["a" := Passed].Keys == (set n | n in ["a"]);
  }

  lemma HeadlessHonest()
    ensures HonestRun(HeadlessRun(), {})
  {
    HeadlessOwed();
    HeadlessAnswers();
    OneHonest(EnvOf(HeadlessRun(), HeadlessRun().manifest.value, "pg", 0, {}), KEY, Headless(),
              Row(Headless(), map["a" := Passed], true, false, false));
  }

  lemma HeadlessClean()
    ensures Clean(HeadlessRun(), "pg", {})
    ensures !HeadsKept(HeadlessRun(), "pg")
  {
    HeadlessRows();
    HeadlessOk();
    var out := HeadlessRun();
    assert KeyOk(TablesOf(out.shards["pg"]), {}, false, KEY);
    assert !HeadKept(RowsAt(out, ("pg", KEY)), 0, out.manifest.value.tree);
  }

  lemma HeadlessChain()
    ensures IsChain([HeadlessRun()], [], {})
  {
    HeadlessHonest();
  }

  /** The audit accepts it: a chain of one run, clean, whose receipt names no head. */
  lemma CleanWithoutHead()
    ensures IsChain([HeadlessRun()], [], {}) && Clean(HeadlessRun(), "pg", {})
    ensures !HeadsRecorded(HeadlessRun(), "pg")
  {
    HeadlessChain();
    HeadlessClean();
    HeadRecordedExactly(HeadlessRun(), {}, "pg");
  }

  // ---------- The budget ----------

  /** How often the runs of a chain report a test failed. */
  function TotalFails(outs: seq<Output>, p: Place, n: Name): nat {
    if outs == [] then 0
    else TotalFails(outs[..|outs| - 1], p, n) + FailCount(RowsAt(outs[|outs| - 1], p), n)
  }

  /** One resume adds the run's failures to the count, whether or not it reached the invocation. */
  lemma CountsAdd(prev: Output, q: Request, p: Place, n: Name)
    requires Accepts(prev, q) && p.0 in q.suites
    ensures var failures := Given(prev, q).failures;
            Count(if p in failures then failures[p] else map[], n)
            == Count(HistoryAt(prev.manifest.value, p), n) + FailCount(RowsAt(prev, p), n)
  {
    if Reference(RowsAt(prev, p)).Some? {
      AcceptedReached(prev, q, p);
    } else {
      AcceptedUnreached(prev, q, p);
      ReferenceIsARow(RowsAt(prev, p));
      NoRowsNoFails(RowsAt(prev, p), n);
    }
  }

  lemma SameSuites(m: Manifest, q: Request, s: Suite)
    requires SameRun(m, q)
    ensures s in m.suites <==> s in q.suites
  {
    assert s in m.suites <==> s in multiset(m.suites);
    assert s in q.suites <==> s in multiset(q.suites);
  }

  /** The count in a manifest is the number of failures of all runs before it. */
  lemma {:induction false} CountsAreTotals(outs: seq<Output>, asks: seq<Request>, express: set<Name>, p: Place, n: Name)
    requires IsChain(outs, asks, express) && p.0 in outs[|outs| - 1].manifest.value.suites
    ensures Count(HistoryAt(outs[|outs| - 1].manifest.value, p), n) == TotalFails(outs[..|outs| - 1], p, n)
    decreases |outs|
  {
    var last := |outs| - 1;
    if asks != [] {
      ChainPrefix(outs, asks, express);
      var prev, q := outs[last - 1], asks[|asks| - 1];
      SameSuites(prev.manifest.value, q, p.0);
      assert outs[..last][last - 1] == prev && outs[..last][..last - 1] == outs[..last - 1];
      CountsAreTotals(outs[..last], asks[..|asks| - 1], express, p, n);
      CountsAdd(prev, q, p, n);
    }
  }

  /**
  However long the chain, a resume goes on only while a test has failed at
  most twice on this head in all its runs; an unregistered one must have
  failed for the first time in the run being resumed, with evidence.
  */
  lemma {:induction false} BudgetKept(outs: seq<Output>, asks: seq<Request>, express: set<Name>, q: Request, p: Place,
                                      n: Name)
    requires IsChain(outs, asks, express) && Accepts(outs[|outs| - 1], q) && p.0 in q.suites
    ensures TotalFails(outs, p, n) <= MAX_FLAKE_FAILURES
    ensures var out := outs[|outs| - 1]; var test := (CargoAt(out, q, p), n);
            FailCount(RowsAt(out, p), n) > 0 ==>
              if test in q.flakes then !q.claimed(test)
              else test in q.unregistered && TotalFails(outs, p, n) == 1
    decreases |outs|
  {
    var last := |outs| - 1;
    var out := outs[last];
    SameSuites(out.manifest.value, q, p.0);
    CountsAreTotals(outs, asks, express, p, n);
    if FailCount(RowsAt(out, p), n) > 0 {
      FailedHasRow(RowsAt(out, p), n);
      AcceptedReached(out, q, p);
      assert ExcusedAt(out, out.manifest.value, q, p, n);
    } else if asks != [] {
      ChainPrefix(outs, asks, express);
      assert outs[..last][last - 1] == outs[last - 1];
      BudgetKept(outs[..last], asks[..|asks| - 1], express, asks[|asks| - 1], p, n);
    }
  }

  // ---------- One targeted retry ----------

  /** The run's receipts, or where it never reached the invocation what it inherited, prove the retried test. */
  ghost predicate HasPass(out: Output, e: Targeted) {
    var rows := RowsAt(out, e.place);
    if Reference(rows).Some?
    then (e.test in Reference(rows).value.carried || Passes(rows, e.test)) && FailCount(rows, e.test) == 0
    else e.place in Inherited(out) && e.test in Inherited(out)[e.place].ok
  }

  /** The retried test failed somewhere under its command. */
  ghost predicate FailsAgain(out: Output, q: Request, e: Targeted) {
    exists p: Place :: p.0 in q.suites && FailsUnder(out, q, e, p)
  }

  ghost predicate FailsUnder(out: Output, q: Request, e: Targeted, p: Place) {
    CargoAt(out, q, p) == e.cargo && FailCount(RowsAt(out, p), e.test) > 0
  }

  lemma NotAgainAt(out: Output, q: Request, e: Targeted, p: Place)
    requires Accepts(out, q) && e in out.manifest.value.targeted && p.0 in q.suites
    ensures !FailsUnder(out, q, e, p)
  {
    var m := out.manifest.value;
    if Reference(RowsAt(out, p)).Some? {
      AcceptedReached(out, q, p);
      assert (e.cargo, e.test) in RulesFor(m, q).attempted;
      assert ExcusedAt(out, m, q, p, e.test);
    } else {
      ReferenceIsARow(RowsAt(out, p));
      NoRowsNoFails(RowsAt(out, p), e.test);
    }
  }

  /**
  A resume is accepted past a targeted retry only if the retried test failed
  in no invocation of its command and has its pass, wherever the retry got to.
  The retry itself is handed on.
  */
  lemma TargetedOnce(out: Output, q: Request, e: Targeted)
    requires Accepts(out, q) && e in out.manifest.value.targeted
    ensures !FailsAgain(out, q, e) && HasPass(out, e)
    ensures e.place in Given(out, q).proven && e.test in Given(out, q).proven[e.place].ok
    ensures e in Given(out, q).targeted
  {
    forall p: Place | p.0 in q.suites ensures !FailsUnder(out, q, e, p) {
      NotAgainAt(out, q, e, p);
    }
    PassHanded(out, q, e);
    if Reference(RowsAt(out, e.place)).Some? {
      AcceptedReached(out, q, e.place);
    } else {
      AcceptedUnreached(out, q, e.place);
    }
  }

  lemma PassHanded(out: Output, q: Request, e: Targeted)
    requires Accepts(out, q) && e in out.manifest.value.targeted
    ensures e.place.0 in q.suites && e.place in Given(out, q).proven && e.test in Given(out, q).proven[e.place].ok
    ensures e in Given(out, q).targeted
  {
  }

  /**
  So a retry that failed again, or was interrupted before its pass, even
  before its invocation began, ends its chain: every resume is refused,
  whatever the register, the evidence and the claims say.
  */
  lemma SpentRetryRefused(out: Output, q: Request, e: Targeted)
    requires out.manifest.Some? && e in out.manifest.value.targeted
    requires !HasPass(out, e) || FailsAgain(out, q, e)
    ensures !Accepts(out, q)
  {
    if Accepts(out, q) {
      TargetedOnce(out, q, e);
    }
  }

  ghost predicate TargetsKept(prev: Output, next: Output) {
    prev.manifest.Some? && next.manifest.Some? && prev.manifest.value.targeted <= next.manifest.value.targeted
  }

  lemma ContinuingKeepsTargets(prev: Output, q: Request, next: Output)
    requires Continues(prev, q, next)
    ensures TargetsKept(prev, next)
  {
  }

  lemma ChainStep(outs: seq<Output>, asks: seq<Request>, express: set<Name>, j: nat)
    requires IsChain(outs, asks, express) && j < |asks|
    ensures Continues(outs[j], asks[j], outs[j + 1])
  {
  }

  lemma {:induction false} TargetsKeptAlong(outs: seq<Output>, i: nat, j: nat)
    requires i < j < |outs| && forall k: nat :: k + 1 < |outs| ==> TargetsKept(outs[k], outs[k + 1])
    ensures TargetsKept(outs[i], outs[j])
    decreases j
  {
    if i < j - 1 {
      TargetsKeptAlong(outs, i, j - 1);
      assert TargetsKept(outs[j - 1], outs[j - 1 + 1]);
    }
  }

  /** Along a chain a targeted retry is never forgotten. */
  lemma TargetedStays(outs: seq<Output>, asks: seq<Request>, express: set<Name>, i: nat, j: nat)
    requires IsChain(outs, asks, express) && i < j < |outs|
    ensures TargetsKept(outs[i], outs[j])
  {
    forall k: nat | k + 1 < |outs| ensures TargetsKept(outs[k], outs[k + 1]) {
      ChainStep(outs, asks, express, k);
      ContinuingKeepsTargets(outs[k], asks[k], outs[k + 1]);
    }
    TargetsKeptAlong(outs, i, j);
  }

  /** So in every run of the chain resumed after the retry began, the test did not fail again and was proven. */
  lemma TargetedAcrossChain(outs: seq<Output>, asks: seq<Request>, express: set<Name>, i: nat, j: nat, e: Targeted)
    requires IsChain(outs, asks, express) && i <= j < |asks| && e in outs[i].manifest.value.targeted
    ensures outs[j].manifest.Some? && !FailsAgain(outs[j], asks[j], e) && HasPass(outs[j], e)
    ensures e.place in Given(outs[j], asks[j]).proven && e.test in Given(outs[j], asks[j]).proven[e.place].ok
  {
    if i < j { TargetedStays(outs, asks, express, i, j); }
    ChainStep(outs, asks, express, j);
    TargetedOnce(outs[j], asks[j], e);
  }

  /** The retry answers a failure of run `i`: counted there once, and once in the whole chain up to it. */
  ghost predicate CalledForIn(outs: seq<Output>, asks: seq<Request>, i: nat, e: Targeted) {
    && i < |asks| < |outs|
    && CalledFor(outs[i], asks[i], e)
    && (e.cargo, e.test) in asks[i].unregistered
    && TotalFails(outs[..i + 1], e.place, e.test) == 1
  }

  lemma LinkedUpTo(outs: seq<Output>, asks: seq<Request>, i: nat)
    requires Linked(outs, asks) && i < |outs|
    ensures Linked(outs[..i + 1], asks[..i])
  {
    forall k | 0 <= k < i ensures Continues(outs[..i + 1][k], asks[..i][k], outs[..i + 1][k + 1]) {
      assert Continues(outs[k], asks[k], outs[k + 1]);
    }
  }

  lemma HonestUpTo(outs: seq<Output>, express: set<Name>, i: nat)
    requires AllHonest(outs, express) && i < |outs|
    ensures AllHonest(outs[..i + 1], express)
  {
    var first := outs[..i + 1];
    forall k | 0 <= k < |first| ensures HonestRun(first[k], express) {
      assert HonestRun(outs[k], express);
    }
  }

  lemma ChainUpTo(outs: seq<Output>, asks: seq<Request>, express: set<Name>, i: nat)
    requires IsChain(outs, asks, express) && i < |outs|
    ensures IsChain(outs[..i + 1], asks[..i], express)
  {
    LinkedUpTo(outs, asks, i);
    HonestUpTo(outs, express, i);
    assert outs[..i + 1][0] == outs[0];
  }

  lemma CalledForOnce(outs: seq<Output>, asks: seq<Request>, express: set<Name>, i: nat, e: Targeted)
    requires IsChain(outs, asks, express) && i < |asks| && CalledFor(outs[i], asks[i], e)
    ensures CalledForIn(outs, asks, i, e)
  {
    ChainUpTo(outs, asks, express, i);
    ChainStep(outs, asks, express, i);
    assert outs[..i + 1][i] == outs[i];
    BudgetKept(outs[..i + 1], asks[..i], express, asks[i], e.place, e.test);
  }

  ghost predicate KnowsOf(outs: seq<Output>, j: nat, e: Targeted) {
    j < |outs| && outs[j].manifest.Some? && e in outs[j].manifest.value.targeted
  }

  /** A run learns of a retry from the run before or from the failures of the run before. */
  ghost predicate LearnsAt(outs: seq<Output>, asks: seq<Request>, j: nat, e: Targeted) {
    KnowsOf(outs, j + 1, e) <==> KnowsOf(outs, j, e) || CalledForIn(outs, asks, j, e)
  }

  lemma RetryStep(outs: seq<Output>, asks: seq<Request>, express: set<Name>, j: nat, e: Targeted)
    requires IsChain(outs, asks, express) && j < |asks|
    ensures LearnsAt(outs, asks, j, e)
  {
    ChainStep(outs, asks, express, j);
    TargetsExactly(outs[j], asks[j], e);
    if CalledFor(outs[j], asks[j], e) {
      CalledForOnce(outs, asks, express, j, e);
    }
  }

  lemma {:induction false} LearnsAlong(knows: nat -> bool, called: nat -> bool, j: nat)
    requires !knows(0) && forall k: nat :: k < j ==> (knows(k + 1) <==> knows(k) || called(k))
    ensures knows(j) <==> exists i: nat :: i < j && called(i)
  {
    if j > 0 {
      LearnsAlong(knows, called, j - 1);
      assert knows(j - 1 + 1) <==> knows(j - 1) || called(j - 1);
    }
  }

  lemma RetrySteps(outs: seq<Output>, asks: seq<Request>, express: set<Name>, j: nat, e: Targeted)
    requires IsChain(outs, asks, express) && j < |outs|
    ensures forall k: nat :: k < j ==> LearnsAt(outs, asks, k, e)
  {
    forall k: nat | k < j ensures LearnsAt(outs, asks, k, e) {
      RetryStep(outs, asks, express, k, e);
    }
  }

  lemma LearnsIs(outs: seq<Output>, asks: seq<Request>, j: nat, e: Targeted)
    requires LearnsAt(outs, asks, j, e)
    ensures KnowsOf(outs, j + 1, e) <==> KnowsOf(outs, j, e) || CalledForIn(outs, asks, j, e)
  {
  }

  lemma KnownFromFailure(outs: seq<Output>, asks: seq<Request>, j: nat, e: Targeted)
    requires !KnowsOf(outs, 0, e) && forall k: nat :: k < j ==> LearnsAt(outs, asks, k, e)
    ensures KnowsOf(outs, j, e) <==> exists i: nat :: i < j && CalledForIn(outs, asks, i, e)
  {
    var knows: nat -> bool := (k: nat) => KnowsOf(outs, k, e);
    var called: nat -> bool := (k: nat) => CalledForIn(outs, asks, k, e);
    forall k: nat | k < j ensures knows(k + 1) <==> knows(k) || called(k) {
      LearnsIs(outs, asks, k, e);
    }
    LearnsAlong(knows, called, j);
    assert forall i: nat :: called(i) == CalledForIn(outs, asks, i, e);
  }

  /**
  The retries a run of a chain knows of are exactly those that answer the one
  failure of a test in an earlier run, which no register entry covered and
  which the evidence of that run's resume named.
  */
  lemma RetryFromFailure(outs: seq<Output>, asks: seq<Request>, express: set<Name>, j: nat, e: Targeted)
    requires IsChain(outs, asks, express) && j < |outs|
    ensures KnowsOf(outs, j, e) <==> exists i: nat :: i < j && CalledForIn(outs, asks, i, e)
  {
    RetrySteps(outs, asks, express, j, e);
    FirstKnowsNone(outs, asks, express, e);
    KnownFromFailure(outs, asks, j, e);
  }

  lemma FirstKnowsNone(outs: seq<Output>, asks: seq<Request>, express: set<Name>, e: Targeted)
    requires IsChain(outs, asks, express)
    ensures !KnowsOf(outs, 0, e)
  {
  }

  // ---------- Lost work is rerun, and nothing else ----------

  lemma {:induction false} NoneCounted(rows: Rank, n: Name)
    requires CountIn(rows, Failed) == 0
    ensures FailCount(rows, n) == 0
  {
    if rows != [] {
      NoneCounted(rows[..|rows| - 1], n);
    }
  }

  /** What the diagnostic audit calls missing is exactly what the resume finds unproven. */
  lemma LossIsWhatResumeLacks(rows: Rank, express: set<Name>, run: RunId, entry: Entry, n: Name)
    requires InvocationOk(rows, express, true) && CountIn(rows, Failed) == 0
    requires P.NoDuplicates(Reference(rows).value.listed) && ProvedBy(rows, run, entry)
    ensures (n in entry.ok
             <==> n in Reference(rows).value.listed && n !in Missing(rows, Reference(rows).value.groups, true))
  {
    NoneCounted(rows, n);
    LossIsExact(rows, express, true, n);
    forall i: nat ensures ReportedBy(rows, i, n) <==> PassedBy(rows, i, n) {
      if ReportedBy(rows, i, n) {
        NoFailures(rows, i);
        assert n in Having(rows[i].value.reported, Failed) || n in Having(rows[i].value.reported, Passed);
      }
    }
  }

  /** The groups of an obligation hold the listed names that are not carried. */
  lemma OwedIsTheRest(env: Env, k: Key, what: Obligation, n: Name)
    requires Owed(env, k, what)
    ensures n in P.Union(what.groups) <==> n in what.listed && n !in what.carried
  {
    OnceEach(what.listed, n);
    assert (P.Union(what.groups) + multiset(what.carried.Keys))[n] == multiset(what.listed)[n];
  }

  /** A run resumed after a loss is given exactly the lost names of the invocation. */
  lemma RerunIsExactlyTheLost(rows: Rank, express: set<Name>, run: RunId, entry: Entry, env: Env, k: Key,
                              what: Obligation, n: Name)
    requires InvocationOk(rows, express, true) && CountIn(rows, Failed) == 0
    requires P.NoDuplicates(Reference(rows).value.listed) && ProvedBy(rows, run, entry)
    requires env.snapshot.Some? && (env.suite, k) in env.snapshot.value.keys
    requires env.snapshot.value.keys[(env.suite, k)] == entry
    requires Owed(env, k, what)
    ensures n in P.Union(what.groups) <==> n in Missing(rows, Reference(rows).value.groups, true)
  {
    OwedIsTheRest(env, k, what, n);
    LossIsWhatResumeLacks(rows, express, run, entry, n);
    LossIsExact(rows, express, true, n);
    assert multiset(what.listed) == entry.listed;
    assert n in what.listed <==> n in multiset(what.listed);
    assert n in Reference(rows).value.listed <==> n in multiset(Reference(rows).value.listed);
  }
}
