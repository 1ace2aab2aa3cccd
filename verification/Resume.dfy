/**
Resuming an earlier run of the same head: what it proved is carried, what it
failed is counted, and a failure is passed over only for a registered flake or
a targeted retry with evidence. Anything doubtful refuses the whole resume.
*/
module Resume {
  import opened Catalog
  import opened Receipts
  import opened Proxy
  import opened Audit
  import P = Partition

  /** A test of one command prefix: what the flake register and the claims name. */
  type Selector = (seq<string>, Name)

  /** A registered flake that fails a third time on one head is not flaky. */
  const MAX_FLAKE_FAILURES := 2

  datatype Targeted = Targeted(cargo: seq<string>, test: Name, place: Place)

  datatype Link = Link(run: RunId, digest: string)

  type Counts = map<Name, nat>
  type History = map<Place, Counts>

  datatype Manifest = Manifest(
    run: RunId,
    suites: seq<Suite>,
    tree: Option<Tree>,
    inputs: Option<Inputs>,
    failed: History,
    resumedFrom: Option<Link>,
    targeted: set<Targeted>)

  /** A run's output directory. */
  datatype Output = Output(
    manifest: Option<Manifest>,
    snapshot: Option<Snapshot>,
    /** The split its frozen weights ask for. */
    mode: P.Mode,
    shards: map<Suite, seq<ShardDir>>,
    cleanupPending: bool)

  // ---------- One failure ----------

  /** What decides over a failure: earlier targeted retries, the register, fresh evidence and the claims. */
  datatype Rules = Rules(
    attempted: set<Selector>,
    flakes: set<Selector>,
    unregistered: set<Selector>,
    claimed: Selector -> bool)

  datatype Verdict = Target | Waive | Refuse

  function Judge(rules: Rules, test: Selector, count: nat): Verdict {
    if test in rules.attempted then Refuse
    else if test !in rules.flakes && test in rules.unregistered && count == 1 then Target
    else if test !in rules.flakes || count > MAX_FLAKE_FAILURES then Refuse
    else if rules.claimed(test) then Refuse
    else Waive
  }

  // ---------- One invocation ----------

  function Count(counts: Counts, n: Name): nat {
    if n in counts then counts[n] else 0
  }

  /** How often the shards of a run report a test failed. */
  function FailCount(rows: Rank, n: Name): nat {
    if rows == [] then 0
    else
      var last := |rows| - 1;
      FailCount(rows[..last], n)
      + if rows[last].Some? && n in Having(rows[last].value.reported, Failed) then 1 else 0
  }

  lemma {:induction false} NoRowsNoFails(rows: Rank, n: Name)
    requires forall i: nat :: i < |rows| ==> rows[i].None?
    ensures FailCount(rows, n) == 0
  {
    if rows != [] {
      NoRowsNoFails(rows[..|rows| - 1], n);
    }
  }

  lemma FailedHasRow(rows: Rank, n: Name)
    requires FailCount(rows, n) > 0
    ensures Reference(rows).Some?
  {
    ReferenceIsARow(rows);
    if Reference(rows).None? {
      NoRowsNoFails(rows, n);
    }
  }

  ghost predicate Passes(rows: Rank, n: Name) {
    exists i: nat :: i < |rows| && PassedBy(rows, i, n)
  }

  /** Shard `i` has a valid receipt of a pass. */
  ghost predicate PassedBy(rows: Rank, i: nat, n: Name) {
    i < |rows| && rows[i].Some? && rows[i].value.valid && n in Having(rows[i].value.reported, Passed)
  }

  /** The working state while an invocation's receipts are read. */
  datatype Reading = Reading(
    ok: map<Name, Proof>,
    failed: set<Name>,
    counts: Counts,
    targets: set<Name>,
    refused: set<Name>)

  function Add(r: Reading, rules: Rules, cargo: seq<string>, run: RunId, valid: bool, n: Name, status: Status): Reading
  {
    match status
    case Passed => if valid then r.(ok := r.ok[n := Proof(run)]) else r
    case Failed =>
      var count := Count(r.counts, n) + 1;
      var verdict := Judge(rules, (cargo, n), count);
      r.(failed := r.failed + {n}, counts := r.counts[n := count],
         targets := if verdict == Target then r.targets + {n} else r.targets,
         refused := if verdict == Refuse then r.refused + {n} else r.refused)
  }

  /** The verdict on the next failure of a test. */
  predicate NextIs(r: Reading, rules: Rules, cargo: seq<string>, n: Name, verdict: Verdict) {
    Judge(rules, (cargo, n), Count(r.counts, n) + 1) == verdict
  }

  /** The names among `failed` whose next failure gets this verdict. */
  function WithVerdict(r: Reading, rules: Rules, cargo: seq<string>, failed: set<Name>, verdict: Verdict): set<Name> {
    set n | n in failed && NextIs(r, rules, cargo, n, verdict)
  }

  /** The counts with one more failure of each name in `failed`. */
  function Raised(counts: Counts, failed: set<Name>): Counts {
    map n | n in counts.Keys + failed :: Count(counts, n) + if n in failed then 1 else 0
  }

  /** What some passes and failures do to the reading, told per name so that their order cannot matter. */
  function After(before: Reading, rules: Rules, cargo: seq<string>, run: RunId, passed: set<Name>,
                 failed: set<Name>): Reading
  {
    Reading(
      map n | n in before.ok.Keys + passed :: if n in passed then Proof(run) else before.ok[n],
      before.failed + failed,
      Raised(before.counts, failed),
      before.targets + WithVerdict(before, rules, cargo, failed, Target),
      before.refused + WithVerdict(before, rules, cargo, failed, Refuse))
  }

  lemma AfterNothing(before: Reading, rules: Rules, cargo: seq<string>, run: RunId)
    ensures After(before, rules, cargo, run, {}, {}) == before
  {
    var after := After(before, rules, cargo, run, {}, {});
    assert after.ok == before.ok && after.counts == before.counts;
    assert after.targets == before.targets && after.refused == before.refused;
  }

  lemma AfterPassed(before: Reading, rules: Rules, cargo: seq<string>, run: RunId, passed: set<Name>, failed: set<Name>,
                    n: Name)
    ensures (After(before, rules, cargo, run, passed + {n}, failed)
             == Add(After(before, rules, cargo, run, passed, failed), rules, cargo, run, true, n, Passed))
  {
  }

  lemma CountsFailed(before: Counts, failed: set<Name>, n: Name)
    requires n !in failed
    ensures Raised(before, failed + {n}) == Raised(before, failed)[n := Count(Raised(before, failed), n) + 1]
    ensures Count(Raised(before, failed), n) == Count(before, n)
  {
  }

  lemma VerdictsFailed(before: Reading, rules: Rules, cargo: seq<string>, failed: set<Name>, n: Name, verdict: Verdict)
    ensures (WithVerdict(before, rules, cargo, failed + {n}, verdict)
             == WithVerdict(before, rules, cargo, failed, verdict)
                + if NextIs(before, rules, cargo, n, verdict) then {n} else {})
  {
  }

  lemma AfterFailed(before: Reading, rules: Rules, cargo: seq<string>, run: RunId, valid: bool,
                    passed: set<Name>, failed: set<Name>, n: Name)
    requires n !in failed
    ensures (After(before, rules, cargo, run, passed, failed + {n})
             == Add(After(before, rules, cargo, run, passed, failed), rules, cargo, run, valid, n, Failed))
  {
    CountsFailed(before.counts, failed, n);
    VerdictsFailed(before, rules, cargo, failed, n, Target);
    VerdictsFailed(before, rules, cargo, failed, n, Refuse);
  }

  method ReadRow(before: Reading, rules: Rules, cargo: seq<string>, run: RunId, row: Row) returns (r: Reading)
    ensures r == After(before, rules, cargo, run, Counted(row), Having(row.reported, Failed))
  {
    r := before;
    var todo := row.reported.Keys;
    ghost var passed: set<Name>, failed: set<Name> := {}, {};
    AfterNothing(before, rules, cargo, run);
    while todo != {}
      invariant todo <= row.reported.Keys
      invariant failed == Having(row.reported, Failed) - todo
      invariant passed == Counted(row) - todo
      invariant r == After(before, rules, cargo, run, passed, failed)
      decreases todo
    {
      var n :| n in todo;
      if row.reported[n] == Failed {
        AfterFailed(before, rules, cargo, run, row.valid, passed, failed, n);
        failed := failed + {n};
      } else if row.valid {
        AfterPassed(before, rules, cargo, run, passed, failed, n);
        passed := passed + {n};
      }
      r := Add(r, rules, cargo, run, row.valid, n, row.reported[n]);
      todo := todo - {n};
    }
    assert failed == Having(row.reported, Failed) && passed == Counted(row);
  }

  /** The passes a receipt is proof of. */
  function Counted(row: Row): set<Name> {
    if row.valid then Having(row.reported, Passed) else {}
  }

  /** All receipts of an invocation, shard by shard. */
  function AfterAll(start: Reading, rules: Rules, cargo: seq<string>, run: RunId, rows: Rank): Reading {
    if rows == [] then start
    else
      var last := |rows| - 1;
      var before := AfterAll(start, rules, cargo, run, rows[..last]);
      if rows[last].None? then before
      else After(before, rules, cargo, run, Counted(rows[last].value), Having(rows[last].value.reported, Failed))
  }

  method ReadRows(start: Reading, rules: Rules, cargo: seq<string>, run: RunId, rows: Rank) returns (r: Reading)
    ensures r == AfterAll(start, rules, cargo, run, rows)
  {
    r := start;
    for i := 0 to |rows|
      invariant r == AfterAll(start, rules, cargo, run, rows[..i])
    {
      assert rows[..i + 1][..i] == rows[..i];
      if rows[i].Some? {
        r := ReadRow(r, rules, cargo, run, rows[i].value);
      }
    }
    assert rows[..|rows|] == rows;
  }

  lemma {:induction false} CountsAfterAll(start: Reading, rules: Rules, cargo: seq<string>, run: RunId, rows: Rank,
                                          n: Name)
    ensures Count(AfterAll(start, rules, cargo, run, rows).counts, n) == Count(start.counts, n) + FailCount(rows, n)
    ensures n in AfterAll(start, rules, cargo, run, rows).failed <==> n in start.failed || FailCount(rows, n) > 0
  {
    if rows != [] {
      CountsAfterAll(start, rules, cargo, run, rows[..|rows| - 1], n);
    }
  }

  lemma {:induction false} OkAfterAll(start: Reading, rules: Rules, cargo: seq<string>, run: RunId, rows: Rank, n: Name)
    ensures n in AfterAll(start, rules, cargo, run, rows).ok <==> n in start.ok || Passes(rows, n)
    ensures (n in AfterAll(start, rules, cargo, run, rows).ok ==>
               AfterAll(start, rules, cargo, run, rows).ok[n] == if Passes(rows, n) then Proof(run) else start.ok[n])
  {
    if rows != [] {
      var last := |rows| - 1;
      OkAfterAll(start, rules, cargo, run, rows[..last], n);
      PassesOneMore(rows, n);
    }
  }

  lemma PassesOneMore(rows: Rank, n: Name)
    requires rows != []
    ensures Passes(rows, n) <==> Passes(rows[..|rows| - 1], n) || PassedBy(rows, |rows| - 1, n)
  {
    var last := |rows| - 1;
    forall i: nat | i < last ensures PassedBy(rows, i, n) <==> PassedBy(rows[..last], i, n) {
    }
  }

  /** Some failure of the test, counted on from `history`, gets this verdict. */
  ghost predicate SomeVerdict(rules: Rules, test: Selector, history: nat, fails: nat, verdict: Verdict) {
    exists c: nat :: history < c <= history + fails && Judge(rules, test, c) == verdict
  }

  lemma {:induction false} VerdictsAfterAll(start: Reading, rules: Rules, cargo: seq<string>, run: RunId, rows: Rank,
                                            n: Name)
    requires n !in start.targets && n !in start.refused
    ensures (n in AfterAll(start, rules, cargo, run, rows).targets
             <==> SomeVerdict(rules, (cargo, n), Count(start.counts, n), FailCount(rows, n), Target))
    ensures (n in AfterAll(start, rules, cargo, run, rows).refused
             <==> SomeVerdict(rules, (cargo, n), Count(start.counts, n), FailCount(rows, n), Refuse))
  {
    if rows != [] {
      var last := |rows| - 1;
      VerdictsAfterAll(start, rules, cargo, run, rows[..last], n);
      CountsAfterAll(start, rules, cargo, run, rows[..last], n);
      OneMoreVerdict(rules, (cargo, n), Count(start.counts, n), FailCount(rows[..last], n), Target);
      OneMoreVerdict(rules, (cargo, n), Count(start.counts, n), FailCount(rows[..last], n), Refuse);
    }
  }

  lemma OneMoreVerdict(rules: Rules, test: Selector, history: nat, fails: nat, verdict: Verdict)
    ensures (SomeVerdict(rules, test, history, fails + 1, verdict)
             <==> SomeVerdict(rules, test, history, fails, verdict)
                  || Judge(rules, test, history + fails + 1) == verdict)
  {
  }

  // ---------- The rule for a failure, outright ----------

  /**
  A test's failures on this head are passed over exactly if it has none in
  this run, or no targeted retry was spent on it and either it is a registered
  flake with at most two failures so far that nobody claimed, or it failed for
  the first time and evidence names it.
  */
  predicate Excused(rules: Rules, test: Selector, history: nat, fails: nat) {
    || fails == 0
    || (&& test !in rules.attempted
        && if test in rules.flakes
           then history + fails <= MAX_FLAKE_FAILURES && !rules.claimed(test)
           else test in rules.unregistered && history == 0 && fails == 1)
  }

  lemma ExcusedExactly(rules: Rules, test: Selector, history: nat, fails: nat)
    ensures Excused(rules, test, history, fails) <==> !SomeVerdict(rules, test, history, fails, Refuse)
    ensures (Excused(rules, test, history, fails) ==>
               (SomeVerdict(rules, test, history, fails, Target) <==> fails > 0 && test !in rules.flakes))
  {
    if fails > 0 {
      assert Judge(rules, test, history + fails) == Refuse ==> SomeVerdict(rules, test, history, fails, Refuse);
      assert Judge(rules, test, history + 1) == Refuse ==> SomeVerdict(rules, test, history, fails, Refuse);
      assert Judge(rules, test, history + 1) == Target ==> SomeVerdict(rules, test, history, fails, Target);
    }
  }

  // ---------- What an invocation's receipts amount to ----------

  /** The receipts belong to this head and inputs, agree with each other and carry exactly what was inherited. */
  predicate Consistent(rows: Rank, base: Option<Entry>, tree: Option<Tree>, inputs: Option<Inputs>) {
    && Reference(rows).Some?
    && var first := Reference(rows).value;
      && (forall i :: 0 <= i < |rows| && rows[i].Some? ==> SameHead(rows[i].value.what, first, tree, inputs))
      && (base.Some? ==> base.value.listed == multiset(first.listed))
      && first.carried == (if base.Some? then base.value.ok else map[])
  }

  predicate SameHead(what: Obligation, first: Obligation, tree: Option<Tree>, inputs: Option<Inputs>) {
    && what.tree == tree
    && what.inputs == inputs
    && what.args == first.args
    && multiset(what.listed) == multiset(first.listed)
    && what.carried == first.carried
  }

  /** Proven: carried or passed in a valid receipt, and failed in none. */
  ghost predicate ProvedBy(rows: Rank, run: RunId, entry: Entry) {
    && Reference(rows).Some?
    && var first := Reference(rows).value;
      && entry.listed == multiset(first.listed)
      && (forall n :: n in entry.ok <==> (n in first.carried || Passes(rows, n)) && FailCount(rows, n) == 0)
      && (forall n :: n in entry.ok ==> entry.ok[n] == if Passes(rows, n) then Proof(run) else first.carried[n])
  }

  ghost predicate CountedBy(rows: Rank, history: Counts, counts: Counts) {
    forall n :: Count(counts, n) == Count(history, n) + FailCount(rows, n)
  }

  ghost predicate JudgedBy(rows: Rank, rules: Rules, cargo: seq<string>, history: Counts, targets: set<Name>,
                           refused: set<Name>)
  {
    && (forall n :: n in refused <==> !Excused(rules, (cargo, n), Count(history, n), FailCount(rows, n)))
    && (forall n :: n !in refused ==> (n in targets <==> FailCount(rows, n) > 0 && (cargo, n) !in rules.flakes))
  }

  datatype Invocation = Invocation(cargo: seq<string>, entry: Entry, counts: Counts, targets: set<Name>,
                                   refused: set<Name>)

  /** What the receipts of an invocation come to. */
  function InvocationOf(rows: Rank, history: Counts, rules: Rules, selector: seq<string> -> seq<string>,
                        run: RunId): Invocation
    requires Reference(rows).Some?
  {
    var first := Reference(rows).value;
    var cargo := selector(first.args);
    var reading := AfterAll(Reading(first.carried, {}, history, {}, {}), rules, cargo, run, rows);
    Invocation(cargo, Entry(multiset(first.listed), reading.ok - reading.failed), NonZero(reading.counts),
               reading.targets, reading.refused)
  }

  method ResumeInvocation(rows: Rank, base: Option<Entry>, history: Counts, rules: Rules,
                          selector: seq<string> -> seq<string>,
                          run: RunId, tree: Option<Tree>, inputs: Option<Inputs>) returns (r: Option<Invocation>)
    ensures r.Some? <==> Consistent(rows, base, tree, inputs)
    ensures r.Some? ==> r.value == InvocationOf(rows, history, rules, selector, run)
  {
    if !Consistent(rows, base, tree, inputs) { return None; }
    var first := Reference(rows).value;
    var cargo := selector(first.args);
    var reading := ReadRows(Reading(first.carried, {}, history, {}, {}), rules, cargo, run, rows);
    var entry := Entry(multiset(first.listed), reading.ok - reading.failed);
    r := Some(Invocation(cargo, entry, NonZero(reading.counts), reading.targets, reading.refused));
  }

  /** It proves, counts and judges as it should. */
  lemma InvocationReads(rows: Rank, history: Counts, rules: Rules, selector: seq<string> -> seq<string>, run: RunId)
    requires Reference(rows).Some?
    ensures var x := InvocationOf(rows, history, rules, selector, run);
            && x.cargo == selector(Reference(rows).value.args)
            && ProvedBy(rows, run, x.entry)
            && CountedBy(rows, history, x.counts)
            && JudgedBy(rows, rules, x.cargo, history, x.targets, x.refused)
  {
    var first := Reference(rows).value;
    var cargo := selector(first.args);
    var start := Reading(first.carried, {}, history, {}, {});
    var x := InvocationOf(rows, history, rules, selector, run);
    ReadingProves(start, rules, cargo, run, rows, x.entry.ok);
    ReadingJudges(start, rules, cargo, run, rows);
    forall n ensures Count(x.counts, n) == Count(history, n) + FailCount(rows, n) {
      CountsAfterAll(start, rules, cargo, run, rows, n);
    }
  }

  function NonZero(counts: Counts): Counts {
    map n | n in counts && counts[n] > 0 :: counts[n]
  }

  lemma ReadingProves(start: Reading, rules: Rules, cargo: seq<string>, run: RunId, rows: Rank, ok: map<Name, Proof>)
    requires start.failed == {}
    requires ok == AfterAll(start, rules, cargo, run, rows).ok - AfterAll(start, rules, cargo, run, rows).failed
    ensures forall n :: n in ok <==> (n in start.ok || Passes(rows, n)) && FailCount(rows, n) == 0
    ensures forall n :: n in ok ==> ok[n] == if Passes(rows, n) then Proof(run) else start.ok[n]
  {
    forall n
      ensures n in ok <==> (n in start.ok || Passes(rows, n)) && FailCount(rows, n) == 0
      ensures n in ok ==> ok[n] == if Passes(rows, n) then Proof(run) else start.ok[n]
    {
      OkAfterAll(start, rules, cargo, run, rows, n);
      CountsAfterAll(start, rules, cargo, run, rows, n);
    }
  }

  lemma ReadingJudges(start: Reading, rules: Rules, cargo: seq<string>, run: RunId, rows: Rank)
    requires start.targets == {} && start.refused == {}
    ensures var after := AfterAll(start, rules, cargo, run, rows);
            JudgedBy(rows, rules, cargo, start.counts, after.targets, after.refused)
  {
    var after := AfterAll(start, rules, cargo, run, rows);
    forall n
      ensures n in after.refused <==> !Excused(rules, (cargo, n), Count(start.counts, n), FailCount(rows, n))
      ensures n !in after.refused ==> (n in after.targets <==> FailCount(rows, n) > 0 && (cargo, n) !in rules.flakes)
    {
      VerdictsAfterAll(start, rules, cargo, run, rows, n);
      ExcusedExactly(rules, (cargo, n), Count(start.counts, n), FailCount(rows, n));
    }
  }

  // ---------- A whole run ----------

  /** What a resume is asked with: this run's identity, the register, the evidence and how files are read. */
  datatype Request = Request(
    tree: Option<Tree>,
    inputs: Option<Inputs>,
    suites: seq<Suite>,
    flakes: set<Selector>,
    unregistered: set<Selector>,
    claimed: Selector -> bool,
    selector: seq<string> -> seq<string>,
    digest: Snapshot -> string)

  function RowsAt(prev: Output, place: Place): Rank {
    if place.0 in prev.shards then RankOf(TablesOf(prev.shards[place.0]), place.1) else []
  }

  /** The invocations the run reached. */
  function Reached(prev: Output, suites: seq<Suite>): set<Place> {
    set s, k | s in suites && s in prev.shards && k in AllKeys(TablesOf(prev.shards[s])) :: (s, k)
  }

  function Inherited(prev: Output): map<Place, Entry> {
    if prev.manifest.Some? && prev.manifest.value.resumedFrom.Some? && prev.snapshot.Some?
    then prev.snapshot.value.keys else map[]
  }

  function BaseAt(prev: Output, place: Place): Option<Entry> {
    if place in Inherited(prev) then Some(Inherited(prev)[place]) else None
  }

  function HistoryAt(m: Manifest, place: Place): Counts {
    if place in m.failed then m.failed[place] else map[]
  }

  function RulesFor(m: Manifest, q: Request): Rules {
    Rules(set e | e in m.targeted :: (e.cargo, e.test), q.flakes, q.unregistered, q.claimed)
  }

  /** The run answers to this head, these inputs and these suites. */
  predicate SameRun(m: Manifest, q: Request) {
    && q.tree.Some?
    && q.inputs.Some?
    && m.tree == q.tree
    && m.inputs == q.inputs
    && multiset(m.suites) == multiset(q.suites)
  }

  /** What the run inherited is the snapshot its manifest names, for the same head and inputs. */
  predicate SnapshotOk(prev: Output, m: Manifest, q: Request) {
    m.resumedFrom.Some? ==>
      && prev.snapshot.Some?
      && var s := prev.snapshot.value;
        && q.digest(s) == m.resumedFrom.value.digest
        && s.run == m.resumedFrom.value.run
        && s.tree == q.tree
        && s.inputs == q.inputs
        && (forall p :: p in s.keys ==> p.0 in q.suites)
        && (forall p :: p in s.keys ==> forall n :: n in s.keys[p].ok ==> n in s.keys[p].listed)
  }

  predicate ShardsReadable(prev: Output, q: Request) {
    && !prev.cleanupPending
    && forall s :: s in q.suites ==> s in prev.shards && AllAgree(prev.shards[s])
  }

  predicate Readable(prev: Output, q: Request) {
    && prev.manifest.Some?
    && var m := prev.manifest.value;
      && SameRun(m, q)
      && SnapshotOk(prev, m, q)
      && (forall e :: e in m.targeted ==> e.place.0 in q.suites)
      && ShardsReadable(prev, q)
      && AllConsistent(prev, q, Reached(prev, q.suites))
  }

  predicate ConsistentAt(prev: Output, q: Request, p: Place) {
    Consistent(RowsAt(prev, p), BaseAt(prev, p), q.tree, q.inputs)
  }

  predicate AllConsistent(prev: Output, q: Request, places: set<Place>) {
    forall p :: p in places ==> ConsistentAt(prev, q, p)
  }

  function InvocationAt(prev: Output, m: Manifest, q: Request, p: Place): Invocation {
    if Reference(RowsAt(prev, p)).None? then Invocation([], Entry(multiset{}, map[]), map[], {}, {})
    else InvocationOf(RowsAt(prev, p), HistoryAt(m, p), RulesFor(m, q), q.selector, m.run)
  }

  method ReadPlace(prev: Output, m: Manifest, q: Request, p: Place) returns (r: Option<Invocation>)
    ensures r.Some? <==> ConsistentAt(prev, q, p)
    ensures r.Some? ==> r.value == InvocationAt(prev, m, q, p)
  {
    r := ResumeInvocation(RowsAt(prev, p), BaseAt(prev, p), HistoryAt(m, p), RulesFor(m, q), q.selector, m.run, q.tree,
                          q.inputs);
  }

  function InvocationsOf(prev: Output, m: Manifest, q: Request, places: set<Place>): map<Place, Invocation> {
    map p | p in places :: InvocationAt(prev, m, q, p)
  }

  method ReadPlaces(prev: Output, m: Manifest, q: Request, places: set<Place>)
      returns (r: Option<map<Place, Invocation>>)
    ensures r.Some? <==> AllConsistent(prev, q, places)
    ensures r.Some? ==> r.value == InvocationsOf(prev, m, q, places)
  {
    var todo := places;
    var read: map<Place, Invocation> := map[];
    while todo != {}
      invariant read.Keys + todo == places && read.Keys !! todo
      invariant forall p :: p in read ==> ConsistentAt(prev, q, p) && read[p] == InvocationAt(prev, m, q, p)
      decreases todo
    {
      var p :| p in todo;
      var x := ReadPlace(prev, m, q, p);
      if x.None? { return None; }
      read := read[p := x.value];
      todo := todo - {p};
    }
    r := Some(read);
  }

  // ---------- The verdict on a run ----------

  predicate NoneRefused(read: map<Place, Invocation>) {
    forall p :: p in read ==> read[p].refused == {}
  }

  /** The evidence used. */
  function Used(read: map<Place, Invocation>): set<Selector> {
    set p, n | p in read && n in read[p].targets :: (read[p].cargo, n)
  }

  function NewTargets(read: map<Place, Invocation>): set<Targeted> {
    set p, n | p in read && n in read[p].targets :: Targeted(read[p].cargo, n, p)
  }

  /** An invocation the run never reached keeps what the chain proved. */
  function ProvenOf(read: map<Place, Invocation>, inherited: map<Place, Entry>): map<Place, Entry> {
    map p | p in read.Keys + inherited.Keys :: if p in read then read[p].entry else inherited[p]
  }

  /** And what the chain failed. */
  function FailuresOf(read: map<Place, Invocation>, history: History, suites: seq<Suite>): History {
    map p | p in read.Keys + history.Keys && (p in read || p.0 in suites) ::
      if p in read then read[p].counts else history[p]
  }

  /** Every targeted retry of the chain has its pass. */
  predicate TargetsProven(targeted: set<Targeted>, proven: map<Place, Entry>) {
    forall e :: e in targeted ==> e.place in proven && e.test in proven[e.place].ok
  }

  /** What a resumed run starts from. */
  datatype Origin = Origin(run: RunId, proven: map<Place, Entry>, failures: History, targeted: set<Targeted>)

  function OriginOf(prev: Output, m: Manifest, q: Request, read: map<Place, Invocation>): Origin {
    Origin(m.run, ProvenOf(read, Inherited(prev)), FailuresOf(read, m.failed, q.suites), m.targeted + NewTargets(read))
  }

  predicate Settles(prev: Output, m: Manifest, q: Request, read: map<Place, Invocation>) {
    && NoneRefused(read)
    && Used(read) == q.unregistered
    && TargetsProven(m.targeted, ProvenOf(read, Inherited(prev)))
  }

  function ReadOf(prev: Output, q: Request): map<Place, Invocation>
    requires prev.manifest.Some?
  {
    InvocationsOf(prev, prev.manifest.value, q, Reached(prev, q.suites))
  }

  predicate Accepts(prev: Output, q: Request) {
    Readable(prev, q) && Settles(prev, prev.manifest.value, q, ReadOf(prev, q))
  }

  /** Reads what a previous run proved, or refuses it. */
  method LoadResume(prev: Output, q: Request) returns (r: Option<Origin>)
    ensures r.Some? <==> Accepts(prev, q)
    ensures r.Some? ==> r.value == OriginOf(prev, prev.manifest.value, q, ReadOf(prev, q))
  {
    if prev.manifest.None? { return None; }
    var m := prev.manifest.value;
    var head := SameRun(m, q);
    if !head { return None; }
    var inherited := SnapshotOk(prev, m, q);
    if !inherited { return None; }
    if exists e :: e in m.targeted && e.place.0 !in q.suites { return None; }
    var readable := ShardsReadable(prev, q);
    if !readable { return None; }
    var places := Reached(prev, q.suites);
    var read := ReadPlaces(prev, m, q, places);
    if read.None? { return None; }
    var settles := Settles(prev, m, q, read.value);
    if !settles { return None; }
    r := Some(OriginOf(prev, m, q, read.value));
  }

  // ---------- What acceptance means ----------

  lemma {:induction false} SomeRow(rows: Rank, i: nat)
    requires i < |rows| && rows[i].Some?
    ensures Reference(rows).Some?
  {
    if i > 0 && rows[0].None? {
      SomeRow(rows[1..], i - 1);
    }
  }

  /** The invocations reached are those of the suites asked for with a row in some shard. */
  lemma ReachedExactly(prev: Output, suites: seq<Suite>, p: Place)
    ensures p in Reached(prev, suites) <==> p.0 in suites && Reference(RowsAt(prev, p)).Some?
  {
    var rows := RowsAt(prev, p);
    ReferenceIsARow(rows);
    if p.0 in suites && p.0 in prev.shards {
      var tables := TablesOf(prev.shards[p.0]);
      if Reference(rows).Some? {
        var i: nat :| i < |rows| && rows[i].Some?;
        assert p.1 in tables[i];
        assert p.1 in AllKeys(tables);
      }
      if p.1 in AllKeys(tables) {
        var i :| 0 <= i < |tables| && p.1 in tables[i];
        SomeRow(rows, i);
      }
    }
  }

  function CargoAt(prev: Output, q: Request, p: Place): seq<string> {
    if Reference(RowsAt(prev, p)).Some? then q.selector(Reference(RowsAt(prev, p)).value.args) else []
  }

  /** A test of an invocation failed as often as excused. */
  ghost predicate ExcusedAt(prev: Output, m: Manifest, q: Request, p: Place, n: Name) {
    Excused(RulesFor(m, q), (CargoAt(prev, q, p), n), Count(HistoryAt(m, p), n), FailCount(RowsAt(prev, p), n))
  }

  /** What was read at a place. */
  ghost predicate ReadAs(prev: Output, m: Manifest, q: Request, p: Place, x: Invocation) {
    && x.cargo == CargoAt(prev, q, p)
    && ProvedBy(RowsAt(prev, p), m.run, x.entry)
    && CountedBy(RowsAt(prev, p), HistoryAt(m, p), x.counts)
    && JudgedBy(RowsAt(prev, p), RulesFor(m, q), x.cargo, HistoryAt(m, p), x.targets, x.refused)
  }

  lemma PlaceReads(prev: Output, m: Manifest, q: Request, p: Place)
    requires Reference(RowsAt(prev, p)).Some?
    ensures ReadAs(prev, m, q, p, InvocationAt(prev, m, q, p))
  {
    InvocationReads(RowsAt(prev, p), HistoryAt(m, p), RulesFor(m, q), q.selector, m.run);
  }

  /** What an accepted resume starts from, at an invocation the previous run reached. */
  lemma AcceptedReached(prev: Output, q: Request, p: Place)
    requires Accepts(prev, q) && p.0 in q.suites && Reference(RowsAt(prev, p)).Some?
    ensures var m := prev.manifest.value; var o := OriginOf(prev, m, q, ReadOf(prev, q));
            && ConsistentAt(prev, q, p)
            && p in o.proven && ProvedBy(RowsAt(prev, p), m.run, o.proven[p])
            && p in o.failures && CountedBy(RowsAt(prev, p), HistoryAt(m, p), o.failures[p])
            && (forall n :: ExcusedAt(prev, m, q, p, n))
            && (forall n :: FailCount(RowsAt(prev, p), n) > 0 && (CargoAt(prev, q, p), n) !in q.flakes
                  ==> Targeted(CargoAt(prev, q, p), n, p) in o.targeted)
  {
    var m, read := prev.manifest.value, ReadOf(prev, q);
    ReachedExactly(prev, q.suites, p);
    PlaceReads(prev, m, q, p);
    assert p in read && read[p].refused == {};
    forall n ensures ExcusedAt(prev, m, q, p, n) {
      assert n !in read[p].refused;
    }
    forall n | FailCount(RowsAt(prev, p), n) > 0 && (CargoAt(prev, q, p), n) !in q.flakes
      ensures Targeted(CargoAt(prev, q, p), n, p) in NewTargets(read)
    {
      assert n !in read[p].refused && n in read[p].targets;
    }
  }

  /** A retry the failures of the previous run itself call for. */
  ghost predicate CalledFor(prev: Output, q: Request, e: Targeted) {
    && e.place.0 in q.suites
    && FailCount(RowsAt(prev, e.place), e.test) > 0
    && e.cargo == CargoAt(prev, q, e.place)
    && (e.cargo, e.test) !in q.flakes
  }

  /** The retries handed on are those handed in and those its own failures call for, and no others. */
  lemma TargetsExactly(prev: Output, q: Request, e: Targeted)
    requires Accepts(prev, q)
    ensures var m := prev.manifest.value;
            e in OriginOf(prev, m, q, ReadOf(prev, q)).targeted <==> e in m.targeted || CalledFor(prev, q, e)
    ensures CalledFor(prev, q, e) ==> (e.cargo, e.test) in q.unregistered
  {
    var m, read := prev.manifest.value, ReadOf(prev, q);
    ReachedExactly(prev, q.suites, e.place);
    if e.place in read {
      PlaceReads(prev, m, q, e.place);
      assert read[e.place].refused == {};
      AcceptedReached(prev, q, e.place);
      assert ExcusedAt(prev, m, q, e.place, e.test);
    } else if e.place.0 in q.suites {
      ReferenceIsARow(RowsAt(prev, e.place));
      NoRowsNoFails(RowsAt(prev, e.place), e.test);
    }
  }

  /** And at one it never reached: what it was itself given. */
  lemma AcceptedUnreached(prev: Output, q: Request, p: Place)
    requires Accepts(prev, q) && p.0 in q.suites && Reference(RowsAt(prev, p)).None?
    ensures var m := prev.manifest.value; var o := OriginOf(prev, m, q, ReadOf(prev, q));
            && (p in o.proven <==> p in Inherited(prev))
            && (p in o.proven ==> o.proven[p] == Inherited(prev)[p])
            && HistoryAt(m, p) == (if p in o.failures then o.failures[p] else map[])
  {
    ReachedExactly(prev, q.suites, p);
  }

  /** Every failure of the run is excused. */
  ghost predicate AllExcused(prev: Output, m: Manifest, q: Request, places: set<Place>) {
    forall p, n :: p in places ==> ExcusedAt(prev, m, q, p, n)
  }

  /** A test failed somewhere in the run and no register entry covers it. */
  ghost predicate Unregistered(prev: Output, q: Request, places: set<Place>, test: Selector) {
    && test !in q.flakes
    && exists p :: p in places && CargoAt(prev, q, p) == test.0 && FailCount(RowsAt(prev, p), test.1) > 0
  }

  lemma RefusedExactly(prev: Output, m: Manifest, q: Request, places: set<Place>)
    requires forall p :: p in places ==> Reference(RowsAt(prev, p)).Some?
    ensures NoneRefused(InvocationsOf(prev, m, q, places)) <==> AllExcused(prev, m, q, places)
  {
    var read := InvocationsOf(prev, m, q, places);
    forall p | p in places ensures ReadAs(prev, m, q, p, read[p]) {
      PlaceReads(prev, m, q, p);
    }
    if NoneRefused(read) {
      forall p, n | p in places ensures ExcusedAt(prev, m, q, p, n) {
        assert n !in read[p].refused;
      }
    }
    if AllExcused(prev, m, q, places) {
      forall p | p in read ensures read[p].refused == {} {
        forall n ensures n !in read[p].refused {
          assert ExcusedAt(prev, m, q, p, n);
        }
      }
    }
  }

  lemma UsedExactly(prev: Output, m: Manifest, q: Request, places: set<Place>, test: Selector)
    requires forall p :: p in places ==> Reference(RowsAt(prev, p)).Some?
    requires NoneRefused(InvocationsOf(prev, m, q, places))
    ensures test in Used(InvocationsOf(prev, m, q, places)) <==> Unregistered(prev, q, places, test)
  {
    var read := InvocationsOf(prev, m, q, places);
    forall p | p in places
      ensures read[p].cargo == CargoAt(prev, q, p)
      ensures (test.1 in read[p].targets
               <==> FailCount(RowsAt(prev, p), test.1) > 0 && (read[p].cargo, test.1) !in q.flakes)
    {
      PlaceReads(prev, m, q, p);
      assert test.1 !in read[p].refused;
    }
    if test in Used(read) {
      var p, n :| p in read && n in read[p].targets && (read[p].cargo, n) == test;
    }
    if Unregistered(prev, q, places, test) {
      var p :| p in places && CargoAt(prev, q, p) == test.0 && FailCount(RowsAt(prev, p), test.1) > 0;
      assert test.1 in read[p].targets;
    }
  }

  /**
  A resume is accepted exactly if the run is readable and consistent, every
  failure is excused, the evidence names exactly the failures no register
  entry covers, and every targeted retry before it has its pass.
  */
  lemma AcceptsExactly(prev: Output, q: Request)
    requires Readable(prev, q)
    ensures var m := prev.manifest.value; var places := Reached(prev, q.suites);
            Accepts(prev, q)
            <==> && AllExcused(prev, m, q, places)
                 && (forall test :: test in q.unregistered <==> Unregistered(prev, q, places, test))
                 && TargetsProven(m.targeted, ProvenOf(ReadOf(prev, q), Inherited(prev)))
  {
    var m, places := prev.manifest.value, Reached(prev, q.suites);
    forall p | p in places ensures Reference(RowsAt(prev, p)).Some? {
      ReachedExactly(prev, q.suites, p);
    }
    ExactlyFor(prev, m, q, places);
  }

  lemma ExactlyFor(prev: Output, m: Manifest, q: Request, places: set<Place>)
    requires forall p :: p in places ==> Reference(RowsAt(prev, p)).Some?
    ensures var read := InvocationsOf(prev, m, q, places);
            (NoneRefused(read) && Used(read) == q.unregistered)
            <==> && AllExcused(prev, m, q, places)
                 && (forall test :: test in q.unregistered <==> Unregistered(prev, q, places, test))
  {
    var read := InvocationsOf(prev, m, q, places);
    RefusedExactly(prev, m, q, places);
    if NoneRefused(read) {
      forall test ensures test in Used(read) <==> Unregistered(prev, q, places, test) {
        UsedExactly(prev, m, q, places, test);
      }
    }
  }

  // ---------- The claims asked on the way ----------

  /** The same request where no test is claimed. */
  function Unclaimed(q: Request): Request {
    q.(claimed := _ => false)
  }

  /** A test of a reached invocation that failed and is a registered flake: the resume asks whether it is claimed. */
  ghost predicate Waived(prev: Output, q: Request, places: set<Place>, test: Selector) {
    && test in q.flakes
    && exists p :: p in places && CargoAt(prev, q, p) == test.0 && FailCount(RowsAt(prev, p), test.1) > 0
  }

  /** What is proven does not depend on how failures are judged. */
  lemma EntriesSame(rows: Rank, history: Counts, rules: Rules, rules': Rules, selector: seq<string> -> seq<string>,
                    run: RunId)
    requires Reference(rows).Some?
    ensures (InvocationOf(rows, history, rules, selector, run).entry
             == InvocationOf(rows, history, rules', selector, run).entry)
  {
    InvocationReads(rows, history, rules, selector, run);
    InvocationReads(rows, history, rules', selector, run);
    var a := InvocationOf(rows, history, rules, selector, run).entry.ok;
    var b := InvocationOf(rows, history, rules', selector, run).entry.ok;
    assert forall n :: n in a <==> n in b;
    assert a == b;
  }

  lemma EntrySameAt(prev: Output, m: Manifest, q: Request, p: Place)
    ensures InvocationAt(prev, m, q, p).entry == InvocationAt(prev, m, Unclaimed(q), p).entry
  {
    if Reference(RowsAt(prev, p)).Some? {
      EntriesSame(RowsAt(prev, p), HistoryAt(m, p), RulesFor(m, q), RulesFor(m, Unclaimed(q)), q.selector, m.run);
    }
  }

  lemma ProvenSame(read: map<Place, Invocation>, read': map<Place, Invocation>, inherited: map<Place, Entry>)
    requires read.Keys == read'.Keys && forall p :: p in read ==> read[p].entry == read'[p].entry
    ensures ProvenOf(read, inherited) == ProvenOf(read', inherited)
  {
  }

  lemma ProvenUnclaimed(prev: Output, m: Manifest, q: Request, places: set<Place>)
    ensures (ProvenOf(InvocationsOf(prev, m, q, places), Inherited(prev))
             == ProvenOf(InvocationsOf(prev, m, Unclaimed(q), places), Inherited(prev)))
  {
    var read, read' := InvocationsOf(prev, m, q, places), InvocationsOf(prev, m, Unclaimed(q), places);
    forall p | p in places ensures read[p].entry == read'[p].entry {
      EntrySameAt(prev, m, q, p);
    }
    ProvenSame(read, read', Inherited(prev));
  }

  lemma ExcusedAsked(prev: Output, m: Manifest, q: Request, places: set<Place>)
    ensures (AllExcused(prev, m, q, places)
             <==> AllExcused(prev, m, Unclaimed(q), places)
                  && forall test :: Waived(prev, q, places, test) ==> !q.claimed(test))
  {
    var q' := Unclaimed(q);
    if AllExcused(prev, m, q, places) {
      forall p, n | p in places ensures ExcusedAt(prev, m, q', p, n) {
        assert ExcusedAt(prev, m, q, p, n);
      }
      forall test | Waived(prev, q, places, test) ensures !q.claimed(test) {
        var p :| p in places && CargoAt(prev, q, p) == test.0 && FailCount(RowsAt(prev, p), test.1) > 0;
        assert ExcusedAt(prev, m, q, p, test.1);
      }
    }
    if AllExcused(prev, m, q', places) && forall test :: Waived(prev, q, places, test) ==> !q.claimed(test) {
      forall p, n | p in places ensures ExcusedAt(prev, m, q, p, n) {
        assert ExcusedAt(prev, m, q', p, n);
        var test := (CargoAt(prev, q, p), n);
        assert FailCount(RowsAt(prev, p), n) > 0 && test in q.flakes ==> Waived(prev, q, places, test);
      }
    }
  }

  /** A resume is accepted exactly if it would be with no claims and every waived test is found unclaimed. */
  lemma AcceptsAsked(prev: Output, q: Request)
    requires prev.manifest.Some?
    ensures (Accepts(prev, q)
             <==> Accepts(prev, Unclaimed(q))
                  && forall test :: Waived(prev, q, Reached(prev, q.suites), test) ==> !q.claimed(test))
  {
    var m, q', places := prev.manifest.value, Unclaimed(q), Reached(prev, q.suites);
    ReadableSame(prev, q);
    if Readable(prev, q) {
      AcceptsExactly(prev, q);
      AcceptsExactly(prev, q');
      ExcusedAsked(prev, m, q, places);
      ProvenUnclaimed(prev, m, q, places);
      UnregisteredSame(prev, q, places);
    }
  }

  lemma ReadableSame(prev: Output, q: Request)
    ensures Readable(prev, q) <==> Readable(prev, Unclaimed(q))
  {
  }

  lemma UnregisteredSame(prev: Output, q: Request, places: set<Place>)
    ensures forall test :: Unregistered(prev, q, places, test) <==> Unregistered(prev, Unclaimed(q), places, test)
  {
  }
}
