/**
One test invocation of a shard: the proxy publishes what it owes, runs its
share, keeps a receipt of failures as they appear and replaces it with the
final one. It can be killed between any two of these writes.
*/
module Proxy {
  import opened Catalog
  import opened Receipts
  import P = Partition

  // ---------- Reading the test runner's output ----------

  /** The lines the receipt protocol tells apart. */
  datatype Line =
    | Header(count: nat)
    | Test(name: Name, status: Status)
    | FailureList
    | Summary(status: Status, passed: nat, failed: nat, clean: bool)
    | Other(text: string)

  datatype Seen = Seen(
    active: bool,
    reported: map<Name, Status>,
    repeated: bool,
    headers: seq<nat>,
    summaries: seq<Line>)

  function Read(seen: Seen, line: Line): Seen {
    match line
    case Header(count) => seen.(active := true, headers := seen.headers + [count])
    case Test(name, status) =>
      if seen.active
      then seen.(reported := seen.reported[name := status], repeated := seen.repeated || name in seen.reported)
      else seen
    case FailureList => seen.(active := false)
    case Summary(_, _, _, _) => seen.(active := false, summaries := seen.summaries + [line])
    case Other(_) => seen
  }

  const NOTHING := Seen(false, map[], false, [], [])

  function Observe(lines: seq<Line>): Seen {
    if lines == [] then NOTHING
    else Read(Observe(lines[..|lines| - 1]), lines[|lines| - 1])
  }

  function Having(reported: map<Name, Status>, status: Status): set<Name> {
    set n | n in reported && reported[n] == status
  }

  /** One header, one result per assigned test, and a summary and exit status that agree with them. */
  predicate Complete(seen: Seen, share: seq<Name>, code: int) {
    var passed, failed := |Having(seen.reported, Passed)|, |Having(seen.reported, Failed)|;
    && seen.headers == [|share|]
    && !seen.repeated
    && seen.reported.Keys == (set n | n in share)
    && seen.summaries == [Summary(if failed == 0 then Passed else Failed, passed, failed, true)]
    && (code == 0 <==> failed == 0)
  }

  /** A clean beginning that stopped before its summary. */
  predicate CutShort(seen: Seen, share: seq<Name>, code: int) {
    && seen.headers == [|share|]
    && !seen.repeated
    && seen.summaries == []
    && share != []
    && seen.reported.Keys <= (set n | n in share)
    && code != 0
  }

  ghost predicate Prints(lines: seq<Line>, i: nat, name: Name) {
    i < |lines| && lines[i].Test? && lines[i].name == name && Observe(lines[..i]).active
  }

  /** Line `i` reports a failure of a name that is printed nowhere else. */
  ghost predicate FailsOnce(lines: seq<Line>, i: nat) {
    && i < |lines|
    && lines[i].Test?
    && lines[i].status == Failed
    && Prints(lines, i, lines[i].name)
    && (forall j: nat :: Prints(lines, j, lines[i].name) ==> j == i)
  }

  lemma {:induction false} FailureRemembered(lines: seq<Line>, i: nat, k: nat)
    requires FailsOnce(lines, i) && i < k <= |lines|
    ensures lines[i].name in Observe(lines[..k]).reported
    ensures Observe(lines[..k]).reported[lines[i].name] == Failed
    decreases k
  {
    assert lines[..k][..k - 1] == lines[..k - 1];
    if k - 1 > i {
      FailureRemembered(lines, i, k - 1);
      assert !Prints(lines, k - 1, lines[i].name);
    }
  }

  lemma PrintsEarlier(lines: seq<Line>, i: nat, n: Name)
    requires lines != []
    ensures Prints(lines, i, n) <==>
      if i < |lines| - 1 then Prints(lines[..|lines| - 1], i, n)
      else i == |lines| - 1 && lines[i].Test? && lines[i].name == n && Observe(lines[..i]).active
  {
    if i < |lines| - 1 {
      assert lines[..|lines| - 1][..i] == lines[..i];
    }
  }

  lemma {:induction false} PrintedIsReported(lines: seq<Line>, n: Name)
    ensures n in Observe(lines).reported <==> exists i: nat :: Prints(lines, i, n)
  {
    if lines != [] {
      var last := |lines| - 1;
      PrintedIsReported(lines[..last], n);
      if n in Observe(lines).reported {
        if n in Observe(lines[..last]).reported {
          var i: nat :| Prints(lines[..last], i, n);
          PrintsEarlier(lines, i, n);
        } else {
          PrintsEarlier(lines, last, n);
        }
      }
      if i: nat :| Prints(lines, i, n) {
        PrintsEarlier(lines, i, n);
      }
    }
  }

  lemma {:induction false} OncePrinted(lines: seq<Line>, i: nat, j: nat, n: Name)
    requires !Observe(lines).repeated && Prints(lines, i, n) && Prints(lines, j, n)
    ensures i == j && n in Observe(lines).reported && Observe(lines).reported[n] == lines[i].status
  {
    var last := |lines| - 1;
    PrintsEarlier(lines, i, n);
    PrintsEarlier(lines, j, n);
    PrintedIsReported(lines[..last], n);
    if i < last && j < last {
      OncePrinted(lines[..last], i, j, n);
    }
  }

  /** A name is reported if and only if an active line printed it; without repetition, once and as printed. */
  lemma ReportedIsPrinted(lines: seq<Line>, n: Name)
    ensures n in Observe(lines).reported <==> exists i: nat :: Prints(lines, i, n)
    ensures (!Observe(lines).repeated ==>
               forall i: nat :: Prints(lines, i, n) ==>
                 PrintedOnlyAt(lines, i, n) && Observe(lines).reported[n] == lines[i].status)
  {
    PrintedIsReported(lines, n);
    if !Observe(lines).repeated {
      forall i: nat, j: nat | Prints(lines, i, n) && Prints(lines, j, n)
        ensures i == j && Observe(lines).reported[n] == lines[i].status
      {
        OncePrinted(lines, i, j, n);
      }
    }
  }

  ghost predicate PrintedOnlyAt(lines: seq<Line>, i: nat, n: Name) {
    forall j: nat :: Prints(lines, j, n) ==> j == i
  }

  /** A complete run printed every assigned test exactly once, and no other, each as the receipt has it. */
  lemma CompleteMeansOncePrinted(lines: seq<Line>, share: seq<Name>, code: int, n: Name)
    requires Complete(Observe(lines), share, code)
    ensures n in share <==> exists i: nat :: Prints(lines, i, n)
    ensures (forall i: nat :: Prints(lines, i, n) ==>
               PrintedOnlyAt(lines, i, n) && Observe(lines).reported[n] == lines[i].status)
    ensures code == 0 && n in share ==> Observe(lines).reported[n] == Passed
  {
    ReportedIsPrinted(lines, n);
    var reported := Observe(lines).reported;
    assert n in share <==> n in reported;
    assert n in reported && reported[n] == Failed ==> n in Having(reported, Failed);
  }

  /** A name printed twice can hide its failure; the receipt is then never valid. */
  lemma RepeatedNameHidesFailure()
    ensures var lines := [Header(1), Test("a", Failed), Test("a", Passed)];
            && Prints(lines, 1, "a") && lines[1].status == Failed
            && Observe(lines).reported == map["a" := Passed]
            && forall share, code :: !Complete(Observe(lines), share, code)
  {
    var lines := [Header(1), Test("a", Failed), Test("a", Passed)];
    assert lines[..2] == [Header(1), Test("a", Failed)];
    assert lines[..2][..1] == [Header(1)] == lines[..1];
    assert lines[..1][..0] == [];
    assert Observe(lines[..1]) == Read(NOTHING, Header(1));
    assert Observe(lines[..2]) == Read(Observe(lines[..1]), Test("a", Failed));
    assert Observe(lines) == Read(Observe(lines[..2]), Test("a", Passed));
  }

  // ---------- What a shard owes ----------

  datatype Env = Env(
    suite: Suite,
    index: nat,
    count: nat,
    tree: Option<Tree>,
    inputs: Option<Inputs>,
    snapshot: Option<Snapshot>,
    /** By the run's frozen weights, or by digest. */
    mode: P.Mode,
    express: set<Name>)

  predicate ValidEnv(env: Env) {
    env.index < env.count && !env.mode.RoundRobin?
  }

  /** The listed names that are not carried. */
  function Rest(listed: seq<Name>, carried: map<Name, Proof>): seq<Name> {
    P.Keep(listed, n => n !in carried)
  }

  function ModeOf(env: Env, pinned: bool): P.Mode {
    if pinned then P.Pinned else env.mode
  }

  /** The split every shard of the run must compute for this invocation. */
  predicate SplitAs(env: Env, what: Obligation) {
    && env.count > 0
    && what.groups == P.Groups(Rest(what.listed, what.carried), env.count, what.identity, ModeOf(env, what.pinned),
                               env.express)
  }

  /**
  An obligation made by this run: what was proven is carried, the rest is
  split over the shards, this shard's share is its own group of the split,
  and the head is this run's or none.
  */
  ghost predicate Owed(env: Env, key: Key, what: Obligation) {
    && P.NoDuplicates(what.listed)
    && Resumed(env.snapshot, (env.suite, key), what.listed) == Some(what.carried)
    && |what.groups| == env.count
    && env.index < env.count
    && what.share == what.groups[env.index]
    && SplitAs(env, what)
    && P.Union(what.groups) + multiset(what.carried.Keys) == multiset(what.listed)
    && P.ExpressOnZero(what.groups, env.express)
    && what.inputs == env.inputs
    && (what.tree == None || what.tree == env.tree)
  }

  /** A receipt answers an obligation; the head is read anew, everything else is the same. */
  ghost predicate Answers(env: Env, row: Row, what: Obligation) {
    && row.what == what.(tree := row.what.tree)
    && (row.what.tree == None || row.what.tree == env.tree)
    && !row.pending
    && (row.valid ==> row.reported.Keys == (set n | n in what.share))
  }

  ghost predicate AllOwed(env: Env, expected: map<Key, Obligation>) {
    forall k :: k in expected ==> Owed(env, k, expected[k])
  }

  ghost predicate AllAnswer(env: Env, receipts: map<Key, Row>, expected: map<Key, Obligation>) {
    forall k :: k in receipts ==> k in expected && Answers(env, receipts[k], expected[k])
  }

  /** Everything in the shard's directory was written by its proxies. */
  ghost predicate Honest(env: Env, d: ShardDir) {
    AllOwed(env, d.expected) && AllAnswer(env, d.receipts, d.expected)
  }

  lemma CarriedMultiset(names: seq<Name>, carried: map<Name, Proof>)
    requires P.NoDuplicates(names) && forall n :: n in carried ==> n in names
    ensures multiset(P.Keep(names, n => n in carried)) == multiset(carried.Keys)
  {
    forall n ensures multiset(P.Keep(names, n => n in carried))[n] == multiset(carried.Keys)[n] {
      P.KeepCounts(names, m => m in carried, n);
      assert P.Keep(names, m => m in carried) == P.Keep(names, n => n in carried) by {
        KeepSame(names, m => m in carried, n => n in carried);
      }
      OnceEach(names, n);
    }
  }

  lemma {:induction false} KeepSame(names: seq<Name>, a: Name -> bool, b: Name -> bool)
    requires forall n :: a(n) == b(n)
    ensures P.Keep(names, a) == P.Keep(names, b)
  {
    if names != [] {
      KeepSame(names[..|names| - 1], a, b);
    }
  }

  lemma {:induction false} OnceEach(names: seq<Name>, n: Name)
    requires P.NoDuplicates(names)
    ensures multiset(names)[n] == if n in names then 1 else 0
  {
    if names != [] {
      P.LastElement(names);
      OnceEach(names[..|names| - 1], n);
      assert names == names[..|names| - 1] + [names[|names| - 1]];
    }
  }

  // ---------- Keys ----------

  /** Occurrences of an invocation are numbered from zero with no gap. */
  ghost predicate Numbered(keys: set<Key>) {
    forall k, j: nat :: k in keys && j < k.occurrence ==> Key(k.invocation, j) in keys
  }

  function Occurrences(keys: set<Key>, invocation: string): set<Key> {
    set k | k in keys && k.invocation == invocation
  }

  /** The next occurrence is one no obligation or receipt is named by. */
  lemma NextIsFresh(keys: set<Key>, invocation: string)
    requires Numbered(keys)
    ensures Key(invocation, |Occurrences(keys, invocation)|) !in keys
    ensures Numbered(keys + {Key(invocation, |Occurrences(keys, invocation)|)})
  {
    var held := Occurrences(keys, invocation);
    var n := |held|;
    if Key(invocation, n) in keys {
      FirstCount(invocation, n + 1);
      Within(First(invocation, n + 1), held);
    }
    forall j: nat | j < n ensures Key(invocation, j) in keys {
      if Key(invocation, j) !in keys {
        FirstCount(invocation, j);
        forall k | k in held ensures k in First(invocation, j) {
          assert k.occurrence > j ==> Key(k.invocation, j) in keys;
        }
        Within(held, First(invocation, j));
      }
    }
  }

  function First(invocation: string, n: nat): set<Key> {
    if n == 0 then {} else First(invocation, n - 1) + {Key(invocation, n - 1)}
  }

  lemma {:induction false} FirstCount(invocation: string, n: nat)
    ensures |First(invocation, n)| == n
    ensures forall k :: k in First(invocation, n) <==> k.invocation == invocation && k.occurrence < n
  {
    if n > 0 {
      FirstCount(invocation, n - 1);
      forall k ensures k in First(invocation, n) <==> k.invocation == invocation && k.occurrence < n {
        assert k.invocation == invocation && k.occurrence == n - 1 ==> k == Key(invocation, n - 1);
      }
    }
  }

  lemma {:induction false} Within(a: set<Key>, b: set<Key>)
    requires a <= b
    ensures |a| <= |b|
    decreases a
  {
    if a != {} {
      var k :| k in a;
      Within(a - {k}, b - {k});
    }
  }

  // ---------- One invocation ----------

  /** The head as recorded: only this run's own, else none. */
  function Recorded(env: Env, observed: Option<Tree>): Option<Tree> {
    if observed == env.tree then observed else None
  }

  /** What the shard owes for a listing: refused only if the list changed since the inherited proof. */
  method Oblige(env: Env, key: Key, args: seq<string>, identity: string, names: seq<Name>,
                pinned: bool, observed: Option<Tree>) returns (what: Option<Obligation>)
    requires ValidEnv(env) && P.NoDuplicates(names)
    ensures (what.None? <==>
               && env.snapshot.Some? && (env.suite, key) in env.snapshot.value.keys
               && env.snapshot.value.keys[(env.suite, key)].listed != multiset(names))
    ensures what.Some? ==> Owed(env, key, what.value) && what.value.listed == names
    ensures (what.Some? ==>
               && what.value.args == args && what.value.identity == identity && what.value.pinned == pinned
               && what.value.tree == if observed == env.tree then env.tree else None)
    ensures (what.Some? ==> forall n :: n in what.value.carried <==>
               && n in names && env.snapshot.Some? && (env.suite, key) in env.snapshot.value.keys
               && n in env.snapshot.value.keys[(env.suite, key)].ok)
    ensures (what.Some? ==>
               var mode := if pinned then P.Pinned else env.mode;
               var rest := P.Keep(names, n => n !in what.value.carried);
               what.value.groups == P.Groups(rest, env.count, identity, mode, env.express))
  {
    var resumed := Resumed(env.snapshot, (env.suite, key), names);
    if resumed.None? { return None; }
    var carried := resumed.value;
    var remaining := Rest(names, carried);
    KeepDistinct(names, n => n !in carried);
    var groups := P.Split(remaining, env.count, identity, ModeOf(env, pinned), env.express);
    P.KeepSplits(names, carried.Keys);
    CarriedMultiset(names, carried);
    KeepSame(names, n => n in carried, n => n in carried.Keys);
    KeepSame(names, n => n !in carried, n => n !in carried.Keys);
    assert P.Union(groups.value) + multiset(carried.Keys) == multiset(names);
    what := Some(Obligation(args, identity, names, groups.value, groups.value[env.index], pinned,
                            Recorded(env, observed), env.inputs, carried));
  }

  lemma {:induction false} KeepDistinct(names: seq<Name>, keep: Name -> bool)
    requires P.NoDuplicates(names)
    ensures P.NoDuplicates(P.Keep(names, keep))
  {
    if names != [] {
      KeepDistinct(names[..|names| - 1], keep);
      P.KeepOnly(names[..|names| - 1], keep);
    }
  }

  /** One call of the proxy: what it owes, what the test runner printed and the receipt it ends with. */
  datatype Call = Call(key: Key, what: Obligation, lines: seq<Line>, final: Row)

  /** The receipt an invocation that is not killed ends with. */
  function Final(what: Obligation, lines: seq<Line>, code: int, tree: Option<Tree>): Row {
    var seen := Observe(lines);
    if what.share == [] then Row(what.(tree := tree), map[], true, false, false)
    else Row(what.(tree := tree), seen.reported, Complete(seen, what.share, code),
             CutShort(seen, what.share, code), false)
  }

  /** What is on disk, and how many of the runner's lines its caller has seen. */
  datatype Moment = Moment(dir: ShardDir, forwarded: nat)

  /** The receipt holds a failure. */
  predicate Holds(d: ShardDir, key: Key, name: Name) {
    key in d.receipts && name in d.receipts[key].reported && d.receipts[key].reported[name] == Failed
  }

  /** The names that fail once and for all among the first `k` lines. */
  ghost function Failures(lines: seq<Line>, k: nat): set<Name>
    requires k <= |lines|
  {
    set i: nat | i < k && FailsOnce(lines, i) :: lines[i].name
  }

  /** Every failure among the first `k` lines is stored. */
  ghost predicate Kept(d: ShardDir, c: Call, k: nat)
    requires k <= |c.lines|
  {
    forall n :: n in Failures(c.lines, k) ==> Holds(d, c.key, n)
  }

  /** Only this call's files changed. */
  ghost predicate Only(before: ShardDir, c: Call, d: ShardDir) {
    && d.expected == before.expected[c.key := c.what]
    && d.receipts - {c.key} == before.receipts
  }

  ghost predicate Answered(env: Env, c: Call, d: ShardDir) {
    c.key in d.receipts ==> Answers(env, d.receipts[c.key], c.what)
  }

  ghost predicate ValidIsFinal(c: Call, m: Moment) {
    c.key in m.dir.receipts && m.dir.receipts[c.key].valid ==>
      m.forwarded == |c.lines| && m.dir.receipts[c.key] == c.final
  }

  /**
  What is certain wherever the proxy is killed: the obligation is there, other
  invocations are untouched, a valid receipt is the final one, and every
  failure the caller has seen is stored.
  */
  ghost predicate KillSafe(env: Env, before: ShardDir, c: Call, m: Moment) {
    && Only(before, c, m.dir)
    && Answered(env, c, m.dir)
    && ValidIsFinal(c, m)
    && m.forwarded <= |c.lines|
    && Kept(m.dir, c, m.forwarded)
  }

  lemma Published(env: Env, before: ShardDir, c: Call)
    requires c.key !in before.Keys()
    ensures KillSafe(env, before, c, Moment(ShardDir(before.receipts, before.expected[c.key := c.what]), 0))
  {
    assert before.receipts - {c.key} == before.receipts;
  }

  /** Wherever it is killed, the directory holds only what its proxies wrote. */
  lemma KilledIsHonest(env: Env, before: ShardDir, c: Call, m: Moment)
    requires Honest(env, before) && Owed(env, c.key, c.what) && c.key !in before.Keys()
    requires Only(before, c, m.dir) && Answered(env, c, m.dir)
    ensures Honest(env, m.dir)
  {
    OweOne(env, before.expected, c.key, c.what);
    AnswerOne(env, before, c, m.dir);
  }

  lemma OweOne(env: Env, expected: map<Key, Obligation>, key: Key, what: Obligation)
    requires AllOwed(env, expected) && Owed(env, key, what)
    ensures AllOwed(env, expected[key := what])
  {
  }

  lemma AnswerOne(env: Env, before: ShardDir, c: Call, d: ShardDir)
    requires AllAnswer(env, before.receipts, before.expected) && c.key !in before.Keys()
    requires Only(before, c, d) && Answered(env, c, d)
    ensures AllAnswer(env, d.receipts, d.expected)
  {
    forall k | k in d.receipts ensures k in d.expected && Answers(env, d.receipts[k], d.expected[k]) {
      if k != c.key { assert k in d.receipts - {c.key}; }
    }
  }

  lemma KeptBy(d: ShardDir, c: Call, k: nat)
    requires k <= |c.lines| && c.key in d.receipts
    requires d.receipts[c.key].reported == Observe(c.lines[..k]).reported
    ensures Kept(d, c, k)
  {
    forall n | n in Failures(c.lines, k) ensures Holds(d, c.key, n) {
      var i: nat :| i < k && FailsOnce(c.lines, i) && c.lines[i].name == n;
      FailureRemembered(c.lines, i, k);
    }
  }

  lemma FailuresGrow(lines: seq<Line>, j: nat, k: nat)
    requires j <= k <= |lines|
    ensures Failures(lines, j) <= Failures(lines, k)
    ensures (k == j + 1 ==>
               Failures(lines, k) <= Failures(lines, j) + if FailsOnce(lines, j) then {lines[j].name} else {})
  {
  }

  /** Storing a receipt that answers the call and holds every failure printed so far is safe. */
  lemma Stored(env: Env, before: ShardDir, c: Call, d: ShardDir, forwarded: nat, row: Row, k: nat)
    requires Only(before, c, d)
    requires Answers(env, row, c.what) && forwarded <= k <= |c.lines|
    requires row.valid ==> forwarded == |c.lines| && row == c.final
    requires row.reported == Observe(c.lines[..k]).reported
    ensures KillSafe(env, before, c, Moment(ShardDir(d.receipts[c.key := row], d.expected), forwarded))
    ensures Kept(ShardDir(d.receipts[c.key := row], d.expected), c, k)
  {
    var d' := ShardDir(d.receipts[c.key := row], d.expected);
    KeptBy(d', c, k);
    FailuresGrow(c.lines, forwarded, k);
    assert d'.receipts - {c.key} == d.receipts - {c.key};
  }

  /** Forwarding a line whose failure, if it is one, is stored. */
  lemma Forwarded(env: Env, before: ShardDir, c: Call, d: ShardDir, k: nat)
    requires KillSafe(env, before, c, Moment(d, k)) && k < |c.lines|
    requires c.key in d.receipts ==> !d.receipts[c.key].valid
    requires FailsOnce(c.lines, k) ==> Holds(d, c.key, c.lines[k].name)
    ensures KillSafe(env, before, c, Moment(d, k + 1))
  {
    FailuresGrow(c.lines, k, k + 1);
  }

  /** The trace grew, by safe moments of this call. */
  ghost predicate Extends(earlier: seq<Moment>, trace: seq<Moment>, env: Env, before: ShardDir, c: Call) {
    && |earlier| <= |trace|
    && trace[..|earlier|] == earlier
    && forall t :: |earlier| <= t < |trace| ==> KillSafe(env, before, c, trace[t])
  }

  class Shard {
    var receipts: map<Key, Row>
    var expected: map<Key, Obligation>
    /** Every state of the disk since the shard began, with the lines then forwarded for the call in progress. */
    ghost var trace: seq<Moment>

    function Dir(): ShardDir
      reads this
    {
      ShardDir(receipts, expected)
    }

    constructor ()
      ensures Dir() == EMPTY_DIR && trace == []
    {
      receipts, expected, trace := map[], map[], [];
    }

    method Publish(key: Key, what: Obligation)
      modifies this
      ensures expected == old(expected)[key := what] && receipts == old(receipts)
      ensures trace == old(trace) + [Moment(Dir(), 0)]
    {
      expected := expected[key := what];
      trace := trace + [Moment(ShardDir(receipts, expected), 0)];
    }

    method SaveReceipt(key: Key, row: Row, ghost forwarded: nat)
      modifies this
      ensures receipts == old(receipts)[key := row] && expected == old(expected)
      ensures trace == old(trace) + [Moment(Dir(), forwarded)]
    {
      receipts := receipts[key := row];
      trace := trace + [Moment(ShardDir(receipts, expected), forwarded)];
    }

    method Forward(ghost forwarded: nat)
      modifies this`trace
      ensures trace == old(trace) + [Moment(Dir(), forwarded)]
    {
      trace := trace + [Moment(ShardDir(receipts, expected), forwarded)];
    }

    /**
    Reads the runner's output line by line. A failure is stored before its line
    is forwarded; `heads` is the head as observed at each write.
    */
    method RunTests(env: Env, c: Call, heads: nat -> Option<Tree>, ghost before: ShardDir) returns (seen: Seen)
      requires KillSafe(env, before, c, Moment(Dir(), 0)) && c.key !in before.Keys() && c.key !in receipts
      modifies this
      ensures seen == Observe(c.lines)
      ensures KillSafe(env, before, c, Moment(Dir(), |c.lines|))
      ensures Extends(old(trace), trace, env, before, c)
    {
      seen := NOTHING;
      var saves := 1;
      for k := 0 to |c.lines|
        invariant seen == Observe(c.lines[..k])
        invariant c.key in receipts ==> !receipts[c.key].valid
        invariant KillSafe(env, before, c, Moment(Dir(), k))
        invariant Extends(old(trace), trace, env, before, c)
      {
        var line := c.lines[k];
        assert c.lines[..k + 1][..k] == c.lines[..k];
        var failed := line.Test? && seen.active && line.status == Failed;
        seen := Read(seen, line);
        if failed {
          var row := Row(c.what.(tree := Recorded(env, heads(saves))), seen.reported, false, false, false);
          Stored(env, before, c, Dir(), k, row, k + 1);
          SaveReceipt(c.key, row, k);
          saves := saves + 1;
        }
        Forwarded(env, before, c, Dir(), k);
        Forward(k + 1);
      }
      assert c.lines[..|c.lines|] == c.lines;
    }

    /** Publishes what is owed, runs the share and stores the final receipt. */
    method Perform(env: Env, c: Call, code: int, heads: nat -> Option<Tree>, last: Option<Tree>)
      requires c.key !in Dir().Keys()
      requires c.final == Final(c.what, c.lines, code, Recorded(env, last))
      requires c.what.share == [] ==> c.lines == []
      modifies this
      ensures Extends(old(trace), trace, env, old(Dir()), c)
      ensures Only(old(Dir()), c, Dir()) && Answered(env, c, Dir())
      ensures c.key in receipts && receipts[c.key] == c.final
    {
      ghost var before := Dir();
      Published(env, before, c);
      Publish(c.key, c.what);
      var row := Row(c.what.(tree := Recorded(env, last)), map[], true, false, false);
      if c.what.share != [] {
        var seen := RunTests(env, c, heads, before);
        row := Row(row.what, seen.reported, Complete(seen, c.what.share, code), CutShort(seen, c.what.share, code),
                   false);
      }
      assert row == c.final;
      assert c.lines[..|c.lines|] == c.lines;
      Stored(env, before, c, Dir(), |c.lines|, row, |c.lines|);
      SaveReceipt(c.key, row, |c.lines|);
    }

    /**
    One invocation, killed or not: every state it passes through is safe, and
    its last one has the final receipt.
    */
    method Invoke(env: Env, invocation: string, args: seq<string>, identity: string, names: seq<Name>, pinned: bool,
                  lines: seq<Line>, code: int, heads: nat -> Option<Tree>, last: Option<Tree>)
        returns (call: Option<Call>)
      requires ValidEnv(env) && P.NoDuplicates(names)
      requires Honest(env, Dir()) && Numbered(Dir().Keys())
      modifies this
      ensures Honest(env, Dir()) && Numbered(Dir().Keys())
      ensures call.None? ==> Dir() == old(Dir()) && trace == old(trace)
      ensures call.Some? ==> call.value.key !in old(Dir()).Keys() && call.value.key.invocation == invocation
      ensures call.Some? ==> Owed(env, call.value.key, call.value.what) && call.value.what.listed == names
      ensures call.Some? ==> call.value.lines == if call.value.what.share == [] then [] else lines
      ensures (call.Some? ==>
                 var tree := if last == env.tree then env.tree else None;
                 call.value.final == Final(call.value.what, call.value.lines, code, tree))
      ensures call.Some? ==> Extends(old(trace), trace, env, old(Dir()), call.value)
      ensures call.Some? ==> call.value.key in receipts && receipts[call.value.key] == call.value.final
    {
      ghost var before := Dir();
      var key := Key(invocation, |Occurrences(Dir().Keys(), invocation)|);
      NextIsFresh(Dir().Keys(), invocation);
      var what := Oblige(env, key, args, identity, names, pinned, heads(0));
      if what.None? { return None; }
      var printed := if what.value.share == [] then [] else lines;
      var c := Call(key, what.value, printed, Final(what.value, printed, code, Recorded(env, last)));
      Perform(env, c, code, heads, last);
      KilledIsHonest(env, before, c, Moment(Dir(), 0));
      OneMoreKey(before, c, Dir());
      call := Some(c);
    }
  }

  lemma OneMoreKey(before: ShardDir, c: Call, d: ShardDir)
    requires Only(before, c, d)
    ensures d.Keys() == before.Keys() + {c.key}
  {
    assert d.receipts.Keys - {c.key} == (d.receipts - {c.key}).Keys;
  }

  // ---------- Reading a killed shard back ----------

  /**
  Wherever the proxy is killed once its obligation is out, the shard reads
  back with a row for the invocation, or is refused because the head changed
  under it. That row proves a test passed only if it is the final receipt.
  */
  lemma KilledReadsBack(env: Env, before: ShardDir, c: Call, m: Moment)
    requires Agrees(before) && c.key !in before.Keys()
    requires KillSafe(env, before, c, m)
    ensures c.key in Rows(m.dir)
    ensures Rows(m.dir)[c.key].what == c.what.(tree := Rows(m.dir)[c.key].what.tree)
    ensures Rows(m.dir)[c.key].what.tree in {c.what.tree, env.tree, None}
    ensures Rows(m.dir)[c.key].pending <==> c.key !in m.dir.receipts
    ensures Agrees(m.dir) <==> Rows(m.dir)[c.key].what.tree == c.what.tree
    ensures Rows(m.dir)[c.key].valid ==> m.forwarded == |c.lines| && Rows(m.dir)[c.key] == c.final
    ensures forall k :: k in Rows(before) ==> k in Rows(m.dir) && Rows(m.dir)[k] == Rows(before)[k]
    ensures forall n :: n in Failures(c.lines, m.forwarded)
              ==> n in Rows(m.dir)[c.key].reported && Rows(m.dir)[c.key].reported[n] == Failed
  {
    var d := m.dir;
    OneMoreKey(before, c, d);
    forall k | k in before.Keys() ensures Same(before, d, k) {
      SameElsewhere(before, c, d, k);
    }
    assert forall n :: n in Failures(c.lines, m.forwarded) ==> Holds(d, c.key, n);
  }

  /** Key `k` has the same files in both. */
  ghost predicate Same(a: ShardDir, b: ShardDir, k: Key) {
    && (k in a.receipts <==> k in b.receipts)
    && (k in a.expected <==> k in b.expected)
    && (k in a.receipts ==> a.receipts[k] == b.receipts[k])
    && (k in a.expected ==> a.expected[k] == b.expected[k])
  }

  lemma SameElsewhere(before: ShardDir, c: Call, d: ShardDir, k: Key)
    requires Only(before, c, d) && k != c.key
    ensures Same(before, d, k)
  {
    assert k in d.receipts <==> k in d.receipts - {c.key};
  }
}
