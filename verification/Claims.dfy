/**
The single-use ledger of targeted retries. Drivers of several worktrees share
it; each creates one file per test it will retry, exclusively, and may be
killed at any point. However they interleave, a retry happens at most once.
*/
module Claims {
  import opened Catalog
  import opened Receipts
  import opened Audit
  import opened Resume

  /** The ledger file of a test of a head. Nothing below needs two tests to have two files. */
  type Address = (Tree, Selector) -> string

  // ---------- One driver alone ----------

  class Ledger {
    var files: set<string>

    constructor (files: set<string>)
      ensures this.files == files
    {
      this.files := files;
    }

    /** Creates a file, failing if it is there. */
    method Create(file: string) returns (created: bool)
      modifies this
      ensures created <==> file !in old(files)
      ensures files == old(files) + {file}
    {
      created := file !in files;
      files := files + {file};
    }

    /**
    Reserves the tests in order and stops at the first that is taken. What was
    created before that stays: a failed attempt spends its part.
    */
    method Claim(address: Address, tree: Tree, order: seq<Selector>) returns (ok: bool, taken: nat)
      modifies this
      ensures taken <= |order| && (ok <==> taken == |order|)
      ensures forall j: nat :: j < taken ==> Free(address, tree, order, old(files), j)
      ensures !ok ==> !Free(address, tree, order, old(files), taken)
      ensures files == old(files) + Files(address, tree, order[..taken])
    {
      taken := 0;
      while taken < |order|
        invariant taken <= |order|
        invariant forall j: nat :: j < taken ==> Free(address, tree, order, old(files), j)
        invariant files == old(files) + Files(address, tree, order[..taken])
      {
        var created := Create(address(tree, order[taken]));
        FilesOneMore(address, tree, order, taken);
        if !created { return false, taken; }
        taken := taken + 1;
      }
      ok := true;
    }
  }

  function Files(address: Address, tree: Tree, order: seq<Selector>): set<string> {
    set t | t in order :: address(tree, t)
  }

  /** The file of test `j` is not there, nor created for an earlier one. */
  predicate Free(address: Address, tree: Tree, order: seq<Selector>, files: set<string>, j: nat) {
    j < |order| && address(tree, order[j]) !in files + Files(address, tree, order[..j])
  }

  lemma FilesOneMore(address: Address, tree: Tree, order: seq<Selector>, k: nat)
    requires k < |order|
    ensures Files(address, tree, order[..k + 1]) == Files(address, tree, order[..k]) + {address(tree, order[k])}
  {
    assert order[..k + 1] == order[..k] + [order[k]];
    assert forall t :: t in order[..k + 1] <==> t in order[..k] || t == order[k];
    assert order[k] in order[..k + 1];
  }

  /** A resume that is accepted waives or retries every failed test, and a waived one was not claimed when asked. */
  lemma FailedIsWaivedOrRetried(prev: Output, q: Request, p: Place, n: Name)
    requires Accepts(prev, q) && p.0 in q.suites && FailCount(RowsAt(prev, p), n) > 0
    ensures var test := (CargoAt(prev, q, p), n);
            if test in q.flakes then !q.claimed(test) else test in q.unregistered
  {
    FailedHasRow(RowsAt(prev, p), n);
    AcceptedReached(prev, q, p);
    assert ExcusedAt(prev, prev.manifest.value, q, p, n);
  }

  // ---------- Many drivers ----------

  /**
  Where a driver is: about to begin; asking of each failed test it would waive
  whether it is claimed; claiming the failed tests its evidence names; running;
  or stopped, by refusal or by a kill.
  */
  datatype Phase = Idle | Checking(todo: set<Selector>) | Claiming | Started | Stopped

  /**
  A resume: the failed tests it waives and those it retries, in claiming order,
  and whether the run it resumes is acceptable as far as no claim stands.
  */
  datatype Driver = Driver(
    tree: Tree,
    waived: set<Selector>,
    retried: seq<Selector>,
    accepted: bool,
    phase: Phase,
    taken: nat,
    /** The ledger when it began. */
    atBegin: set<string>)

  datatype World = World(files: set<string>, drivers: seq<Driver>)

  ghost predicate Initial(w: World) {
    forall i :: 0 <= i < |w.drivers| ==> w.drivers[i].phase == Idle && w.drivers[i].taken == 0
  }

  /** What driver `d` may do next, alone, to itself and to the ledger. */
  ghost predicate Acts(address: Address, files: set<string>, d: Driver, files': set<string>, d': Driver) {
    || (d.phase == Idle && files' == files && d' == d.(phase := Checking(d.waived), atBegin := files))
    || (d.phase.Checking? && files' == files && exists t :: t in d.phase.todo && Checks(address, files, d, t, d'))
    || (d.phase == Checking({}) && d.accepted && files' == files && d' == d.(phase := Claiming))
    || (d.phase == Claiming && d.taken < |d.retried| && Claims(address, files, d, files', d'))
    || (d.phase == Claiming && d.taken == |d.retried| && files' == files && d' == d.(phase := Started))
    || (files' == files && d' == d.(phase := Stopped))
  }

  ghost predicate Checks(address: Address, files: set<string>, d: Driver, t: Selector, d': Driver)
    requires d.phase.Checking?
  {
    if address(d.tree, t) in files then d' == d.(phase := Stopped)
    else d' == d.(phase := Checking(d.phase.todo - {t}))
  }

  ghost predicate Claims(address: Address, files: set<string>, d: Driver, files': set<string>, d': Driver)
    requires d.taken < |d.retried|
  {
    var file := address(d.tree, d.retried[d.taken]);
    if file in files then files' == files && d' == d.(phase := Stopped)
    else files' == files + {file} && d' == d.(taken := d.taken + 1)
  }

  /** One driver acts; the others wait. */
  ghost predicate Step(address: Address, w: World, w': World) {
    && |w'.drivers| == |w.drivers|
    && exists i :: 0 <= i < |w.drivers| && StepOf(address, w, w', i)
  }

  ghost predicate StepOf(address: Address, w: World, w': World, i: nat)
    requires i < |w.drivers| == |w'.drivers|
  {
    && Acts(address, w.files, w.drivers[i], w'.files, w'.drivers[i])
    && w'.drivers == w.drivers[i := w'.drivers[i]]
  }

  ghost predicate Run(address: Address, trace: seq<World>) {
    && trace != []
    && Initial(trace[0])
    && forall k :: 0 <= k < |trace| - 1 ==> Step(address, trace[k], trace[k + 1])
  }

  // ---------- What always holds ----------

  /** The claims a driver holds, or held when it was stopped. */
  function Held(address: Address, d: Driver): set<string>
    requires d.taken <= |d.retried|
  {
    Files(address, d.tree, d.retried[..d.taken])
  }

  ghost predicate Sound(address: Address, files: set<string>, d: Driver) {
    && d.taken <= |d.retried|
    && Held(address, d) <= files
    && (d.phase == Idle ==> d.taken == 0)
    && (d.phase == Started ==> d.taken == |d.retried|)
    && (d.phase != Idle ==> d.atBegin <= files || d.phase == Stopped)
    && (d.phase != Idle && d.phase != Stopped ==> Held(address, d) !! d.atBegin)
    && (d.phase.Checking? ==> d.taken == 0 && d.phase.todo <= d.waived)
    && (d.phase.Checking? ==> forall t :: t in d.waived && t !in d.phase.todo ==> address(d.tree, t) !in d.atBegin)
    && (d.phase == Claiming || d.phase == Started ==> forall t :: t in d.waived ==> address(d.tree, t) !in d.atBegin)
    && (d.phase == Claiming || d.phase == Started ==> d.accepted)
  }

  ghost predicate Invariant(address: Address, w: World) {
    && (forall i :: 0 <= i < |w.drivers| ==> Sound(address, w.files, w.drivers[i]))
    && (forall i, j :: 0 <= i < j < |w.drivers| ==> Held(address, w.drivers[i]) !! Held(address, w.drivers[j]))
  }

  lemma SoundInMore(address: Address, files: set<string>, files': set<string>, d: Driver)
    requires Sound(address, files, d) && files <= files'
    ensures Sound(address, files', d)
  {
  }

  lemma ActKeepsSound(address: Address, files: set<string>, d: Driver, files': set<string>, d': Driver)
    requires Sound(address, files, d) && Acts(address, files, d, files', d')
    ensures Sound(address, files', d') && files <= files'
    ensures Held(address, d') <= Held(address, d) + (files' - files)
    ensures d'.tree == d.tree && d'.waived == d.waived && d'.retried == d.retried
  {
    if d.phase == Claiming && d.taken < |d.retried| {
      FilesOneMore(address, d.tree, d.retried, d.taken);
    }
  }

  lemma StepKeepsInvariant(address: Address, w: World, w': World, i: nat)
    requires Invariant(address, w) && i < |w.drivers| == |w'.drivers| && StepOf(address, w, w', i)
    ensures Invariant(address, w') && w.files <= w'.files
  {
    ActKeepsSound(address, w.files, w.drivers[i], w'.files, w'.drivers[i]);
    forall j | 0 <= j < |w'.drivers| ensures Sound(address, w'.files, w'.drivers[j]) {
      if j != i { SoundInMore(address, w.files, w'.files, w.drivers[j]); }
    }
    forall a, b | 0 <= a < b < |w'.drivers| ensures Held(address, w'.drivers[a]) !! Held(address, w'.drivers[b]) {
      if a == i { assert Held(address, w.drivers[b]) <= w.files; }
      if b == i { assert Held(address, w.drivers[a]) <= w.files; }
    }
  }

  lemma {:induction false} InvariantHolds(address: Address, trace: seq<World>, k: nat)
    requires Run(address, trace) && k < |trace|
    ensures Invariant(address, trace[k])
  {
    if k > 0 {
      InvariantHolds(address, trace, k - 1);
      assert Step(address, trace[k - 1], trace[k - 1 + 1]);
      var i :| 0 <= i < |trace[k - 1].drivers| && StepOf(address, trace[k - 1], trace[k], i);
      StepKeepsInvariant(address, trace[k - 1], trace[k], i);
    } else {
      forall i | 0 <= i < |trace[0].drivers| ensures Held(address, trace[0].drivers[i]) == {} {
        assert trace[0].drivers[i].retried[..0] == [];
      }
    }
  }

  // ---------- At most one retry ----------

  lemma HoldsAll(address: Address, d: Driver, t: Selector)
    requires d.taken == |d.retried| && t in d.retried
    ensures address(d.tree, t) in Held(address, d)
  {
    assert d.retried[..d.taken] == d.retried;
  }

  /** The same driver, later: it keeps what it claimed, running or stopped. */
  ghost predicate Since(was: Driver, d: Driver) {
    && d.tree == was.tree
    && d.waived == was.waived
    && d.retried == was.retried
    && d.accepted == was.accepted
    && was.taken <= d.taken
  }

  lemma ActKeepsClaims(address: Address, files: set<string>, was: Driver, d: Driver, files': set<string>, d': Driver)
    requires Since(was, d) && Acts(address, files, d, files', d')
    ensures Since(was, d')
  {
  }

  lemma StepKeepsClaims(address: Address, was: Driver, w: World, w': World, i: nat)
    requires Step(address, w, w') && i < |w.drivers| && Since(was, w.drivers[i])
    ensures |w'.drivers| == |w.drivers| && Since(was, w'.drivers[i])
  {
    var j :| 0 <= j < |w.drivers| && StepOf(address, w, w', j);
    if j == i {
      ActKeepsClaims(address, w.files, was, w.drivers[i], w'.files, w'.drivers[i]);
    }
  }

  lemma {:induction false} ClaimsStay(address: Address, trace: seq<World>, k: nat, l: nat, i: nat)
    requires Run(address, trace) && k <= l < |trace| && i < |trace[k].drivers|
    ensures |trace[l].drivers| == |trace[k].drivers| && Since(trace[k].drivers[i], trace[l].drivers[i])
    decreases l
  {
    if k < l {
      ClaimsStay(address, trace, k, l - 1, i);
      assert Step(address, trace[l - 1], trace[l - 1 + 1]);
      StepKeepsClaims(address, trace[k].drivers[i], trace[l - 1], trace[l], i);
    }
  }

  /** A driver's claim on a test, once made. */
  ghost predicate Claimed(w: World, i: nat, t: Selector) {
    i < |w.drivers| && w.drivers[i].taken <= |w.drivers[i].retried| && t in w.drivers[i].retried[..w.drivers[i].taken]
  }

  lemma ClaimedStays(address: Address, trace: seq<World>, k: nat, l: nat, i: nat, t: Selector)
    requires Run(address, trace) && k <= l < |trace| && Claimed(trace[k], i, t)
    ensures Claimed(trace[l], i, t) && trace[l].drivers[i].tree == trace[k].drivers[i].tree
  {
    ClaimsStay(address, trace, k, l, i);
    InvariantHolds(address, trace, l);
    var was, d := trace[k].drivers[i], trace[l].drivers[i];
    assert Sound(address, trace[l].files, d);
    assert was.retried[..was.taken] <= d.retried[..d.taken];
  }

  /** Whatever happens to the drivers between, a test of a head is only ever claimed by one of them. */
  lemma AtMostOneClaim(address: Address, trace: seq<World>, a: nat, b: nat, i: nat, j: nat, t: Selector)
    requires Run(address, trace) && a <= b < |trace|
    requires Claimed(trace[a], i, t) && Claimed(trace[b], j, t)
    requires trace[a].drivers[i].tree == trace[b].drivers[j].tree
    ensures i == j
  {
    ClaimedStays(address, trace, a, b, i, t);
    InvariantHolds(address, trace, b);
    var w := trace[b];
    assert address(w.drivers[i].tree, t) in Held(address, w.drivers[i]);
    assert address(w.drivers[j].tree, t) in Held(address, w.drivers[j]);
  }

  lemma StartedClaimedAll(address: Address, trace: seq<World>, k: nat, i: nat, t: Selector)
    requires Run(address, trace) && k < |trace| && i < |trace[k].drivers| && trace[k].drivers[i].phase == Started
    requires t in trace[k].drivers[i].retried
    ensures Claimed(trace[k], i, t)
  {
    InvariantHolds(address, trace, k);
    var d := trace[k].drivers[i];
    assert Sound(address, trace[k].files, d);
    assert d.retried[..d.taken] == d.retried;
  }

  /**
  However the drivers interleave, and whenever they are killed, before they
  start or after, at most one ever starts a retry of a test of a head.
  */
  lemma AtMostOneRetry(address: Address, trace: seq<World>, a: nat, b: nat, i: nat, j: nat, t: Selector)
    requires Run(address, trace) && a < |trace| && b < |trace|
    requires i < |trace[a].drivers| && trace[a].drivers[i].phase == Started && t in trace[a].drivers[i].retried
    requires j < |trace[b].drivers| && trace[b].drivers[j].phase == Started && t in trace[b].drivers[j].retried
    requires trace[a].drivers[i].tree == trace[b].drivers[j].tree
    ensures i == j
  {
    StartedClaimedAll(address, trace, a, i, t);
    StartedClaimedAll(address, trace, b, j, t);
    if a <= b {
      AtMostOneClaim(address, trace, a, b, i, j, t);
    } else {
      AtMostOneClaim(address, trace, b, a, j, i, t);
    }
  }

  /** A driver that starts found none of its failed tests claimed when it began: neither waived nor retried. */
  lemma StartedWereUnclaimed(address: Address, trace: seq<World>, k: nat, i: nat, t: Selector)
    requires Run(address, trace) && k < |trace| && i < |trace[k].drivers| && trace[k].drivers[i].phase == Started
    requires t in trace[k].drivers[i].waived || t in trace[k].drivers[i].retried
    ensures address(trace[k].drivers[i].tree, t) !in trace[k].drivers[i].atBegin
  {
    InvariantHolds(address, trace, k);
    var d := trace[k].drivers[i];
    assert Sound(address, trace[k].files, d);
    if t in d.retried { HoldsAll(address, d, t); }
  }

  /** A driver that had not begun when the ledger held `files`, seen later. */
  ghost predicate BegunSince(files: set<string>, was: Driver, d: Driver) {
    && d.tree == was.tree
    && d.waived == was.waived
    && d.retried == was.retried
    && d.accepted == was.accepted
    && (d.phase == Idle || d.phase == Stopped || files <= d.atBegin)
  }

  lemma ActKeepsBegun(address: Address, base: set<string>, was: Driver, files: set<string>, d: Driver,
                      files': set<string>, d': Driver)
    requires base <= files && BegunSince(base, was, d) && Acts(address, files, d, files', d')
    ensures base <= files' && BegunSince(base, was, d')
  {
  }

  lemma ActOnlyAdds(address: Address, files: set<string>, d: Driver, files': set<string>, d': Driver)
    requires Acts(address, files, d, files', d')
    ensures files <= files'
  {
  }

  lemma StepKeepsBegun(address: Address, base: set<string>, was: Driver, w: World, w': World, i: nat)
    requires Step(address, w, w') && i < |w.drivers| && base <= w.files && BegunSince(base, was, w.drivers[i])
    ensures |w'.drivers| == |w.drivers| && base <= w'.files && BegunSince(base, was, w'.drivers[i])
  {
    var j :| 0 <= j < |w.drivers| && StepOf(address, w, w', j);
    ActOnlyAdds(address, w.files, w.drivers[j], w'.files, w'.drivers[j]);
    if j == i {
      ActKeepsBegun(address, base, was, w.files, w.drivers[i], w'.files, w'.drivers[i]);
    }
  }

  /** What a driver finds when it begins is at least what the ledger had before. */
  lemma {:induction false} BeganLater(address: Address, trace: seq<World>, k: nat, l: nat, i: nat)
    requires Run(address, trace) && k <= l < |trace| && i < |trace[k].drivers|
    requires trace[k].drivers[i].phase == Idle
    ensures trace[k].files <= trace[l].files && i < |trace[l].drivers| == |trace[k].drivers|
    ensures BegunSince(trace[k].files, trace[k].drivers[i], trace[l].drivers[i])
    decreases l
  {
    if k < l {
      BeganLater(address, trace, k, l - 1, i);
      assert Step(address, trace[l - 1], trace[l - 1 + 1]);
      StepKeepsBegun(address, trace[k].files, trace[k].drivers[i], trace[l - 1], trace[l], i);
    }
  }

  lemma LateNeverStarts(address: Address, trace: seq<World>, k: nat, l: nat, i: nat, t: Selector)
    requires Run(address, trace) && k <= l < |trace| && i < |trace[k].drivers|
    requires trace[k].drivers[i].phase == Idle
    requires t in trace[k].drivers[i].waived || t in trace[k].drivers[i].retried
    requires address(trace[k].drivers[i].tree, t) in trace[k].files
    ensures i < |trace[l].drivers| && trace[l].drivers[i].phase != Started
  {
    BeganLater(address, trace, k, l, i);
    if trace[l].drivers[i].phase == Started {
      StartedWereUnclaimed(address, trace, l, i, t);
    }
  }

  // ---------- Drivers that resume a run ----------

  /**
  Driver `d` resumes run `prev`: it waives the failed tests the register
  covers, retries those its evidence names, and its reading of the run is the
  one of `Resume`, with each waived test's claim asked in the ledger of the
  moment.
  */
  ghost predicate Resumes(d: Driver, prev: Output, q: Request) {
    && q.tree == Some(d.tree)
    && prev.manifest.Some?
    && (forall test :: test in d.waived <==> Waived(prev, q, Reached(prev, q.suites), test))
    && (forall test :: test in d.retried <==> test in q.unregistered)
    && (d.accepted <==> Accepts(prev, Unclaimed(q)))
  }

  /** What the steps of a driver decide is what the resume decides with the answers they got. */
  lemma StepsDecideResume(d: Driver, prev: Output, q: Request)
    requires Resumes(d, prev, q)
    ensures Accepts(prev, q) <==> d.accepted && forall test :: test in d.waived ==> !q.claimed(test)
  {
    AcceptsAsked(prev, q);
  }

  /** A driver that may start waives or retries every failed test of the run it resumes. */
  lemma FailedIsAsked(d: Driver, prev: Output, q: Request, p: Place, n: Name)
    requires Resumes(d, prev, q) && d.accepted
    requires p.0 in q.suites && FailCount(RowsAt(prev, p), n) > 0
    ensures (CargoAt(prev, q, p), n) in d.waived || (CargoAt(prev, q, p), n) in d.retried
  {
    var test := (CargoAt(prev, q, p), n);
    FailedIsWaivedOrRetried(prev, Unclaimed(q), p, n);
    FailedHasRow(RowsAt(prev, p), n);
    ReachedExactly(prev, q.suites, p);
    assert test in q.flakes ==> Waived(prev, q, Reached(prev, q.suites), test);
  }

  lemma StartedWasAccepted(address: Address, trace: seq<World>, k: nat, l: nat, i: nat)
    requires Run(address, trace) && k <= l < |trace| && i < |trace[k].drivers|
    requires i < |trace[l].drivers| && trace[l].drivers[i].phase == Started
    ensures trace[k].drivers[i].accepted
  {
    ClaimsStay(address, trace, k, l, i);
    InvariantHolds(address, trace, l);
    assert Sound(address, trace[l].files, trace[l].drivers[i]);
  }

  /**
  Once a test of a head is claimed, no resume that begins afterwards of a run
  in which that test failed ever starts: not by a waiver, and not by another
  retry.
  */
  lemma LateResumeNeverStarts(address: Address, trace: seq<World>, k: nat, l: nat, i: nat,
                              prev: Output, q: Request, p: Place, n: Name)
    requires Run(address, trace) && k <= l < |trace| && i < |trace[k].drivers|
    requires trace[k].drivers[i].phase == Idle && Resumes(trace[k].drivers[i], prev, q)
    requires p.0 in q.suites && FailCount(RowsAt(prev, p), n) > 0
    requires address(trace[k].drivers[i].tree, (CargoAt(prev, q, p), n)) in trace[k].files
    ensures i < |trace[l].drivers| && trace[l].drivers[i].phase != Started
  {
    BeganLater(address, trace, k, l, i);
    if trace[l].drivers[i].phase == Started {
      StartedWasAccepted(address, trace, k, l, i);
      FailedIsAsked(trace[k].drivers[i], prev, q, p, n);
      LateNeverStarts(address, trace, k, l, i, (CargoAt(prev, q, p), n));
    }
  }
}
