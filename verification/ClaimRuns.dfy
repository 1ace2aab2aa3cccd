/**
How far a driver gets that nobody disturbs: its steps are those of the ledger's
own loop, and it starts wherever the claims let it.
*/
module ClaimRuns {
  import opened Catalog
  import opened Receipts
  import opened Resume
  import opened Claims

  /** Some steps, none or more, lead from one world to another. */
  ghost predicate Leads(address: Address, w: World, w': World) {
    exists trace: seq<World> :: Between(address, trace, w, w')
  }

  ghost predicate Between(address: Address, trace: seq<World>, w: World, w': World) {
    && trace != [] && trace[0] == w && trace[|trace| - 1] == w'
    && forall k :: 0 <= k < |trace| - 1 ==> Step(address, trace[k], trace[k + 1])
  }

  /** The world where driver `i` and the ledger have moved on. */
  function With(w: World, i: nat, files: set<string>, d: Driver): World
    requires i < |w.drivers|
  {
    World(files, w.drivers[i := d])
  }

  lemma WithTwice(w: World, i: nat, files: set<string>, d: Driver, files': set<string>, d': Driver)
    requires i < |w.drivers|
    ensures With(With(w, i, files, d), i, files', d') == With(w, i, files', d')
  {
  }

  lemma LeadsToItself(address: Address, w: World)
    ensures Leads(address, w, w)
  {
    assert Between(address, [w], w, w);
  }

  lemma LeadsOn(address: Address, w: World, now: World, i: nat, files: set<string>, d: Driver)
    requires Leads(address, w, now) && i < |now.drivers|
    requires Acts(address, now.files, now.drivers[i], files, d)
    ensures Leads(address, w, With(now, i, files, d))
  {
    var trace :| Between(address, trace, w, now);
    var next := With(now, i, files, d);
    assert StepOf(address, now, next, i);
    var longer := trace + [next];
    forall k | 0 <= k < |longer| - 1 ensures Step(address, longer[k], longer[k + 1]) {
      if k < |trace| - 1 { assert Step(address, trace[k], trace[k + 1]); }
    }
    assert Between(address, longer, w, next);
  }

  /** A driver may be stopped wherever it is. */
  lemma StoppedAnywhere(address: Address, w: World, i: nat)
    requires i < |w.drivers|
    ensures Step(address, w, With(w, i, w.files, w.drivers[i].(phase := Stopped)))
  {
    assert StepOf(address, w, With(w, i, w.files, w.drivers[i].(phase := Stopped)), i);
  }

  /** Where no waived test is claimed, every one is asked in turn. */
  lemma {:induction false} AsksAll(address: Address, w: World, now: World, i: nat, todo: set<Selector>)
    requires Leads(address, w, now) && i < |now.drivers| && now.drivers[i].phase == Checking(todo)
    requires forall t :: t in todo ==> address(now.drivers[i].tree, t) !in now.files
    ensures Leads(address, w, With(now, i, now.files, now.drivers[i].(phase := Checking({}))))
    decreases todo
  {
    var d := now.drivers[i];
    if todo == {} {
      assert With(now, i, now.files, d.(phase := Checking({}))) == now;
    } else {
      var t :| t in todo;
      var d' := d.(phase := Checking(todo - {t}));
      assert Checks(address, now.files, d, t, d');
      LeadsOn(address, w, now, i, now.files, d');
      AsksAll(address, w, With(now, i, now.files, d'), i, todo - {t});
      assert With(With(now, i, now.files, d'), i, now.files, d.(phase := Checking({})))
        == With(now, i, now.files, d.(phase := Checking({})));
    }
  }

  /** Tests whose files are free are claimed in order. */
  lemma {:induction false} ClaimsUpTo(address: Address, w: World, now: World, i: nat, n: nat)
    requires Leads(address, w, now) && i < |now.drivers|
    requires now.drivers[i].phase == Claiming && now.drivers[i].taken == 0 && n <= |now.drivers[i].retried|
    requires forall j: nat :: j < n ==> Free(address, now.drivers[i].tree, now.drivers[i].retried, now.files, j)
    ensures var d := now.drivers[i];
            Leads(address, w, With(now, i, now.files + Files(address, d.tree, d.retried[..n]), d.(taken := n)))
  {
    var d := now.drivers[i];
    if n == 0 {
      assert d.retried[..0] == [] && Files(address, d.tree, d.retried[..0]) == {};
      assert now.files + {} == now.files && d.(taken := 0) == d;
      assert With(now, i, now.files, d) == now;
    } else {
      ClaimsUpTo(address, w, now, i, n - 1);
      var before := now.files + Files(address, d.tree, d.retried[..n - 1]);
      var after := now.files + Files(address, d.tree, d.retried[..n]);
      FilesOneMore(address, d.tree, d.retried, n - 1);
      assert Free(address, d.tree, d.retried, now.files, n - 1);
      assert after == before + {address(d.tree, d.retried[n - 1])};
      var was := With(now, i, before, d.(taken := n - 1));
      LeadsOn(address, w, was, i, after, d.(taken := n));
      assert With(was, i, after, d.(taken := n)) == With(now, i, after, d.(taken := n));
    }
  }

  /**
  A claiming driver that nobody disturbs does what the ledger's loop does: it
  starts with all its tests claimed, or stops at the first that is taken and
  leaves the claims it made.
  */
  lemma ClaimsAsTheLedger(address: Address, w: World, i: nat, n: nat)
    requires i < |w.drivers| && w.drivers[i].phase == Claiming && w.drivers[i].taken == 0
    requires n <= |w.drivers[i].retried|
    requires forall j: nat :: j < n ==> Free(address, w.drivers[i].tree, w.drivers[i].retried, w.files, j)
    requires (n < |w.drivers[i].retried| ==>
                !Free(address, w.drivers[i].tree, w.drivers[i].retried, w.files, n))
    ensures var d := w.drivers[i];
            Leads(address, w, With(w, i, w.files + Files(address, d.tree, d.retried[..n]),
                                   d.(taken := n, phase := if n == |d.retried| then Started else Stopped)))
  {
    var d := w.drivers[i];
    LeadsToItself(address, w);
    ClaimsUpTo(address, w, w, i, n);
    var files := w.files + Files(address, d.tree, d.retried[..n]);
    var now := With(w, i, files, d.(taken := n));
    var d' := d.(taken := n, phase := if n == |d.retried| then Started else Stopped);
    LeadsOn(address, w, now, i, files, d');
    assert With(now, i, files, d') == With(w, i, files, d');
  }

  /** A resume of an acceptable run starts if none of its tests is claimed, whoever else there is. */
  lemma UnclaimedStarts(address: Address, w: World, i: nat)
    requires i < |w.drivers| && w.drivers[i].phase == Idle && w.drivers[i].taken == 0 && w.drivers[i].accepted
    requires forall t :: t in w.drivers[i].waived ==> address(w.drivers[i].tree, t) !in w.files
    requires (forall j: nat :: j < |w.drivers[i].retried|
                ==> Free(address, w.drivers[i].tree, w.drivers[i].retried, w.files, j))
    ensures var d := w.drivers[i];
            Leads(address, w, With(w, i, w.files + Files(address, d.tree, d.retried),
                                   d.(taken := |d.retried|, phase := Started, atBegin := w.files)))
  {
    var d := w.drivers[i];
    var asking := d.(phase := Checking(d.waived), atBegin := w.files);
    LeadsToItself(address, w);
    LeadsOn(address, w, w, i, w.files, asking);
    var now := With(w, i, w.files, asking);
    AsksAll(address, w, now, i, d.waived);
    var asked := With(now, i, w.files, asking.(phase := Checking({})));
    LeadsOn(address, w, asked, i, w.files, asking.(phase := Claiming));
    var claiming := With(asked, i, w.files, asking.(phase := Claiming));
    ClaimsAll(address, w, claiming, i);
    var files, started := w.files + Files(address, d.tree, d.retried),
                          d.(taken := |d.retried|, phase := Started, atBegin := w.files);
    WithTwice(w, i, w.files, asking, w.files, asking.(phase := Checking({})));
    WithTwice(w, i, w.files, asking.(phase := Checking({})), w.files, asking.(phase := Claiming));
    WithTwice(w, i, w.files, asking.(phase := Claiming), files, started);
  }

  lemma ClaimsAll(address: Address, w: World, now: World, i: nat)
    requires Leads(address, w, now) && i < |now.drivers|
    requires now.drivers[i].phase == Claiming && now.drivers[i].taken == 0
    requires (forall j: nat :: j < |now.drivers[i].retried|
                ==> Free(address, now.drivers[i].tree, now.drivers[i].retried, now.files, j))
    ensures var d := now.drivers[i];
            Leads(address, w, With(now, i, now.files + Files(address, d.tree, d.retried),
                                   d.(taken := |d.retried|, phase := Started)))
  {
    var d := now.drivers[i];
    ClaimsUpTo(address, w, now, i, |d.retried|);
    assert d.retried[..|d.retried|] == d.retried;
    var files := now.files + Files(address, d.tree, d.retried);
    var claimed := With(now, i, files, d.(taken := |d.retried|));
    LeadsOn(address, w, claimed, i, files, d.(taken := |d.retried|, phase := Started));
    assert With(claimed, i, files, d.(taken := |d.retried|, phase := Started))
      == With(now, i, files, d.(taken := |d.retried|, phase := Started));
  }
}
