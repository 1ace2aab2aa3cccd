/**
When a run may be resumed, told over the files it left: what its shards'
obligations and receipts must say, which failures are forgiven and which
retries must have passed.
*/
module ResumeRule {
  import opened Catalog
  import opened Receipts
  import opened Proxy
  import opened Audit
  import opened Resume
  import Reckoning

  // ---------- What the files say ----------

  /** Shard `i` of the run was asked for this in invocation `p`. */
  ghost predicate Obliged(prev: Output, p: Place, i: nat, w: Obligation) {
    p.0 in prev.shards && i < |prev.shards[p.0]| && Reckoning.Owes(prev.shards[p.0][i], p.1, w)
  }

  ghost predicate Began(prev: Output, p: Place) {
    exists i: nat, w :: Obliged(prev, p, i, w)
  }

  /** The receipt of a shard says the test failed. */
  ghost predicate SaysFailed(d: ShardDir, k: Key, n: Name) {
    k in d.receipts && n in d.receipts[k].reported && d.receipts[k].reported[n] == Failed
  }

  /** It is valid and says the test passed. */
  ghost predicate SaysPassed(d: ShardDir, k: Key, n: Name) {
    k in d.receipts && d.receipts[k].valid && n in d.receipts[k].reported && d.receipts[k].reported[n] == Passed
  }

  ghost function FailedIn(shards: seq<ShardDir>, k: Key, n: Name): set<nat> {
    set i: nat | i < |shards| && SaysFailed(shards[i], k, n)
  }

  /** How many shards of the run report the test failed. */
  ghost function Fails(prev: Output, p: Place, n: Name): nat {
    if p.0 in prev.shards then |FailedIn(prev.shards[p.0], p.1, n)| else 0
  }

  ghost predicate PassedSomewhere(prev: Output, p: Place, n: Name) {
    p.0 in prev.shards && exists i: nat :: i < |prev.shards[p.0]| && SaysPassed(prev.shards[p.0][i], p.1, n)
  }

  lemma ObligedRow(prev: Output, p: Place, i: nat)
    ensures p.0 in prev.shards ==> |RowsAt(prev, p)| == |prev.shards[p.0]|
    ensures (exists w :: Obliged(prev, p, i, w)) <==> i < |RowsAt(prev, p)| && RowsAt(prev, p)[i].Some?
    ensures forall w :: Obliged(prev, p, i, w) ==> RowsAt(prev, p)[i].value.what == w
  {
    if p.0 in prev.shards && i < |prev.shards[p.0]| {
      Reckoning.RankAt(prev.shards[p.0], p.1, i);
      if RowsAt(prev, p)[i].Some? {
        assert Obliged(prev, p, i, RowsAt(prev, p)[i].value.what);
      }
    }
  }

  lemma BeganExactly(prev: Output, p: Place)
    ensures Began(prev, p) <==> Reference(RowsAt(prev, p)).Some?
    ensures Began(prev, p) ==> exists i: nat :: Obliged(prev, p, i, Reference(RowsAt(prev, p)).value)
  {
    var rows := RowsAt(prev, p);
    ReferenceIsARow(rows);
    if Reference(rows).Some? {
      var i: nat :| i < |rows| && rows[i].Some? && rows[i].value.what == Reference(rows).value;
      ObligedRow(prev, p, i);
      var w :| Obliged(prev, p, i, w);
      assert w == Reference(rows).value;
    } else if Began(prev, p) {
      var i: nat, w :| Obliged(prev, p, i, w);
      ObligedRow(prev, p, i);
    }
  }

  lemma {:induction false} FailsCounted(shards: seq<ShardDir>, k: Key, n: Name)
    ensures FailCount(RankOf(TablesOf(shards), k), n) == |FailedIn(shards, k, n)|
  {
    if shards == [] {
      assert FailedIn(shards, k, n) == {};
    } else {
      var last := |shards| - 1;
      var d := shards[last];
      FailsCounted(shards[..last], k, n);
      Reckoning.RankBefore(shards, k);
      Reckoning.RankAt(shards, k, last);
      FailedMore(shards, k, n);
    }
  }

  lemma FailedMore(shards: seq<ShardDir>, k: Key, n: Name)
    requires shards != []
    ensures var last := |shards| - 1;
            (|FailedIn(shards, k, n)|
             == |FailedIn(shards[..last], k, n)| + if SaysFailed(shards[last], k, n) then 1 else 0)
  {
    var last := |shards| - 1;
    var before := FailedIn(shards[..last], k, n);
    var more := if SaysFailed(shards[last], k, n) then {last} else {};
    assert FailedIn(shards, k, n) == before + more;
    assert last !in before;
  }

  lemma FailsExactly(prev: Output, p: Place, n: Name)
    ensures Fails(prev, p, n) == FailCount(RowsAt(prev, p), n)
  {
    if p.0 in prev.shards {
      FailsCounted(prev.shards[p.0], p.1, n);
    }
  }

  lemma PassesExactly(prev: Output, p: Place, n: Name)
    ensures PassedSomewhere(prev, p, n) <==> Passes(RowsAt(prev, p), n)
  {
    var rows := RowsAt(prev, p);
    if p.0 in prev.shards {
      forall i: nat | i < |rows| ensures PassedBy(rows, i, n) <==> SaysPassed(prev.shards[p.0][i], p.1, n) {
        Reckoning.RankAt(prev.shards[p.0], p.1, i);
      }
    }
  }

  // ---------- The run may be read ----------

  ghost predicate InheritedAt(prev: Output, p: Place, entry: Entry) {
    && prev.manifest.Some? && prev.manifest.value.resumedFrom.Some? && prev.snapshot.Some?
    && p in prev.snapshot.value.keys && prev.snapshot.value.keys[p] == entry
  }

  /** What a shard was asked is of this head, is what its siblings were asked, and carries what was inherited. */
  ghost predicate Sound(prev: Output, q: Request, p: Place, w: Obligation) {
    && w.tree == q.tree && w.inputs == q.inputs
    && (forall j: nat, v :: Obliged(prev, p, j, v) ==>
          v.args == w.args && multiset(v.listed) == multiset(w.listed) && v.carried == w.carried)
    && (forall entry :: InheritedAt(prev, p, entry) ==> entry == Entry(multiset(w.listed), w.carried))
    && ((forall entry :: !InheritedAt(prev, p, entry)) ==> w.carried == map[])
  }

  ghost predicate AllSound(prev: Output, q: Request) {
    forall p: Place, i: nat, w :: p.0 in q.suites && Obliged(prev, p, i, w) ==> Sound(prev, q, p, w)
  }

  lemma ConsistentExactly(prev: Output, q: Request, p: Place)
    requires Began(prev, p)
    ensures ConsistentAt(prev, q, p) <==> forall i: nat, w :: Obliged(prev, p, i, w) ==> Sound(prev, q, p, w)
  {
    var rows := RowsAt(prev, p);
    BeganExactly(prev, p);
    var first := Reference(rows).value;
    var f: nat :| Obliged(prev, p, f, first);
    forall i: nat
      ensures (exists w :: Obliged(prev, p, i, w)) <==> i < |rows| && rows[i].Some?
      ensures forall w :: Obliged(prev, p, i, w) ==> rows[i].value.what == w
    {
      ObligedRow(prev, p, i);
    }
    BaseExactly(prev, p, first);
    if ConsistentAt(prev, q, p) {
      forall i: nat, w | Obliged(prev, p, i, w) ensures Sound(prev, q, p, w) {
        SoundLike(prev, q, p, w, first);
      }
    }
    if forall i: nat, w :: Obliged(prev, p, i, w) ==> Sound(prev, q, p, w) {
      assert Sound(prev, q, p, first);
      forall i: nat | i < |rows| && rows[i].Some? ensures SameHead(rows[i].value.what, first, q.tree, q.inputs) {
        var w :| Obliged(prev, p, i, w);
        assert Sound(prev, q, p, w);
      }
    }
  }

  /** The entry inherited, and what agreeing with it means. */
  lemma BaseExactly(prev: Output, p: Place, first: Obligation)
    ensures ((BaseAt(prev, p).Some? ==> BaseAt(prev, p).value.listed == multiset(first.listed))
             && first.carried == (if BaseAt(prev, p).Some? then BaseAt(prev, p).value.ok else map[]))
            <==> && (forall entry :: InheritedAt(prev, p, entry)
                       ==> entry == Entry(multiset(first.listed), first.carried))
                 && ((forall entry :: !InheritedAt(prev, p, entry)) ==> first.carried == map[])
  {
    if BaseAt(prev, p).Some? {
      assert InheritedAt(prev, p, BaseAt(prev, p).value);
    }
  }

  lemma SoundLike(prev: Output, q: Request, p: Place, w: Obligation, first: Obligation)
    requires ConsistentAt(prev, q, p) && Reference(RowsAt(prev, p)) == Some(first)
    requires exists i: nat :: Obliged(prev, p, i, w)
    ensures Sound(prev, q, p, w)
  {
    var rows := RowsAt(prev, p);
    forall j: nat, v | Obliged(prev, p, j, v) ensures SameHead(v, first, q.tree, q.inputs) {
      ObligedRow(prev, p, j);
    }
    BaseExactly(prev, p, first);
  }

  /** The snapshot is the one the manifest names by its digest, written for this head by the run it continues. */
  ghost predicate SnapshotTrusted(prev: Output, q: Request, link: Link) {
    && prev.snapshot.Some?
    && var s := prev.snapshot.value;
      && q.digest(s) == link.digest && s.run == link.run
      && s.tree == q.tree && s.inputs == q.inputs
      && (forall p, n :: p in s.keys && n in s.keys[p].ok ==> n in s.keys[p].listed)
      && (forall p :: p in s.keys ==> p.0 in q.suites)
  }

  /** No receipt of the suite contradicts the obligation it answers. */
  ghost predicate FilesAgree(prev: Output, s: Suite) {
    && s in prev.shards
    && (forall i: nat, k :: i < |prev.shards[s]| && k in prev.shards[s][i].receipts && k in prev.shards[s][i].expected
          ==> prev.shards[s][i].receipts[k].what == prev.shards[s][i].expected[k])
  }

  /** The run is of this head, these inputs and these suites, and none of its files is doubtful. */
  ghost predicate Trusted(prev: Output, q: Request) {
    && prev.manifest.Some?
    && var m := prev.manifest.value;
      && m.tree == q.tree && q.tree != None && m.inputs == q.inputs && q.inputs != None
      && multiset(m.suites) == multiset(q.suites)
      && (forall link :: m.resumedFrom == Some(link) ==> SnapshotTrusted(prev, q, link))
      && (forall e :: e in m.targeted ==> e.place.0 in q.suites)
      && !prev.cleanupPending
      && (forall s :: s in q.suites ==> FilesAgree(prev, s))
      && AllSound(prev, q)
  }

  lemma SoundExactly(prev: Output, q: Request)
    ensures AllConsistent(prev, q, Reached(prev, q.suites)) <==> AllSound(prev, q)
  {
    forall p: Place ensures p in Reached(prev, q.suites) <==> p.0 in q.suites && Began(prev, p) {
      ReachedExactly(prev, q.suites, p);
      BeganExactly(prev, p);
    }
    if AllConsistent(prev, q, Reached(prev, q.suites)) {
      forall p: Place, i: nat, w | p.0 in q.suites && Obliged(prev, p, i, w) ensures Sound(prev, q, p, w) {
        assert ConsistentAt(prev, q, p);
        ConsistentExactly(prev, q, p);
      }
    }
    if AllSound(prev, q) {
      forall p | p in Reached(prev, q.suites) ensures ConsistentAt(prev, q, p) {
        ConsistentExactly(prev, q, p);
      }
    }
  }

  lemma SnapshotExactly(prev: Output, m: Manifest, q: Request)
    ensures SnapshotOk(prev, m, q) <==> forall link :: m.resumedFrom == Some(link) ==> SnapshotTrusted(prev, q, link)
  {
    if m.resumedFrom.Some? {
      assert m.resumedFrom == Some(m.resumedFrom.value);
    }
  }

  lemma FilesExactly(prev: Output, q: Request)
    ensures ShardsReadable(prev, q) <==> !prev.cleanupPending && forall s :: s in q.suites ==> FilesAgree(prev, s)
  {
    forall s | s in prev.shards ensures AllAgree(prev.shards[s]) <==> FilesAgree(prev, s) {
    }
  }

  /** A run can be read exactly if it can be trusted. */
  lemma ReadableExactly(prev: Output, q: Request)
    ensures Readable(prev, q) <==> Trusted(prev, q)
  {
    if prev.manifest.Some? {
      SnapshotExactly(prev, prev.manifest.value, q);
      FilesExactly(prev, q);
      SoundExactly(prev, q);
    }
  }

  // ---------- The verdict ----------

  ghost function EarlierFails(prev: Output, p: Place, n: Name): nat {
    if prev.manifest.Some? && p in prev.manifest.value.failed && n in prev.manifest.value.failed[p]
    then prev.manifest.value.failed[p][n] else 0
  }

  /** A failure that may be passed over: of a flake within its budget, claimed by nobody, or a first with evidence. */
  ghost predicate Forgiven(prev: Output, q: Request, p: Place, n: Name, test: Selector)
    requires prev.manifest.Some?
  {
    && (forall e :: e in prev.manifest.value.targeted ==> (e.cargo, e.test) != test)
    && if test in q.flakes then EarlierFails(prev, p, n) + Fails(prev, p, n) <= 2 && !q.claimed(test)
       else test in q.unregistered && EarlierFails(prev, p, n) == 0 && Fails(prev, p, n) == 1
  }

  ghost predicate AllForgiven(prev: Output, q: Request)
    requires prev.manifest.Some?
  {
    forall p: Place, n, i: nat, w :: p.0 in q.suites && Obliged(prev, p, i, w) && Fails(prev, p, n) > 0
      ==> Forgiven(prev, q, p, n, (q.selector(w.args), n))
  }

  /** Evidence names a test that failed in the run and is no registered flake. */
  ghost predicate Needed(prev: Output, q: Request, test: Selector) {
    && test !in q.flakes
    && exists p: Place, i: nat, w :: p.0 in q.suites && Obliged(prev, p, i, w) && q.selector(w.args) == test.0
                                     && Fails(prev, p, test.1) > 0
  }

  /** The retried test has its pass: from the run itself where it began, or else from what it inherited. */
  ghost predicate Retried(prev: Output, e: Targeted) {
    if Began(prev, e.place) then
      && Fails(prev, e.place, e.test) == 0
      && (PassedSomewhere(prev, e.place, e.test)
          || exists i: nat, w :: Obliged(prev, e.place, i, w) && e.test in w.carried)
    else exists entry :: InheritedAt(prev, e.place, entry) && e.test in entry.ok
  }

  lemma CargoExactly(prev: Output, q: Request, p: Place, i: nat, w: Obligation)
    requires AllSound(prev, q) && p.0 in q.suites && Obliged(prev, p, i, w)
    ensures CargoAt(prev, q, p) == q.selector(w.args)
    ensures Reference(RowsAt(prev, p)).Some? && Reference(RowsAt(prev, p)).value.carried == w.carried
  {
    BeganExactly(prev, p);
    var j: nat :| Obliged(prev, p, j, Reference(RowsAt(prev, p)).value);
    assert Sound(prev, q, p, w);
  }

  lemma ExcusedForgiven(prev: Output, q: Request, p: Place, n: Name, i: nat, w: Obligation)
    requires prev.manifest.Some? && AllSound(prev, q) && p.0 in q.suites && Obliged(prev, p, i, w)
    ensures (ExcusedAt(prev, prev.manifest.value, q, p, n)
             <==> (Fails(prev, p, n) > 0 ==> Forgiven(prev, q, p, n, (q.selector(w.args), n))))
  {
    var m := prev.manifest.value;
    CargoExactly(prev, q, p, i, w);
    FailsExactly(prev, p, n);
    var test := (q.selector(w.args), n);
    assert test in RulesFor(m, q).attempted <==> exists e :: e in m.targeted && (e.cargo, e.test) == test;
  }

  lemma ForgivenExactly(prev: Output, q: Request)
    requires prev.manifest.Some? && AllSound(prev, q)
    ensures AllExcused(prev, prev.manifest.value, q, Reached(prev, q.suites)) <==> AllForgiven(prev, q)
  {
    var m := prev.manifest.value;
    forall p: Place ensures p in Reached(prev, q.suites) <==> p.0 in q.suites && Began(prev, p) {
      ReachedExactly(prev, q.suites, p);
      BeganExactly(prev, p);
    }
    if AllExcused(prev, m, q, Reached(prev, q.suites)) {
      forall p: Place, n, i: nat, w | p.0 in q.suites && Obliged(prev, p, i, w) && Fails(prev, p, n) > 0
        ensures Forgiven(prev, q, p, n, (q.selector(w.args), n))
      {
        assert ExcusedAt(prev, m, q, p, n);
        ExcusedForgiven(prev, q, p, n, i, w);
      }
    }
    if AllForgiven(prev, q) {
      forall p: Place, n | p in Reached(prev, q.suites) ensures ExcusedAt(prev, m, q, p, n) {
        var i: nat, w :| Obliged(prev, p, i, w);
        ExcusedForgiven(prev, q, p, n, i, w);
      }
    }
  }

  lemma NeededExactly(prev: Output, q: Request, test: Selector)
    requires AllSound(prev, q)
    ensures Unregistered(prev, q, Reached(prev, q.suites), test) <==> Needed(prev, q, test)
  {
    forall p: Place
      ensures p in Reached(prev, q.suites) <==> p.0 in q.suites && Began(prev, p)
      ensures Fails(prev, p, test.1) == FailCount(RowsAt(prev, p), test.1)
      ensures (forall i: nat, w :: p.0 in q.suites && Obliged(prev, p, i, w)
                 ==> CargoAt(prev, q, p) == q.selector(w.args))
    {
      ReachedExactly(prev, q.suites, p);
      BeganExactly(prev, p);
      FailsExactly(prev, p, test.1);
      forall i: nat, w | p.0 in q.suites && Obliged(prev, p, i, w) ensures CargoAt(prev, q, p) == q.selector(w.args) {
        CargoExactly(prev, q, p, i, w);
      }
    }
  }

  lemma RetriedExactly(prev: Output, q: Request, e: Targeted)
    requires Readable(prev, q) && AllSound(prev, q) && e.place.0 in q.suites
    ensures var proven := ProvenOf(ReadOf(prev, q), Inherited(prev));
            e.place in proven && e.test in proven[e.place].ok <==> Retried(prev, e)
  {
    var p, m, read := e.place, prev.manifest.value, ReadOf(prev, q);
    ReachedExactly(prev, q.suites, p);
    BeganExactly(prev, p);
    FailsExactly(prev, p, e.test);
    PassesExactly(prev, p, e.test);
    if Began(prev, p) {
      PlaceReads(prev, m, q, p);
      assert ProvedBy(RowsAt(prev, p), m.run, read[p].entry);
      var i: nat, w :| Obliged(prev, p, i, w);
      CargoExactly(prev, q, p, i, w);
      forall j: nat, v | Obliged(prev, p, j, v) ensures v.carried == Reference(RowsAt(prev, p)).value.carried {
        CargoExactly(prev, q, p, j, v);
      }
    } else if p in Inherited(prev) {
      assert InheritedAt(prev, p, Inherited(prev)[p]);
    }
  }

  /**
  A run may be resumed exactly if it can be trusted, each of its failures is
  forgiven, all the evidence given is needed, and every earlier retry passed.
  */
  lemma ResumesExactly(prev: Output, q: Request)
    ensures (Accepts(prev, q)
             <==> && Trusted(prev, q)
                  && AllForgiven(prev, q)
                  && (forall test :: test in q.unregistered ==> Needed(prev, q, test))
                  && (forall e :: e in prev.manifest.value.targeted ==> Retried(prev, e)))
  {
    ReadableExactly(prev, q);
    if Readable(prev, q) {
      AcceptsExactly(prev, q);
      ForgivenExactly(prev, q);
      EvidenceExactly(prev, q);
      RetriesExactly(prev, q);
    }
  }

  lemma RetriesExactly(prev: Output, q: Request)
    requires Readable(prev, q) && Trusted(prev, q)
    ensures (TargetsProven(prev.manifest.value.targeted, ProvenOf(ReadOf(prev, q), Inherited(prev)))
             <==> forall e :: e in prev.manifest.value.targeted ==> Retried(prev, e))
  {
    forall e | e in prev.manifest.value.targeted
      ensures var proven := ProvenOf(ReadOf(prev, q), Inherited(prev));
              e.place in proven && e.test in proven[e.place].ok <==> Retried(prev, e)
    {
      RetriedExactly(prev, q, e);
    }
  }

  /** A failure that is forgiven and no flake has its evidence, so only the other half is left to ask. */
  lemma EvidenceExactly(prev: Output, q: Request)
    requires Trusted(prev, q)
    ensures AllForgiven(prev, q) ==>
              ((forall test :: test in q.unregistered <==> Unregistered(prev, q, Reached(prev, q.suites), test))
               <==> forall test :: test in q.unregistered ==> Needed(prev, q, test))
  {
    forall test ensures Unregistered(prev, q, Reached(prev, q.suites), test) <==> Needed(prev, q, test) {
      NeededExactly(prev, q, test);
    }
    if AllForgiven(prev, q) {
      forall test | Needed(prev, q, test) ensures test in q.unregistered {
        var p: Place, i: nat, w :| p.0 in q.suites && Obliged(prev, p, i, w) && q.selector(w.args) == test.0
                                   && Fails(prev, p, test.1) > 0;
        assert Forgiven(prev, q, p, test.1, (q.selector(w.args), test.1));
      }
    }
  }

  // ---------- What is handed on ----------

  function OriginAt(prev: Output, q: Request): Origin
    requires prev.manifest.Some?
  {
    OriginOf(prev, prev.manifest.value, q, ReadOf(prev, q))
  }

  /** What an invocation proves: carried, or passed in a valid receipt, and in any case failed in none. */
  ghost predicate Proves(prev: Output, p: Place, w: Obligation, run: RunId, entry: Entry) {
    && entry.listed == multiset(w.listed)
    && (forall n :: n in entry.ok
          <==> (n in w.carried || PassedSomewhere(prev, p, n)) && Fails(prev, p, n) == 0)
    && (forall n :: n in entry.ok
          ==> entry.ok[n] == if PassedSomewhere(prev, p, n) then Proof(run) else w.carried[n])
  }

  lemma ProvesExactly(prev: Output, p: Place, w: Obligation, run: RunId, entry: Entry)
    requires Reference(RowsAt(prev, p)).Some? && ProvedBy(RowsAt(prev, p), run, entry)
    requires Reference(RowsAt(prev, p)).value.carried == w.carried
    requires multiset(Reference(RowsAt(prev, p)).value.listed) == multiset(w.listed)
    ensures Proves(prev, p, w, run, entry)
  {
    forall n
      ensures Fails(prev, p, n) == FailCount(RowsAt(prev, p), n)
      ensures PassedSomewhere(prev, p, n) <==> Passes(RowsAt(prev, p), n)
    {
      FailsExactly(prev, p, n);
      PassesExactly(prev, p, n);
    }
  }

  /** The proofs handed on: an invocation's own where it began, and else what the run had inherited for it. */
  lemma ProvenExactly(prev: Output, q: Request, p: Place)
    requires Accepts(prev, q)
    ensures OriginAt(prev, q).run == prev.manifest.value.run
    ensures forall i: nat, w :: p.0 in q.suites && Obliged(prev, p, i, w) ==>
              && p in OriginAt(prev, q).proven
              && Proves(prev, p, w, prev.manifest.value.run, OriginAt(prev, q).proven[p])
    ensures p.0 !in q.suites ==> p !in OriginAt(prev, q).proven
    ensures p.0 in q.suites && !Began(prev, p) ==>
              forall entry :: (p in OriginAt(prev, q).proven && OriginAt(prev, q).proven[p] == entry)
                              <==> InheritedAt(prev, p, entry)
  {
    ReadableExactly(prev, q);
    ReachedExactly(prev, q.suites, p);
    BeganExactly(prev, p);
    if p.0 in q.suites && Began(prev, p) {
      AcceptedReached(prev, q, p);
      forall i: nat, w | Obliged(prev, p, i, w)
        ensures p in OriginAt(prev, q).proven
        ensures Proves(prev, p, w, prev.manifest.value.run, OriginAt(prev, q).proven[p])
      {
        CargoExactly(prev, q, p, i, w);
        var j: nat :| Obliged(prev, p, j, Reference(RowsAt(prev, p)).value);
        assert Sound(prev, q, p, w);
        ProvesExactly(prev, p, w, prev.manifest.value.run, OriginAt(prev, q).proven[p]);
      }
    } else if p.0 in q.suites {
      AcceptedUnreached(prev, q, p);
    }
  }

  /** The failures handed on are those counted before and the run's own, for the suites asked for; none is zero. */
  lemma FailuresExactly(prev: Output, q: Request, p: Place, n: Name)
    requires Accepts(prev, q)
    ensures p.0 !in q.suites ==> p !in OriginAt(prev, q).failures
    ensures p.0 in q.suites ==>
              (var failures := OriginAt(prev, q).failures;
               Count(if p in failures then failures[p] else map[], n) == EarlierFails(prev, p, n) + Fails(prev, p, n))
    ensures (p.0 in q.suites && Began(prev, p) ==>
               var failures := OriginAt(prev, q).failures;
               p in failures && (n in failures[p] <==> EarlierFails(prev, p, n) + Fails(prev, p, n) > 0))
  {
    BeganExactly(prev, p);
    ReachedExactly(prev, q.suites, p);
    FailsExactly(prev, p, n);
    if p.0 in q.suites {
      if Reference(RowsAt(prev, p)).Some? {
        AcceptedReached(prev, q, p);
      } else {
        AcceptedUnreached(prev, q, p);
        ReferenceIsARow(RowsAt(prev, p));
        NoRowsNoFails(RowsAt(prev, p), n);
      }
    }
  }
}
