/**
That the ordering and its refusals ask no more than the engine does: a drop
waits only for one without which the engine refuses it, and a plan is refused
only for a change the engine refuses whatever the order.
*/
module DropDemand {
  import opened Catalog
  import opened Settle
  import opened DropOrder
  import opened DropEngine
  import Cycles

  // ---------- A drop waits only where the engine makes it ----------

  /** The engine where everything is gone but what change `c` removes. */
  function OnlyItsOwn(edges: seq<ExpressionEdge>, alike: Alike, c: Change): Engine {
    var all := Initial(edges);
    var rest := Execute(all, c, alike);
    Engine(all.computed - rest.computed, all.modules - rest.modules)
  }

  /** The engine refuses the change at `at` while what the change at `p` removes stands, if only that stands. */
  predicate Demands(plan: seq<Change>, edges: seq<ExpressionEdge>, alike: Alike, at: nat, p: nat)
    requires at < |plan| && p < |plan|
  {
    !Enabled(OnlyItsOwn(edges, alike, plan[p]), edges, alike, plan, plan[at])
  }

  /** Both drop an object of one name. */
  predicate SameObject(plan: seq<Change>, alike: Alike, at: nat, p: nat)
    requires at < |plan| && p < |plan|
  {
    || (plan[at].DropModule? && Destroys(plan[p], alike, plan[at].id.ObjectName()))
    || (plan[at].DropTable? && Destroys(plan[p], alike, plan[at].table))
  }

  lemma ComputedRemoved(edges: seq<ExpressionEdge>, alike: Alike, c: Change, e: ExpressionEdge)
    requires e in edges && e.fromColumn.Some? && TakesColumn(c, alike, e)
    ensures (e.from, e.fromColumn.value) in OnlyItsOwn(edges, alike, c).computed
  {
    assert (e.from, e.fromColumn.value) in Initial(edges).computed;
  }

  lemma ModuleRemoved(edges: seq<ExpressionEdge>, alike: Alike, c: Change, e: ExpressionEdge)
    requires e in edges && SchemaBound(e)
    requires Destroys(c, alike, e.from)
    ensures e.from in OnlyItsOwn(edges, alike, c).modules
  {
    assert e.from in Initial(edges).modules;
  }

  /** A drop that waits for another is one the engine refuses while the other has not run, and takes once it has. */
  lemma WaitsIsDemanded(plan: seq<Change>, names: PlanNames, edges: seq<ExpressionEdge>, alike: Alike, at: nat, p: nat)
    requires at < |plan| && p < |plan| && Waits(plan, at, p, edges, names, alike)
    requires Resolves(plan, names) && alike.Transitive() && !SameObject(plan, alike, at, p)
    ensures Demands(plan, edges, alike, at, p)
    ensures Enabled(Execute(OnlyItsOwn(edges, alike, plan[p]), plan[p], alike), edges, alike, plan, plan[at])
  {
    var c, d := plan[at], plan[p];
    var left := Execute(OnlyItsOwn(edges, alike, d), d, alike);
    assert left.computed == {} && left.modules == {};
    if c.DropComputedColumn? {
      var e :| e in edges && BoundToColumn(e, alike, c.table, c.computed) && alike.Object(e.from, d.id.ObjectName());
      ModuleRemoved(edges, alike, d, e);
    } else if c.DropColumn? {
      ReaderDemanded(plan, names, edges, alike, at, p);
    } else if c.DropModule? && Releases(d, p, edges, names, alike, c.id.ObjectName()) {
      var e :| e in edges && CallsObject(e, alike, c.id.ObjectName())
               && (RemovesColumn(d, names, alike, p, e.from, e.fromColumn.value) || RemovesTable(d, alike, e.from));
      ComputedRemoved(edges, alike, d, e);
    } else {
      BoundDemanded(plan, edges, alike, at, p);
    }
  }

  lemma ReaderDemanded(plan: seq<Change>, names: PlanNames, edges: seq<ExpressionEdge>, alike: Alike, at: nat, p: nat)
    requires at < |plan| && p < |plan| && plan[at].DropColumn? && Waits(plan, at, p, edges, names, alike)
    requires Resolves(plan, names) && alike.Transitive()
    ensures Demands(plan, edges, alike, at, p)
  {
    var c, d := plan[at], plan[p];
    var e :| e in edges && ReadsColumn(e, alike, c.table, c.column) && alike.Same(e.fromColumn.value, d.computed);
    alike.ObjectTransitive(e.from, c.table, d.table);
    ComputedRemoved(edges, alike, d, e);
  }

  lemma BoundDemanded(plan: seq<Change>, edges: seq<ExpressionEdge>, alike: Alike, at: nat, p: nat)
    requires at < |plan| && p < |plan| && DroppedObject(plan[at]).Some?
    requires DropsBound(plan[p], edges, alike, DroppedObject(plan[at]).value)
    requires alike.Transitive() && !SameObject(plan, alike, at, p)
    ensures Demands(plan, edges, alike, at, p)
  {
    var o, d := DroppedObject(plan[at]).value, DroppedObject(plan[p]).value;
    var e :| e in edges && SchemaBound(e) && alike.Object(e.from, d) && alike.Object(e.to, o);
    if alike.Object(e.from, o) {
      alike.ObjectTransitive(d, e.from, o);
    }
    assert DropsObject(plan, alike, e.from);
    ModuleRemoved(edges, alike, plan[p], e);
  }

  /** No two drops of the plan are of objects of one name. */
  ghost predicate DropsApart(plan: seq<Change>, alike: Alike) {
    forall at, p :: 0 <= at < p < |plan| ==> !SameObject(plan, alike, at, p) && !SameObject(plan, alike, p, at)
  }

  /** A chain of drops each of which the engine refuses before the one before it has run. */
  ghost predicate DemandPath(plan: seq<Change>, edges: seq<ExpressionEdge>, alike: Alike, path: seq<nat>, a: nat,
                             b: nat)
  {
    && path != [] && path[0] == a && path[|path| - 1] == b
    && (forall i :: 0 <= i < |path| ==> path[i] < |plan|)
    && (forall i :: 0 <= i < |path| - 1 ==> Demands(plan, edges, alike, path[i + 1], path[i]))
  }

  lemma ConstraintIsDemanded(plan: seq<Change>, names: PlanNames, edges: seq<ExpressionEdge>, alike: Alike, e: Edge)
    requires e in Constraints(plan, edges, names, alike, {})
    requires Resolves(plan, names) && alike.Transitive() && DropsApart(plan, alike)
    ensures e.before < |plan| && e.after < |plan| && Demands(plan, edges, alike, e.after, e.before)
  {
    WaitsIsDemanded(plan, names, edges, alike, e.after, e.before);
  }

  /**
  A plan without annotations is refused as a cycle only over drops that the
  engine itself cannot order: from each of the cycle's members to each other a
  chain of them leads, every one refused until the one before it has run.
  */
  lemma CyclesAreDemanded(plan: seq<Change>, names: PlanNames, edges: seq<ExpressionEdge>, alike: Alike,
                          members: set<nat>, a: nat, b: nat) returns (path: seq<nat>)
    requires Cycles.FirstComponent(Constraints(plan, edges, names, alike, {}), members)
    requires Resolves(plan, names) && alike.Transitive() && DropsApart(plan, alike)
    requires a in members && b in members
    ensures DemandPath(plan, edges, alike, path, a, b)
  {
    var constraints := Constraints(plan, edges, names, alike, {});
    path :| Cycles.Path(constraints, path, a, b);
    if |path| == 1 {
      var c :| c in members && c != a;
      path := RoundTrip(constraints, a, c);
    }
    PathIsDemanded(plan, names, edges, alike, path, a, b);
  }

  lemma PathIsDemanded(plan: seq<Change>, names: PlanNames, edges: seq<ExpressionEdge>, alike: Alike, path: seq<nat>,
                       a: nat, b: nat)
    requires Cycles.Path(Constraints(plan, edges, names, alike, {}), path, a, b) && |path| > 1
    requires Resolves(plan, names) && alike.Transitive() && DropsApart(plan, alike)
    ensures DemandPath(plan, edges, alike, path, a, b)
  {
    forall i | 0 <= i < |path| ensures path[i] < |plan| {
      var j := if i == 0 then 0 else i - 1;
      ConstraintIsDemanded(plan, names, edges, alike, Edge(path[j], path[j + 1]));
    }
    forall i | 0 <= i < |path| - 1 ensures Demands(plan, edges, alike, path[i + 1], path[i]) {
      ConstraintIsDemanded(plan, names, edges, alike, Edge(path[i], path[i + 1]));
    }
  }

  lemma RoundTrip(constraints: set<Edge>, a: nat, c: nat) returns (path: seq<nat>)
    requires a != c && Cycles.Mutual(constraints, a, c)
    ensures Cycles.Path(constraints, path, a, a) && |path| > 1
  {
    var there :| Cycles.Path(constraints, there, a, c);
    var back :| Cycles.Path(constraints, back, c, a);
    path := there + back[1..];
    forall i | 0 <= i < |path| - 1 ensures Edge(path[i], path[i + 1]) in constraints {
      if i >= |there| - 1 {
        assert path[i] == back[i - (|there| - 1)] && path[i + 1] == back[i - (|there| - 1) + 1];
      }
    }
  }

  /** A drop runs later than a change listed after it only while one it is refused without has not run. */
  lemma MovesAreDemanded(plan: seq<Change>, names: PlanNames, edges: seq<ExpressionEdge>, alike: Alike,
                         sequence: seq<nat>, k: nat, i: nat) returns (p: nat)
    requires SettlesTo(plan, names, edges, alike, {}, sequence)
    requires Resolves(plan, names) && alike.Transitive() && DropsApart(plan, alike)
    requires k < |sequence| && i < sequence[k] && i !in sequence[..k]
    ensures p < |plan| && i < |plan| && Demands(plan, edges, alike, i, p) && p !in sequence[..k]
  {
    var constraints := Constraints(plan, edges, names, alike, {});
    OnlyHeldStepsSink(|plan|, constraints, sequence, k, i);
    var e :| e in constraints && e.after == i && e.before !in sequence[..k];
    ConstraintIsDemanded(plan, names, edges, alike, e);
    p := e.before;
  }

  // ---------- A plan is refused only for what the engine refuses ----------

  /** The column of this identity stood at `table.column` before the plan. */
  ghost predicate StoredAs(names: PlanNames, uid: Uid, table: TableName, column: ColumnName) {
    exists owner :: names.columnAtStart(uid) == Some((owner, column)) && names.tableAtStart(owner) == Some(table)
  }

  ghost predicate InputFree(engine: Engine, edges: seq<ExpressionEdge>, alike: Alike, names: PlanNames, uid: Uid) {
    forall table, column :: StoredAs(names, uid, table, column)
      ==> NoComputedReader(engine, edges, alike, table, column)
  }

  /**
  What the engine asks of every change, drops or not: no standing computed
  column reads a column that is renamed, dropped, retyped or made nullable or
  not, or calls a module that is altered or dropped, and no standing
  schema-bound module reads a computed column that is dropped.
  */
  ghost predicate Takes(engine: Engine, edges: seq<ExpressionEdge>, alike: Alike, names: PlanNames, c: Change) {
    match c
    case RenameColumn(uid, _, _, _) => InputFree(engine, edges, alike, names, uid)
    case DropColumn(uid, _, _) => InputFree(engine, edges, alike, names, uid)
    case AlterColumnType(uid, _, _) => InputFree(engine, edges, alike, names, uid)
    case AlterColumnNullability(uid, _, _) => InputFree(engine, edges, alike, names, uid)
    case AlterModule(id, _) => NoCaller(engine, edges, alike, id.ObjectName())
    case DropModule(id, _) => NoCaller(engine, edges, alike, id.ObjectName())
    case DropComputedColumn(table, computed) => NoBoundReader(engine, edges, alike, table, computed)
    case _ => true
  }

  /** The plan adds a computed column of this name: its edge is an old expression's. */
  predicate AddsAgain(plan: seq<Change>, alike: Alike, x: (TableName, ColumnName)) {
    exists at :: 0 <= at < |plan| && plan[at].AddComputedColumn?
      && alike.Object(plan[at].table, x.0) && alike.Same(plan[at].computed, x.1)
  }

  /** The engine once all of the plan has run, as far as the edges still speak of it. */
  function AtEnd(plan: seq<Change>, edges: seq<ExpressionEdge>, alike: Alike): Engine {
    var end := After(edges, alike, plan, |plan|);
    end.(computed := set x | x in end.computed && !AddsAgain(plan, alike, x))
  }

  /** No table the plan drops bears the name of a schema-bound module. */
  ghost predicate TablesApart(plan: seq<Change>, edges: seq<ExpressionEdge>, alike: Alike) {
    forall e :: e in edges && SchemaBound(e) ==> !DropsTable(plan, alike, e.from)
  }

  lemma {:induction false} ModuleGoneBecause(edges: seq<ExpressionEdge>, alike: Alike, order: seq<Change>, k: nat,
                                             m: TableName)
    requires k <= |order| && m in Initial(edges).modules && m !in After(edges, alike, order, k).modules
    ensures exists j :: 0 <= j < k && Destroys(order[j], alike, m)
  {
    if m !in After(edges, alike, order, k - 1).modules {
      ModuleGoneBecause(edges, alike, order, k - 1, m);
    }
  }

  /** A computed column stands at the end exactly if it stands throughout. */
  lemma StandsAtEnd(plan: seq<Change>, names: PlanNames, edges: seq<ExpressionEdge>, alike: Alike, e: ExpressionEdge)
    requires names.Static() && e in edges && e.fromColumn.Some?
    ensures ((e.from, e.fromColumn.value) in AtEnd(plan, edges, alike).computed
             <==> Standing(plan, names, alike, e.from, e.fromColumn.value))
  {
    var x := (e.from, e.fromColumn.value);
    assert AddsAgain(plan, alike, x) <==> AddsComputed(plan, names, alike, x.0, x.1) by {
      assert forall at: nat :: at < |plan| ==>
        (AddsColumn(plan[at], names, alike, at, x.0, x.1)
         <==> plan[at].AddComputedColumn? && alike.Object(plan[at].table, x.0) && alike.Same(plan[at].computed, x.1));
    }
    if x !in After(edges, alike, plan, |plan|).computed {
      GoneBecause(edges, alike, plan, |plan|, e);
      var j :| 0 <= j < |plan| && TakesColumn(plan[j], alike, e);
      assert RemovesTable(plan[j], alike, x.0) || RemovesColumn(plan[j], names, alike, j, x.0, x.1);
    }
    if j: nat :| j < |plan| && RemovesTable(plan[j], alike, x.0) {
      ComputedGone(edges, alike, plan, j, |plan|, x);
    } else if j: nat :| j < |plan| && RemovesColumn(plan[j], names, alike, j, x.0, x.1) {
      ComputedGone(edges, alike, plan, j, |plan|, x);
    }
  }

  lemma BoundAtEnd(plan: seq<Change>, edges: seq<ExpressionEdge>, alike: Alike, e: ExpressionEdge)
    requires TablesApart(plan, edges, alike) && e in edges && SchemaBound(e)
    ensures e.from in AtEnd(plan, edges, alike).modules <==> !DropsModule(plan, alike, e.from)
  {
    assert e.from in Initial(edges).modules;
    if e.from !in AtEnd(plan, edges, alike).modules {
      ModuleGoneBecause(edges, alike, plan, |plan|, e.from);
      var j :| 0 <= j < |plan| && Destroys(plan[j], alike, e.from);
      assert !RemovesTable(plan[j], alike, e.from);
      assert RemovesModule(plan[j], alike, e.from);
    }
    if j: nat :| j < |plan| && RemovesModule(plan[j], alike, e.from) {
      ModuleGone(edges, alike, plan, j, |plan|, e.from);
    }
  }

  lemma StandingAlike(plan: seq<Change>, names: PlanNames, alike: Alike, a: TableName, b: TableName, column: ColumnName)
    requires names.Static() && alike.Transitive() && alike.Object(a, b)
    ensures Standing(plan, names, alike, a, column) <==> Standing(plan, names, alike, b, column)
  {
    AddsAlike(plan, names, alike, a, b, column);
    AddsAlike(plan, names, alike, b, a, column);
    DropsAlike(plan, names, alike, a, b, column);
    DropsAlike(plan, names, alike, b, a, column);
    DropsTableAlike(plan, alike, a, b);
    DropsTableAlike(plan, alike, b, a);
  }

  /** What the change does to the column that stood at `table.column`, in the words of the refusal. */
  ghost predicate Does(c: Change, names: PlanNames, table: TableName, column: ColumnName, what: string) {
    || (c.RenameColumn? && what == "renames" && StoredAs(names, c.uid, table, column))
    || (c.DropColumn? && what == "drops" && StoredAs(names, c.uid, table, column))
    || (c.AlterColumnType? && what == "retypes or recollates" && StoredAs(names, c.uid, table, column))
    || (c.AlterColumnNullability? && what == "changes the nullability of" && StoredAs(names, c.uid, table, column))
  }

  ghost predicate DoesModule(c: Change, name: TableName, what: string) {
    || (c.AlterModule? && what == "alters" && name == c.id.ObjectName())
    || (c.DropModule? && what == "drops" && name == c.id.ObjectName())
  }

  /** What the engine would say even at the end. */
  ghost predicate Says(engine: Engine, edges: seq<ExpressionEdge>, alike: Alike, names: PlanNames, c: Change,
                       e: ExpressionEdge, r: Refusal)
    requires e in edges
  {
    match r
    case ReadsInput(table, computed, column, what) =>
      && e.from == table && e.fromColumn == Some(computed) && (table, computed) in engine.computed
      && e.toColumn.Some?
      && exists t :: Does(c, names, t, column, what) && alike.Object(e.from, t) && alike.Object(e.to, t)
                     && alike.Same(e.toColumn.value, column)
    case CallsFunction(table, computed, name, what) =>
      && e.from == table && e.fromColumn == Some(computed) && (table, computed) in engine.computed
      && DoesModule(c, name, what) && alike.Object(e.to, name)
    case BoundOver(table, computed, reader) =>
      && c == DropComputedColumn(table, computed) && e.from == reader && reader in engine.modules
      && e.fromColumn.None? && e.fromSchemaBound
      && alike.Object(e.to, table) && e.toColumn.Some? && alike.Same(e.toColumn.value, computed)
  }

  /** The refusals over an edge are what the engine would say of it once all the plan's drops have run. */
  lemma SaysExactly(plan: seq<Change>, names: PlanNames, edges: seq<ExpressionEdge>, alike: Alike, at: nat,
                    e: ExpressionEdge, r: Refusal)
    requires at < |plan| && e in edges
    requires names.Static() && alike.Transitive() && TablesApart(plan, edges, alike)
    ensures (r in ReasonsAt(plan, names, alike, at, e)
             <==> Says(AtEnd(plan, edges, alike), edges, alike, names, plan[at], e, r))
  {
    if e.fromColumn.Some? {
      StandsAtEnd(plan, names, edges, alike, e);
      var input := InputChange(plan[at], names);
      if input.Some? && alike.Object(e.from, input.value.0) {
        StandingAlike(plan, names, alike, e.from, input.value.0, e.fromColumn.value);
      }
    } else if SchemaBound(e) {
      BoundAtEnd(plan, edges, alike, e);
    }
  }

  /** The hypotheses on a plan the differ makes. */
  ghost predicate Planned(plan: seq<Change>, names: PlanNames, edges: seq<ExpressionEdge>, alike: Alike) {
    names.Static() && alike.Transitive() && TablesApart(plan, edges, alike)
  }

  /** A change the engine takes at the end is one it says nothing of, and conversely. */
  lemma TakesExactly(engine: Engine, edges: seq<ExpressionEdge>, alike: Alike, names: PlanNames, c: Change)
    ensures Takes(engine, edges, alike, names, c)
            <==> forall e, r :: e in edges ==> !Says(engine, edges, alike, names, c, e, r)
  {
    if Takes(engine, edges, alike, names, c) {
      forall e, r | e in edges ensures !Says(engine, edges, alike, names, c, e, r) {
        TakenUnsaid(engine, edges, alike, names, c, e, r);
      }
    }
    if forall e, r :: e in edges ==> !Says(engine, edges, alike, names, c, e, r) {
      UnsaidTaken(engine, edges, alike, names, c);
    }
  }

  lemma TakenUnsaid(engine: Engine, edges: seq<ExpressionEdge>, alike: Alike, names: PlanNames, c: Change,
                    e: ExpressionEdge, r: Refusal)
    requires Takes(engine, edges, alike, names, c) && e in edges
    ensures !Says(engine, edges, alike, names, c, e, r)
  {
  }

  lemma UnsaidTaken(engine: Engine, edges: seq<ExpressionEdge>, alike: Alike, names: PlanNames, c: Change)
    requires forall e, r :: e in edges ==> !Says(engine, edges, alike, names, c, e, r)
    ensures Takes(engine, edges, alike, names, c)
  {
    if c.RenameColumn? {
      InputUnsaid(engine, edges, alike, names, c, c.uid, "renames");
    } else if c.DropColumn? {
      InputUnsaid(engine, edges, alike, names, c, c.uid, "drops");
    } else if c.AlterColumnType? {
      InputUnsaid(engine, edges, alike, names, c, c.uid, "retypes or recollates");
    } else if c.AlterColumnNullability? {
      InputUnsaid(engine, edges, alike, names, c, c.uid, "changes the nullability of");
    } else if c.AlterModule? {
      CallsUnsaid(engine, edges, alike, names, c, c.id.ObjectName(), "alters");
    } else if c.DropModule? {
      CallsUnsaid(engine, edges, alike, names, c, c.id.ObjectName(), "drops");
    } else if c.DropComputedColumn? {
      forall e | e in edges && BoundToColumn(e, alike, c.table, c.computed) ensures e.from !in engine.modules {
        assert !Says(engine, edges, alike, names, c, e, BoundOver(c.table, c.computed, e.from));
      }
    }
  }

  lemma InputUnsaid(engine: Engine, edges: seq<ExpressionEdge>, alike: Alike, names: PlanNames, c: Change, uid: Uid,
                    what: string)
    requires forall e, r :: e in edges ==> !Says(engine, edges, alike, names, c, e, r)
    requires forall t, column :: StoredAs(names, uid, t, column) ==> Does(c, names, t, column, what)
    ensures InputFree(engine, edges, alike, names, uid)
  {
    forall t, column, e | StoredAs(names, uid, t, column) && e in edges && ReadsColumn(e, alike, t, column)
      ensures (e.from, e.fromColumn.value) !in engine.computed
    {
      assert !Says(engine, edges, alike, names, c, e, ReadsInput(e.from, e.fromColumn.value, column, what));
    }
  }

  lemma CallsUnsaid(engine: Engine, edges: seq<ExpressionEdge>, alike: Alike, names: PlanNames, c: Change,
                    name: TableName, what: string)
    requires forall e, r :: e in edges ==> !Says(engine, edges, alike, names, c, e, r)
    requires DoesModule(c, name, what)
    ensures NoCaller(engine, edges, alike, name)
  {
    forall e | e in edges && CallsObject(e, alike, name) ensures (e.from, e.fromColumn.value) !in engine.computed {
      assert !Says(engine, edges, alike, names, c, e, CallsFunction(e.from, e.fromColumn.value, name, what));
    }
  }

  /**
  The refusals of a plan are exactly what the engine would say of its changes
  once all of its drops have run, so ordering it otherwise would not help.
  */
  lemma RefusalsExactly(plan: seq<Change>, names: PlanNames, edges: seq<ExpressionEdge>, alike: Alike, r: Refusal)
    requires Planned(plan, names, edges, alike)
    ensures (r in Reasons(plan, names, edges, alike)
             <==> exists at: nat, e :: at < |plan| && e in edges
                    && Says(AtEnd(plan, edges, alike), edges, alike, names, plan[at], e, r))
  {
    forall at: nat, e | at < |plan| && e in edges
      ensures (r in ReasonsAt(plan, names, alike, at, e)
               <==> Says(AtEnd(plan, edges, alike), edges, alike, names, plan[at], e, r))
    {
      SaysExactly(plan, names, edges, alike, at, e, r);
    }
  }

  /** So a plan is refused exactly if the engine would not take some change of it even then. */
  lemma RefusedExactly(plan: seq<Change>, names: PlanNames, edges: seq<ExpressionEdge>, alike: Alike)
    requires Planned(plan, names, edges, alike)
    ensures (Reasons(plan, names, edges, alike) == {}
             <==> forall at: nat :: at < |plan| ==> Takes(AtEnd(plan, edges, alike), edges, alike, names, plan[at]))
  {
    var end := AtEnd(plan, edges, alike);
    forall at: nat | at < |plan|
      ensures (Takes(end, edges, alike, names, plan[at])
               <==> forall e, r :: e in edges ==> !Says(end, edges, alike, names, plan[at], e, r))
    {
      TakesExactly(end, edges, alike, names, plan[at]);
    }
    forall r
      ensures (r in Reasons(plan, names, edges, alike)
               <==> exists at: nat, e :: at < |plan| && e in edges
                      && Says(end, edges, alike, names, plan[at], e, r))
    {
      RefusalsExactly(plan, names, edges, alike, r);
    }
    if Reasons(plan, names, edges, alike) == {} {
      forall at: nat, e, r | at < |plan| && e in edges ensures !Says(end, edges, alike, names, plan[at], e, r) {
        assert r !in Reasons(plan, names, edges, alike);
      }
    }
  }

  /** The engine takes what it took when more stood. */
  lemma TakesMore(engine: Engine, later: Engine, edges: seq<ExpressionEdge>, alike: Alike, names: PlanNames, c: Change)
    requires Takes(engine, edges, alike, names, c)
    requires later.computed <= engine.computed && later.modules <= engine.modules
    ensures Takes(later, edges, alike, names, c)
  {
  }

  /** A refused plan is one the engine carries out in no order. */
  lemma RefusedNeverRuns(plan: seq<Change>, names: PlanNames, edges: seq<ExpressionEdge>, alike: Alike,
                         sequence: seq<nat>)
    requires Planned(plan, names, edges, alike) && Permutes(|plan|, sequence)
    requires Reasons(plan, names, edges, alike) != {}
    ensures var order := Arrange(plan, sequence);
            exists k: nat :: k < |order| && !Takes(After(edges, alike, order, k), edges, alike, names, order[k])
  {
    var order := Arrange(plan, sequence);
    PlannedPermutes(plan, names, edges, alike, sequence);
    RefusalsPermute(plan, names, edges, alike, sequence);
    RefusedExactly(order, names, edges, alike);
    var k: nat :| k < |order| && !Takes(AtEnd(order, edges, alike), edges, alike, names, order[k]);
    Shrinks(edges, alike, order, k, |order|);
    if Takes(After(edges, alike, order, k), edges, alike, names, order[k]) {
      TakesMore(After(edges, alike, order, k), AtEnd(order, edges, alike), edges, alike, names, order[k]);
    }
  }

  lemma PlannedPermutes(plan: seq<Change>, names: PlanNames, edges: seq<ExpressionEdge>, alike: Alike,
                        sequence: seq<nat>)
    requires Planned(plan, names, edges, alike) && Permutes(|plan|, sequence)
    ensures Planned(Arrange(plan, sequence), names, edges, alike)
  {
    forall e | e in edges && SchemaBound(e) ensures !DropsTable(Arrange(plan, sequence), alike, e.from) {
      DropsTablePermutes(plan, alike, sequence, e.from);
    }
  }

  // ---------- Renamed tables ----------

  /** The change at `at` with its table and column at their catalog addresses. */
  function Resolved(c: Change, names: PlanNames, at: nat): Change {
    match c
    case DropComputedColumn(table, computed) => DropComputedColumn(names.stored(table, at), computed)
    case AddComputedColumn(table, computed, calls) => AddComputedColumn(names.stored(table, at), computed, calls)
    case DropColumn(uid, table, column) =>
      DropColumn(uid, names.stored(table, at),
                 if names.columnAtStart(uid).Some? then names.columnAtStart(uid).value.1 else column)
    case _ => c
  }

  function ResolvedPlan(plan: seq<Change>, names: PlanNames): seq<Change> {
    seq(|plan|, at requires 0 <= at < |plan| => Resolved(plan[at], names, at))
  }

  /** The names of a plan that spells every table as the catalog does. */
  function CatalogNames(names: PlanNames): PlanNames {
    names.(stored := (table, _) => table)
  }

  /**
  A plan that renames tables waits and is refused as the plan that spells each
  table, at its own place, as the catalog does: what is proved of plans whose
  names mean one table throughout is so of every plan.
  */
  lemma ResolvedWaits(plan: seq<Change>, names: PlanNames, edges: seq<ExpressionEdge>, alike: Alike, at: nat, p: nat)
    requires at < |plan| && p < |plan|
    ensures CatalogNames(names).Static()
    ensures (Waits(plan, at, p, edges, names, alike)
             <==> Waits(ResolvedPlan(plan, names), at, p, edges, CatalogNames(names), alike))
  {
    var c, d := plan[at], plan[p];
    var c', d' := Resolved(c, names, at), Resolved(d, names, p);
    var names' := CatalogNames(names);
    assert ResolvedPlan(plan, names)[at] == c' && ResolvedPlan(plan, names)[p] == d';
    if DroppedObject(c).Some? {
      assert Releases(d, p, edges, names, alike, DroppedObject(c).value)
        <==> Releases(d', p, edges, names', alike, DroppedObject(c).value) by {
        assert forall e: ExpressionEdge :: e in edges && e.fromColumn.Some? ==>
          (RemovesColumn(d, names, alike, p, e.from, e.fromColumn.value)
           <==> RemovesColumn(d', names', alike, p, e.from, e.fromColumn.value));
      }
    }
  }

  lemma ResolvedStanding(plan: seq<Change>, names: PlanNames, alike: Alike, table: TableName, column: ColumnName)
    ensures (Standing(plan, names, alike, table, column)
             <==> Standing(ResolvedPlan(plan, names), CatalogNames(names), alike, table, column))
  {
    var plan', names' := ResolvedPlan(plan, names), CatalogNames(names);
    forall at: nat | at < |plan|
      ensures RemovesTable(plan[at], alike, table) <==> RemovesTable(plan'[at], alike, table)
      ensures (RemovesColumn(plan[at], names, alike, at, table, column)
               <==> RemovesColumn(plan'[at], names', alike, at, table, column))
      ensures (AddsColumn(plan[at], names, alike, at, table, column)
               <==> AddsColumn(plan'[at], names', alike, at, table, column))
    {
    }
  }

  lemma ResolvedReasons(plan: seq<Change>, names: PlanNames, edges: seq<ExpressionEdge>, alike: Alike)
    ensures Reasons(plan, names, edges, alike) == Reasons(ResolvedPlan(plan, names), CatalogNames(names), edges, alike)
  {
    var plan', names' := ResolvedPlan(plan, names), CatalogNames(names);
    forall at: nat, e | at < |plan| && e in edges
      ensures ReasonsAt(plan, names, alike, at, e) == ReasonsAt(plan', names', alike, at, e)
    {
      ResolvedReasonsAt(plan, names, alike, at, e);
    }
  }

  lemma ResolvedReasonsAt(plan: seq<Change>, names: PlanNames, alike: Alike, at: nat, e: ExpressionEdge)
    requires at < |plan|
    ensures (ReasonsAt(plan, names, alike, at, e)
             == ReasonsAt(ResolvedPlan(plan, names), CatalogNames(names), alike, at, e))
  {
    var plan', names' := ResolvedPlan(plan, names), CatalogNames(names);
    assert InputChange(plan[at], names) == InputChange(plan'[at], names');
    assert ModuleChange(plan[at]) == ModuleChange(plan'[at]);
    if e.fromColumn.Some? {
      ResolvedStanding(plan, names, alike, e.from, e.fromColumn.value);
      if InputChange(plan[at], names).Some? {
        ResolvedStanding(plan, names, alike, InputChange(plan[at], names).value.0, e.fromColumn.value);
      }
    }
    forall p: nat | p < |plan| ensures RemovesModule(plan[p], alike, e.from) <==> RemovesModule(plan'[p], alike, e.from)
    {
    }
    assert DropsModule(plan, alike, e.from) <==> DropsModule(plan', alike, e.from);
  }
}
