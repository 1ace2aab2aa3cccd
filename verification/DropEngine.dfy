/**
A small-step model of the engine's side of a plan: which computed columns and
schema-bound modules stand, and which drops the engine refuses while they do.
Every plan the ordering accepts runs on it to the end.
*/
module DropEngine {
  import opened Catalog
  import opened Settle
  import opened DropOrder

  /** What still stands of the objects the catalog's edges start from. */
  datatype Engine = Engine(computed: set<(TableName, ColumnName)>, modules: set<TableName>)

  function Initial(edges: seq<ExpressionEdge>): Engine {
    Engine(set e | e in edges && e.fromColumn.Some? :: (e.from, e.fromColumn.value),
           set e | e in edges && e.fromColumn.None? && e.fromSchemaBound :: e.from)
  }

  /** The engine drops every object the collation reads as the name given. */
  function Execute(engine: Engine, c: Change, alike: Alike): Engine {
    match c
    case DropComputedColumn(table, computed) =>
      engine.(computed := set x | x in engine.computed && !(alike.Object(x.0, table) && alike.Same(x.1, computed)))
    case DropTable(table) =>
      Engine(set x | x in engine.computed && !alike.Object(x.0, table),
             set m | m in engine.modules && !alike.Object(m, table))
    case DropModule(id, _) =>
      engine.(modules := set m | m in engine.modules && !alike.Object(m, id.ObjectName()))
    case _ => engine
  }

  function After(edges: seq<ExpressionEdge>, alike: Alike, order: seq<Change>, k: nat): Engine
    requires k <= |order|
  {
    if k == 0 then Initial(edges) else Execute(After(edges, alike, order, k - 1), order[k - 1], alike)
  }

  // ---------------------------------------------------- what the engine refuses

  /** No standing computed column calls the function. */
  predicate NoCaller(engine: Engine, edges: seq<ExpressionEdge>, alike: Alike, object_: TableName) {
    forall e :: e in edges && e.fromColumn.Some? && (e.from, e.fromColumn.value) in engine.computed
      ==> !alike.Object(e.to, object_)
  }

  /** No standing computed column reads the column. */
  predicate NoComputedReader(engine: Engine, edges: seq<ExpressionEdge>, alike: Alike, table: TableName,
                             column: ColumnName)
  {
    forall e :: e in edges && e.fromColumn.Some? && (e.from, e.fromColumn.value) in engine.computed && e.toColumn.Some?
      ==> !(alike.Object(e.from, table) && alike.Object(e.to, table) && alike.Same(e.toColumn.value, column))
  }

  /** No standing schema-bound module reads the column. */
  predicate NoBoundReader(engine: Engine, edges: seq<ExpressionEdge>, alike: Alike, table: TableName,
                          column: ColumnName)
  {
    forall e :: e in edges && e.fromColumn.None? && e.fromSchemaBound && e.from in engine.modules && e.toColumn.Some?
      ==> !(alike.Object(e.to, table) && alike.Same(e.toColumn.value, column))
  }

  /** No other object the plan drops still stands bound to this one. */
  predicate NoBoundDependent(engine: Engine, edges: seq<ExpressionEdge>, alike: Alike, plan: seq<Change>,
                             object_: TableName)
  {
    forall e :: e in edges && e.fromColumn.None? && e.fromSchemaBound && e.from in engine.modules
                && alike.Object(e.to, object_) && DropsObject(plan, alike, e.from)
      ==> alike.Object(e.from, object_)
  }

  predicate DropsObject(plan: seq<Change>, alike: Alike, name: TableName) {
    exists at :: 0 <= at < |plan| && Destroys(plan[at], alike, name)
  }

  /** The change drops a module or a table of this name. */
  predicate Destroys(c: Change, alike: Alike, name: TableName) {
    || (c.DropModule? && alike.Object(name, c.id.ObjectName()))
    || (c.DropTable? && alike.Object(name, c.table))
  }

  predicate Enabled(engine: Engine, edges: seq<ExpressionEdge>, alike: Alike, plan: seq<Change>, c: Change) {
    match c
    case DropModule(id, _) =>
      NoCaller(engine, edges, alike, id.ObjectName()) && NoBoundDependent(engine, edges, alike, plan, id.ObjectName())
    case DropTable(table) => NoBoundDependent(engine, edges, alike, plan, table)
    case DropColumn(_, table, column) => NoComputedReader(engine, edges, alike, table, column)
    case DropComputedColumn(table, computed) => NoBoundReader(engine, edges, alike, table, computed)
    case _ => true
  }

  /** Every step of `order` is one the engine takes. */
  ghost predicate Runs(edges: seq<ExpressionEdge>, alike: Alike, plan: seq<Change>, order: seq<Change>) {
    forall k :: 0 <= k < |order| ==> Enabled(After(edges, alike, order, k), edges, alike, plan, order[k])
  }

  // ------------------------------------------------------- a plan of the differ

  /** Names resolve: no table is renamed and a dropped column sat where the change says. */
  ghost predicate Resolves(plan: seq<Change>, names: PlanNames) {
    && names.Static()
    && (forall at :: 0 <= at < |plan| && plan[at].DropColumn? ==>
          exists owner :: names.columnAtStart(plan[at].uid) == Some((owner, plan[at].column))
                          && names.tableAtStart(owner) == Some(plan[at].table))
  }

  /** A catalog computed column the plan adds again is also dropped, by its own drop or its table's. */
  ghost predicate Sensible(plan: seq<Change>, names: PlanNames, edges: seq<ExpressionEdge>, alike: Alike) {
    forall e :: e in edges && e.fromColumn.Some? && AddsComputed(plan, names, alike, e.from, e.fromColumn.value) ==>
      DropsComputed(plan, names, alike, e.from, e.fromColumn.value) || DropsTable(plan, alike, e.from)
  }

  /**
  Where a dropped column's reader goes only with its table, the table goes
  first. Nothing in the ordering waits for that.
  */
  ghost predicate TablesGoFirst(plan: seq<Change>, names: PlanNames, edges: seq<ExpressionEdge>, alike: Alike,
                                sequence: seq<nat>)
    requires forall k :: 0 <= k < |sequence| ==> sequence[k] < |plan|
  {
    forall k: nat, e :: k < |sequence| && e in edges && ReadsDropped(plan[sequence[k]], alike, e)
                        && !DropsComputed(plan, names, alike, e.from, e.fromColumn.value)
      ==> GoneBefore(plan, alike, sequence, k, e.from)
  }

  predicate ReadsDropped(c: Change, alike: Alike, e: ExpressionEdge) {
    c.DropColumn? && ReadsColumn(e, alike, c.table, c.column)
  }

  /** The table is dropped at a place before `k`. */
  predicate GoneBefore(plan: seq<Change>, alike: Alike, sequence: seq<nat>, k: nat, table: TableName)
    requires k <= |sequence| && forall j :: 0 <= j < |sequence| ==> sequence[j] < |plan|
  {
    exists j :: 0 <= j < k && RemovesTable(plan[sequence[j]], alike, table)
  }

  /** As the differ plans it: a table goes whole or loses columns, never both. */
  ghost predicate WholeOrByColumn(plan: seq<Change>, alike: Alike) {
    forall at :: 0 <= at < |plan| && plan[at].DropColumn? ==> !DropsTable(plan, alike, plan[at].table)
  }

  // ------------------------------------------------------------- the run lemma

  /** What has been removed stays removed. */
  lemma {:induction false} Shrinks(edges: seq<ExpressionEdge>, alike: Alike, order: seq<Change>, j: nat, k: nat)
    requires j <= k <= |order|
    ensures After(edges, alike, order, k).computed <= After(edges, alike, order, j).computed
    ensures After(edges, alike, order, k).modules <= After(edges, alike, order, j).modules
  {
    if j < k { Shrinks(edges, alike, order, j, k - 1); }
  }

  lemma ComputedGone(edges: seq<ExpressionEdge>, alike: Alike, order: seq<Change>, j: nat, k: nat,
                     x: (TableName, ColumnName))
    requires j < k <= |order|
    requires match order[j]
             case DropComputedColumn(t, c) => alike.Object(x.0, t) && alike.Same(x.1, c)
             case DropTable(t) => alike.Object(x.0, t)
             case _ => false
    ensures x !in After(edges, alike, order, k).computed
  {
    Shrinks(edges, alike, order, j + 1, k);
  }

  lemma ModuleGone(edges: seq<ExpressionEdge>, alike: Alike, order: seq<Change>, j: nat, k: nat, m: TableName)
    requires j < k <= |order|
    requires Destroys(order[j], alike, m)
    ensures m !in After(edges, alike, order, k).modules
  {
    Shrinks(edges, alike, order, j + 1, k);
  }

  /** Whatever the drop at place `k` waits for has run before it. */
  lemma WaitedForRan(plan: seq<Change>, names: PlanNames, edges: seq<ExpressionEdge>, alike: Alike, notes: set<Edge>,
                     sequence: seq<nat>, k: nat, p: nat) returns (j: nat)
    requires SettlesTo(plan, names, edges, alike, notes, sequence)
    requires k < |plan| && p < |plan| && Waits(plan, sequence[k], p, edges, names, alike)
    ensures j < k && sequence[j] == p
  {
    var constraints := Constraints(plan, edges, names, alike, notes);
    assert Edge(p, sequence[k]) in constraints;
    SettledRespects(|plan|, constraints, sequence);
    assert p in sequence[..k];
    j :| 0 <= j < k && sequence[j] == p;
  }

  lemma CallersGone(plan: seq<Change>, names: PlanNames, edges: seq<ExpressionEdge>, alike: Alike, notes: set<Edge>,
                    sequence: seq<nat>, k: nat)
    requires SettlesTo(plan, names, edges, alike, notes, sequence)
    requires Reasons(plan, names, edges, alike) == {}
    requires names.Static() && Sensible(plan, names, edges, alike)
    requires k < |plan| && plan[sequence[k]].DropModule?
    ensures NoCaller(After(edges, alike, Arrange(plan, sequence), k), edges, alike, plan[sequence[k]].id.ObjectName())
  {
    var at := sequence[k];
    var object_ := plan[at].id.ObjectName();
    var order := Arrange(plan, sequence);
    forall e | e in edges && CallsObject(e, alike, object_)
      ensures (e.from, e.fromColumn.value) !in After(edges, alike, order, k).computed
    {
      var column := e.fromColumn.value;
      NotStandingCaller(plan, names, edges, alike, at, e);
      var p: nat;
      if DropsTable(plan, alike, e.from) {
        p :| 0 <= p < |plan| && RemovesTable(plan[p], alike, e.from);
      } else {
        p :| 0 <= p < |plan| && RemovesColumn(plan[p], names, alike, p, e.from, column);
      }
      assert Releases(plan[p], p, edges, names, alike, object_);
      var j := WaitedForRan(plan, names, edges, alike, notes, sequence, k, p);
      ComputedGone(edges, alike, order, j, k, (e.from, column));
    }
  }

  lemma NotStandingCaller(plan: seq<Change>, names: PlanNames, edges: seq<ExpressionEdge>, alike: Alike, at: nat,
                          e: ExpressionEdge)
    requires Reasons(plan, names, edges, alike) == {} && Sensible(plan, names, edges, alike)
    requires at < |plan| && plan[at].DropModule? && e in edges && CallsObject(e, alike, plan[at].id.ObjectName())
    ensures DropsTable(plan, alike, e.from) || DropsComputed(plan, names, alike, e.from, e.fromColumn.value)
  {
    ReasonsIncluded(plan, names, edges, alike, at, e);
    assert ModuleReasons(plan, names, alike, at, e) == {};
  }

  lemma ReasonsIncluded(plan: seq<Change>, names: PlanNames, edges: seq<ExpressionEdge>, alike: Alike, at: nat,
                        e: ExpressionEdge)
    requires at < |plan| && e in edges
    ensures ReasonsAt(plan, names, alike, at, e) <= Reasons(plan, names, edges, alike)
  {
  }

  lemma ReadersGone(plan: seq<Change>, names: PlanNames, edges: seq<ExpressionEdge>, alike: Alike, notes: set<Edge>,
                    sequence: seq<nat>, k: nat)
    requires SettlesTo(plan, names, edges, alike, notes, sequence)
    requires Resolves(plan, names) && alike.Transitive()
    requires TablesGoFirst(plan, names, edges, alike, sequence)
    requires k < |plan| && plan[sequence[k]].DropColumn?
    ensures var c := plan[sequence[k]];
      NoComputedReader(After(edges, alike, Arrange(plan, sequence), k), edges, alike, c.table, c.column)
  {
    var at := sequence[k];
    var c := plan[at];
    var order := Arrange(plan, sequence);
    forall e | e in edges && ReadsColumn(e, alike, c.table, c.column)
      ensures (e.from, e.fromColumn.value) !in After(edges, alike, order, k).computed
    {
      var column := e.fromColumn.value;
      if DropsComputed(plan, names, alike, e.from, column) {
        DropsAlike(plan, names, alike, e.from, c.table, column);
        var p: nat :| p < |plan| && RemovesColumn(plan[p], names, alike, p, c.table, column);
        assert DropsComputedReader(plan[p], p, edges, names, alike, c.table, c.column);
        var j := WaitedForRan(plan, names, edges, alike, notes, sequence, k, p);
        alike.ObjectTransitive(e.from, c.table, plan[p].table);
        ComputedGone(edges, alike, order, j, k, (e.from, column));
      } else {
        assert ReadsDropped(c, alike, e);
        var j :| 0 <= j < k && RemovesTable(plan[sequence[j]], alike, e.from);
        ComputedGone(edges, alike, order, j, k, (e.from, column));
      }
    }
  }

  /** A computed column is gone only because a step dropped it or its table. */
  lemma {:induction false} GoneBecause(edges: seq<ExpressionEdge>, alike: Alike, order: seq<Change>, k: nat,
                                       e: ExpressionEdge)
    requires k <= |order| && e in edges && e.fromColumn.Some?
    requires (e.from, e.fromColumn.value) !in After(edges, alike, order, k).computed
    ensures exists j :: 0 <= j < k && TakesColumn(order[j], alike, e)
  {
    if (e.from, e.fromColumn.value) in After(edges, alike, order, k - 1).computed {
      assert TakesColumn(order[k - 1], alike, e);
    } else {
      GoneBecause(edges, alike, order, k - 1, e);
    }
  }

  predicate TakesColumn(c: Change, alike: Alike, e: ExpressionEdge)
    requires e.fromColumn.Some?
  {
    || (c.DropComputedColumn? && alike.Object(e.from, c.table) && alike.Same(e.fromColumn.value, c.computed))
    || RemovesTable(c, alike, e.from)
  }

  /** A column's drop that runs has only its readers' tables to thank for readers the plan does not drop. */
  lemma RunNeedsTables(plan: seq<Change>, names: PlanNames, edges: seq<ExpressionEdge>, alike: Alike,
                       sequence: seq<nat>, k: nat, e: ExpressionEdge)
    requires Permutes(|plan|, sequence) && names.Static() && k < |plan|
    requires e in edges && ReadsDropped(plan[sequence[k]], alike, e)
    requires !DropsComputed(plan, names, alike, e.from, e.fromColumn.value)
    requires Enabled(After(edges, alike, Arrange(plan, sequence), k), edges, alike, plan, plan[sequence[k]])
    ensures GoneBefore(plan, alike, sequence, k, e.from)
  {
    var order := Arrange(plan, sequence);
    GoneBecause(edges, alike, order, k, e);
    var j :| 0 <= j < k && TakesColumn(order[j], alike, e);
    assert !RemovesColumn(plan[sequence[j]], names, alike, sequence[j], e.from, e.fromColumn.value);
    assert RemovesTable(plan[sequence[j]], alike, e.from);
  }

  /** In an accepted plan a dropped column's reader is dropped, by itself or with the table. */
  lemma NotStandingReader(plan: seq<Change>, names: PlanNames, edges: seq<ExpressionEdge>, alike: Alike, at: nat,
                          e: ExpressionEdge)
    requires Reasons(plan, names, edges, alike) == {}
    requires Resolves(plan, names) && Sensible(plan, names, edges, alike) && alike.Transitive()
    requires at < |plan| && e in edges && ReadsDropped(plan[at], alike, e)
    ensures DropsComputed(plan, names, alike, e.from, e.fromColumn.value) || DropsTable(plan, alike, plan[at].table)
  {
    var c := plan[at];
    var column := e.fromColumn.value;
    ReasonsIncluded(plan, names, edges, alike, at, e);
    assert InputReasons(plan, names, alike, at, e) == {};
    assert !Standing(plan, names, alike, c.table, column);
    AddsAlike(plan, names, alike, c.table, e.from, column);
    DropsAlike(plan, names, alike, c.table, e.from, column);
    DropsTableAlike(plan, alike, e.from, c.table);
  }

  lemma AddsAlike(plan: seq<Change>, names: PlanNames, alike: Alike, a: TableName, b: TableName, column: ColumnName)
    requires names.Static() && alike.Transitive() && alike.Object(a, b)
    ensures AddsComputed(plan, names, alike, a, column) ==> AddsComputed(plan, names, alike, b, column)
  {
    if AddsComputed(plan, names, alike, a, column) {
      var i :| 0 <= i < |plan| && AddsColumn(plan[i], names, alike, i, a, column);
      alike.ObjectTransitive(plan[i].table, a, b);
      assert AddsColumn(plan[i], names, alike, i, b, column);
    }
  }

  lemma DropsAlike(plan: seq<Change>, names: PlanNames, alike: Alike, a: TableName, b: TableName, column: ColumnName)
    requires names.Static() && alike.Transitive() && alike.Object(a, b)
    ensures DropsComputed(plan, names, alike, a, column) ==> DropsComputed(plan, names, alike, b, column)
  {
    if DropsComputed(plan, names, alike, a, column) {
      var i :| 0 <= i < |plan| && RemovesColumn(plan[i], names, alike, i, a, column);
      alike.ObjectTransitive(plan[i].table, a, b);
      assert RemovesColumn(plan[i], names, alike, i, b, column);
    }
  }

  lemma DropsTableAlike(plan: seq<Change>, alike: Alike, a: TableName, b: TableName)
    requires alike.Transitive() && alike.Object(a, b)
    ensures DropsTable(plan, alike, a) ==> DropsTable(plan, alike, b)
  {
    if DropsTable(plan, alike, a) {
      var i :| 0 <= i < |plan| && RemovesTable(plan[i], alike, a);
      alike.ObjectTransitive(plan[i].table, a, b);
      assert RemovesTable(plan[i], alike, b);
    }
  }

  lemma BoundReadersGone(plan: seq<Change>, names: PlanNames, edges: seq<ExpressionEdge>, alike: Alike,
                         notes: set<Edge>,
                         sequence: seq<nat>, k: nat)
    requires SettlesTo(plan, names, edges, alike, notes, sequence)
    requires Reasons(plan, names, edges, alike) == {} && names.Static()
    requires k < |plan| && plan[sequence[k]].DropComputedColumn?
    ensures var c := plan[sequence[k]];
      NoBoundReader(After(edges, alike, Arrange(plan, sequence), k), edges, alike, c.table, c.computed)
  {
    var at := sequence[k];
    var c := plan[at];
    var order := Arrange(plan, sequence);
    forall e | e in edges && BoundToColumn(e, alike, c.table, c.computed)
      ensures e.from !in After(edges, alike, order, k).modules
    {
      ReasonsIncluded(plan, names, edges, alike, at, e);
      assert BoundReasons(plan, names, alike, at, e) == {};
      assert DropsModule(plan, alike, e.from);
      var p: nat :| p < |plan| && RemovesModule(plan[p], alike, e.from);
      assert DropsReader(plan[p], edges, alike, c.table, c.computed);
      var j := WaitedForRan(plan, names, edges, alike, notes, sequence, k, p);
      ModuleGone(edges, alike, order, j, k, e.from);
    }
  }

  lemma BoundDependentsGone(plan: seq<Change>, names: PlanNames, edges: seq<ExpressionEdge>, alike: Alike,
                            notes: set<Edge>,
                            sequence: seq<nat>, k: nat)
    requires SettlesTo(plan, names, edges, alike, notes, sequence)
    requires k < |plan| && DroppedObject(plan[sequence[k]]).Some?
    ensures NoBoundDependent(After(edges, alike, Arrange(plan, sequence), k), edges, alike, plan,
                             DroppedObject(plan[sequence[k]]).value)
  {
    var at := sequence[k];
    var object_ := DroppedObject(plan[at]).value;
    var order := Arrange(plan, sequence);
    forall e | e in edges && SchemaBound(e) && alike.Object(e.to, object_) && !alike.Object(e.from, object_)
               && DropsObject(plan, alike, e.from)
      ensures e.from !in After(edges, alike, order, k).modules
    {
      var p: nat :| p < |plan| && Destroys(plan[p], alike, e.from);
      assert p != at;
      assert DropsBound(plan[p], edges, alike, object_);
      var j := WaitedForRan(plan, names, edges, alike, notes, sequence, k, p);
      ModuleGone(edges, alike, order, j, k, e.from);
    }
  }

  lemma AcceptedStep(plan: seq<Change>, names: PlanNames, edges: seq<ExpressionEdge>, alike: Alike, notes: set<Edge>,
                     sequence: seq<nat>, k: nat)
    requires SettlesTo(plan, names, edges, alike, notes, sequence)
    requires Reasons(plan, names, edges, alike) == {}
    requires Resolves(plan, names) && Sensible(plan, names, edges, alike) && alike.Transitive()
    requires TablesGoFirst(plan, names, edges, alike, sequence) && k < |plan|
    ensures Enabled(After(edges, alike, Arrange(plan, sequence), k), edges, alike, plan, plan[sequence[k]])
  {
    var c := plan[sequence[k]];
    if DroppedObject(c).Some? { BoundDependentsGone(plan, names, edges, alike, notes, sequence, k); }
    if c.DropModule? { CallersGone(plan, names, edges, alike, notes, sequence, k); }
    if c.DropColumn? { ReadersGone(plan, names, edges, alike, notes, sequence, k); }
    if c.DropComputedColumn? { BoundReadersGone(plan, names, edges, alike, notes, sequence, k); }
  }

  /**
  An accepted plan runs to the end: no function goes while a computed column
  calls it, no column while a computed column reads it, no computed column
  while a schema-bound module reads it, and no object before one the plan
  drops that is bound to it. The one thing the ordering leaves to the plan is
  a column dropped from a table that goes whole: the plan runs exactly if the
  table goes first wherever a reader goes only with it.
  */
  lemma AcceptedPlansRun(plan: seq<Change>, names: PlanNames, edges: seq<ExpressionEdge>, alike: Alike,
                         notes: set<Edge>,
                         sequence: seq<nat>)
    requires SettlesTo(plan, names, edges, alike, notes, sequence)
    requires Reasons(plan, names, edges, alike) == {}
    requires Resolves(plan, names) && Sensible(plan, names, edges, alike) && alike.Transitive()
    ensures Runs(edges, alike, plan, Arrange(plan, sequence)) <==> TablesGoFirst(plan, names, edges, alike, sequence)
  {
    var order := Arrange(plan, sequence);
    if TablesGoFirst(plan, names, edges, alike, sequence) {
      forall k | 0 <= k < |order| ensures Enabled(After(edges, alike, order, k), edges, alike, plan, order[k]) {
        AcceptedStep(plan, names, edges, alike, notes, sequence, k);
      }
    }
    if Runs(edges, alike, plan, order) {
      forall k: nat, e | k < |sequence| && e in edges && ReadsDropped(plan[sequence[k]], alike, e)
                         && !DropsComputed(plan, names, alike, e.from, e.fromColumn.value)
        ensures GoneBefore(plan, alike, sequence, k, e.from)
      {
        assert Enabled(After(edges, alike, order, k), edges, alike, plan, order[k]);
        RunNeedsTables(plan, names, edges, alike, sequence, k, e);
      }
    }
  }

  /** As the differ plans drops, every accepted plan runs. */
  lemma DifferPlansRun(plan: seq<Change>, names: PlanNames, edges: seq<ExpressionEdge>, alike: Alike, notes: set<Edge>,
                       sequence: seq<nat>)
    requires SettlesTo(plan, names, edges, alike, notes, sequence)
    requires Reasons(plan, names, edges, alike) == {}
    requires Resolves(plan, names) && Sensible(plan, names, edges, alike) && alike.Transitive()
    requires WholeOrByColumn(plan, alike)
    ensures Runs(edges, alike, plan, Arrange(plan, sequence))
  {
    forall k: nat, e | k < |sequence| && e in edges && ReadsDropped(plan[sequence[k]], alike, e)
      ensures DropsComputed(plan, names, alike, e.from, e.fromColumn.value)
    {
      NotStandingReader(plan, names, edges, alike, sequence[k], e);
    }
    AcceptedPlansRun(plan, names, edges, alike, notes, sequence);
  }

  const T: TableName := TableName("dbo", "t")

  /** `t.c` is computed from `t.a`. */
  const READER: ExpressionEdge := ExpressionEdge(T, Some("c"), false, T, Some("a"))

  const BOTH: seq<Change> := [DropColumn("u", T, "a"), DropTable(T)]

  function PlainNames(): PlanNames {
    PlanNames((t, _) => t, _ => Some(("o", "a")), _ => Some(T))
  }

  lemma TwoSettle()
    ensures Settled(2, {}, [0, 1])
  {
    var sequence: seq<nat> := [0, 1];
    assert sequence[..0] == [] && sequence[..1] == [0];
    assert 0 in sequence[..1];
    assert sequence[0] == 0 && sequence[1] == 1;
    assert 0 in Elems(sequence) && 1 in Elems(sequence);
  }

  /** A plan that drops a column and then its whole table is accepted as it stands, and its first step is refused. */
  lemma ColumnBeforeItsTable()
    ensures Reasons(BOTH, PlainNames(), [READER], Alike({})) == {}
    ensures Resolves(BOTH, PlainNames()) && Sensible(BOTH, PlainNames(), [READER], Alike({}))
    ensures Alike({}).Transitive() && SettlesTo(BOTH, PlainNames(), [READER], Alike({}), {}, [0, 1])
    ensures !Runs([READER], Alike({}), BOTH, Arrange(BOTH, [0, 1]))
  {
    var names, alike := PlainNames(), Alike({});
    assert RemovesTable(BOTH[1], alike, T);
    assert DropsTable(BOTH, alike, T);
    assert Constraints(BOTH, [READER], names, alike, {}) == {};
    TwoSettle();
    var sequence: seq<nat> := [0, 1];
    assert Arrange(BOTH, sequence)[0] == BOTH[0];
    assert (T, "c") in Initial([READER]).computed;
    assert !NoComputedReader(Initial([READER]), [READER], alike, T, "a");
  }

  // ------------------------------------------------- the order does not matter

  /** `sequence[k]` is where place `k` of the rearranged plan came from. */
  lemma WaitsPermutes(plan: seq<Change>, names: PlanNames, edges: seq<ExpressionEdge>, alike: Alike, sequence: seq<nat>,
                      at: nat, p: nat)
    requires Permutes(|plan|, sequence) && names.Static() && at < |plan| && p < |plan|
    ensures Waits(Arrange(plan, sequence), at, p, edges, names, alike)
      <==> Waits(plan, sequence[at], sequence[p], edges, names, alike)
  {
    var order := Arrange(plan, sequence);
    assert order[at] == plan[sequence[at]] && order[p] == plan[sequence[p]];
    assert p == at <==> sequence[p] == sequence[at];
    forall object_ ensures Releases(order[p], p, edges, names, alike, object_)
                     <==> Releases(plan[sequence[p]], sequence[p], edges, names, alike, object_) {
      ReleasesAnywhere(plan[sequence[p]], p, sequence[p], edges, names, alike, object_);
    }
  }

  lemma ReleasesAnywhere(c: Change, p: nat, q: nat, edges: seq<ExpressionEdge>, names: PlanNames, alike: Alike,
                         object_: TableName)
    requires names.Static()
    ensures Releases(c, p, edges, names, alike, object_) <==> Releases(c, q, edges, names, alike, object_)
  {
    assert forall e: ExpressionEdge :: e in edges && e.fromColumn.Some? ==>
      (RemovesColumn(c, names, alike, p, e.from, e.fromColumn.value)
       <==> RemovesColumn(c, names, alike, q, e.from, e.fromColumn.value));
  }

  /** Each pair of a change and a drop that waits for it, as the later passes read them. */
  ghost function DropPrecedence(plan: seq<Change>, edges: seq<ExpressionEdge>, names: PlanNames,
                                alike: Alike): set<(Change, Change)>
  {
    set at: nat, p: nat | at < |plan| && p < |plan| && Waits(plan, at, p, edges, names, alike) :: (plan[p], plan[at])
  }

  lemma PlaceOf(n: nat, sequence: seq<nat>, i: nat) returns (k: nat)
    requires Permutes(n, sequence) && i < n
    ensures k < n && sequence[k] == i
  {
    LeftOver(n, sequence);
    assert i in sequence;
    k :| 0 <= k < n && sequence[k] == i;
  }

  /** Reordering a plan changes which change runs when, and not which drop waits for which. */
  lemma PrecedencePermutes(plan: seq<Change>, names: PlanNames, edges: seq<ExpressionEdge>, alike: Alike,
                           sequence: seq<nat>)
    requires Permutes(|plan|, sequence) && names.Static()
    ensures DropPrecedence(Arrange(plan, sequence), edges, names, alike) == DropPrecedence(plan, edges, names, alike)
  {
    var order := Arrange(plan, sequence);
    forall pair
      ensures pair in DropPrecedence(order, edges, names, alike) <==> pair in DropPrecedence(plan, edges, names, alike)
    {
      if pair in DropPrecedence(order, edges, names, alike) {
        var at: nat, p: nat :| at < |order| && p < |order| && Waits(order, at, p, edges, names, alike)
                               && pair == (order[p], order[at]);
        WaitsPermutes(plan, names, edges, alike, sequence, at, p);
        assert pair == (plan[sequence[p]], plan[sequence[at]]);
      }
      if pair in DropPrecedence(plan, edges, names, alike) {
        var at: nat, p: nat :| at < |plan| && p < |plan| && Waits(plan, at, p, edges, names, alike)
                               && pair == (plan[p], plan[at]);
        var i := PlaceOf(|plan|, sequence, at);
        var j := PlaceOf(|plan|, sequence, p);
        WaitsPermutes(plan, names, edges, alike, sequence, i, j);
        assert pair == (order[j], order[i]);
      }
    }
  }

  /** The released plan holds every change it held before. */
  lemma ReleaseConserves(plan: seq<Change>, sequence: seq<nat>)
    requires Permutes(|plan|, sequence)
    ensures multiset(Arrange(plan, sequence)) == multiset(plan)
  {
    ArrangeConserves(plan, sequence, |plan|);
  }

  lemma SplitAt(order: seq<Change>, k: nat)
    requires k < |order|
    ensures order == order[..k] + [order[k]] + order[k + 1..]
  {
  }

  lemma {:induction false} ArrangeConserves(plan: seq<Change>, sequence: seq<nat>, n: nat)
    requires n == |plan| && Permutes(n, sequence)
    ensures multiset(Arrange(plan, sequence)) == multiset(plan)
    decreases n
  {
    if n > 0 {
      var k := PlaceOf(n, sequence, n - 1);
      var plan', sequence' := plan[..n - 1], sequence[..k] + sequence[k + 1..];
      ArrangeConserves(plan', sequence', n - 1);
      var order, order' := Arrange(plan, sequence), Arrange(plan', sequence');
      assert |order| == n && order[k] == plan[n - 1];
      SplitAt(order, k);
      assert order' == order[..k] + order[k + 1..];
      assert plan == plan' + [plan[n - 1]];
    }
  }

  /** The plan's own annotations, renumbered to the rearranged plan. */
  ghost predicate Renumbered(n: nat, sequence: seq<nat>, notes: set<Edge>, notes': set<Edge>)
    requires Permutes(n, sequence)
  {
    && WellFormed(n, notes')
    && (forall i: nat, j: nat :: i < n && j < n ==> (Edge(i, j) in notes' <==> Edge(sequence[i], sequence[j]) in notes))
  }

  /** Releasing a released plan moves nothing. */
  lemma ReleaseIsStable(plan: seq<Change>, names: PlanNames, edges: seq<ExpressionEdge>, alike: Alike, notes: set<Edge>,
                        sequence: seq<nat>, notes': set<Edge>, again: seq<nat>)
    requires SettlesTo(plan, names, edges, alike, notes, sequence) && names.Static()
    requires Renumbered(|plan|, sequence, notes, notes')
    requires Settled(|plan|, Constraints(Arrange(plan, sequence), edges, names, alike, notes'), again)
    ensures again == Identity(|plan|)
    ensures Arrange(Arrange(plan, sequence), again) == Arrange(plan, sequence)
    ensures OvertakenUpTo(again, |plan|) == 0
  {
    var n, order := |plan|, Arrange(plan, sequence);
    var before, after := Constraints(plan, edges, names, alike, notes), Constraints(order, edges, names, alike, notes');
    forall e | e in after ensures e.before < n && e.after < n && e.before < e.after {
      ConstraintPermutes(plan, names, edges, alike, notes, sequence, notes', e);
      SettledRespects(n, before, sequence);
      assert sequence[e.before] in sequence[..e.after];
      var j :| 0 <= j < e.after && sequence[j] == sequence[e.before];
    }
    ForwardStays(n, after, again);
    NoneMovedIffUnchanged(n, again);
  }

  lemma ConstraintPermutes(plan: seq<Change>, names: PlanNames, edges: seq<ExpressionEdge>, alike: Alike,
                           notes: set<Edge>,
                           sequence: seq<nat>, notes': set<Edge>, e: Edge)
    requires Permutes(|plan|, sequence) && names.Static()
    requires Renumbered(|plan|, sequence, notes, notes')
    requires e in Constraints(Arrange(plan, sequence), edges, names, alike, notes')
    ensures e.before < |plan| && e.after < |plan|
    ensures Edge(sequence[e.before], sequence[e.after]) in Constraints(plan, edges, names, alike, notes)
  {
    assert Edge(e.before, e.after) == e;
    if e !in notes' {
      WaitsPermutes(plan, names, edges, alike, sequence, e.after, e.before);
    }
  }

  /** A plan is refused or accepted whatever order it arrives in. */
  lemma RefusalsPermute(plan: seq<Change>, names: PlanNames, edges: seq<ExpressionEdge>, alike: Alike,
                        sequence: seq<nat>)
    requires Permutes(|plan|, sequence) && names.Static()
    ensures Reasons(Arrange(plan, sequence), names, edges, alike) == Reasons(plan, names, edges, alike)
  {
    var order := Arrange(plan, sequence);
    StandingPermutes(plan, names, alike, sequence);
    forall r ensures r in Reasons(order, names, edges, alike) <==> r in Reasons(plan, names, edges, alike) {
      if r in Reasons(order, names, edges, alike) {
        var at, e :| 0 <= at < |order| && e in edges && r in ReasonsAt(order, names, alike, at, e);
        ReasonsAtPermute(plan, names, alike, sequence, at, e);
      }
      if r in Reasons(plan, names, edges, alike) {
        var at, e :| 0 <= at < |plan| && e in edges && r in ReasonsAt(plan, names, alike, at, e);
        var k := PlaceOf(|plan|, sequence, at);
        ReasonsAtPermute(plan, names, alike, sequence, k, e);
        assert r in ReasonsAt(order, names, alike, k, e);
      }
    }
  }

  ghost predicate SameAnswers(a: seq<Change>, b: seq<Change>, names: PlanNames, alike: Alike) {
    && (forall t, c :: Standing(a, names, alike, t, c) <==> Standing(b, names, alike, t, c))
    && (forall m :: DropsModule(a, alike, m) <==> DropsModule(b, alike, m))
  }

  lemma ReasonsAtPermute(plan: seq<Change>, names: PlanNames, alike: Alike, sequence: seq<nat>, k: nat,
                         e: ExpressionEdge)
    requires Permutes(|plan|, sequence) && names.Static() && k < |plan|
    requires SameAnswers(Arrange(plan, sequence), plan, names, alike)
    ensures ReasonsAt(Arrange(plan, sequence), names, alike, k, e) == ReasonsAt(plan, names, alike, sequence[k], e)
  {
  }

  lemma StandingPermutes(plan: seq<Change>, names: PlanNames, alike: Alike, sequence: seq<nat>)
    requires Permutes(|plan|, sequence) && names.Static()
    ensures SameAnswers(Arrange(plan, sequence), plan, names, alike)
  {
    var order := Arrange(plan, sequence);
    forall t, c ensures Standing(order, names, alike, t, c) <==> Standing(plan, names, alike, t, c) {
      DropsComputedPermutes(plan, names, alike, sequence, t, c);
      AddsComputedPermutes(plan, names, alike, sequence, t, c);
      DropsTablePermutes(plan, alike, sequence, t);
    }
    forall m ensures DropsModule(order, alike, m) <==> DropsModule(plan, alike, m) {
      DropsModulePermutes(plan, alike, sequence, m);
    }
  }

  lemma DropsComputedPermutes(plan: seq<Change>, names: PlanNames, alike: Alike, sequence: seq<nat>, t: TableName,
                              c: ColumnName)
    requires Permutes(|plan|, sequence) && names.Static()
    ensures DropsComputed(Arrange(plan, sequence), names, alike, t, c) <==> DropsComputed(plan, names, alike, t, c)
  {
    var order := Arrange(plan, sequence);
    if DropsComputed(order, names, alike, t, c) {
      var i :| 0 <= i < |order| && RemovesColumn(order[i], names, alike, i, t, c);
      assert RemovesColumn(plan[sequence[i]], names, alike, sequence[i], t, c);
    }
    if DropsComputed(plan, names, alike, t, c) {
      var i :| 0 <= i < |plan| && RemovesColumn(plan[i], names, alike, i, t, c);
      var k := PlaceOf(|plan|, sequence, i);
      assert RemovesColumn(order[k], names, alike, k, t, c);
    }
  }

  lemma AddsComputedPermutes(plan: seq<Change>, names: PlanNames, alike: Alike, sequence: seq<nat>, t: TableName,
                             c: ColumnName)
    requires Permutes(|plan|, sequence) && names.Static()
    ensures AddsComputed(Arrange(plan, sequence), names, alike, t, c) <==> AddsComputed(plan, names, alike, t, c)
  {
    var order := Arrange(plan, sequence);
    if AddsComputed(order, names, alike, t, c) {
      var i :| 0 <= i < |order| && AddsColumn(order[i], names, alike, i, t, c);
      assert AddsColumn(plan[sequence[i]], names, alike, sequence[i], t, c);
    }
    if AddsComputed(plan, names, alike, t, c) {
      var i :| 0 <= i < |plan| && AddsColumn(plan[i], names, alike, i, t, c);
      var k := PlaceOf(|plan|, sequence, i);
      assert AddsColumn(order[k], names, alike, k, t, c);
    }
  }

  lemma DropsTablePermutes(plan: seq<Change>, alike: Alike, sequence: seq<nat>, t: TableName)
    requires Permutes(|plan|, sequence)
    ensures DropsTable(Arrange(plan, sequence), alike, t) <==> DropsTable(plan, alike, t)
  {
    var order := Arrange(plan, sequence);
    if DropsTable(order, alike, t) {
      var i :| 0 <= i < |order| && RemovesTable(order[i], alike, t);
      assert RemovesTable(plan[sequence[i]], alike, t);
    }
    if DropsTable(plan, alike, t) {
      var i :| 0 <= i < |plan| && RemovesTable(plan[i], alike, t);
      var k := PlaceOf(|plan|, sequence, i);
      assert RemovesTable(order[k], alike, t);
    }
  }

  lemma DropsModulePermutes(plan: seq<Change>, alike: Alike, sequence: seq<nat>, m: TableName)
    requires Permutes(|plan|, sequence)
    ensures DropsModule(Arrange(plan, sequence), alike, m) <==> DropsModule(plan, alike, m)
  {
    var order := Arrange(plan, sequence);
    if DropsModule(order, alike, m) {
      var i :| 0 <= i < |order| && RemovesModule(order[i], alike, m);
      assert RemovesModule(plan[sequence[i]], alike, m);
    }
    if DropsModule(plan, alike, m) {
      var i :| 0 <= i < |plan| && RemovesModule(plan[i], alike, m);
      var k := PlaceOf(|plan|, sequence, i);
      assert RemovesModule(order[k], alike, m);
    }
  }
}
