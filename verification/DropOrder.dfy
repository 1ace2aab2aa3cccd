/**
Ordering a connected plan's drops by the catalog's expression edges, and
refusing what the edges say the engine will not do.
*/
module DropOrder {
  import opened Catalog
  import opened Settle
  import Cycles

  datatype Refusal =
    | ReadsInput(table: TableName, computed: ColumnName, column: ColumnName, what: string)
    | CallsFunction(table: TableName, computed: ColumnName, function_: TableName, what: string)
    | BoundOver(table: TableName, computed: ColumnName, reader: TableName)

  datatype Outcome =
    | Ordered(plan: seq<Change>, moved: nat)
    | Refused(reasons: set<Refusal>)
    | Cyclic(members: set<nat>, waiting: set<nat>)
    | Outside

  // ------------------------------------------------------- what an edge says

  /** Computed column `table.computed` reads `table.column`, by this edge. */
  predicate ReadsColumn(e: ExpressionEdge, alike: Alike, table: TableName, column: ColumnName) {
    && e.fromColumn.Some?
    && alike.Object(e.from, table) && alike.Object(e.to, table)
    && e.toColumn.Some? && alike.Same(e.toColumn.value, column)
  }

  /** A computed column calls `object`, by this edge. */
  predicate CallsObject(e: ExpressionEdge, alike: Alike, object_: TableName) {
    e.fromColumn.Some? && alike.Object(e.to, object_)
  }

  predicate SchemaBound(e: ExpressionEdge) {
    e.fromColumn.None? && e.fromSchemaBound
  }

  /** A schema-bound module reads column `table.column`, by this edge. */
  predicate BoundToColumn(e: ExpressionEdge, alike: Alike, table: TableName, column: ColumnName) {
    SchemaBound(e) && alike.Object(e.to, table) && e.toColumn.Some? && alike.Same(e.toColumn.value, column)
  }

  // -------------------------------------------------------- what a plan does

  /** The plan drops a computed column alike to `table.column`. */
  predicate DropsComputed(plan: seq<Change>, names: PlanNames, alike: Alike, table: TableName, column: ColumnName) {
    exists at :: 0 <= at < |plan| && RemovesColumn(plan[at], names, alike, at, table, column)
  }

  predicate RemovesColumn(c: Change, names: PlanNames, alike: Alike, at: nat, table: TableName, column: ColumnName) {
    c.DropComputedColumn? && alike.Object(names.stored(c.table, at), table) && alike.Same(c.computed, column)
  }

  predicate AddsComputed(plan: seq<Change>, names: PlanNames, alike: Alike, table: TableName, column: ColumnName) {
    exists at :: 0 <= at < |plan| && AddsColumn(plan[at], names, alike, at, table, column)
  }

  predicate AddsColumn(c: Change, names: PlanNames, alike: Alike, at: nat, table: TableName, column: ColumnName) {
    c.AddComputedColumn? && alike.Object(names.stored(c.table, at), table) && alike.Same(c.computed, column)
  }

  predicate DropsTable(plan: seq<Change>, alike: Alike, table: TableName) {
    exists at :: 0 <= at < |plan| && RemovesTable(plan[at], alike, table)
  }

  predicate RemovesTable(c: Change, alike: Alike, table: TableName) {
    c.DropTable? && alike.Object(c.table, table)
  }

  predicate DropsModule(plan: seq<Change>, alike: Alike, name: TableName) {
    exists at :: 0 <= at < |plan| && RemovesModule(plan[at], alike, name)
  }

  predicate RemovesModule(c: Change, alike: Alike, name: TableName) {
    c.DropModule? && alike.Object(c.id.ObjectName(), name)
  }

  /** There before the plan and there throughout. */
  predicate Standing(plan: seq<Change>, names: PlanNames, alike: Alike, table: TableName, column: ColumnName) {
    && !DropsTable(plan, alike, table)
    && !DropsComputed(plan, names, alike, table, column)
    && !AddsComputed(plan, names, alike, table, column)
  }

  /** The input a change touches, at its catalog address, and what is done to it. */
  function InputChange(c: Change, names: PlanNames): Option<(TableName, ColumnName, string)> {
    if !(c.RenameColumn? || c.DropColumn? || c.AlterColumnType? || c.AlterColumnNullability?) then None
    else
      var what := if c.RenameColumn? then "renames" else if c.DropColumn? then "drops"
                  else if c.AlterColumnType? then "retypes or recollates" else "changes the nullability of";
      var at := names.columnAtStart(c.uid);
      if at.None? then None
      else
        var table := names.tableAtStart(at.value.0);
        if table.None? then None else Some((table.value, at.value.1, what))
  }

  function ModuleChange(c: Change): Option<(TableName, string)> {
    if c.AlterModule? then Some((c.id.ObjectName(), "alters"))
    else if c.DropModule? then Some((c.id.ObjectName(), "drops"))
    else None
  }

  /** Why the change at `at` is refused over edge `e`: every reason, none when it is not. */
  function ReasonsAt(plan: seq<Change>, names: PlanNames, alike: Alike, at: nat, e: ExpressionEdge): set<Refusal>
    requires at < |plan|
  {
    InputReasons(plan, names, alike, at, e) + ModuleReasons(plan, names, alike, at, e)
    + BoundReasons(plan, names, alike, at, e)
  }

  function InputReasons(plan: seq<Change>, names: PlanNames, alike: Alike, at: nat, e: ExpressionEdge): set<Refusal>
    requires at < |plan|
  {
    var input := InputChange(plan[at], names);
    if input.Some? && ReadsColumn(e, alike, input.value.0, input.value.1)
       && Standing(plan, names, alike, input.value.0, e.fromColumn.value)
    then {ReadsInput(e.from, e.fromColumn.value, input.value.1, input.value.2)} else {}
  }

  function ModuleReasons(plan: seq<Change>, names: PlanNames, alike: Alike, at: nat, e: ExpressionEdge): set<Refusal>
    requires at < |plan|
  {
    var m := ModuleChange(plan[at]);
    if m.Some? && CallsObject(e, alike, m.value.0) && Standing(plan, names, alike, e.from, e.fromColumn.value)
    then {CallsFunction(e.from, e.fromColumn.value, m.value.0, m.value.1)} else {}
  }

  function BoundReasons(plan: seq<Change>, names: PlanNames, alike: Alike, at: nat, e: ExpressionEdge): set<Refusal>
    requires at < |plan|
  {
    if plan[at].DropComputedColumn?
       && BoundToColumn(e, alike, names.stored(plan[at].table, at), plan[at].computed)
       && !DropsModule(plan, alike, e.from)
    then {BoundOver(names.stored(plan[at].table, at), plan[at].computed, e.from)} else {}
  }

  function Reasons(plan: seq<Change>, names: PlanNames, edges: seq<ExpressionEdge>, alike: Alike): set<Refusal> {
    set at, e, r | 0 <= at < |plan| && e in edges && r in ReasonsAt(plan, names, alike, at, e) :: r
  }

  // ------------------------------------------------------ what waits for what

  function DroppedObject(c: Change): Option<TableName> {
    if c.DropModule? then Some(c.id.ObjectName())
    else if c.DropTable? then Some(c.table)
    else None
  }

  /** Change `c`, at `p`, removes a computed column that calls `object_`. */
  predicate Releases(c: Change, p: nat, edges: seq<ExpressionEdge>, names: PlanNames, alike: Alike, object_: TableName)
  {
    exists e :: e in edges && CallsObject(e, alike, object_)
      && (RemovesColumn(c, names, alike, p, e.from, e.fromColumn.value) || RemovesTable(c, alike, e.from))
  }

  /** Change `c` drops something schema-bound to `object_`. */
  predicate DropsBound(c: Change, edges: seq<ExpressionEdge>, alike: Alike, object_: TableName) {
    && DroppedObject(c).Some?
    && (exists e :: e in edges && SchemaBound(e) && alike.Object(e.from, DroppedObject(c).value)
                    && alike.Object(e.to, object_))
  }

  /** Change `c` drops a module schema-bound to `table.column`. */
  predicate DropsReader(c: Change, edges: seq<ExpressionEdge>, alike: Alike, table: TableName, column: ColumnName) {
    && c.DropModule?
    && (exists e :: e in edges && BoundToColumn(e, alike, table, column) && alike.Object(e.from, c.id.ObjectName()))
  }

  /** Change `c`, at `p`, drops a computed column of `table` that reads `column`. */
  predicate DropsComputedReader(c: Change, p: nat, edges: seq<ExpressionEdge>, names: PlanNames, alike: Alike,
                                table: TableName, column: ColumnName) {
    && c.DropComputedColumn? && alike.Object(names.stored(c.table, p), table)
    && (exists e :: e in edges && ReadsColumn(e, alike, table, column) && alike.Same(e.fromColumn.value, c.computed))
  }

  function StartName(names: PlanNames, c: Change): ColumnName
    requires c.DropColumn?
  {
    var at := names.columnAtStart(c.uid);
    if at.Some? then at.value.1 else c.column
  }

  /** The drop at `at` waits for the change at `p`. */
  predicate Waits(plan: seq<Change>, at: nat, p: nat, edges: seq<ExpressionEdge>, names: PlanNames, alike: Alike)
    requires at < |plan| && p < |plan|
  {
    var c := plan[at];
    p != at &&
    if c.DropComputedColumn? then DropsReader(plan[p], edges, alike, names.stored(c.table, at), c.computed)
    else if c.DropColumn? then
      DropsComputedReader(plan[p], p, edges, names, alike, names.stored(c.table, at), StartName(names, c))
    else
      DroppedObject(c).Some?
      && ((c.DropModule? && Releases(plan[p], p, edges, names, alike, DroppedObject(c).value))
          || DropsBound(plan[p], edges, alike, DroppedObject(c).value))
  }

  /** Every pair `release` orders, with the plan's own annotations. */
  function Constraints(plan: seq<Change>, edges: seq<ExpressionEdge>, names: PlanNames, alike: Alike,
                       notes: set<Edge>): set<Edge> {
    notes + set at: nat, p: nat | at < |plan| && p < |plan| && Waits(plan, at, p, edges, names, alike) :: Edge(p, at)
  }

  /** `plan` in the order of `sequence`. */
  function Arrange(plan: seq<Change>, sequence: seq<nat>): (r: seq<Change>)
    requires forall k :: 0 <= k < |sequence| ==> sequence[k] < |plan|
    ensures |r| == |sequence| && forall k :: 0 <= k < |r| ==> r[k] == plan[sequence[k]]
  {
    seq(|sequence|, k requires 0 <= k < |sequence| => plan[sequence[k]])
  }

  // ---------------------------------------------------------------- the lists

  /** What one scan of the plan collects. */
  datatype Lists = Lists(
    dropped: seq<(TableName, ColumnName)>,
    added: seq<(TableName, ColumnName)>,
    tables: seq<TableName>,
    modules: seq<TableName>)

  predicate Holds(list: seq<(TableName, ColumnName)>, alike: Alike, table: TableName, column: ColumnName) {
    exists x :: x in list && alike.Object(x.0, table) && alike.Same(x.1, column)
  }

  predicate HoldsName(list: seq<TableName>, alike: Alike, name: TableName) {
    exists x :: x in list && alike.Object(x, name)
  }

  /** The lists answer every question about the plan the predicates do. */
  ghost predicate Faithful(lists: Lists, plan: seq<Change>, names: PlanNames, alike: Alike) {
    && (forall t, c :: Holds(lists.dropped, alike, t, c) <==> DropsComputed(plan, names, alike, t, c))
    && (forall t, c :: Holds(lists.added, alike, t, c) <==> AddsComputed(plan, names, alike, t, c))
    && (forall t :: HoldsName(lists.tables, alike, t) <==> DropsTable(plan, alike, t))
    && (forall m :: HoldsName(lists.modules, alike, m) <==> DropsModule(plan, alike, m))
  }

  method Collect(plan: seq<Change>, names: PlanNames, alike: Alike) returns (lists: Lists)
    ensures Faithful(lists, plan, names, alike)
  {
    lists := Lists([], [], [], []);
    for at := 0 to |plan|
      invariant Faithful(lists, plan[..at], names, alike)
    {
      var c := plan[at];
      assert plan[..at + 1] == plan[..at] + [c];
      ghost var was := lists;
      if c.DropComputedColumn? {
        lists := lists.(dropped := lists.dropped + [(names.stored(c.table, at), c.computed)]);
      }
      if c.AddComputedColumn? {
        lists := lists.(added := lists.added + [(names.stored(c.table, at), c.computed)]);
      }
      if c.DropTable? { lists := lists.(tables := lists.tables + [c.table]); }
      if c.DropModule? { lists := lists.(modules := lists.modules + [c.id.ObjectName()]); }
      CollectStep(plan[..at], c, was, lists, names, alike);
    }
    assert plan[..|plan|] == plan;
  }

  lemma CollectStep(plan: seq<Change>, c: Change, was: Lists, now: Lists, names: PlanNames, alike: Alike)
    requires Faithful(was, plan, names, alike)
    requires now.dropped == if c.DropComputedColumn? then was.dropped + [(names.stored(c.table, |plan|), c.computed)]
                            else was.dropped
    requires now.added == if c.AddComputedColumn? then was.added + [(names.stored(c.table, |plan|), c.computed)]
                          else was.added
    requires now.tables == if c.DropTable? then was.tables + [c.table] else was.tables
    requires now.modules == if c.DropModule? then was.modules + [c.id.ObjectName()] else was.modules
    ensures Faithful(now, plan + [c], names, alike)
  {
    var next := plan + [c];
    forall t, column
      ensures Holds(now.dropped, alike, t, column) <==> DropsComputed(next, names, alike, t, column)
    {
      DropsComputedGrows(plan, c, names, alike, t, column);
      if c.DropComputedColumn? {
        HoldsGrows(was.dropped, (names.stored(c.table, |plan|), c.computed), alike, t, column);
      }
    }
    forall t, column
      ensures Holds(now.added, alike, t, column) <==> AddsComputed(next, names, alike, t, column)
    {
      AddsComputedGrows(plan, c, names, alike, t, column);
      if c.AddComputedColumn? {
        HoldsGrows(was.added, (names.stored(c.table, |plan|), c.computed), alike, t, column);
      }
    }
    forall t ensures HoldsName(now.tables, alike, t) <==> DropsTable(next, alike, t) {
      DropsTableGrows(plan, c, alike, t);
      if c.DropTable? { HoldsNameGrows(was.tables, c.table, alike, t); }
    }
    forall m ensures HoldsName(now.modules, alike, m) <==> DropsModule(next, alike, m) {
      DropsModuleGrows(plan, c, alike, m);
      if c.DropModule? { HoldsNameGrows(was.modules, c.id.ObjectName(), alike, m); }
    }
  }

  lemma HoldsGrows(list: seq<(TableName, ColumnName)>, x: (TableName, ColumnName), alike: Alike, t: TableName,
                   c: ColumnName)
    ensures Holds(list + [x], alike, t, c) <==> Holds(list, alike, t, c) || (alike.Object(x.0, t) && alike.Same(x.1, c))
  {
    assert forall y :: y in list + [x] <==> y in list || y == x;
  }

  lemma HoldsNameGrows(list: seq<TableName>, x: TableName, alike: Alike, t: TableName)
    ensures HoldsName(list + [x], alike, t) <==> HoldsName(list, alike, t) || alike.Object(x, t)
  {
    assert forall y :: y in list + [x] <==> y in list || y == x;
  }

  lemma DropsComputedGrows(plan: seq<Change>, c: Change, names: PlanNames, alike: Alike, t: TableName,
                           column: ColumnName)
    ensures DropsComputed(plan + [c], names, alike, t, column) <==>
      DropsComputed(plan, names, alike, t, column) || RemovesColumn(c, names, alike, |plan|, t, column)
  {
    var next := plan + [c];
    assert next[|plan|] == c;
    assert forall i :: 0 <= i < |plan| ==> next[i] == plan[i];
    if DropsComputed(plan, names, alike, t, column) {
      var i :| 0 <= i < |plan| && RemovesColumn(plan[i], names, alike, i, t, column);
      assert RemovesColumn(next[i], names, alike, i, t, column);
    }
  }

  lemma AddsComputedGrows(plan: seq<Change>, c: Change, names: PlanNames, alike: Alike, t: TableName,
                          column: ColumnName)
    ensures AddsComputed(plan + [c], names, alike, t, column) <==>
      AddsComputed(plan, names, alike, t, column) || AddsColumn(c, names, alike, |plan|, t, column)
  {
    var next := plan + [c];
    assert next[|plan|] == c;
    assert forall i :: 0 <= i < |plan| ==> next[i] == plan[i];
    if AddsComputed(plan, names, alike, t, column) {
      var i :| 0 <= i < |plan| && AddsColumn(plan[i], names, alike, i, t, column);
      assert AddsColumn(next[i], names, alike, i, t, column);
    }
  }

  lemma DropsTableGrows(plan: seq<Change>, c: Change, alike: Alike, t: TableName)
    ensures DropsTable(plan + [c], alike, t) <==> DropsTable(plan, alike, t) || RemovesTable(c, alike, t)
  {
    var next := plan + [c];
    assert next[|plan|] == c;
    assert forall i :: 0 <= i < |plan| ==> next[i] == plan[i];
    if DropsTable(plan, alike, t) {
      var i :| 0 <= i < |plan| && RemovesTable(plan[i], alike, t);
      assert RemovesTable(next[i], alike, t);
    }
  }

  lemma DropsModuleGrows(plan: seq<Change>, c: Change, alike: Alike, t: TableName)
    ensures DropsModule(plan + [c], alike, t) <==> DropsModule(plan, alike, t) || RemovesModule(c, alike, t)
  {
    var next := plan + [c];
    assert next[|plan|] == c;
    assert forall i :: 0 <= i < |plan| ==> next[i] == plan[i];
    if DropsModule(plan, alike, t) {
      var i :| 0 <= i < |plan| && RemovesModule(plan[i], alike, t);
      assert RemovesModule(next[i], alike, t);
    }
  }

  // ---------------------------------------------------------------- the check

  predicate StandingBy(lists: Lists, alike: Alike, table: TableName, column: ColumnName) {
    && !HoldsName(lists.tables, alike, table)
    && !Holds(lists.dropped, alike, table, column)
    && !Holds(lists.added, alike, table, column)
  }

  method EdgeReasons(plan: seq<Change>, names: PlanNames, alike: Alike, lists: Lists, at: nat, e: ExpressionEdge)
      returns (refused: set<Refusal>)
    requires at < |plan| && Faithful(lists, plan, names, alike)
    ensures refused == ReasonsAt(plan, names, alike, at, e)
  {
    refused := {};
    var input := InputChange(plan[at], names);
    if input.Some? {
      var (table, column, what) := input.value;
      if ReadsColumn(e, alike, table, column) && StandingBy(lists, alike, table, e.fromColumn.value) {
        refused := refused + {ReadsInput(e.from, e.fromColumn.value, column, what)};
      }
    }
    var m := ModuleChange(plan[at]);
    if m.Some? && CallsObject(e, alike, m.value.0) && StandingBy(lists, alike, e.from, e.fromColumn.value) {
      refused := refused + {CallsFunction(e.from, e.fromColumn.value, m.value.0, m.value.1)};
    }
    if plan[at].DropComputedColumn? {
      var table := names.stored(plan[at].table, at);
      if BoundToColumn(e, alike, table, plan[at].computed) && !HoldsName(lists.modules, alike, e.from) {
        refused := refused + {BoundOver(table, plan[at].computed, e.from)};
      }
    }
  }

  function ReasonsBefore(plan: seq<Change>, names: PlanNames, edges: seq<ExpressionEdge>, alike: Alike,
                         n: nat): set<Refusal>
    requires n <= |plan|
  {
    set at, e, r | 0 <= at < n && e in edges && r in ReasonsAt(plan, names, alike, at, e) :: r
  }

  method Refuse(plan: seq<Change>, names: PlanNames, edges: seq<ExpressionEdge>, alike: Alike)
      returns (refused: set<Refusal>)
    ensures refused == Reasons(plan, names, edges, alike)
  {
    var lists := Collect(plan, names, alike);
    refused := {};
    for at := 0 to |plan|
      invariant refused == ReasonsBefore(plan, names, edges, alike, at)
    {
      ghost var before := refused;
      for i := 0 to |edges|
        invariant refused == before + (set e, r | e in edges[..i] && r in ReasonsAt(plan, names, alike, at, e) :: r)
      {
        var more := EdgeReasons(plan, names, alike, lists, at, edges[i]);
        assert edges[..i + 1] == edges[..i] + [edges[i]];
        refused := refused + more;
      }
      assert edges[..|edges|] == edges;
    }
  }

  method Schedule(plan: seq<Change>, edges: seq<ExpressionEdge>, names: PlanNames, alike: Alike, notes: set<Edge>)
      returns (schedule: set<Edge>)
    ensures schedule == Constraints(plan, edges, names, alike, notes)
  {
    schedule := notes;
    for at := 0 to |plan|
      invariant schedule == notes + set a: nat, p: nat |
        a < at && p < |plan| && Waits(plan, a, p, edges, names, alike) :: Edge(p, a)
    {
      ghost var before := schedule;
      for p := 0 to |plan|
        invariant schedule == before + set q: nat | q < p && Waits(plan, at, q, edges, names, alike) :: Edge(q, at)
      {
        if Waits(plan, at, p, edges, names, alike) {
          schedule := schedule + {Edge(p, at)};
        }
      }
    }
  }

  /** Refuses what the engine would, then settles each drop after the last change it waits for. */
  method OrderByEdges(plan: seq<Change>, names: PlanNames, edges: seq<ExpressionEdge>, alike: Alike, notes: set<Edge>)
      returns (r: Outcome)
    ensures r.Refused? ==> r.reasons == Reasons(plan, names, edges, alike)
    ensures r.Refused? <==> Reasons(plan, names, edges, alike) != {}
    ensures r.Outside? <==> Reasons(plan, names, edges, alike) == {} && !WellFormed(|plan|, notes)
    ensures r.Cyclic? ==>
      var schedule := Constraints(plan, edges, names, alike, notes);
      && WellFormed(|plan|, notes)
      && Stuck(|plan|, schedule, r.waiting) && LeftWaiting(|plan|, schedule, r.waiting)
      && Cycles.FirstComponent(schedule, r.members) && r.members <= r.waiting
    ensures r.Ordered? ==>
      (exists sequence :: SettlesTo(plan, names, edges, alike, notes, sequence)
                          && r.plan == Arrange(plan, sequence) && r.moved == OvertakenUpTo(sequence, |plan|))
  {
    var refused := Refuse(plan, names, edges, alike);
    if refused != {} { return Refused(refused); }
    var schedule := Schedule(plan, edges, names, alike, notes);
    if e :| e in schedule && !(e.before < |plan| && e.after < |plan| && e.before != e.after) {
      assert e in notes;
      return Outside;
    }
    var sequence := Kahn(|plan|, schedule);
    SettledPlacesOnce(|plan|, schedule, sequence);
    LeftOver(|plan|, sequence);
    if |sequence| < |plan| {
      LeftoverIsStuck(|plan|, schedule, sequence);
      var waiting := Missing(|plan|, sequence);
      var members := Cycles.FirstCycle(|plan|, schedule, waiting);
      Cycles.ComponentUnplaced(|plan|, schedule, members, sequence);
      return Cyclic(members, waiting);
    }
    var moved := Moved(sequence);
    assert SettlesTo(plan, names, edges, alike, notes, sequence);
    return Ordered(Arrange(plan, sequence), moved);
  }

  /** `waiting` is every step the settle could not place. */
  ghost predicate LeftWaiting(n: nat, schedule: set<Edge>, waiting: set<nat>) {
    exists placed :: Settled(n, schedule, placed) && waiting == Missing(n, placed)
  }

  /** `sequence` is the complete settled order of the plan's constraints. */
  ghost predicate SettlesTo(plan: seq<Change>, names: PlanNames, edges: seq<ExpressionEdge>, alike: Alike,
                            notes: set<Edge>, sequence: seq<nat>) {
    && WellFormed(|plan|, notes)
    && Permutes(|plan|, sequence)
    && Settled(|plan|, Constraints(plan, edges, names, alike, notes), sequence)
  }
}
