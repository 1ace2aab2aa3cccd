/**
The database catalog as the planner sees it: object names, the collation's
notion of one name, the changes a plan holds and the expression edges the
engine reports.
*/
module Catalog {

  datatype Option<+T> = None | Some(value: T)

  datatype TableName = TableName(schema: string, name: string)

  type ColumnName = string
  type Uid = string

  /** The pairs of spellings the engine reads as one name. */
  datatype Alike = Alike(pairs: set<(string, string)>) {

    predicate Same(a: string, b: string) {
      a == b || (a, b) in pairs || (b, a) in pairs
    }

    predicate Object(a: TableName, b: TableName) {
      Same(a.schema, b.schema) && Same(a.name, b.name)
    }

    /** Objects are alike part by part: where no spellings are, only one object is alike to another. */
    lemma ObjectByParts(a: TableName, b: TableName, x: string)
      ensures Object(a, b) <==> Object(a.(name := x), b.(name := x)) && Object(a.(schema := x), b.(schema := x))
      ensures pairs == {} ==> (Object(a, b) <==> a == b)
    {
    }

    /** A collation's equality is an equivalence; the pairs alone do not force this part of it. */
    ghost predicate Transitive() {
      forall a, b, c :: Same(a, b) && Same(b, c) ==> Same(a, c)
    }

    lemma ObjectTransitive(a: TableName, b: TableName, c: TableName)
      requires Transitive() && Object(a, b) && Object(b, c)
      ensures Object(a, c)
    {
    }
  }

  datatype ModuleKind = View | Procedure | Function | Trigger

  datatype ModuleId =
    | Named(of: TableName)
    | Routine(of: TableName, args: seq<string>)
    | TriggerOn(on: TableName, trigger: string)
  {
    function ObjectName(): TableName {
      match this
      case Named(of) => of
      case Routine(of, _) => of
      case TriggerOn(on, trigger) => TableName(on.schema, trigger)
    }

    /** The name another module would reference this one by; nothing names a trigger. */
    function ReferencedName(): Option<TableName> {
      match this
      case Named(of) => Some(of)
      case Routine(of, _) => Some(of)
      case TriggerOn(_, _) => None
    }
  }

  /** One edge of the catalog's own dependency view. */
  datatype ExpressionEdge = ExpressionEdge(
    from: TableName,
    fromColumn: Option<ColumnName>,
    fromSchemaBound: bool,
    to: TableName,
    toColumn: Option<ColumnName>)

  /** A two-part name an expression calls. */
  type Call = (string, string)

  datatype Change =
    | RenameTable(oldTable: TableName, newTable: TableName)
    | RenameColumn(uid: Uid, table: TableName, column: ColumnName, newColumn: ColumnName)
    | DropColumn(uid: Uid, table: TableName, column: ColumnName)
    | AlterColumnType(uid: Uid, table: TableName, column: ColumnName)
    | AlterColumnNullability(uid: Uid, table: TableName, column: ColumnName)
    | CreateTable(table: TableName, computedColumns: seq<(ColumnName, seq<Call>)>, receivers: seq<ColumnName>)
    | AddComputedColumn(table: TableName, computed: ColumnName, calls: seq<Call>)
    | DropComputedColumn(table: TableName, computed: ColumnName)
    | DropTable(table: TableName)
    | CreateModule(id: ModuleId, kind: ModuleKind)
    | AlterModule(id: ModuleId, kind: ModuleKind)
    | DropModule(id: ModuleId, kind: ModuleKind)
    | OtherChange(what: string)

  /**
  The plan's name history, read where the ordering asks it: the catalog
  address of the table a change names at its position, and where a column's
  identity sat before the plan.
  */
  datatype PlanNames = PlanNames(
    stored: (TableName, nat) -> TableName,
    columnAtStart: Uid -> Option<(Uid, ColumnName)>,
    tableAtStart: Uid -> Option<TableName>)
  {
    /** No table is renamed: a name means one table throughout. */
    ghost predicate Static() {
      forall table, at :: stored(table, at) == table
    }
  }
}
