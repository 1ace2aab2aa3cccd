/**
Adopting a database: what validation refuses is left out of the declarations,
object by object, and everything left out is recorded. The dialect's
validators are parameters.
*/
module Adoption {
  import opened Catalog
  import Narrowing = NarrowRole

  type RoleName = string
  type Problems = seq<string>

  datatype Table = Table(partitionOf: Option<TableName>, body: string)
  datatype Module = Module(kind: ModuleKind, body: string)

  type Tables = map<TableName, Table>
  type Modules = map<ModuleId, Module>
  type Roles = map<RoleName, Narrowing.Grants>

  datatype Schema = Schema(tables: Tables, modules: Modules, roles: Roles)

  /** Something the read could not take: a relation's own object, or another kind of target. */
  datatype Limitation = Relation(name: TableName, detail: string) | Elsewhere(detail: string)

  datatype Dialect = Dialect(
    table: (TableName, Table, Schema) -> Problems,
    partition: (TableName, Table, Table) -> Problems,
    module_: (ModuleId, Module) -> Problems,
    role: (RoleName, Narrowing.Grants, Schema) -> Problems,
    declarable: Narrowing.Grants -> Narrowing.Grants)

  /** Why a table was left out. */
  datatype Reason =
    | Refused(why: Problems)
    | ForPartition(partition: TableName, why: Problems)
    | ForLimitation(partition: TableName, detail: string)
    | WithParent(parent: TableName)

  datatype TableOut = TableOut(name: TableName, reason: Reason)

  /** Why a module stays unmanaged. */
  datatype ModuleOut =
    | ModuleRefused(id: ModuleId, kind: ModuleKind, why: Problems)
    | NoTarget(id: ModuleId, on: TableName)

  // ---------- The passes, as sets ----------

  /** The tables validation accepts on their own. */
  function Accepted(d: Dialect, s: Schema): Tables {
    map n | n in s.tables && d.table(n, s.tables[n], s) == [] :: s.tables[n]
  }

  predicate PartitionIn(t: Tables, n: TableName, p: TableName) {
    n in t && t[n].partitionOf == Some(p)
  }

  predicate RefusedIn(d: Dialect, t: Tables, n: TableName, p: TableName) {
    PartitionIn(t, n, p) && p in t && d.partition(n, t[n], t[p]) != []
  }

  /** Parents of a partition validation refuses. */
  function RefusedParents(d: Dialect, t: Tables): set<TableName> {
    set n, p | n in t && p in t && RefusedIn(d, t, n, p) :: p
  }

  predicate LimitedIn(t: Tables, limitation: Limitation, p: TableName) {
    limitation.Relation? && PartitionIn(t, limitation.name, p)
  }

  /** Parents of a partition the read could not take all of. */
  function LimitedParents(limitations: seq<Limitation>, t: Tables): set<TableName> {
    set l, p | l in limitations && p in t && LimitedIn(t, l, p) :: p
  }

  /** Limitation `l` is the first of a partition of `p`. */
  predicate FirstLimitation(limitations: seq<Limitation>, t: Tables, p: TableName, l: Limitation) {
    exists i :: 0 <= i < |limitations| && FirstAt(limitations, t, p, l, i)
  }

  predicate FirstAt(limitations: seq<Limitation>, t: Tables, p: TableName, l: Limitation, i: nat)
    requires i < |limitations|
  {
    && limitations[i] == l
    && LimitedIn(t, l, p)
    && forall j :: 0 <= j < i ==> !LimitedIn(t, limitations[j], p)
  }

  /** Partitions whose parent is not among the tables. */
  function Orphans(t: Tables): set<TableName> {
    set n | n in t && t[n].partitionOf.Some? && t[n].partitionOf.value !in t
  }

  function WholeTrees(d: Dialect, limitations: seq<Limitation>, s: Schema): Tables {
    var own := Accepted(d, s);
    var whole := own - RefusedParents(d, own);
    whole - LimitedParents(limitations, whole)
  }

  function KeptTables(d: Dialect, limitations: seq<Limitation>, s: Schema): Tables {
    var trees := WholeTrees(d, limitations, s);
    trees - Orphans(trees)
  }

  function AcceptedModules(d: Dialect, modules: Modules): Modules {
    map id | id in modules && d.module_(id, modules[id]) == [] :: modules[id]
  }

  predicate ViewNamed(modules: Modules, id: ModuleId, on: TableName) {
    id in modules && modules[id].kind == View && id.ReferencedName() == Some(on)
  }

  /** A trigger has somewhere to be: a table or a view. */
  predicate TriggerTarget(tables: Tables, modules: Modules, on: TableName) {
    on in tables || exists id :: id in modules && ViewNamed(modules, id, on)
  }

  predicate IsTrigger(modules: Modules, id: ModuleId) {
    id in modules && id.TriggerOn? && modules[id].kind == Trigger
  }

  function Untargeted(tables: Tables, modules: Modules): set<ModuleId> {
    set id | id in modules && IsTrigger(modules, id) && !TriggerTarget(tables, modules, id.on)
  }

  function KeptModules(d: Dialect, tables: Tables, modules: Modules): Modules {
    var own := AcceptedModules(d, modules);
    own - Untargeted(tables, own)
  }

  // ---------- Accounting ----------

  ghost predicate OneEach<K(!new)>(removed: set<K>, names: seq<K>) {
    && (forall i, j :: 0 <= i < j < |names| ==> names[i] != names[j])
    && (forall k :: k in removed <==> k in names)
  }

  function TableNames(out: seq<TableOut>): seq<TableName> {
    seq(|out|, i requires 0 <= i < |out| => out[i].name)
  }

  function ModuleIds(out: seq<ModuleOut>): seq<ModuleId> {
    seq(|out|, i requires 0 <= i < |out| => out[i].id)
  }

  lemma OneMore<K(!new)>(removed: set<K>, names: seq<K>, k: K)
    requires OneEach(removed, names) && k !in removed
    ensures OneEach(removed + {k}, names + [k])
  {
  }

  /** Why a table is out, read against the schema the pass began with. */
  ghost predicate Honest(d: Dialect, limitations: seq<Limitation>, s: Schema, out: TableOut) {
    var own := Accepted(d, s);
    var whole := own - RefusedParents(d, own);
    match out.reason
    case Refused(why) =>
      out.name in s.tables && why == d.table(out.name, s.tables[out.name], s) && why != []
    case ForPartition(n, why) =>
      RefusedIn(d, own, n, out.name) && why == d.partition(n, own[n], own[out.name])
    case ForLimitation(n, detail) =>
      && PartitionIn(whole, n, out.name)
      && exists i :: 0 <= i < |limitations| && limitations[i] == Relation(n, detail)
           && forall j :: 0 <= j < i && limitations[j].Relation?
                ==> !PartitionIn(whole, limitations[j].name, out.name)
    case WithParent(p) =>
      PartitionIn(s.tables, out.name, p) && p !in WholeTrees(d, limitations, s)
  }

  ghost predicate AllHonest(d: Dialect, limitations: seq<Limitation>, s: Schema, out: seq<TableOut>) {
    forall i :: 0 <= i < |out| ==> Honest(d, limitations, s, out[i])
  }

  lemma LimitationHonest(d: Dialect, limitations: seq<Limitation>, s: Schema, l: Limitation, p: TableName)
    requires FirstLimitation(limitations, Accepted(d, s) - RefusedParents(d, Accepted(d, s)), p, l)
    ensures Honest(d, limitations, s, TableOut(p, ForLimitation(l.name, l.detail)))
  {
  }

  /** Every table is kept as it was read or has exactly one record of why it is out. */
  ghost predicate TablesAccounted(original: Tables, kept: Tables, out: seq<TableOut>) {
    && kept.Keys <= original.Keys
    && (forall n :: n in kept ==> kept[n] == original[n])
    && OneEach(original.Keys - kept.Keys, TableNames(out))
  }

  ghost predicate ModulesAccounted(original: Modules, kept: Modules, out: seq<ModuleOut>) {
    && kept.Keys <= original.Keys
    && (forall id :: id in kept ==> kept[id] == original[id])
    && OneEach(original.Keys - kept.Keys, ModuleIds(out))
  }

  /** Why a module is out: the validator's own words about it, or a trigger whose table or view is not written. */
  ghost predicate HonestModule(d: Dialect, tables: Tables, original: Modules, out: ModuleOut) {
    match out
    case ModuleRefused(id, kind, why) =>
      id in original && kind == original[id].kind && why == d.module_(id, original[id]) && why != []
    case NoTarget(id, on) =>
      && id in original && id.TriggerOn? && on == id.on
      && original[id].kind == Trigger && d.module_(id, original[id]) == []
      && on !in tables
      && forall v :: v in original && original[v].kind == View && d.module_(v, original[v]) == []
           ==> v.ReferencedName() != Some(on)
  }

  ghost predicate AllModulesHonest(d: Dialect, tables: Tables, original: Modules, out: seq<ModuleOut>) {
    forall i :: 0 <= i < |out| ==> HonestModule(d, tables, original, out[i])
  }

  lemma NoTargetHonest(d: Dialect, tables: Tables, original: Modules, id: ModuleId)
    requires id in Untargeted(tables, AcceptedModules(d, original))
    ensures HonestModule(d, tables, original, NoTarget(id, id.on))
  {
    var own := AcceptedModules(d, original);
    forall v | v in original && original[v].kind == View && d.module_(v, original[v]) == []
      ensures v.ReferencedName() != Some(id.on)
    {
      assert v in own && !ViewNamed(own, v, id.on);
    }
  }

  lemma LeaveOutTable(original: Tables, kept: Tables, out: seq<TableOut>, x: TableOut)
    requires TablesAccounted(original, kept, out) && x.name in kept
    ensures TablesAccounted(original, kept - {x.name}, out + [x])
  {
    OneMore(original.Keys - kept.Keys, TableNames(out), x.name);
    assert TableNames(out + [x]) == TableNames(out) + [x.name];
    assert original.Keys - (kept - {x.name}).Keys == original.Keys - kept.Keys + {x.name};
  }

  lemma LeaveOutModule(original: Modules, kept: Modules, out: seq<ModuleOut>, x: ModuleOut)
    requires ModulesAccounted(original, kept, out) && x.id in kept
    ensures ModulesAccounted(original, kept - {x.id}, out + [x])
  {
    OneMore(original.Keys - kept.Keys, ModuleIds(out), x.id);
    assert ModuleIds(out + [x]) == ModuleIds(out) + [x.id];
    assert original.Keys - (kept - {x.id}).Keys == original.Keys - kept.Keys + {x.id};
  }

  // ---------- The pass ----------

  /** The first limitation of each tree that has one. */
  method Limited(limitations: seq<Limitation>, whole: Tables) returns (limited: map<TableName, Limitation>)
    ensures forall p :: p in limited ==> FirstLimitation(limitations, whole, p, limited[p])
    ensures forall p :: p in whole ==> (p in limited <==> p in LimitedParents(limitations, whole))
  {
    limited := map[];
    for i := 0 to |limitations|
      invariant forall p :: p in limited ==> FirstLimitation(limitations, whole, p, limited[p])
      invariant forall p :: p !in limited ==> forall j :: 0 <= j < i ==> !LimitedIn(whole, limitations[j], p)
    {
      var l := limitations[i];
      if l.Relation? && l.name in whole && whole[l.name].partitionOf.Some? {
        var parent := whole[l.name].partitionOf.value;
        if parent !in limited {
          assert FirstAt(limitations, whole, parent, l, i);
          limited := limited[parent := l];
        }
      }
    }
    forall p | p in limited ensures exists l :: l in limitations && LimitedIn(whole, l, p) {
      var i :| 0 <= i < |limitations| && FirstAt(limitations, whole, p, limited[p], i);
      assert limitations[i] in limitations;
    }
  }

  /** What validation says of a role among these objects. */
  function JudgeOf(d: Dialect, probe: Schema, name: RoleName): Narrowing.Judge {
    grants => d.role(name, grants, probe)
  }

  /** One role, judged among the objects that stayed. */
  method NarrowOne(d: Dialect, probe: Schema, name: RoleName, original: Narrowing.Grants)
      returns (kept: Narrowing.Grants, out: seq<Narrowing.LeftOut>, whole: Option<Problems>)
    ensures whole.None? ==> Narrowed(d, probe, name, original, kept, out)
    ensures whole.Some? ==> Dropped(d, probe, name, original, whole.value, out)
  {
    var judge := JudgeOf(d, probe, name);
    kept, out, whole := Narrowing.NarrowRole(judge, d.declarable(original));
    assert whole.None? && judge(kept) != [] ==> Narrowing.Minimal(judge, kept);
  }

  method NarrowNamed(d: Dialect, probe: Schema, ghost original: Roles, name: RoleName, grants: Narrowing.Grants)
      returns (kept: Narrowing.Grants, out: seq<Narrowing.LeftOut>, whole: Option<Problems>)
    requires name in original && original[name] == grants
    ensures whole.None? ==> NarrowedAs(d, probe, original)(name, kept, out)
    ensures whole.Some? ==> DroppedAs(d, probe, original)(name, whole.value, out)
  {
    kept, out, whole := NarrowOne(d, probe, name, grants);
  }

  class Pulled {
    var tables: Tables
    var modules: Modules
    var roles: Roles
    const limitations: seq<Limitation>
    var warnings: seq<TableOut>
    var unmanaged: seq<ModuleOut>
    /** The grants left out of each role. */
    var unexpressible: map<RoleName, seq<Narrowing.LeftOut>>
    /** The roles left out, and why. */
    var rolesOut: map<RoleName, Problems>

    constructor (s: Schema, limitations: seq<Limitation>)
      ensures tables == s.tables && modules == s.modules && roles == s.roles && this.limitations == limitations
      ensures warnings == [] && unmanaged == [] && unexpressible == map[] && rolesOut == map[]
    {
      tables, modules, roles, this.limitations := s.tables, s.modules, s.roles, limitations;
      warnings, unmanaged, unexpressible, rolesOut := [], [], map[], map[];
    }

    /** The books are straight: each table is here, or recorded once with a true reason. */
    ghost predicate Straight(d: Dialect, s: Schema)
      reads this
    {
      TablesAccounted(s.tables, tables, warnings) && AllHonest(d, limitations, s, warnings)
    }

    /** Removes a table and records it, unless an earlier record already did. */
    method Take(x: TableOut, ghost d: Dialect, ghost s: Schema)
      requires Straight(d, s) && Honest(d, limitations, s, x)
      modifies this`tables, this`warnings
      ensures Straight(d, s) && tables == old(tables) - {x.name}
    {
      if x.name in tables {
        LeaveOutTable(s.tables, tables, warnings, x);
        tables := tables - {x.name};
        warnings := warnings + [x];
      }
    }

    method RemoveRefusedTables(d: Dialect, s: Schema)
      requires s == Schema(tables, modules, roles) && warnings == []
      modifies this`tables, this`warnings
      ensures tables == Accepted(d, s)
      ensures Straight(d, s)
    {
      var names := tables.Keys;
      while names != {}
        invariant names <= tables.Keys
        invariant Straight(d, s)
        invariant forall n :: n in s.tables ==> (n in tables <==> n in names || d.table(n, s.tables[n], s) == [])
        decreases names
      {
        var name :| name in names;
        var why := d.table(name, s.tables[name], s);
        if why != [] {
          Take(TableOut(name, Refused(why)), d, s);
        }
        names := names - {name};
      }
    }

    method RemoveRefusedTrees(d: Dialect, ghost s: Schema)
      requires tables == Accepted(d, s)
      requires Straight(d, s)
      modifies this`tables, this`warnings
      ensures tables == Accepted(d, s) - RefusedParents(d, Accepted(d, s))
      ensures Straight(d, s)
    {
      var own := tables;
      var names := own.Keys;
      ghost var gone: set<TableName> := {};
      while names != {}
        invariant names <= own.Keys
        invariant tables == own - gone
        invariant forall p :: p in gone ==> p in RefusedParents(d, own)
        invariant forall n, p :: n in own && n !in names && p in own && RefusedIn(d, own, n, p) ==> p in gone
        invariant Straight(d, s)
        decreases names
      {
        var name :| name in names;
        if own[name].partitionOf.Some? && own[name].partitionOf.value in own {
          var parent := own[name].partitionOf.value;
          var why := d.partition(name, own[name], own[parent]);
          if why != [] {
            assert RefusedIn(d, own, name, parent);
            Take(TableOut(parent, ForPartition(name, why)), d, s);
            gone := gone + {parent};
          }
        }
        names := names - {name};
      }
      assert gone == RefusedParents(d, own);
    }

    method RemoveLimitedTrees(ghost d: Dialect, ghost s: Schema)
      requires tables == Accepted(d, s) - RefusedParents(d, Accepted(d, s))
      requires Straight(d, s)
      modifies this`tables, this`warnings
      ensures tables == WholeTrees(d, limitations, s)
      ensures Straight(d, s)
    {
      ghost var whole := tables;
      var limited := Limited(limitations, tables);
      forall p | p in limited
        ensures Honest(d, limitations, s, TableOut(p, ForLimitation(limited[p].name, limited[p].detail)))
      {
        LimitationHonest(d, limitations, s, limited[p], p);
      }
      TakeLimited(limited, d, s);
      assert tables == whole - LimitedParents(limitations, whole);
    }

    method TakeLimited(limited: map<TableName, Limitation>, ghost d: Dialect, ghost s: Schema)
      requires Straight(d, s)
      requires forall p :: p in limited ==> limited[p].Relation?
      requires (forall p :: p in limited ==>
                  Honest(d, limitations, s, TableOut(p, ForLimitation(limited[p].name, limited[p].detail))))
      modifies this`tables, this`warnings
      ensures tables == old(tables) - limited.Keys
      ensures Straight(d, s)
    {
      var parents := limited.Keys;
      while parents != {}
        invariant parents <= limited.Keys
        invariant tables == old(tables) - (limited.Keys - parents)
        invariant Straight(d, s)
        decreases parents
      {
        var parent :| parent in parents;
        Take(TableOut(parent, ForLimitation(limited[parent].name, limited[parent].detail)), d, s);
        parents := parents - {parent};
      }
    }

    method RemoveOrphans(ghost d: Dialect, ghost s: Schema)
      requires tables == WholeTrees(d, limitations, s)
      requires Straight(d, s)
      modifies this`tables, this`warnings
      ensures tables == KeptTables(d, limitations, s)
      ensures Straight(d, s)
    {
      var trees := tables;
      var orphans := Orphans(trees);
      while orphans != {}
        invariant orphans <= Orphans(trees)
        invariant tables == trees - (Orphans(trees) - orphans)
        invariant Straight(d, s)
        decreases orphans
      {
        var name :| name in orphans;
        Take(TableOut(name, WithParent(trees[name].partitionOf.value)), d, s);
        orphans := orphans - {name};
      }
    }

    method RemoveRefusedModules(d: Dialect)
      requires unmanaged == []
      modifies this`modules, this`unmanaged
      ensures modules == AcceptedModules(d, old(modules))
      ensures ModulesAccounted(old(modules), modules, unmanaged)
      ensures AllModulesHonest(d, tables, old(modules), unmanaged)
    {
      var original := modules;
      var ids := modules.Keys;
      while ids != {}
        invariant ids <= modules.Keys
        invariant ModulesAccounted(original, modules, unmanaged)
        invariant AllModulesHonest(d, tables, original, unmanaged)
        invariant forall id :: id in original ==> (id in modules <==> id in ids || d.module_(id, original[id]) == [])
        decreases ids
      {
        var id :| id in ids;
        var why := d.module_(id, original[id]);
        if why != [] {
          LeaveOutModule(original, modules, unmanaged, ModuleRefused(id, original[id].kind, why));
          unmanaged := unmanaged + [ModuleRefused(id, original[id].kind, why)];
          modules := modules - {id};
        }
        ids := ids - {id};
      }
    }

    method RemoveModules(d: Dialect)
      requires unmanaged == []
      modifies this`modules, this`unmanaged
      ensures modules == KeptModules(d, tables, old(modules))
      ensures ModulesAccounted(old(modules), modules, unmanaged)
      ensures AllModulesHonest(d, tables, old(modules), unmanaged)
    {
      ghost var original := modules;
      RemoveRefusedModules(d);
      var own := modules;
      var orphaned := Untargeted(tables, own);
      while orphaned != {}
        invariant orphaned <= Untargeted(tables, own)
        invariant modules == own - (Untargeted(tables, own) - orphaned)
        invariant ModulesAccounted(original, modules, unmanaged)
        invariant AllModulesHonest(d, tables, original, unmanaged)
        decreases orphaned
      {
        var id :| id in orphaned;
        LeaveOutModule(original, modules, unmanaged, NoTarget(id, id.on));
        NoTargetHonest(d, tables, original, id);
        modules := modules - {id};
        unmanaged := unmanaged + [NoTarget(id, id.on)];
        orphaned := orphaned - {id};
      }
    }

    /** One of the roles still to do is narrowed, or goes. */
    method SettleRole(d: Dialect, probe: Schema, ghost original: Roles, ghost todo: set<RoleName>, name: RoleName)
      requires name in todo && name in roles
      requires Settled(d, probe, original, todo, roles, unexpressible, rolesOut)
      modifies this`roles, this`unexpressible, this`rolesOut
      ensures Settled(d, probe, original, todo - {name}, roles, unexpressible, rolesOut)
      ensures todo - {name} <= old(roles).Keys - {name} ==> todo - {name} <= roles.Keys
    {
      ghost var narrowed, dropped := NarrowedAs(d, probe, original), DroppedAs(d, probe, original);
      var kept, out, whole := NarrowNamed(d, probe, original, name, roles[name]);
      if whole.Some? {
        DropRole(narrowed, dropped, original, todo, roles, unexpressible, rolesOut, name, whole.value, out);
        roles, rolesOut := roles - {name}, rolesOut[name := whole.value];
      } else {
        KeepRole(narrowed, dropped, original, todo, roles, unexpressible, rolesOut, name, kept, out);
        roles := roles[name := kept];
      }
      unexpressible := unexpressible[name := out];
    }

    /** Each role is narrowed against the objects that stayed; one refused without any grant goes. */
    method NarrowRoles(d: Dialect)
      requires unexpressible == map[] && rolesOut == map[]
      modifies this`roles, this`unexpressible, this`rolesOut
      ensures Settled(d, Schema(tables, modules, map[]), old(roles), {}, roles, unexpressible, rolesOut)
    {
      var probe := Schema(tables, modules, map[]);
      ghost var original := roles;
      var names := roles.Keys;
      while names != {}
        invariant names <= roles.Keys
        invariant Settled(d, probe, original, names, roles, unexpressible, rolesOut)
        decreases names
      {
        var name :| name in names;
        SettleRole(d, probe, original, names, name);
        names := names - {name};
      }
    }

    /** The whole leave-out pass. */
    method LeaveOut(d: Dialect)
      requires warnings == [] && unmanaged == [] && unexpressible == map[] && rolesOut == map[]
      modifies this
      ensures tables == KeptTables(d, limitations, old(Schema(tables, modules, roles)))
      ensures TablesAccounted(old(tables), tables, warnings)
      ensures AllHonest(d, limitations, old(Schema(tables, modules, roles)), warnings)
      ensures modules == KeptModules(d, tables, old(modules))
      ensures ModulesAccounted(old(modules), modules, unmanaged)
      ensures AllModulesHonest(d, tables, old(modules), unmanaged)
      ensures Settled(d, Schema(tables, modules, map[]), old(roles), {}, roles, unexpressible, rolesOut)
    {
      var s := Schema(tables, modules, roles);
      RemoveRefusedTables(d, s);
      RemoveRefusedTrees(d, s);
      RemoveLimitedTrees(d, s);
      RemoveOrphans(d, s);
      RemoveModules(d);
      NarrowRoles(d);
    }
  }

  /** A kept role holds declarable grants no single one of which carries a problem; the others each carried one. */
  ghost predicate Narrowed(d: Dialect, probe: Schema, r: RoleName, original: Narrowing.Grants,
                           kept: Narrowing.Grants, out: seq<Narrowing.LeftOut>) {
    && Narrowing.Accounted(d.declarable(original), kept, out)
    && Narrowing.AllCarried(JudgeOf(d, probe, r), d.declarable(original), out, |out|)
    && (d.role(r, kept, probe) == []
        || (d.role(r, map[], probe) == []
            && forall t :: t in kept ==> |d.role(r, kept - {t}, probe)| >= |d.role(r, kept, probe)|))
  }

  /** A role goes only if narrowing it did not help and validation refuses it with no grant; all are reported. */
  ghost predicate Dropped(d: Dialect, probe: Schema, r: RoleName, original: Narrowing.Grants,
                          why: Problems, out: seq<Narrowing.LeftOut>) {
    && Narrowing.Accounted(d.declarable(original), map[], out)
    && (exists n: nat :: n <= |out| && Narrowing.GaveUpAt(JudgeOf(d, probe, r), d.declarable(original), out, n))
    && why == d.role(r, map[], probe) && why != []
  }

  /** Every role outside `todo` is kept narrowed or recorded as out; the others are untouched. */
  ghost predicate Settled(d: Dialect, probe: Schema, original: Roles, todo: set<RoleName>, kept: Roles,
                          out: map<RoleName, seq<Narrowing.LeftOut>>, gone: map<RoleName, Problems>) {
    SettledAs(NarrowedAs(d, probe, original), DroppedAs(d, probe, original), original, todo, kept, out, gone)
  }

  ghost function NarrowedAs(d: Dialect, probe: Schema,
                            original: Roles): (RoleName, Narrowing.Grants, seq<Narrowing.LeftOut>) -> bool
  {
    (r, grants, left) => r in original && Narrowed(d, probe, r, original[r], grants, left)
  }

  ghost function DroppedAs(d: Dialect, probe: Schema,
                           original: Roles): (RoleName, Problems, seq<Narrowing.LeftOut>) -> bool
  {
    (r, why, left) => r in original && Dropped(d, probe, r, original[r], why, left)
  }

  /** The same, by what it means that a role is narrowed and that it is dropped. */
  ghost predicate SettledAs(narrowed: (RoleName, Narrowing.Grants, seq<Narrowing.LeftOut>) -> bool,
                            dropped: (RoleName, Problems, seq<Narrowing.LeftOut>) -> bool,
                            original: Roles, todo: set<RoleName>, kept: Roles,
                            out: map<RoleName, seq<Narrowing.LeftOut>>, gone: map<RoleName, Problems>) {
    && out.Keys == original.Keys - todo
    && kept.Keys + gone.Keys == original.Keys
    && kept.Keys !! gone.Keys
    && gone.Keys !! todo
    && (forall r :: r in todo && r in kept ==> kept[r] == original[r])
    && (forall r :: r in kept && r !in todo ==> narrowed(r, kept[r], out[r]))
    && (forall r :: r in gone ==> dropped(r, gone[r], out[r]))
  }

  lemma KeepRole(narrowed: (RoleName, Narrowing.Grants, seq<Narrowing.LeftOut>) -> bool,
                 dropped: (RoleName, Problems, seq<Narrowing.LeftOut>) -> bool,
                 original: Roles, todo: set<RoleName>, kept: Roles,
                 out: map<RoleName, seq<Narrowing.LeftOut>>, gone: map<RoleName, Problems>,
                 name: RoleName, grants: Narrowing.Grants, left: seq<Narrowing.LeftOut>)
    requires SettledAs(narrowed, dropped, original, todo, kept, out, gone) && name in todo && name in kept
    requires narrowed(name, grants, left)
    ensures SettledAs(narrowed, dropped, original, todo - {name}, kept[name := grants], out[name := left], gone)
  {
  }

  lemma DropRole(narrowed: (RoleName, Narrowing.Grants, seq<Narrowing.LeftOut>) -> bool,
                 dropped: (RoleName, Problems, seq<Narrowing.LeftOut>) -> bool,
                 original: Roles, todo: set<RoleName>, kept: Roles,
                 out: map<RoleName, seq<Narrowing.LeftOut>>, gone: map<RoleName, Problems>,
                 name: RoleName, why: Problems, left: seq<Narrowing.LeftOut>)
    requires SettledAs(narrowed, dropped, original, todo, kept, out, gone) && name in todo && name in kept
    requires dropped(name, why, left)
    ensures SettledAs(narrowed, dropped, original, todo - {name}, kept - {name}, out[name := left], gone[name := why])
  {
  }

  // ---------- What stays, table by table ----------

  /** Validation refuses a partition of `n`, both of them accepted on their own. */
  ghost predicate HasRefusedPartition(d: Dialect, s: Schema, n: TableName) {
    exists m :: m in s.tables && s.tables[m].partitionOf == Some(n) && n in s.tables
      && d.table(m, s.tables[m], s) == [] && d.table(n, s.tables[n], s) == []
      && d.partition(m, s.tables[m], s.tables[n]) != []
  }

  /** Something of an accepted partition of `n` could not be read, and that partition is no refused tree itself. */
  ghost predicate HasLimitedPartition(d: Dialect, limitations: seq<Limitation>, s: Schema, n: TableName) {
    exists l :: l in limitations && l.Relation? && l.name in s.tables && s.tables[l.name].partitionOf == Some(n)
      && d.table(l.name, s.tables[l.name], s) == [] && !HasRefusedPartition(d, s, l.name)
  }

  /** The table and its partitions can be declared. */
  ghost predicate Declarable(d: Dialect, limitations: seq<Limitation>, s: Schema, n: TableName) {
    && n in s.tables && d.table(n, s.tables[n], s) == []
    && !HasRefusedPartition(d, s, n)
    && !HasLimitedPartition(d, limitations, s, n)
  }

  lemma RefusedExactly(d: Dialect, s: Schema, n: TableName)
    ensures n in RefusedParents(d, Accepted(d, s)) <==> HasRefusedPartition(d, s, n)
  {
    var own := Accepted(d, s);
    if HasRefusedPartition(d, s, n) {
      var m :| m in s.tables && s.tables[m].partitionOf == Some(n) && n in s.tables
        && d.table(m, s.tables[m], s) == [] && d.table(n, s.tables[n], s) == []
        && d.partition(m, s.tables[m], s.tables[n]) != [];
      assert RefusedIn(d, own, m, n);
    }
  }

  lemma DeclarableExactly(d: Dialect, limitations: seq<Limitation>, s: Schema, n: TableName)
    ensures n in WholeTrees(d, limitations, s) <==> Declarable(d, limitations, s, n)
  {
    var own := Accepted(d, s);
    var whole := own - RefusedParents(d, own);
    forall m ensures m in whole <==> m in own && !HasRefusedPartition(d, s, m) {
      RefusedExactly(d, s, m);
    }
    if n in whole && HasLimitedPartition(d, limitations, s, n) {
      var l :| l in limitations && l.Relation? && l.name in s.tables && s.tables[l.name].partitionOf == Some(n)
        && d.table(l.name, s.tables[l.name], s) == [] && !HasRefusedPartition(d, s, l.name);
      assert LimitedIn(whole, l, n);
    }
  }

  /** A table is kept exactly if it can be declared with its partitions, and so can its parent with its own. */
  lemma KeptExactly(d: Dialect, limitations: seq<Limitation>, s: Schema, n: TableName)
    ensures (n in KeptTables(d, limitations, s)
             <==> && Declarable(d, limitations, s, n)
                  && (s.tables[n].partitionOf.Some? ==>
                        Declarable(d, limitations, s, s.tables[n].partitionOf.value)))
    ensures n in KeptTables(d, limitations, s) ==> KeptTables(d, limitations, s)[n] == s.tables[n]
  {
    DeclarableExactly(d, limitations, s, n);
    if n in s.tables && s.tables[n].partitionOf.Some? {
      DeclarableExactly(d, limitations, s, s.tables[n].partitionOf.value);
    }
  }

  /** A module is kept exactly if it is accepted and, where it is a trigger, the table or view it is on is written. */
  lemma KeptModulesExactly(d: Dialect, tables: Tables, modules: Modules, id: ModuleId)
    ensures (id in KeptModules(d, tables, modules)
             <==> && id in modules && d.module_(id, modules[id]) == []
                  && (id.TriggerOn? && modules[id].kind == Trigger ==>
                        || id.on in tables
                        || exists v :: v in modules && modules[v].kind == View && d.module_(v, modules[v]) == []
                                       && v.ReferencedName() == Some(id.on)))
  {
    var own := AcceptedModules(d, modules);
    if id.TriggerOn? {
      forall v
        ensures (ViewNamed(own, v, id.on)
                 <==> v in modules && modules[v].kind == View && d.module_(v, modules[v]) == []
                      && v.ReferencedName() == Some(id.on))
      {
      }
    }
  }

  // ---------- Closure ----------

  /** The tables kept can be declared together: each partition with its whole, readable, accepted tree. */
  ghost predicate Closed(d: Dialect, limitations: seq<Limitation>, kept: Tables) {
    forall n, p :: PartitionIn(kept, n, p) ==>
      && p in kept
      && d.partition(n, kept[n], kept[p]) == []
      && (forall l :: l in limitations ==> l != Relation(n, l.detail))
  }

  /** A partition of a partition of a third table. */
  ghost predicate TwoLevels(t: Tables, n: TableName, p: TableName, q: TableName) {
    PartitionIn(t, n, p) && PartitionIn(t, p, q) && q != n && q != p
  }

  /** Where no tree has a second level, what is kept is closed, whatever the validators refuse. */
  lemma ClosedWhenOneLevel(d: Dialect, limitations: seq<Limitation>, s: Schema)
    requires forall n, p, q :: !TwoLevels(s.tables, n, p, q)
    ensures Closed(d, limitations, KeptTables(d, limitations, s))
  {
    var trees, kept := WholeTrees(d, limitations, s), KeptTables(d, limitations, s);
    forall n, p | PartitionIn(kept, n, p)
      ensures p in kept && d.partition(n, kept[n], kept[p]) == []
      ensures forall l :: l in limitations ==> l != Relation(n, l.detail)
    {
      TreeIsWhole(d, limitations, s, n, p);
      assert PartitionIn(s.tables, n, p);
      if p in Orphans(trees) {
        var q := trees[p].partitionOf.value;
        assert TwoLevels(s.tables, n, p, q);
      }
    }
  }

  /** A partition that stayed has its parent past the tree passes, which looked at this very pair. */
  lemma TreeIsWhole(d: Dialect, limitations: seq<Limitation>, s: Schema, n: TableName, p: TableName)
    requires PartitionIn(KeptTables(d, limitations, s), n, p)
    ensures p in WholeTrees(d, limitations, s)
    ensures d.partition(n, s.tables[n], s.tables[p]) == []
    ensures forall l :: l in limitations ==> l != Relation(n, l.detail)
  {
    var own := Accepted(d, s);
    var whole := own - RefusedParents(d, own);
    assert RefusedIn(d, own, n, p) ==> p in RefusedParents(d, own);
    forall l | l in limitations ensures l != Relation(n, l.detail) {
      assert LimitedIn(whole, l, p) && p in whole ==> p in LimitedParents(limitations, whole);
    }
  }

  /** A dialect that refuses one table and accepts everything else. */
  function RefusesOnly(q: TableName): Dialect {
    Dialect((n, _, _) => if n == q then ["refused"] else [],
            (_, _, _) => [], (_, _) => [], (_, _, _) => [], g => g)
  }

  /** A tree with a second level is not closed once its top is refused: one pass of orphans is one level. */
  lemma TwoLevelsBreakClosure(s: Schema, n: TableName, p: TableName, q: TableName)
    requires TwoLevels(s.tables, n, p, q)
    ensures PartitionIn(KeptTables(RefusesOnly(q), [], s), n, p)
    ensures p !in KeptTables(RefusesOnly(q), [], s)
    ensures !Closed(RefusesOnly(q), [], KeptTables(RefusesOnly(q), [], s))
  {
    var d := RefusesOnly(q);
    var own := Accepted(d, s);
    assert RefusedParents(d, own) == {};
    assert WholeTrees(d, [], s) == own;
    assert q !in own && n in own && p in own;
    assert p in Orphans(own) && n !in Orphans(own);
  }

  /** Exactly the trees of one level are left closed by every dialect and every reading. */
  lemma ClosedForEveryDialectIffOneLevel(s: Schema)
    ensures (forall d, limitations :: Closed(d, limitations, KeptTables(d, limitations, s)))
       <==> (forall n, p, q :: !TwoLevels(s.tables, n, p, q))
  {
    if forall n, p, q :: !TwoLevels(s.tables, n, p, q) {
      forall d, limitations ensures Closed(d, limitations, KeptTables(d, limitations, s)) {
        ClosedWhenOneLevel(d, limitations, s);
      }
    } else {
      var n, p, q :| TwoLevels(s.tables, n, p, q);
      TwoLevelsBreakClosure(s, n, p, q);
    }
  }

  /** In a tree of one level, a kept parent keeps exactly the partitions the table validator accepts. */
  lemma KeptParentKeepsPartitions(d: Dialect, limitations: seq<Limitation>, s: Schema, n: TableName, p: TableName)
    requires forall a, b, c :: !TwoLevels(s.tables, a, b, c)
    requires PartitionIn(s.tables, n, p) && n != p
    requires p in KeptTables(d, limitations, s)
    ensures n in KeptTables(d, limitations, s) <==> d.table(n, s.tables[n], s) == []
  {
    var own := Accepted(d, s);
    var whole := own - RefusedParents(d, own);
    if d.table(n, s.tables[n], s) == [] {
      NotAParent(s.tables, own, n, p);
      NotAParent(s.tables, whole, n, p);
    }
  }

  /** A partition of another table is nobody's parent there, save its own parent's in a cycle of two. */
  lemma NotAParent(t: Tables, part: Tables, n: TableName, p: TableName)
    requires forall a, b, c :: !TwoLevels(t, a, b, c)
    requires PartitionIn(t, n, p) && n != p
    requires part.Keys <= t.Keys && forall x :: x in part ==> part[x] == t[x]
    ensures forall m :: PartitionIn(part, m, n) ==> m == p
  {
    forall m | PartitionIn(part, m, n) ensures m == p {
      assert PartitionIn(t, m, n);
      assert !TwoLevels(t, m, n, p);
    }
  }

  /** A trigger validation accepts stays exactly when the schema written has its table or view. */
  lemma TriggersClosed(d: Dialect, tables: Tables, modules: Modules, id: ModuleId)
    requires IsTrigger(AcceptedModules(d, modules), id)
    ensures id in KeptModules(d, tables, modules)
       <==> TriggerTarget(tables, KeptModules(d, tables, modules), id.on)
  {
    var own, kept := AcceptedModules(d, modules), KeptModules(d, tables, modules);
    ViewsStay(d, tables, modules, id.on);
  }

  /** No trigger pass takes a view, so asking before it and after it is the same question. */
  lemma ViewsStay(d: Dialect, tables: Tables, modules: Modules, on: TableName)
    ensures TriggerTarget(tables, AcceptedModules(d, modules), on)
       <==> TriggerTarget(tables, KeptModules(d, tables, modules), on)
  {
    var own, kept := AcceptedModules(d, modules), KeptModules(d, tables, modules);
    forall id ensures ViewNamed(own, id, on) <==> ViewNamed(kept, id, on) {
    }
  }
}
