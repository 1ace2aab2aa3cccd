/**
A computed column a plan adds may call a function the plan changes. The
catalog has no edge for text it has not stored yet, so such a call is refused,
unless it can only be a column's method, or the plan's own annotations place
the function's last change ahead of the column.
*/
module AddedCalls {
  import opened Catalog
  import opened Settle

  /** One computed column the plan adds, with what it calls and the columns a call may be a method of. */
  datatype AddedCall = AddedCall(at: nat, table: TableName, column: ColumnName, calls: seq<Call>,
                                 receivers: seq<ColumnName>)

  datatype FunctionChange = FunctionChange(name: TableName, drops: bool)

  datatype Refusal = Refusal(table: TableName, column: ColumnName, name: TableName, call: Call, drops: bool)

  // --------------------------------------------------------------- the reading

  /** What the change at one position does to a function, if anything. */
  function FunctionAt(c: Change): Option<FunctionChange> {
    if (c.CreateModule? || c.AlterModule?) && c.kind.Function? then Some(FunctionChange(c.id.ObjectName(), false))
    else if c.DropModule? && c.kind.Function? then Some(FunctionChange(c.id.ObjectName(), true))
    else None
  }

  /** `f` is among the functions the plan changes. */
  predicate Changes(plan: seq<Change>, f: FunctionChange) {
    exists at :: 0 <= at < |plan| && FunctionAt(plan[at]) == Some(f)
  }

  /** The added columns of one change; `receiversOf` reads the declared table's typed columns. */
  function CallsAt(c: Change, at: nat, receiversOf: TableName -> seq<ColumnName>): seq<AddedCall> {
    match c
    case AddComputedColumn(table, computed, calls) => [AddedCall(at, table, computed, calls, receiversOf(table))]
    case CreateTable(table, columns, receivers) =>
      seq(|columns|, i requires 0 <= i < |columns| => AddedCall(at, table, columns[i].0, columns[i].1, receivers))
    case _ => []
  }

  predicate Adds(plan: seq<Change>, receiversOf: TableName -> seq<ColumnName>, a: AddedCall) {
    a.at < |plan| && a in CallsAt(plan[a.at], a.at, receiversOf)
  }

  predicate Matches(alike: Alike, call: Call, name: TableName) {
    alike.Same(call.0, name.schema) && alike.Same(call.1, name.name)
  }

  /** The call may be a method of a typed column. */
  predicate MayBeMethod(alike: Alike, a: AddedCall, call: Call) {
    exists c :: c in a.receivers && alike.Same(call.0, c)
  }

  /** The engine was asked about each of the four spellings. */
  predicate Known(alike: Alike, call: Call, name: TableName) {
    forall s :: s in [call.0, call.1, name.schema, name.name] ==> (s, s) in alike.pairs
  }

  /** Only one changed function answers to the call. */
  ghost predicate Unique(plan: seq<Change>, alike: Alike, call: Call, name: TableName) {
    forall g :: Changes(plan, g) && Matches(alike, call, g.name) ==> g.name == name
  }

  predicate IsChangeOf(c: Change, name: TableName) {
    FunctionAt(c).Some? && FunctionAt(c).value.name == name
  }

  /** The last change of function `name` before position `n`, if there is one. */
  function LastChange(plan: seq<Change>, name: TableName, n: nat): (b: Option<nat>)
    requires n <= |plan|
    ensures b.Some? ==> b.value < n && IsChangeOf(plan[b.value], name)
    ensures b.Some? ==> forall i :: b.value < i < n ==> !IsChangeOf(plan[i], name)
    ensures b.None? ==> forall i :: 0 <= i < n ==> !IsChangeOf(plan[i], name)
  {
    if n == 0 then None
    else if IsChangeOf(plan[n - 1], name) then Some(n - 1)
    else LastChange(plan, name, n - 1)
  }

  /** An annotation places the final create or alter of `name` ahead of position `at`. */
  predicate Allowed(plan: seq<Change>, notes: set<Edge>, at: nat, name: TableName) {
    var last := LastChange(plan, name, |plan|);
    && last.Some? && !FunctionAt(plan[last.value]).value.drops
    && plan[last.value].id.Named? && last.value < at && Edge(last.value, at) in notes
  }

  /** The call to one matching function change is let through. */
  ghost predicate Exempt(plan: seq<Change>, alike: Alike, notes: set<Edge>, a: AddedCall, call: Call, f: FunctionChange)
  {
    || (f.drops && MayBeMethod(alike, a, call))
    || (&& !MayBeMethod(alike, a, call) && Known(alike, call, f.name)
        && Unique(plan, alike, call, f.name) && Allowed(plan, notes, a.at, f.name))
  }

  ghost predicate Accepted(plan: seq<Change>, alike: Alike, notes: set<Edge>, receiversOf: TableName -> seq<ColumnName>)
  {
    forall a, call, f :: Adds(plan, receiversOf, a) && call in a.calls && Changes(plan, f)
                         && Matches(alike, call, f.name)
      ==> Exempt(plan, alike, notes, a, call, f)
  }

  // ------------------------------------------------------------- the algorithm

  method FunctionsChanged(plan: seq<Change>) returns (out: seq<FunctionChange>)
    ensures forall f :: f in out <==> Changes(plan, f)
  {
    out := [];
    for at := 0 to |plan|
      invariant forall f :: f in out <==> exists i :: 0 <= i < at && FunctionAt(plan[i]) == Some(f)
    {
      var f := FunctionAt(plan[at]);
      ghost var was := out;
      if f.Some? { out := out + [f.value]; }
      forall g ensures g in out <==> exists i :: 0 <= i < at + 1 && FunctionAt(plan[i]) == Some(g) {
        assert g in out <==> g in was || f == Some(g);
      }
    }
  }

  method CallsAdded(plan: seq<Change>, receiversOf: TableName -> seq<ColumnName>) returns (out: seq<AddedCall>)
    ensures forall a :: a in out <==> Adds(plan, receiversOf, a)
  {
    out := [];
    for at := 0 to |plan|
      invariant forall a :: a in out <==> a.at < at && a in CallsAt(plan[a.at], a.at, receiversOf)
    {
      var more := CallsAt(plan[at], at, receiversOf);
      assert forall a :: a in more ==> a.at == at;
      ghost var was := out;
      out := out + more;
      assert forall a :: a in out <==> a in was || a in more;
    }
  }

  /** The last change of each function, in one scan. */
  method LastChanges(plan: seq<Change>) returns (last: map<TableName, (nat, bool)>)
    ensures forall name :: name in last <==> LastChange(plan, name, |plan|).Some?
    ensures forall name :: name in last ==>
      var at := LastChange(plan, name, |plan|).value;
      last[name] == (at, !FunctionAt(plan[at]).value.drops)
  {
    last := map[];
    for at := 0 to |plan|
      invariant forall name :: name in last <==> LastChange(plan, name, at).Some?
      invariant forall name :: name in last ==>
        LastChange(plan, name, at).value < at
        && last[name] == (LastChange(plan, name, at).value,
                          !FunctionAt(plan[LastChange(plan, name, at).value]).value.drops)
    {
      var f := FunctionAt(plan[at]);
      if f.Some? { last := last[f.value.name := (at, !f.value.drops)]; }
    }
  }

  /** The pairs of an added column's position and a function an annotation settles ahead of it. */
  method AllowedCalls(plan: seq<Change>, notes: set<Edge>) returns (allowed: set<(nat, TableName)>)
    requires WellFormed(|plan|, notes)
    ensures forall at: nat, name :: (at, name) in allowed <==> Allowed(plan, notes, at, name)
  {
    var last := LastChanges(plan);
    allowed := {};
    var rest := notes;
    while rest != {}
      invariant rest <= notes
      invariant forall at: nat, name :: (at, name) in allowed <==> Allowed(plan, notes - rest, at, name)
      decreases rest
    {
      var e :| e in rest;
      ghost var was := allowed;
      if e.before < e.after {
        var c := plan[e.before];
        if (c.CreateModule? || c.AlterModule?) && c.id.Named? && c.kind.Function? {
          var name := c.id.of;
          if name in last && last[name] == (e.before, true) {
            allowed := allowed + {(e.after, name)};
          }
        }
      }
      AllowedStep(plan, notes - rest, e, last, was, allowed);
      assert notes - (rest - {e}) == notes - rest + {e};
      rest := rest - {e};
    }
    assert notes - rest == notes;
  }

  lemma AllowedStep(plan: seq<Change>, seen: set<Edge>, e: Edge, last: map<TableName, (nat, bool)>,
                    was: set<(nat, TableName)>, now: set<(nat, TableName)>)
    requires e.before < |plan|
    requires forall name :: name in last <==> LastChange(plan, name, |plan|).Some?
    requires forall name :: name in last ==>
      last[name] == (LastChange(plan, name, |plan|).value,
                     !FunctionAt(plan[LastChange(plan, name, |plan|).value]).value.drops)
    requires forall at: nat, name :: (at, name) in was <==> Allowed(plan, seen, at, name)
    requires var c := plan[e.before];
      now == was + if e.before < e.after && (c.CreateModule? || c.AlterModule?) && c.id.Named? && c.kind.Function?
                      && c.id.of in last && last[c.id.of] == (e.before, true)
                   then {(e.after, c.id.of)} else {}
    ensures forall at: nat, name :: (at, name) in now <==> Allowed(plan, seen + {e}, at, name)
  {
    assert Edge(e.before, e.after) == e;
  }

  /** The names of the changed functions one call answers to. */
  method Matching(functions: seq<FunctionChange>, alike: Alike, call: Call) returns (names: set<TableName>)
    ensures names == set f | f in functions && Matches(alike, call, f.name) :: f.name
  {
    names := {};
    for i := 0 to |functions|
      invariant names == set f | f in functions[..i] && Matches(alike, call, f.name) :: f.name
    {
      assert functions[..i + 1] == functions[..i] + [functions[i]];
      if Matches(alike, call, functions[i].name) { names := names + {functions[i].name}; }
    }
    assert functions[..|functions|] == functions;
  }

  /** A call of an added column that answers to a changed function and is not exempt, as its refusal names them. */
  ghost predicate Names(r: Refusal, plan: seq<Change>, alike: Alike, notes: set<Edge>, a: AddedCall, call: Call) {
    var f := FunctionChange(r.name, r.drops);
    && r.table == a.table && r.column == a.column && r.call == call
    && Changes(plan, f) && Matches(alike, call, f.name) && !Exempt(plan, alike, notes, a, call, f)
  }

  /** One call against every changed function. */
  method RefuseCall(plan: seq<Change>, functions: seq<FunctionChange>, allowed: set<(nat, TableName)>, alike: Alike,
                    ghost notes: set<Edge>, a: AddedCall, call: Call) returns (refused: seq<Refusal>)
    requires forall f :: f in functions <==> Changes(plan, f)
    requires forall at: nat, name :: (at, name) in allowed <==> Allowed(plan, notes, at, name)
    ensures forall r :: r in refused <==> Names(r, plan, alike, notes, a, call)
  {
    refused := [];
    var method_ := MayBeMethod(alike, a, call);
    var matching := Matching(functions, alike, call);
    for i := 0 to |functions|
      invariant forall r :: r in refused <==> Names(r, plan, alike, notes, a, call)
                                              && FunctionChange(r.name, r.drops) in functions[..i]
    {
      var f := functions[i];
      assert functions[..i + 1] == functions[..i] + [f];
      if !(f.drops && method_) && Matches(alike, call, f.name) {
        OneMatch(plan, functions, alike, call, matching, f);
        if method_ || !Known(alike, call, f.name) || |matching| != 1 || (a.at, f.name) !in allowed {
          refused := refused + [Refusal(a.table, a.column, f.name, call, f.drops)];
        }
      }
    }
    assert functions[..|functions|] == functions;
  }

  lemma OneMatch(plan: seq<Change>, functions: seq<FunctionChange>, alike: Alike, call: Call, matching: set<TableName>,
                 f: FunctionChange)
    requires forall g :: g in functions <==> Changes(plan, g)
    requires matching == set g | g in functions && Matches(alike, call, g.name) :: g.name
    requires f in functions && Matches(alike, call, f.name)
    ensures |matching| == 1 <==> Unique(plan, alike, call, f.name)
  {
    assert f.name in matching;
    if Unique(plan, alike, call, f.name) {
      assert matching == {f.name};
    }
    if |matching| == 1 {
      assert |matching - {f.name}| == 0;
      forall g | Changes(plan, g) && Matches(alike, call, g.name) ensures g.name == f.name {
        assert g.name in matching && g.name !in matching - {f.name};
      }
    }
  }

  /** Refuses each added call over each change it matches and is not exempt from, and nothing else. */
  method RefuseAddedCalls(plan: seq<Change>, alike: Alike, notes: set<Edge>, receiversOf: TableName -> seq<ColumnName>)
      returns (refused: seq<Refusal>)
    requires WellFormed(|plan|, notes)
    ensures forall r :: r in refused <==> RefusedFor(plan, alike, notes, receiversOf, r)
    ensures refused == [] <==> Accepted(plan, alike, notes, receiversOf)
  {
    var allowed := AllowedCalls(plan, notes);
    var functions := FunctionsChanged(plan);
    var added := CallsAdded(plan, receiversOf);
    refused := [];
    for i := 0 to |added|
      invariant forall r :: r in refused <==> exists k :: 0 <= k < i && NamesAny(r, plan, alike, notes, added[k])
    {
      var a := added[i];
      ghost var before := refused;
      for j := 0 to |a.calls|
        invariant forall r :: (r in refused
                    <==> r in before || exists k :: 0 <= k < j && Names(r, plan, alike, notes, a, a.calls[k]))
      {
        var more := RefuseCall(plan, functions, allowed, alike, notes, a, a.calls[j]);
        ghost var was := refused;
        refused := refused + more;
        assert forall r :: r in refused <==> r in was || r in more;
      }
    }
    forall r ensures r in refused <==> RefusedFor(plan, alike, notes, receiversOf, r) {
      if a :| Adds(plan, receiversOf, a) && NamesAny(r, plan, alike, notes, a) {
        assert a in added;
      }
    }
    EmptyIffAccepted(plan, alike, notes, receiversOf, refused);
  }

  ghost predicate NamesAny(r: Refusal, plan: seq<Change>, alike: Alike, notes: set<Edge>, a: AddedCall) {
    exists j :: 0 <= j < |a.calls| && Names(r, plan, alike, notes, a, a.calls[j])
  }

  ghost predicate RefusedFor(plan: seq<Change>, alike: Alike, notes: set<Edge>,
                             receiversOf: TableName -> seq<ColumnName>, r: Refusal)
  {
    exists a :: Adds(plan, receiversOf, a) && NamesAny(r, plan, alike, notes, a)
  }

  lemma EmptyIffAccepted(plan: seq<Change>, alike: Alike, notes: set<Edge>, receiversOf: TableName -> seq<ColumnName>,
                         refused: seq<Refusal>)
    requires forall r :: r in refused <==> RefusedFor(plan, alike, notes, receiversOf, r)
    ensures refused == [] <==> Accepted(plan, alike, notes, receiversOf)
  {
    if refused == [] {
      forall a, call, f | Adds(plan, receiversOf, a) && call in a.calls && Changes(plan, f)
                          && Matches(alike, call, f.name)
        ensures Exempt(plan, alike, notes, a, call, f)
      {
        var r := Refusal(a.table, a.column, f.name, call, f.drops);
        assert f == FunctionChange(r.name, r.drops);
        var j :| 0 <= j < |a.calls| && a.calls[j] == call;
        assert r !in refused;
        assert !Names(r, plan, alike, notes, a, a.calls[j]);
      }
    } else {
      assert refused[0] in refused;
    }
  }

  // -------------------------------------------------------- what a pass proves

  /** The version of `name` in place after the first `n` changes is the one in place at the end. */
  predicate FinalBy(plan: seq<Change>, name: TableName, n: nat)
    requires n <= |plan|
  {
    LastChange(plan, name, n) == LastChange(plan, name, |plan|)
  }

  /**
  In an accepted plan, a call that matches a changed function either matches
  only drops and may be a method, or matches one function only, and that
  function has its final version, created or altered, before the column is
  added.
  */
  lemma AcceptedCallsBind(plan: seq<Change>, alike: Alike, notes: set<Edge>, receiversOf: TableName -> seq<ColumnName>,
                          a: AddedCall, call: Call, f: FunctionChange)
    requires Accepted(plan, alike, notes, receiversOf)
    requires Adds(plan, receiversOf, a) && call in a.calls && Changes(plan, f) && Matches(alike, call, f.name)
    ensures
      || (&& MayBeMethod(alike, a, call)
          && (forall g :: Changes(plan, g) && Matches(alike, call, g.name) ==> g.drops))
      || (&& !MayBeMethod(alike, a, call)
          && Unique(plan, alike, call, f.name)
          && FinalBy(plan, f.name, a.at)
          && LastChange(plan, f.name, a.at).Some?
          && !FunctionAt(plan[LastChange(plan, f.name, a.at).value]).value.drops)
  {
    if MayBeMethod(alike, a, call) {
      forall g | Changes(plan, g) && Matches(alike, call, g.name) ensures g.drops {
        assert Exempt(plan, alike, notes, a, call, g);
      }
    } else {
      assert Exempt(plan, alike, notes, a, call, f);
      var b := LastChange(plan, f.name, |plan|).value;
      EarlierLast(plan, f.name, a.at, b);
    }
  }

  lemma EarlierLast(plan: seq<Change>, name: TableName, n: nat, b: nat)
    requires n <= |plan| && LastChange(plan, name, |plan|) == Some(b) && b < n
    ensures LastChange(plan, name, n) == Some(b)
  {
    var c := LastChange(plan, name, n);
    assert IsChangeOf(plan[b], name);
    assert c.Some?;
    assert c.value <= b && b <= c.value;
  }

  // -------------------------------------------------- the verdict, outright

  /** The change at `i` creates or alters function `name`, or drops it. */
  ghost predicate TouchedAt(plan: seq<Change>, i: nat, name: TableName, drops: bool) {
    && i < |plan|
    && match plan[i]
       case CreateModule(id, Function) => id.ObjectName() == name && !drops
       case AlterModule(id, Function) => id.ObjectName() == name && !drops
       case DropModule(id, Function) => id.ObjectName() == name && drops
       case _ => false
  }

  /** The call may mean function `name`, which the change at `i` touches. */
  ghost predicate AnsweredAt(plan: seq<Change>, i: nat, alike: Alike, call: Call, name: TableName, drops: bool) {
    TouchedAt(plan, i, name, drops) && alike.Same(call.0, name.schema) && alike.Same(call.1, name.name)
  }

  /** The change at `at` gives a table a computed column that makes the call, where `receivers` may have methods. */
  ghost predicate CalledAt(plan: seq<Change>, receiversOf: TableName -> seq<ColumnName>, at: nat, table: TableName,
                           column: ColumnName, call: Call, receivers: seq<ColumnName>)
  {
    && at < |plan|
    && match plan[at]
       case AddComputedColumn(t, c, calls) => t == table && c == column && call in calls && receivers == receiversOf(t)
       case CreateTable(t, columns, declared) =>
         t == table && receivers == declared && exists x :: x in columns && x.0 == column && call in x.1
       case _ => false
  }

  /** The change at `i` creates or alters a named function, which nothing after it touches. */
  ghost predicate FinalVersion(plan: seq<Change>, i: nat, name: TableName) {
    && TouchedAt(plan, i, name, false)
    && plan[i].id == Named(name)
    && forall j: nat, drops :: i < j ==> !TouchedAt(plan, j, name, drops)
  }

  /** What lets a call through over a change it matches. */
  ghost predicate LetThrough(plan: seq<Change>, alike: Alike, notes: set<Edge>, at: nat, call: Call,
                             receivers: seq<ColumnName>, name: TableName, drops: bool)
  {
    if exists c :: c in receivers && alike.Same(call.0, c) then drops
    else
      && (call.0, call.0) in alike.pairs && (call.1, call.1) in alike.pairs
      && (name.schema, name.schema) in alike.pairs && (name.name, name.name) in alike.pairs
      && (forall i: nat, other, d :: AnsweredAt(plan, i, alike, call, other, d) ==> other == name)
      && (exists i: nat :: i < at && FinalVersion(plan, i, name) && Edge(i, at) in notes)
  }

  lemma ChangesExactly(plan: seq<Change>, f: FunctionChange)
    ensures Changes(plan, f) <==> exists i: nat :: TouchedAt(plan, i, f.name, f.drops)
  {
    forall i: nat | i < |plan| ensures FunctionAt(plan[i]) == Some(f) <==> TouchedAt(plan, i, f.name, f.drops) {
    }
  }

  lemma AddsExactly(plan: seq<Change>, receiversOf: TableName -> seq<ColumnName>, at: nat, table: TableName,
                    column: ColumnName, call: Call, receivers: seq<ColumnName>)
    ensures (CalledAt(plan, receiversOf, at, table, column, call, receivers)
             <==> exists calls :: call in calls
                    && Adds(plan, receiversOf, AddedCall(at, table, column, calls, receivers)))
  {
    if CalledAt(plan, receiversOf, at, table, column, call, receivers) && plan[at].CreateTable? {
      var columns := plan[at].computedColumns;
      var x :| x in columns && x.0 == column && call in x.1;
      var i :| 0 <= i < |columns| && columns[i] == x;
      assert CallsAt(plan[at], at, receiversOf)[i] == AddedCall(at, table, column, x.1, receivers);
    }
  }

  lemma AllowedExactly(plan: seq<Change>, notes: set<Edge>, at: nat, name: TableName)
    ensures (Allowed(plan, notes, at, name)
             <==> exists i: nat :: i < at && FinalVersion(plan, i, name) && Edge(i, at) in notes)
  {
    forall i: nat | i < |plan|
      ensures IsChangeOf(plan[i], name) <==> TouchedAt(plan, i, name, true) || TouchedAt(plan, i, name, false)
    {
    }
    var last := LastChange(plan, name, |plan|);
    if Allowed(plan, notes, at, name) {
      assert FinalVersion(plan, last.value, name);
    }
    if i: nat :| i < at && FinalVersion(plan, i, name) && Edge(i, at) in notes {
      assert IsChangeOf(plan[i], name);
      assert last.Some? && last.value == i;
    }
  }

  lemma ExemptExactly(plan: seq<Change>, alike: Alike, notes: set<Edge>, a: AddedCall, call: Call, f: FunctionChange)
    ensures (Exempt(plan, alike, notes, a, call, f)
             <==> LetThrough(plan, alike, notes, a.at, call, a.receivers, f.name, f.drops))
  {
    AllowedExactly(plan, notes, a.at, f.name);
    assert Known(alike, call, f.name) <==>
      && (call.0, call.0) in alike.pairs && (call.1, call.1) in alike.pairs
      && (f.name.schema, f.name.schema) in alike.pairs && (f.name.name, f.name.name) in alike.pairs by {
      var spellings := [call.0, call.1, f.name.schema, f.name.name];
      assert spellings[0] in spellings && spellings[1] in spellings && spellings[2] in spellings
        && spellings[3] in spellings;
    }
    UniqueExactly(plan, alike, call, f.name);
  }

  lemma UniqueExactly(plan: seq<Change>, alike: Alike, call: Call, name: TableName)
    ensures (Unique(plan, alike, call, name)
             <==> forall i: nat, other, d :: AnsweredAt(plan, i, alike, call, other, d) ==> other == name)
  {
    forall g ensures Changes(plan, g) <==> exists i: nat :: TouchedAt(plan, i, g.name, g.drops) {
      ChangesExactly(plan, g);
    }
    if Unique(plan, alike, call, name) {
      forall i: nat, other, d | AnsweredAt(plan, i, alike, call, other, d) ensures other == name {
        assert Changes(plan, FunctionChange(other, d));
      }
    } else {
      var g :| Changes(plan, g) && Matches(alike, call, g.name) && g.name != name;
      var i: nat :| TouchedAt(plan, i, g.name, g.drops);
      assert AnsweredAt(plan, i, alike, call, g.name, g.drops);
    }
  }

  /** A change at `at` adds a column whose call answers to the change at `i`, and nothing lets it through. */
  ghost predicate Offends(plan: seq<Change>, alike: Alike, notes: set<Edge>, receiversOf: TableName -> seq<ColumnName>,
                          r: Refusal, at: nat, receivers: seq<ColumnName>, i: nat)
  {
    && CalledAt(plan, receiversOf, at, r.table, r.column, r.call, receivers)
    && AnsweredAt(plan, i, alike, r.call, r.name, r.drops)
    && !LetThrough(plan, alike, notes, at, r.call, receivers, r.name, r.drops)
  }

  lemma RefusedOffends(plan: seq<Change>, alike: Alike, notes: set<Edge>, receiversOf: TableName -> seq<ColumnName>,
                       r: Refusal, a: AddedCall)
    requires Adds(plan, receiversOf, a) && NamesAny(r, plan, alike, notes, a)
    ensures exists i: nat :: Offends(plan, alike, notes, receiversOf, r, a.at, a.receivers, i)
  {
    var f := FunctionChange(r.name, r.drops);
    ChangesExactly(plan, f);
    ExemptExactly(plan, alike, notes, a, r.call, f);
    assert a == AddedCall(a.at, r.table, r.column, a.calls, a.receivers);
    AddsExactly(plan, receiversOf, a.at, r.table, r.column, r.call, a.receivers);
    var i: nat :| TouchedAt(plan, i, f.name, f.drops);
    assert Offends(plan, alike, notes, receiversOf, r, a.at, a.receivers, i);
  }

  lemma OffendsRefused(plan: seq<Change>, alike: Alike, notes: set<Edge>, receiversOf: TableName -> seq<ColumnName>,
                       r: Refusal, at: nat, receivers: seq<ColumnName>, i: nat)
    requires Offends(plan, alike, notes, receiversOf, r, at, receivers, i)
    ensures RefusedFor(plan, alike, notes, receiversOf, r)
  {
    var f := FunctionChange(r.name, r.drops);
    ChangesExactly(plan, f);
    AddsExactly(plan, receiversOf, at, r.table, r.column, r.call, receivers);
    var calls :| r.call in calls && Adds(plan, receiversOf, AddedCall(at, r.table, r.column, calls, receivers));
    var a := AddedCall(at, r.table, r.column, calls, receivers);
    ExemptExactly(plan, alike, notes, a, r.call, f);
    var j :| 0 <= j < |calls| && calls[j] == r.call;
    assert Names(r, plan, alike, notes, a, a.calls[j]);
  }

  /**
  What is refused, over the changes of the plan alone: a computed column that a
  change adds makes a call in a name of a function another change creates,
  alters or drops, and nothing lets the call through.
  */
  lemma RefusedExactly(plan: seq<Change>, alike: Alike, notes: set<Edge>, receiversOf: TableName -> seq<ColumnName>,
                       r: Refusal)
    ensures (RefusedFor(plan, alike, notes, receiversOf, r)
             <==> exists at, receivers, i: nat :: Offends(plan, alike, notes, receiversOf, r, at, receivers, i))
  {
    if a :| Adds(plan, receiversOf, a) && NamesAny(r, plan, alike, notes, a) {
      RefusedOffends(plan, alike, notes, receiversOf, r, a);
    }
    if at, receivers, i: nat :| Offends(plan, alike, notes, receiversOf, r, at, receivers, i) {
      OffendsRefused(plan, alike, notes, receiversOf, r, at, receivers, i);
    }
  }
}
