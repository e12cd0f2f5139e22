/** The migration that renames add-ons to extras, and its inverse, as transformers of a schema. */
module RenameMigration {
  import opened Wrappers

  /** A column's definition, position included, does not change when the column is renamed. */
  datatype Column = Column(definition: string)

  /** Tables and indexes share one name space. */
  datatype Relation = Table(columns: map<string, Column>) | Index(definition: string)

  datatype Schema = Schema(relations: map<string, Relation>, types: map<string, string>)

  datatype Statement =
    | RenameTable(from: string, to: string)
    | RenameIndex(from: string, to: string)
    | RenameType(from: string, to: string)
    | RenameColumn(table: string, from: string, to: string)
    | RenameColumnIfPresent(table: string, from: string, to: string)

  // ----- statements

  function Renamed<T>(m: map<string, T>, from: string, to: string): (r: map<string, T>)
    requires from in m
  {
    (m - {from})[to := m[from]]
  }

  predicate HasColumn(s: Schema, table: string, column: string) {
    table in s.relations && s.relations[table].Table? && column in s.relations[table].columns
  }

  /** Renaming fails if the old name is missing or the new one is taken. */
  function RenameColumnIn(s: Schema, table: string, from: string, to: string): Option<Schema> {
    if HasColumn(s, table, from) && !HasColumn(s, table, to) then
      var columns := Renamed(s.relations[table].columns, from, to);
      Some(s.(relations := s.relations[table := Table(columns)]))
    else None
  }

  function Execute(statement: Statement, s: Schema): Option<Schema> {
    match statement
    case RenameTable(from, to) =>
      if from in s.relations && s.relations[from].Table? && to !in s.relations
      then Some(s.(relations := Renamed(s.relations, from, to))) else None
    case RenameIndex(from, to) =>
      if from in s.relations && s.relations[from].Index? && to !in s.relations
      then Some(s.(relations := Renamed(s.relations, from, to))) else None
    case RenameType(from, to) =>
      if from in s.types && to !in s.types then Some(s.(types := Renamed(s.types, from, to))) else None
    case RenameColumn(table, from, to) => RenameColumnIn(s, table, from, to)
    case RenameColumnIfPresent(table, from, to) =>
      if HasColumn(s, table, from) then RenameColumnIn(s, table, from, to) else Some(s)
  }

  /** The statements in turn; the first one that fails fails them all. */
  function Run(statements: seq<Statement>, s: Schema): Option<Schema> {
    if statements == [] then Some(s)
    else match Execute(statements[0], s)
         case None => None
         case Some(next) => Run(statements[1..], next)
  }

  function Inverse(statement: Statement): Statement {
    match statement
    case RenameTable(from, to) => RenameTable(to, from)
    case RenameIndex(from, to) => RenameIndex(to, from)
    case RenameType(from, to) => RenameType(to, from)
    case RenameColumn(table, from, to) => RenameColumn(table, to, from)
    case RenameColumnIfPresent(table, from, to) => RenameColumnIfPresent(table, to, from)
  }

  /** The inverse statements in reverse order. */
  function Undo(statements: seq<Statement>): (undo: seq<Statement>)
    ensures |undo| == |statements|
    ensures forall i :: 0 <= i < |undo| ==> undo[i] == Inverse(statements[|statements| - 1 - i])
  {
    if statements == [] then [] else Undo(statements[1..]) + [Inverse(statements[0])]
  }

  // ----- the migration

  const RENAMES: seq<Statement> := [
    RenameTable("add_ons", "extras"),
    RenameTable("space_add_ons", "space_extras"),
    RenameColumn("space_extras", "add_on_type", "extras_type"),
    RenameType("AddOnType", "ExtrasType"),
    RenameIndex("IDX_add_ons_type_isActive", "IDX_extras_type_isActive"),
    RenameIndex("IDX_add_ons_category_isActive", "IDX_extras_category_isActive"),
    RenameIndex("IDX_add_ons_name", "IDX_extras_name"),
    RenameIndex("IDX_add_ons_type", "IDX_extras_type"),
    RenameIndex("IDX_add_ons_category", "IDX_extras_category"),
    RenameIndex("IDX_add_ons_isActive", "IDX_extras_isActive"),
    RenameIndex("IDX_add_ons_createdAt", "IDX_extras_createdAt"),
    RenameIndex("IDX_space_add_ons_spaceId_addOnType", "IDX_space_extras_spaceId_extrasType"),
    RenameIndex("IDX_space_add_ons_isActive_priority", "IDX_space_extras_isActive_priority"),
    RenameIndex("IDX_space_add_ons_createdAt", "IDX_space_extras_createdAt")]

  const OPTIONAL_RENAMES: seq<Statement> := [
    RenameColumnIfPresent("booking_items", "addOnId", "extrasId"),
    RenameColumnIfPresent("booking_items", "addonAmount", "extrasAmount"),
    RenameColumnIfPresent("pricing_rules", "addOnId", "extrasId"),
    RenameColumnIfPresent("invoices", "addonAmount", "extrasAmount"),
    RenameColumnIfPresent("payments", "addonAmount", "extrasAmount"),
    RenameColumnIfPresent("refunds", "addonAmount", "extrasAmount"),
    RenameColumnIfPresent("commission_tracking", "addonCommission", "extrasCommission")]

  const OPTIONAL_REVERTS: seq<Statement> := [
    RenameColumnIfPresent("commission_tracking", "extrasCommission", "addonCommission"),
    RenameColumnIfPresent("refunds", "extrasAmount", "addonAmount"),
    RenameColumnIfPresent("payments", "extrasAmount", "addonAmount"),
    RenameColumnIfPresent("invoices", "extrasAmount", "addonAmount"),
    RenameColumnIfPresent("pricing_rules", "extrasId", "addOnId"),
    RenameColumnIfPresent("booking_items", "extrasAmount", "addonAmount"),
    RenameColumnIfPresent("booking_items", "extrasId", "addOnId")]

  const REVERTS: seq<Statement> := [
    RenameIndex("IDX_space_extras_createdAt", "IDX_space_add_ons_createdAt"),
    RenameIndex("IDX_space_extras_isActive_priority", "IDX_space_add_ons_isActive_priority"),
    RenameIndex("IDX_space_extras_spaceId_extrasType", "IDX_space_add_ons_spaceId_addOnType"),
    RenameIndex("IDX_extras_createdAt", "IDX_add_ons_createdAt"),
    RenameIndex("IDX_extras_isActive", "IDX_add_ons_isActive"),
    RenameIndex("IDX_extras_category", "IDX_add_ons_category"),
    RenameIndex("IDX_extras_type", "IDX_add_ons_type"),
    RenameIndex("IDX_extras_name", "IDX_add_ons_name"),
    RenameIndex("IDX_extras_category_isActive", "IDX_add_ons_category_isActive"),
    RenameIndex("IDX_extras_type_isActive", "IDX_add_ons_type_isActive"),
    RenameType("ExtrasType", "AddOnType"),
    RenameColumn("space_extras", "extras_type", "add_on_type"),
    RenameTable("space_extras", "space_add_ons"),
    RenameTable("extras", "add_ons")]

  const UP: seq<Statement> := RENAMES + OPTIONAL_RENAMES

  const DOWN: seq<Statement> := OPTIONAL_REVERTS + REVERTS

  /** The database a migration runs against, in one transaction. */
  class Database {
    var schema: Schema

    constructor (schema: Schema)
      ensures this.schema == schema
    {
      this.schema := schema;
    }

    /** Executes one migration step by step and rolls back when a statement fails. */
    method Migrate(statements: seq<Statement>) returns (done: bool)
      modifies this
      ensures done == Run(statements, old(schema)).Some?
      ensures schema == if done then Run(statements, old(schema)).value else old(schema)
    {
      var savepoint := schema;
      for i := 0 to |statements|
        invariant Run(statements, savepoint) == Run(statements[i..], schema)
      {
        var next := Execute(statements[i], schema);
        if next.None? {
          schema := savepoint;
          return false;
        }
        schema := next.value;
      }
      done := true;
    }
  }

  // ----- running lists

  lemma {:induction false} RunOfConcat(a: seq<Statement>, b: seq<Statement>, s: Schema)
    ensures Run(a + b, s) == match Run(a, s) case None => None case Some(next) => Run(b, next)
  {
    if a == [] {
      assert a + b == b;
    } else if Execute(a[0], s).Some? {
      assert (a + b)[1..] == a[1..] + b;
      RunOfConcat(a[1..], b, Execute(a[0], s).value);
    }
  }

  lemma RunOne(statement: Statement, s: Schema)
    ensures Run([statement], s) == Execute(statement, s)
  {}

  // ----- unconditional statements are undone exactly

  lemma RenamedBack<T>(m: map<string, T>, from: string, to: string)
    requires from in m && to !in m
    ensures Renamed(Renamed(m, from, to), to, from) == m
    ensures to in Renamed(m, from, to) && from !in Renamed(m, from, to)
  {}

  lemma ColumnRenamedBack(s: Schema, table: string, from: string, to: string)
    requires RenameColumnIn(s, table, from, to).Some?
    ensures RenameColumnIn(RenameColumnIn(s, table, from, to).value, table, to, from) == Some(s)
  {
    var columns := s.relations[table].columns;
    RenamedBack(columns, from, to);
    var renamed := RenameColumnIn(s, table, from, to).value;
    assert renamed.relations[table] == Table(Renamed(columns, from, to));
    assert renamed.relations[table := Table(columns)] == s.relations;
  }

  lemma ExecuteUndone(statement: Statement, s: Schema)
    requires !statement.RenameColumnIfPresent? && Execute(statement, s).Some?
    ensures Execute(Inverse(statement), Execute(statement, s).value) == Some(s)
  {
    match statement
    case RenameTable(from, to) => RenamedBack(s.relations, from, to);
    case RenameIndex(from, to) => RenamedBack(s.relations, from, to);
    case RenameType(from, to) => RenamedBack(s.types, from, to);
    case RenameColumn(table, from, to) => ColumnRenamedBack(s, table, from, to);
    case RenameColumnIfPresent(_, _, _) =>
  }

  predicate Unconditional(statements: seq<Statement>) {
    forall i :: 0 <= i < |statements| ==> !statements[i].RenameColumnIfPresent?
  }

  lemma {:induction false} RunUndone(statements: seq<Statement>, s: Schema)
    requires Unconditional(statements) && Run(statements, s).Some?
    ensures Run(Undo(statements), Run(statements, s).value) == Some(s)
  {
    if statements == [] {
    } else {
      var next := Execute(statements[0], s).value;
      RunUndone(statements[1..], next);
      RunOfConcat(Undo(statements[1..]), [Inverse(statements[0])], Run(statements, s).value);
      RunOne(Inverse(statements[0]), next);
      ExecuteUndone(statements[0], s);
    }
  }

  lemma UndoOfUndo(statements: seq<Statement>)
    ensures Undo(Undo(statements)) == statements
  {
    assert forall i :: 0 <= i < |statements| ==> Inverse(Inverse(statements[i])) == statements[i];
  }

  // ----- conditional statements

  /** The columns a conditional statement reads or writes. */
  predicate Touches(c: Statement, table: string, column: string)
    requires c.RenameColumnIfPresent?
  {
    c.table == table && (c.from == column || c.to == column)
  }

  /** Conditional statements no two of which touch the same column. */
  predicate Separate(cs: seq<Statement>) {
    && (forall i :: 0 <= i < |cs| ==> cs[i].RenameColumnIfPresent? && cs[i].from != cs[i].to)
    && (forall i, j :: 0 <= i < j < |cs| && cs[i].table == cs[j].table
          ==> {cs[i].from, cs[i].to} !! {cs[j].from, cs[j].to})
  }

  /** None of the target columns is there already. */
  predicate TargetsAbsent(cs: seq<Statement>, s: Schema)
    requires forall i :: 0 <= i < |cs| ==> cs[i].RenameColumnIfPresent?
  {
    forall i :: 0 <= i < |cs| ==> !HasColumn(s, cs[i].table, cs[i].to)
  }

  function ColumnAt(s: Schema, table: string, column: string): Option<Column> {
    if HasColumn(s, table, column) then Some(s.relations[table].columns[column]) else None
  }

  /** A conditional statement leaves every column alone that it does not touch. */
  lemma ConditionalFrame(c: Statement, s: Schema, table: string, column: string)
    requires c.RenameColumnIfPresent? && Execute(c, s).Some? && !Touches(c, table, column)
    ensures ColumnAt(Execute(c, s).value, table, column) == ColumnAt(s, table, column)
  {}

  predicate NoneTouches(cs: seq<Statement>, table: string, column: string) {
    forall i :: 0 <= i < |cs| ==> cs[i].RenameColumnIfPresent? && !Touches(cs[i], table, column)
  }

  lemma {:induction false} RunFrame(cs: seq<Statement>, s: Schema, table: string, column: string)
    requires NoneTouches(cs, table, column) && Run(cs, s).Some?
    ensures ColumnAt(Run(cs, s).value, table, column) == ColumnAt(s, table, column)
  {
    if cs == [] {
    } else {
      ConditionalFrame(cs[0], s, table, column);
      RunFrame(cs[1..], Execute(cs[0], s).value, table, column);
    }
  }

  lemma NoneTouchesAfter(cs: seq<Statement>, column: string)
    requires cs != [] && Separate(cs) && (column == cs[0].from || column == cs[0].to)
    ensures NoneTouches(cs[1..], cs[0].table, column)
    ensures NoneTouches(Undo(cs[1..]), cs[0].table, column)
  {
    forall i | 0 <= i < |cs[1..]|
      ensures !Touches(cs[1..][i], cs[0].table, column)
    {
      assert cs[1..][i] == cs[i + 1];
    }
  }

  /** Everything the first statement touches is as it left it once the others are undone. */
  lemma FootprintKept(cs: seq<Statement>, s: Schema, back: Schema)
    requires cs != [] && Separate(cs) && Run(cs, s).Some?
    requires Run(Undo(cs[1..]), Run(cs, s).value) == Some(back)
    ensures var next := Execute(cs[0], s).value;
            && ColumnAt(back, cs[0].table, cs[0].from) == ColumnAt(next, cs[0].table, cs[0].from)
            && ColumnAt(back, cs[0].table, cs[0].to) == ColumnAt(next, cs[0].table, cs[0].to)
  {
    var next := Execute(cs[0], s).value;
    NoneTouchesAfter(cs, cs[0].from);
    NoneTouchesAfter(cs, cs[0].to);
    RunFrame(cs[1..], next, cs[0].table, cs[0].from);
    RunFrame(cs[1..], next, cs[0].table, cs[0].to);
    RunFrame(Undo(cs[1..]), Run(cs, s).value, cs[0].table, cs[0].from);
    RunFrame(Undo(cs[1..]), Run(cs, s).value, cs[0].table, cs[0].to);
  }

  /** The last step back restores the schema exactly when the steps before it did and its own
      target was absent. */
  lemma LastStepBack(c: Statement, s: Schema, next: Schema, back: Schema)
    requires c.RenameColumnIfPresent? && c.from != c.to && Execute(c, s) == Some(next)
    requires ColumnAt(back, c.table, c.from) == ColumnAt(next, c.table, c.from)
    requires ColumnAt(back, c.table, c.to) == ColumnAt(next, c.table, c.to)
    ensures Execute(Inverse(c), back) == Some(s) <==> back == next && !HasColumn(s, c.table, c.to)
  {
    if HasColumn(s, c.table, c.from) {
      ColumnRenamedBack(s, c.table, c.from, c.to);
      ColumnRenamedBack(back, c.table, c.to, c.from);
    }
  }

  lemma TargetsOfRest(cs: seq<Statement>, s: Schema, next: Schema)
    requires cs != [] && Separate(cs) && Execute(cs[0], s) == Some(next)
    ensures TargetsAbsent(cs, s) <==> !HasColumn(s, cs[0].table, cs[0].to) && TargetsAbsent(cs[1..], next)
  {
    forall i | 1 <= i < |cs|
      ensures HasColumn(next, cs[i].table, cs[i].to) <==> HasColumn(s, cs[i].table, cs[i].to)
    {
      ConditionalFrame(cs[0], s, cs[i].table, cs[i].to);
    }
    assert forall i :: 0 <= i < |cs[1..]| ==> cs[1..][i] == cs[i + 1];
  }

  /** Undoing conditional renames that succeeded restores the schema exactly when none of their
      targets was present before. */
  lemma {:induction false} ConditionalsUndone(cs: seq<Statement>, s: Schema)
    requires Separate(cs) && Run(cs, s).Some?
    ensures Run(Undo(cs), Run(cs, s).value) == Some(s) <==> TargetsAbsent(cs, s)
    decreases |cs|
  {
    if cs == [] {
    } else {
      var c, rest := cs[0], cs[1..];
      var next := Execute(c, s).value;
      var done := Run(cs, s).value;
      ConditionalsUndone(rest, next);
      RunOfConcat(Undo(rest), [Inverse(c)], done);
      var back := Run(Undo(rest), done);
      if back.Some? {
        RunOne(Inverse(c), back.value);
        FootprintKept(cs, s, back.value);
        LastStepBack(c, s, next, back.value);
        TargetsOfRest(cs, s, next);
      }
    }
  }

  // ----- up, then down

  lemma RevertsUndoRenames()
    ensures REVERTS == Undo(RENAMES)
  {
    hide Undo;
  }

  lemma OptionalRevertsUndo()
    ensures OPTIONAL_REVERTS == Undo(OPTIONAL_RENAMES)
  {
    hide Undo;
  }

  lemma RenamesAreUnconditional()
    ensures Unconditional(RENAMES)
  {}

  lemma OptionalRenamesAreSeparate()
    ensures Separate(OPTIONAL_RENAMES)
  {}

  /** The names of relations whose columns a statement can change. */
  predicate Spares(statement: Statement, table: string) {
    match statement
    case RenameTable(from, to) => from != table && to != table
    case RenameIndex(from, to) => from != table && to != table
    case RenameType(_, _) => true
    case RenameColumn(t, _, _) => t != table
    case RenameColumnIfPresent(t, _, _) => t != table
  }

  lemma {:induction false} SparedColumns(statements: seq<Statement>, s: Schema, table: string, column: string)
    requires forall i :: 0 <= i < |statements| ==> Spares(statements[i], table)
    requires Run(statements, s).Some?
    ensures ColumnAt(Run(statements, s).value, table, column) == ColumnAt(s, table, column)
  {
    if statements == [] {
    } else {
      assert Spares(statements[0], table);
      SparedColumns(statements[1..], Execute(statements[0], s).value, table, column);
    }
  }

  lemma RenamesSpareOptionalTables(i: nat)
    requires i < |OPTIONAL_RENAMES|
    ensures OPTIONAL_RENAMES[i].RenameColumnIfPresent?
    ensures forall k :: 0 <= k < |RENAMES| ==> Spares(RENAMES[k], OPTIONAL_RENAMES[i].table)
  {}

  lemma TargetsAfterRenames(s: Schema)
    requires Run(RENAMES, s).Some? && Separate(OPTIONAL_RENAMES)
    ensures TargetsAbsent(OPTIONAL_RENAMES, Run(RENAMES, s).value) <==> TargetsAbsent(OPTIONAL_RENAMES, s)
  {
    var next := Run(RENAMES, s).value;
    forall i | 0 <= i < |OPTIONAL_RENAMES|
      ensures HasColumn(next, OPTIONAL_RENAMES[i].table, OPTIONAL_RENAMES[i].to)
              <==> HasColumn(s, OPTIONAL_RENAMES[i].table, OPTIONAL_RENAMES[i].to)
    {
      RenamesSpareOptionalTables(i);
      SparedColumns(RENAMES, s, OPTIONAL_RENAMES[i].table, OPTIONAL_RENAMES[i].to);
    }
  }

  lemma UnconditionalUndo(statements: seq<Statement>)
    requires Unconditional(statements)
    ensures Unconditional(Undo(statements))
  {}

  /** For any unconditional renames followed by separate conditional ones: undoing them restores the
      schema exactly when no conditional target was there between the two. */
  lemma RestoresExactly(renames: seq<Statement>, optional: seq<Statement>, s: Schema)
    requires Unconditional(renames) && Separate(optional) && Run(renames + optional, s).Some?
    ensures Run(renames, s).Some?
    ensures Run(Undo(optional) + Undo(renames), Run(renames + optional, s).value) == Some(s)
            <==> TargetsAbsent(optional, Run(renames, s).value)
  {
    RunOfConcat(renames, optional, s);
    var between := Run(renames, s).value;
    var done := Run(renames + optional, s).value;
    RunOfConcat(Undo(optional), Undo(renames), done);
    ConditionalsUndone(optional, between);
    RunUndone(renames, s);
    var back := Run(Undo(optional), done);
    if back.Some? && Run(Undo(renames), back.value) == Some(s) {
      UnconditionalUndo(renames);
      RunUndone(Undo(renames), back.value);
      UndoOfUndo(renames);
    }
  }

  /** On every schema on which up succeeds, down after up restores the schema exactly when none of
      the seven conditional target columns was already there. */
  lemma DownAfterUp(s: Schema)
    requires Run(UP, s).Some?
    ensures Separate(OPTIONAL_RENAMES)
    ensures Run(DOWN, Run(UP, s).value) == Some(s) <==> TargetsAbsent(OPTIONAL_RENAMES, s)
  {
    hide RENAMES;
    hide OPTIONAL_RENAMES;
    hide REVERTS;
    hide OPTIONAL_REVERTS;
    hide Run;
    hide Undo;
    hide Separate;
    hide Unconditional;
    RevertsUndoRenames();
    OptionalRevertsUndo();
    RenamesAreUnconditional();
    OptionalRenamesAreSeparate();
    RestoresExactly(RENAMES, OPTIONAL_RENAMES, s);
    TargetsAfterRenames(s);
  }

  // ----- when up succeeds

  /** The names of relations a statement depends on; for a column, that of its table. */
  function RelationNames(statement: Statement): set<string> {
    match statement
    case RenameTable(from, to) => {from, to}
    case RenameIndex(from, to) => {from, to}
    case RenameType(_, _) => {}
    case RenameColumn(table, _, _) => {table}
    case RenameColumnIfPresent(table, _, _) => {table}
  }

  predicate OnColumns(statement: Statement) { statement.RenameColumn? || statement.RenameColumnIfPresent? }

  /** Running one statement neither enables nor disables the other. */
  predicate Independent(a: Statement, b: Statement) {
    if OnColumns(a) && OnColumns(b) then a.table != b.table || {a.from, a.to} !! {b.from, b.to}
    else RelationNames(a) !! RelationNames(b) && (a.RenameType? && b.RenameType? ==> {a.from, a.to} !! {b.from, b.to})
  }

  predicate AllIndependent(statements: seq<Statement>) {
    forall i, j :: 0 <= i < j < |statements| ==> Independent(statements[i], statements[j])
  }

  predicate CanRun(statement: Statement, s: Schema) { Execute(statement, s).Some? }

  lemma IndependentFrame(a: Statement, b: Statement, s: Schema)
    requires Independent(a, b) && CanRun(a, s)
    ensures CanRun(b, Execute(a, s).value) <==> CanRun(b, s)
  {}

  /** Independent statements succeed one after the other exactly when each could run at first. */
  lemma {:induction false} IndependentRun(statements: seq<Statement>, s: Schema)
    requires AllIndependent(statements)
    ensures Run(statements, s).Some? <==> forall i :: 0 <= i < |statements| ==> CanRun(statements[i], s)
  {
    hide Independent;
    hide Execute;
    if statements == [] {
    } else if CanRun(statements[0], s) {
      var rest, next := statements[1..], Execute(statements[0], s).value;
      forall i | 0 <= i < |rest|
        ensures rest[i] == statements[i + 1]
        ensures CanRun(rest[i], next) <==> CanRun(rest[i], s)
      {
        IndependentFrame(statements[0], statements[i + 1], s);
      }
      IndependentRun(rest, next);
      forall i | 0 < i < |statements|
        ensures statements[i] == rest[i - 1]
      {}
    }
  }

  lemma {:induction false} FramedBy(statements: seq<Statement>, other: Statement, s: Schema)
    requires forall i :: 0 <= i < |statements| ==> Independent(statements[i], other)
    requires Run(statements, s).Some?
    ensures CanRun(other, Run(statements, s).value) <==> CanRun(other, s)
  {
    hide Independent;
    hide Execute;
    if statements == [] {
    } else {
      IndependentFrame(statements[0], other, s);
      FramedBy(statements[1..], other, Execute(statements[0], s).value);
    }
  }

  lemma IndexRenamesAreIndependent()
    ensures forall i, j :: 4 <= i < j < |RENAMES| ==> Independent(RENAMES[i], RENAMES[j])
  {}

  /** All but the two statements on the table space_add_ons, the second of which has its new name. */
  lemma TableRenamesAreIndependent()
    ensures forall i, j :: 0 <= i < 4 && i < j < |RENAMES| && (i, j) != (1, 2) ==> Independent(RENAMES[i], RENAMES[j])
  {}

  lemma OptionalApart(i: nat)
    requires i < |OPTIONAL_RENAMES|
    ensures forall k :: 0 <= k < |RENAMES| ==> Independent(RENAMES[k], OPTIONAL_RENAMES[i])
  {
    RenamesSpareOptionalTables(i);
    hide RENAMES;
    hide OPTIONAL_RENAMES;
  }

  /** The statements on the table space_add_ons aside, any two statements are independent. */
  predicate IndependentButFor12(statements: seq<Statement>) {
    forall i, j :: 0 <= i < j < |statements| && (i, j) != (1, 2) ==> Independent(statements[i], statements[j])
  }

  lemma RenamesAreIndependent()
    ensures |RENAMES| == 14 && IndependentButFor12(RENAMES)
  {
    IndexRenamesAreIndependent();
    TableRenamesAreIndependent();
    assert |RENAMES| == 14;
    hide RENAMES;
  }

  lemma IndependentParts(a: seq<Statement>, b: seq<Statement>)
    requires |a| > 2 && IndependentButFor12(a) && AllIndependent(b)
    requires forall i, j :: 0 <= i < |a| && 0 <= j < |b| ==> Independent(a[i], b[j])
    ensures IndependentButFor12(a + b)
  {
    hide Independent;
  }

  lemma OptionalRenamesAreIndependent()
    ensures AllIndependent(OPTIONAL_RENAMES)
  {
    hide OPTIONAL_RENAMES;
    OptionalRenamesAreSeparate();
  }

  lemma UpIsIndependent()
    ensures IndependentButFor12(UP)
  {
    hide RENAMES;
    hide OPTIONAL_RENAMES;
    hide Independent;
    RenamesAreIndependent();
    OptionalRenamesAreIndependent();
    forall i | 0 <= i < |OPTIONAL_RENAMES|
      ensures forall k :: 0 <= k < |RENAMES| ==> Independent(RENAMES[k], OPTIONAL_RENAMES[i])
    {
      OptionalApart(i);
    }
    IndependentParts(RENAMES, OPTIONAL_RENAMES);
  }

  /** The column of the add-on type, under the old name of its table. */
  const RENAME_TYPE_COLUMN := RenameColumn("space_add_ons", "add_on_type", "extras_type")

  predicate AllButThirdCanRun(statements: seq<Statement>, s: Schema) {
    forall i :: 0 <= i < |statements| && i != 2 ==> CanRun(statements[i], s)
  }

  /** Each statement of up could run on the schema on its own, the one on the renamed table under
      the table's old name. */
  predicate EachCanRun(s: Schema) {
    CanRun(RENAME_TYPE_COLUMN, s) && AllButThirdCanRun(UP, s)
  }

  lemma TypeColumnMoves(s: Schema)
    requires Run(UP[..2], s).Some?
    ensures CanRun(UP[2], Run(UP[..2], s).value) <==> CanRun(RENAME_TYPE_COLUMN, s)
  {
    var first, second := RenameTable("add_ons", "extras"), RenameTable("space_add_ons", "space_extras");
    assert UP[..2] == [first, second] && [first, second][1..] == [second];
    var one := Execute(first, s).value;
    RunOne(second, one);
    assert Run(UP[..2], s) == Execute(second, one);
    assert one.relations["space_add_ons"] == s.relations["space_add_ons"];
  }

  lemma SucceedsExactly(statements: seq<Statement>, third: Statement, s: Schema)
    requires |statements| > 2 && IndependentButFor12(statements)
    requires Run(statements[..2], s).Some?
             ==> (CanRun(statements[2], Run(statements[..2], s).value) <==> CanRun(third, s))
    ensures Run(statements, s).Some? <==> CanRun(third, s) && AllButThirdCanRun(statements, s)
  {
    hide Independent;
    hide Execute;
    hide CanRun;
    var first, rest := statements[..2], statements[2..];
    assert statements == first + rest;
    RunOfConcat(first, rest, s);
    IndependentRun(first, s);
    assert first[0] == statements[0] && first[1] == statements[1];
    if Run(first, s).Some? {
      var between := Run(first, s).value;
      IndependentRun(rest, between);
      forall j | 2 < j < |statements|
        ensures CanRun(statements[j], between) <==> CanRun(statements[j], s)
      {
        FramedBy(first, statements[j], s);
      }
      forall j | 2 <= j < |statements|
        ensures statements[j] == rest[j - 2]
      {}
    }
  }

  /** Up succeeds on exactly the schemas on which each of its statements could run on its own. */
  lemma UpSucceedsExactly(s: Schema)
    ensures Run(UP, s).Some? <==> EachCanRun(s)
  {
    UpIsIndependent();
    if Run(UP[..2], s).Some? {
      TypeColumnMoves(s);
    }
    assert |UP| == 21;
    SucceedsExactly(UP, RENAME_TYPE_COLUMN, s);
  }

  // ----- what one statement does, by name

  function RelationAt(s: Schema, name: string): Option<Relation> {
    if name in s.relations then Some(s.relations[name]) else None
  }

  function TypeAt(s: Schema, name: string): Option<string> {
    if name in s.types then Some(s.types[name]) else None
  }

  /** The statement renames the relation to or from the name, or one of its columns to or from the
      column. */
  predicate TouchesColumn(statement: Statement, table: string, column: string) {
    if OnColumns(statement) then statement.table == table && column in {statement.from, statement.to}
    else table in RelationNames(statement)
  }

  lemma StepSpares(statement: Statement, s: Schema, name: string, column: string)
    requires CanRun(statement, s)
    ensures name !in RelationNames(statement) ==> RelationAt(Execute(statement, s).value, name) == RelationAt(s, name)
    ensures !TouchesColumn(statement, name, column)
            ==> ColumnAt(Execute(statement, s).value, name, column) == ColumnAt(s, name, column)
    ensures !statement.RenameType? ==> Execute(statement, s).value.types == s.types
  {}

  lemma {:induction false} RunSpares(statements: seq<Statement>, s: Schema, name: string, column: string)
    requires Run(statements, s).Some?
    ensures (forall i :: 0 <= i < |statements| ==> name !in RelationNames(statements[i]))
            ==> RelationAt(Run(statements, s).value, name) == RelationAt(s, name)
    ensures (forall i :: 0 <= i < |statements| ==> !TouchesColumn(statements[i], name, column))
            ==> ColumnAt(Run(statements, s).value, name, column) == ColumnAt(s, name, column)
    ensures (forall i :: 0 <= i < |statements| ==> !statements[i].RenameType?)
            ==> Run(statements, s).value.types == s.types
  {
    hide Execute;
    hide RelationAt;
    hide ColumnAt;
    hide RelationNames;
    hide TouchesColumn;
    if statements == [] {
    } else {
      StepSpares(statements[0], s, name, column);
      RunSpares(statements[1..], Execute(statements[0], s).value, name, column);
    }
  }

  /** The schemas a run goes through at its i-th statement. */
  lemma RunThrough(statements: seq<Statement>, s: Schema, i: nat) returns (before: Schema, after: Schema)
    requires i < |statements| && Run(statements, s).Some?
    ensures Run(statements[..i], s) == Some(before) && Execute(statements[i], before) == Some(after)
    ensures Run(statements[i + 1..], after) == Run(statements, s)
  {
    hide Execute;
    var rest := statements[i..];
    assert statements == statements[..i] + rest && rest[1..] == statements[i + 1..];
    RunOfConcat(statements[..i], rest, s);
    before := Run(statements[..i], s).value;
    after := Execute(statements[i], before).value;
  }

  /** A relation that only the i-th statement names stands under its new name afterwards. */
  lemma RelationMoves(statements: seq<Statement>, s: Schema, i: nat)
    requires i < |statements| && Run(statements, s).Some?
    requires statements[i].RenameTable? || statements[i].RenameIndex?
    requires forall j :: 0 <= j < |statements| && j != i ==>
               RelationNames(statements[j]) !! {statements[i].from, statements[i].to}
    ensures var t, from, to := Run(statements, s).value, statements[i].from, statements[i].to;
            && RelationAt(s, from).Some? && RelationAt(s, to).None?
            && RelationAt(s, from).value.Table? == statements[i].RenameTable?
            && RelationAt(t, to) == RelationAt(s, from)
            && (from != to ==> RelationAt(t, from).None?)
  {
    var from, to := statements[i].from, statements[i].to;
    var before, after := RunThrough(statements, s, i);
    RunSpares(statements[..i], s, from, "");
    RunSpares(statements[..i], s, to, "");
    RunSpares(statements[i + 1..], after, from, "");
    RunSpares(statements[i + 1..], after, to, "");
    hide Run;
  }

  /** What the i-th statement finds of a column, and what it leaves of it, is what the run does, if no
      other statement touches the column. */
  lemma ColumnIsSpared(
    statements: seq<Statement>, s: Schema, i: nat, before: Schema, after: Schema, table: string, column: string)
    requires i < |statements| && Run(statements, s).Some?
    requires Run(statements[..i], s) == Some(before) && Run(statements[i + 1..], after) == Run(statements, s)
    requires forall j :: 0 <= j < |statements| && j != i ==> !TouchesColumn(statements[j], table, column)
    ensures ColumnAt(before, table, column) == ColumnAt(s, table, column)
    ensures ColumnAt(after, table, column) == ColumnAt(Run(statements, s).value, table, column)
  {
    hide Run;
    hide ColumnAt;
    hide TouchesColumn;
    RunSpares(statements[..i], s, table, column);
    RunSpares(statements[i + 1..], after, table, column);
  }

  /** A column that only the i-th statement touches stands under its new name afterwards, if it was
      there; a conditional statement without it does nothing. */
  lemma ColumnMoves(statements: seq<Statement>, s: Schema, i: nat)
    requires i < |statements| && Run(statements, s).Some? && OnColumns(statements[i])
    requires forall j :: 0 <= j < |statements| && j != i ==>
               && !TouchesColumn(statements[j], statements[i].table, statements[i].from)
               && !TouchesColumn(statements[j], statements[i].table, statements[i].to)
    ensures var t, c := Run(statements, s).value, statements[i];
            if c.RenameColumn? || ColumnAt(s, c.table, c.from).Some? then
              && ColumnAt(s, c.table, c.from).Some? && ColumnAt(s, c.table, c.to).None?
              && ColumnAt(t, c.table, c.to) == ColumnAt(s, c.table, c.from)
              && (c.from != c.to ==> ColumnAt(t, c.table, c.from).None?)
            else ColumnAt(t, c.table, c.from).None? && ColumnAt(t, c.table, c.to) == ColumnAt(s, c.table, c.to)
  {
    hide Run;
    hide TouchesColumn;
    var c := statements[i];
    var before, after := RunThrough(statements, s, i);
    ColumnIsSpared(statements, s, i, before, after, c.table, c.from);
    ColumnIsSpared(statements, s, i, before, after, c.table, c.to);
  }

  /** So does a type that only the i-th statement renames; the other types stay. */
  lemma TypeMoves(statements: seq<Statement>, s: Schema, i: nat)
    requires i < |statements| && Run(statements, s).Some? && statements[i].RenameType?
    requires forall j :: 0 <= j < |statements| && j != i ==> !statements[j].RenameType?
    ensures var t, from, to := Run(statements, s).value, statements[i].from, statements[i].to;
            && TypeAt(s, from).Some? && TypeAt(s, to).None?
            && TypeAt(t, to) == TypeAt(s, from) && (from != to ==> TypeAt(t, from).None?)
            && forall name :: name != from && name != to ==> TypeAt(t, name) == TypeAt(s, name)
  {
    var before, after := RunThrough(statements, s, i);
    RunSpares(statements[..i], s, "", "");
    RunSpares(statements[i + 1..], after, "", "");
    hide Run;
  }

  // ----- what up does, by name

  /** When a statement can run, in terms of the names that are there. */
  predicate CanRunNamed(statement: Statement, s: Schema) {
    match statement
    case RenameTable(from, to) =>
      RelationAt(s, from).Some? && RelationAt(s, from).value.Table? && RelationAt(s, to).None?
    case RenameIndex(from, to) =>
      RelationAt(s, from).Some? && RelationAt(s, from).value.Index? && RelationAt(s, to).None?
    case RenameType(from, to) => TypeAt(s, from).Some? && TypeAt(s, to).None?
    case RenameColumn(table, from, to) => ColumnAt(s, table, from).Some? && ColumnAt(s, table, to).None?
    case RenameColumnIfPresent(table, from, to) =>
      ColumnAt(s, table, from).Some? ==> ColumnAt(s, table, to).None?
  }

  lemma CanRunByName(statement: Statement, s: Schema)
    ensures CanRun(statement, s) <==> CanRunNamed(statement, s)
  {}

  lemma FirstFour()
    ensures |RENAMES| == 14 && |UP| == 21
    ensures UP[0] == RenameTable("add_ons", "extras") && UP[1] == RenameTable("space_add_ons", "space_extras")
    ensures UP[2] == RenameColumn("space_extras", "add_on_type", "extras_type")
    ensures UP[3] == RenameType("AddOnType", "ExtrasType")
    ensures forall i :: 4 <= i < 14 ==> UP[i] == RENAMES[i] && UP[i].RenameIndex?
    ensures forall i :: 14 <= i < 21 ==> UP[i] == OPTIONAL_RENAMES[i - 14] && UP[i].RenameColumnIfPresent?
  {}

  /** An index is under its new name and gone from the old one, an add-on's table likewise. */
  predicate HasMoved(s: Schema, t: Schema, from: string, to: string) {
    && RelationAt(s, from).Some? && RelationAt(s, to).None?
    && RelationAt(t, to) == RelationAt(s, from) && RelationAt(t, from).None?
  }

  predicate ColumnHasMoved(s: Schema, t: Schema, c: Statement)
    requires c.RenameColumnIfPresent?
  {
    if ColumnAt(s, c.table, c.from).Some? then
      && ColumnAt(s, c.table, c.to).None? && ColumnAt(t, c.table, c.from).None?
      && ColumnAt(t, c.table, c.to) == ColumnAt(s, c.table, c.from)
    else ColumnAt(t, c.table, c.from).None? && ColumnAt(t, c.table, c.to) == ColumnAt(s, c.table, c.to)
  }

  lemma UpPair(i: nat, j: nat)
    requires i < |UP| && j < |UP| && i != j && {i, j} != {1, 2}
    ensures Independent(UP[i], UP[j])
  {
    hide RENAMES;
    hide OPTIONAL_RENAMES;
    UpIsIndependent();
    if j < i {
      assert Independent(UP[j], UP[i]);
    }
  }

  lemma IndexRenames()
    ensures |RENAMES| == 14
    ensures forall i :: 4 <= i < |RENAMES| ==> RENAMES[i].RenameIndex? && RENAMES[i].from != RENAMES[i].to
    ensures forall i :: 4 <= i < |RENAMES| ==>
              {RENAMES[i].from, RENAMES[i].to} !! {"add_ons", "extras", "space_add_ons", "space_extras", "payments"}
  {}

  lemma UpDistinct(i: nat)
    requires i < |UP|
    ensures UP[i].from != UP[i].to
  {
    IndexRenames();
    OptionalRenamesAreSeparate();
  }

  /** The table of the add-ons and the ten indexes. */
  lemma UpMovesRelation(s: Schema, i: nat)
    requires Run(UP, s).Some? && (i == 0 || 4 <= i < 14)
    ensures |UP| == 21 && (UP[i].RenameTable? || UP[i].RenameIndex?)
    ensures HasMoved(s, Run(UP, s).value, UP[i].from, UP[i].to)
  {
    FirstFour();
    hide RENAMES;
    hide OPTIONAL_RENAMES;
    hide UP;
    hide Run;
    forall j | 0 <= j < |UP| && j != i
      ensures RelationNames(UP[j]) !! {UP[i].from, UP[i].to}
    {
      UpPair(i, j);
    }
    UpDistinct(i);
    RelationMoves(UP, s, i);
  }

  /** The seven conditional columns. */
  lemma UpMovesColumn(s: Schema, i: nat)
    requires Run(UP, s).Some? && i < |OPTIONAL_RENAMES|
    ensures OPTIONAL_RENAMES[i].RenameColumnIfPresent?
    ensures ColumnHasMoved(s, Run(UP, s).value, OPTIONAL_RENAMES[i])
  {
    FirstFour();
    UpDistinct(14 + i);
    assert |OPTIONAL_RENAMES| == 7;
    hide RENAMES;
    hide OPTIONAL_RENAMES;
    hide UP;
    hide Run;
    var c := UP[14 + i];
    forall j | 0 <= j < |UP| && j != 14 + i
      ensures !TouchesColumn(UP[j], c.table, c.from) && !TouchesColumn(UP[j], c.table, c.to)
    {
      UpPair(j, 14 + i);
    }
    ColumnMoves(UP, s, 14 + i);
  }

  lemma UpMovesType(s: Schema)
    requires Run(UP, s).Some?
    ensures var t := Run(UP, s).value;
            && TypeAt(s, "AddOnType").Some? && TypeAt(s, "ExtrasType").None?
            && TypeAt(t, "ExtrasType") == TypeAt(s, "AddOnType") && TypeAt(t, "AddOnType").None?
            && forall name :: name != "AddOnType" && name != "ExtrasType" ==> TypeAt(t, name) == TypeAt(s, name)
  {
    FirstFour();
    hide RENAMES;
    hide OPTIONAL_RENAMES;
    hide UP;
    hide Run;
    forall j | 0 <= j < |UP| && j != 3
      ensures !UP[j].RenameType?
    {
      assert j < 3 || 4 <= j < 14 || 14 <= j < 21;
    }
    TypeMoves(UP, s, 3);
  }

  lemma FirstSparesSpaceTable(s: Schema)
    requires Run(UP[..1], s).Some?
    ensures RelationAt(Run(UP[..1], s).value, "space_add_ons") == RelationAt(s, "space_add_ons")
    ensures RelationAt(Run(UP[..1], s).value, "space_extras") == RelationAt(s, "space_extras")
  {
    FirstFour();
    hide RENAMES;
    hide OPTIONAL_RENAMES;
    hide UP;
    assert UP[..1] == [RenameTable("add_ons", "extras")];
    RunSpares(UP[..1], s, "space_add_ons", "");
    RunSpares(UP[..1], s, "space_extras", "");
  }

  lemma SpaceTableAfter(s: Schema, before: Schema, after: Schema, column: string)
    requires Execute(RenameTable("space_add_ons", "space_extras"), before) == Some(after)
    requires RelationAt(before, "space_add_ons") == RelationAt(s, "space_add_ons")
    requires RelationAt(before, "space_extras") == RelationAt(s, "space_extras")
    ensures RelationAt(s, "space_add_ons").Some? && RelationAt(s, "space_add_ons").value.Table?
    ensures RelationAt(s, "space_extras").None? && RelationAt(after, "space_add_ons").None?
    ensures forall c: string :: ColumnAt(after, "space_extras", c) == ColumnAt(s, "space_add_ons", c)
  {}

  /** The table of a space's add-ons, and in it the column of their type. */
  lemma UpMovesSpaceTable(s: Schema, column: string)
    requires Run(UP, s).Some?
    ensures var t := Run(UP, s).value;
            && RelationAt(s, "space_add_ons").Some? && RelationAt(s, "space_add_ons").value.Table?
            && RelationAt(s, "space_extras").None? && RelationAt(t, "space_add_ons").None?
            && ColumnAt(s, "space_add_ons", "add_on_type").Some? && ColumnAt(s, "space_add_ons", "extras_type").None?
            && ColumnAt(t, "space_extras", column)
               == if column == "extras_type" then ColumnAt(s, "space_add_ons", "add_on_type")
                  else if column == "add_on_type" then None else ColumnAt(s, "space_add_ons", column)
  {
    FirstFour();
    hide RENAMES;
    hide OPTIONAL_RENAMES;
    hide UP;
    hide Run;
    var before, after := RunThrough(UP, s, 1);
    var rest := UP[2..];
    forall j | 0 <= j < |rest|
      ensures rest[j] == UP[j + 2]
      ensures "space_add_ons" !in RelationNames(rest[j])
      ensures j > 0 ==> "space_extras" !in RelationNames(rest[j])
    {
      if j > 0 {
        UpPair(1, j + 2);
      }
    }
    FirstSparesSpaceTable(s);
    RunSpares(rest, after, "space_add_ons", "");
    ColumnMoves(rest, after, 0);
    if column != "extras_type" && column != "add_on_type" {
      RunSpares(rest, after, "space_extras", column);
    }
    SpaceTableAfter(s, before, after, column);
  }

  lemma UpStartsFromTable(s: Schema)
    requires Run(UP, s).Some?
    ensures RelationAt(s, "add_ons").Some? && RelationAt(s, "add_ons").value.Table?
  {
    FirstFour();
    hide RENAMES;
    hide OPTIONAL_RENAMES;
    hide UP;
  }

  /** What up leaves, name by name: every table, index, type and column is under its new name as it
      was under the old one, which is gone; and what no statement names is as it was. */
  lemma UpRenames(s: Schema, name: string, column: string)
    requires Run(UP, s).Some?
    ensures |UP| == 21 && forall i :: 0 <= i < |OPTIONAL_RENAMES| ==> OPTIONAL_RENAMES[i].RenameColumnIfPresent?
    ensures forall i :: 4 <= i < |RENAMES| ==> RENAMES[i].RenameIndex?
    ensures var t := Run(UP, s).value;
            && HasMoved(s, t, "add_ons", "extras") && RelationAt(s, "add_ons").value.Table?
            && (forall i :: 4 <= i < |RENAMES| ==> HasMoved(s, t, RENAMES[i].from, RENAMES[i].to))
            && (forall i :: 0 <= i < |OPTIONAL_RENAMES| ==> ColumnHasMoved(s, t, OPTIONAL_RENAMES[i]))
            && ((forall i :: 0 <= i < |UP| ==> name !in RelationNames(UP[i]))
                ==> RelationAt(t, name) == RelationAt(s, name))
            && ((forall i :: 0 <= i < |UP| ==> !TouchesColumn(UP[i], name, column))
                ==> ColumnAt(t, name, column) == ColumnAt(s, name, column))
  {
    FirstFour();
    assert |OPTIONAL_RENAMES| == 7;
    hide RENAMES;
    hide OPTIONAL_RENAMES;
    hide UP;
    hide Run;
    hide HasMoved;
    hide ColumnHasMoved;
    UpMovesRelation(s, 0);
    UpStartsFromTable(s);
    forall i | 4 <= i < |RENAMES|
      ensures HasMoved(s, Run(UP, s).value, RENAMES[i].from, RENAMES[i].to)
    {
      UpMovesRelation(s, i);
    }
    forall i | 0 <= i < |OPTIONAL_RENAMES|
      ensures OPTIONAL_RENAMES[i].RenameColumnIfPresent?
      ensures ColumnHasMoved(s, Run(UP, s).value, OPTIONAL_RENAMES[i])
    {
      UpMovesColumn(s, i);
    }
    RunSpares(UP, s, name, column);
  }

  /** Up succeeds on exactly the schemas that have every old name of the right kind and none of the
      new ones, where a conditional column may be missing, but not under both names. */
  lemma UpSucceedsByName(s: Schema)
    ensures Run(UP, s).Some? <==>
            && RelationAt(s, "add_ons").Some? && RelationAt(s, "add_ons").value.Table? && RelationAt(s, "extras").None?
            && RelationAt(s, "space_add_ons").Some? && RelationAt(s, "space_add_ons").value.Table?
            && RelationAt(s, "space_extras").None?
            && ColumnAt(s, "space_add_ons", "add_on_type").Some? && ColumnAt(s, "space_add_ons", "extras_type").None?
            && TypeAt(s, "AddOnType").Some? && TypeAt(s, "ExtrasType").None?
            && (forall i :: 4 <= i < |RENAMES| ==>
                  && RelationAt(s, RENAMES[i].from).Some? && RelationAt(s, RENAMES[i].from).value.Index?
                  && RelationAt(s, RENAMES[i].to).None?)
            && (forall i :: 0 <= i < |OPTIONAL_RENAMES| ==>
                  var c := OPTIONAL_RENAMES[i];
                  c.RenameColumnIfPresent?
                  && (ColumnAt(s, c.table, c.from).Some? ==> ColumnAt(s, c.table, c.to).None?))
  {
    FirstFour();
    assert |OPTIONAL_RENAMES| == 7;
    hide RENAMES;
    hide OPTIONAL_RENAMES;
    hide UP;
    hide Run;
    hide CanRun;
    hide RelationAt;
    hide ColumnAt;
    hide TypeAt;
    UpSucceedsExactly(s);
    CanRunByName(RENAME_TYPE_COLUMN, s);
    forall i | 0 <= i < |UP|
      ensures CanRun(UP[i], s) <==> CanRunNamed(UP[i], s)
    {
      CanRunByName(UP[i], s);
    }
    forall i | 0 <= i < |OPTIONAL_RENAMES|
      ensures OPTIONAL_RENAMES[i] == UP[14 + i]
    {}
  }

  // ----- a schema that down does not restore

  const OLD_INDEXES: set<string> := set i | 4 <= i < |RENAMES| :: RENAMES[i].from

  /** What up needs, and a table payments that already has a column extrasAmount. */
  const OLD_SCHEMA := Schema(
    (map name | name in OLD_INDEXES :: Index("btree"))[
      "add_ons" := Table(map[])][
      "space_add_ons" := Table(map["add_on_type" := Column("enum")])][
      "payments" := Table(map["extrasAmount" := Column("decimal")])],
    map["AddOnType" := "enum"])

  lemma OldIndexesCanRun(i: nat)
    requires 4 <= i < |RENAMES|
    ensures CanRun(RENAMES[i], OLD_SCHEMA)
  {
    IndexRenames();
    IndexRenamesAreIndependent();
    hide RENAMES;
    assert RENAMES[i].from in OLD_INDEXES;
    forall j | 4 <= j < |RENAMES|
      ensures RENAMES[j].from != RENAMES[i].to
    {
      assert i < j ==> Independent(RENAMES[i], RENAMES[j]);
      assert j < i ==> Independent(RENAMES[j], RENAMES[i]);
    }
  }

  lemma OldTablesCanRun()
    ensures CanRun(RENAMES[0], OLD_SCHEMA) && CanRun(RENAMES[1], OLD_SCHEMA) && CanRun(RENAMES[3], OLD_SCHEMA)
    ensures CanRun(RENAME_TYPE_COLUMN, OLD_SCHEMA)
  {
    var first, second, fourth := RENAMES[0], RENAMES[1], RENAMES[3];
    assert first == RenameTable("add_ons", "extras") && second == RenameTable("space_add_ons", "space_extras")
           && fourth == RenameType("AddOnType", "ExtrasType");
    IndexRenames();
    hide RENAMES;
    assert "extras" !in OLD_INDEXES && "space_extras" !in OLD_INDEXES;
  }

  lemma OldOptionalCanRun(i: nat)
    requires i < |OPTIONAL_RENAMES|
    ensures CanRun(OPTIONAL_RENAMES[i], OLD_SCHEMA)
  {
    IndexRenames();
    hide RENAMES;
  }

  lemma UpSucceedsOnOldSchema()
    ensures Run(UP, OLD_SCHEMA).Some?
  {
    IndexRenames();
    hide RENAMES;
    hide Run;
    forall i | 4 <= i < |RENAMES|
      ensures CanRun(RENAMES[i], OLD_SCHEMA)
    {
      OldIndexesCanRun(i);
    }
    OldTablesCanRun();
    forall i | 0 <= i < |OPTIONAL_RENAMES|
      ensures CanRun(OPTIONAL_RENAMES[i], OLD_SCHEMA)
    {
      OldOptionalCanRun(i);
    }
    UpSucceedsExactly(OLD_SCHEMA);
  }

  /** Down never restores a schema that had a column extrasAmount in payments: it takes it for a
      renamed one. */
  lemma PresentTargetIsRenamedAway(s: Schema)
    requires Run(UP, s).Some? && HasColumn(s, "payments", "extrasAmount")
    ensures Run(DOWN, Run(UP, s).value) != Some(s)
  {
    DownAfterUp(s);
    assert OPTIONAL_RENAMES[4] == RenameColumnIfPresent("payments", "addonAmount", "extrasAmount");
  }

  /** Up succeeds on this schema, and down then does not restore it. */
  lemma OldSchemaIsNotRestored()
    ensures HasColumn(OLD_SCHEMA, "payments", "extrasAmount")
    ensures Run(UP, OLD_SCHEMA).Some? && Run(DOWN, Run(UP, OLD_SCHEMA).value) != Some(OLD_SCHEMA)
  {
    hide RENAMES;
    hide OPTIONAL_RENAMES;
    hide Run;
    UpSucceedsOnOldSchema();
    PresentTargetIsRenamedAway(OLD_SCHEMA);
  }
}
