/** SQLiteSchemaComparer and SchemaCheckerResult: a comparison of the catalogue database with its
    schema that collects every difference. */
module SchemaComparer {
  import opened Tables

  type Columns = map<string, string>

  /** What a metadata getter tells about a database. */
  datatype Metadata = Metadata(
    tables: seq<string>, columns: string -> Columns, constraints: string -> seq<string>, indexes: seq<string>)

  datatype Side = Database | Schema

  datatype Kind = Index | ConstraintIn(table: string)

  /** An error: the parts from which its message is made. */
  datatype Problem =
    | ItemMissing(kind: Kind, item: string, missingIn: Side)
    | TableMissing(table: string, missingIn: Side)
    | ColumnMissing(table: string, column: string, missingIn: Side)
    | TypeDiffers(table: string, column: string, missingIn: Side, one: string, other: string)

  // ----- results -----

  datatype Status = SUCCESS | FAILED

  class SchemaCheckerResult {
    var errors: seq<Problem>
    var warnings: seq<string>
    var status: Status

    predicate Valid()
      reads this
    {
      status == FAILED <==> errors != []
    }

    constructor ()
      ensures Valid() && errors == [] && warnings == []
    {
      errors, warnings, status := [], [], SUCCESS;
    }

    /** operator += */
    method Append(other: SchemaCheckerResult)
      requires Valid() && other.Valid()
      modifies this
      ensures Valid()
      ensures errors == old(errors) + old(other.errors) && warnings == old(warnings) + old(other.warnings)
    {
      errors := errors + other.errors;
      warnings := warnings + other.warnings;
      if status == SUCCESS {
        status := other.status;
      }
    }

    method AddError(error: Problem)
      requires Valid()
      modifies this
      ensures Valid()
      ensures errors == old(errors) + [error] && warnings == old(warnings)
    {
      errors := errors + [error];
      status := FAILED;
    }

    method AddWarning(warning: string)
      requires Valid()
      modifies this
      ensures Valid()
      ensures warnings == old(warnings) + [warning] && errors == old(errors)
    {
      warnings := warnings + [warning];
    }
  }

  // ----- differences -----

  predicate SameItems(a: seq<string>, b: seq<string>) {
    (forall x | x in a :: x in b) && (forall x | x in b :: x in a)
  }

  predicate IsItemDifference(e: Problem, kind: Kind, database: seq<string>, schema: seq<string>) {
    e.ItemMissing? && e.kind == kind &&
    match e.missingIn
    case Schema => e.item in database && e.item !in schema
    case Database => e.item in schema && e.item !in database
  }

  /** A table or column of `one` that `other`, the side named `missingIn`, does not have like that. */
  predicate IsColumnDifference(e: Problem, one: map<string, Columns>, other: map<string, Columns>, missingIn: Side) {
    e.missingIn == missingIn &&
    match e
    case ItemMissing(_, _, _) => false
    case TableMissing(t, _) => t in one && t !in other
    case ColumnMissing(t, c, _) => t in one && t in other && c in one[t] && c !in other[t]
    case TypeDiffers(t, c, _, x, y) =>
      t in one && t in other && c in one[t] && c in other[t] && one[t][c] == x && other[t][c] == y && x != y
  }

  method CompareItems(kind: Kind, database: seq<string>, schema: seq<string>) returns (result: SchemaCheckerResult)
    ensures fresh(result) && result.Valid() && result.warnings == []
    ensures forall e :: e in result.errors <==> IsItemDifference(e, kind, database, schema)
  {
    result := new SchemaCheckerResult();
    for i := 0 to |database|
      invariant result.Valid() && result.warnings == []
      invariant forall e :: e in result.errors <==>
        e.ItemMissing? && e.missingIn == Schema && e.item in database[..i] &&
          IsItemDifference(e, kind, database, schema)
    {
      if database[i] !in schema {
        result.AddError(ItemMissing(kind, database[i], Schema));
      }
    }
    for i := 0 to |schema|
      invariant result.Valid() && result.warnings == []
      invariant forall e :: e in result.errors <==>
        IsItemDifference(e, kind, database, schema) && (e.missingIn == Schema || e.item in schema[..i])
    {
      if schema[i] !in database {
        result.AddError(ItemMissing(kind, schema[i], Database));
      }
    }
  }

  /** The differences in one table that both sides have. */
  method CompareColumns(table: string, one: Columns, other: Columns, missingIn: Side, result: SchemaCheckerResult)
    requires result.Valid()
    modifies result
    ensures result.Valid() && result.warnings == old(result.warnings)
    ensures forall e :: e in result.errors <==>
      e in old(result.errors) ||
      (!e.TableMissing? && !e.ItemMissing? && e.table == table &&
        IsColumnDifference(e, map[table := one], map[table := other], missingIn))
  {
    var left := one.Keys;
    while left != {}
      invariant left <= one.Keys && result.Valid() && result.warnings == old(result.warnings)
      invariant forall e :: e in result.errors <==>
        e in old(result.errors) ||
        (!e.TableMissing? && !e.ItemMissing? && e.table == table && e.column !in left &&
         IsColumnDifference(e, map[table := one], map[table := other], missingIn))
    {
      var column :| column in left;
      left := left - {column};
      if column in other {
        if one[column] != other[column] {
          result.AddError(TypeDiffers(table, column, missingIn, one[column], other[column]));
        }
      } else {
        result.AddError(ColumnMissing(table, column, missingIn));
      }
    }
  }

  method CompareTableColumns(one: map<string, Columns>, other: map<string, Columns>, missingIn: Side)
    returns (result: SchemaCheckerResult)
    ensures fresh(result) && result.Valid() && result.warnings == []
    ensures forall e :: e in result.errors <==> IsColumnDifference(e, one, other, missingIn)
  {
    result := new SchemaCheckerResult();
    var left := one.Keys;
    while left != {}
      invariant left <= one.Keys && result.Valid() && result.warnings == []
      invariant forall e :: e in result.errors <==>
        IsColumnDifference(e, one, other, missingIn) && e.table !in left
    {
      var table :| table in left;
      left := left - {table};
      if table in other {
        CompareColumns(table, one[table], other[table], missingIn, result);
      } else {
        result.AddError(TableMissing(table, missingIn));
      }
    }
  }

  // ----- the comparer -----

  datatype Outcome = Compared(result: SchemaCheckerResult) | NoStatementsReader

  function ColumnsOf(m: Metadata, tables: seq<string>): map<string, Columns> {
    map t | t in tables :: m.columns(t)
  }

  function ConstraintsOf(m: Metadata, tables: seq<string>): map<string, seq<string>> {
    map t | t in tables :: m.constraints(t)
  }

  predicate IsConstraintDifference(e: Problem, database: Metadata, dbTables: seq<string>, schema: Metadata,
      schemaTables: seq<string>) {
    e.ItemMissing? && e.kind.ConstraintIn? && e.kind.table in schemaTables &&
    var t := e.kind.table;
    IsItemDifference(e, e.kind, if t in dbTables then database.constraints(t) else [], schema.constraints(t))
  }

  /** Everything that compareTables reports. */
  predicate IsTableDifference(
    e: Problem, database: Metadata, dbTables: seq<string>, schema: Metadata, schemaTables: seq<string>,
      constraints: bool)
  {
    || (constraints && IsConstraintDifference(e, database, dbTables, schema, schemaTables))
    || IsColumnDifference(e, ColumnsOf(database, dbTables), ColumnsOf(schema, schemaTables), Schema)
    || IsColumnDifference(e, ColumnsOf(schema, schemaTables), ColumnsOf(database, dbTables), Database)
  }

  class SQLiteSchemaComparer {
    const database: Metadata
    /** The schema that the statements of the reader define, if a reader has been set. */
    const reader: Option<Metadata>
    const compareTableConstraints: bool
    var schema: Metadata
    var isSchemaInserted: bool

    ghost predicate Valid()
      reads this
    {
      isSchemaInserted ==> reader == Some(schema)
    }

    constructor (database: Metadata, reader: Option<Metadata>, empty: Metadata)
      ensures Valid() && !isSchemaInserted && compareTableConstraints
      ensures this.database == database && this.reader == reader
    {
      this.database := database;
      this.reader := reader;
      this.compareTableConstraints := true;
      this.schema := empty;
      this.isSchemaInserted := false;
    }

    method InsertSchemaInSQLite() returns (ok: bool)
      requires Valid()
      modifies this
      ensures Valid() && ok == reader.Some? == isSchemaInserted
    {
      if !isSchemaInserted {
        if reader.None? {
          return false;
        }
        schema := reader.value;
      }
      isSchemaInserted := true;
      ok := true;
    }

    /** The database's tables with their columns and constraints. */
    method FillDatabaseTables(dbTables: seq<string>)
      returns (columns: map<string, Columns>, constraints: map<string, seq<string>>)
      ensures columns == ColumnsOf(database, dbTables)
      ensures constraints == ConstraintsOf(database, dbTables)
    {
      columns, constraints := map[], map[];
      for i := 0 to |dbTables|
        invariant columns == ColumnsOf(database, dbTables[..i])
        invariant constraints == ConstraintsOf(database, dbTables[..i])
      {
        columns := columns[dbTables[i] := database.columns(dbTables[i])];
        constraints := constraints[dbTables[i] := database.constraints(dbTables[i])];
      }
      assert dbTables[..|dbTables|] == dbTables;
    }

    /** The schema's tables with their columns; their constraints are compared on the way. */
    method FillSchemaTables(dbTables: seq<string>, dbConstraints: map<string, seq<string>>, schemaTables: seq<string>)
      returns (columns: map<string, Columns>, result: SchemaCheckerResult)
      requires dbConstraints == ConstraintsOf(database, dbTables)
      ensures columns == ColumnsOf(schema, schemaTables)
      ensures fresh(result) && result.Valid() && result.warnings == []
      ensures forall e :: e in result.errors <==>
        compareTableConstraints && IsConstraintDifference(e, database, dbTables, schema, schemaTables)
    {
      result := new SchemaCheckerResult();
      columns := map[];
      for i := 0 to |schemaTables|
        invariant columns == ColumnsOf(schema, schemaTables[..i])
        invariant result.Valid() && result.warnings == []
        invariant forall e :: e in result.errors <==>
          compareTableConstraints && IsConstraintDifference(e, database, dbTables, schema, schemaTables[..i])
      {
        var t := schemaTables[i];
        columns := columns[t := schema.columns(t)];
        if compareTableConstraints {
          var items := CompareItems(
            ConstraintIn(t), if t in dbConstraints then dbConstraints[t] else [], schema.constraints(t));
          result.Append(items);
        }
      }
      assert schemaTables[..|schemaTables|] == schemaTables;
    }

    method CompareTableLists(dbTables: seq<string>, schemaTables: seq<string>) returns (result: SchemaCheckerResult)
      ensures fresh(result) && result.Valid() && result.warnings == []
      ensures forall e :: e in result.errors <==>
        IsTableDifference(e, database, dbTables, schema, schemaTables, compareTableConstraints)
    {
      var dbColumns, dbConstraints := FillDatabaseTables(dbTables);
      var schemaColumns;
      schemaColumns, result := FillSchemaTables(dbTables, dbConstraints, schemaTables);
      var missingInSchema := CompareTableColumns(dbColumns, schemaColumns, Schema);
      result.Append(missingInSchema);
      var missingInDatabase := CompareTableColumns(schemaColumns, dbColumns, Database);
      result.Append(missingInDatabase);
    }

    /** Success exactly when the tables, their columns with types and their constraints are the same. */
    method CompareTables() returns (outcome: Outcome)
      requires Valid()
      modifies this
      ensures Valid() && (outcome.Compared? <==> reader.Some?)
      ensures outcome.Compared? ==> outcome.result.Valid() && reader == Some(schema)
      ensures outcome.Compared? ==>
        (outcome.result.status == SUCCESS <==> SameTables(database, schema, compareTableConstraints))
    {
      var ok := InsertSchemaInSQLite();
      if !ok {
        return NoStatementsReader;
      }
      var result := CompareTableLists(database.tables, schema.tables);
      EmptyIff(result.errors, database, database.tables, schema, compareTableConstraints);
      NoDifferenceIff(database, database.tables, schema, compareTableConstraints);
      return Compared(result);
    }

    /** Success exactly when the database has every table of the schema, with the same columns and constraints. */
    method CompareTablesLocatedInSchema() returns (outcome: Outcome)
      requires Valid()
      modifies this
      ensures Valid() && (outcome.Compared? <==> reader.Some?)
      ensures outcome.Compared? ==> outcome.result.Valid() && reader == Some(schema)
      ensures outcome.Compared? ==>
        (outcome.result.status == SUCCESS <==> ContainsSchema(database, schema, compareTableConstraints))
    {
      var ok := InsertSchemaInSQLite();
      if !ok {
        return NoStatementsReader;
      }
      var located := [];
      for i := 0 to |database.tables|
        invariant isSchemaInserted && Valid()
        invariant forall t :: t in located <==> t in database.tables[..i] && t in schema.tables
      {
        if database.tables[i] in schema.tables {
          located := located + [database.tables[i]];
        }
      }
      var result := CompareTableLists(located, schema.tables);
      EmptyIff(result.errors, database, located, schema, compareTableConstraints);
      NoDifferenceIff(database, located, schema, compareTableConstraints);
      return Compared(result);
    }

    method CompareIndexes() returns (outcome: Outcome)
      requires Valid()
      modifies this
      ensures Valid() && (outcome.Compared? <==> reader.Some?)
      ensures outcome.Compared? ==> outcome.result.Valid() && fresh(outcome.result) && reader == Some(schema)
      ensures outcome.Compared? ==>
        (outcome.result.status == SUCCESS <==> SameItems(database.indexes, schema.indexes))
    {
      var ok := InsertSchemaInSQLite();
      if !ok {
        return NoStatementsReader;
      }
      var result := CompareItems(Index, database.indexes, schema.indexes);
      SameItemsIff(result.errors, Index, database.indexes, schema.indexes);
      return Compared(result);
    }

    method CompareAll() returns (outcome: Outcome)
      requires Valid()
      modifies this
      ensures Valid() && (outcome.Compared? <==> reader.Some?)
      ensures outcome.Compared? ==> outcome.result.Valid() && reader == Some(schema)
      ensures outcome.Compared? ==>
        (outcome.result.status == SUCCESS <==>
           SameTables(database, schema, compareTableConstraints) && SameItems(database.indexes, schema.indexes))
    {
      var result := new SchemaCheckerResult();
      var tables := CompareTables();
      if tables.NoStatementsReader? {
        return NoStatementsReader;
      }
      var indexes := CompareIndexes();
      result.Append(tables.result);
      result.Append(indexes.result);
      return Compared(result);
    }
  }

  // ----- what success means -----

  /** The two sides describe this table alike. */
  predicate SameTable(a: Metadata, b: Metadata, t: string, constraints: bool) {
    a.columns(t) == b.columns(t) && (constraints ==> SameItems(a.constraints(t), b.constraints(t)))
  }

  predicate SameTables(a: Metadata, b: Metadata, constraints: bool) {
    SameItems(a.tables, b.tables) && forall t | t in b.tables :: SameTable(a, b, t, constraints)
  }

  predicate ContainsSchema(database: Metadata, schema: Metadata, constraints: bool) {
    forall t | t in schema.tables :: t in database.tables && SameTable(database, schema, t, constraints)
  }

  lemma SameItemsIff(errors: seq<Problem>, kind: Kind, database: seq<string>, schema: seq<string>)
    requires forall e :: e in errors <==> IsItemDifference(e, kind, database, schema)
    ensures errors == [] <==> SameItems(database, schema)
  {
    if errors == [] {
      forall x | x in database ensures x in schema { assert ItemMissing(kind, x, Schema) !in errors; }
      forall x | x in schema ensures x in database { assert ItemMissing(kind, x, Database) !in errors; }
    } else {
      assert errors[0] in errors;
    }
  }

  /** No difference is found exactly when the listed tables are those of the schema, alike on both sides. */
  lemma NoDifferenceIff(database: Metadata, dbTables: seq<string>, schema: Metadata, constraints: bool)
    ensures NoDifference(database, dbTables, schema, constraints) <==>
      SameItems(dbTables, schema.tables) && forall t | t in schema.tables :: SameTable(database, schema, t, constraints)
  {
    if NoDifference(database, dbTables, schema, constraints) {
      forall t | t in dbTables ensures t in schema.tables {
        assert !IsTableDifference(TableMissing(t, Schema), database, dbTables, schema, schema.tables, constraints);
      }
      forall t | t in schema.tables ensures t in dbTables {
        assert !IsTableDifference(TableMissing(t, Database), database, dbTables, schema, schema.tables, constraints);
      }
      forall t | t in schema.tables ensures SameTable(database, schema, t, constraints) {
        SameColumns(database, dbTables, schema, t, constraints);
        if constraints { SameConstraints(database, dbTables, schema, t); }
      }
    }
  }

  ghost predicate NoDifference(database: Metadata, dbTables: seq<string>, schema: Metadata, constraints: bool) {
    forall e :: !IsTableDifference(e, database, dbTables, schema, schema.tables, constraints)
  }

  lemma SameColumns(database: Metadata, dbTables: seq<string>, schema: Metadata, t: string, constraints: bool)
    requires NoDifference(database, dbTables, schema, constraints) && t in dbTables && t in schema.tables
    ensures database.columns(t) == schema.columns(t)
  {
    var a, b := database.columns(t), schema.columns(t);
    forall c | c in a ensures c in b && b[c] == a[c] {
      assert !IsTableDifference(ColumnMissing(t, c, Schema), database, dbTables, schema, schema.tables, constraints);
      if c in b {
        assert !IsTableDifference(TypeDiffers(t, c, Schema, a[c], b[c]), database, dbTables, schema, schema.tables,
          constraints);
      }
    }
    forall c | c in b ensures c in a {
      assert !IsTableDifference(ColumnMissing(t, c, Database), database, dbTables, schema, schema.tables, constraints);
    }
  }

  lemma SameConstraints(database: Metadata, dbTables: seq<string>, schema: Metadata, t: string)
    requires NoDifference(database, dbTables, schema, true) && t in dbTables && t in schema.tables
    ensures SameItems(database.constraints(t), schema.constraints(t))
  {
    forall x | x in database.constraints(t) ensures x in schema.constraints(t) {
      assert !IsTableDifference(ItemMissing(ConstraintIn(t), x, Schema), database, dbTables, schema, schema.tables,
        true);
    }
    forall x | x in schema.constraints(t) ensures x in database.constraints(t) {
      assert !IsTableDifference(ItemMissing(ConstraintIn(t), x, Database), database, dbTables, schema, schema.tables,
        true);
    }
  }

  /** An error list without differences is empty. */
  lemma EmptyIff(errors: seq<Problem>, database: Metadata, dbTables: seq<string>, schema: Metadata, constraints: bool)
    requires forall e :: e in errors <==> IsTableDifference(e, database, dbTables, schema, schema.tables, constraints)
    ensures errors == [] <==> NoDifference(database, dbTables, schema, constraints)
  {
    if errors != [] { assert errors[0] in errors; }
  }
}
