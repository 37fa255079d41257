/**
  The string logic of the `make:migration:pivot` command
  (src/Commands/PivotMigrationMakeCommand.php): the two table names are
  lowercased and sorted, and the pivot table, class and file names and the
  filled stub follow from them. `str_singular` is an uninterpreted
  function; the stub text, the base path and the timestamp are parameters.
 */
module PivotMigrationMakeCommand {
  import opened Wrappers
  import opened Strings
  import SchemaParser

  /** The PHP error of the call to `createPivotSchema`, a method `SyntaxBuilder` does not have. */
  const CreatePivotSchemaMissing := "Call to undefined method Laracasts\\Generators\\Migrations\\SyntaxBuilder::createPivotSchema()"

  // ---------------------------------------------------------------------
  // `getSortedTableNames`

  /** `strcmp` order on strings without numeric content: character by character, a proper prefix first. */
  predicate LessEq(a: string, b: string)
    decreases |a|
  {
    |a| == 0 || (|b| > 0 && (a[0] < b[0] || (a[0] == b[0] && LessEq(a[1..], b[1..]))))
  }

  /** The two lowercased names in ascending order. */
  function SortedTableNames(tableOne: string, tableTwo: string): (r: seq<string>)
    ensures |r| == 2
    ensures LessEq(r[0], r[1])
    ensures multiset(r) == multiset{Lower(tableOne), Lower(tableTwo)}
  {
    var a, b := Lower(tableOne), Lower(tableTwo);
    LessEqTotal(a, b);
    if LessEq(a, b) then [a, b] else [b, a]
  }

  /** `getSortedTableNames`: the lowercased pair, put in order in place. */
  method GetSortedTableNames(tableOne: string, tableTwo: string) returns (tables: seq<string>)
    ensures tables == SortedTableNames(tableOne, tableTwo)
  {
    var a := new string[2];
    a[0] := Lower(tableOne);
    a[1] := Lower(tableTwo);
    if !LessEq(a[0], a[1]) {
      a[0], a[1] := a[1], a[0];
    }
    tables := a[..];
  }

  // ---------------------------------------------------------------------
  // Names and paths

  /** `getPivotTableName`: the singular forms of the sorted names, joined by `_`. */
  function PivotTableName(tableOne: string, tableTwo: string, singular: string -> string): (r: string)
    ensures var a, b := Lower(tableOne), Lower(tableTwo);
      r == if LessEq(a, b) then singular(a) + "_" + singular(b) else singular(b) + "_" + singular(a)
  {
    var tables := SortedTableNames(tableOne, tableTwo);
    var parts := [singular(tables[0]), singular(tables[1])];
    assert Join(parts[1..], "_") == parts[1];
    Join(parts, "_")
  }

  /** `parseName`: `Create`, both singular forms with their words capitalised, `PivotTable`. */
  function ParseName(tableOne: string, tableTwo: string, singular: string -> string): (r: string)
    ensures IsPrefix("Create", r) && EndsWith(r, "PivotTable") && |r| >= 16
    ensures var a, b := Lower(tableOne), Lower(tableTwo);
      r[6..|r| - 10] == if LessEq(a, b) then Ucwords(singular(a)) + Ucwords(singular(b))
                        else Ucwords(singular(b)) + Ucwords(singular(a))
  {
    var tables := SortedTableNames(tableOne, tableTwo);
    "Create" + Ucwords(singular(tables[0])) + Ucwords(singular(tables[1])) + "PivotTable"
  }

  /** The two stubs `getStub` chooses between. */
  datatype PivotStub = PivotSchemaStub | PlainPivotStub

  /** `getStub`: the schema stub exactly when the `--schema` option is truthy. */
  function GetStub(schemaOption: Option<string>): (r: PivotStub)
    ensures r == PivotSchemaStub <==> schemaOption.Some? && schemaOption.value != "" && schemaOption.value != "0"
  {
    if schemaOption.Some? && IsTruthy(schemaOption.value) then PivotSchemaStub else PlainPivotStub
  }

  function StubFile(stub: PivotStub): string {
    match stub
      case PivotSchemaStub => "pivot-schema.stub"
      case PlainPivotStub => "pivot.stub"
  }

  /** `getPath`, with the base path and the formatted date as parameters. */
  function GetPath(basePath: string, timestamp: string, tableOne: string, tableTwo: string, singular: string -> string): (r: string)
    ensures IsPrefix(basePath + "/database/migrations/" + timestamp, r)
    ensures EndsWith(r, "_create_" + PivotTableName(tableOne, tableTwo, singular) + "_pivot_table.php")
    ensures |r| == |basePath| + |timestamp| + |PivotTableName(tableOne, tableTwo, singular)| + 45
  {
    var head := basePath + "/database/migrations/" + timestamp;
    var tail := "_create_" + PivotTableName(tableOne, tableTwo, singular) + "_pivot_table.php";
    assert (head + tail)[..|head|] == head && (head + tail)[|head|..] == tail;
    head + tail
  }

  // ---------------------------------------------------------------------
  // Filling the stub

  /** `replacePivotTableName`. */
  function ReplacePivotTableName(stub: string, tableOne: string, tableTwo: string, singular: string -> string): (r: string)
    ensures r == Join(Pieces(stub, "{{pivotTableName}}"), PivotTableName(tableOne, tableTwo, singular))
    ensures !Contains(stub, "{{pivotTableName}}") ==> r == stub
  {
    ReplaceAllJoinsPieces(stub, "{{pivotTableName}}", PivotTableName(tableOne, tableTwo, singular));
    ReplaceAll(stub, "{{pivotTableName}}", PivotTableName(tableOne, tableTwo, singular))
  }

  /** The four-way `str_replace` of `replaceSchema`, one search string after the other. */
  function FillTables(stub: string, tables: seq<string>, singular: string -> string): string
    requires |tables| == 2
  {
    var s1 := ReplaceAll(stub, "{{columnOne}}", singular(tables[0]));
    var s2 := ReplaceAll(s1, "{{columnTwo}}", singular(tables[1]));
    var s3 := ReplaceAll(s2, "{{tableOne}}", tables[0]);
    ReplaceAll(s3, "{{tableTwo}}", tables[1])
  }

  /** What `replaceSchema` leaves in the stub, or the error it raises on a truthy schema option. */
  function ReplaceSchemaSpec(stub: string, tableOne: string, tableTwo: string, singular: string -> string,
                             schemaOption: Option<string>): Result<string>
  {
    var filled := FillTables(stub, SortedTableNames(tableOne, tableTwo), singular);
    if schemaOption.Some? && IsTruthy(schemaOption.value) then
      match SchemaParser.ParseSpec(schemaOption.value)
        case Err(e) => Err(e)
        case Ok(_) => Err(CreatePivotSchemaMissing)
    else Ok(filled)
  }

  /** `replaceClass`. */
  function ReplaceClass(stub: string, name: string): (r: string)
    ensures r == Join(Pieces(stub, "{{class}}"), name)
    ensures !Contains(stub, "{{class}}") ==> r == stub
  {
    ReplaceAllJoinsPieces(stub, "{{class}}", name);
    ReplaceAll(stub, "{{class}}", name)
  }

  /** What `buildClass` returns: pivot table name, then schema, then class. */
  function BuildClassSpec(stub: string, name: string, tableOne: string, tableTwo: string, singular: string -> string,
                          schemaOption: Option<string>): Result<string>
  {
    match ReplaceSchemaSpec(ReplacePivotTableName(stub, tableOne, tableTwo, singular), tableOne, tableTwo, singular, schemaOption)
      case Err(e) => Err(e)
      case Ok(s) => Ok(ReplaceClass(s, name))
  }

  /** `replaceSchema`: the table placeholders are filled; a truthy schema is parsed and then fails. */
  method ReplaceSchema(stub: string, tableOne: string, tableTwo: string, singular: string -> string,
                       schemaOption: Option<string>) returns (r: Result<string>)
    ensures r == ReplaceSchemaSpec(stub, tableOne, tableTwo, singular, schemaOption)
  {
    var tables := GetSortedTableNames(tableOne, tableTwo);
    var s := ReplaceAll(stub, "{{columnOne}}", singular(tables[0]));
    s := ReplaceAll(s, "{{columnTwo}}", singular(tables[1]));
    s := ReplaceAll(s, "{{tableOne}}", tables[0]);
    s := ReplaceAll(s, "{{tableTwo}}", tables[1]);
    if schemaOption.Some? && IsTruthy(schemaOption.value) {
      var schema := SchemaParser.Parse(schemaOption.value);
      if schema.Err? {
        return Err(schema.message);
      }
      return Err(CreatePivotSchemaMissing);
    }
    r := Ok(s);
  }

  /** `buildClass` on the stub text. */
  method BuildClass(stub: string, name: string, tableOne: string, tableTwo: string, singular: string -> string,
                    schemaOption: Option<string>) returns (r: Result<string>)
    ensures r == BuildClassSpec(stub, name, tableOne, tableTwo, singular, schemaOption)
  {
    var s := ReplacePivotTableName(stub, tableOne, tableTwo, singular);
    var filled := ReplaceSchema(s, tableOne, tableTwo, singular, schemaOption);
    if filled.Err? {
      return Err(filled.message);
    }
    r := Ok(ReplaceClass(filled.value, name));
  }

  // ---------------------------------------------------------------------
  // Properties

  lemma {:induction false} LessEqTotal(a: string, b: string)
    ensures LessEq(a, b) || LessEq(b, a)
    decreases |a|
  {
    if |a| > 0 && |b| > 0 && a[0] == b[0] {
      LessEqTotal(a[1..], b[1..]);
    }
  }

  lemma {:induction false} LessEqAntisymmetric(a: string, b: string)
    requires LessEq(a, b) && LessEq(b, a)
    ensures a == b
    decreases |a|
  {
    if |a| > 0 {
      LessEqAntisymmetric(a[1..], b[1..]);
      assert a == [a[0]] + a[1..] && b == [b[0]] + b[1..];
    }
  }

  /** The sorted pair does not depend on the order the tables are given in. */
  lemma SortedOrderFree(tableOne: string, tableTwo: string)
    ensures SortedTableNames(tableOne, tableTwo) == SortedTableNames(tableTwo, tableOne)
  {
    var a, b := Lower(tableOne), Lower(tableTwo);
    if LessEq(a, b) && LessEq(b, a) {
      LessEqAntisymmetric(a, b);
    }
  }

  /** Hence neither does the pivot table name, */
  lemma PivotTableNameOrderFree(tableOne: string, tableTwo: string, singular: string -> string)
    ensures PivotTableName(tableOne, tableTwo, singular) == PivotTableName(tableTwo, tableOne, singular)
    ensures PivotTableName(tableOne, tableTwo, singular) ==
      singular(SortedTableNames(tableOne, tableTwo)[0]) + "_" + singular(SortedTableNames(tableOne, tableTwo)[1])
  {
    SortedOrderFree(tableOne, tableTwo);
    var tables := SortedTableNames(tableOne, tableTwo);
    var parts := [singular(tables[0]), singular(tables[1])];
    assert parts[1..] == [singular(tables[1])];
    assert Join(parts[1..], "_") == singular(tables[1]);
    assert Join(parts, "_") == parts[0] + "_" + Join(parts[1..], "_");
  }

  /** nor the class name, nor the file name. */
  lemma NamesOrderFree(tableOne: string, tableTwo: string, singular: string -> string, basePath: string, timestamp: string)
    ensures ParseName(tableOne, tableTwo, singular) == ParseName(tableTwo, tableOne, singular)
    ensures GetPath(basePath, timestamp, tableOne, tableTwo, singular) == GetPath(basePath, timestamp, tableTwo, tableOne, singular)
  {
    SortedOrderFree(tableOne, tableTwo);
  }

  /** The class name starts with `Create` and ends with `PivotTable`. */
  lemma ClassNameShape(tableOne: string, tableTwo: string, singular: string -> string)
    ensures IsPrefix("Create", ParseName(tableOne, tableTwo, singular))
    ensures EndsWith(ParseName(tableOne, tableTwo, singular), "PivotTable")
  {
  }

  /** The file name ends in `_create_`, the pivot table name and `_pivot_table.php`. */
  lemma PathSuffix(basePath: string, timestamp: string, tableOne: string, tableTwo: string, singular: string -> string)
    ensures EndsWith(GetPath(basePath, timestamp, tableOne, tableTwo, singular),
                     "_create_" + PivotTableName(tableOne, tableTwo, singular) + "_pivot_table.php")
  {
  }

  /** The stub is built without error exactly when no schema option is given. */
  lemma BuildClassOkIff(stub: string, name: string, tableOne: string, tableTwo: string, singular: string -> string,
                        schemaOption: Option<string>)
    ensures BuildClassSpec(stub, name, tableOne, tableTwo, singular, schemaOption).Ok? <==>
      GetStub(schemaOption) == PlainPivotStub
  {
  }

  /** Without the placeholders a stub passes through the table filling unchanged. */
  lemma FillTablesWithoutPlaceholders(stub: string, tables: seq<string>, singular: string -> string)
    requires |tables| == 2
    requires !Contains(stub, "{{columnOne}}") && !Contains(stub, "{{columnTwo}}")
    requires !Contains(stub, "{{tableOne}}") && !Contains(stub, "{{tableTwo}}")
    ensures FillTables(stub, tables, singular) == stub
  {
    ReplaceAllAbsent(stub, "{{columnOne}}", singular(tables[0]));
    ReplaceAllAbsent(stub, "{{columnTwo}}", singular(tables[1]));
    ReplaceAllAbsent(stub, "{{tableOne}}", tables[0]);
    ReplaceAllAbsent(stub, "{{tableTwo}}", tables[1]);
  }

  /** Every `{{class}}` gets the name and the text between them is kept. */
  lemma ReplaceClassKeepsStub(stub: string, name: string)
    ensures ReplaceClass(stub, name) == Join(Pieces(stub, "{{class}}"), name)
    ensures Join(Pieces(stub, "{{class}}"), "{{class}}") == stub
  {
    ReplaceAllJoinsPieces(stub, "{{class}}", name);
    PiecesRejoin(stub, "{{class}}");
  }
}
