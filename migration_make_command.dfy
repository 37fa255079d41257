/**
  The string logic of the `make:migration:schema` command
  (src/Commands/MigrationMakeCommand.php): the `$fillable`/`$casts` text it
  injects into a model, and the order in which it fills the migration stub.
  Files, the console and the clock are left out; file contents and stubs are
  parameters, and `Str::camel` is an uninterpreted function.
 */
module MigrationMakeCommand {
  import opened Wrappers
  import opened Strings
  import opened SchemaParser
  import NameParser
  import SyntaxBuilder

  /** The PHP error raised when `$rawSchema`, a typed property, is read before anything was stored in it. */
  const RawSchemaUninitialised := "Typed property Laracasts\\Generators\\Commands\\MigrationMakeCommand::$rawSchema must not be accessed before initialization"

  const CastsHeader := "\n    protected $casts = ["
  const CastsFooter := "    ];\n"
  const FillableHead := "\n    protected $fillable = "

  // ---------------------------------------------------------------------
  // `quotedString`, `quotedValues`

  /** `quotedString`: the value between single quotes, with nothing escaped. */
  function QuotedString(value: string): (r: string)
    ensures |r| == |value| + 2 && r[0] == '\'' && r[|r| - 1] == '\''
    ensures r[1..|r| - 1] == value
  {
    "'" + value + "'"
  }

  function QuotedList(values: seq<string>): (r: seq<string>)
    ensures |r| == |values|
  {
    seq(|values|, i requires 0 <= i < |values| => QuotedString(values[i]))
  }

  /** `quotedValues`: a PHP array literal of the quoted values. */
  function QuotedValues(values: seq<string>): string {
    "[" + Join(QuotedList(values), ", ") + "]"
  }

  // ---------------------------------------------------------------------
  // `getCasts`

  /** The filter of `getCasts`: the type, lowercased, mentions `datetime` or `timestamp`. */
  predicate IsDateColumn(c: Column) {
    Contains(Lower(c.colType), "datetime") || Contains(Lower(c.colType), "timestamp")
  }

  /** `array_filter` with that predicate: the date columns, in schema order. */
  function CastFields(schema: seq<Column>): (r: seq<Column>)
    ensures |r| <= |schema|
    ensures forall c :: c in r <==> c in schema && IsDateColumn(c)
    decreases |schema|
  {
    if |schema| == 0 then []
    else (if IsDateColumn(schema[0]) then [schema[0]] else []) + CastFields(schema[1..])
  }

  function CastEntry(c: Column): string {
    "\n        '" + c.name + "' => 'datetime',\n"
  }

  function CastEntries(columns: seq<Column>): string
    decreases |columns|
  {
    if |columns| == 0 then "" else CastEntry(columns[0]) + CastEntries(columns[1..])
  }

  /** What `getCasts` returns for a schema. */
  function CastsText(schema: seq<Column>): string {
    var fields := CastFields(schema);
    if |fields| == 0 then "" else CastsHeader + CastEntries(fields) + CastsFooter
  }

  // ---------------------------------------------------------------------
  // The `$fillable` injection in `makeModel`

  function Names(schema: seq<Column>): (r: seq<string>)
    ensures |r| == |schema|
  {
    seq(|schema|, i requires 0 <= i < |schema| => schema[i].name)
  }

  function FillableText(names: seq<string>): string {
    FillableHead + QuotedValues(names) + ";\n"
  }

  /** `strrpos` for one character. */
  function LastIndex(s: string, c: char): (r: Option<nat>)
    ensures r.None? <==> c !in s
    ensures r.Some? ==> r.value < |s| && s[r.value] == c && forall j :: r.value < j < |s| ==> s[j] != c
    decreases |s|
  {
    if |s| == 0 then None
    else if s[|s| - 1] == c then Some(|s| - 1)
    else LastIndex(s[..|s| - 1], c)
  }

  /** `Str::replaceLast` for a one-character search: the subject is unchanged when the character is absent. */
  function ReplaceLast(c: char, replace: string, subject: string): string {
    match LastIndex(subject, c)
      case None => subject
      case Some(p) => subject[..p] + replace + subject[p + 1..]
  }

  /** The injection applies to non-empty column lists and to model files without `$fillable`. */
  predicate InjectionApplies(contents: string, names: seq<string>) {
    |names| > 0 && !Contains(contents, "$fillable")
  }

  /** The model file's contents after `makeModel`, given the column names and the casts text. */
  function Injected(contents: string, names: seq<string>, casts: string): string {
    if InjectionApplies(contents, names) then ReplaceLast('}', FillableText(names) + casts, contents) + "}\n"
    else contents
  }

  // ---------------------------------------------------------------------
  // The migration stub

  /** `ucwords(Str::camel($name))`, the class name of the migration. */
  function ClassName(camel: string -> string, name: string): string {
    Ucwords(camel(name))
  }

  /** The schema `replaceSchema` hands to the builder: parsed when the option is truthy, falsy otherwise. */
  function SchemaOf(schemaOption: Option<string>): Result<seq<Column>> {
    if schemaOption.Some? && IsTruthy(schemaOption.value) then SchemaParser.ParseSpec(schemaOption.value) else Ok([])
  }

  /** `str_replace` with two search strings: the first replacement is made, then the second on its result. */
  function FillSchema(stub: string, up: string, down: string): string {
    ReplaceAll(ReplaceAll(stub, "{{schema_up}}", up), "{{schema_down}}", down)
  }

  /** What `compileMigrationStub` returns: the class name, then the schema, then the table. */
  function CompileSpec(name: string, schemaOption: Option<string>, camel: string -> string,
                       stub: string, createWrapper: string, changeWrapper: string): Result<string>
  {
    var meta := NameParser.ParseSpec(name);
    var classed := ReplaceAll(stub, "{{class}}", ClassName(camel, name));
    match SchemaOf(schemaOption)
      case Err(e) => Err(e)
      case Ok(schema) =>
        match SyntaxBuilder.CreateSpec(schema, meta, createWrapper, changeWrapper)
          case Err(e) => Err(e)
          case Ok(fragments) =>
            Ok(ReplaceAll(FillSchema(classed, fragments.0, fragments.1), "{{table}}", meta.table))
  }

  /**
    The command as far as its string logic goes: the `name` argument, the
    `--schema` option, the intent parsed from the name, and the schema saved
    for the model.
   */
  class Command {
    const name: string
    const schemaOption: Option<string>
    const camel: string -> string
    var meta: NameParser.Intent
    var rawSchema: Option<seq<Column>>

    /** The command as `fire` starts it: the name is parsed, and nothing is stored in `$rawSchema` yet. */
    constructor (name: string, schemaOption: Option<string>, camel: string -> string)
      ensures this.name == name && this.schemaOption == schemaOption && this.camel == camel
      ensures meta == NameParser.ParseSpec(name) && rawSchema == None
    {
      this.name := name;
      this.schemaOption := schemaOption;
      this.camel := camel;
      meta := NameParser.ParseSpec(name);
      rawSchema := None;
    }

    /** `getCasts`: the header, one entry per date column, the footer; nothing when there is no date column. */
    method GetCasts() returns (casts: string)
      requires rawSchema.Some?
      ensures casts == CastsText(rawSchema.value)
    {
      var castFields := CastFields(rawSchema.value);
      if |castFields| == 0 {
        return "";
      }
      casts := CastsHeader;
      var i := 0;
      while i < |castFields|
        invariant 0 <= i <= |castFields|
        invariant casts == CastsHeader + CastEntries(castFields[..i])
      {
        CastEntriesSnoc(castFields, i);
        casts := casts + CastEntry(castFields[i]);
        i := i + 1;
      }
      assert castFields[..i] == castFields;
      casts := casts + CastsFooter;
    }

    /** The new contents of the model file `makeModel` writes, or the error of reading an unset `$rawSchema`. */
    method MakeModel(contents: string) returns (r: Result<string>)
      ensures rawSchema.None? ==> r == Err(RawSchemaUninitialised)
      ensures rawSchema.Some? ==> r == Ok(Injected(contents, Names(rawSchema.value), CastsText(rawSchema.value)))
    {
      if rawSchema.None? {
        return Err(RawSchemaUninitialised);
      }
      var columnNames := Names(rawSchema.value);
      if |columnNames| == 0 {
        return Ok(contents);
      }
      var fillable := FillableText(columnNames);
      var casts := GetCasts();
      if !Contains(contents, "$fillable") {
        return Ok(ReplaceLast('}', fillable + casts, contents) + "}\n");
      }
      return Ok(contents);
    }

    /** `replaceClassName`. */
    method ReplaceClassName(stub: string) returns (r: string)
      ensures r == ReplaceAll(stub, "{{class}}", ClassName(camel, name))
    {
      r := ReplaceAll(stub, "{{class}}", Ucwords(camel(name)));
    }

    /** `replaceTableName`. */
    method ReplaceTableName(stub: string) returns (r: string)
      ensures r == ReplaceAll(stub, "{{table}}", meta.table)
    {
      r := ReplaceAll(stub, "{{table}}", meta.table);
    }

    /** `replaceSchema`: a truthy option is parsed and saved, then both fragments are put into the stub. */
    method ReplaceSchema(stub: string, createWrapper: string, changeWrapper: string) returns (r: Result<string>)
      modifies this
      ensures meta == old(meta)
      ensures rawSchema == if SchemaOf(schemaOption).Ok? && schemaOption.Some? && IsTruthy(schemaOption.value)
        then Some(SchemaOf(schemaOption).value) else old(rawSchema)
      ensures SchemaOf(schemaOption).Err? ==> r == Err(SchemaOf(schemaOption).message)
      ensures SchemaOf(schemaOption).Ok? ==>
        r == match SyntaxBuilder.CreateSpec(SchemaOf(schemaOption).value, meta, createWrapper, changeWrapper)
          case Err(e) => Err(e)
          case Ok(fragments) => Ok(FillSchema(stub, fragments.0, fragments.1))
    {
      var schema: seq<Column> := [];
      if schemaOption.Some? && IsTruthy(schemaOption.value) {
        var parsed := SchemaParser.Parse(schemaOption.value);
        if parsed.Err? {
          return Err(parsed.message);
        }
        schema := parsed.value;
        rawSchema := Some(schema);
      }
      var builder := new SyntaxBuilder.Builder();
      var fragments := builder.Create(schema, meta, createWrapper, changeWrapper);
      if fragments.Err? {
        return Err(fragments.message);
      }
      r := Ok(FillSchema(stub, fragments.value.0, fragments.value.1));
    }

    /** `compileMigrationStub`: class name, then schema, then table, on the stub text. */
    method CompileMigrationStub(stub: string, createWrapper: string, changeWrapper: string) returns (r: Result<string>)
      requires meta == NameParser.ParseSpec(name)
      modifies this
      ensures meta == old(meta)
      ensures rawSchema == if SchemaOf(schemaOption).Ok? && schemaOption.Some? && IsTruthy(schemaOption.value)
        then Some(SchemaOf(schemaOption).value) else old(rawSchema)
      ensures r == CompileSpec(name, schemaOption, camel, stub, createWrapper, changeWrapper)
    {
      var s := ReplaceClassName(stub);
      var filled := ReplaceSchema(s, createWrapper, changeWrapper);
      if filled.Err? {
        return Err(filled.message);
      }
      var done := ReplaceTableName(filled.value);
      r := Ok(done);
    }
  }

  // ---------------------------------------------------------------------
  // Properties

  /** `quotedValues` of nothing is `[]`. */
  lemma QuotedValuesEmpty()
    ensures QuotedValues([]) == "[]"
  {
    assert QuotedList([]) == [];
  }

  /** One more value adds `, ` and that value in quotes before the closing bracket. */
  lemma QuotedValuesSnoc(values: seq<string>, v: string)
    requires |values| > 0
    ensures QuotedValues(values + [v]) == "[" + Join(QuotedList(values), ", ") + ", " + QuotedString(v) + "]"
  {
    assert QuotedList(values + [v]) == QuotedList(values) + [QuotedString(v)];
    JoinSnoc(QuotedList(values), QuotedString(v), ", ");
  }

  lemma {:induction false} CastEntriesAppend(a: seq<Column>, b: seq<Column>)
    ensures CastEntries(a + b) == CastEntries(a) + CastEntries(b)
    decreases |a|
  {
    if |a| > 0 {
      assert (a + b)[1..] == a[1..] + b;
      CastEntriesAppend(a[1..], b);
    } else {
      assert a + b == b;
    }
  }

  lemma CastEntriesSnoc(columns: seq<Column>, i: nat)
    requires i < |columns|
    ensures CastEntries(columns[..i + 1]) == CastEntries(columns[..i]) + CastEntry(columns[i])
  {
    assert columns[..i + 1] == columns[..i] + [columns[i]];
    CastEntriesAppend(columns[..i], [columns[i]]);
  }

  /** Filtering keeps schema order: a column appended to the schema is appended to the casts exactly when it is a date column. */
  lemma {:induction false} CastFieldsSnoc(schema: seq<Column>, c: Column)
    ensures CastFields(schema + [c]) == CastFields(schema) + (if IsDateColumn(c) then [c] else [])
    decreases |schema|
  {
    if |schema| == 0 {
      assert schema + [c] == [c];
    } else {
      assert (schema + [c])[1..] == schema[1..] + [c];
      CastFieldsSnoc(schema[1..], c);
    }
  }

  /** `getCasts` is empty exactly when no column type mentions `datetime` or `timestamp`, in any case. */
  lemma CastsEmptyIff(schema: seq<Column>)
    ensures CastsText(schema) == "" <==> forall i :: 0 <= i < |schema| ==> !IsDateColumn(schema[i])
  {
    var fields := CastFields(schema);
    if exists i :: 0 <= i < |schema| && IsDateColumn(schema[i]) {
      var i :| 0 <= i < |schema| && IsDateColumn(schema[i]);
      assert schema[i] in fields;
    }
    if |fields| > 0 {
      assert fields[0] in fields;
      var i :| 0 <= i < |schema| && schema[i] == fields[0];
      assert IsDateColumn(schema[i]);
    }
  }

  /** The date test ignores case. */
  lemma DateTestIgnoresCase(c: Column, d: Column)
    requires Lower(c.colType) == Lower(d.colType)
    ensures IsDateColumn(c) <==> IsDateColumn(d)
  {
  }

  /** The model file changes exactly when the injection applies. */
  lemma InjectionChangesIff(contents: string, names: seq<string>, casts: string)
    ensures Injected(contents, names, casts) != contents <==> InjectionApplies(contents, names)
  {
    if InjectionApplies(contents, names) {
      var t := ReplaceLast('}', FillableText(names) + casts, contents);
      assert |t| >= |contents|;
      assert |Injected(contents, names, casts)| == |t| + 2;
    }
  }

  /** When it applies, the text before the last `}` is kept, that `}` becomes the inserted text, and `}\n` ends the file. */
  lemma InjectionShape(contents: string, names: seq<string>, casts: string, p: nat)
    requires InjectionApplies(contents, names)
    requires p < |contents| && contents[p] == '}' && forall j :: p < j < |contents| ==> contents[j] != '}'
    ensures Injected(contents, names, casts) == contents[..p] + FillableText(names) + (casts + contents[p + 1..] + "}\n")
  {
    var inserted := FillableText(names) + casts;
    ReplaceLastAt('}', inserted, contents, p);
    var replaced := ReplaceLast('}', inserted, contents);
    assert Injected(contents, names, casts) == replaced + "}\n";
    assert replaced + "}\n" == contents[..p] + FillableText(names) + (casts + contents[p + 1..] + "}\n");
  }

  /** `Str::replaceLast` replaces the character at its last occurrence. */
  lemma ReplaceLastAt(c: char, replace: string, s: string, p: nat)
    requires p < |s| && s[p] == c && forall j :: p < j < |s| ==> s[j] != c
    ensures ReplaceLast(c, replace, s) == s[..p] + replace + s[p + 1..]
  {
    var r := LastIndex(s, c);
    assert r.Some? && r.value == p;
  }

  /** A model file without any `}` gets only `}\n` appended: `Str::replaceLast` finds nothing to replace. */
  lemma InjectionWithoutBrace(contents: string, names: seq<string>, casts: string)
    requires InjectionApplies(contents, names) && '}' !in contents
    ensures Injected(contents, names, casts) == contents + "}\n"
  {
  }

  lemma FillableTextNamesFillable(names: seq<string>)
    ensures Contains(FillableText(names), "$fillable")
  {
    var rest := " = " + QuotedValues(names) + ";\n";
    assert FillableText(names) == "\n    protected " + "$fillable" + rest;
    ContainsMiddle("\n    protected ", "$fillable", rest);
  }

  /** After an injection into a file with a `}`, the file mentions `$fillable`. */
  lemma InjectedMentionsFillable(contents: string, names: seq<string>, casts: string)
    requires InjectionApplies(contents, names) && '}' in contents
    ensures Contains(Injected(contents, names, casts), "$fillable")
  {
    var p := LastIndex(contents, '}').value;
    InjectionShape(contents, names, casts, p);
    FillableBetween(Injected(contents, names, casts), contents[..p], names, casts + contents[p + 1..] + "}\n");
  }

  /** Any text with the `$fillable` declaration in it mentions `$fillable`. */
  lemma FillableBetween(s: string, head: string, names: seq<string>, tail: string)
    requires s == head + FillableText(names) + tail
    ensures Contains(s, "$fillable")
  {
    FillableTextNamesFillable(names);
    ContainsWithin(head, FillableText(names), tail, "$fillable");
  }

  /** Injecting a second time changes nothing, because the first injection wrote `$fillable`. */
  lemma InjectionIdempotent(contents: string, names: seq<string>, casts: string)
    requires '}' in contents
    ensures Injected(Injected(contents, names, casts), names, casts) == Injected(contents, names, casts)
  {
    if InjectionApplies(contents, names) {
      InjectedMentionsFillable(contents, names, casts);
    }
  }

  /** The compiled stub is an error exactly when the schema does not parse or the action is not recognised. */
  lemma CompileFailsIff(name: string, schemaOption: Option<string>, camel: string -> string,
                        stub: string, createWrapper: string, changeWrapper: string)
    ensures CompileSpec(name, schemaOption, camel, stub, createWrapper, changeWrapper).Err? <==>
      SchemaOf(schemaOption).Err? ||
      (var a := NameParser.ParseSpec(name).action; a != Some("create") && a != Some("add") && a != Some("remove"))
  {
    if SchemaOf(schemaOption).Ok? {
      SyntaxBuilder.CreateFailsIff(SchemaOf(schemaOption).value, NameParser.ParseSpec(name), createWrapper, changeWrapper);
    }
  }

  /**
    The table is filled last, so a stub that is only the up placeholder
    becomes the up fragment with `{{schema_down}}` and `{{table}}` inside it
    filled too.
   */
  lemma FragmentsFilledLast(name: string, schemaOption: Option<string>, camel: string -> string,
                            stub: string, createWrapper: string, changeWrapper: string)
    requires stub == SyntaxBuilder.Placeholder
    requires CompileSpec(name, schemaOption, camel, stub, createWrapper, changeWrapper).Ok?
    ensures var meta := NameParser.ParseSpec(name);
      var fragments := SyntaxBuilder.CreateSpec(SchemaOf(schemaOption).value, meta, createWrapper, changeWrapper).value;
      CompileSpec(name, schemaOption, camel, stub, createWrapper, changeWrapper).value ==
        ReplaceAll(ReplaceAll(fragments.0, "{{schema_down}}", fragments.1), "{{table}}", meta.table)
  {
    PlaceholderHasNoClassToken(ClassName(camel, name));
    var meta := NameParser.ParseSpec(name);
    var fragments := SyntaxBuilder.CreateSpec(SchemaOf(schemaOption).value, meta, createWrapper, changeWrapper).value;
    ReplaceAllWhole(SyntaxBuilder.Placeholder, fragments.0);
  }

  lemma PlaceholderHasNoClassToken(className: string)
    ensures ReplaceAll(SyntaxBuilder.Placeholder, "{{class}}", className) == SyntaxBuilder.Placeholder
  {
    var p := "{{class}}";
    assert p[3] == 'l';
    MissingCharAbsent(SyntaxBuilder.Placeholder, p, 3);
    ReplaceAllAbsent(SyntaxBuilder.Placeholder, p, className);
  }
}
