/**
  The migration syntax builder (src/Migrations/SyntaxBuilder.php): it renders
  parsed columns as `$table->...` statements and places them into the
  wrapper templates that the `up` and `down` methods of a migration use.
  The two wrapper stubs are read from disk in the original; here they are
  parameters.
 */
module SyntaxBuilder {
  import opened Wrappers
  import opened Strings
  import opened SchemaOptions
  import opened SchemaParser
  import opened NameParser

  /** The message of the exception raised for an action that is not `create`, `add` or `remove`. */
  const CouldNotDetermine := "Could not determine what you are trying to do. Sorry! Check your migration name."

  /** The placeholder `into` replaces, for the up and the down fragments alike. */
  const Placeholder := "{{schema_up}}"

  /** What `constructSchema` puts between statements: a newline and twelve spaces. */
  const Separator := "\n            "

  /** The `$direction` argument of `constructSchema`, which selects `addColumn` or `dropColumn`. */
  datatype Direction = Add | Drop

  // ---------------------------------------------------------------------
  // Rendering

  /** One option as a chained call: a flag (`true`) gets empty parentheses, a value is written raw. */
  function OptionCall(key: string, value: OptVal): string {
    "->" + key + "(" + (if value.Flag? then "" else value.value) + ")"
  }

  /** The chained calls for all options, in map order. */
  function OptionCalls(options: Options): string
    decreases |options|
  {
    if |options| == 0 then ""
    else OptionCall(options[0].0, options[0].1) + OptionCalls(options[1..])
  }

  /** The start of an add statement: the column type as the method, the name as its only argument. */
  function ColumnCall(c: Column): string {
    "$table->" + c.colType + "('" + c.name + "')"
  }

  /** What `addColumn` returns. */
  function AddStatement(c: Column): string {
    ColumnCall(c) + OptionCalls(c.options) + ";"
  }

  /** What `dropColumn` returns. */
  /** The column's name, and nothing else of it, sits between fixed text. */
  function DropStatement(c: Column): (r: string)
    ensures |r| == |c.name| + 23
    ensures IsPrefix("$table->dropColumn('", r) && EndsWith(r, "');")
    ensures r[20..|r| - 3] == c.name
  {
    "$table->dropColumn('" + c.name + "');"
  }

  function Statement(c: Column, direction: Direction): string {
    match direction
      case Add => AddStatement(c)
      case Drop => DropStatement(c)
  }

  /** The `array_map` inside `constructSchema`. */
  function Statements(schema: seq<Column>, direction: Direction): (r: seq<string>)
    ensures |r| == |schema|
  {
    seq(|schema|, i requires 0 <= i < |schema| => Statement(schema[i], direction))
  }

  /**
    What `constructSchema` returns. An absent schema reaches it as a falsy
    option value and a parsed one as a non-empty array, so an empty sequence
    stands for both falsy cases.
   */
  function Rendering(schema: seq<Column>, direction: Direction): string {
    if |schema| == 0 then "" else Join(Statements(schema, direction), Separator)
  }

  /** What `into` returns for the stored template. */
  function IntoSpec(wrapper: string, template: string): string {
    ReplaceAll(wrapper, Placeholder, template)
  }

  /** What `createSchemaForUpMethod` returns or throws. */
  function UpSpec(schema: seq<Column>, meta: Intent, createWrapper: string, changeWrapper: string): Result<string> {
    if meta.action == Some("create") then Ok(IntoSpec(createWrapper, Rendering(schema, Add)))
    else if meta.action == Some("add") then Ok(IntoSpec(changeWrapper, Rendering(schema, Add)))
    else if meta.action == Some("remove") then Ok(IntoSpec(changeWrapper, Rendering(schema, Drop)))
    else Err(CouldNotDetermine)
  }

  /** What `createSchemaForDownMethod` returns or throws. */
  function DownSpec(schema: seq<Column>, meta: Intent, changeWrapper: string): Result<string> {
    if meta.action == Some("create") then Ok("Schema::drop('" + meta.table + "');")
    else if meta.action == Some("add") then Ok(IntoSpec(changeWrapper, Rendering(schema, Drop)))
    else if meta.action == Some("remove") then Ok(IntoSpec(changeWrapper, Rendering(schema, Add)))
    else Err(CouldNotDetermine)
  }

  /** What `create` returns: the up fragment, then the down fragment; the up method's exception comes first. */
  function CreateSpec(schema: seq<Column>, meta: Intent, createWrapper: string, changeWrapper: string): Result<(string, string)> {
    match UpSpec(schema, meta, createWrapper, changeWrapper)
      case Err(e) => Err(e)
      case Ok(up) =>
        match DownSpec(schema, meta, changeWrapper)
          case Err(e) => Err(e)
          case Ok(down) => Ok((up, down))
  }

  /** The template the up method leaves stored, when it stores one. */
  function UpTemplate(schema: seq<Column>, meta: Intent): string {
    Rendering(schema, if meta.action == Some("remove") then Drop else Add)
  }

  /** The template the down method leaves stored, when it stores one. */
  function DownTemplate(schema: seq<Column>, meta: Intent): string {
    Rendering(schema, if meta.action == Some("add") then Drop else Add)
  }

  /** `addColumn` grows its statement one option call at a time. */
  method AddColumn(c: Column) returns (syntax: string)
    ensures syntax == AddStatement(c)
  {
    syntax := ColumnCall(c);
    var i := 0;
    while i < |c.options|
      invariant 0 <= i <= |c.options|
      invariant syntax == ColumnCall(c) + OptionCalls(c.options[..i])
    {
      OptionCallsSnoc(c.options, i);
      syntax := syntax + OptionCall(c.options[i].0, c.options[i].1);
      i := i + 1;
    }
    assert c.options[..i] == c.options;
    syntax := syntax + ";";
  }

  /** `constructSchema`: one statement per column, in order, joined by the separator. */
  method ConstructSchema(schema: seq<Column>, direction: Direction) returns (r: string)
    ensures r == Rendering(schema, direction)
  {
    if |schema| == 0 {
      return "";
    }
    var fields: seq<string> := [];
    var i := 0;
    while i < |schema|
      invariant 0 <= i <= |schema|
      invariant |fields| == i
      invariant forall k :: 0 <= k < i ==> fields[k] == Statement(schema[k], direction)
    {
      var field;
      if direction == Add {
        field := AddColumn(schema[i]);
      } else {
        field := DropStatement(schema[i]);
      }
      fields := fields + [field];
      i := i + 1;
    }
    assert fields == Statements(schema, direction);
    r := Join(fields, Separator);
  }

  /** The builder, whose only state is the template `insert` stores and `into` reads. */
  class Builder {
    var template: string

    constructor ()
      ensures template == ""
    {
      template := "";
    }

    /** `insert`: store the template. */
    method Insert(t: string)
      modifies this
      ensures template == t
    {
      template := t;
    }

    /** `into`: the wrapper with every placeholder replaced by the stored template. */
    method Into(wrapper: string) returns (r: string)
      ensures r == IntoSpec(wrapper, template)
    {
      r := ReplaceAll(wrapper, Placeholder, template);
    }

    /** `createSchemaForUpMethod`; the template is stored only on the three known actions. */
    method CreateSchemaForUpMethod(schema: seq<Column>, meta: Intent, createWrapper: string, changeWrapper: string)
      returns (r: Result<string>)
      modifies this
      ensures r == UpSpec(schema, meta, createWrapper, changeWrapper)
      ensures template == if r.Ok? then UpTemplate(schema, meta) else old(template)
    {
      var fields := ConstructSchema(schema, Add);
      if meta.action == Some("create") {
        Insert(fields);
        var up := Into(createWrapper);
        return Ok(up);
      }
      if meta.action == Some("add") {
        Insert(fields);
        var up := Into(changeWrapper);
        return Ok(up);
      }
      if meta.action == Some("remove") {
        fields := ConstructSchema(schema, Drop);
        Insert(fields);
        var up := Into(changeWrapper);
        return Ok(up);
      }
      return Err(CouldNotDetermine);
    }

    /** `createSchemaForDownMethod`; `create` and an unknown action leave the template alone. */
    method CreateSchemaForDownMethod(schema: seq<Column>, meta: Intent, changeWrapper: string)
      returns (r: Result<string>)
      modifies this
      ensures r == DownSpec(schema, meta, changeWrapper)
      ensures template == if r.Ok? && meta.action != Some("create") then DownTemplate(schema, meta) else old(template)
    {
      if meta.action == Some("create") {
        return Ok("Schema::drop('" + meta.table + "');");
      }
      if meta.action == Some("add") {
        var fields := ConstructSchema(schema, Drop);
        Insert(fields);
        var down := Into(changeWrapper);
        return Ok(down);
      }
      if meta.action == Some("remove") {
        var fields := ConstructSchema(schema, Add);
        Insert(fields);
        var down := Into(changeWrapper);
        return Ok(down);
      }
      return Err(CouldNotDetermine);
    }

    /** `create`: the up fragment and the down fragment, or the exception. */
    method Create(schema: seq<Column>, meta: Intent, createWrapper: string, changeWrapper: string)
      returns (r: Result<(string, string)>)
      modifies this
      ensures r == CreateSpec(schema, meta, createWrapper, changeWrapper)
      ensures template == if r.Err? then old(template)
        else if meta.action == Some("create") then UpTemplate(schema, meta) else DownTemplate(schema, meta)
    {
      var up := CreateSchemaForUpMethod(schema, meta, createWrapper, changeWrapper);
      if up.Err? {
        return Err(up.message);
      }
      var down := CreateSchemaForDownMethod(schema, meta, changeWrapper);
      r := Ok((up.value, down.value));
    }
  }

  // ---------------------------------------------------------------------
  // Properties

  /** Rendering options is a homomorphism from concatenation of maps to concatenation of strings. */
  lemma {:induction false} OptionCallsAppend(a: Options, b: Options)
    ensures OptionCalls(a + b) == OptionCalls(a) + OptionCalls(b)
    decreases |a|
  {
    if |a| > 0 {
      assert (a + b)[1..] == a[1..] + b;
      OptionCallsAppend(a[1..], b);
    } else {
      assert a + b == b;
    }
  }

  lemma OptionCallsSnoc(options: Options, i: nat)
    requires i < |options|
    ensures OptionCalls(options[..i + 1]) == OptionCalls(options[..i]) + OptionCall(options[i].0, options[i].1)
  {
    assert options[..i + 1] == options[..i] + [options[i]];
    OptionCallsAppend(options[..i], [options[i]]);
  }

  /** Whatever the direction, the rendering is empty exactly when there are no columns. */
  lemma RenderingEmptyIff(schema: seq<Column>, direction: Direction)
    ensures Rendering(schema, direction) == "" <==> |schema| == 0
  {
    if |schema| > 0 {
      var parts := Statements(schema, direction);
      assert |parts[0]| > 0;
      if |parts| > 1 {
        assert Join(parts, Separator) == parts[0] + Separator + Join(parts[1..], Separator);
      }
    }
  }

  /** Adding a column adds one separator and that column's statement at the end, and nothing else. */
  lemma RenderingSnoc(schema: seq<Column>, c: Column, direction: Direction)
    ensures Rendering(schema + [c], direction) ==
      if |schema| == 0 then Statement(c, direction)
      else Rendering(schema, direction) + Separator + Statement(c, direction)
  {
    assert Statements(schema + [c], direction) == Statements(schema, direction) + [Statement(c, direction)];
    JoinSnoc(Statements(schema, direction), Statement(c, direction), Separator);
  }

  /** A non-empty rendering starts with the first statement and ends with the last: no separator at either end. */
  lemma RenderingEnds(schema: seq<Column>, direction: Direction)
    requires |schema| > 0
    ensures IsPrefix(Statement(schema[0], direction), Rendering(schema, direction))
    ensures EndsWith(Rendering(schema, direction), Statement(schema[|schema| - 1], direction))
  {
    JoinEnds(Statements(schema, direction), Separator);
  }

  /** Column arguments never reach the rendering: schemas that differ only in arguments render alike. */
  lemma ArgumentsNeverRendered(s1: seq<Column>, s2: seq<Column>, direction: Direction)
    requires |s1| == |s2|
    requires forall i :: 0 <= i < |s1| ==>
      s1[i].name == s2[i].name && s1[i].colType == s2[i].colType && s1[i].options == s2[i].options
    ensures Rendering(s1, direction) == Rendering(s2, direction)
  {
    assert Statements(s1, direction) == Statements(s2, direction);
  }

  /** The drop rendering depends only on the column names. */
  lemma DropDependsOnlyOnNames(s1: seq<Column>, s2: seq<Column>)
    requires |s1| == |s2|
    requires forall i :: 0 <= i < |s1| ==> s1[i].name == s2[i].name
    ensures Rendering(s1, Drop) == Rendering(s2, Drop)
  {
    assert Statements(s1, Drop) == Statements(s2, Drop);
  }

  /** The add and drop statements of one schema line up: the i-th of each names the i-th column. */
  lemma StatementsAlign(schema: seq<Column>, i: nat)
    requires i < |schema|
    ensures |Statements(schema, Add)| == |Statements(schema, Drop)| == |schema|
    ensures IsPrefix("$table->" + schema[i].colType + "('" + schema[i].name + "')", Statements(schema, Add)[i])
    ensures Statements(schema, Drop)[i] == "$table->dropColumn('" + schema[i].name + "');"
  {
  }

  /** An unrecognised action is an error, never a pair of fragments, and a recognised one never errs. */
  lemma CreateFailsIff(schema: seq<Column>, meta: Intent, createWrapper: string, changeWrapper: string)
    ensures CreateSpec(schema, meta, createWrapper, changeWrapper).Err? <==>
      meta.action != Some("create") && meta.action != Some("add") && meta.action != Some("remove")
    ensures CreateSpec(schema, meta, createWrapper, changeWrapper).Err? ==>
      CreateSpec(schema, meta, createWrapper, changeWrapper).message == CouldNotDetermine
  {
  }

  /** For `create`, up is the create wrapper filled with the add rendering and down drops the table. */
  lemma CreateAction(schema: seq<Column>, table: string, createWrapper: string, changeWrapper: string)
    ensures CreateSpec(schema, Intent(Some("create"), table), createWrapper, changeWrapper) ==
      Ok((IntoSpec(createWrapper, Rendering(schema, Add)), "Schema::drop('" + table + "');"))
  {
  }

  /** `remove` is the mirror of `add`: the fragments swap places, whatever the table. */
  lemma RemoveMirrorsAdd(schema: seq<Column>, t1: string, t2: string, createWrapper: string, changeWrapper: string)
    ensures CreateSpec(schema, Intent(Some("remove"), t1), createWrapper, changeWrapper).Ok?
    ensures CreateSpec(schema, Intent(Some("add"), t2), createWrapper, changeWrapper).Ok?
    ensures CreateSpec(schema, Intent(Some("remove"), t1), createWrapper, changeWrapper).value ==
      (CreateSpec(schema, Intent(Some("add"), t2), createWrapper, changeWrapper).value.1,
       CreateSpec(schema, Intent(Some("add"), t2), createWrapper, changeWrapper).value.0)
  {
  }

  /** `into` keeps the wrapper's text between placeholders and puts the template in each gap. */
  lemma IntoKeepsWrapper(wrapper: string, template: string)
    ensures IntoSpec(wrapper, template) == Join(Pieces(wrapper, Placeholder), template)
    ensures Join(Pieces(wrapper, Placeholder), Placeholder) == wrapper
  {
    ReplaceAllJoinsPieces(wrapper, Placeholder, template);
    PiecesRejoin(wrapper, Placeholder);
  }

  /** A wrapper without the placeholder comes back unchanged. */
  lemma IntoWithoutPlaceholder(wrapper: string, template: string)
    requires !Contains(wrapper, Placeholder)
    ensures IntoSpec(wrapper, template) == wrapper
  {
    ReplaceAllAbsent(wrapper, Placeholder, template);
  }
}
