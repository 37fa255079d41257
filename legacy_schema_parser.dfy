/**
  The older schema parser (src/MigrationSchemaParser.php). It splits the
  schema at every comma, parenthesised or not, and its descriptors have a
  name, a type and options but no arguments.
 */
module MigrationSchemaParser {
  import opened Wrappers
  import opened Strings
  import opened SchemaOptions
  import SchemaParser

  /**
    What the legacy `getDetails` returns. The type is `None` when the field has
    no `:`, where `array_shift` of the emptied segments gives PHP's `null`.
   */
  datatype LegacyColumn = LegacyColumn(name: string, colType: Option<string>, options: Options)

  // ---------------------------------------------------------------------
  // `getFields`: `preg_split('/\s?,\s?/', $schema)`

  /**
    The length of the match of `\s?,\s?` at the start of `s`, or 0 when there
    is none: optionally one whitespace character, the comma, then optionally
    one more whitespace character.
   */
  function MatchLength(s: string): nat {
    if |s| >= 2 && IsSpace(s[0]) && s[1] == ',' then (if |s| >= 3 && IsSpace(s[2]) then 3 else 2)
    else if |s| >= 1 && s[0] == ',' then (if |s| >= 2 && IsSpace(s[1]) then 2 else 1)
    else 0
  }

  function Fields(s: string): (fs: seq<string>)
    ensures |fs| >= 1
    decreases |s|
  {
    if |s| == 0 then [""]
    else if MatchLength(s) > 0 then [""] + Fields(s[MatchLength(s)..])
    else
      var r := Fields(s[1..]);
      [[s[0]] + r[0]] + r[1..]
  }

  /** The text each match consumed. */
  function Separators(s: string): seq<string>
    decreases |s|
  {
    if |s| == 0 then []
    else if MatchLength(s) > 0 then [s[..MatchLength(s)]] + Separators(s[MatchLength(s)..])
    else Separators(s[1..])
  }

  /** The number of commas in `s`. */
  function CommaCount(s: string): nat
    decreases |s|
  {
    if |s| == 0 then 0 else (if s[0] == ',' then 1 else 0) + CommaCount(s[1..])
  }

  /** A separator: the comma with at most one whitespace character on each side. */
  predicate IsSeparator(sep: string) {
    (|sep| == 1 && sep[0] == ',') ||
    (|sep| == 2 && ((IsSpace(sep[0]) && sep[1] == ',') || (sep[0] == ',' && IsSpace(sep[1])))) ||
    (|sep| == 3 && IsSpace(sep[0]) && sep[1] == ',' && IsSpace(sep[2]))
  }

  function Details(field: string): Result<LegacyColumn> {
    var segments := Split(field, ':');
    var tokens := if |segments| > 2 then segments[2..] else [];
    match ParseOptionsSpec(tokens)
      case Err(e) => Err(e)
      case Ok(options) =>
        Ok(LegacyColumn(segments[0], if |segments| > 1 then Some(segments[1]) else None, options))
  }

  function ColumnsOf(fields: seq<string>): Result<seq<LegacyColumn>> {
    Collect(fields, Details)
  }

  function ParseSpec(schema: string): Result<seq<LegacyColumn>> {
    ColumnsOf(Fields(schema))
  }

  /** `getDetails`: name, type and options, shifted off the `:` segments in that order. */
  method GetDetails(field: string) returns (r: Result<LegacyColumn>)
    ensures r == Details(field)
  {
    var segments := Split(field, ':');
    var name := segments[0];
    segments := segments[1..];
    var colType: Option<string> := None;
    if |segments| > 0 {
      colType := Some(segments[0]);
      segments := segments[1..];
    }
    var options := ParseOptions(segments);
    if options.Err? {
      return Err(options.message);
    }
    r := Ok(LegacyColumn(name, colType, options.value));
  }

  /** `parse`: one descriptor per field, appended in order. */
  method Parse(schema: string) returns (r: Result<seq<LegacyColumn>>)
    ensures r == ParseSpec(schema)
  {
    var fields := Fields(schema);
    var columns: seq<LegacyColumn> := [];
    var i := 0;
    while i < |fields|
      invariant 0 <= i <= |fields|
      invariant ColumnsOf(fields[..i]) == Ok(columns)
    {
      CollectStep(fields, Details, i);
      var segments := GetDetails(fields[i]);
      if segments.Err? {
        CollectErrorPersists(fields, Details, i + 1);
        return Err(segments.message);
      }
      columns := columns + [segments.value];
      i := i + 1;
    }
    assert fields[..i] == fields;
    r := Ok(columns);
  }

  // ---------------------------------------------------------------------
  // Properties

  /** Every comma separates: there is one field more than there are commas, and no field holds a comma. */
  lemma {:induction false} EveryCommaSplits(s: string)
    ensures |Fields(s)| == 1 + CommaCount(s)
    ensures forall k :: 0 <= k < |Fields(s)| ==> ',' !in Fields(s)[k]
    decreases |s|
  {
    if |s| > 0 {
      var n := MatchLength(s);
      if n > 0 {
        EveryCommaSplits(s[n..]);
        CommaCountSkip(s, n);
        var fs := Fields(s);
        forall k | 0 <= k < |fs| ensures ',' !in fs[k] {
          if k > 0 { assert fs[k] == Fields(s[n..])[k - 1]; }
        }
      } else {
        EveryCommaSplits(s[1..]);
        var r := Fields(s[1..]);
        var fs := Fields(s);
        forall k | 0 <= k < |fs| ensures ',' !in fs[k] {
          if k > 0 { assert fs[k] == r[k]; }
          else { assert fs[0] == [s[0]] + r[0]; }
        }
      }
    }
  }

  /** A match consumes exactly one comma. */
  lemma CommaCountSkip(s: string, n: nat)
    requires |s| > 0 && n == MatchLength(s) && n > 0
    ensures CommaCount(s) == 1 + CommaCount(s[n..])
  {
    if n >= 2 { assert s[1..][1..] == s[2..]; }
    if n == 3 { assert s[2..][1..] == s[3..]; }
  }

  /** Writing the fields back with the separators between them gives the schema; each separator is a comma with at most one whitespace character on each side. */
  lemma {:induction false} FieldsRejoin(s: string)
    ensures |Separators(s)| + 1 == |Fields(s)|
    ensures SchemaParser.Interleave(Fields(s), Separators(s)) == s
    ensures forall k :: 0 <= k < |Separators(s)| ==> IsSeparator(Separators(s)[k])
    decreases |s|
  {
    if |s| > 0 {
      if MatchLength(s) > 0 {
        FieldsRejoin(s[MatchLength(s)..]);
        RejoinAtMatch(s);
      } else {
        FieldsRejoin(s[1..]);
        RejoinAtChar(s);
      }
    }
  }

  lemma RejoinAtMatch(s: string)
    requires |s| > 0 && MatchLength(s) > 0
    requires var t := s[MatchLength(s)..];
      |Separators(t)| + 1 == |Fields(t)| && SchemaParser.Interleave(Fields(t), Separators(t)) == t &&
      forall k :: 0 <= k < |Separators(t)| ==> IsSeparator(Separators(t)[k])
    ensures |Separators(s)| + 1 == |Fields(s)|
    ensures SchemaParser.Interleave(Fields(s), Separators(s)) == s
    ensures forall k :: 0 <= k < |Separators(s)| ==> IsSeparator(Separators(s)[k])
  {
    var n := MatchLength(s);
    var t := s[n..];
    MatchStep(s);
    MatchIsSeparator(s);
    RejoinAfterSeparator(s, s[..n], t, Fields(t), Separators(t), Fields(s), Separators(s));
  }

  lemma RejoinAtChar(s: string)
    requires |s| > 0 && MatchLength(s) == 0
    requires var t := s[1..];
      |Separators(t)| + 1 == |Fields(t)| && SchemaParser.Interleave(Fields(t), Separators(t)) == t &&
      forall k :: 0 <= k < |Separators(t)| ==> IsSeparator(Separators(t)[k])
    ensures |Separators(s)| + 1 == |Fields(s)|
    ensures SchemaParser.Interleave(Fields(s), Separators(s)) == s
    ensures forall k :: 0 <= k < |Separators(s)| ==> IsSeparator(Separators(s)[k])
  {
    var t := s[1..];
    CharStep(s);
    SchemaParser.InterleaveGrowHead(s[0], Fields(t), Separators(t));
    assert s == [s[0]] + t;
  }

  /** At a match, the fields start with an empty one and the separators with the matched text. */
  lemma MatchStep(s: string)
    requires |s| > 0 && MatchLength(s) > 0
    ensures Fields(s) == [""] + Fields(s[MatchLength(s)..])
    ensures Separators(s) == [s[..MatchLength(s)]] + Separators(s[MatchLength(s)..])
  {
  }

  /** Away from a match, the character joins the first field and the separators are unchanged. */
  lemma CharStep(s: string)
    requires |s| > 0 && MatchLength(s) == 0
    ensures Fields(s) == [[s[0]] + Fields(s[1..])[0]] + Fields(s[1..])[1..]
    ensures Separators(s) == Separators(s[1..])
  {
  }

  /** A separator in front of a rejoining of `t` rejoins `sep + t`. */
  lemma RejoinAfterSeparator(s: string, sep: string, t: string, fs: seq<string>, seps: seq<string>,
                              fs2: seq<string>, seps2: seq<string>)
    requires s == sep + t && IsSeparator(sep)
    requires |seps| + 1 == |fs| && SchemaParser.Interleave(fs, seps) == t
    requires forall k :: 0 <= k < |seps| ==> IsSeparator(seps[k])
    requires fs2 == [""] + fs && seps2 == [sep] + seps
    ensures |seps2| + 1 == |fs2|
    ensures SchemaParser.Interleave(fs2, seps2) == s
    ensures forall k :: 0 <= k < |seps2| ==> IsSeparator(seps2[k])
  {
    assert fs2[1..] == fs && seps2[1..] == seps;
    assert "" + sep == sep;
    forall k | 0 <= k < |seps2| ensures IsSeparator(seps2[k]) {
      if k > 0 { assert seps2[k] == seps[k - 1]; }
    }
  }

  /** What one match of `\s?,\s?` consumes is a separator. */
  lemma MatchIsSeparator(s: string)
    requires MatchLength(s) > 0
    ensures IsSeparator(s[..MatchLength(s)])
  {
  }

  /** Prefixing text that holds no comma and does not end in whitespace extends the first field. */
  lemma {:induction false} FieldsAfterPlainText(a: string, t: string)
    requires ',' !in a
    requires |a| > 0 ==> !IsSpace(a[|a| - 1])
    ensures Fields(a + t) == [a + Fields(t)[0]] + Fields(t)[1..]
    decreases |a|
  {
    if |a| == 0 {
      assert a + t == t;
      assert a + Fields(t)[0] == Fields(t)[0];
      assert Fields(t) == [Fields(t)[0]] + Fields(t)[1..];
    } else {
      assert (a + t)[1..] == a[1..] + t;
      assert (a + t)[0] == a[0];
      if |a| == 1 {
        assert !IsSpace((a + t)[0]);
      } else {
        assert (a + t)[1] == a[1];
      }
      assert MatchLength(a + t) == 0;
      FieldsAfterPlainText(a[1..], t);
      assert [a[0]] + (a[1..] + Fields(t)[0]) == a + Fields(t)[0];
    }
  }

  lemma {:induction false} NoCommaOneField(s: string)
    requires ',' !in s
    ensures Fields(s) == [s]
    decreases |s|
  {
    if |s| > 0 {
      NoCommaOneField(s[1..]);
      assert s == [s[0]] + s[1..];
    }
  }

  /**
    Unlike the current parser, a comma inside parentheses splits:
    `amount:decimal(5,2)` gives the two fields `amount:decimal(5` and `2)`,
    where the current parser keeps the one field.
   */
  lemma ParenthesisedCommaSplits(a: string, y: string, s: string)
    requires ',' !in a && ',' !in y
    requires '(' !in y && ')' !in y
    requires |a| > 0 && !IsSpace(a[|a| - 1])
    requires |y| > 0 ==> !IsSpace(y[0])
    requires s == a + "," + y + ")"
    ensures Fields(s) == [a, y + ")"]
    ensures SchemaParser.GetFields(s) == [s]
  {
    var rest := y + ")";
    assert s == a + "," + rest;
    assert rest[0] == if |y| > 0 then y[0] else ')';
    assert ',' !in rest;
    OneComma(a, rest);
    SchemaParser.ParenthesisedCommaKept(a, y, s);
  }

  /** Comma-free text on both sides of a comma with no whitespace next to it gives exactly those two fields. */
  lemma OneComma(a: string, rest: string)
    requires ',' !in a && ',' !in rest
    requires |a| > 0 && !IsSpace(a[|a| - 1])
    requires |rest| > 0 && !IsSpace(rest[0])
    ensures Fields(a + "," + rest) == [a, rest]
  {
    CommaThenText(rest);
    FieldsAfterPlainText(a, "," + rest);
    assert a + "" == a;
    assert a + ("," + rest) == a + "," + rest;
  }

  /** A comma followed by comma-free text that does not start with whitespace splits off that text. */
  lemma CommaThenText(rest: string)
    requires ',' !in rest && |rest| > 0 && !IsSpace(rest[0])
    ensures Fields("," + rest) == ["", rest]
  {
    var tail := "," + rest;
    assert tail[1..] == rest;
    assert MatchLength(tail) == 1;
    NoCommaOneField(rest);
  }

  /**
    The legacy parser agrees with the current one on the name and the options of
    a field, and on a type without `(`; where the legacy type is `null`, the
    current parser's type is `""`.
   */
  lemma AgreesWithCurrentParser(field: string)
    requires Details(field).Ok?
    ensures SchemaParser.Details(field).Ok?
    ensures Details(field).value.name == SchemaParser.Details(field).value.name
    ensures Details(field).value.options == SchemaParser.Details(field).value.options
    ensures Details(field).value.colType.None? ==>
      SchemaParser.Details(field).value.colType == "" && SchemaParser.Details(field).value.arguments == []
    ensures Details(field).value.colType.Some? && '(' !in Details(field).value.colType.value ==>
      Details(field).value.colType.value == SchemaParser.Details(field).value.colType &&
      SchemaParser.Details(field).value.arguments == []
  {
    var c := Details(field).value;
    var plain := if c.colType.Some? then c.colType.value else "";
    if '(' !in plain {
      SchemaParser.PlainTypeNoMatch(plain);
    }
  }

  /** The legacy type is `null` exactly when the field has no `:`; otherwise it is the second `:` segment. */
  lemma MissingTypeIsNull(field: string)
    requires Details(field).Ok?
    ensures Details(field).value.colType.None? <==> ':' !in field
    ensures Details(field).value.colType.Some? ==> Details(field).value.colType.value == Split(field, ':')[1]
  {
    SplitHead(field, ':');
    var h := Split(field, ':')[0];
    if |h| < |field| {
      assert field[|h|] == ':';
    }
  }
}
