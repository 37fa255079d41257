/**
  The schema parser (src/Migrations/SchemaParser.php): a schema such as
  `name:string, age:integer:nullable, amount:decimal(5,2):default(0)` becomes
  one column descriptor per field, in order.
 */
module SchemaParser {
  import opened Wrappers
  import opened Strings
  import opened SchemaOptions

  /**
    What `getDetails` returns. A field without `:` has no type; PHP's
    `array_shift` then yields `null`, which every consumer here uses as the
    empty string, so the model stores `""`.
   */
  datatype Column = Column(name: string, colType: string, arguments: seq<string>, options: Options)

  // ---------------------------------------------------------------------
  // `getFields`: `preg_split('/,\s?(?![^()]*\))/', $schema)`

  /** The first parenthesis character of `s`, if there is one. */
  function NextParen(s: string): (r: Option<char>)
    ensures r.Some? ==> r.value in s && (r.value == '(' || r.value == ')')
    ensures r.None? ==> '(' !in s && ')' !in s
    decreases |s|
  {
    if |s| == 0 then None
    else if s[0] == '(' || s[0] == ')' then Some(s[0])
    else NextParen(s[1..])
  }

  /**
    The regex matches at the start of `s`: a comma whose lookahead does not
    see a `)` before any `(`. Consuming the one optional whitespace character
    does not change what the lookahead sees, since that character is not a
    parenthesis.
   */
  predicate SplitsHere(s: string) {
    |s| > 0 && s[0] == ',' && NextParen(s[1..]) != Some(')')
  }

  /** How much of `s` the separator at its start consumes: the comma and at most one whitespace character. */
  function SepLength(s: string): nat
    requires SplitsHere(s)
  {
    if |s| > 1 && IsSpace(s[1]) then 2 else 1
  }

  /** The pieces `preg_split` returns, scanning left to right. */
  function GetFields(s: string): (fs: seq<string>)
    ensures |fs| >= 1
    decreases |s|
  {
    if |s| == 0 then [""]
    else if SplitsHere(s) then [""] + GetFields(s[SepLength(s)..])
    else
      var r := GetFields(s[1..]);
      [[s[0]] + r[0]] + r[1..]
  }

  /** The text each match consumed, in order: the separators between the fields. */
  function Separators(s: string): seq<string>
    decreases |s|
  {
    if |s| == 0 then []
    else if SplitsHere(s) then [s[..SepLength(s)]] + Separators(s[SepLength(s)..])
    else Separators(s[1..])
  }

  /** The number of positions where the regex can match. */
  function CountSplits(s: string): nat
    decreases |s|
  {
    if |s| == 0 then 0
    else (if SplitsHere(s) then 1 else 0) + CountSplits(s[1..])
  }

  /** Fields written back with their separators between them. */
  function Interleave(fs: seq<string>, seps: seq<string>): string
    requires |seps| + 1 == |fs|
    decreases |seps|
  {
    if |seps| == 0 then fs[0] else fs[0] + seps[0] + Interleave(fs[1..], seps[1..])
  }

  // ---------------------------------------------------------------------
  // `getDetails`: the type regex `/(.+?)\(([^)]+)\)/`

  /**
    The regex can put its `(` at `n`: some character other than a line feed
    before it (`.` does not match `\n`), a character other than `)` after it,
    and a `)` later.
   */
  predicate TypeOpens(t: string, n: nat) {
    1 <= n && n + 1 < |t| && t[n] == '(' && t[n - 1] != '\n' && t[n + 1] != ')' && ')' in t[n + 1..]
  }

  function FirstTypeOpen(t: string, n: nat): (r: Option<nat>)
    ensures r.None? ==> forall p :: n <= p < |t| ==> !TypeOpens(t, p)
    ensures r.Some? ==> n <= r.value < |t| && TypeOpens(t, r.value)
    ensures r.Some? ==> forall p :: n <= p < r.value ==> !TypeOpens(t, p)
    decreases |t| - n
  {
    if n >= |t| then None
    else if TypeOpens(t, n) then Some(n)
    else FirstTypeOpen(t, n + 1)
  }

  /** The position just after the last line feed before `n`. */
  function LineStart(t: string, n: nat): (s: nat)
    requires n <= |t|
    ensures s <= n
    ensures forall i :: s <= i < n ==> t[i] != '\n'
    ensures s == 0 || t[s - 1] == '\n'
  {
    if n == 0 || t[n - 1] == '\n' then n else LineStart(t, n - 1)
  }

  /**
    `(matches[1], matches[2])` of the type regex. The leftmost match begins at
    the start of the line of the first usable `(`; the lazy `.+?` stops at
    that `(`, and `[^)]+` runs to the first `)` after it.
   */
  function TypeMatch(t: string): Option<(string, string)> {
    match FirstTypeOpen(t, 0)
      case None => None
      case Some(n) => Some(MatchAt(t, n))
  }

  /** The two groups of the match whose `(` is at `n`. */
  function MatchAt(t: string, n: nat): (string, string)
    requires TypeOpens(t, n)
  {
    (t[LineStart(t, n)..n], t[n + 1..n + 1 + FirstIndex(t[n + 1..], ')')])
  }

  /** `getDetails` on one field. */
  function Details(field: string): Result<Column> {
    var segments := Split(field, ':');
    var name := segments[0];
    var rawType := if |segments| > 1 then segments[1] else "";
    var tokens := if |segments| > 2 then segments[2..] else [];
    match ParseOptionsSpec(tokens)
      case Err(e) => Err(e)
      case Ok(options) =>
        match TypeMatch(rawType)
          case None => Ok(Column(name, rawType, [], options))
          case Some(m) => Ok(Column(name, m.0, Split(m.1, ','), options))
  }

  /** The descriptors of the fields in order, or the first field's error. */
  function ColumnsOf(fields: seq<string>): Result<seq<Column>> {
    Collect(fields, Details)
  }

  function ParseSpec(schema: string): Result<seq<Column>> {
    ColumnsOf(GetFields(schema))
  }

  // ---------------------------------------------------------------------
  // The parser as written

  /** `getDetails`: shift the name and the type off the segments, parse the rest as options. */
  method GetDetails(field: string) returns (r: Result<Column>)
    ensures r == Details(field)
  {
    var segments := Split(field, ':');
    var name := segments[0];
    segments := segments[1..];
    var rawType := "";
    if |segments| > 0 {
      rawType := segments[0];
      segments := segments[1..];
    }
    var options := ParseOptions(segments);
    if options.Err? {
      return Err(options.message);
    }
    var arguments: seq<string> := [];
    var m := TypeMatch(rawType);
    if m.Some? {
      rawType := m.value.0;
      arguments := Split(m.value.1, ',');
    }
    r := Ok(Column(name, rawType, arguments, options.value));
  }

  /** `parse`: one descriptor per field, appended in order. */
  method Parse(schema: string) returns (r: Result<seq<Column>>)
    ensures r == ParseSpec(schema)
  {
    var fields := GetFields(schema);
    var columns: seq<Column> := [];
    var i := 0;
    while i < |fields|
      invariant 0 <= i <= |fields|
      invariant ColumnsOf(fields[..i]) == Ok(columns)
    {
      CollectStep(fields, Details, i);
      var segments := GetDetails(fields[i]);
      if segments.Err? {
        CollectErrorPersists(fields, Details, i + 1);
        return Err(segments.message);
      }
      columns := columns + [segments.value];
      i := i + 1;
    }
    assert fields[..i] == fields;
    r := Ok(columns);
  }

  // ---------------------------------------------------------------------
  // Properties of the field split

  lemma InterleaveGrowHead(c: char, fs: seq<string>, seps: seq<string>)
    requires |fs| >= 1 && |seps| + 1 == |fs|
    ensures Interleave([[c] + fs[0]] + fs[1..], seps) == [c] + Interleave(fs, seps)
  {
    var gs := [[c] + fs[0]] + fs[1..];
    assert gs[1..] == fs[1..];
  }

  /**
    Nothing is lost but the separators: writing the fields back with the text
    each match consumed between them gives the schema. Each separator is a
    comma, followed by one whitespace character exactly when the next field
    would otherwise start with one.
   */
  lemma {:induction false} FieldsRejoin(s: string)
    ensures Rejoined(s, GetFields(s), Separators(s))
    decreases |s|
  {
    if |s| > 0 {
      if SplitsHere(s) {
        FieldsRejoin(s[SepLength(s)..]);
        RejoinAtSplit(s);
      } else {
        FieldsRejoin(s[1..]);
        RejoinAtChar(s);
      }
    }
  }

  /**
    `fs` with `seps` between them is `s`, one separator fewer than fields,
    every separator a comma with at most one whitespace character after it,
    and no field after a bare comma starting with whitespace.
   */
  predicate Rejoined(s: string, fs: seq<string>, seps: seq<string>) {
    |seps| + 1 == |fs| && Interleave(fs, seps) == s &&
    (forall k :: 0 <= k < |seps| ==> IsSeparator(seps[k])) &&
    BareCommaUnspaced(fs, seps)
  }

  /** What one match of the split regex consumes: a comma, then at most one whitespace character. */
  predicate IsSeparator(sep: string) {
    |sep| > 0 && sep[0] == ',' && (|sep| == 1 || (|sep| == 2 && IsSpace(sep[1])))
  }

  /** A bare-comma separator is never followed by whitespace: the regex would have consumed it. */
  predicate BareCommaUnspaced(fs: seq<string>, seps: seq<string>)
    requires |seps| + 1 == |fs|
  {
    forall k :: 0 <= k < |seps| && |seps[k]| == 1 ==> fs[k + 1] == "" || !IsSpace(fs[k + 1][0])
  }

  lemma RejoinAtSplit(s: string)
    requires SplitsHere(s)
    requires var t := s[SepLength(s)..]; Rejoined(t, GetFields(t), Separators(t))
    ensures Rejoined(s, GetFields(s), Separators(s))
  {
    var n := SepLength(s);
    var t := s[n..];
    SplitStep(s);
    SplitIsSeparator(s);
    RejoinAfterSeparator(s, s[..n], t, GetFields(t), Separators(t), GetFields(s), Separators(s));
  }

  lemma RejoinAtChar(s: string)
    requires |s| > 0 && !SplitsHere(s)
    requires var t := s[1..]; Rejoined(t, GetFields(t), Separators(t))
    ensures Rejoined(s, GetFields(s), Separators(s))
  {
    var t := s[1..];
    CharStep(s);
    InterleaveGrowHead(s[0], GetFields(t), Separators(t));
    assert s == [s[0]] + t;
    GrowHeadKeepsBareComma(s[0], GetFields(t), Separators(t), GetFields(s));
  }

  /** At a match, a field boundary starts and the consumed text becomes a separator. */
  lemma SplitStep(s: string)
    requires SplitsHere(s)
    ensures GetFields(s) == [""] + GetFields(s[SepLength(s)..])
    ensures Separators(s) == [s[..SepLength(s)]] + Separators(s[SepLength(s)..])
  {
  }

  /** Away from a match, the character joins the first field and the separators are unchanged. */
  lemma CharStep(s: string)
    requires |s| > 0 && !SplitsHere(s)
    ensures GetFields(s) == [[s[0]] + GetFields(s[1..])[0]] + GetFields(s[1..])[1..]
    ensures Separators(s) == Separators(s[1..])
  {
  }

  /** A match consumes a separator, and a bare comma only when no whitespace follows, so the next field does not start with any. */
  lemma SplitIsSeparator(s: string)
    requires SplitsHere(s)
    ensures IsSeparator(s[..SepLength(s)])
    ensures SepLength(s) == 1 ==>
      GetFields(s[1..])[0] == "" || !IsSpace(GetFields(s[1..])[0][0])
  {
    var t := s[1..];
    if SepLength(s) == 1 && |t| > 0 && !SplitsHere(t) {
      assert t[0] == s[1];
      FirstFieldHead(t);
    }
  }

  /** A separator in front of a rejoining of `t` rejoins `sep + t`. */
  lemma RejoinAfterSeparator(s: string, sep: string, t: string, fs: seq<string>, seps: seq<string>,
                              fs2: seq<string>, seps2: seq<string>)
    requires s == sep + t && IsSeparator(sep) && Rejoined(t, fs, seps)
    requires |sep| == 1 ==> fs[0] == "" || !IsSpace(fs[0][0])
    requires fs2 == [""] + fs && seps2 == [sep] + seps
    ensures Rejoined(s, fs2, seps2)
  {
    assert fs2[1..] == fs && seps2[1..] == seps;
    assert "" + sep == sep;
    forall k | 0 <= k < |seps2| ensures IsSeparator(seps2[k]) {
      if k > 0 { assert seps2[k] == seps[k - 1]; }
    }
    forall k | 0 <= k < |seps2| && |seps2[k]| == 1 ensures fs2[k + 1] == "" || !IsSpace(fs2[k + 1][0]) {
      assert fs2[k + 1] == fs[k];
      if k > 0 { assert seps2[k] == seps[k - 1]; }
    }
  }

  /** Growing the first field at its head leaves every later field, so the bare-comma fact, unchanged. */
  lemma GrowHeadKeepsBareComma(c: char, fs: seq<string>, seps: seq<string>, fs2: seq<string>)
    requires |fs| >= 1 && |seps| + 1 == |fs| && BareCommaUnspaced(fs, seps)
    requires fs2 == [[c] + fs[0]] + fs[1..]
    ensures BareCommaUnspaced(fs2, seps)
  {
    forall k | 0 <= k < |seps| && |seps[k]| == 1 ensures fs2[k + 1] == "" || !IsSpace(fs2[k + 1][0]) {
      assert fs2[k + 1] == fs[k + 1];
    }
  }

  /** The first field starts with the first character of the schema unless the schema starts with a separator. */
  lemma FirstFieldHead(t: string)
    requires |t| > 0 && !SplitsHere(t)
    ensures |GetFields(t)[0]| > 0 && GetFields(t)[0][0] == t[0]
  {
  }

  /** One field per matching position, plus one. */
  lemma {:induction false} FieldCount(s: string)
    ensures |GetFields(s)| == 1 + CountSplits(s)
    decreases |s|
  {
    if |s| > 0 {
      if SplitsHere(s) {
        FieldCount(s[SepLength(s)..]);
        if SepLength(s) == 2 {
          assert !SplitsHere(s[1..]);
          assert s[1..][1..] == s[2..];
        }
      } else {
        FieldCount(s[1..]);
      }
    }
  }

  /** Text without a comma is one field, whatever else it holds. */
  lemma {:induction false} NoCommaOneField(s: string)
    requires ',' !in s
    ensures GetFields(s) == [s]
    decreases |s|
  {
    if |s| > 0 {
      NoCommaOneField(s[1..]);
      assert s == [s[0]] + s[1..];
    }
  }

  /** Prefixing text that holds no comma extends the first field and leaves the others alone. */
  lemma {:induction false} FieldsAfterPlainText(a: string, t: string)
    requires ',' !in a
    ensures GetFields(a + t) == [a + GetFields(t)[0]] + GetFields(t)[1..]
    decreases |a|
  {
    if |a| == 0 {
      assert a + t == t;
      assert a + GetFields(t)[0] == GetFields(t)[0];
      assert GetFields(t) == [GetFields(t)[0]] + GetFields(t)[1..];
    } else {
      assert (a + t)[1..] == a[1..] + t;
      assert (a + t)[0] == a[0];
      FieldsAfterPlainText(a[1..], t);
      assert [a[0]] + (a[1..] + GetFields(t)[0]) == a + GetFields(t)[0];
    }
  }

  /**
    A comma inside parentheses does not split: when the next parenthesis
    after the comma closes, the text stays one field. In `decimal(5,2)` the
    text before the comma is `decimal(5` and `y` is `2`.
   */
  lemma ParenthesisedCommaKept(a: string, y: string, s: string)
    requires ',' !in a && ',' !in y
    requires '(' !in y && ')' !in y
    requires s == a + "," + y + ")"
    ensures GetFields(s) == [s]
  {
    var tail := "," + y + ")";
    assert s == a + tail;
    CommaBeforeClose(y);
    FieldsAfterPlainText(a, tail);
  }

  /** A comma whose next parenthesis closes does not split. */
  lemma CommaBeforeClose(y: string)
    requires ',' !in y && '(' !in y && ')' !in y
    ensures GetFields("," + y + ")") == ["," + y + ")"]
  {
    var tail := "," + y + ")";
    var rest := y + ")";
    assert tail[1..] == rest && tail == [','] + rest;
    ParenAfterPlain(y);
    assert ',' !in rest;
    NoCommaOneField(rest);
  }

  /** The first parenthesis in `y + ")"` is the closing one when `y` holds none. */
  lemma {:induction false} ParenAfterPlain(y: string)
    requires '(' !in y && ')' !in y
    ensures NextParen(y + ")") == Some(')')
    decreases |y|
  {
    if |y| > 0 {
      assert (y + ")")[1..] == y[1..] + ")";
      ParenAfterPlain(y[1..]);
    }
  }

  /**
    A comma outside parentheses splits and takes one whitespace character
    with it (`name:string, age:integer`).
   */
  lemma CommaSpaceSplits(a: string, w: char, b: string)
    requires ',' !in a && ',' !in b && ')' !in b && '(' !in b
    requires IsSpace(w)
    ensures GetFields(a + [',', w] + b) == [a, b]
  {
    var tail := [',', w] + b;
    assert tail[1..] == [w] + b;
    assert tail[2..] == b;
    NoParenNone([w] + b);
    NoCommaOneField(b);
    assert SplitsHere(tail) && SepLength(tail) == 2;
    assert GetFields(tail) == ["", b];
    FieldsAfterPlainText(a, tail);
    assert a + "" == a;
    assert a + tail == a + [',', w] + b;
  }

  /** Only one whitespace character is taken: the second of two stays in the next field. */
  lemma OnlyOneSpaceTaken(a: string, w: char, v: char, b: string)
    requires ',' !in a && ',' !in b && ')' !in b && '(' !in b
    requires IsSpace(w) && IsSpace(v)
    ensures GetFields(a + [',', w, v] + b) == [a, [v] + b]
  {
    CommaSpaceSplits(a, w, [v] + b);
    assert a + [',', w] + ([v] + b) == a + [',', w, v] + b;
  }

  lemma {:induction false} NoParenNone(s: string)
    requires '(' !in s && ')' !in s
    ensures NextParen(s) == None
    decreases |s|
  {
    if |s| > 0 {
      NoParenNone(s[1..]);
    }
  }

  // ---------------------------------------------------------------------
  // Properties of the descriptors

  /** One descriptor per field, in field order. */
  lemma ColumnsPerField(fields: seq<string>)
    requires ColumnsOf(fields).Ok?
    ensures |ColumnsOf(fields).value| == |fields|
    ensures forall i :: 0 <= i < |fields| ==>
      Details(fields[i]).Ok? && ColumnsOf(fields).value[i] == Details(fields[i]).value
  {
    CollectLength(fields, Details);
    forall i | 0 <= i < |fields|
      ensures Details(fields[i]).Ok? && ColumnsOf(fields).value[i] == Details(fields[i]).value
    {
      CollectAt(fields, Details, i);
    }
  }

  /**
    `name` is the text before the first `:`; the type and the option tokens
    come from the text after it, split at `:`.
   */
  lemma NameBeforeFirstColon(field: string)
    requires Details(field).Ok?
    ensures var c := Details(field).value;
      IsPrefix(c.name, field) && ':' !in c.name &&
      (|c.name| == |field| <==> ':' !in field) &&
      (|c.name| < |field| ==> field[|c.name|] == ':')
  {
    SplitHead(field, ':');
    var h := Split(field, ':')[0];
    if ':' in field {
      var i :| 0 <= i < |field| && field[i] == ':';
      assert i >= |h|;
    }
  }

  /** The raw type is the text between the first and the second `:`; without a `:` there is none. */
  lemma TypeBetweenColons(field: string, name: string, rest: string)
    requires ':' !in name
    requires field == name + ":" + rest
    ensures Split(field, ':')[0] == name
    ensures Split(field, ':')[1..] == Split(rest, ':')
  {
    SplitPrefix(name, ":" + rest, ':');
    assert (":" + rest)[1..] == rest;
    assert name + ":" + rest == name + (":" + rest);
  }

  /** The segments of `name:type:tok1:...:tokn` when no part holds `:`. */
  lemma TypeSegments(name: string, rawType: string, tokens: seq<string>)
    requires ':' !in name && ':' !in rawType && forall k :: 0 <= k < |tokens| ==> ':' !in tokens[k]
    ensures var segs := Split(name + ":" + Join([rawType] + tokens, ":"), ':');
      |segs| == |tokens| + 2 && segs[0] == name && segs[1] == rawType && segs[2..] == tokens
  {
    var rest := Join([rawType] + tokens, ":");
    TypeBetweenColons(name + ":" + rest, name, rest);
    var parts := [rawType] + tokens;
    assert forall k :: 0 <= k < |parts| ==> ':' !in parts[k] by {
      forall k | 0 <= k < |parts| ensures ':' !in parts[k] {
        if k > 0 { assert parts[k] == tokens[k - 1]; }
      }
    }
    JoinSplit(parts, ':');
    assert parts[1..] == tokens;
  }

  /** A type with no `(` is kept as written, with no arguments. */
  lemma PlainTypeNoArguments(name: string, rawType: string, tokens: seq<string>)
    requires ':' !in name && ':' !in rawType && forall k :: 0 <= k < |tokens| ==> ':' !in tokens[k]
    requires '(' !in rawType
    requires ParseOptionsSpec(tokens).Ok?
    ensures Details(name + ":" + Join([rawType] + tokens, ":")) ==
      Ok(Column(name, rawType, [], ParseOptionsSpec(tokens).value))
  {
    TypeSegments(name, rawType, tokens);
    PlainTypeNoMatch(rawType);
  }

  /** The type regex needs a `(`: a type without one does not match. */
  lemma PlainTypeNoMatch(t: string)
    requires '(' !in t
    ensures TypeMatch(t) == None
  {
    forall n | 0 <= n < |t| ensures !TypeOpens(t, n) {
      assert t[n] != '(';
    }
  }

  /**
    A type `T(A)` becomes the type `T` with the arguments `A` split at every
    comma, as raw text: untrimmed and never converted to numbers.
   */
  lemma TypeWithArguments(name: string, t: string, a: string, tokens: seq<string>)
    requires ':' !in name && ':' !in t && ':' !in a && forall k :: 0 <= k < |tokens| ==> ':' !in tokens[k]
    requires |t| > 0 && '(' !in t && '\n' !in t
    requires |a| > 0 && ')' !in a
    requires ParseOptionsSpec(tokens).Ok?
    ensures Details(name + ":" + Join([t + "(" + a + ")"] + tokens, ":")) ==
      Ok(Column(name, t, Split(a, ','), ParseOptionsSpec(tokens).value))
  {
    var rawType := t + "(" + a + ")";
    ArgumentsMatch(t, a);
    assert ':' !in rawType;
    TypeSegments(name, rawType, tokens);
  }

  /** The type regex takes `T(A)` apart into `T` and `A`. */
  lemma ArgumentsMatch(t: string, a: string)
    requires |t| > 0 && '(' !in t && '\n' !in t
    requires |a| > 0 && ')' !in a
    ensures TypeMatch(t + "(" + a + ")") == Some((t, a))
  {
    var rawType := t + "(" + a + ")";
    TypeOfShape(rawType, |t|, |a|);
    assert rawType[..|t|] == t;
    assert rawType[|t| + 1..|t| + 1 + |a|] == a;
  }

  /** The characters of `T(A)`: `T` up to `q` with no `(` or line feed, then `(`, `e` characters other than `)`, then `)`. */
  lemma TypeOfShape(r: string, q: nat, e: nat)
    requires 0 < q && q + 1 + e < |r| && e > 0
    requires forall i :: 0 <= i < q ==> r[i] != '(' && r[i] != '\n'
    requires r[q] == '(' && r[q + 1 + e] == ')'
    requires forall i :: q < i < q + 1 + e ==> r[i] != ')'
    ensures TypeMatch(r) == Some((r[..q], r[q + 1..q + 1 + e]))
  {
    var u := r[q + 1..];
    assert u[e] == ')';
    assert forall j :: 0 <= j < e ==> u[j] != ')';
    assert TypeOpens(r, q);
    assert forall p :: 0 <= p < q ==> !TypeOpens(r, p);
    assert FirstTypeOpen(r, 0) == Some(q);
    LineStartAtZero(r, q);
    TypeMatchAt(r, q, e);
  }

  lemma LineStartAtZero(t: string, q: nat)
    requires q <= |t| && forall i :: 0 <= i < q ==> t[i] != '\n'
    ensures LineStart(t, q) == 0
  {
  }

  lemma TypeMatchAt(t: string, q: nat, e: nat)
    requires q < |t| && FirstTypeOpen(t, 0) == Some(q) && LineStart(t, q) == 0
    requires FirstIndex(t[q + 1..], ')') == e
    ensures TypeMatch(t) == Some((t[..q], t[q + 1..q + 1 + e]))
  {
    TypeMatchFound(t, q);
    TypeMatchType(t, q);
    TypeMatchArguments(t, q, e);
  }

  lemma TypeMatchFound(t: string, q: nat)
    requires q < |t| && FirstTypeOpen(t, 0) == Some(q)
    ensures TypeMatch(t).Some?
  {
  }

  lemma TypeMatchType(t: string, q: nat)
    requires q < |t| && FirstTypeOpen(t, 0) == Some(q) && LineStart(t, q) == 0
    ensures TypeMatch(t).Some? && TypeMatch(t).value.0 == t[..q]
  {
    assert t[0..q] == t[..q];
  }

  lemma TypeMatchArguments(t: string, q: nat, e: nat)
    requires q < |t| && FirstTypeOpen(t, 0) == Some(q)
    requires FirstIndex(t[q + 1..], ')') == e
    ensures TypeMatch(t).Some? && TypeMatch(t).value.1 == t[q + 1..q + 1 + e]
  {
    assert TypeMatch(t) == Some(MatchAt(t, q));
    MatchAtArguments(t, q, e);
  }

  lemma MatchAtArguments(t: string, q: nat, e: nat)
    requires TypeOpens(t, q)
    requires FirstIndex(t[q + 1..], ')') == e
    ensures MatchAt(t, q).1 == t[q + 1..q + 1 + e]
  {
  }
}
