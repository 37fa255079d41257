/**
  The migration-name parser (src/Migrations/NameParser.php): a snake_case
  name such as `add_user_id_to_reports_table` becomes the intent
  `{action: add, table: reports}`.
 */
module NameParser {
  import opened Wrappers
  import opened Strings

  /**
    What `parse` returns. `action` is `None` where PHP's `array_pop` of an
    empty array yields `null` (the name `table` alone).
   */
  datatype Intent = Intent(action: Option<string>, table: string)

  /** The words that end the table-name walk (NameParser.php:94). */
  const Connectors: set<string> := {"to", "from", "and", "with", "for", "in", "of", "on"}

  /** A connector is a single word: never `table`, never an action verb, and free of `_`. */
  predicate IsConnectingWord(segment: string)
    ensures IsConnectingWord(segment) ==>
      '_' !in segment && segment != "table" && NormalizeActionName(segment) == segment
  {
    segment in Connectors
  }

  /** The fixed synonym table; any other word is returned as it is. */
  function NormalizeActionName(action: string): (r: string)
    ensures r == action || r == "create" || r == "remove" || r == "add"
    ensures '_' !in action ==> '_' !in r
  {
    if action == "create" || action == "make" then "create"
    else if action == "delete" || action == "destroy" || action == "drop" then "remove"
    else if action == "add" || action == "append" || action == "update" || action == "insert" then "add"
    else action
  }

  /**
    The longest run of words at the end of `words` that holds no word
    satisfying `stop`, in the original order.
   */
  function TrailingRun<T>(words: seq<T>, stop: T -> bool): (run: seq<T>)
    ensures |run| <= |words| && run == words[|words| - |run|..]
    ensures forall k :: 0 <= k < |run| ==> !stop(run[k])
    ensures |run| == |words| || stop(words[|words| - |run| - 1])
    decreases |words|
  {
    if |words| == 0 || stop(words[|words| - 1]) then []
    else TrailingRun(words[..|words| - 1], stop) + [words[|words| - 1]]
  }

  /** The words less one trailing `table` (NameParser.php:17-19). */
  function WithoutTrailingTable(w: seq<string>): seq<string>
    requires |w| >= 1
  {
    if w[|w| - 1] == "table" then w[..|w| - 1] else w
  }

  /** The words that make up the table name: a trailing run of the words after the verb. */
  function TableWordsOf(core: seq<string>): seq<string> {
    if |core| == 0 then [] else TrailingRun(core[1..], IsConnectingWord)
  }

  /** The intent the words of a name describe. */
  function IntentOf(w: seq<string>): Intent
    requires |w| >= 1
  {
    var core := WithoutTrailingTable(w);
    Intent(if |core| == 0 then None else Some(NormalizeActionName(core[0])),
           Join(TableWordsOf(core), "_"))
  }

  /** The underscore-separated words of the name, less one trailing `table`. */
  function CoreWords(name: string): seq<string> {
    WithoutTrailingTable(Split(name, '_'))
  }

  /** What `parse` computes, stated on the words in their original order. */
  function ParseSpec(name: string): Intent {
    IntentOf(Split(name, '_'))
  }

  // ---------------------------------------------------------------------
  // The parser as written: it works on the reversed word list.

  /** `parse`: reverse the words, drop a leading `table`, pop the action, walk the table name. */
  method Parse(name: string) returns (intent: Intent)
    ensures intent == ParseSpec(name)
  {
    var w := Split(name, '_');
    var segments := Reverse(w);
    var core := if w[|w| - 1] == "table" then w[..|w| - 1] else w;
    if segments[0] == "table" {
      segments := segments[1..];
      assert segments == Reverse(core);
    }
    assert segments == Reverse(core);
    var action;
    action, segments := GetAction(segments);
    if |core| > 0 {
      assert segments == Reverse(core[1..]);
      ReverseReverse(core[1..]);
    }
    var table := GetTableName(segments);
    intent := Intent(action, table);
  }

  /** `getAction`: pop the last segment (the first word of the name) and normalise it. */
  method GetAction(segments: seq<string>) returns (action: Option<string>, rest: seq<string>)
    ensures |segments| == 0 ==> action == None && rest == []
    ensures |segments| > 0 ==> action == Some(NormalizeActionName(segments[|segments| - 1]))
    ensures |segments| > 0 ==> rest == segments[..|segments| - 1]
  {
    if |segments| == 0 {
      action, rest := None, [];
    } else {
      action := Some(NormalizeActionName(segments[|segments| - 1]));
      rest := segments[..|segments| - 1];
    }
  }

  /** `getTableName`: collect segments until a connecting word, then restore their order. */
  method GetTableName(segments: seq<string>) returns (tableName: string)
    ensures tableName == Join(TrailingRun(Reverse(segments), IsConnectingWord), "_")
  {
    var collected: seq<string> := [];
    var i := 0;
    while i < |segments|
      invariant 0 <= i <= |segments|
      invariant collected == segments[..i]
      invariant forall j :: 0 <= j < i ==> !IsConnectingWord(segments[j])
    {
      if IsConnectingWord(segments[i]) {
        break;
      }
      collected := collected + [segments[i]];
      i := i + 1;
    }
    LeadingRunReversed(segments, IsConnectingWord, i);
    tableName := Join(Reverse(collected), "_");
  }

  // ---------------------------------------------------------------------
  // Properties

  /** The three facts in TrailingRun's contract determine the run. */
  lemma TrailingRunUnique<T>(words: seq<T>, stop: T -> bool, run: seq<T>)
    requires |run| <= |words| && run == words[|words| - |run|..]
    requires forall k :: 0 <= k < |run| ==> !stop(run[k])
    requires |run| == |words| || stop(words[|words| - |run| - 1])
    ensures TrailingRun(words, stop) == run
  {
  }

  /** Walking the reversed words from the front and stopping at a connector finds the trailing run. */
  lemma LeadingRunReversed<T>(segments: seq<T>, stop: T -> bool, i: nat)
    requires i <= |segments|
    requires forall j :: 0 <= j < i ==> !stop(segments[j])
    requires i == |segments| || stop(segments[i])
    ensures TrailingRun(Reverse(segments), stop) == Reverse(segments[..i])
  {
    ReverseOfPrefix(segments, i);
    ReversedPrefixAvoids(segments, stop, i);
    if i < |segments| {
      ReversedStop(segments, stop, i);
    }
    TrailingRunUnique(Reverse(segments), stop, Reverse(segments[..i]));
  }

  lemma ReversedStop<T>(segments: seq<T>, stop: T -> bool, i: nat)
    requires i < |segments| && stop(segments[i])
    ensures stop(Reverse(segments)[|segments| - i - 1])
  {
  }

  lemma ReversedPrefixAvoids<T>(segments: seq<T>, stop: T -> bool, i: nat)
    requires i <= |segments|
    requires forall j :: 0 <= j < i ==> !stop(segments[j])
    ensures forall k :: 0 <= k < |Reverse(segments[..i])| ==> !stop(Reverse(segments[..i])[k])
  {
    var run := Reverse(segments[..i]);
    forall k | 0 <= k < i ensures !stop(run[k]) {
      assert run[k] == segments[..i][i - 1 - k];
      assert segments[..i][i - 1 - k] == segments[i - 1 - k];
    }
  }

  /**
    The synonym table: `create` and `make` give `create`; `delete`, `destroy`
    and `drop` give `remove`; `add`, `append`, `update` and `insert` give
    `add`; every other word comes back unchanged, so normalising twice is
    normalising once.
   */
  lemma NormalizeActionSynonyms(action: string)
    ensures var r := NormalizeActionName(action);
      (r == "create" <==> action in {"create", "make"}) &&
      (r == "remove" <==> action in {"delete", "destroy", "drop", "remove"}) &&
      (r == "add" <==> action in {"add", "append", "update", "insert"}) &&
      (action !in {"make", "delete", "destroy", "drop", "append", "update", "insert"} ==> r == action) &&
      NormalizeActionName(r) == r
  {
  }

  /** At most one trailing `table` is dropped, and nothing else. */
  lemma CoreWordsDropOnlyTrailingTable(name: string)
    ensures var w := Split(name, '_');
      CoreWords(name) == w[..|CoreWords(name)|] &&
      (|CoreWords(name)| == |w| - 1 <==> w[|w| - 1] == "table") &&
      (|CoreWords(name)| == |w| <==> w[|w| - 1] != "table")
  {
  }

  /** Only the name `table` has no words left once `table` is dropped. */
  lemma CoreWordsEmptyIff(name: string)
    ensures CoreWords(name) == [] <==> name == "table"
  {
    var w := Split(name, '_');
    if CoreWords(name) == [] {
      assert w == ["table"];
      SplitJoin(name, '_');
    } else if name == "table" {
      SplitsInto(name, [name]);
    }
  }

  /**
    The action is the normalised first word of the name; the name `table`
    alone gives no action and an empty table. `parse` is total.
   */
  lemma ActionIsFirstWord(name: string)
    ensures name != "table" ==>
      ParseSpec(name).action == Some(NormalizeActionName(Split(name, '_')[0]))
    ensures name == "table" ==> ParseSpec(name) == Intent(None, "")
  {
    CoreWordsEmptyIff(name);
    var w := Split(name, '_');
    var core := WithoutTrailingTable(w);
    assert ParseSpec(name) == IntentOf(w);
    if name == "table" {
      assert core == [];
    } else {
      assert core != [] && core[0] == w[0];
    }
  }

  /**
    The table words are a trailing run of the words after the verb: the verb
    itself is never among them, none is a connecting word, and the run stops
    only at a connecting word or at the verb. Stated on the words of a name,
    as `ParseSpec` splits them.
   */
  lemma TableWordsAreTrailingRun(w: seq<string>)
    requires |w| >= 1
    ensures var core := WithoutTrailingTable(w); var tw := TableWordsOf(core);
      (|core| == 0 ==> tw == []) &&
      (|core| > 0 ==>
        1 <= |core| - |tw| && tw == core[|core| - |tw|..] &&
        (|core| - |tw| == 1 || IsConnectingWord(core[|core| - |tw| - 1]))) &&
      forall k :: 0 <= k < |tw| ==> !IsConnectingWord(tw[k])
  {
    var core := WithoutTrailingTable(w);
    if |core| > 0 {
      RunAfterHead(core, IsConnectingWord);
    }
  }

  /** The trailing run of the words after the first, stated on the whole sequence. */
  lemma RunAfterHead<T>(core: seq<T>, stop: T -> bool)
    requires |core| > 0
    ensures var tw := TrailingRun(core[1..], stop);
      1 <= |core| - |tw| && tw == core[|core| - |tw|..] &&
      (|core| - |tw| == 1 || stop(core[|core| - |tw| - 1]))
  {
    var tw := TrailingRun(core[1..], stop);
    assert core[1..][|core| - 1 - |tw|..] == core[|core| - |tw|..];
    if |tw| < |core| - 1 {
      assert core[1..][|core| - 1 - |tw| - 1] == core[|core| - |tw| - 1];
    }
  }

  /** Every word of a trailing run is a word of the sequence, so it keeps any property all of those have. */
  lemma RunKeeps<T>(words: seq<T>, stop: T -> bool, p: T -> bool)
    requires forall k :: 0 <= k < |words| ==> p(words[k])
    ensures forall k :: 0 <= k < |TrailingRun(words, stop)| ==> p(TrailingRun(words, stop)[k])
  {
    var tw := TrailingRun(words, stop);
    forall k | 0 <= k < |tw| ensures p(tw[k]) {
      assert tw[k] == words[|words| - |tw| + k];
    }
  }

  /** Rejoining a trailing run of underscore-free words and splitting it again gives the run back. */
  lemma RunSegments(core: seq<string>, stop: string -> bool)
    requires |core| >= 1 && forall k :: 0 <= k < |core| ==> '_' !in core[k]
    requires !stop("")
    ensures forall seg :: seg in Split(Join(TrailingRun(core[1..], stop), "_"), '_') ==> !stop(seg)
  {
    var tw := TrailingRun(core[1..], stop);
    if |tw| == 0 {
      assert Split("", '_') == [""];
    } else {
      var rest := core[1..];
      assert forall k :: 0 <= k < |rest| ==> '_' !in rest[k] by {
        forall k | 0 <= k < |rest| ensures '_' !in rest[k] {
          assert rest[k] == core[k + 1];
        }
      }
      RunKeeps(rest, stop, (s: string) => '_' !in s);
      WordsSegments(tw, stop);
    }
  }

  /** Joining underscore-free words with `_` and splitting again gives those words, so no segment stops. */
  lemma WordsSegments(tw: seq<string>, stop: string -> bool)
    requires |tw| >= 1 && forall k :: 0 <= k < |tw| ==> '_' !in tw[k]
    requires forall k :: 0 <= k < |tw| ==> !stop(tw[k])
    ensures forall seg :: seg in Split(Join(tw, "_"), '_') ==> !stop(seg)
  {
    JoinSplit(tw, '_');
    forall seg | seg in Split(Join(tw, "_"), '_') ensures !stop(seg) {
      var k :| 0 <= k < |tw| && tw[k] == seg;
    }
  }

  /** The table name never has a connecting word as one of its segments. */
  lemma TableHasNoConnector(name: string)
    ensures forall seg :: seg in Split(ParseSpec(name).table, '_') ==> !IsConnectingWord(seg)
  {
    var core := CoreWords(name);
    if |core| == 0 {
      assert Split("", '_') == [""];
    } else {
      RunSegments(core, IsConnectingWord);
    }
  }

  // ---------------------------------------------------------------------
  // The behaviour the source's tests describe

  /** A name built from underscore-free words splits back into those words. */
  lemma SplitsInto(name: string, words: seq<string>)
    requires |words| >= 1 && forall k :: 0 <= k < |words| ==> '_' !in words[k]
    requires name == Join(words, "_")
    ensures Split(name, '_') == words
  {
    JoinSplit(words, '_');
  }

  // Each example names the migration by its words, `Join(words, "_")`.

  lemma ParsesCreatePostsTable(name: string)
    requires name == Join(["create", "posts", "table"], "_")
    ensures ParseSpec(name) == Intent(Some("create"), "posts")
  {
    SplitsInto(name, ["create", "posts", "table"]);
    OneWordTable(["create", "posts", "table"]);
  }

  /** A two-word table: both words are kept, in order, when neither is a connector. */
  lemma ParsesTwoWordTable(name: string, a: string, b: string)
    requires '_' !in a && '_' !in b && !IsConnectingWord(a) && !IsConnectingWord(b)
    requires name == Join(["create", a, b, "table"], "_")
    ensures ParseSpec(name) == Intent(Some("create"), a + "_" + b)
  {
    SplitsInto(name, ["create", a, b, "table"]);
    TwoWordIntent(["create", a, b, "table"]);
  }

  lemma TwoWordIntent(w: seq<string>)
    requires |w| == 4 && w[3] == "table"
    requires !IsConnectingWord(w[1]) && !IsConnectingWord(w[2])
    ensures IntentOf(w) == Intent(Some(NormalizeActionName(w[0])), w[1] + "_" + w[2])
  {
    var core := w[..3];
    assert WithoutTrailingTable(w) == core;
    assert core[1..] == [w[1], w[2]];
    TrailingRunUnique([w[1], w[2]], IsConnectingWord, [w[1], w[2]]);
    assert Join([w[1], w[2]], "_") == w[1] + "_" + w[2] by {
      assert Join([w[2]], "_") == w[2];
    }
  }

  /** The walk stops at the connecting word `to`: `user_id` is not part of the table name. */
  lemma ParsesComplexName(name: string)
    requires name == Join(["add", "user", "id", "to", "reports", "table"], "_")
    ensures ParseSpec(name) == Intent(Some("add"), "reports")
  {
    SplitsInto(name, ["add", "user", "id", "to", "reports", "table"]);
    assert IsConnectingWord("to");
    WordAfterConnector(["add", "user", "id", "to", "reports", "table"]);
  }

  /** A single word between a connector and `table` is the whole table name. */
  lemma WordAfterConnector(w: seq<string>)
    requires |w| >= 3 && w[|w| - 1] == "table"
    requires IsConnectingWord(w[|w| - 3]) && !IsConnectingWord(w[|w| - 2])
    ensures IntentOf(w) == Intent(Some(NormalizeActionName(w[0])), w[|w| - 2])
  {
    var core := w[..|w| - 1];
    assert WithoutTrailingTable(w) == core;
    var rest := core[1..];
    assert rest[|rest| - 1] == w[|w| - 2];
    if |w| > 3 {
      assert rest[|rest| - 2] == w[|w| - 3];
    }
    TrailingRunUnique(rest, IsConnectingWord, [w[|w| - 2]]);
    assert Join([w[|w| - 2]], "_") == w[|w| - 2];
  }

  /** Only one `table` is dropped: `<verb>_table_table` creates the table `table`. */
  lemma DropsOneTrailingTable(name: string, verb: string)
    requires '_' !in verb
    requires name == Join([verb, "table", "table"], "_")
    ensures ParseSpec(name) == Intent(Some(NormalizeActionName(verb)), "table")
  {
    SplitsInto(name, [verb, "table", "table"]);
    OneWordTable([verb, "table", "table"]);
  }

  /** A verb, one word and `table`: that word is the table name. */
  lemma OneWordTable(w: seq<string>)
    requires |w| == 3 && w[2] == "table" && !IsConnectingWord(w[1])
    ensures IntentOf(w) == Intent(Some(NormalizeActionName(w[0])), w[1])
  {
    NoConnectorAfterVerb(w);
    assert w[1..2] == [w[1]];
  }

  /** With no connector after the verb, every word between the verb and `table` is part of the table name. */
  lemma NoConnectorAfterVerb(w: seq<string>)
    requires |w| >= 2 && w[|w| - 1] == "table"
    requires forall k :: 1 <= k < |w| - 1 ==> !IsConnectingWord(w[k])
    ensures IntentOf(w) == Intent(Some(NormalizeActionName(w[0])), Join(w[1..|w| - 1], "_"))
  {
    var core := w[..|w| - 1];
    assert WithoutTrailingTable(w) == core;
    assert core[1..] == w[1..|w| - 1];
    TrailingRunUnique(core[1..], IsConnectingWord, core[1..]);
  }

  /** A one-word name is all verb: its normalised form is the action and the table is empty. */
  lemma OneWordName(name: string)
    requires '_' !in name && name != "table"
    ensures ParseSpec(name) == Intent(Some(NormalizeActionName(name)), "")
  {
    JoinSplit([name], '_');
    assert Join([name], "_") == name;
  }
}
