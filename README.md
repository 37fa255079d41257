# Laravel 5 Generators Extended: the migration pipeline in Dafny

This project models the string pipeline behind the `make:migration:schema`,
`make:migration:pivot`, `make:view` and `make:seed` Artisan commands of
Laravel-5-Generators-Extended, and proves properties of each stage:

- `NameParser` turns a snake_case migration name (`add_user_id_to_reports_table`)
  into an intent `{action, table}`.
- `SchemaParser` turns a schema such as `name:string, amount:decimal(5,2):nullable`
  into an ordered list of column descriptors `{name, type, arguments, options}`.
  The paren-aware comma split of `preg_split('/,\s?(?![^()]*\))/')` is an explicit
  scanner: a comma splits exactly when the next parenthesis character after it is
  not `)`.
- `SchemaOptions` holds the option map both parsers build. It is an association
  list with PHP's array assignment rule: a repeated key keeps its first place and
  takes the last value.
- `MigrationSchemaParser` is the older parser. It splits at every comma, and its
  descriptors have no arguments.
- `SyntaxBuilder` renders columns as `$table->...` statements. It chooses the
  up and down fragments by action (`create`, `add` or `remove`; any other action is
  an error) and substitutes them into the wrapper templates. The wrappers are
  parameters. The builder object with its `template` field is a class.
- `MigrationMakeCommand` covers `quotedString`, `quotedValues` and `getCasts`,
  the `$fillable`/`$casts` injection into a model file, and the order in which the
  migration stub is filled. The command is a class with the `$meta` and
  `$rawSchema` state.
- `PivotMigrationMakeCommand` sorts the two table names (in place, on a
  two-element array) and derives the pivot table, class and file names and the
  filled stub from them.
- `ViewMakeCommand` and `SeedMakeCommand` build paths and class names.
- `Strings` models the PHP built-ins the code relies on:
  - `explode` and `implode`;
  - `str_replace`, scanning left to right with no overlaps;
  - `array_reverse`, `strtolower` and `ucwords`;
  - `str_contains`;
  - string truthiness.
- `Wrappers` holds `Option` and `Result`.

Each method that works step by step is proved equal to a specification function.
The properties are proved about those functions. PHP exceptions and errors are
`Err` results. Where PHP itself raises the error (an uninitialised typed property,
an undefined method), the message is PHP's, with the class's full namespace. For
the exception `SyntaxBuilder` throws, the message is the text the code passes to
it, not the error PHP raises instead (see "## Left out").

`Str::singular`/`str_singular` and `Str::camel`/`camel_case` belong to Laravel
and are not part of this model. They are parameters of type `string -> string`.
The stubs and model files are read from disk in the original; here their
contents are parameters.

## Model

| member | source | states |
|---|---|---|
| NameParser.NormalizeActionSynonyms | src/Migrations/NameParser.php:66-83 | `create`/`make` give `create`; `delete`/`destroy`/`drop` give `remove`; `add`/`append`/`update`/`insert` give `add`, each as an iff on the result; any other word is returned unchanged, and normalising is idempotent |
| NameParser.NormalizeActionName | src/Migrations/NameParser.php:66-83 | the normalised verb is the word itself or one of `create`, `remove`, `add`, and a word without `_` stays without `_` |
| NameParser.IsConnectingWord | src/Migrations/NameParser.php:92-97 | a connector (`to`, `from`, `and`, `with`, `for`, `in`, `of`, `on`) is one `_`-free word that is neither `table` nor an action verb, so it can only stop the table walk |
| NameParser.Parse | src/Migrations/NameParser.php:13-25 | the method on the reversed words (drop a leading `table`, pop the action, walk the table) equals `ParseSpec`, stated on the words in their original order |
| NameParser.GetAction | src/Migrations/NameParser.php:54-57 | pops the last reversed segment, which is the first word of the name, and normalises it; an empty list gives no action (PHP `null`) and stays empty |
| NameParser.GetTableName | src/Migrations/NameParser.php:33-46 | the `foreach`/`break` walk gives the maximal trailing run of non-connecting words, rejoined with `_` in the original order |
| NameParser.TrailingRun | src/Migrations/NameParser.php:37-43 | the run is a suffix of the words, holds no stop word, and is preceded by a stop word unless it is everything |
| NameParser.TrailingRunUnique | src/Migrations/NameParser.php:37-43 | those three facts determine the run uniquely |
| NameParser.LeadingRunReversed | src/Migrations/NameParser.php:37-45 | stopping at the first connector in the reversed list and reversing back is the trailing run of the original list |
| NameParser.ReversedStop | src/Migrations/NameParser.php:37-40 | the connector that ends the walk sits, in the reversed list, right after the reversed run |
| NameParser.ReversedPrefixAvoids | src/Migrations/NameParser.php:37-40 | no word of the reversed run is a connector |
| NameParser.CoreWordsDropOnlyTrailingTable | src/Migrations/NameParser.php:15-19 | at most one trailing `table` is removed and no other word is dropped |
| NameParser.CoreWordsEmptyIff | src/Migrations/NameParser.php:15-19 | no words remain exactly when the name is `table` |
| NameParser.ActionIsFirstWord | src/Migrations/NameParser.php:21-23 | the action is the normalised first underscore word; the bare name `table` gives no action and an empty table, so `parse` is total |
| NameParser.TableWordsAreTrailingRun | src/Migrations/NameParser.php:33-46 | for the words of any name, the table words are a trailing run of the words after the verb: never the verb, no connector, and stopped only by a connector or the verb |
| NameParser.RunAfterHead | src/Migrations/NameParser.php:37-43 | the run taken after the first word is a suffix of the whole list that leaves the first word out and is preceded by a stop word or by the first word |
| NameParser.RunKeeps | src/Migrations/NameParser.php:37-43 | every word of the run is a word of the list, so it keeps any property all of those words have |
| NameParser.RunSegments | src/Migrations/NameParser.php:45 | splitting the rejoined run at `_` gives back words that are not stop words |
| NameParser.WordsSegments | src/Migrations/NameParser.php:45 | splitting the `_`-join of underscore-free words gives back those words, so each segment keeps any property the words share |
| NameParser.TableHasNoConnector | src/Migrations/NameParser.php:37-40 | no `_` segment of the table name is one of `to, from, and, with, for, in, of, on` |
| NameParser.SplitsInto | src/Migrations/NameParser.php:15 | a name joined from underscore-free words explodes back into those words |
| NameParser.ParsesCreatePostsTable | spec/Migrations/NameParserSpec.php:17-20 | `create_posts_table` gives `create` / `posts` |
| NameParser.ParsesTwoWordTable | spec/Migrations/NameParserSpec.php:25-28 | `create_<a>_<b>_table` for any two underscore-free non-connector words (such as `yearly`, `reports`) gives `create` / `<a>_<b>` |
| NameParser.TwoWordIntent | src/Migrations/NameParser.php:13-46 | the words verb, a, b, `table` with no connector give the normalised verb and `a_b` |
| NameParser.ParsesComplexName | spec/Migrations/NameParserSpec.php:33-36 | `add_user_id_to_reports_table` gives `add` / `reports`; the walk stops at `to` |
| NameParser.WordAfterConnector | src/Migrations/NameParser.php:37-43 | a single word between a connector and a trailing `table` is the whole table name |
| NameParser.DropsOneTrailingTable | src/Migrations/NameParser.php:17-19 | `<verb>_table_table` gives the normalised verb and the table `table`: only the last `table` is dropped |
| NameParser.OneWordTable | src/Migrations/NameParser.php:13-46 | verb, one non-connector word and `table` give that word as the table name |
| NameParser.NoConnectorAfterVerb | src/Migrations/NameParser.php:37-45 | with no connector after the verb, all words between the verb and the trailing `table` form the table name, joined with `_` |
| NameParser.OneWordName | src/Migrations/NameParser.php:21-23 | a one-word name is the normalised action with an empty table |
| SchemaOptions.Keys | src/Migrations/SchemaParser.php:79-81 | the keys of the map, one per entry, in entry order |
| SchemaOptions.Put | src/Migrations/SchemaParser.php:79-81 | PHP assignment keeps the key order: an existing key keeps its place and a new key goes last |
| SchemaOptions.PutReadsBack | src/Migrations/SchemaParser.php:79-81 | the key just written reads back the new value |
| SchemaOptions.PutKeepsOthers | src/Migrations/SchemaParser.php:79-81 | every other key reads back what it read before |
| SchemaOptions.PutKeepsUnique | src/Migrations/SchemaParser.php:79-81 | writing a key never creates a second entry with the same key |
| SchemaOptions.LetterRunStart | src/Migrations/SchemaParser.php:77 | the start of the letter run before a position: all letters in between, a non-letter or the start before it |
| SchemaOptions.FirstIndex | src/Migrations/SchemaParser.php:77 | the first occurrence of a character |
| SchemaOptions.FirstOpen | src/Migrations/SchemaParser.php:77 | the leftmost `(` where `[a-z]+\(([^\)]+)\)` can match: none iff there is none, and none earlier |
| SchemaOptions.ParseOptions | src/Migrations/SchemaParser.php:71-86 | the `foreach` that fills `$results` equals the fold `ParseOptionsSpec`, including the undefined-index error of a failed match |
| SchemaOptions.FlagTokens | src/Migrations/SchemaParser.php:73-81 | a token without `(` is a flag (`true`) under its own name; no tokens give an empty map |
| SchemaOptions.ErrorPersists | src/Migrations/SchemaParser.php:75-79 | the first failing token decides the error |
| SchemaOptions.OptionMatchShape | src/Migrations/SchemaParser.php:77-79 | a match yields a non-empty, letters-only key and a non-empty value free of `)`, and `key(value)` occurs in the token |
| SchemaOptions.OptionOfShape | src/Migrations/SchemaParser.php:76-79 | a token `key(value)...` with a letters-only key and a value free of `)` stores exactly that key and that raw value |
| SchemaOptions.ShapeChars | src/Migrations/SchemaParser.php:77 | the characters of `key(value)rest`: letters, then `(` at the key length, the value free of `)`, then `)` |
| SchemaOptions.EntryOfChars | src/Migrations/SchemaParser.php:76-79 | a token with that character shape stores the letters before `(` as key and the text up to the first `)` as raw value |
| SchemaOptions.GroupsAt | src/Migrations/SchemaParser.php:77-79 | the regex groups are the text before the `(` and the text up to the first `)` after it |
| SchemaOptions.MatchOfShape | src/Migrations/SchemaParser.php:77 | the same statement at the level of characters |
| SchemaOptions.EntryOfMatch | src/Migrations/SchemaParser.php:76-79 | a successful match is what gets stored |
| SchemaOptions.OptionMatchAt | src/Migrations/SchemaParser.php:77 | the match's key and value at a known `(` and `)` |
| SchemaOptions.NoOpenAmongLetters | src/Migrations/SchemaParser.php:77 | no match can start inside a run of letters |
| SchemaOptions.FirstOpenAt | src/Migrations/SchemaParser.php:77 | the scan stops at the first usable `(` |
| SchemaOptions.LetterRunFrom | src/Migrations/SchemaParser.php:77 | a key made only of letters is taken whole |
| SchemaOptions.ParsedKeysUnique | src/Migrations/SchemaParser.php:79-81 | no two stored options share a key |
| SchemaOptions.ParseSnoc | src/Migrations/SchemaParser.php:75-83 | a successful parse of n tokens is the parse of the first n-1, with the last token's entry written into it |
| SchemaOptions.ParsedAllTokens | src/Migrations/SchemaParser.php:75-83 | a successful parse accepted every token |
| SchemaOptions.LastValueWins | src/Migrations/SchemaParser.php:79-81 | a key's value is the one from the last token that names it |
| SchemaOptions.NamedBySnoc | src/Migrations/SchemaParser.php:75 | a key is named by a token list exactly when the last token or an earlier one names it |
| SchemaOptions.KeysFromTokens | src/Migrations/SchemaParser.php:79-81 | a key is stored exactly when some token names it |
| SchemaOptions.Without | src/Migrations/SchemaParser.php:79-81 | removing a key keeps exactly the other keys |
| SchemaOptions.TokenKeys | src/Migrations/SchemaParser.php:75 | one key per accepted token, in token order |
| SchemaOptions.WithoutSnoc | src/Migrations/SchemaParser.php:79-81 | removal distributes over appending one key |
| SchemaOptions.DistinctMembers | src/Migrations/SchemaParser.php:79-81 | the distinct keys are exactly the keys |
| SchemaOptions.DistinctSnoc | src/Migrations/SchemaParser.php:79-81 | an appended key joins the distinct keys exactly when it is new |
| SchemaOptions.TokenKeysSnoc | src/Migrations/SchemaParser.php:75 | the token keys grow by the last token's key |
| SchemaOptions.KeysInFirstOccurrenceOrder | src/Migrations/SchemaParser.php:79-81 | the stored keys are the tokens' keys in order of first appearance |
| SchemaOptions.PutKeepsFirstOccurrenceOrder | src/Migrations/SchemaParser.php:79-81 | writing one more key keeps the keys equal to the first occurrences of the keys written so far |
| SchemaParser.NextParen | src/Migrations/SchemaParser.php:37 | the first parenthesis character, or none when there is none |
| SchemaParser.GetFields | src/Migrations/SchemaParser.php:35-38 | `preg_split` never returns an empty list |
| SchemaParser.FirstTypeOpen | src/Migrations/SchemaParser.php:57 | the leftmost `(` where `(.+?)\(([^)]+)\)` can match: none iff there is none, and none earlier |
| SchemaParser.LineStart | src/Migrations/SchemaParser.php:57 | the start of the line containing a position, because `.` does not match a line feed |
| SchemaParser.GetDetails | src/Migrations/SchemaParser.php:46-63 | shifting off the name and the type, parsing the options and matching the type equals `Details` |
| SchemaParser.Parse | src/Migrations/SchemaParser.php:15-27 | the loop equals `ParseSpec`, the fold of `Details` over the fields |
| Wrappers.CollectStep | src/Migrations/SchemaParser.php:20-24 | one more field either appends its descriptor or yields that field's error |
| Wrappers.CollectErrorPersists | src/Migrations/SchemaParser.php:20-24 | once a field is rejected, no longer prefix of fields succeeds: the loop returns the first error |
| Wrappers.CollectSnoc | src/Migrations/SchemaParser.php:20-24 | a successful fold over n fields is the fold over the first n-1 followed by the last field's descriptor |
| Wrappers.CollectLength | src/Migrations/SchemaParser.php:17-26 | a successful fold has one result per field |
| Wrappers.CollectAt | src/Migrations/SchemaParser.php:17-26 | each field of a successful fold was accepted, and its result sits at the same position |
| SchemaParser.InterleaveGrowHead | src/Migrations/SchemaParser.php:37 | prefixing a character to the first field prefixes it to the rejoined text |
| SchemaParser.FieldsRejoin | src/Migrations/SchemaParser.php:37 | the fields with the consumed separators between them rejoin to the schema; each separator is a comma plus at most one whitespace character, and a bare comma is never followed by whitespace |
| SchemaParser.RejoinAtSplit | src/Migrations/SchemaParser.php:37 | a match in front of a rejoined rest gives a rejoined whole |
| SchemaParser.RejoinAtChar | src/Migrations/SchemaParser.php:37 | a character that is not a match in front of a rejoined rest gives a rejoined whole |
| SchemaParser.SplitStep | src/Migrations/SchemaParser.php:37 | at a match, a new empty field starts and the consumed text becomes the first separator |
| SchemaParser.CharStep | src/Migrations/SchemaParser.php:37 | away from a match, the character joins the first field and the separators are unchanged |
| SchemaParser.SplitIsSeparator | src/Migrations/SchemaParser.php:37 | a match consumes a comma and at most one whitespace character, and takes the whitespace whenever there is one |
| SchemaParser.RejoinAfterSeparator | src/Migrations/SchemaParser.php:37 | a separator in front of a rejoined text is a rejoined text with one more field |
| SchemaParser.GrowHeadKeepsBareComma | src/Migrations/SchemaParser.php:37 | growing the first field keeps every bare comma unfollowed by whitespace |
| SchemaParser.FirstFieldHead | src/Migrations/SchemaParser.php:37 | the first field starts with the schema's first character unless the schema starts with a separator |
| SchemaParser.FieldCount | src/Migrations/SchemaParser.php:37 | one field per splitting comma, plus one |
| SchemaParser.NoCommaOneField | src/Migrations/SchemaParser.php:37 | text without a comma is one field |
| SchemaParser.FieldsAfterPlainText | src/Migrations/SchemaParser.php:37 | comma-free text in front extends the first field only |
| SchemaParser.ParenthesisedCommaKept | spec/Migrations/SchemaParserSpec.php:38-40 | a comma whose next parenthesis is a closing one does not split, so `amount:decimal(5,2)` stays one field |
| SchemaParser.CommaBeforeClose | src/Migrations/SchemaParser.php:37 | a comma whose next parenthesis is `)` does not split |
| SchemaParser.ParenAfterPlain | src/Migrations/SchemaParser.php:37 | the first parenthesis after paren-free text is the `)` that follows it |
| SchemaParser.CommaSpaceSplits | spec/Migrations/SchemaParserSpec.php:23-26 | `a, b` splits into `a` and `b`, the whitespace consumed |
| SchemaParser.OnlyOneSpaceTaken | src/Migrations/SchemaParser.php:37 | only one following whitespace character is consumed; a second stays in the next field |
| SchemaParser.NoParenNone | src/Migrations/SchemaParser.php:37 | text without parentheses has no next parenthesis |
| SchemaParser.ColumnsPerField | src/Migrations/SchemaParser.php:17-26 | exactly one descriptor per field, the i-th being the details of the i-th field |
| SchemaParser.NameBeforeFirstColon | src/Migrations/SchemaParser.php:48-50 | `name` is the text before the first `:`, or the whole field when there is none |
| SchemaParser.TypeBetweenColons | src/Migrations/SchemaParser.php:48-51 | after the name, the remaining segments are the explosion of the text after the first `:` |
| SchemaParser.TypeSegments | src/Migrations/SchemaParser.php:48-53 | `name:type:tok...` explodes into the name, the type and the tokens |
| SchemaParser.PlainTypeNoArguments | src/Migrations/SchemaParser.php:51-57 | a type without `(` is kept as written, with empty arguments |
| SchemaParser.PlainTypeNoMatch | src/Migrations/SchemaParser.php:57 | the type regex needs a `(`, so a type without one does not match |
| SchemaParser.TypeWithArguments | src/Migrations/SchemaParser.php:57-60 | a type `T(A)` becomes type `T` with arguments `A` exploded at every comma, raw and untrimmed |
| SchemaParser.TypeOfShape | src/Migrations/SchemaParser.php:57 | the match of `T(A)` at the level of characters |
| SchemaParser.LineStartAtZero | src/Migrations/SchemaParser.php:57 | with no line feed before a position, its line starts at 0 |
| SchemaParser.TypeMatchAt | src/Migrations/SchemaParser.php:57-58 | the match's type and argument text at a known `(` and `)` |
| SchemaParser.TypeMatchFound | src/Migrations/SchemaParser.php:57 | a usable `(` means the regex matches |
| SchemaParser.TypeMatchType | src/Migrations/SchemaParser.php:58 | the type is the text before the `(` |
| SchemaParser.TypeMatchArguments | src/Migrations/SchemaParser.php:59 | the argument text runs to the first `)` |
| SchemaParser.ArgumentsMatch | src/Migrations/SchemaParser.php:57-59 | the type regex takes `T(A)` apart into `T` and `A` when `T` has no `(` or line feed and `A` no `)` |
| SchemaParser.MatchAtArguments | src/Migrations/SchemaParser.php:59 | the second group of a match ends just before the first `)` after its `(` |
| MigrationSchemaParser.Fields | src/MigrationSchemaParser.php:35-38 | `preg_split` never returns an empty list |
| MigrationSchemaParser.GetDetails | src/MigrationSchemaParser.php:46-55 | the name, the type and the options shifted off the segments equal `Details`, with no arguments; the type is `None` (PHP `null`) when no segment is left to shift |
| MigrationSchemaParser.Parse | src/MigrationSchemaParser.php:15-27 | the loop equals `ParseSpec`, one descriptor per field in order |
| MigrationSchemaParser.EveryCommaSplits | src/MigrationSchemaParser.php:37 | there is one more field than there are commas, and no field holds a comma |
| MigrationSchemaParser.CommaCountSkip | src/MigrationSchemaParser.php:37 | each match consumes exactly one comma |
| MigrationSchemaParser.FieldsRejoin | src/MigrationSchemaParser.php:37 | the fields with the separators rejoin to the schema; each separator is a comma with at most one whitespace character on each side |
| MigrationSchemaParser.RejoinAtMatch | src/MigrationSchemaParser.php:37 | a match of `\s?,\s?` in front of a rejoined rest gives a rejoined whole |
| MigrationSchemaParser.RejoinAtChar | src/MigrationSchemaParser.php:37 | a character that starts no match in front of a rejoined rest gives a rejoined whole |
| MigrationSchemaParser.MatchStep | src/MigrationSchemaParser.php:37 | at a match, a new empty field starts and the matched text becomes the first separator |
| MigrationSchemaParser.CharStep | src/MigrationSchemaParser.php:37 | away from a match, the character joins the first field and the separators are unchanged |
| MigrationSchemaParser.MatchIsSeparator | src/MigrationSchemaParser.php:37 | what one match consumes is a comma with at most one whitespace character on each side |
| MigrationSchemaParser.RejoinAfterSeparator | src/MigrationSchemaParser.php:37 | a separator in front of a rejoined text is a rejoined text with one more field |
| MigrationSchemaParser.FieldsAfterPlainText | src/MigrationSchemaParser.php:37 | comma-free text not ending in whitespace extends the first field only |
| MigrationSchemaParser.NoCommaOneField | src/MigrationSchemaParser.php:37 | text without a comma is one field |
| MigrationSchemaParser.ParenthesisedCommaSplits | src/MigrationSchemaParser.php:37 | unlike the current parser, a comma inside `(...)` splits: `decimal(5,2)` gives `decimal(5` and `2)`, where the current parser's fields are the one text |
| MigrationSchemaParser.OneComma | src/MigrationSchemaParser.php:37 | one bare comma between comma-free texts gives exactly those two fields |
| MigrationSchemaParser.CommaThenText | src/MigrationSchemaParser.php:37 | a leading bare comma gives an empty first field |
| MigrationSchemaParser.AgreesWithCurrentParser | src/MigrationSchemaParser.php:46-55 | both parsers give a field the same name and options, and the same type with no arguments when it has no `(`; where the legacy type is `null` the current one is `""` |
| MigrationSchemaParser.MissingTypeIsNull | src/MigrationSchemaParser.php:50-52 | the type is `null` exactly when the field has no `:`, and otherwise is its second `:` segment |
| SyntaxBuilder.Builder.constructor | src/Migrations/SyntaxBuilder.php:13 | a new builder has an empty template |
| SyntaxBuilder.Builder.Insert | src/Migrations/SyntaxBuilder.php:108-113 | stores the template and changes nothing else |
| SyntaxBuilder.Builder.Into | src/Migrations/SyntaxBuilder.php:122-125 | replaces every `{{schema_up}}` in the wrapper with the stored template |
| SyntaxBuilder.Builder.CreateSchemaForUpMethod | src/Migrations/SyntaxBuilder.php:38-64 | create gives the create wrapper with the Add rendering; add gives the change wrapper with Add; remove gives the change wrapper with Drop; any other action is the error; the stored template is the one inserted |
| SyntaxBuilder.Builder.CreateSchemaForDownMethod | src/Migrations/SyntaxBuilder.php:74-100 | create gives `Schema::drop('<table>');`; add gives the change wrapper with Drop; remove gives it with Add; any other action is the error |
| SyntaxBuilder.Builder.Create | src/Migrations/SyntaxBuilder.php:22-28 | up first, then down; an unknown action fails in the up method, so the down method never fails after it; the template left behind is the up rendering for `create`, the down rendering for `add`/`remove`, and unchanged on error |
| SyntaxBuilder.AddColumn | src/Migrations/SyntaxBuilder.php:174-183 | the `.=` loop gives `$table->TYPE('NAME')`, one `->KEY(VALUE)` per option in map order (flags as `()`), then `;` |
| SyntaxBuilder.DropStatement | src/Migrations/SyntaxBuilder.php:191-194 | `dropColumn`: the column's name between `$table->dropColumn('` and `');`, and nothing else of the column |
| SyntaxBuilder.ConstructSchema | src/Migrations/SyntaxBuilder.php:154-165 | one statement per column in column order, joined by a newline and 12 spaces; an empty or absent schema gives `""` |
| SyntaxBuilder.Statements | src/Migrations/SyntaxBuilder.php:158-162 | `array_map` keeps the number of columns |
| SyntaxBuilder.OptionCallsAppend | src/Migrations/SyntaxBuilder.php:178-180 | rendering options turns concatenation of maps into concatenation of calls |
| SyntaxBuilder.OptionCallsSnoc | src/Migrations/SyntaxBuilder.php:178-180 | each option's call is appended after the earlier ones |
| SyntaxBuilder.RenderingEmptyIff | src/Migrations/SyntaxBuilder.php:156-164 | the rendering is empty exactly when there are no columns, in either direction |
| SyntaxBuilder.RenderingSnoc | src/Migrations/SyntaxBuilder.php:158-164 | one more column adds exactly one separator and its statement at the end |
| SyntaxBuilder.RenderingEnds | src/Migrations/SyntaxBuilder.php:164 | a rendering starts with the first statement and ends with the last: no leading or trailing separator |
| SyntaxBuilder.ArgumentsNeverRendered | src/Migrations/SyntaxBuilder.php:174-194 | schemas that differ only in arguments render alike |
| SyntaxBuilder.DropDependsOnlyOnNames | src/Migrations/SyntaxBuilder.php:191-194 | the Drop rendering depends only on the column names |
| SyntaxBuilder.StatementsAlign | src/Migrations/SyntaxBuilder.php:158-193 | the Add and Drop renderings have one statement per column, and the i-th of each names the i-th column |
| SyntaxBuilder.CreateFailsIff | src/Migrations/SyntaxBuilder.php:63-99 | `create` errs exactly when the action is not create, add or remove, with the fixed message |
| SyntaxBuilder.CreateAction | src/Migrations/SyntaxBuilder.php:44-80 | for create: up is the create wrapper filled with the Add rendering, and down is exactly `Schema::drop('<table>');` |
| SyntaxBuilder.RemoveMirrorsAdd | src/Migrations/SyntaxBuilder.php:50-96 | up(remove) = down(add) and down(remove) = up(add), whatever the tables |
| SyntaxBuilder.IntoKeepsWrapper | src/Migrations/SyntaxBuilder.php:122-125 | `into` keeps the wrapper's text between placeholders, puts the template into each gap, and changes nothing else |
| SyntaxBuilder.IntoWithoutPlaceholder | src/Migrations/SyntaxBuilder.php:87-124 | a wrapper without `{{schema_up}}` comes back unchanged |
| MigrationMakeCommand.QuotedString | src/Commands/MigrationMakeCommand.php:122-124 | the value between single quotes, nothing escaped |
| MigrationMakeCommand.QuotedList | src/Commands/MigrationMakeCommand.php:133 | one quoted value per value |
| MigrationMakeCommand.QuotedValuesEmpty | src/Commands/MigrationMakeCommand.php:132-135 | no values give `[]` |
| MigrationMakeCommand.QuotedValuesSnoc | src/Commands/MigrationMakeCommand.php:132-135 | one more value adds `, ` and that quoted value before `]` |
| MigrationMakeCommand.CastFields | src/Commands/MigrationMakeCommand.php:142-144 | the filter keeps exactly the date columns of the schema |
| MigrationMakeCommand.CastFieldsSnoc | src/Commands/MigrationMakeCommand.php:142-144 | the filter keeps schema order |
| MigrationMakeCommand.CastEntriesAppend | src/Commands/MigrationMakeCommand.php:150-153 | the entries of two lists are the entries of each, in order |
| MigrationMakeCommand.CastEntriesSnoc | src/Commands/MigrationMakeCommand.php:150-153 | each column's entry is appended after the earlier ones |
| MigrationMakeCommand.Command.GetCasts | src/Commands/MigrationMakeCommand.php:141-157 | the loop gives the header, one `'NAME' => 'datetime'` entry per date column in schema order, then `    ];\n`; nothing without a date column |
| MigrationMakeCommand.CastsEmptyIff | src/Commands/MigrationMakeCommand.php:142-147 | the casts are empty exactly when no lowercased type contains `datetime` or `timestamp` |
| MigrationMakeCommand.DateTestIgnoresCase | src/Commands/MigrationMakeCommand.php:143 | types equal up to case are treated alike |
| MigrationMakeCommand.Names | src/Commands/MigrationMakeCommand.php:178-180 | one name per column |
| MigrationMakeCommand.LastIndex | src/Commands/MigrationMakeCommand.php:189 | the last position of the character, or none iff it does not occur |
| MigrationMakeCommand.Command.MakeModel | src/Commands/MigrationMakeCommand.php:177-193 | the new model contents with fillable and casts injected, or the error of reading an unset `$rawSchema` |
| MigrationMakeCommand.InjectionChangesIff | src/Commands/MigrationMakeCommand.php:182-188 | the contents change exactly when there are columns and the file has no `$fillable` |
| MigrationMakeCommand.InjectionShape | src/Commands/MigrationMakeCommand.php:183-189 | the text before the last `}` is kept, that `}` becomes fillable plus casts, and `}\n` is appended |
| MigrationMakeCommand.ReplaceLastAt | src/Commands/MigrationMakeCommand.php:189 | `Str::replaceLast` of one character replaces it at its last occurrence and keeps the text on both sides |
| MigrationMakeCommand.InjectionWithoutBrace | src/Commands/MigrationMakeCommand.php:189 | a file with no `}` only gets `}\n` appended |
| MigrationMakeCommand.FillableTextNamesFillable | src/Commands/MigrationMakeCommand.php:183 | the inserted text contains `$fillable` |
| MigrationMakeCommand.InjectedMentionsFillable | src/Commands/MigrationMakeCommand.php:188-189 | after an injection, the file contains `$fillable` |
| MigrationMakeCommand.FillableBetween | src/Commands/MigrationMakeCommand.php:183-189 | any text holding the `$fillable` declaration mentions `$fillable` |
| MigrationMakeCommand.InjectionIdempotent | src/Commands/MigrationMakeCommand.php:188-190 | injecting twice is injecting once, for files that contain a `}` |
| Strings.ContainsWithin | src/Commands/MigrationMakeCommand.php:188 | an occurrence inside a middle part is an occurrence in the whole |
| Strings.ContainsExtends | src/Commands/MigrationMakeCommand.php:188 | appending text keeps an occurrence |
| MigrationMakeCommand.Command.constructor | src/Commands/MigrationMakeCommand.php:84 | the intent is the parsed name, and `$rawSchema` holds nothing yet |
| MigrationMakeCommand.Command.ReplaceClassName | src/Commands/MigrationMakeCommand.php:261-268 | every `{{class}}` becomes `ucwords(camel(name))` |
| MigrationMakeCommand.Command.ReplaceTableName | src/Commands/MigrationMakeCommand.php:276-283 | every `{{table}}` becomes the parsed table |
| MigrationMakeCommand.Command.ReplaceSchema | src/Commands/MigrationMakeCommand.php:291-304 | a truthy option is parsed and saved in `$rawSchema`; up goes into `{{schema_up}}`, then down into `{{schema_down}}`; parse and builder errors propagate |
| MigrationMakeCommand.Command.CompileMigrationStub | src/Commands/MigrationMakeCommand.php:244-253 | class, then schema, then table, in that order; `meta` is unchanged, and a truthy `--schema` that parses is left in `rawSchema` for the model step, which otherwise keeps its old value |
| MigrationMakeCommand.CompileFailsIff | src/Commands/MigrationMakeCommand.php:248-299 | compiling fails exactly when the schema does not parse or the action is not recognised |
| MigrationMakeCommand.FragmentsFilledLast | src/Commands/MigrationMakeCommand.php:248-301 | `{{schema_down}}` and `{{table}}` tokens inside the up fragment are filled too, because they are replaced after it |
| MigrationMakeCommand.PlaceholderHasNoClassToken | src/Commands/MigrationMakeCommand.php:265 | the class replacement leaves `{{schema_up}}` alone |
| PivotMigrationMakeCommand.SortedTableNames | src/Commands/PivotMigrationMakeCommand.php:170-180 | two names, in ascending order, a permutation of the two lowercased arguments |
| PivotMigrationMakeCommand.GetSortedTableNames | src/Commands/PivotMigrationMakeCommand.php:170-180 | the compare-and-swap on the array gives the sorted pair |
| PivotMigrationMakeCommand.PivotTableName | src/Commands/PivotMigrationMakeCommand.php:160-163 | `getPivotTableName`: the singular of the smaller lowercased name, `_`, the singular of the larger |
| PivotMigrationMakeCommand.ParseName | src/Commands/PivotMigrationMakeCommand.php:57-63 | `parseName`: `Create`, the capitalised singulars of the smaller then the larger lowercased name, `PivotTable` |
| PivotMigrationMakeCommand.GetStub | src/Commands/PivotMigrationMakeCommand.php:70-77 | `getStub`: the schema stub exactly when the `--schema` option is given and is neither `""` nor `"0"` |
| PivotMigrationMakeCommand.GetPath | src/Commands/PivotMigrationMakeCommand.php:85-89 | `getPath`: the migrations directory and timestamp, then `_create_<pivot>_pivot_table.php`, with nothing in between (the length is pinned) |
| PivotMigrationMakeCommand.ReplacePivotTableName | src/Commands/PivotMigrationMakeCommand.php:111-116 | every `{{pivotTableName}}` becomes the pivot table name, the text between them is kept, and a stub without it is unchanged |
| PivotMigrationMakeCommand.ReplaceClass | src/Commands/PivotMigrationMakeCommand.php:149-153 | every `{{class}}` becomes the class name, the text between them is kept, and a stub without it is unchanged |
| PivotMigrationMakeCommand.LessEqTotal | src/Commands/PivotMigrationMakeCommand.php:177 | any two names are comparable |
| PivotMigrationMakeCommand.LessEqAntisymmetric | src/Commands/PivotMigrationMakeCommand.php:177 | names ordered both ways are equal |
| PivotMigrationMakeCommand.SortedOrderFree | src/Commands/PivotMigrationMakeCommand.php:170-180 | the sorted pair does not depend on the argument order |
| PivotMigrationMakeCommand.PivotTableNameOrderFree | src/Commands/PivotMigrationMakeCommand.php:160-163 | the pivot table name is `singular(t1)_singular(t2)` of the sorted names, whatever the argument order |
| PivotMigrationMakeCommand.NamesOrderFree | src/Commands/PivotMigrationMakeCommand.php:57-89 | the class and file names do not depend on the argument order |
| PivotMigrationMakeCommand.ClassNameShape | src/Commands/PivotMigrationMakeCommand.php:59-62 | the class name starts with `Create` and ends with `PivotTable` |
| PivotMigrationMakeCommand.PathSuffix | src/Commands/PivotMigrationMakeCommand.php:85-89 | the path ends in `_create_` + pivot table name + `_pivot_table.php` |
| PivotMigrationMakeCommand.ReplaceSchema | src/Commands/PivotMigrationMakeCommand.php:124-140 | the four placeholders get the singular and the lowercased sorted names in turn; a truthy schema is parsed and then fails, because `createPivotSchema` is missing |
| PivotMigrationMakeCommand.BuildClass | src/Commands/PivotMigrationMakeCommand.php:97-103 | pivot table name, then schema, then class |
| PivotMigrationMakeCommand.BuildClassOkIff | src/Commands/PivotMigrationMakeCommand.php:70-137 | the build succeeds exactly when `getStub` picks the plain stub, i.e. when there is no truthy schema option |
| PivotMigrationMakeCommand.FillTablesWithoutPlaceholders | src/Commands/PivotMigrationMakeCommand.php:128-132 | a stub without the four placeholders is left unchanged |
| PivotMigrationMakeCommand.ReplaceClassKeepsStub | src/Commands/PivotMigrationMakeCommand.php:149-153 | every `{{class}}` gets the name and the text between them is kept |
| ViewMakeCommand.ViewFileShape | src/Commands/ViewMakeCommand.php:72 | the middle part has the view name's length, holds no `.`, and keeps every other character in place |
| ViewMakeCommand.DotlessViewUnchanged | src/Commands/ViewMakeCommand.php:72 | a view name without dots passes through unchanged |
| ViewMakeCommand.PathShape | src/Commands/ViewMakeCommand.php:72 | the path is `./resources/views/`, the middle part, then `.blade.php` |
| ViewMakeCommand.GetPath | src/Commands/ViewMakeCommand.php:70-73 | `getPath`: `./resources/views/`, a middle part as long as the view name and free of `.`, then `.blade.php` |
| SeedMakeCommand.ParseNameShape | src/Commands/SeedMakeCommand.php:40 | the class name is the capitalised camel-case name followed by `TableSeeder` |
| SeedMakeCommand.ParseName | src/Commands/SeedMakeCommand.php:38-41 | `parseName`: `ucwords(camel(name))` followed by `TableSeeder` |
| SeedMakeCommand.GetPath | src/Commands/SeedMakeCommand.php:59-62 | `getPath`: `./database/seeds/`, a middle part as long as the name and free of `\`, then `.php` |
| SeedMakeCommand.ReplaceClassName | src/Commands/SeedMakeCommand.php:84-89 | every `{{class}}` becomes `ucwords(camel(name))`, the text between them is kept, and a stub without it is unchanged |
| SeedMakeCommand.BuildClass | src/Commands/SeedMakeCommand.php:70-75 | `buildClass` on the stub text: the class-name replacement, with the same two facts |
| SeedMakeCommand.SeedFileShape | src/Commands/SeedMakeCommand.php:61 | the middle part holds no backslash, keeps the name's length and every other character |
| SeedMakeCommand.PathShape | src/Commands/SeedMakeCommand.php:61 | the path is `./database/seeds/`, the middle part, then `.php` |
| SeedMakeCommand.ReplaceClassNameKeepsStub | src/Commands/SeedMakeCommand.php:70-89 | every `{{class}}` gets `ucwords(camel(name))` and the stub text between them is kept |
| SeedMakeCommand.StubWithoutPlaceholder | src/Commands/SeedMakeCommand.php:86 | a stub without `{{class}}` comes back unchanged |
| Strings.Split | src/Migrations/SchemaParser.php:48 | `explode` with a one-character separator returns at least one part, and no part holds the separator |
| Strings.SplitJoin | src/Migrations/NameParser.php:15 | imploding the parts with the separator gives back the exploded text |
| Strings.JoinSplit | src/Migrations/SchemaParser.php:48 | exploding the implosion of separator-free parts gives back the parts |
| Strings.SplitPrefix | src/Migrations/SchemaParser.php:48 | separator-free text in front extends the first part only |
| Strings.SplitHead | src/Migrations/SchemaParser.php:48-50 | the first part is the text up to the first separator; the other parts explode what follows it |
| Strings.Lower | src/Commands/PivotMigrationMakeCommand.php:173-174 | `strtolower` keeps the length and lowers each character |
| Strings.Ucwords | src/Commands/SeedMakeCommand.php:40 | `ucwords` keeps the length and upper-cases the first character and each one after a delimiter |
| Strings.Reverse | src/Migrations/NameParser.php:15-45 | `array_reverse` puts the i-th element at position n-1-i |
| Strings.ReverseReverse | src/Migrations/NameParser.php:15-45 | reversing twice gives back the list |
| Strings.ReverseOfPrefix | src/Migrations/NameParser.php:37-45 | the reversal of a prefix is the matching suffix of the reversal |
| Strings.Pieces | src/Migrations/SyntaxBuilder.php:124 | the subject between the occurrences `str_replace` finds: at least one piece |
| Strings.ReplaceAll | src/Migrations/SyntaxBuilder.php:124 | `str_replace` with one search string: a subject without it, or a replacement equal to it, leaves the subject unchanged |
| Strings.ReplaceAllJoinsPieces | src/Migrations/SyntaxBuilder.php:124 | `str_replace` writes the replacement between the pieces and nowhere else |
| Strings.ReplaceAllSelf | src/Migrations/SyntaxBuilder.php:124 | replacing the search string by itself changes nothing |
| Strings.PiecesRejoin | src/Migrations/SyntaxBuilder.php:124 | the pieces with the search string between them are the subject |
| Strings.PiecesHeadIsPrefix | src/Migrations/SyntaxBuilder.php:124 | the first piece is a prefix of the subject |
| Strings.PiecesAvoidPattern | src/Migrations/SyntaxBuilder.php:124 | no piece contains the search string: every occurrence is replaced |
| Strings.ReplaceAllAbsent | src/Commands/MigrationMakeCommand.php:265 | a subject without the search string comes back unchanged |
| Strings.ReplaceAllWhole | src/Migrations/SyntaxBuilder.php:124 | a subject that is exactly the search string becomes exactly the replacement |
| Strings.ReplaceAllChar | src/Commands/ViewMakeCommand.php:72 | a one-character replacement maps the subject character by character and keeps its length |
| Strings.JoinSnoc | src/Migrations/SyntaxBuilder.php:164 | `implode` of one more part adds a separator and that part at the end |
| Strings.Join | src/Migrations/SyntaxBuilder.php:164 | `implode`: a non-empty list's result starts with its first part (`JoinEnds` adds that it ends with the last) |
| Strings.JoinEnds | src/Migrations/SyntaxBuilder.php:164 | `implode` of a non-empty list starts with the first part and ends with the last |
| Strings.ContainsAt | src/Commands/MigrationMakeCommand.php:188 | an occurrence at any position makes `Str::contains` true |
| Strings.Contains | src/Commands/MigrationMakeCommand.php:188 | `Str::contains` with one needle: a found needle is no longer than the text |
| Strings.ContainsMiddle | src/Commands/MigrationMakeCommand.php:188 | a text contains whatever is written inside it |
| Strings.MissingCharAbsent | src/Commands/MigrationMakeCommand.php:188 | a text lacking one of the needle's characters does not contain the needle |

## Left out

- File-system work is not modelled: reading the stubs, `exists`/`put`/`get`/`makeDirectory`, `composer->dumpAutoloads`, the `make:model` call and console output. Stub and file contents are parameters.
- `date()` is not modelled. The timestamp in the pivot migration path is a parameter, and the migration command's `getPath` and `getModelPath` are not modelled.
- `src/GeneratorsServiceProvider.php` is framework bootstrapping and is not part of this model.
- The legacy command `src/MigrationMakeCommand.php` is not part of this model. It depends on classes that are not shown.
- `Str::singular`, `str_singular`, `Str::camel`, `camel_case` and `getModelName` are Laravel's inflector and are not part of this model. They are parameters.
- The `--model` option is not modelled. `MakeModel` computes the new model contents as if the option were truthy.
- `createPivotSchema` is called at src/Commands/PivotMigrationMakeCommand.php:136 but does not exist in `SyntaxBuilder`. The model stops at that call with PHP's undefined-method error.
- `GeneratorsException` is thrown at src/Migrations/SyntaxBuilder.php:63 and :99. In the namespace `Laracasts\Generators\Migrations` that name resolves to a class that does not exist; src/GeneratorException.php defines `Laracasts\Generators\GeneratorException`. PHP therefore raises `Class "Laracasts\Generators\Migrations\GeneratorsException" not found` instead. The model returns an `Err` with the message the code intends (`SyntaxBuilder.CouldNotDetermine`), not PHP's class-not-found message, and the exception class is not modelled.
- `Strings.Contains`: Laravel's `Str::contains` returns false for an empty needle, and `Contains(s, "")` is true. Every needle in the model is a non-empty literal (`$fillable`, `datetime`, `timestamp`, the `{{…}}` placeholders), so the difference is never reached.
- `strtolower` and `ucwords` are modelled on ASCII letters only. There is no multibyte case mapping.
- `GetSortedTableNames`: PHP `sort` compares numeric-looking strings as numbers. The model compares names character by character.
- `SchemaOptions.Put`: PHP turns an integer-like key such as `"1"` into an integer. Here keys stay strings.
- `SchemaParser.Details`: a field without `:` gives PHP a `null` type. Here that type is `""`. Concatenation and `strtolower` treat `null` exactly like `""`, and the deprecation notice that PHP 8.1 emits for it is not modelled. The legacy parser's descriptor, which is its final output, keeps the `null` as `None` (`MigrationSchemaParser.MissingTypeIsNull`).
- `SchemaOptions.OptionEntry`: a token with `(` that the option regex does not match reads an undefined index. Laravel turns that warning into an exception, so the model returns `Err("Undefined array key 1")`. A PHP setup that only warns would instead store a `null` key and value.
- `SchemaParser.Parse`: `parse('')` returns one empty-named field, as the code does. Callers never pass an empty schema.
- `SyntaxBuilder.Builder.constructor`: PHP leaves `$template` unset (`null`) until `insert`. Here it starts as `""`, which nothing reads before `insert` writes it.
- `SyntaxBuilder.ConstructSchema`: `array_map` over the columns is written as a loop calling `AddColumn`.
- `MigrationMakeCommand.IsDateColumn`: `Str::contains` with two needles is written as two single-needle tests.
- The name examples (`create_posts_table` and others) are stated as `Join(words, "_")` of their words rather than as string literals.
- `MigrationMakeCommand.InjectionIdempotent` holds only for model files that contain a `}`. Without one, `Str::replaceLast` replaces nothing, so each run appends another `}\n` (`InjectionWithoutBrace`).
- Behaviour that only the PhpSpec tests expect is not modelled, because the source does not implement it:
  - foreign-key expansion;
  - automatic `id`/`timestamps` columns;
  - rendered arguments;
  - `dropIfExists`.

