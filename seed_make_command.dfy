/**
  The naming logic of the `make:seed` command (src/Commands/SeedMakeCommand.php).
  `camel_case` is an uninterpreted function.
 */
module SeedMakeCommand {
  import opened Strings

  /** `ucwords(camel_case($name))`. */
  function ClassName(camel: string -> string, name: string): string {
    Ucwords(camel(name))
  }

  /** `parseName`. */
  function ParseName(camel: string -> string, name: string): (r: string)
    ensures EndsWith(r, "TableSeeder")
    ensures r[..|r| - 11] == Ucwords(camel(name))
  {
    ClassName(camel, name) + "TableSeeder"
  }

  /** The name with every `\` turned into `/`. */
  function SeedFile(name: string): string {
    ReplaceAll(name, "\\", "/")
  }

  /** `getPath`. */
  function GetPath(name: string): (r: string)
    ensures IsPrefix("./database/seeds/", r) && EndsWith(r, ".php")
    ensures |r| == |name| + 21
    ensures '\\' !in r[17..|r| - 4]
  {
    SeedFileShape(name);
    "./database/seeds/" + SeedFile(name) + ".php"
  }

  /** `replaceClassName`. */
  function ReplaceClassName(stub: string, camel: string -> string, name: string): (r: string)
    ensures r == Join(Pieces(stub, "{{class}}"), Ucwords(camel(name)))
    ensures !Contains(stub, "{{class}}") ==> r == stub
  {
    ReplaceAllJoinsPieces(stub, "{{class}}", ClassName(camel, name));
    ReplaceAll(stub, "{{class}}", ClassName(camel, name))
  }

  /** `buildClass` on the stub text. */
  function BuildClass(stub: string, camel: string -> string, name: string): (r: string)
    ensures r == Join(Pieces(stub, "{{class}}"), Ucwords(camel(name)))
    ensures !Contains(stub, "{{class}}") ==> r == stub
  {
    ReplaceClassName(stub, camel, name)
  }

  /** The class name always ends in `TableSeeder`, after the capitalised camel-case name. */
  lemma ParseNameShape(camel: string -> string, name: string)
    ensures EndsWith(ParseName(camel, name), "TableSeeder")
    ensures ParseName(camel, name)[..|ParseName(camel, name)| - 11] == ClassName(camel, name)
    ensures |ClassName(camel, name)| == |camel(name)|
  {
  }

  /** The middle part of the path holds no backslash, keeps the name's length and every other character. */
  lemma SeedFileShape(name: string)
    ensures |SeedFile(name)| == |name|
    ensures forall i :: 0 <= i < |name| ==> SeedFile(name)[i] == if name[i] == '\\' then '/' else name[i]
    ensures '\\' !in SeedFile(name)
  {
    ReplaceAllChar(name, '\\', '/');
    var f := SeedFile(name);
    forall i | 0 <= i < |f| ensures f[i] != '\\' {
      assert f[i] == if name[i] == '\\' then '/' else name[i];
    }
  }

  /** The path is the seeds directory, the middle part and `.php`. */
  lemma PathShape(name: string)
    ensures IsPrefix("./database/seeds/", GetPath(name))
    ensures EndsWith(GetPath(name), ".php")
    ensures GetPath(name)[17..|GetPath(name)| - 4] == SeedFile(name)
  {
  }

  /** Every `{{class}}` gets the class name and the stub text between them is kept. */
  lemma ReplaceClassNameKeepsStub(stub: string, camel: string -> string, name: string)
    ensures BuildClass(stub, camel, name) == Join(Pieces(stub, "{{class}}"), ClassName(camel, name))
    ensures Join(Pieces(stub, "{{class}}"), "{{class}}") == stub
  {
    ReplaceAllJoinsPieces(stub, "{{class}}", ClassName(camel, name));
    PiecesRejoin(stub, "{{class}}");
  }

  /** A stub without `{{class}}` comes back unchanged. */
  lemma StubWithoutPlaceholder(stub: string, camel: string -> string, name: string)
    requires !Contains(stub, "{{class}}")
    ensures BuildClass(stub, camel, name) == stub
  {
    ReplaceAllAbsent(stub, "{{class}}", ClassName(camel, name));
  }
}
