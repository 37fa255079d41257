/** The path logic of the `make:view` command (src/Commands/ViewMakeCommand.php). */
module ViewMakeCommand {
  import opened Strings

  /** The view name with every `.` turned into `/`. */
  function ViewFile(view: string): string {
    ReplaceAll(view, ".", "/")
  }

  /** `getPath`. */
  function GetPath(view: string): (r: string)
    ensures IsPrefix("./resources/views/", r) && EndsWith(r, ".blade.php")
    ensures |r| == |view| + 28
    ensures '.' !in r[18..|r| - 10]
  {
    ViewFileShape(view);
    "./resources/views/" + ViewFile(view) + ".blade.php"
  }

  /** The middle part has the view name's length, keeps every other character in place, and holds no `.`. */
  lemma ViewFileShape(view: string)
    ensures |ViewFile(view)| == |view|
    ensures forall i :: 0 <= i < |view| ==> ViewFile(view)[i] == if view[i] == '.' then '/' else view[i]
    ensures '.' !in ViewFile(view)
  {
    ReplaceAllChar(view, '.', '/');
    var f := ViewFile(view);
    forall i | 0 <= i < |f| ensures f[i] != '.' {
      assert f[i] == if view[i] == '.' then '/' else view[i];
    }
  }

  /** A view name without dots passes through unchanged. */
  lemma DotlessViewUnchanged(view: string)
    requires '.' !in view
    ensures ViewFile(view) == view
  {
    ViewFileShape(view);
  }

  /** The path is the views directory, the middle part and the `.blade.php` extension. */
  lemma PathShape(view: string)
    ensures IsPrefix("./resources/views/", GetPath(view))
    ensures EndsWith(GetPath(view), ".blade.php")
    ensures GetPath(view)[18..|GetPath(view)| - 10] == ViewFile(view)
  {
  }
}
