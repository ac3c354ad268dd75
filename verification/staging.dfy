/** The staging logic of the build: the prioritised component list, the
    split of the rebuild set into prioritised and remaining files, and the
    mapping of every source path to its output paths and compile lists. */
module Staging {
  import opened Wrappers
  import opened Text
  import opened FsPath

  const OutputDirectory: string := "actual-website-do-not-edit"
  const SourceDirectory: string := "edit-me"
  const SharedDirectory: string := "edit-me/shared"
  const CompilationOrderFile: string := "reusables-compilation-order.txt"

  // ---------------------------------------------------------------------
  // The priority list.
  // ---------------------------------------------------------------------

  /** A trimmed line that names an entry: not blank and not a `#` comment. */
  predicate IsEntry(line: string) {
    line != "" && line[0] != '#'
  }

  /** The entries of the order file, trimmed, in file order. */
  function Entries(lines: seq<string>): (es: seq<string>)
    ensures forall i :: 0 <= i < |es| ==> IsEntry(es[i])
    ensures |es| <= |lines|
  {
    if |lines| == 0 then []
    else
      var t := Trim(lines[0], IsRustSpace);
      (if IsEntry(t) then [t] else []) + Entries(lines[1..])
  }

  /** The first entry that is not a known directory, if any. */
  function FirstInvalid(es: seq<string>, validDirs: set<string>): (r: Option<string>)
    ensures r.None? <==> forall i :: 0 <= i < |es| ==> es[i] in validDirs
    ensures r.Some? ==> exists i :: 0 <= i < |es| && es[i] == r.value && r.value !in validDirs
                                    && forall j :: 0 <= j < i ==> es[j] in validDirs
  {
    if |es| == 0 then None
    else if es[0] !in validDirs then Some(es[0])
    else
      var r := FirstInvalid(es[1..], validDirs);
      assert forall i :: 1 <= i < |es| ==> es[i] == es[1..][i - 1];
      if r.Some? then
        var i :| 0 <= i < |es[1..]| && es[1..][i] == r.value && r.value !in validDirs
                 && forall j :: 0 <= j < i ==> es[1..][j] in validDirs;
        assert es[i + 1] == r.value;
        r
      else r
  }

  /** The order file's lines, each checked against the directories under the
      shared directory: the list is every entry in order, unless an entry is
      not one of them, in which case the first such entry fails the whole
      list. */
  function ValidateLines(lines: seq<string>, validDirs: set<string>): (r: Result<seq<string>, string>)
    ensures r == match FirstInvalid(Entries(lines), validDirs)
                 case None => Ok(Entries(lines))
                 case Some(e) => Err(e)
  {
    if |lines| == 0 then Ok([])
    else
      var t := Trim(lines[0], IsRustSpace);
      var rest := ValidateLines(lines[1..], validDirs);
      if !IsEntry(t) then
        assert Entries(lines) == Entries(lines[1..]);
        rest
      else
        assert Entries(lines) == [t] + Entries(lines[1..]);
        assert ([t] + Entries(lines[1..]))[1..] == Entries(lines[1..]);
        if t !in validDirs then Err(t)
        else
          match rest
          case Ok(es) => Ok([t] + es)
          case Err(e) => Err(e)
  }


  /** `load_components_list`: the order file's text if it exists, and the
      paths (relative to the shared directory) of every directory under it. */
  function LoadComponentsList(orderFile: Option<string>, validDirs: set<string>): (r: Result<seq<string>, string>)
    ensures orderFile.None? ==> r == Err(Push(SharedDirectory, CompilationOrderFile))
    ensures orderFile.Some? ==>
      var es := Entries(Split(orderFile.value, "\n"));
      && (r.Ok? <==> forall i :: 0 <= i < |es| ==> es[i] in validDirs)
      && (r.Ok? ==> r.value == es)
      && (r.Err? ==> exists i :: 0 <= i < |es| && es[i] == r.error && r.error !in validDirs
                                 && forall j :: 0 <= j < i ==> es[j] in validDirs)
  {
    match orderFile
    case None => Err(Push(SharedDirectory, CompilationOrderFile))
    case Some(content) =>
      var r := ValidateLines(Split(content, "\n"), validDirs);
      assert r.Err? ==> FirstInvalid(Entries(Split(content, "\n")), validDirs) == Some(r.error);
      r
  }

  // ---------------------------------------------------------------------
  // Prioritised and remaining files.
  // ---------------------------------------------------------------------

  /** One entry of a directory listing. */
  datatype DirEntry = DirEntry(name: string, isDir: bool)

  /** The files of one component directory that are in the rebuild set, in
      listing order; subdirectories are skipped. */
  function DirectoryFiles(dir: string, listing: seq<DirEntry>, rebuild: set<string>): (r: seq<string>)
    ensures forall i :: 0 <= i < |r| ==> r[i] in rebuild
    ensures |r| <= |listing|
  {
    if |listing| == 0 then []
    else
      var path := Push(dir, listing[0].name);
      (if !listing[0].isDir && path in rebuild then [path] else []) + DirectoryFiles(dir, listing[1..], rebuild)
  }

  /** The files staged one at a time, in priority order: for each listed
      component whose directory exists, its files that are to be rebuilt. */
  function PrioritisedFiles(components: seq<string>, dirs: map<string, seq<DirEntry>>, rebuild: set<string>): (r: seq<string>)
    ensures forall i :: 0 <= i < |r| ==> r[i] in rebuild
  {
    if |components| == 0 then []
    else
      var dir := Push(SharedDirectory, components[0]);
      (if dir in dirs then DirectoryFiles(dir, dirs[dir], rebuild) else []) + PrioritisedFiles(components[1..], dirs, rebuild)
  }

  /** `get_non_prioritised_files_list`. */
  function NonPrioritised(all: set<string>, compiled: set<string>): (r: set<string>)
    ensures r <= all
    ensures forall p :: p in all ==> (p in r <==> p !in compiled)
  {
    set p | p in all && p !in compiled
  }

  /** The staged files split the rebuild set: the prioritised ones are part
      of it, the rest is disjoint from them, and together they are all of it. */
  lemma PrioritySplitPartitions(components: seq<string>, dirs: map<string, seq<DirEntry>>, rebuild: set<string>)
    ensures var compiled := set i | 0 <= i < |PrioritisedFiles(components, dirs, rebuild)| :: PrioritisedFiles(components, dirs, rebuild)[i];
            var rest := NonPrioritised(rebuild, compiled);
            && compiled <= rebuild
            && compiled !! rest
            && compiled + rest == rebuild
  {
  }

  // ---------------------------------------------------------------------
  // Output paths.
  // ---------------------------------------------------------------------

  /** `Path::strip_prefix("edit-me")`: the path must be the source directory
      itself or lie under it; the separators after the prefix are dropped. */
  function StripSourceDirectory(path: string): (r: Option<string>)
    ensures r.Some? ==> path == SourceDirectory || StartsWith(path, SourceDirectory + "/")
    ensures r.Some? ==> !StartsWith(r.value, "/") && EndsWith(path, r.value)
    ensures (path == SourceDirectory || StartsWith(path, SourceDirectory + "/")) ==> r.Some?
  {
    if path == SourceDirectory then Some("")
    else if StartsWith(path, SourceDirectory + "/") then
      var rest := path[|SourceDirectory| + 1..];
      var k := LeadingCount(rest, c => c == '/');
      assert path[|path| - |rest[k..]|..] == rest[k..];
      Some(rest[k..])
    else None
  }

  /** A match of `pages/[^/]+/` starts at `i`. */
  predicate PagesAt(s: string, i: int) {
    OccursAt(s, "pages/", i) && i + 6 < |s| && s[i + 6] != '/' && '/' in s[i + 7..]
  }

  /** The leftmost `pages/SEGMENT/` match at or after `i`, as (start, end). */
  function FindPages(s: string, i: nat): (r: Option<(nat, nat)>)
    requires i <= |s|
    ensures r.Some? ==> i <= r.value.0 && PagesAt(s, r.value.0) && r.value.0 + 7 < r.value.1 <= |s|
                        && s[r.value.1 - 1] == '/' && '/' !in s[r.value.0 + 6..r.value.1 - 1]
    ensures r.Some? ==> forall j :: i <= j < r.value.0 ==> !PagesAt(s, j)
    ensures r.None? ==> forall j :: i <= j ==> !PagesAt(s, j)
    decreases |s| - i
  {
    if i == |s| then None
    else if PagesAt(s, i) then
      assert '/' in s[i + 6..] by { assert s[i + 6..][1..] == s[i + 7..]; }
      var g := FirstIndexOf(s[i + 6..], '/');
      assert g > 0;
      assert s[i + 6..][..g] == s[i + 6..i + 6 + g];
      Some((i, i + 6 + g + 1))
    else FindPages(s, i + 1)
  }

  /** `pages_regex.replace(path, "")`: the first `pages/SEGMENT/` is cut out. */
  function RemovePagesSegment(s: string): (r: string)
    ensures |r| <= |s|
  {
    match FindPages(s, 0)
    case None => s
    case Some((a, b)) => s[..a] + s[b..]
  }

  /** A path with no page folder in it is left as it is. */
  lemma NoPageFolderUnchanged(s: string)
    requires forall j :: !PagesAt(s, j)
    ensures RemovePagesSegment(s) == s
  {
  }

  /** A path that starts with a page folder loses exactly that folder. */
  lemma PageFolderRemoved(page: string, rest: string)
    requires page != "" && '/' !in page
    ensures RemovePagesSegment("pages/" + page + "/" + rest) == rest
  {
    var s := "pages/" + page + "/" + rest;
    assert s[6..][..|page|] == page;
    assert s[6..][|page|] == '/';
    assert s[6] == page[0];
    assert '/' in s[7..] by { assert s[7..][|page| - 1] == '/'; }
    assert PagesAt(s, 0);
    FirstIndexOfUnique(s[6..], '/', |page|);
    assert s[6 + |page| + 1..] == rest;
  }

  /** The extension swap of a trailing `.ts` or `.scss`: the compiled
      extension is appended, then every `.ts.js` (`.scss.css`) is collapsed. */
  function SwapExtension(p: string): string {
    if EndsWith(p, ".ts") then ReplaceAll(p + ".js", ".ts.js", ".js")
    else if EndsWith(p, ".scss") then ReplaceAll(p + ".css", ".scss.css", ".css")
    else p
  }

  /** A trailing `.ts` becomes `.js` when the rest of the name holds no
      `.ts.js`. */
  lemma SwapTypeScript(stem: string)
    requires !Contains(stem, ".ts.js")
    ensures SwapExtension(stem + ".ts") == stem + ".js"
  {
    assert (stem + ".ts") + ".js" == stem + ".ts.js";
    assert (stem + ".ts")[|stem|..] == ".ts";
    NoStraddleBeforeCopy(stem, ".ts.js");
    ReplaceAllConcat(stem, ".ts.js", ".ts.js", ".js");
    ReplaceAllNoMatch(stem, ".ts.js", ".js");
    WholeReplaced(".ts.js", ".js");
  }

  /** A trailing `.scss` becomes `.css` when the rest of the name holds no
      `.scss.css`. */
  lemma SwapStylesheet(stem: string)
    requires !Contains(stem, ".scss.css")
    ensures SwapExtension(stem + ".scss") == stem + ".css"
  {
    var p := stem + ".scss";
    assert p + ".css" == stem + ".scss.css";
    assert p[|stem|..] == ".scss";
    assert p[|p| - 3..] == "css";
    NoStraddleBeforeCopy(stem, ".scss.css");
    ReplaceAllConcat(stem, ".scss.css", ".scss.css", ".css");
    ReplaceAllNoMatch(stem, ".scss.css", ".css");
    WholeReplaced(".scss.css", ".css");
  }

  /** Names ending in neither `.ts` nor `.scss` keep their extension. */
  lemma SwapOther(p: string)
    requires !EndsWith(p, ".ts") && !EndsWith(p, ".scss")
    ensures SwapExtension(p) == p
  {
  }

  /** The kind of a staged file, decided by the extension of its uncompiled
      copy. */
  datatype Kind = TypeScript | Stylesheet | Other

  /** Where one source file goes: the output path with the compiled
      extension, and the uncompiled copy that keeps the source extension. */
  datatype Staged = Staged(dest: string, uncompiled: string, kind: Kind)

  function KindOf(uncompiled: string): Kind {
    if Extension(uncompiled) == Some("ts") then TypeScript
    else if Extension(uncompiled) == Some("scss") then Stylesheet
    else Other
  }

  /** The output paths of one source path, or an error for a path outside
      the source directory. */
  function MapPath(source: string): (r: Result<Staged, string>)
    ensures r.Err? <==> StripSourceDirectory(source).None?
    ensures r.Ok? ==> r.value.kind == KindOf(r.value.uncompiled)
  {
    match StripSourceDirectory(source)
    case None => Err(source)
    case Some(rel) =>
      var d := RemovePagesSegment(rel);
      Ok(Staged(Push(OutputDirectory, SwapExtension(d)), Push(OutputDirectory, d), KindOf(Push(OutputDirectory, d))))
  }

  /** A path under the source directory loses the directory prefix. */
  lemma StripUnderSource(rest: string)
    requires !StartsWith(rest, "/")
    ensures StripSourceDirectory(SourceDirectory + "/" + rest) == Some(rest)
  {
    var source := SourceDirectory + "/" + rest;
    assert source[..|SourceDirectory| + 1] == SourceDirectory + "/";
    assert source[|SourceDirectory| + 1..] == rest;
    assert rest == [] || rest[0] != '/' by {
      if rest != [] { assert rest[..1] == [rest[0]]; }
    }
    LeadingCountUnique(rest, c => c == '/', 0);
  }

  /** A TypeScript name `NAME.ts` without dots of its own is compiled to
      `NAME.js` and listed as TypeScript; with `PageSourceMaps`, a page
      script `edit-me/pages/PAGE/NAME.ts` is staged as `OUTPUT/NAME.ts`,
      compiled to `OUTPUT/NAME.js`. */
  lemma TypeScriptStaging(name: string)
    requires name != "" && '/' !in name && '.' !in name
    ensures SwapExtension(name + ".ts") == name + ".js"
    ensures KindOf(Push(OutputDirectory, name + ".ts")) == TypeScript
  {
    DotFreeHasNoScript(name);
    SwapTypeScript(name);
    assert name + "." + "ts" == name + ".ts";
    NameExtension(OutputDirectory, name, "ts");
  }

  /** A file inside a page folder is staged directly under the output
      directory, with neither the source directory nor the page folder. */
  lemma PageSourceMaps(page: string, file: string)
    requires page != "" && '/' !in page
    ensures MapPath(SourceDirectory + "/pages/" + page + "/" + file)
            == Ok(Staged(Push(OutputDirectory, SwapExtension(file)), Push(OutputDirectory, file), KindOf(Push(OutputDirectory, file))))
  {
    var rest := "pages/" + page + "/" + file;
    var source := SourceDirectory + "/pages/" + page + "/" + file;
    assert source == SourceDirectory + "/" + rest;
    assert rest[0] == 'p';
    StripUnderSource(rest);
    PageFolderRemoved(page, file);
    MapPathOf(source, rest, file);
  }

  lemma DotFreeHasNoScript(name: string)
    requires '.' !in name
    ensures !Contains(name, ".ts.js")
  {
    forall i | 0 <= i <= |name| - 6 ensures !OccursAt(name, ".ts.js", i) {
      assert name[i] != '.';
    }
  }

  lemma MapPathOf(source: string, rel: string, d: string)
    requires StripSourceDirectory(source) == Some(rel) && RemovePagesSegment(rel) == d
    ensures MapPath(source) == Ok(Staged(Push(OutputDirectory, SwapExtension(d)), Push(OutputDirectory, d), KindOf(Push(OutputDirectory, d))))
  {
  }

  lemma NameExtension(dir: string, name: string, ext: string)
    requires name != "" && '/' !in name && ext != "" && '/' !in ext && '.' !in ext
    ensures Extension(Push(dir, name + "." + ext)) == Some(ext)
  {
    var seg := name + "." + ext;
    assert '/' !in seg by {
      forall i | 0 <= i < |seg| ensures seg[i] != '/' {
        if i < |name| { assert seg[i] == name[i]; }
        else if i > |name| { assert seg[i] == ext[i - |name| - 1]; }
      }
    }
    assert seg != "." && seg != "..";
    FileNameOfPush(dir, seg);
    ExtensionOfDotted(Push(dir, seg), name, ext);
  }


  // ---------------------------------------------------------------------
  // The compile lists.
  // ---------------------------------------------------------------------

  predicate IsBlank(p: string) {
    Trim(p, IsRustSpace) == ""
  }

  /** The TypeScript and stylesheet lists of one staging call, over the
      paths in the set's iteration order: blank paths are skipped and any
      other path outside the source directory fails the call. */
  function CompileLists(paths: seq<string>): (r: Result<(seq<string>, seq<string>), string>)
    ensures r.Err? <==> exists i :: 0 <= i < |paths| && !IsBlank(paths[i]) && MapPath(paths[i]).Err?
    ensures r.Ok? ==> |r.value.0| + |r.value.1| <= |paths|
  {
    if |paths| == 0 then Ok(([], []))
    else
      assert forall i :: 1 <= i < |paths| ==> paths[i] == paths[1..][i - 1];
      var rest := CompileLists(paths[1..]);
      if IsBlank(paths[0]) then rest
      else match MapPath(paths[0])
        case Err(e) => Err(e)
        case Ok(st) =>
          match rest
          case Err(e) => Err(e)
          case Ok((ts, scss)) =>
            if st.kind == TypeScript then Ok(([st.dest] + ts, scss))
            else if st.kind == Stylesheet then Ok((ts, [st.dest] + scss))
            else Ok((ts, scss))
  }

  /** Source path `p` is staged, of kind `kind`, with output path `dest`. */
  predicate Stages(p: string, kind: Kind, dest: string) {
    !IsBlank(p) && MapPath(p).Ok? && MapPath(p).value.kind == kind && MapPath(p).value.dest == dest
  }

  function ListOf(lists: (seq<string>, seq<string>), kind: Kind): seq<string> {
    if kind == TypeScript then lists.0 else if kind == Stylesheet then lists.1 else []
  }

  /** The TypeScript list holds the output path of every staged `.ts` file
      and nothing else, and the stylesheet list likewise for `.scss` files. */
  lemma {:induction false} CompileListsMembers(paths: seq<string>, kind: Kind, d: string)
    requires CompileLists(paths).Ok? && kind != Other
    ensures d in ListOf(CompileLists(paths).value, kind) <==> exists p :: p in paths && Stages(p, kind, d)
    decreases |paths|
  {
    if |paths| > 0 {
      var tail := paths[1..];
      var rest := CompileLists(tail);
      assert rest.Ok?;
      CompileListsMembers(tail, kind, d);
      assert forall p :: p in paths <==> p == paths[0] || p in tail;
      if IsBlank(paths[0]) {
        assert CompileLists(paths) == rest;
        assert !Stages(paths[0], kind, d);
      } else {
        var st := MapPath(paths[0]).value;
        var lists := rest.value;
        assert CompileLists(paths).value == (if st.kind == TypeScript then ([st.dest] + lists.0, lists.1)
                                             else if st.kind == Stylesheet then (lists.0, [st.dest] + lists.1)
                                             else lists);
        assert Stages(paths[0], kind, d) <==> st.kind == kind && st.dest == d;
      }
    }
  }





}
