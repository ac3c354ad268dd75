/** The small text transforms of the build engine: the relative path that
    replaces the root placeholder, the root rewrite of one file, and the
    single-pass inclusion of shared TypeScript snippets. */
module Assets {
  import opened Wrappers
  import opened Text
  import opened FsPath
  import Closure

  /** `get_relative_path`: one `../` for every normal component beyond the
      first two. */
  function RelativePath(path: string): (r: string)
    ensures var n := |NormalSegments(path)|;
            r == Repeat("../", if n > 2 then n - 2 else 0)
    ensures |r| == 3 * (if |NormalSegments(path)| > 2 then |NormalSegments(path)| - 2 else 0)
  {
    var n := |NormalSegments(path)|;
    if n > 2 then Repeat("../", n - 2) else ""
  }

  /** For a path written as its normal components joined by `/`, the
      relative path climbs out of all but two of them. */
  lemma RelativePathOfJoin(segs: seq<string>)
    requires |segs| >= 1 && forall i :: 0 <= i < |segs| ==> IsNormal(segs[i]) && '/' !in segs[i]
    ensures RelativePath(Join(segs, "/")) == Repeat("../", if |segs| > 2 then |segs| - 2 else 0)
  {
    SplitOfJoin(segs, '/');
    FilterKeepsAll(segs, IsNormal);
  }

  /** Five components climb three levels. */
  lemma RelativePathDeep()
    ensures RelativePath("level1/level2/level3/level4/file.txt") == "../../../"
  {
    var segs := ["level1", "level2", "level3", "level4", "file.txt"];
    DeepJoin();
    RelativePathOfJoin(segs);
    ThreeLevels();
  }

  lemma DeepJoin()
    ensures Join(["level1", "level2", "level3", "level4", "file.txt"], "/") == "level1/level2/level3/level4/file.txt"
  {
    var segs := ["level1", "level2", "level3", "level4", "file.txt"];
    assert segs[4..] == ["file.txt"] && segs[3..] == ["level4"] + segs[4..];
    assert segs[2..] == ["level3"] + segs[3..] && segs[1..] == ["level2"] + segs[2..];
    assert segs == ["level1"] + segs[1..];
    JoinCons("level4", segs[4..], "/");
    JoinCons("level3", segs[3..], "/");
    JoinCons("level2", segs[2..], "/");
    JoinCons("level1", segs[1..], "/");
    DeepConcat();
  }

  lemma DeepConcat()
    ensures "level1" + "/" + ("level2" + "/" + ("level3" + "/" + ("level4" + "/" + "file.txt")))
            == "level1/level2/level3/level4/file.txt"
  {
    ConcatLevel4();
    ConcatLevel3();
    ConcatLevel2();
    ConcatLevel1();
  }

  lemma ConcatLevel4()
    ensures "level4" + "/" + "file.txt" == "level4/file.txt"
  {
  }

  lemma ConcatLevel3()
    ensures "level3" + "/" + "level4/file.txt" == "level3/level4/file.txt"
  {
  }

  lemma ConcatLevel2()
    ensures "level2" + "/" + "level3/level4/file.txt" == "level2/level3/level4/file.txt"
  {
  }

  lemma ConcatLevel1()
    ensures "level1" + "/" + "level2/level3/level4/file.txt" == "level1/level2/level3/level4/file.txt"
  {
  }

  lemma ThreeLevels()
    ensures Repeat("../", 3) == "../../../"
  {
    assert Repeat("../", 1) == "../";
    assert Repeat("../", 2) == "../../";
  }

  /** Three components climb one level. */
  lemma RelativePathMedium()
    ensures RelativePath("docs/guides/index.md") == "../"
  {
    var segs := ["docs", "guides", "index.md"];
    assert Join(segs, "/") == "docs/guides/index.md";
    RelativePathOfJoin(segs);
  }

  /** Two components climb none. */
  lemma RelativePathShallow()
    ensures RelativePath("src/main.rs") == ""
  {
    var segs := ["src", "main.rs"];
    assert Join(segs, "/") == "src/main.rs";
    RelativePathOfJoin(segs);
  }

  /** A single component climbs none. */
  lemma RelativePathRootFile()
    ensures RelativePath("README.md") == ""
  {
    var segs := ["README.md"];
    assert Join(segs, "/") == "README.md";
    RelativePathOfJoin(segs);
  }

  /** A trailing slash adds no component. */
  lemma RelativePathTrailingSlash()
    ensures RelativePath("a/b/c/d/") == "../../"
  {
    RelativePathFour();
    assert Push("a/b/c/d", "") == "a/b/c/d/";
    PushEmptyKeepsDepth("a/b/c/d");
  }

  /** Four components climb two levels. */
  lemma RelativePathFour()
    ensures RelativePath("a/b/c/d") == "../../"
  {
    var segs := ["a", "b", "c", "d"];
    assert Join(segs[2..], "/") == "c/d";
    assert Join(segs[1..], "/") == "b/c/d";
    assert Join(segs, "/") == "a/b/c/d";
    RelativePathOfJoin(segs);
    assert Repeat("../", 1) == "../";
    assert Repeat("../", 2) == "../../";
  }

  /** Filtering by a test every element passes keeps the sequence. */
  lemma {:induction false} FilterKeepsAll(s: seq<string>, f: string -> bool)
    requires forall i :: 0 <= i < |s| ==> f(s[i])
    ensures Filter(s, f) == s
    decreases |s|
  {
    if |s| > 0 {
      FilterKeepsAll(s[1..], f);
      assert s == [s[0]] + s[1..];
    }
  }

  /** Joining an empty segment (`target_file.join("")`) never changes the
      depth the relative path is computed from. */
  lemma PushEmptyKeepsDepth(path: string)
    ensures NormalSegments(Push(path, "")) == NormalSegments(path)
    ensures RelativePath(Push(path, "")) == RelativePath(path)
  {
    assert Split("", "/") == [""];
    assert NormalSegments("") == [];
  }

  /** What the build finds at a path: nothing (or a directory), a file that
      is not UTF-8 text, or a text file. */
  datatype FileState = NotAFile | Binary | Text(content: string)

  /** `replace_root_placeholder_with_relative_path_new`: in a text file that
      contains `search`, every `root/` becomes the relative path from the
      file to the output root; anything else is left as it is. */
  function RewriteRoot(search: string, root: string, path: string, file: FileState): (r: FileState)
    ensures !file.Text? ==> r == file
    ensures file.Text? && !Contains(file.content, search) ==> r == file
    ensures file.Text? && Contains(file.content, search) ==>
            r == Text(Join(Split(file.content, root + "/"), RelativePath(path)))
  {
    match file
    case Text(content) =>
      if !Contains(content, search) then file
      else
        PushEmptyKeepsDepth(path);
        ReplaceAllIsSplitJoin(content, root + "/", RelativePath(Push(path, "")));
        Text(ReplaceAll(content, root + "/", RelativePath(Push(path, ""))))
    case _ => file
  }

  /** The rewrite touches every `root/` of the file, not only the lines that
      hold the search text: after it, no `root/` is left in any piece between
      two replacements. */
  lemma RewriteRootReplacesEverywhere(search: string, root: string, path: string, content: string)
    requires Contains(content, search)
    ensures var parts := Split(content, root + "/");
            && RewriteRoot(search, root, path, Text(content)) == Text(Join(parts, RelativePath(path)))
            && forall i :: 0 <= i < |parts| ==> !Contains(parts[i], root + "/")
  {
    SplitPartsFree(content, root + "/");
  }

  // ---------------------------------------------------------------------
  // TypeScript snippet inclusion.
  // ---------------------------------------------------------------------

  /** Where the snippet for tag name `name` lives:
      `ROOT/shared/FOLDER/NAME.ts`. */
  function SnippetPath(root: string, folder: string, name: string): string {
    Push(Push(Push(root, "shared"), folder), name + ".ts")
  }

  /** The tag a snippet name is written as in a file. */
  function SnippetTag(name: string): string {
    "<r-" + name + ">"
  }

  function Lookup(files: map<string, FileState>, path: string): FileState {
    if path in files then files[path] else NotAFile
  }

  /** The captured tags in order: a tag with a snippet file has every copy
      replaced by the snippet's text, a tag without one is skipped, and a
      snippet that is not text aborts the whole inclusion. */
  function ApplySnippets(content: string, caps: seq<string>, files: map<string, FileState>,
                         root: string, folder: string): (r: Result<string, string>)
    ensures r.Err? <==> exists i :: 0 <= i < |caps| && Lookup(files, SnippetPath(root, folder, caps[i])).Binary?
    ensures (forall i :: 0 <= i < |caps| ==> Lookup(files, SnippetPath(root, folder, caps[i])).NotAFile?)
            ==> r == Ok(content)
    decreases |caps|
  {
    if |caps| == 0 then Ok(content)
    else
      assert forall i :: 1 <= i < |caps| ==> caps[i] == caps[1..][i - 1];
      var path := SnippetPath(root, folder, caps[0]);
      match Lookup(files, path)
      case NotAFile => ApplySnippets(content, caps[1..], files, root, folder)
      case Binary => Err(path)
      case Text(snippet) => ApplySnippets(ReplaceAll(content, SnippetTag(caps[0]), snippet), caps[1..], files, root, folder)
  }

  /** `add_reusable_javascript_components`: the tags are collected once from
      the file as it was read, then applied in order. */
  function IncludeSnippets(file: FileState, files: map<string, FileState>, root: string, folder: string): (r: Result<FileState, string>)
    ensures file.NotAFile? ==> r == Ok(NotAFile)
    ensures file.Binary? ==> r.Err?
    ensures file.Text? && !Contains(file.content, "<r-") ==> r == Ok(file)
  {
    match file
    case NotAFile => Ok(NotAFile)
    case Binary => Err("")
    case Text(content) =>
      match ApplySnippets(content, Closure.TagContents(content), files, root, folder)
      case Ok(c) => Ok(Text(c))
      case Err(e) => Err(e)
  }

  /** One step of the inclusion: a tag with a text snippet has every copy in
      the current text replaced, the text between copies kept as it is, and
      the remaining tags applied to the result. */
  lemma ApplySnippetsReplacesEveryCopy(content: string, caps: seq<string>, files: map<string, FileState>,
                                       root: string, folder: string)
    requires |caps| > 0 && Lookup(files, SnippetPath(root, folder, caps[0])).Text?
    ensures var t := SnippetTag(caps[0]);
            var parts := Split(content, t);
            && ApplySnippets(content, caps, files, root, folder)
               == ApplySnippets(Join(parts, Lookup(files, SnippetPath(root, folder, caps[0])).content),
                                caps[1..], files, root, folder)
            && forall i :: 0 <= i < |parts| ==> !Contains(parts[i], t)
  {
    var t := SnippetTag(caps[0]);
    ReplaceAllIsSplitJoin(content, t, Lookup(files, SnippetPath(root, folder, caps[0])).content);
    SplitPartsFree(content, t);
  }

  /** Two copies of different tags whose names hold no angle bracket never
      overlap: a tag's `<` is its first character only, and its `>` its
      last only. */
  lemma TagsApart(s: string, x: string, u: string, j: int, i: int)
    requires x != u && '<' !in x && '>' !in x && '<' !in u && '>' !in u
    requires OccursAt(s, SnippetTag(x), j) && OccursAt(s, SnippetTag(u), i)
    ensures j + |SnippetTag(x)| <= i || i + |SnippetTag(u)| <= j
  {
    var p, q := SnippetTag(x), SnippetTag(u);
    assert s[j] == '<' && s[j + |p| - 1] == '>' by { assert s[j..j + |p|] == p; }
    assert s[i] == '<' && s[i + |q| - 1] == '>' by { assert s[i..i + |q|] == q; }
    InsideTag(s, x, j);
    InsideTag(s, u, i);
    assert p[3..|p| - 1] == x && q[3..|q| - 1] == u;
  }

  /** Inside a copy of a tag whose name holds no angle bracket there is no
      `<` after the first character and no `>` before the last. */
  lemma InsideTag(s: string, x: string, j: int)
    requires '<' !in x && '>' !in x && OccursAt(s, SnippetTag(x), j)
    ensures forall m :: j < m < j + |SnippetTag(x)| ==> s[m] != '<'
    ensures forall m :: j <= m < j + |SnippetTag(x)| - 1 ==> s[m] != '>'
  {
    var p := SnippetTag(x);
    forall m | j <= m < j + |p| ensures s[m] == p[m - j] {
      assert s[j..j + |p|] == p;
    }
    forall d | 3 <= d < |p| - 1 ensures p[d] == x[d - 3] { }
  }

  /** The dual of replacement: a tag without a text snippet survives every
      step, as long as no name involved holds an angle bracket. */
  lemma {:induction false} ApplySnippetsKeepsTag(content: string, caps: seq<string>, files: map<string, FileState>,
                                                 root: string, folder: string, u: string)
    requires '<' !in u && '>' !in u && !Lookup(files, SnippetPath(root, folder, u)).Text?
    requires forall i :: 0 <= i < |caps| && Lookup(files, SnippetPath(root, folder, caps[i])).Text?
                         ==> '<' !in caps[i] && '>' !in caps[i]
    requires Contains(content, SnippetTag(u))
    requires ApplySnippets(content, caps, files, root, folder).Ok?
    ensures Contains(ApplySnippets(content, caps, files, root, folder).value, SnippetTag(u))
    decreases |caps|
  {
    if |caps| > 0 {
      assert forall i :: 1 <= i < |caps| ==> caps[i] == caps[1..][i - 1];
      var path := SnippetPath(root, folder, caps[0]);
      match Lookup(files, path)
      case NotAFile =>
        ApplySnippetsKeepsTag(content, caps[1..], files, root, folder, u);
      case Binary =>
      case Text(snippet) =>
        var t := SnippetTag(caps[0]);
        var i :| 0 <= i <= |content| - |SnippetTag(u)| && OccursAt(content, SnippetTag(u), i);
        forall j | OccursAt(content, t, j) ensures j + |t| <= i || i + |SnippetTag(u)| <= j {
          TagsApart(content, caps[0], u, j, i);
        }
        ReplaceKeepsOccurrence(content, t, SnippetTag(u), snippet, i);
        ApplySnippetsKeepsTag(ReplaceAll(content, t, snippet), caps[1..], files, root, folder, u);
    }
  }

  /** The same for a whole file: a tag with no snippet text is left in
      place. */
  lemma IncludeSnippetsKeepsTag(content: string, files: map<string, FileState>, root: string, folder: string, u: string)
    requires '<' !in u && '>' !in u && !Lookup(files, SnippetPath(root, folder, u)).Text?
    requires forall c :: c in Closure.TagContents(content) && Lookup(files, SnippetPath(root, folder, c)).Text?
                         ==> '<' !in c
    requires Contains(content, SnippetTag(u))
    ensures var r := IncludeSnippets(Text(content), files, root, folder);
            r.Ok? ==> r.value.Text? && Contains(r.value.content, SnippetTag(u))
  {
    var caps := Closure.TagContents(content);
    if ApplySnippets(content, caps, files, root, folder).Ok? {
      assert forall i :: 0 <= i < |caps| ==> caps[i] in caps;
      ApplySnippetsKeepsTag(content, caps, files, root, folder, u);
    }
  }

  /** Replacement can splice a tag together: in `<<r-n>>` with snippet `n`
      holding `r-n`, the one tag found is replaced, and the brackets around
      it meet the snippet to spell `<r-n>` again, which no later step
      removes. */
  lemma SpliceRebuildsTag(files: map<string, FileState>, root: string, folder: string, n: string)
    requires '>' !in n && '\n' !in n
    requires files == map[SnippetPath(root, folder, n) := Text("r-" + n)]
    ensures IncludeSnippets(Text("<" + SnippetTag(n) + ">"), files, root, folder) == Ok(Text(SnippetTag(n)))
  {
    var t := SnippetTag(n);
    BracketedTagContents(n);
    SpliceReplace(n);
    assert [n][1..] == [];
    assert ApplySnippets(t, [], files, root, folder) == Ok(t);
  }

  /** The one tag of `<<r-n>>` is the inner one. */
  lemma BracketedTagContents(n: string)
    requires '>' !in n && '\n' !in n
    ensures Closure.TagContents("<" + SnippetTag(n) + ">") == [n]
  {
    var s := "<" + SnippetTag(n) + ">";
    assert s[1..] == "<r-" + n + ">" + ">";
    Closure.TagContentsOfTag(n, ">");
    assert Closure.TagContents(">") == [];
    assert s[..3][1] != "<r-"[1];
  }

  lemma SpliceReplace(n: string)
    ensures ReplaceAll("<" + SnippetTag(n) + ">", SnippetTag(n), "r-" + n) == SnippetTag(n)
  {
    var t := SnippetTag(n);
    var s := "<" + t + ">";
    assert s[..|t|][1] != t[1];
    assert s[1..][..|t|] == t && s[1..][|t|..] == ">";
    assert ReplaceAll(">", t, "r-" + n) == ">";
    assert ReplaceAll(s[1..], t, "r-" + n) == "r-" + n + ">";
    assert [s[0]] + ("r-" + n + ">") == t;
  }

  /** A tag brought in by a snippet is not expanded: the page `<r-x>` with
      snippet `x` holding `<r-y>` ends as `<r-y>`, even though `y` has a
      snippet too. */
  lemma SnippetTagsNotExpanded(files: map<string, FileState>, root: string, folder: string,
                               x: string, y: string, other: string)
    requires x != y && '/' !in x && '/' !in y && '>' !in x && '\n' !in x
    requires files == map[SnippetPath(root, folder, x) := Text(SnippetTag(y)),
                          SnippetPath(root, folder, y) := Text(other)]
    ensures IncludeSnippets(Text(SnippetTag(x)), files, root, folder) == Ok(Text(SnippetTag(y)))
  {
    SnippetPathsDiffer(root, folder, x, y);
    SingleTagContents(x);
    WholeReplaced(SnippetTag(x), SnippetTag(y));
    assert [x][1..] == [];
    assert ApplySnippets(SnippetTag(y), [], files, root, folder) == Ok(SnippetTag(y));
  }

  /** The snippets of two different names live at different paths: their
      file names differ. */
  lemma SnippetPathsDiffer(root: string, folder: string, x: string, y: string)
    requires x != y && '/' !in x && '/' !in y
    ensures SnippetPath(root, folder, x) != SnippetPath(root, folder, y)
  {
    SnippetFileName(x);
    SnippetFileName(y);
    assert x + ".ts" != y + ".ts" by {
      assert (x + ".ts")[..|x|] == x && (y + ".ts")[..|y|] == y;
    }
    NamesDifferAfterPush(Push(Push(root, "shared"), folder), x + ".ts", y + ".ts");
  }

  lemma SnippetFileName(x: string)
    requires '/' !in x
    ensures IsNormal(x + ".ts") && '/' !in x + ".ts"
  {
    assert (x + ".ts")[|x| + 1] == 't';
  }

  lemma NamesDifferAfterPush(dir: string, x: string, y: string)
    requires IsNormal(x) && '/' !in x && IsNormal(y) && '/' !in y && x != y
    ensures Push(dir, x) != Push(dir, y)
  {
    FileNameOfPush(dir, x);
    FileNameOfPush(dir, y);
  }

  /** A text that is one tag yields that tag's name. */
  lemma SingleTagContents(n: string)
    requires '>' !in n && '\n' !in n
    ensures Closure.TagContents(SnippetTag(n)) == [n]
  {
    Closure.TagContentsOfTag(n, "");
    assert SnippetTag(n) + "" == SnippetTag(n);
  }

}
