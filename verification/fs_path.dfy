/** Unix path strings as Rust's `std::path` treats them: joining (`push` /
    `join`), normal components, file name, extension and stem. */
module FsPath {
  import opened Wrappers
  import opened Text

  /** A component that `Path::components` reports as `Normal`. */
  predicate IsNormal(seg: string) {
    seg != "" && seg != "." && seg != ".."
  }

  /** The `Normal` components of a path, in order. */
  function NormalSegments(path: string): seq<string> {
    Filter(Split(path, "/"), IsNormal)
  }

  /** `PathBuf::push` on Unix: an absolute segment replaces the path, and a
      separator is added only when the path is non-empty and does not already
      end in one. A relative segment appends its normal components. */
  function Push(base: string, seg: string): (r: string)
    ensures StartsWith(seg, "/") ==> r == seg
    ensures !StartsWith(seg, "/") ==> StartsWith(r, base) && EndsWith(r, seg)
    ensures !StartsWith(seg, "/") ==> NormalSegments(r) == NormalSegments(base) + NormalSegments(seg)
  {
    if StartsWith(seg, "/") then seg
    else if base == "" then
      assert NormalSegments("") == [];
      seg
    else if EndsWith(base, "/") then
      PushAfterSeparator(base, seg);
      base + seg
    else
      PushWithSeparator(base, seg);
      base + "/" + seg
  }

  lemma PushAfterSeparator(base: string, seg: string)
    requires EndsWith(base, "/")
    ensures NormalSegments(base + seg) == NormalSegments(base) + NormalSegments(seg)
  {
    var b0 := base[..|base| - 1];
    assert base == b0 + "/" + "";
    assert base + seg == b0 + "/" + seg;
    PushWithSeparator(b0, "");
    PushWithSeparator(b0, seg);
    assert NormalSegments("") == [];
  }

  lemma PushWithSeparator(base: string, seg: string)
    ensures NormalSegments(base + "/" + seg) == NormalSegments(base) + NormalSegments(seg)
  {
    SplitAroundSeparator(base, '/', seg);
    FilterConcat(Split(base, "/"), Split(seg, "/"), IsNormal);
  }

  /** Index of the last occurrence of `c` in `s`. */
  function LastIndexOf(s: string, c: char): (r: Option<nat>)
    ensures r.Some? ==> r.value < |s| && s[r.value] == c && c !in s[r.value + 1..]
    ensures r.None? ==> c !in s
  {
    if |s| == 0 then None
    else if s[|s| - 1] == c then Some(|s| - 1)
    else
      match LastIndexOf(s[..|s| - 1], c)
      case None => assert s == s[..|s| - 1] + [s[|s| - 1]]; None
      case Some(k) =>
        assert s[k + 1..] == s[..|s| - 1][k + 1..] + [s[|s| - 1]];
        Some(k)
  }

  /** A component that `file_name` does not skip: anything but empty and `.`. */
  predicate IsNamedSegment(seg: string) {
    seg != "" && seg != "."
  }

  /** The last component that `file_name` looks at is `..`. */
  predicate EndsInParent(path: string) {
    var segs := Filter(Split(path, "/"), IsNamedSegment);
    |segs| > 0 && segs[|segs| - 1] == ".."
  }

  /** `Path::file_name`: the last normal component, unless the path has none
      or ends in `..` (ignoring empty and `.` components). */
  function FileName(path: string): (r: Option<string>)
    ensures r.None? <==> NormalSegments(path) == [] || EndsInParent(path)
    ensures r.Some? ==> r.value == NormalSegments(path)[|NormalSegments(path)| - 1]
    ensures r.Some? ==> IsNormal(r.value) && '/' !in r.value
  {
    var segs := Filter(Split(path, "/"), IsNamedSegment);
    assert forall x :: IsNormal(x) ==> IsNamedSegment(x);
    FilterOfFilter(Split(path, "/"), IsNamedSegment, IsNormal);
    assert NormalSegments(path) == Filter(segs, IsNormal);
    if |segs| == 0 then None
    else if segs[|segs| - 1] == ".." then None
    else
      var n := segs[|segs| - 1];
      assert n in segs;
      assert IsNormal(n);
      FilterKeepsLast(segs, IsNormal);
      var parts := Split(path, "/");
      assert n in parts;
      var j :| 0 <= j < |parts| && parts[j] == n;
      SplitPartsFree(path, "/");
      assert !Contains(n, "/");
      assert '/' !in n by {
        forall i | 0 <= i < |n| ensures n[i] != '/' {
          assert !OccursAt(n, "/", i);
          assert n[i..i + 1] == [n[i]];
        }
      }
      assert n in NormalSegments(path);
      Some(n)
  }

  /** `Path::extension`: the text after the last `.` of the file name, unless
      that dot is the name's first character. Together with `FileStem` it
      splits the file name: `stem + "." + extension`. */
  function Extension(path: string): (r: Option<string>)
    ensures r.Some? ==> (FileName(path).Some?
                         && exists stem :: stem != "" && FileName(path).value == stem + "." + r.value)
    ensures r.Some? ==> '.' !in r.value
  {
    match FileName(path)
    case None => None
    case Some(n) =>
      match LastIndexOf(n, '.')
      case None => None
      case Some(k) =>
        if k == 0 then None
        else
          assert n == n[..k] + "." + n[k + 1..];
          Some(n[k + 1..])
  }

  /** `Path::file_stem`: the file name without its extension. */
  function FileStem(path: string): (r: Option<string>)
    ensures r.Some? <==> FileName(path).Some?
    ensures Extension(path).Some? ==> r.Some? && FileName(path).value == r.value + "." + Extension(path).value
    ensures FileName(path).Some? && Extension(path).None? ==> r == FileName(path)
  {
    match FileName(path)
    case None => None
    case Some(n) =>
      match LastIndexOf(n, '.')
      case None => Some(n)
      case Some(k) =>
        if k == 0 then Some(n)
        else
          assert n == n[..k] + "." + n[k + 1..];
          Some(n[..k])
  }

  /** Pushing a plain file name makes it the path's file name. */
  lemma FileNameOfPush(dir: string, seg: string)
    requires IsNormal(seg) && '/' !in seg
    ensures FileName(Push(dir, seg)) == Some(seg)
  {
    SplitWithoutSeparator(seg, '/');
    assert !StartsWith(seg, "/") by { assert |seg| > 0 && seg[..1][0] == seg[0]; }
    if dir == "" {
      FileNameOfSegment(seg);
    } else {
      var d := if EndsWith(dir, "/") then dir[..|dir| - 1] else dir;
      PushJoins(dir, seg);
      FileNameAfterSeparator(d, seg);
    }
  }

  lemma FileNameOfSegment(seg: string)
    requires IsNormal(seg) && Split(seg, "/") == [seg]
    ensures FileName(seg) == Some(seg)
  {
    assert Filter([seg], IsNamedSegment) == [seg];
  }

  /** Onto a non-empty path, a relative segment goes after exactly one
      separator. */
  lemma PushJoins(dir: string, seg: string)
    requires dir != "" && !StartsWith(seg, "/")
    ensures Push(dir, seg) == (if EndsWith(dir, "/") then dir[..|dir| - 1] else dir) + "/" + seg
  {
    if EndsWith(dir, "/") {
      assert dir == dir[..|dir| - 1] + "/";
    }
  }

  lemma FileNameAfterSeparator(d: string, seg: string)
    requires IsNormal(seg) && Split(seg, "/") == [seg]
    ensures FileName(d + "/" + seg) == Some(seg)
  {
    SplitAroundSeparator(d, '/', seg);
    FilterConcat(Split(d, "/"), [seg], IsNamedSegment);
    assert Filter([seg], IsNamedSegment) == [seg];
  }

  /** A file name `name.ext` with a non-empty `name` and a dot-free `ext`
      has extension `ext` and stem `name`. */
  lemma ExtensionOfDotted(path: string, name: string, ext: string)
    requires FileName(path) == Some(name + "." + ext) && name != "" && '.' !in ext
    ensures Extension(path) == Some(ext)
    ensures FileStem(path) == Some(name)
  {
    var n := name + "." + ext;
    assert n[|name|] == '.';
    var r := LastIndexOf(n, '.');
    assert r.Some?;
    var v := r.value;
    assert forall j | v < j < |n| :: n[j] != '.' by {
      forall j | v < j < |n| ensures n[j] != '.' { assert n[j] == n[v + 1..][j - v - 1]; }
    }
    assert forall j | |name| < j < |n| :: n[j] != '.' by {
      forall j | |name| < j < |n| ensures n[j] != '.' { assert n[j] == ext[j - |name| - 1]; }
    }
    assert v == |name|;
    assert n[v + 1..] == ext;
    assert n[..v] == name;
  }
}
