/** String helpers of the website scripts: the trailing-extension strip
    `name.replace(/\.[^/.]+$/, '')`, the image name of an element's `src`
    (`_getElementsImageName`) and the image-path check (`isValidImagePath`). */
module WebText {
  import opened Wrappers
  import opened Text
  import opened FsPath

  /** A text the pattern `[^/.]+` matches whole. */
  predicate IsExtensionText(ext: string) {
    ext != "" && '.' !in ext && '/' !in ext
  }

  /** Removes one trailing `.EXT` whose `EXT` is non-empty and holds no `.`
      or `/`; anything else is returned unchanged. */
  function StripExtension(f: string): (r: string)
    ensures r == f || (|r| < |f| && f == r + "." + f[|r| + 1..] && IsExtensionText(f[|r| + 1..]))
  {
    match LastIndexOf(f, '.')
    case None => f
    case Some(k) =>
      if k + 1 < |f| && '/' !in f[k + 1..] then
        assert f == f[..k] + "." + f[k + 1..];
        f[..k]
      else f
  }

  /** Stripping inverts appending an extension. */
  lemma StripExtensionOf(name: string, ext: string)
    requires IsExtensionText(ext)
    ensures StripExtension(name + "." + ext) == name
  {
    var f := name + "." + ext;
    assert f[|name|] == '.';
    var k := LastIndexOf(f, '.').value;
    assert forall j | |name| < j < |f| :: f[j] != '.' by {
      forall j | |name| < j < |f| ensures f[j] != '.' { assert f[j] == ext[j - |name| - 1]; }
    }
    assert forall j | k < j < |f| :: f[j] != '.' by {
      forall j | k < j < |f| ensures f[j] != '.' { assert f[j] == f[k + 1..][j - k - 1]; }
    }
    assert k == |name|;
    assert f[k + 1..] == ext;
  }

  /** A name without a qualifying trailing extension is left alone. */
  lemma StripExtensionNone(f: string)
    requires forall r, ext :: f == r + "." + ext ==> !IsExtensionText(ext)
    ensures StripExtension(f) == f
  {
  }

  /** `path.split('/').pop()`: the text after the last `/`. */
  function LastSegment(path: string): (r: string)
    ensures '/' !in r && EndsWith(path, r)
  {
    match LastIndexOf(path, '/')
    case None => path
    case Some(k) =>
      assert path[|path| - |path[k + 1..]|..] == path[k + 1..];
      path[k + 1..]
  }

  /** `_getElementsImageName` given the element's `src` attribute (missing
      when there is none): the last path segment without its extension, and
      nothing when the attribute or that segment is empty. */
  function ImageName(src: Option<string>): (r: Option<string>)
    ensures r.Some? <==> src.Some? && LastSegment(src.value) != ""
    ensures r.Some? ==> r.value == StripExtension(LastSegment(src.value))
  {
    if src.None? || src.value == "" then None
    else
      var f := LastSegment(src.value);
      if f == "" then None else Some(StripExtension(f))
  }

  /** The extensions `isValidImagePath` accepts, matched case-sensitively. */
  const ImageExtensions: seq<string> := ["png", "jpg", "jpeg", "gif", "svg", "webp", "avif"]

  predicate HasImageExtension(p: string) {
    exists i :: 0 <= i < |ImageExtensions| && EndsWith(p, "." + ImageExtensions[i])
  }

  /** `isValidImagePath` on a value that is a string (`Some`) or not. */
  predicate IsValidImagePath(path: Option<string>) {
    path.Some? && Trim(path.value, IsJsSpace) != "" && HasImageExtension(path.value)
  }

  /** The blank test is implied by the extension test: a path is valid
      exactly when it is a string ending in `.` and a listed extension. */
  lemma ValidImagePathIsExtension(path: Option<string>)
    ensures IsValidImagePath(path) <==> path.Some? && HasImageExtension(path.value)
  {
    if path.Some? && HasImageExtension(path.value) {
      var p := path.value;
      var i :| 0 <= i < |ImageExtensions| && EndsWith(p, "." + ImageExtensions[i]);
      var e := ImageExtensions[i];
      assert p[|p| - 1] == ("." + e)[|e|];
      assert !IsJsSpace(p[|p| - 1]);
    }
  }
}
