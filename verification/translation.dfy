/** Localised copies of staged files: the `<div>TEXT=KEY</div>` placeholder
    rewrite of `generate_language_file`, the three-level lookup of
    `get_translation_for_language_page_variable`, and the output naming of
    `process_html_template_file_for_all_languages` (src/main.rs). */
module Translation {
  import opened Wrappers
  import opened Text
  import opened FsPath
  import opened Assets

  /** A translations table (`TranslationsFile`): language code, then page
      name, then variable name, to the translated text. */
  type Translations = map<string, map<string, map<string, string>>>

  const Open: string := "<div>TEXT="
  const Close: string := "</div>"

  /** The character class `[a-zA-Z0-9_.]` of a placeholder key. */
  predicate IsKeyChar(c: char) {
    'a' <= c <= 'z' || 'A' <= c <= 'Z' || '0' <= c <= '9' || c == '_' || c == '.'
  }

  predicate IsKey(k: string) {
    |k| > 0 && forall i :: 0 <= i < |k| ==> IsKeyChar(k[i])
  }

  // ---------------------------------------------------------------------
  // Lookup.
  // ---------------------------------------------------------------------

  /** `str::split_once`: the text before and after the first `c`. */
  function SplitOnce(s: string, c: char): (r: Option<(string, string)>)
    ensures r.None? <==> c !in s
    ensures r.Some? ==> s == r.value.0 + [c] + r.value.1 && c !in r.value.0
  {
    if c !in s then None
    else
      var k := FirstIndexOf(s, c);
      assert s == s[..k] + [c] + s[k + 1..];
      Some((s[..k], s[k + 1..]))
  }

  /** The split is the only one whose head is free of `c`. */
  lemma SplitOnceUnique(s: string, c: char, a: string, b: string)
    requires s == a + [c] + b && c !in a
    ensures SplitOnce(s, c) == Some((a, b))
  {
    assert s[|a|] == c && s[..|a|] == a;
    FirstIndexOfUnique(s, c, |a|);
    assert s[|a| + 1..] == b;
  }

  /** The translation of `name` on `page` in language `lang`, missing when
      any of the three levels is missing. */
  function Lookup(tr: Translations, lang: string, page: string, name: string): (r: Option<string>)
    ensures r.Some? <==> lang in tr && page in tr[lang] && name in tr[lang][page]
    ensures r.Some? ==> r.value == tr[lang][page][name]
  {
    if lang in tr && page in tr[lang] && name in tr[lang][page] then Some(tr[lang][page][name]) else None
  }

  /** The text that replaces the placeholder for `key`: the translation
      between `<div>` and `</div>`; the bare key there when no translation
      exists; the placeholder itself when the key has no dot. */
  function Replacement(key: string, tr: Translations, lang: string): (r: string)
    ensures '.' !in key ==> r == Open + key + Close
  {
    match SplitOnce(key, '.')
    case None => Open + key + Close
    case Some((page, name)) =>
      match Lookup(tr, lang, page, name)
      case Some(text) => "<div>" + text + "</div>"
      case None => "<div>" + key + "</div>"
  }

  /** A dotted key is looked up by the page before its first dot and the
      variable after it. */
  lemma ReplacementOfDotted(key: string, page: string, name: string, tr: Translations, lang: string)
    requires key == page + "." + name && '.' !in page
    ensures lang in tr && page in tr[lang] && name in tr[lang][page]
            ==> Replacement(key, tr, lang) == "<div>" + tr[lang][page][name] + "</div>"
    ensures !(lang in tr && page in tr[lang] && name in tr[lang][page])
            ==> Replacement(key, tr, lang) == "<div>" + key + "</div>"
  {
    SplitOnceUnique(key, '.', page, name);
  }

  // ---------------------------------------------------------------------
  // The placeholder scan.
  // ---------------------------------------------------------------------

  /** Length of the key run after an opening `<div>TEXT=`. */
  function KeyLen(s: string): nat
    requires StartsWith(s, Open)
  {
    LeadingCount(s[|Open|..], IsKeyChar)
  }

  /** A placeholder match starts at the beginning of `s`: the greedy key run
      is non-empty and is followed by `</div>`. */
  predicate PlaceholderAt(s: string) {
    StartsWith(s, Open) && KeyLen(s) > 0 && StartsWith(s[|Open| + KeyLen(s)..], Close)
  }

  /** `replace_all` of the placeholder pattern: each leftmost match is
      replaced, the scan resumes after it, and replaced text is not scanned
      again. */
  function Localize(s: string, tr: Translations, lang: string): string
    decreases |s|
  {
    if s == [] then []
    else if PlaceholderAt(s) then
      var n := KeyLen(s);
      Replacement(s[|Open|..|Open| + n], tr, lang) + Localize(s[|Open| + n + |Close|..], tr, lang)
    else
      [s[0]] + Localize(s[1..], tr, lang)
  }

  /** A page without `<div>TEXT=` is left as it is. */
  lemma {:induction false} LocalizeNoOpen(s: string, tr: Translations, lang: string)
    requires !Contains(s, Open)
    ensures Localize(s, tr, lang) == s
    decreases |s|
  {
    if s != [] {
      if PlaceholderAt(s) {
        assert OccursAt(s, Open, 0);
      }
      ContainsInTail(s, Open);
      LocalizeNoOpen(s[1..], tr, lang);
      assert s == [s[0]] + s[1..];
    }
  }

  /** One piece of a scanned page: a character copied as it is, or a
      placeholder with its key. */
  datatype Token = Plain(c: char) | Placeholder(key: string)

  function Piece(t: Token): string {
    match t
    case Plain(c) => [c]
    case Placeholder(k) => Open + k + Close
  }

  function Unparse(ts: seq<Token>): string {
    if ts == [] then [] else Piece(ts[0]) + Unparse(ts[1..])
  }

  /** The scan of `s` into placeholders and plain characters; it loses
      nothing, and every placeholder it finds has a well-formed key. */
  function Tokens(s: string): (ts: seq<Token>)
    ensures Unparse(ts) == s
    ensures forall i :: 0 <= i < |ts| && ts[i].Placeholder? ==> IsKey(ts[i].key)
    decreases |s|
  {
    if s == [] then []
    else if PlaceholderAt(s) then
      var n := KeyLen(s);
      var key := s[|Open|..|Open| + n];
      var rest := Tokens(s[|Open| + n + |Close|..]);
      PlaceholderSplits(s);
      PlaceholderKey(s);
      var ts := [Placeholder(key)] + rest;
      assert ts[1..] == rest;
      assert forall i :: 1 <= i < |ts| ==> ts[i] == rest[i - 1];
      ts
    else
      var rest := Tokens(s[1..]);
      assert ([Plain(s[0])] + rest)[1..] == rest;
      assert s == [s[0]] + s[1..];
      [Plain(s[0])] + rest
  }

  /** The key of a placeholder match is a well-formed key. */
  lemma PlaceholderKey(s: string)
    requires PlaceholderAt(s)
    ensures IsKey(s[|Open|..|Open| + KeyLen(s)])
  {
    var t := s[|Open|..];
    var key := s[|Open|..|Open| + KeyLen(s)];
    forall i | 0 <= i < |key| ensures IsKeyChar(key[i]) {
      assert key[i] == t[i];
    }
  }

  lemma PlaceholderSplits(s: string)
    requires PlaceholderAt(s)
    ensures s == Open + s[|Open|..|Open| + KeyLen(s)] + Close + s[|Open| + KeyLen(s) + |Close|..]
  {
    var n := KeyLen(s);
    assert s[..|Open|] == Open;
    assert s[|Open| + n..][..|Close|] == Close;
    assert s[|Open| + n..|Open| + n + |Close|] == Close;
    assert s == s[..|Open|] + s[|Open|..|Open| + n] + s[|Open| + n..|Open| + n + |Close|] + s[|Open| + n + |Close|..];
  }

  /** The tokens rendered for one language. */
  function Render(ts: seq<Token>, tr: Translations, lang: string): string {
    if ts == [] then []
    else
      (match ts[0] case Plain(c) => [c] case Placeholder(k) => Replacement(k, tr, lang))
      + Render(ts[1..], tr, lang)
  }

  /** Localising is rendering the scan: plain text is copied and each
      placeholder is replaced by its `Replacement`. */
  lemma {:induction false} LocalizeIsRender(s: string, tr: Translations, lang: string)
    ensures Localize(s, tr, lang) == Render(Tokens(s), tr, lang)
    decreases |s|
  {
    if s != [] {
      if PlaceholderAt(s) {
        var n := KeyLen(s);
        LocalizeIsRender(s[|Open| + n + |Close|..], tr, lang);
      } else {
        LocalizeIsRender(s[1..], tr, lang);
      }
    }
  }

  /** Without dotted keys, rendering gives back the scanned text. */
  lemma {:induction false} RenderWithoutDots(ts: seq<Token>, tr: Translations, lang: string)
    requires forall i :: 0 <= i < |ts| && ts[i].Placeholder? ==> '.' !in ts[i].key
    ensures Render(ts, tr, lang) == Unparse(ts)
  {
    if ts != [] {
      RenderWithoutDots(ts[1..], tr, lang);
    }
  }

  /** A page whose placeholders all have dot-free keys is left unchanged. */
  lemma LocalizeWithoutDots(s: string, tr: Translations, lang: string)
    requires forall i :: 0 <= i < |Tokens(s)| && Tokens(s)[i].Placeholder? ==> '.' !in Tokens(s)[i].key
    ensures Localize(s, tr, lang) == s
  {
    LocalizeIsRender(s, tr, lang);
    RenderWithoutDots(Tokens(s), tr, lang);
  }

  /** A placeholder at the front is replaced and the scan goes on after it:
      the replacement text itself is never scanned. */
  lemma LocalizePlaceholderThen(key: string, rest: string, tr: Translations, lang: string)
    requires IsKey(key)
    ensures Localize(Open + key + Close + rest, tr, lang) == Replacement(key, tr, lang) + Localize(rest, tr, lang)
  {
    PlaceholderParts(key, rest);
    LocalizeAtPlaceholder(Open + key + Close + rest, tr, lang);
  }

  /** `<div>TEXT=key</div>rest` is a placeholder match with key `key`,
      followed by `rest`. */
  lemma PlaceholderParts(key: string, rest: string)
    requires IsKey(key)
    ensures var s := Open + key + Close + rest;
            PlaceholderAt(s) && KeyLen(s) == |key| && s[|Open|..|Open| + |key|] == key
            && s[|Open| + |key| + |Close|..] == rest
  {
    var after := Close + rest;
    var t := key + after;
    var s := Open + key + Close + rest;
    assert s == Open + t;
    assert s[..|Open|] == Open;
    assert s[|Open|..] == t;
    KeyRun(key, after);
    assert KeyLen(s) == |key|;
    assert t[..|key|] == key;
    assert s[|Open|..|Open| + |key|] == t[..|key|];
    assert t[|key|..] == after;
    assert s[|Open| + |key|..] == t[|key|..];
    assert after[..|Close|] == Close;
    assert after[|Close|..] == rest;
    assert s[|Open| + |key| + |Close|..] == after[|Close|..];
  }

  /** The unfolding of `Localize` at a placeholder. */
  lemma LocalizeAtPlaceholder(s: string, tr: Translations, lang: string)
    requires PlaceholderAt(s)
    ensures Localize(s, tr, lang)
            == Replacement(s[|Open|..|Open| + KeyLen(s)], tr, lang) + Localize(s[|Open| + KeyLen(s) + |Close|..], tr, lang)
  {
  }

  /** The key run of a key followed by `<` is the whole key. */
  lemma KeyRun(key: string, after: string)
    requires IsKey(key) && after != [] && after[0] == '<'
    ensures LeadingCount(key + after, IsKeyChar) == |key|
  {
    var t := key + after;
    forall j | 0 <= j < |key| ensures IsKeyChar(t[j]) {
      assert t[j] == key[j];
    }
    assert t[|key|] == '<';
    LeadingCountUnique(t, IsKeyChar, |key|);
  }

  /** A lone placeholder `<div>TEXT=PAGE.NAME</div>` becomes the
      translation of `NAME` on `PAGE` between `<div>` and `</div>`, or the
      bare key there when the language lacks it. */
  lemma LocalizeSinglePlaceholder(page: string, name: string, tr: Translations, lang: string)
    requires IsKey(page + "." + name) && '.' !in page
    ensures lang in tr && page in tr[lang] && name in tr[lang][page]
            ==> Localize(Open + (page + "." + name) + Close, tr, lang) == "<div>" + tr[lang][page][name] + "</div>"
    ensures !(lang in tr && page in tr[lang] && name in tr[lang][page])
            ==> Localize(Open + (page + "." + name) + Close, tr, lang) == "<div>" + (page + "." + name) + "</div>"
  {
    var key := page + "." + name;
    assert Open + key + Close + "" == Open + key + Close;
    LocalizePlaceholderThen(key, "", tr, lang);
    ReplacementOfDotted(key, page, name, tr, lang);
    assert Localize("", tr, lang) == "";
  }

  // ---------------------------------------------------------------------
  // Localised output files.
  // ---------------------------------------------------------------------

  /** The name of the copy of a file with stem `stem` in language `lang`. */
  function LocalizedName(lang: string, stem: string): string {
    lang + "-" + stem + ".html"
  }

  /** One localised copy per language, in the order the languages are
      visited. */
  function LocalizedCopies(content: string, stem: string, outDir: string, tr: Translations, langs: seq<string>)
    : (r: seq<(string, string)>)
    ensures |r| == |langs|
    ensures forall i :: 0 <= i < |langs| ==>
              r[i] == (Push(outDir, LocalizedName(langs[i], stem)), Localize(content, tr, langs[i]))
  {
    if langs == [] then []
    else [(Push(outDir, LocalizedName(langs[0], stem)), Localize(content, tr, langs[0]))]
         + LocalizedCopies(content, stem, outDir, tr, langs[1..])
  }

  /** `process_html_template_file_for_all_languages` on the staged file
      `path` whose contents are `file`, as (output path, text) pairs.
      `langs` is the iteration order of the table's languages. A path
      without a stem yields nothing, and so does a file that cannot be read
      as text, since the first language already fails and the error is
      discarded by the caller. */
  function LocalizedFiles(path: string, file: FileState, outDir: string, tr: Translations, langs: seq<string>)
    : (r: seq<(string, string)>)
    requires forall l :: l in langs <==> l in tr
    ensures r == [] <==> FileStem(path).None? || !file.Text? || tr == map[]
    ensures r != [] ==> |r| == |langs| && forall i :: 0 <= i < |langs| ==>
              r[i] == (Push(outDir, LocalizedName(langs[i], FileStem(path).value)), Localize(file.content, tr, langs[i]))
  {
    match FileStem(path)
    case None => []
    case Some(stem) =>
      match file
      case Text(content) =>
        assert langs == [] <==> tr == map[] by {
          if langs != [] { assert langs[0] in tr; }
          if tr != map[] { var l :| l in tr; assert l in langs; }
        }
        LocalizedCopies(content, stem, outDir, tr, langs)
      case _ => []
  }

  /** Each localised copy goes directly into the output directory, under
      its `<lang>-<stem>.html` name. */
  lemma LocalizedNameInOutputRoot(outDir: string, lang: string, stem: string)
    requires '/' !in lang && '/' !in stem
    ensures FileName(Push(outDir, LocalizedName(lang, stem))) == Some(LocalizedName(lang, stem))
    ensures NormalSegments(Push(outDir, LocalizedName(lang, stem))) == NormalSegments(outDir) + [LocalizedName(lang, stem)]
  {
    var seg := LocalizedName(lang, stem);
    assert '/' !in seg by {
      forall i | 0 <= i < |seg| ensures seg[i] != '/' {
        if i < |lang| { assert seg[i] == lang[i]; }
        else if i == |lang| { assert seg[i] == '-'; }
        else if i < |lang| + 1 + |stem| { assert seg[i] == stem[i - |lang| - 1]; }
        else { assert seg[i] == ".html"[i - |lang| - 1 - |stem|]; }
      }
    }
    assert |seg| >= 6;
    assert !StartsWith(seg, "/") by { assert seg[0] != '/'; }
    FileNameOfPush(outDir, seg);
    SplitWithoutSeparator(seg, '/');
    assert Filter([seg], IsNormal) == [seg];
  }
}
