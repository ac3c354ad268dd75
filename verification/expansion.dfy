/** The template expansion engine: the rewrite loop that replaces every
    `<r-NAME attrs>` component tag of one page by the component's body, with
    the tag's parameters substituted and the component's stylesheet and
    script linked from the page head. */
module Expansion {
  import opened Wrappers
  import opened Text

  /** `[a-zA-Z0-9_-]`: the characters of component names and parameter keys. */
  predicate IsNameChar(c: char) {
    ('a' <= c <= 'z') || ('A' <= c <= 'Z') || ('0' <= c <= '9') || c == '_' || c == '-'
  }

  predicate IsName(s: string) {
    |s| > 0 && forall i :: 0 <= i < |s| ==> IsNameChar(s[i])
  }

  /** The build's markers: the root placeholder written into links, and the
      value prefixes that make a parameter a deferred component or empty. */
  datatype Markers = Markers(root: string, templatePrefix: string, nonePrefix: string)

  /** What the build passes (`<root>`, `@template:`, `@none:`). */
  const BuildMarkers := Markers("<root>", "@template:", "@none:")

  /** A text file as `fs::read_to_string` meets it: missing, present but not
      UTF-8 (the read fails), or its text. */
  datatype TextFile = Missing | NotUtf8 | Utf8(text: string)

  /** A component directory `shared/reusables/NAME` of the source tree: its
      body file `NAME.html`, and whether `NAME.scss` and `NAME.ts` exist. A
      registry without an entry for a name models a missing directory. */
  datatype Component = Component(body: TextFile, hasScss: bool, hasTs: bool)

  /** Where the body of component `name` lives, below the source tree. */
  function BodyPath(name: string): string {
    "shared/reusables/" + name + "/" + name + ".html"
  }

  // ---------------------------------------------------------------------
  // Finding the first tag: `<r-([a-zA-Z0-9_-]+)([^>]*)>`, leftmost.
  // ---------------------------------------------------------------------

  /** A match of the tag pattern starts at `i`: `<r-`, a name character, and
      a `>` somewhere later (the attribute part `[^>]*` may span lines). */
  predicate TagAt(s: string, i: int) {
    0 <= i && i + 3 < |s| && s[i..i + 3] == "<r-" && IsNameChar(s[i + 3]) && '>' in s[i + 4..]
  }

  /** A matched tag: where it starts, its name (group 1), its attribute text
      (group 2) and the whole matched text. */
  datatype Tag = Tag(start: nat, name: string, params: string, full: string)

  /** The match at `i`: the name is the longest run of name characters, the
      attributes run up to the first `>`. */
  function TagFrom(s: string, i: nat): (t: Tag)
    requires TagAt(s, i)
    ensures t.start == i && IsName(t.name)
    ensures t.params == "" || !IsNameChar(t.params[0])
    ensures '>' !in t.params
    ensures t.full == "<r-" + t.name + t.params + ">"
    ensures i + |t.full| <= |s| && s[i..i + |t.full|] == t.full
  {
    var rest := s[i + 3..];
    assert '>' in rest by {
      var j :| 0 <= j < |s[i + 4..]| && s[i + 4..][j] == '>';
      assert rest[j + 1] == '>';
    }
    var n := LeadingCount(rest, IsNameChar);
    var g := FirstIndexOf(rest, '>');
    assert !IsNameChar(rest[g]);
    assert n <= g;
    assert n > 0;
    var t := Tag(i, rest[..n], rest[n..g], s[i..i + 3 + g + 1]);
    assert t.full == "<r-" + t.name + t.params + ">";
    assert forall c :: c in t.params ==> c in rest[..g];
    t
  }

  /** The leftmost tag at or after `i`. */
  function FindTag(s: string, i: nat): (r: Option<Tag>)
    requires i <= |s|
    ensures r.Some? ==> i <= r.value.start && TagAt(s, r.value.start) && r.value == TagFrom(s, r.value.start)
    ensures r.Some? ==> forall j :: i <= j < r.value.start ==> !TagAt(s, j)
    ensures r.None? ==> forall j :: i <= j ==> !TagAt(s, j)
    decreases |s| - i
  {
    if i == |s| then None
    else if TagAt(s, i) then Some(TagFrom(s, i))
    else FindTag(s, i + 1)
  }

  /** `component_regex.captures(&content)`. */
  function FirstTag(s: string): (r: Option<Tag>)
    ensures r.None? <==> forall j :: !TagAt(s, j)
    ensures r.Some? ==> TagAt(s, r.value.start) && forall j :: 0 <= j < r.value.start ==> !TagAt(s, j)
  {
    FindTag(s, 0)
  }

  /** A text without `<r-` holds no tag. */
  lemma NoOpenerNoTag(s: string)
    ensures !Contains(s, "<r-") ==> FirstTag(s) == None
  {
    forall j | TagAt(s, j) ensures Contains(s, "<r-") {
      assert OccursAt(s, "<r-", j);
    }
  }

  // ---------------------------------------------------------------------
  // Parameters: `([a-zA-Z0-9_-]+)=('[^']*'|"[^"]*"|[^\s'"]+)`, scanned
  // left to right without overlap.
  // ---------------------------------------------------------------------

  datatype Param = Param(key: string, value: string)

  /** A character of an unquoted value: not whitespace and not a quote. */
  predicate IsBareChar(c: char) {
    !IsRustSpace(c) && c != '\'' && c != '"'
  }

  /** The parameter match at the very start of `s`, as (key, raw value): the
      key is the longest run of name characters and must be followed by `=`;
      a value opening with a quote runs to the next copy of that quote, any
      other value is the longest run of non-space, non-quote characters. */
  function MatchParam(s: string): (r: Option<(string, string)>)
    ensures r.Some? ==> IsName(r.value.0) && |r.value.1| > 0
    ensures r.Some? ==> |r.value.0| + 1 + |r.value.1| <= |s|
                        && s[..|r.value.0| + 1 + |r.value.1|] == r.value.0 + "=" + r.value.1
  {
    var k := LeadingCount(s, IsNameChar);
    if k == 0 || k == |s| || s[k] != '=' then None
    else
      var v := s[k + 1..];
      if |v| == 0 then None
      else if v[0] == '\'' || v[0] == '"' then
        if v[0] in v[1..] then
          var m := FirstIndexOf(v[1..], v[0]);
          AssignmentPrefix(s, k, m + 2);
          Some((s[..k], v[..m + 2]))
        else None
      else
        var n := LeadingCount(v, IsBareChar);
        if n == 0 then None
        else
          AssignmentPrefix(s, k, n);
          Some((s[..k], v[..n]))
  }

  lemma AssignmentPrefix(s: string, k: nat, j: nat)
    requires k < |s| && s[k] == '=' && j <= |s| - k - 1
    ensures s[..k + 1 + j] == s[..k] + "=" + s[k + 1..][..j]
  {
  }

  /** Quotes are removed when the value starts and ends with the same quote. */
  function Unquote(v: string): (r: string)
    ensures |v| >= 2 && v[0] == v[|v| - 1] && (v[0] == '"' || v[0] == '\'') ==> v == [v[0]] + r + [v[0]]
    ensures !(|v| >= 2 && v[0] == v[|v| - 1] && (v[0] == '"' || v[0] == '\'')) ==> r == v
  {
    if |v| >= 2 && ((v[0] == '"' && v[|v| - 1] == '"') || (v[0] == '\'' && v[|v| - 1] == '\'')) then
      v[1..|v| - 1]
    else v
  }

  /** Every parameter of an attribute text, in order (`captures_iter`). */
  function ParseParams(s: string): (ps: seq<Param>)
    ensures forall i :: 0 <= i < |ps| ==> IsName(ps[i].key)
    decreases |s|
  {
    if |s| == 0 then []
    else match MatchParam(s)
      case Some(kv) => [Param(kv.0, Unquote(kv.1))] + ParseParams(s[|kv.0| + 1 + |kv.1|..])
      case None => ParseParams(s[1..])
  }

  /** Attribute text written the canonical way: ` key="value"` per pair. */
  function RenderParams(ps: seq<Param>): string {
    if |ps| == 0 then "" else " " + ps[0].key + "=\"" + ps[0].value + "\"" + RenderParams(ps[1..])
  }

  /** A character that cannot start a key is skipped. */
  lemma ParseSkipsNonName(s: string)
    requires |s| > 0 && !IsNameChar(s[0])
    ensures ParseParams(s) == ParseParams(s[1..])
  {
    LeadingCountUnique(s, IsNameChar, 0);
  }

  lemma MatchQuotedPair(t: string, key: string, value: string, rest: string)
    requires IsName(key) && '"' !in value
    requires t == key + "=\"" + value + "\"" + rest
    ensures MatchParam(t).Some? && MatchParam(t).value.0 == key && MatchParam(t).value.1 == "\"" + value + "\""
  {
    assert t[..|key|] == key;
    assert t[|key|] == '=';
    LeadingCountUnique(t, IsNameChar, |key|);
    var v := t[|key| + 1..];
    assert v == "\"" + value + "\"" + rest;
    var w := v[1..];
    assert w == value + "\"" + rest;
    assert w[..|value|] == value;
    FirstIndexOfUnique(w, '"', |value|);
    assert v[..|value| + 2] == "\"" + value + "\"";
    assert t[..|key|] == key;
  }

  lemma RenderedPairParses(key: string, value: string, rest: string)
    requires IsName(key) && '"' !in value
    ensures ParseParams(" " + key + "=\"" + value + "\"" + rest) == [Param(key, value)] + ParseParams(rest)
  {
    var t := key + "=\"" + value + "\"" + rest;
    var s := " " + key + "=\"" + value + "\"" + rest;
    assert s == " " + t;
    assert s[1..] == t;
    ParseSkipsNonName(s);
    MatchQuotedPair(t, key, value, rest);
    var raw := "\"" + value + "\"";
    assert Unquote(raw) == value;
    ParseAtSome(t);
    assert t[|key| + 1 + |raw|..] == rest;
  }

  /** The unfolding of `ParseParams` where a pair matches. */
  lemma ParseAtSome(t: string)
    requires MatchParam(t).Some?
    ensures var kv := MatchParam(t).value;
            ParseParams(t) == [Param(kv.0, Unquote(kv.1))] + ParseParams(t[|kv.0| + 1 + |kv.1|..])
  {
    assert |t| > 0;
  }

  /** Parsing canonical attribute text gives back the pairs written. */
  lemma {:induction false} ParseRenderRoundTrip(ps: seq<Param>)
    requires forall i :: 0 <= i < |ps| ==> IsName(ps[i].key) && '"' !in ps[i].value
    ensures ParseParams(RenderParams(ps)) == ps
  {
    if |ps| > 0 {
      RenderedPairParses(ps[0].key, ps[0].value, RenderParams(ps[1..]));
      ParseRenderRoundTrip(ps[1..]);
      assert " " + ps[0].key + "=\"" + ps[0].value + "\"" + RenderParams(ps[1..]) == RenderParams(ps);
    }
  }

  /** `ps[i]` is the last pair of `ps` with its key. */
  predicate LastFor(ps: seq<Param>, i: int)
    requires 0 <= i < |ps|
  {
    forall j :: i < j < |ps| ==> ps[j].key != ps[i].key
  }

  /** Inserting the pairs into the table one by one: no key is removed and
      every key of the pairs is bound afterwards. */
  function Merge(table: map<string, string>, ps: seq<Param>): (r: map<string, string>)
    ensures table.Keys <= r.Keys
    ensures forall i :: 0 <= i < |ps| ==> ps[i].key in r
    decreases |ps|
  {
    if |ps| == 0 then table
    else
      var r := Merge(table[ps[0].key := ps[0].value], ps[1..]);
      assert forall i :: 1 <= i < |ps| ==> ps[i] == ps[1..][i - 1];
      r
  }

  /** The merged table binds exactly the old keys and the keys of the pairs. */
  lemma {:induction false} MergeKeys(table: map<string, string>, ps: seq<Param>)
    ensures Merge(table, ps).Keys == table.Keys + (set i | 0 <= i < |ps| :: ps[i].key)
    decreases |ps|
  {
    if |ps| > 0 {
      var t := table[ps[0].key := ps[0].value];
      MergeKeys(t, ps[1..]);
      var all := set i | 0 <= i < |ps| :: ps[i].key;
      var later := set i | 0 <= i < |ps[1..]| :: ps[1..][i].key;
      assert all == {ps[0].key} + later by {
        forall i | 0 <= i < |ps| ensures ps[i].key in {ps[0].key} + later {
          if i > 0 { assert ps[1..][i - 1].key == ps[i].key; }
        }
        forall i | 0 <= i < |ps[1..]| ensures ps[1..][i].key in all {
          assert ps[1..][i] == ps[i + 1];
        }
      }
    }
  }

  /** A key not among the pairs keeps its old value. */
  lemma {:induction false} MergeKeepsOthers(table: map<string, string>, ps: seq<Param>, k: string)
    requires k in table && forall i :: 0 <= i < |ps| ==> ps[i].key != k
    ensures Merge(table, ps)[k] == table[k]
    decreases |ps|
  {
    if |ps| > 0 {
      var t := table[ps[0].key := ps[0].value];
      assert forall i :: 0 <= i < |ps[1..]| ==> ps[1..][i] == ps[i + 1];
      MergeKeepsOthers(t, ps[1..], k);
    }
  }

  /** The last pair with a key decides its value: last write wins. */
  lemma {:induction false} MergeLastWins(table: map<string, string>, ps: seq<Param>, i: nat)
    requires i < |ps| && LastFor(ps, i)
    ensures Merge(table, ps)[ps[i].key] == ps[i].value
    decreases |ps|
  {
    var t := table[ps[0].key := ps[0].value];
    if i == 0 {
      assert forall j :: 0 <= j < |ps[1..]| ==> ps[1..][j] == ps[j + 1];
      MergeKeepsOthers(t, ps[1..], ps[0].key);
    } else {
      assert forall j :: i - 1 < j < |ps[1..]| ==> ps[1..][j] == ps[j + 1];
      assert LastFor(ps[1..], i - 1);
      MergeLastWins(t, ps[1..], i - 1);
    }
  }

  // ---------------------------------------------------------------------
  // One step of the loop.
  // ---------------------------------------------------------------------

  /** The text a parameter value puts in place of `{key}`: a template value
      becomes a deferred tag for the next step, a none value becomes empty,
      anything else is used literally. */
  function Resolve(value: string, m: Markers): string {
    if StartsWith(value, m.templatePrefix) then "<r-" + value[|m.templatePrefix|..] + ">"
    else if StartsWith(value, m.nonePrefix) then ""
    else value
  }

  /** A template value naming a component becomes a tag that the next step
      of the loop finds at once. */
  lemma TemplateDefersTag(name: string, m: Markers)
    requires IsName(name)
    ensures FirstTag(Resolve(m.templatePrefix + name, m)) == Some(Tag(0, name, "", "<r-" + name + ">"))
  {
    var v := m.templatePrefix + name;
    assert StartsWith(v, m.templatePrefix);
    assert v[|m.templatePrefix|..] == name;
    BareTagFound("<r-" + name + ">", name);
  }

  lemma BareTagFound(s: string, name: string)
    requires IsName(name) && s == "<r-" + name + ">"
    ensures FindTag(s, 0) == Some(Tag(0, name, "", s))
  {
    assert s[4..][|name| - 1] == '>';
    assert TagAt(s, 0);
    var rest := s[3..];
    assert rest == name + ">";
    assert rest[..|name|] == name;
    LeadingCountUnique(rest, IsNameChar, |name|);
    FirstIndexOfUnique(rest, '>', |name|);
    assert s[0..3 + |name| + 1] == s;
  }

  /** `{key}` for every key of the key order that is bound in the table,
      replaced everywhere in the body, in that order (the parameter table's
      iteration order, which the model takes as an input). */
  function Substitute(body: string, order: seq<string>, table: map<string, string>, m: Markers): (r: string)
    ensures !Contains(body, "{") ==> r == body
    ensures (forall i :: 0 <= i < |order| ==> order[i] !in table) ==> r == body
    decreases |order|
  {
    if |order| == 0 then body
    else
      var key := order[0];
      var b := if key in table then ReplaceAll(body, "{" + key + "}", Resolve(table[key], m)) else body;
      assert !Contains(body, "{") ==> b == body by {
        if !Contains(body, "{") && key in table {
          assert !Contains(body, "{" + key + "}") by {
            forall j | 0 <= j <= |body| - |"{" + key + "}"| && OccursAt(body, "{" + key + "}", j)
              ensures OccursAt(body, "{", j)
            {
              assert body[j] == ("{" + key + "}")[0];
            }
          }
          ReplaceAllNoMatch(body, "{" + key + "}", Resolve(table[key], m));
        }
      }
      Substitute(b, order[1..], table, m)
  }

  /** `order` visits every key of `table` exactly once and nothing else, as
      iterating the `HashMap` does (in an order the program does not fix). */
  predicate EnumeratesKeys(order: seq<string>, table: map<string, string>) {
    && (forall i :: 0 <= i < |order| ==> order[i] in table)
    && (forall k :: k in table ==> k in order)
    && (forall i, j :: 0 <= i < j < |order| ==> order[i] != order[j])
  }

  /** Every table can be iterated. */
  lemma {:induction false} EnumerationExists(table: map<string, string>)
    ensures exists order :: EnumeratesKeys(order, table)
    decreases |table.Keys|
  {
    if |table.Keys| == 0 {
      assert EnumeratesKeys([], table);
    } else {
      var k :| k in table;
      var rest := table - {k};
      assert rest.Keys == table.Keys - {k};
      EnumerationExists(rest);
      var o :| EnumeratesKeys(o, rest);
      var order := [k] + o;
      assert forall i :: 1 <= i < |order| ==> order[i] == o[i - 1];
      assert forall x :: x in table ==> x == k || x in rest;
      assert EnumeratesKeys(order, table);
    }
  }

  // ---------------------------------------------------------------------
  // What the substitution means: one pass over the body.
  // ---------------------------------------------------------------------

  /** The key of the `{key}` placeholder that starts `s`, if one does. */
  function PlaceholderAt(s: string): (r: Option<string>)
    ensures r.Some? ==> IsName(r.value) && |r.value| + 2 <= |s| && s[..|r.value| + 2] == "{" + r.value + "}"
  {
    if |s| == 0 || s[0] != '{' then None
    else
      var n := LeadingCount(s[1..], IsNameChar);
      if 0 < n && n + 1 < |s| && s[n + 1] == '}' then
        assert s[..n + 2] == "{" + s[1..n + 1] + "}";
        Some(s[1..n + 1])
      else None
  }

  /** A text that opens with `{key}` has that placeholder at its start. */
  lemma PlaceholderAtOpen(k: string, x: string)
    requires IsName(k)
    ensures PlaceholderAt("{" + k + "}" + x) == Some(k)
  {
    var s := "{" + k + "}" + x;
    assert s[1..][..|k|] == k;
    assert s[1..][|k|] == '}';
    LeadingCountUnique(s[1..], IsNameChar, |k|);
    assert s[1..|k| + 1] == k;
    assert s[|k| + 1] == '}';
  }

  /** Two name placeholders that start at the same place are the same. */
  lemma SamePlaceholder(s: string, k: string, n: string)
    requires IsName(k) && IsName(n) && OccursAt(s, "{" + k + "}", 0) && OccursAt(s, "{" + n + "}", 0)
    ensures k == n
  {
    assert s == "{" + k + "}" + s[|k| + 2..];
    assert s == "{" + n + "}" + s[|n| + 2..];
    PlaceholderAtOpen(k, s[|k| + 2..]);
    PlaceholderAtOpen(n, s[|n| + 2..]);
  }

  /** Copies of two different name placeholders never overlap. */
  lemma PlaceholdersApart(s: string, k: string, u: string, j: nat, i: nat)
    requires IsName(k) && IsName(u) && k != u
    requires OccursAt(s, "{" + k + "}", j) && OccursAt(s, "{" + u + "}", i)
    ensures j + |k| + 2 <= i || i + |u| + 2 <= j
  {
    var p, q := "{" + k + "}", "{" + u + "}";
    if j == i {
      assert s[i..][..|p|] == p && s[i..][..|q|] == q;
      SamePlaceholder(s[i..], k, u);
    } else {
      assert s[i] == q[0] && s[j] == p[0];
      assert j < i ==> i >= j + |p|;
      assert i < j ==> j >= i + |q|;
    }
  }

  /** Parameter filling in one pass: every `{key}` whose key is bound in
      `vals` becomes the key's value, all other text is copied, and a value
      once put in is not looked at again. */
  function Fill(s: string, vals: map<string, string>): string
    decreases |s|
  {
    if |s| == 0 then ""
    else
      match PlaceholderAt(s)
      case Some(k) => (if k in vals then vals[k] else "{" + k + "}") + Fill(s[|k| + 2..], vals)
      case None => [s[0]] + Fill(s[1..], vals)
  }

  /** The `{` at `i` is not followed by name characters and then another `{`. */
  predicate NoNestedOpenAt(s: string, i: nat)
    requires i < |s|
  {
    var n := LeadingCount(s[i + 1..], IsNameChar);
    i + 1 + n == |s| || s[i + 1 + n] != '{'
  }

  /** No `{` of `s` is followed by name characters and then another `{`:
      the one shape in which the value put in for one key could complete a
      placeholder that the body opened before it. */
  predicate NoNestedOpen(s: string) {
    forall i :: 0 <= i < |s| && s[i] == '{' ==> NoNestedOpenAt(s, i)
  }

  lemma NoNestedOpenSuffix(s: string, j: nat)
    requires j <= |s| && NoNestedOpen(s)
    ensures NoNestedOpen(s[j..])
  {
    var t := s[j..];
    forall i | 0 <= i < |t| && t[i] == '{' ensures NoNestedOpenAt(t, i) {
      assert t[i] == s[j + i];
      assert t[i + 1..] == s[j + i + 1..];
      assert NoNestedOpenAt(s, j + i);
    }
  }

  /** A stretch without `{` is copied as it is. */
  lemma {:induction false} FillCopies(s: string, j: nat, vals: map<string, string>)
    requires j <= |s| && forall i :: 0 <= i < j ==> s[i] != '{'
    ensures Fill(s, vals) == s[..j] + Fill(s[j..], vals)
    decreases j
  {
    if j > 0 {
      var t := s[1..];
      assert forall i :: 0 <= i < j - 1 ==> t[i] == s[i + 1];
      FillCopies(t, j - 1, vals);
      FillCopiesJoin(s, j, vals);
    }
  }

  /** The step of `FillCopies`: the first character, then the rest. */
  lemma FillCopiesJoin(s: string, j: nat, vals: map<string, string>)
    requires 0 < j <= |s| && s[0] != '{'
    requires Fill(s[1..], vals) == s[1..][..j - 1] + Fill(s[1..][j - 1..], vals)
    ensures Fill(s, vals) == s[..j] + Fill(s[j..], vals)
  {
    FillChar(s, vals);
    SliceAfterHead(s, j);
    HeadThenRest(s[0], s[1..][..j - 1], Fill(s[1..], vals), Fill(s[j..], vals), Fill(s, vals), s[..j]);
  }

  lemma HeadThenRest(c: char, x: string, f: string, g: string, r: string, pre: string)
    requires r == [c] + f && f == x + g && pre == [c] + x
    ensures r == pre + g
  {
  }

  lemma SliceAfterHead(s: string, j: nat)
    requires 0 < j <= |s|
    ensures s[1..][j - 1..] == s[j..] && s[..j] == [s[0]] + s[1..][..j - 1]
  {
  }

  /** A character other than `{` is copied. */
  lemma FillChar(s: string, vals: map<string, string>)
    requires |s| > 0 && s[0] != '{'
    ensures Fill(s, vals) == [s[0]] + Fill(s[1..], vals)
  {
    assert PlaceholderAt(s) == None;
  }

  /** Filling with no bound key changes nothing. */
  lemma {:induction false} FillNothing(s: string)
    ensures Fill(s, map[]) == s
    decreases |s|
  {
    if |s| > 0 {
      match PlaceholderAt(s)
      case Some(k) =>
        FillNothing(s[|k| + 2..]);
        assert s == s[..|k| + 2] + s[|k| + 2..];
      case None =>
        FillNothing(s[1..]);
        assert s == [s[0]] + s[1..];
    }
  }

  /** A `{` that opens no placeholder does not open one after filling
      either, when it is not followed by name characters and another `{`. */
  lemma StrayOpen(s: string, vals: map<string, string>, k: string)
    requires |s| > 0 && s[0] == '{' && PlaceholderAt(s) == None && NoNestedOpenAt(s, 0) && IsName(k)
    ensures !OccursAt([s[0]] + Fill(s[1..], vals), "{" + k + "}", 0)
  {
    var t := s[1..];
    var n := LeadingCount(t, IsNameChar);
    StrayShape(s);
    if n == |t| {
      FillCopies(t, n, vals);
      assert t[n..] == "" && t[..n] == t;
      assert [s[0]] + Fill(t, vals) == s;
      NotAPlaceholder(s, n, k);
    } else {
      var w := [s[0]] + Fill(t, vals);
      StrayPrefix(s, vals, n);
      NotAPlaceholder(w, n, k);
    }
  }

  /** The shape of a `{` that opens no placeholder. */
  lemma StrayShape(s: string)
    requires |s| > 0 && s[0] == '{' && PlaceholderAt(s) == None
    ensures var n := LeadingCount(s[1..], IsNameChar);
            && (forall i :: 1 <= i <= n ==> IsNameChar(s[i]))
            && (n + 1 == |s| || (!IsNameChar(s[n + 1]) && (n == 0 || s[n + 1] != '}')))
  {
    var t := s[1..];
    assert forall i :: 1 <= i <= LeadingCount(t, IsNameChar) ==> s[i] == t[i - 1];
  }

  /** After a stray `{`, the name run and the character after it are copied. */
  lemma StrayPrefix(s: string, vals: map<string, string>, n: nat)
    requires |s| > 0 && s[0] == '{' && NoNestedOpenAt(s, 0)
    requires n == LeadingCount(s[1..], IsNameChar) && n + 1 < |s|
    ensures var w := [s[0]] + Fill(s[1..], vals);
            n + 1 < |w| && forall i :: 0 <= i < n + 2 ==> w[i] == s[i]
  {
    var t := s[1..];
    assert forall i :: 0 <= i < n + 1 ==> t[i] != '{';
    FillCopies(t, n + 1, vals);
    var w := [s[0]] + Fill(t, vals);
    assert Fill(t, vals)[..n + 1] == t[..n + 1];
    assert forall i :: 1 <= i < n + 2 ==> w[i] == Fill(t, vals)[i - 1];
  }

  /** `{`, a run of `n` name characters, then the end, or a character that
      neither continues the run nor closes it: no placeholder starts here. */
  lemma NotAPlaceholder(w: string, n: nat, k: string)
    requires n < |w| && w[0] == '{' && IsName(k)
    requires forall i :: 1 <= i <= n ==> IsNameChar(w[i])
    requires n + 1 == |w| || (!IsNameChar(w[n + 1]) && (n == 0 || w[n + 1] != '}'))
    ensures !OccursAt(w, "{" + k + "}", 0)
  {
    var p := "{" + k + "}";
    if |p| <= |w| {
      var d := if |k| < n then |k| + 1 else n + 1;
      assert w[d] != p[d];
      assert w[..|p|][d] == w[d];
    }
  }

  /** Text without `{` holds no placeholder, not even at its end. */
  lemma NoOpenApart(a: string, x: string, k: string)
    requires '{' !in a
    ensures NoStraddle(a, x, "{" + k + "}") && !Contains(a, "{" + k + "}")
  {
    var p := "{" + k + "}";
    forall i | 0 <= i < |a| ensures !OccursAt(a + x, p, i) {
      assert (a + x)[i] == a[i] != p[0];
    }
    forall i | 0 <= i <= |a| - |p| ensures !OccursAt(a, p, i) {
      assert a[i] != p[0];
    }
  }

  /** A placeholder left in place is never part of another's copy. */
  lemma PlaceholderApart(n: string, x: string, k: string)
    requires IsName(n) && IsName(k)
    ensures NoStraddle("{" + n + "}", x, "{" + k + "}")
    ensures n != k ==> !Contains("{" + n + "}", "{" + k + "}")
  {
    var p, q := "{" + k + "}", "{" + n + "}";
    forall i | 0 <= i < |q| < i + |p| ensures !OccursAt(q + x, p, i) {
      if i > 0 {
        assert (q + x)[i] == q[i] != p[0];
      } else if OccursAt(q + x, p, 0) {
        assert (q + x)[..|q|] == q;
        SamePlaceholder(q + x, k, n);
      }
    }
    if n != k {
      forall i | 0 <= i <= |q| - |p| ensures !OccursAt(q, p, i) {
        if i > 0 {
          assert q[i] != p[0];
        } else if OccursAt(q, p, 0) {
          SamePlaceholder(q, k, n);
        }
      }
    }
  }

  /** Replacing one more key in the filled body is filling with that key
      bound too. */
  lemma {:induction false} FillStep(s: string, vals: map<string, string>, k: string, v: string)
    requires NoNestedOpen(s) && IsName(k) && '{' !in v
    requires forall n :: n in vals ==> '{' !in vals[n]
    requires k in vals ==> vals[k] == v
    ensures ReplaceAll(Fill(s, vals), "{" + k + "}", v) == Fill(s, vals[k := v])
    decreases |s|
  {
    var p := "{" + k + "}";
    if |s| > 0 {
      match PlaceholderAt(s)
      case Some(n) =>
        var rest := s[|n| + 2..];
        NoNestedOpenSuffix(s, |n| + 2);
        FillStep(rest, vals, k, v);
        FillPiece(n, vals, k, v, Fill(rest, vals));
      case None =>
        NoNestedOpenSuffix(s, 1);
        FillStep(s[1..], vals, k, v);
        CopyNoStraddle(s, vals, k);
        ReplaceAllConcat([s[0]], Fill(s[1..], vals), p, v);
    }
  }

  /** A character that opens no placeholder cannot begin a copy of one
      together with the filled text after it. */
  lemma CopyNoStraddle(s: string, vals: map<string, string>, k: string)
    requires |s| > 0 && PlaceholderAt(s) == None && NoNestedOpen(s) && IsName(k)
    ensures NoStraddle([s[0]], Fill(s[1..], vals), "{" + k + "}")
  {
    var p := "{" + k + "}";
    if s[0] == '{' {
      StrayOpen(s, vals, k);
    } else {
      forall i | 0 <= i < 1 < i + |p| ensures !OccursAt([s[0]] + Fill(s[1..], vals), p, i) {
        assert p[0] == '{';
      }
    }
  }

  /** `FillStep` at a placeholder `{n}`. */
  lemma FillPiece(n: string, vals: map<string, string>, k: string, v: string, x: string)
    requires IsName(n) && IsName(k) && '{' !in v
    requires forall m :: m in vals ==> '{' !in vals[m]
    requires k in vals ==> vals[k] == v
    ensures var piece := if n in vals then vals[n] else "{" + n + "}";
            var vals' := vals[k := v];
            ReplaceAll(piece + x, "{" + k + "}", v)
            == (if n in vals' then vals'[n] else "{" + n + "}") + ReplaceAll(x, "{" + k + "}", v)
  {
    var p := "{" + k + "}";
    var piece := if n in vals then vals[n] else "{" + n + "}";
    if n in vals {
      NoOpenApart(piece, x, k);
      ReplaceAllNoMatch(piece, p, v);
    } else {
      PlaceholderApart(n, x, k);
      if n == k {
        WholeReplaced(p, v);
      } else {
        ReplaceAllNoMatch(piece, p, v);
      }
    }
    ReplaceAllConcat(piece, x, p, v);
  }

  /** The resolved values of the table's keys that lie in `keys`. */
  function ResolvedOn(table: map<string, string>, keys: set<string>, m: Markers): map<string, string> {
    map k | k in table && k in keys :: Resolve(table[k], m)
  }

  /** A table whose keys are names and whose resolved values hold no `{`. */
  predicate PlainTable(table: map<string, string>, m: Markers) {
    forall k :: k in table ==> IsName(k) && '{' !in Resolve(table[k], m)
  }

  lemma {:induction false} SubstituteFillsFrom(s: string, done: set<string>, order: seq<string>,
                                               table: map<string, string>, m: Markers)
    requires NoNestedOpen(s) && PlainTable(table, m)
    ensures Substitute(Fill(s, ResolvedOn(table, done, m)), order, table, m)
            == Fill(s, ResolvedOn(table, done + (set x | x in order), m))
    decreases |order|
  {
    if |order| == 0 {
      assert done + (set x | x in order) == done;
    } else {
      var key := order[0];
      var vals := ResolvedOn(table, done, m);
      if key in table {
        FillStep(s, vals, key, Resolve(table[key], m));
        assert vals[key := Resolve(table[key], m)] == ResolvedOn(table, done + {key}, m);
      } else {
        assert ResolvedOn(table, done + {key}, m) == vals;
      }
      SubstituteFillsFrom(s, done + {key}, order[1..], table, m);
      assert order == [key] + order[1..];
      assert done + {key} + (set x | x in order[1..]) == done + (set x | x in order);
    }
  }

  /** When no value puts in a `{` and no `{` of the body is followed by name
      characters and another `{`, the substitution is the one-pass fill with
      every bound key: the same for every order that lists the table's keys. */
  lemma SubstituteIsFill(body: string, order: seq<string>, table: map<string, string>, m: Markers)
    requires NoNestedOpen(body) && PlainTable(table, m)
    requires forall k :: k in table ==> k in order
    ensures Substitute(body, order, table, m) == Fill(body, ResolvedOn(table, table.Keys, m))
  {
    FillNothing(body);
    assert ResolvedOn(table, {}, m) == map[];
    SubstituteFillsFrom(body, {}, order, table, m);
    assert ResolvedOn(table, {} + (set x | x in order), m) == ResolvedOn(table, table.Keys, m);
  }

  /** The fill leaves no placeholder of a bound key. */
  lemma {:induction false} FillLeavesNoBound(s: string, vals: map<string, string>, k: string)
    requires NoNestedOpen(s) && IsName(k) && k in vals
    requires forall n :: n in vals ==> '{' !in vals[n]
    ensures !Contains(Fill(s, vals), "{" + k + "}")
    decreases |s|
  {
    var p := "{" + k + "}";
    if |s| > 0 {
      match PlaceholderAt(s)
      case Some(n) =>
        var rest := s[|n| + 2..];
        NoNestedOpenSuffix(s, |n| + 2);
        FillLeavesNoBound(rest, vals, k);
        if n in vals {
          NoOpenApart(vals[n], Fill(rest, vals), k);
          ConcatNoOccurrence(vals[n], Fill(rest, vals), p);
        } else {
          PlaceholderApart(n, Fill(rest, vals), k);
          ConcatNoOccurrence("{" + n + "}", Fill(rest, vals), p);
        }
      case None =>
        NoNestedOpenSuffix(s, 1);
        FillLeavesNoBound(s[1..], vals, k);
        CopyNoStraddle(s, vals, k);
        assert !Contains([s[0]], p);
        ConcatNoOccurrence([s[0]], Fill(s[1..], vals), p);
    }
  }

  /** Under the conditions of `SubstituteIsFill`, no `{key}` of a bound key
      is left in the substituted body. */
  lemma SubstituteLeavesNoBound(body: string, order: seq<string>, table: map<string, string>, m: Markers, k: string)
    requires NoNestedOpen(body) && PlainTable(table, m)
    requires forall k :: k in table ==> k in order
    requires k in table
    ensures !Contains(Substitute(body, order, table, m), "{" + k + "}")
  {
    SubstituteIsFill(body, order, table, m);
    FillLeavesNoBound(body, ResolvedOn(table, table.Keys, m), k);
  }

  /** A placeholder whose key the table does not bind survives the
      substitution, whatever the values and the order. */
  lemma {:induction false} SubstituteKeepsUnbound(body: string, order: seq<string>, table: map<string, string>,
                                                  m: Markers, u: string)
    requires IsName(u) && u !in table && Contains(body, "{" + u + "}")
    requires forall k :: k in table ==> IsName(k)
    ensures Contains(Substitute(body, order, table, m), "{" + u + "}")
    decreases |order|
  {
    if |order| > 0 {
      var key := order[0];
      var q := "{" + u + "}";
      if key in table {
        var p := "{" + key + "}";
        var i :| 0 <= i <= |body| - |q| && OccursAt(body, q, i);
        forall j | OccursAt(body, p, j) ensures j + |p| <= i || i + |q| <= j {
          PlaceholdersApart(body, key, u, j, i);
        }
        ReplaceKeepsOccurrence(body, p, q, Resolve(table[key], m), i);
        SubstituteKeepsUnbound(ReplaceAll(body, p, Resolve(table[key], m)), order[1..], table, m, u);
      } else {
        SubstituteKeepsUnbound(body, order[1..], table, m, u);
      }
    }
  }

  /** Why the body condition is needed: in `{{a}}`, with `a` bound to `a`,
      replacing `{a}` leaves a new `{a}` behind. */
  lemma NestedOpenRebuildsPlaceholder()
    ensures Substitute("{{a}}", ["a"], map["a" := "a"], BuildMarkers) == "{a}"
  {
    assert Resolve("a", BuildMarkers) == "a";
    assert ReplaceAll("}", "{a}", "a") == "}";
    assert ReplaceAll("{a}}", "{a}", "a") == "a}";
    assert ReplaceAll("{{a}}", "{a}", "a") == "{a}";
  }

  function CssLink(root: string, name: string): string {
    "<link rel=\"stylesheet\" href=\"" + root + "/shared/reusables/" + name + "/" + name + ".css\">\n"
  }

  function JsLink(root: string, name: string): string {
    "<script defer src=\"" + root + "/shared/reusables/" + name + "/" + name + ".js\"></script>\n"
  }

  /** The links a component adds to the head: the stylesheet link first when
      the component has a stylesheet and the page lacks the link, then the
      script link under the same rule; both decided on the page as it stands. */
  function HeadInserts(content: string, name: string, c: Component, root: string): (r: string)
    ensures StartsWith(r, CssLink(root, name)) <==> c.hasScss && !Contains(content, CssLink(root, name))
    ensures EndsWith(r, JsLink(root, name)) <==> c.hasTs && !Contains(content, JsLink(root, name))
    ensures r == "" <==> (!c.hasScss || Contains(content, CssLink(root, name)))
                          && (!c.hasTs || Contains(content, JsLink(root, name)))
  {
    var css := CssLink(root, name);
    var js := JsLink(root, name);
    assert !StartsWith(js, css) by { assert js[1] != css[1]; }
    assert !EndsWith(css, js) by {
      if |js| <= |css| {
        assert css[|css| - 3] == '"';
        assert js[|js| - 3] == 't';
        assert css[|css| - |js|..][|js| - 3] == css[|css| - 3];
      }
    }
    (if c.hasScss && !Contains(content, css) then css else "")
    + (if c.hasTs && !Contains(content, js) then js else "")
  }

  /** The head links go immediately before the first `</head>`; a page
      without `</head>` is left as it is. */
  function InjectHead(content: string, name: string, c: Component, root: string): (r: string)
    ensures !Contains(content, "</head>") ==> r == content
    ensures Contains(content, "</head>") ==>
      (var p := IndexOf(content, "</head>").value;
       r == content[..p] + HeadInserts(content, name, c, root) + content[p..]
       && OccursAt(r, "</head>", p + |HeadInserts(content, name, c, root)|))
  {
    match IndexOf(content, "</head>")
    case None => content
    case Some(p) =>
      var ins := HeadInserts(content, name, c, root);
      var r := content[..p] + ins + content[p..];
      assert r[p + |ins|..] == content[p..];
      r
  }

  function MissingDirectoryComment(name: string): string {
    "<!-- ERROR: Component '" + name + "' directory not found. -->"
  }

  function MissingBodyComment(name: string): string {
    "<!-- ERROR: HTML file for Component '" + name + "' not found. -->"
  }

  /** The page and the parameter table that persists across steps. */
  datatype State = State(content: string, table: map<string, string>)

  /** One step on the tag `tag`: merge its parameters, then either mark a
      missing component, fail on a body that is not UTF-8, or inject the head
      links and put the substituted body in place of every copy of the tag.
      `order` is the iteration order of the merged table. */
  function Step(st: State, tag: Tag, registry: map<string, Component>, order: seq<string>, m: Markers): (r: Result<State, string>)
    requires |tag.full| > 0
    requires EnumeratesKeys(order, Merge(st.table, ParseParams(tag.params)))
    ensures r.Err? <==> tag.name in registry && registry[tag.name].body.NotUtf8?
    ensures r.Err? ==> r.error == BodyPath(tag.name)
    ensures r.Ok? ==> st.table.Keys <= r.value.table.Keys
  {
    var table := Merge(st.table, ParseParams(tag.params));
    if tag.name !in registry then
      Ok(State(ReplaceAll(st.content, tag.full, MissingDirectoryComment(tag.name)), table))
    else
      var c := registry[tag.name];
      match c.body
      case NotUtf8 => Err(BodyPath(tag.name))
      case _ =>
        var body := if c.body.Utf8? then c.body.text else MissingBodyComment(tag.name);
        var processed := Substitute(body, order, table, m);
        var page := InjectHead(st.content, tag.name, c, m.root);
        Ok(State(ReplaceAll(page, tag.full, processed), table))
  }

  /** Parameters are merged into the table at every step that succeeds,
      whether or not the component exists, with last-write-wins. */
  lemma StepMergesParameters(st: State, tag: Tag, registry: map<string, Component>, order: seq<string>, m: Markers)
    requires |tag.full| > 0
    requires EnumeratesKeys(order, Merge(st.table, ParseParams(tag.params)))
    requires Step(st, tag, registry, order, m).Ok?
    ensures var ps := ParseParams(tag.params);
            var r := Step(st, tag, registry, order, m).value;
            && r.table.Keys == st.table.Keys + (set i | 0 <= i < |ps| :: ps[i].key)
            && (forall i :: 0 <= i < |ps| && LastFor(ps, i) ==> r.table[ps[i].key] == ps[i].value)
            && (forall k :: k in st.table && (forall i :: 0 <= i < |ps| ==> ps[i].key != k) ==> r.table[k] == st.table[k])
  {
    var ps := ParseParams(tag.params);
    MergeKeys(st.table, ps);
    forall i | 0 <= i < |ps| && LastFor(ps, i) ensures Merge(st.table, ps)[ps[i].key] == ps[i].value {
      MergeLastWins(st.table, ps, i);
    }
    forall k | k in st.table && (forall i :: 0 <= i < |ps| ==> ps[i].key != k)
      ensures Merge(st.table, ps)[k] == st.table[k]
    {
      MergeKeepsOthers(st.table, ps, k);
    }
  }

  /** A missing component: every copy of the tag (every piece between the
      splits) becomes the error comment, and nothing is added to the head. */
  lemma StepMissingDirectory(st: State, tag: Tag, registry: map<string, Component>, order: seq<string>, m: Markers)
    requires |tag.full| > 0 && tag.name !in registry
    requires EnumeratesKeys(order, Merge(st.table, ParseParams(tag.params)))
    ensures Step(st, tag, registry, order, m).Ok?
    ensures Step(st, tag, registry, order, m).value.content
            == Join(Split(st.content, tag.full), MissingDirectoryComment(tag.name))
  {
    ReplaceAllIsSplitJoin(st.content, tag.full, MissingDirectoryComment(tag.name));
  }

  /** A present component with a readable or missing body: the page with the
      head links injected, with every copy of the tag replaced by the
      substituted body (the error comment standing in for a missing body). */
  lemma StepPresentComponent(st: State, tag: Tag, registry: map<string, Component>, order: seq<string>, m: Markers)
    requires |tag.full| > 0 && tag.name in registry && !registry[tag.name].body.NotUtf8?
    requires EnumeratesKeys(order, Merge(st.table, ParseParams(tag.params)))
    ensures Step(st, tag, registry, order, m).Ok?
    ensures var c := registry[tag.name];
            var table := Step(st, tag, registry, order, m).value.table;
            var body := if c.body.Utf8? then c.body.text else MissingBodyComment(tag.name);
            Step(st, tag, registry, order, m).value.content
            == Join(Split(InjectHead(st.content, tag.name, c, m.root), tag.full), Substitute(body, order, table, m))
  {
    var c := registry[tag.name];
    var table := Merge(st.table, ParseParams(tag.params));
    var body := if c.body.Utf8? then c.body.text else MissingBodyComment(tag.name);
    ReplaceAllIsSplitJoin(InjectHead(st.content, tag.name, c, m.root), tag.full, Substitute(body, order, table, m));
  }

  /** A step on a component whose body meets the conditions of
      `SubstituteIsFill`: every copy of the tag becomes the body filled with
      the resolved value of every key of the merged table, whichever order
      the table is iterated in. */
  lemma StepFillsBody(st: State, tag: Tag, registry: map<string, Component>, order: seq<string>, m: Markers)
    requires |tag.full| > 0 && tag.name in registry && registry[tag.name].body.Utf8?
    requires EnumeratesKeys(order, Merge(st.table, ParseParams(tag.params)))
    requires NoNestedOpen(registry[tag.name].body.text)
    requires PlainTable(Merge(st.table, ParseParams(tag.params)), m)
    ensures var c := registry[tag.name];
            var table := Merge(st.table, ParseParams(tag.params));
            Step(st, tag, registry, order, m)
            == Ok(State(ReplaceAll(InjectHead(st.content, tag.name, c, m.root), tag.full,
                                   Fill(c.body.text, ResolvedOn(table, table.Keys, m))), table))
  {
    var table := Merge(st.table, ParseParams(tag.params));
    SubstituteIsFill(registry[tag.name].body.text, order, table, m);
  }

  // ---------------------------------------------------------------------
  // The loop.
  // ---------------------------------------------------------------------

  /** The loop's outcome: the page once no tag is left, the page at the
      point where the key orders (the fuel) ran out with tags still in it,
      or the body file whose read failed. */
  datatype Outcome = Expanded(text: string) | DepthExceeded(text: string) | ReadFailed(path: string)

  /** `orders[n]` enumerates the merged table of the `n`-th step that the
      loop takes from `st`. */
  predicate OrdersFit(st: State, registry: map<string, Component>, orders: seq<seq<string>>, m: Markers)
    decreases |orders|
  {
    match FirstTag(st.content)
    case None => true
    case Some(tag) =>
      || |orders| == 0
      || (&& EnumeratesKeys(orders[0], Merge(st.table, ParseParams(tag.params)))
          && match Step(st, tag, registry, orders[0], m)
             case Ok(next) => OrdersFit(next, registry, orders[1..], m)
             case Err(_) => true)
  }

  /** Steps on the first tag until none is left; step `n` iterates the
      parameter table in the key order `orders[n]`. */
  function ExpandFrom(st: State, registry: map<string, Component>, orders: seq<seq<string>>, m: Markers): (r: Outcome)
    requires OrdersFit(st, registry, orders, m)
    ensures r.Expanded? ==> FirstTag(r.text) == None
    ensures FirstTag(st.content) == None ==> r == Expanded(st.content)
    ensures r.DepthExceeded? ==> FirstTag(r.text).Some?
    ensures r.ReadFailed? ==> exists name :: name in registry && registry[name].body.NotUtf8? && r.path == BodyPath(name)
    decreases |orders|
  {
    match FirstTag(st.content)
    case None => Expanded(st.content)
    case Some(tag) =>
      if |orders| == 0 then DepthExceeded(st.content)
      else
        match Step(st, tag, registry, orders[0], m)
        case Ok(next) => ExpandFrom(next, registry, orders[1..], m)
        case Err(path) => ReadFailed(path)
  }

  /** The loop on the text of one page, with an empty parameter table at
      the start. */
  function Expand(content: string, registry: map<string, Component>, orders: seq<seq<string>>, m: Markers): (r: Outcome)
    requires OrdersFit(State(content, map[]), registry, orders, m)
    ensures r.Expanded? ==> FirstTag(r.text) == None
    ensures !Contains(content, "<r-") ==> r == Expanded(content)
    ensures (forall name :: name in registry ==> !registry[name].body.NotUtf8?) ==> !r.ReadFailed?
  {
    NoOpenerNoTag(content);
    ExpandFrom(State(content, map[]), registry, orders, m)
  }

  /** `replace_html_component_placeholders` on the page at `path`: a page
      that is not a file is left alone (`None`), a page that is not UTF-8
      fails to read, and any other page is expanded and then written back. */
  function ExpandPage(path: string, page: TextFile, registry: map<string, Component>,
                      orders: seq<seq<string>>, m: Markers): (r: Option<Outcome>)
    requires page.Utf8? ==> OrdersFit(State(page.text, map[]), registry, orders, m)
    ensures r.None? <==> page.Missing?
    ensures page.NotUtf8? ==> r == Some(ReadFailed(path))
    ensures page.Utf8? && !Contains(page.text, "<r-") ==> r == Some(Expanded(page.text))
    ensures r.Some? && r.value.Expanded? ==> FirstTag(r.value.text) == None
  {
    match page
    case Missing => None
    case NotUtf8 => Some(ReadFailed(path))
    case Utf8(text) => Some(Expand(text, registry, orders, m))
  }
}
