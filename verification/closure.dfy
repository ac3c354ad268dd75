/** The dependency closure resolver: from the set of changed paths, the set
    of every file that must be rebuilt because it (transitively) uses a
    changed component. */
module Closure {
  import opened Wrappers
  import opened Text
  import opened FsPath

  // ---------------------------------------------------------------------
  // Scanning a page for component tags, `<r-(.*?)>` with `.` not matching
  // a line break.
  // ---------------------------------------------------------------------

  /** `k` is where the lazy `.*?` started at `j` stops: the first `>` at or
      after `j`, with no line break before it. */
  predicate LazyCloseAt(s: string, j: int, k: int) {
    0 <= j <= k < |s| && s[k] == '>' && forall m :: j <= m < k ==> s[m] != '>' && s[m] != '\n'
  }

  function CloseIndex(s: string, j: nat): (r: Option<nat>)
    requires j <= |s|
    ensures r.Some? ==> LazyCloseAt(s, j, r.value)
    ensures r.None? ==> forall k :: !LazyCloseAt(s, j, k)
    decreases |s| - j
  {
    if j == |s| then None
    else if s[j] == '>' then Some(j)
    else if s[j] == '\n' then
      assert forall k :: LazyCloseAt(s, j, k) ==> k == j;
      None
    else
      assert forall k :: LazyCloseAt(s, j, k) <==> k > j && LazyCloseAt(s, j + 1, k);
      CloseIndex(s, j + 1)
  }

  /** The capture of every match of `<r-(.*?)>` in `s`, left to right,
      non-overlapping (`Regex::captures_iter`). Each capture is a line-free,
      `>`-free text that the page holds between `<r-` and `>`. */
  function TagContents(s: string): (caps: seq<string>)
    ensures forall i :: 0 <= i < |caps| ==> '>' !in caps[i] && '\n' !in caps[i]
    ensures forall i :: 0 <= i < |caps| ==> Contains(s, "<r-" + caps[i] + ">")
    ensures !Contains(s, "<r-") ==> caps == []
    decreases |s|
  {
    if |s| < 3 then
      assert !Contains(s, "<r-") by {
        forall i | OccursAt(s, "<r-", i) ensures false { }
      }
      []
    else if s[..3] == "<r-" then
      match CloseIndex(s, 3)
      case Some(k) =>
        var c := s[3..k];
        var rest := TagContents(s[k + 1..]);
        assert s[0..k + 1] == "<r-" + c + ">";
        assert OccursAt(s, "<r-" + c + ">", 0);
        assert forall i :: 0 <= i < |rest| ==> Contains(s, "<r-" + rest[i] + ">") by {
          forall i | 0 <= i < |rest| ensures Contains(s, "<r-" + rest[i] + ">") {
            var t := "<r-" + rest[i] + ">";
            var m :| OccursAt(s[k + 1..], t, m);
            OccursInSuffix(s, k + 1, t, m);
          }
        }
        assert forall x :: x in c ==> x != '>' && x != '\n';
        assert OccursAt(s, "<r-", 0);
        [c] + rest
      case None =>
        TailTags(s)
    else
      TailTags(s)
  }

  /** Started inside a tag's name, the lazy close stops at the tag's `>`. */
  lemma {:induction false} CloseAfterName(s: string, j: nat, n: string)
    requires j + |n| < |s| && s[j..j + |n|] == n && s[j + |n|] == '>' && '>' !in n && '\n' !in n
    ensures CloseIndex(s, j) == Some(j + |n|)
    decreases |n|
  {
    if |n| > 0 {
      assert s[j] == n[0];
      assert s[j + 1..j + 1 + |n[1..]|] == n[1..];
      assert forall c :: c in n[1..] ==> c in n;
      CloseAfterName(s, j + 1, n[1..]);
    }
  }

  /** A tag at the front is captured whole, and the scan goes on after it. */
  lemma TagContentsOfTag(n: string, rest: string)
    requires '>' !in n && '\n' !in n
    ensures TagContents("<r-" + n + ">" + rest) == [n] + TagContents(rest)
  {
    var s := "<r-" + n + ">" + rest;
    assert s[..3] == "<r-";
    assert s[3..3 + |n|] == n && s[3 + |n|] == '>';
    CloseAfterName(s, 3, n);
    assert s[3 + |n| + 1..] == rest;
  }

  /** The scan resumes one character later: used where no match starts at 0. */
  function TailTags(s: string): (caps: seq<string>)
    requires |s| > 0
    ensures forall i :: 0 <= i < |caps| ==> '>' !in caps[i] && '\n' !in caps[i]
    ensures forall i :: 0 <= i < |caps| ==> Contains(s, "<r-" + caps[i] + ">")
    ensures !Contains(s, "<r-") ==> caps == []
    decreases |s|, 0
  {
    var rest := TagContents(s[1..]);
    assert forall i :: 0 <= i < |rest| ==> Contains(s, "<r-" + rest[i] + ">") by {
      forall i | 0 <= i < |rest| ensures Contains(s, "<r-" + rest[i] + ">") {
        var t := "<r-" + rest[i] + ">";
        var m :| OccursAt(s[1..], t, m);
        OccursInSuffix(s, 1, t, m);
      }
    }
    assert !Contains(s, "<r-") ==> !Contains(s[1..], "<r-") by {
      if Contains(s[1..], "<r-") {
        var m :| OccursAt(s[1..], "<r-", m);
        OccursInSuffix(s, 1, "<r-", m);
      }
    }
    rest
  }

  /** `split_whitespace().next().unwrap_or("")`: the first run of
      non-whitespace characters, or the empty string for a blank text. */
  function FirstWord(c: string): (w: string)
    ensures w == "" <==> forall i :: 0 <= i < |c| ==> IsRustSpace(c[i])
    ensures forall i :: 0 <= i < |w| ==> !IsRustSpace(w[i])
    ensures var k := LeadingCount(c, IsRustSpace);
      && k + |w| <= |c| && c[k..k + |w|] == w
      && (k + |w| == |c| || IsRustSpace(c[k + |w|]))
  {
    var k := LeadingCount(c, IsRustSpace);
    var a := c[k..];
    var n := LeadingCount(a, x => !IsRustSpace(x));
    assert k < |c| ==> n > 0 by {
      if k < |c| { assert a[0] == c[k]; }
    }
    a[..n]
  }

  /** `Path::new(components_dir).join(name).join(name + ".html")`: where the
      body file of component `name` is expected. */
  function ComponentBodyPath(componentsDir: string, name: string): string {
    Push(Push(componentsDir, name), name + ".html")
  }

  /** A tag capture that names a component whose body path is in `frontier`. */
  predicate NamesFrontier(cap: string, componentsDir: string, frontier: set<string>) {
    var name := FirstWord(cap);
    name != "" && ComponentBodyPath(componentsDir, name) in frontier
  }

  /** The scan of the tags of one file, stopping at the first one that names
      a frontier component. */
  function UsesFrontier(caps: seq<string>, componentsDir: string, frontier: set<string>): (b: bool)
    ensures b <==> exists i :: 0 <= i < |caps| && NamesFrontier(caps[i], componentsDir, frontier)
  {
    if |caps| == 0 then false
    else if NamesFrontier(caps[0], componentsDir, frontier) then true
    else
      assert forall i :: 1 <= i < |caps| ==> caps[i] == caps[1..][i - 1];
      UsesFrontier(caps[1..], componentsDir, frontier)
  }

  // ---------------------------------------------------------------------
  // The source tree and the fixed-point loop.
  // ---------------------------------------------------------------------

  /** The source tree: every file path in walk order, and the text of each
      file that can be read as UTF-8 (a path without an entry is unreadable). */
  datatype SourceTree = SourceTree(walk: seq<string>, text: map<string, string>)

  /** The HTML files of the walk: those whose extension is exactly `html`. */
  function HtmlFiles(walk: seq<string>): (html: seq<string>)
    ensures forall p :: p in html <==> p in walk && Extension(p) == Some("html")
  {
    Filter(walk, p => Extension(p) == Some("html"))
  }

  /** The frontier of a rebuild set: its members that contain the components
      directory as a substring. */
  function Frontier(rebuild: set<string>, componentsDir: string): set<string> {
    set p | p in rebuild && Contains(p, componentsDir)
  }

  /** File `h` is readable and one of its tags names a frontier component. */
  ghost predicate Triggers(h: string, text: map<string, string>, componentsDir: string, frontier: set<string>) {
    h in text
    && exists i :: 0 <= i < |TagContents(text[h])|
                   && NamesFrontier(TagContents(text[h])[i], componentsDir, frontier)
  }

  /** A rebuild set is closed when every HTML file that triggers on its
      frontier already belongs to it. */
  ghost predicate Closed(rebuild: set<string>, html: seq<string>, text: map<string, string>, componentsDir: string) {
    forall h :: h in html && Triggers(h, text, componentsDir, Frontier(rebuild, componentsDir)) ==> h in rebuild
  }

  /** The loop state: the rebuild set and the frontier (`current_modified`
      and `modified_html_components`). */
  datatype Scan = Scan(rebuild: set<string>, frontier: set<string>)

  /** One file of a pass: a file not yet in the set is added exactly when it
      is readable and one of its tags names a frontier component; it joins
      the frontier too when its own path contains the components directory. */
  function Visit(h: string, text: map<string, string>, componentsDir: string, st: Scan): (r: Scan)
    ensures r.rebuild == if h !in st.rebuild && Triggers(h, text, componentsDir, st.frontier)
                         then st.rebuild + {h} else st.rebuild
    ensures r.frontier == if h !in st.rebuild && Triggers(h, text, componentsDir, st.frontier)
                             && Contains(h, componentsDir)
                          then st.frontier + {h} else st.frontier
  {
    if h in st.rebuild then st
    else if h !in text then st
    else if UsesFrontier(TagContents(text[h]), componentsDir, st.frontier) then
      Scan(st.rebuild + {h}, if Contains(h, componentsDir) then st.frontier + {h} else st.frontier)
    else st
  }

  /** One pass over every HTML file, in walk order. The set only grows, only
      by readable files of the pass, and the frontier stays the part of the
      set under the components directory. */
  function Pass(html: seq<string>, text: map<string, string>, componentsDir: string, st: Scan): (r: Scan)
    ensures st.rebuild <= r.rebuild && st.frontier <= r.frontier
    ensures forall h :: h in r.rebuild && h !in st.rebuild ==> h in html && h in text
    ensures st.frontier == Frontier(st.rebuild, componentsDir) ==> r.frontier == Frontier(r.rebuild, componentsDir)
    decreases |html|
  {
    if |html| == 0 then st
    else Pass(html[1..], text, componentsDir, Visit(html[0], text, componentsDir, st))
  }

  /** The HTML files not yet in the set: the termination measure. */
  function Unadded(html: seq<string>, rebuild: set<string>): set<string> {
    (set h | h in html) - rebuild
  }

  lemma SubsetSameSize(a: set<string>, b: set<string>)
    requires a <= b && |a| == |b|
    ensures a == b
  {
    assert b == a + (b - a);
    assert |b - a| == 0;
  }

  lemma NewElement(a: set<string>, b: set<string>) returns (x: string)
    requires a <= b && |a| != |b|
    ensures x in b && x !in a
  {
    assert b == a + (b - a);
    assert |b - a| > 0;
    x :| x in b - a;
  }

  lemma ProperSubsetSmaller(a: set<string>, b: set<string>)
    requires a <= b && a != b
    ensures |a| < |b|
  {
    assert b == a + (b - a);
    assert b - a != {};
  }

  /** A pass that grows the set leaves fewer HTML files unadded. */
  lemma PassShrinksUnadded(html: seq<string>, text: map<string, string>, componentsDir: string, st: Scan)
    requires |Pass(html, text, componentsDir, st).rebuild| != |st.rebuild|
    ensures |Unadded(html, Pass(html, text, componentsDir, st).rebuild)| < |Unadded(html, st.rebuild)|
  {
    var next := Pass(html, text, componentsDir, st);
    var h := NewElement(st.rebuild, next.rebuild);
    assert h in Unadded(html, st.rebuild);
    ProperSubsetSmaller(Unadded(html, next.rebuild), Unadded(html, st.rebuild));
  }

  /** The loop: passes are repeated until one adds nothing. The result is
      reached after at most one pass more than there are unadded HTML files. */
  function Loop(html: seq<string>, text: map<string, string>, componentsDir: string, st: Scan): (r: (set<string>, nat))
    ensures st.rebuild <= r.0
    ensures 1 <= r.1 <= |Unadded(html, st.rebuild)| + 1
    decreases |Unadded(html, st.rebuild)|
  {
    var next := Pass(html, text, componentsDir, st);
    if |next.rebuild| == |st.rebuild| then (next.rebuild, 1)
    else
      PassShrinksUnadded(html, text, componentsDir, st);
      var (res, n) := Loop(html, text, componentsDir, next);
      (res, n + 1)
  }

  /** `get_all_files_that_need_recompiling`. */
  function Close(input: set<string>, tree: SourceTree, componentsDir: string): (r: set<string>)
    ensures input <= r
    ensures Frontier(input, componentsDir) == {} ==> r == input
  {
    var frontier := Frontier(input, componentsDir);
    if frontier == {} then input
    else Loop(HtmlFiles(tree.walk), tree.text, componentsDir, Scan(input, frontier)).0
  }

  /** How many passes `Close` makes: none when no input path lies in the
      components directory, and at most one more than the number of HTML
      files outside the input otherwise, whatever cycles the tags form. */
  function ClosePasses(input: set<string>, tree: SourceTree, componentsDir: string): (n: nat)
    ensures Frontier(input, componentsDir) == {} ==> n == 0
    ensures n <= |Unadded(HtmlFiles(tree.walk), input)| + 1
  {
    var frontier := Frontier(input, componentsDir);
    if frontier == {} then 0
    else Loop(HtmlFiles(tree.walk), tree.text, componentsDir, Scan(input, frontier)).1
  }

  // ---------------------------------------------------------------------
  // The closure is the least closed superset of the input.
  // ---------------------------------------------------------------------

  /** A pass that adds nothing leaves every HTML file outside the set
      untriggered by the frontier. */
  lemma {:induction false} PassAddsNothing(html: seq<string>, text: map<string, string>, componentsDir: string, st: Scan)
    requires Pass(html, text, componentsDir, st).rebuild == st.rebuild
    ensures forall h :: h in html ==> h in st.rebuild || !Triggers(h, text, componentsDir, st.frontier)
    decreases |html|
  {
    if |html| > 0 {
      var v := Visit(html[0], text, componentsDir, st);
      assert v == st;
      PassAddsNothing(html[1..], text, componentsDir, st);
      assert forall h :: h in html ==> h == html[0] || h in html[1..];
    }
  }

  lemma {:induction false} LoopIsClosed(html: seq<string>, text: map<string, string>, componentsDir: string, st: Scan)
    requires st.frontier == Frontier(st.rebuild, componentsDir)
    ensures Closed(Loop(html, text, componentsDir, st).0, html, text, componentsDir)
    decreases |Unadded(html, st.rebuild)|
  {
    var next := Pass(html, text, componentsDir, st);
    if |next.rebuild| == |st.rebuild| {
      SubsetSameSize(st.rebuild, next.rebuild);
      PassAddsNothing(html, text, componentsDir, st);
    } else {
      PassShrinksUnadded(html, text, componentsDir, st);
      LoopIsClosed(html, text, componentsDir, next);
    }
  }

  /** A pass never leaves a closed superset of its set. */
  lemma {:induction false} PassStaysWithin(html: seq<string>, text: map<string, string>, componentsDir: string,
                                           st: Scan, bound: set<string>)
    requires st.frontier == Frontier(st.rebuild, componentsDir)
    requires st.rebuild <= bound && Closed(bound, html, text, componentsDir)
    ensures Pass(html, text, componentsDir, st).rebuild <= bound
    decreases |html|
  {
    if |html| > 0 {
      var v := Visit(html[0], text, componentsDir, st);
      VisitStaysWithin(html[0], text, componentsDir, st, bound);
      VisitKeepsFrontier(html[0], text, componentsDir, st);
      ClosedOnSuffix(bound, html, text, componentsDir);
      PassStaysWithin(html[1..], text, componentsDir, v, bound);
    }
  }

  lemma VisitStaysWithin(h: string, text: map<string, string>, componentsDir: string, st: Scan, bound: set<string>)
    requires st.frontier == Frontier(st.rebuild, componentsDir) && st.rebuild <= bound
    requires Triggers(h, text, componentsDir, Frontier(bound, componentsDir)) ==> h in bound
    ensures Visit(h, text, componentsDir, st).rebuild <= bound
  {
    if h !in st.rebuild && Triggers(h, text, componentsDir, st.frontier) {
      var i :| 0 <= i < |TagContents(text[h])| && NamesFrontier(TagContents(text[h])[i], componentsDir, st.frontier);
      assert NamesFrontier(TagContents(text[h])[i], componentsDir, Frontier(bound, componentsDir));
    }
  }

  lemma VisitKeepsFrontier(h: string, text: map<string, string>, componentsDir: string, st: Scan)
    requires st.frontier == Frontier(st.rebuild, componentsDir)
    ensures Visit(h, text, componentsDir, st).frontier == Frontier(Visit(h, text, componentsDir, st).rebuild, componentsDir)
  {
    FrontierAdd(st.rebuild, h, componentsDir);
  }

  /** Adding a file to the set adds it to the frontier exactly when its path
      contains the components directory. */
  lemma FrontierAdd(rebuild: set<string>, h: string, componentsDir: string)
    ensures Frontier(rebuild + {h}, componentsDir)
            == Frontier(rebuild, componentsDir) + (if Contains(h, componentsDir) then {h} else {})
  {
  }

  lemma ClosedOnSuffix(bound: set<string>, html: seq<string>, text: map<string, string>, componentsDir: string)
    requires |html| > 0 && Closed(bound, html, text, componentsDir)
    ensures Closed(bound, html[1..], text, componentsDir)
  {
    forall h | h in html[1..] ensures h in html { }
  }

  lemma {:induction false} LoopStaysWithin(html: seq<string>, text: map<string, string>, componentsDir: string,
                                           st: Scan, bound: set<string>)
    requires st.frontier == Frontier(st.rebuild, componentsDir)
    requires st.rebuild <= bound && Closed(bound, html, text, componentsDir)
    ensures Loop(html, text, componentsDir, st).0 <= bound
    decreases |Unadded(html, st.rebuild)|
  {
    var next := Pass(html, text, componentsDir, st);
    PassStaysWithin(html, text, componentsDir, st, bound);
    if |next.rebuild| != |st.rebuild| {
      PassShrinksUnadded(html, text, componentsDir, st);
      LoopStaysWithin(html, text, componentsDir, next, bound);
    }
  }

  /** The closure contains the input, is closed, and lies inside every
      closed superset of the input: it is the least fixed point of the
      "uses a frontier component" rule, whatever the walk order. */
  lemma CloseIsLeastClosed(input: set<string>, tree: SourceTree, componentsDir: string)
    ensures input <= Close(input, tree, componentsDir)
    ensures Closed(Close(input, tree, componentsDir), HtmlFiles(tree.walk), tree.text, componentsDir)
    ensures forall bound :: input <= bound && Closed(bound, HtmlFiles(tree.walk), tree.text, componentsDir)
                            ==> Close(input, tree, componentsDir) <= bound
  {
    var html := HtmlFiles(tree.walk);
    var frontier := Frontier(input, componentsDir);
    if frontier != {} {
      LoopIsClosed(html, tree.text, componentsDir, Scan(input, frontier));
      forall bound | input <= bound && Closed(bound, html, tree.text, componentsDir)
        ensures Close(input, tree, componentsDir) <= bound
      {
        LoopStaysWithin(html, tree.text, componentsDir, Scan(input, frontier), bound);
      }
    }
  }

  /** Re-running the resolver on its own output returns the same set. */
  lemma CloseIdempotent(input: set<string>, tree: SourceTree, componentsDir: string)
    ensures Close(Close(input, tree, componentsDir), tree, componentsDir) == Close(input, tree, componentsDir)
  {
    var r := Close(input, tree, componentsDir);
    CloseIsLeastClosed(input, tree, componentsDir);
    CloseIsLeastClosed(r, tree, componentsDir);
  }

  /** Every path the resolver adds is a readable HTML file of the walk. */
  lemma {:induction false} LoopAddsHtml(html: seq<string>, text: map<string, string>, componentsDir: string, st: Scan)
    ensures forall h :: h in Loop(html, text, componentsDir, st).0 && h !in st.rebuild ==> h in html && h in text
    decreases |Unadded(html, st.rebuild)|
  {
    var next := Pass(html, text, componentsDir, st);
    if |next.rebuild| != |st.rebuild| {
      PassShrinksUnadded(html, text, componentsDir, st);
      LoopAddsHtml(html, text, componentsDir, next);
    }
  }

  lemma CloseAddsOnlyReadableHtml(input: set<string>, tree: SourceTree, componentsDir: string)
    ensures forall h :: h in Close(input, tree, componentsDir) && h !in input
                        ==> h in tree.walk && Extension(h) == Some("html") && h in tree.text
  {
    var frontier := Frontier(input, componentsDir);
    if frontier != {} {
      LoopAddsHtml(HtmlFiles(tree.walk), tree.text, componentsDir, Scan(input, frontier));
    }
  }
}
