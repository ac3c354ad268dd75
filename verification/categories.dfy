/** The category-file reader of the index page script (edit-me index.ts):
    the configuration lines, the leading-tab count that gives a line's
    tier, the tier check and the per-line step of `getCategories`. The
    fetch of the file becomes its text as an input. */
module Categories {
  import opened Wrappers
  import opened Text

  /** The map of maps `getCategories` promises: each category maps to its
      sub-categories, or to nothing for a leaf. */
  datatype CategoryNode = CategoryNode(entries: map<string, Option<CategoryNode>>)

  const EmptyNode: CategoryNode := CategoryNode(map[])

  /** The error thrown for a line whose tier breaks the rule. */
  datatype TierError = InvalidTier(line: string, lineNum: int, currentTier: nat, prevTier: int)

  // ---------------------------------------------------------------------
  // Lines of the file (`readFileLineByLine`).
  // ---------------------------------------------------------------------

  function TrimLines(parts: seq<string>): (r: seq<string>)
    ensures |r| == |parts| && forall i :: 0 <= i < |r| ==> r[i] == Trim(parts[i], IsJsSpace)
  {
    seq(|parts|, i requires 0 <= i < |parts| => Trim(parts[i], IsJsSpace))
  }

  /** A trimmed line that `filter` keeps: not empty, not a `#` comment. */
  predicate Kept(line: string) {
    line != "" && !StartsWith(line, "#")
  }

  /** The text split at `\n`, each line trimmed, and the empty and comment
      lines dropped, in file order. */
  function ConfigLines(text: string): (r: seq<string>)
    ensures forall x :: x in r <==> exists i :: 0 <= i < |Split(text, "\n")|
                                              && x == Trim(Split(text, "\n")[i], IsJsSpace) && Kept(x)
    ensures forall i :: 0 <= i < |r| ==> Kept(r[i]) && !IsJsSpace(r[i][0])
  {
    var parts := Split(text, "\n");
    KeptLines(parts);
    Filter(TrimLines(parts), Kept)
  }

  /** The kept trimmed lines are exactly the trimmed lines that pass
      `Kept`, and none starts with white space. */
  lemma KeptLines(parts: seq<string>)
    ensures var r := Filter(TrimLines(parts), Kept);
            && (forall x :: x in r <==> exists i :: 0 <= i < |parts| && x == Trim(parts[i], IsJsSpace) && Kept(x))
            && forall i :: 0 <= i < |r| ==> Kept(r[i]) && !IsJsSpace(r[i][0])
  {
    var trimmed := TrimLines(parts);
    var r := Filter(trimmed, Kept);
    forall x | x in trimmed ensures exists i :: 0 <= i < |parts| && x == Trim(parts[i], IsJsSpace) {
      var i :| 0 <= i < |trimmed| && trimmed[i] == x;
    }
    forall i | 0 <= i < |r| ensures r[i] in trimmed && Kept(r[i]) && !IsJsSpace(r[i][0]) {
      assert r[i] in r;
    }
  }

  /** Reading two texts joined by a line break reads the lines of each, in
      order: a `\n` always ends a line, so no line spans the join. */
  lemma ConfigLinesJoin(a: string, b: string)
    ensures ConfigLines(a + "\n" + b) == ConfigLines(a) + ConfigLines(b)
  {
    var pa := Split(a, "\n");
    var pb := Split(b, "\n");
    SplitAroundSeparator(a, '\n', b);
    assert Split(a + "\n" + b, "\n") == pa + pb;
    assert TrimLines(pa + pb) == TrimLines(pa) + TrimLines(pb);
    FilterConcat(TrimLines(pa), TrimLines(pb), Kept);
  }

  /** A single line is read as its trimmed self when it is kept, and as
      nothing when it is blank or a comment. */
  lemma ConfigLinesOfLine(line: string)
    requires '\n' !in line
    ensures ConfigLines(line) == if Kept(Trim(line, IsJsSpace)) then [Trim(line, IsJsSpace)] else []
  {
    SplitWithoutSeparator(line, '\n');
    assert TrimLines([line]) == [Trim(line, IsJsSpace)];
    FilterSingle(Trim(line, IsJsSpace), Kept);
  }

  // ---------------------------------------------------------------------
  // Tiers.
  // ---------------------------------------------------------------------

  predicate IsTab(c: char) {
    c == '\t'
  }

  /** `countLeadingTabs`: the length of the leading run of tabs. */
  function CountLeadingTabs(text: string): (r: nat)
    ensures r <= |text| && forall j :: 0 <= j < r ==> text[j] == '\t'
    ensures r == |text| || text[r] != '\t'
  {
    LeadingCount(text, IsTab)
  }

  /** An indent of `n` tabs before a line that does not start with a tab
      counts `n`. */
  lemma CountIndent(n: nat, rest: string)
    requires rest == [] || rest[0] != '\t'
    ensures CountLeadingTabs(Repeat("\t", n) + rest) == n
  {
    var s := Repeat("\t", n) + rest;
    forall j | 0 <= j < n ensures IsTab(s[j]) {
      RepeatAt("\t", n, j);
    }
    LeadingCountUnique(s, IsTab, n);
  }

  lemma RepeatAt(s: string, n: nat, j: nat)
    requires |s| == 1 && j < n
    ensures Repeat(s, n)[j] == s[0]
  {
    if j > 0 {
      RepeatAt(s, n - 1, j - 1);
    }
  }

  /** The three examples of the documentation. */
  lemma CountLeadingTabsExamples()
    ensures CountLeadingTabs("\t\tHello") == 2
    ensures CountLeadingTabs("Hello") == 0
    ensures CountLeadingTabs("\t\t\tTest\t") == 3
  {
    CountIndent(2, "Hello");
    assert Repeat("\t", 2) + "Hello" == "\t\tHello";
    CountIndent(0, "Hello");
    CountIndent(3, "Test\t");
    assert Repeat("\t", 3) + "Test\t" == "\t\t\tTest\t";
  }

  /** A trimmed, non-empty line never starts with a tab. */
  lemma TrimmedHasNoTier(line: string)
    requires line == [] || !IsJsSpace(line[0])
    ensures CountLeadingTabs(line) == 0
  {
  }

  /** `tierIsValid`: the same tier, one below, one above, or a new top-level
      category. */
  function TierIsValid(currentTier: int, previousTier: int): (r: bool)
    ensures r <==> currentTier == 0 || -1 <= currentTier - previousTier <= 1
  {
    if currentTier == previousTier then true
    else if currentTier == previousTier - 1 then true
    else if currentTier == previousTier + 1 then true
    else if currentTier == 0 then true
    else false
  }

  // ---------------------------------------------------------------------
  // `_processLineForCategory` and `getCategories`.
  // ---------------------------------------------------------------------

  /** One line: the error for an invalid tier, otherwise the next line
      number and the map as it was (the insertion is not written). */
  function ProcessLine(line: string, lineNum: int, prevTier: int, categories: CategoryNode)
    : (r: Result<(int, CategoryNode), TierError>)
    ensures r.Err? <==> !TierIsValid(CountLeadingTabs(line), prevTier)
    ensures r.Err? ==> r.error == InvalidTier(line, lineNum, CountLeadingTabs(line), prevTier)
    ensures r.Ok? ==> r.value == (lineNum + 1, categories)
  {
    var currentTier := CountLeadingTabs(line);
    if !TierIsValid(currentTier, prevTier) then Err(InvalidTier(line, lineNum, currentTier, prevTier))
    else Ok((lineNum + 1, categories))
  }

  /** The `forEach` of `getCategories` from line number `lineNum` on; every
      line is checked against tier 0. */
  function ProcessLines(lines: seq<string>, lineNum: int, categories: CategoryNode): Result<CategoryNode, TierError> {
    if lines == [] then Ok(categories)
    else
      match ProcessLine(lines[0], lineNum, 0, categories)
      case Err(e) => Err(e)
      case Ok((num, next)) => ProcessLines(lines[1..], num, next)
  }

  /** `getCategories` on the lines of the file. */
  function GetCategories(lines: seq<string>): Result<CategoryNode, TierError> {
    ProcessLines(lines, 0, EmptyNode)
  }

  /** The loop throws exactly at the first line indented by two tabs or
      more, reporting its position; otherwise it returns the map unchanged. */
  lemma {:induction false} ProcessLinesSpec(lines: seq<string>, lineNum: int, categories: CategoryNode)
    ensures var r := ProcessLines(lines, lineNum, categories);
            (r.Ok? <==> forall i :: 0 <= i < |lines| ==> CountLeadingTabs(lines[i]) <= 1)
            && (r.Ok? ==> r.value == categories)
            && (r.Err? ==> exists i :: 0 <= i < |lines| && CountLeadingTabs(lines[i]) >= 2
                                       && (forall j :: 0 <= j < i ==> CountLeadingTabs(lines[j]) <= 1)
                                       && r.error == InvalidTier(lines[i], lineNum + i, CountLeadingTabs(lines[i]), 0))
  {
    if lines != [] {
      var p := ProcessLine(lines[0], lineNum, 0, categories);
      if p.Ok? {
        ProcessLinesSpec(lines[1..], lineNum + 1, categories);
        var r := ProcessLines(lines, lineNum, categories);
        assert r == ProcessLines(lines[1..], lineNum + 1, categories);
        assert forall i :: 1 <= i < |lines| ==> lines[i] == lines[1..][i - 1];
        if r.Err? {
          var i :| 0 <= i < |lines[1..]| && CountLeadingTabs(lines[1..][i]) >= 2
                   && (forall j :: 0 <= j < i ==> CountLeadingTabs(lines[1..][j]) <= 1)
                   && r.error == InvalidTier(lines[1..][i], lineNum + 1 + i, CountLeadingTabs(lines[1..][i]), 0);
          assert forall j :: 0 <= j < i + 1 ==> CountLeadingTabs(lines[j]) <= 1 by {
            forall j | 0 <= j < i + 1 ensures CountLeadingTabs(lines[j]) <= 1 {
              if j > 0 {
                assert lines[j] == lines[1..][j - 1];
              }
            }
          }
          assert lines[i + 1] == lines[1..][i];
        }
      }
    }
  }

  /** Because every line is trimmed first, no line of the file has a tier:
      `getCategories` never throws and returns the empty map. */
  lemma GetCategoriesEmpty(text: string)
    ensures GetCategories(ConfigLines(text)) == Ok(EmptyNode)
  {
    var lines := ConfigLines(text);
    forall i | 0 <= i < |lines| ensures CountLeadingTabs(lines[i]) <= 1 {
      TrimmedHasNoTier(lines[i]);
    }
    ProcessLinesSpec(lines, 0, EmptyNode);
  }
}
