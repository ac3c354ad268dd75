/** The JavaScript category filter (category-filter.js): boolean filter
    states, the click handler `handleFilterTileClicked` with the cascade of
    `_updateDescendentsAndAncestors`, and the boolean item rule. A tile is
    known by its filter name; `present` holds the names whose tile
    `_findFilterElementByName` finds, and `keys` the table's keys in
    `Object.keys` order. */
module CategoryFilterJs {
  import opened Wrappers
  import opened Text
  import opened FilterTiers

  /** The value of a `filterTiers` entry or an `isSelected` argument. */
  datatype JsVal = Undefined | Bool(b: bool)

  predicate Truthy(v: JsVal) {
    v == Bool(true)
  }

  /** The filter table and the names whose tile carries the `selected`
      class. */
  datatype Tiles = Tiles(tiers: map<string, JsVal>, selected: set<string>)

  /** Writes `value` into the table under every name of `names` and gives
      their tiles the selected look when `look` holds, the unselected one
      otherwise. */
  function Assign(ui: Tiles, names: set<string>, value: JsVal, look: bool): Tiles {
    Tiles(map k | k in ui.tiers.Keys + names :: if k in names then value else ui.tiers[k],
          if look then ui.selected + names else ui.selected - names)
  }

  /** Assigning to no name changes nothing. */
  lemma AssignNothing(ui: Tiles, value: JsVal, look: bool)
    ensures Assign(ui, {}, value, look) == ui
  {
    var r := Assign(ui, {}, value, look);
    assert r.tiers.Keys == ui.tiers.Keys;
    assert r.tiers == ui.tiers;
    assert r.selected == ui.selected;
  }

  /** Names outside `names` keep their entry and their look. */
  lemma AssignElsewhere(ui: Tiles, names: set<string>, value: JsVal, look: bool, k: string)
    requires k !in names
    ensures var r := Assign(ui, names, value, look);
            (k in r.tiers <==> k in ui.tiers) && (k in r.tiers ==> r.tiers[k] == ui.tiers[k])
            && (k in r.selected <==> k in ui.selected)
  {
  }

  /** Names of `names` get `value` and the look `look`. */
  lemma AssignAt(ui: Tiles, names: set<string>, value: JsVal, look: bool, k: string)
    requires k in names
    ensures var r := Assign(ui, names, value, look);
            k in r.tiers && r.tiers[k] == value && (k in r.selected <==> look)
  {
  }

  /** Two assignments of the same value and look are one assignment of the
      union. */
  lemma AssignTwice(ui: Tiles, a: set<string>, b: set<string>, value: JsVal, look: bool)
    ensures Assign(Assign(ui, a, value, look), b, value, look) == Assign(ui, a + b, value, look)
  {
    var l, r := Assign(Assign(ui, a, value, look), b, value, look), Assign(ui, a + b, value, look);
    assert l.tiers.Keys == r.tiers.Keys;
    assert l.tiers == r.tiers;
    assert l.selected == r.selected;
  }

  // ---------------------------------------------------------------------
  // `_updateTheFilterImage`.
  // ---------------------------------------------------------------------

  /** The look the tile gets (`true` for selected) and the value returned.
      The `const` declared inside the `undefined` branch shadows the
      parameter, so the parameter itself decides both. */
  function UpdateTheFilterImage(isSelected: JsVal): (r: (bool, JsVal)) {
    (!Truthy(isSelected), isSelected)
  }

  /** The returned value never says that the tile is now selected, against
      the documented promise: `undefined` gives the selected look and
      returns `undefined`, `true` the unselected look and `false` the
      selected one. */
  lemma ImageReturnMisreports(isSelected: JsVal)
    ensures UpdateTheFilterImage(isSelected).1 != Bool(UpdateTheFilterImage(isSelected).0)
    ensures isSelected.Undefined? ==> UpdateTheFilterImage(isSelected) == (true, Undefined)
    ensures UpdateTheFilterImage(Bool(true)) == (false, Bool(true))
    ensures UpdateTheFilterImage(Bool(false)) == (true, Bool(false))
  {
  }

  // ---------------------------------------------------------------------
  // The click handler and its cascade.
  // ---------------------------------------------------------------------

  /** The keys strictly below `n`; the cascade's recursion descends in it. */
  function DescendantSet(keys: seq<string>, n: string): set<string> {
    set k | k in keys && IsDescendantOf(n, k)
  }

  function Rank(keys: seq<string>, n: string): nat {
    |DescendantSet(keys, n)|
  }

  /** No filter is its own descendant. */
  lemma NotOwnDescendant(d: string)
    ensures !IsDescendantOf(d, d)
  {
    assert |d + "."| == |d| + 1;
  }

  /** A descendant key has fewer keys below it. */
  lemma RankDecreases(keys: seq<string>, n: string, d: string)
    requires d in keys && IsDescendantOf(n, d)
    ensures Rank(keys, d) < Rank(keys, n)
  {
    forall e | e in DescendantSet(keys, d) ensures e in DescendantSet(keys, n) {
      DescendantTransitive(n, d, e);
    }
    NotOwnDescendant(d);
    var a, b := DescendantSet(keys, d), DescendantSet(keys, n);
    assert d in b - a;
    assert b == a + (b - a);
    assert a * (b - a) == {};
    assert |b - a| >= 1;
  }

  lemma DescendantsRankBelow(keys: seq<string>, n: string)
    ensures forall i :: 0 <= i < |Descendants(keys, n)| ==> Rank(keys, Descendants(keys, n)[i]) + 1 < Rank(keys, n) + 1
  {
    var ds := Descendants(keys, n);
    forall i | 0 <= i < |ds| ensures Rank(keys, ds[i]) + 1 < Rank(keys, n) + 1 {
      assert ds[i] in ds;
      RankDecreases(keys, n, ds[i]);
    }
  }

  /** Whether `_findFilterElementByName` finds a tile: one exists, and its
      image name is a key of the table. */
  predicate Found(keys: seq<string>, present: set<string>, name: string) {
    name in present && name in keys
  }

  /** `handleFilterTileClicked(element, isSelected)` for the tile of `n`:
      the image, then the table entry, then the cascade when the argument is
      `undefined`, passing on what `_updateTheFilterImage` returned. */
  function Handle(keys: seq<string>, present: set<string>, n: string, isSelected: JsVal, ui: Tiles): Tiles
    decreases if isSelected.Undefined? then Rank(keys, n) + 1 else 0, 2, 0
  {
    var (look, tileStateNow) := UpdateTheFilterImage(isSelected);
    var ui1 := Assign(ui, {n}, isSelected, look);
    if isSelected.Undefined? then Cascade(keys, present, n, tileStateNow, ui1) else ui1
  }

  /** `_updateDescendentsAndAncestors(element, isSelected)`: every
      descendant in key order, then, when the state is truthy, every
      ancestor shortest first. */
  function Cascade(keys: seq<string>, present: set<string>, n: string, isSelected: JsVal, ui: Tiles): Tiles
    decreases Rank(keys, n) + 1, 1, 0
  {
    DescendantsRankBelow(keys, n);
    var ui1 := HandleEach(keys, present, Descendants(keys, n), isSelected, Rank(keys, n) + 1, ui);
    if Truthy(isSelected) then HandleEach(keys, present, Ancestors(n), isSelected, Rank(keys, n) + 1, ui1)
    else ui1
  }

  /** One of the cascade's `for` loops: the handler on the tile of each
      name that has one; `bound` caps the rank of what is still to come. */
  function HandleEach(keys: seq<string>, present: set<string>, names: seq<string>, isSelected: JsVal,
                      bound: nat, ui: Tiles): Tiles
    requires bound >= 1
    requires isSelected.Undefined? ==> forall i :: 0 <= i < |names| ==> Rank(keys, names[i]) + 1 < bound
    decreases bound, 0, |names|
  {
    if names == [] then ui
    else
      var ui1 := if Found(keys, present, names[0]) then Handle(keys, present, names[0], isSelected, ui) else ui;
      HandleEach(keys, present, names[1..], isSelected, bound, ui1)
  }

  // ---------------------------------------------------------------------
  // What a click touches.
  // ---------------------------------------------------------------------

  /** The descendants of `n` that have a tile. */
  function FoundDescendants(keys: seq<string>, present: set<string>, n: string): set<string> {
    set d | d in keys && d in present && IsDescendantOf(n, d)
  }

  /** The ancestors of `n` that have a tile. */
  function FoundAncestors(keys: seq<string>, present: set<string>, n: string): set<string> {
    set a | a in Ancestors(n) && a in present && a in keys
  }

  /** The names one `for` loop of the cascade writes. */
  function Touched(keys: seq<string>, present: set<string>, names: seq<string>, isSelected: JsVal): set<string> {
    if names == [] then {}
    else
      (if Found(keys, present, names[0])
       then {names[0]} + (if isSelected.Undefined? then FoundDescendants(keys, present, names[0]) else {})
       else {})
      + Touched(keys, present, names[1..], isSelected)
  }

  lemma {:induction false} TouchedMembers(keys: seq<string>, present: set<string>, names: seq<string>,
                                          isSelected: JsVal, x: string)
    ensures x in Touched(keys, present, names, isSelected) <==>
            exists i :: 0 <= i < |names| && Found(keys, present, names[i])
                        && (x == names[i] || (isSelected.Undefined? && x in FoundDescendants(keys, present, names[i])))
  {
    if names != [] {
      TouchedMembers(keys, present, names[1..], isSelected, x);
      if x in Touched(keys, present, names[1..], isSelected) {
        var i :| 0 <= i < |names[1..]| && Found(keys, present, names[1..][i])
                 && (x == names[1..][i] || (isSelected.Undefined? && x in FoundDescendants(keys, present, names[1..][i])));
        assert names[i + 1] == names[1..][i];
      }
      if i :| 0 <= i < |names| && Found(keys, present, names[i])
              && (x == names[i] || (isSelected.Undefined? && x in FoundDescendants(keys, present, names[i]))) {
        if i > 0 {
          assert names[1..][i - 1] == names[i];
        }
      }
    }
  }

  /** The descendant loop writes exactly the found descendants, whatever
      the state passed on. */
  lemma TouchedDescendants(keys: seq<string>, present: set<string>, n: string, isSelected: JsVal)
    ensures Touched(keys, present, Descendants(keys, n), isSelected) == FoundDescendants(keys, present, n)
  {
    var ds := Descendants(keys, n);
    forall x ensures x in Touched(keys, present, ds, isSelected) <==> x in FoundDescendants(keys, present, n) {
      TouchedMembers(keys, present, ds, isSelected, x);
      if x in Touched(keys, present, ds, isSelected) {
        var i :| 0 <= i < |ds| && Found(keys, present, ds[i])
                 && (x == ds[i] || (isSelected.Undefined? && x in FoundDescendants(keys, present, ds[i])));
        assert ds[i] in ds;
        if x != ds[i] {
          DescendantTransitive(n, ds[i], x);
        }
      }
      if x in FoundDescendants(keys, present, n) {
        assert x in ds;
        var i :| 0 <= i < |ds| && ds[i] == x;
        assert Found(keys, present, ds[i]);
      }
    }
  }

  /** The ancestor loop, run with a boolean, writes exactly the found
      ancestors. */
  lemma TouchedAncestors(keys: seq<string>, present: set<string>, n: string, b: bool)
    ensures Touched(keys, present, Ancestors(n), Bool(b)) == FoundAncestors(keys, present, n)
  {
    var an := Ancestors(n);
    forall x ensures x in Touched(keys, present, an, Bool(b)) <==> x in FoundAncestors(keys, present, n) {
      TouchedMembers(keys, present, an, Bool(b), x);
      if x in FoundAncestors(keys, present, n) {
        var i :| 0 <= i < |an| && an[i] == x;
        assert Found(keys, present, an[i]);
      }
    }
  }

  /** The handler writes `isSelected` and the look `_updateTheFilterImage`
      chose into the clicked tile and, when the argument is `undefined`,
      into every found descendant; nothing else changes. */
  lemma {:induction false} HandleSpec(keys: seq<string>, present: set<string>, n: string, isSelected: JsVal, ui: Tiles)
    ensures Handle(keys, present, n, isSelected, ui)
            == Assign(ui, {n} + (if isSelected.Undefined? then FoundDescendants(keys, present, n) else {}),
                      isSelected, !Truthy(isSelected))
    decreases if isSelected.Undefined? then Rank(keys, n) + 1 else 0, 2, 0
  {
    var ui1 := Assign(ui, {n}, isSelected, !Truthy(isSelected));
    if isSelected.Undefined? {
      CascadeSpec(keys, present, n, isSelected, ui1);
      AssignTwice(ui, {n}, FoundDescendants(keys, present, n), isSelected, !Truthy(isSelected));
    }
  }

  /** The cascade writes the state passed on into every found descendant
      and, when that state is truthy, every found ancestor; nothing else
      changes. */
  lemma {:induction false} CascadeSpec(keys: seq<string>, present: set<string>, n: string, isSelected: JsVal, ui: Tiles)
    ensures Cascade(keys, present, n, isSelected, ui)
            == Assign(ui, FoundDescendants(keys, present, n)
                          + (if Truthy(isSelected) then FoundAncestors(keys, present, n) else {}),
                      isSelected, !Truthy(isSelected))
    decreases Rank(keys, n) + 1, 1, 0
  {
    var look := !Truthy(isSelected);
    var fd := FoundDescendants(keys, present, n);
    DescendantLoopSpec(keys, present, n, isSelected, ui);
    var ui1 := Assign(ui, fd, isSelected, look);
    if Truthy(isSelected) {
      var fa := FoundAncestors(keys, present, n);
      AncestorLoopSpec(keys, present, n, ui1);
      AssignTwice(ui, fd, fa, isSelected, look);
    } else {
      assert fd + {} == fd;
    }
  }

  /** The descendant loop of the cascade. */
  lemma {:induction false} DescendantLoopSpec(keys: seq<string>, present: set<string>, n: string,
                                              isSelected: JsVal, ui: Tiles)
    ensures forall i :: 0 <= i < |Descendants(keys, n)| ==> Rank(keys, Descendants(keys, n)[i]) + 1 < Rank(keys, n) + 1
    ensures HandleEach(keys, present, Descendants(keys, n), isSelected, Rank(keys, n) + 1, ui)
            == Assign(ui, FoundDescendants(keys, present, n), isSelected, !Truthy(isSelected))
    decreases Rank(keys, n) + 1, 0, |Descendants(keys, n)| + 1
  {
    DescendantsRankBelow(keys, n);
    HandleEachSpec(keys, present, Descendants(keys, n), isSelected, Rank(keys, n) + 1, ui);
    TouchedDescendants(keys, present, n, isSelected);
  }

  /** The ancestor loop of the cascade, run with `true`. */
  lemma {:induction false} AncestorLoopSpec(keys: seq<string>, present: set<string>, n: string, ui: Tiles)
    ensures HandleEach(keys, present, Ancestors(n), Bool(true), Rank(keys, n) + 1, ui)
            == Assign(ui, FoundAncestors(keys, present, n), Bool(true), false)
    decreases Rank(keys, n) + 1, 0, |Ancestors(n)| + 1
  {
    HandleEachSpec(keys, present, Ancestors(n), Bool(true), Rank(keys, n) + 1, ui);
    TouchedAncestors(keys, present, n, true);
  }

  lemma {:induction false} HandleEachSpec(keys: seq<string>, present: set<string>, names: seq<string>,
                                          isSelected: JsVal, bound: nat, ui: Tiles)
    requires bound >= 1
    requires isSelected.Undefined? ==> forall i :: 0 <= i < |names| ==> Rank(keys, names[i]) + 1 < bound
    ensures HandleEach(keys, present, names, isSelected, bound, ui)
            == Assign(ui, Touched(keys, present, names, isSelected), isSelected, !Truthy(isSelected))
    decreases bound, 0, |names|
  {
    var look := !Truthy(isSelected);
    if names == [] {
      AssignNothing(ui, isSelected, look);
    } else {
      var d := names[0];
      var own := if Found(keys, present, d)
                 then {d} + (if isSelected.Undefined? then FoundDescendants(keys, present, d) else {})
                 else {};
      var ui1 := if Found(keys, present, d) then Handle(keys, present, d, isSelected, ui) else ui;
      if Found(keys, present, d) {
        HandleSpec(keys, present, d, isSelected, ui);
      } else {
        AssignNothing(ui, isSelected, look);
      }
      assert ui1 == Assign(ui, own, isSelected, look);
      HandleEachSpec(keys, present, names[1..], isSelected, bound, ui1);
      AssignTwice(ui, own, Touched(keys, present, names[1..], isSelected), isSelected, look);
    }
  }

  /** A click (`isSelected` undefined) gives the tile and every found
      descendant the selected look and the table value `undefined`; the
      cascade passes `undefined` on, so it never reaches the ancestors. */
  lemma ClickSpec(keys: seq<string>, present: set<string>, n: string, ui: Tiles)
    ensures Handle(keys, present, n, Undefined, ui)
            == Assign(ui, {n} + FoundDescendants(keys, present, n), Undefined, true)
  {
    HandleSpec(keys, present, n, Undefined, ui);
  }

  /** A call with a boolean touches the one tile, and nothing cascades. */
  lemma BooleanHandleSpec(keys: seq<string>, present: set<string>, n: string, b: bool, ui: Tiles)
    ensures Handle(keys, present, n, Bool(b), ui) == Assign(ui, {n}, Bool(b), !b)
  {
  }

  /** An ancestor is neither the filter nor one of its descendants. */
  lemma AncestorNotBelow(n: string, a: string)
    requires a in Ancestors(n)
    ensures a != n && !IsDescendantOf(n, a)
  {
    AncestorsSpec(n);
    var i :| 0 <= i < |Ancestors(n)| && Ancestors(n)[i] == a;
    assert |a| < |n|;
  }

  /** After a click every ancestor keeps its table entry and its look. */
  lemma ClickSkipsAncestors(keys: seq<string>, present: set<string>, n: string, ui: Tiles, a: string)
    requires a in Ancestors(n)
    ensures var r := Handle(keys, present, n, Undefined, ui);
            (a in r.tiers <==> a in ui.tiers) && (a in r.tiers ==> r.tiers[a] == ui.tiers[a])
            && (a in r.selected <==> a in ui.selected)
  {
    ClickSpec(keys, present, n, ui);
    AncestorNotBelow(n, a);
    AssignElsewhere(ui, {n} + FoundDescendants(keys, present, n), Undefined, true, a);
  }

  /** A click never takes the selected look away from the clicked tile,
      however it looked before. */
  lemma ClickNeverDeselects(keys: seq<string>, present: set<string>, n: string, ui: Tiles)
    ensures var r := Handle(keys, present, n, Undefined, ui);
            n in r.selected && n in r.tiers && r.tiers[n] == Undefined
  {
    ClickSpec(keys, present, n, ui);
    AssignAt(ui, {n} + FoundDescendants(keys, present, n), Undefined, true, n);
  }

  // ---------------------------------------------------------------------
  // The handler as documented: `_updateTheFilterImage` reads the tile's
  // current look when the argument is `undefined` and returns the new
  // state, which the table records and the cascade passes on.
  // ---------------------------------------------------------------------

  /** The new state: the argument when it is a boolean, the opposite of the
      current look otherwise. */
  function NextState(isSelected: JsVal, wasSelected: bool): bool {
    if isSelected.Undefined? then !wasSelected else isSelected.b
  }

  function HandleIntended(keys: seq<string>, present: set<string>, n: string, isSelected: JsVal, ui: Tiles): Tiles
    decreases if isSelected.Undefined? then 2 else 0, 0
  {
    var next := NextState(isSelected, n in ui.selected);
    var ui1 := Assign(ui, {n}, Bool(next), next);
    if isSelected.Undefined? then CascadeIntended(keys, present, n, next, ui1) else ui1
  }

  function CascadeIntended(keys: seq<string>, present: set<string>, n: string, next: bool, ui: Tiles): Tiles
    decreases 1, 0
  {
    var ui1 := HandleEachIntended(keys, present, Descendants(keys, n), next, ui);
    if next then HandleEachIntended(keys, present, Ancestors(n), next, ui1) else ui1
  }

  function HandleEachIntended(keys: seq<string>, present: set<string>, names: seq<string>, next: bool, ui: Tiles): Tiles
    decreases 0, |names|
  {
    if names == [] then ui
    else
      var ui1 := if Found(keys, present, names[0]) then HandleIntended(keys, present, names[0], Bool(next), ui) else ui;
      HandleEachIntended(keys, present, names[1..], next, ui1)
  }

  lemma {:induction false} HandleEachIntendedSpec(keys: seq<string>, present: set<string>, names: seq<string>,
                                                  next: bool, ui: Tiles)
    ensures HandleEachIntended(keys, present, names, next, ui)
            == Assign(ui, Touched(keys, present, names, Bool(next)), Bool(next), next)
  {
    if names == [] {
      AssignNothing(ui, Bool(next), next);
    } else {
      var d := names[0];
      var own := if Found(keys, present, d) then {d} else {};
      var ui1 := if Found(keys, present, d) then HandleIntended(keys, present, d, Bool(next), ui) else ui;
      if !Found(keys, present, d) {
        AssignNothing(ui, Bool(next), next);
      }
      assert ui1 == Assign(ui, own, Bool(next), next);
      HandleEachIntendedSpec(keys, present, names[1..], next, ui1);
      AssignTwice(ui, own, Touched(keys, present, names[1..], Bool(next)), Bool(next), next);
    }
  }

  /** Corrected click: the tile toggles, the table records the new
      boolean, every found descendant follows, and when the tile becomes
      selected so does every found ancestor; nothing else changes. */
  lemma IntendedClickSpec(keys: seq<string>, present: set<string>, n: string, ui: Tiles)
    ensures var next := n !in ui.selected;
            HandleIntended(keys, present, n, Undefined, ui)
            == Assign(ui, {n} + FoundDescendants(keys, present, n)
                          + (if next then FoundAncestors(keys, present, n) else {}),
                      Bool(next), next)
  {
    var next := n !in ui.selected;
    var fd, fa := FoundDescendants(keys, present, n), FoundAncestors(keys, present, n);
    var ui1 := Assign(ui, {n}, Bool(next), next);
    HandleEachIntendedSpec(keys, present, Descendants(keys, n), next, ui1);
    TouchedDescendants(keys, present, n, Bool(next));
    AssignTwice(ui, {n}, fd, Bool(next), next);
    var ui2 := Assign(ui, {n} + fd, Bool(next), next);
    if next {
      HandleEachIntendedSpec(keys, present, Ancestors(n), next, ui2);
      TouchedAncestors(keys, present, n, next);
      AssignTwice(ui, {n} + fd, fa, Bool(next), next);
    } else {
      assert {n} + fd + {} == {n} + fd;
    }
  }

  /** Corrected click on an unselected tile: every found ancestor ends
      selected with the table value `true`. */
  lemma IntendedClickSelectsAncestors(keys: seq<string>, present: set<string>, n: string, ui: Tiles, a: string)
    requires n !in ui.selected && a in FoundAncestors(keys, present, n)
    ensures var r := HandleIntended(keys, present, n, Undefined, ui);
            a in r.selected && a in r.tiers && r.tiers[a] == Bool(true)
  {
    IntendedClickSpec(keys, present, n, ui);
    AssignAt(ui, {n} + FoundDescendants(keys, present, n) + FoundAncestors(keys, present, n), Bool(true), true, a);
  }

  /** Corrected click on a selected tile: the tile ends unselected with the
      table value `false`. */
  lemma IntendedClickDeselects(keys: seq<string>, present: set<string>, n: string, ui: Tiles)
    requires n in ui.selected
    ensures var r := HandleIntended(keys, present, n, Undefined, ui);
            n !in r.selected && n in r.tiers && r.tiers[n] == Bool(false)
  {
    IntendedClickSpec(keys, present, n, ui);
    AssignAt(ui, {n} + FoundDescendants(keys, present, n), Bool(false), false, n);
  }

  // ---------------------------------------------------------------------
  // Items.
  // ---------------------------------------------------------------------

  /** `filterTiers[tag] !== false`: a tag is shown unless its entry is
      exactly `false`; tags missing from the table read `undefined`. */
  predicate JsShown(tiers: map<string, JsVal>, tag: string) {
    !(tag in tiers && tiers[tag] == Bool(false))
  }

  function JsShownTest(tiers: map<string, JsVal>): (f: string -> bool)
    ensures forall t :: f(t) <==> JsShown(tiers, t)
  {
    t => JsShown(tiers, t)
  }

  /** A tag group passes exactly when one of its tags is not `false`. */
  lemma JsGroupRule(group: string, tiers: map<string, JsVal>)
    ensures GroupPasses(group, JsShownTest(tiers)) <==>
            exists i :: 0 <= i < |Split(group, "::")|
                        && !(Split(group, "::")[i] in tiers && tiers[Split(group, "::")[i]] == Bool(false))
  {
    var parts, f := Split(group, "::"), JsShownTest(tiers);
    if GroupPasses(group, f) {
      var i :| 0 <= i < |parts| && f(parts[i]);
      assert !(parts[i] in tiers && tiers[parts[i]] == Bool(false));
    }
    if i :| 0 <= i < |parts| && !(parts[i] in tiers && tiers[parts[i]] == Bool(false)) {
      assert f(parts[i]);
      assert exists i :: 0 <= i < |Split(group, "::")|
                        && !(Split(group, "::")[i] in tiers && tiers[Split(group, "::")[i]] == Bool(false));
      assert GroupPasses(group, JsShownTest(tiers));
    }
  }

  /** After a click, the clicked filter and its found descendants read as
      shown to the item rule. */
  lemma ClickShowsTag(keys: seq<string>, present: set<string>, n: string, ui: Tiles, t: string)
    requires t == n || t in FoundDescendants(keys, present, n)
    ensures JsShown(Handle(keys, present, n, Undefined, ui).tiers, t)
  {
    ClickSpec(keys, present, n, ui);
    AssignAt(ui, {n} + FoundDescendants(keys, present, n), Undefined, true, t);
  }
}
