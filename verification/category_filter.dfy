/** The pure logic of the TypeScript category filter
    (category-filter.ts): the tube-image state tables, the image a parent
    tile takes from its descendants' states, the item rule with states
    `SELECTING_*`, and the header stack of "return to parent". The DOM
    lookups become inputs. */
module CategoryFilter {
  import opened Wrappers
  import opened Text
  import opened FilterTiers

  const FullImage: string := "/shared/images/filtering/test-tube-full.avif"
  const HalfImage: string := "/shared/images/filtering/test-tube-half.avif"
  const EmptyImage: string := "/shared/images/filtering/test-tube.avif"

  /** The click cycle of `filterStateImages` points at the images through
      this relative prefix. */
  const RelativeImages: string := "../../.."

  const SelectingAll: string := "SELECTING_ALL"
  const SelectingPartial: string := "SELECTING_PARTIAL"
  const SelectingNone: string := "SELECTING_NONE"

  const FilterStateImages: map<string, string> :=
    map[FullImage := RelativeImages + EmptyImage, HalfImage := RelativeImages + EmptyImage,
        EmptyImage := RelativeImages + FullImage]

  const ImagesToState: map<string, string> :=
    map[FullImage := SelectingAll, HalfImage := SelectingPartial, EmptyImage := SelectingNone]

  const StateToImages: map<string, string> :=
    map[SelectingAll := FullImage, SelectingPartial := HalfImage, SelectingNone := EmptyImage]

  // ---------------------------------------------------------------------
  // State tables.
  // ---------------------------------------------------------------------

  lemma ImagesDistinct()
    ensures FullImage != HalfImage && FullImage != EmptyImage && HalfImage != EmptyImage
  {
    assert FullImage[35] == 'f' && HalfImage[35] == 'h' && EmptyImage[34] == '.' && FullImage[34] == '-' && HalfImage[34] == '-';
  }

  lemma StatesDistinct()
    ensures SelectingAll != SelectingPartial && SelectingAll != SelectingNone && SelectingPartial != SelectingNone
  {
    assert SelectingAll[10] == 'A' && SelectingPartial[10] == 'P' && SelectingNone[10] == 'N';
  }

  /** `imagesToState` and `stateToImages` are inverse bijections between the
      three tube images and the three states. */
  lemma StateTablesInverse()
    ensures ImagesToState.Keys == StateToImages.Values && StateToImages.Keys == ImagesToState.Values
    ensures forall img :: img in ImagesToState ==> StateToImages[ImagesToState[img]] == img
    ensures forall st :: st in StateToImages ==> ImagesToState[StateToImages[st]] == st
  {
    ImagesDistinct();
    StatesDistinct();
    assert ImagesToState[FullImage] == SelectingAll && ImagesToState[HalfImage] == SelectingPartial
           && ImagesToState[EmptyImage] == SelectingNone;
    assert StateToImages[SelectingAll] == FullImage && StateToImages[SelectingPartial] == HalfImage
           && StateToImages[SelectingNone] == EmptyImage;
    assert ImagesToState.Keys == {FullImage, HalfImage, EmptyImage};
    assert StateToImages.Keys == {SelectingAll, SelectingPartial, SelectingNone};
    assert ImagesToState.Values == {SelectingAll, SelectingPartial, SelectingNone};
    assert StateToImages.Values == {FullImage, HalfImage, EmptyImage};
  }

  /** A tile click moves the full and the half tube to the empty one, and
      the empty tube to the full one. */
  lemma ClickCycle()
    ensures FilterStateImages.Keys == ImagesToState.Keys
    ensures FilterStateImages[FullImage] == RelativeImages + EmptyImage
    ensures FilterStateImages[HalfImage] == RelativeImages + EmptyImage
    ensures FilterStateImages[EmptyImage] == RelativeImages + FullImage
  {
    ImagesDistinct();
  }

  // ---------------------------------------------------------------------
  // Descendant aggregation (`_whatShouldStateImgBeBasedOffDescendents`).
  // ---------------------------------------------------------------------

  /** The state of a filter, missing for a name the table lacks. */
  function StateOf(tiers: map<string, string>, name: string): Option<string> {
    if name in tiers then Some(tiers[name]) else None
  }

  function States(tiers: map<string, string>, names: seq<string>): (r: seq<Option<string>>)
    ensures |r| == |names| && forall i :: 0 <= i < |names| ==> r[i] == StateOf(tiers, names[i])
  {
    seq(|names|, i requires 0 <= i < |names| => StateOf(tiers, names[i]))
  }

  /** A state the loop counts as none: neither all nor partial. */
  predicate CountsAsNone(st: Option<string>) {
    st != Some(SelectingAll) && st != Some(SelectingPartial)
  }

  /** What the image should be, stated over the whole list: `same` without
      descendants; the half tube when some is partial or all-states mix with
      others; the full tube when all are all; the empty tube otherwise. */
  function AggregateImage(states: seq<Option<string>>): string {
    if states == [] then "same"
    else if Some(SelectingPartial) in states
            || (Some(SelectingAll) in states && exists i :: 0 <= i < |states| && CountsAsNone(states[i]))
    then HalfImage
    else if Some(SelectingAll) in states then FullImage
    else EmptyImage
  }

  /** The aggregate depends only on which states occur, not on their order. */
  lemma AggregateIgnoresOrder(a: seq<Option<string>>, b: seq<Option<string>>)
    requires multiset(a) == multiset(b)
    ensures AggregateImage(a) == AggregateImage(b)
  {
    assert forall x :: x in a <==> x in b by {
      forall x ensures x in a <==> x in b {
        assert x in a <==> x in multiset(a);
        assert x in b <==> x in multiset(b);
      }
    }
    assert (exists i :: 0 <= i < |a| && CountsAsNone(a[i])) <==> (exists i :: 0 <= i < |b| && CountsAsNone(b[i])) by {
      if i :| 0 <= i < |a| && CountsAsNone(a[i]) { assert a[i] in b; }
      if i :| 0 <= i < |b| && CountsAsNone(b[i]) { assert b[i] in a; }
    }
    if a == [] { assert |b| == |multiset(b)| == 0; }
    if b == [] { assert |a| == |multiset(a)| == 0; }
  }

  /** The counting loop with its early exits, over the descendants of
      `tile` in key order. */
  method DescendantImage(keys: seq<string>, tiers: map<string, string>, tile: string) returns (img: string)
    ensures img == AggregateImage(States(tiers, Descendants(keys, tile)))
  {
    var names := Descendants(keys, tile);
    var states := States(tiers, names);
    if |names| == 0 {
      return "same";
    }
    var allCount, noneCount, partialCount := 0, 0, 0;
    var i := 0;
    while i < |names|
      invariant 0 <= i <= |names|
      invariant allCount > 0 <==> Some(SelectingAll) in states[..i]
      invariant partialCount > 0 <==> Some(SelectingPartial) in states[..i]
      invariant noneCount > 0 <==> exists j :: 0 <= j < i && CountsAsNone(states[j])
      invariant partialCount == 0 && !(allCount > 0 && noneCount > 0)
    {
      var state := StateOf(tiers, names[i]);
      assert states[..i + 1] == states[..i] + [state];
      if state == Some(SelectingAll) {
        allCount := allCount + 1;
      } else if state == Some(SelectingPartial) {
        partialCount := partialCount + 1;
      } else {
        noneCount := noneCount + 1;
      }
      if partialCount > 0 {
        return HalfImage;
      }
      if allCount > 0 && noneCount > 0 {
        return HalfImage;
      }
      i := i + 1;
    }
    assert states[..i] == states;
    if allCount > 0 {
      img := FullImage;
    } else {
      img := EmptyImage;
    }
  }

  // ---------------------------------------------------------------------
  // Items (`filterItems`).
  // ---------------------------------------------------------------------

  /** A tag is shown unless its state is exactly `SELECTING_NONE`; tags the
      table lacks count as shown. */
  predicate TsShown(tiers: map<string, string>, tag: string) {
    StateOf(tiers, tag) != Some(SelectingNone)
  }

  function TsShownTest(tiers: map<string, string>): (f: string -> bool)
    ensures forall t :: f(t) <==> TsShown(tiers, t)
  {
    t => TsShown(tiers, t)
  }

  /** With the TypeScript test a group passes exactly when one of its tags
      is unknown to the table or in a state other than `SELECTING_NONE`. */
  lemma TsGroupRule(group: string, tiers: map<string, string>)
    ensures GroupPasses(group, TsShownTest(tiers)) <==>
            exists i :: 0 <= i < |Split(group, "::")|
                        && (Split(group, "::")[i] !in tiers || tiers[Split(group, "::")[i]] != SelectingNone)
  {
    var parts, f := Split(group, "::"), TsShownTest(tiers);
    var known := (t: string) => t !in tiers || tiers[t] != SelectingNone;
    assert forall t :: f(t) <==> known(t);
    if GroupPasses(group, f) {
      var i :| 0 <= i < |parts| && f(parts[i]);
      assert known(parts[i]);
      assert parts[i] !in tiers || tiers[parts[i]] != SelectingNone;
    }
    if exists i :: 0 <= i < |parts| && known(parts[i]) {
      var i :| 0 <= i < |parts| && known(parts[i]);
      assert f(parts[i]);
      assert parts[i] !in tiers || tiers[parts[i]] != SelectingNone;
      assert exists i :: 0 <= i < |Split(group, "::")|
                        && (Split(group, "::")[i] !in tiers || tiers[Split(group, "::")[i]] != SelectingNone);
      assert GroupPasses(group, TsShownTest(tiers));
    }
  }

  // ---------------------------------------------------------------------
  // Header stack (`filterHeaderReturnToParentClicked`).
  // ---------------------------------------------------------------------

  /** The `while (true)` loop: pop until the popped header is `h` or the
      stack is empty. */
  function PopThrough(stack: seq<string>, h: string): (r: seq<string>)
    requires |stack| > 0
    ensures h in stack ==> exists i :: 0 <= i < |stack| && stack[i] == h && h !in stack[i + 1..] && r == stack[..i]
    ensures h !in stack ==> r == []
  {
    var rest := stack[..|stack| - 1];
    if stack[|stack| - 1] == h then
      assert stack[|stack|..] == [];
      rest
    else if |rest| == 0 then
      rest
    else
      var r := PopThrough(rest, h);
      assert stack == rest + [stack[|stack| - 1]];
      assert h in stack ==> h in rest;
      assert forall i :: 0 <= i < |rest| ==> rest[..i] == stack[..i] && stack[i + 1..] == rest[i + 1..] + [stack[|stack| - 1]];
      r
  }

  /** Return-to-parent, followed by the push of `filterIconClicked`: a
      header that is not on the stack changes nothing; otherwise the stack
      is cut back to end at the last occurrence of the header. */
  function ReturnToParent(stack: seq<string>, h: string): (r: seq<string>)
    ensures h !in stack ==> r == stack
    ensures h in stack ==> exists i :: 0 <= i < |stack| && stack[i] == h && h !in stack[i + 1..] && r == stack[..i + 1]
  {
    if h !in stack then stack
    else
      var r := PopThrough(stack, h);
      assert forall i :: 0 <= i < |stack| && stack[i] == h ==> stack[..i] + [h] == stack[..i + 1];
      r + [h]
  }

  /** Returning to the header on top of the stack leaves the stack as it is. */
  lemma ReturnToTop(stack: seq<string>, h: string)
    requires |stack| > 0 && stack[|stack| - 1] == h
    ensures ReturnToParent(stack, h) == stack
  {
    assert stack[..|stack| - 1] + [h] == stack;
  }
}
