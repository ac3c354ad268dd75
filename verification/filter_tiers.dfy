/** The dot-notation filter hierarchy of the category filter, shared by its
    TypeScript and JavaScript copies: `colours.red` is a child of `colours`,
    every key below `colours` is one of its descendants, and the key `all`
    stands above every other filter. A filter table's keys are given in
    `Object.keys` order; the item-visibility rule lives here too, with the
    per-copy test for a shown tag as a parameter. */
module FilterTiers {
  import opened Wrappers
  import opened Text

  const AllCategory: string := "all"

  /** The number of dots in a name: one less than its dot-segments. */
  function DotCount(s: string): nat {
    multiset(s)['.']
  }

  // ---------------------------------------------------------------------
  // Children and descendants (`_getAllChildren`, `_getAllDescendants`).
  // ---------------------------------------------------------------------

  /** The filter test of `_getAllChildren`: for `all`, the dot-free keys other
      than `all`; otherwise the keys that start with `p.` and split into one
      more dot-segment than `p`. */
  predicate IsChildOf(p: string, key: string) {
    if p == AllCategory then !Contains(key, ".") && key != AllCategory
    else StartsWith(key, p + ".") && |Split(key, ".")| == |Split(p, ".")| + 1
  }

  /** The filter test of `_getAllDescendants`: every key but `all` below
      `all`, and the keys starting with `p.` below any other `p`. */
  predicate IsDescendantOf(p: string, key: string) {
    if p == AllCategory then key != AllCategory else StartsWith(key, p + ".")
  }

  function Children(keys: seq<string>, p: string): (r: seq<string>)
    ensures forall k :: k in r <==> k in keys && IsChildOf(p, k)
  {
    Filter(keys, k => IsChildOf(p, k))
  }

  function Descendants(keys: seq<string>, p: string): (r: seq<string>)
    ensures forall k :: k in r <==> k in keys && IsDescendantOf(p, k)
  {
    Filter(keys, k => IsDescendantOf(p, k))
  }

  /** The children of `all` are exactly the dot-free keys other than `all`. */
  lemma ChildrenOfAll(keys: seq<string>, k: string)
    ensures k in Children(keys, AllCategory) <==> k in keys && '.' !in k && k != AllCategory
  {
    if '.' in k {
      var j :| 0 <= j < |k| && k[j] == '.';
      assert OccursAt(k, ".", j);
    }
    if !Contains(k, ".") {
      NoCharOccurrence(k, '.');
    } else {
      var j :| 0 <= j <= |k| - 1 && OccursAt(k, ".", j);
      assert k[j..j + 1] == ".";
      assert k[j] == '.';
    }
  }

  /** Below any other filter `p`, the children are exactly the keys
      `p.NAME` with a dot-free `NAME`. */
  lemma ChildrenBelow(keys: seq<string>, p: string, k: string)
    requires p != AllCategory
    ensures k in Children(keys, p) <==> k in keys && StartsWith(k, p + ".") && '.' !in k[|p| + 1..]
  {
    SplitCount(k, '.');
    SplitCount(p, '.');
    if StartsWith(k, p + ".") {
      var rest := k[|p| + 1..];
      assert k == p + "." + rest;
      assert multiset(k)['.'] == multiset(p)['.'] + 1 + multiset(rest)['.'];
    }
  }

  /** Every child is a descendant. */
  lemma ChildrenAreDescendants(keys: seq<string>, p: string, k: string)
    requires k in Children(keys, p)
    ensures k in Descendants(keys, p)
  {
  }

  /** The descendants of `all` are all keys but `all`. */
  lemma DescendantsOfAll(keys: seq<string>, k: string)
    ensures k in Descendants(keys, AllCategory) <==> k in keys && k != AllCategory
  {
  }

  /** A descendant is never `all`, and a descendant of a descendant is a
      descendant. */
  lemma DescendantTransitive(p: string, d: string, e: string)
    requires IsDescendantOf(p, d) && IsDescendantOf(d, e)
    ensures d != AllCategory && IsDescendantOf(p, e)
  {
    if p != AllCategory {
      assert d[|p|] == '.';
      assert d != AllCategory;
      assert e[..|p| + 1] == e[..|d| + 1][..|p| + 1];
    }
    assert e[|d|] == '.';
    assert e != AllCategory;
  }

  // ---------------------------------------------------------------------
  // Ancestors (`_getAllAncestors`, category-filter.js).
  // ---------------------------------------------------------------------

  /** The joins of the first `i`, `i + 1`, ... `|parts| - 1` parts. */
  function Prefixes(parts: seq<string>, i: nat): (r: seq<string>)
    requires 1 <= i <= |parts|
    ensures |r| == |parts| - i
    ensures forall j :: 0 <= j < |r| ==> r[j] == Join(parts[..i + j], ".")
    decreases |parts| - i
  {
    if i == |parts| then [] else [Join(parts[..i], ".")] + Prefixes(parts, i + 1)
  }

  /** The proper dot-prefixes of `p`, shortest first; filters without a dot
      have none. The table of filters is not consulted. */
  function Ancestors(p: string): seq<string> {
    if '.' !in p then []
    else Prefixes(Split(p, "."), 1)
  }

  /** Dot-free parts joined with dots have one dot fewer than parts. */
  lemma {:induction false} JoinDotCount(parts: seq<string>)
    requires |parts| >= 1 && forall i :: 0 <= i < |parts| ==> '.' !in parts[i]
    ensures DotCount(Join(parts, ".")) == |parts| - 1
  {
    if |parts| > 1 {
      JoinDotCount(parts[1..]);
      assert multiset(parts[0])['.'] == 0;
      assert Join(parts, ".") == parts[0] + "." + Join(parts[1..], ".");
    } else {
      assert multiset(parts[0])['.'] == 0;
    }
  }

  /** The `i`-th ancestor (from 0) is the prefix of `p` before its
      `(i + 1)`-th dot: `p` continues with a dot after it, and it holds `i`
      dots. There are as many ancestors as dots in `p`. */
  lemma AncestorsSpec(p: string)
    ensures |Ancestors(p)| == DotCount(p)
    ensures forall i :: 0 <= i < |Ancestors(p)| ==>
              StartsWith(p, Ancestors(p)[i] + ".") && DotCount(Ancestors(p)[i]) == i
  {
    var parts := Split(p, ".");
    SplitCount(p, '.');
    if '.' in p {
      SplitJoin(p, ".");
      SplitPartsFree(p, ".");
      forall j | 0 <= j < |parts| ensures '.' !in parts[j] {
        NoCharOccurrence(parts[j], '.');
      }
      forall i | 0 <= i < |Ancestors(p)|
        ensures StartsWith(p, Ancestors(p)[i] + ".") && DotCount(Ancestors(p)[i]) == i
      {
        var a := Ancestors(p)[i];
        assert a == Join(parts[..i + 1], ".");
        JoinSplitAt(parts, ".", i + 1);
        assert p == a + "." + Join(parts[i + 1..], ".");
        assert (a + ".") + Join(parts[i + 1..], ".") == p;
        JoinDotCount(parts[..i + 1]);
      }
    } else {
      assert multiset(p)['.'] == 0;
    }
  }

  /** Ancestors come shortest first. */
  lemma AncestorsShortestFirst(p: string, i: nat, j: nat)
    requires i < j < |Ancestors(p)|
    ensures |Ancestors(p)[i]| < |Ancestors(p)[j]|
  {
    AncestorsSpec(p);
    var a, b := Ancestors(p)[i], Ancestors(p)[j];
    assert StartsWith(p, a + ".") && DotCount(a) == i;
    assert StartsWith(p, b + ".") && DotCount(b) == j;
    PrefixOfPrefix(p, a);
    PrefixOfPrefix(p, b);
    PrefixDotsMonotone(p, |b|, |a|);
  }

  lemma PrefixOfPrefix(p: string, a: string)
    requires StartsWith(p, a + ".")
    ensures |a| < |p| && a == p[..|a|]
  {
    assert p[..|a|] == (a + ".")[..|a|];
  }

  /** A longer prefix holds at least as many dots. */
  lemma PrefixDotsMonotone(s: string, m: nat, n: nat)
    ensures m <= n <= |s| ==> DotCount(s[..m]) <= DotCount(s[..n])
  {
    if m <= n <= |s| {
      assert s[..n] == s[..m] + s[m..n];
    }
  }

  // ---------------------------------------------------------------------
  // Item visibility (`filterItems`).
  // ---------------------------------------------------------------------

  /** A `::`-separated tag group passes when some tag in it is shown. */
  predicate GroupPasses(group: string, shown: string -> bool) {
    exists i :: 0 <= i < |Split(group, "::")| && shown(Split(group, "::")[i])
  }

  /** An item is revealed when it has a tag list and every group passes. */
  predicate Revealed(tags: Option<seq<string>>, shown: string -> bool) {
    tags.Some? && forall g :: 0 <= g < |tags.value| ==> GroupPasses(tags.value[g], shown)
  }

  /** The two nested loops of `filterItems` for one item: a group hides the
      item unless the scan finds a shown tag, and the item is revealed when
      no group hides it. */
  method RevealItem(tags: Option<seq<string>>, shown: string -> bool) returns (revealed: bool)
    ensures revealed == Revealed(tags, shown)
  {
    if tags.None? {
      return false;
    }
    var groups := tags.value;
    var hidden := false;
    var g := 0;
    while g < |groups|
      invariant 0 <= g <= |groups|
      invariant hidden <==> exists h :: 0 <= h < g && !GroupPasses(groups[h], shown)
    {
      var parts := Split(groups[g], "::");
      var shouldHide := true;
      var t := 0;
      while t < |parts|
        invariant 0 <= t <= |parts|
        invariant shouldHide <==> forall u :: 0 <= u < t ==> !shown(parts[u])
      {
        if shown(parts[t]) {
          shouldHide := false;
          break;
        }
        t := t + 1;
      }
      assert shouldHide <==> !GroupPasses(groups[g], shown);
      if shouldHide {
        hidden := true;
      }
      g := g + 1;
    }
    revealed := !hidden;
  }

  const Hidden: string := "none"

  /** `filterItems` on the item names (missing when the image has none):
      every item is first hidden, and the revealed ones get their `display`
      reset to the empty default. */
  function FilterItems(names: seq<Option<string>>, itemTags: map<string, seq<string>>,
                       shown: string -> bool): (r: seq<string>)
    ensures |r| == |names|
    ensures forall i :: 0 <= i < |r| ==> (r[i] == "" <==> Revealed(TagsOf(names[i], itemTags), shown))
    ensures forall i :: 0 <= i < |r| ==> r[i] in {"", Hidden}
  {
    seq(|names|, i requires 0 <= i < |names| =>
      if Revealed(TagsOf(names[i], itemTags), shown) then "" else Hidden)
  }

  /** Showing more tags never hides an item that was displayed. */
  lemma FilterItemsMonotone(names: seq<Option<string>>, itemTags: map<string, seq<string>>,
                            shown: string -> bool, more: string -> bool, i: nat)
    requires forall t :: shown(t) ==> more(t)
    requires i < |names| && FilterItems(names, itemTags, shown)[i] == ""
    ensures FilterItems(names, itemTags, more)[i] == ""
  {
    RevealedMonotone(TagsOf(names[i], itemTags), shown, more);
  }

  function TagsOf(name: Option<string>, itemTags: map<string, seq<string>>): Option<seq<string>> {
    if name.Some? && name.value in itemTags then Some(itemTags[name.value]) else None
  }

  /** An item without tags is not revealed, and one with an empty tag list
      always is. */
  lemma RevealedEdges(shown: string -> bool)
    ensures !Revealed(None, shown)
    ensures Revealed(Some([]), shown)
  {
  }

  /** Making more tags shown never hides a revealed item. */
  lemma RevealedMonotone(tags: Option<seq<string>>, shown: string -> bool, more: string -> bool)
    requires forall t :: shown(t) ==> more(t)
    requires Revealed(tags, shown)
    ensures Revealed(tags, more)
  {
    forall g | 0 <= g < |tags.value| ensures GroupPasses(tags.value[g], more) {
      var i :| 0 <= i < |Split(tags.value[g], "::")| && shown(Split(tags.value[g], "::")[i]);
    }
  }
}
