/** The sort button (sort-button.ts): the items read from the page, the
    stable sorts by price and by date, the four order getters, and
    `reorderItemsWithFlexbox`, which gives every item the CSS `order` of
    its name in the desired order. Prices are whole numbers here. */
module SortButton {
  import opened Wrappers
  import opened Text
  import opened WebText

  /** An item element: its `data-text` attribute (missing or not) and the
      numbers its `data-price` and `data-date-epoch` parse to. */
  datatype Element = Element(dataText: Option<string>, price: int, date: int)

  /** `ItemData` without the element itself. */
  datatype Item = Item(text: string, price: int, date: int)

  datatype Direction = Asc | Desc

  /** `getItems`: a missing or empty `data-text` reads as the empty text. */
  function GetItems(elements: seq<Element>): (r: seq<Item>)
    ensures |r| == |elements|
    ensures forall i :: 0 <= i < |r| ==>
              r[i] == Item(if elements[i].dataText.Some? then elements[i].dataText.value else "",
                           elements[i].price, elements[i].date)
  {
    seq(|elements|, i requires 0 <= i < |elements| =>
      Item(if elements[i].dataText.Some? then elements[i].dataText.value else "",
           elements[i].price, elements[i].date))
  }

  // ---------------------------------------------------------------------
  // Stable sorting by a key (`Array.prototype.sort` with a comparator
  // `key(a) - key(b)`).
  // ---------------------------------------------------------------------

  predicate SortedBy(s: seq<Item>, key: Item -> int) {
    forall i, j :: 0 <= i < j < |s| ==> key(s[i]) <= key(s[j])
  }

  /** Places `x` after every element whose key is at most its own. */
  function Insert(s: seq<Item>, x: Item, key: Item -> int): (r: seq<Item>)
    ensures |r| == |s| + 1
    ensures multiset(r) == multiset(s) + multiset{x}
    ensures SortedBy(s, key) ==> SortedBy(r, key)
  {
    if s == [] then [x]
    else
      var last := s[|s| - 1];
      var init := s[..|s| - 1];
      assert s == init + [last];
      if key(last) <= key(x) then s + [x]
      else
        var r0 := Insert(init, x, key);
        assert SortedBy(s, key) ==> SortedBy(r0 + [last], key) by {
          if SortedBy(s, key) {
            AppendLargest(r0, init, x, last, key);
          }
        }
        r0 + [last]
  }

  /** The step of `Insert` where `x` goes before a larger `last`: `last`
      still closes the sorted result. */
  lemma AppendLargest(r0: seq<Item>, init: seq<Item>, x: Item, last: Item, key: Item -> int)
    requires SortedBy(init + [last], key) && key(x) < key(last)
    requires SortedBy(r0, key) && multiset(r0) == multiset(init) + multiset{x}
    ensures SortedBy(r0 + [last], key)
  {
    var s := init + [last];
    var r := r0 + [last];
    assert s[|s| - 1] == last;
    forall y | y in r0 ensures key(y) <= key(last) {
      assert y in multiset(r0);
      if y != x {
        assert y in multiset(init);
        var i :| 0 <= i < |init| && init[i] == y;
        assert s[i] == y;
        assert key(s[i]) <= key(s[|s| - 1]);
      }
    }
    forall i, j | 0 <= i < j < |r| ensures key(r[i]) <= key(r[j]) {
      if j == |r| - 1 {
        assert r[i] in r0;
      }
    }
  }

  /** Insertion sort: each item in turn is inserted into the sorted prefix. */
  function SortByKey(items: seq<Item>, key: Item -> int): (r: seq<Item>)
    ensures |r| == |items| && multiset(r) == multiset(items) && SortedBy(r, key)
  {
    if items == [] then []
    else
      var init := items[..|items| - 1];
      assert items == init + [items[|items| - 1]];
      Insert(SortByKey(init, key), items[|items| - 1], key)
  }

  function SameKey(key: Item -> int, k: int): Item -> bool {
    x => key(x) == k
  }

  /** Inserting keeps the items of each key in the order they came. */
  lemma {:induction false} InsertStable(s: seq<Item>, x: Item, key: Item -> int, k: int)
    requires SortedBy(s, key)
    ensures Filter(Insert(s, x, key), SameKey(key, k)) == Filter(s, SameKey(key, k)) + Filter([x], SameKey(key, k))
  {
    var f := SameKey(key, k);
    if s == [] {
      assert Insert(s, x, key) == [x];
    } else {
      var last := s[|s| - 1];
      var init := s[..|s| - 1];
      assert s == init + [last];
      if key(last) <= key(x) {
        assert Insert(s, x, key) == s + [x];
        FilterConcat(s, [x], f);
      } else {
        assert Insert(s, x, key) == Insert(init, x, key) + [last];
        assert SortedBy(init, key);
        InsertStable(init, x, key, k);
        assert !(f(x) && f(last));
        SwapPast(Insert(init, x, key), init, x, last, f);
      }
    }
  }

  /** The step of `InsertStable` where `x` moves before a larger `last`:
      the two never both have the key looked at. */
  lemma SwapPast(inserted: seq<Item>, init: seq<Item>, x: Item, last: Item, f: Item -> bool)
    requires !(f(x) && f(last))
    requires Filter(inserted, f) == Filter(init, f) + Filter([x], f)
    ensures Filter(inserted + [last], f) == Filter(init + [last], f) + Filter([x], f)
  {
    FilterConcat(inserted, [last], f);
    FilterConcat(init, [last], f);
    FilterSingle(x, f);
    FilterSingle(last, f);
  }

  /** The sort is stable: the items with any one key appear in their input
      order. */
  lemma {:induction false} SortStable(items: seq<Item>, key: Item -> int, k: int)
    ensures Filter(SortByKey(items, key), SameKey(key, k)) == Filter(items, SameKey(key, k))
  {
    if items != [] {
      var init := items[..|items| - 1];
      var x := items[|items| - 1];
      assert items == init + [x];
      SortStable(init, key, k);
      InsertStable(SortByKey(init, key), x, key, k);
      FilterConcat(init, [x], SameKey(key, k));
    }
  }

  /** The comparator of `sortItemsByPrice`: `a.price - b.price` ascending,
      `b.price - a.price` descending. */
  function PriceKey(direction: Direction): Item -> int {
    (x: Item) => if direction == Asc then x.price else -x.price
  }

  /** The comparator of `sortItemsByDate`. */
  function DateKey(direction: Direction): Item -> int {
    (x: Item) => if direction == Asc then x.date else -x.date
  }

  /** `sortItemsByPrice` on a copy of the items: a permutation, cheapest
      first for `Asc` and dearest first for `Desc`. */
  function SortItemsByPrice(items: seq<Item>, direction: Direction): (r: seq<Item>)
    ensures |r| == |items|
    ensures multiset(r) == multiset(items)
    ensures forall i, j :: 0 <= i < j < |r| ==>
              if direction == Asc then r[i].price <= r[j].price else r[i].price >= r[j].price
  {
    var r := SortByKey(items, PriceKey(direction));
    assert forall i, j :: 0 <= i < j < |r| ==> PriceKey(direction)(r[i]) <= PriceKey(direction)(r[j]);
    r
  }

  /** `sortItemsByDate` on a copy of the items: a permutation, oldest first
      for `Asc` and newest first for `Desc`. */
  function SortItemsByDate(items: seq<Item>, direction: Direction): (r: seq<Item>)
    ensures |r| == |items|
    ensures multiset(r) == multiset(items)
    ensures forall i, j :: 0 <= i < j < |r| ==>
              if direction == Asc then r[i].date <= r[j].date else r[i].date >= r[j].date
  {
    var r := SortByKey(items, DateKey(direction));
    assert forall i, j :: 0 <= i < j < |r| ==> DateKey(direction)(r[i]) <= DateKey(direction)(r[j]);
    r
  }

  /** Items of equal price keep their page order in both directions. */
  lemma EqualPricesKeepOrder(items: seq<Item>, direction: Direction, p: int)
    ensures var k := if direction == Asc then p else -p;
            Filter(SortItemsByPrice(items, direction), SameKey(PriceKey(direction), k))
            == Filter(items, SameKey(PriceKey(direction), k))
  {
    var k := if direction == Asc then p else -p;
    SortStable(items, PriceKey(direction), k);
  }

  /** Items of equal date keep their page order in both directions. */
  lemma EqualDatesKeepOrder(items: seq<Item>, direction: Direction, d: int)
    ensures var k := if direction == Asc then d else -d;
            Filter(SortItemsByDate(items, direction), SameKey(DateKey(direction), k))
            == Filter(items, SameKey(DateKey(direction), k))
  {
    var k := if direction == Asc then d else -d;
    SortStable(items, DateKey(direction), k);
  }

  function Texts(items: seq<Item>): (r: seq<string>)
    ensures |r| == |items| && forall i :: 0 <= i < |r| ==> r[i] == items[i].text
  {
    seq(|items|, i requires 0 <= i < |items| => items[i].text)
  }

  /** The four getters: the texts of the items in sorted order. */
  function HighLowDesiredOrder(elements: seq<Element>): seq<string> {
    Texts(SortItemsByPrice(GetItems(elements), Desc))
  }

  function LowHighDesiredOrder(elements: seq<Element>): seq<string> {
    Texts(SortItemsByPrice(GetItems(elements), Asc))
  }

  function OldestNewestOrder(elements: seq<Element>): seq<string> {
    Texts(SortItemsByDate(GetItems(elements), Asc))
  }

  function NewestOldestOrder(elements: seq<Element>): seq<string> {
    Texts(SortItemsByDate(GetItems(elements), Desc))
  }

  /** Every getter lists exactly the page's texts. */
  lemma DesiredOrdersListTexts(elements: seq<Element>, t: string)
    ensures t in HighLowDesiredOrder(elements) <==> t in Texts(GetItems(elements))
    ensures t in LowHighDesiredOrder(elements) <==> t in Texts(GetItems(elements))
    ensures t in OldestNewestOrder(elements) <==> t in Texts(GetItems(elements))
    ensures t in NewestOldestOrder(elements) <==> t in Texts(GetItems(elements))
  {
    var items := GetItems(elements);
    TextsOfPermutation(SortItemsByPrice(items, Desc), items, t);
    TextsOfPermutation(SortItemsByPrice(items, Asc), items, t);
    TextsOfPermutation(SortItemsByDate(items, Asc), items, t);
    TextsOfPermutation(SortItemsByDate(items, Desc), items, t);
  }

  /** Permuted items carry the same texts. */
  lemma TextsOfPermutation(a: seq<Item>, b: seq<Item>, t: string)
    requires multiset(a) == multiset(b)
    ensures t in Texts(a) <==> t in Texts(b)
  {
    if t in Texts(a) {
      var k :| 0 <= k < |a| && Texts(a)[k] == t;
      assert a[k] in multiset(b);
      var j :| 0 <= j < |b| && b[j] == a[k];
      assert Texts(b)[j] == t;
    }
    if t in Texts(b) {
      var k :| 0 <= k < |b| && Texts(b)[k] == t;
      assert b[k] in multiset(a);
      var j :| 0 <= j < |a| && a[j] == b[k];
      assert Texts(a)[j] == t;
    }
  }

  // ---------------------------------------------------------------------
  // `_getCategoryOfClickedItem` and `reorderItemsWithFlexbox`.
  // ---------------------------------------------------------------------

  /** `desiredOrder.indexOf(x)`: the first position of `x`, or -1. */
  function IndexIn(s: seq<string>, x: string): (r: int)
    ensures r == -1 <==> x !in s
    ensures r != -1 ==> 0 <= r < |s| && s[r] == x && x !in s[..r]
  {
    if s == [] then -1
    else if s[0] == x then 0
    else
      var r := IndexIn(s[1..], x);
      if r == -1 then -1
      else
        assert s[..r + 1] == [s[0]] + s[1..][..r];
        r + 1
  }

  /** The CSS order given to an item that is not in the desired order. */
  const Unsorted: nat := 99

  /** What `reorderItemsWithFlexbox` does to the page: nothing without
      items or without the `#items` container; otherwise an order per item,
      unless reading an item's missing `data-text` throws, after the items
      before it got theirs. */
  datatype Reorder = NothingToSort | NoContainer | Reordered(orders: seq<nat>) | Threw(at: nat, orders: seq<nat>)

  /** The order of one item whose `data-text` is `text`. */
  function OrderOf(desiredOrder: seq<string>, text: string): (r: nat)
    ensures StripExtension(text) in desiredOrder ==> r == IndexIn(desiredOrder, StripExtension(text))
    ensures StripExtension(text) !in desiredOrder ==> r == Unsorted
  {
    var i := IndexIn(desiredOrder, StripExtension(text));
    if i == -1 then Unsorted else i
  }

  /** The loop over the items: an order per item, or a throw at the first
      item without `data-text`, after the items before it got theirs. */
  function OrderLoop(texts: seq<Option<string>>, desiredOrder: seq<string>): (r: Reorder)
    ensures r.Reordered? || r.Threw?
    ensures r.Reordered? <==> forall j :: 0 <= j < |texts| ==> texts[j].Some?
    ensures r.Reordered? ==> |r.orders| == |texts|
                             && forall j :: 0 <= j < |texts| ==> r.orders[j] == OrderOf(desiredOrder, texts[j].value)
    ensures r.Threw? ==> r.at < |texts| && texts[r.at].None? && |r.orders| == r.at
                         && forall j :: 0 <= j < r.at ==> texts[j].Some? && r.orders[j] == OrderOf(desiredOrder, texts[j].value)
  {
    if texts == [] then Reordered([])
    else if texts[0].None? then Threw(0, [])
    else
      var o := OrderOf(desiredOrder, texts[0].value);
      var rest := OrderLoop(texts[1..], desiredOrder);
      assert forall j :: 1 <= j < |texts| ==> texts[j] == texts[1..][j - 1];
      match rest
      case Reordered(os) => Reordered([o] + os)
      case Threw(at, os) => Threw(at + 1, [o] + os)
  }

  /** `reorderItemsWithFlexbox(desiredOrder)` on the items' `data-text`
      attributes, given whether the container exists: nothing happens
      without items or without the container. */
  function ReorderItems(texts: seq<Option<string>>, desiredOrder: seq<string>, containerFound: bool): (r: Reorder)
    ensures r == NothingToSort <==> |texts| == 0
    ensures r == NoContainer <==> |texts| > 0 && !containerFound
    ensures |texts| > 0 && containerFound ==> r == OrderLoop(texts, desiredOrder)
  {
    if |texts| == 0 then NothingToSort
    else if !containerFound then NoContainer
    else OrderLoop(texts, desiredOrder)
  }

  function DataTexts(elements: seq<Element>): (r: seq<Option<string>>)
    ensures |r| == |elements| && forall i :: 0 <= i < |r| ==> r[i] == elements[i].dataText
  {
    seq(|elements|, i requires 0 <= i < |elements| => elements[i].dataText)
  }

  /** The handler of the high-to-low button: the desired order from the
      sorted texts, then the reorder. */
  function HighLowClicked(elements: seq<Element>, containerFound: bool): Reorder {
    ReorderItems(DataTexts(elements), HighLowDesiredOrder(elements), containerFound)
  }

  /** A text in a getter's desired order is the text of some item. */
  lemma DesiredOrderTexts(elements: seq<Element>, t: string)
    requires t in HighLowDesiredOrder(elements)
    ensures exists k :: 0 <= k < |elements| && GetItems(elements)[k].text == t
  {
    DesiredOrdersListTexts(elements, t);
    var k :| 0 <= k < |elements| && Texts(GetItems(elements))[k] == t;
  }

  /** Every item's text is in a getter's desired order. */
  lemma TextInDesiredOrder(elements: seq<Element>, j: nat)
    requires j < |elements| && elements[j].dataText.Some?
    ensures elements[j].dataText.value in HighLowDesiredOrder(elements)
  {
    DesiredOrdersListTexts(elements, elements[j].dataText.value);
    assert Texts(GetItems(elements))[j] == elements[j].dataText.value;
  }

  /** A name without a dot is never found in a desired order whose texts
      all hold a dot, so its item gets 99. */
  lemma {:induction false} DotFreeNamesUnsorted(texts: seq<Option<string>>, desiredOrder: seq<string>)
    requires forall j :: 0 <= j < |texts| ==> texts[j].Some? && '.' !in StripExtension(texts[j].value)
    requires forall k :: 0 <= k < |desiredOrder| ==> '.' in desiredOrder[k]
    ensures var r := OrderLoop(texts, desiredOrder);
            r.Reordered? && forall j :: 0 <= j < |texts| ==> r.orders[j] == Unsorted
  {
    var r := OrderLoop(texts, desiredOrder);
    forall j | 0 <= j < |texts| ensures r.orders[j] == Unsorted {
      var name := StripExtension(texts[j].value);
      assert forall k :: 0 <= k < |desiredOrder| ==> desiredOrder[k] != name;
    }
  }

  /** The desired order holds the raw texts, while each item is looked up
      by its text without the extension: when every text is `stem.ext` with
      a dot-free stem, no item is found and every item gets 99. */
  lemma StrippedNamesNeverMatch(elements: seq<Element>, stems: seq<string>, exts: seq<string>)
    requires |elements| > 0 && |stems| == |exts| == |elements|
    requires forall i :: 0 <= i < |elements| ==>
               elements[i].dataText == Some(stems[i] + "." + exts[i]) && '.' !in stems[i] && IsExtensionText(exts[i])
    ensures var r := HighLowClicked(elements, true);
            r.Reordered? && forall j :: 0 <= j < |elements| ==> r.orders[j] == Unsorted
  {
    var texts := DataTexts(elements);
    var desired := HighLowDesiredOrder(elements);
    forall j | 0 <= j < |texts| ensures texts[j].Some? && '.' !in StripExtension(texts[j].value) {
      StripExtensionOf(stems[j], exts[j]);
    }
    forall k | 0 <= k < |desired| ensures '.' in desired[k] {
      assert desired[k] in desired;
      DesiredOrderTexts(elements, desired[k]);
      var i :| 0 <= i < |elements| && GetItems(elements)[i].text == desired[k];
      assert desired[k] == stems[i] + "." + exts[i];
      assert desired[k][|stems[i]|] == '.';
    }
    DotFreeNamesUnsorted(texts, desired);
  }

  // ---------------------------------------------------------------------
  // The reorder as intended: the desired order holds the names the lookup
  // uses.
  // ---------------------------------------------------------------------

  function StrippedNames(texts: seq<string>): (r: seq<string>)
    ensures |r| == |texts| && forall i :: 0 <= i < |r| ==> r[i] == StripExtension(texts[i])
  {
    seq(|texts|, i requires 0 <= i < |texts| => StripExtension(texts[i]))
  }

  function HighLowClickedIntended(elements: seq<Element>, containerFound: bool): Reorder {
    ReorderItems(DataTexts(elements), StrippedNames(HighLowDesiredOrder(elements)), containerFound)
  }

  /** Names that occur in the desired order get their position there. */
  lemma {:induction false} ListedNamesFound(texts: seq<Option<string>>, desiredOrder: seq<string>)
    requires forall j :: 0 <= j < |texts| ==> texts[j].Some? && StripExtension(texts[j].value) in desiredOrder
    ensures var r := OrderLoop(texts, desiredOrder);
            r.Reordered? && forall j :: 0 <= j < |texts| ==>
              r.orders[j] < |desiredOrder| && desiredOrder[r.orders[j]] == StripExtension(texts[j].value)
  {
  }

  /** With the stripped names in the desired order, every item that has a
      `data-text` gets a real position, one whose entry is its own name. */
  lemma IntendedOrdersFound(elements: seq<Element>)
    requires |elements| > 0 && forall i :: 0 <= i < |elements| ==> elements[i].dataText.Some?
    ensures var r := HighLowClickedIntended(elements, true);
            var desired := StrippedNames(HighLowDesiredOrder(elements));
            r.Reordered? && forall j :: 0 <= j < |elements| ==>
              r.orders[j] < |elements| && desired[r.orders[j]] == StripExtension(elements[j].dataText.value)
  {
    var texts := DataTexts(elements);
    var raw := HighLowDesiredOrder(elements);
    var desired := StrippedNames(raw);
    forall j | 0 <= j < |texts| ensures texts[j].Some? && StripExtension(texts[j].value) in desired {
      var t := texts[j].value;
      TextInDesiredOrder(elements, j);
      var k :| 0 <= k < |raw| && raw[k] == t;
      assert desired[k] == StripExtension(t);
    }
    ListedNamesFound(texts, desired);
  }
}
