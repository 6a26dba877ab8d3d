/**
 * Renumbering interned strings when their table is published in order: every old index resolves to the
 * place of the same string.
 */
module StringRemap {
  import opened Words
  import opened Sorting
  import opened Text

  /** An interned string with its index; a stable sort by string orders these pairs. */
  datatype Item = Item(index: nat, text: seq<byte>)

  predicate ItemBefore(a: Item, b: Item) {
    TextBefore(a.text, b.text) && (a.text == b.text ==> a.index <= b.index)
  }

  lemma ItemOrder()
    ensures TotalOrder(ItemBefore)
  {
    hide TextBefore;
    TextOrder();
  }

  function Items(table: seq<seq<byte>>, count: nat): (items: seq<Item>)
    requires count <= |table|
    ensures |items| == count && forall k | 0 <= k < count :: items[k] == Item(k, table[k])
  {
    seq(count, k requires 0 <= k < count => Item(k, table[k]))
  }

  function TextsOf(items: seq<Item>): (texts: seq<seq<byte>>)
    ensures |texts| == |items| && forall k | 0 <= k < |items| :: texts[k] == items[k].text
  {
    seq(|items|, k requires 0 <= k < |items| => items[k].text)
  }

  lemma {:induction false} InsertTexts(x: Item, xs: seq<Item>)
    ensures multiset(TextsOf(Insert(ItemBefore, x, xs))) == multiset(TextsOf(xs)) + multiset{x.text}
  {
    hide ItemBefore;
    if xs == [] || ItemBefore(x, xs[0]) {
      assert TextsOf([x] + xs) == [x.text] + TextsOf(xs);
    } else {
      InsertTexts(x, xs[1..]);
      var rest := Insert(ItemBefore, x, xs[1..]);
      assert TextsOf([xs[0]] + rest) == [xs[0].text] + TextsOf(rest);
      assert TextsOf(xs) == [xs[0].text] + TextsOf(xs[1..]);
    }
  }

  lemma {:induction false} SortTexts(xs: seq<Item>)
    ensures multiset(TextsOf(Sort(ItemBefore, xs))) == multiset(TextsOf(xs))
  {
    if xs == [] {
      assert TextsOf(xs) == [];
    } else {
      SortTexts(xs[1..]);
      InsertTexts(xs[0], Sort(ItemBefore, xs[1..]));
      assert TextsOf(xs) == [xs[0].text] + TextsOf(xs[1..]);
    }
  }

  /** Sorting the indices by their strings lists the strings in sorted order. */
  lemma OrderedTexts(table: seq<seq<byte>>)
    ensures TextsOf(Sort(ItemBefore, Items(table, |table|))) == Sort(TextBefore, table)
  {
    var items := Items(table, |table|);
    var order := Sort(ItemBefore, items);
    ItemOrder();
    TextOrder();
    SortSorted(ItemBefore, items);
    SortTexts(items);
    assert TextsOf(items) == table;
    SortMembers(TextBefore, table);
    SortSorted(TextBefore, table);
    hide Sort, TextBefore;
    assert SortedBy(TextBefore, TextsOf(order)) by {
      forall i, j | 0 <= i < j < |order|
        ensures TextBefore(order[i].text, order[j].text)
      {
        assert ItemBefore(order[i], order[j]);
      }
    }
    SortedUnique(TextBefore, TextsOf(order), Sort(TextBefore, table));
  }

  /** Each place of the order holds one index, and each index has one place. */
  ghost predicate IsOrder(table: seq<seq<byte>>, order: seq<Item>, count: nat)
    requires count <= |table|
  {
    && |order| == count
    && (forall k | 0 <= k < count :: order[k].index < count && order[k].text == table[order[k].index])
    && (forall k, l | 0 <= k < l < count :: order[k].index != order[l].index)
    && (forall i | 0 <= i < count :: PlaceOf(order, i))
  }

  ghost predicate PlaceOf(order: seq<Item>, i: nat) {
    exists k :: 0 <= k < |order| && order[k].index == i
  }

  lemma SortedIsOrder(table: seq<seq<byte>>, count: nat)
    requires count <= |table|
    ensures IsOrder(table, Sort(ItemBefore, Items(table, count)), count)
  {
    var items := Items(table, count);
    var order := Sort(ItemBefore, items);
    SortMembers(ItemBefore, items);
    hide Sort, ItemBefore;
    PairwisePermuted((a: Item, b: Item) => a.index != b.index, items, order);
    forall k | 0 <= k < count
      ensures order[k].index < count && order[k].text == table[order[k].index]
    {
      assert order[k] in items;
    }
    forall i | 0 <= i < count
      ensures PlaceOf(order, i)
    {
      assert items[i] in order;
    }
  }

  /** The remap sends each index to its place in the order; indices the order does not reach stay at zero. */
  ghost predicate Maps(order: seq<Item>, remap: seq<u32>, placed: nat)
    requires placed <= |order|
  {
    && (forall k | 0 <= k < placed :: order[k].index < |remap| && remap[order[k].index] == k)
    && (forall i | 0 <= i < |remap| :: (forall k | 0 <= k < placed :: order[k].index != i) ==> remap[i] == 0)
  }

  /** The remap of a table; indices are counted in 32 bits. */
  ghost predicate IsRemap(table: seq<seq<byte>>, remap: seq<u32>) {
    |remap| == |table| && Maps(Sort(ItemBefore, Items(table, |table| % LIMIT32)), remap, |table| % LIMIT32)
  }

  /** Sorts the indices by their strings and inverts the order. */
  method SortedRemap(table: seq<seq<byte>>) returns (remap: array<u32>)
    ensures IsRemap(table, remap[..])
  {
    var count := |table| % LIMIT32;
    var order := Sort(ItemBefore, Items(table, count));
    SortedIsOrder(table, count);
    hide *;
    remap := new u32[|table|](i => 0);
    MapsNothing(order, remap[..]);
    for sorted := 0 to count
      invariant Maps(order, remap[..], sorted)
    {
      ghost var before := remap[..];
      OrderAt(table, order, count, sorted);
      MapsNext(table, order, count, before, sorted);
      remap[order[sorted].index] := sorted;
      assert remap[..] == before[order[sorted].index := sorted];
    }
    RemapDone(table, remap[..]);
  }

  lemma OrderAt(table: seq<seq<byte>>, order: seq<Item>, count: nat, k: nat)
    requires count <= |table| && IsOrder(table, order, count) && k < count
    ensures |order| == count && order[k].index < count
  {
  }

  lemma MapsNext(table: seq<seq<byte>>, order: seq<Item>, count: nat, remap: seq<u32>, placed: u32)
    requires count <= |table| == |remap| && IsOrder(table, order, count) && placed < count == |order|
    requires Maps(order, remap, placed) && order[placed].index < |remap|
    ensures Maps(order, remap[order[placed].index := placed], placed + 1)
  {
  }

  lemma MapsNothing(order: seq<Item>, remap: seq<u32>)
    requires forall i | 0 <= i < |remap| :: remap[i] == 0
    ensures Maps(order, remap, 0)
  {
  }

  lemma RemapDone(table: seq<seq<byte>>, remap: seq<u32>)
    requires |remap| == |table|
    requires Maps(Sort(ItemBefore, Items(table, |table| % LIMIT32)), remap, |table| % LIMIT32)
    ensures IsRemap(table, remap)
  {
    hide Maps;
  }

  ghost predicate IsPermutation(remap: seq<u32>) {
    && (forall i | 0 <= i < |remap| :: remap[i] < |remap|)
    && (forall i, j | 0 <= i < j < |remap| :: remap[i] != remap[j])
  }

  /** A table of fewer than 2^32 strings is renumbered by a permutation; a longer one never is. */
  lemma RemapIsPermutation(table: seq<seq<byte>>, remap: seq<u32>)
    requires IsRemap(table, remap)
    ensures IsPermutation(remap) <==> |table| < LIMIT32
  {
    var count := |table| % LIMIT32;
    hide *;
    var order := Sort(ItemBefore, Items(table, count));
    SortedIsOrder(table, count);
    CountIs(table, remap);
    if count == |table| {
      forall i | 0 <= i < |remap|
        ensures remap[i] < |remap|
      {
        var k := PlaceIn(table, order, count, i);
        MappedAt(order, remap, count, k);
      }
      forall i, j | 0 <= i < j < |remap|
        ensures remap[i] != remap[j]
      {
        var k := PlaceIn(table, order, count, i);
        var l := PlaceIn(table, order, count, j);
        MappedAt(order, remap, count, k);
        MappedAt(order, remap, count, l);
      }
      AllApart(remap);
    } else {
      Unplaced(table, order, remap, count, |table| - 2);
      Unplaced(table, order, remap, count, |table| - 1);
      NotApart(remap, |table| - 2, |table| - 1);
    }
  }

  lemma CountIs(table: seq<seq<byte>>, remap: seq<u32>)
    requires IsRemap(table, remap)
    ensures |remap| == |table| && Maps(Sort(ItemBefore, Items(table, |table| % LIMIT32)), remap, |table| % LIMIT32)
    ensures |table| < LIMIT32 <==> |table| % LIMIT32 == |table|
    ensures |table| >= LIMIT32 ==> |table| % LIMIT32 <= |table| - 2
  {
    hide Sort, Maps;
  }

  lemma Unplaced(table: seq<seq<byte>>, order: seq<Item>, remap: seq<u32>, count: nat, i: nat)
    requires count <= |table| == |remap| && IsOrder(table, order, count) && Maps(order, remap, count)
    requires count <= i < |remap|
    ensures remap[i] == 0
  {
  }

  lemma AllApart(remap: seq<u32>)
    requires forall i | 0 <= i < |remap| :: remap[i] < |remap|
    requires forall i, j | 0 <= i < j < |remap| :: remap[i] != remap[j]
    ensures IsPermutation(remap)
  {
  }

  lemma NotApart(remap: seq<u32>, i: nat, j: nat)
    requires i < j < |remap| && remap[i] == remap[j]
    ensures !IsPermutation(remap)
  {
  }

  /** Every old index resolves to the id under which the published table holds the same string. */
  lemma RemapResolves(table: seq<seq<byte>>, remap: seq<u32>, i: nat)
    requires IsRemap(table, remap) && |table| < LIMIT32 && i < |table|
    ensures i < |remap| && remap[i] < |Sort(TextBefore, table)| && Sort(TextBefore, table)[remap[i]] == table[i]
  {
    hide *;
    var order := Sort(ItemBefore, Items(table, |table|));
    SmallRemap(table, remap);
    SortedIsOrder(table, |table|);
    OrderedTexts(table);
    var k := PlaceIn(table, order, |table|, i);
    MappedAt(order, remap, |table|, k);
    assert TextsOf(order)[k] == order[k].text;
  }

  lemma SmallRemap(table: seq<seq<byte>>, remap: seq<u32>)
    requires IsRemap(table, remap) && |table| < LIMIT32
    ensures |Sort(ItemBefore, Items(table, |table|))| == |table| == |remap|
    ensures Maps(Sort(ItemBefore, Items(table, |table|)), remap, |table|)
  {
    hide Sort, ItemBefore, Maps;
    assert |table| % LIMIT32 == |table|;
  }

  lemma PlaceIn(table: seq<seq<byte>>, order: seq<Item>, count: nat, i: nat) returns (k: nat)
    requires count <= |table| && IsOrder(table, order, count) && i < count
    ensures k < |order| == count && order[k].index == i && order[k].text == table[i]
  {
    assert PlaceOf(order, i);
    k :| 0 <= k < |order| && order[k].index == i;
  }

  lemma MappedAt(order: seq<Item>, remap: seq<u32>, placed: nat, k: nat)
    requires k < placed <= |order| && Maps(order, remap, placed)
    ensures order[k].index < |remap| && remap[order[k].index] == k
  {
  }
}
