/** The dictionary functions of src/mpyez/ezDict.py: sorting the items, merging several dicts with
    colliding values collected into lists, and the position of a key. */
module EzDict {
  import opened Py
  import opened Order
  import Sorting
  import Seqs
  import Joining
  import opened UDict

  /** Items ordered by their values. */
  predicate ByValueLe(a: (Value, Value), b: (Value, Value))
  {
    ValueLe(a.1, b.1)
  }

  /** Items ordered by their keys. */
  predicate ByKeyLe(a: (Value, Value), b: (Value, Value))
  {
    ValueLe(a.0, b.0)
  }

  /** The order `sorted(..., key=..., reverse=...)` arranges items in: ascending or descending in the
      chosen column. Python's `reverse=True` keeps ties in their input order, which is what sorting by
      the converse order does. */
  function ItemOrder(byValues: bool, reverse: bool): ((Value, Value), (Value, Value)) -> bool
  {
    if byValues then (if reverse then (a, b) => ByValueLe(b, a) else ByValueLe)
    else (if reverse then (a, b) => ByKeyLe(b, a) else ByKeyLe)
  }

  lemma ItemOrderIsPreorder(byValues: bool, reverse: bool)
    ensures Sorting.TotalPreorder(ItemOrder(byValues, reverse))
  {
    ValueLeIsOrder();
  }

  /** The column the items are compared on. */
  function Column(d: Items, byValues: bool): (r: seq<Value>)
    ensures |r| == |d|
    ensures forall i :: 0 <= i < |d| ==> r[i] == if byValues then d[i].1 else d[i].0
  {
    seq(|d|, i requires 0 <= i < |d| => if byValues then d[i].1 else d[i].0)
  }

  /** `dict(sorted(d.items(), key=..., reverse=...))`: TypeError when two entries of the column cannot be
      compared. */
  function SortItems(d: Items, byValues: bool, reverse: bool): (r: Result<Items>)
    ensures r.Ok? <==> AllComparable(Column(d, byValues))
  {
    if AllComparable(Column(d, byValues)) then Ok(Sorting.Sort(d, ItemOrder(byValues, reverse)))
    else Err(TypeError)
  }

  /** `sort_dictionary`: by value when `sort_by == 'values'`, by key for anything else. */
  function SortDictionary(d: Items, sortBy: string, sortReverse: bool): Result<Items>
  {
    SortItems(d, sortBy == "values", sortReverse)
  }

  /** The sorted dict holds exactly the input's items, in ascending order of the chosen column, or in
      descending order when reversed; items with equal column values keep their input order. */
  lemma SortItemsSpec(d: Items, byValues: bool, reverse: bool)
    requires SortItems(d, byValues, reverse).Ok?
    ensures var r := SortItems(d, byValues, reverse).value;
      && multiset(r) == multiset(d)
      && (forall i, j :: 0 <= i < j < |r| ==>
            var x, y := (if byValues then r[i].1 else r[i].0), (if byValues then r[j].1 else r[j].0);
            if reverse then ValueLe(y, x) else ValueLe(x, y))
      && (forall v :: ItemsAt(r, byValues, v) == ItemsAt(d, byValues, v))
  {
    SortItemsStable(d, byValues, reverse);
    ItemOrderIsPreorder(byValues, reverse);
    Sorting.SortSorted(d, ItemOrder(byValues, reverse));
    var r := SortItems(d, byValues, reverse).value;
    forall i, j | 0 <= i < j < |r|
      ensures var x, y := (if byValues then r[i].1 else r[i].0), (if byValues then r[j].1 else r[j].0);
        if reverse then ValueLe(y, x) else ValueLe(x, y)
    {
      assert ItemOrder(byValues, reverse)(r[i], r[j]);
    }
  }

  /** The items whose chosen column holds `v`, in their order in `d`. */
  function ItemsAt(d: Items, byValues: bool, v: Value): (r: Items)
    ensures |r| <= |d|
    ensures forall k :: 0 <= k < |r| ==> (if byValues then r[k].1 else r[k].0) == v
  {
    if d == [] then []
    else (if (if byValues then d[0].1 else d[0].0) == v then [d[0]] else []) + ItemsAt(d[1..], byValues, v)
  }

  /** Two items are level in the sort order exactly when their columns hold the same value. */
  lemma {:induction false} TiesAreItemsAt(d: Items, byValues: bool, reverse: bool, v: Value)
    ensures Sorting.Ties(d, (v, v), ItemOrder(byValues, reverse)) == ItemsAt(d, byValues, v)
  {
    if d != [] {
      TiesAreItemsAt(d[1..], byValues, reverse, v);
      var x := if byValues then d[0].1 else d[0].0;
      ValueLeTotal(x, x);
      if ValueLe(x, v) && ValueLe(v, x) {
        ValueLeAntisym(x, v);
      }
    }
  }

  /** `sorted` is stable, also with `reverse=True`: the items sharing a column value keep their input
      order. */
  lemma SortItemsStable(d: Items, byValues: bool, reverse: bool)
    requires SortItems(d, byValues, reverse).Ok?
    ensures var r := SortItems(d, byValues, reverse).value;
      forall v :: ItemsAt(r, byValues, v) == ItemsAt(d, byValues, v)
  {
    var le := ItemOrder(byValues, reverse);
    var r := SortItems(d, byValues, reverse).value;
    ItemOrderIsPreorder(byValues, reverse);
    Sorting.SortStable(d, le);
    forall v ensures ItemsAt(r, byValues, v) == ItemsAt(d, byValues, v) {
      TiesAreItemsAt(r, byValues, reverse, v);
      TiesAreItemsAt(d, byValues, reverse, v);
    }
  }

  /** The keys of the sorted dict are the input's keys rearranged. */
  lemma SortItemsKeys(d: Items, byValues: bool, reverse: bool)
    requires SortItems(d, byValues, reverse).Ok?
    ensures multiset(Seqs.Keys(SortItems(d, byValues, reverse).value)) == multiset(Seqs.Keys(d))
  {
    var r := SortItems(d, byValues, reverse).value;
    SortItemsSpec(d, byValues, reverse);
    Seqs.MapPermutation(ItemKey, r, d);
    assert Seqs.Keys(r) == Seqs.Map(ItemKey, r);
    assert Seqs.Keys(d) == Seqs.Map(ItemKey, d);
  }

  function ItemKey(x: (Value, Value)): Value
  {
    x.0
  }

  /** The value a colliding key ends up with: two lists are concatenated (`extend`), anything else
      becomes the pair `[held, given]`. */
  function Combine(held: Value, given: Value): (r: Value)
    ensures r.List?
  {
    if held.List? && given.List? then List(held.items + given.items) else List([held, given])
  }

  /** The value stored under `k`, which is present. */
  function Lookup(m: Items, k: Value): Value
    requires k in Seqs.Keys(m)
  {
    m[FirstIndex(Seqs.Keys(m), k)].1
  }

  /** One step of the inner loop of `merge_dictionaries`: a new key is appended, a present one gets the
      combined value in its place. */
  function Put(m: Items, k: Value, v: Value): Items
  {
    if k in Seqs.Keys(m) then
      var p := FirstIndex(Seqs.Keys(m), k);
      m[p := (k, Combine(m[p].1, v))]
    else m + [(k, v)]
  }

  /** The merge of a sequence of items taken one after the other. */
  function MergeItems(items: Items): Items
  {
    if items == [] then []
    else Put(MergeItems(items[..|items| - 1]), items[|items| - 1].0, items[|items| - 1].1)
  }

  /** `merge_dictionaries(*dicts)`: the items of all dicts, in order, merged into an empty dict. */
  function MergeSpec(dicts: seq<Items>): Items
  {
    MergeItems(Seqs.Flatten(dicts))
  }

  /** The function `merge_dictionaries`: the loop over the dicts and, inside it, over their items. */
  method MergeDictionaries(dicts: seq<Items>) returns (merged: Items)
    ensures merged == MergeSpec(dicts)
  {
    merged := [];
    var i := 0;
    while i < |dicts|
      invariant 0 <= i <= |dicts|
      invariant merged == MergeItems(Seqs.Flatten(dicts[..i]))
    {
      merged := MergeDict(merged, dicts[i], Seqs.Flatten(dicts[..i]));
      FlattenSnoc(dicts, i);
      i := i + 1;
    }
    assert dicts[..i] == dicts;
  }

  /** The inner loop over the items of one dict, after the items `done` have been merged. */
  method MergeDict(merged: Items, d: Items, ghost done: Items) returns (r: Items)
    requires merged == MergeItems(done)
    ensures r == MergeItems(done + d)
  {
    r := merged;
    var j := 0;
    assert done + d[..j] == done;
    while j < |d|
      invariant 0 <= j <= |d|
      invariant r == MergeItems(done + d[..j])
    {
      var (key, value) := d[j];
      r := MergeItem(r, key, value);
      Seqs.TakeOneMore(done, d, j);
      MergeItemsSnoc(done + d[..j], d[j]);
      j := j + 1;
    }
    assert d[..j] == d;
  }

  lemma FlattenSnoc(dicts: seq<Items>, i: nat)
    requires i < |dicts|
    ensures Seqs.Flatten(dicts[..i + 1]) == Seqs.Flatten(dicts[..i]) + dicts[i]
  {
    assert dicts[..i + 1] == dicts[..i] + [dicts[i]];
    Seqs.FlattenAppend(dicts[..i], [dicts[i]]);
    assert Seqs.Flatten([dicts[i]]) == dicts[i] by {
      assert [dicts[i]][1..] == [];
    }
  }

  /** The body of the inner loop: a key already present gets the concatenation of two lists or the
      pair of its old and new values; a new key is added at the end. */
  method MergeItem(merged: Items, key: Value, value: Value) returns (r: Items)
    ensures r == Put(merged, key, value)
  {
    var keys := Seqs.Keys(merged);
    if key in keys {
      var p := FirstIndex(keys, key);
      var current := merged[p].1;
      if current.List? && value.List? {
        r := merged[p := (key, List(current.items + value.items))];
      } else {
        r := merged[p := (key, List([current, value]))];
      }
    } else {
      r := merged + [(key, value)];
    }
  }

  lemma MergeItemsSnoc(items: Items, x: (Value, Value))
    ensures MergeItems(items + [x]) == Put(MergeItems(items), x.0, x.1)
  {
    assert (items + [x])[..|items|] == items;
  }

  /** The values given for `k`, in the order the merge meets them. */
  function ValuesOf(items: Items, k: Value): seq<Value>
  {
    if items == [] then []
    else
      var last := items[|items| - 1];
      ValuesOf(items[..|items| - 1], k) + (if last.0 == k then [last.1] else [])
  }

  /** The value a key ends with: its first value, combined with each later one in turn. */
  function Fold(vs: seq<Value>): Value
    requires vs != []
  {
    if |vs| == 1 then vs[0] else Combine(Fold(vs[..|vs| - 1]), vs[|vs| - 1])
  }

  lemma KeysSnoc(m: Items, x: (Value, Value))
    ensures Seqs.Keys(m + [x]) == Seqs.Keys(m) + [x.0]
  {
  }

  lemma KeysUpdate(m: Items, p: nat, x: (Value, Value))
    requires p < |m| && m[p].0 == x.0
    ensures Seqs.Keys(m[p := x]) == Seqs.Keys(m)
  {
  }

  /** The merged dict has every key of every input exactly once, in the order keys first appear. */
  lemma {:induction false} MergeKeys(items: Items)
    ensures Seqs.Keys(MergeItems(items)) == Seqs.Unique(Seqs.Keys(items))
    decreases |items|
  {
    if items != [] {
      var p, x := items[..|items| - 1], items[|items| - 1];
      assert items == p + [x];
      MergeKeys(p);
      var m := MergeItems(p);
      Seqs.UniqueSpec(Seqs.Keys(p));
      KeysSnoc(p, x);
      Seqs.UniqueSnoc(Seqs.Keys(p), x.0);
      if x.0 in Seqs.Keys(m) {
        var q := FirstIndex(Seqs.Keys(m), x.0);
        KeysUpdate(m, q, (x.0, Combine(m[q].1, x.1)));
      } else {
        KeysSnoc(m, (x.0, x.1));
      }
    }
  }

  /** The value of each merged key is the fold of `Combine` over the values given for it: a key given
      once keeps its value, two lists are concatenated, and anything else nests into pairs. */
  lemma {:induction false} MergeValue(items: Items, k: Value)
    requires k in Seqs.Keys(items)
    ensures k in Seqs.Keys(MergeItems(items)) && ValuesOf(items, k) != []
    ensures Lookup(MergeItems(items), k) == Fold(ValuesOf(items, k))
    decreases |items|
  {
    var p, x := items[..|items| - 1], items[|items| - 1];
    Seqs.SplitLast(items);
    KeysSnoc(p, x);
    ValuesOfSnoc(p, x, k);
    MergeItemsSnoc(p, x);
    var m := MergeItems(p);
    if k in Seqs.Keys(p) {
      MergeValue(p, k);
      LookupPut(m, x.0, x.1, k);
      if x.0 == k {
        FoldSnoc(ValuesOf(p, k), x.1);
        assert ValuesOf(items, k) == ValuesOf(p, k) + [x.1];
        assert Lookup(MergeItems(items), k) == Combine(Lookup(m, k), x.1);
      } else {
        assert ValuesOf(items, k) == ValuesOf(p, k);
        assert Lookup(MergeItems(items), k) == Lookup(m, k);
      }
    } else {
      ValuesOfAbsent(p, k);
      LookupPut(m, x.0, x.1, k);
      MergeKeys(p);
      Seqs.UniqueSpec(Seqs.Keys(p));
    }
  }

  /** After one step of the merge, the putted key holds the combined (or new) value, and every other
      key keeps its value. */
  lemma LookupPut(m: Items, k': Value, v: Value, k: Value)
    requires k in Seqs.Keys(m) || k == k'
    ensures k in Seqs.Keys(Put(m, k', v))
    ensures Lookup(Put(m, k', v), k) ==
      if k != k' then Lookup(m, k) else if k in Seqs.Keys(m) then Combine(Lookup(m, k), v) else v
  {
    if k' in Seqs.Keys(m) {
      LookupPutPresent(m, k', v, k);
    } else {
      LookupPutNew(m, k', v, k);
    }
  }

  lemma LookupPutPresent(m: Items, k': Value, v: Value, k: Value)
    requires k' in Seqs.Keys(m) && k in Seqs.Keys(m)
    ensures k in Seqs.Keys(Put(m, k', v))
    ensures Lookup(Put(m, k', v), k) == if k != k' then Lookup(m, k) else Combine(Lookup(m, k), v)
  {
    var q := FirstIndex(Seqs.Keys(m), k');
    KeysUpdate(m, q, (k', Combine(m[q].1, v)));
  }

  lemma LookupPutNew(m: Items, k': Value, v: Value, k: Value)
    requires k' !in Seqs.Keys(m) && (k in Seqs.Keys(m) || k == k')
    ensures k in Seqs.Keys(Put(m, k', v))
    ensures Lookup(Put(m, k', v), k) == if k != k' then Lookup(m, k) else v
  {
    KeysSnoc(m, (k', v));
    if k in Seqs.Keys(m) {
      Seqs.FirstIndexPrefix(Seqs.Keys(m), [k'], k);
    } else {
      assert Seqs.Keys(m)[..|m|] == Seqs.Keys(m);
      assert FirstIndex(Seqs.Keys(m) + [k'], k) == |m|;
    }
  }

  lemma ValuesOfSnoc(p: Items, x: (Value, Value), k: Value)
    ensures ValuesOf(p + [x], k) == ValuesOf(p, k) + (if x.0 == k then [x.1] else [])
  {
    assert (p + [x])[..|p|] == p;
  }

  lemma FoldSnoc(vs: seq<Value>, v: Value)
    requires vs != []
    ensures Fold(vs + [v]) == Combine(Fold(vs), v)
  {
    assert (vs + [v])[..|vs|] == vs;
  }

  lemma {:induction false} ValuesOfAbsent(items: Items, k: Value)
    requires k !in Seqs.Keys(items)
    ensures ValuesOf(items, k) == []
    decreases |items|
  {
    if items != [] {
      var p := items[..|items| - 1];
      assert items == p + [items[|items| - 1]];
      KeysSnoc(p, items[|items| - 1]);
      ValuesOfAbsent(p, k);
    }
  }

  /** Three dicts giving the non-list values `a`, `b`, `c` to one key merge to `[[a, b], c]`; two list
      values are concatenated. */
  lemma MergeExamples(k: Value, a: Value, b: Value, c: Value, xs: seq<Value>, ys: seq<Value>)
    requires !a.List? && !b.List? && !c.List?
    ensures MergeSpec([[(k, a)], [(k, b)], [(k, c)]]) == [(k, List([List([a, b]), c]))]
    ensures MergeSpec([[(k, List(xs))], [(k, List(ys))]]) == [(k, List(xs + ys))]
  {
    MergeScalars(k, a, b, c);
    MergeLists(k, xs, ys);
  }

  lemma MergeScalars(k: Value, a: Value, b: Value, c: Value)
    requires !a.List? && !b.List? && !c.List?
    ensures MergeSpec([[(k, a)], [(k, b)], [(k, c)]]) == [(k, List([List([a, b]), c]))]
  {
    var abc := [[(k, a)], [(k, b)], [(k, c)]];
    FlattenSingletons(abc);
    var m1, m2 := [(k, a)], [(k, a), (k, b)];
    assert Seqs.Flatten(abc) == m2 + [(k, c)];
    MergeItemsSnoc([], (k, a));
    assert [] + [(k, a)] == m1;
    MergeItemsSnoc(m1, (k, b));
    assert m1 + [(k, b)] == m2;
    assert Seqs.Keys(m1) == [k];
    MergeItemsSnoc(m2, (k, c));
    assert Seqs.Keys([(k, List([a, b]))]) == [k];
  }

  lemma MergeLists(k: Value, xs: seq<Value>, ys: seq<Value>)
    ensures MergeSpec([[(k, List(xs))], [(k, List(ys))]]) == [(k, List(xs + ys))]
  {
    var two := [[(k, List(xs))], [(k, List(ys))]];
    FlattenSingletons(two);
    var m1 := [(k, List(xs))];
    assert Seqs.Flatten(two) == m1 + [(k, List(ys))];
    MergeItemsSnoc([], (k, List(xs)));
    assert [] + [(k, List(xs))] == m1;
    MergeItemsSnoc(m1, (k, List(ys)));
    assert Seqs.Keys(m1) == [k];
  }

  /** A sequence of one-item dicts flattens to those items. */
  lemma {:induction false} FlattenSingletons(dicts: seq<Items>)
    requires forall i :: 0 <= i < |dicts| ==> |dicts[i]| == 1
    ensures Seqs.Flatten(dicts) == seq(|dicts|, i requires 0 <= i < |dicts| => dicts[i][0])
  {
    if dicts != [] {
      var rest := dicts[1..];
      FlattenSingletons(rest);
      assert dicts[0] == [dicts[0][0]];
      var heads := seq(|dicts|, i requires 0 <= i < |dicts| => dicts[i][0]);
      var tail := seq(|rest|, i requires 0 <= i < |rest| => rest[i][0]);
      assert heads == [dicts[0][0]] + tail by {
        forall i | 0 <= i < |heads| ensures heads[i] == ([dicts[0][0]] + tail)[i] {
          if i > 0 {
            assert rest[i - 1] == dicts[i];
          }
        }
      }
    }
  }

  /** `get_key_index`: `list(d.keys()).index(key)`, ValueError for an absent key. */
  function GetKeyIndex(d: Items, key: Value): (r: Result<nat>)
    ensures r.Ok? <==> key in Seqs.Keys(d)
    ensures r.Err? ==> r.error == ValueError
    ensures r.Ok? ==> r.value < |d| && d[r.value].0 == key
    ensures r.Ok? && DistinctKeys(d) ==> forall j :: 0 <= j < |d| && d[j].0 == key ==> j == r.value
  {
    if key in Seqs.Keys(d) then Ok(FirstIndex(Seqs.Keys(d), key)) else Err(ValueError)
  }

  /** `{'a': 1, 'b': 2, 'c': 3}` has `'b'` at position 1. */
  lemma GetKeyIndexExample(d: Items)
    requires d == [(Str("a"), Int(1)), (Str("b"), Int(2)), (Str("c"), Int(3))]
    ensures GetKeyIndex(d, Str("b")) == Ok(1)
  {
    assert Seqs.Keys(d)[1] == Str("b");
    assert Seqs.Keys(d)[0] == Str("a");
  }
}
