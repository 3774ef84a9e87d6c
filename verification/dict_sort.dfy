/** The `Sort_` helper of src/mpyez/dict_.py: a dict and a column name kept together, sorted on request. */
module DictSort {
  import opened Py
  import opened Order
  import Seqs
  import opened UDict
  import EzDict

  /** `Sort_(input_dictionary, sort_by)`: only stores its two arguments. */
  datatype Sorter = Sorter(inpDict: Items, sortBy: string)
  {
    /** `get(reverse)`: the items sorted on the values when `sort_by == 'values'`, on the keys for any
        other name, descending when `reverse` is set; TypeError when that column holds values Python
        cannot compare. It is the same sort as `sort_dictionary`, and it leaves the stored dict alone. */
    function Get(reverse: bool): (r: Result<Items>)
      ensures r.Ok? <==> AllComparable(EzDict.Column(inpDict, sortBy == "values"))
      ensures r == EzDict.SortDictionary(inpDict, sortBy, reverse)
    {
      EzDict.SortItems(inpDict, sortBy == "values", reverse)
    }
  }

  /** The result holds exactly the stored items, ordered on the chosen column: ascending, or
      descending with `reverse`, items with equal column values keeping their stored order. */
  lemma GetSpec(sorter: Sorter, reverse: bool)
    requires sorter.Get(reverse).Ok?
    ensures var r, byValues := sorter.Get(reverse).value, sorter.sortBy == "values";
      && multiset(r) == multiset(sorter.inpDict)
      && multiset(Seqs.Keys(r)) == multiset(Seqs.Keys(sorter.inpDict))
      && (forall i, j :: 0 <= i < j < |r| ==>
            var x, y := (if byValues then r[i].1 else r[i].0), (if byValues then r[j].1 else r[j].0);
            if reverse then ValueLe(y, x) else ValueLe(x, y))
      && (forall v :: EzDict.ItemsAt(r, byValues, v) == EzDict.ItemsAt(sorter.inpDict, byValues, v))
  {
    EzDict.SortItemsSpec(sorter.inpDict, sorter.sortBy == "values", reverse);
    EzDict.SortItemsKeys(sorter.inpDict, sorter.sortBy == "values", reverse);
  }

  /** Any name other than `'values'` (a misspelt one included) sorts on the keys. */
  lemma GetOtherNameSortsKeys(d: Items, name: string, reverse: bool)
    requires name != "values"
    ensures Sorter(d, name).Get(reverse) == Sorter(d, "keys").Get(reverse)
  {
  }
}
