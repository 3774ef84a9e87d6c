/** The dictionary helpers of src/mpyez/backend/uDict.py (and their copy in
    src/mpyez/utilities/dict_/utilities.py): wrapping values into singleton lists and back, in place,
    and the column-width arithmetic of the table printer. */
module UDict {
  import opened Py
  import Seqs
  import Text

  /** A Python dict as its items in insertion order. */
  type Items = seq<(Value, Value)>

  predicate DistinctKeys(d: Items)
  {
    Seqs.NoDuplicates(Seqs.Keys(d))
  }

  /** The items after a loop over them, and the exception that stopped it, if any. */
  datatype DictOutcome = DictOutcome(items: Items, err: Option<Error>)

  /** `[v] if not isinstance(v, list) else v`. */
  function Wrap(v: Value): (r: Value)
  {
    if v.List? then v else List([v])
  }

  /** `change_value_to_list`: every value that is not a list becomes the singleton list holding it;
      keys, their order and list values stay as they are, and a second application changes nothing. */
  function WrapAll(d: Items): (r: Items)
    ensures Seqs.Keys(r) == Seqs.Keys(d)
    ensures forall i :: 0 <= i < |r| ==> r[i].1.List?
    ensures forall i :: 0 <= i < |d| && d[i].1.List? ==> r[i].1 == d[i].1
    ensures forall i :: 0 <= i < |d| && !d[i].1.List? ==> r[i].1 == List([d[i].1])
  {
    seq(|d|, i requires 0 <= i < |d| => (d[i].0, Wrap(d[i].1)))
  }

  lemma WrapAllIdempotent(d: Items)
    ensures WrapAll(WrapAll(d)) == WrapAll(d)
  {
  }

  /** `len(v)`: strings, tuples and lists have one, an int raises TypeError. */
  function Len(v: Value): (r: Result<nat>)
    ensures r.Ok? <==> !v.Int?
  {
    match v
    case Int(_) => Err(TypeError)
    case Str(s) => Ok(|s|)
    case Tuple(xs) => Ok(|xs|)
    case List(xs) => Ok(|xs|)
  }

  /** `v[0] if len(v) == 1 else v` for a value that has a length. */
  function Unwrap(v: Value): (r: Value)
    requires !v.Int?
  {
    if Len(v).value != 1 then v
    else if v.Str? then Str([v.s[0]])
    else v.items[0]
  }

  /** The position of the first value without a length, or the number of items. */
  function FirstUnsized(d: Items): (f: nat)
    ensures f <= |d|
    ensures forall i :: 0 <= i < f ==> !d[i].1.Int?
    ensures f < |d| ==> d[f].1.Int?
  {
    if d == [] then 0
    else if d[0].1.Int? then 0
    else 1 + FirstUnsized(d[1..])
  }

  /** `change_list_to_values`: the items are visited in order and every value of length one is replaced
      by its only element; an int value raises TypeError with the items before it already updated. */
  function UnwrapAll(d: Items): DictOutcome
  {
    var f := FirstUnsized(d);
    DictOutcome(seq(|d|, i requires 0 <= i < |d| => if i < f then (d[i].0, Unwrap(d[i].1)) else d[i]),
                if f < |d| then Some(TypeError) else None)
  }

  /** Unwrapping fails exactly on an int value; it keeps the keys, replaces each tuple or list of length
      one by its element and leaves every other value, one-character strings included, as it was. */
  lemma UnwrapAllSpec(d: Items)
    ensures var o := UnwrapAll(d);
      && Seqs.Keys(o.items) == Seqs.Keys(d)
      && (o.err.Some? <==> exists i :: 0 <= i < |d| && d[i].1.Int?)
      && (o.err.Some? ==> o.err == Some(TypeError))
      && (o.err == None ==> forall i :: 0 <= i < |d| ==>
            && ((d[i].1.List? || d[i].1.Tuple?) && |d[i].1.items| == 1 ==> o.items[i].1 == d[i].1.items[0])
            && (!((d[i].1.List? || d[i].1.Tuple?) && |d[i].1.items| == 1) ==> o.items[i].1 == d[i].1))
  {
    var o := UnwrapAll(d);
    forall i | 0 <= i < |d| && i < FirstUnsized(d) && d[i].1.Str? && |d[i].1.s| == 1
      ensures o.items[i].1 == d[i].1
    {
      assert d[i].1.s == [d[i].1.s[0]];
    }
  }

  /** Wrapping and then unwrapping gives back the dict, provided no value was a one-element list to
      begin with (that one would come back as its element). */
  lemma {:induction false} ValueListRoundTrip(d: Items)
    requires forall i :: 0 <= i < |d| ==> !(d[i].1.List? && |d[i].1.items| == 1)
    ensures UnwrapAll(WrapAll(d)) == DictOutcome(d, None)
  {
    var w := WrapAll(d);
    assert FirstUnsized(w) == |w|;
    var o := UnwrapAll(w);
    assert |o.items| == |d|;
    forall i | 0 <= i < |d| ensures o.items[i] == d[i] {
      assert o.items[i] == (d[i].0, Unwrap(w[i].1));
    }
  }

  /** A dict object whose entries the helpers overwrite in place. */
  class PyDict {
    var items: Items

    constructor (items: Items)
      ensures this.items == items
    {
      this.items := items;
    }

    /** The loop of `change_value_to_list`. */
    method ChangeValueToList()
      modifies this
      ensures items == WrapAll(old(items))
    {
      var k := 0;
      while k < |items|
        invariant 0 <= k <= |items| == |old(items)|
        invariant forall i :: 0 <= i < k ==> items[i] == (old(items)[i].0, Wrap(old(items)[i].1))
        invariant forall i :: k <= i < |items| ==> items[i] == old(items)[i]
      {
        var (key, value) := items[k];
        if !value.List? {
          items := items[k := (key, List([value]))];
        }
        k := k + 1;
      }
    }

    /** The loop of `change_list_to_values`. */
    method ChangeListToValues() returns (err: Option<Error>)
      modifies this
      ensures DictOutcome(items, err) == UnwrapAll(old(items))
    {
      var k := 0;
      while k < |items|
        invariant 0 <= k <= |items| == |old(items)|
        invariant k <= FirstUnsized(old(items))
        invariant forall i :: 0 <= i < k ==> items[i] == (old(items)[i].0, Unwrap(old(items)[i].1))
        invariant forall i :: k <= i < |items| ==> items[i] == old(items)[i]
      {
        var (key, value) := items[k];
        var n := Len(value);
        if n.Err? {
          assert FirstUnsized(old(items)) == k;
          return Some(n.error);
        }
        if n.value == 1 {
          items := items[k := (key, Unwrap(value))];
        }
        k := k + 1;
      }
      return None;
    }
  }

  /** `max(len(str(v)) for v in values)`; `max` of nothing raises ValueError. */
  function LongestValue(d: Items): (r: Result<nat>)
    ensures r.Ok? <==> d != []
    ensures r.Ok? ==> forall i :: 0 <= i < |d| ==> |Text.Display(d[i].1)| <= r.value
    ensures r.Ok? ==> exists i :: 0 <= i < |d| && |Text.Display(d[i].1)| == r.value
  {
    if d == [] then Err(ValueError)
    else if |d| == 1 then Ok(|Text.Display(d[0].1)|)
    else
      var rest := LongestValue(d[1..]).value;
      var w := |Text.Display(d[0].1)|;
      assert forall i :: 1 <= i < |d| ==> d[i] == d[1..][i - 1];
      Ok(if w >= rest then w else rest)
  }

  /** `__get_max_width`: the longest value's width, made odd by adding one, and at least 71. */
  function MaxWidth(d: Items): (r: Result<nat>)
    ensures r.Ok? <==> d != []
  {
    match LongestValue(d)
    case Err(e) => Err(e)
    case Ok(m) => Ok(if m % 2 == 0 then (if m + 1 >= 71 then m + 1 else 71) else (if m >= 71 then m else 71))
  }

  /** The table width is odd, at least 71, at least every value's width, and the smallest such number. */
  lemma MaxWidthSpec(d: Items)
    requires d != []
    ensures var mw, m := MaxWidth(d).value, LongestValue(d).value;
      && mw % 2 == 1 && mw >= 71
      && (forall i :: 0 <= i < |d| ==> |Text.Display(d[i].1)| <= mw)
      && (mw == 71 || mw == m || mw == m + 1)
  {
  }

  /** `(max_width - 1) // 2 - 1`: the width of each of the two cells. */
  function CellWidth(maxWidth: nat): int
  {
    (maxWidth - 1) / 2 - 1
  }

  /** `f"|{k.center(width)}|{v.center(width)}|"`. */
  function Row(k: string, v: string, width: int): string
  {
    "|" + Text.Center(k, width) + "|" + Text.Center(v, width) + "|"
  }

  /** With an odd table width the two cells and three bars fill it exactly, so a row is as long as the
      dashed separator precisely when both strings fit in a cell; a longer string widens its row. */
  lemma RowWidth(maxWidth: nat, k: string, v: string)
    requires maxWidth % 2 == 1 && maxWidth >= 71
    ensures var w := CellWidth(maxWidth);
      && 3 + 2 * w == maxWidth
      && (|Row(k, v, w)| == maxWidth <==> |k| <= w && |v| <= w)
      && |Row(k, v, w)| >= maxWidth
  {
  }

  /** The table width follows the longest value, but each cell gets only about half of it: a dict whose
      one value is 35 characters long gets the 71-wide table, 34-wide cells, and a 72-character row. */
  lemma RowOverflowExample(d: Items, k: string, v: string)
    requires |v| == 35 && d == [(Str(k), Str(v))] && |k| <= 34
    ensures MaxWidth(d) == Ok(71)
    ensures |Row(k, v, CellWidth(71))| == 72
  {
    assert Text.Display(d[0].1) == v;
  }
}
