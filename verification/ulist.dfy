/** The list back end of the current package (src/mpyez/backend/uList.py): strict replace-by-index and
    replace-by-value, prefix-extension of a shorter list, the frequency table, and the `Replace` class. */
module UList {
  import opened Py
  import opened Replacement
  import opened Sorting

  /** `equalizing_list_length(primary, secondary)`: rejects a longer secondary list, and extends a shorter
      one in place by a prefix of itself. */
  method EqualizingListLength(primary: seq<Value>, secondary: PyList) returns (r: Result<PyList>)
    modifies secondary
    ensures PrefixPad(old(secondary.elems), |primary|).Err? ==> r == Err(UnequalElements) && unchanged(secondary)
    ensures PrefixPad(old(secondary.elems), |primary|).Ok? ==>
      r == Ok(secondary) && secondary.elems == PrefixPad(old(secondary.elems), |primary|).value
  {
    var p, s := |primary|, |secondary.elems|;
    if s > p {
      return Err(UnequalElements);
    } else if s < p {
      secondary.elems := secondary.elems + SliceTo(secondary.elems, p - s);
    }
    return Ok(secondary);
  }

  /** `replace_at_index`: the counts must agree (ValueError), every index must lie in `[0, n)`
      (IndexOutOfList, or TypeError for a non-integer), and only then are the pairs written. */
  function ReplaceAtIndexSpec(s: seq<Value>, index: Value, value: Value): Outcome
  {
    var idx, vals := AsItems(index), AsItems(value);
    if |idx| != |vals| then Outcome(s, Some(ValueError))
    else match CheckInRange(idx, |s|)
      case Some(e) => Outcome(s, Some(e))
      case None => ZipWrite(s, idx, vals)
  }

  /** Nothing is written when the call raises; it succeeds exactly when the counts agree and every index
      is an integer in `[0, n)`, and then each index holds its value (the last one on repeated indices)
      while every other position keeps its element. */
  lemma ReplaceAtIndexCorrect(s: seq<Value>, index: Value, value: Value)
    ensures var o, idx, vals := ReplaceAtIndexSpec(s, index, value), AsItems(index), AsItems(value);
      && |o.elems| == |s|
      && (o.err.Some? ==> o.elems == s)
      && (o.err == Some(ValueError) <==> |idx| != |vals|)
      && (o.err == None <==> |idx| == |vals| && forall k :: 0 <= k < |idx| ==> idx[k].Int? && 0 <= idx[k].i < |s|)
      && (o.err == None ==>
            && (forall p :: 0 <= p < |s| && (forall k :: 0 <= k < |idx| ==> idx[k] != Int(p)) ==> o.elems[p] == s[p])
            && (forall k :: 0 <= k < |idx| && (forall j :: k < j < |idx| ==> idx[j] != idx[k])
                  ==> o.elems[idx[k].i] == vals[k]))
  {
    var idx, vals, n := AsItems(index), AsItems(value), |s|;
    var o := ReplaceAtIndexSpec(s, index, value);
    CheckInRangeSpec(idx, n);
    if |idx| == |vals| && CheckInRange(idx, n) == None {
      assert o == ZipWrite(s, idx, vals);
      ZipWriteDirect(s, idx, vals);
    }
  }

  /** The examples of the documentation: `[1, 2, 3, 4]` with indices `[1, 3]` and values `[9, 10]`
      gives `[1, 9, 3, 10]`, and index 2 with value 99 gives `[1, 2, 99, 4]`. */
  lemma ReplaceAtIndexExamples()
    ensures ReplaceAtIndexSpec([Int(1), Int(2), Int(3), Int(4)], List([Int(1), Int(3)]), List([Int(9), Int(10)]))
      == Outcome([Int(1), Int(9), Int(3), Int(10)], None)
    ensures ReplaceAtIndexSpec([Int(1), Int(2), Int(3), Int(4)], Int(2), Int(99))
      == Outcome([Int(1), Int(2), Int(99), Int(4)], None)
  {
    var s := [Int(1), Int(2), Int(3), Int(4)];
    assert ZipWrite(s, [Int(1), Int(3)], [Int(9), Int(10)]) == ZipWrite(s[1 := Int(9)], [Int(3)], [Int(10)]);
    assert ZipWrite(s, [Int(2)], [Int(99)]) == ZipWrite(s[2 := Int(99)], [], []);
  }

  /** The function `replace_at_index` on a list object: validation comes first, then (with `newList`)
      a copy is taken, so a failed call and a copying call leave the caller's list as it was. */
  method ReplaceAtIndex(input: PyList, index: Value, value: Value, newList: bool) returns (r: Result<PyList>)
    modifies input
    ensures var o := ReplaceAtIndexSpec(old(input.elems), index, value);
      && (r.Err? <==> o.err.Some?)
      && (r.Err? ==> o.err == Some(r.error) && unchanged(input))
      && (r.Ok? ==> r.value.elems == o.elems)
      && (r.Ok? && newList ==> fresh(r.value) && unchanged(input))
      && (r.Ok? && !newList ==> r.value == input)
  {
    var idx, vals := AsItems(index), AsItems(value);
    if |idx| != |vals| {
      return Err(ValueError);
    }
    var bad := CheckInRange(idx, |input.elems|);
    if bad.Some? {
      return Err(bad.value);
    }
    var target := input;
    if newList {
      target := new PyList(input.elems);
    }
    CheckInRangeSpec(idx, |input.elems|);
    ZipWriteSuccess(target.elems, idx, vals);
    var err := WriteZipped(target, idx, vals);
    return Ok(target);
  }

  /** The first-occurrence positions of two present elements coincide only when the elements do. */
  lemma FirstIndexInjective(s: seq<Value>, x: Value, y: Value)
    requires x in s && y in s
    ensures FirstIndex(s, x) == FirstIndex(s, y) <==> x == y
  {
  }

  /** `replace_element`: the counts must agree (UnequalElements), every old element must occur
      (GotAnUnknownValue), and then each new element is written at the first occurrence of its old one. */
  function ReplaceElementSpec(s: seq<Value>, oldElements: Value, newElements: Value): Outcome
  {
    var olds, news := AsItems(oldElements), AsItems(newElements);
    if |olds| != |news| then Outcome(s, Some(UnequalElements))
    else if !AllPresent(s, olds) then Outcome(s, Some(GotAnUnknownValue))
    else ZipWrite(s, FirstIndices(s, olds), news)
  }

  /** Nothing is written when the call raises; otherwise each new element sits at the first occurrence of
      its old element (the last pair wins when an old element is repeated) and every position that is not
      such a first occurrence keeps its element. */
  lemma ReplaceElementCorrect(s: seq<Value>, oldElements: Value, newElements: Value)
    ensures var o, olds, news := ReplaceElementSpec(s, oldElements, newElements), AsItems(oldElements), AsItems(newElements);
      && |o.elems| == |s|
      && (o.err.Some? ==> o.elems == s)
      && (o.err == Some(UnequalElements) <==> |olds| != |news|)
      && (o.err == Some(GotAnUnknownValue) <==> |olds| == |news| && exists k :: 0 <= k < |olds| && olds[k] !in s)
      && (o.err == None ==>
            && (forall p :: 0 <= p < |s| && (forall k :: 0 <= k < |olds| ==> s[p] != olds[k] || FirstIndex(s, olds[k]) != p)
                  ==> o.elems[p] == s[p])
            && (forall k :: 0 <= k < |olds| && (forall j :: k < j < |olds| ==> olds[j] != olds[k])
                  ==> o.elems[FirstIndex(s, olds[k])] == news[k]))
  {
    var olds, news := AsItems(oldElements), AsItems(newElements);
    if |olds| == |news| && AllPresent(s, olds) {
      assert Min(|olds|, |news|) == |olds|;
      FirstIndicesWrite(s, olds, news);
      forall p, k | 0 <= p < |s| && 0 <= k < |olds| && (s[p] != olds[k] || FirstIndex(s, olds[k]) != p)
        ensures FirstIndex(s, olds[k]) != p
      {
      }
    }
  }

  /** The function `replace_element` on a list object; with `newList` a shallow copy is written instead. */
  method ReplaceElement(input: PyList, oldElements: Value, newElements: Value, newList: bool) returns (r: Result<PyList>)
    modifies input
    ensures var o := ReplaceElementSpec(old(input.elems), oldElements, newElements);
      && (r.Err? <==> o.err.Some?)
      && (r.Err? ==> o.err == Some(r.error) && unchanged(input))
      && (r.Ok? ==> r.value.elems == o.elems)
      && (r.Ok? && newList ==> fresh(r.value) && unchanged(input))
      && (r.Ok? && !newList ==> r.value == input)
  {
    var olds, news := AsItems(oldElements), AsItems(newElements);
    if |olds| != |news| {
      return Err(UnequalElements);
    }
    if !AllPresent(input.elems, olds) {
      return Err(GotAnUnknownValue);
    }
    var indices := FirstIndices(input.elems, olds);
    var target := input;
    if newList {
      target := new PyList(input.elems);
    }
    ZipWriteSuccess(target.elems, indices, news);
    var err := WriteZipped(target, indices, news);
    return Ok(target);
  }

  /** A frequency table: the dictionary it was built from, and its entries by descending count. */
  datatype CountTable = CountTable(counterDict: seq<(Value, nat)>, sortedItems: seq<(Value, nat)>)

  /** `key=lambda x: x[1], reverse=True`: an entry goes first when its count is at least as large. */
  predicate CountFirst(a: (Value, nat), b: (Value, nat))
  {
    a.1 >= b.1
  }

  lemma CountFirstTotalPreorder()
    ensures TotalPreorder(CountFirst)
  {
  }

  /** `CountObjectsInList(counter_dict)`: keeps the dictionary and its entries stably sorted by
      descending count. */
  function NewTable(d: seq<(Value, nat)>): (t: CountTable)
    ensures t.counterDict == d
    ensures multiset(t.sortedItems) == multiset(d)
    ensures forall i, j :: 0 <= i < j < |t.sortedItems| ==> t.sortedItems[i].1 >= t.sortedItems[j].1
    ensures forall c :: WithCount(t.sortedItems, c) == WithCount(d, c)
  {
    CountFirstTotalPreorder();
    SortSorted(d, CountFirst);
    SortStable(d, CountFirst);
    TiesAreWithCount(d);
    TiesAreWithCount(Sort(d, CountFirst));
    CountTable(d, Sort(d, CountFirst))
  }

  /** The entries of `d` counted `c` times, in their order in `d`. */
  function WithCount(d: seq<(Value, nat)>, c: nat): (r: seq<(Value, nat)>)
    ensures |r| <= |d|
    ensures forall k :: 0 <= k < |r| ==> r[k].1 == c
  {
    if d == [] then [] else (if d[0].1 == c then [d[0]] else []) + WithCount(d[1..], c)
  }

  /** Two entries are level in the descending-count order exactly when their counts are equal. */
  lemma {:induction false} TiesAreWithCount(d: seq<(Value, nat)>)
    ensures forall c: nat :: Ties(d, (Int(0), c), CountFirst) == WithCount(d, c)
  {
    if d != [] {
      TiesAreWithCount(d[1..]);
    }
  }

  /** `table[item]`: IndexError unless `0 <= item < len`, otherwise a one-entry table holding the
      `item`-th most frequent entry. */
  function GetItem(t: CountTable, item: int): (r: Result<CountTable>)
    ensures r.Ok? <==> 0 <= item < |t.sortedItems|
    ensures r.Err? ==> r.error == IndexError
    ensures r.Ok? ==> r.value.counterDict == [t.sortedItems[item]] && r.value.sortedItems == [t.sortedItems[item]]
  {
    if item < 0 || item >= |t.sortedItems| then Err(IndexError)
    else
      var e := t.sortedItems[item];
      assert Sort([e], CountFirst) == Insert(e, [], CountFirst);
      Ok(NewTable([e]))
  }

  /** The entry `table[item]` returns counts at most as many as every entry before it and at least as
      many as every entry after it, and it is one of the dictionary's entries. */
  lemma GetItemRank(d: seq<(Value, nat)>, item: int)
    requires GetItem(NewTable(d), item).Ok?
    ensures var e := GetItem(NewTable(d), item).value.sortedItems[0];
      && e in d
      && (forall j :: 0 <= j < item ==> NewTable(d).sortedItems[j].1 >= e.1)
      && (forall j :: item < j < |d| ==> e.1 >= NewTable(d).sortedItems[j].1)
  {
    var t := NewTable(d);
    assert t.sortedItems[item] in multiset(t.sortedItems);
  }

  /** The `Replace` class: a target list (the caller's or a deep copy) and what to replace with what. */
  class Replace {
    var inputList: PyList
    var workOn: Value
    var replaceWith: Value
    var mode: string

    constructor (inputList: PyList, workOn: Value, replaceWith: Value, newList: bool, mode: string)
      ensures newList ==> fresh(this.inputList) && this.inputList.elems == inputList.elems
      ensures !newList ==> this.inputList == inputList
      ensures this.workOn == workOn && this.replaceWith == replaceWith && this.mode == mode
    {
      if newList {
        this.inputList := new PyList(inputList.elems);
      } else {
        this.inputList := inputList;
      }
      this.workOn := workOn;
      this.replaceWith := replaceWith;
      this.mode := mode;
    }

    /** `at_index`: InvalidInputParameter for an unknown `by`, UnequalElements when the counts differ,
        then the mask check and the writes. */
    static function AtIndexSpec(s: seq<Value>, mode: string, workOn: Value, replaceWith: Value): Outcome
    {
      var w, rw := AsItems(workOn), AsItems(replaceWith);
      if mode != "index" && mode != "value" then Outcome(s, Some(InvalidInputParameter))
      else if |rw| != |w| then Outcome(s, Some(UnequalElements))
      else match CheckNotAbove(w, |s|)
        case Some(e) => Outcome(s, Some(e))
        case None => ZipWrite(s, w, rw)
    }

    /** `at_value`: InvalidInputParameter, UnequalElements, GotAnUnknownValue, then each replacement is
        written at the first occurrence of its old element. */
    static function AtValueSpec(s: seq<Value>, mode: string, workOn: Value, replaceWith: Value): Outcome
    {
      var w, rw := AsItems(workOn), AsItems(replaceWith);
      if mode != "index" && mode != "value" then Outcome(s, Some(InvalidInputParameter))
      else if |rw| != |w| then Outcome(s, Some(UnequalElements))
      else if !AllPresent(s, w) then Outcome(s, Some(GotAnUnknownValue))
      else ZipWrite(s, FirstIndices(s, w), rw)
    }

    /** `at_index` only rejects indices above the last position: negative indices down to `-n` address
        elements from the end, and one below `-n` raises IndexError after the pairs before it were written. */
    static lemma AtIndexCorrect(s: seq<Value>, mode: string, workOn: Value, replaceWith: Value)
      ensures var o, w, rw := AtIndexSpec(s, mode, workOn, replaceWith), AsItems(workOn), AsItems(replaceWith);
        && (o.err == Some(InvalidInputParameter) <==> mode != "index" && mode != "value")
        && (o.err == None <==> (mode == "index" || mode == "value") && |w| == |rw| && ValidTargets(w, |w|, |s|))
        && (o.err == None ==>
              && (forall p :: 0 <= p < |s| && (forall k :: 0 <= k < |w| ==> Target(w[k], |s|) != p) ==> o.elems[p] == s[p])
              && (forall k :: 0 <= k < |w| && (forall j :: k < j < |w| ==> Target(w[j], |s|) != Target(w[k], |s|))
                    ==> o.elems[Target(w[k], |s|)] == rw[k]))
        && (forall f :: 0 <= f < |w| && (mode == "index" || mode == "value") && |w| == |rw| && CheckNotAbove(w, |s|) == None
              && ValidTargets(w, f, |s|) && !ValidTarget(w[f], |s|)
              ==> o.err == Some(IndexError) && o.elems == ZipWrite(s, w[..f], rw[..f]).elems)
    {
      AtIndexSucceeds(s, mode, workOn, replaceWith);
      AtIndexFails(s, mode, workOn, replaceWith);
    }

    /** The error cases of `at_index`, and the writes when there is none. */
    static lemma AtIndexSucceeds(s: seq<Value>, mode: string, workOn: Value, replaceWith: Value)
      ensures var o, w, rw := AtIndexSpec(s, mode, workOn, replaceWith), AsItems(workOn), AsItems(replaceWith);
        && (o.err == Some(InvalidInputParameter) <==> mode != "index" && mode != "value")
        && (o.err == None <==> (mode == "index" || mode == "value") && |w| == |rw| && ValidTargets(w, |w|, |s|))
        && (o.err == None ==>
              && (forall p :: 0 <= p < |s| && (forall k :: 0 <= k < |w| ==> Target(w[k], |s|) != p) ==> o.elems[p] == s[p])
              && (forall k :: 0 <= k < |w| && (forall j :: k < j < |w| ==> Target(w[j], |s|) != Target(w[k], |s|))
                    ==> o.elems[Target(w[k], |s|)] == rw[k]))
    {
      var w, rw := AsItems(workOn), AsItems(replaceWith);
      if (mode == "index" || mode == "value") && |w| == |rw| && CheckNotAbove(w, |s|) == None {
        if ValidTargets(w, |w|, |s|) {
          ZipWriteSuccess(s, w, rw);
        } else {
          var f :| 0 <= f < |w| && !ValidTarget(w[f], |s|);
          FirstBad(w, |s|, f);
          var g :| 0 <= g <= f && ValidTargets(w, g, |s|) && !ValidTarget(w[g], |s|);
          ZipWriteFailure(s, w, rw, g);
        }
      }
    }

    /** A target below `-n` raises IndexError once the pairs before it are written. */
    static lemma AtIndexFails(s: seq<Value>, mode: string, workOn: Value, replaceWith: Value)
      ensures var o, w, rw := AtIndexSpec(s, mode, workOn, replaceWith), AsItems(workOn), AsItems(replaceWith);
        forall f :: 0 <= f < |w| && (mode == "index" || mode == "value") && |w| == |rw| && CheckNotAbove(w, |s|) == None
          && ValidTargets(w, f, |s|) && !ValidTarget(w[f], |s|)
          ==> o.err == Some(IndexError) && o.elems == ZipWrite(s, w[..f], rw[..f]).elems
    {
      var w, rw := AsItems(workOn), AsItems(replaceWith);
      if (mode == "index" || mode == "value") && |w| == |rw| && CheckNotAbove(w, |s|) == None {
        forall f | 0 <= f < |w| && ValidTargets(w, f, |s|) && !ValidTarget(w[f], |s|)
          ensures AtIndexSpec(s, mode, workOn, replaceWith).err == Some(IndexError)
          ensures AtIndexSpec(s, mode, workOn, replaceWith).elems == ZipWrite(s, w[..f], rw[..f]).elems
        {
          ZipWriteFailure(s, w, rw, f);
        }
      }
    }

    /** Among the invalid targets there is a first one. */
    static lemma {:induction false} FirstBad(w: seq<Value>, n: nat, g: nat)
      requires g < |w| && !ValidTarget(w[g], n)
      ensures exists f :: 0 <= f <= g && ValidTargets(w, f, n) && !ValidTarget(w[f], n)
      decreases g
    {
      if !ValidTargets(w, g, n) {
        var h :| 0 <= h < g && !ValidTarget(w[h], n);
        FirstBad(w, n, h);
      }
    }

    /** `at_value` succeeds exactly when `by` is known, the counts agree and every old element occurs;
        then each replacement sits at the first occurrence of its old element. */
    static lemma AtValueCorrect(s: seq<Value>, mode: string, workOn: Value, replaceWith: Value)
      ensures var o, w, rw := AtValueSpec(s, mode, workOn, replaceWith), AsItems(workOn), AsItems(replaceWith);
        && |o.elems| == |s|
        && (o.err.Some? ==> o.elems == s)
        && (o.err == None <==> (mode == "index" || mode == "value") && |w| == |rw| && AllPresent(s, w))
        && (o.err == None ==>
              forall k :: 0 <= k < |w| && (forall j :: k < j < |w| ==> w[j] != w[k])
                ==> o.elems[FirstIndex(s, w[k])] == rw[k])
    {
      var w, rw := AsItems(workOn), AsItems(replaceWith);
      if (mode == "index" || mode == "value") && |w| == |rw| && AllPresent(s, w) {
        assert Min(|w|, |rw|) == |w|;
        FirstIndicesWrite(s, w, rw);
      }
    }

    /** Wraps `work_on` and `replace_with` into lists, as `__convert_inputs_to_lists` does. */
    method ConvertInputsToLists()
      modifies this
      ensures workOn == List(AsItems(old(workOn))) && replaceWith == List(AsItems(old(replaceWith)))
      ensures inputList == old(inputList) && mode == old(mode)
    {
      workOn := List(AsItems(workOn));
      replaceWith := List(AsItems(replaceWith));
    }

    method AtIndex() returns (r: Result<PyList>)
      modifies this, inputList
      ensures workOn == List(AsItems(old(workOn))) && replaceWith == List(AsItems(old(replaceWith)))
      ensures inputList == old(inputList) && mode == old(mode)
      ensures var o := AtIndexSpec(old(inputList.elems), mode, old(workOn), old(replaceWith));
        && inputList.elems == o.elems
        && (r.Err? <==> o.err.Some?)
        && (r.Err? ==> o.err == Some(r.error))
        && (r.Ok? ==> r.value == inputList)
    {
      ConvertInputsToLists();
      var w, rw := workOn.items, replaceWith.items;
      if mode != "index" && mode != "value" {
        return Err(InvalidInputParameter);
      }
      if |rw| != |w| {
        return Err(UnequalElements);
      }
      var bad := CheckNotAbove(w, |inputList.elems|);
      if bad.Some? {
        return Err(bad.value);
      }
      var err := WriteZipped(inputList, w, rw);
      if err.Some? {
        return Err(err.value);
      }
      return Ok(inputList);
    }

    method AtValue() returns (r: Result<PyList>)
      modifies this, inputList
      ensures workOn == List(AsItems(old(workOn))) && replaceWith == List(AsItems(old(replaceWith)))
      ensures inputList == old(inputList) && mode == old(mode)
      ensures var o := AtValueSpec(old(inputList.elems), mode, old(workOn), old(replaceWith));
        && inputList.elems == o.elems
        && (r.Err? <==> o.err.Some?)
        && (r.Err? ==> o.err == Some(r.error))
        && (r.Ok? ==> r.value == inputList)
    {
      ConvertInputsToLists();
      var w, rw := workOn.items, replaceWith.items;
      if mode != "index" && mode != "value" {
        return Err(InvalidInputParameter);
      }
      if |rw| != |w| {
        return Err(UnequalElements);
      }
      if !AllPresent(inputList.elems, w) {
        return Err(GotAnUnknownValue);
      }
      var index := FirstIndices(inputList.elems, w);
      ZipWriteSuccess(inputList.elems, index, rw);
      var err := WriteZipped(inputList, index, rw);
      return Ok(inputList);
    }
  }
}
