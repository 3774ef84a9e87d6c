/** The replacement utilities that repeat a shorter replacement list (src/mpyez/utilities/ez_list/utilities.py;
    src/ezPy/utilities/ez_list/misc.py holds the same code), and the frequency table whose entries can be
    read by position or by slice. */
module EzListUtilities {
  import opened Py
  import opened Replacement
  import UList

  /** `replace_at_index`: a longer value list raises UnequalElements, a shorter one is repeated; then the
      mask check rejects indices above the last position (negative ones pass) and the pairs are written. */
  function ReplaceAtIndexSpec(s: seq<Value>, index: Value, value: Value): Outcome
  {
    var idx, vals := AsItems(index), AsItems(value);
    match CyclicPad(vals, |idx|)
    case Err(e) => Outcome(s, Some(e))
    case Ok(padded) =>
      match CheckNotAbove(idx, |s|)
      case Some(e) => Outcome(s, Some(e))
      case None => ZipWrite(s, idx, padded)
  }

  /** With at most as many values as indices and every index an integer in `[-n, n)`, the call succeeds:
      index `k` receives `value[k mod len(value)]` (the last such write on repeated positions) and every
      position no index addresses keeps its element. */
  lemma ReplaceAtIndexCorrect(s: seq<Value>, index: Value, value: Value)
    ensures var o, idx, vals := ReplaceAtIndexSpec(s, index, value), AsItems(index), AsItems(value);
      && |o.elems| == |s|
      && (|vals| > |idx| ==> o == Outcome(s, Some(UnequalElements)))
      && (|vals| <= |idx| && CheckNotAbove(idx, |s|).Some? ==> o.elems == s && o.err == CheckNotAbove(idx, |s|))
      && (|vals| <= |idx| && ValidTargets(idx, |idx|, |s|) && |vals| > 0 ==>
            && o.err == None
            && (forall p :: 0 <= p < |s| && (forall k :: 0 <= k < |idx| ==> Target(idx[k], |s|) != p) ==> o.elems[p] == s[p])
            && (forall k :: 0 <= k < |idx| && (forall j :: k < j < |idx| ==> Target(idx[j], |s|) != Target(idx[k], |s|))
                  ==> o.elems[Target(idx[k], |s|)] == vals[k % |vals|]))
      && (|vals| == 0 && CheckNotAbove(idx, |s|) == None ==> o == Outcome(s, None))
      && (forall f :: 0 <= f < |idx| && 0 < |vals| <= |idx| && CheckNotAbove(idx, |s|) == None
            && ValidTargets(idx, f, |s|) && !ValidTarget(idx[f], |s|)
            ==> o.err == Some(IndexError) && o.elems == ZipWrite(s, idx[..f], Cycled(vals, f)).elems)
  {
    var idx, vals := AsItems(index), AsItems(value);
    CyclicPadSpec(vals, |idx|);
    if |vals| <= |idx| && ValidTargets(idx, |idx|, |s|) && |vals| > 0 {
      ReplaceAtIndexWrites(s, idx, vals);
    }
    if |vals| == 0 {
      assert CyclicPad(vals, |idx|) == Ok([]);
    }
    ReplaceAtIndexFails(s, index, value);
  }

  /** The first `f` values of the cyclic padding: `vals[k mod len(vals)]`. */
  function Cycled(vals: seq<Value>, f: nat): (r: seq<Value>)
    requires |vals| > 0
    ensures |r| == f
    ensures forall k :: 0 <= k < f ==> r[k] == vals[k % |vals|]
  {
    seq(f, k requires 0 <= k < f => vals[k % |vals|])
  }

  /** An integer index below `-n` passes the mask check and then makes `l[i] = v` raise IndexError,
      after the pairs before it were written. */
  lemma ReplaceAtIndexFails(s: seq<Value>, index: Value, value: Value)
    ensures var o, idx, vals := ReplaceAtIndexSpec(s, index, value), AsItems(index), AsItems(value);
      forall f :: 0 <= f < |idx| && 0 < |vals| <= |idx| && CheckNotAbove(idx, |s|) == None
        && ValidTargets(idx, f, |s|) && !ValidTarget(idx[f], |s|)
        ==> o.err == Some(IndexError) && o.elems == ZipWrite(s, idx[..f], Cycled(vals, f)).elems
  {
    var idx, vals := AsItems(index), AsItems(value);
    if 0 < |vals| <= |idx| && CheckNotAbove(idx, |s|) == None {
      CyclicPadSpec(vals, |idx|);
      var padded := CyclicPad(vals, |idx|).value;
      forall f | 0 <= f < |idx| && ValidTargets(idx, f, |s|) && !ValidTarget(idx[f], |s|)
        ensures ReplaceAtIndexSpec(s, index, value).err == Some(IndexError)
        ensures ReplaceAtIndexSpec(s, index, value).elems == ZipWrite(s, idx[..f], Cycled(vals, f)).elems
      {
        ZipWriteFailure(s, idx, padded, f);
        assert padded[..f] == Cycled(vals, f);
      }
    }
  }

  /** Valid targets and a non-empty list of values at most as long: the padded values are written. */
  lemma ReplaceAtIndexWrites(s: seq<Value>, idx: seq<Value>, vals: seq<Value>)
    requires 0 < |vals| <= |idx| && ValidTargets(idx, |idx|, |s|)
    ensures var o := ZipWrite(s, idx, CyclicPad(vals, |idx|).value);
      && o.err == None
      && (forall p :: 0 <= p < |s| && (forall k :: 0 <= k < |idx| ==> Target(idx[k], |s|) != p) ==> o.elems[p] == s[p])
      && (forall k :: 0 <= k < |idx| && (forall j :: k < j < |idx| ==> Target(idx[j], |s|) != Target(idx[k], |s|))
            ==> o.elems[Target(idx[k], |s|)] == vals[k % |vals|])
  {
    CyclicPadSpec(vals, |idx|);
    var padded := CyclicPad(vals, |idx|).value;
    assert Min(|idx|, |padded|) == |idx|;
    ZipWriteKeeps(s, idx, padded);
    var o, n := ZipWrite(s, idx, padded), |s|;
    forall k | 0 <= k < |idx| && (forall j :: k < j < |idx| ==> Target(idx[j], n) != Target(idx[k], n))
      ensures o.elems[Target(idx[k], n)] == vals[k % |vals|]
    {
      ZipWriteLandsAt(s, idx, padded, k);
    }
  }

  /** Lines 55-58 of both files: after a successful call only the addressed positions differ and the
      length is unchanged. */
  lemma ReplaceAtIndexFrame(s: seq<Value>, index: Value, value: Value)
    requires ReplaceAtIndexSpec(s, index, value).err == None
    ensures var o, idx := ReplaceAtIndexSpec(s, index, value), AsItems(index);
      && |o.elems| == |s|
      && forall p :: 0 <= p < |s| && o.elems[p] != s[p] ==>
           exists k :: 0 <= k < |idx| && ValidTarget(idx[k], |s|) && Target(idx[k], |s|) == p
  {
    var idx, vals, n := AsItems(index), AsItems(value), |s|;
    CyclicPadSpec(vals, |idx|);
    var padded := CyclicPad(vals, |idx|).value;
    var m := Min(|idx|, |padded|);
    assert ValidTargets(idx, m, n) by {
      if !ValidTargets(idx, m, n) {
        var g :| 0 <= g < m && !ValidTarget(idx[g], n);
        UList.Replace.FirstBad(idx, n, g);
        var f :| 0 <= f <= g && ValidTargets(idx, f, n) && !ValidTarget(idx[f], n);
        ZipWriteFailure(s, idx, padded, f);
      }
    }
    ZipWriteSuccess(s, idx, padded);
  }

  /** The function `replace_at_index` on a list object; with `newList` the writes go to a deep copy. */
  method ReplaceAtIndex(input: PyList, index: Value, value: Value, newList: bool) returns (r: Result<PyList>)
    modifies input
    ensures var o := ReplaceAtIndexSpec(old(input.elems), index, value);
      && (r.Err? <==> o.err.Some?)
      && (r.Err? ==> o.err == Some(r.error))
      && (r.Ok? || !newList ==> (if newList then r.value.elems else input.elems) == o.elems)
      && (newList ==> unchanged(input))
      && (r.Ok? && newList ==> fresh(r.value))
      && (r.Ok? && !newList ==> r.value == input)
  {
    var idx, vals := AsItems(index), AsItems(value);
    var padded := CyclicPad(vals, |idx|);
    if padded.Err? {
      return Err(padded.error);
    }
    var bad := CheckNotAbove(idx, |input.elems|);
    if bad.Some? {
      return Err(bad.value);
    }
    var target := input;
    if newList {
      target := new PyList(input.elems);
    }
    var err := WriteZipped(target, idx, padded.value);
    if err.Some? {
      return Err(err.value);
    }
    return Ok(target);
  }

  /** `replace_element` as written: unknown old elements are reported first, then the new elements are
      repeated to cover the old ones, and the repeated list is handed to `replace_at_index` together
      with the first-occurrence positions. */
  function ReplaceElementSpec(s: seq<Value>, oldElement: Value, newElement: Value): Outcome
  {
    var olds, news := AsItems(oldElement), AsItems(newElement);
    if !AllPresent(s, olds) then Outcome(s, Some(GotAnUnknownValue))
    else match CyclicPad(news, |olds|)
      case Err(e) => Outcome(s, Some(e))
      case Ok(padded) => ReplaceAtIndexSpec(s, List(FirstIndices(s, olds)), List(padded))
  }

  /** The repeated list is longer than the positions whenever there are more than one but fewer new
      elements than old ones, so the inner `replace_at_index` rejects it and nothing is replaced. */
  lemma ReplaceElementRejectsRepeated(s: seq<Value>, oldElement: Value, newElement: Value)
    requires AllPresent(s, AsItems(oldElement))
    requires 1 < |AsItems(newElement)| < |AsItems(oldElement)|
    ensures ReplaceElementSpec(s, oldElement, newElement) == Outcome(s, Some(UnequalElements))
  {
    var olds, news := AsItems(oldElement), AsItems(newElement);
    CyclicPadSpec(news, |olds|);
  }

  /** Whatever `replace_element` raises, it raises before the first write: the positions it hands to
      `replace_at_index` are all valid, so only the two length checks can fail, and they come first. */
  lemma ReplaceElementErrKeeps(s: seq<Value>, oldElement: Value, newElement: Value)
    ensures var o := ReplaceElementSpec(s, oldElement, newElement);
      o.err.Some? ==> o.elems == s
  {
    var olds, news := AsItems(oldElement), AsItems(newElement);
    if AllPresent(s, olds) && CyclicPad(news, |olds|).Ok? {
      var idx, padded := FirstIndices(s, olds), CyclicPad(news, |olds|).value;
      var inner := CyclicPad(padded, |idx|);
      if inner.Ok? && CheckNotAbove(idx, |s|).None? {
        ZipWriteSuccess(s, idx, inner.value);
      }
    }
  }

  /** A concrete case: in `[1, 2, 3]`, replacing `[1, 2, 3]` by `[7, 8]` raises UnequalElements. */
  lemma ReplaceElementCounterexample()
    ensures ReplaceElementSpec([Int(1), Int(2), Int(3)], List([Int(1), Int(2), Int(3)]), List([Int(7), Int(8)])).err
      == Some(UnequalElements)
  {
    ReplaceElementRejectsRepeated([Int(1), Int(2), Int(3)], List([Int(1), Int(2), Int(3)]), List([Int(7), Int(8)]));
  }

  /** `replace_element` as evidently intended (and as `Replace.at_value` of src/ezPy/ez_list.py does it):
      the repeated new elements are zipped with the first-occurrence positions directly. */
  function ReplaceElementIntended(s: seq<Value>, oldElement: Value, newElement: Value): Outcome
  {
    var olds, news := AsItems(oldElement), AsItems(newElement);
    if !AllPresent(s, olds) then Outcome(s, Some(GotAnUnknownValue))
    else match CyclicPad(news, |olds|)
      case Err(e) => Outcome(s, Some(e))
      case Ok(padded) => ZipWrite(s, FirstIndices(s, olds), padded)
  }

  /** The intended version succeeds whenever every old element occurs and there are at least one and at
      most as many new elements, and then the `k`-th old element's first occurrence receives
      `new[k mod len(new)]` (the last such write when an old element is repeated). */
  lemma ReplaceElementIntendedCorrect(s: seq<Value>, oldElement: Value, newElement: Value)
    ensures var o, olds, news := ReplaceElementIntended(s, oldElement, newElement), AsItems(oldElement), AsItems(newElement);
      && |o.elems| == |s|
      && (o.err == Some(GotAnUnknownValue) <==> !AllPresent(s, olds))
      && (AllPresent(s, olds) && 0 < |news| <= |olds| ==>
            && o.err == None
            && (forall k :: 0 <= k < |olds| && (forall j :: k < j < |olds| ==> olds[j] != olds[k])
                  ==> o.elems[FirstIndex(s, olds[k])] == news[k % |news|]))
  {
    var olds, news := AsItems(oldElement), AsItems(newElement);
    CyclicPadSpec(news, |olds|);
    if AllPresent(s, olds) && 0 < |news| <= |olds| {
      var padded := CyclicPad(news, |olds|).value;
      assert Min(|olds|, |padded|) == |olds|;
      FirstIndicesWrite(s, olds, padded);
    }
  }

  /** The function `replace_element` as written, on a list object: the copy is taken before the inner
      call, which then writes into it. */
  method ReplaceElement(input: PyList, oldElement: Value, newElement: Value, newList: bool) returns (r: Result<PyList>)
    modifies input
    ensures var o := ReplaceElementSpec(old(input.elems), oldElement, newElement);
      && (r.Err? <==> o.err.Some?)
      && (r.Err? ==> o.err == Some(r.error))
      && (r.Ok? ==> r.value.elems == o.elems)
      && (newList ==> unchanged(input))
      && (r.Err? ==> input.elems == old(input.elems))
      && (r.Ok? && newList ==> fresh(r.value))
      && (r.Ok? && !newList ==> r.value == input)
  {
    var olds, news := AsItems(oldElement), AsItems(newElement);
    if !AllPresent(input.elems, olds) {
      return Err(GotAnUnknownValue);
    }
    var padded := CyclicPad(news, |olds|);
    if padded.Err? {
      return Err(padded.error);
    }
    var target := input;
    if newList {
      target := new PyList(input.elems);
    }
    var index := FirstIndices(target.elems, olds);
    r := ReplaceAtIndex(target, List(index), List(padded.value), false);
    ReplaceElementErrKeeps(old(input.elems), oldElement, newElement);
  }

  /** A key of `table[key]`: a position, or a slice `lo:hi:step` with each part optional. */
  datatype Key = At(i: int) | SliceOf(lo: Option<int>, hi: Option<int>, step: Option<int>)

  /** The step of a slice key; an omitted step is 1. */
  function StepOf(step: Option<int>): int
  {
    match step
    case None => 1
    case Some(x) => x
  }

  /** Whether `{e[0]: e[1] for e in entry}` raises IndexError on an entry `(key, count)`: the key is
      indexed at 0 and 1 before the count raises the TypeError that selects the one-entry fallback,
      so a key of length below 2 escapes with IndexError. */
  predicate ShortKey(key: Value)
  {
    (key.Str? && |key.s| < 2) || ((key.Tuple? || key.List?) && |key.items| < 2)
  }

  /** `CountObjectsInList.__getitem__` as written: Python indexing or slicing of the entries by descending
      count; a position gives a one-entry table unless its key is short. */
  function GetItem(t: UList.CountTable, key: Key): (r: Result<UList.CountTable>)
    ensures key.SliceOf? && StepOf(key.step) == 0 ==> r == Err(ValueError)
    ensures key.SliceOf? && StepOf(key.step) != 0 ==>
      r == Ok(UList.NewTable(Slice(t.sortedItems, key.lo, key.hi, StepOf(key.step))))
  {
    match key
    case At(i) =>
      if !InBounds(i, |t.sortedItems|) then Err(IndexError)
      else
        var e := t.sortedItems[Normalize(i, |t.sortedItems|)];
        if ShortKey(e.0) then Err(IndexError) else Ok(UList.NewTable([e]))
    case SliceOf(lo, hi, step) =>
      if StepOf(step) == 0 then Err(ValueError)
      else Ok(UList.NewTable(Slice(t.sortedItems, lo, hi, StepOf(step))))
  }

  /** A table counting one `'a'`: reading its first entry raises IndexError. */
  lemma GetItemCounterexample()
    ensures GetItem(UList.NewTable([(Str("a"), 1)]), At(0)) == Err(IndexError)
  {
    var t := UList.NewTable([(Str("a"), 1)]);
    assert t.sortedItems == [(Str("a"), 1)] by {
      assert |t.sortedItems| == 1;
      assert (Str("a"), 1) in multiset(t.sortedItems);
    }
  }

  /** `__getitem__` as evidently intended: a position always gives the one-entry table. */
  function GetItemIntended(t: UList.CountTable, key: Key): Result<UList.CountTable>
  {
    match key
    case At(i) =>
      if !InBounds(i, |t.sortedItems|) then Err(IndexError)
      else Ok(UList.NewTable([t.sortedItems[Normalize(i, |t.sortedItems|)]]))
    case SliceOf(lo, hi, step) =>
      if StepOf(step) == 0 then Err(ValueError)
      else Ok(UList.NewTable(Slice(t.sortedItems, lo, hi, StepOf(step))))
  }

  /** A position in `[-n, n)` gives the table holding exactly that entry, any other raises IndexError;
      a slice gives the table of exactly the sliced entries, still by descending count. */
  lemma GetItemIntendedCorrect(t: UList.CountTable, key: Key)
    ensures key.At? ==> (GetItemIntended(t, key).Ok? <==> InBounds(key.i, |t.sortedItems|))
    ensures key.At? && InBounds(key.i, |t.sortedItems|) ==>
      GetItemIntended(t, key).value.sortedItems == [t.sortedItems[Normalize(key.i, |t.sortedItems|)]]
    ensures key.SliceOf? ==> (GetItemIntended(t, key) == Err(ValueError) <==> StepOf(key.step) == 0)
    ensures key.SliceOf? && StepOf(key.step) != 0 ==>
              && GetItemIntended(t, key).Ok?
              && multiset(GetItemIntended(t, key).value.sortedItems)
                 == multiset(Slice(t.sortedItems, key.lo, key.hi, StepOf(key.step)))
  {
    if key.At? && InBounds(key.i, |t.sortedItems|) {
      var e := t.sortedItems[Normalize(key.i, |t.sortedItems|)];
      var u := UList.NewTable([e]);
      assert u.sortedItems == [e] by {
        assert |u.sortedItems| == 1;
        assert e in multiset(u.sortedItems);
      }
    }
  }

  /** The as-written and intended versions agree except on a short key. */
  lemma GetItemAgreesOnLongKeys(t: UList.CountTable, key: Key)
    requires key.At? && InBounds(key.i, |t.sortedItems|) ==> !ShortKey(t.sortedItems[Normalize(key.i, |t.sortedItems|)].0)
    ensures GetItem(t, key) == GetItemIntended(t, key)
  {
  }
}
