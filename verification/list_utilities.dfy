/** The replacement utilities that extend a shorter replacement list by a prefix of itself, in place
    (src/mpyez/utilities/list_/utilities.py). A replacement list passed by the caller is the very object
    that grows. */
module ListUtilities {
  import opened Py
  import opened Replacement

  /** `value += value[:len(index) - len(value)]`: a shorter list gains a prefix of itself; with more values
      than indices the stop is negative and the list still grows, by all but its last surplus elements. */
  function PadValues(vals: seq<Value>, p: nat): (r: seq<Value>)
    ensures vals <= r
  {
    vals + SliceTo(vals, p - |vals|)
  }

  /** The padding never shortens the zip below `min(len(index), 2 * len(value))` pairs, and with at least
      as many values as indices it covers every index with the original values. */
  lemma PadValuesSpec(vals: seq<Value>, p: nat)
    ensures var r := PadValues(vals, p);
      && (|vals| <= p ==> |r| == |vals| + Min(p - |vals|, |vals|))
      && (|vals| >= p ==> |r| >= p && r[..p] == vals[..p])
      && (forall k :: |vals| <= k < |r| ==> r[k] == vals[k - |vals|])
  {
  }

  /** `replace_at_index` on the list's current elements `s` and the value list's elements before padding:
      the zipped indices are checked one at a time against the last position, then written. */
  function ReplaceAtIndexSpec(s: seq<Value>, index: Value, vals: seq<Value>): Outcome
  {
    var idx, padded := AsItems(index), PadValues(vals, |AsItems(index)|);
    var m := Min(|idx|, |padded|);
    match CheckNotAboveEach(idx[..m], |s|)
    case Some(e) => Outcome(s, Some(e))
    case None => ZipWrite(s, idx, padded)
  }

  /** No count mismatch is ever reported: exactly the first `min(len(index), len(padded))` indices are
      used, each receiving its padded value (the last such write on repeated positions), and indices
      past that are ignored without error. */
  lemma ReplaceAtIndexCorrect(s: seq<Value>, index: Value, vals: seq<Value>)
    ensures var o, idx, padded := ReplaceAtIndexSpec(s, index, vals), AsItems(index), PadValues(vals, |AsItems(index)|);
      var m := Min(|idx|, |padded|);
      && o.err != Some(UnequalElements) && o.err != Some(ValueError)
      && (ValidTargets(idx, m, |s|) && (forall k :: 0 <= k < m ==> idx[k].i < |s|) ==>
            && o.err == None
            && (forall p :: 0 <= p < |s| && (forall k :: 0 <= k < m ==> Target(idx[k], |s|) != p) ==> o.elems[p] == s[p])
            && (forall k :: 0 <= k < m && (forall j :: k < j < m ==> Target(idx[j], |s|) != Target(idx[k], |s|))
                  ==> o.elems[Target(idx[k], |s|)] == padded[k]))
  {
    var idx, padded := AsItems(index), PadValues(vals, |AsItems(index)|);
    var m := Min(|idx|, |padded|);
    if ValidTargets(idx, m, |s|) && (forall k :: 0 <= k < m ==> idx[k].i < |s|) {
      ZippedIndicesPass(s, idx, padded);
      ZipWriteSuccess(s, idx, padded);
    }
  }

  /** Zipped indices that are all integers below the length pass the check. */
  lemma ZippedIndicesPass(s: seq<Value>, idx: seq<Value>, padded: seq<Value>)
    requires ValidTargets(idx, Min(|idx|, |padded|), |s|)
    requires forall k :: 0 <= k < Min(|idx|, |padded|) ==> idx[k].i < |s|
    ensures CheckNotAboveEach(idx[..Min(|idx|, |padded|)], |s|) == None
  {
    var m := Min(|idx|, |padded|);
    CheckNotAboveEachSpec(idx[..m], |s|);
    assert forall k :: 0 <= k < m ==> !Above(idx[..m][k], |s|);
  }

  /** A scalar value with three indices covers only the first two: `[1, 2, 3]`, indices `[0, 1, 2]` and
      value 9 give `[9, 9, 3]`. */
  lemma ReplaceAtIndexShortPadding()
    ensures ReplaceAtIndexSpec([Int(1), Int(2), Int(3)], List([Int(0), Int(1), Int(2)]), [Int(9)])
      == Outcome([Int(9), Int(9), Int(3)], None)
  {
    var s := [Int(1), Int(2), Int(3)];
    assert PadValues([Int(9)], 3) == [Int(9), Int(9)];
    assert [Int(0), Int(1), Int(2)][..2] == [Int(0), Int(1)];
    assert CheckNotAboveEach([Int(0), Int(1)], 3) == CheckNotAboveEach([Int(1)], 3) == None;
    assert ZipWrite(s, [Int(0), Int(1), Int(2)], [Int(9), Int(9)])
      == ZipWrite(s[0 := Int(9)], [Int(1), Int(2)], [Int(9)]);
    assert ZipWrite(s[0 := Int(9)], [Int(1), Int(2)], [Int(9)])
      == ZipWrite(s[0 := Int(9)][1 := Int(9)], [Int(2)], []);
  }

  /** The function `replace_at_index`: pads the value list in place (the caller's own list when one
      was passed), checks, copies when asked (shallow), and writes. */
  method ReplaceAtIndex(input: PyList, index: Value, value: Arg, newList: bool) returns (r: Result<PyList>)
    requires value.ListArg? ==> value.l != input
    modifies input, ArgRefs(value)
    ensures value.ListArg? ==> value.l.elems == PadValues(old(value.l.elems), |AsItems(index)|)
    ensures var o := ReplaceAtIndexSpec(old(input.elems), index, old(ArgElems(value)));
      && (r.Err? <==> o.err.Some?)
      && (r.Err? ==> o.err == Some(r.error))
      && (r.Ok? || !newList ==> (if newList then r.value.elems else input.elems) == o.elems)
      && (newList ==> unchanged(input))
      && (r.Ok? && newList ==> fresh(r.value))
      && (r.Ok? && !newList ==> r.value == input)
  {
    var idx := AsItems(index);
    var vl := AsList(value);
    vl.elems := vl.elems + SliceTo(vl.elems, |idx| - |vl.elems|);
    var padded := vl.elems;
    var m := Min(|idx|, |padded|);
    var bad := CheckZipped(idx[..m], |input.elems|);
    if bad.Some? {
      return Err(bad.value);
    }
    var target := input;
    if newList {
      target := new PyList(input.elems);
    }
    var err := WriteZipped(target, idx, padded);
    if err.Some? {
      return Err(err.value);
    }
    return Ok(target);
  }

  /** The check loop of `replace_at_index` over the zipped indices, stopping at the first offender. */
  method CheckZipped(idx: seq<Value>, n: nat) returns (err: Option<Error>)
    ensures err == CheckNotAboveEach(idx, n)
  {
    var k := 0;
    while k < |idx|
      invariant 0 <= k <= |idx|
      invariant CheckNotAboveEach(idx, n) == CheckNotAboveEach(idx[k..], n)
    {
      assert idx[k..][1..] == idx[k + 1..];
      if !idx[k].Int? {
        return Some(TypeError);
      }
      if idx[k].i > n - 1 {
        return Some(IndexOutOfList);
      }
      k := k + 1;
    }
    return None;
  }

  /** `replace_element` on the list's elements and the new-element list before padding: the first absent
      old element raises GotAnUnknownValue, otherwise the padded new elements are written at the first
      occurrences of the old ones. */
  function ReplaceElementSpec(s: seq<Value>, oldElement: Value, news: seq<Value>): Outcome
  {
    var olds := AsItems(oldElement);
    if !AllPresent(s, olds) then Outcome(s, Some(GotAnUnknownValue))
    else ZipWrite(s, FirstIndices(s, olds), PadValues(news, |olds|))
  }

  /** An absent old element raises with nothing written; otherwise, within the zipped pairs, each padded
      new element lands on the first occurrence of its old element (the last pair wins for repeated old
      elements) and no other position changes. */
  lemma ReplaceElementCorrect(s: seq<Value>, oldElement: Value, news: seq<Value>)
    ensures var o, olds, padded := ReplaceElementSpec(s, oldElement, news), AsItems(oldElement), PadValues(news, |AsItems(oldElement)|);
      var m := Min(|olds|, |padded|);
      && |o.elems| == |s|
      && (o.err.Some? <==> !AllPresent(s, olds))
      && (o.err.Some? ==> o == Outcome(s, Some(GotAnUnknownValue)))
      && (o.err == None ==>
            && (forall p :: 0 <= p < |s| && (forall k :: 0 <= k < m ==> FirstIndex(s, olds[k]) != p) ==> o.elems[p] == s[p])
            && (forall k :: 0 <= k < m && (forall j :: k < j < m ==> olds[j] != olds[k])
                  ==> o.elems[FirstIndex(s, olds[k])] == padded[k]))
  {
    var olds, padded := AsItems(oldElement), PadValues(news, |AsItems(oldElement)|);
    if AllPresent(s, olds) {
      FirstIndicesWrite(s, olds, padded);
    }
  }

  /** The function `replace_element`: pads the new-element list in place, collects first-occurrence
      positions one old element at a time, copies when asked (shallow), and writes. */
  method ReplaceElement(input: PyList, oldElement: Value, newElement: Arg, newList: bool) returns (r: Result<PyList>)
    requires newElement.ListArg? ==> newElement.l != input
    modifies input, ArgRefs(newElement)
    ensures newElement.ListArg? ==> newElement.l.elems == PadValues(old(newElement.l.elems), |AsItems(oldElement)|)
    ensures var o := ReplaceElementSpec(old(input.elems), oldElement, old(ArgElems(newElement)));
      && (r.Err? <==> o.err.Some?)
      && (r.Err? ==> o.err == Some(r.error))
      && (r.Ok? ==> r.value.elems == o.elems)
      && (r.Err? || newList ==> unchanged(input))
      && (r.Ok? && newList ==> fresh(r.value))
      && (r.Ok? && !newList ==> r.value == input)
  {
    var olds := AsItems(oldElement);
    var nl := AsList(newElement);
    nl.elems := nl.elems + SliceTo(nl.elems, |olds| - |nl.elems|);
    var index, ok := CollectFirstIndices(input.elems, olds);
    if !ok {
      return Err(GotAnUnknownValue);
    }
    var target := input;
    if newList {
      target := new PyList(input.elems);
    }
    ZipWriteSuccess(target.elems, index, nl.elems);
    var err := WriteZipped(target, index, nl.elems);
    return Ok(target);
  }

  /** The loop of `replace_element` that collects `input_list.index(old)` for each old element, raising
      at the first one that is absent. */
  method CollectFirstIndices(s: seq<Value>, olds: seq<Value>) returns (index: seq<Value>, ok: bool)
    ensures ok == AllPresent(s, olds)
    ensures ok ==> index == FirstIndices(s, olds)
  {
    index := [];
    var k := 0;
    while k < |olds|
      invariant 0 <= k <= |olds|
      invariant AllPresent(s, olds[..k])
      invariant index == FirstIndices(s, olds[..k])
    {
      if olds[k] !in s {
        assert !AllPresent(s, olds);
        return index, false;
      }
      index := index + [Int(FirstIndex(s, olds[k]))];
      k := k + 1;
    }
    assert olds[..k] == olds;
    return index, true;
  }
}
