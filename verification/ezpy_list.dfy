/** The list module of src/ezPy/ez_list.py: `join_lists` built with an `extend` loop, and the `Replace`
    class that repeats a shorter replacement list instead of rejecting it. */
module EzPyList {
  import opened Py
  import opened Replacement
  import Joining
  import EzListUtilities

  /** `join_lists`: the inputs are extended into one list, list elements become tuples, and the
      optional de-duplication and sort follow. */
  method JoinLists(lists: seq<Value>, getUnique: bool, sort: bool, typeOrder: seq<nat>) returns (r: Result<seq<Value>>)
    ensures r == Joining.JoinListsSpec(lists, getUnique, sort, typeOrder)
  {
    var joined := Joining.ExtendAll(lists);
    if joined.Err? {
      return joined;
    }
    var temp := Joining.ConvertLists(joined.value);
    if getUnique {
      var u := Joining.HashedUnique(temp);
      if u.Err? {
        return u;
      }
      temp := u.value;
    }
    if sort {
      return Joining.SortOrFallback(temp, typeOrder);
    }
    return Ok(temp);
  }

  /** Replacement by position or by value on a list held in a field; the replacement list is repeated
      when it is shorter than the targets. */
  class Replace {
    var inputList: PyList
    var workOn: Value
    var replaceWith: Value
    var mode: string

    constructor (inputList: PyList, workOn: Value, replaceWith: Value, mode: string, newList: bool)
      ensures newList ==> fresh(this.inputList) && this.inputList.elems == inputList.elems
      ensures !newList ==> this.inputList == inputList
      ensures this.workOn == workOn && this.replaceWith == replaceWith && this.mode == mode
    {
      if newList {
        this.inputList := new PyList(inputList.elems);
      } else {
        this.inputList := inputList;
      }
      this.workOn := workOn;
      this.replaceWith := replaceWith;
      this.mode := mode;
    }

    /** The replacement list after `__equalizing_list_length`: repeated when shorter than the targets,
        left as the wrapped list when that raised. */
    static function Equalized(workOn: Value, replaceWith: Value): (r: Value)
      ensures r.List?
    {
      match CyclicPad(AsItems(replaceWith), |AsItems(workOn)|)
      case Ok(padded) => List(padded)
      case Err(_) => List(AsItems(replaceWith))
    }

    /** `at_value`: more replacements than old elements raise UnequalElements, then an absent old
        element raises GotAnUnknownValue, then the repeated replacements are written at the first
        occurrences. */
    static function AtValueSpec(s: seq<Value>, workOn: Value, replaceWith: Value): Outcome
    {
      var w := AsItems(workOn);
      match CyclicPad(AsItems(replaceWith), |w|)
      case Err(e) => Outcome(s, Some(e))
      case Ok(rw) =>
        if !AllPresent(s, w) then Outcome(s, Some(GotAnUnknownValue))
        else ZipWrite(s, FirstIndices(s, w), rw)
    }

    /** `at_value` raises UnequalElements exactly when there are more replacements than old elements, and
        otherwise behaves as the corrected `replace_element` of the utilities: GotAnUnknownValue for an
        absent old element, else old element `k`'s first occurrence receives `new[k mod len(new)]`. */
    static lemma AtValueCorrect(s: seq<Value>, workOn: Value, replaceWith: Value)
      ensures var o, w, rw := AtValueSpec(s, workOn, replaceWith), AsItems(workOn), AsItems(replaceWith);
        && |o.elems| == |s|
        && (o.err == Some(UnequalElements) <==> |rw| > |w|)
        && (|rw| > |w| ==> o.elems == s)
        && (|rw| <= |w| ==> o == EzListUtilities.ReplaceElementIntended(s, workOn, replaceWith))
        && (|rw| <= |w| && AllPresent(s, w) && 0 < |rw| ==>
              && o.err == None
              && forall k :: 0 <= k < |w| && (forall j :: k < j < |w| ==> w[j] != w[k])
                   ==> o.elems[FirstIndex(s, w[k])] == rw[k % |rw|])
    {
      var w, rw := AsItems(workOn), AsItems(replaceWith);
      CyclicPadSpec(rw, |w|);
      EzListUtilities.ReplaceElementIntendedCorrect(s, workOn, replaceWith);
      if |rw| <= |w| && AllPresent(s, w) {
        var o := ZipWrite(s, FirstIndices(s, w), CyclicPad(rw, |w|).value);
        assert o.err == None ==> o.err != Some(UnequalElements);
      }
    }

    /** The three replacement cases of the module's tests: one position, three positions with three
        values, and a single position given three values. */
    static lemma AtIndexExamples(s: seq<Value>)
      requires s == [Int(1), Int(2), Int(3), Int(4), Int(5)]
      ensures EzListUtilities.ReplaceAtIndexSpec(s, Int(0), Int(10))
        == Outcome([Int(10), Int(2), Int(3), Int(4), Int(5)], None)
      ensures EzListUtilities.ReplaceAtIndexSpec(s, List([Int(0), Int(2), Int(3)]), List([Int(10), Int(10), Int(10)]))
        == Outcome([Int(10), Int(2), Int(10), Int(10), Int(5)], None)
      ensures EzListUtilities.ReplaceAtIndexSpec(s, Int(0), List([Int(10), Int(10), Int(10)])).err == Some(UnequalElements)
    {
      var ten := Int(10);
      assert ZipWrite(s, [Int(0)], [ten]) == ZipWrite(s[0 := ten], [], []);
      var idx := [Int(0), Int(2), Int(3)];
      assert ZipWrite(s, idx, [ten, ten, ten]) == ZipWrite(s[0 := ten], idx[1..], [ten, ten]);
      assert ZipWrite(s[0 := ten], idx[1..], [ten, ten]) == ZipWrite(s[0 := ten][2 := ten], idx[2..], [ten]);
      assert ZipWrite(s[0 := ten][2 := ten], idx[2..], [ten]) == ZipWrite(s[0 := ten][2 := ten][3 := ten], [], []);
    }

    /** The value-replacement case of the module's tests: `[2, 3]` replaced by `[10, 12]` in
        `[1, 2, 3, 4, 5]` gives `[1, 10, 12, 4, 5]`. */
    static lemma AtValueExample(s: seq<Value>)
      requires s == [Int(1), Int(2), Int(3), Int(4), Int(5)]
      ensures AtValueSpec(s, List([Int(2), Int(3)]), List([Int(10), Int(12)]))
        == Outcome([Int(1), Int(10), Int(12), Int(4), Int(5)], None)
    {
      var w := [Int(2), Int(3)];
      assert AllPresent(s, w) by {
        assert s[1] == w[0] && s[2] == w[1];
      }
      assert FirstIndex(s, Int(2)) == 1;
      assert FirstIndex(s, Int(3)) == 2;
      var idx := FirstIndices(s, w);
      assert idx == [Int(1), Int(2)];
      ZipWriteTwo(s, 1, 2, Int(10), Int(12));
      var rw := [Int(10), Int(12)];
      assert CyclicPad(rw, |w|) == Ok(rw);
      assert s[1 := Int(10)][2 := Int(12)] == [Int(1), Int(10), Int(12), Int(4), Int(5)];
    }

    /** `__convert_inputs_to_lists` followed by `__equalizing_list_length`, both rebinding the fields. */
    method Prepare() returns (err: Option<Error>)
      modifies this
      ensures workOn == List(AsItems(old(workOn))) && replaceWith == Equalized(old(workOn), old(replaceWith))
      ensures err == None <==> CyclicPad(AsItems(old(replaceWith)), |AsItems(old(workOn))|).Ok?
      ensures err.Some? ==> err == Some(CyclicPad(AsItems(old(replaceWith)), |AsItems(old(workOn))|).error)
      ensures inputList == old(inputList) && mode == old(mode)
    {
      workOn := List(AsItems(workOn));
      replaceWith := List(AsItems(replaceWith));
      var w, rw := workOn.items, replaceWith.items;
      if |rw| > |w| {
        return Some(UnequalElements);
      } else if |rw| < |w| {
        replaceWith := List(Repeat(rw, |w| - |rw| + 1));
      }
      return None;
    }

    method AtIndex() returns (r: Result<PyList>)
      modifies this, inputList
      ensures workOn == List(AsItems(old(workOn))) && replaceWith == Equalized(old(workOn), old(replaceWith))
      ensures inputList == old(inputList) && mode == old(mode)
      ensures var o := EzListUtilities.ReplaceAtIndexSpec(old(inputList.elems), old(workOn), old(replaceWith));
        && inputList.elems == o.elems
        && (r.Err? <==> o.err.Some?)
        && (r.Err? ==> o.err == Some(r.error))
        && (r.Ok? ==> r.value == inputList)
    {
      var err := Prepare();
      if err.Some? {
        return Err(err.value);
      }
      var w, rw := workOn.items, replaceWith.items;
      var bad := CheckNotAbove(w, |inputList.elems|);
      if bad.Some? {
        return Err(bad.value);
      }
      err := WriteZipped(inputList, w, rw);
      if err.Some? {
        return Err(err.value);
      }
      return Ok(inputList);
    }

    method AtValue() returns (r: Result<PyList>)
      modifies this, inputList
      ensures workOn == List(AsItems(old(workOn))) && replaceWith == Equalized(old(workOn), old(replaceWith))
      ensures inputList == old(inputList) && mode == old(mode)
      ensures var o := AtValueSpec(old(inputList.elems), old(workOn), old(replaceWith));
        && inputList.elems == o.elems
        && (r.Err? <==> o.err.Some?)
        && (r.Err? ==> o.err == Some(r.error))
        && (r.Ok? ==> r.value == inputList)
    {
      var err := Prepare();
      if err.Some? {
        return Err(err.value);
      }
      var w, rw := workOn.items, replaceWith.items;
      if !AllPresent(inputList.elems, w) {
        return Err(GotAnUnknownValue);
      }
      var index := FirstIndices(inputList.elems, w);
      ZipWriteSuccess(inputList.elems, index, rw);
      err := WriteZipped(inputList, index, rw);
      return Ok(inputList);
    }
  }
}
