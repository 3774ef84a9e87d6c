/** The earlier list module ezPy/ez_list.py, whose `join_lists` keeps list elements as they are and
    sorts without a fallback. */
module OldEzPyList {
  import opened Py
  import Joining

  /** `join_lists`: the `extend` loop, then the optional de-duplication and `sorted()`. */
  method JoinLists(lists: seq<Value>, getUnique: bool, sort: bool) returns (r: Result<seq<Value>>)
    ensures r == Joining.JoinListsUnconverted(lists, getUnique, sort)
  {
    var temp := Joining.ExtendAll(lists);
    if temp.Err? {
      return temp;
    }
    r := temp;
    if getUnique {
      r := Joining.HashedUnique(temp.value);
      if r.Err? {
        return r;
      }
    }
    if sort {
      r := Joining.PySorted(r.value);
    }
  }
}
