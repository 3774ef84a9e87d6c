/** The list helpers of src/mpyez/ezList.py; src/mpyez/list_.py holds the same `join_lists`,
    `get_object_count`, `sort_`, `remove_`, `move_element_in_list`, `difference_between_lists` and
    `index_`, so both files are modelled here. */
module EzList {
  import opened Py
  import opened Replacement
  import opened Order
  import Sorting
  import Seqs
  import Joining
  import UList

  /** `join_lists`: `list(chain([], *input_lists))`, the loop turning list elements into tuples, then the
      optional de-duplication and sort. */
  method JoinLists(lists: seq<Value>, getUnique: bool, sort: bool, typeOrder: seq<nat>) returns (r: Result<seq<Value>>)
    ensures r == Joining.JoinListsSpec(lists, getUnique, sort, typeOrder)
  {
    var joined := Joining.Chain(lists);
    if joined.Err? {
      return joined;
    }
    var outList := Joining.ConvertLists(joined.value);
    if getUnique {
      var u := Joining.HashedUnique(outList);
      if u.Err? {
        return u;
      }
      outList := u.value;
    }
    if sort {
      return Joining.SortOrFallback(outList, typeOrder);
    }
    return Ok(outList);
  }

  /** `dict(Counter(input_list))`, the non-tabular path of `get_object_count`: TypeError on an unhashable
      element, otherwise each distinct element with its number of occurrences, in first-occurrence order. */
  function ObjectCount(s: seq<Value>): (r: Result<seq<(Value, nat)>>)
    ensures r.Ok? <==> forall k :: 0 <= k < |s| ==> Joining.Hashable(s[k])
  {
    if forall k :: 0 <= k < |s| ==> Joining.Hashable(s[k]) then Ok(Seqs.Counter(s)) else Err(TypeError)
  }

  /** The keys are the distinct elements in first-occurrence order, each count is the element's number
      of occurrences, and the counts add up to the length of the list. */
  lemma ObjectCountSpec(s: seq<Value>)
    requires ObjectCount(s).Ok?
    ensures var c := ObjectCount(s).value;
      && Seqs.Keys(c) == Seqs.Unique(s)
      && (forall i :: 0 <= i < |c| ==> c[i].1 == multiset(s)[c[i].0])
      && Seqs.CountSum(c) == |s|
  {
    Seqs.CounterSpec(s);
  }

  /** `index_`: an int is looked up once, anything else is iterated and each item looked up; an absent
      value raises ValueError. */
  function IndexOf(s: seq<Value>, it: Value): (r: Result<Value>)
    ensures it.Int? ==> (r.Ok? <==> it in s)
    ensures it.Int? && r.Ok? ==>
      && r.value.Int? && 0 <= r.value.i < |s| && s[r.value.i] == it
      && forall j :: 0 <= j < r.value.i ==> s[j] != it
    ensures !it.Int? ==> var items := Joining.Iterate(it).value;
      && (r.Ok? <==> forall k :: 0 <= k < |items| ==> items[k] in s)
      && (r.Ok? ==> r.value.List? && |r.value.items| == |items|)
      && (r.Ok? ==> forall k :: 0 <= k < |items| ==>
            && r.value.items[k].Int? && 0 <= r.value.items[k].i < |s| && s[r.value.items[k].i] == items[k]
            && forall j :: 0 <= j < r.value.items[k].i ==> s[j] != items[k])
  {
    if it.Int? then
      if it in s then Ok(Int(FirstIndex(s, it))) else Err(ValueError)
    else
      var items := Joining.Iterate(it).value;
      if AllPresent(s, items) then Ok(List(FirstIndices(s, items))) else Err(ValueError)
  }

  /** The list without the element at position `p`. */
  function Delete(s: seq<Value>, p: nat): (r: seq<Value>)
    requires p < |s|
    ensures |r| == |s| - 1
  {
    s[..p] + s[p + 1..]
  }

  /** `remove_` on the list's elements: a tuple, string or list value is looked up and its first
      occurrence deleted (ValueError when absent); an int is a position for `pop` (IndexError outside
      `[-n, n)`). */
  function RemoveSpec(s: seq<Value>, v: Value): Result<seq<Value>>
  {
    if !v.Int? then
      if v in s then Ok(Delete(s, FirstIndex(s, v))) else Err(ValueError)
    else if InBounds(v.i, |s|) then Ok(Delete(s, Normalize(v.i, |s|)))
    else Err(IndexError)
  }

  /** The position `remove_` deletes from, when it succeeds. */
  function RemovedAt(s: seq<Value>, v: Value): (p: nat)
    requires RemoveSpec(s, v).Ok?
    ensures p < |s|
  {
    if v.Int? then Normalize(v.i, |s|) else FirstIndex(s, v)
  }

  /** `remove_` succeeds exactly on a present value or an in-range position; it then removes one
      element, the first occurrence of the value (or the element at the position), and putting that
      element back where it was gives the original list. */
  lemma RemoveCorrect(s: seq<Value>, v: Value)
    ensures RemoveSpec(s, v).Ok? <==> if v.Int? then InBounds(v.i, |s|) else v in s
    ensures RemoveSpec(s, v).Err? ==> RemoveSpec(s, v).error == if v.Int? then IndexError else ValueError
    ensures RemoveSpec(s, v).Ok? ==> var t, p := RemoveSpec(s, v).value, RemovedAt(s, v);
      && |t| == |s| - 1
      && t[..p] + [s[p]] + t[p..] == s
      && multiset(t) + multiset{s[p]} == multiset(s)
      && (!v.Int? ==> s[p] == v && v !in t[..p])
      && (v.Int? && 0 <= v.i ==> p == v.i)
      && (v.Int? && v.i < 0 ==> p == v.i + |s|)
  {
    if RemoveSpec(s, v).Ok? {
      var p := RemovedAt(s, v);
      assert RemoveSpec(s, v).value == Delete(s, p);
      DeleteRestore(s, p);
      if !v.Int? {
        assert s[p] == v && forall j :: 0 <= j < p ==> s[j] != v;
      }
    }
  }

  /** Deleting position `p` keeps the elements before it, and putting the element back restores the list
      and its elements. */
  lemma DeleteRestore(s: seq<Value>, p: nat)
    requires p < |s|
    ensures var t := Delete(s, p);
      && t[..p] == s[..p]
      && t[..p] + [s[p]] + t[p..] == s
      && multiset(t) + multiset{s[p]} == multiset(s)
  {
    var t := Delete(s, p);
    DeleteMultiset(s, p);
    assert t[..p] == s[..p] && t[p..] == s[p + 1..];
    assert s == s[..p] + [s[p]] + s[p + 1..];
  }

  /** The function `remove_` on a list object; with `getNewList` the deletion happens in a copy. */
  method Remove(input: PyList, v: Value, getNewList: bool) returns (r: Result<PyList>)
    modifies input
    ensures var o := RemoveSpec(old(input.elems), v);
      && (r.Ok? <==> o.Ok?)
      && (r.Err? ==> r.error == o.error && unchanged(input))
      && (r.Ok? ==> r.value.elems == o.value)
      && (getNewList ==> unchanged(input))
      && (r.Ok? && getNewList ==> fresh(r.value))
      && (r.Ok? && !getNewList ==> r.value == input)
  {
    var modified := input;
    if getNewList {
      modified := new PyList(input.elems);
    }
    if !v.Int? {
      if v !in modified.elems {
        return Err(ValueError);
      }
      var ind := FirstIndex(modified.elems, v);
      modified.elems := Delete(modified.elems, ind);
    } else {
      if !InBounds(v.i, |modified.elems|) {
        return Err(IndexError);
      }
      modified.elems := Delete(modified.elems, Normalize(v.i, |modified.elems|));
    }
    return Ok(modified);
  }

  /** `list.insert(i, x)`: the position is clamped to `[0, n]` after adding `n` to a negative one. */
  function InsertAt(s: seq<Value>, i: int, x: Value): (r: seq<Value>)
    ensures |r| == |s| + 1
  {
    var q := SliceBound(Some(i), |s|, 0);
    s[..q] + [x] + s[q..]
  }

  /** `move_element_in_list` on the list's elements: `pop(old)` first (TypeError for a non-int,
      IndexError out of range, the list untouched), then `insert(new, x)`, which raises TypeError for
      a non-int after the element was already removed. */
  function MoveSpec(s: seq<Value>, oldPos: Value, newPos: Value): Outcome
  {
    if !oldPos.Int? then Outcome(s, Some(TypeError))
    else if !InBounds(oldPos.i, |s|) then Outcome(s, Some(IndexError))
    else
      var p := Normalize(oldPos.i, |s|);
      var t := Delete(s, p);
      if !newPos.Int? then Outcome(t, Some(TypeError))
      else Outcome(InsertAt(t, newPos.i, s[p]), None)
  }

  /** Where `move_element_in_list` puts the moved element: `new` clamped against the list without it. */
  function MovedTo(n: nat, newPos: int): nat
    requires n > 0
  {
    SliceBound(Some(newPos), n - 1, 0)
  }

  /** Deleting position `p` loses exactly the element there. */
  lemma DeleteMultiset(s: seq<Value>, p: nat)
    requires p < |s|
    ensures multiset(Delete(s, p)) + multiset{s[p]} == multiset(s)
  {
    assert s == s[..p] + [s[p]] + s[p + 1..];
  }

  /** Inserting adds exactly the inserted element, at the clamped position. */
  lemma InsertAtSpec(t: seq<Value>, i: int, x: Value)
    ensures var q := SliceBound(Some(i), |t|, 0);
      && multiset(InsertAt(t, i, x)) == multiset(t) + multiset{x}
      && InsertAt(t, i, x)[q] == x
      && Delete(InsertAt(t, i, x), q) == t
  {
    var q := SliceBound(Some(i), |t|, 0);
    InsertAtElements(t, q, x);
    InsertAtDelete(t, q, x);
  }

  lemma InsertAtElements(t: seq<Value>, q: nat, x: Value)
    requires q <= |t|
    ensures multiset(t[..q] + [x] + t[q..]) == multiset(t) + multiset{x}
  {
    assert t == t[..q] + t[q..];
  }

  lemma InsertAtDelete(t: seq<Value>, q: nat, x: Value)
    requires q <= |t|
    ensures var u := t[..q] + [x] + t[q..]; u[q] == x && Delete(u, q) == t
  {
    var u := t[..q] + [x] + t[q..];
    assert u[..q] == t[..q] && u[q + 1..] == t[q..];
    assert t == t[..q] + t[q..];
  }

  /** Putting a deleted element back at its own position restores the list. */
  lemma DeleteInsert(s: seq<Value>, p: nat)
    requires p < |s|
    ensures InsertAt(Delete(s, p), p, s[p]) == s
  {
    assert SliceBound(Some(p as int), |s| - 1, 0) == p;
    assert s == s[..p] + [s[p]] + s[p + 1..];
  }

  /** A move between int positions keeps the length and the elements and puts the element from `old`
      at the clamped `new`: at `new` itself whenever `0 <= new < n`, one short of `new + n` for a
      negative `new`. */
  lemma MoveCorrect(s: seq<Value>, oldPos: int, newPos: int)
    requires InBounds(oldPos, |s|)
    ensures var o, p, q := MoveSpec(s, Int(oldPos), Int(newPos)), Normalize(oldPos, |s|), MovedTo(|s|, newPos);
      && o.err == None
      && |o.elems| == |s|
      && multiset(o.elems) == multiset(s)
      && q < |s| && o.elems[q] == s[p]
      && (0 <= newPos < |s| ==> q == newPos)
      && (newPos < 0 ==> q == if newPos + |s| - 1 < 0 then 0 else newPos + |s| - 1)
  {
    var p := Normalize(oldPos, |s|);
    var t := Delete(s, p);
    DeleteMultiset(s, p);
    InsertAtSpec(t, newPos, s[p]);
  }

  /** Moving the element back from where it landed to where it came from restores the list. */
  lemma MoveRoundTrip(s: seq<Value>, oldPos: int, newPos: int)
    requires InBounds(oldPos, |s|)
    ensures var p, q := Normalize(oldPos, |s|), MovedTo(|s|, newPos);
      MoveSpec(MoveSpec(s, Int(oldPos), Int(newPos)).elems, Int(q), Int(p)) == Outcome(s, None)
  {
    var p, q := Normalize(oldPos, |s|), MovedTo(|s|, newPos);
    var t := Delete(s, p);
    var u := InsertAt(t, newPos, s[p]);
    assert MoveSpec(s, Int(oldPos), Int(newPos)).elems == u;
    InsertAtSpec(t, newPos, s[p]);
    assert Normalize(q, |u|) == q;
    DeleteInsert(s, p);
  }

  /** The two failure modes of a move: a bad source position leaves the list as it was, a non-int
      destination leaves it one element short. */
  lemma MoveErrors(s: seq<Value>, oldPos: Value, newPos: Value)
    ensures var o := MoveSpec(s, oldPos, newPos);
      && (o.err.Some? <==> !oldPos.Int? || !InBounds(oldPos.i, |s|) || !newPos.Int?)
      && (!oldPos.Int? || !InBounds(oldPos.i, |s|) ==> o.elems == s && o.err.Some?)
      && (oldPos.Int? && InBounds(oldPos.i, |s|) && !newPos.Int? ==>
            && o.err == Some(TypeError)
            && |o.elems| == |s| - 1
            && multiset(o.elems) + multiset{s[Normalize(oldPos.i, |s|)]} == multiset(s))
  {
    if oldPos.Int? && InBounds(oldPos.i, |s|) {
      var p := Normalize(oldPos.i, |s|);
      assert s == s[..p] + [s[p]] + s[p + 1..];
    }
  }

  /** A negative destination counts from the end of the shortened list: moving the first of three
      elements to `-1` makes it the middle one, not the last. */
  lemma MoveNegativeExample(s: seq<Value>)
    requires s == [Int(1), Int(2), Int(3)]
    ensures MoveSpec(s, Int(0), Int(-1)) == Outcome([Int(2), Int(1), Int(3)], None)
  {
    assert Delete(s, 0) == [Int(2), Int(3)];
  }

  /** The function `move_element_in_list` on a list object; with `getNewList` the move happens in a copy. */
  method MoveElement(input: PyList, oldPos: Value, newPos: Value, getNewList: bool) returns (r: Result<PyList>)
    modifies input
    ensures var o := MoveSpec(old(input.elems), oldPos, newPos);
      && (r.Err? <==> o.err.Some?)
      && (r.Err? ==> o.err == Some(r.error))
      && (!getNewList ==> input.elems == o.elems)
      && (getNewList ==> unchanged(input))
      && (r.Ok? ==> r.value.elems == o.elems)
      && (r.Ok? && getNewList ==> fresh(r.value))
      && (r.Ok? && !getNewList ==> r.value == input)
  {
    var temp := input;
    if getNewList {
      temp := new PyList(input.elems);
    }
    if !oldPos.Int? {
      return Err(TypeError);
    }
    if !InBounds(oldPos.i, |temp.elems|) {
      return Err(IndexError);
    }
    var p := Normalize(oldPos.i, |temp.elems|);
    var x := temp.elems[p];
    temp.elems := Delete(temp.elems, p);
    if !newPos.Int? {
      return Err(TypeError);
    }
    temp.elems := InsertAt(temp.elems, newPos.i, x);
    return Ok(temp);
  }

  /** `zip(input_list, range(len(input_list)))`. */
  function Enumerate(s: seq<Value>): (r: seq<(Value, nat)>)
    ensures |r| == |s| && forall k :: 0 <= k < |s| ==> r[k] == (s[k], k)
  {
    seq(|s|, k requires 0 <= k < |s| => (s[k], k))
  }

  /** Python's order on `(value, index)` tuples: by value, then by index. */
  predicate PairLe(a: (Value, nat), b: (Value, nat))
  {
    ValueLe(a.0, b.0) && (a.0 == b.0 ==> a.1 <= b.1)
  }

  lemma PairLeIsOrder()
    ensures Sorting.TotalPreorder(PairLe) && Sorting.Antisymmetric(PairLe)
  {
    ValueLeIsOrder();
    forall a: (Value, nat), b: (Value, nat) ensures PairLe(a, b) || PairLe(b, a) {
      assert ValueLe(a.0, b.0) || ValueLe(b.0, a.0);
    }
    forall a: (Value, nat), b: (Value, nat), c: (Value, nat) | PairLe(a, b) && PairLe(b, c)
      ensures PairLe(a, c)
    {
      assert ValueLe(a.0, c.0);
      if a.0 == c.0 {
        assert ValueLe(b.0, a.0);
        assert a.0 == b.0;
      }
    }
  }

  function PairValue(p: (Value, nat)): Value
  {
    p.0
  }

  function PairIndex(p: (Value, nat)): Value
  {
    Int(p.1)
  }

  /** `list(range(n))` as values. */
  function Range(n: nat): (r: seq<Value>)
    ensures |r| == n && forall k :: 0 <= k < n ==> r[k] == Int(k)
  {
    seq(n, k requires 0 <= k < n => Int(k))
  }

  /** `sort_` with `get_sorting_indices`: `zip(*sorted(zip(input, range(n))))` as two lists (nothing at
      all for an empty input), both reversed for descending order; TypeError when two elements cannot be
      compared. */
  function SortWithIndices(s: seq<Value>, ascending: bool): (r: Result<seq<seq<Value>>>)
    ensures r.Ok? <==> AllComparable(s)
    ensures r.Ok? ==> |r.value| == if s == [] then 0 else 2
  {
    if !AllComparable(s) then Err(TypeError)
    else if s == [] then Ok([])
    else
      var t := Sorting.Sort(Enumerate(s), PairLe);
      var vals, idx := Seqs.Map(PairValue, t), Seqs.Map(PairIndex, t);
      if ascending then Ok([vals, idx]) else Ok([Sorting.Reverse(vals), Sorting.Reverse(idx)])
  }

  /** In ascending order the values are exactly `sorted(input)`, the indices are a permutation of
      `0..n-1`, index `k` points at value `k` in the input, and equal values keep their input order. */
  lemma SortWithIndicesAscending(s: seq<Value>)
    requires AllComparable(s) && s != []
    ensures var r := SortWithIndices(s, true).value;
      && |r[0]| == |r[1]| == |s|
      && Joining.PySorted(s) == Ok(r[0])
      && multiset(r[1]) == multiset(Range(|s|))
      && (forall k :: 0 <= k < |s| ==> r[1][k].Int? && 0 <= r[1][k].i < |s| && s[r[1][k].i] == r[0][k])
      && (forall i, j :: 0 <= i < j < |s| && r[0][i] == r[0][j] ==> r[1][i].i <= r[1][j].i)
  {
    var e := Enumerate(s);
    var t := Sorting.Sort(e, PairLe);
    var vals, idx := Seqs.Map(PairValue, t), Seqs.Map(PairIndex, t);
    PairLeIsOrder();
    Sorting.SortSorted(e, PairLe);
    Seqs.MapPermutation(PairValue, t, e);
    Seqs.MapPermutation(PairIndex, t, e);
    assert Seqs.Map(PairValue, e) == s;
    assert Seqs.Map(PairIndex, e) == Range(|s|);
    SortedPairsPoint(s, t);
    SortedPairsValues(t);
    Joining.PySortedUnique(s, vals);
    SortedPairsStable(t);
  }

  /** Each sorted `(value, index)` pair still names a position of the input holding its value. */
  lemma SortedPairsPoint(s: seq<Value>, t: seq<(Value, nat)>)
    requires multiset(t) == multiset(Enumerate(s))
    ensures forall k :: 0 <= k < |t| ==> t[k].1 < |s| && s[t[k].1] == t[k].0
  {
    var e := Enumerate(s);
    forall k | 0 <= k < |t|
      ensures t[k].1 < |s| && s[t[k].1] == t[k].0
    {
      assert t[k] in multiset(e);
      var m :| 0 <= m < |e| && e[m] == t[k];
    }
  }

  /** Pairs sorted by `(value, index)` have their values in ascending order. */
  lemma SortedPairsValues(t: seq<(Value, nat)>)
    requires Sorting.Sorted(t, PairLe)
    ensures Sorting.Sorted(Seqs.Map(PairValue, t), ValueLe)
  {
    var vals := Seqs.Map(PairValue, t);
    forall i, j | 0 <= i < j < |vals| ensures ValueLe(vals[i], vals[j]) {
      assert PairLe(t[i], t[j]);
    }
  }

  /** Pairs sorted by `(value, index)` keep equal values in index order. */
  lemma SortedPairsStable(t: seq<(Value, nat)>)
    requires Sorting.Sorted(t, PairLe)
    ensures forall i, j :: 0 <= i < j < |t| && t[i].0 == t[j].0 ==> t[i].1 <= t[j].1
  {
    forall i, j | 0 <= i < j < |t| && t[i].0 == t[j].0 ensures t[i].1 <= t[j].1 {
      assert PairLe(t[i], t[j]);
    }
  }

  /** Reversing both lists keeps every index pointing at its value. */
  lemma ReversePointing(s: seq<Value>, vals: seq<Value>, idx: seq<Value>)
    requires |vals| == |idx|
    requires forall k :: 0 <= k < |idx| ==> idx[k].Int? && 0 <= idx[k].i < |s| && s[idx[k].i] == vals[k]
    ensures var rv, ri := Sorting.Reverse(vals), Sorting.Reverse(idx);
      forall k :: 0 <= k < |ri| ==> ri[k].Int? && 0 <= ri[k].i < |s| && s[ri[k].i] == rv[k]
  {
  }

  /** Reversing an ascending list gives a descending one. */
  lemma ReverseDescending(vals: seq<Value>)
    requires Sorting.Sorted(vals, ValueLe)
    ensures forall i, j :: 0 <= i < j < |vals| ==> ValueLe(Sorting.Reverse(vals)[j], Sorting.Reverse(vals)[i])
  {
    forall i, j | 0 <= i < j < |vals| ensures ValueLe(Sorting.Reverse(vals)[j], Sorting.Reverse(vals)[i]) {
      assert Sorting.Reverse(vals)[j] == vals[|vals| - 1 - j];
    }
  }

  /** Descending order is the ascending result with both lists reversed: the values then run from
      largest to smallest and each index still points at its value. */
  lemma SortWithIndicesDescending(s: seq<Value>)
    requires AllComparable(s) && s != []
    ensures var up, down := SortWithIndices(s, true).value, SortWithIndices(s, false).value;
      && down[0] == Sorting.Reverse(up[0]) && down[1] == Sorting.Reverse(up[1])
      && (forall i, j :: 0 <= i < j < |s| ==> ValueLe(down[0][j], down[0][i]))
      && (forall k :: 0 <= k < |s| ==> down[1][k].Int? && 0 <= down[1][k].i < |s| && s[down[1][k].i] == down[0][k])
  {
    var t := Sorting.Sort(Enumerate(s), PairLe);
    var vals, idx := Seqs.Map(PairValue, t), Seqs.Map(PairIndex, t);
    assert SortWithIndices(s, true).value == [vals, idx];
    assert SortWithIndices(s, false).value == [Sorting.Reverse(vals), Sorting.Reverse(idx)];
    SortWithIndicesAscending(s);
    Joining.PySortedSpec(s);
    ReverseDescending(vals);
    ReversePointing(s, vals, idx);
  }

  /** `sort_` without indices: `sorted(input, reverse=not ascending_order)`. Elements the order ties are
      equal values, so the descending result is the ascending one reversed. */
  function SortValues(s: seq<Value>, ascending: bool): (r: Result<seq<Value>>)
    ensures r.Ok? <==> AllComparable(s)
  {
    match Joining.PySorted(s)
    case Err(e) => Err(e)
    case Ok(up) => if ascending then Ok(up) else Ok(Sorting.Reverse(up))
  }

  /** The sorted values hold the input's elements in ascending or descending order, and they are the
      values the index-returning variant reports. */
  lemma SortValuesSpec(s: seq<Value>, ascending: bool)
    requires AllComparable(s)
    ensures var r := SortValues(s, ascending).value;
      && multiset(r) == multiset(s)
      && (forall i, j :: 0 <= i < j < |r| ==> if ascending then ValueLe(r[i], r[j]) else ValueLe(r[j], r[i]))
      && (s != [] ==> r == SortWithIndices(s, ascending).value[0])
  {
    Joining.PySortedSpec(s);
    SortValuesOrdered(s, ascending);
    if s != [] {
      SortValuesAgree(s, ascending);
    }
  }

  lemma SortValuesOrdered(s: seq<Value>, ascending: bool)
    requires AllComparable(s)
    ensures var r := SortValues(s, ascending).value;
      forall i, j :: 0 <= i < j < |r| ==> if ascending then ValueLe(r[i], r[j]) else ValueLe(r[j], r[i])
  {
    Joining.PySortedSpec(s);
    var up := Joining.PySorted(s).value;
    if ascending {
      assert SortValues(s, ascending).value == up;
    } else {
      assert SortValues(s, ascending).value == Sorting.Reverse(up);
      ReverseDescending(up);
    }
  }

  lemma SortValuesAgree(s: seq<Value>, ascending: bool)
    requires AllComparable(s) && s != []
    ensures SortValues(s, ascending).value == SortWithIndices(s, ascending).value[0]
  {
    SortWithIndicesAscending(s);
    if !ascending {
      SortWithIndicesDescending(s);
    }
  }

  /** `replace_at_index`: the `Replace` class of src/mpyez/backend/uList.py with `by='index'`. */
  method ReplaceAtIndex(input: PyList, workOn: Value, replaceWith: Value, newList: bool) returns (r: Result<PyList>)
    modifies input
    ensures var o := UList.Replace.AtIndexSpec(old(input.elems), "index", workOn, replaceWith);
      && (r.Err? <==> o.err.Some?)
      && (r.Err? ==> o.err == Some(r.error))
      && (!newList ==> input.elems == o.elems)
      && (newList ==> unchanged(input))
      && (r.Ok? ==> r.value.elems == o.elems)
      && (r.Ok? && newList ==> fresh(r.value))
      && (r.Ok? && !newList ==> r.value == input)
  {
    var rep := new UList.Replace(input, workOn, replaceWith, newList, "index");
    r := rep.AtIndex();
  }

  /** `replace_with_value`: the same class with `by='value'`. */
  method ReplaceWithValue(input: PyList, workOn: Value, replaceWith: Value, newList: bool) returns (r: Result<PyList>)
    modifies input
    ensures var o := UList.Replace.AtValueSpec(old(input.elems), "value", workOn, replaceWith);
      && (r.Err? <==> o.err.Some?)
      && (r.Err? ==> o.err == Some(r.error))
      && (!newList ==> input.elems == o.elems)
      && (newList ==> unchanged(input))
      && (r.Ok? ==> r.value.elems == o.elems)
      && (r.Ok? && newList ==> fresh(r.value))
      && (r.Ok? && !newList ==> r.value == input)
  {
    var rep := new UList.Replace(input, workOn, replaceWith, newList, "value");
    r := rep.AtValue();
  }
}
