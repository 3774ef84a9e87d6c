/** `join_lists` in its three revisions: the inputs are iterated one after the other, list elements
    may be turned into tuples, `get_unique` keeps first occurrences (hashing every element) and `sort`
    calls `sorted()`, falling back to sorting each kind of element on its own when that raises. */
module Joining {
  import opened Py
  import opened Order
  import Sorting
  import Seqs

  /** `iter(v)`: lists and tuples yield their items, a string its one-character strings, and an
      integer is not iterable. */
  function Iterate(v: Value): (r: Result<seq<Value>>)
    ensures r.Ok? <==> !v.Int?
  {
    match v
    case Int(_) => Err(TypeError)
    case Str(s) => Ok(seq(|s|, k requires 0 <= k < |s| => Str([s[k]])))
    case Tuple(items) => Ok(items)
    case List(items) => Ok(items)
  }

  /** The elements the inputs yield, input by input (`chain([], *lists)`, or `extend` in a loop);
      TypeError as soon as an input is not iterable. */
  function Chain(lists: seq<Value>): (r: Result<seq<Value>>)
    ensures r.Ok? <==> forall k :: 0 <= k < |lists| ==> !lists[k].Int?
  {
    if lists == [] then Ok([])
    else
      var front, last := Chain(lists[..|lists| - 1]), Iterate(lists[|lists| - 1]);
      if front.Err? then front
      else if last.Err? then last
      else Ok(front.value + last.value)
  }

  function ItemsOf(lists: seq<Value>): (r: seq<seq<Value>>)
    requires forall k :: 0 <= k < |lists| ==> lists[k].List? || lists[k].Tuple?
    ensures |r| == |lists|
  {
    seq(|lists|, k requires 0 <= k < |lists| => lists[k].items)
  }

  /** On lists and tuples, joining is flattening: their items one after the other, in order. */
  lemma {:induction false} ChainOfLists(lists: seq<Value>)
    requires forall k :: 0 <= k < |lists| ==> lists[k].List? || lists[k].Tuple?
    ensures Chain(lists) == Ok(Seqs.Flatten(ItemsOf(lists)))
  {
    if lists != [] {
      var p, x := lists[..|lists| - 1], lists[|lists| - 1];
      ChainOfLists(p);
      assert lists[..|lists| - 1] == p;
      assert Chain(lists) == Ok(Chain(p).value + x.items);
      assert ItemsOf(lists) == ItemsOf(p) + [x.items];
      Seqs.FlattenAppend(ItemsOf(p), [x.items]);
      assert Seqs.Flatten([x.items]) == x.items + Seqs.Flatten([x.items][1..]);
      assert [x.items][1..] == [];
      assert Seqs.Flatten(ItemsOf(lists)) == Seqs.Flatten(ItemsOf(p)) + x.items;
      assert Chain(p) == Ok(Seqs.Flatten(ItemsOf(p)));
    }
  }

  /** `tuple(v)` for a list element; any other element is kept. */
  function Freeze(v: Value): (r: Value)
    ensures !r.List?
  {
    if v.List? then Tuple(v.items) else v
  }

  function ListsToTuples(s: seq<Value>): (r: seq<Value>)
    ensures |r| == |s|
    ensures forall k :: 0 <= k < |s| ==> !r[k].List?
  {
    seq(|s|, k requires 0 <= k < |s| => Freeze(s[k]))
  }

  /** The mask loop: each list element, visited by increasing position, is replaced by the tuple of its
      items; nothing else changes. */
  method ConvertLists(s: seq<Value>) returns (t: seq<Value>)
    ensures |t| == |s|
    ensures forall k :: 0 <= k < |s| ==> (if s[k].List? then t[k] == Tuple(s[k].items) else t[k] == s[k])
    ensures t == ListsToTuples(s)
  {
    t := s;
    var p := 0;
    while p < |t|
      invariant 0 <= p <= |t| == |s|
      invariant forall k :: 0 <= k < p ==> t[k] == Freeze(s[k])
      invariant t[p..] == s[p..]
    {
      assert t[p] == s[p..][0];
      if t[p].List? {
        t := t[p := Tuple(t[p].items)];
      }
      p := p + 1;
    }
  }

  /** The `extend` loop: `_temp` grows by what each input yields. */
  method ExtendAll(lists: seq<Value>) returns (r: Result<seq<Value>>)
    ensures r == Chain(lists)
  {
    var temp: seq<Value> := [];
    var k := 0;
    while k < |lists|
      invariant 0 <= k <= |lists|
      invariant Chain(lists[..k]) == Ok(temp)
    {
      assert lists[..k + 1][..k] == lists[..k];
      var items := Iterate(lists[k]);
      if items.Err? {
        ChainErrIsType(lists);
        return items;
      }
      temp := temp + items.value;
      k := k + 1;
    }
    assert lists[..k] == lists;
    return Ok(temp);
  }

  /** A failed join fails with TypeError. */
  lemma {:induction false} ChainErrIsType(lists: seq<Value>)
    ensures Chain(lists).Err? ==> Chain(lists) == Err(TypeError)
  {
    if lists != [] {
      ChainErrIsType(lists[..|lists| - 1]);
    }
  }

  /** Whether `hash(v)` succeeds: lists are unhashable, and so is a tuple holding one. */
  predicate Hashable(v: Value)
  {
    match v
    case Int(_) => true
    case Str(_) => true
    case Tuple(items) => forall x :: x in items ==> Hashable(x)
    case List(_) => false
  }

  /** `[x for x in s if not (x in seen or seen.add(x))]`: TypeError when an element cannot be hashed. */
  function HashedUnique(s: seq<Value>): (r: Result<seq<Value>>)
    ensures r.Ok? <==> forall k :: 0 <= k < |s| ==> Hashable(s[k])
  {
    if forall k :: 0 <= k < |s| ==> Hashable(s[k]) then Ok(Seqs.Unique(s)) else Err(TypeError)
  }

  /** `sorted(s)`: TypeError when two elements cannot be compared. */
  function PySorted(s: seq<Value>): (r: Result<seq<Value>>)
    ensures r.Ok? <==> AllComparable(s)
  {
    if AllComparable(s) then Ok(Sorting.Sort(s, ValueLe)) else Err(TypeError)
  }

  /** `sorted()` succeeds exactly on mutually comparable elements, and its result is then the one
      ascending arrangement of them. */
  lemma PySortedSpec(s: seq<Value>)
    ensures PySorted(s).Ok? ==> Sorting.Sorted(PySorted(s).value, ValueLe) && multiset(PySorted(s).value) == multiset(s)
  {
    if AllComparable(s) {
      ValueLeIsOrder();
      Sorting.SortSorted(s, ValueLe);
    }
  }

  /** Any ascending arrangement of comparable elements is what `sorted()` returns. */
  lemma PySortedUnique(s: seq<Value>, t: seq<Value>)
    requires AllComparable(s) && Sorting.Sorted(t, ValueLe) && multiset(t) == multiset(s)
    ensures PySorted(s) == Ok(t)
  {
    PySortedSpec(s);
    ValueLeIsOrder();
    Sorting.SortedUnique(t, PySorted(s).value, ValueLe);
  }

  /** `[v for v in s if type(v) == t]` for the type of kind `k`. */
  function OfKind(s: seq<Value>, k: nat): seq<Value>
  {
    if s == [] then []
    else (if Kind(s[0]) == k then [s[0]] else []) + OfKind(s[1..], k)
  }

  /** The group of kind `k` holds every element of that kind, as often as `s` does, and nothing else. */
  lemma {:induction false} OfKindCounts(s: seq<Value>, k: nat)
    ensures forall x :: multiset(OfKind(s, k))[x] == if Kind(x) == k then multiset(s)[x] else 0
  {
    if s != [] {
      OfKindCounts(s[1..], k);
      assert s == [s[0]] + s[1..];
    }
  }

  /** The `except TypeError` branch: each kind, in the order `typeOrder` lists them (the iteration
      order of a set of types), has its elements sorted on their own, and the groups are concatenated. */
  function SortGroups(s: seq<Value>, typeOrder: seq<nat>): (r: Result<seq<Value>>)
    ensures r.Ok? <==> forall k :: k in typeOrder ==> AllComparable(OfKind(s, k))
  {
    if typeOrder == [] then Ok([])
    else
      var g, rest := PySorted(OfKind(s, typeOrder[0])), SortGroups(s, typeOrder[1..]);
      assert typeOrder == [typeOrder[0]] + typeOrder[1..];
      if g.Err? then
        assert typeOrder[0] in typeOrder && !AllComparable(OfKind(s, typeOrder[0]));
        g
      else if rest.Err? then
        assert exists k :: k in typeOrder[1..] && !AllComparable(OfKind(s, k));
        rest
      else Ok(g.value + rest.value)
  }

  /** With each kind listed once, the groups hold exactly the elements of the listed kinds. */
  lemma {:induction false} SortGroupsCounts(s: seq<Value>, typeOrder: seq<nat>)
    requires Seqs.NoDuplicates(typeOrder)
    requires SortGroups(s, typeOrder).Ok?
    ensures forall x ::
              multiset(SortGroups(s, typeOrder).value)[x] == if Kind(x) in typeOrder then multiset(s)[x] else 0
  {
    if typeOrder != [] {
      var t, later := typeOrder[0], typeOrder[1..];
      assert Seqs.NoDuplicates(later) by {
        forall i, j | 0 <= i < j < |later| ensures later[i] != later[j] {
          assert later[i] == typeOrder[i + 1] && later[j] == typeOrder[j + 1];
        }
      }
      SortGroupsCounts(s, later);
      PySortedSpec(OfKind(s, t));
      OfKindCounts(s, t);
      forall j | 0 <= j < |later| ensures later[j] != t {
        assert later[j] == typeOrder[j + 1];
      }
      assert typeOrder == [t] + later;
      var g, rest := PySorted(OfKind(s, t)).value, SortGroups(s, later).value;
      assert SortGroups(s, typeOrder).value == g + rest;
      forall x ensures multiset(g + rest)[x] == if Kind(x) in typeOrder then multiset(s)[x] else 0 {
        assert multiset(g + rest)[x] == multiset(g)[x] + multiset(rest)[x];
        assert Kind(x) in typeOrder <==> Kind(x) == t || Kind(x) in later;
      }
    }
  }

  /** When the kinds of `s` are each listed once and every group is comparable, the fallback keeps
      every element, and each kind's elements come out sorted, one kind after the other. */
  lemma SortGroupsSpec(s: seq<Value>, typeOrder: seq<nat>)
    requires Seqs.NoDuplicates(typeOrder)
    requires forall x :: x in s ==> Kind(x) in typeOrder
    requires forall k :: k in typeOrder ==> AllComparable(OfKind(s, k))
    ensures SortGroups(s, typeOrder).Ok?
    ensures multiset(SortGroups(s, typeOrder).value) == multiset(s)
  {
    SortGroupsCounts(s, typeOrder);
    var r := SortGroups(s, typeOrder).value;
    forall x ensures multiset(r)[x] == multiset(s)[x] {
      if Kind(x) !in typeOrder {
        assert x !in s;
      }
    }
  }

  /** `try: sorted(s) except TypeError: <sort each kind>`. */
  function SortOrFallback(s: seq<Value>, typeOrder: seq<nat>): (r: Result<seq<Value>>)
    ensures AllComparable(s) ==> r == PySorted(s)
  {
    if AllComparable(s) then PySorted(s) else SortGroups(s, typeOrder)
  }

  /** Everything `join_lists` of src/mpyez/ezList.py and src/ezPy/ez_list.py does before sorting. */
  function Prepared(lists: seq<Value>, getUnique: bool): Result<seq<Value>>
  {
    match Chain(lists)
    case Err(e) => Err(e)
    case Ok(joined) =>
      var t := ListsToTuples(joined);
      if getUnique then HashedUnique(t) else Ok(t)
  }

  /** `join_lists` of src/mpyez/ezList.py and src/ezPy/ez_list.py. */
  function JoinListsSpec(lists: seq<Value>, getUnique: bool, sort: bool, typeOrder: seq<nat>): Result<seq<Value>>
  {
    var u := Prepared(lists, getUnique);
    if u.Err? || !sort then u else SortOrFallback(u.value, typeOrder)
  }

  /** Without flags the result is the concatenation of the inputs' items with every list element
      replaced by the tuple of its items. */
  lemma JoinListsPlain(lists: seq<Value>, typeOrder: seq<nat>)
    requires forall k :: 0 <= k < |lists| ==> lists[k].List? || lists[k].Tuple?
    ensures var r, flat := JoinListsSpec(lists, false, false, typeOrder), Seqs.Flatten(ItemsOf(lists));
      && r.Ok? && |r.value| == |flat|
      && forall k :: 0 <= k < |flat| ==>
           r.value[k] == (if flat[k].List? then Tuple(flat[k].items) else flat[k])
  {
    ChainOfLists(lists);
  }

  /** With `get_unique` and no sort: TypeError exactly when some element (after the tuple conversion)
      is unhashable; otherwise every element once, in the order of first occurrence. */
  lemma JoinListsUnique(lists: seq<Value>, typeOrder: seq<nat>)
    requires Chain(lists).Ok?
    ensures var r, t := JoinListsSpec(lists, true, false, typeOrder), ListsToTuples(Chain(lists).value);
      && (r.Ok? <==> forall k :: 0 <= k < |t| ==> Hashable(t[k]))
      && (r.Ok? ==>
            && Seqs.NoDuplicates(r.value)
            && (forall x :: x in r.value <==> x in t)
            && (forall i, j :: 0 <= i < j < |r.value| ==> FirstIndex(t, r.value[i]) < FirstIndex(t, r.value[j])))
  {
    Seqs.UniqueSpec(ListsToTuples(Chain(lists).value));
  }

  /** With `sort`: when `sorted()` succeeds the result is the ascending arrangement of the prepared
      elements; otherwise, for a `typeOrder` listing the present kinds once each, the fallback returns a
      permutation of them as long as each kind on its own can be sorted. */
  lemma JoinListsSorted(lists: seq<Value>, getUnique: bool, typeOrder: seq<nat>)
    requires Prepared(lists, getUnique).Ok?
    ensures var r, u := JoinListsSpec(lists, getUnique, true, typeOrder), Prepared(lists, getUnique).value;
      && (AllComparable(u) ==> r.Ok? && Sorting.Sorted(r.value, ValueLe) && multiset(r.value) == multiset(u))
      && (!AllComparable(u) && Seqs.NoDuplicates(typeOrder) && (forall x :: x in u ==> Kind(x) in typeOrder)
          && (forall k :: k in typeOrder ==> AllComparable(OfKind(u, k))) ==>
            r.Ok? && multiset(r.value) == multiset(u))
  {
    var u := Prepared(lists, getUnique).value;
    assert JoinListsSpec(lists, getUnique, true, typeOrder) == SortOrFallback(u, typeOrder);
    SortOrFallbackSpec(u, typeOrder);
  }

  lemma SortOrFallbackSpec(u: seq<Value>, typeOrder: seq<nat>)
    ensures var r := SortOrFallback(u, typeOrder);
      && (AllComparable(u) ==> r.Ok? && Sorting.Sorted(r.value, ValueLe) && multiset(r.value) == multiset(u))
      && (!AllComparable(u) && Seqs.NoDuplicates(typeOrder) && (forall x :: x in u ==> Kind(x) in typeOrder)
          && (forall k :: k in typeOrder ==> AllComparable(OfKind(u, k))) ==>
            r.Ok? && multiset(r.value) == multiset(u))
  {
    PySortedSpec(u);
    if !AllComparable(u) && Seqs.NoDuplicates(typeOrder) && (forall x :: x in u ==> Kind(x) in typeOrder)
      && (forall k :: k in typeOrder ==> AllComparable(OfKind(u, k)))
    {
      SortGroupsSpec(u, typeOrder);
    }
  }

  /** `join_lists` of ezPy/ez_list.py: no tuple conversion and no fallback. */
  function JoinListsUnconverted(lists: seq<Value>, getUnique: bool, sort: bool): Result<seq<Value>>
  {
    match Chain(lists)
    case Err(e) => Err(e)
    case Ok(joined) =>
      var u := if getUnique then HashedUnique(joined) else Ok(joined);
      if u.Err? || !sort then u else PySorted(u.value)
  }

  /** Without flags the result is exactly the concatenation; `get_unique` keeps first occurrences and
      fails on a list element; `sort` gives the ascending permutation or TypeError. */
  lemma JoinListsUnconvertedSpec(lists: seq<Value>, getUnique: bool, sort: bool)
    ensures var r := JoinListsUnconverted(lists, getUnique, sort);
      && (forall k :: 0 <= k < |lists| ==> lists[k].List? || lists[k].Tuple?) && !getUnique && !sort ==>
           r == Ok(Seqs.Flatten(ItemsOf(lists)))
    ensures Chain(lists).Ok? && getUnique && (exists k :: 0 <= k < |Chain(lists).value| && Chain(lists).value[k].List?) ==>
      JoinListsUnconverted(lists, getUnique, sort) == Err(TypeError)
    ensures Chain(lists).Ok? && getUnique && !sort && JoinListsUnconverted(lists, getUnique, sort).Ok? ==>
      var r, s := JoinListsUnconverted(lists, getUnique, sort).value, Chain(lists).value;
      && Seqs.NoDuplicates(r) && (forall x :: x in r <==> x in s)
      && (forall i, j :: 0 <= i < j < |r| ==> FirstIndex(s, r[i]) < FirstIndex(s, r[j]))
    ensures Chain(lists).Ok? && !getUnique && sort ==>
      var r, s := JoinListsUnconverted(lists, getUnique, sort), Chain(lists).value;
      && (r.Ok? <==> AllComparable(s))
      && (r.Ok? ==> Sorting.Sorted(r.value, ValueLe) && multiset(r.value) == multiset(s))
  {
    if forall k :: 0 <= k < |lists| ==> lists[k].List? || lists[k].Tuple? {
      ChainOfLists(lists);
    }
    if Chain(lists).Ok? {
      UnconvertedUnique(lists, sort);
      UnconvertedSorted(lists);
    }
  }

  lemma UnconvertedUnique(lists: seq<Value>, sort: bool)
    requires Chain(lists).Ok?
    ensures (exists k :: 0 <= k < |Chain(lists).value| && Chain(lists).value[k].List?) ==>
      JoinListsUnconverted(lists, true, sort) == Err(TypeError)
    ensures !sort && JoinListsUnconverted(lists, true, sort).Ok? ==>
      var r, s := JoinListsUnconverted(lists, true, sort).value, Chain(lists).value;
      && Seqs.NoDuplicates(r) && (forall x :: x in r <==> x in s)
      && (forall i, j :: 0 <= i < j < |r| ==> FirstIndex(s, r[i]) < FirstIndex(s, r[j]))
  {
    var s := Chain(lists).value;
    if exists k :: 0 <= k < |s| && s[k].List? {
      var k :| 0 <= k < |s| && s[k].List?;
      assert !Hashable(s[k]);
    }
    Seqs.UniqueSpec(s);
  }

  lemma UnconvertedSorted(lists: seq<Value>)
    requires Chain(lists).Ok?
    ensures var r, s := JoinListsUnconverted(lists, false, true), Chain(lists).value;
      && (r.Ok? <==> AllComparable(s))
      && (r.Ok? ==> Sorting.Sorted(r.value, ValueLe) && multiset(r.value) == multiset(s))
  {
    PySortedSpec(Chain(lists).value);
  }

  lemma ChainTwo(a: seq<Value>, b: seq<Value>)
    ensures Chain([List(a), List(b)]) == Ok(a + b)
  {
    assert Chain([List(a)]) == Ok(a) by {
      assert [List(a)][..0] == [];
      assert [] + a == a;
    }
    assert [List(a), List(b)][..1] == [List(a)];
  }

  /** `[[1, 2, 3], [5, 6, 4]]` joins to `[1, 2, 3, 5, 6, 4]`. */
  lemma JoinListsPlainExample(lists: seq<Value>)
    requires lists == [List([Int(1), Int(2), Int(3)]), List([Int(5), Int(6), Int(4)])]
    ensures JoinListsSpec(lists, false, false, []) == Ok([Int(1), Int(2), Int(3), Int(5), Int(6), Int(4)])
  {
    var a, b := [Int(1), Int(2), Int(3)], [Int(5), Int(6), Int(4)];
    ChainTwo(a, b);
    assert a + b == [Int(1), Int(2), Int(3), Int(5), Int(6), Int(4)];
    NoListsUnchanged(a + b);
  }

  lemma NoListsUnchanged(s: seq<Value>)
    requires forall k :: 0 <= k < |s| ==> !s[k].List?
    ensures ListsToTuples(s) == s
  {
  }

  /** Sorting is the last step: it acts on the prepared elements only. */
  lemma SortStep(lists: seq<Value>, getUnique: bool, typeOrder: seq<nat>, u: seq<Value>, r: seq<Value>)
    requires Prepared(lists, getUnique) == Ok(u)
    requires SortOrFallback(u, typeOrder) == Ok(r)
    ensures JoinListsSpec(lists, getUnique, true, typeOrder) == Ok(r)
  {
  }

  /** `[[1, 2, 3], [5, 6, 4]]` sorted gives `[1, 2, 3, 4, 5, 6]`. */
  lemma JoinListsSortExample(lists: seq<Value>)
    requires lists == [List([Int(1), Int(2), Int(3)]), List([Int(5), Int(6), Int(4)])]
    ensures JoinListsSpec(lists, false, true, []) == Ok([Int(1), Int(2), Int(3), Int(4), Int(5), Int(6)])
  {
    var u, sorted := [Int(1), Int(2), Int(3), Int(5), Int(6), Int(4)], [Int(1), Int(2), Int(3), Int(4), Int(5), Int(6)];
    JoinListsPlainExample(lists);
    SameInts(u, sorted);
    OneToSix(sorted);
    JoinSortedInts(lists, false, [], u, sorted);
  }

  lemma SameInts(u: seq<Value>, sorted: seq<Value>)
    requires u == [Int(1), Int(2), Int(3), Int(5), Int(6), Int(4)] && sorted == [Int(1), Int(2), Int(3), Int(4), Int(5), Int(6)]
    ensures multiset(u) == multiset(sorted)
  {
    assert u == sorted[..3] + [sorted[4], sorted[5]] + [sorted[3]];
    assert sorted == sorted[..3] + [sorted[3]] + [sorted[4], sorted[5]];
  }

  lemma OneToSix(sorted: seq<Value>)
    requires sorted == [Int(1), Int(2), Int(3), Int(4), Int(5), Int(6)]
    ensures forall k :: 0 <= k < |sorted| ==> sorted[k].Int?
    ensures forall k :: 0 <= k < |sorted| - 1 ==> sorted[k].i <= sorted[k + 1].i
  {
    var ascending := seq(6, k requires 0 <= k < 6 => Int(k + 1));
    assert sorted == ascending;
  }

  /** When the prepared elements are integers, sorting gives any ascending arrangement of them. */
  lemma JoinSortedInts(lists: seq<Value>, getUnique: bool, typeOrder: seq<nat>, u: seq<Value>, sorted: seq<Value>)
    requires Prepared(lists, getUnique) == Ok(u)
    requires forall k :: 0 <= k < |sorted| ==> sorted[k].Int?
    requires forall k :: 0 <= k < |sorted| - 1 ==> sorted[k].i <= sorted[k + 1].i
    requires multiset(u) == multiset(sorted)
    ensures JoinListsSpec(lists, getUnique, true, typeOrder) == Ok(sorted)
  {
    SortedInts(u, sorted);
    SortStep(lists, getUnique, typeOrder, u, sorted);
  }

  /** When the prepared elements are a tuple followed by integers, the fallback puts the tuple first and
      then any ascending arrangement of the integers. */
  lemma JoinTupleThenInts(lists: seq<Value>, getUnique: bool, x: Value, ints: seq<Value>, sorted: seq<Value>)
    requires Prepared(lists, getUnique) == Ok([x] + ints)
    requires x.Tuple? && |ints| > 0 && forall k :: 0 <= k < |ints| ==> ints[k].Int?
    requires forall k :: 0 <= k < |sorted| ==> sorted[k].Int?
    requires forall k :: 0 <= k < |sorted| - 1 ==> sorted[k].i <= sorted[k + 1].i
    requires multiset(ints) == multiset(sorted)
    ensures JoinListsSpec(lists, getUnique, true, [2, 0]) == Ok([x] + sorted)
  {
    SortedInts(ints, sorted);
    FallbackTupleThenInts(x, ints, sorted);
    SortStep(lists, getUnique, [2, 0], [x] + ints, [x] + sorted);
  }

  /** `[[[1, 2], 3], [5, 6, 4]]` sorted, with tuples iterated before integers, gives
      `[(1, 2), 3, 4, 5, 6]`. */
  lemma JoinListsFallbackExample(lists: seq<Value>)
    requires lists == [List([List([Int(1), Int(2)]), Int(3)]), List([Int(5), Int(6), Int(4)])]
    ensures JoinListsSpec(lists, false, true, [2, 0]) == Ok([Tuple([Int(1), Int(2)])] + [Int(3), Int(4), Int(5), Int(6)])
  {
    var x, ints := Tuple([Int(1), Int(2)]), [Int(3), Int(5), Int(6), Int(4)];
    PreparedExample(lists, x, ints);
    JoinTupleThenInts(lists, false, x, ints, [Int(3), Int(4), Int(5), Int(6)]);
  }

  lemma PreparedExample(lists: seq<Value>, x: Value, ints: seq<Value>)
    requires lists == [List([List([Int(1), Int(2)]), Int(3)]), List([Int(5), Int(6), Int(4)])]
    requires x == Tuple([Int(1), Int(2)]) && ints == [Int(3), Int(5), Int(6), Int(4)]
    ensures Prepared(lists, false) == Ok([x] + ints)
  {
    var b, c := [Int(5), Int(6), Int(4)], [List([Int(1), Int(2)]), Int(3)];
    ChainTwo(c, b);
    assert ListsToTuples(c + b) == [x] + ints;
  }

  /** With `get_unique`, `[[[1, 2], 3], [[1, 2], 5, 6, 4]]` sorted gives `[(1, 2), 3, 4, 5, 6]`. */
  lemma JoinListsUniqueExample(lists: seq<Value>)
    requires lists == [List([List([Int(1), Int(2)]), Int(3)]), List([List([Int(1), Int(2)]), Int(5), Int(6), Int(4)])]
    ensures JoinListsSpec(lists, true, true, [2, 0]) == Ok([Tuple([Int(1), Int(2)])] + [Int(3), Int(4), Int(5), Int(6)])
  {
    var x, ints := Tuple([Int(1), Int(2)]), [Int(3), Int(5), Int(6), Int(4)];
    PreparedUniqueExample(lists, x, ints);
    JoinTupleThenInts(lists, true, x, ints, [Int(3), Int(4), Int(5), Int(6)]);
  }

  lemma PreparedUniqueExample(lists: seq<Value>, x: Value, ints: seq<Value>)
    requires lists == [List([List([Int(1), Int(2)]), Int(3)]), List([List([Int(1), Int(2)]), Int(5), Int(6), Int(4)])]
    requires x == Tuple([Int(1), Int(2)]) && ints == [Int(3), Int(5), Int(6), Int(4)]
    ensures Prepared(lists, true) == Ok([x] + ints)
  {
    var c, d := [List([Int(1), Int(2)]), Int(3)], [List([Int(1), Int(2)]), Int(5), Int(6), Int(4)];
    ChainTwo(c, d);
    var t := ListsToTuples(c + d);
    assert t == [x, Int(3), x, Int(5), Int(6), Int(4)];
    UniqueExample(t);
    assert Seqs.Unique(t) == [x] + ints;
    assert forall k :: 0 <= k < |t| ==> Hashable(t[k]);
    assert Prepared(lists, true) == HashedUnique(t);
  }

  lemma UniqueExample(t: seq<Value>)
    requires t == [Tuple([Int(1), Int(2)]), Int(3), Tuple([Int(1), Int(2)]), Int(5), Int(6), Int(4)]
    ensures Seqs.Unique(t) == [Tuple([Int(1), Int(2)]), Int(3), Int(5), Int(6), Int(4)]
  {
    var x := t[0];
    var s1, s3, s4, s5 := {x}, {x, Int(3)}, {x, Int(3), Int(5)}, {x, Int(3), Int(5), Int(6)};
    assert Seqs.DedupFrom(t[5..], s5) == [Int(4)] by {
      assert t[5..][1..] == [];
    }
    assert Seqs.DedupFrom(t[4..], s4) == [Int(6), Int(4)] by {
      assert t[4..][1..] == t[5..] && s4 + {Int(6)} == s5;
    }
    assert Seqs.DedupFrom(t[3..], s3) == [Int(5), Int(6), Int(4)] by {
      assert t[3..][1..] == t[4..] && s3 + {Int(5)} == s4;
    }
    assert Seqs.DedupFrom(t[2..], s3) == [Int(5), Int(6), Int(4)] by {
      assert t[2..][1..] == t[3..] && t[2] in s3;
    }
    assert Seqs.DedupFrom(t[1..], s1) == [Int(3), Int(5), Int(6), Int(4)] by {
      assert t[1..][1..] == t[2..] && s1 + {Int(3)} == s3;
    }
    assert Seqs.DedupFrom(t, {}) == [x, Int(3), Int(5), Int(6), Int(4)] by {
      assert {} + {x} == s1;
    }
  }

  /** A sequence of integers and an ascending arrangement of it: `sorted()` returns the latter. */
  lemma SortedInts(s: seq<Value>, t: seq<Value>)
    requires forall k :: 0 <= k < |t| ==> t[k].Int?
    requires forall k :: 0 <= k < |t| - 1 ==> t[k].i <= t[k + 1].i
    requires multiset(s) == multiset(t)
    ensures PySorted(s) == Ok(t)
  {
    forall k | 0 <= k < |s| ensures s[k].Int? {
      assert s[k] in multiset(t);
    }
    assert AllComparable(s);
    AdjacentAscending(t);
    assert Sorting.Sorted(t, ValueLe);
    PySortedUnique(s, t);
  }

  /** Integers each no greater than the next are in ascending order. */
  lemma {:induction false} AdjacentAscending(t: seq<Value>)
    requires forall k :: 0 <= k < |t| ==> t[k].Int?
    requires forall k :: 0 <= k < |t| - 1 ==> t[k].i <= t[k + 1].i
    ensures forall i, j :: 0 <= i < j < |t| ==> t[i].i <= t[j].i
    decreases |t|
  {
    if |t| > 1 {
      var rest := t[1..];
      AdjacentAscending(rest);
      forall i, j | 0 <= i < j < |t| ensures t[i].i <= t[j].i {
        if i > 0 {
          assert t[i] == rest[i - 1] && t[j] == rest[j - 1];
        } else if j > 1 {
          assert t[1] == rest[0] && t[j] == rest[j - 1];
        }
      }
    }
  }

  /** A tuple followed by integers: the tuple group comes first, then the sorted integers. */
  lemma FallbackTupleThenInts(x: Value, s: seq<Value>, sorted: seq<Value>)
    requires x.Tuple? && |s| > 0 && forall k :: 0 <= k < |s| ==> s[k].Int?
    requires PySorted(s) == Ok(sorted)
    ensures SortOrFallback([x] + s, [2, 0]) == Ok([x] + sorted)
  {
    var u := [x] + s;
    TupleThenIntsGroups(x, s);
    SortGroupsTwo(u, 2, 0, [x], sorted);
    assert SortOrFallback(u, [2, 0]) == SortGroups(u, [2, 0]);
  }

  lemma TupleThenIntsGroups(x: Value, s: seq<Value>)
    requires x.Tuple? && |s| > 0 && forall k :: 0 <= k < |s| ==> s[k].Int?
    ensures !AllComparable([x] + s)
    ensures OfKind([x] + s, 0) == s && OfKind([x] + s, 2) == [x]
    ensures PySorted([x]) == Ok([x])
  {
    var u := [x] + s;
    assert !Comparable(u[0], u[1]);
    assert u[1..] == s;
    OfKindAll(s, 0);
    OfKindAll(s, 2);
    ComparableRefl(x);
    PySortedUnique([x], [x]);
  }

  /** The group of a kind that every element has is everything; of a kind none has, nothing. */
  lemma {:induction false} OfKindAll(s: seq<Value>, k: nat)
    ensures (forall j :: 0 <= j < |s| ==> Kind(s[j]) == k) ==> OfKind(s, k) == s
    ensures (forall j :: 0 <= j < |s| ==> Kind(s[j]) != k) ==> OfKind(s, k) == []
  {
    if s != [] {
      OfKindAll(s[1..], k);
      assert s == [s[0]] + s[1..];
    }
  }

  lemma SortGroupsTwo(u: seq<Value>, a: nat, b: nat, ga: seq<Value>, gb: seq<Value>)
    requires PySorted(OfKind(u, a)) == Ok(ga) && PySorted(OfKind(u, b)) == Ok(gb)
    ensures SortGroups(u, [a, b]) == Ok(ga + gb)
  {
    assert [a, b][1..] == [b];
    assert [b][1..] == [];
    assert SortGroups(u, []) == Ok([]);
    assert SortGroups(u, [b]) == Ok(gb + []);
    assert gb + [] == gb;
  }

  lemma {:induction false} ComparableRefl(v: Value)
    ensures Comparable(v, v)
    decreases v, 1
  {
    if v.Tuple? || v.List? {
      ItemsComparableRefl(v.items);
    }
  }

  lemma {:induction false} ItemsComparableRefl(x: seq<Value>)
    ensures ItemsComparable(x, x)
    decreases x, 0
  {
    if |x| > 0 {
      ItemsComparableRefl(x[1..]);
    }
  }
}
