/** Pure list helpers shared by every revision of the list module: flattening, chunking,
    first-occurrence de-duplication, counting, membership and difference. */
module Seqs {
  import opened Py

  /** `list(chain.from_iterable(xss))`: the inner lists one after the other. */
  function Flatten<T>(xss: seq<seq<T>>): seq<T>
  {
    if xss == [] then [] else xss[0] + Flatten(xss[1..])
  }

  function TotalLength<T>(xss: seq<seq<T>>): nat
  {
    if xss == [] then 0 else |xss[0]| + TotalLength(xss[1..])
  }

  /** Flattening keeps every element: the length is the sum of the inner lengths. */
  lemma {:induction false} FlattenLength<T>(xss: seq<seq<T>>)
    ensures |Flatten(xss)| == TotalLength(xss)
  {
    if xss != [] {
      FlattenLength(xss[1..]);
    }
  }

  /** Flattening keeps the order: the lists of a concatenation come out one after the other. */
  lemma {:induction false} FlattenAppend<T>(a: seq<seq<T>>, b: seq<seq<T>>)
    ensures Flatten(a + b) == Flatten(a) + Flatten(b)
  {
    if a != [] {
      assert (a + b)[0] == a[0] && (a + b)[1..] == a[1..] + b;
      FlattenAppend(a[1..], b);
      calc {
        Flatten(a + b);
        a[0] + Flatten(a[1..] + b);
        a[0] + (Flatten(a[1..]) + Flatten(b));
        (a[0] + Flatten(a[1..])) + Flatten(b);
      }
    } else {
      assert a + b == b;
    }
  }

  /** `[s[i:i + n] for i in range(0, len(s), n)]` for a positive step `n`. */
  function Chunks<T>(s: seq<T>, n: nat): seq<seq<T>>
    requires n > 0
    decreases |s|
  {
    if |s| == 0 then []
    else if |s| <= n then [s]
    else [s[..n]] + Chunks(s[n..], n)
  }

  /** `list_to_nested_list(s, n)`: a zero step makes `range` raise ValueError, a negative step gives no chunk. */
  function ListToNestedList<T>(s: seq<T>, n: int): Result<seq<seq<T>>>
  {
    if n == 0 then Err(ValueError)
    else if n < 0 then Ok([])
    else Ok(Chunks(s, n))
  }

  /** Chunking then flattening gives the list back. */
  lemma {:induction false} ChunksRoundTrip<T>(s: seq<T>, n: nat)
    requires n > 0
    ensures Flatten(Chunks(s, n)) == s
    decreases |s|
  {
    if |s| > n {
      ChunksRoundTrip(s[n..], n);
      assert s == s[..n] + s[n..];
    }
  }

  /** Every chunk holds `n` elements except the last, which holds between 1 and `n`;
      there are `ceil(|s| / n)` of them. */
  lemma {:induction false} ChunksShape<T>(s: seq<T>, n: nat)
    requires n > 0
    ensures var c := Chunks(s, n);
      && |c| == (|s| + n - 1) / n
      && (forall k :: 0 <= k < |c| - 1 ==> |c[k]| == n)
      && (|c| > 0 ==> 0 < |c[|c| - 1]| <= n)
    decreases |s|
  {
    if |s| > n {
      ChunksShape(s[n..], n);
      DivShift(|s| - n + n - 1, n);
    } else if |s| > 0 {
      DivOne(|s| + n - 1, n);
    }
  }

  /** `list_to_nested_list` fails exactly on a zero chunk size, gives no chunk for a negative one, and
      otherwise cuts the list into chunks of at most `n` elements that flatten back to it. */
  lemma ListToNestedListSpec<T>(s: seq<T>, n: int)
    ensures ListToNestedList(s, n).Err? <==> n == 0
    ensures ListToNestedList(s, n).Err? ==> ListToNestedList(s, n).error == ValueError
    ensures n < 0 ==> ListToNestedList(s, n) == Ok([])
    ensures n > 0 ==> var c := ListToNestedList(s, n).value;
      && Flatten(c) == s
      && |c| == (|s| + n - 1) / n
      && (forall k :: 0 <= k < |c| ==> 0 < |c[k]| <= n)
      && (forall k :: 0 <= k < |c| - 1 ==> |c[k]| == n)
  {
    if n > 0 {
      ChunksRoundTrip(s, n);
      ChunksShape(s, n);
    }
  }

  lemma DivShift(a: nat, n: nat)
    requires n > 0
    ensures (a + n) / n == a / n + 1
  {
    var q := a / n;
    assert a == q * n + a % n;
    assert a + n == (q + 1) * n + a % n;
    DivUnique(a + n, n, q + 1, a % n);
  }

  lemma DivOne(a: nat, n: nat)
    requires n > 0 && n <= a < 2 * n
    ensures a / n == 1
  {
    DivUnique(a, n, 1, a - n);
  }

  /** `[x for x in s if not (x in seen or seen.add(x))]`, continuing from an already `seen` set. */
  function DedupFrom<T(==)>(s: seq<T>, seen: set<T>): seq<T>
  {
    if s == [] then []
    else if s[0] in seen then DedupFrom(s[1..], seen)
    else [s[0]] + DedupFrom(s[1..], seen + {s[0]})
  }

  /** `get_unique`: the elements of `s`, each once, in the order of their first occurrence. */
  function Unique<T(==)>(s: seq<T>): seq<T>
  {
    DedupFrom(s, {})
  }

  predicate NoDuplicates<T(==)>(s: seq<T>)
  {
    forall i, j :: 0 <= i < j < |s| ==> s[i] != s[j]
  }

  lemma {:induction false} DedupSnoc<T>(s: seq<T>, x: T, seen: set<T>)
    ensures DedupFrom(s + [x], seen) == DedupFrom(s, seen) + (if x in s || x in seen then [] else [x])
  {
    if s != [] {
      assert (s + [x])[1..] == s[1..] + [x];
      if s[0] in seen {
        DedupSnoc(s[1..], x, seen);
      } else {
        DedupSnoc(s[1..], x, seen + {s[0]});
      }
    }
  }

  /** De-duplicating one more element appends it exactly when it is new. */
  lemma UniqueSnoc<T>(s: seq<T>, x: T)
    ensures Unique(s + [x]) == Unique(s) + (if x in s then [] else [x])
  {
    DedupSnoc(s, x, {});
  }

  /** The result of `Unique` holds each element of `s` exactly once, ordered by first occurrence in `s`. */
  lemma {:induction false} UniqueSpec<T>(s: seq<T>)
    ensures var u := Unique(s);
      && NoDuplicates(u)
      && (forall x :: x in u <==> x in s)
      && (forall i, j :: 0 <= i < j < |u| ==> FirstIndex(s, u[i]) < FirstIndex(s, u[j]))
  {
    UniqueMembers(s);
    UniqueDistinct(s);
    UniqueOrder(s);
  }

  lemma {:induction false} UniqueMembers<T>(s: seq<T>)
    ensures forall x :: x in Unique(s) <==> x in s
    decreases |s|
  {
    if s != [] {
      var p, x := s[..|s| - 1], s[|s| - 1];
      assert s == p + [x];
      UniqueMembers(p);
      UniqueSnoc(p, x);
    }
  }

  lemma {:induction false} UniqueDistinct<T>(s: seq<T>)
    ensures NoDuplicates(Unique(s))
    decreases |s|
  {
    if s != [] {
      var p, x := s[..|s| - 1], s[|s| - 1];
      assert s == p + [x];
      UniqueDistinct(p);
      UniqueMembers(p);
      UniqueSnoc(p, x);
    }
  }

  lemma {:induction false} UniqueOrder<T>(s: seq<T>)
    ensures var u := Unique(s);
      && (forall x :: x in u <==> x in s)
      && forall i, j :: 0 <= i < j < |u| ==> FirstIndex(s, u[i]) < FirstIndex(s, u[j])
    decreases |s|
  {
    if s != [] {
      var p, x := s[..|s| - 1], s[|s| - 1];
      assert s == p + [x];
      UniqueOrder(p);
      UniqueMembers(s);
      UniqueSnoc(p, x);
      forall y | y in p ensures FirstIndex(s, y) == FirstIndex(p, y) {
        FirstIndexPrefix(p, [x], y);
      }
      if x !in p {
        assert FirstIndex(s, x) == |p|;
      }
    }
  }

  lemma {:induction false} FirstIndexPrefix<T>(p: seq<T>, q: seq<T>, y: T)
    requires y in p
    ensures FirstIndex(p + q, y) == FirstIndex(p, y)
  {
    if p[0] != y {
      assert (p + q)[1..] == p[1..] + q;
      FirstIndexPrefix(p[1..], q, y);
    }
  }

  /** `Counter(s)` as an insertion-ordered table: adds one occurrence of `x`. */
  function Bump<T(==)>(c: seq<(T, nat)>, x: T): seq<(T, nat)>
  {
    if c == [] then [(x, 1)]
    else if c[0].0 == x then [(x, c[0].1 + 1)] + c[1..]
    else [c[0]] + Bump(c[1..], x)
  }

  /** `Counter(s)`: the elements in order of first appearance, each with its number of occurrences. */
  function Counter<T(==)>(s: seq<T>): seq<(T, nat)>
  {
    if s == [] then [] else Bump(Counter(s[..|s| - 1]), s[|s| - 1])
  }

  function Keys<T, V>(c: seq<(T, V)>): (r: seq<T>)
    ensures |r| == |c|
    ensures forall i :: 0 <= i < |c| ==> r[i] == c[i].0
  {
    if c == [] then [] else [c[0].0] + Keys(c[1..])
  }

  function CountSum<T>(c: seq<(T, nat)>): nat
  {
    if c == [] then 0 else c[0].1 + CountSum(c[1..])
  }

  lemma {:induction false} BumpKeys<T>(c: seq<(T, nat)>, x: T)
    ensures Keys(Bump(c, x)) == Keys(c) + (if x in Keys(c) then [] else [x])
  {
    if c != [] {
      assert Keys(c) == [c[0].0] + Keys(c[1..]);
      if c[0].0 != x {
        BumpKeys(c[1..], x);
        assert Keys(Bump(c, x)) == [c[0].0] + Keys(Bump(c[1..], x));
      } else {
        assert Keys(Bump(c, x)) == [x] + Keys(c[1..]);
      }
    }
  }

  lemma {:induction false} BumpSum<T>(c: seq<(T, nat)>, x: T)
    ensures CountSum(Bump(c, x)) == CountSum(c) + 1
  {
    if c != [] {
      if c[0].0 != x {
        BumpSum(c[1..], x);
      } else {
        assert Bump(c, x)[1..] == c[1..];
      }
    }
  }

  lemma {:induction false} BumpCounts<T>(c: seq<(T, nat)>, x: T)
    requires NoDuplicates(Keys(c))
    ensures |Bump(c, x)| >= |c|
    ensures forall i :: 0 <= i < |c| ==> Bump(c, x)[i] == (c[i].0, c[i].1 + (if c[i].0 == x then 1 else 0))
    ensures |Bump(c, x)| > |c| ==> Bump(c, x)[|c|] == (x, 1)
  {
    if c != [] {
      var b := Bump(c, x);
      if c[0].0 != x {
        assert forall i :: 0 <= i < |c| - 1 ==> Keys(c[1..])[i] == Keys(c)[i + 1];
        BumpCounts(c[1..], x);
        assert b == [c[0]] + Bump(c[1..], x);
        forall i | 0 < i < |c| ensures b[i] == (c[i].0, c[i].1 + (if c[i].0 == x then 1 else 0)) {
          assert b[i] == Bump(c[1..], x)[i - 1];
          assert c[1..][i - 1] == c[i];
        }
      } else {
        assert b == [(x, c[0].1 + 1)] + c[1..];
        forall i | 0 < i < |c| ensures b[i] == c[i] && c[i].0 != x {
          assert Keys(c)[i] == c[i].0 && Keys(c)[0] == x;
        }
      }
    }
  }

  lemma {:induction false} CounterKeys<T>(s: seq<T>)
    ensures Keys(Counter(s)) == Unique(s)
    decreases |s|
  {
    if s != [] {
      var p, x := s[..|s| - 1], s[|s| - 1];
      assert s == p + [x];
      CounterKeys(p);
      UniqueSpec(p);
      BumpKeys(Counter(p), x);
      UniqueSnoc(p, x);
    }
  }

  lemma {:induction false} CounterSum<T>(s: seq<T>)
    ensures CountSum(Counter(s)) == |s|
    decreases |s|
  {
    if s != [] {
      CounterSum(s[..|s| - 1]);
      BumpSum(Counter(s[..|s| - 1]), s[|s| - 1]);
    }
  }

  lemma {:induction false} CounterCounts<T>(s: seq<T>)
    ensures var c := Counter(s); forall i :: 0 <= i < |c| ==> c[i].1 == multiset(s)[c[i].0]
    decreases |s|
  {
    if s != [] {
      var p, x := s[..|s| - 1], s[|s| - 1];
      assert s == p + [x];
      var c := Counter(p);
      CounterCounts(p);
      CounterKeys(p);
      UniqueSpec(p);
      BumpCounts(c, x);
      BumpKeys(c, x);
      assert multiset(s) == multiset(p) + multiset{x};
      var c' := Counter(s);
      assert c' == Bump(c, x);
      forall i | 0 <= i < |c'| ensures c'[i].1 == multiset(s)[c'[i].0] {
        if i < |c| {
          assert c'[i] == (c[i].0, c[i].1 + (if c[i].0 == x then 1 else 0));
          assert c[i].1 == multiset(p)[c[i].0];
          assert multiset(s)[c[i].0] == multiset(p)[c[i].0] + (if c[i].0 == x then 1 else 0);
        } else {
          assert |Keys(c')| == |c| + 1;
          assert c'[i] == (x, 1);
          assert x !in Keys(c);
          assert x !in p;
          assert multiset(s)[x] == multiset(p)[x] + 1 == 1;
        }
      }
    }
  }

  /** The keys of `Counter(s)` are exactly `Unique(s)`, each count is the number of occurrences,
      and the counts add up to the length of `s`. */
  lemma CounterSpec<T>(s: seq<T>)
    ensures var c := Counter(s);
      && Keys(c) == Unique(s)
      && (forall i :: 0 <= i < |c| ==> c[i].1 == multiset(s)[c[i].0])
      && CountSum(c) == |s|
  {
    CounterKeys(s);
    CounterCounts(s);
    CounterSum(s);
  }

  /** `[x for x in a if x not in b]`. */
  function Difference<T(==)>(a: seq<T>, b: seq<T>): seq<T>
  {
    if a == [] then []
    else if a[0] in b then Difference(a[1..], b)
    else [a[0]] + Difference(a[1..], b)
  }

  /** The difference keeps every occurrence of the elements missing from `b` and drops all others. */
  lemma {:induction false} DifferenceSpec<T>(a: seq<T>, b: seq<T>)
    ensures forall x :: multiset(Difference(a, b))[x] == if x in b then 0 else multiset(a)[x]
  {
    if a != [] {
      DifferenceSpec(a[1..], b);
      assert a == [a[0]] + a[1..];
      assert multiset(a) == multiset{a[0]} + multiset(a[1..]);
    }
  }

  /** `all(c in parent for c in child)`. */
  predicate IsContained<T(==)>(child: seq<T>, parent: seq<T>)
  {
    forall i :: 0 <= i < |child| ==> child[i] in parent
  }

  /** A list is contained in another exactly when its difference with it is empty. */
  lemma {:induction false} ContainedIffNoDifference<T>(child: seq<T>, parent: seq<T>)
    ensures IsContained(child, parent) <==> Difference(child, parent) == []
  {
    if child != [] {
      ContainedIffNoDifference(child[1..], parent);
      assert forall i :: 1 <= i < |child| ==> child[i] == child[1..][i - 1];
    }
  }

  /** `len(set(map(len, lists))) == 1`. */
  predicate EqualLengths<T>(lists: seq<seq<T>>)
  {
    |Lengths(lists)| == 1
  }

  function Lengths<T>(lists: seq<seq<T>>): set<nat>
  {
    set i | 0 <= i < |lists| :: |lists[i]|
  }

  /** The set of lengths has one element exactly when there is a list and all share its length. */
  lemma EqualLengthsSpec<T>(lists: seq<seq<T>>)
    ensures EqualLengths(lists) <==> |lists| > 0 && forall i :: 0 <= i < |lists| ==> |lists[i]| == |lists[0]|
  {
    var lens := Lengths(lists);
    if |lists| > 0 {
      assert |lists[0]| in lens;
      if forall i :: 0 <= i < |lists| ==> |lists[i]| == |lists[0]| {
        assert lens == {|lists[0]|};
      } else {
        var k :| 0 <= k < |lists| && |lists[k]| != |lists[0]|;
        assert {|lists[0]|, |lists[k]|} <= lens;
        assert |{|lists[0]|, |lists[k]|}| == 2;
        SubsetCard({|lists[0]|, |lists[k]|}, lens);
      }
    } else {
      assert lens == {};
    }
  }

  lemma SubsetCard<T>(a: set<T>, b: set<T>)
    requires a <= b
    ensures |a| <= |b|
  {
    assert b == a + (b - a);
  }

  /** `list(map(f, a))`. */
  function Map<A, B>(f: A -> B, a: seq<A>): (r: seq<B>)
    ensures |r| == |a| && forall i :: 0 <= i < |a| ==> r[i] == f(a[i])
  {
    seq(|a|, i requires 0 <= i < |a| => f(a[i]))
  }

  lemma SplitLast<T>(s: seq<T>)
    requires s != []
    ensures s == s[..|s| - 1] + [s[|s| - 1]]
  {
  }

  /** Taking one more element of `d` after a fixed prefix `a`. */
  lemma TakeOneMore<T>(a: seq<T>, d: seq<T>, j: nat)
    requires j < |d|
    ensures a + d[..j + 1] == (a + d[..j]) + [d[j]]
  {
    assert d[..j + 1] == d[..j] + [d[j]];
  }

  lemma MapAppend<A, B>(f: A -> B, x: seq<A>, y: seq<A>)
    ensures Map(f, x + y) == Map(f, x) + Map(f, y)
  {
  }

  /** Taking one element out of the middle of a sequence, as a multiset difference. */
  lemma MultisetSplit<A>(b: seq<A>, k: nat)
    requires k < |b|
    ensures multiset(b[..k] + b[k + 1..]) == multiset(b) - multiset{b[k]}
    ensures b == b[..k] + [b[k]] + b[k + 1..]
  {
    assert b == b[..k] + [b[k]] + b[k + 1..];
  }

  /** Mapping two arrangements of the same elements gives two arrangements of the same images. */
  lemma {:induction false} MapPermutation<A, B>(f: A -> B, a: seq<A>, b: seq<A>)
    requires multiset(a) == multiset(b)
    ensures multiset(Map(f, a)) == multiset(Map(f, b))
    decreases |a|
  {
    if a == [] {
      assert |b| == |multiset(b)| == 0;
    } else {
      var x := a[0];
      assert x in multiset(b);
      var k :| 0 <= k < |b| && b[k] == x;
      MultisetSplit(b, k);
      assert a == [x] + a[1..];
      assert multiset(a[1..]) == multiset(b[..k] + b[k + 1..]);
      MapPermutation(f, a[1..], b[..k] + b[k + 1..]);
      MapRemove(f, a, 0);
      MapRemove(f, b, k);
      assert a[..0] + a[1..] == a[1..];
    }
  }

  /** The images of a sequence are those of the sequence without its element at `k`, plus that
      element's image. */
  lemma MapRemove<A, B>(f: A -> B, b: seq<A>, k: nat)
    requires k < |b|
    ensures multiset(Map(f, b)) == multiset(Map(f, b[..k] + b[k + 1..])) + multiset{f(b[k])}
  {
    var left, right := Map(f, b[..k]), Map(f, b[k + 1..]);
    assert Map(f, b) == left + [f(b[k])] + right;
    MapAppend(f, b[..k], b[k + 1..]);
  }
}
