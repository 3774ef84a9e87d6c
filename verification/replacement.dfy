/** The building blocks every replace-by-index / replace-by-value variant is made of: wrapping a scalar
    into a list, validating targets, padding the replacement list, and writing zipped pairs into a list. */
module Replacement {
  import opened Py

  /** `x if isinstance(x, list) else [x]`. */
  function AsItems(x: Value): (r: seq<Value>)
    ensures x.List? ==> r == x.items
    ensures !x.List? ==> r == [x]
  {
    if x.List? then x.items else [x]
  }

  /** The state of the target list after a sequence of writes, and the exception that stopped them, if any. */
  datatype Outcome = Outcome(elems: seq<Value>, err: Option<Error>)

  /** Python `l[i] = v`: an integer index in `[-n, n)` overwrites one position, any other integer
      raises IndexError and a non-integer raises TypeError. */
  function SetItem(s: seq<Value>, i: Value, v: Value): (r: Result<seq<Value>>)
    ensures r.Ok? <==> i.Int? && InBounds(i.i, |s|)
    ensures r.Ok? ==> |r.value| == |s| && r.value[Normalize(i.i, |s|)] == v
    ensures r.Ok? ==> forall p :: 0 <= p < |s| && p != Normalize(i.i, |s|) ==> r.value[p] == s[p]
    ensures r.Err? ==> r.error == if i.Int? then IndexError else TypeError
  {
    if !i.Int? then Err(TypeError)
    else if !InBounds(i.i, |s|) then Err(IndexError)
    else Ok(s[Normalize(i.i, |s|) := v])
  }

  function Min(a: nat, b: nat): nat
  {
    if a < b then a else b
  }

  /** `for i, v in zip(idx, vals): l[i] = v`: pairs are written in order until one of them raises;
      the writes made before that stay in the list. */
  function ZipWrite(s: seq<Value>, idx: seq<Value>, vals: seq<Value>): (o: Outcome)
    ensures |o.elems| == |s|
    ensures o.err == None || o.err == Some(IndexError) || o.err == Some(TypeError)
    decreases |idx|
  {
    if |idx| == 0 || |vals| == 0 then Outcome(s, None)
    else match SetItem(s, idx[0], vals[0])
      case Err(e) => Outcome(s, Some(e))
      case Ok(s') => ZipWrite(s', idx[1..], vals[1..])
  }

  /** Whether `l[i]` is a valid target in a list of length `n`. */
  predicate ValidTarget(i: Value, n: nat)
  {
    i.Int? && InBounds(i.i, n)
  }

  predicate ValidTargets(idx: seq<Value>, m: nat, n: nat)
    requires m <= |idx|
  {
    forall k :: 0 <= k < m ==> ValidTarget(idx[k], n)
  }

  function Target(i: Value, n: nat): (p: nat)
    requires ValidTarget(i, n)
    ensures p < n
  {
    Normalize(i.i, n)
  }

  /** When every zipped target is valid nothing is raised, positions no pair targets keep their value,
      and a targeted position holds the value of the last pair that targets it. */
  lemma {:induction false} ZipWriteSuccess(s: seq<Value>, idx: seq<Value>, vals: seq<Value>)
    requires ValidTargets(idx, Min(|idx|, |vals|), |s|)
    ensures var o, m, n := ZipWrite(s, idx, vals), Min(|idx|, |vals|), |s|;
      && o.err == None
      && (forall p :: 0 <= p < n && (forall k :: 0 <= k < m ==> Target(idx[k], n) != p) ==> o.elems[p] == s[p])
      && (forall k :: 0 <= k < m && (forall j :: k < j < m ==> Target(idx[j], n) != Target(idx[k], n))
            ==> o.elems[Target(idx[k], n)] == vals[k])
  {
    ZipWriteKeeps(s, idx, vals);
    ZipWriteLands(s, idx, vals);
  }

  /** One pair whose target no later pair shares leaves its value at that target. */
  lemma ZipWriteLandsAt(s: seq<Value>, idx: seq<Value>, vals: seq<Value>, k: nat)
    requires ValidTargets(idx, Min(|idx|, |vals|), |s|) && k < Min(|idx|, |vals|)
    requires forall j :: k < j < Min(|idx|, |vals|) ==> Target(idx[j], |s|) != Target(idx[k], |s|)
    ensures ZipWrite(s, idx, vals).elems[Target(idx[k], |s|)] == vals[k]
  {
    ZipWriteSuccess(s, idx, vals);
  }

  lemma {:induction false} ZipWriteKeeps(s: seq<Value>, idx: seq<Value>, vals: seq<Value>)
    requires ValidTargets(idx, Min(|idx|, |vals|), |s|)
    ensures var o, m, n := ZipWrite(s, idx, vals), Min(|idx|, |vals|), |s|;
      && o.err == None
      && (forall p :: 0 <= p < n && (forall k :: 0 <= k < m ==> Target(idx[k], n) != p) ==> o.elems[p] == s[p])
    decreases |idx|
  {
    var m, n := Min(|idx|, |vals|), |s|;
    if m > 0 {
      var t := Target(idx[0], n);
      var s' := s[t := vals[0]];
      var idx', vals' := idx[1..], vals[1..];
      assert forall k :: 0 <= k < m - 1 ==> idx'[k] == idx[k + 1];
      ZipWriteKeeps(s', idx', vals');
      var o := ZipWrite(s, idx, vals);
      assert o == ZipWrite(s', idx', vals');
      forall p | 0 <= p < n && (forall k :: 0 <= k < m ==> Target(idx[k], n) != p)
        ensures o.elems[p] == s[p]
      {
        assert forall k :: 0 <= k < m - 1 ==> Target(idx'[k], n) != p by {
          forall k | 0 <= k < m - 1 ensures Target(idx'[k], n) != p {
            assert Target(idx[k + 1], n) != p;
          }
        }
      }
    }
  }

  lemma {:induction false} ZipWriteLands(s: seq<Value>, idx: seq<Value>, vals: seq<Value>)
    requires ValidTargets(idx, Min(|idx|, |vals|), |s|)
    ensures var o, m, n := ZipWrite(s, idx, vals), Min(|idx|, |vals|), |s|;
      forall k :: 0 <= k < m && (forall j :: k < j < m ==> Target(idx[j], n) != Target(idx[k], n))
        ==> o.elems[Target(idx[k], n)] == vals[k]
    decreases |idx|
  {
    var m, n := Min(|idx|, |vals|), |s|;
    if m > 0 {
      var t := Target(idx[0], n);
      var s' := s[t := vals[0]];
      var idx', vals' := idx[1..], vals[1..];
      assert forall k :: 0 <= k < m - 1 ==> idx'[k] == idx[k + 1] && vals'[k] == vals[k + 1];
      ZipWriteLands(s', idx', vals');
      var o := ZipWrite(s, idx, vals);
      assert o == ZipWrite(s', idx', vals');
      forall k | 0 <= k < m && (forall j :: k < j < m ==> Target(idx[j], n) != Target(idx[k], n))
        ensures o.elems[Target(idx[k], n)] == vals[k]
      {
        if k == 0 {
          ZipWriteLandsFirst(s, idx, vals);
        } else {
          forall j | k - 1 < j < m - 1 ensures Target(idx'[j], n) != Target(idx'[k - 1], n) {
            assert Target(idx[j + 1], n) != Target(idx[k], n);
          }
        }
      }
    }
  }

  /** The first pair's value survives when no later pair targets its position. */
  lemma ZipWriteLandsFirst(s: seq<Value>, idx: seq<Value>, vals: seq<Value>)
    requires 0 < Min(|idx|, |vals|) && ValidTargets(idx, Min(|idx|, |vals|), |s|)
    requires forall j :: 0 < j < Min(|idx|, |vals|) ==> Target(idx[j], |s|) != Target(idx[0], |s|)
    ensures ZipWrite(s, idx, vals).elems[Target(idx[0], |s|)] == vals[0]
  {
    var m, n := Min(|idx|, |vals|), |s|;
    var t := Target(idx[0], n);
    var s' := s[t := vals[0]];
    var idx', vals' := idx[1..], vals[1..];
    assert forall k :: 0 <= k < m - 1 ==> idx'[k] == idx[k + 1];
    ZipWriteKeeps(s', idx', vals');
    assert ZipWrite(s, idx, vals) == ZipWrite(s', idx', vals');
    forall j | 0 <= j < m - 1 ensures Target(idx'[j], n) != t {
      assert Target(idx[j + 1], n) != t;
    }
  }

  /** Writes at non-negative in-range positions, stated on the positions themselves. */
  lemma ZipWriteDirect(s: seq<Value>, idx: seq<Value>, vals: seq<Value>)
    requires |idx| == |vals| && forall k :: 0 <= k < |idx| ==> idx[k].Int? && 0 <= idx[k].i < |s|
    ensures var o := ZipWrite(s, idx, vals);
      && o.err == None
      && (forall p :: 0 <= p < |s| && (forall k :: 0 <= k < |idx| ==> idx[k] != Int(p)) ==> o.elems[p] == s[p])
      && (forall k :: 0 <= k < |idx| && (forall j :: k < j < |idx| ==> idx[j] != idx[k]) ==> o.elems[idx[k].i] == vals[k])
  {
    ZipWriteSuccess(s, idx, vals);
    ZipWriteDirectKeeps(s, idx, vals);
    ZipWriteDirectLands(s, idx, vals);
  }

  lemma ZipWriteDirectKeeps(s: seq<Value>, idx: seq<Value>, vals: seq<Value>)
    requires |idx| == |vals| && forall k :: 0 <= k < |idx| ==> idx[k].Int? && 0 <= idx[k].i < |s|
    ensures var o := ZipWrite(s, idx, vals);
      forall p :: 0 <= p < |s| && (forall k :: 0 <= k < |idx| ==> idx[k] != Int(p)) ==> o.elems[p] == s[p]
  {
    var o, n := ZipWrite(s, idx, vals), |s|;
    ZipWriteKeeps(s, idx, vals);
    forall p | 0 <= p < n && (forall k :: 0 <= k < |idx| ==> idx[k] != Int(p))
      ensures o.elems[p] == s[p]
    {
      forall k | 0 <= k < |idx| ensures Target(idx[k], n) != p {
        assert Target(idx[k], n) == idx[k].i;
      }
    }
  }

  lemma ZipWriteDirectLands(s: seq<Value>, idx: seq<Value>, vals: seq<Value>)
    requires |idx| == |vals| && forall k :: 0 <= k < |idx| ==> idx[k].Int? && 0 <= idx[k].i < |s|
    ensures var o := ZipWrite(s, idx, vals);
      forall k :: 0 <= k < |idx| && (forall j :: k < j < |idx| ==> idx[j] != idx[k]) ==> o.elems[idx[k].i] == vals[k]
  {
    var o, n := ZipWrite(s, idx, vals), |s|;
    ZipWriteLands(s, idx, vals);
    forall k | 0 <= k < |idx| && (forall j :: k < j < |idx| ==> idx[j] != idx[k])
      ensures o.elems[idx[k].i] == vals[k]
    {
      forall j | k < j < |idx| ensures Target(idx[j], n) != Target(idx[k], n) {
        assert Target(idx[j], n) == idx[j].i && Target(idx[k], n) == idx[k].i;
      }
    }
  }

  /** Two in-range writes, made in order. */
  lemma ZipWriteTwo(s: seq<Value>, i: nat, j: nat, a: Value, b: Value)
    requires i < |s| && j < |s|
    ensures ZipWrite(s, [Int(i), Int(j)], [a, b]) == Outcome(s[i := a][j := b], None)
  {
    var idx, vals := [Int(i), Int(j)], [a, b];
    assert idx[1..] == [Int(j)] && vals[1..] == [b];
    assert ZipWrite(s[i := a], [Int(j)], [b]) == ZipWrite(s[i := a][j := b], [], []);
  }

  /** When pair `f` is the first with an invalid target, the writes before it are made and the
      exception is IndexError for an integer out of range and TypeError for a non-integer. */
  lemma {:induction false} ZipWriteFailure(s: seq<Value>, idx: seq<Value>, vals: seq<Value>, f: nat)
    requires f < |idx| && f < |vals|
    requires ValidTargets(idx, f, |s|) && !ValidTarget(idx[f], |s|)
    ensures ZipWrite(s, idx, vals).err == Some(if idx[f].Int? then IndexError else TypeError)
    ensures ZipWrite(s, idx, vals).elems == ZipWrite(s, idx[..f], vals[..f]).elems
    decreases f
  {
    if f > 0 {
      var s' := s[Target(idx[0], |s|) := vals[0]];
      assert forall k :: 0 <= k < f - 1 ==> idx[1..][k] == idx[k + 1];
      ZipWriteFailure(s', idx[1..], vals[1..], f - 1);
      assert idx[..f][1..] == idx[1..][..f - 1];
      assert vals[..f][1..] == vals[1..][..f - 1];
    }
  }

  /** Whether a target is rejected by `if i >= len(l) or i < 0`. */
  predicate OutOfRange(i: Value, n: nat)
  {
    !i.Int? || i.i >= n || i.i < 0
  }

  /** `for i in idx: if i >= n or i < 0: raise IndexOutOfList`: the first target that is not an
      integer raises TypeError at the comparison, the first one out of `[0, n)` IndexOutOfList. */
  function CheckInRange(idx: seq<Value>, n: nat): (r: Option<Error>)
    ensures r == None || r == Some(TypeError) || r == Some(IndexOutOfList)
  {
    if idx == [] then None
    else if !idx[0].Int? then Some(TypeError)
    else if idx[0].i >= n || idx[0].i < 0 then Some(IndexOutOfList)
    else CheckInRange(idx[1..], n)
  }

  /** The check passes exactly when every target is an integer in `[0, n)`, and otherwise the first
      offending target decides the exception. */
  lemma {:induction false} CheckInRangeSpec(idx: seq<Value>, n: nat)
    ensures CheckInRange(idx, n) == None <==> forall k :: 0 <= k < |idx| ==> !OutOfRange(idx[k], n)
    ensures forall f :: 0 <= f < |idx| && OutOfRange(idx[f], n) && (forall k :: 0 <= k < f ==> !OutOfRange(idx[k], n))
              ==> CheckInRange(idx, n) == Some(if idx[f].Int? then IndexOutOfList else TypeError)
  {
    if idx != [] {
      CheckInRangeSpec(idx[1..], n);
      assert forall k :: 1 <= k < |idx| ==> idx[1..][k - 1] == idx[k];
      forall f | 1 <= f < |idx| && OutOfRange(idx[f], n) && (forall k :: 0 <= k < f ==> !OutOfRange(idx[k], n))
        ensures CheckInRange(idx, n) == Some(if idx[f].Int? then IndexOutOfList else TypeError)
      {
        assert OutOfRange(idx[1..][f - 1], n);
        assert forall k :: 0 <= k < f - 1 ==> !OutOfRange(idx[1..][k], n);
      }
    }
  }

  /** `any([i > n - 1 for i in idx])`: the whole mask is built first, so any non-integer target raises
      TypeError; otherwise IndexOutOfList when some target is above the last position. Negative
      targets pass. */
  function CheckNotAbove(idx: seq<Value>, n: nat): (r: Option<Error>)
    ensures r == None <==> forall k :: 0 <= k < |idx| ==> idx[k].Int? && idx[k].i < n
  {
    if exists k :: 0 <= k < |idx| && !idx[k].Int? then Some(TypeError)
    else if exists k :: 0 <= k < |idx| && idx[k].i > n - 1 then Some(IndexOutOfList)
    else None
  }

  /** Whether a target is rejected by `if i > n - 1`. */
  predicate Above(i: Value, n: nat)
  {
    !i.Int? || i.i > n - 1
  }

  /** `for i in idx: if i > n - 1: raise IndexOutOfList`, one target at a time. */
  function CheckNotAboveEach(idx: seq<Value>, n: nat): (r: Option<Error>)
    ensures r == None || r == Some(TypeError) || r == Some(IndexOutOfList)
  {
    if idx == [] then None
    else if !idx[0].Int? then Some(TypeError)
    else if idx[0].i > n - 1 then Some(IndexOutOfList)
    else CheckNotAboveEach(idx[1..], n)
  }

  /** The one-at-a-time check passes exactly when every target is an integer below `n`, and otherwise the
      first offending target decides the exception. */
  lemma {:induction false} CheckNotAboveEachSpec(idx: seq<Value>, n: nat)
    ensures CheckNotAboveEach(idx, n) == None <==> forall k :: 0 <= k < |idx| ==> !Above(idx[k], n)
    ensures forall f :: 0 <= f < |idx| && Above(idx[f], n) && (forall k :: 0 <= k < f ==> !Above(idx[k], n))
              ==> CheckNotAboveEach(idx, n) == Some(if idx[f].Int? then IndexOutOfList else TypeError)
  {
    if idx != [] {
      CheckNotAboveEachSpec(idx[1..], n);
      assert forall k :: 1 <= k < |idx| ==> idx[1..][k - 1] == idx[k];
      forall f | 1 <= f < |idx| && Above(idx[f], n) && (forall k :: 0 <= k < f ==> !Above(idx[k], n))
        ensures CheckNotAboveEach(idx, n) == Some(if idx[f].Int? then IndexOutOfList else TypeError)
      {
        assert Above(idx[1..][f - 1], n);
        assert forall k :: 0 <= k < f - 1 ==> !Above(idx[1..][k], n);
      }
    }
  }

  /** Whether every old element occurs in the list. */
  predicate AllPresent(s: seq<Value>, olds: seq<Value>)
  {
    forall k :: 0 <= k < |olds| ==> olds[k] in s
  }

  /** `[l.index(e) for e in olds]`: the position of the first occurrence of each old element. */
  function FirstIndices(s: seq<Value>, olds: seq<Value>): (r: seq<Value>)
    requires AllPresent(s, olds)
    ensures |r| == |olds|
    ensures forall k :: 0 <= k < |olds| ==> r[k] == Int(FirstIndex(s, olds[k]))
    ensures ValidTargets(r, |r|, |s|)
  {
    seq(|olds|, k requires 0 <= k < |olds| => Int(FirstIndex(s, olds[k])))
  }

  /** `secondary += secondary[:p - s]`: a shorter secondary list is extended by its own prefix,
      a longer one is rejected with UnequalElements. */
  function PrefixPad(secondary: seq<Value>, p: nat): Result<seq<Value>>
  {
    if |secondary| > p then Err(UnequalElements)
    else if |secondary| < p then Ok(secondary + SliceTo(secondary, p - |secondary|))
    else Ok(secondary)
  }

  /** Prefix padding keeps the original elements in front and grows the list to `s + min(p - s, s)`,
      which reaches `p` only when `p <= 2 * s`. */
  lemma PrefixPadSpec(secondary: seq<Value>, p: nat)
    ensures PrefixPad(secondary, p).Ok? <==> |secondary| <= p
    ensures PrefixPad(secondary, p).Ok? ==>
      var r, s := PrefixPad(secondary, p).value, |secondary|;
      && secondary <= r
      && |r| == s + Min(p - s, s)
      && (forall k :: s <= k < |r| ==> r[k] == secondary[k - s])
      && (|r| == p <==> p <= 2 * s)
  {
  }

  /** A one-element list against a primary list of three comes back with two elements. */
  lemma PrefixPadCounterexample(secondary: seq<Value>)
    requires secondary == [Int(9)]
    ensures PrefixPad(secondary, 3) == Ok([Int(9), Int(9)])
  {
    assert SliceTo(secondary, 2) == secondary;
    assert secondary + secondary == [Int(9), Int(9)];
  }

  /** `equalizing_list_length` as its documentation describes it: a shorter, non-empty secondary list
      is repeated cyclically up to exactly the primary length. */
  function CyclicFill(secondary: seq<Value>, p: nat): Result<seq<Value>>
  {
    if |secondary| > p then Err(UnequalElements)
    else if secondary == [] then Ok(secondary)
    else Ok(seq(p, k requires 0 <= k < p => secondary[k % |secondary|]))
  }

  /** The fill fails exactly on a longer list; otherwise it keeps the original elements in front, repeats
      them in order, has exactly the primary length, and agrees with the prefix padding wherever that
      one reaches the primary length. */
  lemma CyclicFillSpec(secondary: seq<Value>, p: nat)
    ensures CyclicFill(secondary, p).Ok? <==> |secondary| <= p
    ensures CyclicFill(secondary, p).Ok? && secondary != [] ==>
      var r, s := CyclicFill(secondary, p).value, |secondary|;
      && |r| == p
      && secondary <= r
      && (forall k :: 0 <= k < p ==> r[k] == secondary[k % s])
      && (p <= 2 * s ==> PrefixPad(secondary, p) == Ok(r))
  {
    if 0 < |secondary| <= p {
      CyclicFillPrefix(secondary, p);
      if p <= 2 * |secondary| {
        CyclicFillAgrees(secondary, p);
      }
    }
  }

  lemma CyclicFillPrefix(secondary: seq<Value>, p: nat)
    requires 0 < |secondary| <= p
    ensures secondary <= CyclicFill(secondary, p).value
  {
    var s, r := |secondary|, CyclicFill(secondary, p).value;
    forall k | 0 <= k < s ensures r[k] == secondary[k] {
      ModUnique(k, s, 0, k);
    }
  }

  lemma CyclicFillAgrees(secondary: seq<Value>, p: nat)
    requires 0 < |secondary| <= p <= 2 * |secondary|
    ensures PrefixPad(secondary, p) == CyclicFill(secondary, p)
  {
    var s, r := |secondary|, CyclicFill(secondary, p).value;
    PrefixPadSpec(secondary, p);
    var q := PrefixPad(secondary, p).value;
    assert |q| == p;
    forall k | 0 <= k < p ensures r[k] == q[k] {
      if k < s {
        ModUnique(k, s, 0, k);
        assert q[k] == secondary[k];
      } else {
        ModUnique(k, s, 1, k - s);
      }
    }
    assert r == q;
  }

  /** `secondary * (p - s + 1)`: a shorter secondary list is repeated, a longer one is rejected
      with UnequalElements. */
  function CyclicPad(secondary: seq<Value>, p: nat): Result<seq<Value>>
  {
    if |secondary| > p then Err(UnequalElements)
    else if |secondary| < p then Ok(Repeat(secondary, p - |secondary| + 1))
    else Ok(secondary)
  }

  /** Cyclic padding makes element `k` equal to `secondary[k mod s]` and reaches at least `p` elements
      (when there is anything to repeat); it is exactly `p` long only when `s` is `p` or 1. */
  lemma CyclicPadSpec(secondary: seq<Value>, p: nat)
    ensures CyclicPad(secondary, p).Ok? <==> |secondary| <= p
    ensures CyclicPad(secondary, p).Ok? && |secondary| > 0 ==>
      var r, s := CyclicPad(secondary, p).value, |secondary|;
      && (forall k :: 0 <= k < |r| ==> r[k] == secondary[k % s])
      && |r| >= p
      && (|r| == p <==> s == p || s == 1)
  {
    var s := |secondary|;
    if 0 < s < p {
      var r := Repeat(secondary, p - s + 1);
      assert |r| == s * (p - s + 1) == p + (s - 1) * (p - s);
      if s > 1 {
        MulPos(s - 1, p - s);
      }
    } else if s == p && s > 0 {
      forall k | 0 <= k < s ensures k % s == k {
        ModUnique(k, s, 0, k);
      }
    }
  }

  lemma MulPos(a: int, b: int)
    requires a > 0 && b > 0
    ensures a * b > 0
  {
  }

  /** The loop `for i, v in zip(idx, vals): l[i] = v` on a list object. */
  method WriteZipped(l: PyList, idx: seq<Value>, vals: seq<Value>) returns (err: Option<Error>)
    modifies l
    ensures Outcome(l.elems, err) == ZipWrite(old(l.elems), idx, vals)
  {
    var k := 0;
    var m := Min(|idx|, |vals|);
    err := None;
    while k < m
      invariant 0 <= k <= m
      invariant ZipWrite(l.elems, idx[k..], vals[k..]) == ZipWrite(old(l.elems), idx, vals)
    {
      assert idx[k..][1..] == idx[k + 1..] && vals[k..][1..] == vals[k + 1..];
      var i := idx[k];
      if !i.Int? {
        return Some(TypeError);
      }
      if !InBounds(i.i, |l.elems|) {
        return Some(IndexError);
      }
      l.elems := l.elems[Normalize(i.i, |l.elems|) := vals[k]];
      k := k + 1;
    }
  }

  /** Writing values at the first occurrences of present elements raises nothing, leaves untargeted
      positions alone and gives each element's first occurrence the value of its last pair. */
  lemma FirstIndicesWrite(s: seq<Value>, olds: seq<Value>, vals: seq<Value>)
    requires AllPresent(s, olds)
    ensures var o, m := ZipWrite(s, FirstIndices(s, olds), vals), Min(|olds|, |vals|);
      && o.err == None
      && (forall p :: 0 <= p < |s| && (forall k :: 0 <= k < m ==> FirstIndex(s, olds[k]) != p) ==> o.elems[p] == s[p])
      && (forall k :: 0 <= k < m && (forall j :: k < j < m ==> olds[j] != olds[k])
            ==> o.elems[FirstIndex(s, olds[k])] == vals[k])
  {
    ZipWriteSuccess(s, FirstIndices(s, olds), vals);
    FirstIndicesKeep(s, olds, vals);
    FirstIndicesLand(s, olds, vals);
  }

  lemma FirstIndicesKeep(s: seq<Value>, olds: seq<Value>, vals: seq<Value>)
    requires AllPresent(s, olds)
    ensures var o, m := ZipWrite(s, FirstIndices(s, olds), vals), Min(|olds|, |vals|);
      forall p :: 0 <= p < |s| && (forall k :: 0 <= k < m ==> FirstIndex(s, olds[k]) != p) ==> o.elems[p] == s[p]
  {
    var idx, m := FirstIndices(s, olds), Min(|olds|, |vals|);
    var o := ZipWrite(s, idx, vals);
    ZipWriteSuccess(s, idx, vals);
    forall p | 0 <= p < |s| && (forall k :: 0 <= k < m ==> FirstIndex(s, olds[k]) != p) ensures o.elems[p] == s[p] {
      TargetsAvoid(s, olds, m, p);
    }
  }

  lemma TargetsAvoid(s: seq<Value>, olds: seq<Value>, m: nat, p: nat)
    requires AllPresent(s, olds) && m <= |olds|
    requires forall k :: 0 <= k < m ==> FirstIndex(s, olds[k]) != p
    ensures forall k :: 0 <= k < m ==> Target(FirstIndices(s, olds)[k], |s|) != p
  {
    var idx := FirstIndices(s, olds);
    forall k | 0 <= k < m ensures Target(idx[k], |s|) != p {
      assert Target(idx[k], |s|) == FirstIndex(s, olds[k]);
    }
  }

  lemma FirstIndicesLand(s: seq<Value>, olds: seq<Value>, vals: seq<Value>)
    requires AllPresent(s, olds)
    ensures var o, m := ZipWrite(s, FirstIndices(s, olds), vals), Min(|olds|, |vals|);
      forall k :: 0 <= k < m && (forall j :: k < j < m ==> olds[j] != olds[k]) ==> o.elems[FirstIndex(s, olds[k])] == vals[k]
  {
    var idx, m := FirstIndices(s, olds), Min(|olds|, |vals|);
    var o := ZipWrite(s, idx, vals);
    ZipWriteSuccess(s, idx, vals);
    forall k | 0 <= k < m && (forall j :: k < j < m ==> olds[j] != olds[k]) ensures o.elems[FirstIndex(s, olds[k])] == vals[k] {
      forall j | k < j < m ensures Target(idx[j], |s|) != Target(idx[k], |s|) {
        assert s[FirstIndex(s, olds[j])] == olds[j];
      }
      assert Target(idx[k], |s|) == FirstIndex(s, olds[k]);
    }
  }
}
