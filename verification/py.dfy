/** The slice of Python the library relies on: its values, its exceptions, mutable list objects,
    "scalar or list" arguments, and the semantics of `l[i] = v`, `l.index(x)` and `s[:d]`. */
module Py {

  /** A Python value as the list and dictionary helpers see it. */
  datatype Value = Int(i: int) | Str(s: string) | Tuple(items: seq<Value>) | List(items: seq<Value>)

  /** The exception kinds raised by the library (its own classes and the built-in ones it lets escape). */
  datatype Error =
    | ValueError
    | IndexError
    | TypeError
    | AlphabetFound
    | IndexOutOfList
    | UnequalElements
    | GotAnUnknownValue
    | InvalidInputParameter
    | LineNumberOutOfBounds
    | FileNotPresent

  datatype Option<+T> = None | Some(value: T)

  /** A call that returns a value or raises. */
  datatype Result<+T> = Ok(value: T) | Err(error: Error)

  /** A Python list object: callers that hold the same object see every in-place change. */
  class PyList {
    var elems: seq<Value>

    constructor (s: seq<Value>)
      ensures elems == s
    {
      elems := s;
    }
  }

  /** An argument typed "X or list of X": either a single value or a caller's list object. */
  datatype Arg = Scalar(v: Value) | ListArg(l: PyList)

  /** The objects an argument lets a callee reach. */
  function ArgRefs(a: Arg): set<PyList>
  {
    if a.ListArg? then {a.l} else {}
  }

  /** The elements an argument stands for once it is wrapped into a list. */
  function ArgElems(a: Arg): (r: seq<Value>)
    reads ArgRefs(a)
    ensures a.Scalar? ==> r == [a.v]
  {
    match a
    case Scalar(v) => [v]
    case ListArg(l) => l.elems
  }

  /** `x = [x] if not isinstance(x, list) else x`: a scalar is wrapped into a fresh list,
      a list argument is used as the very same object. */
  method AsList(a: Arg) returns (l: PyList)
    ensures a.ListArg? ==> l == a.l
    ensures a.Scalar? ==> fresh(l)
    ensures l.elems == ArgElems(a)
  {
    match a
    case Scalar(v) =>
      l := new PyList([v]);
    case ListArg(xs) =>
      l := xs;
  }

  /** Whether `l[i]` addresses an element of a list of length `n` (negative indices count from the end). */
  predicate InBounds(i: int, n: nat)
  {
    -(n as int) <= i < n
  }

  /** The position `l[i]` addresses. */
  function Normalize(i: int, n: nat): (p: nat)
    requires InBounds(i, n)
    ensures p < n
    ensures 0 <= i ==> p == i
    ensures i < 0 ==> p == i + n
  {
    if i < 0 then i + n else i
  }

  /** `l.index(x)`: the position of the first element equal to `x`. */
  function FirstIndex<T(==)>(s: seq<T>, x: T): (k: nat)
    requires x in s
    ensures k < |s| && s[k] == x
    ensures forall j :: 0 <= j < k ==> s[j] != x
  {
    if s[0] == x then 0 else 1 + FirstIndex(s[1..], x)
  }

  /** The slice `s[:d]`: a negative stop counts from the end, and stops beyond either end are clamped. */
  function SliceTo<T>(s: seq<T>, d: int): (r: seq<T>)
    ensures 0 <= d ==> |r| == if d < |s| then d else |s|
    ensures d < 0 ==> |r| == if -d < |s| then |s| + d else 0
    ensures r <= s
  {
    if d >= 0 then (if d < |s| then s[..d] else s)
    else if -d < |s| then s[..|s| + d]
    else []
  }

  /** The slice `s[lo:hi:step]` for a non-zero step, its bounds normalised as `slice.indices` does: with a
      positive step they are clamped into `[0, n]` and default to `0` and `n`; with a negative step they
      are clamped into `[-1, n - 1]` and default to `n - 1` and `-1`. Element `k` of the slice is the
      element at the start plus `k` steps. */
  function Slice<T>(s: seq<T>, lo: Option<int>, hi: Option<int>, step: int): (r: seq<T>)
    requires step != 0
    ensures |r| <= |s|
    ensures |r| == SliceCount(SliceStart(lo, |s|, step), SliceStop(hi, |s|, step), step)
    ensures forall k :: 0 <= k < |r| ==>
      0 <= SliceStart(lo, |s|, step) + k * step < |s| && r[k] == s[SliceStart(lo, |s|, step) + k * step]
  {
    var a := SliceStart(lo, |s|, step);
    var r := if step > 0 then SliceUp(s, a, SliceBound(hi, |s|, |s|), step)
             else SliceDown(s, a, DownBound(hi, |s|, -1), step);
    SliceAt(s, lo, hi, step, r);
    SliceCountAt(s, lo, hi, step, r);
    r
  }

  /** `len(range(0, d, step))` for a positive step: the number of `k >= 0` with `k * step < d`. */
  function Steps(d: int, step: nat): nat
    requires step > 0
  {
    if d <= 0 then 0 else (d - 1) / step + 1
  }

  /** The number of elements a slice from `a` towards the clamped stop `b` selects. */
  function SliceCount(a: int, b: int, step: int): nat
    requires step != 0
  {
    if step > 0 then Steps(b - a, step) else Steps(a - b, -step)
  }

  /** Where a slice stops (exclusive), once clamped. */
  function SliceStop(hi: Option<int>, n: nat, step: int): int
  {
    if step > 0 then SliceBound(hi, n, n) else DownBound(hi, n, -1)
  }

  lemma SliceCountAt<T>(s: seq<T>, lo: Option<int>, hi: Option<int>, step: int, r: seq<T>)
    requires step != 0
    requires r == if step > 0 then SliceUp(s, SliceStart(lo, |s|, step), SliceBound(hi, |s|, |s|), step)
                  else SliceDown(s, SliceStart(lo, |s|, step), DownBound(hi, |s|, -1), step)
    ensures |r| == SliceCount(SliceStart(lo, |s|, step), SliceStop(hi, |s|, step), step)
  {
    if step > 0 {
      SliceUpCount(s, SliceStart(lo, |s|, step), SliceBound(hi, |s|, |s|), step);
    } else {
      SliceDownCount(s, SliceStart(lo, |s|, step), DownBound(hi, |s|, -1), step);
    }
  }

  /** One more step in front adds one element to the count. */
  lemma StepsShift(d: int, step: nat)
    requires step > 0 && d > 0
    ensures Steps(d, step) == 1 + Steps(d - step, step)
  {
    if d - step <= 0 {
      DivUnique(d - 1, step, 0, d - 1);
    } else {
      var q, r := (d - step - 1) / step, (d - step - 1) % step;
      assert d - 1 == (q + 1) * step + r;
      DivUnique(d - 1, step, q + 1, r);
    }
  }

  lemma {:induction false} SliceUpCount<T>(s: seq<T>, i: nat, stop: nat, step: nat)
    requires stop <= |s| && step > 0
    ensures |SliceUp(s, i, stop, step)| == Steps(stop - i, step)
    decreases if i < stop then stop - i else 0
  {
    if i < stop {
      var rest := SliceUp(s, i + step, stop, step);
      assert SliceUp(s, i, stop, step) == [s[i]] + rest;
      SliceUpCount(s, i + step, stop, step);
      StepsShift(stop - i, step);
      assert (stop - i) - step == stop - (i + step);
    }
  }

  lemma {:induction false} SliceDownCount<T>(s: seq<T>, i: int, stop: int, step: int)
    requires -1 <= stop && i < |s| && step < 0
    ensures |SliceDown(s, i, stop, step)| == Steps(i - stop, -step)
    decreases if i > stop then i - stop else 0
  {
    if i > stop {
      var rest := SliceDown(s, i + step, stop, step);
      assert SliceDown(s, i, stop, step) == [s[i]] + rest;
      SliceDownCount(s, i + step, stop, step);
      StepsShift(i - stop, -step);
      assert (i - stop) - (-step) == (i + step) - stop;
    }
  }

  lemma SliceAt<T>(s: seq<T>, lo: Option<int>, hi: Option<int>, step: int, r: seq<T>)
    requires step != 0
    requires r == if step > 0 then SliceUp(s, SliceStart(lo, |s|, step), SliceBound(hi, |s|, |s|), step)
                  else SliceDown(s, SliceStart(lo, |s|, step), DownBound(hi, |s|, -1), step)
    ensures forall k :: 0 <= k < |r| ==>
      0 <= SliceStart(lo, |s|, step) + k * step < |s| && r[k] == s[SliceStart(lo, |s|, step) + k * step]
  {
    var a := SliceStart(lo, |s|, step);
    if step > 0 {
      SliceUpAt(s, a, SliceBound(hi, |s|, |s|), step);
    } else {
      SliceDownAt(s, a, DownBound(hi, |s|, -1), step);
    }
    forall k | 0 <= k < |r|
      ensures 0 <= a + k * step < |s| && r[k] == s[a + k * step]
    {
      StrideIsProduct(a, step, k);
    }
  }

  /** Where a slice starts. */
  function SliceStart(lo: Option<int>, n: nat, step: int): int
  {
    if step > 0 then SliceBound(lo, n, 0) else DownBound(lo, n, n - 1)
  }

  /** A bound of a slice with a negative step, clamped into `[-1, n - 1]`. */
  function DownBound(b: Option<int>, n: nat, default: int): (r: int)
    requires -1 <= default <= n - 1
    ensures -1 <= r <= n - 1
  {
    match b
    case None => default
    case Some(x) =>
      if x < 0 then (if x + n < 0 then -1 else x + n)
      else if x > n - 1 then n - 1
      else x
  }

  /** Every `step`-th element from position `i` up to, and not including, `stop`. */
  function SliceUp<T>(s: seq<T>, i: nat, stop: nat, step: nat): (r: seq<T>)
    requires stop <= |s| && step > 0
    ensures |r| <= if i < stop then stop - i else 0
    decreases if i < stop then stop - i else 0
  {
    if i < stop then [s[i]] + SliceUp(s, i + step, stop, step) else []
  }

  /** Every `-step`-th element from position `i` down to, and not including, `stop`. */
  function SliceDown<T>(s: seq<T>, i: int, stop: int, step: int): (r: seq<T>)
    requires -1 <= stop && i < |s| && step < 0
    ensures |r| <= if i > stop then i - stop else 0
    decreases if i > stop then i - stop else 0
  {
    if i > stop then [s[i]] + SliceDown(s, i + step, stop, step) else []
  }

  /** The position `k` steps of `step` away from `i`. */
  function Stride(i: int, step: int, k: nat): int
    decreases k
  {
    if k == 0 then i else Stride(i + step, step, k - 1)
  }

  lemma {:induction false} StrideIsProduct(i: int, step: int, k: nat)
    ensures Stride(i, step, k) == i + k * step
    decreases k
  {
    if k > 0 {
      StrideIsProduct(i + step, step, k - 1);
      assert (k - 1) * step == k * step - step;
    }
  }

  lemma {:induction false} SliceUpAt<T>(s: seq<T>, i: nat, stop: nat, step: nat)
    requires stop <= |s| && step > 0
    ensures var r := SliceUp(s, i, stop, step);
      forall k :: 0 <= k < |r| ==> i <= Stride(i, step, k) < stop && r[k] == s[Stride(i, step, k)]
    decreases if i < stop then stop - i else 0
  {
    if i < stop {
      var r, rest := SliceUp(s, i, stop, step), SliceUp(s, i + step, stop, step);
      SliceUpAt(s, i + step, stop, step);
      forall k | 1 <= k < |r| ensures i <= Stride(i, step, k) < stop && r[k] == s[Stride(i, step, k)] {
        assert r[k] == rest[k - 1];
      }
    }
  }

  lemma {:induction false} SliceDownAt<T>(s: seq<T>, i: int, stop: int, step: int)
    requires -1 <= stop && i < |s| && step < 0
    ensures var r := SliceDown(s, i, stop, step);
      forall k :: 0 <= k < |r| ==> stop < Stride(i, step, k) <= i && r[k] == s[Stride(i, step, k)]
    decreases if i > stop then i - stop else 0
  {
    if i > stop {
      var r, rest := SliceDown(s, i, stop, step), SliceDown(s, i + step, stop, step);
      SliceDownAt(s, i + step, stop, step);
      forall k | 1 <= k < |r| ensures stop < Stride(i, step, k) <= i && r[k] == s[Stride(i, step, k)] {
        assert r[k] == rest[k - 1];
      }
    }
  }

  /** With step 1 a slice is the contiguous run between its clamped bounds. */
  lemma SliceStepOne<T>(s: seq<T>, lo: Option<int>, hi: Option<int>)
    ensures var a, b := SliceBound(lo, |s|, 0), SliceBound(hi, |s|, |s|);
      Slice(s, lo, hi, 1) == if a < b then s[a..b] else []
  {
    SliceUpOne(s, SliceBound(lo, |s|, 0), SliceBound(hi, |s|, |s|));
  }

  lemma {:induction false} SliceUpOne<T>(s: seq<T>, i: nat, stop: nat)
    requires stop <= |s|
    ensures SliceUp(s, i, stop, 1) == if i < stop then s[i..stop] else []
    decreases if i < stop then stop - i else 0
  {
    if i < stop {
      SliceUpOne(s, i + 1, stop);
      assert s[i..stop] == [s[i]] + s[i + 1..stop];
    }
  }

  /** `s[::-1]` is `s` reversed. */
  lemma SliceReversed<T>(s: seq<T>)
    ensures var r := Slice(s, None, None, -1);
      |r| == |s| && forall k :: 0 <= k < |s| ==> r[k] == s[|s| - 1 - k]
  {
    SliceDownLength(s, |s| - 1, -1);
  }

  lemma {:induction false} SliceDownLength<T>(s: seq<T>, i: int, stop: int)
    requires -1 <= stop && i < |s|
    ensures |SliceDown(s, i, stop, -1)| == if i > stop then i - stop else 0
    decreases if i > stop then i - stop else 0
  {
    if i > stop {
      SliceDownLength(s, i - 1, stop);
    }
  }

  /** A slice bound clamped into `[0, n]`; an omitted bound takes its default. */
  function SliceBound(b: Option<int>, n: nat, default: nat): (r: nat)
    requires default <= n
    ensures r <= n
  {
    match b
    case None => default
    case Some(x) =>
      if x < 0 then (if x + n < 0 then 0 else x + n)
      else if x > n then n
      else x
  }

  /** Python's `x * k` on a list: `k` copies of `x` one after the other. */
  function Repeat<T>(x: seq<T>, k: nat): (r: seq<T>)
    ensures |r| == |x| * k
    ensures forall j :: 0 <= j < |r| ==> r[j] == x[j % |x|]
  {
    if k == 0 then []
    else
      var rest := Repeat(x, k - 1);
      RepeatStep(x, rest, k);
      x + rest
  }

  lemma RepeatStep<T>(x: seq<T>, rest: seq<T>, k: nat)
    requires 0 < k && |rest| == |x| * (k - 1)
    requires forall j :: 0 <= j < |rest| ==> rest[j] == x[j % |x|]
    ensures |x + rest| == |x| * k
    ensures forall j :: 0 <= j < |x + rest| ==> (x + rest)[j] == x[j % |x|]
  {
    assert |x| * k == |x| + |x| * (k - 1);
    forall j | 0 <= j < |x + rest| ensures (x + rest)[j] == x[j % |x|] {
      if j < |x| {
        ModUnique(j, |x|, 0, j);
      } else {
        ModShift(j - |x|, |x|);
      }
    }
  }

  lemma ModShift(a: nat, m: nat)
    requires 0 < m
    ensures (a + m) % m == a % m
  {
    var q := a / m;
    assert a == m * q + a % m;
    assert a + m == (q + 1) * m + a % m;
    ModUnique(a + m, m, q + 1, a % m);
  }

  /** Euclidean division has a unique quotient. */
  lemma DivUnique(a: int, m: int, q: int, r: int)
    requires 0 < m && 0 <= r < m && a == q * m + r
    ensures a / m == q
  {
    ModUnique(a, m, q, r);
    var q' := a / m;
    assert a == m * q' + r;
    assert (q - q') * m == 0 by {
      assert q * m - q' * m == (q - q') * m;
    }
    if q > q' {
      MulMono(q - q', m);
    } else if q < q' {
      MulMono(q' - q, m);
    }
  }

  /** Euclidean division leaves a unique remainder. */
  lemma ModUnique(a: int, m: int, q: int, r: int)
    requires 0 < m && 0 <= r < m && a == q * m + r
    ensures a % m == r
  {
    var q', r' := a / m, a % m;
    assert a == m * q' + r';
    assert (q - q') * m == r' - r by {
      assert q * m - q' * m == (q - q') * m;
    }
    if q > q' {
      MulMono(q - q', m);
    } else if q < q' {
      MulMono(q' - q, m);
    }
  }

  lemma MulMono(d: int, m: int)
    requires 0 < m && 1 <= d
    ensures d * m >= m
  {
    if d > 1 {
      MulMono(d - 1, m);
      assert d * m == (d - 1) * m + m;
    }
  }
}
