/** Python's ordering of values, as used by `sorted()` and `list.sort()`. */
module Order {
  import opened Py
  import Sorting

  /** The kind of a value; values of different kinds cannot be ordered by Python. */
  function Kind(v: Value): nat
  {
    match v
    case Int(_) => 0
    case Str(_) => 1
    case Tuple(_) => 2
    case List(_) => 3
  }

  /** `a <= b` on strings: lexicographic by code point. */
  predicate StrLe(a: string, b: string)
  {
    if |a| == 0 then true
    else if |b| == 0 then false
    else if a[0] == b[0] then StrLe(a[1..], b[1..])
    else a[0] < b[0]
  }

  /** A total order on values that is Python's `<=` wherever Python can compare the two values:
      integers numerically, strings by code point, tuples and lists lexicographically.
      Values of different kinds, which Python refuses to compare, are ranked by kind. */
  predicate ValueLe(a: Value, b: Value)
  {
    if Kind(a) != Kind(b) then Kind(a) < Kind(b)
    else match a
      case Int(x) => x <= b.i
      case Str(x) => StrLe(x, b.s)
      case Tuple(x) => ItemsLe(x, b.items)
      case List(x) => ItemsLe(x, b.items)
  }

  /** Lexicographic comparison of two item sequences: the first unequal pair decides, a prefix comes first. */
  predicate ItemsLe(x: seq<Value>, y: seq<Value>)
  {
    if |x| == 0 then true
    else if |y| == 0 then false
    else if x[0] == y[0] then ItemsLe(x[1..], y[1..])
    else ValueLe(x[0], y[0])
  }

  /** Whether Python evaluates `a < b` without raising TypeError. */
  predicate Comparable(a: Value, b: Value)
  {
    Kind(a) == Kind(b) && ((a.Tuple? || a.List?) ==> ItemsComparable(a.items, b.items))
  }

  predicate ItemsComparable(x: seq<Value>, y: seq<Value>)
  {
    if |x| == 0 || |y| == 0 then true
    else if x[0] == y[0] then ItemsComparable(x[1..], y[1..])
    else Comparable(x[0], y[0])
  }

  /** Whether every pair of elements can be compared, so that `sorted(s)` cannot raise. */
  predicate AllComparable(s: seq<Value>)
  {
    forall i, j :: 0 <= i < |s| && 0 <= j < |s| ==> Comparable(s[i], s[j])
  }

  lemma {:induction false} StrLeTotal(a: string, b: string)
    ensures StrLe(a, b) || StrLe(b, a)
  {
    if |a| > 0 && |b| > 0 && a[0] == b[0] {
      StrLeTotal(a[1..], b[1..]);
    }
  }

  lemma {:induction false} StrLeTrans(a: string, b: string, c: string)
    requires StrLe(a, b) && StrLe(b, c)
    ensures StrLe(a, c)
  {
    if |a| > 0 && |b| > 0 && |c| > 0 && a[0] == b[0] && b[0] == c[0] {
      StrLeTrans(a[1..], b[1..], c[1..]);
    }
  }

  lemma {:induction false} StrLeAntisym(a: string, b: string)
    requires StrLe(a, b) && StrLe(b, a)
    ensures a == b
  {
    if |a| > 0 && |b| > 0 {
      StrLeAntisym(a[1..], b[1..]);
      assert a == [a[0]] + a[1..];
      assert b == [b[0]] + b[1..];
    }
  }

  lemma {:induction false} ValueLeTotal(a: Value, b: Value)
    ensures ValueLe(a, b) || ValueLe(b, a)
    decreases a
  {
    if Kind(a) == Kind(b) {
      match a
      case Int(_) =>
      case Str(x) => StrLeTotal(x, b.s);
      case Tuple(x) => ItemsLeTotal(x, b.items);
      case List(x) => ItemsLeTotal(x, b.items);
    }
  }

  lemma {:induction false} ItemsLeTotal(x: seq<Value>, y: seq<Value>)
    ensures ItemsLe(x, y) || ItemsLe(y, x)
    decreases x
  {
    if |x| > 0 && |y| > 0 {
      if x[0] == y[0] {
        ItemsLeTotal(x[1..], y[1..]);
      } else {
        ValueLeTotal(x[0], y[0]);
      }
    }
  }

  lemma {:induction false} ValueLeTrans(a: Value, b: Value, c: Value)
    requires ValueLe(a, b) && ValueLe(b, c)
    ensures ValueLe(a, c)
    decreases a
  {
    if Kind(a) == Kind(b) == Kind(c) {
      match a
      case Int(_) =>
      case Str(x) => StrLeTrans(x, b.s, c.s);
      case Tuple(x) => ItemsLeTrans(x, b.items, c.items);
      case List(x) => ItemsLeTrans(x, b.items, c.items);
    }
  }

  lemma {:induction false} ItemsLeTrans(x: seq<Value>, y: seq<Value>, z: seq<Value>)
    requires ItemsLe(x, y) && ItemsLe(y, z)
    ensures ItemsLe(x, z)
    decreases x
  {
    if |x| > 0 && |y| > 0 && |z| > 0 {
      if x[0] == y[0] && y[0] == z[0] {
        ItemsLeTrans(x[1..], y[1..], z[1..]);
      } else if x[0] == y[0] {
        // y[0] != z[0]: y[0] < z[0] decides both
      } else if y[0] == z[0] {
        // x[0] != y[0]: x[0] < y[0] decides both
      } else {
        ValueLeTrans(x[0], y[0], z[0]);
        if x[0] == z[0] {
          ValueLeAntisym(x[0], y[0]);
        }
      }
    }
  }

  lemma {:induction false} ValueLeAntisym(a: Value, b: Value)
    requires ValueLe(a, b) && ValueLe(b, a)
    ensures a == b
    decreases a
  {
    match a
    case Int(_) =>
    case Str(x) => StrLeAntisym(x, b.s);
    case Tuple(x) => ItemsLeAntisym(x, b.items);
    case List(x) => ItemsLeAntisym(x, b.items);
  }

  lemma {:induction false} ItemsLeAntisym(x: seq<Value>, y: seq<Value>)
    requires ItemsLe(x, y) && ItemsLe(y, x)
    ensures x == y
    decreases x
  {
    if |x| > 0 && |y| > 0 {
      if x[0] == y[0] {
        ItemsLeAntisym(x[1..], y[1..]);
        assert x == [x[0]] + x[1..];
        assert y == [y[0]] + y[1..];
      } else {
        ValueLeAntisym(x[0], y[0]);
      }
    }
  }

  /** String comparison is a total order, so `sorted()` on strings has one answer. */
  lemma StrLeIsOrder()
    ensures Sorting.TotalPreorder(StrLe) && Sorting.Antisymmetric(StrLe)
  {
    forall a, b ensures StrLe(a, b) || StrLe(b, a) {
      StrLeTotal(a, b);
    }
    forall a, b, c | StrLe(a, b) && StrLe(b, c) ensures StrLe(a, c) {
      StrLeTrans(a, b, c);
    }
    forall a, b | StrLe(a, b) && StrLe(b, a) ensures a == b {
      StrLeAntisym(a, b);
    }
  }

  /** `ValueLe` is a total order on values. */
  lemma ValueLeIsOrder()
    ensures Sorting.TotalPreorder(ValueLe) && Sorting.Antisymmetric(ValueLe)
  {
    forall a, b ensures ValueLe(a, b) || ValueLe(b, a) {
      ValueLeTotal(a, b);
    }
    forall a, b, c | ValueLe(a, b) && ValueLe(b, c) ensures ValueLe(a, c) {
      ValueLeTrans(a, b, c);
    }
    forall a, b | ValueLe(a, b) && ValueLe(b, a) ensures a == b {
      ValueLeAntisym(a, b);
    }
  }
}
