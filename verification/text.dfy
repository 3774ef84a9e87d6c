/** Conversions between numbers and text, and the character tests the library uses:
    `str(n)`, `int(s)`, `str.isalpha`, `str.center`, and `is_alphabet` (src/ezPy/ez_misc.py). */
module Text {
  import opened Py

  predicate IsDigit(c: char)
  {
    '0' <= c <= '9'
  }

  predicate IsAsciiLetter(c: char)
  {
    ('A' <= c <= 'Z') || ('a' <= c <= 'z')
  }

  function DigitChar(d: nat): (c: char)
    requires d < 10
    ensures IsDigit(c) && c as int - '0' as int == d
  {
    (d + '0' as int) as char
  }

  /** Decimal digits of a natural number, most significant first, without leading zeros. */
  function NatToString(n: nat): (r: string)
    ensures |r| > 0
    ensures forall i :: 0 <= i < |r| ==> IsDigit(r[i])
  {
    if n < 10 then [DigitChar(n)] else NatToString(n / 10) + [DigitChar(n % 10)]
  }

  /** `str(n)` for an integer. */
  function IntToString(n: int): (r: string)
    ensures |r| > 0
  {
    if n < 0 then "-" + NatToString(-n) else NatToString(n)
  }

  /** The value of a non-empty string of decimal digits. */
  function DigitsValue(s: string): nat
    requires forall i :: 0 <= i < |s| ==> IsDigit(s[i])
  {
    if |s| == 0 then 0
    else DigitsValue(s[..|s| - 1]) * 10 + DigitValue(s[|s| - 1])
  }

  function DigitValue(c: char): (d: nat)
    requires IsDigit(c)
    ensures d < 10
  {
    c as int - '0' as int
  }

  predicate AllDigits(s: string)
  {
    |s| > 0 && forall i :: 0 <= i < |s| ==> IsDigit(s[i])
  }

  /** `int(s)`: an optional sign followed by at least one decimal digit; anything else raises ValueError. */
  function ParseInt(s: string): Result<int>
  {
    if |s| > 0 && (s[0] == '-' || s[0] == '+') then
      if AllDigits(s[1..]) then
        var n: int := DigitsValue(s[1..]);
        Ok(if s[0] == '-' then -n else n)
      else Err(ValueError)
    else if AllDigits(s) then Ok(DigitsValue(s))
    else Err(ValueError)
  }

  lemma {:induction false} DigitsValueOfNat(n: nat)
    ensures DigitsValue(NatToString(n)) == n
  {
    if n >= 10 {
      var s := NatToString(n);
      assert s[..|s| - 1] == NatToString(n / 10);
      DigitsValueOfNat(n / 10);
    }
  }

  /** `int(str(n)) == n` for every integer. */
  lemma IntStringRoundTrip(n: int)
    ensures ParseInt(IntToString(n)) == Ok(n)
  {
    if n < 0 {
      NegativeRoundTrip(n);
    } else {
      NaturalRoundTrip(n);
    }
  }

  lemma NegativeRoundTrip(n: int)
    requires n < 0
    ensures ParseInt(IntToString(n)) == Ok(n)
  {
    var s := IntToString(n);
    var t := NatToString(-n);
    assert s[0] == '-' && s[1..] == t;
    assert AllDigits(t);
    DigitsValueOfNat(-n);
  }

  lemma NaturalRoundTrip(n: nat)
    ensures ParseInt(IntToString(n)) == Ok(n)
  {
    var t := NatToString(n);
    assert t[0] != '-' && t[0] != '+' by {
      assert IsDigit(t[0]);
    }
    assert AllDigits(t);
    DigitsValueOfNat(n);
  }

  /** `str.isalpha()`: non-empty and made of letters only (ASCII letters in this model). */
  predicate IsAlpha(s: string)
  {
    |s| > 0 && forall i :: 0 <= i < |s| ==> IsAsciiLetter(s[i])
  }

  /** No rendering of an integer is alphabetic, because it always holds a digit. */
  lemma IntStringNotAlpha(n: int)
    ensures !IsAlpha(IntToString(n))
  {
    var s := IntToString(n);
    var k := if n < 0 then 1 else 0;
    assert IsDigit(s[k]);
  }

  /** `list(map(str, num_list))`: element by element the decimal text of each number; the lemmas
      below show that parsing the result gives the numbers back. */
  function NumericListToString(xs: seq<int>): (r: seq<string>)
    ensures |r| == |xs|
    ensures forall i :: 0 <= i < |xs| ==> r[i] == IntToString(xs[i])
  {
    seq(|xs|, i requires 0 <= i < |xs| => IntToString(xs[i]))
  }

  /** `list(map(int, str_list))`: the first element `int()` rejects raises ValueError. */
  function ParseAll(ss: seq<string>): Result<seq<int>>
  {
    if ss == [] then Ok([])
    else match ParseInt(ss[0])
      case Err(e) => Err(e)
      case Ok(n) =>
        match ParseAll(ss[1..])
        case Err(e) => Err(e)
        case Ok(rest) => Ok([n] + rest)
  }

  /** `string_list_to_numeric` (src/mpyez/list_.py:59-65, src/mpyez/ezList.py:55-61): AlphabetFound when
      any element is alphabetic, otherwise every element through `int()`. */
  function StringListToNumeric(ss: seq<string>): Result<seq<int>>
  {
    if exists i :: 0 <= i < |ss| && IsAlpha(ss[i]) then Err(AlphabetFound)
    else ParseAll(ss)
  }

  /** `int()` itself never reports AlphabetFound, so that error means exactly "some element is alphabetic". */
  lemma {:induction false} ParseAllNeverAlphabet(ss: seq<string>)
    ensures ParseAll(ss) != Err(AlphabetFound)
  {
    if ss != [] {
      ParseAllNeverAlphabet(ss[1..]);
    }
  }

  lemma StringListToNumericAlphabet(ss: seq<string>)
    ensures StringListToNumeric(ss) == Err(AlphabetFound) <==> exists i :: 0 <= i < |ss| && IsAlpha(ss[i])
  {
    ParseAllNeverAlphabet(ss);
  }

  lemma {:induction false} ParseAllOfStrings(xs: seq<int>)
    ensures ParseAll(NumericListToString(xs)) == Ok(xs)
  {
    if xs != [] {
      var ss := NumericListToString(xs);
      assert ss[1..] == NumericListToString(xs[1..]);
      IntStringRoundTrip(xs[0]);
      ParseAllOfStrings(xs[1..]);
      assert xs == [xs[0]] + xs[1..];
    }
  }

  /** `string_list_to_numeric(numeric_list_to_string(xs)) == xs`. */
  lemma NumericStringRoundTrip(xs: seq<int>)
    ensures StringListToNumeric(NumericListToString(xs)) == Ok(xs)
  {
    var ss := NumericListToString(xs);
    forall i | 0 <= i < |ss| ensures !IsAlpha(ss[i]) {
      IntStringNotAlpha(xs[i]);
    }
    ParseAllOfStrings(xs);
  }

  /** `repr()` of a value nested inside a container. */
  function Repr(v: Value): string
  {
    match v
    case Int(n) => IntToString(n)
    case Str(s) => "'" + s + "'"
    case Tuple(xs) => "(" + JoinRepr(xs) + (if |xs| == 1 then ",)" else ")")
    case List(xs) => "[" + JoinRepr(xs) + "]"
  }

  function JoinRepr(xs: seq<Value>): string
  {
    if xs == [] then ""
    else if |xs| == 1 then Repr(xs[0])
    else Repr(xs[0]) + ", " + JoinRepr(xs[1..])
  }

  /** `str(v)`: a string is itself, anything else its `repr`. */
  function Display(v: Value): string
  {
    if v.Str? then v.s else Repr(v)
  }

  /** `is_alphabet` (src/ezPy/ez_misc.py:39-42): whether `str(input_)` holds an ASCII letter. */
  predicate IsAlphabet(v: Value)
  {
    exists i :: 0 <= i < |Display(v)| && IsAsciiLetter(Display(v)[i])
  }

  lemma {:induction false} NatStringHasNoLetter(n: nat)
    ensures forall i :: 0 <= i < |NatToString(n)| ==> !IsAsciiLetter(NatToString(n)[i])
  {
  }

  /** Integers are never alphabetic; a string is alphabetic iff it holds an ASCII letter, so `'A'` is
      and the empty string, digits and punctuation are not. */
  lemma IsAlphabetCases(n: int, s: string)
    ensures !IsAlphabet(Int(n))
    ensures IsAlphabet(Str(s)) <==> exists i :: 0 <= i < |s| && IsAsciiLetter(s[i])
    ensures IsAlphabet(Str("A")) && !IsAlphabet(Str("")) && !IsAlphabet(Str("1.5-2"))
  {
    var d := Display(Int(n));
    assert Display(Str(s)) == s;
    if n < 0 {
      NatStringHasNoLetter(-n);
      assert forall i :: 1 <= i < |d| ==> d[i] == NatToString(-n)[i - 1];
    } else {
      NatStringHasNoLetter(n);
    }
    assert Display(Str("A"))[0] == 'A';
    var p := "1.5-2";
    assert forall i :: 0 <= i < |p| ==> p[i] in {'1', '.', '5', '-', '2'};
  }

  /** `s.center(w)`: pads with spaces to width `w`, the extra space going left when both the padding
      and `w` are odd; a string at least `w` long is returned unchanged. */
  function Center(s: string, w: int): (r: string)
    ensures |r| == if w <= |s| then |s| else w
    ensures w <= |s| ==> r == s
    ensures w > |s| ==> exists left :: 0 <= left <= w - |s| && r == Spaces(left) + s + Spaces(w - |s| - left)
  {
    if w <= |s| then s
    else
      var marg := w - |s|;
      var left := marg / 2 + (if marg % 2 == 1 && w % 2 == 1 then 1 else 0);
      Spaces(left) + s + Spaces(marg - left)
  }

  function Spaces(n: nat): (r: string)
    ensures |r| == n
    ensures forall i :: 0 <= i < n ==> r[i] == ' '
  {
    seq(n, _ => ' ')
  }
}
