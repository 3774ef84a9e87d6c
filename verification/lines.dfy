/** Line selection of the text readers: validating requested line numbers against a file's length
    (src/mpyez/backend/uIO.py and the older src/mpyez/utilities/read_files/utilities.py), and picking
    the requested lines (src/mpyez/ezIO.py, src/mpyez/read_files.py). The file's lines are an input. */
module Lines {
  import opened Py
  import Seqs

  predicate AllInts(s: seq<Value>)
  {
    forall i :: 0 <= i < |s| ==> s[i].Int?
  }

  /** The integers held by a list of int values. */
  function AsInts(s: seq<Value>): (r: seq<int>)
    requires AllInts(s)
    ensures |r| == |s| && forall i :: 0 <= i < |s| ==> r[i] == s[i].i
  {
    seq(|s|, i requires 0 <= i < |s| => s[i].i)
  }

  function AsValues(s: seq<int>): (r: seq<Value>)
    ensures |r| == |s| && AllInts(r) && forall i :: 0 <= i < |s| ==> r[i] == Int(s[i])
  {
    seq(|s|, i requires 0 <= i < |s| => Int(s[i]))
  }

  lemma IntsRoundTrip(s: seq<int>)
    ensures AsInts(AsValues(s)) == s
  {
  }

  lemma ValuesRoundTrip(s: seq<Value>)
    requires AllInts(s)
    ensures AsValues(AsInts(s)) == s
  {
  }

  /** `max(s)`. */
  function Max(s: seq<int>): (m: int)
    requires s != []
    ensures m in s && forall i :: 0 <= i < |s| ==> s[i] <= m
  {
    if |s| == 1 then s[0]
    else
      var rest := Max(s[1..]);
      assert forall i :: 1 <= i < |s| ==> s[i] == s[1..][i - 1];
      if s[0] >= rest then s[0] else rest
  }

  /** `min(s)`. */
  function Min(s: seq<int>): (m: int)
    requires s != []
    ensures m in s && forall i :: 0 <= i < |s| ==> m <= s[i]
  {
    if |s| == 1 then s[0]
    else
      var rest := Min(s[1..]);
      assert forall i :: 1 <= i < |s| ==> s[i] == s[1..][i - 1];
      if s[0] <= rest then s[0] else rest
  }

  predicate NonNegative(s: seq<int>)
  {
    forall i :: 0 <= i < |s| ==> s[i] >= 0
  }

  /** The requested line numbers after a check, and the exception it raised, if any. */
  datatype Checked = Checked(lines: seq<int>, err: Option<Error>)

  /** Every negative line number counted from the end of a file of `n` lines. */
  function Normalized(s: seq<int>, n: nat): (r: seq<int>)
    ensures |r| == |s|
    ensures forall i :: 0 <= i < |s| ==> r[i] == if s[i] < 0 then s[i] + n else s[i]
  {
    seq(|s|, i requires 0 <= i < |s| => if s[i] < 0 then s[i] + n else s[i])
  }

  /** `check_for_errors` of src/mpyez/backend/uIO.py for a file of `n` lines: `max` of no request raises
      ValueError; non-negative requests are checked against the last line; otherwise only the most
      negative one is checked, and the negative ones are then counted from the end. */
  function CheckSpec(n: nat, s: seq<int>): Checked
  {
    if s == [] then Checked(s, Some(ValueError))
    else if NonNegative(s) then Checked(s, if Max(s) >= n then Some(LineNumberOutOfBounds) else None)
    else if -Min(s) > n then Checked(s, Some(LineNumberOutOfBounds))
    else Checked(Normalized(s, n), None)
  }

  /** What the check raises and how it leaves the list: with only non-negative requests it raises exactly
      when one is past the last line; with a negative one, exactly when one lies before the first
      line. A failing check changes nothing; a passing one counts each negative request from the end,
      which lands it on a line of the file, and leaves the others as they were. */
  lemma CheckSpecCorrect(n: nat, s: seq<int>)
    ensures var c := CheckSpec(n, s);
      && |c.lines| == |s|
      && (c.err == Some(ValueError) <==> s == [])
      && (c.err.Some? ==> c.lines == s)
      && (s != [] && NonNegative(s) ==>
            (c.err.Some? <==> exists i :: 0 <= i < |s| && s[i] >= n))
      && (!NonNegative(s) ==>
            (c.err.Some? <==> exists i :: 0 <= i < |s| && s[i] + n < 0))
      && (c.err.Some? ==> c.err == Some(ValueError) || c.err == Some(LineNumberOutOfBounds))
      && (c.err == None ==> forall i :: 0 <= i < |s| ==>
            && (s[i] < 0 ==> c.lines[i] == s[i] + n && 0 <= c.lines[i] < n)
            && (s[i] >= 0 ==> c.lines[i] == s[i]))
  {
    if s != [] && !NonNegative(s) {
      var m := Min(s);
      var k :| 0 <= k < |s| && s[k] == m;
      assert s[k] < 0;
    }
  }

  /** With requests of both signs the non-negative ones go unchecked: `[-1, 5]` against a file of three
      lines passes and becomes `[2, 5]`, so line 5 is silently not read. */
  lemma MixedSignsUnchecked(s: seq<int>)
    requires s == [-1, 5]
    ensures CheckSpec(3, s) == Checked([2, 5], None)
  {
    assert !NonNegative(s) by {
      assert s[0] < 0;
    }
    assert Min(s) == -1;
  }

  /** `check_for_errors` of src/mpyez/backend/uIO.py on the caller's list of int line numbers: it raises,
      or rewrites the negative entries in place. */
  method CheckForErrors(fileLength: nat, linesToRead: PyList) returns (err: Option<Error>)
    requires AllInts(linesToRead.elems)
    modifies linesToRead
    ensures var c := CheckSpec(fileLength, AsInts(old(linesToRead.elems)));
      linesToRead.elems == AsValues(c.lines) && err == c.err
  {
    var s := AsInts(linesToRead.elems);
    ValuesRoundTrip(linesToRead.elems);
    if s == [] {
      return Some(ValueError);
    }
    if NonNegative(s) {
      if Max(s) >= fileLength {
        return Some(LineNumberOutOfBounds);
      }
      return None;
    }
    if -Min(s) > fileLength {
      return Some(LineNumberOutOfBounds);
    }
    ghost var target := Normalized(s, fileLength);
    var idx := 0;
    while idx < |linesToRead.elems|
      invariant 0 <= idx <= |linesToRead.elems| == |s|
      invariant forall i :: 0 <= i < |s| ==> linesToRead.elems[i] == Int(if i < idx then target[i] else s[i])
    {
      var line := linesToRead.elems[idx].i;
      if line < 0 {
        linesToRead.elems := linesToRead.elems[idx := Int(line + fileLength)];
      }
      idx := idx + 1;
    }
    assert linesToRead.elems == AsValues(target);
    return None;
  }

  /** The number of negative entries. */
  function NegativeCount(s: seq<int>): (c: nat)
    ensures c <= |s|
    ensures c == 0 <==> NonNegative(s)
  {
    if s == [] then 0
    else
      var rest := NegativeCount(s[1..]);
      assert forall i :: 1 <= i < |s| ==> s[i] == s[1..][i - 1];
      assert NonNegative(s[1..]) && s[0] >= 0 ==> NonNegative(s);
      (if s[0] < 0 then 1 else 0) + rest
  }

  /** `check_for_errors` of src/mpyez/utilities/read_files/utilities.py AS WRITTEN: the comparisons of
      its first comprehension raise TypeError for a non-int entry, and its adjustment loop runs over the
      boolean mask and writes `lines_to_read[True]`, that is position 1, once for every negative entry
      (IndexError when the list has a single entry). */
  function OldCheckSpec(n: nat, s: seq<Value>): (c: Outcome)
    ensures c.elems == s || (AllInts(s) && |s| >= 2 && c.err == None)
  {
    if !AllInts(s) then Outcome(s, Some(TypeError))
    else
      var xs := AsInts(s);
      if xs == [] then Outcome(s, Some(ValueError))
      else if NonNegative(xs) then Outcome(s, if Max(xs) > n - 1 then Some(LineNumberOutOfBounds) else None)
      else if -Min(xs) > n then Outcome(s, Some(LineNumberOutOfBounds))
      else if |s| < 2 then Outcome(s, Some(IndexError))
      else Outcome(s[1 := Int(AddTimes(xs[1], NegativeCount(xs), n))], None)
  }

  /** The list after a loop over it, and the exception that stopped the loop, if any. */
  datatype Outcome = Outcome(elems: seq<Value>, err: Option<Error>)

  /** The old check agrees with the new one on its error cases; where the new one counts negative
      requests from the end, the old one leaves them negative and moves entry 1 instead. */
  lemma OldCheckAgreesOnErrors(n: nat, s: seq<int>)
    ensures var o, c := OldCheckSpec(n, AsValues(s)), CheckSpec(n, s);
      && (c.err.Some? <==> o.err.Some? && o.err != Some(IndexError))
      && (c.err.Some? ==> o == Outcome(AsValues(s), c.err))
      && (c.err == None && !NonNegative(s) && |s| >= 2 ==>
            forall i :: 0 <= i < |s| && i != 1 && s[i] < 0 ==> o.elems[i] == Int(s[i]))
  {
    IntsRoundTrip(s);
    CheckSpecCorrect(n, s);
    if s != [] && !NonNegative(s) {
      assert NegativeCount(s) > 0;
    }
  }

  /** The loop of the old check writes the wrong entry: `[-1, 0]` against a file of three lines passes
      and becomes `[-1, 3]`, where the newer check gives `[2, 0]`. */
  lemma OldCheckWrongEntry(s: seq<int>)
    requires s == [-1, 0]
    ensures OldCheckSpec(3, AsValues(s)) == Outcome([Int(-1), Int(3)], None)
    ensures CheckSpec(3, s) == Checked([2, 0], None)
  {
    assert !NonNegative(s) by {
      assert s[0] < 0;
    }
    assert Min(s) == -1;
    assert NegativeCount(s) == 1 by {
      assert s[1..] == [0] && s[1..][1..] == [];
    }
    assert AsInts(AsValues(s)) == s;
  }

  /** The old check on the caller's list, the loop over the mask included. */
  method OldCheckForErrors(fileLength: nat, linesToRead: PyList) returns (err: Option<Error>)
    modifies linesToRead
    ensures var o := OldCheckSpec(fileLength, old(linesToRead.elems));
      linesToRead.elems == o.elems && err == o.err
  {
    if !AllInts(linesToRead.elems) {
      return Some(TypeError);
    }
    var s := AsInts(linesToRead.elems);
    if s == [] {
      return Some(ValueError);
    }
    if NonNegative(s) {
      if Max(s) > fileLength - 1 {
        return Some(LineNumberOutOfBounds);
      }
      return None;
    }
    if -Min(s) > fileLength {
      return Some(LineNumberOutOfBounds);
    }
    OldCheckSpecAdjusts(fileLength, linesToRead.elems);
    err := AdjustAtTrue(fileLength, linesToRead);
  }

  /** The adjustment loop of the old check: it walks the mask of negative entries and, for each `True`,
      adds the file length to `lines_to_read[True]`, which is entry 1. */
  method AdjustAtTrue(fileLength: nat, linesToRead: PyList) returns (err: Option<Error>)
    requires AllInts(linesToRead.elems)
    modifies linesToRead
    ensures var s := AsInts(old(linesToRead.elems));
      && (|s| < 2 && !NonNegative(s) ==> err == Some(IndexError) && linesToRead.elems == old(linesToRead.elems))
      && (|s| < 2 && NonNegative(s) ==> err == None && linesToRead.elems == old(linesToRead.elems))
      && (|s| >= 2 ==> err == None)
      && (|s| >= 2 ==>
            linesToRead.elems == old(linesToRead.elems)[1 := Int(AddTimes(s[1], NegativeCount(s), fileLength))])
  {
    var s := AsInts(linesToRead.elems);
    var mask := seq(|s|, i requires 0 <= i < |s| => s[i] < 0);
    var k := 0;
    ghost var c := 0;
    while k < |mask|
      invariant 0 <= k <= |mask| == |s| == |linesToRead.elems|
      invariant c == NegativeCount(s[..k])
      invariant |s| < 2 ==> c == 0 && linesToRead.elems == old(linesToRead.elems)
      invariant |s| >= 2 ==> linesToRead.elems == old(linesToRead.elems)[1 := Int(AddTimes(s[1], c, fileLength))]
    {
      NegativeCountTake(s, k);
      if mask[k] {
        if |linesToRead.elems| < 2 {
          NegativeCountPrefix(s, k);
          return Some(IndexError);
        }
        BumpEntry(linesToRead.elems, old(linesToRead.elems), s[1], c, fileLength);
        var cur := linesToRead.elems[1].i;
        linesToRead.elems := linesToRead.elems[1 := Int(cur + fileLength)];
        c := c + 1;
      }
      k := k + 1;
    }
    assert s[..k] == s;
    return None;
  }

  /** One pass through the adjustment adds the file length once more to entry 1. */
  lemma BumpEntry(e: seq<Value>, o: seq<Value>, x: int, c: nat, n: nat)
    requires |o| >= 2 && e == o[1 := Int(AddTimes(x, c, n))]
    ensures e[1].Int? && e[1 := Int(e[1].i + n)] == o[1 := Int(AddTimes(x, c + 1, n))]
  {
  }

  /** `x` with `n` added to it `c` times. */
  function AddTimes(x: int, c: nat, n: nat): int
  {
    if c == 0 then x else AddTimes(x, c - 1, n) + n
  }

  lemma {:induction false} AddTimesIsProduct(x: int, c: nat, n: nat)
    ensures AddTimes(x, c, n) == x + c * n
  {
    if c > 0 {
      AddTimesIsProduct(x, c - 1, n);
      assert c * n == (c - 1) * n + n;
    }
  }

  /** The old check's result once the bounds have passed and a negative entry is present. */
  lemma OldCheckSpecAdjusts(n: nat, s: seq<Value>)
    requires AllInts(s) && s != [] && !NonNegative(AsInts(s)) && -Min(AsInts(s)) <= n
    ensures |s| < 2 ==> OldCheckSpec(n, s) == Outcome(s, Some(IndexError))
    ensures |s| >= 2 ==>
      OldCheckSpec(n, s) == Outcome(s[1 := Int(AddTimes(AsInts(s)[1], NegativeCount(AsInts(s)), n))], None)
  {
  }

  /** A negative entry at position `k` makes the count of the prefix through it positive. */
  lemma NegativeCountPrefix(s: seq<int>, k: nat)
    requires k < |s| && s[k] < 0
    ensures NegativeCount(s) > 0
  {
    assert !NonNegative(s);
  }

  /** One more entry of the prefix counts once more when it is negative. */
  lemma NegativeCountTake(s: seq<int>, k: nat)
    requires k < |s|
    ensures NegativeCount(s[..k + 1]) == NegativeCount(s[..k]) + (if s[k] < 0 then 1 else 0)
  {
    NegativeCountSnoc(s[..k], s[k]);
    assert s[..k + 1] == s[..k] + [s[k]];
  }

  lemma NegativeCountSnoc(s: seq<int>, x: int)
    ensures NegativeCount(s + [x]) == NegativeCount(s) + (if x < 0 then 1 else 0)
  {
    if s != [] {
      assert (s + [x])[1..] == s[1..] + [x];
      NegativeCountSnoc(s[1..], x);
    } else {
      assert [x][1..] == [];
    }
  }

  /** The positions below `n` that some request names, ascending. */
  function Requested(n: nat, req: seq<int>): (r: seq<nat>)
    ensures forall k :: 0 <= k < |r| ==> r[k] < n
    ensures forall k, l :: 0 <= k < l < |r| ==> r[k] < r[l]
    ensures forall i :: 0 <= i < n ==> (i in r <==> i in req)
    ensures |r| <= n
  {
    if n == 0 then []
    else Requested(n - 1, req) + (if (n - 1) in req then [n - 1] else [])
  }

  /** `[value for index, value in enumerate(out) if index in set(lines_to_read)]`. */
  function Select(out: seq<string>, req: seq<int>): (r: seq<string>)
    ensures |r| <= |out|
  {
    var idx := Requested(|out|, req);
    seq(|idx|, k requires 0 <= k < |idx| => out[idx[k]])
  }

  /** The selection keeps the requested lines in file order: line `i` is kept exactly when `i` was
      requested, and the kept lines come in increasing line order. */
  lemma SelectSpec(out: seq<string>, req: seq<int>)
    ensures var r, idx := Select(out, req), Requested(|out|, req);
      && |r| == |idx|
      && (forall k :: 0 <= k < |r| ==> idx[k] < |out| && r[k] == out[idx[k]] && idx[k] in req)
      && (forall i :: 0 <= i < |out| && i in req ==> exists k :: 0 <= k < |r| && idx[k] == i)
      && (forall k, l :: 0 <= k < l < |r| ==> idx[k] < idx[l])
  {
    var idx := Requested(|out|, req);
    forall i | 0 <= i < |out| && i in req
      ensures exists k :: 0 <= k < |idx| && idx[k] == i
    {
      assert i in idx;
    }
  }

  lemma {:induction false} RequestedSameSet(n: nat, a: seq<int>, b: seq<int>)
    requires forall i :: 0 <= i < n ==> (i in a <==> i in b)
    ensures Requested(n, a) == Requested(n, b)
  {
    if n > 0 {
      RequestedSameSet(n - 1, a, b);
    }
  }

  /** Only the set of requests matters: their order and repetitions do not change the selection. */
  lemma SelectIgnoresOrder(out: seq<string>, a: seq<int>, b: seq<int>)
    requires forall i :: i in a <==> i in b
    ensures Select(out, a) == Select(out, b)
  {
    RequestedSameSet(|out|, a, b);
  }

  /** No more lines come back than there are distinct requests. */
  lemma SelectBound(out: seq<string>, req: seq<int>)
    ensures |Select(out, req)| <= |set i | i in req|
  {
    var idx := Requested(|out|, req);
    var picked := set k | 0 <= k < |idx| :: idx[k] as int;
    Seqs.SubsetCard(picked, set i | i in req);
    DistinctCard(idx);
  }

  lemma {:induction false} DistinctCard(idx: seq<nat>)
    requires forall k, l :: 0 <= k < l < |idx| ==> idx[k] < idx[l]
    ensures |set k | 0 <= k < |idx| :: idx[k] as int| == |idx|
  {
    if idx != [] {
      var p := idx[..|idx| - 1];
      DistinctCard(p);
      var sp := set k | 0 <= k < |p| :: p[k] as int;
      var s := set k | 0 <= k < |idx| :: idx[k] as int;
      assert s == sp + {idx[|idx| - 1] as int};
      assert idx[|idx| - 1] as int !in sp;
    }
  }

  /** `get_lines_from_txt_file` of src/mpyez/ezIO.py after the file has been read: TypeError for a
      non-int request, the check's exception, or the selected lines. */
  function GetLinesSpec(out: seq<string>, req: seq<Value>): Result<seq<string>>
  {
    if !AllInts(req) then Err(TypeError)
    else
      var c := CheckSpec(|out|, AsInts(req));
      if c.err.Some? then Err(c.err.value) else Ok(Select(out, c.lines))
  }

  /** Reading fails with TypeError for a non-int request, else exactly when the check raises; a
      successful read selects with every negative request counted from the end of the file. */
  lemma GetLinesCorrect(out: seq<string>, req: seq<Value>)
    ensures GetLinesSpec(out, req).Ok? <==> AllInts(req) && CheckSpec(|out|, AsInts(req)).err == None
    ensures !AllInts(req) ==> GetLinesSpec(out, req) == Err(TypeError)
    ensures GetLinesSpec(out, req).Err? ==>
      GetLinesSpec(out, req).error in {TypeError, ValueError, LineNumberOutOfBounds}
    ensures GetLinesSpec(out, req).Ok? ==>
      GetLinesSpec(out, req).value == Select(out, Normalized(AsInts(req), |out|))
  {
    if AllInts(req) {
      var s := AsInts(req);
      CheckSpecCorrect(|out|, s);
      if s != [] && NonNegative(s) {
        assert Normalized(s, |out|) == s;
      }
    }
  }

  /** The function `get_lines_from_txt_file` of src/mpyez/ezIO.py from the point where the file's lines
      are known: a scalar request is wrapped, and a list request is normalised in place by the check. */
  method GetLinesFromTxtFile(out: seq<string>, linesToRead: Arg) returns (r: Result<seq<string>>)
    modifies ArgRefs(linesToRead)
    ensures r == GetLinesSpec(out, old(ArgElems(linesToRead)))
    ensures linesToRead.ListArg? && AllInts(old(linesToRead.l.elems)) ==>
      linesToRead.l.elems == AsValues(CheckSpec(|out|, AsInts(old(linesToRead.l.elems))).lines)
    ensures linesToRead.ListArg? && !AllInts(old(linesToRead.l.elems)) ==> unchanged(linesToRead.l)
  {
    var lines := AsList(linesToRead);
    if !AllInts(lines.elems) {
      return Err(TypeError);
    }
    ghost var req := lines.elems;
    var err := CheckForErrors(|out|, lines);
    if err.Some? {
      return Err(err.value);
    }
    IntsRoundTrip(CheckSpec(|out|, AsInts(req)).lines);
    return Ok(Select(out, AsInts(lines.elems)));
  }

  /** `get_lines_from_txt_file` of src/mpyez/read_files.py after the file has been read, with the old
      check: its selection compares positions with whatever the check left in the list. */
  function OldGetLinesSpec(out: seq<string>, req: seq<Value>): Result<seq<string>>
  {
    var o := OldCheckSpec(|out|, req);
    if o.err.Some? then Err(o.err.value) else Ok(Select(out, AsInts(o.elems)))
  }

  method OldGetLinesFromTxtFile(out: seq<string>, linesToRead: Arg) returns (r: Result<seq<string>>)
    modifies ArgRefs(linesToRead)
    ensures r == OldGetLinesSpec(out, old(ArgElems(linesToRead)))
    ensures linesToRead.ListArg? ==> linesToRead.l.elems == OldCheckSpec(|out|, old(linesToRead.l.elems)).elems
  {
    var lines := AsList(linesToRead);
    var err := OldCheckForErrors(|out|, lines);
    if err.Some? {
      return Err(err.value);
    }
    return Ok(Select(out, AsInts(lines.elems)));
  }

  /** With the old check a negative request breaks the whole read: asking a three-line file for
      `[-1, 0]` returns no line at all, where the newer reader returns lines 0 and 2. */
  lemma OldReaderDropsNegative(out: seq<string>, req: seq<Value>)
    requires |out| == 3 && req == [Int(-1), Int(0)]
    ensures OldGetLinesSpec(out, req) == Ok([])
    ensures GetLinesSpec(out, req) == Ok([out[0], out[2]])
  {
    OldReaderEmpty(out, req);
    NewReaderSelects(out, req);
  }

  lemma OldReaderEmpty(out: seq<string>, req: seq<Value>)
    requires |out| == 3 && req == [Int(-1), Int(0)]
    ensures OldGetLinesSpec(out, req) == Ok([])
  {
    var s := [-1, 0];
    assert req == AsValues(s);
    OldCheckWrongEntry(s);
    OldSelectionEmpty(out);
  }

  lemma NewReaderSelects(out: seq<string>, req: seq<Value>)
    requires |out| == 3 && req == [Int(-1), Int(0)]
    ensures GetLinesSpec(out, req) == Ok([out[0], out[2]])
  {
    var s := [-1, 0];
    assert AllInts(req) && AsInts(req) == s;
    OldCheckWrongEntry(s);
    ReadChecked(out, req, s, [2, 0]);
    NewSelection(out);
  }

  /** Once the check passes with the adjusted positions `lines`, the read selects them. */
  lemma ReadChecked(out: seq<string>, req: seq<Value>, s: seq<int>, lines: seq<int>)
    requires AllInts(req) && AsInts(req) == s && CheckSpec(|out|, s) == Checked(lines, None)
    ensures GetLinesSpec(out, req) == Ok(Select(out, lines))
  {
  }

  lemma OldSelectionEmpty(out: seq<string>)
    requires |out| == 3
    ensures Select(out, AsInts([Int(-1), Int(3)])) == []
  {
    var req := [-1, 3];
    assert AsInts([Int(-1), Int(3)]) == req;
    assert 0 !in req && 1 !in req && 2 !in req;
    assert Requested(0, req) == [];
    assert Requested(1, req) == Requested(0, req);
    assert Requested(2, req) == Requested(1, req);
    assert Requested(3, req) == Requested(2, req);
  }

  lemma NewSelection(out: seq<string>)
    requires |out| == 3
    ensures Select(out, [2, 0]) == [out[0], out[2]]
  {
    var req := [2, 0];
    assert 0 in req && 1 !in req && 2 in req;
    SelectFirstAndLast(out, req);
  }

  lemma SelectFirstAndLast(out: seq<string>, req: seq<int>)
    requires |out| == 3 && 0 in req && 1 !in req && 2 in req
    ensures Select(out, req) == [out[0], out[2]]
  {
    RequestedFirstAndLast(req);
  }

  lemma RequestedFirstAndLast(req: seq<int>)
    requires 0 in req && 1 !in req && 2 in req
    ensures Requested(3, req) == [0, 2]
  {
    RequestedFirst(req);
    assert Requested(3, req) == Requested(2, req) + [2];
  }

  lemma RequestedFirst(req: seq<int>)
    requires 0 in req && 1 !in req
    ensures Requested(2, req) == [0]
  {
    assert Requested(1, req) == Requested(0, req) + [0];
  }
}
