/** What the two file-list classes compute from a directory listing: the names matching any of the
    patterns, chunk by chunk in pattern order; the removal of names one after the other; and the
    sort of the names. The listing and the set of names that are directories are inputs. */
module FileLists {
  import opened Py
  import opened Order
  import Sorting

  /** An argument typed "a name or a list of names". */
  datatype Names = One(name: string) | Several(names: seq<string>)

  /** `if isinstance(x, str): x = (x,)`. */
  function AsTuple(n: Names): (r: seq<string>)
    ensures n.One? ==> r == [n.name]
    ensures n.Several? ==> r == n.names
  {
    match n
    case One(x) => [x]
    case Several(xs) => xs
  }

  /** `f.endswith(x)`. */
  predicate EndsWith(f: string, x: string)
  {
    |x| <= |f| && f[|f| - |x|..] == x
  }

  /** `x` occurs in `f` starting at position `i`. */
  predicate OccursAt(f: string, x: string, i: int)
  {
    0 <= i <= |f| - |x| && f[i..i + |x|] == x
  }

  /** `x in f` on strings: `x` occurs somewhere in `f`. */
  predicate Contains(f: string, x: string)
  {
    exists i :: 0 <= i <= |f| - |x| && OccursAt(f, x, i)
  }

  /** The test a listed name passes for one pattern: a suffix test for extensions, a substring test
      otherwise. */
  predicate Matches(f: string, x: string, byExt: bool)
  {
    if byExt then EndsWith(f, x) else Contains(f, x)
  }

  /** The generator of one pattern: the listed names, in listing order, that match it and are not
      directories. */
  function Filter(listing: seq<string>, dirs: set<string>, x: string, byExt: bool): (r: seq<string>)
    ensures |r| <= |listing|
    ensures forall f :: f in r <==> f in listing && Matches(f, x, byExt) && f !in dirs
    ensures forall f :: multiset(r)[f] == if Matches(f, x, byExt) && f !in dirs then multiset(listing)[f] else 0
  {
    if listing == [] then []
    else
      var rest := Filter(listing[1..], dirs, x, byExt);
      var head := if Matches(listing[0], x, byExt) && listing[0] !in dirs then [listing[0]] else [];
      FilterStep(listing, dirs, x, byExt, head, rest);
      head + rest
  }

  lemma FilterStep(listing: seq<string>, dirs: set<string>, x: string, byExt: bool, head: seq<string>, rest: seq<string>)
    requires listing != []
    requires head == if Matches(listing[0], x, byExt) && listing[0] !in dirs then [listing[0]] else []
    requires forall f :: multiset(rest)[f] == if Matches(f, x, byExt) && f !in dirs then multiset(listing[1..])[f] else 0
    ensures forall f :: multiset(head + rest)[f] == if Matches(f, x, byExt) && f !in dirs then multiset(listing)[f] else 0
  {
    assert listing == [listing[0]] + listing[1..];
    assert multiset(listing) == multiset{listing[0]} + multiset(listing[1..]);
  }

  /** `list(itertools.chain.from_iterable(...))` over the patterns: one filtered chunk per pattern. */
  function Lof(listing: seq<string>, dirs: set<string>, patterns: seq<string>, byExt: bool): seq<string>
  {
    if patterns == [] then []
    else Filter(listing, dirs, patterns[0], byExt) + Lof(listing, dirs, patterns[1..], byExt)
  }

  /** How many of the patterns a name matches. */
  function MatchCount(f: string, patterns: seq<string>, byExt: bool): (c: nat)
    ensures c <= |patterns|
    ensures c == 0 <==> forall k :: 0 <= k < |patterns| ==> !Matches(f, patterns[k], byExt)
  {
    if patterns == [] then 0
    else
      var rest := MatchCount(f, patterns[1..], byExt);
      assert forall k :: 1 <= k < |patterns| ==> patterns[k] == patterns[1..][k - 1];
      (if Matches(f, patterns[0], byExt) then 1 else 0) + rest
  }

  /** A name is in the list exactly when it is listed, is not a directory and matches some pattern. */
  lemma {:induction false} LofMembers(listing: seq<string>, dirs: set<string>, patterns: seq<string>, byExt: bool, f: string)
    ensures f in Lof(listing, dirs, patterns, byExt) <==>
      f in listing && f !in dirs && exists k :: 0 <= k < |patterns| && Matches(f, patterns[k], byExt)
    decreases |patterns|
  {
    if patterns != [] {
      LofMembers(listing, dirs, patterns[1..], byExt, f);
      if exists k :: 0 <= k < |patterns| && Matches(f, patterns[k], byExt) {
        var k :| 0 <= k < |patterns| && Matches(f, patterns[k], byExt);
        if k > 0 {
          assert Matches(f, patterns[1..][k - 1], byExt);
        }
      }
      if exists k :: 0 <= k < |patterns[1..]| && Matches(f, patterns[1..][k], byExt) {
        var k :| 0 <= k < |patterns[1..]| && Matches(f, patterns[1..][k], byExt);
        assert Matches(f, patterns[k + 1], byExt);
      }
    }
  }

  /** A listed name that is not a directory appears once for every pattern it matches, times the
      number of times it is listed. */
  lemma {:induction false} LofCount(listing: seq<string>, dirs: set<string>, patterns: seq<string>, byExt: bool, f: string)
    ensures multiset(Lof(listing, dirs, patterns, byExt))[f] ==
      if f in dirs then 0 else multiset(listing)[f] * MatchCount(f, patterns, byExt)
    decreases |patterns|
  {
    if patterns != [] {
      LofCount(listing, dirs, patterns[1..], byExt, f);
      var a, b := Filter(listing, dirs, patterns[0], byExt), Lof(listing, dirs, patterns[1..], byExt);
      assert multiset(a + b)[f] == multiset(a)[f] + multiset(b)[f];
      if f !in dirs {
        var c, m := MatchCount(f, patterns[1..], byExt), multiset(listing)[f];
        assert multiset(b)[f] == m * c;
        if Matches(f, patterns[0], byExt) {
          assert multiset(a)[f] == m;
          assert MatchCount(f, patterns, byExt) == c + 1;
          MulSucc(m, c);
        } else {
          assert multiset(a)[f] == 0;
          assert MatchCount(f, patterns, byExt) == c;
        }
      }
    }
  }

  lemma MulSucc(m: nat, c: nat)
    ensures m * (c + 1) == m * c + m
  {
  }

  /** A name matching two extensions is listed twice: `['a.py', 'b.txt']` with the extensions `'.py'`
      and `'py'` gives `['a.py', 'a.py']`. */
  lemma TwoPatternsExample(listing: seq<string>)
    requires listing == ["a.py", "b.txt"]
    ensures Lof(listing, {}, [".py", "py"], true) == ["a.py", "a.py"]
  {
    assert EndsWith("a.py", ".py") && EndsWith("a.py", "py");
    assert !EndsWith("b.txt", ".py") by {
      assert "b.txt"[2..] != ".py";
    }
    assert !EndsWith("b.txt", "py") by {
      assert "b.txt"[3..] != "py";
    }
    var pats := [".py", "py"];
    LofFirstTwice(listing, {}, pats, true);
  }

  /** With two names and two patterns that both match only the first name, that name comes twice. */
  lemma LofFirstTwice(listing: seq<string>, dirs: set<string>, patterns: seq<string>, byExt: bool)
    requires |listing| == 2 && |patterns| == 2 && listing[0] !in dirs
    requires Matches(listing[0], patterns[0], byExt) && !Matches(listing[1], patterns[0], byExt)
    requires Matches(listing[0], patterns[1], byExt) && !Matches(listing[1], patterns[1], byExt)
    ensures Lof(listing, dirs, patterns, byExt) == [listing[0], listing[0]]
  {
    FilterFirstOnly(listing, dirs, patterns[0], byExt);
    FilterFirstOnly(listing, dirs, patterns[1], byExt);
    LofTwo(listing, dirs, patterns, byExt);
  }

  lemma FilterFirstOnly(listing: seq<string>, dirs: set<string>, x: string, byExt: bool)
    requires |listing| == 2 && listing[0] !in dirs && Matches(listing[0], x, byExt) && !Matches(listing[1], x, byExt)
    ensures Filter(listing, dirs, x, byExt) == [listing[0]]
  {
    assert listing[1..][1..] == [];
    assert Filter(listing[1..], dirs, x, byExt) == [];
  }

  lemma LofTwo(listing: seq<string>, dirs: set<string>, patterns: seq<string>, byExt: bool)
    requires |patterns| == 2
    ensures Lof(listing, dirs, patterns, byExt) == Filter(listing, dirs, patterns[0], byExt) + Filter(listing, dirs, patterns[1], byExt)
  {
    assert patterns[1..][1..] == [];
    assert Lof(listing, dirs, patterns[1..], byExt) == Filter(listing, dirs, patterns[1], byExt);
  }

  /** `s.remove(x)` for a present `x`: the first occurrence goes. */
  function RemoveFirst(s: seq<string>, x: string): (r: seq<string>)
    requires x in s
    ensures |r| == |s| - 1
    ensures multiset(r) == multiset(s) - multiset{x}
  {
    var p := FirstIndex(s, x);
    assert s == s[..p] + [x] + s[p + 1..];
    s[..p] + s[p + 1..]
  }

  /** The list after a sequence of removals, and the exception that stopped them, if any. */
  datatype Removal = Removal(lof: seq<string>, err: Option<Error>)

  /** `for x in names: s.remove(x)`: ValueError at the first name no longer present, with the earlier
      removals done. */
  function RemoveEach(s: seq<string>, names: seq<string>): (r: Removal)
    ensures r.err.Some? ==> r.err == Some(ValueError)
  {
    if names == [] then Removal(s, None)
    else if names[0] !in s then Removal(s, Some(ValueError))
    else RemoveEach(RemoveFirst(s, names[0]), names[1..])
  }

  /** The removals all succeed exactly when every name occurs in the list at least as often as among
      the names; then each removal takes one occurrence, so the list loses exactly the names. A failed
      run has still removed a part of them. */
  lemma RemoveEachSpec(s: seq<string>, names: seq<string>)
    ensures var r := RemoveEach(s, names);
      && (r.err == None <==> multiset(names) <= multiset(s))
      && (r.err == None ==> multiset(r.lof) == multiset(s) - multiset(names) && |r.lof| == |s| - |names|)
      && multiset(r.lof) <= multiset(s)
  {
    RemoveEachSucceeds(s, names);
    RemoveEachRemoves(s, names);
    RemoveEachShrinks(s, names);
  }

  lemma {:induction false} RemoveEachSucceeds(s: seq<string>, names: seq<string>)
    ensures RemoveEach(s, names).err == None <==> multiset(names) <= multiset(s)
    decreases |names|
  {
    if names != [] {
      assert names == [names[0]] + names[1..];
      assert multiset(names) == multiset(names[1..]) + multiset{names[0]};
      if names[0] in s {
        var t := RemoveFirst(s, names[0]);
        RemoveEachSucceeds(t, names[1..]);
        assert multiset(s) == multiset(t) + multiset{names[0]};
        MultisetCancel(multiset(names[1..]), multiset(t), names[0]);
      } else {
        assert multiset(names)[names[0]] > multiset(s)[names[0]];
      }
    }
  }

  lemma {:induction false} RemoveEachRemoves(s: seq<string>, names: seq<string>)
    ensures var r := RemoveEach(s, names);
      r.err == None ==> multiset(r.lof) == multiset(s) - multiset(names) && |r.lof| == |s| - |names|
    decreases |names|
  {
    if names != [] && names[0] in s {
      assert names == [names[0]] + names[1..];
      assert multiset(names) == multiset(names[1..]) + multiset{names[0]};
      var t := RemoveFirst(s, names[0]);
      RemoveEachRemoves(t, names[1..]);
      assert multiset(s) == multiset(t) + multiset{names[0]};
      MultisetCancel(multiset(names[1..]), multiset(t), names[0]);
    }
  }

  lemma {:induction false} RemoveEachShrinks(s: seq<string>, names: seq<string>)
    ensures multiset(RemoveEach(s, names).lof) <= multiset(s)
    decreases |names|
  {
    if names != [] && names[0] in s {
      RemoveEachShrinks(RemoveFirst(s, names[0]), names[1..]);
    }
  }

  /** One turn of the removal loop: the next name is removed, or the loop stops with ValueError. */
  lemma RemoveEachStep(s: seq<string>, names: seq<string>, i: nat)
    requires i < |names|
    ensures names[i] in s ==> RemoveEach(s, names[i..]) == RemoveEach(RemoveFirst(s, names[i]), names[i + 1..])
    ensures names[i] !in s ==> RemoveEach(s, names[i..]) == Removal(s, Some(ValueError))
  {
    assert names[i..][0] == names[i];
    assert names[i..][1..] == names[i + 1..];
  }

  /** Adding the same element to both sides changes neither inclusion nor difference. */
  lemma MultisetCancel(a: multiset<string>, b: multiset<string>, x: string)
    ensures a <= b <==> a + multiset{x} <= b + multiset{x}
    ensures (b + multiset{x}) - (a + multiset{x}) == b - a
  {
    if a + multiset{x} <= b + multiset{x} {
      forall y ensures a[y] <= b[y] {
        assert (a + multiset{x})[y] <= (b + multiset{x})[y];
      }
    }
  }

  /** `exclude` of src/mpyez/backend/uOS.py: FileNotPresent when a name is not in the list, checked
      before anything is removed; the removals otherwise. */
  function ExcludeChecked(s: seq<string>, names: seq<string>): (r: Removal)
  {
    if exists k :: 0 <= k < |names| && names[k] !in s then Removal(s, Some(FileNotPresent))
    else RemoveEach(s, names)
  }

  /** A missing name raises FileNotPresent and leaves the list alone; distinct present names are all
      removed, once each. The check does not count: a present name given twice passes it, and the
      second removal raises ValueError. */
  lemma ExcludeCheckedSpec(s: seq<string>, names: seq<string>)
    ensures var r := ExcludeChecked(s, names);
      && (r.err == Some(FileNotPresent) <==> exists k :: 0 <= k < |names| && names[k] !in s)
      && (r.err == Some(FileNotPresent) ==> r.lof == s)
      && ((forall k :: 0 <= k < |names| ==> names[k] in s) && (forall j, k :: 0 <= j < k < |names| ==> names[j] != names[k]) ==>
            r.err == None && |r.lof| == |s| - |names| && multiset(r.lof) == multiset(s) - multiset(names))
  {
    if (forall k :: 0 <= k < |names| ==> names[k] in s) && (forall j, k :: 0 <= j < k < |names| ==> names[j] != names[k]) {
      DistinctPresentFits(s, names);
      RemoveEachSpec(s, names);
    }
  }

  /** Distinct names that are all present occur no more often than in the list. */
  lemma DistinctPresentFits(s: seq<string>, names: seq<string>)
    requires forall k :: 0 <= k < |names| ==> names[k] in s
    requires forall j, k :: 0 <= j < k < |names| ==> names[j] != names[k]
    ensures multiset(names) <= multiset(s)
  {
    forall x ensures multiset(names)[x] <= multiset(s)[x] {
      DistinctCount(names, x);
      if x in names {
        var k :| 0 <= k < |names| && names[k] == x;
        assert x in s;
      }
    }
  }

  lemma {:induction false} DistinctCount(names: seq<string>, x: string)
    requires forall j, k :: 0 <= j < k < |names| ==> names[j] != names[k]
    ensures multiset(names)[x] <= 1
    ensures x !in names ==> multiset(names)[x] == 0
  {
    if names != [] {
      assert names == [names[0]] + names[1..];
      DistinctCount(names[1..], x);
      if names[0] == x {
        assert x !in names[1..];
      }
    }
  }

  /** Excluding the one present name twice passes the presence check and fails on the second removal,
      with the list already emptied. */
  lemma ExcludeTwiceExample(s: seq<string>)
    requires s == ["a.py"]
    ensures ExcludeChecked(s, ["a.py", "a.py"]) == Removal([], Some(ValueError))
  {
    var names := ["a.py", "a.py"];
    assert forall k :: 0 <= k < |names| ==> names[k] in s by {
      assert s[0] == "a.py";
    }
    assert FirstIndex(s, "a.py") == 0;
    assert RemoveFirst(s, "a.py") == [];
    assert names[1..] == ["a.py"] && names[1..][1..] == [];
    assert RemoveEach([], ["a.py"]) == Removal([], Some(ValueError));
  }

  predicate StrGe(a: string, b: string)
  {
    StrLe(b, a)
  }

  /** `lof.sort(reverse=reverse)`. */
  function SortNames(s: seq<string>, reverse: bool): seq<string>
  {
    Sorting.Sort(s, if reverse then StrGe else StrLe)
  }

  /** Sorting keeps the names and puts them in ascending order, or descending when reversed. */
  lemma SortNamesSpec(s: seq<string>, reverse: bool)
    ensures var r := SortNames(s, reverse);
      && multiset(r) == multiset(s)
      && (forall i, j :: 0 <= i < j < |r| ==> if reverse then StrLe(r[j], r[i]) else StrLe(r[i], r[j]))
  {
    var le := if reverse then StrGe else StrLe;
    StrLeIsOrder();
    assert Sorting.TotalPreorder(le);
    Sorting.SortSorted(s, le);
    var r := SortNames(s, reverse);
    forall i, j | 0 <= i < j < |r| ensures if reverse then StrLe(r[j], r[i]) else StrLe(r[i], r[j]) {
      assert le(r[i], r[j]);
    }
  }

  /** The sorted names are the only arrangement of the names in that order. */
  lemma SortNamesUnique(s: seq<string>, reverse: bool, t: seq<string>)
    requires multiset(t) == multiset(s)
    requires forall i, j :: 0 <= i < j < |t| ==> if reverse then StrLe(t[j], t[i]) else StrLe(t[i], t[j])
    ensures t == SortNames(s, reverse)
  {
    var le := if reverse then StrGe else StrLe;
    StrLeIsOrder();
    assert Sorting.TotalPreorder(le) && Sorting.Antisymmetric(le);
    Sorting.SortSorted(s, le);
    assert Sorting.Sorted(t, le);
    Sorting.SortedUnique(t, SortNames(s, reverse), le);
  }
}
