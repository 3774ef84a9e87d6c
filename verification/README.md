# mpyez / ezPy list, dict, line and file helpers in Dafny

This project models the small helper library `mpyez` (and its predecessor `ezPy`), a set of
convenience functions and classes for Python lists, dictionaries, text files and directory listings.
The model covers the revisions of these helpers that the repository ships side by side:

- **Replacing elements.** Replacement by position and by value comes in four variants:
  - the strict `Replace` class and functions of `src/mpyez/backend/uList.py`, with a copy of the class in `src/mpyez/list_.py` that behaves the same for keyword calls but orders the `by` and `new_list` parameters differently;
  - the repeating variant of `src/mpyez/utilities/ez_list/utilities.py`, whose two replacement functions `src/ezPy/utilities/ez_list/misc.py` repeats, and the `Replace` class of `src/ezPy/ez_list.py`;
  - the prefix-padding variant of `src/mpyez/utilities/list_/utilities.py`, which extends the caller's own value list in place.
- **List helpers.** These are the helpers of `src/mpyez/ezList.py` and of `src/mpyez/list_.py`, which shares most of them (the differences are listed under "## Left out"):
  - `join_lists` in its three revisions;
  - `get_object_count` and the frequency table `CountObjectsInList`;
  - `sort_`, `remove_`, `move_element_in_list`, `index_`;
  - `difference_between_lists`, `is_contained`, `equal_lists`;
  - `nested_list_to_list`, `list_to_nested_list`;
  - `numeric_list_to_string`, `string_list_to_numeric`.
- **Dictionary helpers.**
  - `sort_dictionary`, `merge_dictionaries` and `get_key_index` (`src/mpyez/ezDict.py`);
  - the `Sort_` class (`src/mpyez/dict_.py`);
  - the value/list converters and the width computation of `PrettyPrint` (`src/mpyez/backend/uDict.py`; `src/mpyez/utilities/dict_/utilities.py` repeats only the two converters).
- **Line selection.** Two things are modelled:
  - the line-number validators `check_for_errors`, current (`src/mpyez/backend/uIO.py`) and old (`src/mpyez/utilities/read_files/utilities.py`);
  - `get_lines_from_txt_file` (`src/mpyez/ezIO.py`, `src/mpyez/read_files.py`).
- **Directory listings.** These are the file-list filters `GetFiles` (`src/mpyez/backend/uOS.py`) and `ListOfFilesFromExtensions` (`ezPy/file_handling.py`).
- **`is_alphabet`** (`src/ezPy/ez_misc.py`).

**How Python values are modelled.**
- Python values are the datatype `Py.Value`: integers, strings, tuples and lists.
- A Python list object that a helper changes in place is a `Py.PyList` object. Aliasing between the caller's list and the helper's result is therefore visible in the contracts.
- A dict is its item list in insertion order.
- Exceptions are the `Err` side of `Py.Result`, or an `Option<Error>` next to the state they leave behind.
- Python's ordering of values (`Order.ValueLe`) is the reference for `sorted()`. A total order on comparable values and a stable insertion sort (`Sorting.Sort`) define what `sorted()` returns.
- When values cannot be compared, `sorted()` raises TypeError.

The code is followed where the docstrings promise something else; the discrepancies are listed under "## Findings".

## Model

| member | source | states |
|---|---|---|
| Py.AsList | src/mpyez/utilities/list_/utilities.py:20 | a scalar argument is wrapped into a fresh one-element list; a list argument is the caller's own list object, not a copy |
| Py.Normalize | src/mpyez/backend/uList.py:102 | `l[i]` with `-n <= i < n` addresses position `i` when `i >= 0` and `n + i` when `i < 0`, always inside the list |
| Py.FirstIndex | src/mpyez/backend/uList.py:156 | `l.index(x)` is a position holding `x` with no `x` before it |
| Py.SliceTo | src/mpyez/backend/uList.py:41 | `s[:d]` is a prefix of `s` of length `min(d, len(s))`, or `len(s) + d` (at least 0) for a negative stop |
| Py.Slice | src/mpyez/utilities/ez_list/utilities.py:104 | `s[lo:hi:step]` for a non-zero step is never longer than `s` and holds exactly `len(range(start, stop, step))` elements, where `stop` is `hi` normalised and clamped; moreover its element `k` is the element of `s` at `start + k * step`, which is a position inside `s`; `start` is `lo` normalised, or the first (step > 0) or last (step < 0) position when omitted |
| Py.Repeat | src/mpyez/utilities/ez_list/utilities.py:31 | `x * k` has `len(x) * k` elements, element `j` being `x[j mod len(x)]` |
| Replacement.AsItems | src/mpyez/backend/uList.py:84-85 | a list argument gives its items, any other value the one-element list holding it |
| Replacement.SetItem | src/mpyez/backend/uList.py:102 | `l[i] = v` succeeds exactly for an int `i` in `[-n, n)`, writes `v` at the addressed position and nothing else; otherwise IndexError for an int and TypeError for any other index |
| Replacement.ZipWriteSuccess | src/mpyez/backend/uList.py:101-102 | when every zipped target is valid the loop raises nothing, untargeted positions keep their value, and each target holds the value of the last pair that writes it |
| Replacement.ZipWriteFailure | src/mpyez/backend/uList.py:101-102 | when pair `f` is the first with an invalid target, the loop raises IndexError (int) or TypeError (other) and leaves exactly the writes of the pairs before `f` |
| Replacement.WriteZipped | src/mpyez/backend/uList.py:101-102 | the write loop on a list object leaves the list and the error that `ZipWrite` describes |
| Replacement.CheckInRange | src/mpyez/backend/uList.py:92-94 | the range check reports nothing, TypeError or IndexOutOfList |
| Replacement.CheckInRangeSpec | src/mpyez/backend/uList.py:92-94 | the check passes exactly when every index is an int in `[0, n)`; otherwise the first offending index decides: IndexOutOfList for an int, TypeError for anything else |
| Replacement.CheckNotAbove | src/mpyez/backend/uList.py:304-308 | the mask check passes exactly when every index is an int below `n`; negative ints pass |
| Replacement.CheckNotAboveEach | src/mpyez/utilities/list_/utilities.py:23-25 | the one-at-a-time check reports nothing, TypeError or IndexOutOfList |
| Replacement.CheckNotAboveEachSpec | src/mpyez/utilities/list_/utilities.py:23-25 | the one-at-a-time check passes exactly when every index is an int below `n`; otherwise the first offending index decides the error |
| Replacement.FirstIndices | src/mpyez/backend/uList.py:332 | with every old element present, entry `k` is the first position of old element `k`, a valid target |
| Replacement.PrefixPadSpec | src/mpyez/backend/uList.py:37-43 | the padding fails exactly on a longer secondary list; otherwise it keeps the list in front, appends its own prefix, has `s + min(p - s, s)` elements, and reaches the primary length `p` only when `p <= 2s` |
| Replacement.PrefixPadCounterexample | src/mpyez/backend/uList.py:37-43 | a one-element secondary list against a primary list of three comes back with two elements, not three |
| Replacement.CyclicFillSpec | src/mpyez/backend/uList.py:10-43 | the cyclic extension the docstring describes fails exactly on a longer list; otherwise it has exactly `p` elements, element `k` being `secondary[k mod s]`, and it agrees with the prefix padding whenever `p <= 2s` |
| Replacement.CyclicPadSpec | src/mpyez/utilities/ez_list/utilities.py:24-35 | `secondary * (p - s + 1)` fails exactly on a longer list; otherwise element `k` is `secondary[k mod s]`, there are at least `p` elements, and exactly `p` only when `s == p` or `s == 1` |
| UList.EqualizingListLength | src/mpyez/backend/uList.py:34-43 | UnequalElements with the list untouched for a longer secondary list; otherwise the caller's own secondary list is extended in place by the prefix padding and returned |
| UList.ReplaceAtIndexCorrect | src/mpyez/backend/uList.py:84-104 | ValueError exactly when the counts differ; success exactly when they agree and every index is an int in `[0, n)`; a failure writes nothing; on success untouched positions keep their value and each index holds its last value |
| UList.ReplaceAtIndexExamples | src/mpyez/backend/uList.py:76-81 | `[1, 2, 3, 4]` with indices `[1, 3]` and values `[9, 10]` gives `[1, 9, 3, 10]`; index 2 and value 99 gives `[1, 2, 99, 4]` |
| UList.ReplaceAtIndex | src/mpyez/backend/uList.py:46-104 | the function on a list object raises what the specification says with the list untouched; otherwise it returns the caller's list changed in place or, with `new_list`, a fresh copy with the caller's list untouched |
| UList.ReplaceElementCorrect | src/mpyez/backend/uList.py:143-164 | UnequalElements exactly on a count mismatch; GotAnUnknownValue exactly when the counts agree and some old element is absent; a failure writes nothing; on success each new element sits at the first occurrence of its old element and every other position is kept |
| UList.ReplaceElement | src/mpyez/backend/uList.py:107-164 | the function on a list object: errors leave the list untouched; success changes the caller's list, or a fresh shallow copy with `new_list` |
| UList.FirstIndexInjective | src/mpyez/backend/uList.py:156 | two present elements share a first position exactly when they are equal, so distinct old elements never overwrite each other |
| UList.CountFirstTotalPreorder | src/mpyez/backend/uList.py:181 | ordering entries by descending count is a total preorder, as `sorted` needs |
| UList.NewTable | src/mpyez/backend/uList.py:170-181 | the table keeps the dictionary and holds its entries as a rearrangement in descending order of count; entries with equal counts keep their order in the dictionary, as the stable `sorted` does |
| UList.GetItem | src/mpyez/backend/uList.py:217-222 | IndexError exactly outside `[0, len)`; otherwise a one-entry table holding the entry at that rank |
| UList.GetItemRank | src/mpyez/backend/uList.py:217-222 | the entry returned is one of the dictionary's, counts no more than every entry before it and no less than every entry after it |
| UList.Replace.constructor | src/mpyez/backend/uList.py:256-261 | the object works on a deep copy with `new_list`, otherwise on the caller's list, and keeps `work_on`, `replace_with` and `by` |
| UList.Replace.ConvertInputsToLists | src/mpyez/backend/uList.py:263-270 | `work_on` and `replace_with` become lists, wrapping a scalar, and nothing else changes |
| UList.Replace.AtIndexCorrect | src/mpyez/backend/uList.py:272-312 | InvalidInputParameter exactly for an unknown `by`; success exactly when the counts agree and every index addresses an element, negative ones from the end; an index below `-n` raises IndexError after the earlier pairs were written |
| UList.Replace.AtValueCorrect | src/mpyez/backend/uList.py:314-336 | success exactly when `by` is known, the counts agree and every old element occurs; a failure writes nothing; each distinct old element's first occurrence then holds its new value |
| UList.Replace.AtIndex | src/mpyez/backend/uList.py:292-312 | the target list and the error are those of the at-index specification, and the fields hold the wrapped lists |
| UList.Replace.AtValue | src/mpyez/backend/uList.py:314-336 | the target list and the error are those of the at-value specification, and the fields hold the wrapped lists |
| Py.SliceStepOne | src/mpyez/utilities/ez_list/utilities.py:104 | with step 1 the slice is the contiguous run from the normalised start up to the normalised stop, and empty when the stop is not past the start |
| Py.SliceReversed | src/mpyez/utilities/ez_list/utilities.py:104 | `s[::-1]` has the length of `s` and element `k` equal to `s[len(s) - 1 - k]` |
| Replacement.ZipWrite | src/mpyez/backend/uList.py:101-102 | the zipped writes never change the list's length; ZipWriteSuccess and ZipWriteFailure state what they write and where they stop |
| Replacement.PrefixPad | src/mpyez/backend/uList.py:37-43 | the prefix padding as written; Replacement.PrefixPadSpec states its length and contents |
| Replacement.CyclicFill | src/mpyez/backend/uList.py:10-35 | the cyclic extension the docstring promises; Replacement.CyclicFillSpec states its length and contents |
| Replacement.CyclicPad | src/mpyez/utilities/ez_list/utilities.py:24-35 | `secondary * (p - s + 1)`; Replacement.CyclicPadSpec states when it fails, its contents and its length |
| UList.ReplaceAtIndexSpec | src/mpyez/backend/uList.py:84-104 | `replace_at_index`: the count check, then the index check, then the writes; UList.ReplaceAtIndexCorrect states the outcome |
| UList.ReplaceElementSpec | src/mpyez/backend/uList.py:143-164 | `replace_element`: the count check, the presence check, then the writes at first occurrences; UList.ReplaceElementCorrect states the outcome |
| UList.Replace.AtIndexSpec | src/mpyez/backend/uList.py:272-312 | `Replace.at_index`: the `by` check, the count check, the mask check and the writes; UList.Replace.AtIndexCorrect states the outcome |
| UList.Replace.AtValueSpec | src/mpyez/backend/uList.py:314-336 | `Replace.at_value`: the `by` check, the count check, the presence check and the writes; UList.Replace.AtValueCorrect states the outcome |
| Py.SliceCountAt | src/mpyez/utilities/ez_list/utilities.py:104 | the slice has as many elements as `range(start, stop, step)` for the clamped start and stop, for either sign of the step |
| Py.SliceUpCount | src/mpyez/utilities/ez_list/utilities.py:104 | walking up from `i` by `step` below `stop` visits `ceil((stop - i) / step)` positions, none when `i >= stop` |
| Py.SliceDownCount | src/mpyez/utilities/ez_list/utilities.py:104 | walking down from `i` by a negative `step` above `stop` visits `ceil((i - stop) / -step)` positions, none when `i <= stop` |
| EzListUtilities.ReplaceAtIndexCorrect | src/mpyez/utilities/ez_list/utilities.py:38-58 | more values than indices raise UnequalElements; an index above the last position raises IndexOutOfList (TypeError for a non-int) with nothing written; with valid targets and at least one value, the repeated values are written, so only targeted positions change; an empty value list succeeds and writes nothing; an int index below `-n` passes the mask, and the loop then raises IndexError after writing the pairs before it |
| EzListUtilities.ReplaceAtIndexFrame | src/mpyez/utilities/ez_list/utilities.py:55-58 | after a successful call every changed position is the target of some index |
| EzListUtilities.ReplaceAtIndex | src/ezPy/utilities/ez_list/misc.py:38-58 | the function on a list object: the result and the error follow the specification; with `new_list` the caller's list is untouched and a fresh copy is returned; otherwise the caller's list itself is returned |
| EzListUtilities.ReplaceElementRejectsRepeated | src/mpyez/utilities/ez_list/utilities.py:61-80 | with every old element present and more than one but fewer new elements than old ones, the repeated list is longer than the positions and the call raises UnequalElements with nothing written |
| EzListUtilities.ReplaceElementCounterexample | src/mpyez/utilities/ez_list/utilities.py:71-80 | in `[1, 2, 3]`, replacing `[1, 2, 3]` by `[7, 8]` raises UnequalElements |
| EzListUtilities.ReplaceElementIntendedCorrect | src/ezPy/ez_list.py:143-158 | the corrected replacement raises GotAnUnknownValue exactly when an old element is absent, and with at least one and at most as many new elements, writes new element `k mod len(new)` at the first occurrence of each distinct old element `k` |
| EzListUtilities.ReplaceElement | src/ezPy/utilities/ez_list/misc.py:61-80 | the function as written on a list object: result and error follow its specification; with `new_list` the caller's list is untouched |
| EzListUtilities.GetItem | src/mpyez/utilities/ez_list/utilities.py:103-108 | a slice key with step 0 raises ValueError; any other slice of the frequency table gives the table of the sliced entries, for every start, stop and step |
| EzListUtilities.GetItemCounterexample | src/mpyez/utilities/list_/utilities.py:74-79 | a table counting one `'a'` raises IndexError when its first entry is read |
| EzListUtilities.GetItemIntendedCorrect | src/mpyez/utilities/ez_list/utilities.py:103-108 | the corrected lookup succeeds exactly for a position in `[-n, n)` and gives the table of exactly that entry; a slice fails exactly when its step is 0, and otherwise gives the table of exactly the sliced entries |
| EzListUtilities.GetItemAgreesOnLongKeys | src/mpyez/utilities/ez_list/utilities.py:103-108 | the lookup as written and the corrected one agree on every key except a position whose entry has a key of length below two |
| ListUtilities.PadValues | src/mpyez/utilities/list_/utilities.py:21 | the padded value list starts with the original values |
| ListUtilities.PadValuesSpec | src/mpyez/utilities/list_/utilities.py:21 | a shorter list grows to `len(v) + min(p - len(v), len(v))` by repeating its own prefix; a list at least `p` long keeps its first `p` values |
| ListUtilities.ReplaceAtIndexCorrect | src/mpyez/utilities/list_/utilities.py:19-33 | no count mismatch is ever reported; with the first `min(len(index), len(padded))` indices valid and below `n`, the call succeeds, writes exactly those pairs and keeps every other position |
| ListUtilities.ReplaceAtIndexShortPadding | src/mpyez/utilities/list_/utilities.py:19-33 | in `[1, 2, 3]`, indices `[0, 1, 2]` with the one value 9 give `[9, 9, 3]`: the third index is silently skipped |
| ListUtilities.ReplaceAtIndex | src/mpyez/utilities/list_/utilities.py:19-33 | the function pads the caller's own value list in place, and then the result and the error follow the specification; `new_list` writes to a fresh shallow copy |
| ListUtilities.CheckZipped | src/mpyez/utilities/list_/utilities.py:23-25 | the bounds loop over the zipped pairs reports IndexOutOfList at the first index above the last position, and nothing when there is none |
| ListUtilities.ReplaceElementCorrect | src/mpyez/utilities/list_/utilities.py:36-52 | GotAnUnknownValue with nothing written exactly when an old element is absent; otherwise, within the zipped pairs, each padded new element sits at the first occurrence of its old element and every other position is kept |
| ListUtilities.ReplaceElement | src/mpyez/utilities/list_/utilities.py:36-52 | the function pads the caller's own new-element list in place; the result and the error follow the specification; an error or `new_list` leaves the caller's list untouched |
| ListUtilities.CollectFirstIndices | src/mpyez/utilities/list_/utilities.py:40-44 | the index loop succeeds exactly when every old element occurs, and then gives the first position of each old element in turn |
| EzPyList.JoinLists | src/ezPy/ez_list.py:53-81 | the `extend` loop, the tuple conversion, the de-duplication and the sort with its per-type fallback give exactly the `join_lists` specification |
| EzPyList.Replace.constructor | src/ezPy/ez_list.py:86-93 | the object works on a deep copy with `new_list`, otherwise on the caller's list, and keeps its arguments |
| EzPyList.Replace.Equalized | src/ezPy/ez_list.py:104-120 | the equalized replacement list is always a list |
| EzPyList.Replace.AtValueCorrect | src/ezPy/ez_list.py:143-158 | UnequalElements exactly when there are more replacements than old elements; otherwise `at_value` is the corrected `replace_element`, so the first occurrence of distinct old element `k` receives `new[k mod len(new)]` |
| EzPyList.Replace.AtIndexExamples | src/tests/test_ez_list.py:49-65 | index 0 with 10 gives `[10, 2, 3, 4, 5]`; indices `[0, 2, 3]` with three tens give `[10, 2, 10, 10, 5]`; one index with three values raises UnequalElements |
| EzPyList.Replace.AtValueExample | src/tests/test_ez_list.py:67-71 | `[2, 3]` replaced by `[10, 12]` in `[1, 2, 3, 4, 5]` gives `[1, 10, 12, 4, 5]` |
| EzPyList.Replace.Prepare | src/ezPy/ez_list.py:95-120 | the fields become the wrapped target list and the repeated replacement list; UnequalElements exactly when the replacements outnumber the targets |
| EzPyList.Replace.AtIndex | src/ezPy/ez_list.py:128-141 | the target list and the error are those of the repeating `replace_at_index` specification |
| EzPyList.Replace.AtValue | src/ezPy/ez_list.py:143-158 | the target list and the error are those of the at-value specification |
| OldEzPyList.JoinLists | ezPy/ez_list.py:53-68 | the `extend` loop, the de-duplication and `sorted()` give exactly the unconverted `join_lists` specification |
| EzListUtilities.ReplaceElementErrKeeps | src/mpyez/utilities/ez_list/utilities.py:61-80 | whenever `replace_element` raises, the list is left exactly as it was: the positions it passes on are all valid, so only the length checks, which come before any write, can fail |
| EzListUtilities.ReplaceAtIndexSpec | src/mpyez/utilities/ez_list/utilities.py:38-58 | `replace_at_index`: the padding, the mask check and the writes; EzListUtilities.ReplaceAtIndexCorrect states the outcome |
| EzListUtilities.ReplaceElementSpec | src/mpyez/utilities/ez_list/utilities.py:61-80 | `replace_element` as written; EzListUtilities.ReplaceElementRejectsRepeated and EzListUtilities.ReplaceElementErrKeeps state its outcome |
| EzListUtilities.ReplaceElementIntended | src/ezPy/ez_list.py:143-158 | `replace_element` as evidently intended; EzListUtilities.ReplaceElementIntendedCorrect states its outcome |
| EzListUtilities.GetItemIntended | src/mpyez/utilities/ez_list/utilities.py:103-108 | `__getitem__` as evidently intended; EzListUtilities.GetItemIntendedCorrect states its outcome |
| ListUtilities.ReplaceAtIndexSpec | src/mpyez/utilities/list_/utilities.py:19-33 | `replace_at_index` with prefix padding; ListUtilities.ReplaceAtIndexCorrect states its outcome |
| ListUtilities.ReplaceElementSpec | src/mpyez/utilities/list_/utilities.py:36-52 | `replace_element` with prefix padding; ListUtilities.ReplaceElementCorrect states its outcome |
| EzPyList.Replace.AtValueSpec | src/ezPy/ez_list.py:143-158 | `Replace.at_value` of the old package; EzPyList.Replace.AtValueCorrect states its outcome |
| EzListUtilities.ReplaceAtIndexFails | src/mpyez/utilities/ez_list/utilities.py:38-55 | when pair `f` is the first whose index is out of range (below `-n`, the mask having let it through), the call raises IndexError and leaves the list with pairs `0 .. f-1` written, value `k` being `value[k mod len(value)]` |
| EzListUtilities.Cycled | src/mpyez/utilities/ez_list/utilities.py:39-41 | the first `f` padded values: element `k` is `value[k mod len(value)]` |
| EzList.JoinLists | src/mpyez/ezList.py:157-184 | the chain, the loop turning list elements into tuples, the de-duplication and the sort with its fallback give exactly the `join_lists` specification |
| EzList.ObjectCount | src/mpyez/ezList.py:241 | counting succeeds exactly when every element is hashable |
| EzList.ObjectCountSpec | src/mpyez/ezList.py:241-247 | the keys of `dict(Counter(l))` are the distinct elements in first-occurrence order, each count is the element's number of occurrences, and the counts add up to the length |
| EzList.IndexOf | src/mpyez/ezList.py:425-428 | an int is found exactly when present, at its first position; any other argument is iterated and succeeds exactly when every item is present, giving each item's first position |
| EzList.Delete | src/mpyez/ezList.py:304 | `del l[p]` shortens the list by one |
| EzList.DeleteMultiset | src/mpyez/ezList.py:304 | deleting position `p` loses exactly the element there |
| EzList.RemovedAt | src/mpyez/ezList.py:302-306 | the removed position lies inside the list |
| EzList.RemoveCorrect | src/mpyez/ezList.py:300-308 | `remove_` succeeds exactly on a present tuple, string or list value, or an int position in `[-n, n)`; otherwise ValueError for a value and IndexError for a position; one element is removed: the first occurrence of the value, or the one at the (normalised) position, and the rest is kept in order |
| EzList.Remove | src/mpyez/list_.py:361-389 | the function on a list object: errors leave the list untouched; success changes the caller's list, or a fresh copy with `get_new_list` |
| EzList.InsertAt | src/mpyez/ezList.py:335 | `list.insert` lengthens the list by one |
| EzList.InsertAtSpec | src/mpyez/ezList.py:335 | inserting adds exactly the inserted element, at the clamped position, and deleting it there gives the list back |
| EzList.DeleteInsert | src/mpyez/ezList.py:335 | putting a deleted element back at its own position restores the list |
| EzList.MoveCorrect | src/mpyez/ezList.py:333-337 | moving between int positions keeps the length and the elements, and the element from the old position lands at the new position, counted from the end of the shortened list when negative and clamped into the list |
| EzList.MoveRoundTrip | src/mpyez/ezList.py:333-337 | moving the element back from where it landed to where it came from restores the list |
| EzList.MoveErrors | src/mpyez/ezList.py:335 | a move fails exactly for a non-int or out-of-range source or a non-int destination; a bad source leaves the list as it was; a non-int destination raises TypeError after the element was popped |
| EzList.MoveNegativeExample | src/mpyez/list_.py:414-418 | moving the first of three elements to position -1 gives `[2, 1, 3]`, not `[2, 3, 1]` |
| EzList.MoveElement | src/mpyez/list_.py:392-418 | the function on a list object follows the move specification, including the popped element a failed insertion leaves missing from the caller's list; `get_new_list` leaves the caller's list untouched |
| EzList.Enumerate | src/mpyez/ezList.py:273 | `zip(l, range(len(l)))` pairs each element with its position |
| EzList.PairLeIsOrder | src/mpyez/ezList.py:273 | Python's order on `(value, index)` pairs is a total antisymmetric order |
| EzList.Range | src/mpyez/ezList.py:273 | `range(n)` as values is `0, …, n-1` |
| EzList.SortWithIndices | src/mpyez/ezList.py:270-275 | sorting with indices succeeds exactly on mutually comparable elements and gives two lists, or none for an empty input |
| EzList.SortWithIndicesAscending | src/mpyez/ezList.py:270-275 | in ascending order the values are exactly `sorted(l)`, the indices are a permutation of the positions, each index points at its value, and equal values keep their original order |
| EzList.ReversePointing | src/mpyez/ezList.py:275 | reversing both lists keeps every index pointing at its value |
| EzList.ReverseDescending | src/mpyez/ezList.py:275 | reversing an ascending list gives a descending one |
| EzList.SortWithIndicesDescending | src/mpyez/ezList.py:270-275 | descending order is the ascending result with both lists reversed; the values descend and every index still points at its value |
| EzList.SortValues | src/mpyez/ezList.py:277 | sorting without indices succeeds exactly on mutually comparable elements |
| EzList.SortValuesSpec | src/mpyez/ezList.py:277 | the sorted values are a rearrangement of the input, ascending or descending as asked, and are the first list of the indexed sort |
| EzList.ReplaceAtIndex | src/mpyez/ezList.py:340-360 | `replace_at_index` is the strict `Replace(...).at_index()`: the caller's list, or a fresh copy with `new_list`, ends as the at-index specification says |
| EzList.ReplaceWithValue | src/mpyez/ezList.py:363-383 | `replace_with_value` is `Replace(..., 'value').at_value()`: the caller's list, or a fresh copy with `new_list`, ends as the at-value specification says |
| Joining.Iterate | src/mpyez/ezList.py:164 | `iter(v)` succeeds exactly on a non-int |
| Joining.Chain | src/mpyez/ezList.py:164 | `chain([], *lists)` succeeds exactly when no input is an int |
| Joining.ItemsOf | src/mpyez/ezList.py:164 | the item lists of the inputs, one per input |
| Joining.ChainOfLists | src/mpyez/ezList.py:164 | on lists and tuples, joining is flattening: their items one after the other, in order |
| Joining.ChainErrIsType | src/mpyez/ezList.py:164 | a failed join fails with TypeError |
| Joining.Freeze | src/mpyez/ezList.py:165 | the converted element is never a list |
| Joining.ListsToTuples | src/mpyez/ezList.py:160-165 | the conversion keeps the length and leaves no list element |
| Joining.ConvertLists | src/mpyez/list_.py:167-172 | the mask loop turns exactly the list elements into the tuples of their items and keeps every other element |
| Joining.ExtendAll | src/ezPy/ez_list.py:54-57 | the `extend` loop gives exactly what chaining the inputs gives |
| Joining.HashedUnique | src/mpyez/ezList.py:168-170 | the de-duplication succeeds exactly when every element is hashable |
| Joining.PySorted | src/mpyez/ezList.py:174 | `sorted()` succeeds exactly on mutually comparable elements |
| Joining.PySortedSpec | src/mpyez/ezList.py:174 | the result of `sorted()` is ascending and a rearrangement of the input |
| Joining.PySortedUnique | src/mpyez/ezList.py:174 | any ascending arrangement of comparable elements is what `sorted()` returns |
| Joining.SortedInts | src/mpyez/ezList.py:174 | on integers `sorted()` returns any ascending arrangement of them |
| Joining.OfKindCounts | src/mpyez/ezList.py:177-178 | the group of a type holds every element of that type, as often as the list does, and nothing else |
| Joining.SortGroups | src/mpyez/ezList.py:176-182 | the fallback succeeds exactly when every listed type's group is comparable |
| Joining.SortGroupsCounts | src/mpyez/ezList.py:176-182 | with each type listed once, the fallback holds exactly the elements of the listed types |
| Joining.SortGroupsSpec | src/mpyez/ezList.py:176-182 | when every type present is listed once and every group is comparable, the fallback succeeds and keeps every element |
| Joining.SortOrFallback | src/mpyez/ezList.py:172-182 | on comparable elements the fallback is never reached: the result is `sorted()` |
| Joining.SortOrFallbackSpec | src/mpyez/ezList.py:172-182 | comparable elements come back ascending and complete; otherwise, with each type present listed once and each type's group comparable, the per-type fallback keeps exactly the elements |
| Joining.JoinListsPlain | src/mpyez/ezList.py:157-165 | without flags the result is the concatenation of the inputs' items with every list element turned into a tuple |
| Joining.JoinListsUnique | src/mpyez/ezList.py:168-170 | with `get_unique`, TypeError exactly when some converted element is unhashable; otherwise each element appears once, nothing else appears, and the order is that of first occurrence |
| Joining.JoinListsSorted | src/mpyez/ezList.py:172-182 | with `sort`, comparable elements come back ascending and complete; otherwise the per-type fallback keeps every element |
| Joining.JoinListsUnconvertedSpec | ezPy/ez_list.py:53-68 | the old `join_lists` without flags is the concatenation; with `get_unique` any list element makes it raise; the de-duplication keeps first occurrences; `sorted()` gives an ascending rearrangement exactly on comparable elements |
| Joining.UnconvertedUnique | ezPy/ez_list.py:60-62 | in the old `join_lists`, `get_unique` raises TypeError whenever a joined element is a list; otherwise, without sorting, each element is kept once in first-occurrence order |
| Joining.UnconvertedSorted | ezPy/ez_list.py:64-65 | in the old `join_lists`, sorting succeeds exactly on comparable elements and returns them ascending and complete |
| Joining.JoinListsPlainExample | src/tests/test_ez_list.py:28-29 | `[[1, 2, 3], [5, 6, 4]]` joins to `[1, 2, 3, 5, 6, 4]` |
| Joining.JoinListsSortExample | src/tests/test_ez_list.py:31-32 | `[[1, 2, 3], [5, 6, 4]]` sorted gives `[1, 2, 3, 4, 5, 6]` |
| Joining.JoinSortedInts | src/mpyez/ezList.py:172-174 | when the joined elements are integers, `sort=True` returns any ascending arrangement of them |
| Joining.JoinListsFallbackExample | src/tests/test_ez_list.py:34-35 | `[[[1, 2], 3], [5, 6, 4]]` sorted gives `[(1, 2), 3, 4, 5, 6]` when the tuple type is iterated first |
| Joining.JoinListsUniqueExample | src/tests/test_ez_list.py:37-38 | with `get_unique`, `[[[1, 2], 3], [[1, 2], 5, 6, 4]]` sorted gives `[(1, 2), 3, 4, 5, 6]` when the tuple type is iterated first |
| Joining.FallbackTupleThenInts | src/mpyez/ezList.py:175-182 | a tuple followed by ints cannot be sorted as a whole; the fallback puts the tuple group first, then the sorted ints |
| Joining.JoinTupleThenInts | src/mpyez/ezList.py:175-182 | when the joined elements are a tuple followed by integers and the fallback visits the tuple type before the int type, the result is the tuple and then the integers ascending |
| EzList.RemoveSpec | src/mpyez/ezList.py:300-308 | `remove_` on the elements; EzList.RemoveCorrect states its outcome |
| EzList.MoveSpec | src/mpyez/ezList.py:333-337 | `move_element_in_list` on the elements, including the partial effect of a failing `insert`; EzList.MoveCorrect and EzList.MoveErrors state its outcome |
| Joining.JoinListsSpec | src/mpyez/ezList.py:157-184 | `join_lists`: chaining, tuple conversion, de-duplication and sorting with the per-type fallback; Joining.JoinListsPlain, Joining.JoinListsUnique and Joining.JoinListsSorted state its outcome |
| Joining.JoinListsUnconverted | ezPy/ez_list.py:53-68 | the old `join_lists` without tuple conversion or fallback; Joining.JoinListsUnconvertedSpec states its outcome |
| Order.ValueLeIsOrder | src/mpyez/ezList.py:174 | the order `sorted()` uses on values (ints numerically, strings by code point, tuples and lists lexicographically) is a total, transitive and antisymmetric order |
| Order.StrLeIsOrder | src/mpyez/backend/uOS.py:66 | the order on file names is a total, transitive and antisymmetric order |
| Sorting.Sort | src/mpyez/ezList.py:174 | the stable sort keeps the length and the elements |
| Sorting.SortSorted | src/mpyez/ezList.py:174 | for any total preorder the sort's result is ordered and a rearrangement of the input |
| Sorting.SortedUnique | src/mpyez/ezList.py:174 | for an antisymmetric total order there is only one ordered arrangement of the same elements, so `sorted()` is determined |
| Sorting.ReverseSorted | src/mpyez/ezList.py:275 | reversing an ordered list orders it by the converse order |
| Sorting.Reverse | src/mpyez/ezList.py:275 | `l[::-1]` keeps the length and the elements and puts element `i` at `n - 1 - i` |
| Seqs.FlattenLength | src/mpyez/ezList.py:95 | `nested_list_to_list` keeps every element: the length is the sum of the inner lengths |
| Seqs.FlattenAppend | src/mpyez/ezList.py:95 | flattening keeps the order: the lists of a concatenation come out one after the other |
| Seqs.ChunksRoundTrip | src/mpyez/ezList.py:135 | `nested_list_to_list(list_to_nested_list(l, n)) == l` for a positive `n` |
| Seqs.ChunksShape | src/mpyez/ezList.py:135 | there are `ceil(len / n)` chunks, every chunk but the last holds `n` elements, and the last holds between 1 and `n` |
| Seqs.UniqueSnoc | src/mpyez/ezList.py:170 | de-duplicating one more element appends it exactly when it is new |
| Seqs.UniqueSpec | src/mpyez/ezList.py:170 | the de-duplicated list holds each element of the input exactly once, nothing else, in order of first occurrence |
| Seqs.CounterSpec | src/mpyez/ezList.py:241 | `Counter` lists the distinct elements in first-occurrence order, each with its number of occurrences, and the counts add up to the length |
| Seqs.DifferenceSpec | src/mpyez/ezList.py:404-406 | each half of `difference_between_lists` keeps every occurrence of the elements missing from the other list and drops all others |
| Seqs.ContainedIffNoDifference | src/mpyez/ezList.py:218 | `is_contained(child, parent)` holds exactly when the difference of `child` with `parent` is empty |
| Seqs.EqualLengthsSpec | src/mpyez/ezList.py:33 | `equal_lists` holds exactly when there is a list and all share its length |
| Seqs.Map | src/mpyez/list_.py:37 | `list(map(f, l))` keeps the length and applies `f` to each element |
| Seqs.MapPermutation | src/mpyez/ezDict.py:29 | mapping two rearrangements of the same elements gives two rearrangements of the same images |
| Text.NatToString | src/mpyez/backend/uList.py:250 | the decimal rendering of a natural number is non-empty and made of digits |
| Text.IntToString | src/mpyez/backend/uList.py:250 | `str(n)` is never empty |
| Text.IntStringRoundTrip | src/mpyez/ezList.py:61 | `int(str(n)) == n` for every integer |
| Text.IntStringNotAlpha | src/mpyez/ezList.py:55 | no rendering of an integer is alphabetic |
| Text.NumericListToString | src/mpyez/list_.py:37 | `numeric_list_to_string` keeps the length |
| Text.ParseAllNeverAlphabet | src/mpyez/ezList.py:61 | `int()` itself never reports AlphabetFound |
| Text.StringListToNumericAlphabet | src/mpyez/list_.py:59-65 | `string_list_to_numeric` raises AlphabetFound exactly when some element is alphabetic |
| Text.ParseAllOfStrings | src/mpyez/ezList.py:61 | parsing the renderings of integers gives the integers back |
| Text.NumericStringRoundTrip | src/mpyez/ezList.py:55-61 | `string_list_to_numeric(numeric_list_to_string(xs)) == xs` |
| Text.IsAlphabetCases | src/ezPy/ez_misc.py:39-42 | an integer is never alphabetic; a string is alphabetic exactly when it holds an ASCII letter, so `'A'` is, and the empty string and `'1.5-2'` are not |
| Text.Center | src/mpyez/backend/uDict.py:38 | `s.center(w)` is `s` itself when `w <= len(s)`; otherwise it is `w` long and is `s` with only spaces added on its left and right |
| Sorting.SortStable | src/mpyez/ezList.py:174 | the sort is stable: for every element `e`, the elements equivalent to `e` appear in the result in the same order as in the input |
| Seqs.Flatten | src/mpyez/ezList.py:95 | `chain.from_iterable`; Seqs.FlattenLength and Seqs.ChunksRoundTrip state its properties |
| Seqs.Chunks | src/mpyez/ezList.py:135 | `list_to_nested_list` for a positive `n`; Seqs.ChunksShape and Seqs.ChunksRoundTrip state its properties, Seqs.ListToNestedList covers the other `n` |
| Seqs.Unique | src/mpyez/ezList.py:169-170 | the order-keeping de-duplication; Seqs.UniqueSpec states its contents and order |
| Seqs.Counter | src/mpyez/ezList.py:241 | `Counter`; Seqs.CounterSpec states its keys, counts and total |
| Seqs.Difference | src/mpyez/ezList.py:404-406 | one half of `difference_between_lists`; Seqs.DifferenceSpec states its contents |
| Seqs.IsContained | src/mpyez/ezList.py:218 | `is_contained`; Seqs.ContainedIffNoDifference relates it to the difference |
| Seqs.EqualLengths | src/mpyez/ezList.py:33 | `equal_lists`; Seqs.EqualLengthsSpec states when it holds |
| Text.ParseInt | src/mpyez/ezList.py:61 | `int()` on a sign and decimal digits; Text.IntStringRoundTrip shows it inverts `str()` |
| Text.StringListToNumeric | src/mpyez/ezList.py:55-61 | `string_list_to_numeric`; Text.StringListToNumericAlphabet and Text.NumericStringRoundTrip state its outcome |
| Text.IsAlphabet | src/ezPy/ez_misc.py:39-42 | `is_alphabet`; Text.IsAlphabetCases states its outcome |
| Seqs.ListToNestedList | src/mpyez/ezList.py:135 | `list_to_nested_list(s, n)`: `range` raises ValueError for `n == 0`, gives no chunk for a negative `n`, and chunks for a positive `n`; Seqs.ListToNestedListSpec states the outcome |
| Seqs.ListToNestedListSpec | src/mpyez/ezList.py:135 | ValueError exactly when `n == 0`; `[]` for a negative `n`; for a positive `n` the chunks flatten back to the list, there are `ceil(len / n)` of them, each holds 1 to `n` elements and all but the last hold `n` |
| UDict.WrapAll | src/mpyez/backend/uDict.py:4-9 | `change_value_to_list` keeps the keys and their order, keeps every list value, and turns every other value into the one-element list holding it |
| UDict.WrapAllIdempotent | src/mpyez/backend/uDict.py:4-9 | converting a second time changes nothing |
| UDict.Len | src/mpyez/backend/uDict.py:14 | `len(v)` succeeds exactly on a non-int |
| UDict.FirstUnsized | src/mpyez/backend/uDict.py:13-15 | the loop stops at the first value without a length, or runs to the end |
| UDict.UnwrapAllSpec | src/mpyez/backend/uDict.py:12-17 | `change_list_to_values` keeps the keys, raises TypeError exactly when some value is an int, and otherwise replaces each tuple or list of length one by its element and keeps every other value |
| UDict.ValueListRoundTrip | src/mpyez/backend/uDict.py:4-17 | converting values to lists and back gives the dict back, provided no value was already a one-element list |
| UDict.PyDict.constructor | src/mpyez/backend/uDict.py:4 | the dict object holds the given items |
| UDict.PyDict.ChangeValueToList | src/mpyez/backend/uDict.py:4-9 | the loop over the dict object leaves exactly the wrapped items |
| UDict.PyDict.ChangeListToValues | src/mpyez/backend/uDict.py:12-17 | the loop over the dict object leaves the items and the error of the unwrapping specification, including the entries changed before an int raised |
| UDict.LongestValue | src/mpyez/backend/uDict.py:25-26 | `max` of the value widths fails exactly on an empty dict, bounds every value's width and is attained by one |
| UDict.MaxWidth | src/mpyez/backend/uDict.py:24-27 | the table width exists exactly for a non-empty dict |
| UDict.MaxWidthSpec | src/mpyez/backend/uDict.py:24-27 | the table width is odd, at least 71, at least every value's width, and either 71, the longest width or one more than it |
| UDict.RowWidth | src/mpyez/backend/uDict.py:32-38 | with an odd table width the two cells and three bars fill it exactly, so a row is as wide as the table exactly when key and value fit their cells, and never narrower |
| UDict.RowOverflowExample | src/mpyez/backend/uDict.py:27-38 | a dict with one 35-character value gets the 71-wide table, but its row is 72 wide: each cell only gets 34 |
| EzDict.ItemOrderIsPreorder | src/mpyez/ezDict.py:26-29 | comparing items by value or by key, ascending or reversed, is a total preorder |
| EzDict.Column | src/mpyez/ezDict.py:26-27 | the sort key of each item is its value with `sort_by='values'`, otherwise its key |
| EzDict.SortItems | src/mpyez/ezDict.py:29 | sorting the items succeeds exactly when their sort keys are mutually comparable |
| EzDict.SortItemsSpec | src/mpyez/ezDict.py:8-29 | the sorted items are a rearrangement of the dict's items, ordered by the sort key ascending, or descending when reversed; items with equal sort keys keep their order in the dict, in both directions, as `sorted(..., reverse=True)` does |
| EzDict.SortItemsKeys | src/mpyez/ezDict.py:29 | the sorted dict has exactly the keys of the input dict |
| EzDict.Combine | src/mpyez/ezDict.py:51-54 | merging a repeated key always leaves a list |
| EzDict.MergeDictionaries | src/mpyez/ezDict.py:46-58 | the nested loop over the dicts and their items leaves exactly the merged items of the specification |
| EzDict.MergeDict | src/mpyez/ezDict.py:49-56 | the inner loop over one dict's items extends the merge of the items before it to the merge of those items followed by this dict's |
| EzDict.MergeItem | src/mpyez/ezDict.py:50-56 | one item is merged by the put rule: a repeated key gets the extended list or the pair of old and new value, a new key is appended |
| EzDict.LookupPut | src/mpyez/ezDict.py:50-56 | after one put the put key holds its combined value or, if new, the given value, and every other key keeps its value |
| EzDict.MergeKeys | src/mpyez/ezDict.py:46-58 | the merged dict's keys are the distinct keys of all inputs, in order of first appearance |
| EzDict.MergeValue | src/mpyez/ezDict.py:48-56 | each key's merged value is the fold of its values in input order: a lone value stays as it is; a list followed by a list is extended; anything else is paired into `[held, given]` |
| EzDict.ValuesOfAbsent | src/mpyez/ezDict.py:50 | a key no input holds has no values to merge |
| EzDict.MergeExamples | src/mpyez/ezDict.py:51-54 | three dicts with scalar values `a`, `b`, `c` under one key give `[[a, b], c]`; two list values are concatenated |
| EzDict.GetKeyIndex | src/mpyez/ezDict.py:101-102 | `get_key_index` succeeds exactly for a present key and raises ValueError otherwise; the index holds the key and, for distinct keys, is its only position |
| EzDict.GetKeyIndexExample | src/mpyez/ezDict.py:96-99 | in `{'a': 1, 'b': 2, 'c': 3}` the key `'b'` has index 1 |
| DictSort.Sorter.Get | src/mpyez/dict_.py:10-15 | `Sort_(d, sort_by).get(reverse)` succeeds exactly when the sort column is comparable, and is `sort_dictionary(d, sort_by, reverse)` |
| DictSort.GetSpec | src/mpyez/dict_.py:10-15 | the result is a rearrangement of the items with the same keys, ordered by value (for `'values'`) or key, ascending or reversed; items with equal sort keys keep their order in the dict |
| DictSort.GetOtherNameSortsKeys | src/mpyez/dict_.py:15 | any `sort_by` other than `'values'` sorts by key |
| EzDict.SortItemsStable | src/mpyez/ezDict.py:29 | for every sort key, the items carrying that key appear in the sorted dict in the order they had in the input |
| EzDict.SortDictionary | src/mpyez/ezDict.py:8-29 | `sort_dictionary`; EzDict.SortItems and EzDict.SortItemsSpec state its outcome |
| EzDict.Lookup | src/mpyez/ezDict.py:51 | `merged_dict[key]` for a present key; EzDict.LookupPut states how a put changes it |
| EzDict.Put | src/mpyez/ezDict.py:50-56 | one step of the merge loop; EzDict.MergeItem and EzDict.LookupPut state its effect |
| EzDict.MergeItems | src/mpyez/ezDict.py:48-56 | the merge loop over a sequence of items; EzDict.MergeKeys and EzDict.MergeValue state its result |
| EzDict.MergeSpec | src/mpyez/ezDict.py:46-58 | `merge_dictionaries`; EzDict.MergeDictionaries computes it and EzDict.MergeKeys and EzDict.MergeValue state its result |
| UDict.UnwrapAll | src/mpyez/backend/uDict.py:12-17 | `change_list_to_values`; UDict.UnwrapAllSpec and UDict.ValueListRoundTrip state its outcome |
| Lines.Max | src/mpyez/backend/uIO.py:28 | `max` of a non-empty list of line numbers is one of them and bounds all of them |
| Lines.Min | src/mpyez/backend/uIO.py:33 | `min` of a non-empty list is one of them and is bounded by all of them |
| Lines.Normalized | src/mpyez/backend/uIO.py:37-39 | every negative line number has the file length added, every other one is kept |
| Lines.CheckSpecCorrect | src/mpyez/backend/uIO.py:23-42 | `check_for_errors` keeps the list's length; raises ValueError exactly on an empty list (from `max`), leaving it as it was; for all non-negative requests raises LineNumberOutOfBounds exactly when one is at least the file length; when some request is negative raises it exactly when one lies before the start of the file; otherwise each negative request is counted from the end and lands inside the file, and every other one is kept |
| Lines.MixedSignsUnchecked | src/mpyez/backend/uIO.py:27-39 | once a negative request is present, a non-negative one past the end is not checked: `[-1, 5]` against three lines passes as `[2, 5]` |
| Lines.CheckForErrors | src/mpyez/backend/uIO.py:6-42 | the in-place check leaves the caller's list and raises exactly as the checking specification says |
| Lines.NegativeCount | src/mpyez/utilities/read_files/utilities.py:17-18 | the number of true entries of the negativity mask is at most the list's length and is zero exactly when no request is negative |
| Lines.OldCheckForErrors | src/mpyez/utilities/read_files/utilities.py:6-24 | the in-place old check leaves the list and exception of its specification: TypeError for a non-int entry, ValueError for an empty list, the same bounds errors, and otherwise entry 1 shifted by the file length once per negative request (IndexError for a single negative request) |
| Lines.OldCheckSpec | src/mpyez/utilities/read_files/utilities.py:6-24 | the old check either leaves the list as it was or, on integer requests of at least two entries, succeeds |
| Lines.OldCheckSpecAdjusts | src/mpyez/utilities/read_files/utilities.py:17-19 | once bounds pass and a request is negative, a one-entry list raises IndexError and a longer one gets entry 1 increased by the file length once per negative request |
| Lines.OldCheckAgreesOnErrors | src/mpyez/utilities/read_files/utilities.py:7-24 | on integer requests the old check raises a bounds or empty-list error exactly when the new one does, with the list untouched; where it passes it leaves every negative request other than entry 1 negative |
| Lines.OldCheckWrongEntry | src/mpyez/utilities/read_files/utilities.py:17-19 | `[-1, 0]` against three lines becomes `[-1, 3]` under the old check and `[2, 0]` under the new one |
| Lines.AdjustAtTrue | src/mpyez/utilities/read_files/utilities.py:17-19 | the loop over the mask adds the file length to entry 1 once per negative request, and fails with IndexError on a one-entry list holding a negative request |
| Lines.AddTimesIsProduct | src/mpyez/utilities/read_files/utilities.py:17-19 | adding the file length to an entry `c` times adds `c` times the file length |
| Lines.Requested | src/mpyez/ezIO.py:73 | the positions kept are the file positions that occur among the requests, each once, in increasing order |
| Lines.Select | src/mpyez/ezIO.py:73 | the selection never holds more lines than the file |
| Lines.SelectSpec | src/mpyez/ezIO.py:73 | the selection is the file's lines at exactly the requested positions in file order, each once, whatever the order or repetition of the requests |
| Lines.SelectIgnoresOrder | src/mpyez/ezIO.py:73 | two requests with the same set of numbers select the same lines |
| Lines.SelectBound | src/mpyez/ezIO.py:73 | no more lines are selected than there are distinct requests |
| Lines.GetLinesCorrect | src/mpyez/ezIO.py:34-73 | reading fails with TypeError for a non-int request and otherwise exactly when the check raises, with one of TypeError, ValueError or LineNumberOutOfBounds; on success it selects with negative requests counted from the end of the file |
| Lines.GetLinesFromTxtFile | src/mpyez/ezIO.py:63-73 | once the file's lines are known, a scalar request is wrapped, the result is the reading specification, and a caller's list of ints is normalised in place (a list holding a non-int is untouched) |
| Lines.OldGetLinesFromTxtFile | src/mpyez/read_files.py:12-21 | the old reader returns its specification's result and leaves the caller's list as the old check does |
| Lines.OldReaderDropsNegative | src/mpyez/read_files.py:18-21 | with three lines, requesting `[-1, 0]` returns no line from the old reader but lines 0 and 2 from the new one |
| Lines.OldSelectionEmpty | src/mpyez/read_files.py:21 | selecting `[-1, 3]` from three lines selects nothing |
| Lines.NewSelection | src/mpyez/ezIO.py:73 | selecting `[2, 0]` from three lines gives lines 0 and 2 in file order |
| FileLists.AsTuple | src/mpyez/backend/uOS.py:23-24 | a single name becomes the one-element tuple, a list of names is kept |
| FileLists.Filter | src/mpyez/backend/uOS.py:26-31 | the generator for one pattern yields the listing's non-directory entries that match the pattern, each as often as it is listed, in listing order |
| FileLists.MatchCount | src/mpyez/backend/uOS.py:26-34 | the number of patterns a name matches is at most the number of patterns and is zero exactly when it matches none |
| FileLists.LofMembers | src/mpyez/backend/uOS.py:21-34 | a name is in the list of files exactly when it is listed, is not a directory and matches some pattern |
| FileLists.LofCount | src/mpyez/backend/uOS.py:21-34 | chaining the per-pattern generators lists a non-directory name as many times as it is listed times the number of patterns it matches |
| FileLists.TwoPatternsExample | src/mpyez/backend/uOS.py:26-34 | with the patterns `.py` and `py`, `a.py` is listed twice and `b.txt` not at all |
| FileLists.RemoveFirst | src/mpyez/backend/uOS.py:55 | `list.remove` of a present name removes one occurrence of it and nothing else |
| FileLists.RemoveEach | ezPy/file_handling.py:65 | removing names in turn fails only with ValueError |
| FileLists.RemoveEachSpec | ezPy/file_handling.py:61-65 | removing names in turn succeeds exactly when every name occurs in the list at least as often as among the names; then exactly those occurrences go; on failure only occurrences of the list are removed |
| FileLists.ExcludeCheckedSpec | src/mpyez/backend/uOS.py:36-55 | `exclude` raises FileNotPresent, removing nothing, exactly when some name is absent; with present and distinct names it removes exactly one occurrence of each |
| FileLists.ExcludeTwiceExample | src/mpyez/backend/uOS.py:48-55 | excluding `a.py` twice from `['a.py']` passes the mask but the second removal raises ValueError |
| FileLists.SortNamesSpec | src/mpyez/backend/uOS.py:66 | sorting the names gives a rearrangement of them in ascending order, or descending when reversed |
| FileLists.SortNamesUnique | src/mpyez/backend/uOS.py:66 | any rearrangement of the names in that order is the sorted list |
| UOS.GetFiles.constructor | src/mpyez/backend/uOS.py:12-34 | a new object holds the patterns as a tuple, the selection mode, and the chained list of files |
| UOS.GetFiles.Exclude | src/mpyez/backend/uOS.py:36-55 | the list and the exception are those of the checked exclusion; the patterns and mode are untouched |
| UOS.GetFiles.RemoveAll | src/mpyez/backend/uOS.py:55 | removing the names one by one leaves the list and the exception of the removal specification: each name's first occurrence goes, ValueError at the first missing name |
| UOS.GetFiles.Sort | src/mpyez/backend/uOS.py:57-66 | the list is replaced by its sorted form; nothing else changes |
| UOS.GetFilesSpec | src/mpyez/backend/uOS.py:12-66 | the list of files holds exactly the matching non-directory entries, excluding present distinct names shortens it by their number, and sorting keeps its names |
| FileHandling.ListOfFilesFromExtensions.constructor | ezPy/file_handling.py:14-59 | a new object holds the extensions as a tuple and every listed entry, directory or not, once per extension it ends with |
| FileHandling.ListOfFilesFromExtensions.Exclude | ezPy/file_handling.py:61-65 | the names are removed in turn without a prior check, exactly as the removal specification says |
| FileHandling.ListOfFilesFromExtensions.Sort | ezPy/file_handling.py:67-68 | the list is replaced by its sorted form; the extensions are untouched |
| FileHandling.PartialExcludeExample | ezPy/file_handling.py:65 | excluding `['a.py', 'c.py']` from `['a.py', 'b.py']` raises ValueError after `a.py` is already gone |
| Lines.CheckSpec | src/mpyez/backend/uIO.py:23-42 | the new `check_for_errors`; Lines.CheckSpecCorrect states its outcome |
| Lines.GetLinesSpec | src/mpyez/ezIO.py:34-73 | the new reader after the file is read; Lines.GetLinesCorrect states its outcome |
| Lines.OldGetLinesSpec | src/mpyez/read_files.py:12-21 | the old reader after the file is read; Lines.OldReaderDropsNegative and Lines.OldReaderEmpty state its outcome |
| FileLists.Lof | src/mpyez/backend/uOS.py:21-34 | the list built from the listing; FileLists.LofMembers and FileLists.LofCount state its contents |
| FileLists.ExcludeChecked | src/mpyez/backend/uOS.py:36-55 | `exclude`; FileLists.ExcludeCheckedSpec states its outcome |
| FileLists.SortNames | src/mpyez/backend/uOS.py:66 | `lof.sort(reverse=reverse)`; FileLists.SortNamesSpec states its outcome |
| UOS.GetFiles.List | src/mpyez/backend/uOS.py:68-78 | the `list_` property returns the object's list of files |
| FileHandling.ListOfFilesFromExtensions.List | ezPy/file_handling.py:70-72 | the `list_` property returns the object's list of files |

## Left out

- Reading files and listing directories are not modelled. `get_lines_from_txt_file` starts from the file's lines `out`. `GetFiles` and `ListOfFilesFromExtensions` start from the listing of the directory and, for `GetFiles`, the set of names `os.path.isdir` accepts. `os.path.isdir(f)` in src/mpyez/backend/uOS.py:27-30 is evaluated relative to the current directory rather than the working directory; the model takes whatever set it yields as given.
- Floats, booleans and `None` are not part of `Py.Value`. Helpers that only differ on them (for example `True == 1` as an index, or `is_numeric`, a runtime type test) are modelled on integers and strings only.
- Exception messages are not modelled, only which exception is raised. The printed table of `CountObjectsInList.__str__`, the `top_n` argument of `get_object_count` and `PrettyPrint.__str__` are left out, except for the width arithmetic of the latter.
- UDict.RowWidth: `str.center` padding is modelled by its length only, not by where the spaces go.
- Elements are immutable values in the model, so `copy.deepcopy` and an in-place update of a nested list are indistinguishable inside one result.
- EzDict.MergeDictionaries: every value is treated as a fresh value. `merge_dictionaries` instead stores the caller's own list objects and `extend`s them (src/mpyez/ezDict.py:52). That mutates the caller's dicts and every other key holding the same list object. With `L = []`, merging `dict.fromkeys(['a', 'b'], L)` and `{'a': [9]}` returns `{'a': [9], 'b': [9]}` in Python, while the model gives `'b'` the value `[]`.
- EzDict.MergeDict: the same sharing is not modelled; it is the inner loop of EzDict.MergeDictionaries.
- EzDict.MergeValue: states each key's value as if no list object were shared between keys or with the caller; under the sharing described for EzDict.MergeDictionaries a key's value can change through another key's `extend`.
- EzDict.LookupPut: "every other key keeps its value" holds for values, not for Python list objects shared with the put key, which `extend` changes as well.
- Text.ParseInt: models `int()` on ASCII text only: an optional sign and decimal digits 0-9. Python's `int()` also strips surrounding whitespace, accepts `_` between digits and accepts Unicode decimal digits. So `[' 7', '8\n', '1_000']` converts to `[7, 8, 1000]` in Python and raises ValueError in the model.
- Text.StringListToNumeric: inherits the ASCII-only `int()` of Text.ParseInt and the ASCII-only `isalpha` of Text.IsAlpha.
- Text.StringListToNumericAlphabet: the alphabetic test is ASCII-only. Python's `str.isalpha` is true for any Unicode letter, so `['é']` raises AlphabetFound in Python and ValueError in the model.
- Text.IsAlpha: `str.isalpha` is modelled on the ASCII letters `A`-`Z` and `a`-`z`; Unicode letters are not letters in the model. `is_alphabet` is not affected: it searches for `[A-Za-z]` (src/ezPy/ez_misc.py:42), which is ASCII in Python as well.
- Text.Repr: a string is always quoted with `'` and nothing is escaped. Python's `repr` switches to `"` for a string holding `'`, and writes control characters and backslashes as escapes such as `\n`. So `is_alphabet(['\n'])` is true in Python (the escape contributes the letter `n`) and false in the model.
- Text.Display: inherits the quoting and escaping of Text.Repr. `len(str(value))` in src/mpyez/backend/uDict.py:25 therefore differs from the model for values holding quotes, backslashes or control characters. That affects UDict.LongestValue and UDict.MaxWidth.
- Joining.SortOrFallback: the order in which the TypeError fallback of `join_lists` visits the value types comes from iterating a Python `set` and is an input `typeOrder`.
- The duplicated copies are modelled once:
  - the `Replace` class of src/mpyez/list_.py:194-264 is the class of src/mpyez/backend/uList.py for calls by keyword. Its `replace_at_index` and `replace_with_value` take `by` before `new_list` (src/mpyez/list_.py:196-197), so a positional call `Replace(l, w, r, new_list)` binds `by` to the boolean and raises InvalidInputParameter. The positional order of that file is not modelled;
  - src/mpyez/utilities/dict_/utilities.py repeats the two converters `change_value_to_list` and `change_list_to_values` of src/mpyez/backend/uDict.py:4-17, without `PrettyPrint`;
  - src/ezPy/utilities/ez_list/misc.py is src/mpyez/utilities/ez_list/utilities.py without the frequency table: it has only `replace_at_index` and `replace_element`;
  - the list helpers of src/mpyez/list_.py are modelled by those of src/mpyez/ezList.py where both files have them: `nested_list_to_list`, `list_to_nested_list`, `join_lists`, `is_contained`, `sort_`, `remove_`, `move_element_in_list`, `difference_between_lists`, `index_` and `string_list_to_numeric` do the same thing in both, apart from names and exception messages. The two files differ elsewhere:
    - only src/mpyez/list_.py has `numeric_list_to_string` (src/mpyez/list_.py:12), and only src/mpyez/ezList.py has `equal_lists` (src/mpyez/ezList.py:12-33);
    - only src/mpyez/ezList.py has the functions `replace_at_index` and `replace_with_value`; src/mpyez/list_.py has the `Replace` class instead;
    - `get_object_count` of src/mpyez/list_.py builds the frequency table of src/mpyez/utilities/list_/utilities.py, whose lookup is EzListUtilities.GetItem, rather than that of src/mpyez/backend/uList.py. On the tabular path it also prints the table's type (src/mpyez/list_.py:326), which is not modelled.
- The `string_list_to_numeric` and `is_alphabet` variants of src/ezPy/ez_list.py:14-42 and ezPy/ez_list.py:13-42 are left out. Their digit test rejects `'0'` (it returns `None`) and their mask is inverted, so they are not a revision of the modelled helpers.
- ListUtilities.ReplaceAtIndex: requires the value list not to be the target list itself; Python would then extend the list being written, which the model does not capture.
- ListUtilities.ReplaceElement: same requirement as ListUtilities.ReplaceAtIndex.
- Lines.CheckForErrors: requires integer requests. The new validator applies `>=`, `abs` and `min` to a non-int entry, and its caller `get_lines_from_txt_file` rejects such entries first. What the validator alone does on them is not modelled.

## Findings

| source | as written | input that shows it | evidently intended | confidence | as-written member | corrected member |
|---|---|---|---|---|---|---|
| src/mpyez/backend/uList.py:36-42 (and src/mpyez/utilities/list_/utilities.py:6-16) | a shorter secondary list is extended only by `secondary[:p - s]`, which reaches the primary length only when `p <= 2s` | `[9]` against a primary list of three gives `[9, 9]`, and the replacement then writes two of the three positions | the comment's cyclic extension to exactly the primary length | not executed | Replacement.PrefixPadCounterexample | Replacement.CyclicFillSpec |
| src/mpyez/utilities/ez_list/utilities.py:29-31, 61-80 | `replace_element` pads the new elements to `(p - s + 1) * s` items, and the nested `replace_at_index` rejects any value list longer than its index list | replacing `[1, 2, 3]` by `[7, 8]` in `[1, 2, 3]` raises UnequalElements | every old element replaced, the new elements repeated in order | not executed | EzListUtilities.ReplaceElementCounterexample | EzListUtilities.ReplaceElementIntendedCorrect |
| src/mpyez/utilities/read_files/utilities.py:17-19 | the adjustment loop iterates over the boolean mask, so it writes `lines_to_read[True]`, that is entry 1, once per negative request | `[-1, 0]` against a file of three lines becomes `[-1, 3]`, and the old reader returns no line | each negative request counted from the end, `[2, 0]` | not executed | Lines.OldCheckWrongEntry | Lines.CheckSpecCorrect |
| src/mpyez/utilities/ez_list/utilities.py:103-108 (and src/mpyez/utilities/list_/utilities.py:74-79) | `__getitem__` with an integer unpacks the selected `(key, count)` pair as if it were a list of pairs; a pair whose key has fewer than two characters makes the comprehension raise IndexError, not the TypeError the fallback catches | in the table of `['a']`, item `0` raises IndexError | the one-row table `{'a': 1}` | not executed | EzListUtilities.GetItemCounterexample | EzListUtilities.GetItemIntendedCorrect |
