/** The `GetFiles` class of src/mpyez/backend/uOS.py: the files of a directory whose names end with, or
    contain, any of the given patterns, with in-place exclusion and sorting. */
module UOS {
  import opened Py
  import opened FileLists

  class GetFiles {
    var inputVariable: seq<string>
    var varType: string
    var lof: seq<string>

    /** `GetFiles(input_variable, var_type, working_directory)`: `listing` is what `os.listdir` gives for
        the working directory and `dirs` the names for which `os.path.isdir` holds. `var_type == 'ext'`
        selects by suffix; any other value selects by substring. */
    constructor (listing: seq<string>, dirs: set<string>, inputVariable: Names, varType: string)
      ensures this.inputVariable == AsTuple(inputVariable) && this.varType == varType
      ensures lof == Lof(listing, dirs, AsTuple(inputVariable), varType == "ext")
    {
      this.inputVariable := AsTuple(inputVariable);
      this.varType := varType;
      lof := Lof(listing, dirs, AsTuple(inputVariable), varType == "ext");
    }

    /** `exclude(exclude_file)`: FileNotPresent, with nothing removed, when some name is not in the list;
        otherwise each name's first occurrence is removed in turn. */
    method Exclude(excludeFile: Names) returns (err: Option<Error>)
      modifies this
      ensures var r := ExcludeChecked(old(lof), AsTuple(excludeFile)); lof == r.lof && err == r.err
      ensures inputVariable == old(inputVariable) && varType == old(varType)
    {
      var names := AsTuple(excludeFile);
      var current := lof;
      var mask := seq(|names|, k requires 0 <= k < |names| => names[k] !in current);
      if true in mask {
        ExcludeMissing(current, names, mask);
        return Some(FileNotPresent);
      }
      ExcludePresent(current, names, mask);
      err := RemoveAll(names);
    }

    /** The removal loop of `exclude`: each name's first occurrence goes in turn. */
    method RemoveAll(names: seq<string>) returns (err: Option<Error>)
      modifies this
      ensures var r := RemoveEach(old(lof), names); lof == r.lof && err == r.err
      ensures inputVariable == old(inputVariable) && varType == old(varType)
    {
      var i := 0;
      while i < |names|
        invariant 0 <= i <= |names|
        invariant inputVariable == old(inputVariable) && varType == old(varType)
        invariant RemoveEach(lof, names[i..]) == RemoveEach(old(lof), names)
      {
        RemoveEachStep(lof, names, i);
        if names[i] !in lof {
          return Some(ValueError);
        }
        lof := RemoveFirst(lof, names[i]);
        i := i + 1;
      }
      return None;
    }

    /** `sort(reverse)`: the list is put in ascending order of the names, or descending. */
    method Sort(reverse: bool)
      modifies this
      ensures lof == SortNames(old(lof), reverse)
      ensures inputVariable == old(inputVariable) && varType == old(varType)
    {
      lof := SortNames(lof, reverse);
    }

    /** The `list_` property: the list itself. */
    function List(): seq<string>
      reads this
    {
      lof
    }
  }

  lemma ExcludeMissing(current: seq<string>, names: seq<string>, mask: seq<bool>)
    requires |mask| == |names| && forall k :: 0 <= k < |names| ==> mask[k] == (names[k] !in current)
    requires true in mask
    ensures ExcludeChecked(current, names) == Removal(current, Some(FileNotPresent))
  {
    var k :| 0 <= k < |mask| && mask[k];
    assert names[k] !in current;
  }

  lemma ExcludePresent(current: seq<string>, names: seq<string>, mask: seq<bool>)
    requires |mask| == |names| && forall k :: 0 <= k < |names| ==> mask[k] == (names[k] !in current)
    requires true !in mask
    ensures ExcludeChecked(current, names) == RemoveEach(current, names)
  {
    forall k | 0 <= k < |names| ensures names[k] in current {
      assert mask[k] in mask;
    }
  }

  /** A fresh object lists, for each pattern in order, the non-directory entries of the listing that
      match it; excluding names that are all present and distinct shortens the list by their number;
      sorting leaves a rearrangement of the names in order. */
  lemma GetFilesSpec(listing: seq<string>, dirs: set<string>, patterns: seq<string>, byExt: bool, names: seq<string>, reverse: bool, f: string)
    requires forall k :: 0 <= k < |names| ==> names[k] in Lof(listing, dirs, patterns, byExt)
    requires forall j, k :: 0 <= j < k < |names| ==> names[j] != names[k]
    ensures var lof := Lof(listing, dirs, patterns, byExt);
      && (f in lof <==> f in listing && f !in dirs && exists k :: 0 <= k < |patterns| && Matches(f, patterns[k], byExt))
      && ExcludeChecked(lof, names).err == None
      && |ExcludeChecked(lof, names).lof| == |lof| - |names|
      && multiset(SortNames(lof, reverse)) == multiset(lof)
  {
    var lof := Lof(listing, dirs, patterns, byExt);
    LofMembers(listing, dirs, patterns, byExt, f);
    ExcludeCheckedSpec(lof, names);
    SortNamesSpec(lof, reverse);
  }
}
