/** The `ListOfFilesFromExtensions` class of ezPy/file_handling.py: the files of a directory with the
    given extensions, with in-place exclusion and sorting. Unlike `GetFiles` it keeps directories whose
    names match and checks nothing before removing. */
module FileHandling {
  import opened Py
  import opened FileLists

  class ListOfFilesFromExtensions {
    var fileType: seq<string>
    var lof: seq<string>

    /** `ListOfFilesFromExtensions(file_type, directory)`: `listing` is what `os.listdir` gives for the
        directory. */
    constructor (listing: seq<string>, fileType: Names)
      ensures this.fileType == AsTuple(fileType)
      ensures lof == Lof(listing, {}, AsTuple(fileType), true)
    {
      this.fileType := AsTuple(fileType);
      lof := Lof(listing, {}, AsTuple(fileType), true);
    }

    /** `exclude(exclude_file)`: each name's first occurrence is removed in turn; a name that is not
        there raises ValueError with the earlier names already removed. */
    method Exclude(excludeFile: Names) returns (err: Option<Error>)
      modifies this
      ensures var r := RemoveEach(old(lof), AsTuple(excludeFile)); lof == r.lof && err == r.err
      ensures fileType == old(fileType)
    {
      var names := AsTuple(excludeFile);
      var i := 0;
      while i < |names|
        invariant 0 <= i <= |names|
        invariant fileType == old(fileType)
        invariant RemoveEach(lof, names[i..]) == RemoveEach(old(lof), names)
      {
        RemoveEachStep(lof, names, i);
        if names[i] !in lof {
          return Some(ValueError);
        }
        lof := RemoveFirst(lof, names[i]);
        i := i + 1;
      }
      return None;
    }

    /** `sort(reverse)`. */
    method Sort(reverse: bool)
      modifies this
      ensures lof == SortNames(old(lof), reverse)
      ensures fileType == old(fileType)
    {
      lof := SortNames(lof, reverse);
    }

    /** The `list_` property: the list itself. */
    function List(): seq<string>
      reads this
    {
      lof
    }
  }

  /** Excluding a present name and then a missing one raises ValueError but keeps the first removal:
      from `['a.py', 'b.py']`, excluding `['a.py', 'c.py']` leaves `['b.py']`. */
  lemma PartialExcludeExample(lof: seq<string>)
    requires lof == ["a.py", "b.py"]
    ensures RemoveEach(lof, ["a.py", "c.py"]) == Removal(["b.py"], Some(ValueError))
  {
    assert FirstIndex(lof, "a.py") == 0;
    assert RemoveFirst(lof, "a.py") == ["b.py"];
    var names := ["a.py", "c.py"];
    assert names[1..] == ["c.py"];
    assert "c.py" != "b.py";
  }
}
