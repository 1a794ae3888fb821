/**
 * The folder sorter: every file directly inside a folder whose lower-cased
 * name ends in '.' + an extension of the category table is moved into the
 * sub-folder named after that category, and a summary records, per
 * category and in processing order, the names that were moved.
 *
 * The folder is a `Folder` object whose two maps the sort changes in place;
 * `SortSpec` is the same run written as a function of the initial state, and
 * the lemmas below state what a run does in terms of it.
 */
module Sorter {
  import opened Wrappers
  import opened AsciiText
  import opened Categories

  type Bytes = seq<bv8>

  /** One key of the summary: a category and the names moved into it, in order. */
  datatype Entry = Entry(category: string, moved: seq<string>)

  /**
   * What a run reads and changes: the files directly in the folder, the
   * sub-folders with their files, and the summary.
   */
  datatype State = State(
    files: map<string, Bytes>,
    folders: map<string, map<string, Bytes>>,
    summary: seq<Entry>)

  function Lookup<K, V>(m: map<K, V>, key: K): Option<V> {
    if key in m then Some(m[key]) else None
  }

  /** The contents of `dir/name`, if that file exists. */
  function FileAt(folders: map<string, map<string, Bytes>>, dir: string, name: string): Option<Bytes> {
    if dir in folders then Lookup(folders[dir], name) else None
  }

  predicate NoDuplicates(names: seq<string>) {
    forall i, j :: 0 <= i < j < |names| ==> names[i] != names[j]
  }

  /**
   * The names a run skips: the script's own name always comes first, then
   * the caller's names. A fresh sequence is built; the caller's is left alone.
   */
  function ExclusionList(thisFilename: string, excluded: Option<seq<string>>): (r: seq<string>)
    ensures |r| >= 1 && r[0] == thisFilename
    ensures forall n :: n in r <==> n == thisFilename || (excluded.Some? && n in excluded.value)
  {
    match excluded
    case None => [thisFilename]
    case Some(names) => [thisFilename] + names
  }

  /** The summary before any file is processed: one empty entry per category, in table order. */
  function InitialSummary(): (s: seq<Entry>)
    ensures |s| == |Table|
    ensures forall k :: 0 <= k < |Table| ==> s[k].category == Table[k].name && s[k].moved == []
  {
    seq(|Table|, k requires 0 <= k < |Table| => Entry(Table[k].name, []))
  }

  /** `summary[category].append(name)` for the category at index `k`. */
  function Record(summary: seq<Entry>, k: nat, name: string): seq<Entry>
    requires k < |summary|
  {
    summary[k := Entry(summary[k].category, summary[k].moved + [name])]
  }

  /** The sub-folders after `dir` is created if it did not exist. */
  function WithFolder(folders: map<string, map<string, Bytes>>, dir: string): map<string, map<string, Bytes>> {
    if dir in folders then folders else folders[dir := map[]]
  }

  /** A name the sort moves, provided it is still a file when its turn comes. */
  predicate Movable(name: string, excluded: seq<string>, locked: set<string>) {
    name !in excluded && Classify(name).Some? && name !in locked
  }

  /** The sub-folder a classified name is sorted into. */
  function Destination(name: string): string
    requires Classify(name).Some?
  {
    Table[Classify(name).value].name
  }

  /**
   * The loop body for one listed name. It is skipped if it is no longer a
   * file or is excluded, and left alone if no category matches. Otherwise
   * the category folder is created if missing, and unless moving raises a
   * permission error (`locked`), the file ends up in that folder,
   * overwriting a file of the same name, and the name is recorded.
   */
  function ProcessFile(s: State, name: string, excluded: seq<string>, locked: set<string>): (r: State)
    requires |s.summary| == |Table|
    ensures Lookup(r.files, name) ==
      if name in s.files && Movable(name, excluded, locked) then None else Lookup(s.files, name)
    ensures forall n :: n != name ==> Lookup(r.files, n) == Lookup(s.files, n)
    ensures s.folders.Keys <= r.folders.Keys
    ensures name in s.files && name !in excluded && Classify(name).Some? ==> Destination(name) in r.folders
  {
    if name !in s.files || name in excluded then s
    else match Classify(name)
      case None => s
      case Some(k) =>
        var dir := Table[k].name;
        var folders := WithFolder(s.folders, dir);
        if name in locked then s.(folders := folders)
        else State(s.files - {name},
                   folders[dir := folders[dir][name := s.files[name]]],
                   Record(s.summary, k, name))
  }

  /** A whole run over a directory listing, one name after the other. */
  function SortSpec(s: State, listing: seq<string>, excluded: seq<string>, locked: set<string>): (r: State)
    requires |s.summary| == |Table|
    ensures |r.summary| == |Table|
    ensures forall k :: 0 <= k < |Table| ==> r.summary[k].category == s.summary[k].category
    decreases |listing|
  {
    if listing == [] then s
    else
      var prefix := listing[..|listing| - 1];
      ProcessFile(SortSpec(s, prefix, excluded, locked), listing[|listing| - 1], excluded, locked)
  }

  /** The names of `listing` a run records under category `k`, in order. */
  function MovedNames(files: map<string, Bytes>, listing: seq<string>, k: nat,
                      excluded: seq<string>, locked: set<string>): (r: seq<string>)
    ensures |r| <= |listing|
    ensures forall n :: n in r <==>
      n in listing && n in files && Movable(n, excluded, locked) && Classify(n) == Some(k)
    decreases |listing|
  {
    if listing == [] then []
    else
      var x := listing[|listing| - 1];
      assert listing == listing[..|listing| - 1] + [x];
      MovedNames(files, listing[..|listing| - 1], k, excluded, locked) +
        (if x in files && Movable(x, excluded, locked) && Classify(x) == Some(k) then [x] else [])
  }

  /**
   * After a run, a name is a file of the folder exactly when it was one
   * before and the run did not move it; its contents are unchanged.
   */
  lemma {:induction false} SortKeepsOrMovesFile(s: State, listing: seq<string>, excluded: seq<string>,
                                                locked: set<string>, name: string)
    requires |s.summary| == |Table|
    ensures Lookup(SortSpec(s, listing, excluded, locked).files, name) ==
      if name in listing && Movable(name, excluded, locked) then None else Lookup(s.files, name)
  {
    if listing != [] {
      var prefix, x := listing[..|listing| - 1], listing[|listing| - 1];
      assert listing == prefix + [x];
      SortKeepsOrMovesFile(s, prefix, excluded, locked, name);
    }
  }

  /**
   * After a run, `dir/name` holds the original contents of `name` when the
   * run moved `name` into `dir` (overwriting whatever was there), and is as
   * before otherwise.
   */
  lemma {:induction false} SortPlacesFile(s: State, listing: seq<string>, excluded: seq<string>,
                                          locked: set<string>, dir: string, name: string)
    requires |s.summary| == |Table|
    ensures FileAt(SortSpec(s, listing, excluded, locked).folders, dir, name) ==
      if name in listing && name in s.files && Movable(name, excluded, locked) && Destination(name) == dir
      then Some(s.files[name])
      else FileAt(s.folders, dir, name)
  {
    if listing != [] {
      var prefix, x := listing[..|listing| - 1], listing[|listing| - 1];
      assert listing == prefix + [x];
      SortPlacesFile(s, prefix, excluded, locked, dir, name);
      SortKeepsOrMovesFile(s, prefix, excluded, locked, name);
    }
  }

  /**
   * After a run, a sub-folder exists exactly when it existed before or some
   * listed, non-excluded file of the folder belongs to its category. The
   * folder is created before the move is attempted, so it is there even when
   * every move into it raised a permission error.
   */
  lemma {:induction false} SortMakesFolders(s: State, listing: seq<string>, excluded: seq<string>,
                                            locked: set<string>, dir: string)
    requires |s.summary| == |Table|
    ensures dir in SortSpec(s, listing, excluded, locked).folders <==>
      dir in s.folders ||
      exists n :: n in listing && n in s.files && n !in excluded && Classify(n).Some? && Destination(n) == dir
  {
    if listing != [] {
      var prefix, x := listing[..|listing| - 1], listing[|listing| - 1];
      assert listing == prefix + [x];
      SortMakesFolders(s, prefix, excluded, locked, dir);
      SortKeepsOrMovesFile(s, prefix, excluded, locked, x);
    }
  }

  /**
   * Summary lists only grow, and a name is added to the list of category
   * `k` only if it was listed, was a file, is movable and belongs to `k`.
   */
  lemma {:induction false} SummaryRecordsOnlyMoves(s: State, listing: seq<string>, excluded: seq<string>,
                                                   locked: set<string>, k: nat, name: string)
    requires |s.summary| == |Table| && k < |Table|
    ensures s.summary[k].moved <= SortSpec(s, listing, excluded, locked).summary[k].moved
    ensures name in SortSpec(s, listing, excluded, locked).summary[k].moved ==>
      name in s.summary[k].moved ||
      (name in listing && name in s.files && Movable(name, excluded, locked) && Classify(name) == Some(k))
  {
    if listing != [] {
      var prefix, x := listing[..|listing| - 1], listing[|listing| - 1];
      assert listing == prefix + [x];
      SummaryRecordsOnlyMoves(s, prefix, excluded, locked, k, name);
      SortKeepsOrMovesFile(s, prefix, excluded, locked, x);
    }
  }

  /**
   * For a listing without repeated names (as a directory listing is), the
   * run appends to category `k` exactly the movable files of that category,
   * in listing order.
   */
  lemma {:induction false} SummaryIsMovedNames(s: State, listing: seq<string>, excluded: seq<string>,
                                               locked: set<string>, k: nat)
    requires |s.summary| == |Table| && k < |Table|
    requires NoDuplicates(listing)
    ensures SortSpec(s, listing, excluded, locked).summary[k].moved ==
      s.summary[k].moved + MovedNames(s.files, listing, k, excluded, locked)
  {
    if listing != [] {
      var prefix, x := listing[..|listing| - 1], listing[|listing| - 1];
      assert listing == prefix + [x];
      assert x !in prefix by {
        forall i | 0 <= i < |prefix| ensures prefix[i] != x {
          assert listing[i] != listing[|listing| - 1];
        }
      }
      SummaryIsMovedNames(s, prefix, excluded, locked, k);
      SortKeepsOrMovesFile(s, prefix, excluded, locked, x);
    }
  }

  /**
   * A name the run does not move (excluded, matching no category, or whose
   * move raises a permission error) keeps its place and contents and is
   * added to no summary list.
   */
  lemma UnmovedNameStays(s: State, listing: seq<string>, excluded: seq<string>,
                         locked: set<string>, name: string)
    requires |s.summary| == |Table|
    requires !Movable(name, excluded, locked)
    ensures Lookup(SortSpec(s, listing, excluded, locked).files, name) == Lookup(s.files, name)
    ensures forall k :: 0 <= k < |Table| ==>
      (name in SortSpec(s, listing, excluded, locked).summary[k].moved <==> name in s.summary[k].moved)
  {
    SortKeepsOrMovesFile(s, listing, excluded, locked, name);
    forall k | 0 <= k < |Table|
      ensures name in SortSpec(s, listing, excluded, locked).summary[k].moved <==> name in s.summary[k].moved
    {
      SummaryRecordsOnlyMoves(s, listing, excluded, locked, k, name);
    }
  }

  /** The script's own file and every name the caller excludes are never moved. */
  lemma ExcludedNamesStay(s: State, listing: seq<string>, thisFilename: string,
                          excluded: Option<seq<string>>, locked: set<string>, name: string)
    requires |s.summary| == |Table|
    requires name == thisFilename || (excluded.Some? && name in excluded.value)
    ensures Lookup(SortSpec(s, listing, ExclusionList(thisFilename, excluded), locked).files, name) ==
      Lookup(s.files, name)
  {
    UnmovedNameStays(s, listing, ExclusionList(thisFilename, excluded), locked, name);
  }

  /**
   * The summary of a run starts from one empty list per category, so it
   * names only files that now sit in their category folder with their
   * original contents and are gone from the folder itself.
   */
  lemma SummaryEntriesWereMoved(files: map<string, Bytes>, folders: map<string, map<string, Bytes>>,
                                listing: seq<string>, excluded: seq<string>, locked: set<string>,
                                k: nat, name: string)
    requires k < |Table|
    requires name in SortSpec(State(files, folders, InitialSummary()), listing, excluded, locked).summary[k].moved
    ensures name in files && Classify(name) == Some(k) && name !in excluded && name !in locked
    ensures var r := SortSpec(State(files, folders, InitialSummary()), listing, excluded, locked);
      name !in r.files && FileAt(r.folders, Table[k].name, name) == Some(files[name])
  {
    var s := State(files, folders, InitialSummary());
    SummaryRecordsOnlyMoves(s, listing, excluded, locked, k, name);
    SortKeepsOrMovesFile(s, listing, excluded, locked, name);
    SortPlacesFile(s, listing, excluded, locked, Table[k].name, name);
  }

  /** A run in which no file is movable changes no file and records nothing. */
  lemma {:induction false} NothingMovableNothingMoved(s: State, listing: seq<string>, excluded: seq<string>,
                                                      locked: set<string>)
    requires |s.summary| == |Table|
    requires forall n :: n in s.files ==> !Movable(n, excluded, locked)
    ensures SortSpec(s, listing, excluded, locked).files == s.files
    ensures SortSpec(s, listing, excluded, locked).summary == s.summary
  {
    if listing != [] {
      NothingMovableNothingMoved(s, listing[..|listing| - 1], excluded, locked);
    }
  }

  /**
   * Sorting twice moves nothing the second time: once a run has seen every
   * file of the folder, a second run (with the same exclusions and the same
   * permissions) leaves the files where they are and records nothing.
   */
  lemma SecondRunMovesNothing(s: State, listing1: seq<string>, listing2: seq<string>,
                              excluded: seq<string>, locked: set<string>)
    requires |s.summary| == |Table|
    requires forall n :: n in s.files ==> n in listing1
    ensures var r1 := SortSpec(s, listing1, excluded, locked);
      var r2 := SortSpec(State(r1.files, r1.folders, InitialSummary()), listing2, excluded, locked);
      r2.files == r1.files && r2.summary == InitialSummary()
  {
    var r1 := SortSpec(s, listing1, excluded, locked);
    forall n | n in r1.files ensures !Movable(n, excluded, locked) {
      SortKeepsOrMovesFile(s, listing1, excluded, locked, n);
    }
    NothingMovableNothingMoved(State(r1.files, r1.folders, InitialSummary()), listing2, excluded, locked);
  }

  /** The folder of the worked example: a document, an image, an unknown file and the script. */
  const ExampleScript: string := "sort_folder_by_categories.py"
  const ExampleListing: seq<string> := ["report.pdf", "photo.JPG", "notes.xyz", ExampleScript]
  const ExampleFiles: map<string, Bytes> :=
    map["report.pdf" := [1], "photo.JPG" := [2], "notes.xyz" := [3], ExampleScript := [4]]

  /** The run of the worked example, from no sub-folders and a fresh summary. */
  function ExampleResult(): (r: State)
    ensures |r.summary| == |Table|
  {
    SortSpec(State(ExampleFiles, map[], InitialSummary()), ExampleListing,
             ExclusionList(ExampleScript, None), {})
  }

  /** How the names of the worked example are classified. */
  lemma ExampleClassification()
    ensures Classify("report.pdf") == Some(2) && Destination("report.pdf") == "Docs"
    ensures Classify("photo.JPG") == Some(Images) && Destination("photo.JPG") == "Images"
    ensures Classify("notes.xyz") == None
  {
    ReportIsADocument();
    UpperCaseJpgIsAnImage();
    NotesAreUnsorted();
  }

  lemma ReportIsADocument()
    ensures Classify("report.pdf") == Some(2)
  {
    ExtensionOfSuffixed("report", "pdf");
    assert "report" + "." + "pdf" == "report.pdf";
    ClassifyByExtension("report.pdf", 2);
  }

  lemma NotesAreUnsorted()
    ensures Classify("notes.xyz") == None
  {
    ExtensionOfSuffixed("notes", "xyz");
    assert "notes" + "." + "xyz" == "notes.xyz";
    assert forall k :: 0 <= k < |Table| ==> "xyz" !in Table[k].extensions;
    UnknownExtensionIsUnsorted("notes.xyz");
  }

  /** Which names of the worked example a run moves. */
  lemma ExampleMovable(n: string)
    ensures n in ExampleListing && Movable(n, ExclusionList(ExampleScript, None), {}) <==>
      n == "report.pdf" || n == "photo.JPG"
  {
    ExampleClassification();
  }

  /** In the worked example the unknown file and the script stay; the other two leave. */
  lemma ExampleFilesLeft()
    ensures ExampleResult().files == map["notes.xyz" := [3], ExampleScript := [4]]
  {
    var s := State(ExampleFiles, map[], InitialSummary());
    var skip := ExclusionList(ExampleScript, None);
    var expected := map["notes.xyz" := [3], ExampleScript := [4]];
    forall n ensures Lookup(ExampleResult().files, n) == Lookup(expected, n) {
      SortKeepsOrMovesFile(s, ExampleListing, skip, {}, n);
      ExampleMovable(n);
    }
    forall n ensures n in ExampleResult().files <==> n in expected {
      assert Lookup(ExampleResult().files, n) == Lookup(expected, n);
    }
    forall n | n in expected ensures ExampleResult().files[n] == expected[n] {
      assert Lookup(ExampleResult().files, n) == Lookup(expected, n);
    }
  }

  /** In the worked example exactly Docs and Images are created, each holding its file. */
  lemma ExampleFoldersMade()
    ensures ExampleResult().folders.Keys == {"Docs", "Images"}
    ensures FileAt(ExampleResult().folders, "Docs", "report.pdf") == Some([1])
    ensures FileAt(ExampleResult().folders, "Images", "photo.JPG") == Some([2])
  {
    ExampleClassification();
    var s := State(ExampleFiles, map[], InitialSummary());
    var skip := ExclusionList(ExampleScript, None);
    forall dir ensures dir in ExampleResult().folders <==> dir == "Docs" || dir == "Images" {
      SortMakesFolders(s, ExampleListing, skip, {}, dir);
    }
    SortPlacesFile(s, ExampleListing, skip, {}, "Docs", "report.pdf");
    SortPlacesFile(s, ExampleListing, skip, {}, "Images", "photo.JPG");
  }

  /** What the worked example's run records under category `k`. */
  lemma ExampleMovedNames(k: nat)
    requires k < |Table|
    ensures MovedNames(ExampleFiles, ExampleListing, k, ExclusionList(ExampleScript, None), {}) ==
      if k == 2 then ["report.pdf"] else if k == Images then ["photo.JPG"] else []
  {
    ExampleClassification();
    var skip := ExclusionList(ExampleScript, None);
    var l3 := ["report.pdf", "photo.JPG", "notes.xyz"];
    var l2 := ["report.pdf", "photo.JPG"];
    var l1 := ["report.pdf"];
    assert ExampleListing[..3] == l3 && l3[..2] == l2 && l2[..1] == l1 && l1[..0] == [];
    assert !Movable(ExampleScript, skip, {});
    assert MovedNames(ExampleFiles, ExampleListing, k, skip, {}) == MovedNames(ExampleFiles, l3, k, skip, {});
    assert MovedNames(ExampleFiles, l3, k, skip, {}) == MovedNames(ExampleFiles, l2, k, skip, {});
    assert MovedNames(ExampleFiles, l2, k, skip, {}) ==
      MovedNames(ExampleFiles, l1, k, skip, {}) + (if k == Images then ["photo.JPG"] else []);
    assert MovedNames(ExampleFiles, l1, k, skip, {}) == (if k == 2 then ["report.pdf"] else []);
  }

  /** The summary of the worked example: one document, one image, nothing else. */
  lemma ExampleSummary()
    ensures ExampleResult().summary[2].moved == ["report.pdf"]
    ensures ExampleResult().summary[Images].moved == ["photo.JPG"]
    ensures forall k :: 0 <= k < |Table| && k != 2 && k != Images ==> ExampleResult().summary[k].moved == []
  {
    var s := State(ExampleFiles, map[], InitialSummary());
    var skip := ExclusionList(ExampleScript, None);
    assert NoDuplicates(ExampleListing);
    forall k | 0 <= k < |Table|
      ensures ExampleResult().summary[k].moved ==
        if k == 2 then ["report.pdf"] else if k == Images then ["photo.JPG"] else []
    {
      SummaryIsMovedNames(s, ExampleListing, skip, {}, k);
      ExampleMovedNames(k);
    }
  }

  /**
   * A folder being sorted: its own files, its sub-folders with theirs, and
   * the names whose move or copy raises a permission error.
   */
  class Folder {
    var files: map<string, Bytes>
    var folders: map<string, map<string, Bytes>>
    const locked: set<string>

    constructor (files: map<string, Bytes>, folders: map<string, map<string, Bytes>>, locked: set<string>)
      ensures this.files == files && this.folders == folders && this.locked == locked
    {
      this.files := files;
      this.folders := folders;
      this.locked := locked;
    }

    /** `os.mkdir` of a sub-folder that does not exist yet. */
    method MakeDir(dir: string)
      requires dir !in folders
      modifies this
      ensures folders == old(folders)[dir := map[]] && files == old(files)
    {
      folders := folders[dir := map[]];
    }

    /** `shutil.move` of a file into a sub-folder that has no file of that name. */
    method Move(name: string, dir: string) returns (ok: bool)
      requires name in files && dir in folders && name !in folders[dir]
      modifies this
      ensures ok == (name !in locked)
      ensures ok ==> files == old(files) - {name} &&
                     folders == old(folders)[dir := old(folders)[dir][name := old(files)[name]]]
      ensures !ok ==> files == old(files) && folders == old(folders)
    {
      ok := name !in locked;
      if ok {
        folders := folders[dir := folders[dir][name := files[name]]];
        files := files - {name};
      }
    }

    /** `shutil.copy2` of a file over the file of the same name in a sub-folder. */
    method Copy(name: string, dir: string) returns (ok: bool)
      requires name in files && dir in folders
      modifies this
      ensures ok == (name !in locked)
      ensures files == old(files)
      ensures ok ==> folders == old(folders)[dir := old(folders)[dir][name := old(files)[name]]]
      ensures !ok ==> folders == old(folders)
    {
      ok := name !in locked;
      if ok {
        folders := folders[dir := folders[dir][name := files[name]]];
      }
    }

    /** `os.remove` of a file of the folder. */
    method Remove(name: string)
      requires name in files
      modifies this
      ensures files == old(files) - {name} && folders == old(folders)
    {
      files := files - {name};
    }

    /**
     * Sorts the folder. `listing` is the directory listing, in whatever
     * order the file system gives it; a listed name is processed only if it
     * is still a file when its turn comes and is not excluded.
     */
    method Sort(listing: seq<string>, thisFilename: string, excluded: Option<seq<string>>)
      returns (summary: seq<Entry>)
      modifies this
      ensures State(files, folders, summary) ==
        SortSpec(State(old(files), old(folders), InitialSummary()), listing,
                 ExclusionList(thisFilename, excluded), locked)
    {
      var skip := ExclusionList(thisFilename, excluded);
      summary := InitialSummary();
      ghost var start := State(files, folders, summary);
      var i := 0;
      while i < |listing|
        invariant i <= |listing|
        invariant State(files, folders, summary) == SortSpec(start, listing[..i], skip, locked)
      {
        var name := listing[i];
        if name in files && name !in skip {
          summary := SortFile(name, skip, summary);
        }
        assert listing[..i + 1] == listing[..i] + [name];
        i := i + 1;
      }
      assert listing[..i] == listing;
    }

    /**
     * The loop body of `Sort` for one candidate file: every category is
     * tried, and inside a category every extension until one matches; the
     * match ends only the extension loop.
     */
    method SortFile(name: string, skip: seq<string>, summary: seq<Entry>) returns (summary': seq<Entry>)
      requires name in files && name !in skip && |summary| == |Table|
      modifies this
      ensures State(files, folders, summary') ==
        ProcessFile(State(old(files), old(folders), summary), name, skip, locked)
    {
      ghost var before := State(files, folders, summary);
      summary' := summary;
      var k := 0;
      while k < |Table|
        invariant k <= |Table|
        invariant State(files, folders, summary') ==
          if FirstMatch(name, k).Some? then ProcessFile(before, name, skip, locked) else before
      {
        var category := Table[k];
        var extensions := category.extensions;
        while extensions != {}
          invariant extensions <= category.extensions
          invariant forall e :: e in category.extensions && e !in extensions ==> !Matches(name, e)
          invariant State(files, folders, summary') ==
            if FirstMatch(name, k).Some? then ProcessFile(before, name, skip, locked) else before
          decreases |extensions|
        {
          var extension :| extension in extensions;
          if Matches(name, extension) {
            FirstMatchAtMatch(name, k);
            var dir := category.name;
            if dir !in folders {
              MakeDir(dir);
            }
            var ok;
            if name !in folders[dir] {
              ok := Move(name, dir);
            } else {
              ok := Copy(name, dir);
              if ok {
                Remove(name);
              }
            }
            if ok {
              summary' := Record(summary', k, name);
            }
            break;
          }
          extensions := extensions - {extension};
        }
        k := k + 1;
      }
    }
  }

  /**
   * When category `k` matches, no earlier category does, so the first
   * match among the first `k + 1` categories, and the classification, is `k`.
   */
  lemma FirstMatchAtMatch(name: string, k: nat)
    requires k < |Table| && CategoryMatches(name, k)
    ensures FirstMatch(name, k) == None && FirstMatch(name, k + 1) == Some(k)
    ensures Classify(name) == Some(k)
  {
    MatchUnique(name, k);
    var f := FirstMatch(name, k);
    if f.Some? {
      MatchUnique(name, f.value);
    }
  }
}
