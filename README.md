# Folder sorter and acronym builder, in Dafny

This project models the two scripts of the repository and proves properties of
them.

- **The folder sorter** (`utilities/sort_folder_by_categories.py`) looks at every
  file directly inside a folder. It compares the lower-cased name with each
  extension of a fixed table of nine categories. A matching file is moved into a
  sub-folder named after its category, which is created when missing; a file of
  the same name already there is overwritten. A summary lists, per category and
  in processing order, the names that were moved. The script's own file and any
  names the caller excludes are skipped. A command-line block turns the argument
  vector into a call.
- **The acronym builder** (`fun/acronym.py`) splits a sentence at single spaces.
  It drops the pieces that are exactly one of the excluded words, takes the first
  character of each remaining piece and upper-cases the result.

Files:

- `wrappers.dfy`: `Option` and `Result`.
- `ascii_text.dfy`: ASCII `lower()`, `upper()` and `endswith()`.
- `categories.dfy`: the category table, the match test, the "text after the final
  dot" view of it, and the proof that at most one category can match a name.
- `sorter.dfy`: the folder as a `Folder` object whose two maps (its own files,
  and its sub-folders with their files) the sort changes in place. The `Sort`
  method runs the script's triple loop, and its postcondition equates the final
  state and summary with `SortSpec`, a function of the initial state. The lemmas
  about `SortSpec` state what a run does.
- `cli.dfy`: the `__main__` dispatch.
- `acronym.dfy`: `str.split(' ')`, its inverse `Join`, and `make_acronym`.

Behaviour of the code that the model keeps:

- The `break` after a match leaves only the extension loop; the category loop
  goes on. `MatchUnique` shows from the table that no second category can match,
  so no second move is attempted; `SortFile` reaches it through
  `FirstMatchAtMatch` at every match.
- The category folder is created before the move is tried, so it remains, empty,
  when the move raises a permission error (`SortMakesFolders`).
- The Videos set holds the single extension `wmvmov`, because two adjacent
  literals are concatenated; `.mov` and `.wmv` files stay where they are.
- Three or more positional arguments fail on the keyword `exclude`, which the
  entry point does not accept; they never become excluded names.
- `--silent` is removed only once, so a repeated flag becomes the folder to sort.
- A name is appended to the summary as soon as its file has been moved, not
  after the whole listing.
- The acronym splits at every single space, not at runs of whitespace, so an
  empty sentence and stray spaces give empty pieces, and those fail.
- First-match-wins never decides anything for this table: at most one category
  matches any name (`MatchUnique`).

## Model

| member | source | states |
|---|---|---|
| `Categories.NoDotInExtensions` | utilities/sort_folder_by_categories.py:41-56 | no extension in the table contains a '.' |
| `Categories.ExtensionsDisjoint` | utilities/sort_folder_by_categories.py:41-56 | no extension belongs to two categories |
| `AsciiText.Lower` | utilities/sort_folder_by_categories.py:67 | ASCII `lower()` keeps the length; each character maps as `LowerIsCaseMapping` and `CaseTable` state |
| `AsciiText.CaseTable` | utilities/sort_folder_by_categories.py:67 | 'A'..'Z' lower-case to 'a'..'z' letter for letter, and 'a'..'z' upper-case to 'A'..'Z' |
| `AsciiText.LowerIsCaseMapping` | utilities/sort_folder_by_categories.py:67 | after `lower()` every capital has become its small letter, no upper-case letter is left, and a character changes exactly when it was an upper-case letter |
| `AsciiText.EndsWith` | utilities/sort_folder_by_categories.py:67 | `s.endswith(suffix)` holds exactly when `s` is some prefix followed by `suffix` |
| `Categories.Matches` | utilities/sort_folder_by_categories.py:67 | the test holds exactly when the lower-cased name is some stem, then '.', then the extension |
| `Categories.FirstMatch` | utilities/sort_folder_by_categories.py:65-67 | the result is the first category (in table order) with a matching extension; no earlier one matches; None means none matches |
| `Categories.Classify` | utilities/sort_folder_by_categories.py:64-67 | a result names a category that matches the name; None only when no category matches |
| `Categories.MatchesIffExtension` | utilities/sort_folder_by_categories.py:67 | for an extension without a dot, `lower().endswith('.' + ext)` holds exactly when `ext` is the text after the final '.' of the lower-cased name |
| `Categories.MatchingExtensionsEqual` | utilities/sort_folder_by_categories.py:67 | two dot-free extensions that both pass the suffix test are equal |
| `Categories.MatchUnique` | utilities/sort_folder_by_categories.py:64-91 | any category that matches a name is the one it is classified into, so the category loop that goes on after `break` finds no second match |
| `Categories.ClassifyByExtension` | utilities/sort_folder_by_categories.py:64-67 | a name goes to category k exactly when its lower-cased extension is in k's set |
| `Categories.UnclassifiedByExtension` | utilities/sort_folder_by_categories.py:64-67 | a name is classified nowhere exactly when it has no extension, or its extension is in no set |
| `Categories.UnknownExtensionIsUnsorted` | utilities/sort_folder_by_categories.py:64-67 | a name whose extension is in no set is not classified |
| `Categories.ClassifyIgnoresCase` | utilities/sort_folder_by_categories.py:67 | two names equal after lower-casing are classified alike |
| `Categories.FirstMatchIgnoresCase` | utilities/sort_folder_by_categories.py:65-67 | the first matching category depends only on the lower-cased name |
| `Categories.UpperCaseJpgIsAnImage` | utilities/sort_folder_by_categories.py:46-67 | `photo.JPG` is classified as Images |
| `Categories.MovAndWmvAreUnsorted` | utilities/sort_folder_by_categories.py:48-49 | any name ending in `.mov` or in `.wmv` matches no category |
| `Categories.WmvmovIsAVideo` | utilities/sort_folder_by_categories.py:48-49 | any name ending in `.wmvmov` is classified as Videos |
| `Sorter.ExclusionList` | utilities/sort_folder_by_categories.py:33-38 | the skip list starts with the script's own name; a name is in it exactly when it is that name or one of the caller's |
| `Sorter.InitialSummary` | utilities/sort_folder_by_categories.py:58 | one entry per category, in table order, each with an empty list |
| `Sorter.ProcessFile` | utilities/sort_folder_by_categories.py:64-91 | one listed name: no other file changes; the name leaves the folder exactly when it is a file and movable; no sub-folder disappears; its category folder exists afterwards whenever it is a non-excluded file with a category, even if the move is denied |
| `Sorter.SortSpec` | utilities/sort_folder_by_categories.py:64-91 | a run keeps one summary entry per category with the same category names, in the same order |
| `Sorter.SortKeepsOrMovesFile` | utilities/sort_folder_by_categories.py:59-85 | after a run a name is a file of the folder exactly when it was one before and was not a listed movable name; its contents are unchanged |
| `Sorter.SortPlacesFile` | utilities/sort_folder_by_categories.py:68-85 | after a run `dir/name` holds the original contents of `name` when it was moved into `dir` (overwriting any file there), and is unchanged otherwise |
| `Sorter.SortMakesFolders` | utilities/sort_folder_by_categories.py:73-78 | after a run a sub-folder exists exactly when it existed before or a listed, non-excluded file of the folder belongs to its category, whether or not the move succeeded |
| `Sorter.SummaryRecordsOnlyMoves` | utilities/sort_folder_by_categories.py:80-87 | summary lists only grow, and a name is added to category k only if it was listed, was a file, is movable and belongs to k |
| `Sorter.SummaryIsMovedNames` | utilities/sort_folder_by_categories.py:59-87 | for a listing without repeats, category k's list gains exactly the movable files of k, in listing order |
| `Sorter.MovedNames` | utilities/sort_folder_by_categories.py:59-87 | the names recorded under k are exactly the listed files that are movable and belong to k, and there are no more of them than listed names |
| `Sorter.UnmovedNameStays` | utilities/sort_folder_by_categories.py:59-91 | an excluded, unmatched or permission-denied name keeps its place and contents and is added to no list; other files do not affect it |
| `Sorter.ExcludedNamesStay` | utilities/sort_folder_by_categories.py:33-61 | the script's own file and every name the caller excludes are never moved |
| `Sorter.SummaryEntriesWereMoved` | utilities/sort_folder_by_categories.py:58-87 | every name in a fresh run's summary under k was a file matching k, not excluded or denied, and now sits in k's folder with its original contents and is gone from the folder |
| `Sorter.NothingMovableNothingMoved` | utilities/sort_folder_by_categories.py:59-91 | a run over a folder with no movable file changes no file and records nothing |
| `Sorter.SecondRunMovesNothing` | utilities/sort_folder_by_categories.py:59-91 | after a run that listed every file, a second run leaves the files as they are and records nothing |
| `Sorter.FirstMatchAtMatch` | utilities/sort_folder_by_categories.py:65-91 | when category k matches, no earlier category does, and the file is classified into k |
| `Sorter.ExampleClassification` | utilities/sort_folder_by_categories.py:41-67 | `report.pdf` goes to Docs, `photo.JPG` to Images, and `notes.xyz` nowhere |
| `Sorter.ExampleFilesLeft` | utilities/sort_folder_by_categories.py:59-85 | sorting a folder of `report.pdf`, `photo.JPG`, `notes.xyz` and the script leaves only `notes.xyz` and the script in it |
| `Sorter.ExampleFoldersMade` | utilities/sort_folder_by_categories.py:68-85 | that run creates exactly `Docs` and `Images`, holding `report.pdf` and `photo.JPG` with their contents |
| `Sorter.ExampleSummary` | utilities/sort_folder_by_categories.py:58-87 | that run records `report.pdf` under Docs, `photo.JPG` under Images, and nothing under any other category |
| `Sorter.Folder.MakeDir` | utilities/sort_folder_by_categories.py:73-78 | creates an empty sub-folder and changes nothing else |
| `Sorter.Folder.Move` | utilities/sort_folder_by_categories.py:81-82 | moves the file into the sub-folder, or changes nothing and reports failure for a permission-denied file |
| `Sorter.Folder.Copy` | utilities/sort_folder_by_categories.py:84 | copies the file over the sub-folder's file of that name, or changes nothing and reports failure for a permission-denied file |
| `Sorter.Folder.Remove` | utilities/sort_folder_by_categories.py:85 | removes the file from the folder and changes nothing else |
| `Sorter.Folder.SortFile` | utilities/sort_folder_by_categories.py:65-91 | the category and extension loops, with the inner-only `break`, leave the folder and summary as `ProcessFile` says |
| `Sorter.Folder.Sort` | utilities/sort_folder_by_categories.py:33-91 | the final folder, sub-folders and summary are those of `SortSpec` from the initial state with the fresh skip list |
| `Cli.RemoveFirst` | utilities/sort_folder_by_categories.py:108 | `list.remove` leaves one element fewer: the same multiset less one copy of the value |
| `Cli.RemoveFirstOfInserted` | utilities/sort_folder_by_categories.py:108 | removing `x` from `a + [x] + b`, where `a` has no `x`, gives `a + b`: the first occurrence goes |
| `Cli.SilentAnywhere` | utilities/sort_folder_by_categories.py:106-117 | wherever `--silent` stands, the call is the one made without it, made silent |
| `Cli.Invoke` | utilities/sort_folder_by_categories.py:109-117 | one argument sorts the working directory, two the folder named by the second, none fails with an index error, three or more fail on the keyword `exclude`; the silent flag is passed through |
| `Cli.Dispatch` | utilities/sort_folder_by_categories.py:105-117 | silent is reported exactly when the flag is present; with n arguments left after one flag is removed, 1 sorts the working directory, 2 the folder named by the second remaining argument, 0 fails with an index error, 3 or more fail on the keyword `exclude` |
| `Cli.RepeatedFlagBecomesTheFolder` | utilities/sort_folder_by_categories.py:106-113 | `prog --silent --silent` sorts a folder named `--silent`, silently |
| `Acronym.Split` | fun/acronym.py:2 | `split(' ')` gives one more piece than there are spaces, and no piece contains a space |
| `Acronym.SplitAround` | fun/acronym.py:2 | splitting `a + ' ' + b` gives the pieces of `a` followed by those of `b` |
| `Acronym.JoinSplit` | fun/acronym.py:2 | joining the pieces of a split with the separator gives back the string |
| `Acronym.SplitJoin` | fun/acronym.py:2 | splitting the join of separator-free pieces gives back the pieces |
| `Acronym.SplitWithoutSeparator` | fun/acronym.py:2 | a string with no space is a single piece |
| `Acronym.JoinSeparators` | fun/acronym.py:2 | `Join`, the inverse of `split(' ')` (see `JoinSplit`, `SplitJoin`), puts exactly one separator between neighbouring separator-free pieces |
| `Acronym.Kept` | fun/acronym.py:2 | a word is kept exactly when it is a piece and not one of the excluded words |
| `Acronym.KeptAppend` | fun/acronym.py:2 | dropping excluded pieces distributes over concatenation, so kept pieces keep their order and every repeat of a kept word is kept |
| `Acronym.KeptNothingExcluded` | fun/acronym.py:1-2 | with no excluded words every piece is kept |
| `Acronym.Initials` | fun/acronym.py:2 | taking first characters succeeds exactly when no word is empty, and then gives one character per word, the word's first, in order |
| `Acronym.MakeAcronym` | fun/acronym.py:1-3 | the acronym succeeds exactly when no kept piece is empty (otherwise `word[0]` raises an index error), and then has one character per kept piece |
| `Acronym.AcronymLetters` | fun/acronym.py:2-3 | the character of a successful acronym at position i is the upper-cased first character of the i-th kept piece |
| `Acronym.AcronymHasNoLowercase` | fun/acronym.py:3 | the acronym contains no lower-case ASCII letter |
| `AsciiText.Upper` | fun/acronym.py:3 | ASCII `upper()` keeps the length; each character maps as `UpperIsCaseMapping` and `CaseTable` state |
| `AsciiText.UpperIsCaseMapping` | fun/acronym.py:3 | after `upper()` every small letter has become its capital, no lower-case letter is left, and a character changes exactly when it was a lower-case letter |
| `Acronym.OneLetterPerPiece` | fun/acronym.py:1-3 | with no excluded words the acronym has one letter per space-separated piece |
| `Acronym.EmptyPieceFails` | fun/acronym.py:2 | an empty piece that is not excluded makes the call fail with an index error |
| `Acronym.StraySpacesFail` | fun/acronym.py:2 | an empty sentence, a leading, trailing or double space each fail unless "" is excluded |
| `Acronym.AcronymAround` | fun/acronym.py:2-3 | the acronym of `a + ' ' + b` succeeds exactly when both parts do, and is then their acronyms one after the other |
| `Acronym.AcronymOfWord` | fun/acronym.py:2-3 | a single word gives its upper-cased first letter, or nothing when excluded |
| `Acronym.ExclusionIsCaseSensitive` | fun/acronym.py:2-3 | "By" with the excluded word "by" gives "B": exclusion is exact and comes before upper-casing |
| `Acronym.Laser` | fun/acronym.py:6-8 | the script's example sentence with `by`, `the`, `of` excluded gives "LASER" |

## Left out

- File system calls (`os.listdir`, `os.path.isfile`, `os.mkdir`, `shutil.move`, `shutil.copy2`, `os.remove`, `os.stat`) are replaced by the `Folder` object's maps; the directory listing is an input sequence in any order.
- Resolving `loc` (the working-directory default, `assert os.path.exists(loc)`, path joining) is not modelled: `Sort` works on a `Folder` already at hand, and `Dispatch` stops at the call it would make.
- `os.path.isfile(filename)` is evaluated relative to the working directory; the model checks the folder being sorted, that is, it assumes the two are the same.
- A file whose name equals a category folder's name (a file called `Docs`, say) is not modelled: files and sub-folders are separate maps.
- Folder creation never fails in the model; the `OSError` message of a failed `mkdir` is console output.
- A permission error is modelled as a fixed set of names (`locked`) whose move or copy fails before anything changes. A copy that succeeds followed by a removal that fails, which would leave the file in both places, is not modelled. Nor is the printed status line with `st_mode`.
- Files vanishing or appearing during a run (another process at work) are not modelled.
- `copy2` metadata (times, modes) is not modelled; file contents are byte sequences.
- Printing the summary and `os.system('pause')` are console I/O.
- `sys.argv[0]` basename extraction: the script's own name is the parameter `thisFilename`.
- `assert type(excluded) is list` is a run-time type check with no counterpart in typed Dafny.
- Case mapping covers ASCII letters only; Unicode `lower()`/`upper()` (which can change a string's length) is not modelled.
- `list.remove` raising `ValueError` on a missing value does not arise: the script only calls it after checking membership, so `RemoveFirst` requires it.
- The acronym script's `main` discards its result; it appears only as the `Laser` lemma.
- The iteration order of each extension set is unspecified; `SortFile` picks extensions in any order.
