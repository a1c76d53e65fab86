# lclsStrip2D in Dafny

A model of `lclsStrip2D.py`, the script that makes a "stripped" copy of an
LCLS HDF5 file. It drops every dataset whose name contains one of the skip
patterns ("CsPad" and "Camera" by default) and keeps the rest at their own
paths.

The model has seven modules, one per part of the script:

- `Common`: the `Option` type.
- `Patterns`: the skip expression.
  - `DatasetList.__init__` joins the patterns with "|" and compiles the result.
  - `addDatasetWithSkip` searches each visited name with it.
  - `re.search` is given its meaning for literal characters and "|": the expression is cut at every "|", and the search succeeds when some branch occurs anywhere in the name.
  - The module also covers how `skipList` is normalised (a string, a list, or `None`) and how the command line splits `--skip_list` at ",".
- `Naming`: the output path of `stripFile`, which is `outputFolder + "/" + splitext(basename(h5name))[0] + ".stripped.h5"`. `basename` and `splitext` are modelled with their POSIX meaning, including the rule that leading dots do not start an extension.
- `Inputs`: the file list of the command line.
  - For a directory, the globbed paths are sorted in Python's string order.
  - Paths whose basename contains "stripped.h5" are dropped.
  - Any other input is the one file.
- `Selection`: the class `DatasetList`, with its field `data`, its compiled skip expression and the visitor bound in its constructor.
  - The traversal `H_IN.visititems(data.addDataset)` is the sequence of (name, node) pairs it produces.
  - The specification function `Selected` says what the list holds after a traversal.
- `Copying`: the copy loop of `stripFile`.
  - Each kept dataset is copied in order to its own path.
  - A `RuntimeError` is reported and the loop goes on.
  - Any other exception leaves `stripFile`.
  - Whether a copy raises is an oracle: a map from a dataset's path to its exception.
  - The output file is a class whose `entries` map paths to payloads.
- `Strip`:
  - `stripFile` as a method proved equal to the function `StripSpec`: the existence guard, opening the input, creating the output, building the list, visiting, and copying.
  - The per-file loop of the command line, which catches every exception and goes on with the next file.

The file system is a parameter:
- `existing` is the set of paths `os.path.exists` reports;
- `sources` maps each readable input to its traversal and copy oracle;
- `inputIsDir` and `globbed` stand for `os.path.isdir` and `glob.glob`.

### Behaviour as coded

Where the code and the behaviour one would expect from its help text differ,
the model follows the code:

- An empty pattern list does not keep everything. It joins to the empty expression, which matches every name, so every dataset is skipped (`Patterns.EmptyListSkipsEverything`).
- The same holds for a list with an empty pattern: `--skip_list ""` or `"a,,b"` (`Patterns.DoubleCommaSkipsEverything`, `Strip.EmptyArgumentCopiesNothing`).
- `skipList=None` does not select the visitor without skipping. `"|".join(None)` raises a `TypeError` before the test at line 37, so `addDatasetWithOutSkip` is never bound. The model raises `SkipListIsNone`; by then the output file has already been created, empty.
- The name given to the skip test is the one `visititems` passes: the path relative to the root, without the leading "/". The copy uses the dataset's absolute path.
- The stripped file always ends in ".stripped.h5", whatever the input's extension.
- Only a `RuntimeError` from a copy is caught inside `stripFile`. Any other exception leaves it with the output partly written, and the command line reports it and goes on with the next file.

## Model

| member | source | states |
|---|---|---|
| Patterns.Occurs | lclsStrip2D.py:44 | the unanchored search succeeds iff the pattern occurs at some index of the name |
| Patterns.EmptyOccursEverywhere | lclsStrip2D.py:44 | the empty branch matches every name |
| Patterns.Join | lclsStrip2D.py:36 | `sep.join(ps)`: a one-element list joins to its element; `JoinSplit` and `SplitJoin` prove it the inverse of `Split` |
| Patterns.Split | lclsStrip2D.py:116 | `str.split` at "," gives at least one piece and no piece contains the separator |
| Patterns.JoinSplit | lclsStrip2D.py:116 | joining the pieces of a split at the same separator gives the string back |
| Patterns.SplitJoin | lclsStrip2D.py:36 | splitting the "\|"-joined patterns recovers the pattern list when no pattern contains "\|" |
| Patterns.SplitWithoutSeparator | lclsStrip2D.py:36 | a pattern without "\|" is a single branch of the expression |
| Patterns.AnyOccurs | lclsStrip2D.py:44 | an alternation matches iff one of its branches occurs in the name |
| Patterns.Search | lclsStrip2D.py:44 | `re.search` of a literal-and-"\|" expression; an expression without "\|" matches a name iff it occurs in it, and `AnyOccurs` gives the general case |
| Patterns.SkipRegex | lclsStrip2D.py:36 | the expression the constructor compiles: "" for the empty list, and for patterns without "\|" one branch per pattern, in order |
| Patterns.SkipIffSomePatternOccurs | lclsStrip2D.py:36-44 | a name is skipped iff some pattern occurs in it, anywhere |
| Patterns.EmptyListSkipsEverything | lclsStrip2D.py:36 | the empty pattern list compiles to an expression that matches every name |
| Patterns.EmptyPatternSkipsEverything | lclsStrip2D.py:36-44 | a list containing "" matches every name |
| Patterns.NoOccurrenceKeeps | lclsStrip2D.py:44 | a name in which no pattern occurs is not matched |
| Patterns.SkipPatterns | lclsStrip2D.py:33-36 | a string becomes the one-element list; a list is kept; only None yields no pattern list |
| Patterns.StringActsAsSingletonList | lclsStrip2D.py:33-34 | a single string skips exactly what the one-element list holding it skips, and compiles to itself |
| Patterns.CommandLineDefaultIsConstructorDefault | lclsStrip2D.py:98 | the command-line default "CsPad,Camera" splits into the constructor's default list, which compiles to "CsPad\|Camera" |
| Patterns.DoubleCommaSkipsEverything | lclsStrip2D.py:116 | `--skip_list "a,,b"` produces an empty branch and so skips every name |
| Patterns.CommandLineSkip | lclsStrip2D.py:116 | with the command-line list, a name is skipped iff one of the comma-separated pieces occurs in it |
| Patterns.SplitPiecesFromString | lclsStrip2D.py:116 | every character of a piece of the split comes from the argument |
| Naming.LastIndexOf | lclsStrip2D.py:59 | the index found holds the character and no later index does, or -1 if none does |
| Naming.Basename | lclsStrip2D.py:59 | `basename` is the suffix without "/" that is all of the path or follows its last "/" |
| Naming.SplitExt | lclsStrip2D.py:59 | root + ext is the name; ext is non-empty iff the last component has a dot after a non-dot; ext is a dot and no further dot or "/" |
| Naming.Stem | lclsStrip2D.py:59 | the stem has no "/" |
| Naming.OutputFileName | lclsStrip2D.py:59-60 | the output's file name has no "/" |
| Naming.OutputName | lclsStrip2D.py:56-61 | the output path; `OutputBasename`, `OutputIsNotInput` and `OutputIsStrippedName` state what it is |
| Naming.BasenameOfChild | lclsStrip2D.py:59 | the basename of `dir + "/" + f` is `f` |
| Naming.OutputBasename | lclsStrip2D.py:56-61 | the output lies directly in the output folder and its file name is the stem followed by ".stripped.h5" |
| Naming.SameFileNameSameOutput | lclsStrip2D.py:56-61 | inputs with the same file name in different directories share one output path |
| Naming.OutputIsNotInput | lclsStrip2D.py:56-65 | the output path never equals the input path, so opening it for writing never truncates the input |
| Naming.OutputIsStrippedName | lclsStrip2D.py:56-61 | every output path's basename contains "stripped.h5" |
| Naming.IsStrippedName | lclsStrip2D.py:108 | the filter's test, that the basename contains "stripped.h5"; `OutputIsStrippedName` and `OutputsAreNotInputs` use it |
| Naming.ExampleRunFile | lclsStrip2D.py:56-61 | "/reg/d/xpp/run0012.h5" into "out" gives "out/run0012.stripped.h5" |
| Naming.ExampleHiddenFile | lclsStrip2D.py:59 | ".h5" has no extension, so it gives ".h5.stripped.h5" |
| Inputs.LessTotal | lclsStrip2D.py:107 | Python's string order is total |
| Inputs.LessTransitive | lclsStrip2D.py:107 | Python's string order is transitive |
| Inputs.Insert | lclsStrip2D.py:107 | inserting into a sorted list keeps it sorted and adds exactly that element |
| Inputs.SortStrings | lclsStrip2D.py:107 | `sorted` returns a sorted permutation of its argument |
| Inputs.Filter | lclsStrip2D.py:108 | the list comprehension keeps exactly the elements that satisfy its condition, and never lengthens the list |
| Inputs.FilterCounts | lclsStrip2D.py:108 | every kept element occurs in the result as often as in the input, and no other element occurs |
| Inputs.FilterAppend | lclsStrip2D.py:108 | filtering distributes over concatenation, so what is kept keeps its relative order |
| Inputs.FilterKeepsOrder | lclsStrip2D.py:107-108 | filtering a sorted list leaves it sorted |
| Inputs.Unstripped | lclsStrip2D.py:108 | keeps each globbed path whose basename lacks "stripped.h5", as often as it was globbed, and drops every other path |
| Inputs.InputFiles | lclsStrip2D.py:105-110 | for a directory: sorted, and each globbed path whose basename lacks "stripped.h5", exactly as often as glob returned it, and no other path; otherwise the input alone |
| Inputs.OutputsAreNotInputs | lclsStrip2D.py:105-110 | a stripped output written into the scanned directory is never taken as an input |
| Selection.Accepts | lclsStrip2D.py:42-49 | the test of the bound visitor: a dataset, and with skipping, a name the expression does not match; `SelectedMembers` and `SelectedBySkipList` state it per dataset |
| Selection.Selected | lclsStrip2D.py:42-49 | the list a traversal leaves; `SelectedAppend`, `SelectedMembers`, `SelectedBounded` and `DatasetList.VisitItems` state what it is |
| Selection.SelectedAppend | lclsStrip2D.py:42-45 | visiting `a` then `b` appends what `a` appends, then what `b` appends: the list grows only at its end, in visiting order |
| Selection.SelectedMembers | lclsStrip2D.py:42-45 | a dataset is in the list iff it was visited and accepted; groups never are |
| Selection.SelectedBounded | lclsStrip2D.py:42-45 | the list is never longer than the traversal |
| Selection.SelectedDistinct | lclsStrip2D.py:45 | the list has no repeated path when the file has none |
| Selection.SelectedBySkipList | lclsStrip2D.py:36-45 | a dataset is kept iff it was visited under a name in which no pattern occurs |
| Selection.EmptyListSelectsNothing | lclsStrip2D.py:36-45 | the empty pattern list keeps no dataset |
| Selection.EmptyPatternSelectsNothing | lclsStrip2D.py:36-45 | a list containing "" keeps no dataset |
| Selection.OnePatternSearch | lclsStrip2D.py:36-44 | a one-pattern expression matches a name iff the pattern occurs in it |
| Selection.ExampleSearches | lclsStrip2D.py:44 | "CsPad" matches "run/CsPad0/image" and not "run/meta/temperature" |
| Selection.ExampleCsPadRun | lclsStrip2D.py:42-45 | a run with a CsPad image and a temperature keeps only the temperature |
| Selection.DatasetList.constructor | lclsStrip2D.py:32-40 | the list starts empty, the expression is the "\|"-join and the skipping visitor is bound |
| Selection.DatasetList.AddDatasetWithSkip | lclsStrip2D.py:42-45 | appends the node iff it is a dataset whose name the expression does not match |
| Selection.DatasetList.AddDatasetWithOutSkip | lclsStrip2D.py:47-49 | appends the node iff it is a dataset |
| Selection.DatasetList.AddDataset | lclsStrip2D.py:37-45 | calls the bound visitor: earlier entries are untouched and at most one is appended |
| Selection.DatasetList.Clear | lclsStrip2D.py:51-52 | the list is empty afterwards |
| Selection.DatasetList.VisitItems | lclsStrip2D.py:70 | after the traversal the list is the old list followed by `Selected` of the traversal |
| Copying.CopyAll | lclsStrip2D.py:72-76 | the copy loop from an empty output; `CopyAllMeaning` ties it to `Entries`, `Copied` and `FailedPaths` |
| Copying.CopyAllMeaning | lclsStrip2D.py:72-76 | the loop copies each successful dataset before the first other exception, reports each `RuntimeError` before it, and stops there |
| Copying.CopyAllClean | lclsStrip2D.py:72-76 | without other exceptions the loop runs to the end |
| Copying.CopyAllAfterRaise | lclsStrip2D.py:72-76 | after an other exception, later datasets change nothing |
| Copying.EntriesKeys | lclsStrip2D.py:74 | the output holds exactly the paths written |
| Copying.EntriesLookup | lclsStrip2D.py:74 | with distinct paths, each dataset lands with its own payload |
| Copying.CopiedMembers | lclsStrip2D.py:72-76 | a dataset is copied iff it is kept and its copy succeeds |
| Copying.CopiedDistinct | lclsStrip2D.py:72-76 | the copied datasets keep distinct paths |
| Copying.CopyAllWithoutOtherErrors | lclsStrip2D.py:72-76 | without other exceptions, the output's paths are the kept paths whose copy succeeds, each with its payload, and the reported paths are the failed ones |
| Copying.CopyAllStopsAtOtherError | lclsStrip2D.py:72-76 | the first other exception is the one raised, and nothing kept after it reaches the output |
| Copying.FailedPathsMembers | lclsStrip2D.py:75-76 | a path is reported iff a kept dataset at that path raised a `RuntimeError` |
| Copying.OutputFile.constructor | lclsStrip2D.py:65 | the output file opened for writing is empty |
| Copying.OutputFile.Copy | lclsStrip2D.py:74 | writes the dataset at its path unless its copy raises, and returns the exception |
| Strip.StripSpec | lclsStrip2D.py:55-78 | what one call does; `StripOutcomes`, `StripContents` and `StripFile` state it |
| Strip.StripOutcomes | lclsStrip2D.py:55-66 | returns at the guard iff the output exists and `force` is off; an unreadable input raises before the output is created; None raises after; every other call creates the output |
| Strip.StripFile | lclsStrip2D.py:55-78 | the method with its objects and copy loop computes exactly `StripSpec` |
| Strip.CopyKept | lclsStrip2D.py:72-76 | the copy loop over an empty output leaves exactly what `CopyAll` says |
| Strip.StripContents | lclsStrip2D.py:55-78 | end to end, with only `RuntimeError`s and distinct paths: the output holds exactly the visited datasets whose name no pattern occurs in and whose copy succeeds, with their payloads, and the reported paths are the kept ones that failed |
| Strip.UnmatchedCopiesEverything | lclsStrip2D.py:55-78 | when no pattern occurs in any name and no copy fails, every dataset is copied with its payload and nothing is reported |
| Strip.ExampleCsPadStrip | lclsStrip2D.py:55-78 | with the default skip list "CsPad", a run holding a CsPad image and a temperature yields an output holding only the temperature, with its payload, and nothing reported |
| Strip.EmptyArgumentCopiesNothing | lclsStrip2D.py:116 | `--skip_list ""` creates an empty output |
| Strip.RerunIsNoOp | lclsStrip2D.py:62-63 | once a call has created the output, a second call without `force` returns at the guard |
| Strip.Process | lclsStrip2D.py:111-120 | the loop over the files for any per-file call; `ProcessShape`, `ProcessPrefix` and `ProcessAt` state it |
| Strip.StripStep | lclsStrip2D.py:113-118 | the per-file call: `stripFile` with the output folder, the skip argument split at "," and `--force` |
| Strip.ProcessSpec | lclsStrip2D.py:111-120 | the command line's loop; `EveryFileAttempted`, `OutputsExistAfter` and `SecondRunIsNoOp` state it |
| Strip.ProcessFiles | lclsStrip2D.py:111-120 | the per-file loop computes exactly `ProcessSpec` |
| Strip.CommandLine | lclsStrip2D.py:105-120 | the command line runs the loop over `InputFiles` |
| Strip.ProcessShape | lclsStrip2D.py:111-120 | one result per file, and existing paths only grow |
| Strip.ProcessPrefix | lclsStrip2D.py:111-120 | processing a prefix of the files gives a prefix of the results |
| Strip.ProcessAt | lclsStrip2D.py:111-120 | the i-th result is the call on the i-th file against the paths the earlier calls left, and what it creates persists |
| Strip.ProcessCreatingNothing | lclsStrip2D.py:111-120 | when no call creates anything, the paths are unchanged and each call sees the original paths |
| Strip.EveryFileAttempted | lclsStrip2D.py:111-120 | every file is attempted whatever happened to the earlier ones, and the skip list passed is never None |
| Strip.OutputsExistAfter | lclsStrip2D.py:111-120 | after the loop the output of every readable input exists |
| Strip.AllPresentSkipsAll | lclsStrip2D.py:111-120 | with every output present and no `--force`, every call returns at the guard and nothing changes |
| Strip.SecondRunIsNoOp | lclsStrip2D.py:111-120 | a second run over the same readable files without `--force` changes nothing |

## Left out

- HDF5 I/O through h5py is not modelled. This covers `h5.File`, the order `visititems` visits in, and how faithfully `H_OUT.copy` reproduces attributes, chunking and compression. The traversal is an input sequence, the copy an oracle, and a dataset's payload an opaque value that the copy carries unchanged.
- The groups that `H_OUT.copy` creates above a dataset are not represented: the output map holds datasets only, and those groups are implied by the paths.
- Opening the output file cannot fail in the model, and files left open when an exception escapes are not modelled. Closing files (lines 77-78) has no observable effect here.
- Timing and progress output (`time.time`, `print`, `sys.stdout.flush`, lines 67-71, 76 and 120) are side effects without logic. The text of the "failed to copy" line is reduced to the reported path.
- `getCMD` (lines 22-28) is shell I/O through `os.popen` and is not part of this model.
- `argparse` (lines 84-104) is not modelled: the parsed options are parameters. `os.path.isdir`, `glob.glob` and `os.path.exists` are parameters too. Paths are compared as strings, without normalisation (".//a" and "./a" are different paths).
- Patterns.Search: gives `re.search` its meaning only for expressions made of literal characters and "|". Other metacharacters in a pattern (".", "*", "(", "[" and so on) are read literally, which the real regex engine would not do; the defaults have none.
- Patterns.CommandLineSkip: stated for arguments without "|". An argument with "|" still splits into more branches, and `Search` models that, but the statement in terms of comma-separated pieces then no longer holds.
- Strip.StripContents: stated for files where no copy raises anything but `RuntimeError` and no two datasets share a path. The general case, with an other exception, is given by `Copying.CopyAllMeaning` and `Copying.CopyAllStopsAtOtherError`.
- Python's string order is modelled on Unicode code points, which is what `sorted` uses on `str`.
