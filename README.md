# python-nss `setup.py`, modelled in Dafny

This project models the logic in python-nss's `setup.py` that is more than packaging
metadata:

- **the documentation tree transformer** `InstallDoc.copy_transformed_tree`. For each
  install spec (a manifest template, a chain of `re.sub` rewrites, and an optional
  destination sub-directory) it selects source files through a distutils `FileList`. It
  computes each file's destination and issues `mkpath` and `copy_file` calls.
- **the documentation manifest** `doc_manifest`, the four install specs `install_doc`
  passes to the transformer.
- **the include-directory search** `find_include_dir`. It looks for the first
  `root/name` directory that holds every header.
- **the version synchroniser** `update_version`. It rewrites the `__version__`
  assignment in `src/__init__.py` through a temporary file.
- **the command-line scan** at the start of `main`. It recognises `--debug`, `-t`,
  `--trace` and `--include-root=...` and takes them out of `argv`.

The code is imperative, and so is the model.

- `InstallDoc` is a class whose `issued` field records every `mkpath` and `copy_file`
  call in order.
- `FileList` is a class whose `files` the transformer resets and updates in place.
- `sys.argv` is an `ArgList` object that `list.remove` updates in place.

Each loop of the source is a `while` loop with invariants. It is proved against a
specification: the functions `TreeActions`, `Scan` and `TempContent`, and the predicate
`FirstQualifying`. Lemmas then state what that specification guarantees.

## Modules

| file | module | what it holds |
|---|---|---|
| `common.dfy` | `Common` | `Option` (Python's `None`), `Result` (a raised error), `Path` |
| `tree_copy.dfy` | `TreeCopy` | `copy_transformed_tree`, the call trace, the destination tree those calls build |
| `doc_manifest.dfy` | `DocManifest` | `doc_manifest` as a constant, and what its rewrites do to sample paths |
| `include_search.dfy` | `IncludeSearch` | `find_include_dir` over an abstract file system |
| `version_update.dfy` | `VersionUpdate` | the `__version__` matcher, the rewrite loop, `readlines()`, running the update twice |
| `flag_scan.dfy` | `FlagScan` | `str.split(sep)[1]`, `list.remove`, the `argv` loop |

## Collaborators and environment

Code that `setup.py` calls but that is not part of this model stays uninterpreted:
`subst_vars`, `FileList.findall`, `FileList.process_template_line`, `re.sub`,
`change_root` and `os.path.dirname`. Each is a total function in the parameter `env`,
so every `TreeCopy` result holds for all of them.

The file system `find_include_dir` consults is a parameter: the paths that are
directories (`os.path.isdir`), the paths that exist (`os.path.exists`), and
`os.path.join`.

`update_version` takes the lines of the version file as its input, as `readlines()`
gives them. It returns the temporary file's content, `need_to_update`, and the version
file's content afterwards. The `print` calls are left out.

## Where the code and its description differ

The code is followed in each case.

- The docstring of `copy_transformed_tree` says each file is copied from
  `src_root+src_path`. The code copies from `src_path` itself (setup.py:323), so
  `src_root` only chooses where `findall` scans.
- The docstring of `find_include_dir` (setup.py:99-106) says a `ValueError` is raised
  when no directory holds all the headers. The code can also fail with an unbound `found`
  when the first candidate is not a directory (setup.py:117-124), and the model keeps
  that path.

## Model

| member | source | states |
|---|---|---|
| `TreeCopy.InstallDoc.CopyTransformedTree` | setup.py:290-323 | appends to the trace exactly `TreeActions`: `src_root` and `dst_root` are substituted only when not `None`, the tree is scanned once, and the specs follow in order |
| `TreeCopy.InstallDoc.InstallSpecs` | setup.py:301-323 | the loop over install specs: every spec is served by the one scan, and the trace gains each spec's calls in spec order |
| `TreeCopy.InstallDoc.InstallOneSpec` | setup.py:302-323 | one spec: `dst_dir` substituted when not `None`, the file list emptied, the substituted template lines fed in order, then the copies of exactly what that template selected |
| `TreeCopy.InstallDoc.CopySelected` | setup.py:310-323 | the trace gains, for each selected file in list order, `mkpath(dirname(dst))` and then `copy_file(src, dst)` with `dst` its computed destination |
| `TreeCopy.InstallDoc.CopyOne` | setup.py:311-323 | one selected file adds exactly two calls, the `mkpath` of its destination's directory and then the copy |
| `TreeCopy.InstallDoc.MkPath` | setup.py:322 | `self.mkpath(dir)` adds one `MakePath` call to the trace |
| `TreeCopy.InstallDoc.CopyFile` | setup.py:323 | `self.copy_file(src, dst)` adds one `Copy` call to the trace |
| `TreeCopy.FileList.FindAll` | setup.py:295-299 | `findall` records the scan of the (optional) source root and leaves the running selection alone |
| `TreeCopy.FileList.ProcessTemplateLine` | setup.py:307-308 | one directive replaces the running selection by `process_template_line`'s result and leaves the scan alone |
| `TreeCopy.FullDestination` | setup.py:311-320 | the destination is the rewrite chain (skipped when `dst_xforms` is `None` or empty), then `change_root(dst_dir, ·)`, then `change_root(dst_root, ·)`, each re-rooting skipped when its argument is `None` |
| `TreeCopy.RewritePath` | setup.py:313-314 | the rewrite loop ends with the left-to-right fold of `re.sub` over the chain |
| `TreeCopy.ApplyXformsCompose` | setup.py:313-314 | applying the chain `xs + ys` is applying `ys` to the result of `xs`: each rewrite sees the previous output |
| `TreeCopy.ApplyXformsSingle` | setup.py:314 | a one-rewrite chain is a single `re.sub` call |
| `TreeCopy.SpecsActionsConcat` | setup.py:301-305 | the calls for specs `a + b` are those for `a` followed by those for `b`, because each spec starts from an empty selection |
| `TreeCopy.SpecsActionsStep` | setup.py:301 | the specs from position `i` on issue spec `i`'s calls, then the rest |
| `TreeCopy.CopyActionsStep` | setup.py:310-323 | the files from position `j` on issue file `j`'s two calls, then the rest |
| `TreeCopy.CopyActionsAt` | setup.py:310-323 | the trace for a file list has two calls per file, and call `2k` is `mkpath(dirname(dst_k))` and call `2k+1` is `copy_file(files[k], dst_k)` |
| `TreeCopy.CopiesComeFromTemplate` | setup.py:305-323 | every copy a spec issues has as source a file its own template selected, unjoined with `src_root`, and as destination that file's computed destination |
| `TreeCopy.CopiesComeFromFiles` | setup.py:310-323 | every copy in a file list's trace takes a listed file to its computed destination |
| `TreeCopy.SubstitutionScope` | setup.py:290-308 | two substitution dicts that agree on `src_root`, `dst_root`, every `dst_dir` and every template line give the same calls, so patterns, replacements and selected paths are never substituted |
| `TreeCopy.SpecsSubstitutionScope` | setup.py:301-308 | the same, spec by spec, for a fixed scan and destination root |
| `TreeCopy.SelectSubstitutionScope` | setup.py:307-308 | template lines that substitute alike select the same files |
| `TreeCopy.PerformEffect` | setup.py:322-323 | performing the calls adds exactly the non-empty directory names given to `mkpath` and overwrites exactly the files copied, and nothing else in the tree changes |
| `TreeCopy.PerformConcat` | setup.py:301-323 | performing `a + b` is performing `a`, then `b` |
| `TreeCopy.InstallIsIdempotent` | setup.py:322-323 | performing the same calls twice leaves the tree that performing them once leaves |
| `TreeCopy.LastCopyWins` | setup.py:323 | in the trace's record of writes, a destination maps to the source of the last copy issued to it |
| `TreeCopy.WritesMissing` | setup.py:323 | a destination no call copies to is not in the trace's record of writes |
| `TreeCopy.LaterSpecWins` | setup.py:301-323 | where specs `a` and then `b` write the same destination, the finished tree holds `b`'s copy |
| `DocManifest.ManifestRewritesAreAnchoredPrefixes` | setup.py:21-60 | the manifest has four specs, every rewrite pattern starts with `^`, no replacement holds a backslash, and the test spec has no rewrite and no sub-directory |
| `DocManifest.ManifestChains` | setup.py:21-60 | the rewrite chain and destination sub-directory of each of the four specs |
| `DocManifest.DocsMoveToTop` | setup.py:24-29 | `docs/ChangeLog` is installed as `ChangeLog` and `README.md` keeps its name |
| `DocManifest.HtmlMovesToApi` | setup.py:56-57 | built HTML under `build/sphinx/` is installed under `api/` |
| `DocManifest.ExamplesMoveUnderExamples` | setup.py:51-53 | example programs lose `lib/` and are placed under the substituted `examples` directory, then under the destination root |
| `DocManifest.TestsKeepTheirPaths` | setup.py:33-48 | test files keep their paths and are only placed under the destination root |
| `IncludeSearch.SearchRoots` | setup.py:108-109 | the searched roots are never empty: the caller's when given and non-empty, `/usr/include` and `/usr/local/include` otherwise |
| `IncludeSearch.FindIncludeDir` | setup.py:98-129 | empty `dir_names` fails first and empty `include_files` next. Otherwise an unbound `found` is read exactly when the first candidate is not a directory; failing that, the result is the first qualifying `join(root, name)` in root-major order, or not-located exactly when no candidate qualifies |
| `IncludeSearch.HoldsAllFiles` | setup.py:118-123 | on a non-empty header list the inner loop ends with `found` true exactly when every header exists under the directory |
| `IncludeSearch.FirstQualifyingIsUnique` | setup.py:114-125 | at most one path is the first qualifying candidate, so the search's answer is determined |
| `IncludeSearch.FirstCandidateQualifying` | setup.py:114-125 | a qualifying first candidate is the answer whatever follows it |
| `VersionUpdate.MatchVersion` | setup.py:72-81 | `version_re.search(line).group(1)`: a captured version holds no quote, and the line holds the pattern's fourteen fixed characters besides it |
| `VersionUpdate.MatchName` | setup.py:72 | `__version__` and the rest of the pattern: a captured version is quote-free, and the text holds the fourteen fixed characters besides it |
| `VersionUpdate.MatchEquals` | setup.py:72 | `\s*=` and the rest: a captured version is quote-free, with at least three more characters around it |
| `VersionUpdate.MatchQuoted` | setup.py:72 | `\s*['"]` and the rest: a captured version is quote-free, with both quotes around it |
| `VersionUpdate.MatchValue` | setup.py:72 | `([^'"]*)['"]`: the group is the quote-free start of the text and a quote follows it, and there is no match exactly when no quote occurs |
| `VersionUpdate.MatchVersionAccepts` | setup.py:72 | every line made of space, `__version__`, space, `=`, space, a quote, a quote-free version, a quote and anything after is matched, with that version as `group(1)` |
| `VersionUpdate.MatchVersionOnlyAccepts` | setup.py:72 | every matched line is such a line, and `group(1)` is its version |
| `VersionUpdate.UpdateVersion` | setup.py:63-95 | `need_to_update` holds exactly when no line matches or some matched version differs. The temporary content is the line outputs followed by the appended assignment when none matched. The file is replaced by it exactly when an update is needed and is left as it was otherwise |
| `VersionUpdate.UpdatePackageVersion` | setup.py:63-95 | `update_version()` as the program runs it, with the module's `version` (setup.py:18) and the text of setup.py:84: `need_to_update`, the temporary content, and the file left as `FileAfter` gives it |
| `VersionUpdate.RewriteLine` | setup.py:78-86 | one line: whether it matches, whether its version is outdated, and what is written for it |
| `VersionUpdate.PrefixStep` | setup.py:77-86 | one more line appends its output to the temporary content, and sets `version_found` and `need_to_update` exactly when it matches or is outdated |
| `VersionUpdate.NoVersionLineCopiesAll` | setup.py:85-89 | with no assignment in the file, every line is copied verbatim and in order, and the assignment is appended after them |
| `VersionUpdate.CurrentVersionNeedsNoUpdate` | setup.py:79-95 | a file whose assignments all name the current version is left alone, however many there are |
| `VersionUpdate.FirstLineLength` | setup.py:77 | the first line runs up to and including the first line feed, or to the end of the text when there is none |
| `VersionUpdate.SplitLines` | setup.py:77 | `readlines()`: the pieces are non-empty and hold a line feed only at their end. Every piece but the last ends in one, and together they are the whole text |
| `VersionUpdate.SplitLinesNoFeed` | setup.py:77 | a text without line feeds is read back as one line, or as none when it is empty |
| `VersionUpdate.SplitLinesPiece` | setup.py:77 | a complete line before a text is read back first, and an empty text before it adds nothing |
| `VersionUpdate.SplitJoined` | setup.py:77 | reading back complete lines and a final piece without a line feed gives the non-empty lines, then that piece |
| `VersionUpdate.SplitJoinedLines` | setup.py:77 | reading back a file of complete lines gives those lines |
| `VersionUpdate.SplitLinesAfterLine` | setup.py:77 | `readlines()` of a complete line followed by more text gives that line first |
| `VersionUpdate.PackageVersionIsPlain` | setup.py:18 | the program's version `2.0.0.dev2` has no quote and no line feed, so the results about a second run apply to it |
| `VersionUpdate.CorrectedLineMatches` | setup.py:84 | the corrected assignment line is matched, with the version it was written with |
| `VersionUpdate.AppendedLineMatches` | setup.py:89 | the appended assignment is matched, with its version |
| `VersionUpdate.SettledNeedsNoUpdate` | setup.py:79-95 | lines that hold an up-to-date assignment, and otherwise only up-to-date assignments or no assignment, need no update |
| `VersionUpdate.CorrectedReadBack` | setup.py:77-89 | with the corrected line, reading the temporary file back gives the non-empty outputs and then the appended assignment if there was one |
| `VersionUpdate.ReadBackHasCurrent` | setup.py:82-89 | with the corrected line, after an update the file read back holds an up-to-date assignment |
| `VersionUpdate.CorrectedUpdateIsStable` | setup.py:63-95 | with the intended line, a second run on the updated file needs no update |
| `VersionUpdate.GluedLineUnmatched` | setup.py:84 | the as-written text followed by a quote-free line is not recognised as an assignment |
| `VersionUpdate.AsWrittenUpdateBreaksTheFile` | setup.py:84 | as written, a two-line file whose first line is an outdated assignment and whose second is a quote-free non-assignment line becomes one glued line. Reading the file back gives that glued line, and a second run needs an update again |
| `VersionUpdate.AsWrittenExample` | setup.py:84 | the lines `__version__ = '1.0'` and `import os`, brought to 2.0, become `__version__ = '2.0import os`, and that file needs an update again |
| `VersionUpdate.AsWrittenLastLineAlternates` | setup.py:77-95 | as written, a file whose only line is an outdated assignment never settles. The first run leaves `__version__ = '<version>`, which the next run does not recognise, so it appends an assignment. The glued line then matches with the outdated version `<version>__version__ = `, and the run after that restores what the first run left |
| `FlagScan.FindSub` | setup.py:345 | the position found is an occurrence of the separator with none before it, and none means no occurrence at all |
| `FlagScan.SplitField` | setup.py:345 | `split(sep)[1]` is present exactly when the separator occurs. The field then starts right after the first occurrence, holds no occurrence itself, and ends at the next occurrence or at the end |
| `FlagScan.SplitFieldMissing` | setup.py:345 | `split(sep)[1]` is missing, so `IndexError` is raised, exactly when the separator does not occur |
| `FlagScan.IncludeRootValue` | setup.py:344-345 | `--include-root=<dir>` gives `<dir>` when `<dir>` does not itself contain the separator |
| `FlagScan.ScanFlags` | setup.py:335-346 | the loop ends with the options `Scan` gives. On success `argv` keeps exactly the unrecognised arguments, in order. On failure it stops at an include-root argument without separator, with the arguments before it handled and removed, and it and the rest still in `argv` |
| `FlagScan.HandleArg` | setup.py:336-346 | one argument: its one matching test adds to the options and removes the argument from `argv`, and a missing separator raises before anything changes |
| `FlagScan.ArgList.Remove` | setup.py:339-346 | `list.remove` takes out the first occurrence and reports whether there was one |
| `FlagScan.RemoveFirst` | setup.py:339-346 | `list.remove(x)` shortens the list by one exactly when it holds `x`. The multiset fact (one copy of `x` fewer, every other element kept) is `FlagScan.RemoveFirstCounts`, and the exact result (the first occurrence spliced out) is `FlagScan.RemoveFirstAt` |
| `FlagScan.RemoveFirstCounts` | setup.py:339-346 | removing `x` from a list holding it takes out one copy of `x` and keeps every other element |
| `FlagScan.RemoveFirstAt` | setup.py:339-346 | removing `x` whose first occurrence is at `i` splices out position `i` |
| `FlagScan.RemoveFirstAbsent` | setup.py:339 | removing an absent element changes nothing |
| `FlagScan.RemoveScanned` | setup.py:335-346 | taking a recognised argument out of what the scan has left gives what is left after scanning it too |
| `FlagScan.KeepScanned` | setup.py:335-346 | an unrecognised argument stays in `argv`, in its place |
| `FlagScan.ScanCharacterised` | setup.py:335-346 | the scan succeeds exactly when every include-root argument holds the separator. It then collects `-O0 -g` for each `--debug`, `-DDEBUG` for each `-t` or `--trace`, and each include root, in argument order |
| `FlagScan.ScanFromCharacterised` | setup.py:335-346 | the same from any starting options: the collected arguments and roots are appended to those |
| `FlagScan.StepAppends` | setup.py:336-346 | one argument fails exactly when it is an include-root argument without separator, and otherwise appends its compiler arguments and root |
| `FlagScan.ScanFromConcat` | setup.py:335 | scanning `a + b` is scanning `a`, then `b` from where `a` left off |
| `FlagScan.ScanStep` | setup.py:335 | the scan of the arguments from `k` on is the step for argument `k`, then the rest |
| `FlagScan.FlagsExclusive` | setup.py:336-344 | at most one of the three tests holds for any argument |
| `FlagScan.SpacedIncludeRootFails` | setup.py:344-345 | `--include-root` given with its directory as a separate argument has no separator, and the scan fails on it |
| `FlagScan.NoIncludeRootsUseDefaults` | setup.py:333-353 | with no include-root argument the scan succeeds with an empty root list, and the search falls back to its default roots |

## Left out

- `InstallDoc.run` (setup.py:216-225) runs the `build_doc` command unless `skip_build` is set (setup.py:217-218). It then computes the destination root and calls the transformer with `doc_manifest`. It is command plumbing, and the transformer and manifest it passes are both modelled.
- `copy_transformed_tree` rejects no destination that leaves the destination root, and raises no error of its own for unresolved variables or malformed directives. The model adds none of these checks.
- `BuildPy.run` and `SDist.run` (setup.py:132-145) call `update_version`, which is modelled, and then hand over to distutils. The hand-over is left out.
- The `BuildDoc` command (setup.py:148-184) runs the build and Sphinx with the build directory put on `sys.path` for the duration. It is command plumbing with no logic of its own.
- Reading `README.md` and assembling the extensions and the `setup()` call in `main` (setup.py:328-331, setup.py:348-481) is packaging metadata handed to setuptools.
- `update_version`'s file I/O (`open`, `os.rename`, `os.unlink`) is left out. The model takes the lines and gives back the contents, and the `print` calls are dropped.
- The semantics of the distutils `FileList` directives, `subst_vars`, `change_root` and `re.sub` are left out. Their code is outside this model, so they stay uninterpreted functions. `DocManifest.AnchoredSub` is an assumed meaning of `re.sub`, for the anchored literal patterns of the manifest only.
- `mkpath` and `copy_file` are recorded as calls in the trace. Their effect on the destination tree is the model's `Step`: `mkpath` of a non-empty name adds that directory and `copy_file` overwrites its destination.
- `TreeCopy.PerformEffect`: `copy_file` is taken as an unconditional overwrite. Distutils' `Command.copy_file` passes `update = not self.force`, and `InstallDoc` never sets `force` (setup.py:203-214), so a copy onto a destination that is not older than its source is skipped. Copying into an existing directory and dry-run are not modelled either.
- `TreeCopy.LaterSpecWins`: a later spec's copy wins only under that unconditional overwrite. With the up-to-date skip, an earlier copy is kept when the later source is not newer.
- `TreeCopy.InstallIsIdempotent` rests on the same unconditional overwrite.
- `mkpath` creating missing ancestor directories is not traced. The trace records the one `mkpath` call and the tree model records the directory it names.
- `VersionUpdate.SplitLines` is `readlines()` on text without carriage returns. Text mode also ends a line at a lone `'\r'` and reads `'\r\n'` as `'\n'`; that translation belongs to `open`, which is left out. `VersionUpdate.CorrectedUpdateIsStable` therefore says nothing about a version or file holding `'\r'`.
- `VersionUpdate.MatchVersion` reads `\s` as ASCII whitespace (space, tab, line feed, vertical tab, form feed, carriage return), because Unicode whitespace classes are not modelled.
- `VersionUpdate.CorrectedUpdateIsStable` requires every input line to end in a line feed, and the version to hold no quote or line feed. When no line is an assignment, the assignment appended at setup.py:89 is glued onto a last line that lacks a line ending. For example, `x = 1` becomes `x = 1__version__ = '<version>'`, which the next run does not recognise, so that run updates again. When some line is an assignment, nothing is appended and a last line without a line ending does no harm. The lemma does not cover that case.
- `DocManifest`'s worked examples each assume that `re.sub` behaves as `AnchoredSub` on the one manifest rewrite they apply. Nothing is assumed about other patterns.
- `FlagScan.ArgList.Remove` returns `false` where Python raises `ValueError`. The scan never takes that path, because each recognised argument is still in `argv` when it is removed.
- The `print` calls in the scan are left out.
- `tests/run_tests.py` (a test harness) and `conanfile.py` (a build recipe that shells out) are not part of this model.

## Findings

| source | as written | input that shows it | evidently intended | confidence | as-written member | corrected member |
|---|---|---|---|---|---|---|
| setup.py:84 | an outdated assignment is rewritten as `__version__ = '<version>`, with no closing quote and no line ending | the lines `__version__ = '1.0'` and `import os`, with version `2.0`: the file becomes the single line `__version__ = '2.0import os`, an unterminated string literal that the matcher no longer recognises, so the next run appends another assignment. When the file's only line is an outdated assignment, the file alternates between two broken states forever (`VersionUpdate.AsWrittenLastLineAlternates`) | `__version__ = '<version>'` followed by a line feed, which a second run recognises as up to date | high (not executed) | `VersionUpdate.AsWrittenUpdateBreaksTheFile` | `VersionUpdate.CorrectedUpdateIsStable` |
