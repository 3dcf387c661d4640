# reqwire, modelled in Dafny

reqwire manages pip requirement *source files* (`src/<tag>.in`) for a Python
project. `reqwire add` resolves package specifiers and appends them to the
tagged source files. `reqwire remove` drops packages by name and rewrites the
files. `reqwire init` and `reqwire build` scaffold and compile the tags.

This project models the core of that tool:

- the `requirements` helper module:
  - the hashable install requirement;
  - the PyPI simple-index HTML scanner;
  - `RequirementFile` (loading, nested `-r`/`-c` includes, index URL views);
  - `build_ireq_set`, `resolve_specifier`, `update_ireq_name`;
  - the intersect step of `resolve_ireqs`;
  - `format_requirement` and `write_requirements`;
- the command bodies of `add` and `remove`, and the tag defaults of `init` and
  `build`.

Everything the core obtains from pip, pip-tools, the file system, the clock
and the network is a field of one `Externals.Env` record of functions. Every
result therefore holds for every behaviour of those collaborators. The disk is
`Externals.Disk`, a map from path to text plus a set of directories.

Modules:

| file | module | models |
|---|---|---|
| wrappers.dfy | `Wrappers` | `Option`, `Result` |
| strings.dfy | `Strings` | Python string comparison, `lower`, `strip`, file iteration by lines |
| sorting.dfy | `Sorting` | `sorted(..., key=str)` as insertion sort, with its permutation, order and uniqueness lemmas |
| externals.dfy | `Externals` | pip's `InstallRequirement` fields, errors, the disk and the `Env` record |
| identity.dfy | `Identity` | `HashableInstallRequirement` and the `OrderedSet` of requirements |
| index_scanner.dfy | `IndexScanner` | `PyPiHtmlParser` (a class), its state enum, `get_canonical_name` |
| requirement_files.dfy | `RequirementFiles` | `RequirementFile` (a class) and its specification functions |
| resolution.dfy | `Resolution` | `resolve_specifier`, `update_ireq_name`, `build_ireq_set`, the intersect step of `resolve_ireqs` |
| writer.dfy | `Writer` | `format_requirement`, `write_requirements` |
| cli.dfy | `Cli` | `main_add`, `main_remove`, and the tag defaults of `main_init` and `main_build` |

### How the source becomes Dafny

**State-changing code is imperative.** `PyPiHtmlParser` and `RequirementFile`
are classes whose methods update their fields. `get_canonical_name`,
`build_ireq_set`, `write_requirements`, `main_add` and `main_remove` are
methods with loops. Each method is proved equal to a specification function
(`CanonicalName`, `BuildIreqs`, `Written`, `AddOutcome`, `RemoveOutcome`).
The properties are then proved about those functions. A loop nested in a
longer function is a method of its own, proved against its own function:
`Cli.CollectIndexUrls` and `Cli.ExtendAll` (the two tag loops of `main_add`),
`Cli.RemoveAll` and `Cli.DropName` (the loops of `main_remove`),
`RequirementFile.IncludeLine` (one line of `parse_nested_files`) and
`Writer.WriteLines` (the line loop of `write_requirements`).

**Recursion depth is a budget.** Nested includes recurse through
`RequirementFile(...)` → `reload` → `parse` → `parse_nested_files`. A
`budget: nat` stands for the interpreter's remaining recursion headroom. When
it runs out, loading fails with `RecursionError`, which is what CPython does on
an include cycle.

**Set membership is string rendering.** The requirement `OrderedSet` is a
sequence. Only `Hashable` requirements are deduplicated, and two of them are
the same element exactly when they render to the same string
(`Identity.SetLookupIsRenderingEquality`). pip-tools' `find_best_match`
returns plain pip requirements. These are `Plain` and are never merged, as in
the source.

**`add` and `remove` end in an `Outcome`.**

- `Completed(disk)`: the command ran to the end.
- `Aborted(disk)`: a `ctx.abort()`.
- `Raised(error, disk)`: an exception escaped.

Each carries the disk as it stands at that point.

## Model

| member | source | states |
|---|---|---|
| `Identity.Eq` | src/reqwire/helpers/requirements.py:101-105 | `__eq__`: equality of renderings; `EqualHashEqually` and `SetLookupIsRenderingEquality` state what it promises |
| `Identity.Hash` | src/reqwire/helpers/requirements.py:107-109 | `__hash__`: the hash of the rendering; `EqualHashEqually` states that equal requirements hash alike |
| `Identity.EqualHashEqually` | src/reqwire/helpers/requirements.py:101-109 | two requirements that are `==` have equal hashes, and `==` is symmetric |
| `Identity.SetLookupIsRenderingEquality` | src/reqwire/helpers/requirements.py:101-109 | a set lookup (equal hash and `==`) succeeds exactly when both render to the same string |
| `Identity.FromSameLineEqual` | tests/unit/helpers/test_requirements.py:34-42 | two requirements parsed from the same line are equal and hash alike |
| `Identity.EditableSpacingIrrelevant` | src/reqwire/helpers/requirements.py:89-99 | `-e path` and `-epath` give the same requirement |
| `Identity.Hashables` | src/reqwire/helpers/requirements.py:67-87 | wrapping pip requirements keeps their number and order, and makes each hashable |
| `Identity.Add` | src/reqwire/helpers/requirements.py:250-253 | `OrderedSet.add`: append unless an equal element is present; `OrderedFromIsSet` states the resulting set |
| `Identity.OrderedFrom` | src/reqwire/helpers/requirements.py:250-253 | `OrderedSet(iterable)`; `OrderedFromIsSet` and `OrderedFromStrictlySorted` state its members and order |
| `Identity.OrderedFromIsSet` | src/reqwire/helpers/requirements.py:250-253 | an `OrderedSet` built from a sequence has no two elements with the same rendering, holds only input elements, holds every hashable input up to rendering, and keeps every plain input |
| `Identity.OrderedFromStrictlySorted` | src/reqwire/helpers/requirements.py:250-253 | an `OrderedSet` built from requirements sorted by rendering is strictly sorted |
| `Identity.Subtract` | src/reqwire/helpers/requirements.py:255-259 | `OrderedSet -=`; `SubtractMembers` and `SubtractKeepsStrictOrder` state what remains and in which order |
| `Identity.SubtractMembers` | src/reqwire/helpers/requirements.py:255-259 | `requirements -= nested` keeps exactly the elements whose rendering is not among the nested ones |
| `Identity.SubtractKeepsStrictOrder` | src/reqwire/helpers/requirements.py:255-259 | subtraction keeps the strict sort order |
| `Identity.Dedup` | src/reqwire/helpers/requirements.py:204 | `OrderedSet` of strings; `DedupIsSet`, `DedupIdempotent` and `DedupOfDistinct` state its members and fixed points |
| `Identity.DedupIsSet` | src/reqwire/helpers/requirements.py:204 | `OrderedSet(index_urls)` has the same members as the input and no repeats |
| `Identity.DedupIdempotent` | src/reqwire/helpers/requirements.py:254 | deduplicating twice is deduplicating once |
| `Identity.DedupOfDistinct` | src/reqwire/helpers/requirements.py:204 | a list without repeats is kept as it is |
| `IndexScanner.Step` | src/reqwire/helpers/requirements.py:121-134 | one handler call on one event; `StepConsistent`, `FeedAnchorLine` and `FeedOnlyAppendsData` state what it keeps and collects |
| `IndexScanner.StepConsistent` | src/reqwire/helpers/requirements.py:121-134 | one handler call keeps the invariant that, in the found state, the last collected name lower-cases to the search |
| `IndexScanner.FeedConsistent` | src/reqwire/helpers/requirements.py:121-134 | a whole event stream keeps that invariant |
| `IndexScanner.FeedOnlyAppendsData` | src/reqwire/helpers/requirements.py:121-134 | feeding only appends to `collected_packages`, and only text that occurred as data; without start tags, a parser that is not collecting is left unchanged |
| `IndexScanner.PyPiHtmlParser.constructor` | src/reqwire/helpers/requirements.py:115-119 | a new parser waits, has collected nothing and searches for the lower-cased name |
| `IndexScanner.PyPiHtmlParser.HandleStartTag` | src/reqwire/helpers/requirements.py:121-123 | the new state is one scanner step on the start tag |
| `IndexScanner.PyPiHtmlParser.HandleEndTag` | src/reqwire/helpers/requirements.py:125-128 | the new state is one scanner step on the end tag |
| `IndexScanner.PyPiHtmlParser.HandleData` | src/reqwire/helpers/requirements.py:130-134 | the new state is one scanner step on the text |
| `IndexScanner.PyPiHtmlParser.Feed` | src/reqwire/helpers/requirements.py:112-145 | feeding a stream of events leaves the parser in the state the scanner function gives |
| `IndexScanner.GetCanonicalName` | src/reqwire/helpers/requirements.py:399-425 | the method's loop over index pages and lines computes `CanonicalName` |
| `IndexScanner.CanonicalName` | src/reqwire/helpers/requirements.py:399-425 | `get_canonical_name`; `FoundNameMatchesSearch` and `FirstFoundIsFirstMatch` state which name it returns and when it fails |
| `IndexScanner.FoundNameMatchesSearch` | src/reqwire/helpers/requirements.py:399-425 | a found canonical name lower-cases to the lower-cased package name; a missing name is `DistributionNotFound` |
| `IndexScanner.FirstFoundMatches` | src/reqwire/helpers/requirements.py:413-425 | the same, for any list of index URLs |
| `IndexScanner.ScanLinesMatches` | src/reqwire/helpers/requirements.py:418-422 | a name found while scanning lines matches the search case-insensitively |
| `IndexScanner.FirstFoundIsFirstMatch` | src/reqwire/helpers/requirements.py:413-425 | a name is found if and only if some index page has a match; the first such page wins; otherwise the error is `DistributionNotFound` |
| `IndexScanner.FeedAnchorLine` | src/reqwire/helpers/requirements.py:121-134 | an `<a>name</a>` line appends `name`, and ends in the found state exactly when `name` matches the search case-insensitively, otherwise waiting |
| `IndexScanner.ScanAnchorLine` | src/reqwire/helpers/requirements.py:418-422 | a line holding one anchor ends the scan with its text when that text matches the search case-insensitively; otherwise scanning goes on with the text collected |
| `IndexScanner.TwoAnchorPage` | src/reqwire/helpers/requirements.py:415-422 | on a page of two anchors on separate lines the first anchor whose text matches the search wins; no match gives no name |
| `IndexScanner.FeedEventsAppend` | src/reqwire/helpers/requirements.py:121-134 | feeding two event streams in turn is feeding their concatenation |
| `IndexScanner.FeedTwoAnchorLine` | src/reqwire/helpers/requirements.py:121-134 | a line of two anchors appends both texts, and its end state reflects only the second: found exactly when the second matches |
| `IndexScanner.SameLineSecondAnchorDecides` | src/reqwire/helpers/requirements.py:415-422 | with two anchors on one line, the scan returns the second text when it matches and nothing otherwise, since the state is checked once per line |
| `IndexScanner.SameLineLastMatchWins` | src/reqwire/helpers/requirements.py:415-422 | `<a>Flask</a><a>flask</a>` on one line, searched for `flask`, gives `flask`: the last match wins |
| `IndexScanner.SameLineMatchLost` | src/reqwire/helpers/requirements.py:415-422 | `<a>flask</a><a>other</a>` on one line, searched for `flask`, gives no name: a match followed on its line by another anchor is lost |
| `IndexScanner.Jinja2OnDefaultIndex` | tests/unit/helpers/test_requirements.py:45-53 | with no index URLs the PyPI simple index is read: `jinja2` resolves to `Jinja2`, and an absent name is `DistributionNotFound` |
| `RequirementFiles.Classify` | src/reqwire/helpers/requirements.py:276-287 | which include, if any, one line names; `CommentLineIgnored` and `IncludesFromLines` state it |
| `RequirementFiles.IncludesAsWritten` | src/reqwire/helpers/requirements.py:272-287 | the includes with the option lists shared across lines; `AccumulatedOptionsRepeatInclude` exhibits the repeats |
| `RequirementFiles.IncludesAppend` | src/reqwire/helpers/requirements.py:262-288 | the includes of concatenated lines are the includes of each part, in order |
| `RequirementFiles.CommentLineIgnored` | src/reqwire/helpers/requirements.py:276-278 | a line starting with `#` contributes no include |
| `RequirementFiles.IncludesFromLines` | src/reqwire/helpers/requirements.py:276-287 | every include comes from one line's own `-r`/`-c` option, and every such option gives an include |
| `RequirementFiles.AccumulatedOptionsRepeatInclude` | src/reqwire/helpers/requirements.py:272-287 | as written, `-r base.in`, `-c constraints.txt`, `flask` yields `base.in` three times and loses the constraints file; the per-line reading yields each once |
| `RequirementFiles.LoadFile` | src/reqwire/helpers/requirements.py:178-209 | what `RequirementFile(filename)` loads; `MissingFileIsEmpty`, `LoadedPath` and `RequirementFile.Open` state it |
| `RequirementFiles.ParseFile` | src/reqwire/helpers/requirements.py:227-260 | what `_parse` returns; `ParsedRequirementsSpec`, `NoNestedFilesKeepsAll` and `RequirementFile.Parse` state it |
| `RequirementFiles.NestedOf` | src/reqwire/helpers/requirements.py:262-288 | what `_parse_nested_files` returns; `LoadIncludesPaths` and `RequirementFile.ParseNestedFiles` state it |
| `RequirementFiles.MissingFileIsEmpty` | src/reqwire/helpers/requirements.py:203-209 | a file that does not exist loads as empty, with no requirements, index URLs or nested files |
| `RequirementFiles.LoadedPath` | src/reqwire/helpers/requirements.py:178-209 | a loaded file records its own path |
| `RequirementFiles.LoadIncludesPaths` | src/reqwire/helpers/requirements.py:276-287 | nested `-r` and `-c` files are opened at the included paths, in line order, each line read with its own options (the intended reading) |
| `RequirementFiles.ParsedRequirementsSpec` | src/reqwire/helpers/requirements.py:250-259 | parsed requirements are strictly sorted by rendering; each comes from pip's parse and is not in a nested `-r` file; every pip requirement not in a nested file is kept |
| `RequirementFiles.SortedHashables` | src/reqwire/helpers/requirements.py:250-253 | sorting the wrapped pip requirements by rendering gives an ascending sequence of hashables drawn from pip's list, holding each of them |
| `RequirementFiles.PipRequirementSet` | src/reqwire/helpers/requirements.py:250-253 | the `OrderedSet` of the sorted pip requirements is strictly ascending, holds only pip's requirements and holds each of them up to rendering |
| `RequirementFiles.NoNestedFilesKeepsAll` | src/reqwire/helpers/requirements.py:250-259 | without nested files, parsing is the sorted, deduplicated pip result |
| `RequirementFiles.SubtractNothing` | src/reqwire/helpers/requirements.py:255-259 | subtracting nothing leaves the requirements unchanged |
| `RequirementFiles.IndexUrlViewsPartition` | src/reqwire/helpers/requirements.py:211-225 | `index_url` is `None` exactly when there are no URLs; the first URL followed by `extra_index_urls` is the whole list; one URL or none means no extra URLs |
| `RequirementFiles.RequirementFile.constructor` | src/reqwire/helpers/requirements.py:178-202 | each attribute is the argument, or empty when the argument is `None`; index URLs are deduplicated |
| `RequirementFiles.RequirementFile.IndexUrl` | src/reqwire/helpers/requirements.py:211-217 | `index_url` is `None` exactly when the file has no index URLs, and otherwise the first of them |
| `RequirementFiles.RequirementFile.ExtraIndexUrls` | src/reqwire/helpers/requirements.py:219-225 | `index_url` followed by `extra_index_urls` is the whole list of index URLs; with one URL or none there are no extras |
| `RequirementFiles.RequirementFile.Open` | src/reqwire/helpers/requirements.py:178-209 | constructing a file object fails exactly when loading fails, with the same error; otherwise the fresh object and its fresh nested objects mirror `LoadFile` |
| `RequirementFiles.RequirementFile.Reload` | src/reqwire/helpers/requirements.py:290-297 | on success the object mirrors `ParseFile` and `nested_files` holds fresh objects showing `NestedOf`; on failure its requirements, URLs, nested files and `nested_files` are unchanged |
| `RequirementFiles.RequirementFile.Adopt` | src/reqwire/helpers/requirements.py:293-297 | after the four assignments of `reload` the object and its nested file objects show the parsed value, and the objects recorded in `nested_files` are untouched |
| `RequirementFiles.RequirementFile.Parse` | src/reqwire/helpers/requirements.py:227-260 | fails exactly when `ParseFile` fails, leaving `nested_files` as it was; otherwise returns its requirements, URLs and nested file objects, and `nested_files` holds the fresh objects of the first `parse_nested_files` call, which show `NestedOf` |
| `RequirementFiles.RequirementFile.Record` | src/reqwire/helpers/requirements.py:242 | the assignment of `nested_files` stores the nested objects, which still show their values |
| `RequirementFiles.RequirementFile.ParseAfterNested` | src/reqwire/helpers/requirements.py:243-260 | after a successful first `parse_nested_files`, the rest of `parse` succeeds and returns `ParseFile`'s requirements and URLs with fresh nested objects of a second call |
| `RequirementFiles.RequirementFile.ParseNestedFiles` | src/reqwire/helpers/requirements.py:262-288 | fails exactly when `NestedOf` fails; otherwise returns fresh file objects that show the nested `-c` and `-r` files, in order |
| `RequirementFiles.RequirementFile.IncludeLine` | src/reqwire/helpers/requirements.py:276-287 | a comment or a line naming no `-r`/`-c` file leaves the gathered files as they are; otherwise the named file is opened and added, or its error (`RecursionError` once the headroom is spent) ends the parse with the error `NestedOf` gives |
| `RequirementFiles.RequirementFile.OpenInclude` | src/reqwire/helpers/requirements.py:282-287 | opening a nested file fails exactly when loading it fails; otherwise a fresh object showing it joins the requirement files for `-r` and the constraint files for `-c` |
| `Resolution.IndexArgs` | src/reqwire/helpers/requirements.py:352-354 | each index URL becomes the pair `--extra-index-url`, URL, in order |
| `Resolution.ResolveSpecifier` | src/reqwire/helpers/requirements.py:502-510 | `resolve_specifier`; `ResolveSkipsLookup`, `ResolveConsultsLookup` and `UnresolvedVersionIsParsed` state its cases |
| `Resolution.ResolveSkipsLookup` | src/reqwire/helpers/requirements.py:502-507 | an editable, a pinned requirement, or no version resolution returns the parsed line without consulting the package finder |
| `Resolution.ResolveConsultsLookup` | src/reqwire/helpers/requirements.py:502-510 | otherwise the result is the finder's best match as a plain requirement, or `NoCandidateFound` when there is none |
| `Resolution.UnresolvedVersionIsParsed` | tests/unit/helpers/test_requirements.py:61-64 | without version resolution the result is the hashable parsed line |
| `Resolution.UpdateIreqName` | src/reqwire/helpers/requirements.py:526-531 | `update_ireq_name`; `UpdateIreqNameOnlyRenames` and `UpdateIreqNameLastWins` state it |
| `Resolution.UpdateIreqNameOnlyRenames` | src/reqwire/helpers/requirements.py:526-531 | renaming succeeds exactly when the requirement has a name, and changes nothing but the name, which reads back as pip's `safe_name` of the new one; otherwise `AttributeError` |
| `Resolution.UpdateIreqNameLastWins` | src/reqwire/helpers/requirements.py:526-531 | renaming twice is renaming once, to the second name |
| `Resolution.BuildIreqSet` | src/reqwire/helpers/requirements.py:311-373 | the loop computes `BuildIreqs`: specifiers optionally sorted, each built in turn, added to an `OrderedSet` |
| `Resolution.BuildOne` | src/reqwire/helpers/requirements.py:349-372 | one specifier of `build_ireq_set`; `BuildSpecifier`, `EditableSkipsVersionLookup` and `EditableSkipsNameLookup` state it |
| `Resolution.BuildSpecifier` | src/reqwire/helpers/requirements.py:349-372 | one loop iteration (resolve, canonical name, source dir) computes `BuildOne` |
| `Resolution.BuildEachFailureSticks` | src/reqwire/helpers/requirements.py:348-372 | once a specifier fails, the whole build fails with that error |
| `Resolution.BuildEachFromSpecifiers` | src/reqwire/helpers/requirements.py:348-372 | a successful build has one requirement per specifier, each the one built from that specifier |
| `Resolution.BuildEachFirstFailure` | src/reqwire/helpers/requirements.py:348-372 | a failed build failed at a first specifier, after all earlier ones succeeded, with its error |
| `Resolution.BuildIreqsIsSet` | src/reqwire/helpers/requirements.py:311-373 | the result has no rendering twice, holds only built requirements, and holds every built one (hashables up to rendering, plain ones as they are) |
| `Resolution.EditableSkipsVersionLookup` | src/reqwire/helpers/requirements.py:349-350 | an editable specifier's result does not depend on the package finder |
| `Resolution.EditableSkipsNameLookup` | src/reqwire/helpers/requirements.py:357-362 | an editable specifier's result does not depend on the index pages |
| `Resolution.EditablesNeedNoVersionLookup` | src/reqwire/helpers/requirements.py:348-372 | a list of editables is built without the package finder |
| `Resolution.SortedSpecifiersOrderIndependent` | src/reqwire/helpers/requirements.py:346-347 | with sorting on, any reordering of the specifiers gives the same result |
| `Resolution.RepeatedSpecifierAddedOnce` | src/reqwire/helpers/requirements.py:343-372 | the same specifier given twice (no version or name resolution) is added once |
| `Resolution.Intersect` | src/reqwire/helpers/requirements.py:479-481 | `&` of the resolved and requested sets; `IntersectMembers`, `IntersectByRendering` and `IntersectKeepsSet` state it |
| `Resolution.IntersectMembers` | src/reqwire/helpers/requirements.py:477-481 | the intersection keeps exactly the resolved requirements whose rendering was requested |
| `Resolution.ResolvedSetByRendering` | src/reqwire/helpers/requirements.py:477-482 | the resolved set has no rendering twice; a requirement is in it if and only if it was resolved and, when intersecting, was also requested |
| `Resolution.HashableSetByRendering` | src/reqwire/helpers/requirements.py:477-478 | the set of resolved requirements has no rendering twice and holds a requirement exactly when some resolved one renders like it |
| `Resolution.IntersectByRendering` | src/reqwire/helpers/requirements.py:479-481 | `&` of a set keeps a set, holding exactly what both sides hold up to rendering |
| `Resolution.IntersectKeepsSet` | src/reqwire/helpers/requirements.py:477-481 | intersecting a set yields a set |
| `Writer.FormatRequirement` | src/reqwire/helpers/requirements.py:391-396 | `format_requirement`; `FormatRequirementCases` and `RelativeEditableReparses` state it |
| `Writer.FormatRequirementCases` | src/reqwire/helpers/requirements.py:391-396 | formatting fails only for an editable without a source dir (`AttributeError`); a non-editable uses the pip-tools formatter |
| `Writer.RelativeEditableReparses` | src/reqwire/helpers/requirements.py:393-395 | an editable with a relative source dir is written as `-e <dir>` without the piptools formatter; reading the line back asks pip for the editable at that same directory string |
| `Writer.Written` | src/reqwire/helpers/requirements.py:534-560 | the disk `write_requirements` leaves; `WrittenLayout`, `WrittenReadsBack`, `WrittenOrderIndependent` and `WrittenTouchesOneFile` state it |
| `Writer.WriteRequirements` | src/reqwire/helpers/requirements.py:534-560 | the method writes `Written`: the file replaced by the header and one formatted line per sorted requirement, or an error and no change |
| `Writer.WriteLines` | src/reqwire/helpers/requirements.py:558-560 | the loop fails exactly when some requirement cannot be formatted, with the first such error; otherwise it writes each formatted line followed by a newline, in order |
| `Writer.FormattedLinesFailureSticks` | src/reqwire/helpers/requirements.py:558-560 | once a requirement cannot be formatted, writing fails with that error |
| `Writer.FormattedLinesSpec` | src/reqwire/helpers/requirements.py:558-560 | formatting succeeds if and only if each requirement formats; then line k is requirement k's text and a newline |
| `Writer.WrittenLayout` | src/reqwire/helpers/requirements.py:554-560 | the text is the header followed by the requirements' lines, in an order that is a sorted permutation of the input |
| `Writer.WrittenReadsBack` | src/reqwire/helpers/requirements.py:554-560 | reading the written file by lines gives the header lines, then one line per sorted requirement |
| `Writer.NoHeaderReadsBack` | src/reqwire/helpers/requirements.py:554-560 | without a header, the file reads back as exactly the requirement lines |
| `Writer.EmptyHeaderIsNoHeader` | src/reqwire/helpers/requirements.py:555-556 | an empty header writes nothing, like no header |
| `Writer.SetIsKeyInjective` | src/reqwire/helpers/requirements.py:558 | in a set of hashable requirements no two elements render alike |
| `Writer.WrittenOrderIndependent` | src/reqwire/helpers/requirements.py:558 | requirements with distinct renderings are written the same whatever their order |
| `Writer.RewritingIsIdempotent` | src/reqwire/helpers/requirements.py:558 | sorting before writing changes nothing |
| `Sorting.SortByPermutes` | src/reqwire/helpers/requirements.py:558 | `sorted` returns a permutation of its input |
| `Sorting.SortBySorted` | src/reqwire/helpers/requirements.py:558 | `sorted` returns its elements in ascending key order |
| `Sorting.SortBySortedIsIdentity` | src/reqwire/helpers/requirements.py:558 | sorting an ascending sequence returns it unchanged |
| `Sorting.SortedArrangementUnique` | src/reqwire/helpers/requirements.py:558 | two ascending permutations of the same elements are equal when keys tell elements apart |
| `Sorting.SortByOrderIndependent` | src/reqwire/helpers/requirements.py:558 | when keys tell elements apart, `sorted` gives the same result for every ordering of the same elements |
| `Writer.WrittenTouchesOneFile` | src/reqwire/helpers/requirements.py:554-560 | writing changes only the named file and no directory |
| `Cli.TagDefaults` | src/reqwire/cli.py:127-128 | no tags means `main` for add and remove, and `docs`, `main`, `qa`, `test` for init; build needs the directory and `--all` or a tag, and builds every source stem when no tag is given |
| `Cli.EditableSpecifiers` | src/reqwire/cli.py:119 | each editable value becomes `-e <value>`, in order |
| `Cli.AssembledSpecifiersLayout` | src/reqwire/cli.py:119 | editables come first and parse as editables of their value; the positional specifiers follow unchanged |
| `Cli.LookupIndexUrlsMembers` | src/reqwire/cli.py:132-140 | a URL is looked up if and only if some existing tagged source file lists it |
| `Cli.CollectIndexUrls` | src/reqwire/cli.py:132-140 | the first tag loop gathers exactly the set `LookupIndexUrls` describes, whose members `LookupIndexUrlsMembers` characterises |
| `Cli.AddOutcome` | src/reqwire/cli.py:102-159 | what `main_add` does to the disk; `MainAdd`, `AddAbortsEarlyUnchanged`, `AddUnsplittableRaisesUnchanged` and `AddDefaultTagIsMain` state it |
| `Cli.MainAdd` | src/reqwire/cli.py:102-159 | the command computes `AddOutcome`: directory check, optional install (whose `shlex.split` may raise `ValueError`), default tag, URL lookup, then each tag extended in turn |
| `Cli.ExtendTags` | src/reqwire/cli.py:142-156 | the second tag loop of `main_add`; `ExtendTagsStopSticks` and `ExtendTagsStopsAtFirstFailure` state it |
| `Cli.ExtendAll` | src/reqwire/cli.py:142-156 | the second tag loop extends each tag in turn and stops at the first failure: `NoCandidateFound` aborts, any other error escapes, with the disk the earlier tags left |
| `Cli.ExtendTagsStopSticks` | src/reqwire/cli.py:142-156 | once a tag aborts or raises, later tags are not touched |
| `Cli.ExtendTagsStopsAtFirstFailure` | src/reqwire/cli.py:142-156 | a stopped run failed at a first tag after the earlier ones completed; it aborted if and only if that failure was `NoCandidateFound`, and otherwise the error escaped |
| `Cli.AddDefaultTagIsMain` | src/reqwire/cli.py:127-128 | `add` without tags is `add -t main` |
| `Cli.AddAbortsEarlyUnchanged` | src/reqwire/cli.py:115-125 | a missing requirements directory or a failed install aborts before any file changes |
| `Cli.AddUnsplittableRaisesUnchanged` | src/reqwire/cli.py:121-125 | with `--install`, specifiers that `shlex.split` rejects raise `ValueError` before any file changes; without it they are never split and the tag loop runs as usual |
| `Cli.WithoutNameMembers` | src/reqwire/cli.py:284-291 | removal by name keeps exactly the requirements with another name |
| `Cli.WithoutAbsentName` | src/reqwire/cli.py:284-291 | removing an absent name changes nothing |
| `Cli.WithoutNameMember` | src/reqwire/cli.py:284-291 | a requirement survives removal by name exactly when it was present and has another name |
| `Cli.DropName` | src/reqwire/cli.py:287-291 | the inner loop, as intended, keeps exactly the requirements with another name, in order (`WithoutName`) |
| `Cli.RemoveNamesMembers` | src/reqwire/cli.py:284-293 | after removing every specifier, exactly the requirements whose name matches none of them remain |
| `Cli.RemoveNamesMember` | src/reqwire/cli.py:284-293 | a requirement survives every specifier exactly when it was present and its name matches no specifier's |
| `Cli.RemoveWhileIterating` | src/reqwire/cli.py:287-291 | the inner loop as written, removing from the set it iterates over; `RemoveWhileIteratingSkipsNeighbour` exhibits the skipped element |
| `Cli.RemoveWhileIteratingSkipsNeighbour` | src/reqwire/cli.py:287-291 | as written, removing `foo` from `foo==1.0`, `foo[bar]` leaves `foo[bar]`; removal by name leaves nothing |
| `Cli.FilenamesArePaths` | src/reqwire/cli.py:298-302 | the nested file objects' names are the nested paths |
| `Cli.RemoveFromFile` | src/reqwire/cli.py:273-302 | one tag's removal computes `RemoveFromTag`, with the removal loop as intended |
| `Cli.MainRemove` | src/reqwire/cli.py:259-302 | the command computes `RemoveOutcome`: directory check, default tag, then each existing tag file rewritten in turn |
| `Cli.RemoveTags` | src/reqwire/cli.py:273-302 | the tag loop of `main_remove`; `RemoveTagsStep` and `RemoveTagsStopSticks` state it |
| `Cli.RemoveAll` | src/reqwire/cli.py:273-302 | the tag loop rewrites each tag's file in turn and stops at the first error, with the disk the earlier tags left |
| `Cli.RemoveTagsStep` | src/reqwire/cli.py:273-302 | one more tag continues with what that tag's rewrite leaves, or raises its error on the disk as it was |
| `Cli.RemoveTagsStopSticks` | src/reqwire/cli.py:273-302 | once a tag raises, later tags are not touched |
| `Cli.RemoveDefaultTagIsMain` | src/reqwire/cli.py:270-271 | `remove` without tags is `remove -t main` |
| `Cli.RemoveSkipsMissingFile` | src/reqwire/cli.py:278-281 | a tag whose file does not exist is skipped and the disk is unchanged |
| `Cli.RemoveRewritesOnlyRequirements` | src/reqwire/cli.py:282-302 | only that file changes; it holds the kept requirements under a header built from the file's own index URLs and nested files |

## Left out

- Networking and HTML tokenising: index pages are `Env.indexPage`, already split into lines of start-tag, end-tag and data events. `build_pip_session` and `PyPiRepository.get_dependencies` are not part of this model.
- pip and pip-tools internals are `Env` functions: `InstallRequirement.from_line` and `from_editable`, pip's `safe_name` (through which `InstallRequirement.name` reads `req.name`), `parse_requirements` and the option parser of one line, `find_best_match`, `format_requirement`, and path joining. pip's own parse is total here; a parse error inside pip is not modelled.
- Include files are read by pip as well as by `parse_nested_files`. The model takes pip's result as given and does not relate the two.
- `reqwire.scaffold` (`extend_source_file`, `build_source_header`, `init_source_dir`, `init_source_file`) is not part of this model. It appears only as `Env` functions.
- `pip_install` and the `pip-compile` subprocess are external. Installing is an `Env` predicate. Building is not modelled past its tag selection, and neither is `add --build`.
- Console output is not modelled.
- `Cli.ExtendAll`: a call of `extend_source_file` that fails is taken to leave the disk as it was (`Env.extendSourceFile` returns no disk on failure). `Cli.ExtendTagsStopsAtFirstFailure` rests on this; a partial write before the failure is not modelled.
- `Cli.ExtendTagsStopsAtFirstFailure`: the disk it names after a failure is the one the earlier tags left, under the assumption stated for `Cli.ExtendAll`.
- `Cli.MainAdd`: `lookup_index_urls` is one mutable `set` object handed to every `extend_source_file` call. The model passes it by value, so a change the scaffold might make to it between tags is not captured.
- `RequirementFiles.LoadIncludesPaths`, `RequirementFiles.RequirementFile.ParseNestedFiles`, `RequirementFiles.RequirementFile.IncludeLine`, `RequirementFiles.RequirementFile.Parse`, `RequirementFiles.RequirementFile.Reload` and `RequirementFiles.RequirementFile.Open` model the intended reading of `parse_nested_files`: each line's own `-r`/`-c` options (`Includes`). The loop as written accumulates options across lines (requirements.py:272-285); that behaviour is `RequirementFiles.IncludesAsWritten`, see the first row of "## Findings".
- `RequirementFiles.NestedOf`, `RequirementFiles.ParseFile` and `RequirementFiles.LoadFile`: the same intended reading of the include loop as the line above.
- `Cli.MainRemove`, `Cli.RemoveFromFile`, `Cli.RemoveAll` and `Cli.RemoveRewritesOnlyRequirements` model the intended reading of the inner removal loop: every requirement with the name is removed (`Cli.DropName`). The loop as written removes from the set it iterates over and skips the element after each removal (cli.py:287-291); that behaviour is `Cli.RemoveWhileIterating`, see the second row of "## Findings".
- `Cli.RemoveTags`: the same intended reading of the removal loop as the line above.
- `Writer.WriteRequirements`: the atomic write is modelled only as the file being replaced whole or not at all.
- `write_requirements` accepts `index_url` and `extra_index_urls` and never uses them. The model keeps that.
- `Resolution.UpdateIreqNameOnlyRenames`: `update_ireq_name` mutates the requirement object in place. It is modelled on values, so aliasing of that object is not captured.
- `RequirementFiles.Classify`: the `ValueError` that `shlex.split` raises on an options part with an unbalanced quote or a trailing backslash (requirements.py:281) is not modelled; `Env.lineOptions` is total. The include members built on it (`Includes`, `IncludesAsWritten`, `NestedOf`, `ParseFile`, `LoadFile`, `RequirementFile.ParseNestedFiles`, `IncludeLine`, `Parse`, `Reload`, `Open`) therefore never fail for that reason.
- `RequirementFiles.RequirementFile.Reload`: `parse` also assigns `nested_files` (the result of its first `parse_nested_files` call), so a reload changes five attributes. The model keeps this: `nested_files` holds the objects of that first call, distinct from those of the second call that become `nested_cfiles` and `nested_rfiles`.
- `RequirementFiles.RequirementFile.constructor`: the constructor with no requirements given reloads the file when it exists. That path is `RequirementFile.Open`; the constructor itself models the other arguments.
- Recursion depth: the interpreter's recursion limit is the `budget` parameter. Its actual value is not modelled.
- `Resolution.IntersectMembers`: `resolve_ireqs` builds builtin `set`s by comprehension and intersects them with `set.__and__`. Those sets are represented as sequences in the resolver's order (`Resolution.HashableSet`). Their iteration order, and which of two equal objects `&` keeps, are stated only up to rendering.
- `Resolution.Intersect`: the same representation as `Resolution.IntersectMembers`; its result order is the resolver's order, which Python's `set` does not promise.
- `Strings.Lower` lower-cases ASCII letters only. Python's Unicode case mapping is not modelled.
- `Strings.SplitLines` ends lines at `\n` only. Python's universal newlines also end a line at `\r` and at `\r\n`; files using those line ends are not modelled.
- `Strings.Strip` removes the ASCII whitespace of `Strings.IsSpace` only. `str.strip()` also removes `\x1c` to `\x1f`, `\x85`, `\xa0` and the other Unicode spaces, so an `-e` line padded with those is not modelled (`Identity.FromLine`).
- `Cli.MainRemove`: the timestamp in the source header comes from the clock. It is the `clock` parameter.
- `Cli.TagDefaults`: `main_build` globs the source directory for its stems. The stems are the `sourceStems` parameter.
- `HashableInstallRequirement.from_ireq` and `__str__`/`__repr__` of `RequirementFile` are not modelled; they only copy or print fields.

## Findings

| source | as written | input that shows it | evidently intended | confidence | as-written member | corrected member |
|---|---|---|---|---|---|---|
| src/reqwire/helpers/requirements.py:272-287 | the option defaults are created once, before the loop; pip's `-r`/`-c` options use the append action, which appends to the shared default list, so each line's options include those of all earlier lines | a file with the lines `-r base.in`, `-c constraints.txt`, `flask`: `base.in` is opened three times as a nested `-r` file, and `constraints.txt` is never seen as a constraints file | each line's own `-r`/`-c` options select that line's include | not executed | `RequirementFiles.AccumulatedOptionsRepeatInclude` | `RequirementFiles.IncludesFromLines` |
| src/reqwire/cli.py:287-291 | requirements are removed from the `OrderedSet` while iterating over it, so the element after a removed one is skipped | requirements `foo==1.0`, `foo[bar]` (both named `foo`) and `reqwire remove foo`: `foo[bar]` stays in the file | every requirement with the given name is removed | not executed | `Cli.RemoveWhileIteratingSkipsNeighbour` | `Cli.RemoveNamesMembers` |
