# filter-action, modelled in Dafny

filter-action is a GitHub action. It takes a matrix list of services, works out which top-level
directories of the repository changed, and emits, as the `filtered` output, the part of the list
that belongs to those directories. The action's logic that this project models is in `index.js`;
the project models all of that script's logic after the inputs are read and the list is parsed:

- **Comparison range** (`getBaseHead`, `calculateRef`, `getLastTag`, `getFirstCommit`). A merge ref
  `<number>/merge[/<name>]` (at most one more `/`-free piece) is replaced by the head SHA of that
  pull request. On the default branch the range starts at the first tag the tag listing returns,
  or at the earliest commit when there is no tag. Any other ref is compared with the default
  branch.
- **Changed directories** (index.js:80-83). The filenames reported by the compare API pass through
  the `indexOf`-based de-duplication, then `substr(0, indexOf('/'))`, then the directory-name filter,
  then a second de-duplication.
- **Matrix filtering** (index.js:88-96). In flat mode, entries are kept when their `service` is a
  changed directory. In sliced mode, the keys of one group are kept when they name a changed
  directory.
- **`run`** (index.js:23-105, with the failure handler at index.js:192-194). This covers the token
  check, the `GITHUB_REPOSITORY` check, and the early `[]` output when the comparison's response
  has no `files` field (an empty `files` array does not take this exit). It also covers each way
  the filtering step can throw: `filter` on a list that is not an array, a `null` element in a
  flat list, and a sliced group that is undefined or `null`.

The JavaScript library behaviour the script relies on is modelled explicitly:

- `Array.prototype.indexOf`, `map` and `filter` (module `JsArray`). `JsArray.IndexOf` on a
  `string` also stands for `String.prototype.indexOf` with a one-character argument;
- `String.prototype.split` and `substr` (module `JsString`);
- `Array.prototype.includes` is Dafny's `in`, inside the filter callbacks
  `MatrixFilter.ServiceChanged` and `MatrixFilter.KeyChanged`;
- `isNaN` on a string (module `JsNumber`). This is a recogniser for the StringNumericLiteral grammar
  that ECMA-262 uses for ToNumber applied to strings. So `isNaN('')` and `isNaN(' ')` are false, and `0x1F` and
  `Infinity` count as numbers.

Modules:

| file | module | models |
|---|---|---|
| wrappers.dfy | `Wrappers` | `Option` |
| js_array.dfy | `JsArray` | array built-ins and the `indexOf` de-duplication idiom |
| js_string.dfy | `JsString` | `split`, `substr`, and the `join` that inverts `split` |
| js_number.dfy | `JsNumber` | `isNaN` on strings |
| ref_resolution.dfy | `RefResolution` | `getBaseHead`, `calculateRef`, `getLastTag`, `getFirstCommit` |
| change_set.dfy | `ChangeSet` | the changed-directory pipeline |
| matrix_filter.dfy | `MatrixFilter` | the flat and sliced filters |
| action.dfy | `Action` | `run` |

`getFirstCommit` sorts the API's array in place. It is modelled twice:

- `RefResolution.SortByDate` is a stable insertion sort on sequences and serves as the
  specification. It is proved sorted and a permutation, and its first element is proved to be the
  earliest commit.
- `RefResolution.SortInPlace` sorts an `array` and is proved to produce exactly `SortByDate` of the
  array's old contents.

Where the code and its documented intent part ways, the model follows the code:

- An empty ref is not rejected. `calculateRef('')` returns `''`.
- A ref `/merge` is treated as pull request `''`, because `isNaN('')` is false.
- With neither tags nor commits, the range is `...<default>`.
- The repository check reads `GITHUB_REPOSITORY`, not the `repository` input. It accepts empty
  owner or repository names, such as `/x`.
- Feeding the changed directories back through the pipeline does not return them again. It returns
  `[]`, because a name without `/` counts as a root file.
- The `!filteredMatrix` test at index.js:99 is never true, because both branches produce an array.
  So the model has no such branch.

## Model

| member | source | states |
|---|---|---|
| JsArray.IndexOf | index.js:81-83 | the index is -1 exactly when the element is absent; otherwise the element sits there and nowhere before |
| JsArray.Map | index.js:80-81 | one result per element, each the callback applied to it; MapAppend and MapOfPrefix give its step and prefix laws |
| JsArray.Filter | index.js:82-83 | only accepted elements and never more than the input; FilterIsSubsequence, FilterMultiplicity and FilterMembership state its full contract |
| JsArray.KeepFirstOccurrences | index.js:81 | the `filter((item, index) => s.indexOf(item) === index)` idiom; KeepFirstOccurrencesIsDistinct proves it equal to `Distinct` |
| JsArray.IndexOfIsFirst | index.js:81 | `indexOf(s[n]) === n` holds exactly when `s[n]` does not occur before `n` |
| JsArray.KeepFirstOccurrencesIsDistinct | index.js:81 | the `indexOf` filter equals keeping each element's first occurrence |
| JsArray.FirstOccurrencesSplit | index.js:81 | the filter over a suffix adds to the distinct prefix exactly what completes the distinct whole |
| JsArray.FilterIsSubsequence | index.js:82 | `filter` keeps elements in their original order |
| JsArray.FilterMultiplicity | index.js:82 | `filter` keeps every copy of an accepted element and no copy of a rejected one |
| JsArray.FilterMembership | index.js:82 | an element is in the filtered array iff it is in the array and accepted |
| JsArray.FilterNoDuplicates | index.js:95 | filtering an array without repeats gives one without repeats |
| JsArray.DistinctMembership | index.js:83 | de-duplication keeps exactly the elements of the input |
| JsArray.DistinctNoDuplicates | index.js:83 | de-duplication leaves no repeated element |
| JsArray.DistinctAppend | index.js:83 | one more element is appended exactly when it is new |
| JsArray.DistinctOfPrefix | index.js:83 | de-duplicating a prefix gives a prefix of the de-duplicated whole |
| JsString.Substr | index.js:81 | `substr(start, length)` is the slice from `start`, empty for length <= 0 and clipped at the end |
| JsString.Split | index.js:56 | `split` yields at least one piece and no piece contains the separator |
| JsString.SplitLength | index.js:58 | `split` yields one more piece than there are separators |
| JsString.JoinSplit | index.js:132 | joining the pieces of `split` with the separator gives back the string |
| JsString.SplitJoin | index.js:132 | splitting a join of separator-free pieces gives back the pieces |
| JsString.SplitAtFirst | index.js:132 | `split` cuts at the first separator and splits the remainder |
| JsString.CountOf | index.js:56 | the separator count is zero exactly when the separator is absent |
| JsNumber.IsNaN | index.js:138 | `isNaN` on a string, true iff the string is not a StringNumericLiteral; DigitsAreNumbers, BlankIsNumber, WordsAreNaN and the example lemmas state its behaviour |
| JsNumber.DigitsAreNumbers | index.js:138 | a non-empty run of decimal digits is not NaN |
| JsNumber.BlankIsNumber | index.js:138 | the empty string and white space are not NaN |
| JsNumber.WordsAreNaN | index.js:138 | a string opening with a letter other than `I` is NaN |
| JsNumber.HexAndPaddedAreNumbers | index.js:138 | `0x1F` and ` 7 ` are not NaN |
| JsNumber.TrailingLetterIsNaN | index.js:138 | `12a` is NaN |
| RefResolution.LastTag | index.js:163-174 | `''` for no tags, otherwise the first tag's name |
| RefResolution.SortByDate | index.js:187 | the stable sort by date, of the same length as its input; SortByDateSortsAndPermutes and SortByDateFront state that it orders, permutes and puts the earliest first |
| RefResolution.FirstCommit | index.js:176-190 | getFirstCommit on the listing; FirstCommitIsEarliest states its result |
| RefResolution.InsertByDatePermutes | index.js:187 | inserting a commit adds exactly that commit to the multiset |
| RefResolution.InsertByDateSorted | index.js:187 | inserting into a date-sorted list keeps it sorted |
| RefResolution.SortByDateSortsAndPermutes | index.js:187 | the sort orders by ascending date and is a permutation |
| RefResolution.EarliestIndex | index.js:187-189 | the first commit with the smallest date: none is earlier, and all before it are later |
| RefResolution.SortByDateFront | index.js:187-189 | the stable sort puts the first of the earliest commits in front |
| RefResolution.FirstCommitIsEarliest | index.js:176-190 | `''` for no commits, otherwise the SHA of the first-listed earliest commit |
| RefResolution.InsertByDateAt | index.js:187 | insertion places the commit after the last one not later than it |
| RefResolution.SortByDateSnoc | index.js:187 | sorting one more element is inserting it into the sorted prefix |
| RefResolution.InsertLastByDate | index.js:187 | the array's first i+1 cells become the sorted prefix with a[i] inserted, the rest unchanged |
| RefResolution.SortInPlace | index.js:187 | the array ends up as the stable date sort of its old contents |
| RefResolution.GetFirstCommit | index.js:176-190 | the array is left sorted, and the result is the first commit of the old listing |
| RefResolution.CalculateRef | index.js:131-152 | calculateRef; MergeRefResolves and MergeRefShape state when it looks up a pull request, in both directions, and OtherRefsUnchanged and EmptyNumberIsLookedUp the other cases |
| RefResolution.MergeRefResolves | index.js:131-149 | `<number>/merge` or `<number>/merge/<x>` with a numeric number resolves to that pull request's head SHA |
| RefResolution.MergeRefShape | index.js:132-138 | a ref that is looked up is exactly a numeric piece, `/merge`, and at most one more piece |
| RefResolution.OtherRefsUnchanged | index.js:134-151 | a ref with no `/` or with more than two is returned unchanged |
| RefResolution.EmptyNumberIsLookedUp | index.js:138-148 | `/merge` looks up pull request `''` |
| RefResolution.BaseHead | index.js:108-129 | getBaseHead's range; SinceLastTag, SinceFirstCommit, NoHistory, FeatureBranch and PullRequest state it case by case |
| RefResolution.SinceLastTag | index.js:117-125 | on the default branch with a tag, the range is `<tag>...<default>` |
| RefResolution.SinceFirstCommit | index.js:117-121 | on the default branch with no tag, the range starts at the earliest commit |
| RefResolution.NoHistory | index.js:117-121 | with no tags and no commits the range is `...<default>` |
| RefResolution.FeatureBranch | index.js:128 | a ref that is not a merge ref and not the default branch is compared as `<default>...<ref>` |
| RefResolution.NamespacedBranch | index.js:132-151 | a ref `<prefix>/<name>` whose prefix opens with a letter other than `I` is not a merge ref and is returned unchanged |
| RefResolution.PullRequest | index.js:111-128 | a merge ref `<number>/merge` or `<number>/merge/<name>` is compared from the default branch to the head SHA, unless that SHA equals the default branch name |
| RefResolution.GetBaseHead | index.js:108-129 | the range returned is the one `BaseHead` defines for the tags, commits and ref |
| ChangeSet.TopSegment | index.js:81 | `file.substr(0, file.indexOf('/'))`; TopSegmentSpec states its result |
| ChangeSet.ChangedDirectories | index.js:80-83 | the pipeline as written; ChangedDirectoriesIsDistinct, ChangedDirectoriesContents, ChangedDirectoriesOrder and ChangedDirectoriesStep state its result |
| ChangeSet.TopSegmentSpec | index.js:81 | the text before the first `/`, which contains no `/`, and `''` when there is none |
| ChangeSet.CandidatesMembership | index.js:81-82 | a name is kept iff it is non-empty and the top segment of some file |
| ChangeSet.DistinctFilenamesRedundant | index.js:80-83 | dropping repeated filenames first changes nothing in the result |
| ChangeSet.ChangedDirectoriesIsDistinct | index.js:80-83 | the pipeline equals de-duplicating the top-level directories of all files |
| ChangeSet.ChangedDirectoriesStep | index.js:80-83 | no files give no directories; a new file adds its directory at the end exactly when it is new |
| ChangeSet.ChangedDirectoriesContents | index.js:80-83 | the result has no repeats, and it holds exactly the non-empty, slash-free top segments of the files |
| ChangeSet.ChangedDirectoriesOrder | index.js:80-83 | directories appear in the order of their first file |
| ChangeSet.SingleDirectory | index.js:80-83 | files all under one directory give exactly that directory |
| ChangeSet.ReapplyingFindsNothing | index.js:80-83 | fed its own output, the pipeline finds no directory |
| MatrixFilter.FilterFlat | index.js:91 | the flat filter, `None` where it throws; FilterFlatSpec states its contract |
| MatrixFilter.FilterSliced | index.js:93-95 | the sliced filter, `None` where `Object.keys` throws; FilterSlicedSpec states its contract |
| MatrixFilter.FilterFlatSpec | index.js:91 | flat mode throws iff some element is `null`; otherwise it keeps, in order and with every copy, exactly the entries whose service changed |
| MatrixFilter.FilterSlicedSpec | index.js:93-95 | sliced mode throws iff the group is undefined or `null`; otherwise it keeps, in key order and with every copy, exactly the keys that changed, and distinct keys stay distinct |
| Action.SplitRepository | index.js:56-61 | the repository split and its two-piece check; SplitRepositorySpec and SplitRepositoryJoin state it in both directions |
| Action.SplitRepositorySpec | index.js:56-64 | the repository is accepted iff it has one `/`, and owner + `/` + repo rebuilds it |
| Action.SplitRepositoryJoin | index.js:56-64 | any slash-free owner and repository name round-trip |
| Action.OneChangedService | index.js:80-91 | changes under one directory select exactly the entries of that service |
| Action.Run | index.js:23-105 | the failure or `filtered` output for each case: no token, unset or invalid repository, no files, flat or sliced filtering, and the throws of `filter` on a non-array, of a `null` element and of an undefined or `null` group |

## Left out

- Reading the inputs from `core.getInput` and the environment (index.js:9-21). `Action.Run` receives
  the results as parameters. An unset token is the empty string, and an unset `is_slice`,
  `filter_by` or `GITHUB_REPOSITORY` is `None`. The ref is assumed to be defined, because the runner
  always sets `GITHUB_REF_NAME`.
- The `list` path check, reading the file, and `JSON.parse` with its `!content` and `!list` checks
  (index.js:28-46). These are file I/O and JSON parsing. The list arrives already parsed, and truthy.
- All GitHub API calls: `repos.get`, `repos.listTags`, `repos.listCommits`, `pulls.get` and
  `compareCommitsWithBasehead`, and their errors and pagination. Their answers are parameters:
  `defaultBranch`, `tags`, `commits`, `prHead` and `compare`.
- `new Date(...)` parsing in the comparator (index.js:187). Commit dates are integers that stand for
  the parsed timestamps. Invalid dates (NaN comparisons) are not modelled.
- `JSON.stringify`, `core.setOutput`, `core.info` and `core.setFailed` messages. The outcome is a
  value: the failure kind, or the array that would be stringified.
- `async`/`await` ordering and the proxy agent. The calls in the model are sequential.
- The payload of a matrix entry is opaque. A `service` that is absent or not a string is `None`,
  and a `null` element is `NullEntry`. Every directory is a string, and `includes` never matches a
  non-string against a string, so such entries are never selected.
- The parsed list is given through two views, as data: its elements when it is an array, and
  `Object.keys` of the value each property lookup `list[name]` finds. The model does not derive
  these views from a JSON value, so it does not tie the two views of one array to each other.
- src/run.ts, a separate version that takes the directories from `git diff` and never calls
  index.js, and tests/index.ts, a fixture script that filters by substring containment, are not
  part of this model.
