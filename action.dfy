/** The action's entry point, `run` (index.js:8-106) with its failure
    handler (index.js:192-194), from the token check onward. The matrix
    list arrives already parsed, and every GitHub API answer is an
    argument. */
module Action {
  import opened Wrappers
  import opened JsArray
  import opened JsString
  import opened RefResolution
  import opened ChangeSet
  import opened MatrixFilter

  /** `process.env.GITHUB_REPOSITORY.split('/')` checked for exactly two
      pieces: the owner and the repository name, either possibly empty. */
  function SplitRepository(repository: string): Option<(string, string)> {
    var parts := Split(repository, '/');
    if |parts| != 2 then None else Some((parts[0], parts[1]))
  }

  /** The repository is accepted exactly when it holds one `/`, and then the
      two pieces are the text on either side of it. */
  lemma SplitRepositorySpec(repository: string)
    ensures SplitRepository(repository).Some? <==> CountOf(repository, '/') == 1
    ensures SplitRepository(repository).Some? ==>
      var (owner, repo) := SplitRepository(repository).value;
      '/' !in owner && '/' !in repo && owner + "/" + repo == repository
  {
    SplitLength(repository, '/');
    var parts := Split(repository, '/');
    if |parts| == 2 {
      JoinSplit(repository, '/');
      JoinTwo(parts, '/');
    }
  }

  /** Any owner and repository name without `/` round-trip. */
  lemma SplitRepositoryJoin(owner: string, repo: string)
    requires '/' !in owner && '/' !in repo
    ensures SplitRepository(owner + "/" + repo) == Some((owner, repo))
  {
    SplitAtFirst(owner, repo, '/');
    SplitWithoutSeparator(repo, '/');
    assert owner + "/" + repo == owner + ['/'] + repo;
  }

  /** One element of `response.data.files`: only its `filename` is read. */
  datatype FileChange = FileChange(filename: string)

  function FileName(file: FileChange): string { file.filename }

  /** The parsed matrix list, as `run` reads it. `elements` holds the
      elements when the list is an array, the only JSON value with a
      `filter` method, and is `None` for an object or a primitive.
      `properties` maps each name whose lookup `list[name]` is not
      `undefined` to `Object.keys` of the value found, or to `None` when that
      value is `null`: for an object its groups, for an array its indices,
      for a string its character indices, and for any value inherited names
      such as `constructor` or `length`. */
  datatype MatrixList<P> =
    MatrixList(elements: Option<seq<Entry<P>>>, properties: map<string, Option<seq<string>>>)

  /** What `JSON.stringify` is applied to for the `filtered` output. */
  datatype Output<P> =
    | EntryArray(entries: seq<Entry<P>>)
    | KeyArray(keys: seq<string>)

  /** Why the action is marked failed. */
  datatype Failure =
    | NoToken                  // 'No token provided'
    | RepositoryUnset          // GITHUB_REPOSITORY undefined: `split` throws
    | InvalidRepository        // 'Invalid repository'
    | ListNotAnArray           // flat mode on a non-array: `list.filter` throws
    | NullListEntry            // flat mode: destructuring a `null` element throws
    | UnknownFilterGroup       // sliced mode: `Object.keys` of `undefined` or `null` throws

  datatype Outcome<P> = Failed(failure: Failure) | Emitted(filtered: Output<P>)

  /** `list[filterBy]` converts an undefined `filterBy` to the key "undefined". */
  function PropertyKey(filterBy: Option<string>): string {
    if filterBy.Some? then filterBy.value else "undefined"
  }

  /** The changed directories for the files of a comparison. */
  function ChangedIn(files: seq<FileChange>): seq<string> {
    ChangedDirectories(Map(files, FileName))
  }

  /** A change confined to one top-level directory selects, in flat mode,
      exactly the entries whose service is that directory. */
  lemma OneChangedService<P>(entries: seq<Entry<P>>, files: seq<FileChange>, d: string)
    requires files != [] && d != ""
    requires forall file :: file in files ==> TopSegment(file.filename) == d
    requires forall i :: 0 <= i < |entries| ==> entries[i].Entry?
    ensures ChangedIn(files) == [d]
    ensures FilterFlat(entries, ChangedIn(files)).Some?
    ensures forall e :: e in FilterFlat(entries, ChangedIn(files)).value <==>
      e in entries && e.Entry? && e.service == Some(d)
  {
    assert ChangedIn(files) == [d] by {
      var names := Map(files, FileName);
      forall f | f in names
        ensures TopSegment(f) == d
      {
        var i :| 0 <= i < |names| && names[i] == f;
        assert files[i] in files;
      }
      SingleDirectory(names, d);
    }
    var p := ServiceChanged<P>([d]);
    assert FilterFlat(entries, [d]) == Some(Filter(entries, p));
    FilterMembership(entries, p);
  }

  /** `run`: the `filtered` output, or the failure, for one invocation.
      `token` is "" when neither the input nor GITHUB_TOKEN supplies one;
      `repositoryEnv`, `isSlice` and `filterBy` are `None` when undefined;
      `compare` answers `compareCommitsWithBasehead` with the `files` field,
      `None` when it is absent. */
  method Run<P>(token: string, repositoryEnv: Option<string>, ref: string,
                isSlice: Option<string>, filterBy: Option<string>, list: MatrixList<P>,
                defaultBranch: string, tags: seq<Tag>, commits: seq<Commit>,
                prHead: string -> string, compare: string -> Option<seq<FileChange>>)
    returns (outcome: Outcome<P>)
    ensures token == "" ==> outcome == Failed(NoToken)
    ensures token != "" && repositoryEnv.None? ==> outcome == Failed(RepositoryUnset)
    ensures token != "" && repositoryEnv.Some? && SplitRepository(repositoryEnv.value).None? ==>
      outcome == Failed(InvalidRepository)
    ensures token != "" && repositoryEnv.Some? && SplitRepository(repositoryEnv.value).Some? ==>
      var files := compare(BaseHead(defaultBranch, tags, commits, ref, prHead));
      var dirs := if files.Some? then ChangedIn(files.value) else [];
      if files.None? then outcome == Emitted(EntryArray([]))
      else if isSlice != Some("true") then
        outcome == (if list.elements.None? then Failed(ListNotAnArray)
                    else
                      var kept := FilterFlat(list.elements.value, dirs);
                      if kept.Some? then Emitted(EntryArray(kept.value)) else Failed(NullListEntry))
      else
        var selected := FilterSliced(list.properties, PropertyKey(filterBy), dirs);
        outcome == (if selected.Some? then Emitted(KeyArray(selected.value))
                    else Failed(UnknownFilterGroup))
  {
    if token == "" {
      return Failed(NoToken);
    }
    if repositoryEnv.None? {
      return Failed(RepositoryUnset);
    }
    var repository := SplitRepository(repositoryEnv.value);
    if repository.None? {
      return Failed(InvalidRepository);
    }
    var basehead := GetBaseHead(defaultBranch, tags, commits, ref, prHead);
    var files := compare(basehead);
    if files.None? {
      return Emitted(EntryArray([]));
    }
    var uniqueDirs := ChangedIn(files.value);
    if isSlice != Some("true") {
      if list.elements.None? {
        return Failed(ListNotAnArray);
      }
      var kept := FilterFlat(list.elements.value, uniqueDirs);
      if kept.None? {
        return Failed(NullListEntry);
      }
      outcome := Emitted(EntryArray(kept.value));
    } else {
      var selected := FilterSliced(list.properties, PropertyKey(filterBy), uniqueDirs);
      if selected.None? {
        return Failed(UnknownFilterGroup);
      }
      outcome := Emitted(KeyArray(selected.value));
    }
  }
}
