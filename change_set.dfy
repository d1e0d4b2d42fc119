/** The changed-directory set of index.js:80-83: from the filenames the
    compare API reports, the distinct top-level directories, in the order
    their first file appears. */
module ChangeSet {
  import opened JsArray
  import opened JsString

  /** `file.substr(0, file.indexOf('/'))`: the text before the first `/`.
      For a file with no `/` this is `substr(0, -1)`, which is empty. */
  function TopSegment(filename: string): string {
    Substr(filename, 0, IndexOf(filename, '/'))
  }

  /** The top segment holds no `/`; it is the text before the first `/`,
      and empty when there is none. */
  lemma TopSegmentSpec(filename: string)
    ensures var dir := TopSegment(filename);
      '/' !in dir &&
      ('/' in filename ==> |dir| < |filename| && filename[|dir|] == '/' && dir == filename[..|dir|]) &&
      ('/' !in filename ==> dir == "")
  {
  }

  /** The test `item.indexOf('/') === -1 && item.length > 0`. */
  predicate IsDirectoryName(item: string) {
    IndexOf(item, '/') == -1 && |item| > 0
  }

  /** The top-level directory of each file in turn, root files dropped. */
  function Candidates(filenames: seq<string>): seq<string> {
    Filter(Map(filenames, TopSegment), IsDirectoryName)
  }

  /** The pipeline as written: drop repeated filenames, take each top
      segment, keep the directory names, drop repeated directories. */
  function ChangedDirectories(filenames: seq<string>): seq<string> {
    KeepFirstOccurrences(Candidates(KeepFirstOccurrences(filenames)))
  }

  lemma CandidatesAppend(filenames: seq<string>, f: string)
    ensures Candidates(filenames + [f]) ==
      Candidates(filenames) + (if TopSegment(f) != "" then [TopSegment(f)] else [])
  {
    MapAppend(filenames, f, TopSegment);
    FilterAppend(Map(filenames, TopSegment), TopSegment(f), IsDirectoryName);
  }

  lemma {:induction false} CandidatesMembership(filenames: seq<string>)
    ensures forall d :: d in Candidates(filenames) <==>
      d != "" && exists f :: f in filenames && TopSegment(f) == d
    decreases |filenames|
  {
    if filenames != [] {
      var init, f := filenames[..|filenames| - 1], filenames[|filenames| - 1];
      assert filenames == init + [f];
      CandidatesMembership(init);
      CandidatesAppend(init, f);
    }
  }

  /** The top-level directory of a listed file is a candidate. */
  lemma {:induction false} CandidateOf(filenames: seq<string>, i: nat)
    requires i < |filenames| && TopSegment(filenames[i]) != ""
    ensures TopSegment(filenames[i]) in Candidates(filenames)
    decreases |filenames|
  {
    var init, f := filenames[..|filenames| - 1], filenames[|filenames| - 1];
    assert filenames == init + [f];
    CandidatesAppend(init, f);
    if i < |init| {
      CandidateOf(init, i);
    }
  }

  /** Every candidate is the top-level directory of some listed file. */
  lemma {:induction false} CandidateSource(filenames: seq<string>, d: string) returns (i: nat)
    requires d in Candidates(filenames)
    ensures i < |filenames| && TopSegment(filenames[i]) == d
    decreases |filenames|
  {
    var init, f := filenames[..|filenames| - 1], filenames[|filenames| - 1];
    assert filenames == init + [f];
    CandidatesAppend(init, f);
    if d in Candidates(init) {
      i := CandidateSource(init, d);
    } else {
      i := |init|;
    }
  }

  /** Lists with the same files have the same candidate directories. */
  lemma SameFilesSameCandidates(a: seq<string>, b: seq<string>, d: string)
    requires forall x :: x in a <==> x in b
    requires d in Candidates(a)
    ensures d in Candidates(b)
  {
    var i := CandidateSource(a, d);
    assert a[i] in b;
    var j :| 0 <= j < |b| && b[j] == a[i];
    CandidateOf(b, j);
  }

  /** A file seen before adds no directory. */
  lemma RepeatedFileAddsNothing(init: seq<string>, f: string)
    requires f in init
    ensures Distinct(Candidates(init + [f])) == Distinct(Candidates(init))
  {
    var d := TopSegment(f);
    CandidatesAppend(init, f);
    if d != "" {
      var i :| 0 <= i < |init| && init[i] == f;
      CandidateOf(init, i);
      DistinctAppend(Candidates(init), d);
      assert Candidates(init + [f]) == Candidates(init) + [d];
    } else {
      assert Candidates(init + [f]) == Candidates(init);
    }
  }

  /** A new file adds the same directory to both sides. */
  lemma NewFileStep(init: seq<string>, f: string)
    requires Distinct(Candidates(Distinct(init))) == Distinct(Candidates(init))
    ensures Distinct(Candidates(Distinct(init) + [f])) == Distinct(Candidates(init + [f]))
  {
    var d := TopSegment(f);
    CandidatesAppend(init, f);
    CandidatesAppend(Distinct(init), f);
    if d != "" {
      DistinctMembership(init);
      if d in Candidates(init) { SameFilesSameCandidates(init, Distinct(init), d); }
      if d in Candidates(Distinct(init)) { SameFilesSameCandidates(Distinct(init), init, d); }
      DistinctAppend(Candidates(init), d);
      DistinctAppend(Candidates(Distinct(init)), d);
      assert Candidates(init + [f]) == Candidates(init) + [d];
      assert Candidates(Distinct(init) + [f]) == Candidates(Distinct(init)) + [d];
    } else {
      assert Candidates(init + [f]) == Candidates(init);
      assert Candidates(Distinct(init) + [f]) == Candidates(Distinct(init));
    }
  }

  /** Dropping repeated filenames first changes nothing once repeated
      directories are dropped at the end. */
  lemma {:induction false} DistinctFilenamesRedundant(filenames: seq<string>)
    ensures Distinct(Candidates(Distinct(filenames))) == Distinct(Candidates(filenames))
    decreases |filenames|
  {
    if filenames != [] {
      var init, f := filenames[..|filenames| - 1], filenames[|filenames| - 1];
      assert filenames == init + [f];
      DistinctFilenamesRedundant(init);
      DistinctAppend(init, f);
      if f in init {
        RepeatedFileAddsNothing(init, f);
      } else {
        NewFileStep(init, f);
      }
    }
  }

  /** The pipeline equals de-duplicating the candidate directories. */
  lemma ChangedDirectoriesIsDistinct(filenames: seq<string>)
    ensures ChangedDirectories(filenames) == Distinct(Candidates(filenames))
  {
    KeepFirstOccurrencesIsDistinct(filenames);
    KeepFirstOccurrencesIsDistinct(Candidates(Distinct(filenames)));
    DistinctFilenamesRedundant(filenames);
  }

  /** No filenames, no directories; one more file adds its top-level
      directory at the end exactly when it has one not seen before. */
  lemma ChangedDirectoriesStep(filenames: seq<string>, f: string)
    ensures ChangedDirectories([]) == []
    ensures var dirs, d := ChangedDirectories(filenames), TopSegment(f);
      ChangedDirectories(filenames + [f]) == if d == "" || d in dirs then dirs else dirs + [d]
  {
    ChangedDirectoriesIsDistinct([]);
    ChangedDirectoriesIsDistinct(filenames);
    ChangedDirectoriesIsDistinct(filenames + [f]);
    CandidatesAppend(filenames, f);
    DistinctMembership(Candidates(filenames));
    var d := TopSegment(f);
    if d != "" {
      DistinctAppend(Candidates(filenames), d);
      assert d in Distinct(Candidates(filenames)) <==> d in Candidates(filenames);
    } else {
      assert Candidates(filenames + [f]) == Candidates(filenames);
    }
  }

  /** Every entry is a non-empty name without `/` that is the text before
      the first `/` of some changed file, every such name is an entry, and
      no entry repeats. */
  lemma ChangedDirectoriesContents(filenames: seq<string>)
    ensures var dirs := ChangedDirectories(filenames);
      NoDuplicates(dirs) &&
      (forall d :: d in dirs ==> d != "" && '/' !in d) &&
      (forall d :: d in dirs <==> d != "" && exists f :: f in filenames && TopSegment(f) == d)
  {
    ChangedDirectoriesIsDistinct(filenames);
    DistinctCandidatesContents(filenames);
  }

  lemma DistinctCandidatesContents(filenames: seq<string>)
    ensures var dirs := Distinct(Candidates(filenames));
      NoDuplicates(dirs) &&
      (forall d :: d in dirs ==> d != "" && '/' !in d) &&
      (forall d :: d in dirs <==> d != "" && exists f :: f in filenames && TopSegment(f) == d)
  {
    var cands := Candidates(filenames);
    DistinctNoDuplicates(cands);
    DistinctMembership(cands);
    CandidatesMembership(filenames);
    CandidatesAreDirectoryNames(filenames);
  }

  /** Candidates are non-empty and free of `/`. */
  lemma CandidatesAreDirectoryNames(filenames: seq<string>)
    ensures forall d :: d in Candidates(filenames) ==> d != "" && '/' !in d
  {
    FilterMembership(Map(filenames, TopSegment), IsDirectoryName);
  }

  /** When every changed file lies under the same top-level directory, that
      directory is the only one reported. */
  lemma SingleDirectory(filenames: seq<string>, d: string)
    requires filenames != [] && d != ""
    requires forall f :: f in filenames ==> TopSegment(f) == d
    ensures ChangedDirectories(filenames) == [d]
  {
    ChangedDirectoriesIsDistinct(filenames);
    CandidatesMembership(filenames);
    assert filenames[0] in filenames;
    DistinctOfConstant(Candidates(filenames), d);
  }

  /** Order of first occurrence: the directories of the first `n` files
      are a prefix of the directories of all of them. */
  lemma ChangedDirectoriesOrder(filenames: seq<string>, n: nat)
    requires n <= |filenames|
    ensures ChangedDirectories(filenames[..n]) <= ChangedDirectories(filenames)
  {
    ChangedDirectoriesIsDistinct(filenames);
    ChangedDirectoriesIsDistinct(filenames[..n]);
    MapOfPrefix(filenames, TopSegment, n);
    FilterOfPrefix(Map(filenames, TopSegment), IsDirectoryName, n);
    DistinctMonotone(Candidates(filenames[..n]), Candidates(filenames));
  }

  /** Fed its own output, the pipeline finds nothing: directory names
      contain no `/`, so each counts as a root file. */
  lemma {:induction false} ReapplyingFindsNothing(filenames: seq<string>)
    ensures ChangedDirectories(ChangedDirectories(filenames)) == []
  {
    var dirs := ChangedDirectories(filenames);
    ChangedDirectoriesContents(filenames);
    ChangedDirectoriesIsDistinct(dirs);
    NoSlashNoCandidates(dirs);
  }

  lemma {:induction false} NoSlashNoCandidates(names: seq<string>)
    requires forall d :: d in names ==> '/' !in d
    ensures Candidates(names) == []
    decreases |names|
  {
    if names != [] {
      var init := names[..|names| - 1];
      assert names == init + [names[|names| - 1]];
      NoSlashNoCandidates(init);
      CandidatesAppend(init, names[|names| - 1]);
    }
  }
}
