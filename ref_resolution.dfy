/** How the action turns the ref it runs on into the `base...head` range it
    asks the compare API for (`getBaseHead` and its helpers in index.js).
    Every API answer is a parameter: the default branch of `repos.get`, the
    listings of `repos.listTags` and `repos.listCommits`, and `pulls.get` as
    the function `prHead` from a pull-request number to its head SHA. */
module RefResolution {
  import opened JsArray
  import opened JsString
  import opened JsNumber

  /** An entry of the commit listing: its SHA and its author date, as a timestamp. */
  datatype Commit = Commit(sha: string, date: int)

  /** An entry of the tag listing. */
  datatype Tag = Tag(name: string)

  // ------------------------------------------------------------ getLastTag

  /** The tag to diff from: the first one the listing returns, or `''` when
      the listing is empty. A tag with an empty name would look like none. */
  function LastTag(tags: seq<Tag>): (name: string)
    ensures tags == [] ==> name == ""
    ensures tags != [] ==> name == tags[0].name
    ensures name == "" <==> tags == [] || tags[0].name == ""
  {
    if |tags| == 0 then "" else tags[0].name
  }

  // -------------------------------------------------------- getFirstCommit

  predicate SortedByDate(s: seq<Commit>) {
    forall i, j :: 0 <= i < j < |s| ==> s[i].date <= s[j].date
  }

  /** Puts `c` into `s` just after the last commit whose date is not later
      than `c`'s: how a stable sort with comparator `a.date - b.date` places
      the element that comes after all of `s`. */
  function InsertByDate(c: Commit, s: seq<Commit>): (r: seq<Commit>)
    ensures |r| == |s| + 1
    decreases |s|
  {
    if s == [] || s[|s| - 1].date <= c.date then s + [c]
    else InsertByDate(c, s[..|s| - 1]) + [s[|s| - 1]]
  }

  /** `data.sort((a, b) => new Date(a.commit.author.date) - new Date(b.commit.author.date))`:
      a stable sort, ascending by date, so commits with equal dates keep
      their listing order. */
  function SortByDate(s: seq<Commit>): (r: seq<Commit>)
    ensures |r| == |s|
  {
    if s == [] then [] else InsertByDate(s[|s| - 1], SortByDate(s[..|s| - 1]))
  }

  /** Insertion adds `c` and loses nothing. */
  lemma {:induction false} InsertByDatePermutes(c: Commit, s: seq<Commit>)
    ensures multiset(InsertByDate(c, s)) == multiset(s) + multiset{c}
    decreases |s|
  {
    if s != [] && s[|s| - 1].date > c.date {
      var init := s[..|s| - 1];
      InsertByDatePermutes(c, init);
      assert s == init + [s[|s| - 1]];
    }
  }

  /** Insertion into a date-ordered sequence keeps it date-ordered. */
  lemma {:induction false} InsertByDateSorted(c: Commit, s: seq<Commit>)
    requires SortedByDate(s)
    ensures SortedByDate(InsertByDate(c, s))
    decreases |s|
  {
    if s != [] && s[|s| - 1].date > c.date {
      var init, last := s[..|s| - 1], s[|s| - 1];
      InsertByDateSorted(c, init);
      InsertByDatePermutes(c, init);
      var r := InsertByDate(c, init);
      forall k | 0 <= k < |r| ensures r[k].date <= last.date {
        assert r[k] in multiset(r);
      }
    }
  }

  /** The sort yields a date-ordered permutation of the listing. */
  lemma {:induction false} SortByDateSortsAndPermutes(s: seq<Commit>)
    ensures SortedByDate(SortByDate(s))
    ensures multiset(SortByDate(s)) == multiset(s)
    decreases |s|
  {
    if s != [] {
      var init := s[..|s| - 1];
      SortByDateSortsAndPermutes(init);
      InsertByDateSorted(s[|s| - 1], SortByDate(init));
      InsertByDatePermutes(s[|s| - 1], SortByDate(init));
      assert s == init + [s[|s| - 1]];
    }
  }

  /** The position of the earliest commit, the first one among equals. */
  function EarliestIndex(s: seq<Commit>): (k: nat)
    requires s != []
    ensures k < |s|
    ensures forall j :: 0 <= j < |s| ==> s[k].date <= s[j].date
    ensures forall j :: 0 <= j < k ==> s[k].date < s[j].date
  {
    if |s| == 1 then 0
    else
      var k := EarliestIndex(s[..|s| - 1]);
      if s[|s| - 1].date < s[k].date then |s| - 1 else k
  }

  /** The SHA getFirstCommit returns for a listing: `''` when it is empty,
      otherwise that of the commit the sort puts first. */
  function FirstCommit(commits: seq<Commit>): string {
    if commits == [] then "" else SortByDate(commits)[0].sha
  }

  /** Inserting into a sorted non-empty sequence changes its front only when
      the new commit is strictly earlier than the front. */
  lemma {:induction false} InsertByDateFront(c: Commit, s: seq<Commit>)
    requires SortedByDate(s)
    ensures InsertByDate(c, s)[0] == if s == [] || c.date < s[0].date then c else s[0]
    decreases |s|
  {
    if s != [] && s[|s| - 1].date > c.date {
      InsertByDateFront(c, s[..|s| - 1]);
    }
  }

  /** The sort puts first the earliest commit, ties broken by listing order. */
  lemma {:induction false} SortByDateFront(s: seq<Commit>)
    requires s != []
    ensures SortByDate(s)[0] == s[EarliestIndex(s)]
    decreases |s|
  {
    var init := s[..|s| - 1];
    if init != [] {
      SortByDateFront(init);
      SortByDateSortsAndPermutes(init);
      InsertByDateFront(s[|s| - 1], SortByDate(init));
    }
  }

  /** getFirstCommit returns `''` for an empty listing and otherwise the SHA
      of a commit no other commit predates, the first listed among equals. */
  lemma FirstCommitIsEarliest(commits: seq<Commit>)
    ensures commits == [] ==> FirstCommit(commits) == ""
    ensures commits != [] ==>
      var k := EarliestIndex(commits);
      FirstCommit(commits) == commits[k].sha &&
      (forall j :: 0 <= j < |commits| ==> commits[k].date <= commits[j].date) &&
      (forall j :: 0 <= j < k ==> commits[k].date < commits[j].date)
  {
    if commits != [] {
      SortByDateFront(commits);
    }
  }

  /** `c` lands right after the last commit not later than it: at `j` when
      every commit from `j` on is strictly later and the one before is not. */
  lemma {:induction false} InsertByDateAt(c: Commit, s: seq<Commit>, j: nat)
    requires j <= |s| && (j == 0 || s[j - 1].date <= c.date)
    requires forall k :: j <= k < |s| ==> s[k].date > c.date
    ensures InsertByDate(c, s) == s[..j] + [c] + s[j..]
    decreases |s|
  {
    if j < |s| {
      var init := s[..|s| - 1];
      InsertByDateAt(c, init, j);
      assert init[..j] == s[..j];
      assert init[j..] + [s[|s| - 1]] == s[j..];
    } else {
      assert s[..j] == s;
    }
  }

  lemma SortByDateSnoc(s: seq<Commit>, i: nat)
    requires i < |s|
    ensures SortByDate(s[..i + 1]) == InsertByDate(s[i], SortByDate(s[..i]))
  {
    assert s[..i + 1][..i] == s[..i];
  }

  /** A sequence that agrees with `s` before `j`, holds `c` at `j` and the
      rest of `s` one place further on is `s` with `c` inserted at `j`. */
  lemma ShiftedInsert(x: seq<Commit>, s: seq<Commit>, c: Commit, j: nat)
    requires j <= |s| && |x| == |s| + 1
    requires forall k :: 0 <= k < j ==> x[k] == s[k]
    requires x[j] == c
    requires forall k :: j <= k < |s| ==> x[k + 1] == s[k]
    ensures x == s[..j] + [c] + s[j..]
  {
    var y := s[..j] + [c] + s[j..];
    forall k | 0 <= k < |x|
      ensures x[k] == y[k]
    {
      if k > j {
        assert y[k] == s[k - 1];
      }
    }
  }

  /** Moves `a[i]` to the left past every earlier element with a later date. */
  method InsertLastByDate(a: array<Commit>, i: nat)
    requires i < a.Length
    modifies a
    ensures a[..i + 1] == InsertByDate(old(a[i]), old(a[..i]))
    ensures forall k :: i < k < a.Length ==> a[k] == old(a[k])
  {
    ghost var sorted := a[..i];
    var c := a[i];
    var j := i;
    while j > 0 && a[j - 1].date > c.date
      invariant 0 <= j <= i
      invariant forall k :: 0 <= k < j ==> a[k] == sorted[k]
      invariant forall k :: j <= k < i ==> a[k + 1] == sorted[k] && sorted[k].date > c.date
      invariant forall k :: i < k < a.Length ==> a[k] == old(a[k])
    {
      a[j] := a[j - 1];
      j := j - 1;
    }
    InsertByDateAt(c, sorted, j);
    a[j] := c;
    ShiftedInsert(a[..i + 1], sorted, c, j);
  }

  /** The in-place sort of the commit listing. */
  method SortInPlace(a: array<Commit>)
    modifies a
    ensures a[..] == SortByDate(old(a[..]))
  {
    ghost var input := a[..];
    var i := 0;
    while i < a.Length
      invariant 0 <= i <= a.Length
      invariant a[..i] == SortByDate(input[..i])
      invariant forall k :: i <= k < a.Length ==> a[k] == input[k]
    {
      SortByDateSnoc(input, i);
      InsertLastByDate(a, i);
      i := i + 1;
    }
    assert input[..a.Length] == input;
  }

  /** getFirstCommit (index.js:176-190) on the array the listing returned:
      sorts it in place and reads the SHA at the front. */
  method GetFirstCommit(data: array<Commit>) returns (sha: string)
    modifies data
    ensures data[..] == SortByDate(old(data[..]))
    ensures sha == FirstCommit(old(data[..]))
  {
    if data.Length == 0 {
      return "";
    }
    SortInPlace(data);
    sha := data[0].sha;
  }

  // ---------------------------------------------------------- calculateRef

  /** The test calculateRef makes on the pieces of a ref: two or three
      pieces, a first piece `isNaN` accepts as a number, `merge` second. */
  predicate IsMergeRef(parts: seq<string>) {
    (|parts| == 2 || |parts| == 3) && !IsNaN(parts[0]) && parts[1] == "merge"
  }

  /** calculateRef: a pull-request merge ref is replaced by the head SHA of
      that pull request; any other ref is returned as it is. */
  function CalculateRef(ref: string, prHead: string -> string): string {
    var refParts := Split(ref, '/');
    if IsMergeRef(refParts) then prHead(refParts[0]) else ref
  }

  /** The pieces of `merge` followed by nothing or by `/<name>`. */
  lemma MergeTailPieces(tail: string)
    requires tail == "" || (tail[0] == '/' && '/' !in tail[1..])
    ensures Split("merge" + tail, '/') == ["merge"] + (if tail == "" then [] else [tail[1..]])
  {
    if tail == "" {
      assert "merge" + tail == "merge";
      SplitWithoutSeparator("merge", '/');
    } else {
      assert "merge" + tail == "merge" + ['/'] + tail[1..];
      SplitAtFirst("merge", tail[1..], '/');
      SplitWithoutSeparator(tail[1..], '/');
    }
  }

  /** The pieces of `<number>/merge` and of `<number>/merge/<name>`. */
  lemma MergeRefPieces(number: string, tail: string)
    requires '/' !in number
    requires tail == "" || (tail[0] == '/' && '/' !in tail[1..])
    ensures Split(number + "/merge" + tail, '/') ==
      [number, "merge"] + (if tail == "" then [] else [tail[1..]])
  {
    assert number + "/merge" + tail == number + ['/'] + ("merge" + tail);
    SplitAtFirst(number, "merge" + tail, '/');
    MergeTailPieces(tail);
  }

  /** `<number>/merge` and `<number>/merge/<name>` resolve to the head SHA
      of pull request `<number>`. */
  lemma MergeRefResolves(number: string, tail: string, prHead: string -> string)
    requires '/' !in number && !IsNaN(number)
    requires tail == "" || (tail[0] == '/' && '/' !in tail[1..])
    ensures CalculateRef(number + "/merge" + tail, prHead) == prHead(number)
  {
    MergeRefPieces(number, tail);
    var parts := Split(number + "/merge" + tail, '/');
    assert parts[0] == number;
    assert parts[1] == "merge";
    assert |parts| == 2 || |parts| == 3;
    assert IsMergeRef(parts);
  }

  /** Conversely, a ref that calculateRef replaces has exactly that shape:
      a number, `/merge`, and at most one more `/`-free piece. */
  lemma MergeRefShape(ref: string)
    requires IsMergeRef(Split(ref, '/'))
    ensures var parts := Split(ref, '/');
      '/' !in parts[0] && !IsNaN(parts[0]) &&
      ref == parts[0] + "/merge" + (if |parts| == 3 then "/" + parts[2] else "")
  {
    var parts := Split(ref, '/');
    JoinSplit(ref, '/');
    MergePiecesJoin(parts);
  }

  /** Joining a number, `merge` and an optional third piece with `/`. */
  lemma MergePiecesJoin(parts: seq<string>)
    requires (|parts| == 2 || |parts| == 3) && parts[1] == "merge"
    ensures Join(parts, '/') == parts[0] + "/merge" + (if |parts| == 3 then "/" + parts[2] else "")
  {
    if |parts| == 2 {
      JoinTwo(parts, '/');
      assert parts[0] + ['/'] + parts[1] == parts[0] + "/merge" + "";
    } else {
      JoinThree(parts, '/');
      assert parts[0] + ['/'] + parts[1] + ['/'] + parts[2] == parts[0] + "/merge" + ("/" + parts[2]);
    }
  }

  /** A ref with no `/`, or with more than two, is never replaced: a plain
      branch name stays as it is, and so does `refs/pull/<n>/merge`. */
  lemma OtherRefsUnchanged(ref: string, prHead: string -> string)
    requires CountOf(ref, '/') == 0 || CountOf(ref, '/') > 2
    ensures CalculateRef(ref, prHead) == ref
  {
    SplitLength(ref, '/');
  }

  /** Because `isNaN('')` is false, `/merge` is taken for a merge ref and
      pull request `''` is looked up. */
  lemma EmptyNumberIsLookedUp(prHead: string -> string)
    ensures CalculateRef("/merge", prHead) == prHead("")
  {
    BlankIsNumber("");
    MergeRefResolves("", "", prHead);
    assert "" + "/merge" + "" == "/merge";
  }

  // ----------------------------------------------------------- getBaseHead

  /** getBaseHead: the `base...head` range for `ref`. */
  function BaseHead(defaultBranch: string, tags: seq<Tag>, commits: seq<Commit>,
                    ref: string, prHead: string -> string): string
  {
    var lastTag := LastTag(tags);
    var reference := CalculateRef(ref, prHead);
    if reference == defaultBranch then
      (if lastTag == "" then FirstCommit(commits) else lastTag) + "..." + defaultBranch
    else
      defaultBranch + "..." + reference
  }

  /** On the default branch with a tag: everything since that tag. */
  lemma SinceLastTag(defaultBranch: string, tags: seq<Tag>, commits: seq<Commit>,
                     ref: string, prHead: string -> string)
    requires CalculateRef(ref, prHead) == defaultBranch
    requires tags != [] && tags[0].name != ""
    ensures BaseHead(defaultBranch, tags, commits, ref, prHead) == tags[0].name + "..." + defaultBranch
  {
  }

  /** On the default branch with no tag: everything since the earliest commit. */
  lemma SinceFirstCommit(defaultBranch: string, tags: seq<Tag>, commits: seq<Commit>,
                         ref: string, prHead: string -> string)
    requires CalculateRef(ref, prHead) == defaultBranch
    requires LastTag(tags) == ""
    requires commits != []
    ensures var k := EarliestIndex(commits);
      BaseHead(defaultBranch, tags, commits, ref, prHead) == commits[k].sha + "..." + defaultBranch &&
      forall j :: 0 <= j < |commits| ==> commits[k].date <= commits[j].date
  {
    FirstCommitIsEarliest(commits);
  }

  /** With neither tags nor commits the range has an empty base. */
  lemma NoHistory(defaultBranch: string, ref: string, prHead: string -> string)
    requires CalculateRef(ref, prHead) == defaultBranch
    ensures BaseHead(defaultBranch, [], [], ref, prHead) == "..." + defaultBranch
  {
  }

  /** A branch that is not a merge ref and not the default one is compared
      with the default branch, whatever the tags and commits are. */
  lemma FeatureBranch(defaultBranch: string, tags: seq<Tag>, commits: seq<Commit>,
                      ref: string, prHead: string -> string)
    requires !IsMergeRef(Split(ref, '/')) && ref != defaultBranch
    ensures BaseHead(defaultBranch, tags, commits, ref, prHead) == defaultBranch + "..." + ref
  {
  }

  /** A namespaced branch such as `feature/x` or `release/1.0`, whose
      first piece opens with a letter other than `I`, is never taken for a
      merge ref. (`Infinity/merge` is one, since `isNaN('Infinity')` is
      false.) */
  lemma NamespacedBranch(prefix: string, name: string, prHead: string -> string)
    requires prefix != [] && '/' !in prefix
    requires !IsStrWhiteSpaceChar(prefix[0]) && !IsSign(prefix[0]) && !IsDecimalDigit(prefix[0])
    requires prefix[0] != '.' && prefix[0] != 'I'
    ensures !IsMergeRef(Split(prefix + "/" + name, '/'))
    ensures CalculateRef(prefix + "/" + name, prHead) == prefix + "/" + name
  {
    SplitAtFirst(prefix, name, '/');
    assert prefix + "/" + name == prefix + ['/'] + name;
    WordsAreNaN(prefix);
  }

  /** A pull request, named by `<number>/merge` or `<number>/merge/<name>`,
      is compared from the default branch to its head SHA, unless that SHA
      is spelled like the default branch, in which case it is taken for the
      default branch itself. */
  lemma PullRequest(defaultBranch: string, tags: seq<Tag>, commits: seq<Commit>,
                    number: string, tail: string, prHead: string -> string)
    requires '/' !in number && !IsNaN(number)
    requires tail == "" || (tail[0] == '/' && '/' !in tail[1..])
    ensures var sha := prHead(number);
      BaseHead(defaultBranch, tags, commits, number + "/merge" + tail, prHead) ==
      if sha == defaultBranch then
        (if LastTag(tags) == "" then FirstCommit(commits) else LastTag(tags)) + "..." + defaultBranch
      else defaultBranch + "..." + sha
  {
    MergeRefResolves(number, tail, prHead);
  }

  /** getBaseHead (index.js:108-129), which sorts the commit listing only
      when it needs the first commit. */
  method GetBaseHead(defaultBranch: string, tags: seq<Tag>, commits: seq<Commit>,
                     ref: string, prHead: string -> string) returns (basehead: string)
    ensures basehead == BaseHead(defaultBranch, tags, commits, ref, prHead)
  {
    var lastTag := LastTag(tags);
    var reference := CalculateRef(ref, prHead);
    if reference == defaultBranch {
      if lastTag == "" {
        var data := new Commit[|commits|](i requires 0 <= i < |commits| => commits[i]);
        assert data[..] == commits;
        var firstCommit := GetFirstCommit(data);
        return firstCommit + "..." + defaultBranch;
      }
      return lastTag + "..." + defaultBranch;
    }
    return defaultBranch + "..." + reference;
  }
}
