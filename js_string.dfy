/** The `String.prototype` operations the action relies on (`split`,
    `substr`, and `join` as the inverse of `split`), over `seq<char>`. */
module JsString {
  import opened JsArray

  /** `s.substr(start, length)` for a start inside `s`: a negative length
      counts as zero and a length running past the end stops at the end. */
  function Substr(s: string, start: nat, length: int): (r: string)
    requires start <= |s|
    ensures |r| <= |s| - start
    ensures r == s[start..start + |r|]
    ensures length <= 0 ==> r == ""
    ensures 0 <= length <= |s| - start ==> |r| == length
    ensures length > |s| - start ==> r == s[start..]
  {
    var n := if length < 0 then 0 else if length > |s| - start then |s| - start else length;
    s[start..start + n]
  }

  /** The number of occurrences of `c` in `s`. */
  function CountOf(s: string, c: char): (n: nat)
    ensures n == 0 <==> c !in s
    ensures n <= |s|
  {
    if s == [] then 0 else (if s[0] == c then 1 else 0) + CountOf(s[1..], c)
  }

  /** `s.split(sep)` for a one-character separator: the pieces between
      consecutive separators, empty pieces included, never an empty list. */
  function Split(s: string, sep: char): (parts: seq<string>)
    ensures |parts| >= 1
    ensures forall i :: 0 <= i < |parts| ==> sep !in parts[i]
    decreases |s|
  {
    var k := IndexOf(s, sep);
    if k < 0 then [s] else [s[..k]] + Split(s[k + 1..], sep)
  }

  /** `parts.join(sep)`. */
  function Join(parts: seq<string>, sep: char): string
    decreases |parts|
  {
    if parts == [] then ""
    else if |parts| == 1 then parts[0]
    else parts[0] + [sep] + Join(parts[1..], sep)
  }

  lemma {:induction false} CountOfAppend(a: string, b: string, c: char)
    ensures CountOf(a + b, c) == CountOf(a, c) + CountOf(b, c)
    decreases |a|
  {
    if a != [] {
      assert (a + b)[0] == a[0];
      assert (a + b)[1..] == a[1..] + b;
      CountOfAppend(a[1..], b, c);
      assert CountOf(a + b, c) == (if a[0] == c then 1 else 0) + CountOf(a[1..] + b, c);
    } else {
      assert a + b == b;
    }
  }

  /** Splitting a string whose first separator follows `a`. */
  lemma SplitAtFirst(a: string, b: string, sep: char)
    requires sep !in a
    ensures Split(a + [sep] + b, sep) == [a] + Split(b, sep)
  {
    var s := a + [sep] + b;
    var k := IndexOf(s, sep);
    assert s[|a|] == sep;
    assert forall i :: 0 <= i < |a| ==> s[i] == a[i];
    assert k == |a|;
    assert s[..k] == a && s[k + 1..] == b;
  }

  /** One more piece than separators. */
  lemma {:induction false} SplitLength(s: string, sep: char)
    ensures |Split(s, sep)| == CountOf(s, sep) + 1
    decreases |s|
  {
    var k := IndexOf(s, sep);
    if k >= 0 {
      var a, b := s[..k], s[k + 1..];
      assert s == a + [sep] + b;
      SplitLength(b, sep);
      CountOfAppend(a + [sep], b, sep);
      CountOfAppend(a, [sep], sep);
    }
  }

  /** Joining the pieces with the separator gives the string back. */
  lemma {:induction false} JoinSplit(s: string, sep: char)
    ensures Join(Split(s, sep), sep) == s
    decreases |s|
  {
    var k := IndexOf(s, sep);
    if k >= 0 {
      var a, b := s[..k], s[k + 1..];
      assert s == a + [sep] + b;
      JoinSplit(b, sep);
      var rest := Split(b, sep);
      assert Split(s, sep) == [a] + rest;
      assert ([a] + rest)[1..] == rest;
    }
  }

  /** Splitting a join of separator-free pieces gives the pieces back. */
  lemma {:induction false} SplitJoin(parts: seq<string>, sep: char)
    requires |parts| >= 1
    requires forall i :: 0 <= i < |parts| ==> sep !in parts[i]
    ensures Split(Join(parts, sep), sep) == parts
    decreases |parts|
  {
    if |parts| == 1 {
      assert IndexOf(parts[0], sep) == -1;
    } else {
      SplitJoin(parts[1..], sep);
      SplitAtFirst(parts[0], Join(parts[1..], sep), sep);
      assert [parts[0]] + parts[1..] == parts;
    }
  }

  /** A string without the separator is a single piece. */
  lemma SplitWithoutSeparator(s: string, sep: char)
    requires sep !in s
    ensures Split(s, sep) == [s]
  {
  }

  lemma JoinTwo(parts: seq<string>, sep: char)
    requires |parts| == 2
    ensures Join(parts, sep) == parts[0] + [sep] + parts[1]
  {
    assert Join(parts[1..], sep) == parts[1];
  }

  lemma JoinThree(parts: seq<string>, sep: char)
    requires |parts| == 3
    ensures Join(parts, sep) == parts[0] + [sep] + parts[1] + [sep] + parts[2]
  {
    JoinTwo(parts[1..], sep);
  }
}
