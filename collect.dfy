/** File-list preparation in src/main.rs: the `find` output split into lines,
    blank and empty entries and zero-size or unreadable files dropped with
    `retain`, then the optional sort by size and its reversal. File sizes come
    from a map standing for `std::fs::metadata`: a path missing from it is one
    whose metadata cannot be read. */
module Collect {

  // ---------------------------------------------------------------------------
  // Splitting the search output

  /** `str::split('\n')`: the pieces between separators, an empty piece for
      every separator at either end or next to another one. */
  function Split(s: string, sep: char): (parts: seq<string>)
    ensures |parts| >= 1
    ensures forall k :: 0 <= k < |parts| ==> sep !in parts[k]
    decreases |s|
  {
    if s == [] then [[]]
    else
      var rest := Split(s[1..], sep);
      if s[0] == sep then [[]] + rest
      else [[s[0]] + rest[0]] + rest[1..]
  }

  /** The pieces put back together with the separator. */
  function JoinWith(parts: seq<string>, sep: char): string
    requires |parts| >= 1
    decreases |parts|
  {
    if |parts| == 1 then parts[0] else parts[0] + [sep] + JoinWith(parts[1..], sep)
  }

  /** Splitting loses nothing: joining the pieces gives the text back. */
  lemma {:induction false} SplitJoin(s: string, sep: char)
    ensures JoinWith(Split(s, sep), sep) == s
    decreases |s|
  {
    if s != [] {
      var rest := Split(s[1..], sep);
      SplitJoin(s[1..], sep);
      if s[0] == sep {
        assert Split(s, sep)[1..] == rest;
      } else {
        var parts := Split(s, sep);
        if |rest| == 1 {
          assert parts == [[s[0]] + rest[0]];
        } else {
          assert parts[1..] == rest[1..];
          assert JoinWith(rest, sep) == rest[0] + [sep] + JoinWith(rest[1..], sep);
        }
      }
    }
  }

  // ---------------------------------------------------------------------------
  // The retain rules

  /** `char::is_whitespace`: the Unicode White_Space characters. */
  predicate IsWhitespace(c: char) {
    c == ' ' || ('\t' <= c <= '\r') || c == '\U{0085}' || c == '\U{00A0}' || c == '\U{1680}'
    || ('\U{2000}' <= c <= '\U{200A}') || c == '\U{2028}' || c == '\U{2029}' || c == '\U{202F}'
    || c == '\U{205F}' || c == '\U{3000}'
  }

  /** Among the ASCII characters the white space is space, tab, line feed,
      vertical tab, form feed and carriage return. */
  lemma AsciiWhitespace(c: char)
    requires c < '\U{0080}'
    ensures IsWhitespace(c) <==> c in " \t\n\U{000B}\U{000C}\r"
  {
  }

  /** Nothing but white space. */
  predicate IsBlank(x: string) {
    forall k :: 0 <= k < |x| ==> IsWhitespace(x[k])
  }

  /** `t` is the slice of `x` from `i` on, with only white space before and
      after it. */
  predicate TrimmedAt(x: string, t: string, i: nat) {
    i + |t| <= |x| && t == x[i..i + |t|] && IsBlank(x[..i]) && IsBlank(x[i + |t|..])
  }

  /** `str::trim`: the text without its leading and trailing white space.
      It is the slice of `x` between a blank prefix and a blank suffix, and it
      is empty exactly for a blank text, so `x.trim().is_empty()` is
      `IsBlank(x)`. */
  function Trim(x: string): (t: string)
    ensures |t| <= |x|
    ensures t != [] ==> !IsWhitespace(t[0]) && !IsWhitespace(t[|t| - 1])
    ensures t == [] <==> IsBlank(x)
    ensures exists i :: TrimmedAt(x, t, i)
    decreases |x|
  {
    if x == [] then
      TrimmedWhole(x);
      []
    else if IsWhitespace(x[0]) then
      var t := Trim(x[1..]);
      var i: nat :| TrimmedAt(x[1..], t, i);
      TrimmedFront(x, t, i);
      TrimmedEmpty(x, t, i + 1);
      t
    else if IsWhitespace(x[|x| - 1]) then
      var t := Trim(x[..|x| - 1]);
      var i: nat :| TrimmedAt(x[..|x| - 1], t, i);
      TrimmedBack(x, t, i);
      TrimmedEmpty(x, t, i);
      t
    else
      TrimmedWhole(x);
      x
  }

  lemma TrimmedWhole(x: string)
    ensures TrimmedAt(x, x, 0)
  {
    assert x[0..|x|] == x && x[..0] == [] && x[|x|..] == [];
  }

  /** Between blank ends, the trimmed text is empty exactly when the whole
      text is blank, once it starts with a character that is not white space. */
  lemma TrimmedEmpty(x: string, t: string, i: nat)
    requires TrimmedAt(x, t, i) && (t != [] ==> !IsWhitespace(t[0]))
    ensures t == [] <==> IsBlank(x)
  {
    if t == [] {
      assert x == x[..i] + x[i..];
      forall k | 0 <= k < |x|
        ensures IsWhitespace(x[k])
      {
        if k < i { assert x[k] == x[..i][k]; } else { assert x[k] == x[i..][k - i]; }
      }
    } else {
      assert x[i] == t[0];
    }
  }

  /** A leading white-space character joins the blank prefix. */
  lemma TrimmedFront(x: string, t: string, i: nat)
    requires x != [] && IsWhitespace(x[0]) && TrimmedAt(x[1..], t, i)
    ensures TrimmedAt(x, t, i + 1)
  {
    assert x[1..][i..i + |t|] == x[i + 1..i + 1 + |t|];
    assert x[..i + 1] == [x[0]] + x[1..][..i];
    assert x[1..][i + |t|..] == x[i + 1 + |t|..];
  }

  /** A trailing white-space character joins the blank suffix. */
  lemma TrimmedBack(x: string, t: string, i: nat)
    requires x != [] && IsWhitespace(x[|x| - 1]) && TrimmedAt(x[..|x| - 1], t, i)
    ensures TrimmedAt(x, t, i)
  {
    var y := x[..|x| - 1];
    assert y[i..i + |t|] == x[i..i + |t|];
    assert y[..i] == x[..i];
    assert x[i + |t|..] == y[i + |t|..] + [x[|x| - 1]];
  }

  /** `std::fs::metadata(x).len()` in the sort comparator: the length the
      size map records; the comparator is only ever given listed files. */
  function Size(sizes: map<string, nat>, x: string): (n: nat)
    ensures x in sizes ==> n == sizes[x]
    ensures n != 0 ==> x in sizes
  {
    if x in sizes then sizes[x] else 0
  }

  /** The three `retain` predicates, and the one the list ends up filtered by. */
  datatype Rule = NonEmpty | NonBlank | Sized(sizes: map<string, nat>) | Eligible(sizes: map<string, nat>)

  /** The `retain` closures: a nonempty line; a line whose `trim` is
      nonempty; a line whose metadata can be read and gives a nonzero length;
      and the last two together. */
  function Keeps(r: Rule, x: string): (b: bool)
    ensures r.NonEmpty? ==> (b <==> x != [])
    ensures r.NonBlank? ==> (b <==> Trim(x) != [])
    ensures r.Sized? ==> (b <==> Size(r.sizes, x) != 0)
    ensures r.Eligible? ==> (b <==> Trim(x) != [] && Size(r.sizes, x) != 0)
  {
    match r
    case NonEmpty => x != []
    case NonBlank => !IsBlank(x)
    case Sized(sizes) => x in sizes && sizes[x] != 0
    case Eligible(sizes) => !IsBlank(x) && x in sizes && sizes[x] != 0
  }

  /** The entries of `xs` that `r` keeps, in their order. */
  function Filter(xs: seq<string>, r: Rule): (ys: seq<string>)
    ensures |ys| <= |xs|
    ensures forall k :: 0 <= k < |ys| ==> Keeps(r, ys[k])
    ensures forall x :: x in xs && Keeps(r, x) ==> x in ys
    ensures forall x :: x in ys ==> x in xs
    decreases |xs|
  {
    if xs == [] then []
    else if Keeps(r, xs[0]) then [xs[0]] + Filter(xs[1..], r)
    else Filter(xs[1..], r)
  }

  lemma {:induction false} FilterAppend(xs: seq<string>, x: string, r: Rule)
    ensures Filter(xs + [x], r) == Filter(xs, r) + (if Keeps(r, x) then [x] else [])
    decreases |xs|
  {
    if xs == [] {
      assert [x][1..] == [];
    } else {
      assert (xs + [x])[1..] == xs[1..] + [x];
      FilterAppend(xs[1..], x, r);
    }
  }

  /** Filtering one entry more of a list. */
  lemma FilterPrefix(xs: seq<string>, i: nat, r: Rule)
    requires i < |xs|
    ensures Filter(xs[..i + 1], r) == Filter(xs[..i], r) + (if Keeps(r, xs[i]) then [xs[i]] else [])
  {
    assert xs[..i + 1] == xs[..i] + [xs[i]];
    FilterAppend(xs[..i], xs[i], r);
  }

  /** Filtering by one rule and then another is filtering by a rule that
      keeps exactly what both keep. */
  lemma {:induction false} FilterTwice(xs: seq<string>, r1: Rule, r2: Rule, both: Rule)
    requires forall x :: Keeps(both, x) == (Keeps(r1, x) && Keeps(r2, x))
    ensures Filter(Filter(xs, r1), r2) == Filter(xs, both)
    decreases |xs|
  {
    if xs != [] {
      FilterTwice(xs[1..], r1, r2, both);
      if Keeps(r1, xs[0]) {
        assert Filter(xs, r1) == [xs[0]] + Filter(xs[1..], r1);
        assert ([xs[0]] + Filter(xs[1..], r1))[1..] == Filter(xs[1..], r1);
      }
    }
  }

  /** `a` is `b` with some entries left out, the rest in order. */
  predicate IsSubsequence(a: seq<string>, b: seq<string>)
    decreases |b|
  {
    if a == [] then true
    else if b == [] then false
    else if a[0] == b[0] then IsSubsequence(a[1..], b[1..])
    else IsSubsequence(a, b[1..])
  }

  lemma {:induction false} FilterIsSubsequence(xs: seq<string>, r: Rule)
    ensures IsSubsequence(Filter(xs, r), xs)
    decreases |xs|
  {
    if xs != [] {
      FilterIsSubsequence(xs[1..], r);
      if Keeps(r, xs[0]) {
        assert ([xs[0]] + Filter(xs[1..], r))[1..] == Filter(xs[1..], r);
      }
    }
  }

  /** `files.retain(rule)`. */
  method Retain(files: seq<string>, r: Rule) returns (kept: seq<string>)
    ensures kept == Filter(files, r)
  {
    kept := [];
    var i := 0;
    while i < |files|
      invariant 0 <= i <= |files|
      invariant kept == Filter(files[..i], r)
    {
      FilterPrefix(files, i, r);
      if Keeps(r, files[i]) {
        kept := kept + [files[i]];
      }
      i := i + 1;
    }
    assert files[..i] == files;
  }

  // ---------------------------------------------------------------------------
  // Ordering by size

  predicate SortedBySize(xs: seq<string>, sizes: map<string, nat>) {
    forall i, j :: 0 <= i < j < |xs| ==> Size(sizes, xs[i]) <= Size(sizes, xs[j])
  }

  predicate ReverseSortedBySize(xs: seq<string>, sizes: map<string, nat>) {
    forall i, j :: 0 <= i < j < |xs| ==> Size(sizes, xs[i]) >= Size(sizes, xs[j])
  }

  /** `files.sort_by(|a, b| size(a).cmp(&size(b)))`, as an insertion sort
      that places each entry after every entry no larger than it. */
  method SortBySize(files: seq<string>, sizes: map<string, nat>) returns (sorted: seq<string>)
    requires forall k :: 0 <= k < |files| ==> files[k] in sizes
    ensures SortedBySize(sorted, sizes)
    ensures multiset(sorted) == multiset(files)
  {
    sorted := [];
    var i := 0;
    while i < |files|
      invariant 0 <= i <= |files|
      invariant SortedBySize(sorted, sizes)
      invariant multiset(sorted) == multiset(files[..i])
    {
      var x := files[i];
      var k := InsertionPoint(sorted, x, sizes);
      InsertKeepsSorted(sorted, k, x, sizes);
      InsertMultiset(sorted, k, x);
      assert files[..i + 1] == files[..i] + [x];
      sorted := sorted[..k] + [x] + sorted[k..];
      i := i + 1;
    }
    assert files[..i] == files;
  }

  /** The first position whose entry is larger than `x`. */
  method InsertionPoint(sorted: seq<string>, x: string, sizes: map<string, nat>) returns (k: nat)
    ensures k <= |sorted|
    ensures forall j :: 0 <= j < k ==> Size(sizes, sorted[j]) <= Size(sizes, x)
    ensures k < |sorted| ==> Size(sizes, x) < Size(sizes, sorted[k])
  {
    k := 0;
    while k < |sorted| && Size(sizes, sorted[k]) <= Size(sizes, x)
      invariant 0 <= k <= |sorted|
      invariant forall j :: 0 <= j < k ==> Size(sizes, sorted[j]) <= Size(sizes, x)
    {
      k := k + 1;
    }
  }

  lemma InsertMultiset(s: seq<string>, k: nat, x: string)
    requires k <= |s|
    ensures multiset(s[..k] + [x] + s[k..]) == multiset(s) + multiset{x}
  {
    assert s == s[..k] + s[k..];
  }

  lemma InsertKeepsSorted(s: seq<string>, k: nat, x: string, sizes: map<string, nat>)
    requires k <= |s| && SortedBySize(s, sizes)
    requires forall j :: 0 <= j < k ==> Size(sizes, s[j]) <= Size(sizes, x)
    requires k < |s| ==> Size(sizes, x) < Size(sizes, s[k])
    ensures SortedBySize(s[..k] + [x] + s[k..], sizes)
  {
    var t := s[..k] + [x] + s[k..];
    forall i, j | 0 <= i < j < |t|
      ensures Size(sizes, t[i]) <= Size(sizes, t[j])
    {
      if j < k {
        assert t[i] == s[i] && t[j] == s[j];
      } else if j == k {
        assert t[j] == x && t[i] == s[i];
      } else if i == k {
        assert t[i] == x && t[j] == s[j - 1];
        assert Size(sizes, s[k]) <= Size(sizes, s[j - 1]);
      } else if i < k {
        assert t[i] == s[i] && t[j] == s[j - 1];
      } else {
        assert t[i] == s[i - 1] && t[j] == s[j - 1];
      }
    }
  }

  /** `files.reverse()`. */
  method Reverse(files: seq<string>) returns (reversed: seq<string>)
    ensures |reversed| == |files|
    ensures forall k :: 0 <= k < |files| ==> reversed[k] == files[|files| - 1 - k]
  {
    reversed := [];
    var i := |files|;
    while i > 0
      invariant 0 <= i <= |files|
      invariant |reversed| == |files| - i
      invariant forall k :: 0 <= k < |reversed| ==> reversed[k] == files[|files| - 1 - k]
    {
      i := i - 1;
      reversed := reversed + [files[i]];
    }
  }

  lemma ReverseMultiset(xs: seq<string>, ys: seq<string>)
    requires |ys| == |xs|
    requires forall k :: 0 <= k < |xs| ==> ys[k] == xs[|xs| - 1 - k]
    ensures multiset(ys) == multiset(xs)
    decreases |xs|
  {
    if xs != [] {
      var n := |xs|;
      ReverseMultiset(xs[1..], ys[..n - 1]);
      assert ys == ys[..n - 1] + [ys[n - 1]];
      assert xs == [xs[0]] + xs[1..];
    }
  }

  // ---------------------------------------------------------------------------
  // The whole preparation

  /** Where the list comes from: `--set` paths, or the output of `find`. */
  datatype Source = Explicit(paths: seq<string>) | Search(output: string)

  /** "no files found!" and an early return, or the list to process. */
  datatype Collected = NoFiles | Found(files: seq<string>)

  /** The candidate entries before any filtering. */
  function Lines(src: Source): seq<string> {
    match src
    case Explicit(paths) => paths
    case Search(output) => Split(output, '\n')
  }

  /** The list not yet checked for emptiness: `--set` as it is, the search
      output without its empty lines. */
  function Candidates(src: Source): seq<string> {
    match src
    case Explicit(paths) => paths
    case Search(output) => Filter(Split(output, '\n'), NonEmpty)
  }

  /** The file list the run processes. */
  method PrepareFiles(src: Source, sizes: map<string, nat>, sort: bool, reverse: bool) returns (c: Collected)
    ensures c == NoFiles <==> Candidates(src) == []
    ensures c.Found? ==> forall k :: 0 <= k < |c.files| ==> c.files[k] != [] && !IsBlank(c.files[k])
    ensures c.Found? ==> forall k :: 0 <= k < |c.files| ==> c.files[k] in sizes && sizes[c.files[k]] != 0
    ensures c.Found? && !sort ==> c.files == Filter(Lines(src), Eligible(sizes))
    ensures c.Found? && sort ==> multiset(c.files) == multiset(Filter(Lines(src), Eligible(sizes)))
    ensures c.Found? && sort && !reverse ==> SortedBySize(c.files, sizes)
    ensures c.Found? && sort && reverse ==> ReverseSortedBySize(c.files, sizes)
  {
    var files := Gather(src);
    if files == [] {
      return NoFiles;
    }
    files := Retain(files, NonBlank);
    files := Retain(files, Sized(sizes));
    EligibleFilter(src, sizes);
    ghost var eligible := files;
    assert forall k :: 0 <= k < |eligible| ==> Keeps(Eligible(sizes), eligible[k]);
    files := Order(files, sizes, sort, reverse);
    assert forall k :: 0 <= k < |files| ==> files[k] in multiset(eligible);
    c := Found(files);
  }

  /** The list before the `retain` passes that follow the emptiness check. */
  method Gather(src: Source) returns (files: seq<string>)
    ensures files == Candidates(src)
  {
    match src {
      case Explicit(paths) =>
        files := paths;
      case Search(output) =>
        var lines := Split(output, '\n');
        files := Retain(lines, NonEmpty);
    }
  }

  /** The optional sort by size, reversed on request; without the sort the
      order is untouched. */
  method Order(files: seq<string>, sizes: map<string, nat>, sort: bool, reverse: bool) returns (ordered: seq<string>)
    requires forall k :: 0 <= k < |files| ==> files[k] in sizes
    ensures multiset(ordered) == multiset(files)
    ensures !sort ==> ordered == files
    ensures sort && !reverse ==> SortedBySize(ordered, sizes)
    ensures sort && reverse ==> ReverseSortedBySize(ordered, sizes)
  {
    ordered := files;
    if sort {
      var sorted := SortBySize(files, sizes);
      if reverse {
        var reversed := Reverse(sorted);
        ReverseMultiset(sorted, reversed);
        ordered := reversed;
      } else {
        ordered := sorted;
      }
    }
  }

  /** The three `retain` passes keep exactly the eligible lines. */
  lemma EligibleFilter(src: Source, sizes: map<string, nat>)
    ensures Filter(Filter(Candidates(src), NonBlank), Sized(sizes)) == Filter(Lines(src), Eligible(sizes))
  {
    var lines := Lines(src);
    FilterBlankThenSized(Candidates(src), sizes);
    if src.Search? {
      FilterTwice(lines, NonEmpty, Eligible(sizes), Eligible(sizes));
    }
  }

  lemma FilterBlankThenSized(xs: seq<string>, sizes: map<string, nat>)
    ensures Filter(Filter(xs, NonBlank), Sized(sizes)) == Filter(xs, Eligible(sizes))
  {
    FilterTwice(xs, NonBlank, Sized(sizes), Eligible(sizes));
  }

  /** Without sorting the list keeps the order of the search output. */
  lemma UnsortedIsSubsequence(src: Source, sizes: map<string, nat>)
    ensures IsSubsequence(Filter(Lines(src), Eligible(sizes)), Lines(src))
  {
    FilterIsSubsequence(Lines(src), Eligible(sizes));
  }

  /** A blank line in the search output never reaches the list. */
  lemma BlankNeverKept(xs: seq<string>, sizes: map<string, nat>, x: string)
    requires IsBlank(x)
    ensures x !in Filter(xs, Eligible(sizes))
  {
  }
}
