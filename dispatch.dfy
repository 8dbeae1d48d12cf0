/** The per-file job set-up in src/main.rs: the scratch file name each job
    writes to, and the rule that picks the worker-pool size. */
module Dispatch {
  import opened Wrappers
  import opened Numerals
  import opened Encoder

  /** `i.to_string() + "." + file.split('.').last()`: the scratch name of the
      file at position `i` of the list. */
  function ScratchName(i: nat, file: string): (name: string)
    ensures |name| > 0 && IsDigit(name[0]) && name[0] != '/'
  {
    Decimal(i) + "." + LastSegment(file)
  }

  /** The position a scratch name was made from: the number before its dot. */
  function ScratchIndex(name: string): Option<nat> {
    var k := DigitSpan(name);
    if k == 0 || k == |name| || name[k] != '.' then None else Some(Value(name[..k]))
  }

  /** A scratch name gives back the position it was made from. */
  lemma ScratchIndexOfName(i: nat, file: string)
    ensures ScratchIndex(ScratchName(i, file)) == Some(i)
  {
    DecimalThen(i, '.', LastSegment(file));
    assert 0 < |Decimal(i)| < |ScratchName(i, file)|;
  }

  /** Different positions never share a scratch name, whatever the extensions. */
  lemma ScratchNameInjective(i: nat, j: nat, f: string, g: string)
    requires ScratchName(i, f) == ScratchName(j, g)
    ensures i == j
  {
    ScratchIndexOfName(i, f);
    ScratchIndexOfName(j, g);
  }

  /** The scratch file keeps the extension of its source, so the encoder picks
      the same container for it. */
  lemma ScratchNameKeepsExtension(i: nat, file: string)
    ensures LastSegment(ScratchName(i, file)) == LastSegment(file)
  {
    LastSegmentAfterDot(Decimal(i), LastSegment(file));
  }

  /** `tmp.path().join(name)`: the scratch path of position `i`. */
  function ScratchPath(dir: string, i: nat, file: string): (p: string)
    ensures dir == [] ==> p == ScratchName(i, file)
    ensures dir != [] ==>
              |p| >= |dir| + |ScratchName(i, file)| && |p| > |ScratchName(i, file)| && p[..|dir|] == dir && p[|p| - |ScratchName(i, file)|..] == ScratchName(i, file)
              && p[|p| - |ScratchName(i, file)| - 1] == '/'
    ensures dir != [] ==> |p| == |dir| + |ScratchName(i, file)| + (if dir[|dir| - 1] == '/' then 0 else 1)
  {
    var name := ScratchName(i, file);
    assert !(|name| > 0 && name[0] == '/');
    Join(dir, name)
  }

  /** Paths under one scratch directory differ when their positions do. */
  lemma ScratchPathInjective(dir: string, i: nat, j: nat, f: string, g: string)
    requires ScratchPath(dir, i, f) == ScratchPath(dir, j, g)
    ensures i == j
  {
    var a, b := ScratchName(i, f), ScratchName(j, g);
    var p := if dir == [] || dir[|dir| - 1] == '/' then dir else dir + "/";
    assert ScratchPath(dir, i, f) == p + a && ScratchPath(dir, j, g) == p + b;
    assert a == (p + a)[|p|..] && b == (p + b)[|p|..];
    ScratchNameInjective(i, j, f, g);
  }

  /** The jobs over one file list write to pairwise distinct scratch paths. */
  lemma ScratchPathsDisjoint(dir: string, files: seq<string>)
    ensures forall i, j :: 0 <= i < |files| && 0 <= j < |files| && i != j ==>
              ScratchPath(dir, i, files[i]) != ScratchPath(dir, j, files[j])
  {
    forall i, j | 0 <= i < |files| && 0 <= j < |files| && ScratchPath(dir, i, files[i]) == ScratchPath(dir, j, files[j])
      ensures i == j
    {
      ScratchPathInjective(dir, i, j, files[i], files[j]);
    }
  }

  /** `num_threads(usize::from(threads == 0 && !images))`: the pool gets one
      thread exactly when the thread count is 0 outside image mode, and
      otherwise 0, which the pool reads as "use all cores". */
  function ThreadCount(threads: nat, images: bool): (n: nat)
    ensures n <= 1
    ensures n == 1 <==> threads == 0 && !images
  {
    if threads == 0 && !images then 1 else 0
  }

  /** A requested thread count other than 0 never reaches the pool, and image
      mode never runs on a single thread. */
  lemma ThreadCountIgnoresRequest(threads: nat, images: bool)
    requires threads != 0 || images
    ensures ThreadCount(threads, images) == 0
  {
  }

  /** The rule the thread option describes: the pool gets the requested
      count, 0 standing for all cores, in either mode. */
  function RequestedThreads(threads: nat, images: bool): (n: nat)
    ensures threads == 0 ==> n == 0
  {
    threads
  }

  /** The described rule honours every request, independently of the mode,
      and differs from the code's rule exactly on a nonzero request or
      outside image mode. */
  lemma ThreadRequestHonoured(threads: nat, images: bool)
    ensures RequestedThreads(threads, images) == RequestedThreads(threads, !images)
    ensures RequestedThreads(threads, images) == threads
    ensures RequestedThreads(threads, images) != ThreadCount(threads, images) <==> threads != 0 || !images
  {
  }
}
