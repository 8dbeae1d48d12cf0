/** Per-file result handling in src/main.rs: each job's outcome, the size
    comparison, the shared counters `saved_size` and `total_size` with the
    `processed` list, the moves that replace improved originals, and the
    summary figures printed at the end. The workers run in parallel and
    finish in any order; here their outcomes arrive one at a time, in an
    order given as a sequence, and the lemmas hold for every order. */
module Aggregate {
  import opened Wrappers
  import Arith
  import opened Encoder
  import opened Dispatch

  /** One row of `processed`: the file, its original size and its new size. */
  datatype Entry = Entry(file: string, before: nat, after: nat)

  /** What one job produced: `decoreco` failed with a message, or it succeeded
      and `stat` gave the original and the scratch file's sizes. */
  datatype Outcome = Failed(file: string, reason: string) | Transcoded(file: string, before: nat, after: nat)

  /** The job for position `i`: run the command, then read both sizes. */
  function RunJob(mode: Mode, dir: string, i: nat, file: string, exit: Exit, beforeSize: nat, afterSize: nat): (o: Outcome)
    ensures o.file == file
    ensures o.Failed? <==> Decoreco(mode, dir, ScratchName(i, file), file, exit).Err?
    ensures o.Transcoded? ==> o.before == beforeSize && o.after == afterSize
    ensures o.Failed? ==> o.reason == Decoreco(mode, dir, ScratchName(i, file), file, exit).error
  {
    match Decoreco(mode, dir, ScratchName(i, file), file, exit)
    case Err(e) => Failed(file, e)
    case Ok(_) => Transcoded(file, beforeSize, afterSize)
  }

  /** The re-encoded file is strictly smaller: the only case that changes
      the counters. */
  function Improved(o: Outcome): (b: bool)
    ensures b ==> o.Transcoded? && o.before >= 1 && o.before - o.after >= 1
    ensures o.Transcoded? && o.after < o.before ==> b
  {
    o.Transcoded? && o.after < o.before
  }

  /** The counters and the list, as the mutexes hold them. */
  datatype Summary = Summary(saved: nat, total: nat, processed: seq<Entry>)

  const Empty := Summary(0, 0, [])

  /** Handling one outcome: an improved file adds what it saved to `saved`,
      its original size to `total`, and its row to `processed`. */
  function Step(s: Summary, o: Outcome): (r: Summary)
    ensures r.saved >= s.saved && r.total >= s.total
    ensures Improved(o) <==> r != s
    ensures Improved(o) ==> r.saved == s.saved + (o.before - o.after) && r.total == s.total + o.before
                            && r.processed == s.processed + [Entry(o.file, o.before, o.after)]
  {
    if Improved(o) then
      assert |s.processed + [Entry(o.file, o.before, o.after)]| != |s.processed|;
      Summary(s.saved + (o.before - o.after), s.total + o.before, s.processed + [Entry(o.file, o.before, o.after)])
    else s
  }

  /** The outcomes handled in the order they are listed. */
  function Fold(s: Summary, os: seq<Outcome>): (r: Summary)
    ensures r.saved >= s.saved && r.total >= s.total
    ensures |s.processed| <= |r.processed| <= |s.processed| + |os|
    ensures r.processed[..|s.processed|] == s.processed
    decreases |os|
  {
    if os == [] then s else Step(Fold(s, os[..|os| - 1]), os[|os| - 1])
  }

  function SumSaved(es: seq<Entry>): int
    decreases |es|
  {
    if es == [] then 0 else SumSaved(es[..|es| - 1]) + (es[|es| - 1].before - es[|es| - 1].after)
  }

  function SumBefore(es: seq<Entry>): nat
    decreases |es|
  {
    if es == [] then 0 else SumBefore(es[..|es| - 1]) + es[|es| - 1].before
  }

  function SumAfter(es: seq<Entry>): nat
    decreases |es|
  {
    if es == [] then 0 else SumAfter(es[..|es| - 1]) + es[|es| - 1].after
  }

  predicate AllShrunk(es: seq<Entry>) {
    forall k :: 0 <= k < |es| ==> es[k].after < es[k].before
  }

  /** What the counters mean: `saved` and `total` are the sums over
      `processed`, every row of which shrank. */
  predicate Consistent(s: Summary) {
    s.saved == SumSaved(s.processed) && s.total == SumBefore(s.processed) && AllShrunk(s.processed)
  }

  lemma StepConsistent(s: Summary, o: Outcome)
    requires Consistent(s)
    ensures Consistent(Step(s, o))
  {
    if Improved(o) {
      var es := s.processed + [Entry(o.file, o.before, o.after)];
      assert es[..|es| - 1] == s.processed;
    }
  }

  /** Every order of handling keeps the counters consistent with the list. */
  lemma {:induction false} FoldConsistent(s: Summary, os: seq<Outcome>)
    requires Consistent(s)
    ensures Consistent(Fold(s, os))
    ensures Fold(s, os).saved >= s.saved && Fold(s, os).total >= s.total
    ensures |Fold(s, os).processed| <= |s.processed| + |os|
    decreases |os|
  {
    if os != [] {
      FoldConsistent(s, os[..|os| - 1]);
      StepConsistent(Fold(s, os[..|os| - 1]), os[|os| - 1]);
    }
  }

  /** Saved bytes never exceed the original bytes of the improved files;
      the difference is what the improved files take now, and nothing was
      saved exactly when no file improved. */
  lemma {:induction false} SavedWithinTotal(es: seq<Entry>)
    requires AllShrunk(es)
    ensures 0 <= SumSaved(es) <= SumBefore(es)
    ensures SumBefore(es) - SumSaved(es) == SumAfter(es)
    ensures SumSaved(es) == 0 <==> es == []
    ensures SumSaved(es) >= |es|
    decreases |es|
  {
    if es != [] {
      SavedWithinTotal(es[..|es| - 1]);
    }
  }

  // ---------------------------------------------------------------------------
  // Independence from the completion order

  /** The rows the improved outcomes contribute, in order. */
  function Rows(os: seq<Outcome>): seq<Entry>
    decreases |os|
  {
    if os == [] then []
    else
      var o := os[|os| - 1];
      Rows(os[..|os| - 1]) + (if Improved(o) then [Entry(o.file, o.before, o.after)] else [])
  }

  /** Handling a list of outcomes from nothing gives exactly the rows of the
      improved ones and their sums. */
  lemma {:induction false} FoldFromEmpty(os: seq<Outcome>)
    ensures Fold(Empty, os).processed == Rows(os)
    ensures Fold(Empty, os).saved == SumSaved(Rows(os)) && Fold(Empty, os).total == SumBefore(Rows(os))
    decreases |os|
  {
    if os != [] {
      var init := os[..|os| - 1];
      FoldFromEmpty(init);
      var o := os[|os| - 1];
      if Improved(o) {
        var es := Rows(init) + [Entry(o.file, o.before, o.after)];
        assert es[..|es| - 1] == Rows(init);
      } else {
        assert Rows(os) == Rows(init);
      }
    }
  }

  lemma {:induction false} RowsAppend(a: seq<Outcome>, b: seq<Outcome>)
    ensures Rows(a + b) == Rows(a) + Rows(b)
    decreases |b|
  {
    if b == [] {
      assert a + b == a;
    } else {
      assert (a + b)[..|a + b| - 1] == a + b[..|b| - 1];
      RowsAppend(a, b[..|b| - 1]);
    }
  }

  lemma {:induction false} SumsAppend(a: seq<Entry>, b: seq<Entry>)
    ensures SumSaved(a + b) == SumSaved(a) + SumSaved(b)
    ensures SumBefore(a + b) == SumBefore(a) + SumBefore(b)
    decreases |b|
  {
    if b == [] {
      assert a + b == a;
    } else {
      assert (a + b)[..|a + b| - 1] == a + b[..|b| - 1];
      SumsAppend(a, b[..|b| - 1]);
    }
  }

  /** Taking one outcome out of the middle of the list. */
  lemma RowsWithout(os: seq<Outcome>, k: nat)
    requires k < |os|
    ensures multiset(Rows(os)) == multiset(Rows(os[..k] + os[k + 1..])) + multiset(Rows([os[k]]))
  {
    var a, x, b := os[..k], [os[k]], os[k + 1..];
    SplitAt(os, k);
    RowsAppend(a + x, b);
    RowsAppend(a, x);
    RowsAppend(a, b);
    assert multiset(Rows(os)) == multiset(Rows(a)) + multiset(Rows(x)) + multiset(Rows(b));
  }

  lemma SumsWithout(es: seq<Entry>, k: nat)
    requires k < |es|
    ensures SumSaved(es) == SumSaved(es[..k] + es[k + 1..]) + (es[k].before - es[k].after)
    ensures SumBefore(es) == SumBefore(es[..k] + es[k + 1..]) + es[k].before
  {
    var a, x, b := es[..k], [es[k]], es[k + 1..];
    var ax := a + x;
    SplitAt(es, k);
    SumsAppend(ax, b);
    SumsAppend(a, x);
    SumsAppend(a, b);
    SumsSingle(es[k]);
  }

  lemma SplitAt<T>(s: seq<T>, k: nat)
    requires k < |s|
    ensures s == s[..k] + [s[k]] + s[k + 1..]
  {
  }

  lemma SumsSingle(e: Entry)
    ensures SumSaved([e]) == e.before - e.after && SumBefore([e]) == e.before
  {
    assert [e][..0] == [];
  }

  lemma IndexOf<T>(xs: seq<T>, x: T) returns (k: nat)
    requires x in multiset(xs)
    ensures k < |xs| && xs[k] == x
    ensures multiset(xs[..k] + xs[k + 1..]) == multiset(xs) - multiset{x}
  {
    assert x in xs;
    k :| 0 <= k < |xs| && xs[k] == x;
    assert xs == xs[..k] + [x] + xs[k + 1..];
  }

  /** Outcomes that are a reordering of each other contribute the same rows. */
  lemma {:induction false} RowsPermutation(os1: seq<Outcome>, os2: seq<Outcome>)
    requires multiset(os1) == multiset(os2)
    ensures multiset(Rows(os1)) == multiset(Rows(os2))
    decreases |os1|
  {
    if os1 != [] {
      var n := |os1|;
      var o := os1[n - 1];
      assert os1 == os1[..n - 1] + [o];
      var k := IndexOf(os2, o);
      var rest := os2[..k] + os2[k + 1..];
      RowsPermutation(os1[..n - 1], rest);
      RowsWithout(os2, k);
    } else {
      assert os2 == [];
    }
  }

  /** Rows that are a reordering of each other have the same sums. */
  lemma {:induction false} SumsPermutation(es1: seq<Entry>, es2: seq<Entry>)
    requires multiset(es1) == multiset(es2)
    ensures SumSaved(es1) == SumSaved(es2) && SumBefore(es1) == SumBefore(es2)
    decreases |es1|
  {
    if es1 != [] {
      var n := |es1|;
      var e := es1[n - 1];
      assert es1 == es1[..n - 1] + [e];
      var k := IndexOf(es2, e);
      SumsPermutation(es1[..n - 1], es2[..k] + es2[k + 1..]);
      SumsWithout(es2, k);
    } else {
      assert es2 == [];
    }
  }

  /** Whatever order the jobs finish in, the run saves the same bytes, counts
      the same total, and lists the same rows (possibly reordered). */
  lemma OrderIndependent(os1: seq<Outcome>, os2: seq<Outcome>)
    requires multiset(os1) == multiset(os2)
    ensures Fold(Empty, os1).saved == Fold(Empty, os2).saved
    ensures Fold(Empty, os1).total == Fold(Empty, os2).total
    ensures multiset(Fold(Empty, os1).processed) == multiset(Fold(Empty, os2).processed)
  {
    FoldFromEmpty(os1);
    FoldFromEmpty(os2);
    RowsPermutation(os1, os2);
    SumsPermutation(Rows(os1), Rows(os2));
  }

  /** A 10 MB file re-encoded to 6 MB saves 4 MB; one that grows from 2 MB to
      2.5 MB changes nothing. */
  lemma Scenarios(f: string, g: string)
    ensures Step(Empty, Transcoded(f, 10000000, 6000000)) == Summary(4000000, 10000000, [Entry(f, 10000000, 6000000)])
    ensures Step(Empty, Transcoded(g, 2000000, 2500000)) == Empty
  {
  }

  // ---------------------------------------------------------------------------
  // The shared state

  /** `saved_size`, `total_size` and `processed`, each behind its mutex. */
  class RunSummary {
    var saved: nat
    var total: nat
    var processed: seq<Entry>

    function State(): Summary
      reads this
    {
      Summary(saved, total, processed)
    }

    ghost predicate Valid()
      reads this
    {
      Consistent(State())
    }

    constructor ()
      ensures Valid() && State() == Empty
    {
      saved, total, processed := 0, 0, [];
    }

    /** The body of the job closure after its outcome is known. */
    method Record(o: Outcome)
      requires Valid()
      modifies this
      ensures Valid() && State() == Step(old(State()), o)
      ensures saved >= old(saved) && total >= old(total)
    {
      StepConsistent(State(), o);
      if Improved(o) {
        saved := saved + (o.before - o.after);
        total := total + o.before;
        processed := processed + [Entry(o.file, o.before, o.after)];
      }
    }

    /** All outcomes, in the order the jobs finished. */
    method RecordAll(os: seq<Outcome>)
      requires Valid()
      modifies this
      ensures Valid() && State() == Fold(old(State()), os)
    {
      var i := 0;
      while i < |os|
        invariant 0 <= i <= |os|
        invariant Valid() && State() == Fold(old(State()), os[..i])
      {
        assert os[..i + 1][..i] == os[..i];
        Record(os[i]);
        i := i + 1;
      }
      assert os[..i] == os;
    }
  }

  // ---------------------------------------------------------------------------
  // Replacing the originals

  datatype Action = Move(from: string, to: string) | Remove(path: string)

  /** Where the scratch file of an improved file goes: over the original, or
      in image mode next to it with `.jxl` appended. */
  function Target(mode: Mode, file: string): (t: string)
    ensures mode.Video? ==> t == file
    ensures mode.Images? ==> |t| == |file| + 4 && t[..|file|] == file && LastSegment(t) == "jxl"
  {
    if mode.Images? then
      LastSegmentAfterDot(file, "jxl");
      assert file + "." + "jxl" == file + ".jxl";
      file + ".jxl"
    else file
  }

  /** The commands run for one outcome: nothing on a dry run or when the file
      did not improve; otherwise the move, and in image mode the removal of
      the original. */
  function Finalize(mode: Mode, dryRun: bool, dir: string, i: nat, o: Outcome): (acts: seq<Action>)
    ensures dryRun || !Improved(o) ==> acts == []
    ensures !dryRun && Improved(o) ==> |acts| == (if mode.Images? then 2 else 1)
    ensures !dryRun && Improved(o) ==> acts[0] == Move(ScratchPath(dir, i, o.file), Target(mode, o.file))
    ensures Remove(o.file) in acts <==> !dryRun && Improved(o) && mode.Images?
    ensures forall a :: a in acts ==> a.Move? || a == Remove(o.file)
  {
    if dryRun || !Improved(o) then []
    else [Move(ScratchPath(dir, i, o.file), Target(mode, o.file))] + (if mode.Images? then [Remove(o.file)] else [])
  }

  // ---------------------------------------------------------------------------
  // The figures of the report

  /** `100 - new * 100 / orig`, the "smaller by" percentage. */
  function SmallerBy(before: nat, after: nat): (r: nat)
    requires after < before
    ensures 1 <= r <= 100
    ensures r == 100 <==> after * 100 < before
    ensures (100 - r) * before <= after * 100 < (101 - r) * before
  {
    ShareBounds(before, after);
    100 - after * 100 / before
  }

  lemma ShareBounds(before: nat, after: nat)
    requires after < before
    ensures after * 100 / before < 100
    ensures after * 100 / before == 0 <==> after * 100 < before
    ensures after * 100 / before * before <= after * 100 < (after * 100 / before + 1) * before
  {
    var x := after * 100;
    Arith.DivBounds(x, before);
    assert x < 100 * before;
    Arith.DivBelow(x, before, 100);
    if x < before {
      Arith.DivBelow(x, before, 1);
    } else {
      Arith.DivAtLeast(x, before, 1);
    }
  }

  /** `(orig * 100) / new`, the "larger by" figure as the code computes it:
      the original as a percentage of the new size. */
  function LargerByAsWritten(before: nat, after: nat): (r: nat)
    requires before <= after && 0 < after
    ensures r <= 100
    ensures r * after <= before * 100 < (r + 1) * after
  {
    Arith.DivBelow(before * 100, after, 101);
    before * 100 / after
  }

  /** A file that grew by a quarter is reported "larger by 80%". */
  lemma LargerByReportsRatio()
    ensures LargerByAsWritten(2000000, 2500000) == 80
    ensures GrowthPercent(2000000, 2500000) == 25
  {
  }

  /** How much larger the new file is, in whole percent of the original. */
  function GrowthPercent(before: nat, after: nat): (r: nat)
    requires 0 < before <= after
    ensures before * (100 + r) <= after * 100 < before * (101 + r)
  {
    Arith.DivAtLeast(after * 100, before, 100);
    var q := after * 100 / before;
    assert before * q <= after * 100 < before * (q + 1);
    q - 100
  }

  /** `(saved_size * 100) / total_size`, printed only once something was
      saved, which is what keeps the divisor nonzero. */
  function SavedPercent(s: Summary): (r: nat)
    requires Consistent(s) && s.saved > 0
    ensures 1 <= s.total && r <= 100
    ensures r * s.total <= s.saved * 100 < (r + 1) * s.total
  {
    SavedWithinTotal(s.processed);
    Arith.DivBelow(s.saved * 100, s.total, 101);
    s.saved * 100 / s.total
  }

  /** One row of the table: old size, new size, saved size. */
  datatype Row = Row(before: nat, after: nat, saved: nat)

  /** `old_size - new_size` never underflows on a listed row. */
  function EntryRow(e: Entry): (r: Row)
    requires e.after < e.before
    ensures r.before == e.before && r.after == e.after
    ensures r.saved > 0 && r.after + r.saved == r.before
  {
    Row(e.before, e.after, e.before - e.after)
  }

  /** The totals row: `total_size - saved_size` never underflows and is what
      the improved files take now. */
  function TotalsRow(s: Summary): (r: Row)
    requires Consistent(s)
    ensures r.before == SumBefore(s.processed) && r.after == SumAfter(s.processed) && r.saved == SumSaved(s.processed)
    ensures r.after + r.saved == r.before
  {
    SavedWithinTotal(s.processed);
    Row(s.total, s.total - s.saved, s.saved)
  }

  datatype Report = NothingCompressed | Compressed(percent: nat, rows: seq<Row>, totals: Row)

  /** The end of the run: "no files were compressed." exactly when no file
      improved, otherwise the percentage, one row per listed file and the
      totals. */
  function ReportOf(s: Summary): (r: Report)
    requires Consistent(s)
    ensures r == NothingCompressed <==> s.processed == []
    ensures r.Compressed? ==> |r.rows| == |s.processed| && r.percent <= 100 && r.totals == TotalsRow(s)
    ensures s.saved > 0 ==> r.Compressed? && r.percent == SavedPercent(s)
    ensures r.Compressed? ==> forall k :: 0 <= k < |r.rows| ==> r.rows[k] == EntryRow(s.processed[k])
  {
    SavedWithinTotal(s.processed);
    if s.saved == 0 then NothingCompressed
    else Compressed(SavedPercent(s), seq(|s.processed|, k requires 0 <= k < |s.processed| => EntryRow(s.processed[k])), TotalsRow(s))
  }

  // ---------------------------------------------------------------------------
  // Time per megabyte

  /** `u128::checked_div`: `None` only for a zero divisor. */
  function CheckedDiv(a: nat, b: nat): (r: Option<nat>)
    ensures r.None? <==> b == 0
    ensures b > 0 ==> r == Some(a / b)
  {
    if b == 0 then None else Some(a / b)
  }

  /** `Option::unwrap_or`: the value when there is one, the fallback
      otherwise. */
  function UnwrapOr(o: Option<nat>, default: nat): (v: nat)
    ensures o.Some? ==> v == o.value
    ensures o.None? ==> v == default
  {
    match o
    case Some(v) => v
    case None => default
  }

  /** `total_size.checked_div(1_000_000).unwrap_or(1)`: the fallback is never
      taken, so the divisor is the whole megabytes, zero below one. */
  function RateDivisorAsWritten(total: nat): (d: nat)
    ensures d == total / 1000000
    ensures d == 0 <==> total < 1000000
  {
    UnwrapOr(CheckedDiv(total, 1000000), 1)
  }

  /** The elapsed milliseconds per megabyte as the code divides them; the
      division is defined only from one megabyte up. */
  function PerMegabyteAsWritten(elapsed: nat, total: nat): (r: nat)
    requires total >= 1000000
    ensures r <= elapsed
    ensures r * RateDivisorAsWritten(total) <= elapsed < (r + 1) * RateDivisorAsWritten(total)
  {
    var mb := RateDivisorAsWritten(total);
    assert mb >= 1;
    QuotientWithin(elapsed, mb);
    var q := elapsed / mb;
    assert q * mb <= elapsed < (q + 1) * mb;
    q
  }

  lemma QuotientWithin(x: nat, d: nat)
    requires d >= 1
    ensures x / d <= x
    ensures x / d * d <= x < (x / d + 1) * d
  {
    var q := x / d;
    Arith.DivBounds(x, d);
    Arith.MulLe(q, 1, d);
    assert q <= q * d <= x;
  }

  /** The divisor with the fallback applied where it was evidently meant:
      at least one. */
  function RateDivisor(total: nat): (d: nat)
    ensures d >= 1
    ensures total >= 1000000 ==> d == RateDivisorAsWritten(total)
    ensures total < 1000000 ==> d == 1
  {
    var d := RateDivisorAsWritten(total);
    if d == 0 then 1 else d
  }

  /** The time per megabyte for every total, agreeing with the code wherever
      the code's division is defined. */
  function PerMegabyte(elapsed: nat, total: nat): (r: nat)
    ensures r <= elapsed
    ensures total >= 1000000 ==> r == PerMegabyteAsWritten(elapsed, total)
    ensures total < 1000000 ==> r == elapsed
  {
    elapsed / RateDivisor(total)
  }
}
