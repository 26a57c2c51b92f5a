/**
 * Run-length encoding shared by the audio codec (which interleaves the runs
 * into one integer stream) and the two image variants (which keep a list of
 * (colour, count) pairs).
 *
 * The encoder in the image code scans left to right, extending the current
 * run or closing it; `Runs` is defined the same way, on the last element, so
 * that the loops that compute it are proved against it one step at a time.
 */
module Rle {

  datatype Run<T> = Run(value: T, count: nat)

  /** `[x] * n` */
  function Repeat<T>(x: T, n: nat): (r: seq<T>)
    ensures |r| == n
    ensures forall i :: 0 <= i < n ==> r[i] == x
  {
    if n == 0 then [] else Repeat(x, n - 1) + [x]
  }

  /** Decoding: every run expanded by literal repetition, in order. */
  function Expand<T>(runs: seq<Run<T>>): seq<T>
  {
    if runs == [] then []
    else Expand(runs[..|runs| - 1]) + Repeat(runs[|runs| - 1].value, runs[|runs| - 1].count)
  }

  /** Sum of the run counts. */
  function TotalCount<T>(runs: seq<Run<T>>): nat
  {
    if runs == [] then 0 else TotalCount(runs[..|runs| - 1]) + runs[|runs| - 1].count
  }

  /**
   * Encoding: the maximal runs of `s`. Appending an element either lengthens
   * the last run (same value) or opens a run of length one.
   */
  function Runs<T(==)>(s: seq<T>): seq<Run<T>>
  {
    if s == [] then []
    else
      var prev := Runs(s[..|s| - 1]);
      var x := s[|s| - 1];
      if prev != [] && prev[|prev| - 1].value == x
      then prev[..|prev| - 1] + [Run(x, prev[|prev| - 1].count + 1)]
      else prev + [Run(x, 1)]
  }

  /** The invariant every encoder output keeps: no empty run, no two adjacent runs of one value. */
  predicate WellFormedRuns<T(==)>(runs: seq<Run<T>>)
  {
    && (forall i :: 0 <= i < |runs| ==> runs[i].count >= 1)
    && (forall i :: 0 < i < |runs| ==> runs[i - 1].value != runs[i].value)
  }

  lemma ExpandAppend<T>(runs: seq<Run<T>>, r: Run<T>)
    ensures Expand(runs + [r]) == Expand(runs) + Repeat(r.value, r.count)
  {
    assert (runs + [r])[..|runs|] == runs;
  }

  lemma TotalCountAppend<T>(runs: seq<Run<T>>, r: Run<T>)
    ensures TotalCount(runs + [r]) == TotalCount(runs) + r.count
  {
    assert (runs + [r])[..|runs|] == runs;
  }

  /** The decoded length is the sum of the counts. */
  lemma {:induction false} ExpandLength<T>(runs: seq<Run<T>>)
    ensures |Expand(runs)| == TotalCount(runs)
  {
    if runs != [] {
      ExpandLength(runs[..|runs| - 1]);
    }
  }

  /** One step of the encoder: `x` lengthens the last run when it carries `x`... */
  lemma {:induction false} RunsSnocSame<T>(p: seq<T>, x: T)
    requires Runs(p) != [] && Runs(p)[|Runs(p)| - 1].value == x
    ensures Runs(p + [x]) == Runs(p)[..|Runs(p)| - 1] + [Run(x, Runs(p)[|Runs(p)| - 1].count + 1)]
  {
    assert (p + [x])[..|p|] == p;
  }

  /** ...and opens a new run of length one otherwise. */
  lemma {:induction false} RunsSnocNew<T>(p: seq<T>, x: T)
    requires p != [] ==> p[|p| - 1] != x
    ensures Runs(p + [x]) == Runs(p) + [Run(x, 1)]
  {
    assert (p + [x])[..|p|] == p;
    RunsLast(p);
  }

  /** The runs are empty exactly for the empty input, and the last run carries the last element. */
  lemma {:induction false} RunsLast<T>(s: seq<T>)
    ensures Runs(s) == [] <==> s == []
    ensures s != [] ==> Runs(s)[|Runs(s)| - 1].value == s[|s| - 1]
  {
  }

  /** The encoder's output is well formed. */
  lemma {:induction false} RunsWellFormed<T>(s: seq<T>)
    ensures WellFormedRuns(Runs(s))
  {
    if s != [] {
      var p := s[..|s| - 1];
      RunsWellFormed(p);
      RunsLast(p);
    }
  }

  /** Decoding the encoder's output gives back the input, and the counts add up to its length. */
  lemma {:induction false} RunsRoundTrip<T>(s: seq<T>)
    ensures Expand(Runs(s)) == s
    ensures TotalCount(Runs(s)) == |s|
  {
    if s != [] {
      var p := s[..|s| - 1];
      var x := s[|s| - 1];
      RunsRoundTrip(p);
      var prev := Runs(p);
      assert s == p + [x];
      if prev != [] && prev[|prev| - 1].value == x {
        var init := prev[..|prev| - 1];
        var last := prev[|prev| - 1];
        assert prev == init + [last];
        ExpandAppend(init, last);
        ExpandAppend(init, Run(x, last.count + 1));
        TotalCountAppend(init, last);
        TotalCountAppend(init, Run(x, last.count + 1));
        assert Repeat(x, last.count + 1) == Repeat(x, last.count) + [x];
      } else {
        ExpandAppend(prev, Run(x, 1));
        TotalCountAppend(prev, Run(x, 1));
        assert Repeat(x, 1) == [x];
      }
    }
  }

  /** `Runs` distributes over a boundary between two different values. */
  lemma {:induction false} RunsOfRepeat<T>(p: seq<T>, x: T, n: nat)
    requires n >= 1
    requires p != [] ==> p[|p| - 1] != x
    ensures Runs(p + Repeat(x, n)) == Runs(p) + [Run(x, n)]
  {
    if n == 1 {
      assert Repeat(x, 1) == [x];
      RunsSnocNew(p, x);
    } else {
      RunsOfRepeat(p, x, n - 1);
      RunsOfRepeatStep(p, x, n);
    }
  }

  lemma RunsOfRepeatStep<T>(p: seq<T>, x: T, n: nat)
    requires n >= 2
    requires Runs(p + Repeat(x, n - 1)) == Runs(p) + [Run(x, n - 1)]
    ensures Runs(p + Repeat(x, n)) == Runs(p) + [Run(x, n)]
  {
    var q := p + Repeat(x, n - 1);
    var prev := Runs(q);
    assert prev[..|prev| - 1] == Runs(p);
    assert p + Repeat(x, n) == q + [x] by {
      assert Repeat(x, n) == Repeat(x, n - 1) + [x];
    }
    RunsSnocSame(q, x);
  }

  /** Encoding is also a left inverse of decoding on well-formed runs: the run list of a sequence is unique. */
  lemma {:induction false} RunsOfExpand<T>(runs: seq<Run<T>>)
    requires WellFormedRuns(runs)
    ensures Runs(Expand(runs)) == runs
  {
    if runs != [] {
      var init := runs[..|runs| - 1];
      var last := runs[|runs| - 1];
      assert WellFormedRuns(init);
      RunsOfExpand(init);
      RunsLast(Expand(init));
      assert runs == init + [last];
      if init != [] {
        assert Expand(init) != [] by { ExpandLength(init); assert TotalCount(init) >= init[|init| - 1].count >= 1; }
      }
      RunsOfRepeat(Expand(init), last.value, last.count);
    }
  }

  /** A constant non-empty sequence is a single run covering it. */
  lemma {:induction false} RunsOfConstant<T>(s: seq<T>)
    requires s != []
    requires forall i :: 0 <= i < |s| ==> s[i] == s[0]
    ensures Runs(s) == [Run(s[0], |s|)]
  {
    assert s == [] + Repeat(s[0], |s|);
    RunsOfRepeat([], s[0], |s|);
  }
}
