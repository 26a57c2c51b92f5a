/**
 * The audio codec's run-length stage. The sample stream becomes one integer
 * stream `[value, length, value, length, ...]`, and decoding repeats the
 * values at even positions by the lengths at odd positions, with the
 * sequence-level behaviour of numpy's `repeat`: a single length applies to
 * every value, otherwise there must be one length per value, none negative.
 */
module AudioRle {
  import opened Wrappers
  import opened Rle

  datatype RleError =
    | ShapeMismatch   // as many lengths as values, and not exactly one length
    | NegativeCount   // a negative length

  /** The runs laid out as value, length, value, length, ... */
  function Interleave(runs: seq<Run<int>>): (c: seq<int>)
    ensures |c| == 2 * |runs|
    ensures forall k :: 0 <= k < |runs| ==> c[2 * k] == runs[k].value && c[2 * k + 1] == runs[k].count
  {
    if runs == [] then []
    else
      var last := runs[|runs| - 1];
      Interleave(runs[..|runs| - 1]) + [last.value, last.count]
  }

  /** `comprimir_rle`: the maximal runs of the samples, interleaved. */
  function CompressRle(d: seq<int>): seq<int>
  {
    Interleave(Runs(d))
  }

  /** `c[0::2]` */
  function Evens(c: seq<int>): (r: seq<int>)
    ensures |r| == (|c| + 1) / 2
    ensures forall k :: 0 <= k < |r| ==> r[k] == c[2 * k]
  {
    if |c| <= 1 then c else [c[0]] + Evens(c[2..])
  }

  /** `c[1::2]` */
  function Odds(c: seq<int>): (r: seq<int>)
    ensures |r| == |c| / 2
    ensures forall k :: 0 <= k < |r| ==> r[k] == c[2 * k + 1]
  {
    if |c| <= 1 then [] else [c[1]] + Odds(c[2..])
  }

  /** Each value paired with its (non-negative) length. */
  function Pair(values: seq<int>, lengths: seq<int>): (runs: seq<Run<int>>)
    requires |values| == |lengths|
    requires forall k :: 0 <= k < |lengths| ==> lengths[k] >= 0
    ensures |runs| == |values|
    ensures forall k :: 0 <= k < |runs| ==> runs[k] == Run(values[k], lengths[k])
  {
    seq(|values|, k requires 0 <= k < |values| => Run(values[k], lengths[k]))
  }

  /**
   * `descomprimir_rle`: empty gives empty; otherwise the values at even
   * positions are repeated by the lengths at odd positions.
   */
  function DecompressRle(c: seq<int>): Result<seq<int>, RleError>
  {
    if c == [] then Success([])
    else
      var values, lengths := Evens(c), Odds(c);
      if |lengths| == 1 then
        if lengths[0] < 0 then Failure(NegativeCount)
        else Success(Expand(Pair(values, seq(|values|, _ => lengths[0]))))
      else if |lengths| != |values| then Failure(ShapeMismatch)
      else if exists k :: 0 <= k < |lengths| && lengths[k] < 0 then Failure(NegativeCount)
      else Success(Expand(Pair(values, lengths)))
  }

  /**
   * The shape of the encoder's output: empty exactly for empty input, even
   * length, every length at least one, lengths summing to the sample count,
   * neighbouring values different, and each run the samples it stands for.
   */
  lemma CompressRleShape(d: seq<int>)
    ensures CompressRle(d) == [] <==> d == []
    ensures |CompressRle(d)| % 2 == 0
    ensures forall k :: 0 <= k < |CompressRle(d)| / 2 ==> CompressRle(d)[2 * k + 1] >= 1
    ensures forall k :: 0 < k < |CompressRle(d)| / 2 ==> CompressRle(d)[2 * k - 2] != CompressRle(d)[2 * k]
    ensures TotalCount(Runs(d)) == |d|
    ensures Expand(Runs(d)) == d
  {
    RunsLast(d);
    RunsRoundTrip(d);
    RunsWellFormed(d);
    InterleaveWellFormed(Runs(d));
    var runs := Runs(d);
    assert |CompressRle(d)| == 2 * |runs|;
    assert |CompressRle(d)| / 2 == |runs|;
  }

  /** The interleaving of well-formed runs has lengths of at least one and no equal neighbouring values. */
  lemma InterleaveWellFormed(runs: seq<Run<int>>)
    ensures WellFormedRuns(runs) ==> forall k :: 0 <= k < |runs| ==> Interleave(runs)[2 * k + 1] >= 1
    ensures WellFormedRuns(runs) ==> forall k :: 0 < k < |runs| ==> Interleave(runs)[2 * k - 2] != Interleave(runs)[2 * k]
  {
    if WellFormedRuns(runs) {
      var c := Interleave(runs);
      forall k | 0 < k < |runs| ensures c[2 * k - 2] != c[2 * k] {
        assert 2 * k - 2 == 2 * (k - 1);
        assert runs[k - 1].value != runs[k].value;
      }
    }
  }

  /** The interleaved stream splits back into the runs it came from. */
  lemma SplitInterleave(runs: seq<Run<int>>)
    ensures var c := Interleave(runs);
      && |Evens(c)| == |Odds(c)| == |runs|
      && (forall k :: 0 <= k < |runs| ==> Odds(c)[k] == runs[k].count)
      && Pair(Evens(c), Odds(c)) == runs
  {
    var c := Interleave(runs);
    var values, lengths := Evens(c), Odds(c);
    forall k | 0 <= k < |runs| ensures values[k] == runs[k].value && lengths[k] == runs[k].count {
      assert values[k] == c[2 * k];
      assert lengths[k] == c[2 * k + 1];
    }
    var paired := Pair(values, lengths);
    assert forall k :: 0 <= k < |runs| ==> paired[k] == runs[k];
  }

  /** Decoding undoes encoding, for every sample sequence including the empty one. */
  lemma DecompressCompress(d: seq<int>)
    ensures DecompressRle(CompressRle(d)) == Success(d)
  {
    RunsLast(d);
    RunsRoundTrip(d);
    if d != [] {
      DecompressInterleaved(Runs(d));
    }
  }

  /** Decoding the interleaving of a non-empty list of runs expands the runs. */
  lemma DecompressInterleaved(runs: seq<Run<int>>)
    requires runs != []
    ensures DecompressRle(Interleave(runs)) == Success(Expand(runs))
  {
    var c := Interleave(runs);
    SplitInterleave(runs);
    var values, lengths := Evens(c), Odds(c);
    if |lengths| == 1 {
      assert seq(|values|, _ => lengths[0]) == lengths;
    } else {
      assert !exists k :: 0 <= k < |lengths| && lengths[k] < 0;
    }
  }

  /** A well-formed list of runs is exactly what the encoder makes of its expansion. */
  lemma CompressExpand(runs: seq<Run<int>>)
    requires WellFormedRuns(runs)
    ensures CompressRle(Expand(runs)) == Interleave(runs)
  {
    RunsOfExpand(runs);
  }

  /** A stream of odd length that does not hold exactly one length is refused. */
  lemma OddStreamRefused(c: seq<int>)
    requires |c| % 2 == 1 && |c| != 3
    ensures DecompressRle(c) == Failure(ShapeMismatch)
  {
  }

  /** One length is applied to every value: `[v, n, w]` gives n copies of v, then of w. */
  lemma SingleLengthBroadcast(v: int, n: nat, w: int)
    ensures DecompressRle([v, n, w]) == Success(Repeat(v, n) + Repeat(w, n))
  {
    var c := [v, n, w];
    assert Evens(c) == [v, w] by {
      assert c[2..] == [w];
    }
    assert Odds(c) == [n];
    var lens := seq(|Evens(c)|, _ => Odds(c)[0]);
    assert lens == [n, n];
    var runs := Pair(Evens(c), lens);
    assert runs == [Run(v, n), Run(w, n)];
    assert Expand(runs) == Repeat(v, n) + Repeat(w, n) by {
      assert runs[..1] == [Run(v, n)];
      assert [Run(v, n)][..0] == [];
      assert Expand([Run(v, n)]) == Repeat(v, n);
      assert Expand(runs) == Expand(runs[..1]) + Repeat(w, n);
    }
  }
}
