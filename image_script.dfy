/**
 * The standalone image script: the same flatten and run-length steps as the
 * interface, a cost estimate in bits for storing the runs with a counter
 * field just wide enough for the longest run, and the check that the
 * decompressed pixels fill the image.
 */
module ImageScript {
  import opened Numbers
  import opened Rle
  import opened ImageRle

  /**
   * The number of binary digits of `n` (zero for zero). For every `n` this
   * is `ceil(log2(n + 1))`: the smallest `b` with `n < 2^b`.
   */
  function BitLength(n: nat): (b: nat)
    ensures n < Pow2(b)
    ensures b > 0 ==> Pow2(b - 1) <= n
  {
    if n == 0 then 0 else 1 + BitLength(n / 2)
  }

  /** `max(conteo for _, conteo in runs)`; `max` of nothing raises, so there is at least one run. */
  function MaxRun(runs: seq<Run<Rgb>>): (m: nat)
    requires runs != []
    ensures exists k :: 0 <= k < |runs| && runs[k].count == m
    ensures forall k :: 0 <= k < |runs| ==> runs[k].count <= m
  {
    if |runs| == 1 then runs[0].count
    else
      var rest := MaxRun(runs[..|runs| - 1]);
      var last := runs[|runs| - 1].count;
      if last > rest then last else rest
  }

  /** The three results of `calcular_bits_rle`. */
  datatype BitCost = BitCost(total: nat, counterBits: nat, maxRun: nat)

  /**
   * `calcular_bits_rle`: every run costs 24 colour bits plus a counter
   * field; the counter field is the narrowest that holds every count.
   */
  function CostBits(runs: seq<Run<Rgb>>): (c: BitCost)
    requires runs != []
    ensures forall k :: 0 <= k < |runs| ==> runs[k].count < Pow2(c.counterBits)
    ensures c.counterBits > 0 ==> exists k :: 0 <= k < |runs| && Pow2(c.counterBits - 1) <= runs[k].count
    ensures c.total == |runs| * (24 + c.counterBits)
    ensures exists k :: 0 <= k < |runs| && runs[k].count == c.maxRun
    ensures forall k :: 0 <= k < |runs| ==> runs[k].count <= c.maxRun
  {
    var maxRun := MaxRun(runs);
    var bits := BitLength(maxRun);
    BitCost(|runs| * (24 + bits), bits, maxRun)
  }

  /**
   * The script's check holds for every non-empty image: decompressing the
   * runs of the flattened pixels gives `width * height` pixels, and cutting
   * them into rows gives the image back.
   */
  lemma ScriptCheck(image: seq<seq<Rgb>>, width: nat)
    requires Rectangular(image, width) && |image| * width > 0
    ensures |Expand(Runs(Flatten(image)))| == width * |image|
    ensures Rows(Expand(Runs(Flatten(image))), width, |image|) == image
  {
    RunsRoundTrip(Flatten(image));
    FlattenRectLength(image, width);
    RowsOfFlatten(image, width);
  }
}
