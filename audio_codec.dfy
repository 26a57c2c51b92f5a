/**
 * The audio compressor: RLE over the samples, a Huffman tree over the RLE
 * stream (whose symbols mix sample values and run lengths), code generation
 * into the compressor's own code table, bit packing, and the reverse path
 * from the stored tree and payload back to samples.
 *
 * Reading and writing WAV and pickle files is not modelled: compression takes
 * the samples and the WAV parameters, and produces the metadata record and
 * the payload as values.
 */
module AudioCodec {
  import opened Wrappers
  import opened Rle
  import opened HuffmanTree
  import opened HuffmanCode
  import opened TreeSerial
  import opened AudioRle
  import opened BitPacking

  /** The WAV parameters the compressed file carries through unchanged. */
  datatype WaveParams = WaveParams(channels: int, sampleWidth: int, frameRate: int)

  /** What the compressor writes: the metadata dictionary, then the packed bits. */
  datatype AudioFile = AudioFile(
    params: WaveParams,
    originalSize: nat,
    validBits: nat,
    tree: Serial<int>,
    payload: seq<bv8>)

  datatype AudioError =
    | NoSamples                 // the heap is empty when its first node is read
    | BadTree(SerialError)
    | BadBits(DecodeError)
    | BadRuns(RleError)

  /** The samples whose RLE stream has a single distinct symbol: n copies of n. */
  predicate LoneSymbolSamples(samples: seq<int>)
  {
    samples != [] && forall i :: 0 <= i < |samples| ==> samples[i] == |samples|
  }

  /** The reading side, as a function of the stored file. */
  function DecompressFile(f: AudioFile): Result<seq<int>, AudioError>
  {
    match Reconstruct(f.tree)
    case Failure(e) => Failure(BadTree(e))
    case Success(t) =>
      match DecodeWalk(t, t, TakeValid(Unpack(f.payload), f.validBits))
      case Failure(e) => Failure(BadBits(e))
      case Success(rle) =>
        match DecompressRle(rle)
        case Failure(e) => Failure(BadRuns(e))
        case Success(samples) => Success(samples)
  }

  class AudioCompressor {
    var codes: map<int, seq<Bit>>
    var tree: Option<Tree<int>>

    constructor ()
      ensures codes == map[] && tree == None
    {
      codes := map[];
      tree := None;
    }

    /**
     * `_generar_codigos_huffman`: enters each leaf's path below `node` into
     * the code table, left subtree first.
     */
    method GenerateCodes(node: Tree<int>, prefix: seq<Bit>)
      modifies this
      ensures codes == old(codes) + CodeMap(node, prefix)
      ensures tree == old(tree)
      decreases node
    {
      match node
      case Leaf(s, _) =>
        codes := codes[s := prefix];
      case Node(_, l, r) =>
        ghost var before := codes;
        GenerateCodes(l, prefix + [0]);
        GenerateCodes(r, prefix + [1]);
        UnionAssociates(before, CodeMap(l, prefix + [0]), CodeMap(r, prefix + [1]));
    }

    /**
     * `construir_arbol_huffman`: counts the distinct values of the stream and
     * runs the heap loop over them; an empty stream leaves the heap empty.
     */
    method BuildStreamTree(data: seq<int>) returns (r: Result<Tree<int>, BuildError>)
      ensures r.Failure? <==> data == []
      ensures r.Success? ==> IsHuffmanTreeOf(r.value, Frequencies(data))
      ensures r.Success? ==> r.value.freq == |data|
    {
      FrequenciesOf(data);
      r := BuildTree(Frequencies(data));
      if r.Success? {
        TreeOfDataWeight(r.value, data);
      }
    }

    /**
     * `comprimir_audio` without the file I/O: RLE, tree, codes and packed
     * bits. The tree and the code table are kept in the compressor; empty
     * audio fails before either is touched.
     */
    method Compress(samples: seq<int>, params: WaveParams) returns (r: Result<AudioFile, AudioError>)
      modifies this
      ensures samples == [] ==> r == Failure(NoSamples) && codes == old(codes) && tree == old(tree)
      ensures samples != [] ==>
        var rle := CompressRle(samples);
        && r.Success? && tree.Some?
        && IsHuffmanTreeOf(tree.value, Frequencies(rle))
        && codes == Codes(tree.value)
        && (forall x :: x in rle ==> x in codes)
        && r.value.params == params
        && r.value.originalSize == |samples|
        && r.value.validBits == |Encode(rle, codes)|
        && r.value.tree == Serialize(tree.value)
        && Packs(r.value.payload, Encode(rle, codes))
    {
      var rle := CompressRle(samples);
      assert rle == [] <==> samples == [] by {
        CompressRleShape(samples);
      }
      var built := BuildStreamTree(rle);
      if built.Failure? {
        return Failure(NoSamples);
      }
      var t := built.value;
      tree := Some(t);
      codes := map[];
      GenerateCodes(t, []);
      EmptyTableUnion(Codes(t));
      CodesCoverStream(t, rle);
      var encoded := EncodeHuffman(rle, codes);
      assert encoded.Success?;
      var (payload, valid) := encoded.value;
      return Success(AudioFile(params, |samples|, valid, Serialize(t), payload));
    }

    /**
     * `descomprimir_audio` without the file I/O: rebuilds the stored tree
     * (kept in the compressor), decodes the valid bits, and expands the runs.
     */
    method Decompress(f: AudioFile) returns (r: Result<seq<int>, AudioError>)
      modifies this
      ensures r == DecompressFile(f)
      ensures Reconstruct(f.tree).Success? ==> tree == Some(Reconstruct(f.tree).value)
      ensures Reconstruct(f.tree).Failure? ==> tree == old(tree)
      ensures codes == old(codes)
    {
      var rebuilt := Reconstruct(f.tree);
      if rebuilt.Failure? {
        return Failure(BadTree(rebuilt.error));
      }
      var t := rebuilt.value;
      tree := Some(t);
      var decoded := DecodeHuffman(f.payload, f.validBits, t);
      if decoded.Failure? {
        return Failure(BadBits(decoded.error));
      }
      var samples := DecompressRle(decoded.value);
      if samples.Failure? {
        return Failure(BadRuns(samples.error));
      }
      return Success(samples.value);
    }
  }

  /** Every symbol of the stream has a code in a tree built for the stream. */
  lemma CodesCoverStream(t: Tree<int>, rle: seq<int>)
    requires IsHuffmanTreeOf(t, Frequencies(rle))
    ensures forall x :: x in rle ==> x in Codes(t)
  {
    HuffmanShape(t, Frequencies(rle));
    FrequenciesOf(rle);
  }

  /**
   * What a compressed file decodes to: the samples when the tree has two
   * leaves or more, and no samples at all when it is a lone leaf.
   */
  lemma FileRoundTrip(samples: seq<int>, t: Tree<int>, params: WaveParams, payload: seq<bv8>)
    requires samples != []
    requires IsHuffmanTreeOf(t, Frequencies(CompressRle(samples)))
    requires forall x :: x in CompressRle(samples) ==> x in Codes(t)
    requires Packs(payload, Encode(CompressRle(samples), Codes(t)))
    ensures var f := AudioFile(params, |samples|, |Encode(CompressRle(samples), Codes(t))|, Serialize(t), payload);
            DecompressFile(f) == if t.Node? then Success(samples) else Success([])
  {
    var rle := CompressRle(samples);
    var bits := Encode(rle, Codes(t));
    var f := AudioFile(params, |samples|, |bits|, Serialize(t), payload);
    ReconstructSerialize(t);
    ValidBitsOfPacked(payload, bits);
    if t.Node? {
      DecodeEncode(t, rle);
      DecompressCompress(samples);
      FileDecodesTo(f, t, rle, samples);
    } else {
      LeafEncodesNothing(t, rle);
      FileDecodesTo(f, t, [], []);
    }
  }


  /** A file whose tree, bits and runs each decode gives the expanded samples. */
  lemma FileDecodesTo(f: AudioFile, t: Tree<int>, rle: seq<int>, samples: seq<int>)
    requires Reconstruct(f.tree) == Success(t)
    requires DecodeWalk(t, t, TakeValid(Unpack(f.payload), f.validBits)) == Success(rle)
    requires DecompressRle(rle) == Success(samples)
    ensures DecompressFile(f) == Success(samples)
  {
  }

  /** With two runs or more, the RLE stream holds two distinct values. */
  lemma ManyRunsManySymbols(samples: seq<int>)
    ensures |Runs(samples)| >= 2 ==> |Frequencies(CompressRle(samples))| >= 2
  {
    var runs, c := Runs(samples), CompressRle(samples);
    if |runs| >= 2 {
      RunsWellFormed(samples);
      FrequenciesOf(c);
      assert c[0] == runs[0].value && c[2] == runs[1].value;
      assert {c[0], c[2]} <= Frequencies(c).Keys;
      SubsetCard({c[0], c[2]}, Frequencies(c).Keys);
    }
  }

  /** A single run `[v, n]` holds two distinct values unless `v == n`. */
  lemma OneRunSymbols(v: int, n: int)
    ensures v != n ==> |Frequencies([v, n])| == 2
    ensures v == n ==> |Frequencies([v, n])| == 1
  {
    FrequenciesOf([v, n]);
    assert Frequencies([v, n]).Keys == {v, n};
  }

  /**
   * The RLE stream has a single distinct symbol exactly for `n` copies of
   * the value `n`, such as `[1]` or `[3, 3, 3]`.
   */
  lemma LoneSymbolStream(samples: seq<int>)
    requires samples != []
    ensures |Frequencies(CompressRle(samples))| == 1 <==> LoneSymbolSamples(samples)
  {
    var runs := Runs(samples);
    var n := |samples|;
    RunsLast(samples);
    RunsRoundTrip(samples);
    ManyRunsManySymbols(samples);
    if |runs| == 1 {
      var v := runs[0].value;
      assert runs == [Run(v, runs[0].count)];
      assert TotalCount(runs) == runs[0].count by {
        assert runs[..0] == [];
      }
      assert Expand(runs) == Repeat(v, n) by {
        assert runs[..0] == [];
      }
      assert CompressRle(samples) == [v, n];
      OneRunSymbols(v, n);
    }
    if LoneSymbolSamples(samples) {
      RunsOfConstant(samples);
      assert CompressRle(samples) == [n, n];
      OneRunSymbols(n, n);
    }
  }

  /**
   * The whole round trip through a fresh compressor: empty audio fails, `n`
   * copies of `n` come back empty, and every other sample sequence comes back
   * unchanged.
   */
  method CompressThenDecompress(samples: seq<int>, params: WaveParams) returns (r: Result<seq<int>, AudioError>)
    ensures samples == [] ==> r == Failure(NoSamples)
    ensures samples != [] && !LoneSymbolSamples(samples) ==> r == Success(samples)
    ensures LoneSymbolSamples(samples) ==> r == Success([])
  {
    var compressor := new AudioCompressor();
    var f := compressor.Compress(samples, params);
    if f.Failure? {
      return Failure(f.error);
    }
    var t := compressor.tree.value;
    var rle := CompressRle(samples);
    FileRoundTrip(samples, t, params, f.value.payload);
    HuffmanShape(t, Frequencies(rle));
    LoneSymbolStream(samples);
    r := compressor.Decompress(f.value);
  }

  /**
   * As written, one sample of value 1 is lost. Its stream `[1, 1]` has one
   * symbol, so the tree built for it is the lone leaf `Leaf(1, 2)` ...
   */
  lemma SingleSampleStream()
    ensures CompressRle([1]) == [1, 1]
    ensures IsHuffmanTreeOf(Leaf(1, 2), Frequencies([1, 1]))
  {
    assert Runs([1]) == [Run(1, 1)] by {
      assert [1][..0] == [];
    }
    TwoOnes();
    assert Leaves(Leaf(1, 2)) == [(1, 2)];
  }

  lemma TwoOnes()
    ensures Frequencies([1, 1]) == map[1 := 2]
  {
    assert multiset([1, 1])[1] == 2;
    FrequenciesOf([1, 1]);
  }

  /** ... whose code is empty, so no bit is stored and the file decodes to no samples. */
  lemma SingleSampleLost(params: WaveParams)
    ensures Encode([1, 1], Codes(Leaf(1, 2))) == []
    ensures DecompressFile(AudioFile(params, 1, 0, Serialize(Leaf(1, 2)), [])) == Success([])
  {
    CodesExtendPrefix(Leaf(1, 2), []);
    EncodeEmptyCodes([1, 1], Codes(Leaf(1, 2)));
    ReconstructSerialize(Leaf(1, 2));
    assert Unpack([]) == [];
  }

  /**
   * With the lone leaf padded into an internal node, every non-empty sample
   * sequence survives the round trip, `n` copies of `n` included.
   */
  lemma CorrectedFileRoundTrip(samples: seq<int>, t: Tree<int>, params: WaveParams, payload: seq<bv8>)
    requires samples != []
    requires IsHuffmanTreeOf(t, Frequencies(CompressRle(samples)))
    requires forall x :: x in CompressRle(samples) ==> x in Symbols(t)
    requires Packs(payload, Encode(CompressRle(samples), Codes(PadLoneLeaf(t))))
    ensures var u := PadLoneLeaf(t);
            var f := AudioFile(params, |samples|, |Encode(CompressRle(samples), Codes(u))|, Serialize(u), payload);
            DecompressFile(f) == Success(samples)
  {
    var u := PadLoneLeaf(t);
    var rle := CompressRle(samples);
    var bits := Encode(rle, Codes(u));
    ReconstructSerialize(u);
    ValidBitsOfPacked(payload, bits);
    DecodeEncode(u, rle);
    DecompressCompress(samples);
    FileDecodesTo(AudioFile(params, |samples|, |bits|, Serialize(u), payload), u, rle, samples);
  }
}
