/**
 * The byte layout of compressed images. The desktop interface writes the
 * width and the height as 4-byte big-endian integers, then one 5-byte record
 * per run: the three colour bytes and a 2-byte big-endian count. The
 * standalone script writes the records alone, with no header. Reading stops
 * at the first short read, so a trailing partial record is ignored.
 */
module ImageContainer {
  import opened Wrappers
  import opened Rle
  import opened ImageRle

  type Byte = x: int | 0 <= x < 256

  datatype WriteError =
    | DimensionTooLarge(dimension: nat)  // `to_bytes(4)` of a width or height of 2^32 or more
    | CountTooLarge(count: nat)          // `to_bytes(2)` of a run count of 65536 or more

  /** 256 to the power `k`: the first value `to_bytes(k)` cannot hold. */
  function Pow256(k: nat): (p: nat)
    ensures p >= 1
  {
    if k == 0 then 1 else 256 * Pow256(k - 1)
  }

  /** `n.to_bytes(k, byteorder="big")` for an `n` that fits. */
  function BigEndian(n: nat, k: nat): (bs: seq<Byte>)
    ensures |bs| == k
  {
    if k == 0 then [] else BigEndian(n / 256, k - 1) + [n % 256]
  }

  /** `int.from_bytes(bs, byteorder="big")`; the empty string reads as 0. */
  function FromBigEndian(bs: seq<Byte>): (n: nat)
    ensures n < Pow256(|bs|)
  {
    if bs == [] then 0 else 256 * FromBigEndian(bs[..|bs| - 1]) + bs[|bs| - 1]
  }

  /** Reading back the bytes of a value that fits gives the value. */
  lemma {:induction false} FromToBigEndian(n: nat, k: nat)
    requires n < Pow256(k)
    ensures FromBigEndian(BigEndian(n, k)) == n
  {
    if k > 0 {
      FromToBigEndian(n / 256, k - 1);
      var bs := BigEndian(n, k);
      assert bs[..|bs| - 1] == BigEndian(n / 256, k - 1);
    }
  }

  /** Writing back the value of a byte string gives the bytes. */
  lemma {:induction false} ToFromBigEndian(bs: seq<Byte>)
    ensures BigEndian(FromBigEndian(bs), |bs|) == bs
  {
    if bs != [] {
      var init := bs[..|bs| - 1];
      ToFromBigEndian(init);
      var n := FromBigEndian(bs);
      assert n / 256 == FromBigEndian(init);
      assert n % 256 == bs[|bs| - 1];
      assert init + [bs[|bs| - 1]] == bs;
    }
  }

  lemma Pow256Values()
    ensures Pow256(2) == 65536
    ensures Pow256(4) == 0x1_0000_0000
  {
    assert Pow256(1) == 256;
    assert Pow256(3) == 0x100_0000;
  }

  /** Every count of the runs fits in two bytes. */
  predicate CountsFit(runs: seq<Run<Rgb>>)
  {
    forall k :: 0 <= k < |runs| ==> runs[k].count < 65536
  }

  /** `bytes(color) + rep.to_bytes(2, byteorder="big")` */
  function Record(run: Run<Rgb>): (bs: seq<Byte>)
    requires run.count < 65536
    ensures |bs| == 5
  {
    [run.value.r, run.value.g, run.value.b] + BigEndian(run.count, 2)
  }

  /** The records of all runs, in order. */
  function Records(runs: seq<Run<Rgb>>): (bs: seq<Byte>)
    requires CountsFit(runs)
    ensures |bs| == 5 * |runs|
  {
    if runs == [] then [] else Records(runs[..|runs| - 1]) + Record(runs[|runs| - 1])
  }

  /** The interface's file: width, height, then the records. */
  function Container(width: nat, height: nat, runs: seq<Run<Rgb>>): seq<Byte>
    requires CountsFit(runs)
  {
    BigEndian(width, 4) + BigEndian(height, 4) + Records(runs)
  }

  /**
   * The record loop shared by both writers: each run's colour bytes and
   * count are written in turn; a count too large for two bytes raises, which
   * the interface reports as a compression error rather than wrapping it.
   */
  method WriteRecords(runs: seq<Run<Rgb>>) returns (r: Result<seq<Byte>, WriteError>)
    ensures r.Failure? <==> !CountsFit(runs)
    ensures r.Success? ==> r.value == Records(runs)
    ensures r.Failure? ==> exists k :: 0 <= k < |runs| && r.error == CountTooLarge(runs[k].count)
  {
    var out: seq<Byte> := [];
    for k := 0 to |runs|
      invariant CountsFit(runs[..k])
      invariant out == Records(runs[..k])
    {
      var run := runs[k];
      if run.count >= 65536 {
        return Failure(CountTooLarge(run.count));
      }
      assert runs[..k + 1][..k] == runs[..k];
      out := out + Record(run);
    }
    assert runs[..|runs|] == runs;
    return Success(out);
  }

  /**
   * The interface's writer: the width and the height, then the records. A
   * dimension or a count too large for its field is an error.
   */
  method WriteContainer(width: nat, height: nat, runs: seq<Run<Rgb>>) returns (r: Result<seq<Byte>, WriteError>)
    ensures r.Failure? <==> width >= 0x1_0000_0000 || height >= 0x1_0000_0000 || !CountsFit(runs)
    ensures r.Success? ==> r.value == Container(width, height, runs)
    ensures r.Success? ==> |r.value| == 8 + 5 * |runs|
  {
    Pow256Values();
    if width >= 0x1_0000_0000 {
      return Failure(DimensionTooLarge(width));
    }
    if height >= 0x1_0000_0000 {
      return Failure(DimensionTooLarge(height));
    }
    var header := BigEndian(width, 4) + BigEndian(height, 4);
    var body := WriteRecords(runs);
    if body.Failure? {
      return Failure(body.error);
    }
    return Success(header + body.value);
  }

  /** `f.read(n)` at offset `pos`: at most `n` bytes, fewer at the end of the file. */
  function Read(file: seq<Byte>, pos: nat, n: nat): (bs: seq<Byte>)
    ensures |bs| == if pos + n <= |file| then n else if pos <= |file| then |file| - pos else 0
  {
    if pos + n <= |file| then file[pos .. pos + n] else if pos <= |file| then file[pos..] else []
  }

  /** The run a 5-byte record stands for. */
  function RunOf(rec: seq<Byte>): Run<Rgb>
    requires |rec| == 5
  {
    Run(Rgb(rec[0], rec[1], rec[2]), FromBigEndian(rec[3..]))
  }

  /** The runs of the whole records at the front of `body`; a partial record at the end is ignored. */
  function ParseRecords(body: seq<Byte>): (runs: seq<Run<Rgb>>)
    ensures |runs| == |body| / 5
    decreases |body|
  {
    if |body| < 5 then [] else [RunOf(body[..5])] + ParseRecords(body[5..])
  }

  /**
   * The interface's reader: width and height from the first two 4-byte reads
   * (a short file reads as fewer bytes, an empty read as zero), then records
   * until a read comes back short.
   */
  method ReadContainer(file: seq<Byte>) returns (width: nat, height: nat, runs: seq<Run<Rgb>>)
    ensures width == FromBigEndian(Read(file, 0, 4))
    ensures height == FromBigEndian(Read(file, 4, 4))
    ensures runs == ParseRecords(if |file| <= 8 then [] else file[8..])
  {
    width := FromBigEndian(Read(file, 0, 4));
    height := FromBigEndian(Read(file, 4, 4));
    var start := if |file| <= 8 then |file| else 8;
    runs := ReadRecords(file, start);
    assert file[start..] == if |file| <= 8 then [] else file[8..];
  }

  /** The reader's record loop, from offset `start` to the first short read. */
  method ReadRecords(file: seq<Byte>, start: nat) returns (runs: seq<Run<Rgb>>)
    requires start <= |file|
    ensures runs == ParseRecords(file[start..])
  {
    runs := [];
    var pos := start;
    while true
      invariant start <= pos <= |file|
      invariant runs + ParseRecords(file[pos..]) == ParseRecords(file[start..])
      decreases |file| - pos
    {
      var colour := Read(file, pos, 3);
      if |colour| < 3 {
        break;
      }
      var count := Read(file, pos + 3, 2);
      if |count| < 2 {
        break;
      }
      var rec := file[pos .. pos + 5];
      assert colour == rec[..3] && count == rec[3..];
      assert file[pos..][..5] == rec && file[pos..][5..] == file[pos + 5..];
      runs := runs + [Run(Rgb(colour[0], colour[1], colour[2]), FromBigEndian(count))];
      pos := pos + 5;
    }
    assert |file[pos..]| < 5;
    assert runs + [] == runs;
  }

  /** Whole records are read back as the runs they were written from. */
  lemma {:induction false} ParseRecordsOf(runs: seq<Run<Rgb>>, tail: seq<Byte>)
    requires CountsFit(runs)
    ensures ParseRecords(Records(runs) + tail) == runs + ParseRecords(tail)
  {
    if runs != [] {
      var init, last := runs[..|runs| - 1], runs[|runs| - 1];
      ParseRecordsOf(init, Record(last) + tail);
      assert Records(runs) + tail == Records(init) + (Record(last) + tail);
      ParseOneRecord(last, tail);
      assert init + [last] == runs;
    } else {
      assert Records(runs) + tail == tail;
    }
  }

  /** One record followed by more bytes parses as its run, then the rest. */
  lemma ParseOneRecord(run: Run<Rgb>, tail: seq<Byte>)
    requires run.count < 65536
    ensures ParseRecords(Record(run) + tail) == [run] + ParseRecords(tail)
  {
    var rest := Record(run) + tail;
    assert rest[..5] == Record(run) && rest[5..] == tail;
    FromToBigEndian(run.count, 2);
    Pow256Values();
    assert RunOf(Record(run)) == run;
  }

  /**
   * Reading what the interface wrote gives back the width, the height and
   * the runs, and bytes appended after fewer than five more are ignored.
   */
  lemma ReadWritten(width: nat, height: nat, runs: seq<Run<Rgb>>, tail: seq<Byte>)
    requires width < 0x1_0000_0000 && height < 0x1_0000_0000 && CountsFit(runs)
    requires |tail| < 5
    ensures var file := Container(width, height, runs) + tail;
      && FromBigEndian(Read(file, 0, 4)) == width
      && FromBigEndian(Read(file, 4, 4)) == height
      && ParseRecords(if |file| <= 8 then [] else file[8..]) == runs
  {
    var file := Container(width, height, runs) + tail;
    Pow256Values();
    FromToBigEndian(width, 4);
    FromToBigEndian(height, 4);
    assert Read(file, 0, 4) == BigEndian(width, 4);
    assert Read(file, 4, 4) == BigEndian(height, 4);
    ParseRecordsOf(runs, tail);
    assert file[8..] == Records(runs) + tail;
    assert runs + [] == runs;
  }

  /** The script's file is the records alone, with no header; they parse back to the runs. */
  lemma ScriptRecordsReadBack(runs: seq<Run<Rgb>>)
    requires CountsFit(runs)
    ensures |Records(runs)| == 5 * |runs|
    ensures ParseRecords(Records(runs)) == runs
  {
    ParseRecordsOf(runs, []);
    assert Records(runs) + [] == Records(runs);
    assert runs + [] == runs;
  }
}
