/**
 * The audio codec's Huffman stage on bytes: codes are written into a zeroed
 * byte buffer most significant bit first, together with the number of valid
 * bits; decoding unpacks every byte, keeps the valid bits, and walks the tree.
 */
module BitPacking {
  import opened Wrappers
  import opened HuffmanTree
  import opened HuffmanCode

  /** Bit `p` of a byte, counting from the most significant (p = 0) down. */
  function BitOf(b: bv8, p: nat): Bit
    requires p < 8
  {
    if (b >> (7 - p)) & 1 == 1 then 1 else 0
  }

  /** Setting bit `p` with `|= 1 << (7 - p)` changes that bit only. */
  lemma SetBitOf(b: bv8, p: nat, q: nat)
    requires p < 8 && q < 8
    ensures BitOf(b | (1 << (7 - p)), q) == if q == p then 1 else BitOf(b, q)
  {
    var shift: bv8 := 1 << (7 - p);
    if p == 0 { assert shift == 0x80; }
    else if p == 1 { assert shift == 0x40; }
    else if p == 2 { assert shift == 0x20; }
    else if p == 3 { assert shift == 0x10; }
    else if p == 4 { assert shift == 0x08; }
    else if p == 5 { assert shift == 0x04; }
    else if p == 6 { assert shift == 0x02; }
    else { assert shift == 0x01; }
  }

  /** Bit `i` of a byte string, eight bits per byte, first byte first. */
  function BitAt(bytes: seq<bv8>, i: nat): Bit
    requires i < 8 * |bytes|
  {
    BitOf(bytes[i / 8], i % 8)
  }

  /**
   * `bytes` holds `bits` most significant bit first, in as few bytes as
   * fit them, with the padding bits of the last byte zero.
   */
  predicate Packs(bytes: seq<bv8>, bits: seq<Bit>)
  {
    && |bytes| == (|bits| + 7) / 8
    && forall i :: 0 <= i < 8 * |bytes| ==> BitAt(bytes, i) == if i < |bits| then bits[i] else 0
  }

  /** Every bit of a byte string, in order. */
  function Unpack(bytes: seq<bv8>): seq<Bit>
  {
    seq(8 * |bytes|, i requires 0 <= i < 8 * |bytes| => BitAt(bytes, i))
  }

  /** Unpacking a packed string gives its bits back, followed by zero padding only. */
  lemma UnpackPacked(bytes: seq<bv8>, bits: seq<Bit>)
    requires Packs(bytes, bits)
    ensures |bits| <= |Unpack(bytes)| < |bits| + 8
    ensures Unpack(bytes)[..|bits|] == bits
    ensures forall i :: |bits| <= i < |Unpack(bytes)| ==> Unpack(bytes)[i] == 0
  {
  }

  /** Keeping the first `|bits|` unpacked bits of a packed string gives the bits. */
  lemma ValidBitsOfPacked(bytes: seq<bv8>, bits: seq<Bit>)
    requires Packs(bytes, bits)
    ensures TakeValid(Unpack(bytes), |bits|) == bits
  {
    UnpackPacked(bytes, bits);
  }

  /** Two byte strings that pack the same bits are equal. */
  lemma PacksUnique(a: seq<bv8>, b: seq<bv8>, bits: seq<Bit>)
    requires Packs(a, bits) && Packs(b, bits)
    ensures a == b
  {
    forall k | 0 <= k < |a| ensures a[k] == b[k] {
      forall p | 0 <= p < 8 ensures BitOf(a[k], p) == BitOf(b[k], p) {
        var i := 8 * k + p;
        assert i / 8 == k && i % 8 == p;
        assert BitAt(a, i) == BitAt(b, i);
      }
      SameBitsSameByte(a[k], b[k]);
    }
  }

  lemma SameBitsSameByte(x: bv8, y: bv8)
    requires forall p :: 0 <= p < 8 ==> BitOf(x, p) == BitOf(y, p)
    ensures x == y
  {
    assert BitOf(x, 0) == BitOf(y, 0) && BitOf(x, 1) == BitOf(y, 1);
    assert BitOf(x, 2) == BitOf(y, 2) && BitOf(x, 3) == BitOf(y, 3);
    assert BitOf(x, 4) == BitOf(y, 4) && BitOf(x, 5) == BitOf(y, 5);
    assert BitOf(x, 6) == BitOf(y, 6) && BitOf(x, 7) == BitOf(y, 7);
  }

  /** Bit `i` of a byte string after `|=` sets bit `pos`. */
  lemma SetBitAt(bytes: seq<bv8>, pos: nat, i: nat)
    requires pos < 8 * |bytes| && i < 8 * |bytes|
    ensures BitAt(bytes[pos / 8 := bytes[pos / 8] | (1 << (7 - pos % 8))], i)
            == if i == pos then 1 else BitAt(bytes, i)
  {
    if i / 8 == pos / 8 {
      SetBitOf(bytes[pos / 8], pos % 8, i % 8);
    }
  }

  /** `resultado[bit_actual // 8] |= 1 << (7 - (bit_actual % 8))` */
  method SetBit(buf: array<bv8>, pos: nat)
    requires pos < 8 * buf.Length
    modifies buf
    ensures forall i :: 0 <= i < 8 * buf.Length ==>
      BitAt(buf[..], i) == if i == pos then 1 else BitAt(old(buf[..]), i)
  {
    ghost var before := buf[..];
    buf[pos / 8] := buf[pos / 8] | (1 << (7 - pos % 8));
    assert buf[..] == before[pos / 8 := before[pos / 8] | (1 << (7 - pos % 8))];
    forall i | 0 <= i < 8 * buf.Length
      ensures BitAt(buf[..], i) == if i == pos then 1 else BitAt(before, i)
    {
      SetBitAt(before, pos, i);
    }
  }

  datatype EncodeError = MissingCode(symbol: int)

  /**
   * `codificar_huffman`: the total bit count is summed first (a symbol
   * without a code fails there), a zeroed buffer of `(bits + 7) / 8` bytes is
   * allocated, and the 1 bits of each symbol's code are set in order. The
   * result is the buffer and the number of bits written.
   */
  method EncodeHuffman(data: seq<int>, codes: map<int, seq<Bit>>)
    returns (r: Result<(seq<bv8>, nat), EncodeError>)
    ensures r.Failure? <==> exists x :: x in data && x !in codes
    ensures r.Success? ==>
      && (forall x :: x in data ==> x in codes)
      && r.value.1 == |Encode(data, codes)|
      && Packs(r.value.0, Encode(data, codes))
  {
    var total := 0;
    var i := 0;
    while i < |data|
      invariant 0 <= i <= |data|
      invariant forall x :: x in data[..i] ==> x in codes
      invariant total == |Encode(data[..i], codes)|
    {
      if data[i] !in codes {
        return Failure(MissingCode(data[i]));
      }
      CountNext(data, i, codes);
      total := total + |codes[data[i]]|;
      i := i + 1;
    }
    assert data[..|data|] == data;
    ghost var bits := Encode(data, codes);
    var buf := new bv8[(total + 7) / 8](_ => 0);
    var pos := 0;
    i := 0;
    while i < |data|
      invariant 0 <= i <= |data|
      invariant pos == |Encode(data[..i], codes)| <= total
      invariant Encode(data[..i], codes) == bits[..pos]
      invariant forall k :: 0 <= k < 8 * buf.Length ==>
        BitAt(buf[..], k) == if k < pos then bits[k] else 0
    {
      WriteNext(data, i, codes);
      pos := WriteCode(buf, pos, codes[data[i]], bits);
      i := i + 1;
    }
    assert data[..i] == data;
    return Success((buf[..], pos));
  }

  /**
   * The inner loop of `codificar_huffman`: the bits of one code are written
   * from position `start` on, setting the 1 bits and skipping over the 0 bits.
   */
  method WriteCode(buf: array<bv8>, start: nat, code: seq<Bit>, ghost bits: seq<Bit>) returns (pos: nat)
    requires start + |code| <= |bits| <= 8 * buf.Length
    requires bits[start .. start + |code|] == code
    requires forall k :: 0 <= k < 8 * buf.Length ==> BitAt(buf[..], k) == if k < start then bits[k] else 0
    modifies buf
    ensures pos == start + |code|
    ensures forall k :: 0 <= k < 8 * buf.Length ==> BitAt(buf[..], k) == if k < pos then bits[k] else 0
  {
    pos := start;
    for j := 0 to |code|
      invariant pos == start + j
      invariant forall k :: 0 <= k < 8 * buf.Length ==> BitAt(buf[..], k) == if k < pos then bits[k] else 0
    {
      assert bits[pos] == code[j];
      if code[j] == 1 {
        SetBit(buf, pos);
      }
      pos := pos + 1;
    }
  }

  /** The bit count after one more symbol: its code's length is added. */
  lemma CountNext(data: seq<int>, i: nat, codes: map<int, seq<Bit>>)
    requires i < |data| && data[i] in codes
    requires forall x :: x in data[..i] ==> x in codes
    ensures forall x :: x in data[..i + 1] ==> x in codes
    ensures |Encode(data[..i + 1], codes)| == |Encode(data[..i], codes)| + |codes[data[i]]|
  {
    assert data[..i + 1] == data[..i] + [data[i]];
    assert forall x :: x in data[..i] + [data[i]] ==> x in codes;
    EncodeAppend(data[..i], [data[i]], codes);
  }

  /** Where symbol `i`'s code sits among all the bits: right after the codes of the symbols before it. */
  lemma WriteNext(data: seq<int>, i: nat, codes: map<int, seq<Bit>>)
    requires i < |data|
    requires forall x :: x in data ==> x in codes
    ensures Encode(data[..i + 1], codes) == Encode(data[..i], codes) + codes[data[i]]
    ensures Encode(data, codes) == Encode(data[..i], codes) + codes[data[i]] + Encode(data[i + 1..], codes)
    ensures var e, n := |Encode(data[..i], codes)|, |codes[data[i]]|;
      && e + n <= |Encode(data, codes)|
      && Encode(data, codes)[e .. e + n] == codes[data[i]]
      && Encode(data, codes)[..e + n] == Encode(data[..i + 1], codes)
  {
    var pre, x, post := data[..i], data[i], data[i + 1..];
    assert data[..i + 1] == pre + [x];
    assert data == pre + [x] + post;
    forall y | y in pre + [x] + post ensures y in codes {
      assert y in data;
    }
    EncodeAppend(pre, [x], codes);
    EncodeAppend(pre + [x], post, codes);
    assert Encode([x], codes) == codes[x];
  }

  /** The valid prefix of a bit list; asking for more bits than there are keeps them all. */
  function TakeValid(bits: seq<Bit>, valid: nat): (r: seq<Bit>)
    ensures |r| == if valid < |bits| then valid else |bits|
    ensures r == bits[..|r|]
  {
    if valid < |bits| then bits[..valid] else bits
  }

  /** One walk step followed from a list position. */
  lemma WalkFrom<S>(root: Tree<S>, cur: Tree<S>, bits: seq<Bit>, i: nat)
    requires i < |bits| && cur.Node?
    ensures var next := if bits[i] == 0 then cur.left else cur.right;
            DecodeWalk(root, cur, bits[i..])
            == if next.Leaf? then Prepend([next.sym], DecodeWalk(root, root, bits[i + 1..]))
               else DecodeWalk(root, next, bits[i + 1..])
  {
    assert bits[i..][1..] == bits[i + 1..];
  }

  /**
   * `decodificar_huffman`: every byte is unpacked most significant bit first,
   * the list is cut to the valid bit count, and the tree is walked bit by bit.
   */
  method DecodeHuffman(bytes: seq<bv8>, valid: nat, root: Tree<int>)
    returns (r: Result<seq<int>, DecodeError>)
    ensures r == DecodeWalk(root, root, TakeValid(Unpack(bytes), valid))
  {
    var all: seq<Bit> := [];
    for i := 0 to |bytes|
      invariant |all| == 8 * i
      invariant forall k :: 0 <= k < 8 * i ==> all[k] == BitAt(bytes, k)
    {
      for p := 0 to 8
        invariant |all| == 8 * i + p
        invariant forall k :: 0 <= k < 8 * i + p ==> all[k] == BitAt(bytes, k)
      {
        assert (8 * i + p) / 8 == i && (8 * i + p) % 8 == p;
        all := all + [BitOf(bytes[i], p)];
      }
    }
    assert all == Unpack(bytes);
    var bits := TakeValid(all, valid);
    var out: seq<int> := [];
    var cur := root;
    var i := 0;
    assert bits[0..] == bits;
    assert Prepend([], DecodeWalk(root, root, bits)) == DecodeWalk(root, root, bits) by {
      var r := DecodeWalk(root, root, bits);
      if r.Success? {
        assert [] + r.value == r.value;
      }
    }
    while i < |bits|
      invariant 0 <= i <= |bits|
      invariant DecodeWalk(root, root, bits) == Prepend(out, DecodeWalk(root, cur, bits[i..]))
    {
      if cur.Leaf? {
        return Failure(StepFromLeaf);
      }
      WalkFrom(root, cur, bits, i);
      cur := if bits[i] == 0 then cur.left else cur.right;
      if cur.Leaf? {
        PrependTwice(out, [cur.sym], DecodeWalk(root, root, bits[i + 1..]));
        out := out + [cur.sym];
        cur := root;
      }
      i := i + 1;
    }
    assert bits[i..] == [];
    assert out + [] == out;
    return Success(out);
  }
}
