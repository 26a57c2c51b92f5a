/**
 * The text compressor: character counts, the Huffman tree and its code
 * table, the concatenated codes framed by a padding-count byte and zero
 * padding, packed eight bits to a byte; and the reverse path through the
 * inverted code table and a greedy prefix decoder.
 *
 * Codes are strings of '0' and '1' in the source; here they are sequences of
 * `Bit`. Bytes are integers below 256, as `int(s, 2)` and `bytearray` give.
 * Pickling the (codes, bytes) pair and the file I/O are not modelled.
 */
module TextCodec {
  import opened Wrappers
  import opened HuffmanTree
  import opened HuffmanCode
  import opened Numbers

  type Byte = x: int | 0 <= x < 256

  datatype TextError =
    | EmptyText      // the heap is empty when its first node is read
    | EmptyPayload   // `int('', 2)` on the padding field of an empty byte string

  // ---------------------------------------------------------------------------
  // Character counts

  lemma FrequenciesSnoc<S>(s: seq<S>, c: S)
    ensures Frequencies(s + [c]) ==
            Frequencies(s)[c := if c in Frequencies(s) then Frequencies(s)[c] + 1 else 1]
  {
    var before, after := Frequencies(s), Frequencies(s + [c]);
    assert multiset(s + [c]) == multiset(s) + multiset{c};
    forall x ensures x in after <==> x in s || x == c {
      assert x in s + [c] <==> x in s || x == c;
    }
    assert c in before <==> c in s;
  }

  /** `freqs[c] += 1` for every character of the text, into a defaulting dictionary. */
  method CountFrequencies(text: string) returns (freqs: map<char, nat>)
    ensures freqs == Frequencies(text)
  {
    freqs := map[];
    assert text[..0] == [];
    for i := 0 to |text|
      invariant freqs == Frequencies(text[..i])
    {
      var c := text[i];
      FrequenciesSnoc(text[..i], c);
      assert text[..i + 1] == text[..i] + [c];
      freqs := freqs[c := if c in freqs then freqs[c] + 1 else 1];
    }
    assert text[..|text|] == text;
  }

  /**
   * `generar_codigos`: the dictionary is threaded through the walk; a leaf
   * enters its path, and the left subtree is walked before the right.
   */
  method GenerateCodes(node: Tree<char>, prefix: seq<Bit>, codes: map<char, seq<Bit>>)
    returns (result: map<char, seq<Bit>>)
    ensures result == codes + CodeMap(node, prefix)
    decreases node
  {
    match node
    case Leaf(c, _) =>
      result := codes[c := prefix];
    case Node(_, l, r) =>
      var afterLeft := GenerateCodes(l, prefix + [0], codes);
      result := GenerateCodes(r, prefix + [1], afterLeft);
      UnionAssociates(codes, CodeMap(l, prefix + [0]), CodeMap(r, prefix + [1]));
  }

  // ---------------------------------------------------------------------------
  // Binary digits

  /** `"{0:0wb}".format(n)`: `w` binary digits, most significant first. */
  function ToBits(n: nat, w: nat): (bs: seq<Bit>)
    ensures |bs| == w
  {
    if w == 0 then [] else ToBits(n / 2, w - 1) + [n % 2]
  }

  /** `int(bs, 2)`, with the empty string read as 0. */
  function FromBits(bs: seq<Bit>): (n: nat)
    ensures n < Pow2(|bs|)
  {
    if bs == [] then 0 else 2 * FromBits(bs[..|bs| - 1]) + bs[|bs| - 1]
  }

  lemma {:induction false} FromToBits(n: nat, w: nat)
    requires n < Pow2(w)
    ensures FromBits(ToBits(n, w)) == n
  {
    if w > 0 {
      FromToBits(n / 2, w - 1);
      var bs := ToBits(n, w);
      assert bs[..|bs| - 1] == ToBits(n / 2, w - 1);
    }
  }

  lemma {:induction false} ToFromBits(bs: seq<Bit>)
    ensures ToBits(FromBits(bs), |bs|) == bs
  {
    if bs != [] {
      var init := bs[..|bs| - 1];
      ToFromBits(init);
      assert FromBits(bs) / 2 == FromBits(init);
      assert init + [bs[|bs| - 1]] == bs;
    }
  }

  // ---------------------------------------------------------------------------
  // Padding and framing

  /** `8 - len(bits) % 8`: between one and eight, never zero. */
  function PaddingCount(n: nat): (extra: nat)
    ensures 1 <= extra <= 8
    ensures (n + extra) % 8 == 0
  {
    8 - n % 8
  }

  function Zeros(n: nat): (z: seq<Bit>)
    ensures |z| == n && forall i :: 0 <= i < n ==> z[i] == 0
  {
    seq(n, _ => 0)
  }

  /** The bit string that is packed: the padding count in eight bits, the codes, the zero padding. */
  function Frame(bits: seq<Bit>): seq<Bit>
  {
    ToBits(PaddingCount(|bits|), 8) + bits + Zeros(PaddingCount(|bits|))
  }

  lemma FrameLength(bits: seq<Bit>)
    ensures |Frame(bits)| % 8 == 0
    ensures |Frame(bits)| / 8 == 1 + (|bits| + PaddingCount(|bits|)) / 8
  {
  }

  /**
   * The decoder's padding removal: the first eight bits give the count, the
   * rest loses that many bits from its end. A count of zero (`[:-0]`) or one
   * at least as long as the rest leaves nothing; an empty string has no count.
   */
  function StripPadding(stream: seq<Bit>): Result<seq<Bit>, TextError>
  {
    if stream == [] then Failure(EmptyPayload)
    else
      var h := if |stream| < 8 then |stream| else 8;
      var extra := FromBits(stream[..h]);
      var body := stream[h..];
      if extra == 0 || extra >= |body| then Success([])
      else Success(body[..|body| - extra])
  }

  /** Removing the padding of a framed string gives the framed bits back. */
  lemma StripFrame(bits: seq<Bit>)
    ensures StripPadding(Frame(bits)) == Success(bits)
  {
    var extra := PaddingCount(|bits|);
    var f := Frame(bits);
    Pow2Eight();
    FromToBits(extra, 8);
    assert f[..8] == ToBits(extra, 8);
    var body := f[8..];
    assert body == bits + Zeros(extra);
    assert body[..|body| - extra] == bits;
  }

  /** A padding field of zero reads as "strip everything": `s[:-0]` is empty. */
  lemma ZeroPaddingEmpties(stream: seq<Bit>)
    requires |stream| >= 8 && FromBits(stream[..8]) == 0
    ensures StripPadding(stream) == Success([])
  {
  }

  // ---------------------------------------------------------------------------
  // Bytes

  function Min(a: int, b: int): int
  {
    if a < b then a else b
  }

  /** Every byte as eight bits, most significant first, in order. */
  function BitsOfBytes(bytes: seq<Byte>): (bits: seq<Bit>)
    ensures |bits| == 8 * |bytes|
  {
    if bytes == [] then [] else BitsOfBytes(bytes[..|bytes| - 1]) + ToBits(bytes[|bytes| - 1], 8)
  }

  /** `for i in range(0, len(bits), 8): b.append(int(bits[i:i+8], 2))` */
  method PackBytes(bits: seq<Bit>) returns (bytes: seq<Byte>)
    ensures |bytes| == (|bits| + 7) / 8
    ensures forall k :: 0 <= k < |bytes| ==> bytes[k] == FromBits(bits[8 * k .. Min(8 * k + 8, |bits|)])
  {
    bytes := [];
    var i := 0;
    while i < |bits|
      invariant 0 <= i <= |bits| + 7
      invariant i == 8 * |bytes|
      invariant forall k :: 0 <= k < |bytes| ==> bytes[k] == FromBits(bits[8 * k .. Min(8 * k + 8, |bits|)])
    {
      var chunk := bits[i .. Min(i + 8, |bits|)];
      Pow2Monotone(|chunk|, 8);
      Pow2Eight();
      bytes := bytes + [FromBits(chunk)];
      i := i + 8;
    }
  }

  /** `for byte in b: bit_string += f"{byte:08b}"` */
  method UnpackBytes(bytes: seq<Byte>) returns (bits: seq<Bit>)
    ensures bits == BitsOfBytes(bytes)
  {
    bits := [];
    assert bytes[..0] == [];
    for i := 0 to |bytes|
      invariant bits == BitsOfBytes(bytes[..i])
    {
      assert bytes[..i + 1][..i] == bytes[..i];
      bits := bits + ToBits(bytes[i], 8);
    }
    assert bytes[..|bytes|] == bytes;
  }

  /** Unpacking what was packed from whole bytes' worth of bits gives the bits back. */
  lemma {:induction false} UnpackPack(bits: seq<Bit>, bytes: seq<Byte>)
    requires |bits| == 8 * |bytes|
    requires forall k :: 0 <= k < |bytes| ==> bytes[k] == FromBits(bits[8 * k .. 8 * k + 8])
    ensures BitsOfBytes(bytes) == bits
  {
    if bytes != [] {
      var m := |bytes| - 1;
      var n := 8 * m;
      assert |bits| == n + 8;
      assert bytes[m] == FromBits(bits[n .. n + 8]);
      PackedInit(bits, bytes, m);
      UnpackPack(bits[..n], bytes[..m]);
      LastChunk(bits, n, bytes[m]);
      LastByte(bits[..n], bits[n..], bytes);
    }
  }

  lemma PackedInit(bits: seq<Bit>, bytes: seq<Byte>, m: nat)
    requires |bits| == 8 * |bytes| && m <= |bytes|
    requires forall k :: 0 <= k < |bytes| ==> bytes[k] == FromBits(bits[8 * k .. 8 * k + 8])
    ensures |bits[..8 * m]| == 8 * |bytes[..m]|
    ensures forall k :: 0 <= k < m ==> bytes[..m][k] == FromBits(bits[..8 * m][8 * k .. 8 * k + 8])
  {
    var init := bits[..8 * m];
    forall k | 0 <= k < m ensures bytes[..m][k] == FromBits(init[8 * k .. 8 * k + 8]) {
      assert 8 * k + 8 <= 8 * m;
      assert init[8 * k .. 8 * k + 8] == bits[8 * k .. 8 * k + 8];
    }
  }

  lemma LastChunk(bits: seq<Bit>, n: nat, b: Byte)
    requires |bits| == n + 8
    requires b == FromBits(bits[n .. n + 8])
    ensures b == FromBits(bits[n..]) && |bits[n..]| == 8
    ensures bits[..n] + bits[n..] == bits
  {
    assert bits[n .. n + 8] == bits[n..];
  }

  lemma LastByte(init: seq<Bit>, last: seq<Bit>, bytes: seq<Byte>)
    requires |last| == 8 && bytes != []
    requires bytes[|bytes| - 1] == FromBits(last)
    requires BitsOfBytes(bytes[..|bytes| - 1]) == init
    ensures BitsOfBytes(bytes) == init + last
  {
    ToFromBits(last);
  }

  // ---------------------------------------------------------------------------
  // Decoding

  /** `rev` maps every code back to a character that has that code. */
  predicate IsInverse(codes: map<char, seq<Bit>>, rev: map<seq<Bit>, char>)
  {
    && rev.Keys == codes.Values
    && forall v :: v in rev ==> rev[v] in codes && codes[rev[v]] == v
  }

  /**
   * `{v: k for k, v in codigos.items()}`. The entries are taken in an
   * unspecified order, so of two characters sharing a code either may stay.
   */
  method InvertCodes(codes: map<char, seq<Bit>>) returns (rev: map<seq<Bit>, char>)
    ensures IsInverse(codes, rev)
  {
    rev := map[];
    var pending := codes.Keys;
    while pending != {}
      invariant pending <= codes.Keys
      invariant rev.Keys == set k | k in codes.Keys - pending :: codes[k]
      invariant forall v :: v in rev ==> rev[v] in codes && codes[rev[v]] == v
      decreases pending
    {
      var k :| k in pending;
      rev := rev[codes[k] := k];
      pending := pending - {k};
    }
    assert codes.Keys - pending == codes.Keys;
    forall v | v in codes.Values ensures v in rev {
      var k :| k in codes && codes[k] == v;
      assert k in codes.Keys - pending;
    }
  }

  /**
   * The greedy decoder: bits are appended to `current` one at a time, and as
   * soon as `current` is a code its character is emitted and `current`
   * restarts empty. Bits left in `current` at the end are dropped.
   */
  function Greedy(rev: map<seq<Bit>, char>, current: seq<Bit>, bits: seq<Bit>): string
    decreases |bits|
  {
    if bits == [] then []
    else
      var c := current + [bits[0]];
      if c in rev then [rev[c]] + Greedy(rev, [], bits[1..])
      else Greedy(rev, c, bits[1..])
  }

  /** The decoding loop of `descomprimir_texto`. */
  method PrefixDecode(rev: map<seq<Bit>, char>, bits: seq<Bit>) returns (text: string)
    ensures text == Greedy(rev, [], bits)
  {
    text := [];
    var current: seq<Bit> := [];
    assert bits[0..] == bits;
    for i := 0 to |bits|
      invariant Greedy(rev, [], bits) == text + Greedy(rev, current, bits[i..])
    {
      assert bits[i..][1..] == bits[i + 1..];
      current := current + [bits[i]];
      if current in rev {
        assert text + ([rev[current]] + Greedy(rev, [], bits[i + 1..]))
            == (text + [rev[current]]) + Greedy(rev, [], bits[i + 1..]);
        text := text + [rev[current]];
        current := [];
      }
    }
    assert bits[|bits|..] == [];
    assert text + [] == text;
  }

  /**
   * Reading one whole code from where it starts emits its character: no
   * shorter part of it is a code, and the code itself maps back to it.
   */
  lemma {:induction false} GreedyOneCode(codes: map<char, seq<Bit>>, rev: map<seq<Bit>, char>,
                                         x: char, k: nat, rest: seq<Bit>)
    requires PrefixFree(codes) && IsInverse(codes, rev)
    requires x in codes && k < |codes[x]|
    ensures Greedy(rev, codes[x][..k], codes[x][k..] + rest) == [x] + Greedy(rev, [], rest)
    decreases |codes[x]| - k
  {
    var code := codes[x];
    var bits := code[k..] + rest;
    assert bits[0] == code[k];
    assert bits[1..] == code[k + 1..] + rest;
    var cur := code[..k] + [code[k]];
    assert cur == code[..k + 1];
    if k + 1 == |code| {
      assert cur == code;
      assert code in codes.Values;
      assert rev[code] == x by {
        var y := rev[code];
        if y != x {
          assert IsPrefix(codes[y], codes[x]);
        }
      }
      assert code[k + 1..] + rest == rest;
    } else {
      assert cur !in rev by {
        if cur in rev {
          var y := rev[cur];
          assert codes[y] == cur && |cur| < |code|;
          assert IsPrefix(codes[y], codes[x]);
        }
      }
      GreedyOneCode(codes, rev, x, k + 1, rest);
    }
  }

  /** Greedy decoding of concatenated codes gives the characters back, then goes on. */
  lemma {:induction false} GreedyEncode(codes: map<char, seq<Bit>>, rev: map<seq<Bit>, char>,
                                        xs: string, rest: seq<Bit>)
    requires PrefixFree(codes) && IsInverse(codes, rev)
    requires forall x :: x in xs ==> x in codes && |codes[x]| >= 1
    ensures Greedy(rev, [], Encode(xs, codes) + rest) == xs + Greedy(rev, [], rest)
  {
    if xs == [] {
      assert Encode(xs, codes) + rest == rest;
    } else {
      GreedyFirstCode(codes, rev, xs, rest);
      GreedyEncode(codes, rev, xs[1..], rest);
      assert [xs[0]] + (xs[1..] + Greedy(rev, [], rest)) == xs + Greedy(rev, [], rest);
    }
  }

  /** The first character's code is read off the front of the encoding. */
  lemma GreedyFirstCode(codes: map<char, seq<Bit>>, rev: map<seq<Bit>, char>, xs: string, rest: seq<Bit>)
    requires PrefixFree(codes) && IsInverse(codes, rev)
    requires xs != [] && forall x :: x in xs ==> x in codes && |codes[x]| >= 1
    ensures Greedy(rev, [], Encode(xs, codes) + rest)
            == [xs[0]] + Greedy(rev, [], Encode(xs[1..], codes) + rest)
  {
    var code := codes[xs[0]];
    var tail := Encode(xs[1..], codes) + rest;
    assert Encode(xs, codes) + rest == code[0..] + tail;
    assert code[..0] == [];
    GreedyOneCode(codes, rev, xs[0], 0, tail);
  }

  /** Stopping part-way through a code emits nothing. */
  lemma {:induction false} GreedyPartial(codes: map<char, seq<Bit>>, rev: map<seq<Bit>, char>,
                                         x: char, j: nat, k: nat)
    requires PrefixFree(codes) && IsInverse(codes, rev)
    requires x in codes && j <= k < |codes[x]|
    ensures Greedy(rev, codes[x][..j], codes[x][j..k]) == []
    decreases k - j
  {
    var code := codes[x];
    if j < k {
      var bits := code[j..k];
      assert bits[0] == code[j] && bits[1..] == code[j + 1..k];
      assert code[..j] + [code[j]] == code[..j + 1];
      assert code[..j + 1] !in rev by {
        if code[..j + 1] in rev {
          var y := rev[code[..j + 1]];
          assert IsPrefix(codes[y], codes[x]);
        }
      }
      GreedyPartial(codes, rev, x, j + 1, k);
    }
  }

  /** A trailing incomplete code is dropped without error. */
  lemma GreedyDropsTrailingPartial(codes: map<char, seq<Bit>>, rev: map<seq<Bit>, char>,
                                   xs: string, x: char, k: nat)
    requires PrefixFree(codes) && IsInverse(codes, rev)
    requires forall y :: y in xs ==> y in codes && |codes[y]| >= 1
    requires x in codes && k < |codes[x]|
    ensures Greedy(rev, [], Encode(xs, codes) + codes[x][..k]) == xs
  {
    GreedyEncode(codes, rev, xs, codes[x][..k]);
    GreedyPartial(codes, rev, x, 0, k);
    assert codes[x][..0] == [] && codes[x][0..k] == codes[x][..k];
    assert xs + [] == xs;
  }

  /**
   * The encoder's framing and packing: the padding count in eight bits, the
   * code bits, the padding zeros, then one byte per eight bits. Unpacking the
   * bytes gives the framed bits back.
   */
  method FrameAndPack(bits: seq<Bit>) returns (bytes: seq<Byte>)
    ensures BitsOfBytes(bytes) == Frame(bits)
  {
    var extra := PaddingCount(|bits|);
    var framed := ToBits(extra, 8) + bits + Zeros(extra);
    bytes := PackBytes(framed);
    FrameLength(bits);
    WholeChunks(framed, bytes);
    UnpackPack(framed, bytes);
  }

  /** When the bits fill whole bytes, no chunk is cut short. */
  lemma WholeChunks(bits: seq<Bit>, bytes: seq<Byte>)
    requires |bits| % 8 == 0 && |bytes| == (|bits| + 7) / 8
    requires forall k :: 0 <= k < |bytes| ==> bytes[k] == FromBits(bits[8 * k .. Min(8 * k + 8, |bits|)])
    ensures |bits| == 8 * |bytes|
    ensures forall k :: 0 <= k < |bytes| ==> bytes[k] == FromBits(bits[8 * k .. 8 * k + 8])
  {
    forall k | 0 <= k < |bytes| ensures bytes[k] == FromBits(bits[8 * k .. 8 * k + 8]) {
      assert Min(8 * k + 8, |bits|) == 8 * k + 8;
    }
  }

  // ---------------------------------------------------------------------------
  // The two directions

  /**
   * `comprimir_texto` without the pickling: counts, tree, codes, the framed
   * bit string and its bytes. Empty text fails where the heap is empty. The
   * tree is returned as a ghost, for the contract to speak of.
   */
  method CompressText(text: string)
    returns (r: Result<(map<char, seq<Bit>>, seq<Byte>), TextError>, ghost tree: Option<Tree<char>>)
    ensures r.Failure? <==> text == []
    ensures r.Failure? ==> r.error == EmptyText
    ensures r.Success? ==>
      && tree.Some?
      && IsHuffmanTreeOf(tree.value, Frequencies(text))
      && r.value.0 == Codes(tree.value)
      && (forall c :: c in text ==> c in r.value.0)
      && BitsOfBytes(r.value.1) == Frame(Encode(text, r.value.0))
  {
    var freqs := CountFrequencies(text);
    NoCharacters(text);
    var built := BuildTree(freqs);
    if built.Failure? {
      return Failure(EmptyText), None;
    }
    var t := built.value;
    tree := Some(t);
    var codes := GenerateCodes(t, [], map[]);
    EmptyTableUnion(Codes(t));
    TableCoversText(text, t);
    var bytes := FrameAndPack(Encode(text, codes));
    r := Success((codes, bytes));
  }

  lemma NoCharacters(text: string)
    ensures |Frequencies(text)| == 0 <==> text == []
  {
    FrequenciesOf(text);
  }

  /** The code table of a tree built from the text's counts has a code for every character of the text. */
  lemma TableCoversText(text: string, t: Tree<char>)
    requires IsHuffmanTreeOf(t, Frequencies(text))
    ensures forall c :: c in text ==> c in Codes(t)
  {
    FrequenciesOf(text);
    HuffmanShape(t, Frequencies(text));
  }

  /**
   * `descomprimir_texto` without the unpickling: inverts the table, unpacks
   * the bytes, strips the padding and decodes greedily. The inverted table
   * is returned as a ghost.
   */
  method DecompressText(codes: map<char, seq<Bit>>, bytes: seq<Byte>)
    returns (r: Result<string, TextError>, ghost rev: map<seq<Bit>, char>)
    ensures IsInverse(codes, rev)
    ensures r == match StripPadding(BitsOfBytes(bytes))
                 case Failure(e) => Failure(e)
                 case Success(bits) => Success(Greedy(rev, [], bits))
  {
    var reverse := InvertCodes(codes);
    rev := reverse;
    var stream := UnpackBytes(bytes);
    var stripped := StripPadding(stream);
    if stripped.Failure? {
      return Failure(stripped.error), rev;
    }
    var text := PrefixDecode(reverse, stripped.value);
    r := Success(text);
  }

  /**
   * What the stored pair decodes to: the text when the tree has two leaves
   * or more, nothing when it is a lone leaf.
   */
  lemma DecodeStored(text: string, t: Tree<char>, rev: map<seq<Bit>, char>, bytes: seq<Byte>)
    requires IsHuffmanTreeOf(t, Frequencies(text))
    requires forall c :: c in text ==> c in Codes(t)
    requires BitsOfBytes(bytes) == Frame(Encode(text, Codes(t)))
    requires IsInverse(Codes(t), rev)
    ensures StripPadding(BitsOfBytes(bytes)) == Success(Encode(text, Codes(t)))
    ensures Greedy(rev, [], Encode(text, Codes(t))) == if t.Node? then text else []
  {
    StripFrame(Encode(text, Codes(t)));
    if t.Node? {
      GreedyDecodesTable(t, rev, text);
    } else {
      LeafEncodesNothing(t, text);
    }
  }

  /** Under an internal root, greedy decoding with the inverted table reads the encoded text back. */
  lemma GreedyDecodesTable(t: Tree<char>, rev: map<seq<Bit>, char>, text: string)
    requires t.Node?
    requires IsInverse(Codes(t), rev)
    requires forall c :: c in text ==> c in Codes(t)
    ensures Greedy(rev, [], Encode(text, Codes(t))) == text
  {
    var codes := Codes(t);
    CodesPrefixFree(t, []);
    CodesNonEmpty(t);
    GreedyEncode(codes, rev, text, []);
    assert Encode(text, codes) + [] == Encode(text, codes);
    assert text + [] == text;
  }

  /**
   * The whole round trip: empty text fails, text of one distinct character
   * comes back empty, and every other text comes back unchanged.
   */
  method TextRoundTrip(text: string) returns (r: Result<string, TextError>)
    ensures text == [] ==> r == Failure(EmptyText)
    ensures |Frequencies(text)| == 1 ==> r == Success([])
    ensures |Frequencies(text)| >= 2 ==> r == Success(text)
  {
    var stored, tree := CompressText(text);
    if stored.Failure? {
      return Failure(stored.error);
    }
    var (codes, bytes) := stored.value;
    ghost var rev;
    r, rev := DecompressText(codes, bytes);
    DecodeStored(text, tree.value, rev, bytes);
    HuffmanShape(tree.value, Frequencies(text));
  }

  /**
   * As written, "aaa" comes back empty: its tree is the lone leaf
   * `Leaf('a', 3)`, whose code is empty, so the stored bits are the padding
   * field (eight) and eight padding zeros, and nothing is decoded.
   */
  lemma OneCharacterLost()
    ensures IsHuffmanTreeOf(Leaf('a', 3), Frequencies("aaa"))
    ensures Encode("aaa", Codes(Leaf('a', 3))) == []
    ensures Frame([]) == ToBits(8, 8) + Zeros(8)
    ensures StripPadding(Frame(Encode("aaa", Codes(Leaf('a', 3))))) == Success([])
  {
    ThreeAsTree();
    LeafEncodesNothing(Leaf('a', 3), "aaa");
    StripFrame([]);
  }

  /** "aaa" counts one character, three times, so its tree is the lone leaf `Leaf('a', 3)`. */
  lemma ThreeAsTree()
    ensures IsHuffmanTreeOf(Leaf('a', 3), Frequencies("aaa"))
    ensures forall c :: c in "aaa" ==> c in Codes(Leaf('a', 3))
  {
    assert Frequencies("aaa") == map['a' := 3] by {
      assert multiset("aaa")['a'] == 3;
      FrequenciesOf("aaa");
    }
    assert Leaves(Leaf('a', 3)) == [('a', 3)];
    CodesExtendPrefix(Leaf('a', 3), []);
  }

  /**
   * With the lone leaf padded into an internal node, every non-empty text
   * survives the round trip, one distinct character included.
   */
  lemma CorrectedTextRoundTrip(text: string, t: Tree<char>, rev: map<seq<Bit>, char>, bytes: seq<Byte>)
    requires IsHuffmanTreeOf(t, Frequencies(text))
    requires forall c :: c in text ==> c in Symbols(t)
    requires BitsOfBytes(bytes) == Frame(Encode(text, Codes(PadLoneLeaf(t))))
    requires IsInverse(Codes(PadLoneLeaf(t)), rev)
    ensures StripPadding(BitsOfBytes(bytes)).Success?
    ensures Greedy(rev, [], StripPadding(BitsOfBytes(bytes)).value) == text
  {
    var u := PadLoneLeaf(t);
    StripFrame(Encode(text, Codes(u)));
    GreedyDecodesTable(u, rev, text);
  }
}
