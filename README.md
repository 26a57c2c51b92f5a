# Compressor codecs in Dafny

This project models the codec core of a small desktop compressor with three
variants, built from run-length encoding (RLE) and static Huffman coding:

- **Audio** (`src/compresion_audio.py`). The samples become an interleaved
  RLE stream `[value, length, value, length, ...]`. A Huffman tree is built
  over that stream, with symbols that mix sample values and run lengths. Codes
  are generated into the compressor's table and packed most significant bit
  first, together with a count of valid bits. The tree is stored as nested
  dictionaries. Decompression rebuilds the tree, walks it bit by bit and
  repeats each value by its length.
- **Text** (`src/compresion_texto.py`). The compressor counts characters,
  builds the same Huffman tree and generates codes. It then concatenates the
  code bits, pads them to whole bytes behind a leading padding-count byte,
  and packs eight bits to a byte. Decompression inverts the code table,
  unpacks the bytes, strips the padding and decodes greedily.
- **Images** (`src/interfaz_grafica.py`, `src/compresion_imagen.py`). The
  pixel matrix is flattened row by row, and the flat list becomes
  (colour, count) runs. The interface stores the runs in a byte container:
  4-byte big-endian width and height, then 5-byte records. The standalone
  script writes the records without a header and estimates the cost in bits.
  The decompressed pixels are cut back into rows.
- **Output names.** A `_comprimido` suffix is stripped from a compressed
  file's base name before `_descomprimido` is appended.

Modules:

- `Rle` holds the generic runs: `Runs` and `Expand`.
- `HuffmanTree` holds the tree datatype, the frequency table and the heap
  loop. The loop picks two trees of minimum frequency with `:|`, so no
  property depends on how ties are broken.
- `HuffmanCode` holds the code tables, the encoder and the tree-walking
  decoder.
- `TreeSerial` stores and rebuilds the tree.
- `AudioRle`, `BitPacking` and `AudioCodec` hold the audio codec. Its
  compressor is a class whose `codes` and `tree` fields are updated in place.
- `TextCodec` holds the text codec.
- `ImageRle`, `ImageContainer` and `ImageScript` hold the image variants.
- `OutputNames` holds the name rule.
- `Numbers` holds powers of two.
- `Wrappers` holds the `Option` and `Result` types.

Loops in the source are methods with loop invariants, each proved against a
specification function. The functions' properties are proved as lemmas.

## Model

| member | source | states |
|---|---|---|
| Rle.RunsWellFormed | src/interfaz_grafica.py:372-385 | every run the encoder makes has count at least 1, and neighbouring runs have different values |
| Rle.RunsRoundTrip | src/interfaz_grafica.py:372-392 | expanding the runs of `s` gives `s` back, and the counts sum to `len(s)` |
| Rle.RunsOfExpand | src/interfaz_grafica.py:372-392 | a well-formed run list is exactly what the encoder makes of its expansion, so the run list of a sequence is unique |
| Rle.ExpandLength | src/interfaz_grafica.py:387-392 | the decoded length is the sum of the counts |
| Rle.RunsOfConstant | src/interfaz_grafica.py:372-385 | a constant non-empty sequence is a single run covering all of it |
| Rle.RunsOfRepeat | src/interfaz_grafica.py:376-383 | appending `n` copies of a value different from the last element adds exactly one run of `n` |
| HuffmanTree.FrequenciesOf | src/compresion_audio.py:166-167 | the frequency table's keys are exactly the distinct values, every count is at least 1, and the table is empty only for empty input |
| HuffmanTree.FrequenciesTotal | src/compresion_texto.py:45-47 | the counts of the table sum to the input length |
| HuffmanTree.InitialForest | src/compresion_audio.py:171-174 | the initial heap has one leaf per table entry, carrying that entry's symbol and count, and is empty exactly when the table is |
| HuffmanTree.PopMin | src/compresion_audio.py:177-178 | the popped tree has the least frequency in the heap, the rest together with the popped tree is the heap as a multiset, and the leaves of the heap are the leaves of the rest plus those of the popped tree |
| HuffmanTree.MergeTwo | src/compresion_audio.py:176-184 | one merge step pops a least-frequency tree, then a least-frequency tree of what remains, and pushes their merge onto the rest; it leaves one tree fewer, keeps every node's frequency the sum of its children's, and keeps the multiset of leaves |
| HuffmanTree.MergeAll | src/compresion_audio.py:176-186 | the loop ends with one tree whose frequencies are consistent and whose leaves are the initial heap's leaves, reached from the initial heap by a trace of rounds that each merge the two least-frequency trees |
| HuffmanTree.BuildTree | src/compresion_audio.py:162-186 | fails exactly when the table is empty; otherwise the leaves are exactly the table's entries, each with its count, and every node's frequency is the sum of its children's (the text codec's heap loop, src/compresion_texto.py lines 17-28, is the same) |
| HuffmanTree.WeightIsLeafTotal | src/compresion_audio.py:180 | a node's frequency is the sum of the frequencies of its leaves |
| HuffmanTree.TreeOfDataWeight | src/compresion_audio.py:162-186 | the root frequency of a tree built for `s` is `len(s)` |
| HuffmanTree.HuffmanShape | src/compresion_audio.py:171-186 | the tree's symbols are the table's keys, and the tree is a lone leaf exactly when the table has one entry |
| HuffmanCode.CodeMap | src/compresion_audio.py:432-439 | the code table's keys are exactly the tree's symbols |
| HuffmanCode.CodesExtendPrefix | src/compresion_audio.py:435-439 | every code below a node extends that node's path and is strictly longer under an internal node; a lone leaf gets the path itself, so the root leaf gets the empty code |
| HuffmanCode.CodesPrefixFree | src/compresion_audio.py:432-439 | no code is a prefix of another code |
| HuffmanCode.CodesNonEmpty | src/compresion_audio.py:438-439 | under an internal root every code has at least one bit |
| HuffmanCode.EncodeAppend | src/compresion_audio.py:236-241 | encoding a concatenation concatenates the encodings |
| HuffmanCode.EncodeEmptyCodes | src/compresion_texto.py:54 | symbols whose codes are all empty encode to no bits |
| HuffmanCode.EncodedLength | src/compresion_audio.py:227-230 | the sum of the code lengths of the input symbols is the number of bits written |
| HuffmanCode.WalkSucceeds | src/compresion_audio.py:260-268 | walking a tree with an internal root never fails, whatever the bits |
| HuffmanCode.LeafRootWalk | src/compresion_audio.py:260-268 | with a lone-leaf root, no bits decode to nothing and any bit fails, because the walk steps out of a leaf |
| HuffmanCode.CodeReachesLeaf | src/compresion_audio.py:260-268 | following the rest of a symbol's code from a node on its path emits that symbol and restarts at the root |
| HuffmanCode.DecodeEncodeThen | src/compresion_audio.py:260-268 | walking the codes of `xs` followed by other bits emits `xs` and then whatever those bits give |
| HuffmanCode.DecodeEncode | src/compresion_audio.py:246-271 | for a tree with an internal root, walking the codes of `xs` gives exactly `xs` |
| HuffmanCode.PartialPathSilent | src/compresion_audio.py:260-268 | a proper prefix of a code's remaining path emits nothing and does not fail |
| HuffmanCode.TrailingPartialCodeDropped | src/compresion_audio.py:260-268 | bits after the last completed code are discarded without error |
| HuffmanCode.PadLoneLeaf | src/compresion_audio.py:432-439 | the corrected tree always has an internal root with the same symbols, keeps every node's frequency the sum of its children's, and is the tree unchanged whenever that already held |
| TreeSerial.Reconstruct | src/compresion_audio.py:457-467 | a None node fails, a node without `frecuencia` fails, a rebuilt node keeps the stored frequency, and it is a leaf exactly when `hoja` is true |
| TreeSerial.ReconstructSerialize | src/compresion_audio.py:441-467 | rebuilding a stored tree gives the same shape, symbols and frequencies |
| TreeSerial.SerializeInjective | src/compresion_audio.py:441-455 | two different trees are never stored the same way |
| AudioRle.Interleave | src/compresion_audio.py:201-203 | the stream has two entries per run, the value at the even position and the length at the odd one |
| AudioRle.Evens | src/compresion_audio.py:215 | `c[0::2]` has `(len(c)+1)//2` entries, entry `k` being `c[2k]` |
| AudioRle.Odds | src/compresion_audio.py:216 | `c[1::2]` has `len(c)//2` entries, entry `k` being `c[2k+1]` |
| AudioRle.CompressRleShape | src/compresion_audio.py:188-206 | the stream is empty exactly for empty audio and has even length; every length is at least 1; neighbouring values differ; the lengths sum to the sample count |
| AudioRle.SplitInterleave | src/compresion_audio.py:215-216 | splitting an interleaved stream into even and odd positions gives back its runs |
| AudioRle.DecompressCompress | src/compresion_audio.py:188-221 | decoding the stream of any samples, the empty list included, gives the samples back |
| AudioRle.CompressExpand | src/compresion_audio.py:188-221 | encoding the expansion of well-formed runs gives back their interleaving |
| AudioRle.OddStreamRefused | src/compresion_audio.py:215-218 | a stream of odd length that does not hold exactly one length is refused with a shape error |
| AudioRle.SingleLengthBroadcast | src/compresion_audio.py:215-218 | a single length applies to every value: `[v, n, w]` gives `n` copies of `v` followed by `n` copies of `w` |
| BitPacking.SetBitOf | src/compresion_audio.py:240 | OR-ing `1 << (7 - p)` into a byte sets bit `p`, counted from the most significant, and changes no other bit |
| BitPacking.SetBitAt | src/compresion_audio.py:240 | setting a bit at a position of the byte string changes that position only |
| BitPacking.SetBit | src/compresion_audio.py:240 | the buffer afterwards has bit `pos` set and every other bit unchanged |
| BitPacking.WriteCode | src/compresion_audio.py:237-241 | after writing one code from position `start`, the buffer holds the stream's bits up to the code's end and zeros after, and the position has moved past the code |
| BitPacking.EncodeHuffman | src/compresion_audio.py:223-244 | fails exactly when some symbol has no code; otherwise the bit count is the length of the concatenated codes, and the `(bits+7)//8` bytes hold those bits most significant first with zero padding |
| BitPacking.UnpackPacked | src/compresion_audio.py:253-258 | unpacking packed bytes gives the packed bits first and only zero padding after them, fewer than 8 bits |
| BitPacking.PacksUnique | src/compresion_audio.py:231-241 | only one byte string packs a given bit list |
| BitPacking.TakeValid | src/compresion_audio.py:258 | `bits[:valid]` is the first `valid` bits, or all bits when there are fewer |
| BitPacking.DecodeHuffman | src/compresion_audio.py:246-271 | the result is the tree walk over the valid prefix of the unpacked bits |
| AudioCodec.AudioCompressor.constructor | src/compresion_audio.py:157-159 | a new compressor has an empty code table and no tree |
| AudioCodec.AudioCompressor.GenerateCodes | src/compresion_audio.py:432-439 | the table afterwards is the old table overwritten by each leaf's path below `node`; the tree field is unchanged |
| AudioCodec.AudioCompressor.BuildStreamTree | src/compresion_audio.py:162-186 | fails exactly for an empty stream; otherwise the tree is built for the stream's counts and its root frequency is the stream length |
| AudioCodec.AudioCompressor.Compress | src/compresion_audio.py:296-324 | empty audio fails and touches nothing; otherwise the compressor keeps a tree built for the RLE stream and that tree's codes, every stream symbol has a code, and the file holds the parameters, the sample count, the bit count, the stored tree and the packed bits |
| AudioCodec.AudioCompressor.Decompress | src/compresion_audio.py:354-367 | the result is the file's decoding; the rebuilt tree is kept when rebuilding succeeds; the code table is unchanged |
| AudioCodec.CodesCoverStream | src/compresion_audio.py:300-308 | every symbol of the stream has a code in the tree built for it, so the encoder's lookups never fail |
| AudioCodec.FileRoundTrip | src/compresion_audio.py:296-367 | a file written for non-empty samples decodes to the samples when the tree has an internal root, and to nothing when it is a lone leaf |
| AudioCodec.ManyRunsManySymbols | src/compresion_audio.py:195-203 | audio with two runs or more has at least two distinct stream symbols |
| AudioCodec.OneRunSymbols | src/compresion_audio.py:195-203 | a single run `[v, n]` has one distinct symbol exactly when `v == n` |
| AudioCodec.LoneSymbolStream | src/compresion_audio.py:195-203 | the stream has a single distinct symbol exactly when the audio is `n` copies of the value `n` |
| AudioCodec.CompressThenDecompress | src/compresion_audio.py:273-398 | empty audio fails; audio that is `n` copies of `n` comes back empty; all other audio comes back unchanged |
| AudioCodec.SingleSampleStream | src/compresion_audio.py:188-206 | the one-sample audio `[1]` has the stream `[1, 1]`, whose tree is the lone leaf `Leaf(1, 2)` |
| AudioCodec.SingleSampleLost | src/compresion_audio.py:432-439 | that stream encodes to no bits, and the file written for it decodes to nothing |
| AudioCodec.CorrectedFileRoundTrip | src/compresion_audio.py:296-367 | with the lone leaf padded into an internal node, every non-empty audio survives the round trip |
| TextCodec.FrequenciesSnoc | src/compresion_texto.py:46-47 | counting one more character adds one to its count or enters it with count 1 |
| TextCodec.CountFrequencies | src/compresion_texto.py:45-47 | the loop's table is the character count table of the text |
| TextCodec.GenerateCodes | src/compresion_texto.py:31-40 | the returned table is the given table overwritten by each leaf's path below `node` |
| TextCodec.ToBits | src/compresion_texto.py:59 | `"{0:0wb}"` gives exactly `w` binary digits |
| TextCodec.FromBits | src/compresion_texto.py:66 | the value of `w` binary digits is below `2^w` |
| TextCodec.FromToBits | src/compresion_texto.py:59 | reading back the digits of a value that fits gives the value |
| TextCodec.ToFromBits | src/compresion_texto.py:86 | writing back the value of 8 digits gives the same digits |
| TextCodec.PaddingCount | src/compresion_texto.py:57 | the padding count is between 1 and 8 and rounds the bit count up to whole bytes, so a whole number of bytes gets a full zero byte |
| TextCodec.Zeros | src/compresion_texto.py:58 | the padding is that many zero bits |
| TextCodec.FrameLength | src/compresion_texto.py:57-66 | the framed bits fill `1 + (len(bits) + padding) / 8` whole bytes |
| TextCodec.StripFrame | src/compresion_texto.py:83-91 | reading the padding field and dropping that many bits from the end recovers exactly the code bits |
| TextCodec.ZeroPaddingEmpties | src/compresion_texto.py:89-91 | a padding field of zero empties the bit string, as `[:-0]` does |
| TextCodec.BitsOfBytes | src/compresion_texto.py:84-86 | each byte unpacks to exactly 8 bits |
| TextCodec.PackBytes | src/compresion_texto.py:63-66 | one byte per started group of 8 bits, each the big-endian value of its group |
| TextCodec.UnpackBytes | src/compresion_texto.py:84-86 | the loop's bit string is every byte's 8 digits in order |
| TextCodec.UnpackPack | src/compresion_texto.py:62-86 | unpacking the bytes of whole groups of 8 bits gives the bits back |
| TextCodec.FrameAndPack | src/compresion_texto.py:57-66 | unpacking the stored bytes gives the padding field, the code bits and the padding |
| TextCodec.InvertCodes | src/compresion_texto.py:81 | the inverted table maps each code to a character that has that code, and has every code as a key |
| TextCodec.PrefixDecode | src/compresion_texto.py:93-100 | the loop's text is the greedy decoding of the bits |
| TextCodec.GreedyOneCode | src/compresion_texto.py:96-100 | with prefix-free codes, finishing a started code emits its character and clears the current code |
| TextCodec.GreedyEncode | src/compresion_texto.py:93-100 | with prefix-free non-empty codes, greedy decoding of the concatenated codes gives the text back |
| TextCodec.GreedyPartial | src/compresion_texto.py:96-100 | a proper prefix of a code emits nothing |
| TextCodec.GreedyDropsTrailingPartial | src/compresion_texto.py:93-100 | a trailing incomplete code is dropped without error |
| TextCodec.CompressText | src/compresion_texto.py:43-73 | empty text fails; otherwise the tree is built for the text's counts, the table is its codes and covers every character, and the bytes unpack to the framed code bits |
| TextCodec.DecompressText | src/compresion_texto.py:76-106 | an empty payload fails; otherwise the result is the greedy decoding, through the inverted table, of the bits left after the padding is stripped |
| TextCodec.DecodeStored | src/compresion_texto.py:76-100 | stored bytes decode to the text when the tree has an internal root, and to nothing when it is a lone leaf |
| TextCodec.TextRoundTrip | src/compresion_texto.py:43-106 | empty text fails; text with one distinct character comes back empty; all other text comes back unchanged |
| TextCodec.OneCharacterLost | src/compresion_texto.py:36-37 | "aaa" has the lone-leaf tree `Leaf('a', 3)`, encodes to no bits and is stored as the padding field and 8 zeros, which decode to nothing |
| TextCodec.CorrectedTextRoundTrip | src/compresion_texto.py:43-106 | with the lone leaf padded into an internal node, every non-empty text survives the round trip |
| ImageRle.FlattenRectLength | src/interfaz_grafica.py:368-370 | the flat list of `h` rows of width `w` has `w*h` pixels |
| ImageRle.FlattenAt | src/interfaz_grafica.py:368-370 | pixel `j` of row `i` is at position `i*w + j` of the flat list |
| ImageRle.FlattenRowMajor | src/compresion_imagen.py:44-45 | the flatten is row-major: every pixel `(i, j)` is in the flat list, at `i*w + j` |
| ImageRle.FlattenLength | src/interfaz_grafica.py:368-370 | the flat list's length is the sum of the row lengths |
| ImageRle.Slice | src/interfaz_grafica.py:516 | a Python slice has both ends clamped to the list length |
| ImageRle.Rows | src/interfaz_grafica.py:515-517 | there are `alto` rows |
| ImageRle.RowsOfFlatten | src/interfaz_grafica.py:515-517 | cutting the flat list of a `w`-wide image into rows gives the image back |
| ImageRle.RowsFull | src/interfaz_grafica.py:515-522 | every row holds `ancho` pixels, so the pixel loop can fill the image, exactly when there are at least `ancho*alto` pixels or no rows |
| ImageRle.CompressRle | src/interfaz_grafica.py:372-385 | on non-empty pixels, the loop's runs are the maximal runs: well formed, with counts summing to the pixel count (the script's copy, src/compresion_imagen.py lines 50-62, is the same loop) |
| ImageRle.DecompressRle | src/interfaz_grafica.py:387-392 | the loop's pixels are the runs' expansion, with as many pixels as the counts sum to (the script's copy, src/compresion_imagen.py lines 76-81, is the same loop) |
| ImageRle.CompressThenDecompress | src/interfaz_grafica.py:372-392 | decompressing the compressed pixels gives every non-empty pixel list back |
| ImageRle.UniformImage | src/interfaz_grafica.py:368-385 | a one-colour image gives one run of length `ancho*alto` |
| ImageContainer.BigEndian | src/interfaz_grafica.py:431-432 | `to_bytes(k)` gives `k` bytes |
| ImageContainer.FromBigEndian | src/interfaz_grafica.py:495-496 | `from_bytes` of `k` bytes is below `256^k` |
| ImageContainer.FromToBigEndian | src/interfaz_grafica.py:431-436 | reading back the bytes of a value that fits gives the value |
| ImageContainer.ToFromBigEndian | src/interfaz_grafica.py:495-508 | writing back the value of a byte string gives the same bytes |
| ImageContainer.Record | src/interfaz_grafica.py:435-436 | a record is 5 bytes |
| ImageContainer.Records | src/interfaz_grafica.py:434-436 | the records take 5 bytes per run |
| ImageContainer.WriteRecords | src/interfaz_grafica.py:434-436 | fails exactly when some count needs more than two bytes, naming that count; otherwise writes each run's record in order (the script's headerless file, src/compresion_imagen.py lines 95-100, is the same record loop) |
| ImageContainer.WriteContainer | src/interfaz_grafica.py:429-436 | fails exactly when the width or height needs more than 4 bytes or a count needs more than 2; otherwise writes width, height and records, `8 + 5*len(runs)` bytes |
| ImageContainer.Read | src/interfaz_grafica.py:495-505 | a read returns the requested bytes, or fewer at the end of the file |
| ImageContainer.ParseRecords | src/interfaz_grafica.py:499-509 | a body holds `len(body) // 5` whole records |
| ImageContainer.ReadRecords | src/interfaz_grafica.py:499-509 | the loop reads the whole records from the start offset and stops at the first short read |
| ImageContainer.ReadContainer | src/interfaz_grafica.py:493-509 | width and height come from the first two 4-byte reads, and the runs from the whole records that follow |
| ImageContainer.ParseRecordsOf | src/interfaz_grafica.py:434-436 | written records are read back as the runs they came from |
| ImageContainer.ReadWritten | src/interfaz_grafica.py:429-509 | reading what the writer produced, with fewer than 5 stray bytes appended, gives back the same width, height and runs |
| ImageContainer.ScriptRecordsReadBack | src/compresion_imagen.py:95-100 | the headerless file has 5 bytes per run, and its records parse back to the runs |
| ImageScript.BitLength | src/compresion_imagen.py:69 | the counter width is the smallest `b` with `max_run < 2^b`, which is `ceil(log2(max_run + 1))` |
| ImageScript.MaxRun | src/compresion_imagen.py:68 | the maximum is one of the counts and no count exceeds it |
| ImageScript.CostBits | src/compresion_imagen.py:67-71 | every count fits the counter field, the field is no wider than needed, the total is `len(runs) * (24 + width)`, and the third result is the largest count, which some run has |
| ImageScript.ScriptCheck | src/compresion_imagen.py:106-114 | for any non-empty image, the decompressed pixel count is `ancho*alto`, as the script asserts, and the rows give the image back |
| OutputNames.StripSuffix | src/interfaz_grafica.py:531-534 | a base name ending in `_comprimido` loses exactly those 11 characters; any other is kept whole (the text decompressor, lines 263-266 of the same file, applies the same rule) |
| OutputNames.StripCompressedName | src/interfaz_grafica.py:531-536 | a compressed file's base name gives the original base name followed by `_descomprimido.txt` or `_descomprimido.png` |

## Left out

- Audio playback (`ReproductorAudio`, `reproducir_audio`, `detener_audio`) is not modelled. It is a background thread, a lock and a sound device.
- File I/O is not modelled: WAV reading and writing, PIL image loading and saving, `open`, `os.makedirs`, `shutil.move` and path handling. Compression takes samples, text or pixels as values and returns the stored data as values.
- If a count overflows, the interface's container writer has already written a partial file before it fails. The model returns only the error.
- `pickle` is not modelled. The stored audio tree is the `Serial` datatype; the stored text pair is the `(codes, bytes)` value.
- `AudioCodec.AudioCompressor.Compress`: the sample width only matters to I/O and is not modelled. Width 1 is read as unsigned bytes. Width 2 is read as `int16`. Any other width is read as bytes but written back as `int16`.
- `AudioRle.CompressRle`: the int32 stream is not modelled. Values and lengths are unbounded integers, so a run longer than 2^31 - 1 samples does not wrap.
- `BitPacking.DecodeHuffman`: `bits_validos` is a natural number. A negative count from a hand-made file, which Python would slice from the end, is not modelled.
- `TreeSerial.Reconstruct`: a `None` child fails as soon as it is rebuilt. The source builds a node with a `None` child and fails only when the walk reaches it. The same holds at the root: the source rebuilds a stored `None` tree as `None`, so a file with that tree and zero valid bits decodes to an empty signal, where the model reports a failure.
- `TextCodec.InvertCodes`: when two characters share a code, the source keeps the last in dictionary order; the model keeps one of them, unspecified. Codes from a tree are distinct, so this never arises for a stored table.
- Text codes are strings of `'0'` and `'1'` in the source and bit sequences here. Text is a sequence of characters, with no encoding.
- Floating-point statistics are left out: ratios, percentages, KB figures and timings. So is `print` output.
- `ImageScript.BitLength`: `math.log2` is floating point. The model uses the exact integer bit length, so rounding of `log2` for very large counts is not modelled.
- The GUI classes and dialogs, `select_img` and `main.py` are not modelled. The script's top-level run is represented only by `ImageScript.ScriptCheck`.

## Findings

| source | as written | input that shows it | evidently intended | confidence | as-written member | corrected member |
|---|---|---|---|---|---|---|
| src/compresion_audio.py:432-439 | when the RLE stream has a single distinct symbol, the tree is a lone leaf and its code is empty, so no bits are written and decoding gives no samples | the one-sample audio `[1]`: stream `[1, 1]`, tree `Leaf(1, 2)`, zero valid bits, decoded as `[]`; generally any `n` copies of the value `n` | every non-empty audio decodes to itself | not executed | AudioCodec.SingleSampleLost | AudioCodec.CorrectedFileRoundTrip |
| src/compresion_texto.py:31-40 | text with a single distinct character gets a lone-leaf tree and the empty code, so only the padding is stored and decoding gives the empty text | `"aaa"`: tree `Leaf('a', 3)`, bits `""`, stored as padding field 8 and eight zeros, decoded as `""` | every non-empty text decodes to itself | not executed | TextCodec.OneCharacterLost | TextCodec.CorrectedTextRoundTrip |
