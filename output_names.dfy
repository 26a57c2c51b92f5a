/**
 * Names of decompressed files. A compressed file is named after its source
 * with `_comprimido` appended to the base name; the decompressor removes that
 * suffix, when present, before appending `_descomprimido` and the extension.
 */
module OutputNames {

  const Suffix: string := "_comprimido"

  predicate EndsWith(s: string, suffix: string)
  {
    |suffix| <= |s| && s[|s| - |suffix|..] == suffix
  }

  /** `nombre_base[:-11]` when the base name ends with `_comprimido`, the whole name otherwise. */
  function StripSuffix(base: string): (r: string)
    ensures EndsWith(base, Suffix) ==> r + Suffix == base
    ensures !EndsWith(base, Suffix) ==> r == base
  {
    if EndsWith(base, Suffix) then base[..|base| - 11] else base
  }

  /** The text decompressor's output name. */
  function DecompressedTextName(base: string): string
  {
    StripSuffix(base) + "_descomprimido.txt"
  }

  /** The image decompressor's output name. */
  function DecompressedImageName(base: string): string
  {
    StripSuffix(base) + "_descomprimido.png"
  }

  /** The base name of a compressed file loses exactly the suffix the compressor added. */
  lemma StripCompressedName(base: string)
    ensures StripSuffix(base + Suffix) == base
    ensures DecompressedTextName(base + Suffix) == base + "_descomprimido.txt"
    ensures DecompressedImageName(base + Suffix) == base + "_descomprimido.png"
  {
    assert (base + Suffix)[|base + Suffix| - |Suffix|..] == Suffix;
    assert (base + Suffix)[..|base|] == base;
  }
}
