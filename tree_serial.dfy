/**
 * The audio codec stores its Huffman tree in the compressed file as nested
 * dictionaries: a leaf is {simbolo, frecuencia, hoja: True}, an internal node
 * {frecuencia, hoja: False, izquierda, derecha}. Reading it back rebuilds the
 * nodes, failing on a missing key.
 */
module TreeSerial {
  import opened Wrappers
  import opened HuffmanTree

  /**
   * A serialized node: `Null` is Python's None; in a `Dict` each field is
   * `None` when the key is absent and `Some` when it is present.
   */
  datatype Serial<S> =
    | Null
    | Dict(hoja: Option<bool>, simbolo: Option<S>, frecuencia: Option<nat>,
           izquierda: Option<Serial<S>>, derecha: Option<Serial<S>>)

  /** A key the reader indexes is absent, or a node it needs is None. */
  datatype SerialError = MissingKey | NullNode

  /** `_serializar_arbol`. */
  function Serialize<S>(t: Tree<S>): Serial<S>
  {
    match t
    case Leaf(s, f) => Dict(Some(true), Some(s), Some(f), None, None)
    case Node(f, l, r) => Dict(Some(false), None, Some(f), Some(Serialize(l)), Some(Serialize(r)))
  }

  /**
   * `_reconstruir_arbol`: a dictionary whose `hoja` is true (absent counts as
   * false) becomes a leaf from `simbolo` and `frecuencia`; any other becomes
   * an internal node with `frecuencia` and its two rebuilt children.
   */
  function Reconstruct<S>(d: Serial<S>): (r: Result<Tree<S>, SerialError>)
    ensures d.Null? ==> r == Failure(NullNode)
    ensures d.Dict? && d.frecuencia.None? ==> r == Failure(MissingKey)
    ensures r.Success? ==> r.value.freq == d.frecuencia.value
    ensures r.Success? ==> (r.value.Leaf? <==> d.hoja == Some(true))
  {
    match d
    case Null => Failure(NullNode)
    case Dict(hoja, simbolo, frecuencia, izquierda, derecha) =>
      if hoja == Some(true) then
        if simbolo.None? || frecuencia.None? then Failure(MissingKey)
        else Success(Leaf(simbolo.value, frecuencia.value))
      else if frecuencia.None? || izquierda.None? || derecha.None? then Failure(MissingKey)
      else
        var l :- Reconstruct(izquierda.value);
        var r :- Reconstruct(derecha.value);
        Success(Node(frecuencia.value, l, r))
  }

  /** Reading back what was written gives the same tree. */
  lemma {:induction false} ReconstructSerialize<S>(t: Tree<S>)
    ensures Reconstruct(Serialize(t)) == Success(t)
  {
    match t
    case Leaf(_, _) =>
    case Node(_, l, r) =>
      ReconstructSerialize(l);
      ReconstructSerialize(r);
  }

  /** Two trees with the same serialization are the same tree. */
  lemma SerializeInjective<S>(t: Tree<S>, u: Tree<S>)
    requires Serialize(t) == Serialize(u)
    ensures t == u
  {
    ReconstructSerialize(t);
    ReconstructSerialize(u);
  }
}
