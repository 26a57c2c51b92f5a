/**
 * Code tables read off a Huffman tree, the concatenation of codes, and the
 * bit-by-bit walk down the tree that decodes them.
 *
 * Both codecs build their table by a depth-first walk that appends a 0 for a
 * left child and a 1 for a right child. The text codec keeps codes as strings
 * of '0' and '1' characters; here every code is a sequence of `Bit`.
 */
module HuffmanCode {
  import opened Wrappers
  import opened HuffmanTree

  type Bit = b: int | 0 <= b <= 1

  /** Following a child of a leaf: the source dereferences a missing child. */
  datatype DecodeError = StepFromLeaf

  lemma SymbolsOfTree<S>(t: Tree<S>)
    ensures t.Leaf? ==> Symbols(t) == {t.sym}
    ensures t.Node? ==> Symbols(t) == Symbols(t.left) + Symbols(t.right)
  {
    if t.Leaf? {
      assert (t.sym, t.freq) in Leaves(t);
    } else {
      forall s | s in Symbols(t.left) ensures s in Symbols(t) {
        var p :| p in Leaves(t.left) && p.0 == s;
        assert p in Leaves(t);
      }
      forall s | s in Symbols(t.right) ensures s in Symbols(t) {
        var p :| p in Leaves(t.right) && p.0 == s;
        assert p in Leaves(t);
      }
    }
  }

  /**
   * The table built by the depth-first walk: a leaf gets the path that reached
   * it; under a node the left subtree's codes are entered first and the right
   * subtree's after them, so a symbol found on both sides keeps its right code.
   */
  function CodeMap<S>(t: Tree<S>, prefix: seq<Bit>): (codes: map<S, seq<Bit>>)
    ensures codes.Keys == Symbols(t)
  {
    SymbolsOfTree(t);
    match t
    case Leaf(s, _) => map[s := prefix]
    case Node(_, l, r) => CodeMap(l, prefix + [0]) + CodeMap(r, prefix + [1])
  }

  lemma UnionAssociates<K, V>(a: map<K, V>, b: map<K, V>, c: map<K, V>)
    ensures (a + b) + c == a + (b + c)
  {
  }

  /** The table of a whole tree. */
  function Codes<S>(t: Tree<S>): map<S, seq<Bit>>
  {
    CodeMap(t, [])
  }

  /** Entering a table into an empty one gives that table. */
  lemma EmptyTableUnion<S>(codes: map<S, seq<Bit>>)
    ensures map[] + codes == codes
  {
  }

  predicate IsPrefix(a: seq<Bit>, b: seq<Bit>)
  {
    |a| <= |b| && b[..|a|] == a
  }

  /** No code is a prefix of another symbol's code. */
  predicate PrefixFree<S>(codes: map<S, seq<Bit>>)
  {
    forall a, b :: a in codes && b in codes && a != b ==> !IsPrefix(codes[a], codes[b])
  }

  /**
   * Every code extends the path it started from, and strictly so under an
   * internal node; in particular a lone leaf gets the empty code.
   */
  lemma {:induction false} CodesExtendPrefix<S>(t: Tree<S>, prefix: seq<Bit>)
    ensures forall s :: s in CodeMap(t, prefix) ==> IsPrefix(prefix, CodeMap(t, prefix)[s])
    ensures t.Node? ==> forall s :: s in CodeMap(t, prefix) ==> |CodeMap(t, prefix)[s]| > |prefix|
    ensures t.Leaf? ==> CodeMap(t, prefix) == map[t.sym := prefix]
  {
    match t
    case Leaf(_, _) =>
    case Node(_, l, r) =>
      var pl, pr := prefix + [0], prefix + [1];
      CodesExtendPrefix(l, pl);
      CodesExtendPrefix(r, pr);
      var codes := CodeMap(t, prefix);
      forall s | s in codes
        ensures IsPrefix(prefix, codes[s]) && |codes[s]| > |prefix|
      {
        var p := if s in CodeMap(r, pr) then pr else pl;
        PrefixOfExtension(prefix, p, codes[s]);
      }
  }

  /** A code that starts with `prefix + [b]` starts with `prefix` and is longer. */
  lemma PrefixOfExtension(prefix: seq<Bit>, p: seq<Bit>, c: seq<Bit>)
    requires |p| == |prefix| + 1 && p[..|prefix|] == prefix
    requires IsPrefix(p, c)
    ensures IsPrefix(prefix, c) && |c| > |prefix|
  {
    assert c[..|prefix|] == c[..|p|][..|prefix|];
  }

  /** Two prefix-free tables whose codes part at position `n` stay prefix-free together. */
  lemma PrefixFreeUnion<S>(left: map<S, seq<Bit>>, right: map<S, seq<Bit>>, n: nat)
    requires PrefixFree(left) && PrefixFree(right)
    requires forall a :: a in left ==> |left[a]| > n && left[a][n] == 0
    requires forall b :: b in right ==> |right[b]| > n && right[b][n] == 1
    ensures PrefixFree(left + right)
  {
    var codes := left + right;
    forall a, b | a in codes && b in codes && a != b
      ensures !IsPrefix(codes[a], codes[b])
    {
      if a in right && b in right {
        assert codes[a] == right[a] && codes[b] == right[b];
      } else if a !in right && b !in right {
        assert codes[a] == left[a] && codes[b] == left[b];
      } else {
        assert codes[a][n] != codes[b][n];
      }
    }
  }

  /** The code table of any tree is prefix-free, whether or not its symbols repeat. */
  lemma {:induction false} CodesPrefixFree<S>(t: Tree<S>, prefix: seq<Bit>)
    ensures PrefixFree(CodeMap(t, prefix))
  {
    match t
    case Leaf(_, _) =>
    case Node(_, l, r) =>
      var pl, pr := prefix + [0], prefix + [1];
      var left, right := CodeMap(l, pl), CodeMap(r, pr);
      CodesPrefixFree(l, pl);
      CodesPrefixFree(r, pr);
      CodesExtendPrefix(l, pl);
      CodesExtendPrefix(r, pr);
      var n := |prefix|;
      forall a | a in left ensures |left[a]| > n && left[a][n] == 0 {
        assert left[a][..|pl|] == pl;
        assert left[a][n] == left[a][..|pl|][n];
      }
      forall b | b in right ensures |right[b]| > n && right[b][n] == 1 {
        assert right[b][..|pr|] == pr;
        assert right[b][n] == right[b][..|pr|][n];
      }
      PrefixFreeUnion(left, right, n);
  }

  /** Under an internal root no code is empty. */
  lemma CodesNonEmpty<S>(t: Tree<S>)
    requires t.Node?
    ensures forall s :: s in Codes(t) ==> |Codes(t)[s]| >= 1
  {
    CodesExtendPrefix(t, []);
  }

  /** The bits of a symbol sequence: the codes of its symbols, concatenated in order. */
  function Encode<S>(xs: seq<S>, codes: map<S, seq<Bit>>): seq<Bit>
    requires forall x :: x in xs ==> x in codes
  {
    if xs == [] then [] else codes[xs[0]] + Encode(xs[1..], codes)
  }

  lemma {:induction false} EncodeAppend<S>(xs: seq<S>, ys: seq<S>, codes: map<S, seq<Bit>>)
    requires forall x :: x in xs + ys ==> x in codes
    ensures Encode(xs + ys, codes) == Encode(xs, codes) + Encode(ys, codes)
  {
    if xs == [] {
      assert xs + ys == ys;
    } else {
      assert (xs + ys)[1..] == xs[1..] + ys;
      EncodeAppend(xs[1..], ys, codes);
    }
  }

  /** With every code empty, nothing is emitted. */
  lemma {:induction false} EncodeEmptyCodes<S>(xs: seq<S>, codes: map<S, seq<Bit>>)
    requires forall x :: x in xs ==> x in codes && codes[x] == []
    ensures Encode(xs, codes) == []
  {
    if xs != [] {
      EncodeEmptyCodes(xs[1..], codes);
    }
  }

  /** Under a lone leaf every symbol has the empty code, so nothing is encoded. */
  lemma LeafEncodesNothing<S>(t: Tree<S>, xs: seq<S>)
    requires t.Leaf?
    requires forall x :: x in xs ==> x in Codes(t)
    ensures Encode(xs, Codes(t)) == []
  {
    CodesExtendPrefix(t, []);
    var codes := Codes(t);
    assert codes == map[t.sym := []];
    forall x | x in xs ensures x in codes && codes[x] == [] {
      assert x == t.sym;
    }
    EncodeEmptyCodes(xs, codes);
  }

  /** The number of bits `Encode` produces: the sum of the code lengths. */
  function EncodedLength<S>(xs: seq<S>, codes: map<S, seq<Bit>>): (n: nat)
    requires forall x :: x in xs ==> x in codes
    ensures n == |Encode(xs, codes)|
  {
    if xs == [] then 0 else |codes[xs[0]]| + EncodedLength(xs[1..], codes)
  }

  function Prepend<S>(xs: seq<S>, r: Result<seq<S>, DecodeError>): Result<seq<S>, DecodeError>
  {
    if r.Success? then Success(xs + r.value) else r
  }

  lemma PrependTwice<S>(xs: seq<S>, ys: seq<S>, r: Result<seq<S>, DecodeError>)
    ensures Prepend(xs, Prepend(ys, r)) == Prepend(xs + ys, r)
  {
    if r.Success? {
      assert xs + (ys + r.value) == (xs + ys) + r.value;
    }
  }

  /**
   * The decoding walk: from the current node each bit moves to the left (0)
   * or right (1) child; on reaching a leaf its symbol is emitted and the walk
   * restarts at the root. Bits that end part-way down a path are dropped.
   * Moving down from a leaf fails, as the source does when the root is a leaf.
   */
  function DecodeWalk<S>(root: Tree<S>, cur: Tree<S>, bits: seq<Bit>): Result<seq<S>, DecodeError>
    decreases |bits|
  {
    if bits == [] then Success([])
    else if cur.Leaf? then Failure(StepFromLeaf)
    else
      var next := if bits[0] == 0 then cur.left else cur.right;
      if next.Leaf? then Prepend([next.sym], DecodeWalk(root, root, bits[1..]))
      else DecodeWalk(root, next, bits[1..])
  }

  /** Under an internal root the walk never fails. */
  lemma {:induction false} WalkSucceeds<S>(root: Tree<S>, cur: Tree<S>, bits: seq<Bit>)
    requires root.Node? && cur.Node?
    ensures DecodeWalk(root, cur, bits).Success?
    decreases |bits|
  {
    if bits != [] {
      var next := if bits[0] == 0 then cur.left else cur.right;
      if next.Leaf? {
        WalkSucceeds(root, root, bits[1..]);
      } else {
        WalkSucceeds(root, next, bits[1..]);
      }
    }
  }

  /** A lone-leaf root decodes nothing: no bits give nothing, any bit fails. */
  lemma LeafRootWalk<S>(root: Tree<S>, bits: seq<Bit>)
    requires root.Leaf?
    ensures bits == [] ==> DecodeWalk(root, root, bits) == Success([])
    ensures bits != [] ==> DecodeWalk(root, root, bits) == Failure(StepFromLeaf)
  {
  }

  /** A code read from position `k` is its bit at `k` followed by the rest. */
  lemma CodeSplits<T>(c: seq<T>, k: nat, rest: seq<T>)
    requires k < |c|
    ensures c[k..] + rest == [c[k]] + (c[k + 1..] + rest)
  {
    assert c[k..] == [c[k]] + c[k + 1..];
  }

  /** Walking a symbol's code from where the code started emits exactly that symbol. */
  lemma {:induction false} CodeReachesLeaf<S>(root: Tree<S>, t: Tree<S>, prefix: seq<Bit>, s: S, rest: seq<Bit>)
    requires t.Node?
    requires s in CodeMap(t, prefix)
    ensures |prefix| <= |CodeMap(t, prefix)[s]|
    ensures DecodeWalk(root, t, CodeMap(t, prefix)[s][|prefix|..] + rest)
            == Prepend([s], DecodeWalk(root, root, rest))
  {
    var c := CodeMap(t, prefix)[s];
    var b := CodeChild(t, prefix, s);
    var sub, p := if b == 1 then t.right else t.left, prefix + [b];
    var tail := c[|p|..] + rest;
    CodeSplits(c, |prefix|, rest);
    if sub.Leaf? {
      LeafCode(sub, p, s, rest);
    } else {
      CodeReachesLeaf(root, sub, p, s, rest);
    }
    WalkThrough(root, t, b, tail, Prepend([s], DecodeWalk(root, root, rest)));
  }

  /** A leaf's table holds its own symbol, whose code ends where the path to the leaf ends. */
  lemma LeafCode<S>(leaf: Tree<S>, p: seq<Bit>, s: S, rest: seq<Bit>)
    requires leaf.Leaf? && s in CodeMap(leaf, p)
    ensures s == leaf.sym
    ensures CodeMap(leaf, p)[s][|p|..] + rest == rest
  {
    assert CodeMap(leaf, p)[s] == p;
  }

  /** The walk over `[b] + tail` from `t`, given where the step to the child leads. */
  lemma WalkThrough<S>(root: Tree<S>, t: Tree<S>, b: Bit, tail: seq<Bit>, r: Result<seq<S>, DecodeError>)
    requires t.Node?
    requires var sub := if b == 1 then t.right else t.left;
             if sub.Leaf? then Prepend([sub.sym], DecodeWalk(root, root, tail)) == r
             else DecodeWalk(root, sub, tail) == r
    ensures DecodeWalk(root, t, [b] + tail) == r
  {
    WalkStep(root, t, b, tail);
  }

  /** The bit after `prefix` in a symbol's code names the child whose table holds the symbol. */
  lemma CodeChild<S>(t: Tree<S>, prefix: seq<Bit>, s: S) returns (b: Bit)
    requires t.Node?
    requires s in CodeMap(t, prefix)
    ensures var sub := if b == 1 then t.right else t.left;
            && s in CodeMap(sub, prefix + [b])
            && CodeMap(t, prefix)[s] == CodeMap(sub, prefix + [b])[s]
            && |CodeMap(t, prefix)[s]| > |prefix|
            && CodeMap(t, prefix)[s][|prefix|] == b
  {
    var c := CodeMap(t, prefix)[s];
    b := if s in CodeMap(t.right, prefix + [1]) then 1 else 0;
    var sub, p := if b == 1 then t.right else t.left, prefix + [b];
    CodesExtendPrefix(sub, p);
    assert c == CodeMap(sub, p)[s];
    assert |c| >= |p| && c[..|p|] == p;
    assert c[..|p|][|prefix|] == c[|prefix|];
  }

  /** One step of the walk from an internal node. */
  lemma WalkStep<S>(root: Tree<S>, cur: Tree<S>, b: Bit, tail: seq<Bit>)
    requires cur.Node?
    ensures var next := if b == 0 then cur.left else cur.right;
            DecodeWalk(root, cur, [b] + tail)
            == if next.Leaf? then Prepend([next.sym], DecodeWalk(root, root, tail))
               else DecodeWalk(root, next, tail)
  {
    assert ([b] + tail)[1..] == tail;
  }

  /** Decoding the encoding of `xs` emits `xs` and goes on with what follows from the root. */
  lemma {:induction false} DecodeEncodeThen<S>(root: Tree<S>, xs: seq<S>, rest: seq<Bit>)
    requires root.Node?
    requires forall x :: x in xs ==> x in Symbols(root)
    ensures DecodeWalk(root, root, Encode(xs, Codes(root)) + rest) == Prepend(xs, DecodeWalk(root, root, rest))
  {
    if xs == [] {
      assert Encode(xs, Codes(root)) + rest == rest;
      PrependNothing(DecodeWalk(root, root, rest));
    } else {
      DecodeEncodeThen(root, xs[1..], rest);
      DecodeFirstCode(root, xs, rest);
    }
  }

  lemma PrependNothing<S>(r: Result<seq<S>, DecodeError>)
    ensures Prepend([], r) == r
  {
    if r.Success? {
      assert [] + r.value == r.value;
    }
  }

  /** The first symbol's code is walked, then the others' as the induction hypothesis says. */
  lemma DecodeFirstCode<S>(root: Tree<S>, xs: seq<S>, rest: seq<Bit>)
    requires root.Node? && xs != []
    requires forall x :: x in xs ==> x in Symbols(root)
    requires DecodeWalk(root, root, Encode(xs[1..], Codes(root)) + rest)
             == Prepend(xs[1..], DecodeWalk(root, root, rest))
    ensures DecodeWalk(root, root, Encode(xs, Codes(root)) + rest) == Prepend(xs, DecodeWalk(root, root, rest))
  {
    var codes := Codes(root);
    var x, more := xs[0], xs[1..];
    var tail := Encode(more, codes) + rest;
    assert Encode(xs, codes) + rest == codes[x] + tail;
    WholeCodeWalk(root, x, tail);
    PrependTwice([x], more, DecodeWalk(root, root, rest));
    assert [x] + more == xs;
  }

  /** Walking a whole code from the root emits its symbol and returns to the root. */
  lemma WholeCodeWalk<S>(root: Tree<S>, x: S, tail: seq<Bit>)
    requires root.Node? && x in Symbols(root)
    ensures DecodeWalk(root, root, Codes(root)[x] + tail) == Prepend([x], DecodeWalk(root, root, tail))
  {
    CodeReachesLeaf(root, root, [], x, tail);
    assert Codes(root)[x][0..] == Codes(root)[x];
  }

  /** Round trip: under an internal root, decoding the encoding gives the symbols back. */
  lemma DecodeEncode<S>(root: Tree<S>, xs: seq<S>)
    requires root.Node?
    requires forall x :: x in xs ==> x in Symbols(root)
    ensures DecodeWalk(root, root, Encode(xs, Codes(root))) == Success(xs)
  {
    DecodeEncodeThen(root, xs, []);
    assert Encode(xs, Codes(root)) + [] == Encode(xs, Codes(root));
    assert xs + [] == xs;
  }

  /** Stopping part-way along a code emits nothing and does not fail. */
  lemma {:induction false} PartialPathSilent<S>(root: Tree<S>, t: Tree<S>, prefix: seq<Bit>, s: S, k: nat)
    requires t.Node?
    requires s in CodeMap(t, prefix)
    requires |prefix| <= k < |CodeMap(t, prefix)[s]|
    ensures DecodeWalk(root, t, CodeMap(t, prefix)[s][|prefix|..k]) == Success([])
  {
    var c := CodeMap(t, prefix)[s];
    if k == |prefix| {
      assert c[|prefix|..k] == [];
    } else {
      var b := CodeChild(t, prefix, s);
      var sub, p := if b == 1 then t.right else t.left, prefix + [b];
      CodesExtendPrefix(sub, p);
      if sub.Leaf? {
        assert false;
      } else {
        SliceFront(c, |prefix|, k);
        PartialPathSilent(root, sub, p, s, k);
        WalkThrough(root, t, b, c[|p|..k], Success([]));
      }
    }
  }

  lemma SliceFront<T>(c: seq<T>, a: nat, k: nat)
    requires a < k <= |c|
    ensures c[a..k] == [c[a]] + c[a + 1..k]
  {
  }

  /**
   * A trailing incomplete code is dropped: after whole codes, bits that stop
   * part-way down a path leave the decoded symbols as they were.
   */
  lemma TrailingPartialCodeDropped<S>(root: Tree<S>, xs: seq<S>, s: S, k: nat)
    requires root.Node?
    requires forall x :: x in xs ==> x in Symbols(root)
    requires s in Symbols(root) && k < |Codes(root)[s]|
    ensures DecodeWalk(root, root, Encode(xs, Codes(root)) + Codes(root)[s][..k]) == Success(xs)
  {
    DecodeEncodeThen(root, xs, Codes(root)[s][..k]);
    PartialPathSilent(root, root, [], s, k);
    assert Codes(root)[s][0..k] == Codes(root)[s][..k];
    assert xs + [] == xs;
  }

  /**
   * The repair for a one-symbol table: the lone leaf is hung on both sides of
   * an internal node, so that its code is one bit long instead of empty. The
   * new root weighs both copies, so the weights stay consistent.
   */
  function PadLoneLeaf<S>(t: Tree<S>): (u: Tree<S>)
    ensures u.Node?
    ensures Symbols(u) == Symbols(t)
    ensures t.Node? ==> u == t
    ensures WeightsConsistent(t) ==> WeightsConsistent(u)
  {
    SymbolsOfTree(Node(2 * t.freq, t, t));
    if t.Leaf? then Node(2 * t.freq, t, t) else t
  }
}
