/**
 * Static Huffman trees and their construction, shared by the audio codec
 * (symbols are samples and run lengths) and the text codec (symbols are
 * characters).
 *
 * The source keeps a binary heap of nodes ordered by frequency only, pops the
 * two smallest, and pushes their merge until one node is left. The heap is
 * modelled here as a sequence from which a node of least frequency is chosen
 * with `:|`, so nothing proved below depends on how ties are broken.
 */
module HuffmanTree {
  import opened Wrappers

  /** A leaf carries a symbol and its count; an internal node the sum of its children's. */
  datatype Tree<S> = Leaf(sym: S, freq: nat) | Node(freq: nat, left: Tree<S>, right: Tree<S>)

  datatype BuildError = EmptyFrequencyTable

  /** The leaves, left to right, as (symbol, frequency) pairs. */
  function Leaves<S>(t: Tree<S>): seq<(S, nat)>
  {
    match t
    case Leaf(s, f) => [(s, f)]
    case Node(_, l, r) => Leaves(l) + Leaves(r)
  }

  /** The symbols at the leaves. */
  function Symbols<S>(t: Tree<S>): set<S>
  {
    set p | p in Leaves(t) :: p.0
  }

  /** Every internal node's frequency is the sum of its children's. */
  predicate WeightsConsistent<S>(t: Tree<S>)
  {
    match t
    case Leaf(_, _) => true
    case Node(f, l, r) => f == l.freq + r.freq && WeightsConsistent(l) && WeightsConsistent(r)
  }

  function SumFreqs<S>(ps: seq<(S, nat)>): nat
  {
    if ps == [] then 0 else ps[0].1 + SumFreqs(ps[1..])
  }

  /** No symbol occurs twice. */
  predicate DistinctSyms<S(==)>(ps: seq<(S, nat)>)
  {
    forall i, j :: 0 <= i < j < |ps| ==> ps[i].0 != ps[j].0
  }

  /** The frequency table of a sequence: its distinct values, each with its count. */
  function Frequencies<S(==)>(s: seq<S>): map<S, nat>
  {
    map x | x in s :: multiset(s)[x]
  }

  /**
   * What the construction promises: consistent weights, and leaves that are
   * exactly the entries of the frequency table, each symbol once.
   */
  predicate IsHuffmanTreeOf<S(==)>(t: Tree<S>, freqs: map<S, nat>)
  {
    && WeightsConsistent(t)
    && DistinctSyms(Leaves(t))
    && (forall p :: p in Leaves(t) ==> p.0 in freqs && p.1 == freqs[p.0])
    && (forall s :: s in freqs ==> (s, freqs[s]) in Leaves(t))
  }

  // ---------------------------------------------------------------------------
  // Facts about leaves and weights

  lemma {:induction false} SumFreqsAppend<S>(a: seq<(S, nat)>, b: seq<(S, nat)>)
    ensures SumFreqs(a + b) == SumFreqs(a) + SumFreqs(b)
  {
    if a == [] {
      assert a + b == b;
    } else {
      assert (a + b)[1..] == a[1..] + b;
      SumFreqsAppend(a[1..], b);
    }
  }

  /** A consistent tree's frequency is the total of its leaf frequencies. */
  lemma {:induction false} WeightIsLeafTotal<S>(t: Tree<S>)
    requires WeightsConsistent(t)
    ensures t.freq == SumFreqs(Leaves(t))
  {
    if t.Node? {
      WeightIsLeafTotal(t.left);
      WeightIsLeafTotal(t.right);
      SumFreqsAppend(Leaves(t.left), Leaves(t.right));
    }
  }

  /** Distinct leaves of a node split into distinct leaves on each side, with no symbol on both sides. */
  lemma DistinctSplit<S>(a: seq<(S, nat)>, b: seq<(S, nat)>)
    requires DistinctSyms(a + b)
    ensures DistinctSyms(a) && DistinctSyms(b)
    ensures forall p, q :: p in a && q in b ==> p.0 != q.0
  {
    forall i, j | 0 <= i < j < |a| ensures a[i].0 != a[j].0 {
      assert (a + b)[i] == a[i] && (a + b)[j] == a[j];
    }
    forall i, j | 0 <= i < j < |b| ensures b[i].0 != b[j].0 {
      assert (a + b)[|a| + i] == b[i] && (a + b)[|a| + j] == b[j];
    }
    forall p, q | p in a && q in b ensures p.0 != q.0 {
      var i :| 0 <= i < |a| && a[i] == p;
      var j :| 0 <= j < |b| && b[j] == q;
      assert (a + b)[i] == p && (a + b)[|a| + j] == q;
    }
  }

  // ---------------------------------------------------------------------------
  // Frequency tables

  /** A multiset holding `x` exactly `n` times has `n` elements. */
  lemma {:induction false} CopiesCardinality<S>(x: S, n: nat)
    ensures |multiset{}[x := n]| == n
  {
    if n > 0 {
      CopiesCardinality(x, n - 1);
      assert multiset{}[x := n] == multiset{}[x := n - 1] + multiset{x};
    }
  }

  /**
   * A list of distinct (symbol, count) pairs that enumerates a multiset adds
   * up to the multiset's size.
   */
  lemma {:induction false} SumOfCounts<S>(ps: seq<(S, nat)>, m: multiset<S>)
    requires DistinctSyms(ps)
    requires forall p :: p in ps <==> m[p.0] > 0 && p.1 == m[p.0]
    ensures SumFreqs(ps) == |m|
  {
    if ps == [] {
      assert forall y :: y in m ==> (y, m[y]) in ps;
      assert m == multiset{};
    } else {
      var s := ps[0].0;
      var rest := ps[1..];
      var m' := m[s := 0];
      assert ps[0] in ps;
      forall p ensures p in rest <==> m'[p.0] > 0 && p.1 == m'[p.0] {
        if p in rest {
          var k :| 0 <= k < |rest| && rest[k] == p;
          assert ps[k + 1] == p;
          assert p.0 != s;
        }
        if m'[p.0] > 0 && p.1 == m'[p.0] {
          assert p in ps;
          assert p != ps[0];
          var k :| 0 <= k < |ps| && ps[k] == p;
          assert rest[k - 1] == p;
        }
      }
      assert DistinctSyms(rest) by {
        forall i, j | 0 <= i < j < |rest| ensures rest[i].0 != rest[j].0 {
          assert ps[i + 1] == rest[i] && ps[j + 1] == rest[j];
        }
      }
      SumOfCounts(rest, m');
      assert m == m' + multiset{}[s := m[s]];
      CopiesCardinality(s, m[s]);
    }
  }

  /** A tree built over the frequency table of `s` weighs `|s|`: the table's counts add up to `|s|`. */
  lemma TreeOfDataWeight<S>(t: Tree<S>, s: seq<S>)
    requires IsHuffmanTreeOf(t, Frequencies(s))
    ensures t.freq == SumFreqs(Leaves(t)) == |s|
  {
    WeightIsLeafTotal(t);
    forall p ensures p in Leaves(t) <==> multiset(s)[p.0] > 0 && p.1 == multiset(s)[p.0] {
      assert p.0 in Frequencies(s) <==> p.0 in s;
    }
    SumOfCounts(Leaves(t), multiset(s));
  }

  /** Listed once each, the table's counts add up to the length of the input. */
  lemma FrequenciesTotal<S>(s: seq<S>, ps: seq<(S, nat)>)
    requires DistinctSyms(ps)
    requires forall p :: p in ps ==> p.0 in Frequencies(s) && p.1 == Frequencies(s)[p.0]
    requires forall x :: x in Frequencies(s) ==> (x, Frequencies(s)[x]) in ps
    ensures SumFreqs(ps) == |s|
  {
    forall p ensures p in ps <==> multiset(s)[p.0] > 0 && p.1 == multiset(s)[p.0] {
      assert p.0 in Frequencies(s) <==> p.0 in s;
    }
    SumOfCounts(ps, multiset(s));
  }

  /** The table has an entry for each distinct value, and is empty only for empty input. */
  lemma FrequenciesOf<S>(s: seq<S>)
    ensures forall x :: x in Frequencies(s) <==> x in s
    ensures forall x :: x in Frequencies(s) ==> Frequencies(s)[x] >= 1
    ensures |Frequencies(s)| == 0 <==> s == []
  {
    if s != [] {
      assert s[0] in Frequencies(s);
    }
  }

  lemma {:induction false} LeavesNonEmpty<S>(t: Tree<S>)
    ensures |Leaves(t)| >= 1
  {
    match t
    case Leaf(_, _) =>
    case Node(_, l, r) => LeavesNonEmpty(l);
  }

  /**
   * A tree built for a table has the table's symbols, and is a lone leaf
   * exactly when the table has one entry.
   */
  lemma HuffmanShape<S>(t: Tree<S>, freqs: map<S, nat>)
    requires IsHuffmanTreeOf(t, freqs)
    ensures Symbols(t) == freqs.Keys
    ensures t.Leaf? <==> |freqs| == 1
  {
    forall x | x in freqs ensures x in Symbols(t) {
      assert (x, freqs[x]) in Leaves(t);
    }
    if t.Leaf? {
      assert Leaves(t) == [(t.sym, t.freq)];
      assert freqs.Keys == {t.sym};
    } else {
      LeavesNonEmpty(t.left);
      LeavesNonEmpty(t.right);
      var ls := Leaves(t);
      assert ls[0] in ls && ls[1] in ls;
      assert ls[0].0 != ls[1].0;
      assert {ls[0].0, ls[1].0} <= freqs.Keys;
      assert |{ls[0].0, ls[1].0}| == 2;
      SubsetCard({ls[0].0, ls[1].0}, freqs.Keys);
    }
  }

  lemma SubsetCard<S>(a: set<S>, b: set<S>)
    requires a <= b
    ensures |a| <= |b|
  {
    assert b == a + (b - a);
  }

  // ---------------------------------------------------------------------------
  // The priority queue

  /** `q[i]` has least frequency in `q`: what a heap pop returns. */
  predicate IsMinAt<S>(q: seq<Tree<S>>, i: int)
  {
    0 <= i < |q| && forall j :: 0 <= j < |q| ==> q[i].freq <= q[j].freq
  }

  /** A non-empty queue has an element of least frequency. */
  function MinIndex<S>(q: seq<Tree<S>>): (i: nat)
    requires q != []
    ensures IsMinAt(q, i)
  {
    if |q| == 1 then 0
    else
      var k := MinIndex(q[1..]);
      if q[0].freq <= q[k + 1].freq then 0 else k + 1
  }

  /** The leaves of every tree in the queue, in queue order. */
  function ForestLeaves<S>(q: seq<Tree<S>>): seq<(S, nat)>
  {
    if q == [] then [] else ForestLeaves(q[..|q| - 1]) + Leaves(q[|q| - 1])
  }

  lemma {:induction false} ForestLeavesAppend<S>(a: seq<Tree<S>>, b: seq<Tree<S>>)
    ensures ForestLeaves(a + b) == ForestLeaves(a) + ForestLeaves(b)
  {
    if b == [] {
      assert a + b == a;
    } else {
      var b', last := b[..|b| - 1], b[|b| - 1];
      assert a + b == (a + b') + [last];
      assert b == b' + [last];
      calc {
        ForestLeaves(a + b);
        { ForestLeavesSnoc(a + b', last); }
        ForestLeaves(a + b') + Leaves(last);
        { ForestLeavesAppend(a, b'); }
        (ForestLeaves(a) + ForestLeaves(b')) + Leaves(last);
        ForestLeaves(a) + (ForestLeaves(b') + Leaves(last));
        { ForestLeavesSnoc(b', last); }
        ForestLeaves(a) + ForestLeaves(b);
      }
    }
  }

  lemma ForestLeavesSnoc<S>(q: seq<Tree<S>>, t: Tree<S>)
    ensures ForestLeaves(q + [t]) == ForestLeaves(q) + Leaves(t)
  {
    assert (q + [t])[..|q|] == q;
  }

  /** Popping `q[i]` takes exactly its leaves out of the forest. */
  lemma RemoveLeaves<S>(q: seq<Tree<S>>, i: nat)
    requires i < |q|
    ensures multiset(ForestLeaves(q)) ==
            multiset(ForestLeaves(q[..i] + q[i + 1..])) + multiset(Leaves(q[i]))
  {
    var front, back := q[..i], q[i + 1..];
    assert q == (front + [q[i]]) + back;
    ForestLeavesAppend(front + [q[i]], back);
    ForestLeavesAppend(front, [q[i]]);
    ForestLeavesAppend(front, back);
    assert [q[i]][..0] == [];
    assert ForestLeaves([q[i]]) == Leaves(q[i]);
    var lf, lt, lb := ForestLeaves(front), Leaves(q[i]), ForestLeaves(back);
    assert ForestLeaves(q) == (lf + lt) + lb;
    assert multiset((lf + lt) + lb) == multiset(lf) + multiset(lt) + multiset(lb);
    assert multiset(lf + lb) == multiset(lf) + multiset(lb);
  }

  /** A sequence of distinct symbols holds each pair at most once. */
  lemma {:induction false} DistinctCountAtMostOne<S>(a: seq<(S, nat)>, x: (S, nat))
    requires DistinctSyms(a)
    ensures multiset(a)[x] <= 1
  {
    if a != [] {
      assert a == [a[0]] + a[1..];
      assert DistinctSyms(a[1..]) by {
        forall i, j | 0 <= i < j < |a[1..]| ensures a[1..][i].0 != a[1..][j].0 {
          assert a[i + 1] == a[1..][i] && a[j + 1] == a[1..][j];
        }
      }
      DistinctCountAtMostOne(a[1..], x);
      if x == a[0] {
        assert x !in a[1..] by {
          forall k | 0 <= k < |a[1..]| ensures a[1..][k] != x {
            assert a[k + 1] == a[1..][k];
          }
        }
      }
    }
  }

  /** Rearranging a list of distinct symbols keeps them distinct. */
  lemma DistinctPermutation<S>(a: seq<(S, nat)>, b: seq<(S, nat)>)
    requires multiset(a) == multiset(b)
    requires DistinctSyms(a)
    ensures DistinctSyms(b)
    ensures forall p :: p in a <==> p in b
  {
    forall p ensures p in a <==> p in b {
      assert p in a <==> p in multiset(a);
      assert p in b <==> p in multiset(b);
    }
    forall i, j | 0 <= i < j < |b| ensures b[i].0 != b[j].0 {
      if b[i].0 == b[j].0 {
        assert b[i] in a && b[j] in a;
        var k :| 0 <= k < |a| && a[k] == b[i];
        var l :| 0 <= l < |a| && a[l] == b[j];
        assert k == l;
        assert b == b[..j] + b[j..];
        assert b[i] in b[..j] && b[j] in b[j..];
        assert multiset(b)[b[i]] == multiset(b[..j])[b[i]] + multiset(b[j..])[b[i]];
        DistinctCountAtMostOne(a, b[i]);
        assert false;
      }
    }
  }

  /** The heap's initial contents: one leaf per entry of the frequency table. */
  method InitialForest<S(==)>(freqs: map<S, nat>) returns (q: seq<Tree<S>>)
    ensures (q == []) == (|freqs| == 0)
    ensures forall t :: t in q ==> WeightsConsistent(t)
    ensures forall p :: p in ForestLeaves(q) ==> p.0 in freqs && p.1 == freqs[p.0]
    ensures forall s :: s in freqs ==> (s, freqs[s]) in ForestLeaves(q)
    ensures DistinctSyms(ForestLeaves(q))
  {
    q := [];
    var pending := freqs.Keys;
    while pending != {}
      invariant pending <= freqs.Keys
      invariant (q == []) == (pending == freqs.Keys)
      invariant forall t :: t in q ==> t.Leaf?
      invariant forall p :: p in ForestLeaves(q) ==> p.0 in freqs && p.0 !in pending && p.1 == freqs[p.0]
      invariant forall s :: s in freqs && s !in pending ==> (s, freqs[s]) in ForestLeaves(q)
      invariant DistinctSyms(ForestLeaves(q))
      decreases pending
    {
      var k :| k in pending;
      ghost var before := ForestLeaves(q);
      ForestLeavesAppend(q, [Leaf(k, freqs[k])]);
      assert ForestLeaves([Leaf(k, freqs[k])]) == [(k, freqs[k])] by {
        assert [Leaf(k, freqs[k])][..0] == [];
      }
      q := q + [Leaf(k, freqs[k])];
      assert ForestLeaves(q) == before + [(k, freqs[k])];
      pending := pending - {k};
    }
    assert |freqs| == 0 <==> freqs.Keys == {};
  }

  /** Pushing the merge of two popped nodes puts their leaves back. */
  lemma MergedLeaves<S>(q: seq<Tree<S>>, first: Tree<S>, second: Tree<S>)
    ensures multiset(ForestLeaves(q + [Node(first.freq + second.freq, first, second)])) ==
            multiset(ForestLeaves(q)) + multiset(Leaves(first)) + multiset(Leaves(second))
  {
    var merged := Node(first.freq + second.freq, first, second);
    ForestLeavesAppend(q, [merged]);
    assert ForestLeaves([merged]) == Leaves(first) + Leaves(second) by {
      assert [merged][..0] == [];
    }
  }

  /** The last tree standing has the initial forest's leaves, rearranged. */
  lemma LeavesOfPermutedForest<S>(initial: seq<(S, nat)>, root: Tree<S>, freqs: map<S, nat>)
    requires multiset(Leaves(root)) == multiset(initial)
    requires DistinctSyms(initial)
    requires forall p :: p in initial ==> p.0 in freqs && p.1 == freqs[p.0]
    requires forall s :: s in freqs ==> (s, freqs[s]) in initial
    requires WeightsConsistent(root)
    ensures IsHuffmanTreeOf(root, freqs)
  {
    var leaves := Leaves(root);
    DistinctPermutation(initial, leaves);
    forall p | p in leaves ensures p.0 in freqs && p.1 == freqs[p.0] {
      assert p in multiset(leaves);
      assert p in initial;
    }
    forall s | s in freqs ensures (s, freqs[s]) in leaves {
      assert (s, freqs[s]) in multiset(initial);
    }
  }

  /** `heappop`: removes and returns a node of least frequency. */
  method PopMin<S>(q: seq<Tree<S>>) returns (t: Tree<S>, rest: seq<Tree<S>>)
    requires q != []
    ensures forall j :: 0 <= j < |q| ==> t.freq <= q[j].freq
    ensures t in q && |rest| == |q| - 1
    ensures forall u :: u in rest ==> u in q
    ensures multiset(rest) + multiset{t} == multiset(q)
    ensures multiset(ForestLeaves(q)) == multiset(ForestLeaves(rest)) + multiset(Leaves(t))
  {
    assert IsMinAt(q, MinIndex(q));
    var i :| 0 <= i < |q| && forall j :: 0 <= j < |q| ==> q[i].freq <= q[j].freq;
    t := q[i];
    rest := q[..i] + q[i + 1..];
    RemoveLeaves(q, i);
    RemainingFromQueue(q, i);
    RemovedOne(q, i);
  }

  /** Taking out the node at `i` leaves the heap's other nodes. */
  lemma RemovedOne<S>(q: seq<Tree<S>>, i: nat)
    requires i < |q|
    ensures multiset(q[..i] + q[i + 1..]) + multiset{q[i]} == multiset(q)
  {
    assert q == q[..i] + [q[i]] + q[i + 1..];
  }

  lemma RemainingFromQueue<S>(q: seq<Tree<S>>, i: nat)
    requires i < |q|
    ensures forall u :: u in q[..i] + q[i + 1..] ==> u in q
  {
    var rest := q[..i] + q[i + 1..];
    forall u | u in rest ensures u in q {
      var k :| 0 <= k < |rest| && rest[k] == u;
      if k < i { assert q[k] == u; } else { assert q[k + 1] == u; }
    }
  }

  /**
   * `q'` is `q` after one round of the heap loop that popped `a` and then `b`:
   * `a` has the least frequency in `q`, `b` the least among the rest, and the
   * node merging them is pushed onto what is left.
   */
  ghost predicate MergesLeastTwo<S>(q: seq<Tree<S>>, a: Tree<S>, b: Tree<S>, rest: seq<Tree<S>>, q': seq<Tree<S>>)
  {
    && q' == rest + [Node(a.freq + b.freq, a, b)]
    && multiset(rest) + multiset{a, b} == multiset(q)
    && (forall t :: t in q ==> a.freq <= t.freq)
    && (forall t :: t in rest ==> b.freq <= t.freq)
  }

  /**
   * `q'` follows from `q` by one round of the heap loop: the pushed node is
   * last, and its children are the two trees that were popped.
   */
  ghost predicate MergeStep<S>(q: seq<Tree<S>>, q': seq<Tree<S>>)
  {
    && q' != []
    && q'[|q'| - 1].Node?
    && MergesLeastTwo(q, q'[|q'| - 1].left, q'[|q'| - 1].right, q'[..|q'| - 1], q')
  }

  /** Each heap in the trace follows from the one before by one round of the loop. */
  ghost predicate MergeTrace<S>(trace: seq<seq<Tree<S>>>)
  {
    && |trace| >= 1
    && forall k :: 0 < k < |trace| ==> MergeStep(trace[k - 1], trace[k])
  }

  /**
   * One round of the heap loop: pop two nodes of least frequency and push the
   * node that merges them, with their summed frequency.
   */
  method MergeTwo<S>(q: seq<Tree<S>>) returns (q': seq<Tree<S>>)
    requires |q| > 1
    requires forall t :: t in q ==> WeightsConsistent(t)
    ensures |q'| == |q| - 1
    ensures MergeStep(q, q')
    ensures forall t :: t in q' ==> WeightsConsistent(t)
    ensures multiset(ForestLeaves(q')) == multiset(ForestLeaves(q))
  {
    var first, rest1 := PopMin(q);
    var second, rest2 := PopMin(rest1);
    q' := rest2 + [Node(first.freq + second.freq, first, second)];
    PoppedKeepInvariants(q, first, rest1, second, rest2);
    TwoPopsMerge(q, first, rest1, second, rest2);
  }

  /** Merging two popped trees keeps the heap's weights consistent and its leaves. */
  lemma PoppedKeepInvariants<S>(q: seq<Tree<S>>, first: Tree<S>, rest1: seq<Tree<S>>, second: Tree<S>, rest2: seq<Tree<S>>)
    requires forall t :: t in q ==> WeightsConsistent(t)
    requires first in q && second in rest1
    requires forall u :: u in rest1 ==> u in q
    requires forall u :: u in rest2 ==> u in rest1
    requires multiset(ForestLeaves(q)) == multiset(ForestLeaves(rest1)) + multiset(Leaves(first))
    requires multiset(ForestLeaves(rest1)) == multiset(ForestLeaves(rest2)) + multiset(Leaves(second))
    ensures var q' := rest2 + [Node(first.freq + second.freq, first, second)];
      && (forall t :: t in q' ==> WeightsConsistent(t))
      && multiset(ForestLeaves(q')) == multiset(ForestLeaves(q))
  {
    MergedLeaves(rest2, first, second);
    MergedConsistent(rest2, first, second);
  }

  /** Two successive `heappop`s followed by a push of their merge make one round. */
  lemma TwoPopsMerge<S>(q: seq<Tree<S>>, first: Tree<S>, rest1: seq<Tree<S>>, second: Tree<S>, rest2: seq<Tree<S>>)
    requires forall j :: 0 <= j < |q| ==> first.freq <= q[j].freq
    requires multiset(rest1) + multiset{first} == multiset(q)
    requires forall j :: 0 <= j < |rest1| ==> second.freq <= rest1[j].freq
    requires forall u :: u in rest2 ==> u in rest1
    requires multiset(rest2) + multiset{second} == multiset(rest1)
    ensures MergeStep(q, rest2 + [Node(first.freq + second.freq, first, second)])
  {
    var q' := rest2 + [Node(first.freq + second.freq, first, second)];
    forall t | t in q ensures first.freq <= t.freq {
      var j :| 0 <= j < |q| && q[j] == t;
    }
    forall t | t in rest2 ensures second.freq <= t.freq {
      var j :| 0 <= j < |rest1| && rest1[j] == t;
    }
    assert q'[..|q'| - 1] == rest2;
  }

  /** The merged node keeps its weight equal to its leaves' total. */
  lemma MergedConsistent<S>(q: seq<Tree<S>>, first: Tree<S>, second: Tree<S>)
    requires WeightsConsistent(first) && WeightsConsistent(second)
    requires forall t :: t in q ==> WeightsConsistent(t)
    ensures forall t :: t in q + [Node(first.freq + second.freq, first, second)] ==> WeightsConsistent(t)
  {
    var merged := Node(first.freq + second.freq, first, second);
    assert WeightsConsistent(merged);
    forall t | t in q + [merged] ensures WeightsConsistent(t) {
      if t !in q {
        assert t == merged;
      }
    }
  }

  /**
   * The heap loop: merge until a single node is queued. The ghost `trace`
   * records the heap after each round, from `q0` down to `[root]`.
   */
  method MergeAll<S>(q0: seq<Tree<S>>) returns (root: Tree<S>, ghost trace: seq<seq<Tree<S>>>)
    requires q0 != []
    requires forall t :: t in q0 ==> WeightsConsistent(t)
    ensures WeightsConsistent(root)
    ensures multiset(Leaves(root)) == multiset(ForestLeaves(q0))
    ensures MergeTrace(trace) && trace[0] == q0 && trace[|trace| - 1] == [root]
  {
    var q := q0;
    trace := [q0];
    while |q| > 1
      invariant |q| >= 1
      invariant forall t :: t in q ==> WeightsConsistent(t)
      invariant multiset(ForestLeaves(q)) == multiset(ForestLeaves(q0))
      invariant MergeTrace(trace) && trace[0] == q0 && trace[|trace| - 1] == q
      decreases |q|
    {
      var q' := MergeTwo(q);
      TraceSnoc(trace, q');
      trace := trace + [q'];
      q := q';
    }
    root := q[0];
    assert ForestLeaves(q) == Leaves(root) by {
      assert q[..0] == [];
    }
    assert q == [root];
  }

  /** A round of the loop after the last heap of a trace extends the trace. */
  lemma TraceSnoc<S>(trace: seq<seq<Tree<S>>>, q': seq<Tree<S>>)
    requires MergeTrace(trace)
    requires MergeStep(trace[|trace| - 1], q')
    ensures MergeTrace(trace + [q'])
  {
    var t' := trace + [q'];
    forall k | 0 < k < |t'| ensures MergeStep(t'[k - 1], t'[k]) {
      if k < |trace| {
        assert t'[k - 1] == trace[k - 1] && t'[k] == trace[k];
      }
    }
  }

  /**
   * The Huffman construction: one leaf per table entry, then merge until one
   * node remains. An empty table fails where the source indexes the empty heap.
   */
  method BuildTree<S(==)>(freqs: map<S, nat>) returns (r: Result<Tree<S>, BuildError>)
    ensures r.Failure? <==> |freqs| == 0
    ensures r.Success? ==> IsHuffmanTreeOf(r.value, freqs)
  {
    var q := InitialForest(freqs);
    if q == [] {
      return Failure(EmptyFrequencyTable);
    }
    var root, _ := MergeAll(q);
    LeavesOfPermutedForest(ForestLeaves(q), root, freqs);
    return Success(root);
  }
}
