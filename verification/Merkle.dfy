/** The multi-chain multi-sig Merkle tree of `contracts/src/mcms/merkle-proof.ts`.

    The node hash is an arbitrary function `h` on 256-bit words. No such function is injective, so
    soundness names the pairs: a forged membership proof exhibits a step of its own fold that hashes
    like a pair of the tree without being that pair.
 */
module Merkle {
  import opened Prelude
  import opened Bits

  type Word = Uint256

  type NodeHash = (Word, Word) -> Word

  /* ---------- specification ---------- */

  /** Sorted-pair hashing. */
  function HashPair(h: NodeHash, a: Word, b: Word): Word {
    if a < b then h(a, b) else h(b, a)
  }

  /** The two words in the order in which they are hashed. */
  function Sorted(a: Word, b: Word): (Word, Word) {
    if a < b then (a, b) else (b, a)
  }

  /** The smaller word is hashed first. */
  lemma {:induction false} HashPairIsSorted(h: NodeHash, a: Word, b: Word)
    ensures HashPair(h, a, b) == HashPair(h, b, a)
    ensures a <= b ==> HashPair(h, a, b) == h(a, b)
  {
  }

  /** One layer up: an odd last node is dropped. */
  function NextLayer(h: NodeHash, data: seq<Word>): (r: seq<Word>)
    ensures 2 * |r| <= |data| <= 2 * |r| + 1
    ensures forall i :: 0 <= i < |r| ==> r[i] == HashPair(h, data[2 * i], data[2 * i + 1])
  {
    if |data| < 2 then [] else [HashPair(h, data[0], data[1])] + NextLayer(h, data[2..])
  }

  function Layer(h: NodeHash, leaves: seq<Word>, j: nat): seq<Word> {
    if j == 0 then leaves else NextLayer(h, Layer(h, leaves, j - 1))
  }

  function Root(h: NodeHash, leaves: seq<Word>): Word
    requires |leaves| >= 1
    decreases |leaves|
  {
    if |leaves| == 1 then leaves[0] else Root(h, NextLayer(h, leaves))
  }

  /** Textbook Merkle trees. */
  datatype Tree = Leaf(word: Word) | Node(left: Tree, right: Tree)

  function TreeRoot(h: NodeHash, t: Tree): Word {
    match t
    case Leaf(w) => w
    case Node(l, r) => HashPair(h, TreeRoot(h, l), TreeRoot(h, r))
  }

  function Fringe(t: Tree): seq<Word> {
    match t
    case Leaf(w) => [w]
    case Node(l, r) => Fringe(l) + Fringe(r)
  }

  /** All leaves at depth k. */
  ghost predicate Perfect(t: Tree, k: nat) {
    match t
    case Leaf(_) => k == 0
    case Node(l, r) => k > 0 && Perfect(l, k - 1) && Perfect(r, k - 1)
  }

  /** The perfect tree over 2^k leaves, by halving. */
  function TreeOver(leaves: seq<Word>, k: nat): Tree
    requires |leaves| == Pow2(k)
    decreases k
  {
    if k == 0 then Leaf(leaves[0])
    else
      var half := Pow2(k - 1);
      Node(TreeOver(leaves[..half], k - 1), TreeOver(leaves[half..], k - 1))
  }

  /** An array read in JavaScript: `undefined` outside the bounds. */
  function At(data: seq<Word>, i: int): Option<Word> {
    if 0 <= i < |data| then Some(data[i]) else None
  }

  function Sibling(data: seq<Word>, index: int): Option<Word> {
    At(data, if index % 2 == 1 then index - 1 else index + 1)
  }

  function Siblings(h: NodeHash, data: seq<Word>, index: int): seq<Option<Word>>
    decreases |data|
  {
    if |data| <= 1 then []
    else [Sibling(data, index)] + Siblings(h, NextLayer(h, data), index / 2)
  }

  /** Folding a leaf with a proof, bottom up. */
  function Fold(h: NodeHash, leaf: Word, proof: seq<Word>): Word
    decreases |proof|
  {
    if proof == [] then leaf else Fold(h, HashPair(h, leaf, proof[0]), proof[1..])
  }

  /** The proof as words, when none of its entries is undefined. */
  ghost predicate Defined(proof: seq<Option<Word>>) {
    forall i :: 0 <= i < |proof| ==> proof[i].Some?
  }

  function Words(proof: seq<Option<Word>>): (r: seq<Word>)
    requires Defined(proof)
    ensures |r| == |proof|
  {
    seq(|proof|, i requires 0 <= i < |proof| => proof[i].value)
  }

  /** The verifier accepts `leaf` with `proof` for the tree over `leaves`. */
  ghost predicate Accepts(h: NodeHash, leaves: seq<Word>, leaf: Word, proof: seq<Word>)
    requires |leaves| >= 1
  {
    Fold(h, leaf, proof) == Root(h, leaves)
  }

  /* ---------- the code ---------- */

  method HashLevel(h: NodeHash, data: seq<Word>) returns (newData: seq<Word>)
    ensures newData == NextLayer(h, data)
  {
    newData := [];
    var i := 0;
    while i < |data| - 1
      invariant 0 <= i <= |data| && i % 2 == 0
      invariant newData == NextLayer(h, data)[..i / 2]
    {
      newData := newData + [HashPair(h, data[i], data[i + 1])];
      i := i + 2;
    }
  }

  /** None: the root of no leaves is `undefined`. */
  method ComputeRoot(h: NodeHash, leaves: seq<Word>) returns (root: Option<Word>)
    ensures root == if leaves == [] then None else Some(Root(h, leaves))
  {
    var currentLayer := leaves;
    while |currentLayer| > 1
      invariant leaves == [] <==> currentLayer == []
      invariant leaves != [] ==> Root(h, currentLayer) == Root(h, leaves)
      decreases |currentLayer|
    {
      currentLayer := HashLevel(h, currentLayer);
    }
    root := At(currentLayer, 0);
  }

  /** None stands for the minus infinity that the logarithm of zero gives. */
  function ProofLen(leavesLen: nat): Option<nat> {
    if leavesLen == 0 then None else Some(CeilLog2(leavesLen))
  }

  /** Returns normally exactly for a power of two of at least two leaves, whatever the index. */
  method ComputeProofForLeaf(h: NodeHash, leaves: seq<Word>, leafIndex: int)
    returns (r: Result<seq<Option<Word>>>)
    ensures r.Ok? <==> |leaves| >= 2 && IsPow2(|leaves|)
    ensures r.Ok? ==> |r.value| == CeilLog2(|leaves|) && r.value == Siblings(h, leaves, leafIndex)
    ensures r.Ok? && 0 <= leafIndex < |leaves| ==>
              Defined(r.value) && Accepts(h, leaves, leaves[leafIndex], Words(r.value))
  {
    LengthsAgreeOnlyOnPowers(h, leaves, leafIndex);
    if |leaves| % 2 != 0 {
      OddPow2IsOne(|leaves|);
      return Err;
    }
    var expected := ProofLen(|leaves|);
    var data, index, proof := leaves, leafIndex, [];
    while |data| > 1
      invariant leaves == [] <==> data == []
      invariant proof + Siblings(h, data, index) == Siblings(h, leaves, leafIndex)
      decreases |data|
    {
      var side := Sibling(data, index);
      proof := proof + [side];
      index := index / 2;
      data := HashLevel(h, data);
    }
    assert proof == Siblings(h, leaves, leafIndex);
    if expected != Some(|proof|) { return Err; }
    r := Ok(proof);
    if 0 <= leafIndex < |leaves| { PerfectProofVerifies(h, leaves, leafIndex); }
  }

  /** The on-chain verifier's loop. */
  method ProcessProof(h: NodeHash, proof: seq<Word>, leaf: Word) returns (computed: Word)
    ensures computed == Fold(h, leaf, proof)
  {
    computed := leaf;
    var rest := proof;
    while rest != []
      invariant Fold(h, computed, rest) == Fold(h, leaf, proof)
      decreases |rest|
    {
      computed := HashPair(h, computed, rest[0]);
      rest := rest[1..];
    }
  }

  const ROOT_METADATA_LEAF_INDEX := 0

  function LeafIndexOfOp(opIndex: nat): nat {
    if opIndex < ROOT_METADATA_LEAF_INDEX then opIndex else opIndex + 1
  }

  /** The metadata leaf first, then the operations in order. */
  function LeavesOf<Op>(ops: seq<Op>, metadataLeaf: Word, leafOf: Op -> Word): seq<Word> {
    [metadataLeaf] + seq(|ops|, i requires 0 <= i < |ops| => leafOf(ops[i]))
  }

  method ConstructLeaves<Op>(ops: seq<Op>, metadataLeaf: Word, leafOf: Op -> Word)
    returns (leaves: seq<Word>)
    ensures leaves == LeavesOf(ops, metadataLeaf, leafOf)
    ensures |leaves| == |ops| + 1 && leaves[ROOT_METADATA_LEAF_INDEX] == metadataLeaf
    ensures forall i :: 0 <= i < |ops| ==> leaves[LeafIndexOfOp(i)] == leafOf(ops[i])
  {
    var slots := new Word[|ops| + 1];
    slots[ROOT_METADATA_LEAF_INDEX] := metadataLeaf;
    for i := 0 to |ops|
      invariant slots[ROOT_METADATA_LEAF_INDEX] == metadataLeaf
      invariant forall j :: 0 <= j < i ==> slots[LeafIndexOfOp(j)] == leafOf(ops[j])
    {
      var leafIndex := if i >= ROOT_METADATA_LEAF_INDEX then i + 1 else i;
      slots[leafIndex] := leafOf(ops[i]);
    }
    leaves := slots[..];
    assert forall i :: 1 <= i < |leaves| ==> leaves[i] == slots[LeafIndexOfOp(i - 1)];
  }

  datatype SignedTree = SignedTree(root: Word, metadataProof: seq<Word>, opProofs: seq<seq<Word>>)

  /** The tree that `build` signs: it exists exactly when the operations and the metadata leaf
      fill a perfect tree, and then every leaf has a proof that the verifier accepts. */
  method Build<Op>(h: NodeHash, ops: seq<Op>, metadataLeaf: Word, leafOf: Op -> Word)
    returns (r: Result<SignedTree>)
    ensures r.Ok? <==> |ops| >= 1 && IsPow2(|ops| + 1)
    ensures r.Ok? ==>
              && r.value.root == Root(h, LeavesOf(ops, metadataLeaf, leafOf))
              && Fold(h, metadataLeaf, r.value.metadataProof) == r.value.root
              && |r.value.metadataProof| == CeilLog2(|ops| + 1)
              && |r.value.opProofs| == |ops|
              && forall i :: 0 <= i < |ops| ==>
                   && |r.value.opProofs[i]| == CeilLog2(|ops| + 1)
                   && Fold(h, leafOf(ops[i]), r.value.opProofs[i]) == r.value.root
  {
    var leaves := ConstructLeaves(ops, metadataLeaf, leafOf);
    var root := ComputeRoot(h, leaves);
    var metadataProof := ProveLeaf(h, leaves, ROOT_METADATA_LEAF_INDEX);
    if metadataProof.Err? { return Err; }
    var opProofs: seq<seq<Word>> := [];
    for i := 0 to |ops|
      invariant |opProofs| == i
      invariant forall j :: 0 <= j < i ==> ProvesLeaf(h, leaves, LeafIndexOfOp(j), opProofs[j])
    {
      var proof := ProveLeaf(h, leaves, LeafIndexOfOp(i));
      opProofs := opProofs + [proof.value];
    }
    r := Ok(SignedTree(root.value, metadataProof.value, opProofs));
    assert forall j :: 0 <= j < |ops| ==> ProvesLeaf(h, leaves, LeafIndexOfOp(j), opProofs[j]);
  }

  /** The proof of a leaf of the tree. */
  method ProveLeaf(h: NodeHash, leaves: seq<Word>, index: nat) returns (r: Result<seq<Word>>)
    requires index < |leaves|
    ensures r.Ok? <==> |leaves| >= 2 && IsPow2(|leaves|)
    ensures r.Ok? ==> ProvesLeaf(h, leaves, index, r.value)
  {
    var proof := ComputeProofForLeaf(h, leaves, index);
    r := if proof.Err? then Err else Ok(Words(proof.value));
  }

  ghost predicate ProvesLeaf(h: NodeHash, leaves: seq<Word>, index: nat, proof: seq<Word>) {
    && index < |leaves|
    && |proof| == CeilLog2(|leaves|)
    && Accepts(h, leaves, leaves[index], proof)
  }

  /* ---------- roots ---------- */

  lemma {:induction false} TreeOverIsPerfect(leaves: seq<Word>, k: nat)
    requires |leaves| == Pow2(k)
    ensures Perfect(TreeOver(leaves, k), k) && Fringe(TreeOver(leaves, k)) == leaves
    decreases k
  {
    if k == 0 {
    } else {
      var half := Pow2(k - 1);
      TreeOverIsPerfect(leaves[..half], k - 1);
      TreeOverIsPerfect(leaves[half..], k - 1);
      assert leaves == leaves[..half] + leaves[half..];
    }
  }

  /** The tree with its lowest layer hashed away. */
  ghost function Collapse(h: NodeHash, t: Tree): Tree
    requires t.Node?
  {
    if t.left.Leaf? || t.right.Leaf? then Leaf(TreeRoot(h, t))
    else Node(Collapse(h, t.left), Collapse(h, t.right))
  }

  lemma {:induction false} NextLayerSplits(h: NodeHash, a: seq<Word>, b: seq<Word>, pairs: nat)
    requires |a| == 2 * pairs
    ensures NextLayer(h, a + b) == NextLayer(h, a) + NextLayer(h, b)
    decreases pairs
  {
    if pairs == 0 {
      assert a + b == b;
    } else {
      assert (a + b)[2..] == a[2..] + b;
      NextLayerSplits(h, a[2..], b, pairs - 1);
    }
  }

  lemma {:induction false} CollapsePair(h: NodeHash, a: Word, b: Word)
    ensures NextLayer(h, [a, b]) == [HashPair(h, a, b)]
  {
    assert [a, b][2..] == [];
  }

  /** Collapsing a perfect tree keeps its root and hashes its leaves pairwise. */
  lemma {:induction false} CollapseIsNextLayer(h: NodeHash, t: Tree, k: nat)
    requires Perfect(t, k + 1)
    ensures Perfect(Collapse(h, t), k) && TreeRoot(h, Collapse(h, t)) == TreeRoot(h, t)
    ensures |Fringe(t)| == 2 * |Fringe(Collapse(h, t))| && Fringe(Collapse(h, t)) == NextLayer(h, Fringe(t))
    decreases k
  {
    if k == 0 {
      CollapsePair(h, t.left.word, t.right.word);
      assert Fringe(t) == [t.left.word, t.right.word];
    } else {
      CollapseIsNextLayer(h, t.left, k - 1);
      CollapseIsNextLayer(h, t.right, k - 1);
      NextLayerSplits(h, Fringe(t.left), Fringe(t.right), |Fringe(Collapse(h, t.left))|);
    }
  }

  /** Fewer leaves after a perfect tree than in it do not change the computed root. */
  lemma {:induction false} RootIsTreeRoot(h: NodeHash, t: Tree, k: nat, tail: seq<Word>)
    requires Perfect(t, k) && |tail| < |Fringe(t)|
    ensures Root(h, Fringe(t) + tail) == TreeRoot(h, t)
    decreases k
  {
    if k == 0 {
      assert Fringe(t) + tail == [t.word];
    } else {
      CollapseIsNextLayer(h, t, k - 1);
      NextLayerSplits(h, Fringe(t), tail, |Fringe(Collapse(h, t))|);
      RootIsTreeRoot(h, Collapse(h, t), k - 1, NextLayer(h, tail));
      RootOfNextLayer(h, Fringe(t) + tail);
    }
  }

  /** The computed root is the textbook root over the longest power-of-two prefix: the leaves
      after that prefix have no influence on it. */
  lemma {:induction false} RootIsPerfectRootOfPrefix(h: NodeHash, leaves: seq<Word>)
    requires |leaves| >= 1
    ensures var k := FloorLog2(|leaves|); Root(h, leaves) == TreeRoot(h, TreeOver(leaves[..Pow2(k)], k))
  {
    var k := FloorLog2(|leaves|);
    var prefix, tail := leaves[..Pow2(k)], leaves[Pow2(k)..];
    TreeOverIsPerfect(prefix, k);
    assert leaves == prefix + tail;
    RootIsTreeRoot(h, TreeOver(prefix, k), k, tail);
  }

  /** Two trees that agree on that prefix have the same root, whatever follows it. */
  lemma {:induction false} RootIgnoresTail(h: NodeHash, leaves: seq<Word>, other: seq<Word>)
    requires |leaves| >= 1 && |other| >= 1
    requires FloorLog2(|leaves|) == FloorLog2(|other|)
    requires var p := Pow2(FloorLog2(|leaves|)); leaves[..p] == other[..p]
    ensures Root(h, leaves) == Root(h, other)
  {
    RootIsPerfectRootOfPrefix(h, leaves);
    RootIsPerfectRootOfPrefix(h, other);
  }

  /* ---------- completeness ---------- */

  lemma {:induction false} SiblingsLength(h: NodeHash, data: seq<Word>, index: int)
    requires |data| >= 1
    ensures |Siblings(h, data, index)| == FloorLog2(|data|)
    decreases |data|
  {
    if |data| <= 1 {
    } else {
      assert |NextLayer(h, data)| == |data| / 2;
      SiblingsLength(h, NextLayer(h, data), index / 2);
    }
  }

  /** The length check of the proof passes exactly on powers of two. */
  lemma {:induction false} LengthsAgreeOnlyOnPowers(h: NodeHash, leaves: seq<Word>, index: int)
    ensures ProofLen(|leaves|) == Some(|Siblings(h, leaves, index)|) <==> IsPow2(|leaves|)
  {
    if leaves == [] {
      assert !IsPow2(0);
    } else {
      SiblingsLength(h, leaves, index);
      LogsAgreeOnlyOnPowers(|leaves|);
    }
  }

  lemma {:induction false} HashPairSymmetric(h: NodeHash, a: Word, b: Word)
    ensures HashPair(h, a, b) == HashPair(h, b, a)
  {
  }

  lemma {:induction false} SiblingCompletesPair(h: NodeHash, data: seq<Word>, index: nat)
    requires |data| % 2 == 0 && index < |data|
    ensures Sibling(data, index).Some?
    ensures HashPair(h, data[index], Sibling(data, index).value) == NextLayer(h, data)[index / 2]
  {
    if index % 2 == 1 {
      HashPairSymmetric(h, data[index - 1], data[index]);
    }
  }

  lemma {:induction false} FoldStep(h: NodeHash, leaf: Word, first: Word, rest: seq<Option<Word>>)
    requires Defined(rest)
    ensures Defined([Some(first)] + rest)
    ensures Fold(h, leaf, Words([Some(first)] + rest)) == Fold(h, HashPair(h, leaf, first), Words(rest))
  {
    assert Words([Some(first)] + rest)[1..] == Words(rest);
  }

  /** For every leaf of a perfect tree, the siblings fold it to the root. */
  lemma {:induction false} ProofVerifies(h: NodeHash, data: seq<Word>, k: nat, index: nat)
    requires |data| == Pow2(k) && index < |data|
    ensures |Siblings(h, data, index)| == k
    ensures Defined(Siblings(h, data, index))
    ensures Accepts(h, data, data[index], Words(Siblings(h, data, index)))
    decreases k
  {
    if k == 0 {
    } else {
      HalfOfPow2(k);
      ProofVerifies(h, NextLayer(h, data), k - 1, index / 2);
      SiblingCompletesPair(h, data, index);
      FoldStep(h, data[index], Sibling(data, index).value, Siblings(h, NextLayer(h, data), index / 2));
    }
  }

  lemma {:induction false} PerfectProofVerifies(h: NodeHash, data: seq<Word>, index: nat)
    requires IsPow2(|data|) && index < |data|
    ensures Defined(Siblings(h, data, index))
    ensures Accepts(h, data, data[index], Words(Siblings(h, data, index)))
  {
    var k: nat :| |data| == Pow2(k);
    ProofVerifies(h, data, k, index);
  }

  /* ---------- soundness ---------- */

  lemma {:induction false} NextLayerHalves(h: NodeHash, layer: seq<Word>, j: nat)
    requires |layer| == Pow2(j + 1)
    ensures |NextLayer(h, layer)| == Pow2(j)
  {
    assert Pow2(j + 1) == 2 * Pow2(j);
  }

  lemma {:induction false} LayerSize(h: NodeHash, leaves: seq<Word>, k: nat, j: nat, d: nat)
    requires |leaves| == Pow2(k) && k == j + d
    ensures |Layer(h, leaves, d)| == Pow2(j)
    decreases d
  {
    if d == 0 {
    } else {
      LayerSize(h, leaves, k, j + 1, d - 1);
      NextLayerHalves(h, Layer(h, leaves, d - 1), j);
    }
  }

  /** Layer d of a tree of depth j + d has 2^j nodes and the same root. */
  lemma {:induction false} LayerShape(h: NodeHash, leaves: seq<Word>, k: nat, j: nat, d: nat)
    requires |leaves| == Pow2(k) && k == j + d
    ensures |Layer(h, leaves, d)| == Pow2(j)
    ensures Root(h, Layer(h, leaves, d)) == Root(h, leaves)
    decreases d
  {
    LayerSize(h, leaves, k, j, d);
    if d == 0 {
    } else {
      LayerShape(h, leaves, k, j + 1, d - 1);
      RootUp(h, leaves, d, Layer(h, leaves, d - 1), Layer(h, leaves, d), j);
    }
  }

  lemma {:induction false} RootUp(h: NodeHash, leaves: seq<Word>, d: nat, below: seq<Word>, here: seq<Word>, j: nat)
    requires d >= 1 && below == Layer(h, leaves, d - 1) && here == Layer(h, leaves, d) && |below| == Pow2(j + 1)
    ensures |here| >= 1 && Root(h, here) == Root(h, below)
  {
    NextLayerHalves(h, below, j);
    RootOfNextLayer(h, below);
  }

  lemma {:induction false} RootOfNextLayer(h: NodeHash, layer: seq<Word>)
    requires |layer| >= 2
    ensures Root(h, layer) == Root(h, NextLayer(h, layer))
  {
  }

  /** The node of a running fold: `v` folded with the first `k` words of the proof. */
  function Running(h: NodeHash, v: Word, proof: seq<Word>, k: nat): Word
    requires k <= |proof|
  {
    Fold(h, v, proof[..k])
  }

  /** The layers of a tree, from layer `d` up. */
  type Layers = nat -> seq<Word>

  function LayersFrom(h: NodeHash, leaves: seq<Word>, d: nat): Layers {
    (k: nat) => Layer(h, leaves, d + k)
  }

  lemma {:induction false} LayersAt(h: NodeHash, leaves: seq<Word>, d: nat, k: nat, l: nat)
    requires l == d + k
    ensures LayersFrom(h, leaves, d)(k) == Layer(h, leaves, l)
  {
  }

  lemma {:induction false} LayersNext(h: NodeHash, leaves: seq<Word>, d: nat, k: nat)
    ensures LayersFrom(h, leaves, d)(k + 1) == NextLayer(h, LayersFrom(h, leaves, d)(k))
  {
    LayersAt(h, leaves, d, k, d + k);
    LayersAt(h, leaves, d, k + 1, d + k + 1);
  }

  /** Step `k` of the fold hashes a pair of words that is not the `i`-th pair of its layer to the parent of
      that pair: a collision between two named inputs of the hash. */
  ghost predicate CollidesAt(h: NodeHash, layers: Layers, v: Word, proof: seq<Word>, k: nat, i: nat)
    requires k < |proof|
  {
    && 2 * i + 1 < |layers(k)|
    && var (a, b), (x, y) := Sorted(Running(h, v, proof, k), proof[k]), Sorted(layers(k)[2 * i], layers(k)[2 * i + 1]);
       (a, b) != (x, y) && h(a, b) == h(x, y)
  }

  /** Step `k` leads from a word that is not in its layer to one that is. */
  ghost predicate EntersAt(h: NodeHash, layers: Layers, v: Word, proof: seq<Word>, k: nat)
    requires k < |proof|
  {
    Running(h, v, proof, k) !in layers(k) && Running(h, v, proof, k + 1) in layers(k + 1)
  }

  /** The fold enters the tree from outside. */
  ghost predicate Forged(h: NodeHash, layers: Layers, v: Word, proof: seq<Word>) {
    exists k :: 0 <= k < |proof| && EntersAt(h, layers, v, proof, k)
  }

  lemma {:induction false} FoldSplits(h: NodeHash, v: Word, a: seq<Word>, b: seq<Word>)
    ensures Fold(h, v, a + b) == Fold(h, Fold(h, v, a), b)
    decreases |a|
  {
    if a == [] {
      assert a + b == b;
    } else {
      ConcatTail(a, b);
      FoldSplits(h, HashPair(h, v, a[0]), a[1..], b);
    }
  }

  lemma {:induction false} FoldOne(h: NodeHash, v: Word, p: Word)
    ensures Fold(h, v, [p]) == HashPair(h, v, p)
  {
    assert [p][1..] == [];
  }

  lemma {:induction false} RunningStep(h: NodeHash, v: Word, proof: seq<Word>, k: nat)
    requires k < |proof|
    ensures Running(h, v, proof, k + 1) == HashPair(h, Running(h, v, proof, k), proof[k])
  {
    SliceSnoc(proof, 0, k);
    FoldSplits(h, v, proof[..k], [proof[k]]);
    FoldOne(h, Running(h, v, proof, k), proof[k]);
  }

  lemma {:induction false} RunningEnds(h: NodeHash, v: Word, proof: seq<Word>)
    ensures Running(h, v, proof, 0) == v && Running(h, v, proof, |proof|) == Fold(h, v, proof)
  {
    assert proof[..|proof|] == proof && proof[..0] == [];
  }

  /** Entering the tree takes a collision of the node hash, between a pair of the fold and a pair of
      the tree. */
  lemma {:induction false} EnteringIsCollision(h: NodeHash, layers: Layers, v: Word, proof: seq<Word>, k: nat)
    returns (i: nat)
    requires k < |proof| && EntersAt(h, layers, v, proof, k) && layers(k + 1) == NextLayer(h, layers(k))
    ensures CollidesAt(h, layers, v, proof, k, i)
  {
    RunningStep(h, v, proof, k);
    var j :| 0 <= j < |layers(k + 1)| && layers(k + 1)[j] == Running(h, v, proof, k + 1);
    i := j;
    assert layers(k)[2 * i] in layers(k) && layers(k)[2 * i + 1] in layers(k);
  }

  /** A property that holds at `k` and not at zero begins to hold somewhere between. */
  lemma {:induction false} Onset(holds: nat -> bool, k: nat) returns (j: nat)
    requires !holds(0) && holds(k)
    ensures j < k && !holds(j) && holds(j + 1)
  {
    if holds(k - 1) {
      j := Onset(holds, k - 1);
    } else {
      j := k - 1;
    }
  }

  /** A fold that starts outside the tree and ends inside enters it at some step. */
  lemma {:induction false} EntersSomewhere(h: NodeHash, layers: Layers, v: Word, proof: seq<Word>)
    requires v !in layers(0) && Fold(h, v, proof) in layers(|proof|)
    ensures Forged(h, layers, v, proof)
  {
    RunningEnds(h, v, proof);
    var inside := (k: nat) => k <= |proof| && Running(h, v, proof, k) in layers(k);
    var j := Onset(inside, |proof|);
    assert EntersAt(h, layers, v, proof, j);
  }

  lemma {:induction false} RootIsInTop(h: NodeHash, leaves: seq<Word>, n: nat)
    requires |leaves| == Pow2(n)
    ensures Root(h, leaves) in Layer(h, leaves, n)
  {
    LayerShape(h, leaves, n, 0, n);
    var top := Layer(h, leaves, n);
    assert top[0] == Root(h, leaves);
  }

  /** A proof that the verifier accepts starts from a node of the layer as far below the root as the
      proof is long, unless it is forged. */
  lemma {:induction false} AcceptedComesFromLayer(h: NodeHash, leaves: seq<Word>, v: Word, proof: seq<Word>, d: nat)
    requires |leaves| == Pow2(d + |proof|) && Accepts(h, leaves, v, proof)
    ensures v in Layer(h, leaves, d) || Forged(h, LayersFrom(h, leaves, d), v, proof)
  {
    var top := d + |proof|;
    RootIsInTop(h, leaves, top);
    LayersAt(h, leaves, d, |proof|, top);
    LayersAt(h, leaves, d, 0, d);
    if v !in Layer(h, leaves, d) { EntersSomewhere(h, LayersFrom(h, leaves, d), v, proof); }
  }

  /** A forged proof names a step of its fold and a pair of the tree on which the node hash collides. */
  lemma {:induction false} ForgeryIsCollision(h: NodeHash, leaves: seq<Word>, v: Word, proof: seq<Word>, d: nat)
    returns (k: nat, i: nat)
    requires Forged(h, LayersFrom(h, leaves, d), v, proof)
    ensures k < |proof| && CollidesAt(h, LayersFrom(h, leaves, d), v, proof, k, i)
  {
    k :| 0 <= k < |proof| && EntersAt(h, LayersFrom(h, leaves, d), v, proof, k);
    LayersNext(h, leaves, d, k);
    i := EnteringIsCollision(h, LayersFrom(h, leaves, d), v, proof, k);
  }

  /** Soundness: a full-length proof of a word that is no leaf names such a collision. */
  lemma {:induction false} MerkleSoundness(h: NodeHash, leaves: seq<Word>, v: Word, proof: seq<Word>)
    returns (k: nat, i: nat)
    requires |leaves| == Pow2(|proof|)
    requires Accepts(h, leaves, v, proof) && v !in leaves
    ensures k < |proof| && CollidesAt(h, LayersFrom(h, leaves, 0), v, proof, k, i)
  {
    AcceptedComesFromLayer(h, leaves, v, proof, 0);
    k, i := ForgeryIsCollision(h, leaves, v, proof, 0);
  }

  /** A proof that is longer than the tree is deep folds its first words, however many they are, to a
      leaf, or it names such a collision: the verifier does not check the length. */
  lemma {:induction false} LongProofReachesLeaf(h: NodeHash, leaves: seq<Word>, v: Word, proof: seq<Word>, m: nat)
    requires m <= |proof| && |leaves| == Pow2(|proof| - m) && Accepts(h, leaves, v, proof)
    ensures Running(h, v, proof, m) in leaves ||
            exists k, i ::
              0 <= k < |proof[m..]| && 0 <= i &&
              CollidesAt(h, LayersFrom(h, leaves, 0), Running(h, v, proof, m), proof[m..], k, i)
  {
    assert proof == proof[..m] + proof[m..];
    FoldSplits(h, v, proof[..m], proof[m..]);
    if Running(h, v, proof, m) !in leaves {
      var k, i := MerkleSoundness(h, leaves, Running(h, v, proof, m), proof[m..]);
    }
  }

  /** Every running word of the fold is in its layer of the tree. */
  ghost predicate StaysInTree(h: NodeHash, layers: Layers, v: Word, proof: seq<Word>) {
    forall k :: 0 <= k <= |proof| ==> Running(h, v, proof, k) in layers(k)
  }

  /** A node and the other node of its pair hash to a node of the next layer. */
  lemma {:induction false} ParentInNextLayer(h: NodeHash, layer: seq<Word>, v: Word) returns (p: Word)
    requires |layer| % 2 == 0 && v in layer
    ensures HashPair(h, v, p) in NextLayer(h, layer)
  {
    var i :| 0 <= i < |layer| && layer[i] == v;
    SiblingCompletesPair(h, layer, i);
    p := Sibling(layer, i).value;
  }

  ghost predicate Above(upper: Layers, layers: Layers, k: nat) {
    upper(k) == layers(k + 1)
  }

  lemma {:induction false} ProofFromParent(h: NodeHash, layers: Layers, upper: Layers, v: Word, p: Word, rest: seq<Word>)
    requires v in layers(0) && StaysInTree(h, upper, HashPair(h, v, p), rest)
    requires forall k: nat :: Above(upper, layers, k)
    ensures Fold(h, v, [p] + rest) == Fold(h, HashPair(h, v, p), rest)
    ensures StaysInTree(h, layers, v, [p] + rest)
  {
    var proof := [p] + rest;
    assert proof[1..] == rest;
    RunningEnds(h, v, proof);
    forall k | 0 <= k <= |proof| ensures Running(h, v, proof, k) in layers(k) {
      if k > 0 {
        var j := k - 1;
        assert proof[..k][1..] == rest[..j];
        assert Running(h, v, proof, k) == Running(h, HashPair(h, v, p), rest, j);
        assert Above(upper, layers, j);
      }
    }
  }

  /** Every node of every layer has a proof that never leaves the tree. */
  lemma {:induction false} NodeIsAccepted(h: NodeHash, leaves: seq<Word>, n: nat, v: Word, j: nat, d: nat)
    returns (proof: seq<Word>)
    requires |leaves| == Pow2(n) && n == j + d && v in Layer(h, leaves, d)
    ensures |proof| == j && Accepts(h, leaves, v, proof) && StaysInTree(h, LayersFrom(h, leaves, d), v, proof)
    decreases j
  {
    LayerShape(h, leaves, n, j, d);
    if j == 0 {
      proof := [];
      OnlyNode(h, leaves, v, d);
    } else {
      HalfOfPow2(j);
      var p := ParentInNextLayer(h, Layer(h, leaves, d), v);
      var rest := NodeIsAccepted(h, leaves, n, HashPair(h, v, p), j - 1, d + 1);
      proof := [p] + rest;
      ProofFromLayerAbove(h, leaves, d, v, p, rest);
    }
  }

  lemma {:induction false} ProofFromLayerAbove(h: NodeHash, leaves: seq<Word>, d: nat, v: Word, p: Word, rest: seq<Word>)
    requires v in Layer(h, leaves, d) && StaysInTree(h, LayersFrom(h, leaves, d + 1), HashPair(h, v, p), rest)
    ensures Fold(h, v, [p] + rest) == Fold(h, HashPair(h, v, p), rest)
    ensures StaysInTree(h, LayersFrom(h, leaves, d), v, [p] + rest)
  {
    var layers, upper := LayersFrom(h, leaves, d), LayersFrom(h, leaves, d + 1);
    LayersAt(h, leaves, d, 0, d);
    forall k: nat ensures Above(upper, layers, k) {
      LayersAt(h, leaves, d, k + 1, d + k + 1);
      LayersAt(h, leaves, d + 1, k, d + k + 1);
    }
    ProofFromParent(h, layers, upper, v, p, rest);
  }

  lemma {:induction false} OnlyNode(h: NodeHash, leaves: seq<Word>, v: Word, d: nat)
    requires |leaves| >= 1 && v in Layer(h, leaves, d) && |Layer(h, leaves, d)| == 1
    requires Root(h, Layer(h, leaves, d)) == Root(h, leaves)
    ensures Accepts(h, leaves, v, []) && StaysInTree(h, LayersFrom(h, leaves, d), v, [])
  {
    LayersAt(h, leaves, d, 0, d);
    RunningEnds(h, v, []);
  }

  /** The exact meaning of acceptance, for every hash and every proof length up to the depth: a word is
      a node of the layer that far below the root if and only if some proof of that length is accepted
      without entering the tree from outside. Inner nodes are accepted too, with shorter proofs. */
  lemma {:induction false} AcceptanceIsLayerMembership(h: NodeHash, leaves: seq<Word>, v: Word, j: nat, d: nat)
    requires |leaves| == Pow2(d + j)
    ensures v in Layer(h, leaves, d) <==>
            exists proof :: |proof| == j && Accepts(h, leaves, v, proof) && !Forged(h, LayersFrom(h, leaves, d), v, proof)
  {
    forall proof | |proof| == j && Accepts(h, leaves, v, proof) && !Forged(h, LayersFrom(h, leaves, d), v, proof)
      ensures v in Layer(h, leaves, d)
    {
      AcceptedComesFromLayer(h, leaves, v, proof, d);
    }
    if v in Layer(h, leaves, d) {
      var proof := NodeIsAccepted(h, leaves, j + d, v, j, d);
      StayingIsNotForged(h, LayersFrom(h, leaves, d), v, proof);
    }
  }

  lemma {:induction false} StayingIsNotForged(h: NodeHash, layers: Layers, v: Word, proof: seq<Word>)
    requires StaysInTree(h, layers, v, proof)
    ensures !Forged(h, layers, v, proof)
  {
  }
}
