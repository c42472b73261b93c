/** The binary Merkle tree over a byte string, addressed by generalized indices: node 1 is
    the root and node `g` has children `2g` and `2g + 1`. Nothing here is cached; `Node` is
    the from-scratch definition that the incremental structures are proved against. */
module MerkleTree {
  import opened Words

  type Digest = s: seq<Byte> | |s| == 32 witness Zeros(32)

  const ZERO_LEAF: Digest := Zeros(32)

  /** Keccak-256 is left uninterpreted: every result holds whatever function it is. */
  const Keccak256: seq<Byte> -> Digest

  function ConcatHash(a: Digest, b: Digest): Digest { Keccak256(a + b) }

  /** Roots of the all-zero trees, by height. */
  function ZeroHash(height: nat): Digest {
    if height == 0 then ZERO_LEAF else ConcatHash(ZeroHash(height - 1), ZeroHash(height - 1))
  }

  lemma ZeroHashStep(height: nat)
    ensures ZeroHash(height) ==
      if height == 0 then ZERO_LEAF else ConcatHash(ZeroHash(height - 1), ZeroHash(height - 1))
  {
  }

  /** The table of zero hashes is filled by doubling each entry from the previous one. */
  method ZeroHashTable() returns (table: array<Digest>)
    ensures fresh(table) && table.Length == 256
    ensures forall i :: 0 <= i < 256 ==> table[i] == ZeroHash(i)
  {
    hide ZeroHash;
    table := new Digest[256](_ => ZERO_LEAF);
    ZeroHashStep(0);
    for i := 1 to 256
      invariant forall j :: 0 <= j < i ==> table[j] == ZeroHash(j)
    {
      ZeroHashStep(i);
      table[i] := ConcatHash(table[i - 1], table[i - 1]);
    }
  }

  /** The 32-byte leaf number `i` of a byte string. */
  function Leaf(s: seq<Byte>, i: nat): Digest
    requires 32 * i + 32 <= |s|
  {
    s[32 * i..32 * i + 32]
  }

  /** The subtree hash at generalized index `g` of the tree with `n` leaves. */
  function Node(s: seq<Byte>, n: nat, g: nat): Digest
    requires |s| == 32 * n && 1 <= g < 2 * n
    decreases 2 * n - g, s
  {
    if g >= n then Leaf(s, g - n)
    else ConcatHash(Node(s, n, 2 * g), Node(s, n, 2 * g + 1))
  }

  /** Number of bits of a generalized index (`64 - leading_zeros`). */
  function Bits(g: nat): nat
    decreases g
  {
    if g == 0 then 0 else 1 + Bits(g / 2)
  }

  lemma {:induction false} BitsOfRange(g: nat, k: nat)
    requires Pow2(k) <= g < 2 * Pow2(k)
    ensures Bits(g) == k + 1
    decreases k
  {
    if k > 0 {
      BitsOfRange(g / 2, k - 1);
    } else {
      assert Bits(0) == 0;
    }
  }

  lemma {:induction false} BitsBound(g: nat, k: nat)
    ensures Bits(g) <= k <==> g < Pow2(k)
    decreases k
  {
    if k == 0 {
    } else if g > 0 {
      BitsBound(g / 2, k - 1);
    }
  }

  /** `g` is `q` or an ancestor of `q`. */
  predicate Above(g: nat, q: nat)
    decreases q
  {
    q == g || (q > g && Above(g, q / 2))
  }

  lemma {:induction false} AboveOrder(g: nat, q: nat)
    requires Above(g, q)
    ensures g <= q
  {
  }

  lemma {:induction false} RootAbove(q: nat)
    requires q >= 1
    ensures Above(1, q)
    decreases q
  {
    if q > 1 {
      RootAbove(q / 2);
    }
  }

  /** Below an inner node everything but the node itself lies under one of its children. */
  lemma {:induction false} AboveChild(g: nat, q: nat)
    requires g >= 1
    ensures Above(g, q) <==> q == g || Above(2 * g, q) || Above(2 * g + 1, q)
    decreases q
  {
    if q > g {
      AboveChild(g, q / 2);
    }
  }

  /** Two ancestors of the same node are ancestors of each other. */
  lemma {:induction false} AboveChain(a: nat, b: nat, q: nat)
    requires Above(a, q) && Above(b, q)
    ensures Above(a, b) || Above(b, a)
    decreases q
  {
    if q != a && q != b {
      AboveChain(a, b, q / 2);
    }
  }

  lemma {:induction false} AboveTransitive(a: nat, b: nat, c: nat)
    requires Above(a, b) && Above(b, c)
    ensures Above(a, c)
    decreases c
  {
    AboveOrder(a, b);
    if b != c {
      AboveTransitive(a, b, c / 2);
    }
  }

  function Sibling(g: nat): nat { if g % 2 == 0 then g + 1 else g - 1 }

  /** The sibling of an ancestor covers none of the path. */
  lemma SiblingApart(a: nat, q: nat)
    requires a >= 2 && Above(a, q)
    ensures !Above(Sibling(a), q)
  {
    if Above(Sibling(a), q) {
      AboveChain(a, Sibling(a), q);
      assert false;
    }
  }

  /** A subtree hash depends on the leaves under it and on nothing else. */
  lemma {:induction false} NodeFrame(s: seq<Byte>, t: seq<Byte>, n: nat, g: nat)
    requires |s| == |t| == 32 * n && 1 <= g < 2 * n
    requires forall i :: 0 <= i < n && Above(g, n + i) ==> Leaf(s, i) == Leaf(t, i)
    ensures Node(s, n, g) == Node(t, n, g)
    decreases 2 * n - g
  {
    if g >= n {
      assert Above(g, n + (g - n));
    } else {
      forall i | 0 <= i < n
        ensures Above(2 * g, n + i) || Above(2 * g + 1, n + i) ==> Leaf(s, i) == Leaf(t, i)
      {
        AboveChild(g, n + i);
      }
      NodeFrame(s, t, n, 2 * g);
      NodeFrame(s, t, n, 2 * g + 1);
    }
  }

  ghost predicate ZeroUnder(s: seq<Byte>, n: nat, g: nat)
    requires |s| == 32 * n
  {
    forall i :: 0 <= i < n && Above(g, n + i) ==> Leaf(s, i) == ZERO_LEAF
  }

  lemma ZeroUnderChildren(s: seq<Byte>, n: nat, g: nat)
    requires |s| == 32 * n && 1 <= g && ZeroUnder(s, n, g)
    ensures ZeroUnder(s, n, 2 * g) && ZeroUnder(s, n, 2 * g + 1)
  {
    forall i | 0 <= i < n
      ensures Above(2 * g, n + i) || Above(2 * g + 1, n + i) ==> Leaf(s, i) == ZERO_LEAF
    {
      AboveChild(g, n + i);
    }
  }

  lemma BitsOfChildren(g: nat)
    requires g >= 1
    ensures Bits(2 * g) == Bits(2 * g + 1) == Bits(g) + 1
  {
  }

  /** An all-zero subtree hashes to the zero hash of its height. */
  lemma {:induction false} ZeroNode(s: seq<Byte>, n: nat, k: nat, g: nat)
    requires n == Pow2(k) && |s| == 32 * n && 1 <= g < 2 * n && ZeroUnder(s, n, g)
    ensures Bits(g) <= k + 1 && Node(s, n, g) == ZeroHash(k + 1 - Bits(g))
    decreases 2 * n - g
  {
    BitsBound(g, k + 1);
    if g >= n {
      BitsOfRange(g, k);
      assert Above(g, n + (g - n));
    } else {
      ZeroUnderChildren(s, n, g);
      BitsOfChildren(g);
      ZeroNode(s, n, k, 2 * g);
      ZeroNode(s, n, k, 2 * g + 1);
    }
  }

  /** The hashes that sit beside the path from node `q` up to (not including) `top`. */
  function Siblings(s: seq<Byte>, n: nat, q: nat, top: nat): seq<Digest>
    requires |s| == 32 * n && 1 <= top <= q < 2 * n && Above(top, q)
    decreases q
  {
    if q == top then []
    else
      AboveOrder(top, q / 2);
      [Node(s, n, Sibling(q))] + Siblings(s, n, q / 2, top)
  }

  /** Merkle proof of a leaf: the leaf followed by the siblings from bottom to top. */
  function Proof(s: seq<Byte>, n: nat, i: nat): seq<Digest>
    requires |s| == 32 * n && i < n
  {
    RootAbove(n + i);
    [Leaf(s, i)] + Siblings(s, n, n + i, 1)
  }

  /** Hash upwards from node `q` along a list of siblings. */
  function Fold(node: Digest, siblings: seq<Digest>, q: nat): Digest
    decreases |siblings|
  {
    if siblings == [] then node
    else Fold(Join(node, siblings[0], q), siblings[1..], q / 2)
  }

  /** The 64 bytes hashed to get the parent of node `q`. */
  function Pair(node: Digest, sibling: Digest, q: nat): seq<Byte> {
    if q % 2 == 1 then sibling + node else node + sibling
  }

  function Join(node: Digest, sibling: Digest, q: nat): Digest { Keccak256(Pair(node, sibling, q)) }

  lemma {:induction false} SiblingsLength(s: seq<Byte>, n: nat, q: nat, top: nat)
    requires |s| == 32 * n && 1 <= top <= q < 2 * n && Above(top, q)
    ensures |Siblings(s, n, q, top)| == Bits(q) - Bits(top)
    decreases q
  {
    if q != top {
      AboveOrder(top, q / 2);
      SiblingsLength(s, n, q / 2, top);
    }
  }

  /** Completeness: folding a node with its siblings yields the top of the path. */
  lemma {:induction false} FoldSiblings(s: seq<Byte>, n: nat, q: nat, top: nat)
    requires |s| == 32 * n && 1 <= top <= q < 2 * n && Above(top, q)
    ensures Fold(Node(s, n, q), Siblings(s, n, q, top), q) == Node(s, n, top)
    decreases q
  {
    if q != top {
      AboveOrder(top, q / 2);
      FoldSiblings(s, n, q / 2, top);
      var sibs := Siblings(s, n, q, top);
      assert sibs[1..] == Siblings(s, n, q / 2, top);
      assert Join(Node(s, n, q), sibs[0], q) == Node(s, n, q / 2);
    }
  }

  /** Adding one more level on top of a path appends the sibling of the old top. */
  lemma {:induction false} SiblingsExtend(s: seq<Byte>, n: nat, q: nat, top: nat)
    requires |s| == 32 * n && 2 <= top <= q < 2 * n && Above(top, q)
    ensures Above(top / 2, q)
    ensures Siblings(s, n, q, top / 2) == Siblings(s, n, q, top) + [Node(s, n, Sibling(top))]
    decreases q
  {
    assert Above(top / 2, top);
    AboveTransitive(top / 2, top, q);
    if q == top {
      assert Siblings(s, n, q / 2, top / 2) == [];
    } else {
      AboveOrder(top, q / 2);
      SiblingsExtend(s, n, q / 2, top);
    }
  }

  /** Changing one leaf leaves all siblings of its path alone. */
  lemma {:induction false} SiblingsFrame(s: seq<Byte>, t: seq<Byte>, n: nat, i: nat, q: nat)
    requires |s| == |t| == 32 * n && i < n && 1 <= q <= n + i && Above(q, n + i) && Above(1, q)
    requires forall j :: 0 <= j < n && j != i ==> Leaf(s, j) == Leaf(t, j)
    ensures Siblings(s, n, q, 1) == Siblings(t, n, q, 1)
    decreases q
  {
    if q != 1 {
      SiblingApart(q, n + i);
      NodeFrame(s, t, n, Sibling(q));
      RootAbove(q / 2);
      assert Above(q / 2, q);
      AboveTransitive(q / 2, q, n + i);
      SiblingsFrame(s, t, n, i, q / 2);
    }
  }

  lemma InnerNode(s: seq<Byte>, n: nat, g: nat)
    requires |s| == 32 * n && 1 <= g < n
    ensures Node(s, n, g) == ConcatHash(Node(s, n, 2 * g), Node(s, n, 2 * g + 1))
  {
  }

  lemma LeafNode(s: seq<Byte>, n: nat, i: nat)
    requires |s| == 32 * n && i < n
    ensures Node(s, n, n + i) == Leaf(s, i)
  {
  }

  lemma ProofTail(s: seq<Byte>, n: nat, i: nat)
    requires |s| == 32 * n && i < n
    ensures Above(1, n + i) && Proof(s, n, i)[0] == Leaf(s, i)
    ensures Proof(s, n, i)[1..] == Siblings(s, n, n + i, 1)
  {
    RootAbove(n + i);
  }

  /** Completeness of the proof of a leaf. */
  lemma ProofFolds(s: seq<Byte>, n: nat, i: nat)
    requires |s| == 32 * n && i < n
    ensures Fold(Leaf(s, i), Proof(s, n, i)[1..], n + i) == Node(s, n, 1)
  {
    ProofTail(s, n, i);
    LeafNode(s, n, i);
    FoldSiblings(s, n, n + i, 1);
  }

  /** Stateless write: the old siblings folded with the new leaf give the new root. */
  lemma StatelessUpdate(s: seq<Byte>, t: seq<Byte>, n: nat, i: nat)
    requires |s| == |t| == 32 * n && i < n
    requires forall j :: 0 <= j < n && j != i ==> Leaf(s, j) == Leaf(t, j)
    ensures Proof(s, n, i)[1..] == Proof(t, n, i)[1..]
    ensures Fold(Leaf(t, i), Proof(s, n, i)[1..], n + i) == Node(t, n, 1)
  {
    ProofTail(s, n, i);
    ProofTail(t, n, i);
    SiblingsFrame(s, t, n, i, n + i);
    ProofFolds(t, n, i);
  }

  /** The 64-byte strings hashed while folding. */
  function FoldInputs(node: Digest, siblings: seq<Digest>, q: nat): set<seq<Byte>>
    decreases |siblings|
  {
    if siblings == [] then {}
    else {Pair(node, siblings[0], q)} + FoldInputs(Join(node, siblings[0], q), siblings[1..], q / 2)
  }

  /** No two of the given strings have the same hash. */
  ghost predicate CollisionFree(inputs: set<seq<Byte>>) {
    forall x, y :: x in inputs && y in inputs && Keccak256(x) == Keccak256(y) ==> x == y
  }

  lemma PairInjective(a: Digest, s: Digest, b: Digest, t: Digest, q: nat)
    requires Pair(a, s, q) == Pair(b, t, q)
    ensures a == b && s == t
  {
    var x, y := Pair(a, s, q), Pair(b, t, q);
    assert x[..32] == y[..32] && x[32..] == y[32..];
    assert {s, a} == {x[..32], x[32..]} && {t, b} == {y[..32], y[32..]};
  }

  /** Binding: two foldings of the same path to the same root agree on the leaf and on every
      sibling, unless two of the strings hashed on the way collide. */
  lemma {:induction false} FoldBinding(a: Digest, path: seq<Digest>, b: Digest, path': seq<Digest>, q: nat)
    requires |path| == |path'| && Fold(a, path, q) == Fold(b, path', q)
    requires CollisionFree(FoldInputs(a, path, q) + FoldInputs(b, path', q))
    ensures a == b && path == path'
    decreases |path|
  {
    if path != [] {
      var up, up' := Join(a, path[0], q), Join(b, path'[0], q);
      FoldBinding(up, path[1..], up', path'[1..], q / 2);
      PairInjective(a, path[0], b, path'[0], q);
      assert path == [path[0]] + path[1..] && path' == [path'[0]] + path'[1..];
    }
  }
}
