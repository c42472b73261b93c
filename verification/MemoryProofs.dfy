/** Merkle proofs of the flat memory as byte strings, and what they are good for: the leaf
    holds the word, folding gives the root, and folding a changed leaf gives the new root. */
module MemoryProofs {
  import opened Words
  import opened MerkleTree
  import opened Pages
  import opened UpperTree

  const PROOF_SIZE := 896

  /** The 28 hashes of a proof as one byte string. */
  function Flatten(hashes: seq<Digest>): (bytes: seq<Byte>)
    ensures |bytes| == 32 * |hashes|
  {
    if hashes == [] then [] else hashes[0] + Flatten(hashes[1..])
  }

  /** The Merkle proof of the 32 bytes around an address: leaf first, then the siblings. */
  function MemoryProof(contents: Flat, address: Word): seq<Digest> {
    Proof(contents, LEAVES, address / 32)
  }

  lemma ProofLength(contents: Flat, address: Word)
    ensures |MemoryProof(contents, address)| == 28 && |Flatten(MemoryProof(contents, address))| == 896
  {
    hide Node, Siblings, Bits, Above, Leaf;
    RootAbove(LEAVES + address / 32);
    SiblingsLength(contents, LEAVES, LEAVES + address / 32, 1);
    SplitLeaf(address / 32);
    BitsOfRoot();
  }

  lemma BitsOfRoot()
    ensures Bits(1) == 1
  {
    assert Bits(0) == 0;
  }

  /** Splits a byte string into 32-byte hashes. */
  function Unflatten(bytes: seq<Byte>): (hashes: seq<Digest>)
    requires |bytes| % 32 == 0
    ensures 32 * |hashes| == |bytes|
  {
    if |bytes| < 32 then [] else [bytes[..32]] + Unflatten(bytes[32..])
  }

  lemma {:induction false} FlattenRoundTrip(hashes: seq<Digest>)
    ensures Unflatten(Flatten(hashes)) == hashes
  {
    if hashes != [] {
      assert Flatten(hashes)[..32] == hashes[0] && Flatten(hashes)[32..] == Flatten(hashes[1..]);
      FlattenRoundTrip(hashes[1..]);
    }
  }

  /** Root obtained by folding a leaf along the path of an address. */
  function FoldProof(leaf: Digest, siblings: seq<Digest>, address: Word): Digest {
    Fold(leaf, siblings, LEAVES + address / 32)
  }

  /** The word at an address inside its 32-byte leaf, and the leaf with that word replaced. */
  function WordInLeaf(leaf: Digest, address: Word): Word
    requires address % 4 == 0
  {
    AlignedRoom(address);
    WordOf(leaf[address % 32..address % 32 + 4])
  }

  function SpliceLeaf(leaf: Digest, address: Word, value: Word): Digest
    requires address % 4 == 0
  {
    AlignedRoom(address);
    Splice(leaf, address % 32, BytesOf(value))
  }

  /** Completeness: the proof of an address folds to the root of the memory. */
  lemma ProofVerifies(contents: Flat, address: Word)
    ensures FoldProof(MemoryProof(contents, address)[0], MemoryProof(contents, address)[1..], address) == TreeRoot(contents)
  {
    ProofFolds(contents, LEAVES, address / 32);
  }

  /** The leaf of the proof holds the word that a read returns. */
  lemma LeafHoldsWord(contents: Flat, address: Word)
    requires address % 4 == 0
    ensures WordInLeaf(MemoryProof(contents, address)[0], address) == WordAt(contents, address)
  {
    AlignedRoom(address);
    SubSlice(contents, 32 * (address / 32), 32, address % 32, 4);
  }

  /** Writing a word splices its leaf and touches no other leaf. */
  lemma WriteChangesOneLeaf(contents: Flat, address: Word, value: Word)
    requires address % 4 == 0
    ensures Leaf(WriteWord(contents, address, value), address / 32)
      == SpliceLeaf(Leaf(contents, address / 32), address, value)
    ensures forall j :: 0 <= j < LEAVES && j != address / 32 ==>
      Leaf(WriteWord(contents, address, value), j) == Leaf(contents, j)
  {
    hide Splice, BytesOf;
    AlignedRoom(address);
    forall j | 0 <= j < LEAVES && j != address / 32
      ensures Leaf(WriteWord(contents, address, value), j) == Leaf(contents, j)
    {
      SpliceOutside(contents, address, BytesOf(value), 32 * j, 32 * j + 32);
    }
    var lo := 32 * (address / 32);
    SpliceInside(contents, address, BytesOf(value), lo, lo + 32);
  }

  /** Stateless write: splicing the word into the leaf of the proof and folding with the old
      siblings gives exactly the root of the memory after the write. */
  lemma StatelessWrite(contents: Flat, address: Word, value: Word)
    requires address % 4 == 0
    ensures var proof := MemoryProof(contents, address);
      FoldProof(SpliceLeaf(proof[0], address, value), proof[1..], address) == TreeRoot(WriteWord(contents, address, value))
  {
    hide WriteWord, SpliceLeaf;
    WriteChangesOneLeaf(contents, address, value);
    StatelessUpdate(contents, WriteWord(contents, address, value), LEAVES, address / 32);
    ProofTail(contents, LEAVES, address / 32);
  }

  /** The strings hashed when a proof is folded. */
  function ProofInputs(proof: seq<Digest>, address: Word): set<seq<Byte>>
    requires proof != []
  {
    FoldInputs(proof[0], proof[1..], LEAVES + address / 32)
  }

  /** Binding: any 28 hashes that fold to the root are the proof, unless two of the strings
      hashed by either folding collide. */
  lemma ProofBinding(contents: Flat, address: Word, proof: seq<Digest>)
    requires |proof| == 28
    requires FoldProof(proof[0], proof[1..], address) == TreeRoot(contents)
    requires CollisionFree(ProofInputs(proof, address) + ProofInputs(MemoryProof(contents, address), address))
    ensures proof == MemoryProof(contents, address)
  {
    var honest := MemoryProof(contents, address);
    ProofLength(contents, address);
    ProofVerifies(contents, address);
    FoldBinding(proof[0], proof[1..], honest[0], honest[1..], LEAVES + address / 32);
    assert proof == [proof[0]] + proof[1..] && honest == [honest[0]] + honest[1..];
  }

  /** No two strings hashed by the proofs of an address in two memories collide. */
  ghost predicate ProofsApart(contents: Flat, contents': Flat, address: Word) {
    CollisionFree(ProofInputs(MemoryProof(contents, address), address)
                  + ProofInputs(MemoryProof(contents', address), address))
  }

  /** Memories with the same root hold the same byte at every address whose proofs are free of
      collisions: different memories have different roots. */
  lemma SameRootSameByte(contents: Flat, contents': Flat, address: Word)
    requires ProofsApart(contents, contents', address)
    ensures TreeRoot(contents) == TreeRoot(contents') ==> contents[address] == contents'[address]
  {
    if TreeRoot(contents) == TreeRoot(contents') {
      var proof := MemoryProof(contents, address);
      ProofLength(contents, address);
      ProofVerifies(contents, address);
      ProofBinding(contents', address, proof);
      ProofTail(contents, LEAVES, address / 32);
      ProofTail(contents', LEAVES, address / 32);
      assert Leaf(contents, address / 32)[address % 32] == contents[address];
    }
  }
}
