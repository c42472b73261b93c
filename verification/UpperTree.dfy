/** The tree above the pages: which nodes may be cached, absent or invalid, stated over plain
    values so that each update of the node map is one small lemma. */
module UpperTree {
  import opened Words
  import opened MerkleTree
  import opened Pages

  const MEMORY_SIZE := 0x1_0000_0000
  const KEYS := 0x10_0000           // number of pages; page k is node KEYS + k
  const LEAVES := 0x800_0000        // number of 32-byte leaves

  /** The flat memory: one byte per 32-bit address. */
  type Flat = s: seq<Byte> | |s| == MEMORY_SIZE ghost witness Zeros(MEMORY_SIZE)

  ghost const ZERO_MEMORY: Flat := Zeros(MEMORY_SIZE)

  type Nodes = map<nat, Option<Digest>>

  /** Merkle root of the whole memory, computed from scratch. */
  function TreeRoot(contents: Flat): Digest
  {
    Node(contents, LEAVES, 1)
  }

  function PageSlice(contents: Flat, k: nat): (page: seq<Byte>)
    requires k < KEYS
    ensures |page| == PAGE_SIZE
  {
    contents[PAGE_SIZE * k..PAGE_SIZE * k + PAGE_SIZE]
  }

  /** Only allocated pages hold anything but zeros. */
  ghost predicate ZeroElsewhere(contents: Flat, present: set<nat>)
  {
    forall k :: 0 <= k < KEYS && k !in present ==> PageSlice(contents, k) == ZERO_PAGE
  }

  /** The invariant of the node map. `stale` holds the pages whose own root is invalid.
      - every ancestor of an allocated page has an entry, so an absent node covers no page;
      - a cached node holds the true hash;
      - a page with an invalid root has no cached ancestor. */
  ghost predicate NodesCorrect(nodes: Nodes, present: set<nat>, stale: set<nat>, contents: Flat) {
    && 0 !in nodes
    && (forall k, g :: k in present && k < KEYS && g >= 1 && Above(g, KEYS + k) ==> g in nodes)
    && (forall g :: g in nodes && nodes[g].Some? ==> 1 <= g < KEYS && nodes[g].value == Node(contents, LEAVES, g))
    && (forall k, g :: k in stale && g in nodes && Above(g, KEYS + k) ==> nodes[g].None?)
  }

  /** The big-endian word at an aligned address, and the memory with that word replaced. */
  function WordAt(contents: Flat, a: Word): Word
    requires a % 4 == 0
  {
    WordOf(contents[a..a + 4])
  }

  function WriteWord(contents: Flat, a: Word, value: Word): (contents': Flat)
    requires a % 4 == 0
  {
    Splice(contents, a, BytesOf(value))
  }

  function Splice(s: seq<Byte>, a: nat, bytes: seq<Byte>): (s': seq<Byte>)
    requires a + |bytes| <= |s|
    ensures |s'| == |s|
  {
    s[..a] + bytes + s[a + |bytes|..]
  }

  lemma SpliceAt(s: seq<Byte>, a: nat, bytes: seq<Byte>, i: nat)
    requires a + |bytes| <= |s| && i < |s|
    ensures Splice(s, a, bytes)[i] == if a <= i < a + |bytes| then bytes[i - a] else s[i]
  {
  }

  lemma SpliceOutside(s: seq<Byte>, a: nat, bytes: seq<Byte>, lo: nat, hi: nat)
    requires a + |bytes| <= |s| && lo <= hi <= |s| && (hi <= a || a + |bytes| <= lo)
    ensures Splice(s, a, bytes)[lo..hi] == s[lo..hi]
  {
    hide Splice;
    forall i | lo <= i < hi
      ensures Splice(s, a, bytes)[i] == s[i]
    {
      SpliceAt(s, a, bytes, i);
    }
  }

  lemma SpliceInside(s: seq<Byte>, a: nat, bytes: seq<Byte>, lo: nat, hi: nat)
    requires lo <= a && a + |bytes| <= hi <= |s|
    ensures Splice(s, a, bytes)[lo..hi] == Splice(s[lo..hi], a - lo, bytes)
  {
    hide Splice;
    var x, y := Splice(s, a, bytes)[lo..hi], Splice(s[lo..hi], a - lo, bytes);
    forall i | 0 <= i < hi - lo
      ensures x[i] == y[i]
    {
      SpliceAt(s, a, bytes, lo + i);
      SpliceAt(s[lo..hi], a - lo, bytes, i);
    }
  }

  /** Rewriting the bytes in front of a splice, or behind it, with themselves changes nothing. */
  lemma SpliceBefore(s: seq<Byte>, lo: nat, n: nat, bytes: seq<Byte>)
    requires lo + n + |bytes| <= |s|
    ensures Splice(s, lo, s[lo..lo + n] + bytes) == Splice(s, lo + n, bytes)
  {
    hide Splice;
    var x, y := Splice(s, lo, s[lo..lo + n] + bytes), Splice(s, lo + n, bytes);
    forall i | 0 <= i < |s|
      ensures x[i] == y[i]
    {
      SpliceAt(s, lo, s[lo..lo + n] + bytes, i);
      SpliceAt(s, lo + n, bytes, i);
    }
  }

  lemma SpliceBehind(s: seq<Byte>, a: nat, bytes: seq<Byte>, end: nat)
    requires a + |bytes| <= end <= |s|
    ensures Splice(s, a, bytes + s[a + |bytes|..end]) == Splice(s, a, bytes)
  {
    hide Splice;
    forall i | 0 <= i < |s|
      ensures Splice(s, a, bytes + s[a + |bytes|..end])[i] == Splice(s, a, bytes)[i]
    {
      SpliceAt(s, a, bytes + s[a + |bytes|..end], i);
      SpliceAt(s, a, bytes, i);
    }
  }

  /** Two adjacent splices are one. */
  lemma SpliceAdjacent(s: seq<Byte>, a: nat, x: seq<Byte>, y: seq<Byte>)
    requires a + |x| + |y| <= |s|
    ensures Splice(Splice(s, a, x), a + |x|, y) == Splice(s, a, x + y)
  {
    hide Splice;
    forall i | 0 <= i < |s|
      ensures Splice(Splice(s, a, x), a + |x|, y)[i] == Splice(s, a, x + y)[i]
    {
      SpliceAt(s, a, x, i);
      SpliceAt(Splice(s, a, x), a + |x|, y, i);
      SpliceAt(s, a, x + y, i);
    }
  }

  lemma SpliceAgain(s: seq<Byte>, a: nat, bytes: seq<Byte>)
    requires a + |bytes| <= |s|
    ensures Splice(Splice(s, a, bytes), a, bytes) == Splice(s, a, bytes)
  {
    hide Splice;
    forall i | 0 <= i < |s|
      ensures Splice(Splice(s, a, bytes), a, bytes)[i] == Splice(s, a, bytes)[i]
    {
      SpliceAt(s, a, bytes, i);
      SpliceAt(Splice(s, a, bytes), a, bytes, i);
    }
  }

  /** Splicing inside one page changes that page's bytes in the same way, and no other page. */
  lemma SpliceInPage(contents: Flat, k: nat, at: nat, bytes: seq<Byte>)
    requires k < KEYS && at + |bytes| <= PAGE_SIZE
    ensures var contents' := Splice(contents, PAGE_SIZE * k + at, bytes);
      && PageSlice(contents', k) == Splice(PageSlice(contents, k), at, bytes)
      && (forall j :: 0 <= j < KEYS && j != k ==> PageSlice(contents', j) == PageSlice(contents, j))
      && (forall a :: 0 <= a < MEMORY_SIZE && a / PAGE_SIZE != k ==> contents'[a] == contents[a])
  {
    hide Splice;
    var contents' := Splice(contents, PAGE_SIZE * k + at, bytes);
    forall a | 0 <= a < MEMORY_SIZE && a / PAGE_SIZE != k
      ensures contents'[a] == contents[a]
    {
      SpliceAt(contents, PAGE_SIZE * k + at, bytes, a);
    }
    forall j | 0 <= j < KEYS && j != k
      ensures PageSlice(contents', j) == PageSlice(contents, j)
    {
      SpliceOutside(contents, PAGE_SIZE * k + at, bytes, PAGE_SIZE * j, PAGE_SIZE * j + PAGE_SIZE);
    }
    SpliceInside(contents, PAGE_SIZE * k + at, bytes, PAGE_SIZE * k, PAGE_SIZE * k + PAGE_SIZE);
  }

  /** Writing within one 64-byte block leaves the other blocks alone. */
  lemma SpliceBlock(s: seq<Byte>, at: nat, bytes: seq<Byte>)
    requires at + |bytes| <= |s| && at % 64 + |bytes| <= 64
    ensures forall j :: 0 <= j < |s| && j / 64 != at / 64 ==> Splice(s, at, bytes)[j] == s[j]
  {
    hide Splice;
    forall j | 0 <= j < |s| && j / 64 != at / 64
      ensures Splice(s, at, bytes)[j] == s[j]
    {
      SpliceAt(s, at, bytes, j);
    }
  }

  lemma AlignedRoom(a: Word)
    requires a % 4 == 0
    ensures a / 4096 < KEYS && a % 4096 <= 4092 && a % 4096 % 64 <= 60 && a % 32 <= 28
  {
  }

  /** An aligned word never crosses a page. */
  lemma WordInPage(contents: Flat, a: Word)
    requires a % 4 == 0
    ensures a / PAGE_SIZE < KEYS && a % PAGE_SIZE + 4 <= PAGE_SIZE && a % PAGE_SIZE % 64 + 4 <= 64
    ensures contents[a..a + 4] == PageSlice(contents, a / PAGE_SIZE)[a % PAGE_SIZE..a % PAGE_SIZE + 4]
  {
    AlignedRoom(a);
    SubSlice(contents, PAGE_SIZE * (a / PAGE_SIZE), PAGE_SIZE, a % PAGE_SIZE, 4);
  }

  lemma SubSlice(s: seq<Byte>, base: nat, len: nat, at: nat, n: nat)
    requires base + len <= |s| && at + n <= len
    ensures s[base..base + len][at..at + n] == s[base + at..base + at + n]
  {
    var page, a := s[base..base + len], base + at;
    var x, y := page[at..at + n], s[a..a + n];
    forall i | 0 <= i < n
      ensures x[i] == y[i]
    {
      assert page[at + i] == s[a + i];
    }
  }

  /** Marks node `g` and all its ancestors invalid. */
  function ClearPath(nodes: Nodes, g: nat): Nodes
    decreases g
  {
    if g == 0 then nodes else ClearPath(nodes[g := None], g / 2)
  }

  lemma {:induction false} ClearPathEffect(nodes: Nodes, g: nat)
    ensures forall x :: x in ClearPath(nodes, g) <==> x in nodes || (x >= 1 && Above(x, g))
    ensures forall x :: x in ClearPath(nodes, g) ==>
      ClearPath(nodes, g)[x] == if x >= 1 && Above(x, g) then None else nodes[x]
    decreases g
  {
    if g > 0 {
      ClearPathEffect(nodes[g := None], g / 2);
      forall x: nat | Above(x, g / 2)
        ensures x < g
      {
        AboveOrder(x, g / 2);
      }
    }
  }

  /** Every cached hash of the second map is one of the first. */
  ghost predicate CachesNoMore(before: Nodes, after: Nodes) {
    forall g :: g in after && after[g].Some? ==> g in before && before[g] == after[g]
  }

  lemma ClearPathCachesNoMore(nodes: Nodes, g: nat)
    ensures CachesNoMore(nodes, ClearPath(nodes, g))
  {
    ClearPathEffect(nodes, g);
  }

  /** Invalidating the path of a page makes it safe for that page to become stale. */
  lemma ClearForStale(nodes: Nodes, present: set<nat>, stale: set<nat>, contents: Flat, k: nat)
    requires NodesCorrect(nodes, present, stale, contents) && k in present
    ensures NodesCorrect(ClearPath(nodes, KEYS + k), present, stale + {k}, contents)
  {
    ClearPathEffect(nodes, KEYS + k);
  }

  /** Invalidating the path of a new page makes it safe to add that page. */
  lemma ClearForNew(nodes: Nodes, present: set<nat>, stale: set<nat>, contents: Flat, k: nat)
    requires NodesCorrect(nodes, present, stale, contents) && k < KEYS
    ensures NodesCorrect(ClearPath(nodes, KEYS + k), present + {k}, stale + {k}, contents)
  {
    ClearPathEffect(nodes, KEYS + k);
  }

  /** A page beyond the address space marks some nodes invalid, which never hurts. */
  lemma ClearForBeyond(nodes: Nodes, present: set<nat>, stale: set<nat>, contents: Flat, k: nat, g: nat)
    requires NodesCorrect(nodes, present, stale, contents) && k >= KEYS
    ensures NodesCorrect(ClearPath(nodes, g), present + {k}, stale, contents)
  {
    ClearPathEffect(nodes, g);
  }

  /** The node at which the path of a page index starts: `(1 << 20) | index`. */
  function PageKey(k: nat): nat { Or(KEYS, k) }

  lemma PageKeyInRange(k: nat)
    requires k < KEYS
    ensures PageKey(k) == KEYS + k
  {
    hide Or, Pow2;
    Pow2At27();
    OrDisjoint(k, 1, 20);
    OrComm(k, KEYS);
  }

  /** The memory with the bytes of one page replaced; a page beyond it holds none of its bytes. */
  ghost function PutPage(contents: Flat, k: nat, data: seq<Byte>): Flat
    requires |data| == PAGE_SIZE
  {
    if k < KEYS then Splice(contents, PAGE_SIZE * k, data) else contents
  }

  lemma PutPageSlices(contents: Flat, k: nat, data: seq<Byte>)
    requires |data| == PAGE_SIZE
    ensures var contents' := PutPage(contents, k, data);
      && (k < KEYS ==> PageSlice(contents', k) == data)
      && (forall j :: 0 <= j < KEYS && j != k ==> PageSlice(contents', j) == PageSlice(contents, j))
      && (forall a :: 0 <= a < MEMORY_SIZE && a / PAGE_SIZE != k ==> contents'[a] == contents[a])
    ensures k < KEYS && PageSlice(contents, k) == data ==> PutPage(contents, k, data) == contents
  {
    hide PageSlice, Splice;
    if k < KEYS {
      SpliceInPage(contents, k, 0, data);
      SpliceWhole(PageSlice(contents, k), data);
      SpliceSame(contents, k, data);
    }
  }

  lemma SpliceWhole(page: seq<Byte>, data: seq<Byte>)
    requires |page| == |data|
    ensures Splice(page, 0, data) == data
  {
  }

  lemma SpliceSame(contents: Flat, k: nat, data: seq<Byte>)
    requires k < KEYS && |data| == PAGE_SIZE
    ensures PageSlice(contents, k) == data ==> Splice(contents, PAGE_SIZE * k, data) == contents
  {
  }

  lemma PageNodeCoversOne(g: nat, k: nat)
    requires KEYS <= g && k < KEYS && Above(g, KEYS + k)
    ensures g == KEYS + k
  {
    if g != KEYS + k {
      AboveOrder(g, (KEYS + k) / 2);
    }
  }

  /** What holds of both children's pages holds of the parent's. */
  lemma NoneStaleBelow(stale: set<nat>, g: nat)
    requires 1 <= g < KEYS
    requires forall k :: k in stale ==> !Above(2 * g, KEYS + k) && !Above(2 * g + 1, KEYS + k)
    ensures forall k :: k in stale ==> !Above(g, KEYS + k)
  {
    forall k | k in stale
      ensures !Above(g, KEYS + k)
    {
      AboveChild(g, KEYS + k);
    }
  }

  lemma FewerStale(nodes: Nodes, present: set<nat>, stale: set<nat>, stale': set<nat>, contents: Flat)
    requires NodesCorrect(nodes, present, stale, contents) && stale' <= stale
    ensures NodesCorrect(nodes, present, stale', contents)
  {
  }

  /** A node over no stale page may be cached. */
  lemma CacheNode(nodes: Nodes, present: set<nat>, stale: set<nat>, contents: Flat, g: nat)
    requires NodesCorrect(nodes, present, stale, contents) && 1 <= g < KEYS
    requires forall k :: k in stale ==> !Above(g, KEYS + k)
    ensures NodesCorrect(nodes[g := Some(Node(contents, LEAVES, g))], present, stale, contents)
  {
  }

  /** A leaf lies under an upper node exactly when its page does. */
  lemma LeafToPage(g: nat, i: nat)
    requires i < LEAVES && g < 2 * KEYS
    ensures Above(g, LEAVES + i) <==> Above(g, KEYS + i / 128)
  {
    var q1 := (LEAVES + i) / 2;
    var q2 := q1 / 2;
    var q3 := q2 / 2;
    var q4 := q3 / 2;
    var q5 := q4 / 2;
    var q6 := q5 / 2;
    assert q6 >= 2 * KEYS && q6 / 2 == KEYS + i / 128;
    assert Above(g, LEAVES + i) <==> Above(g, q2);
    assert Above(g, q2) <==> Above(g, q4);
    assert Above(g, q4) <==> Above(g, q6);
    assert Above(g, q6) <==> Above(g, q6 / 2);
  }

  /** The contents of a stale page may change: no cached node depends on them. */
  lemma NodesSurviveWrite(nodes: Nodes, present: set<nat>, stale: set<nat>,
                          contents: Flat, contents': Flat, k: nat)
    requires NodesCorrect(nodes, present, stale, contents) && k in stale
    requires forall a :: 0 <= a < MEMORY_SIZE && a / PAGE_SIZE != k ==> contents[a] == contents'[a]
    ensures NodesCorrect(nodes, present, stale, contents')
  {
    forall g | g in nodes && nodes[g].Some?
      ensures Node(contents, LEAVES, g) == Node(contents', LEAVES, g)
    {
      NodeApart(contents, contents', g, k);
    }
  }

  /** A node that is no ancestor of page `k` does not depend on its bytes. */
  lemma NodeApart(contents: Flat, contents': Flat, g: nat, k: nat)
    requires 1 <= g < KEYS && !Above(g, KEYS + k)
    requires forall a :: 0 <= a < MEMORY_SIZE && a / PAGE_SIZE != k ==> contents[a] == contents'[a]
    ensures Node(contents, LEAVES, g) == Node(contents', LEAVES, g)
  {
    forall i | 0 <= i < LEAVES && Above(g, LEAVES + i)
      ensures Leaf(contents, i) == Leaf(contents', i)
    {
      LeafToPage(g, i);
      assert forall a :: 32 * i <= a < 32 * i + 32 ==> a / PAGE_SIZE == i / 128;
    }
    NodeFrame(contents, contents', LEAVES, g);
  }

  /** Allocating page `k` on a correct node map: it stays correct with the page marked stale. */
  lemma NodesAfterAlloc(before: Nodes, present: set<nat>, stale: set<nat>, was: Flat, k: nat)
    requires NodesCorrect(before, present, stale, was)
    ensures var nodes', contents' := ClearPath(before, PageKey(k)), PutPage(was, k, ZERO_PAGE);
      && NodesCorrect(nodes', present + {k}, stale - {k}, contents')
      && (k < KEYS ==> NodesCorrect(nodes', present + {k}, stale - {k} + {k}, contents'))
  {
    hide NodesCorrect, PutPage, ClearPath, PageKey;
    PutPageSlices(was, k, ZERO_PAGE);
    var nodes', contents' := ClearPath(before, PageKey(k)), PutPage(was, k, ZERO_PAGE);
    if k < KEYS {
      PageKeyInRange(k);
      ClearForNew(before, present, stale, was, k);
      NodesSurviveWrite(nodes', present + {k}, stale + {k}, was, contents', k);
      FewerStale(nodes', present + {k}, stale + {k}, stale - {k} + {k}, contents');
      FewerStale(nodes', present + {k}, stale + {k}, stale - {k}, contents');
    } else {
      ClearForBeyond(before, present, stale, was, k, PageKey(k));
      assert contents' == was by { PutBeyond(was, k); }
      FewerStale(nodes', present + {k}, stale, stale - {k}, contents');
    }
  }

  lemma PutBeyond(was: Flat, k: nat)
    requires k >= KEYS
    ensures PutPage(was, k, ZERO_PAGE) == was
  {
  }

  lemma PageKeyIs(k: nat)
    ensures PageKey(k) == Or(KEYS, k)
  {
  }

  lemma LeafInPage(contents: Flat, i: nat)
    requires i < LEAVES
    ensures Leaf(contents, i) == Leaf(PageSlice(contents, i / 128), i % 128)
  {
    SubSlice(contents, PAGE_SIZE * (i / 128), PAGE_SIZE, 32 * (i % 128), 32);
  }

  lemma LeafOfZeroPage(contents: Flat, i: nat)
    requires i < LEAVES
    requires PageSlice(contents, i / 128) == ZERO_PAGE
    ensures Leaf(contents, i) == ZERO_LEAF
  {
    LeafInPage(contents, i);
  }

  /** A node without an entry covers no page. */
  lemma AbsentCoversNothing(nodes: Nodes, present: set<nat>, stale: set<nat>, contents: Flat, g: nat)
    requires NodesCorrect(nodes, present, stale, contents) && ZeroElsewhere(contents, present)
    requires 1 <= g < 2 * KEYS && g !in nodes
    ensures ZeroUnder(contents, LEAVES, g)
  {
    forall i | 0 <= i < LEAVES && Above(g, LEAVES + i)
      ensures Leaf(contents, i) == ZERO_LEAF
    {
      hide *;
      var k := i / 128;
      LeafToPage(g, i);
      assert k !in present;
      LeafOfZeroPage(contents, i);
    }
  }

  /** Hence it is the zero hash of its height. */
  lemma AbsentNode(nodes: Nodes, present: set<nat>, stale: set<nat>, contents: Flat, g: nat)
    requires NodesCorrect(nodes, present, stale, contents) && ZeroElsewhere(contents, present)
    requires 1 <= g < 2 * KEYS && g !in nodes
    ensures Bits(g) <= 28 && Node(contents, LEAVES, g) == ZeroHash(28 - Bits(g))
  {
    hide NodesCorrect, ZeroElsewhere, ZeroUnder;
    AbsentCoversNothing(nodes, present, stale, contents, g);
    Pow2At27();
    ZeroNode(contents, LEAVES, 27, g);
  }

  lemma Pow2At27()
    ensures Pow2(27) == LEAVES && Pow2(20) == KEYS && Pow2(28) == 2 * LEAVES && Pow2(7) == PAGE_LEAVES
  {
    assert Pow2(10) == 0x400;
    assert Pow2(20) == KEYS;
  }

  /** How the source splits a generalized index of 21 to 28 bits into a page and a node in it. */
  function DepthIntoPage(g: nat): nat
    requires Bits(g) > 20
  {
    Bits(g) - 21
  }

  function PageIndexOf(g: nat): nat
    requires Bits(g) > 20
  {
    g / Pow2(DepthIntoPage(g)) % KEYS
  }

  function PageGindexOf(g: nat): nat
    requires Bits(g) > 20
  {
    Pow2(DepthIntoPage(g)) + g % Pow2(DepthIntoPage(g))
  }

  lemma UpperHasFewBits(g: nat)
    ensures Bits(g) <= 20 <==> g < KEYS
    ensures Bits(g) <= 28 <==> g < 2 * LEAVES
    ensures Bits(g) <= 21 <==> g < 2 * KEYS
  {
    Pow2At27();
    BitsBound(g, 20);
    BitsBound(g, 21);
    BitsBound(g, 28);
  }

  lemma SplitAtPage(g: nat)
    requires KEYS <= g < 2 * KEYS
    ensures Bits(g) == 21 && PageIndexOf(g) == g - KEYS && PageGindexOf(g) == 1
  {
    UpperHasFewBits(g);
  }

  /** Going down one level keeps the page and goes down one level in the page. */
  lemma SplitChild(g: nat)
    requires g >= 2 * KEYS
    ensures Bits(g) == Bits(g / 2) + 1 && Bits(g / 2) > 20
    ensures PageIndexOf(g) == PageIndexOf(g / 2)
    ensures PageGindexOf(g) == 2 * PageGindexOf(g / 2) + g % 2
  {
    UpperHasFewBits(g / 2);
    var p := Pow2(DepthIntoPage(g / 2));
    assert Pow2(DepthIntoPage(g)) == 2 * p;
    DivDiv(g, 2, p);
    HalfMod(g, p);
  }

  lemma SplitChildren(g: nat)
    requires g >= KEYS
    ensures Bits(g) > 20 && Bits(2 * g) > 20 && Bits(2 * g + 1) > 20
    ensures PageIndexOf(2 * g) == PageIndexOf(2 * g + 1) == PageIndexOf(g)
    ensures PageGindexOf(2 * g) == 2 * PageGindexOf(g) && PageGindexOf(2 * g + 1) == 2 * PageGindexOf(g) + 1
  {
    SplitChild(2 * g);
    SplitChild(2 * g + 1);
    assert (2 * g) / 2 == g && (2 * g + 1) / 2 == g;
  }

  /** The page and the node in it are in range. */
  lemma {:induction false} SplitRange(g: nat)
    requires KEYS <= g < 2 * LEAVES
    ensures 20 < Bits(g) <= 28
    ensures Bits(PageGindexOf(g)) == Bits(g) - 20 && 1 <= PageGindexOf(g) < 2 * PAGE_LEAVES
    ensures PageIndexOf(g) < KEYS
    decreases g
  {
    UpperHasFewBits(g);
    if g < 2 * KEYS {
      SplitAtPage(g);
    } else {
      SplitChild(g);
      SplitRange(g / 2);
      assert PageGindexOf(g) / 2 == PageGindexOf(g / 2);
    }
    BitsBound(PageGindexOf(g), 8);
  }

  /** `h` leaves of page `k` start at node `(KEYS + k) * h`, the page's own at node `h`. */
  ghost predicate Splits(g: int, k: int, pg: int, h: int) { g == pg + (KEYS + k - 1) * h }

  lemma SplitsChild(g: int, k: int, pg: int, h: int, bit: int)
    requires Splits(g, k, pg, h)
    ensures Splits(2 * g + bit, k, 2 * pg + bit, 2 * h)
  {
    assert (KEYS + k - 1) * (2 * h) == 2 * ((KEYS + k - 1) * h);
  }

  lemma {:induction false} SplitInverse(g: nat)
    requires KEYS <= g < 2 * LEAVES
    ensures Bits(g) > 20
    ensures Splits(g, PageIndexOf(g), PageGindexOf(g), Pow2(DepthIntoPage(g)))
    decreases g
  {
    UpperHasFewBits(g);
    if g < 2 * KEYS {
      SplitAtPage(g);
    } else {
      SplitChild(g);
      SplitInverse(g / 2);
      SplitsChild(g / 2, PageIndexOf(g / 2), PageGindexOf(g / 2), Pow2(DepthIntoPage(g / 2)), g % 2);
      assert Pow2(DepthIntoPage(g)) == 2 * Pow2(DepthIntoPage(g / 2));
    }
  }

  lemma SplitLeaf(i: nat)
    requires i < LEAVES
    ensures Bits(LEAVES + i) == 28
    ensures PageIndexOf(LEAVES + i) == i / 128 && PageGindexOf(LEAVES + i) == 128 + i % 128
  {
    hide Bits, Pow2, PageIndexOf, PageGindexOf;
    var g := LEAVES + i;
    UpperHasFewBits(g);
    Pow2At27();
    BitsBound(g, 27);
    SplitInverse(g);
    SplitRange(g);
    BitsBound(PageGindexOf(g), 7);
    DivModUnique(i, 128, PageIndexOf(g), PageGindexOf(g) - 128);
  }

  lemma PageLeaf(contents: Flat, i: nat)
    requires i < LEAVES
    ensures Bits(LEAVES + i) > 20 && PageIndexOf(LEAVES + i) < KEYS && 1 <= PageGindexOf(LEAVES + i) < 2 * PAGE_LEAVES
    ensures Node(contents, LEAVES, LEAVES + i)
      == Node(PageSlice(contents, PageIndexOf(LEAVES + i)), PAGE_LEAVES, PageGindexOf(LEAVES + i))
  {
    hide Bits, Pow2, PageIndexOf, PageGindexOf;
    SplitLeaf(i);
    LeafInPage(contents, i);
    LeafNode(contents, LEAVES, i);
    LeafNode(PageSlice(contents, i / 128), PAGE_LEAVES, i % 128);
  }

  /** A memory node below page level is the corresponding node of the page's own tree. */
  lemma {:induction false} PageSubtree(contents: Flat, g: nat)
    requires KEYS <= g < 2 * LEAVES
    ensures 20 < Bits(g) <= 28 && PageIndexOf(g) < KEYS && 1 <= PageGindexOf(g) < 2 * PAGE_LEAVES
    ensures Node(contents, LEAVES, g) == Node(PageSlice(contents, PageIndexOf(g)), PAGE_LEAVES, PageGindexOf(g))
    decreases 2 * LEAVES - g
  {
    SplitRange(g);
    if g >= LEAVES {
      PageLeaf(contents, g - LEAVES);
    } else {
      SplitChildren(g);
      PageGindexSmall(g);
      var page, pg := PageSlice(contents, PageIndexOf(g)), PageGindexOf(g);
      PageSubtree(contents, 2 * g);
      PageSubtree(contents, 2 * g + 1);
      InnerNode(contents, LEAVES, g);
      InnerNode(page, PAGE_LEAVES, pg);
      assert Node(contents, LEAVES, 2 * g) == Node(page, PAGE_LEAVES, 2 * pg);
      assert Node(contents, LEAVES, 2 * g + 1) == Node(page, PAGE_LEAVES, 2 * pg + 1);
    }
  }

  lemma PageGindexSmall(g: nat)
    requires KEYS <= g < LEAVES
    ensures 20 < Bits(g) && PageGindexOf(g) < PAGE_LEAVES
  {
    SplitRange(g);
    Pow2At27();
    BitsBound(g, 27);
    BitsBound(PageGindexOf(g), 7);
  }

  /** The node at the given depth on the path to the leaf of an address. */
  function PathNode(address: Word, depth: nat): nat
    requires depth <= 27
  {
    DivShrinks(LEAVES + address / 32, Pow2(27 - depth));
    (LEAVES + address / 32) / Pow2(27 - depth)
  }

  lemma PathEnds(address: Word)
    ensures PathNode(address, 0) == 1 && PathNode(address, 27) == LEAVES + address / 32
  {
    Pow2At27();
    DivModUnique(LEAVES + address / 32, LEAVES, 1, address / 32);
    assert Pow2(0) == 1;
  }

  /** Dividing past an even multiple of the divisor keeps the parity of the quotient. */
  lemma EvenOffset(x: nat, p: nat, half: nat)
    requires p >= 1
    ensures (p * (2 * half) + x) / p == 2 * half + x / p
  {
    assert p * (2 * half + x / p) == p * (2 * half) + p * (x / p);
    DivModUnique(p * (2 * half) + x, p, 2 * half + x / p, x % p);
  }

  /** Each step down the path appends the next address bit, highest first. */
  lemma PathStep(address: Word, depth: nat)
    requires depth < 27
    ensures PathNode(address, depth + 1) == 2 * PathNode(address, depth) + address / Pow2(31 - depth) % 2
  {
    hide PageSlice, PageIndexOf, PageGindexOf, Pow2;
    var e := 26 - depth;
    PathPowers(e);
    DivDiv(address, 32, Pow2(e));
    DivDiv(LEAVES + address / 32, Pow2(e), 2);
    EvenOffset(address / 32, Pow2(e), Pow2(26 - e));
  }

  lemma PathPowers(e: nat)
    requires e <= 26
    ensures LEAVES == Pow2(e) * (2 * Pow2(26 - e))
    ensures Pow2(e + 5) == 32 * Pow2(e) && Pow2(e + 1) == Pow2(e) * 2
  {
    Pow2At27();
    Pow2Sum(e, 27 - e);
    Pow2Sum(5, e);
    assert Pow2(5) == 32;
    assert Pow2(27 - e) == 2 * Pow2(26 - e);
  }

  lemma {:induction false} PathAbove(address: Word, depth: nat)
    requires depth <= 27
    ensures PathNode(address, depth) >= 1 && Above(PathNode(address, depth), LEAVES + address / 32)
    ensures PathNode(address, depth) < 2 * LEAVES
    decreases 27 - depth
  {
    PathEnds(address);
    if depth < 27 {
      PathStep(address, depth);
      PathAbove(address, depth + 1);
      var below := PathNode(address, depth + 1);
      assert below / 2 == PathNode(address, depth);
      PathPositive(address, depth);
      assert Above(below / 2, below);
      AboveTransitive(below / 2, below, LEAVES + address / 32);
    }
  }

  lemma {:induction false} PathPositive(address: Word, depth: nat)
    requires depth <= 27
    ensures PathNode(address, depth) >= 1
  {
    PathEnds(address);
    if depth > 0 {
      PathPositive(address, depth - 1);
      PathStep(address, depth - 1);
    }
  }
}
