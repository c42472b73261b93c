/** The two ways to break the caches of a memory, run to the wrong answer they lead to. */
module CacheFailures {
  import opened Words
  import opened Results
  import opened MerkleTree
  import opened Pages
  import opened UpperTree
  import opened MemoryProofs
  import opened PagedMemory
  import opened RangeLoading

  /** An allocated page gives the root an entry. */
  lemma RootHasEntry(m: Memory, k: nat)
    requires m.Valid() && k in m.pages && k < KEYS
    ensures 1 in m.nodes
  {
    hide Memory.PagesMatch, Memory.SlotsMatch;
    RootAbove(KEYS + k);
  }

  /** A cached root survives a load that allocates nothing. */
  lemma RootSurvives(before: Nodes, after: Nodes, touched: set<nat>, present: set<nat>)
    requires Forgets(before, after, touched - present) && touched <= present && Cached(before, 1)
    ensures Cached(after, 1) && after[1] == before[1]
  {
    assert touched - present == {};
  }

  lemma WriteZeroToZero(a: Word)
    requires a % 4 == 0
    ensures WriteWord(ZERO_MEMORY, a, 0) == ZERO_MEMORY
  {
  }

  lemma TouchedOnePage(a: Word)
    requires a % 4 == 0 && a % PAGE_SIZE == 0
    ensures Touched(a, 2) == {a / PAGE_SIZE}
  {
    hide After;
    AfterNone(a);
    SamePage(a, 1);
    assert PageAt(a, 0) in Touched(a, 2);
  }

  lemma OverlayOne(contents: Flat, a: Word, b: Byte)
    ensures Overlay(contents, a, [b]) == contents[a := b]
  {
    assert [b][1..] == [];
  }

  /** A zero memory with one allocated page and its root hashed and cached. */
  method OnePageHashed(a: Word) returns (m: Memory, root: Result<Digest>)
    requires a % 4 == 0 && a % PAGE_SIZE == 0
    ensures fresh(m) && fresh(m.Repr) && m.Valid() && m.contents == ZERO_MEMORY && m.pages.Keys == {a / PAGE_SIZE}
    ensures root == Ok(TreeRoot(ZERO_MEMORY))
    ensures Cached(m.nodes, 1) && m.nodes[1].value == TreeRoot(ZERO_MEMORY)
  {
    hide NodesCorrect, TreeRoot, WriteWord, Memory.PagesMatch, Memory.PagesApart, Memory.SlotsMatch, Memory.Stale;
    m := new Memory();
    WriteZeroToZero(a);
    var _ := m.SetMemory(a, 0);
    RootHasEntry(m, a / PAGE_SIZE);
    root := m.MerkleRoot();
    RootIs(m);
  }

  /** The reader of a single byte. */
  method OneByte(b: Byte) returns (data: MultiReader)
    ensures fresh(data) && fresh(data.first) && fresh(data.second)
    ensures data.Valid() && !data.MayFail() && data.Rest() == [b]
  {
    var file := new Reader([b], false);
    var none := new Reader([], false);
    data := new MultiReader(file, none);
  }

  /** Bulk loading under a cached root: one page, its root hashed, one byte loaded over it.
      Hashing then still returns the root of the memory before the load, which is wrong unless
      two hashed strings collide. */
  method LoadUnderCachedRoot(a: Word) returns (m: Memory, before: Result<Digest>, after: Result<Digest>)
    requires a % 4 == 0 && a % PAGE_SIZE == 0
    ensures fresh(m) && m.contents == ZERO_MEMORY[a := 1]
    ensures after == before == Ok(TreeRoot(ZERO_MEMORY))
    ensures ProofsApart(ZERO_MEMORY, m.contents, a) ==> after != Ok(TreeRoot(m.contents))
  {
    hide NodesCorrect, Forgets, LoadSafe, Overlay, TreeRoot, ProofsApart, Touched, Memory.PagesMatch,
      Memory.PagesApart, Memory.SlotsMatch, Memory.Stale;
    m, before := OnePageHashed(a);
    ghost var nodes, keys := m.nodes, m.pages.Keys;
    var data := OneByte(1);
    TouchedOnePage(a);
    OverlayOne(ZERO_MEMORY, a, 1);
    var loaded := SetMemoryRange(m, a, data);
    assert loaded.Ok? && Forgets(nodes, m.nodes, Touched(a, 2) - keys);
    RootSurvives(nodes, m.nodes, Touched(a, 2), keys);
    after := m.MerkleRoot();
    SameUnlessApart(m.contents, a);
  }

  lemma SameUnlessApart(contents: Flat, a: Word)
    requires contents[a] != 0
    ensures ProofsApart(ZERO_MEMORY, contents, a) ==> TreeRoot(ZERO_MEMORY) != TreeRoot(contents)
  {
    hide ProofsApart, TreeRoot;
    if ProofsApart(ZERO_MEMORY, contents, a) {
      SameRootSameByte(ZERO_MEMORY, contents, a);
    }
  }

  lemma RootIs(m: Memory)
    requires m.Valid() && m.Answered(1)
    ensures Cached(m.nodes, 1) && m.nodes[1].value == TreeRoot(m.contents)
  {
    hide Memory.PagesMatch, Memory.SlotsMatch;
  }

  lemma ZeroPageWord(contents: Flat, a: Word)
    requires a % 4 == 0 && a % PAGE_SIZE == 0
    ensures WordAt(PutPage(contents, a / PAGE_SIZE, ZERO_PAGE), a) == 0
  {
    hide PutPage;
    PutPageSlices(contents, a / PAGE_SIZE, ZERO_PAGE);
    WordInPage(PutPage(contents, a / PAGE_SIZE, ZERO_PAGE), a);
  }

  /** Reallocating a page that the lookup cache holds: reads still return the bytes of the
      replaced page, although the memory is zero there. */
  method ReadReplacedPage(a: Word, value: Word) returns (m: Memory, r: Result<Word>)
    requires a % 4 == 0 && a % PAGE_SIZE == 0
    ensures fresh(m) && WordAt(m.contents, a) == 0
    ensures r == Ok(value)
  {
    hide NodesCorrect, WordAt, WriteWord, WordOf, PutPage, ClearPath, PageKey, Memory.PagesMatch, Memory.Stale;
    m := new Memory();
    var _ := m.SetMemory(a, value);
    WriteThenWordAt(ZERO_MEMORY, a, value);
    var cached := m.GetMemory(a);
    var k := a / PAGE_SIZE;
    m.PageFacts(k);
    var page := m.pages[k];
    assert HoldsWord(page, 0, value);
    ZeroPageWord(m.contents, a);
    var _ := m.AllocPage(k);
    assert HoldsWord(page, 0, value);
    r := m.GetMemory(a);
  }

  lemma WriteThenWordAt(contents: Flat, a: Word, value: Word)
    requires a % 4 == 0
    ensures WordAt(WriteWord(contents, a, value), a) == value
  {
    WordRoundTrip(value);
    assert WriteWord(contents, a, value)[a..a + 4] == BytesOf(value);
  }
}
