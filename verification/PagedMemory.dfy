/** The emulator's memory: a sparse map of cached pages under a map of cached tree nodes,
    with a two-entry lookup cache in front. The ghost field `contents` is the flat 2^32-byte
    memory it stands for. */
module PagedMemory {
  import opened Words
  import opened Results
  import opened MerkleTree
  import opened Pages
  import opened UpperTree
  import opened MemoryProofs

  datatype CacheSlot = CacheSlot(key: Long, page: CachedPage?)

  /** No slot of the lookup cache holds the given page. */
  predicate SlotFree(slots: seq<CacheSlot>, k: nat) {
    forall i :: 0 <= i < |slots| && slots[i].page != null ==> slots[i].key != k
  }

  /** What the first slot with the given key holds. */
  function SlotHit(slots: seq<CacheSlot>, k: nat): CachedPage?
    requires |slots| == 2
  {
    if slots[0].key == k then slots[0].page else if slots[1].key == k then slots[1].page else null
  }

  /** The page a lookup finds, and the slots it leaves behind. */
  function Found(slots: seq<CacheSlot>, pages: map<nat, CachedPage>, k: nat): CachedPage?
    requires |slots| == 2
  {
    if SlotHit(slots, k) != null then SlotHit(slots, k) else if k in pages then pages[k] else null
  }

  function SlotsAfter(slots: seq<CacheSlot>, pages: map<nat, CachedPage>, k: Long): (slots': seq<CacheSlot>)
    requires |slots| == 2
    ensures |slots'| == 2
  {
    if SlotHit(slots, k) == null && k in pages then [CacheSlot(k, pages[k]), slots[0]] else slots
  }

  /** The word at a position of a page; no page reads as zero. */
  ghost predicate HoldsWord(page: CachedPage?, at: nat, value: Word)
    reads if page == null then {} else {page.data}
  {
    if page == null then value == 0
    else at + 4 <= page.data.Length && value == WordOf(page.data[at..at + 4])
  }

  /** `copy_from_slice` into part of a buffer. */
  method CopyInto(buffer: array<Byte>, at: nat, bytes: seq<Byte>)
    requires at + |bytes| <= buffer.Length
    modifies buffer
    ensures buffer[..] == Splice(old(buffer[..]), at, bytes)
  {
    for i := 0 to |bytes|
      invariant forall j :: 0 <= j < buffer.Length ==>
        buffer[j] == if at <= j < at + i then bytes[j - at] else old(buffer[j])
    {
      buffer[at + i] := bytes[i];
    }
  }

  class Memory {
    var nodes: Nodes
    var pages: map<nat, CachedPage>
    var lastPage: seq<CacheSlot>

    ghost var contents: Flat
    ghost var Repr: set<object>

    ghost predicate PagesApart()
      reads `pages, `Repr
    {
      && this in Repr
      && (forall k :: k in pages ==> pages[k].Shaped() && pages[k].Repr <= Repr - {this})
      && (forall j, k :: j in pages && k in pages && j != k ==> pages[j].Repr !! pages[k].Repr)
    }

    /** Pages beyond the address space may exist, but hold no byte of the memory. */
    ghost predicate PagesMatch()
      requires PagesApart()
      reads `pages, `contents, `Repr, Repr - {this}
    {
      && (forall k :: k in pages ==> k < LONG_LIMIT && pages[k].Valid())
      && (forall k :: k in pages && k < KEYS ==> pages[k].data[..] == PageSlice(contents, k))
      && ZeroElsewhere(contents, pages.Keys)
    }

    /** Pages of the address space whose own root is marked invalid. */
    ghost function Stale(): set<nat>
      requires PagesApart()
      reads `pages, `Repr, Repr - {this}
    {
      set k | k in pages && k < KEYS && !pages[k].valid[1]
    }

    /** All pages below node `g` have a valid root. */
    ghost predicate NoneStaleUnder(g: nat)
      requires PagesApart()
      reads `pages, `Repr, Repr - {this}
    {
      forall k :: k in Stale() ==> !Above(g, KEYS + k)
    }

    /** The lookup cache only ever aliases pages of the map. */
    ghost predicate SlotsMatch()
      reads `pages, `lastPage
    {
      && |lastPage| == 2
      && forall i :: 0 <= i < 2 && lastPage[i].page != null ==>
        lastPage[i].key in pages && pages[lastPage[i].key] == lastPage[i].page
    }

    ghost predicate NodesMatch()
      requires PagesApart()
      reads `nodes, `pages, `contents, `Repr, Repr - {this}
    {
      NodesCorrect(nodes, pages.Keys, Stale(), contents)
    }

    /** The pages and the lookup cache are in order, whatever the nodes above hold. */
    ghost predicate PagesSound()
      reads `pages, `lastPage, `contents, `Repr, Repr - {this}
    {
      PagesApart() && PagesMatch() && SlotsMatch()
    }

    ghost predicate Valid()
      reads this, Repr
    {
      PagesSound() && NodesMatch()
    }

    /** What the page invariant says about one page. */
    lemma PageFacts(k: nat)
      requires PagesApart() && PagesMatch() && k in pages
      ensures pages[k].Shaped() && pages[k].Repr <= Repr - {this} && k < LONG_LIMIT
      ensures pages[k].Valid() && (k < KEYS ==> pages[k].data[..] == PageSlice(contents, k))
    {
    }

    lemma StaleInRange()
      requires PagesApart()
      ensures forall k :: k in Stale() ==> k in pages && k < KEYS
    {
    }

    /** Touching the objects of one page only keeps all other pages as they were. */
    twostate lemma OnlyPageChanged(k: nat)
      requires old(PagesApart()) && old(PagesMatch())
      requires unchanged(`pages) && unchanged(`Repr) && k in pages
      requires forall o :: o in Repr - {this} && o !in pages[k].Repr ==> unchanged(o)
      requires pages[k].Valid() && (k < KEYS ==> pages[k].data[..] == PageSlice(contents, k))
      requires forall j :: 0 <= j < KEYS && j != k ==> PageSlice(contents, j) == PageSlice(old(contents), j)
      ensures PagesApart() && PagesMatch()
      ensures Stale() == if pages[k].valid[1] || k >= KEYS then old(Stale()) - {k} else old(Stale()) + {k}
    {
      hide CacheCorrect;
      forall j | j in pages && j != k
        ensures unchanged(pages[j].data) && unchanged(pages[j].cache) && unchanged(pages[j].valid)
      {
        assert pages[j].Repr !! pages[k].Repr;
        assert pages[j].data in pages[j].Repr && pages[j].cache in pages[j].Repr && pages[j].valid in pages[j].Repr;
      }
    }

    /** The bytes of every page, those beyond the address space included. */
    ghost function Table(): map<nat, seq<Byte>>
      requires PagesApart()
      reads this, Repr
    {
      map k | k in pages :: pages[k].data[..]
    }

    twostate lemma TableKept(k: nat)
      requires old(PagesApart()) && PagesApart() && unchanged(`pages) && unchanged(`Repr) && k in pages
      requires forall o :: o in Repr - {this} && o !in pages[k].Repr ==> unchanged(o)
      ensures Table() == old(Table())[k := pages[k].data[..]]
    {
      forall j | j in pages && j != k
        ensures pages[j].data[..] == old(pages[j].data[..])
      {
        assert pages[j].Repr !! pages[k].Repr && pages[j].data in pages[j].Repr;
      }
      var before, after := old(Table()), Table();
      assert forall j :: j in pages ==> before[j] == old(pages[j].data[..]) && after[j] == pages[j].data[..];
    }

    twostate lemma TableInserted(k: nat)
      requires old(PagesApart()) && PagesApart() && k in pages && pages == old(pages)[k := pages[k]]
      requires forall o :: o in old(Repr) - {this} ==> unchanged(o)
      ensures Table() == old(Table())[k := pages[k].data[..]]
    {
      hide PagesApart;
      var before, after := old(Table()), Table();
      forall j | j in after && j != k
        ensures after[j] == before[j]
      {
        PageKept(j);
        assert pages[j] == old(pages[j]) && after[j] == pages[j].data[..] && before[j] == old(pages[j].data[..]);
      }
    }

    constructor ()
      ensures Valid() && fresh(Repr)
      ensures contents == ZERO_MEMORY && pages == map[] && nodes == map[]
    {
      nodes := map[];
      pages := map[];
      lastPage := [CacheSlot(LONG_LIMIT - 1, null), CacheSlot(LONG_LIMIT - 1, null)];
      contents := ZERO_MEMORY;
      Repr := {this};
    }

    /** Finds a page through the two-entry cache, then the map; a map hit is cached. */
    method PageLookup(pageIndex: Long) returns (page: CachedPage?)
      requires |lastPage| == 2
      modifies this`lastPage
      ensures page == Found(old(lastPage), pages, pageIndex)
      ensures lastPage == SlotsAfter(old(lastPage), pages, pageIndex)
      ensures old(SlotsMatch()) ==> SlotsMatch() && page == if pageIndex in pages then pages[pageIndex] else null
      ensures old(PagesSound()) ==> PagesSound()
      ensures old(Valid()) ==> Valid()
    {
      hide NodesCorrect, PagesMatch, PagesApart, Stale;
      page := null;
      if lastPage[0].key == pageIndex {
        page := lastPage[0].page;
      } else if lastPage[1].key == pageIndex {
        page := lastPage[1].page;
      }
      if page == null && pageIndex in pages {
        page := pages[pageIndex];
        lastPage := [CacheSlot(pageIndex, page), lastPage[0]];
      }
    }

    /** Marks node `g` and its ancestors invalid. */
    method InvalidatePath(g: nat)
      modifies this`nodes
      ensures nodes == ClearPath(old(nodes), g)
    {
      var key := g;
      while key > 0
        invariant ClearPath(nodes, key) == ClearPath(old(nodes), g)
      {
        nodes := nodes[key := None];
        key := key / 2;
      }
    }

    /** Objects outside the old footprint of a page leave it alone. */
    twostate lemma PageKept(j: nat)
      requires old(PagesApart()) && j in old(pages)
      requires forall o :: o in old(Repr) - {this} ==> unchanged(o)
      ensures var page := old(pages[j]);
        unchanged(page.data) && unchanged(page.cache) && unchanged(page.valid)
    {
      var page := old(pages[j]);
      assert page.data in page.Repr && page.cache in page.Repr && page.valid in page.Repr;
    }

    /** Putting a page into the map, new or instead of another, keeps all other pages. */
    twostate lemma PageAdded(k: nat, new page: CachedPage)
      requires old(PagesApart()) && old(PagesMatch()) && k < LONG_LIMIT && pages == old(pages)[k := page]
      requires Repr == old(Repr) + page.Repr && forall o :: o in page.Repr ==> o !in old(Repr)
      requires forall o :: o in old(Repr) - {this} ==> unchanged(o)
      requires page.Valid() && (k < KEYS ==> page.data[..] == PageSlice(contents, k))
      requires forall j :: 0 <= j < KEYS && j != k ==> PageSlice(contents, j) == PageSlice(old(contents), j)
      ensures PagesApart() && PagesMatch()
    {
      hide CacheCorrect, PageSlice;
      assert PagesApart() by {
        hide CachedPage.Valid, ZeroElsewhere;
      }
      forall j | j in pages
        ensures j < LONG_LIMIT && pages[j].Valid() && (j < KEYS ==> pages[j].data[..] == PageSlice(contents, j))
      {
        if j != k {
          hide ZeroElsewhere;
          PageKept(j);
        }
      }
      assert ZeroElsewhere(contents, pages.Keys);
    }

    twostate lemma StaleAdded(k: nat, new page: CachedPage)
      requires old(PagesApart()) && PagesApart() && pages == old(pages)[k := page]
      requires forall o :: o in old(Repr) - {this} ==> unchanged(o)
      requires page.Valid() && page.valid[1]
      ensures Stale() == old(Stale()) - {k} && pages.Keys == old(pages.Keys) + {k}
    {
      hide CacheCorrect;
      forall j | j in old(pages)
        ensures unchanged(old(pages[j]).valid)
      {
        PageKept(j);
      }
    }

    method InsertPage(k: nat, page: CachedPage)
      requires PagesSound() && k < LONG_LIMIT && forall o :: o in page.Repr ==> o !in Repr
      requires page.Valid() && page.data[..] == ZERO_PAGE && page.valid[1]
      modifies this`pages, this`contents, this`Repr
      ensures contents == PutPage(old(contents), k, ZERO_PAGE)
      ensures pages == old(pages)[k := page] && Repr == old(Repr) + page.Repr
      ensures PagesApart() && PagesMatch()
      ensures Stale() == old(Stale()) - {k} && pages.Keys == old(pages.Keys) + {k}
    {
      hide PagesMatch, CacheCorrect, SlotsMatch, PutPage, PageSlice;
      PutPageSlices(contents, k, ZERO_PAGE);
      contents := PutPage(contents, k, ZERO_PAGE);
      pages := pages[k := page];
      Repr := Repr + page.Repr;
      PageAdded(k, page);
      StaleAdded(k, page);
    }

    lemma SlotsAfterInsert(slots: seq<CacheSlot>, before: map<nat, CachedPage>, k: nat, page: CachedPage)
      requires |slots| == 2 && forall i :: 0 <= i < 2 && slots[i].page != null ==> slots[i].page != page
      requires forall i :: 0 <= i < 2 && slots[i].page != null ==>
        slots[i].key in before && before[slots[i].key] == slots[i].page
      ensures (forall i :: 0 <= i < 2 && slots[i].page != null ==>
        slots[i].key in before[k := page] && before[k := page][slots[i].key] == slots[i].page) <==> SlotFree(slots, k)
    {
    }

    /** Allocates a zeroed page. The nodes above it are marked, the lookup cache is not: when
        the page exists and is in that cache, the cache goes on aliasing the replaced page. */
    method AllocPage(pageIndex: Long) returns (page: CachedPage)
      requires PagesSound()
      modifies this
      ensures PagesApart() && PagesMatch() && pages == old(pages)[pageIndex := page]
      ensures SlotsMatch() <==> old(SlotFree(lastPage, pageIndex))
      ensures pageIndex !in old(pages) ==> SlotsMatch() && contents == old(contents)
      ensures contents == PutPage(old(contents), pageIndex, ZERO_PAGE)
      ensures page.Shaped() && fresh(page.Repr) && Repr == old(Repr) + page.Repr && lastPage == old(lastPage)
      ensures nodes == ClearPath(old(nodes), PageKey(pageIndex)) && Stale() == old(Stale()) - {pageIndex}
      ensures old(Valid()) ==> NodesMatch() && (Valid() <==> old(SlotFree(lastPage, pageIndex)))
      ensures old(Valid()) && pageIndex < KEYS ==> NodesCorrect(nodes, pages.Keys, Stale() + {pageIndex}, contents)
    {
      hide PagesMatch, PagesApart, Stale, NodesCorrect, CacheCorrect, ClearPath, SlotFree, PutPage, PageSlice, PageKey;
      var k: nat := pageIndex;
      AbsentPageIsZero(k);
      PutPageSlices(contents, k, ZERO_PAGE);
      if k >= KEYS {
        PutBeyond(contents, k);
      }
      page := new CachedPage();
      SlotsAfterInsert(lastPage, pages, k, page);
      SlotsOfAbsent(k);
      if NodesMatch() {
        NodesAfterAlloc(nodes, pages.Keys, Stale(), contents, k);
      }
      InsertPage(k, page);
      InvalidatePath(Or(KEYS, k));
      assert PageKey(k) == Or(KEYS, k) by { PageKeyIs(k); }
      assert Stale() == old(Stale()) - {k};
    }

    lemma SlotsOfAbsent(k: nat)
      requires SlotsMatch()
      ensures k !in pages ==> SlotFree(lastPage, k)
    {
    }

    /** Marks the caches of one page over one address invalid, whatever lies above it. */
    method MarkPage(k: nat, pageAddress: Word)
      requires Valid() && k in pages && k < KEYS && pageAddress < PAGE_SIZE
      modifies pages[k].valid
      ensures PagesApart() && PagesMatch() && Stale() == old(Stale()) + {k}
      ensures forall i :: 0 <= i <= 64 + pageAddress / 64 ==> !pages[k].valid[i]
    {
      hide NodesCorrect, CacheCorrect, SlotsMatch;
      PageFacts(k);
      var page := pages[k];
      var _ := page.Invalidate(pageAddress);
      OnlyPageChanged(k);
    }

    /** Marks a page whose ancestors are known not to be cached. */
    method InvalidateInPage(k: nat, pageAddress: Word)
      requires Valid() && k in pages && k < KEYS && pageAddress < PAGE_SIZE
      requires NodesCorrect(nodes, pages.Keys, Stale() + {k}, contents)
      modifies pages[k].valid
      ensures Valid() && Stale() == old(Stale()) + {k}
      ensures forall i :: 0 <= i <= 64 + pageAddress / 64 ==> !pages[k].valid[i]
    {
      hide NodesCorrect, CacheCorrect, PagesMatch, PagesApart, Stale;
      MarkPage(k, pageAddress);
    }

    /** Invalidates the caches over one address. The early exit relies on the invariant that
        a page with an invalid root has no cached ancestor. */
    method Invalidate(address: Word) returns (r: Result<()>)
      requires Valid()
      modifies this`nodes, this`lastPage, Repr - {this}
      ensures Valid()
      ensures r.Ok? <==> address % 4 == 0
      ensures lastPage == if r.Ok? then SlotsAfter(old(lastPage), pages, address / PAGE_SIZE) else old(lastPage)
      ensures r.Ok? && address / PAGE_SIZE in pages ==>
        forall i :: 0 <= i <= 64 + address % PAGE_SIZE / 64 ==> !pages[address / PAGE_SIZE].valid[i]
    {
      hide NodesCorrect, CacheCorrect, PagesMatch, PagesApart, SlotsMatch;
      if address % 4 != 0 {
        return Err(Panic);
      }
      var k := address / PAGE_SIZE;
      SlotsStart();
      var page := PageLookup(k);
      if page == null {
        return Ok(());
      }
      PageFacts(k);
      var alreadyInvalid := !page.valid[1];
      MarkPage(k, address % PAGE_SIZE);
      if alreadyInvalid {
        assert Stale() == old(Stale());
        return Ok(());
      }
      ClearForStale(nodes, pages.Keys, old(Stale()), contents, k);
      InvalidatePath((WORD_LIMIT + address) / PAGE_SIZE);
      assert Stale() == old(Stale()) + {k};
      r := Ok(());
    }

    /** Overwrites bytes of a page inside a block whose caches have been invalidated. */
    method StoreBytes(k: nat, at: nat, bytes: seq<Byte>)
      requires Valid() && k in pages && k < KEYS && at < PAGE_SIZE && at % 64 + |bytes| <= 64
      requires forall i :: 0 <= i <= 64 + at / 64 ==> !pages[k].valid[i]
      modifies this`contents, pages[k].data
      ensures Valid()
      ensures contents == Splice(old(contents), PAGE_SIZE * k + at, bytes)
    {
      hide NodesCorrect, CacheCorrect, PagesMatch, SlotsMatch, Splice, PageSlice;
      PageFacts(k);
      var page := pages[k];
      SpliceInPage(contents, k, at, bytes);
      SpliceBlock(page.data[..], at, bytes);
      CacheSurvivesWrite(page.data[..], Splice(page.data[..], at, bytes), page.cache[..], page.valid[..], at);
      CopyInto(page.data, at, bytes);
      contents := Splice(contents, PAGE_SIZE * k + at, bytes);
      OnlyPageChanged(k);
      assert Stale() == old(Stale());
      NodesSurviveWrite(nodes, pages.Keys, Stale(), old(contents), contents, k);
    }

    /** Writes a word, allocating its page if there is none. */
    method SetMemory(address: Word, value: Word) returns (r: Result<()>)
      requires Valid()
      modifies this, Repr
      ensures Valid() && fresh(Repr - old(Repr))
      ensures r.Ok? <==> address % 4 == 0
      ensures contents == if r.Ok? then WriteWord(old(contents), address, value) else old(contents)
      ensures pages.Keys == if r.Ok? then old(pages.Keys) + {address / PAGE_SIZE} else old(pages.Keys)
      ensures lastPage == if r.Ok? then SlotsAfter(old(lastPage), old(pages), address / PAGE_SIZE) else old(lastPage)
    {
      hide NodesCorrect, PagesMatch, SlotsMatch, PagesApart, Stale, Splice, ClearPath, SlotFree, PutPage;
      if address % 4 != 0 {
        return Err(UnalignedAccess);
      }
      WordInPage(contents, address);
      var pageIndex, pageAddress := address / PAGE_SIZE, address % PAGE_SIZE;
      SlotsStart();
      var page := PageLookup(pageIndex);
      SlotsStart();
      if page != null {
        var _ := Invalidate(address);
      } else {
        page := AllocPage(pageIndex);
        InvalidateInPage(pageIndex, pageAddress);
      }
      PageFacts(pageIndex);
      StoreBytes(pageIndex, pageAddress, BytesOf(value));
      r := Ok(());
    }

    lemma SlotsStart()
      requires SlotsMatch()
      ensures |lastPage| == 2
      ensures forall i :: 0 <= i < 2 && lastPage[i].page != null ==>
        lastPage[i].key in pages && pages[lastPage[i].key] == lastPage[i].page
    {
    }

    /** The lookup cache can be read from, even where it no longer matches the page map. */
    ghost predicate SlotsReadable()
      reads `lastPage
    {
      |lastPage| == 2 && forall i :: 0 <= i < 2 && lastPage[i].page != null ==> lastPage[i].page.Shaped()
    }

    lemma SoundSlots()
      requires PagesSound()
      ensures SlotsReadable()
    {
      hide PagesMatch;
    }

    /** Reads a word out of the page that the lookup finds; absent pages read as zero. */
    method GetMemory(address: Word) returns (r: Result<Word>)
      requires PagesApart() && PagesMatch() && (SlotsMatch() || SlotsReadable())
      modifies this`lastPage
      ensures old(Valid()) ==> Valid()
      ensures old(PagesSound()) ==> PagesSound()
      ensures lastPage == if r.Ok? then SlotsAfter(old(lastPage), pages, address / PAGE_SIZE) else old(lastPage)
      ensures old(PagesSound()) ==>
        r == if address % 4 == 0 then Ok(WordAt(contents, address)) else Err(UnalignedAccess)
      ensures r.Ok? <==> address % 4 == 0
      ensures r.Ok? ==> HoldsWord(Found(old(lastPage), pages, address / PAGE_SIZE), address % PAGE_SIZE, r.value)
    {
      hide NodesCorrect, CacheCorrect, PagesMatch;
      if address % 4 != 0 {
        return Err(UnalignedAccess);
      }
      var k, at := address / PAGE_SIZE, address % PAGE_SIZE;
      AlignedRoom(address);
      AbsentPageIsZero(k);
      WordInPage(contents, address);
      if k in pages {
        PageFacts(k);
      }
      var page := PageLookup(k);
      if page != null {
        assert page.data[at..at + 4] == page.data[..][at..at + 4];
        r := Ok(WordOf(page.data[at..at + 4]));
        assert HoldsWord(page, at, r.value);
      } else {
        r := Ok(0);
      }
    }

    lemma AbsentPageIsZero(k: nat)
      requires PagesApart() && PagesMatch()
      ensures k < KEYS && k !in pages ==> PageSlice(contents, k) == ZERO_PAGE
    {
    }

    /** Node `g` is cached, so that hashing it needs nothing else. */
    ghost predicate Answered(g: nat)
      reads `nodes
    {
      1 <= g < KEYS && g in nodes && nodes[g].Some?
    }

    /** The hash of a subtree, filling caches on the way. Every page below it ends up with a
        valid root, and no valid page root is lost. A cached node is returned as it is. */
    method MerkleizeSubtree(g: Long) returns (r: Result<Digest>)
      requires Valid() || Answered(g)
      modifies this`nodes, Repr - {this}
      ensures old(Valid()) ==> Valid() && Stale() <= old(Stale()) && (1 <= g < 2 * KEYS ==> NoneStaleUnder(g))
      ensures old(Valid()) ==>
        r == if g >= 2 * LEAVES then Err(GindexTooDeep)
             else if g == 0 then Ok(ZeroHash(28))
             else Ok(Node(contents, LEAVES, g))
      ensures old(Valid()) && g < KEYS && g in old(nodes) ==> Answered(g)
      ensures old(Answered(g)) ==> r == Ok(old(nodes[g].value))
      decreases LONG_LIMIT - g, 1
    {
      hide NodesCorrect, PagesMatch, PagesApart, SlotsMatch, Stale, NoneStaleUnder, Node, Bits;
      var bits := Bits(g);
      UpperHasFewBits(g);
      if bits > 28 {
        r := Err(GindexTooDeep);
      } else if bits > 20 {
        r := MerkleizeInPage(g);
      } else {
        r := MerkleizeUpper(g);
      }
    }

    /** The part of the tree above the pages: absent nodes are zero trees, cached nodes are
        returned, invalid ones are recomputed and cached. */
    method MerkleizeUpper(g: Long) returns (r: Result<Digest>)
      requires g < KEYS && (Valid() || Answered(g))
      modifies this`nodes, Repr - {this}
      ensures old(Valid()) ==> Valid() && Stale() <= old(Stale()) && (1 <= g ==> NoneStaleUnder(g))
      ensures old(Valid()) ==> r == if g == 0 then Ok(ZeroHash(28)) else Ok(Node(contents, LEAVES, g))
      ensures old(Valid()) && g in old(nodes) ==> Answered(g)
      ensures old(Answered(g)) ==> r == Ok(old(nodes[g].value))
      decreases LONG_LIMIT - g, 0
    {
      hide NodesCorrect, PagesMatch, PagesApart, SlotsMatch, Stale, Node, ConcatHash;
      if Valid() {
        NodeLookup(g);
        if g >= 1 {
          InnerNode(contents, LEAVES, g);
        }
      }
      if g !in nodes {
        return Ok(ZeroHash(28 - Bits(g)));
      } else if nodes[g].Some? {
        return Ok(nodes[g].value);
      }
      var left := MerkleizeSubtree(2 * g);
      var right := MerkleizeSubtree(2 * g + 1);
      var result: Digest := ConcatHash(left.value, right.value);
      CombineChildren(g);
      CacheEntry(g, result);
      r := Ok(result);
    }

    method CacheEntry(g: nat, hash: Digest)
      requires Valid()
      requires NodesCorrect(nodes[g := Some(hash)], pages.Keys, Stale(), contents)
      modifies this`nodes
      ensures Valid() && nodes == old(nodes)[g := Some(hash)]
    {
      hide NodesCorrect, PagesMatch, PagesApart;
      nodes := nodes[g := Some(hash)];
      assert Stale() == old(Stale());
    }

    /** Once no page under either child is stale, the node itself may be cached. */
    lemma CombineChildren(g: nat)
      requires Valid() && 1 <= g < KEYS && NoneStaleUnder(2 * g) && NoneStaleUnder(2 * g + 1)
      ensures NoneStaleUnder(g)
      ensures NodesCorrect(nodes[g := Some(Node(contents, LEAVES, g))], pages.Keys, Stale(), contents)
    {
      hide PagesMatch, PagesApart, SlotsMatch;
      NoneStaleBelow(Stale(), g);
      CacheNode(nodes, pages.Keys, Stale(), contents, g);
    }

    /** What the entry of an upper node tells about its subtree. */
    lemma NodeLookup(g: nat)
      requires Valid() && g < KEYS
      ensures g == 0 ==> g !in nodes
      ensures g >= 1 && g !in nodes ==> Bits(g) <= 28 && Node(contents, LEAVES, g) == ZeroHash(28 - Bits(g))
      ensures g >= 1 && g in nodes && nodes[g].Some? ==> nodes[g].value == Node(contents, LEAVES, g)
      ensures g >= 1 && (g !in nodes || nodes[g].Some?) ==> NoneStaleUnder(g)
    {
      hide CacheCorrect;
      if g >= 1 && g !in nodes {
        AbsentNode(nodes, pages.Keys, Stale(), contents, g);
      }
    }

    /** The part of the tree inside pages: missing pages are zero trees. */
    method MerkleizeInPage(g: Long) returns (r: Result<Digest>)
      requires Valid() && KEYS <= g < 2 * LEAVES
      modifies Repr - {this}
      ensures Valid() && Stale() <= old(Stale())
      ensures r == Ok(Node(contents, LEAVES, g))
      ensures g < 2 * KEYS ==> NoneStaleUnder(g)
    {
      hide NodesCorrect, PagesMatch, PagesApart, SlotsMatch, Above, Bits, Pow2, Node;
      SplitRange(g);
      PageSubtree(contents, g);
      var depthIntoPage := Bits(g) - 21;
      var pageIndex := g / Pow2(depthIntoPage) % KEYS;
      if pageIndex !in pages {
        AbsentPageIsZero(pageIndex);
        ZeroTreeOfPage(PageGindexOf(g));
        r := Ok(ZeroHash(28 - Bits(g)));
      } else {
        r := MerkleizePage(pageIndex, Pow2(depthIntoPage) + g % Pow2(depthIntoPage));
      }
      if g < 2 * KEYS {
        SplitAtPage(g);
        OnlyPageUnder(g);
      }
    }

    lemma OnlyPageUnder(g: nat)
      requires Valid() && KEYS <= g < 2 * KEYS && g - KEYS !in Stale()
      ensures NoneStaleUnder(g)
    {
      hide NodesCorrect, CacheCorrect;
      forall k | k in Stale()
        ensures !Above(g, KEYS + k)
      {
        if Above(g, KEYS + k) {
          PageNodeCoversOne(g, k);
        }
      }
    }

    method MerkleizePage(k: nat, pageGindex: Long) returns (r: Result<Digest>)
      requires Valid() && k in pages && k < KEYS && 1 <= pageGindex < 2 * PAGE_LEAVES
      modifies Repr - {this}
      ensures Valid() && Stale() <= old(Stale()) && (pageGindex == 1 ==> k !in Stale())
      ensures r == Ok(Node(PageSlice(contents, k), PAGE_LEAVES, pageGindex))
    {
      hide NodesCorrect, CacheCorrect, PagesMatch, SlotsMatch;
      PageFacts(k);
      r := pages[k].MerkleizeSubtree(pageGindex);
      OnlyPageChanged(k);
      FewerStale(nodes, pages.Keys, old(Stale()), Stale(), contents);
    }

    method MerkleRoot() returns (r: Result<Digest>)
      requires Valid() || Answered(1)
      modifies this`nodes, Repr - {this}
      ensures old(Valid()) ==> Valid() && r == Ok(TreeRoot(contents)) && (1 in old(nodes) ==> Answered(1))
      ensures old(Answered(1)) ==> r == Ok(old(nodes[1].value))
    {
      r := MerkleizeSubtree(1);
    }

    /** Walks down the path of an address and collects the sibling hashes on the way back.
        Called with the node of the path at the given depth. */
    method TraverseBranch(parent: Long, address: Word, depth: Byte) returns (r: Result<seq<Digest>>)
      requires Valid()
      requires depth <= 27 ==> parent == PathNode(address, depth)
      modifies this`nodes, Repr - {this}
      ensures Valid()
      ensures r.Ok? <==> depth <= 27
      ensures r.Ok? ==> 1 <= parent <= LEAVES + address / 32 && Above(parent, LEAVES + address / 32)
      ensures r.Ok? ==>
        r.value == [Leaf(contents, address / 32)] + Siblings(contents, LEAVES, LEAVES + address / 32, parent)
      decreases 256 - depth
    {
      hide NodesCorrect, PagesMatch, PagesApart, SlotsMatch, Stale, NoneStaleUnder, Node, Siblings, PathNode, Above;
      if depth == 27 {
        PathEnds(address);
        PathTop(contents, address);
        var leaf := MerkleizeSubtree(parent);
        return Ok([leaf.value]);
      }
      if depth > 27 {
        return Err(TraversedTooDeep);
      }
      PathAbove(address, depth);
      PathStep(address, depth);
      PathAbove(address, depth + 1);
      AboveOrder(parent, LEAVES + address / 32);
      var local, sibling := 2 * parent, 2 * parent + 1;
      if address / Pow2(31 - depth) % 2 != 0 {
        local, sibling := sibling, local;
      }
      var proof := TraverseBranch(local, address, depth + 1);
      var siblingNode := MerkleizeSubtree(sibling);
      SiblingsExtend(contents, LEAVES, LEAVES + address / 32, local);
      r := Ok(proof.value + [siblingNode.value]);
    }

    /** The proof of an address as 28 * 32 bytes. */
    method MerkleProof(address: Word) returns (r: Result<seq<Byte>>)
      requires Valid()
      modifies this`nodes, Repr - {this}
      ensures Valid()
      ensures r == Ok(Flatten(MemoryProof(contents, address)))
    {
      PathEnds(address);
      var proof := TraverseBranch(1, address, 0);
      r := Ok(Flatten(proof.value));
    }
  }

  lemma PathTop(contents: Flat, address: Word)
    ensures Above(LEAVES + address / 32, LEAVES + address / 32)
    ensures Siblings(contents, LEAVES, LEAVES + address / 32, LEAVES + address / 32) == []
    ensures Node(contents, LEAVES, LEAVES + address / 32) == Leaf(contents, address / 32)
  {
  }

  lemma ZeroTreeOfPage(pg: nat)
    requires 1 <= pg < 2 * PAGE_LEAVES
    ensures Bits(pg) <= 8 && Node(ZERO_PAGE, PAGE_LEAVES, pg) == ZeroHash(8 - Bits(pg))
  {
    var page := ZERO_PAGE;
    forall i | 0 <= i < PAGE_LEAVES
      ensures Leaf(page, i) == ZERO_LEAF
    {
    }
    ZeroNode(page, PAGE_LEAVES, 7, pg);
  }
}
