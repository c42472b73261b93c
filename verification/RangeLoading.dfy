/** Bulk loading: copying the output of a reader into memory page by page, and the segments
    of a program image. */
module RangeLoading {
  import opened Words
  import opened Results
  import opened MerkleTree
  import opened Pages
  import opened UpperTree
  import opened MemoryProofs
  import opened PagedMemory

  /** A source of bytes that may deliver any number of them per call. Slices and cursors never
      fail; other readers may. */
  class Reader {
    const mayFail: bool
    var rest: seq<Byte>

    constructor (data: seq<Byte>, mayFail: bool)
      ensures rest == data && this.mayFail == mayFail
    {
      rest := data;
      this.mayFail := mayFail;
    }

    /** Fills part of the buffer from `start` on; zero means nothing is left or no room. */
    method Read(buf: array<Byte>, start: nat) returns (r: Result<nat>)
      requires start <= buf.Length
      modifies this, buf
      ensures r.Err? ==> mayFail && rest == old(rest) && buf[..] == old(buf[..])
      ensures r.Ok? ==>
        && r.value <= buf.Length - start && r.value <= |old(rest)|
        && (r.value == 0 <==> old(rest) == [] || start == buf.Length)
        && rest == old(rest)[r.value..]
        && buf[..] == Splice(old(buf[..]), start, old(rest)[..r.value])
    {
      if mayFail {
        if * {
          return Err(ReadFailure);
        }
      }
      var room := if |rest| < buf.Length - start then |rest| else buf.Length - start;
      var n: nat := 0;
      if room > 0 {
        n :| 1 <= n <= room;
      }
      CopyInto(buf, start, rest[..n]);
      rest := rest[n..];
      r := Ok(n);
    }
  }

  /** Reads from the first reader until it returns zero, then from the second. A plain reader
      is one whose second part is empty. */
  class MultiReader {
    const first: Reader
    const second: Reader

    ghost predicate Valid() { first != second }

    predicate MayFail() { first.mayFail || second.mayFail }

    ghost function Rest(): seq<Byte>
      reads first, second
    {
      first.rest + second.rest
    }

    constructor (first: Reader, second: Reader)
      requires first != second
      ensures Valid() && this.first == first && this.second == second
    {
      this.first := first;
      this.second := second;
    }

    method Read(buf: array<Byte>, start: nat) returns (r: Result<nat>)
      requires Valid() && start <= buf.Length
      modifies first, second, buf
      ensures r.Err? ==> MayFail() && buf[..] == old(buf[..])
      ensures r.Ok? ==>
        && r.value <= buf.Length - start && r.value <= |old(Rest())|
        && (r.value == 0 <==> old(Rest()) == [] || start == buf.Length)
        && Rest() == old(Rest())[r.value..]
        && buf[..] == Splice(old(buf[..]), start, old(Rest())[..r.value])
    {
      hide Splice;
      ghost var x, y := first.rest, second.rest;
      SpliceNothing(buf[..], start);
      r := first.Read(buf, start);
      if r.Ok? {
        Joined(x, y, r.value);
        if r.value == 0 {
          assert x[..0] == [] && buf[..] == old(buf[..]);
          r := second.Read(buf, start);
          assert r.Ok? && r.value == 0 ==> y[..0] == [] && buf[..] == old(buf[..]);
        }
      }
    }
  }

  /** Reading from the front of two parts, and from the second once the first is used up. */
  lemma Joined(x: seq<Byte>, y: seq<Byte>, n: nat)
    requires n <= |x|
    ensures (x + y)[..n] == x[..n] && (x + y)[n..] == x[n..] + y
    ensures x == [] ==> x + y == y
  {
  }

  lemma SpliceNothing(s: seq<Byte>, a: nat)
    requires a <= |s|
    ensures Splice(s, a, []) == s
  {
  }

  /** The address `n` bytes further on, wrapping at the end. */
  function After(a: Word, n: nat): Word { (a + n) % MEMORY_SIZE }

  lemma AfterNone(a: Word)
    ensures After(a, 0) == a && After(a, 1) == Add(a, 1)
  {
  }

  lemma AfterAfter(a: Word, i: nat, j: nat)
    ensures After(After(a, i), j) == After(a, i + j)
  {
  }

  /** The page that holds the byte `i` places after address `a`. */
  function PageAt(a: Word, i: nat): (k: nat)
    ensures k < KEYS
  {
    After(a, i) / PAGE_SIZE
  }

  /** Pages that hold one of the first `n` bytes after address `a`. */
  ghost function Touched(a: Word, n: nat): set<nat> {
    set i: nat | i < n :: PageAt(a, i)
  }

  lemma TouchedNext(a: Word, n: nat)
    ensures Touched(a, n + 1) == Touched(a, n) + {PageAt(a, n)}
  {
  }

  /** The bytes of one chunk lie in one page. */
  lemma TouchedChunk(a: Word, done: nat, n: nat)
    requires n >= 1 && After(a, done) % PAGE_SIZE + n <= PAGE_SIZE
    ensures Touched(a, done + n) == Touched(a, done + 1)
  {
    hide After;
    forall i | done <= i < done + n
      ensures PageAt(a, i) == PageAt(a, done)
    {
      AfterAfter(a, done, i - done);
      SamePage(After(a, done), i - done);
    }
    assert PageAt(a, done) in Touched(a, done + 1);
  }

  lemma SamePage(a: Word, n: nat)
    requires a % PAGE_SIZE + n < PAGE_SIZE
    ensures After(a, n) / PAGE_SIZE == a / PAGE_SIZE
  {
  }

  ghost predicate Cached(nodes: Nodes, g: nat) { g in nodes && nodes[g].Some? }

  ghost predicate AboveAny(g: nat, pages: set<nat>) { exists k :: k in pages && Above(g, KEYS + k) }

  /** No ancestor of page `k` holds a cached hash. */
  ghost predicate Uncached(nodes: Nodes, k: nat) {
    forall g :: g in nodes && Above(g, KEYS + k) ==> nodes[g].None?
  }

  /** What bulk loading leaves of the invariant of the node map: nodes over touched pages may
      be cached although their pages are stale and their hashes wrong. */
  ghost predicate LooseNodes(nodes: Nodes, present: set<nat>, stale: set<nat>, contents: Flat, touched: set<nat>) {
    && 0 !in nodes
    && (forall k, g :: k in present && k < KEYS && g >= 1 && Above(g, KEYS + k) ==> g in nodes)
    && (forall g: nat :: Cached(nodes, g) ==>
          1 <= g < KEYS && (nodes[g].value == Node(contents, LEAVES, g) || AboveAny(g, touched)))
    && (forall k, g :: k in stale && Cached(nodes, g) && Above(g, KEYS + k) ==> AboveAny(g, touched))
  }

  lemma LooseStart(nodes: Nodes, present: set<nat>, stale: set<nat>, contents: Flat)
    requires NodesCorrect(nodes, present, stale, contents)
    ensures LooseNodes(nodes, present, stale, contents, {})
  {
  }

  /** The nodes are in order again exactly when no cached node lies over a touched page. */
  lemma LooseDecides(nodes: Nodes, present: set<nat>, stale: set<nat>, contents: Flat, touched: set<nat>)
    requires LooseNodes(nodes, present, stale, contents, touched) && touched <= stale
    ensures NodesCorrect(nodes, present, stale, contents) <==> NoneCachedOver(nodes, touched)
  {
    hide Node, Above;
    assert forall g: nat :: g in nodes && nodes[g].Some? ==> Cached(nodes, g);
    if NodesCorrect(nodes, present, stale, contents) {
      forall g: nat, k: nat | Cached(nodes, g) && k in touched
        ensures !Above(g, KEYS + k)
      {
      }
    }
  }

  ghost predicate NoneCachedOver(nodes: Nodes, touched: set<nat>) {
    forall g: nat :: Cached(nodes, g) ==> !AboveAny(g, touched)
  }

  lemma AboveMore(g: nat, touched: set<nat>, k: nat)
    ensures AboveAny(g, touched + {k}) <==> AboveAny(g, touched) || Above(g, KEYS + k)
  {
    if Above(g, KEYS + k) {
      assert k in touched + {k};
    }
    forall j | j in touched && Above(g, KEYS + j)
      ensures j in touched + {k}
    {
    }
  }

  /** Touching a page that exists. */
  lemma LooseTouch(nodes: Nodes, present: set<nat>, stale: set<nat>, contents: Flat, touched: set<nat>, k: nat)
    requires LooseNodes(nodes, present, stale, contents, touched)
    ensures LooseNodes(nodes, present, stale + {k}, contents, touched + {k})
  {
    hide AboveAny, Node;
    forall g: nat | Cached(nodes, g)
      ensures AboveAny(g, touched + {k}) <==> AboveAny(g, touched) || Above(g, KEYS + k)
    {
      AboveMore(g, touched, k);
    }
  }

  /** Touching a page that has to be allocated first. */
  lemma LooseAlloc(nodes: Nodes, present: set<nat>, stale: set<nat>, contents: Flat, touched: set<nat>, k: nat)
    requires LooseNodes(nodes, present, stale, contents, touched) && k < KEYS
    ensures LooseNodes(ClearPath(nodes, PageKey(k)), present + {k}, stale + {k}, contents, touched + {k})
  {
    hide AboveAny, Node, ClearPath, PageKey;
    PageKeyInRange(k);
    ClearPathEffect(nodes, KEYS + k);
    forall g: nat | Cached(nodes, g)
      ensures AboveAny(g, touched + {k}) <==> AboveAny(g, touched) || Above(g, KEYS + k)
    {
      AboveMore(g, touched, k);
    }
  }

  /** Writing into a touched page. */
  lemma LooseWrite(nodes: Nodes, present: set<nat>, stale: set<nat>, contents: Flat, contents': Flat, touched: set<nat>, k: nat)
    requires LooseNodes(nodes, present, stale, contents, touched) && k in touched
    requires forall a :: 0 <= a < MEMORY_SIZE && a / PAGE_SIZE != k ==> contents[a] == contents'[a]
    ensures LooseNodes(nodes, present, stale, contents', touched)
  {
    forall g: nat | Cached(nodes, g) && !AboveAny(g, touched)
      ensures Node(contents, LEAVES, g) == Node(contents', LEAVES, g)
    {
      NodeApart(contents, contents', g, k);
    }
  }

  /** The nodes that were cached before, but for those over the given pages, and no others. */
  ghost predicate Forgets(before: Nodes, after: Nodes, pages: set<nat>) {
    && (forall g: nat :: Cached(after, g) <==> Cached(before, g) && !AboveAny(g, pages))
    && CachesNoMore(before, after)
  }

  lemma ForgetsNothing(nodes: Nodes)
    ensures Forgets(nodes, nodes, {})
  {
  }

  lemma ForgetsPath(before: Nodes, after: Nodes, pages: set<nat>, k: nat)
    requires Forgets(before, after, pages) && k < KEYS && 0 !in after
    ensures Forgets(before, ClearPath(after, PageKey(k)), pages + {k})
  {
    hide AboveAny, ClearPath, PageKey;
    PageKeyInRange(k);
    ClearPathEffect(after, KEYS + k);
    forall g: nat
      ensures AboveAny(g, pages + {k}) <==> AboveAny(g, pages) || Above(g, KEYS + k)
    {
      AboveMore(g, pages, k);
    }
    ClearedPath(after, KEYS + k);
  }

  lemma LooseZero(nodes: Nodes, present: set<nat>, stale: set<nat>, contents: Flat, touched: set<nat>)
    requires LooseNodes(nodes, present, stale, contents, touched)
    ensures 0 !in nodes
  {
  }

  lemma ClearedPath(nodes: Nodes, g: nat)
    ensures forall x :: Cached(ClearPath(nodes, g), x) <==> Cached(nodes, x) && !(x >= 1 && Above(x, g))
    ensures CachesNoMore(nodes, ClearPath(nodes, g))
  {
    ClearPathEffect(nodes, g);
  }

  /** Loading is safe: every cached ancestor of a touched page lies over a touched page that
      has to be allocated, so that its path is cleared. */
  ghost predicate LoadSafe(nodes: Nodes, present: set<nat>, touched: set<nat>) {
    forall g: nat :: Cached(nodes, g) && AboveAny(g, touched) ==> AboveAny(g, touched - present)
  }

  lemma SafeDecides(before: Nodes, after: Nodes, present: set<nat>, touched: set<nat>)
    requires Forgets(before, after, touched - present)
    ensures NoneCachedOver(after, touched) <==> LoadSafe(before, present, touched)
  {
    hide AboveAny;
  }

  /** A page may lose its root exactly when none of its ancestors is cached. */
  lemma StaleIffUncached(nodes: Nodes, present: set<nat>, stale: set<nat>, contents: Flat, k: nat)
    requires NodesCorrect(nodes, present, stale, contents)
    ensures NodesCorrect(nodes, present, stale + {k}, contents) <==> Uncached(nodes, k)
  {
  }

  /** Marks a whole page invalid without touching the nodes above it. That breaks the memory
      exactly when an ancestor of the page is cached. */
  method InvalidatePage(m: Memory, k: nat)
    requires m.PagesSound() && k in m.pages && k < KEYS
    modifies m.pages[k].valid
    ensures m.PagesSound() && m.Stale() == old(m.Stale()) + {k}
    ensures old(m.Valid()) ==> (m.Valid() <==> Uncached(m.nodes, k))
    ensures forall i :: 0 <= i < PAGE_LEAVES ==> !m.pages[k].valid[i]
  {
    hide NodesCorrect, CacheCorrect, Uncached, Memory.PagesMatch;
    m.PageFacts(k);
    if m.NodesMatch() {
      StaleIffUncached(m.nodes, m.pages.Keys, m.Stale(), m.contents, k);
    }
    m.pages[k].InvalidateFull();
    m.OnlyPageChanged(k);
  }

  lemma NothingValid(data: seq<Byte>, data': seq<Byte>, cache: seq<Digest>, valid: seq<bool>)
    requires CacheCorrect(data, cache, valid) && |data'| == PAGE_SIZE
    requires forall i :: 0 <= i < PAGE_LEAVES ==> !valid[i]
    ensures CacheCorrect(data', cache, valid)
  {
  }

  /** Lets the reader fill the rest of a page that has no valid cache entry. */
  method ReadIntoPage(m: Memory, k: nat, at: nat, data: MultiReader) returns (r: Result<nat>)
    requires m.PagesSound() && k in m.pages && k < KEYS && at < PAGE_SIZE && data.Valid()
    requires forall i :: 0 <= i < PAGE_LEAVES ==> !m.pages[k].valid[i]
    requires data.first !in m.Repr && data.second !in m.Repr
    modifies m`contents, m.pages[k].data, data.first, data.second
    ensures m.PagesSound() && m.Stale() == old(m.Stale())
    ensures r.Err? ==> data.MayFail() && m.contents == old(m.contents)
    ensures r.Ok? ==>
      && at + r.value <= PAGE_SIZE && r.value <= |old(data.Rest())| && (r.value == 0 <==> old(data.Rest()) == [])
      && data.Rest() == old(data.Rest())[r.value..]
      && m.contents == Splice(old(m.contents), PAGE_SIZE * k + at, old(data.Rest())[..r.value])
  {
    hide CacheCorrect, Splice, PageSlice, Memory.PagesMatch, Memory.SlotsMatch;
    m.PageFacts(k);
    var page := m.pages[k];
    r := data.Read(page.data, at);
    if r.Ok? {
      var bytes := old(data.Rest())[..r.value];
      SpliceInPage(m.contents, k, at, bytes);
      m.contents := Splice(m.contents, PAGE_SIZE * k + at, bytes);
      NothingValid(old(page.data[..]), page.data[..], page.cache[..], page.valid[..]);
    }
    m.OnlyPageChanged(k);
    assert m.Stale() == old(m.Stale());
  }

  /** Bytes written one after the other from address `a` on, wrapping at the end. */
  function Overlay(contents: Flat, a: Word, bytes: seq<Byte>): Flat
    decreases |bytes|
  {
    if bytes == [] then contents else Overlay(contents[a := bytes[0]], Add(a, 1), bytes[1..])
  }

  lemma {:induction false} OverlayAppend(contents: Flat, a: Word, x: seq<Byte>, y: seq<Byte>)
    ensures Overlay(contents, a, x + y) == Overlay(Overlay(contents, a, x), After(a, |x|), y)
    decreases |x|
  {
    AfterNone(a);
    if x == [] {
      assert x + y == y;
    } else {
      assert (x + y)[1..] == x[1..] + y;
      AfterAfter(a, 1, |x| - 1);
      OverlayAppend(contents[a := x[0]], Add(a, 1), x[1..], y);
    }
  }

  /** Without wrapping, an overlay is one splice. */
  lemma {:induction false} OverlaySplice(contents: Flat, a: Word, bytes: seq<Byte>)
    requires a + |bytes| <= MEMORY_SIZE
    ensures Overlay(contents, a, bytes) == Splice(contents, a, bytes)
    decreases |bytes|
  {
    if bytes != [] {
      if |bytes| > 1 {
        OverlaySplice(contents[a := bytes[0]], a + 1, bytes[1..]);
      }
      assert Splice(contents, a, bytes) == contents[..a] + [bytes[0]] + bytes[1..] + contents[a + |bytes|..];
    }
  }

  /** Finds or allocates the page to read into, and marks all of it invalid. That breaks the
      memory exactly when the page existed and has a cached ancestor. */
  method PreparePage(m: Memory, k: Long)
    requires m.PagesSound() && k < KEYS
    modifies m, m.Repr
    ensures m.PagesSound() && fresh(m.Repr - old(m.Repr)) && m.contents == old(m.contents)
    ensures m.pages.Keys == old(m.pages.Keys) + {k} && m.Stale() == old(m.Stale()) + {k}
    ensures m.nodes == if k in old(m.pages) then old(m.nodes) else ClearPath(old(m.nodes), PageKey(k))
    ensures forall i :: 0 <= i < PAGE_LEAVES ==> !m.pages[k].valid[i]
    ensures old(m.Valid()) ==> (m.Valid() <==> k !in old(m.pages) || Uncached(old(m.nodes), k))
  {
    hide NodesCorrect, CacheCorrect, Uncached, ClearPath, PageKey, SlotFree, PutPage, Memory.PagesMatch,
      Memory.PagesApart, Memory.Stale;
    var index: nat := k;
    if m.NodesMatch() {
      NewPathUncached(m.nodes, m.pages.Keys, m.Stale(), m.contents, index);
    }
    var page := m.PageLookup(k);
    if page == null {
      page := m.AllocPage(k);
    }
    m.PageFacts(index);
    InvalidatePage(m, index);
  }

  lemma NewPathUncached(nodes: Nodes, present: set<nat>, stale: set<nat>, contents: Flat, k: nat)
    requires k < KEYS && NodesCorrect(nodes, present, stale, contents)
    ensures Uncached(ClearPath(nodes, PageKey(k)), k)
  {
    hide ClearPath, PageKey, Node;
    PageKeyInRange(k);
    ClearPathEffect(nodes, KEYS + k);
  }

  /** One chunk more of the overlay. */
  lemma OverlayChunk(before: Flat, start: Word, src: seq<Byte>, done: nat, n: nat, now: Flat)
    requires done + n <= |src| && After(start, done) + n <= MEMORY_SIZE
    requires now == Overlay(before, start, src[..done])
    ensures Splice(now, After(start, done), src[done..][..n]) == Overlay(before, start, src[..done + n])
  {
    hide Splice, Overlay, After;
    OverlayAppend(before, start, src[..done], src[done..][..n]);
    OverlaySplice(now, After(start, done), src[done..][..n]);
    assert src[..done] + src[done..][..n] == src[..done + n];
  }

  /** One page more is prepared: what that does to the nodes above. */
  lemma PreparedNodes(before: Nodes, nodes: Nodes, present: set<nat>, was: set<nat>, stale: set<nat>, contents: Flat,
                      touched: set<nat>, k: nat)
    requires LooseNodes(nodes, present, stale, contents, touched) && Forgets(before, nodes, touched - was)
    requires present == was + touched && k < KEYS
    ensures var nodes' := if k in present then nodes else ClearPath(nodes, PageKey(k));
      && LooseNodes(nodes', present + {k}, stale + {k}, contents, touched + {k})
      && Forgets(before, nodes', touched + {k} - was)
  {
    hide LooseNodes, Forgets, ClearPath, PageKey;
    if k in present {
      LooseTouch(nodes, present, stale, contents, touched, k);
      assert present + {k} == present && touched + {k} - was == touched - was;
    } else {
      LooseAlloc(nodes, present, stale, contents, touched, k);
      LooseZero(nodes, present, stale, contents, touched);
      ForgetsPath(before, nodes, touched - was, k);
      assert touched + {k} - was == touched - was + {k};
    }
  }

  /** The state of a load that has copied `done` bytes and touched the given pages. */
  ghost predicate Loading(m: Memory, nodes: Nodes, present: set<nat>, touched: set<nat>)
    reads m, m.Repr
  {
    && m.PagesSound() && m.pages.Keys == present + touched && touched <= m.Stale()
    && LooseNodes(m.nodes, m.pages.Keys, m.Stale(), m.contents, touched)
    && Forgets(nodes, m.nodes, touched - present)
  }

  lemma LoadingDecides(m: Memory, nodes: Nodes, present: set<nat>, touched: set<nat>)
    requires Loading(m, nodes, present, touched)
    ensures m.Valid() <==> LoadSafe(nodes, present, touched)
    ensures m.PagesSound() && Forgets(nodes, m.nodes, touched - present)
  {
    hide LooseNodes, Forgets, NodesCorrect, NoneCachedOver, LoadSafe, Memory.PagesMatch, Memory.PagesApart,
      Memory.SlotsMatch;
    LooseDecides(m.nodes, m.pages.Keys, m.Stale(), m.contents, touched);
    SafeDecides(nodes, m.nodes, present, touched);
  }

  /** One round of the load: prepare the page of the current address, then read into it. */
  method LoadChunk(m: Memory, address: Word, data: MultiReader,
                   ghost nodes: Nodes, ghost present: set<nat>, ghost touched: set<nat>) returns (r: Result<nat>)
    requires Loading(m, nodes, present, touched)
    requires data.Valid() && data.first !in m.Repr && data.second !in m.Repr
    modifies m, m.Repr, data.first, data.second
    ensures Loading(m, nodes, present, touched + {address / PAGE_SIZE}) && fresh(m.Repr - old(m.Repr))
    ensures r.Err? ==> data.MayFail() && m.contents == old(m.contents)
    ensures r.Ok? ==>
      && address % PAGE_SIZE + r.value <= PAGE_SIZE && r.value <= |old(data.Rest())|
      && (r.value == 0 <==> old(data.Rest()) == [])
      && data.Rest() == old(data.Rest())[r.value..]
      && m.contents == Splice(old(m.contents), address, old(data.Rest())[..r.value])
  {
    hide LooseNodes, Forgets, NodesCorrect, CacheCorrect, Uncached, ClearPath, PageKey, Splice, PageSlice,
      Memory.PagesMatch, Memory.SlotsMatch, Memory.PagesApart, Memory.Stale;
    var k, at := address / PAGE_SIZE, address % PAGE_SIZE;
    ghost var page: nat := k;
    assert PAGE_SIZE * page + at == address;
    PreparedNodes(nodes, m.nodes, m.pages.Keys, present, m.Stale(), m.contents, touched, page);
    PreparePage(m, k);
    m.PageFacts(k);
    ghost var now := m.contents;
    r := ReadIntoPage(m, k, at, data);
    if r.Ok? {
      SpliceInPage(now, page, at, old(data.Rest())[..r.value]);
      LooseWrite(m.nodes, m.pages.Keys, m.Stale(), now, m.contents, touched + {page}, page);
    }
    assert m.pages.Keys == present + (touched + {page});
  }

  /** Copies everything the reader delivers into memory from an address on. It leaves the tree
      above existing pages alone: the memory is consistent afterwards exactly when that was safe. */
  method SetMemoryRange(m: Memory, start: Word, data: MultiReader) returns (r: Result<()>)
    requires m.Valid() && data.Valid() && data.first !in m.Repr && data.second !in m.Repr
    modifies m, m.Repr, data.first, data.second
    ensures m.PagesSound() && fresh(m.Repr - old(m.Repr)) && CachesNoMore(old(m.nodes), m.nodes)
    ensures r.Ok? ==>
      var touched := Touched(start, |old(data.Rest())| + 1);
      && m.contents == Overlay(old(m.contents), start, old(data.Rest()))
      && (m.Valid() <==> LoadSafe(old(m.nodes), old(m.pages.Keys), touched))
      && Forgets(old(m.nodes), m.nodes, touched - old(m.pages.Keys))
    ensures r.Err? ==> data.MayFail()
    ensures r.Err? ==>
      exists done :: 0 <= done <= |old(data.Rest())| &&
        m.contents == Overlay(old(m.contents), start, old(data.Rest())[..done]) &&
        (m.Valid() <==> LoadSafe(old(m.nodes), old(m.pages.Keys), Touched(start, done + 1)))
  {
    hide LooseNodes, Forgets, LoadSafe, NodesCorrect, CacheCorrect, Memory.PagesMatch, Memory.PagesApart,
      Memory.SlotsMatch, Memory.Stale, Overlay, Splice, After, Touched, CachesNoMore, Loading;
    var address := start;
    ghost var src, done, nodes, present := data.Rest(), 0, m.nodes, m.pages.Keys;
    LoadingStarts(m, start);
    AfterNone(start);
    assert src[..0] == [];
    OverlayNothing(m.contents, start);
    while true
      invariant Loading(m, nodes, present, Touched(start, done)) && fresh(m.Repr - old(m.Repr))
      invariant data.first !in m.Repr && data.second !in m.Repr
      invariant done <= |src| && data.Rest() == src[done..] && address == After(start, done)
      invariant m.contents == Overlay(old(m.contents), start, src[..done])
      decreases |src| - done
    {
      TouchedNext(start, done);
      ghost var now := m.contents;
      var n := LoadChunk(m, address, data, nodes, present, Touched(start, done));
      LoadingDecides(m, nodes, present, Touched(start, done + 1));
      LoadingForgets(m, nodes, present, Touched(start, done + 1));
      if n.Err? {
        return Err(n.error);
      }
      OverlayChunk(old(m.contents), start, src, done, n.value, now);
      if n.value == 0 {
        assert src[..done] == src;
        return Ok(());
      }
      TouchedChunk(start, done, n.value);
      AfterAfter(start, done, n.value);
      address := After(address, n.value);
      done := done + n.value;
    }
  }

  lemma LoadingStarts(m: Memory, start: Word)
    requires m.Valid()
    ensures Loading(m, m.nodes, m.pages.Keys, Touched(start, 0))
  {
    hide NodesCorrect, LooseNodes, Forgets, Memory.PagesMatch;
    LooseStart(m.nodes, m.pages.Keys, m.Stale(), m.contents);
    ForgetsNothing(m.nodes);
    assert Touched(start, 0) == {} && {} - m.pages.Keys == {};
  }

  lemma LoadingForgets(m: Memory, nodes: Nodes, present: set<nat>, touched: set<nat>)
    requires Loading(m, nodes, present, touched)
    ensures CachesNoMore(nodes, m.nodes)
  {
    hide LooseNodes;
  }

  lemma OverlayNothing(contents: Flat, a: Word)
    ensures Overlay(contents, a, []) == contents
  {
  }

  lemma CachesSame(nodes: Nodes)
    ensures CachesNoMore(nodes, nodes)
  {
  }

  lemma CachesNoMoreTrans(a: Nodes, b: Nodes, c: Nodes)
    requires CachesNoMore(a, b) && CachesNoMore(b, c)
    ensures CachesNoMore(a, c)
  {
  }
}
