/** Saving the memory as its list of pages, and rebuilding a memory from such a list. */
module Persistence {
  import opened Words
  import opened Results
  import opened MerkleTree
  import opened Pages
  import opened UpperTree
  import opened PagedMemory

  type PageBytes = s: seq<Byte> | |s| == PAGE_SIZE witness Zeros(PAGE_SIZE)

  datatype PageEntry = PageEntry(index: Long, data: PageBytes)

  predicate Distinct(entries: seq<PageEntry>) {
    forall i, j :: 0 <= i < j < |entries| ==> entries[i].index != entries[j].index
  }

  predicate Ascending(entries: seq<PageEntry>) {
    forall i, j :: 0 <= i < j < |entries| ==> entries[i].index < entries[j].index
  }

  function Indices(entries: seq<PageEntry>): set<nat> {
    set i: nat | i < |entries| :: entries[i].index
  }

  /** The list describes a table of pages: one entry for each page, with its bytes. */
  predicate Describes(entries: seq<PageEntry>, table: map<nat, seq<Byte>>) {
    table.Keys == Indices(entries) && forall e :: e in entries ==> e.index in table && table[e.index] == e.data
  }

  /** The flat memory that a table of pages stands for. */
  ghost predicate Holds(table: map<nat, seq<Byte>>, contents: Flat) {
    (forall k :: k in table && k < KEYS ==> PageSlice(contents, k) == table[k]) && ZeroElsewhere(contents, table.Keys)
  }

  lemma TableHolds(m: Memory)
    requires m.PagesApart() && m.PagesMatch()
    ensures Holds(m.Table(), m.contents) && m.Table().Keys == m.pages.Keys
  {
  }

  lemma SamePagesSameMemory(c: Flat, d: Flat)
    requires forall k :: 0 <= k < KEYS ==> PageSlice(c, k) == PageSlice(d, k)
    ensures c == d
  {
    forall a | 0 <= a < MEMORY_SIZE
      ensures c[a] == d[a]
    {
      var k, at := a / PAGE_SIZE, a % PAGE_SIZE;
      assert c[a] == PageSlice(c, k)[at] && d[a] == PageSlice(d, k)[at];
    }
  }

  /** A table stands for one memory only. */
  lemma HoldsOne(table: map<nat, seq<Byte>>, contents: Flat, contents': Flat)
    requires Holds(table, contents) && Holds(table, contents')
    ensures contents == contents'
  {
    hide PageSlice;
    SamePagesSameMemory(contents, contents');
  }

  /** A list describes one table only. */
  lemma DescribesOne(entries: seq<PageEntry>, table: map<nat, seq<Byte>>, table': map<nat, seq<Byte>>)
    requires Describes(entries, table) && Describes(entries, table')
    ensures table == table'
  {
    forall k | k in table
      ensures table[k] == table'[k]
    {
      var i :| 0 <= i < |entries| && entries[i].index == k;
      assert entries[i] in entries;
    }
  }

  /** And a table has one ascending list only, whatever order its pages were collected in. */
  lemma {:induction false} AscendingUnique(a: seq<PageEntry>, b: seq<PageEntry>, table: map<nat, seq<Byte>>)
    requires Ascending(a) && Ascending(b) && Describes(a, table) && Describes(b, table)
    ensures a == b
  {
    if |a| <= |b| {
      AscendingAgree(a, b, |a|);
      NoFurther(a, b);
    } else {
      AscendingAgree(a, b, |b|);
      NoFurther(b, a);
    }
  }

  lemma NoFurther(a: seq<PageEntry>, b: seq<PageEntry>)
    requires |a| <= |b| && a == b[..|a|] && Ascending(b)
    ensures Indices(a) == Indices(b) ==> |a| == |b|
  {
    if |a| < |b| {
      assert b[|a|].index in Indices(b);
      assert forall j :: 0 <= j < |a| ==> a[j] == b[j];
    }
  }

  lemma {:induction false} AscendingAgree(a: seq<PageEntry>, b: seq<PageEntry>, n: nat)
    requires n <= |a| && n <= |b| && Ascending(a) && Ascending(b) && Indices(a) == Indices(b)
    requires forall x, y :: x in a && y in b && x.index == y.index ==> x == y
    ensures a[..n] == b[..n]
    decreases n
  {
    if n > 0 {
      var i := n - 1;
      AscendingAgree(a, b, i);
      NotBelow(a, b, i);
      NotBelow(b, a, i);
      assert a[i] in a && b[i] in b;
      assert a[..n] == a[..i] + [a[i]] && b[..n] == b[..i] + [b[i]];
    }
  }

  lemma NotBelow(a: seq<PageEntry>, b: seq<PageEntry>, i: nat)
    requires i < |a| && i < |b| && Ascending(a) && Ascending(b) && Indices(a) == Indices(b) && a[..i] == b[..i]
    ensures a[i].index <= b[i].index
  {
    assert forall j :: 0 <= j < i ==> a[j] == a[..i][j] && a[j] == b[j];
    assert b[i].index in Indices(b);
  }

  /** Inserts by index into an ascending list. */
  function Insert(entries: seq<PageEntry>, e: PageEntry): (r: seq<PageEntry>)
    ensures multiset(r) == multiset(entries) + multiset{e}
  {
    if entries == [] then [e]
    else
      assert entries == [entries[0]] + entries[1..];
      if e.index <= entries[0].index then [e] + entries
      else [entries[0]] + Insert(entries[1..], e)
  }

  lemma {:induction false} InsertAscending(entries: seq<PageEntry>, e: PageEntry)
    requires Ascending(entries) && forall x :: x in entries ==> x.index != e.index
    ensures Ascending(Insert(entries, e))
  {
    if entries != [] && e.index > entries[0].index {
      InsertAscending(entries[1..], e);
      var rest := Insert(entries[1..], e);
      forall x | x in rest
        ensures entries[0].index < x.index
      {
        assert x in multiset(rest);
        if x != e {
          assert x in entries[1..];
        }
      }
    }
  }

  /** `sort_by` on a list without equal indices. */
  method SortByIndex(entries: seq<PageEntry>) returns (sorted: seq<PageEntry>)
    requires Distinct(entries)
    ensures Ascending(sorted) && multiset(sorted) == multiset(entries)
  {
    sorted := [];
    for i := 0 to |entries|
      invariant Ascending(sorted) && multiset(sorted) == multiset(entries[..i])
    {
      forall x | x in sorted
        ensures x.index != entries[i].index
      {
        assert x in multiset(sorted);
      }
      InsertAscending(sorted, entries[i]);
      sorted := Insert(sorted, entries[i]);
      assert entries[..i + 1] == entries[..i] + [entries[i]];
    }
    assert entries[..|entries|] == entries;
  }

  lemma SameDescription(a: seq<PageEntry>, b: seq<PageEntry>, table: map<nat, seq<Byte>>)
    requires multiset(a) == multiset(b) && Describes(a, table)
    ensures Describes(b, table)
  {
    forall e
      ensures e in a <==> e in b
    {
      assert e in multiset(a) <==> e in multiset(b);
    }
    forall k | k in Indices(a)
      ensures k in Indices(b)
    {
      var i :| 0 <= i < |a| && a[i].index == k;
      assert a[i] in b;
    }
    forall k | k in Indices(b)
      ensures k in Indices(a)
    {
      var i :| 0 <= i < |b| && b[i].index == k;
      assert b[i] in a;
    }
  }

  /** Collects the pages in whatever order the map yields them. */
  method CollectPages(m: Memory) returns (entries: seq<PageEntry>)
    requires m.Valid()
    ensures Distinct(entries) && Describes(entries, m.Table())
  {
    hide NodesCorrect, CacheCorrect, PageSlice;
    entries := [];
    var left := m.pages.Keys;
    while left != {}
      invariant left <= m.pages.Keys && Indices(entries) == m.pages.Keys - left
      invariant Distinct(entries)
      invariant forall e :: e in entries ==> e.index in m.pages && m.Table()[e.index] == e.data
      decreases left
    {
      var k :| k in left;
      m.PageFacts(k);
      var e := PageEntry(k, m.pages[k].data[..]);
      IndicesNext(entries, e);
      entries := entries + [e];
      left := left - {k};
    }
  }

  lemma IndicesNext(entries: seq<PageEntry>, e: PageEntry)
    ensures Indices(entries + [e]) == Indices(entries) + {e.index}
    ensures e.index !in Indices(entries) && Distinct(entries) ==> Distinct(entries + [e])
  {
    var more := entries + [e];
    assert more[|entries|].index == e.index;
    forall k | k in Indices(entries)
      ensures k in Indices(more)
    {
      var i :| 0 <= i < |entries| && entries[i].index == k;
      assert more[i].index == k;
    }
    if Distinct(entries) && e.index !in Indices(entries) {
      forall i | 0 <= i < |entries|
        ensures entries[i].index != e.index
      {
        assert entries[i].index in Indices(entries);
      }
    }
  }

  /** Saves the memory as the ascending list of its pages. */
  method Serialize(m: Memory) returns (entries: seq<PageEntry>)
    requires m.Valid()
    ensures Ascending(entries) && Describes(entries, m.Table())
  {
    hide NodesCorrect, CacheCorrect, Describes, Memory.Table, Memory.PagesMatch, Memory.PagesApart, Memory.SlotsMatch;
    var collected := CollectPages(m);
    entries := SortByIndex(collected);
    SameDescription(collected, entries, m.Table());
  }

  /** Overwrites a page whose ancestors are not cached, then drops its own cache. */
  method FillPage(m: Memory, k: nat, data: PageBytes)
    requires m.Valid() && k in m.pages
    requires k < KEYS ==> NodesCorrect(m.nodes, m.pages.Keys, m.Stale() + {k}, m.contents)
    modifies m`contents, m.pages[k].data, m.pages[k].valid
    ensures m.Valid() && m.contents == PutPage(old(m.contents), k, data)
    ensures m.Table() == old(m.Table())[k := data]
  {
    hide NodesCorrect, CacheCorrect, PageSlice, Splice, PutPage, Memory.PagesMatch, Memory.PagesApart,
      Memory.SlotsMatch, Memory.Stale, Memory.Table;
    m.PageFacts(k);
    m.StaleInRange();
    var page := m.pages[k];
    PutPageSlices(m.contents, k, data);
    SpliceWhole(page.data[..], data);
    CopyInto(page.data, 0, data);
    page.InvalidateFull();
    m.contents := PutPage(m.contents, k, data);
    m.OnlyPageChanged(k);
    m.TableKept(k);
    if k < KEYS {
      NodesSurviveWrite(m.nodes, m.pages.Keys, m.Stale(), old(m.contents), m.contents, k);
    } else {
      PutBeyondAny(old(m.contents), k, data);
      assert m.Stale() == old(m.Stale()) by { StaleBelow(old(m.Stale()), k); }
    }
  }

  lemma PutBeyondAny(contents: Flat, k: nat, data: seq<Byte>)
    requires k >= KEYS && |data| == PAGE_SIZE
    ensures PutPage(contents, k, data) == contents
  {
  }

  lemma StaleBelow(stale: set<nat>, k: nat)
    requires k !in stale
    ensures stale - {k} == stale
  {
  }

  /** Rebuilds a memory page by page; a repeated index is an error. */
  method Deserialize(entries: seq<PageEntry>) returns (r: Result<Memory>)
    ensures r.Ok? <==> Distinct(entries)
    ensures r.Ok? ==> fresh(r.value) && fresh(r.value.Repr) && r.value.Valid()
    ensures r.Ok? ==> Describes(entries, r.value.Table()) && r.value.pages.Keys == Indices(entries)
    ensures r.Err? ==> r.error == DuplicatePage
  {
    hide NodesCorrect, CacheCorrect, Describes, Indices, Memory.Table, ClearPath, SlotFree, PutPage, Memory.PagesMatch,
      Memory.SlotsMatch, Memory.PagesApart, Memory.Stale;
    var memory := new Memory();
    DescribesNothing(memory);
    assert entries[..0] == [];
    for i := 0 to |entries|
      invariant fresh(memory.Repr) && memory.Valid()
      invariant Distinct(entries[..i]) && Describes(entries[..i], memory.Table())
      invariant memory.pages.Keys == Indices(entries[..i])
    {
      var e := entries[i];
      assert entries[..i + 1] == entries[..i] + [e];
      if e.index in memory.pages {
        IndexAt(entries[..i], e.index);
        var j :| 0 <= j < i && entries[..i][j].index == e.index;
        assert entries[j].index == e.index;
        return Err(DuplicatePage);
      }
      IndicesNext(entries[..i], e);
      DescribesNext(entries[..i], e, memory.Table());
      AddPage(memory, e.index, e.data);
    }
    assert entries[..|entries|] == entries;
    r := Ok(memory);
  }

  lemma IndexAt(entries: seq<PageEntry>, k: nat)
    requires k in Indices(entries)
    ensures exists j :: 0 <= j < |entries| && entries[j].index == k
  {
  }

  /** Allocates a page of the list and fills it. */
  method AddPage(m: Memory, k: Long, data: PageBytes)
    requires m.Valid() && k !in m.pages
    modifies m
    ensures m.Valid() && fresh(m.Repr - old(m.Repr))
    ensures m.pages.Keys == old(m.pages.Keys) + {k} && m.Table() == old(m.Table())[k := data]
  {
    hide NodesCorrect, CacheCorrect, ClearPath, SlotFree, PutPage, Memory.PagesMatch, Memory.PagesApart,
      Memory.SlotsMatch, Memory.Stale, Memory.Table;
    var index: nat := k;
    var page := m.AllocPage(k);
    m.TableInserted(index);
    FillPage(m, index, data);
  }

  lemma DescribesNothing(m: Memory)
    requires m.PagesApart() && m.pages == map[]
    ensures Describes([], m.Table()) && m.pages.Keys == Indices([])
  {
  }

  lemma DescribesNext(entries: seq<PageEntry>, e: PageEntry, table: map<nat, seq<Byte>>)
    requires Describes(entries, table) && e.index !in Indices(entries)
    ensures Describes(entries + [e], table[e.index := e.data])
  {
    IndicesNext(entries, e);
    forall x | x in entries
      ensures x.index != e.index
    {
      var i :| 0 <= i < |entries| && entries[i] == x;
      assert entries[i].index in Indices(entries);
    }
  }

  /** Saving and rebuilding gives the same pages, contents and root, whatever was cached. */
  method RoundTrip(m: Memory) returns (copy: Memory)
    requires m.Valid()
    ensures fresh(copy) && copy.Valid()
    ensures copy.Table() == m.Table() && copy.contents == m.contents
    ensures TreeRoot(copy.contents) == TreeRoot(m.contents)
  {
    hide NodesCorrect, CacheCorrect, Describes, TreeRoot, Memory.Table, Holds, Memory.PagesMatch, Memory.PagesApart,
      Memory.SlotsMatch;
    var entries := Serialize(m);
    AscendingDistinct(entries);
    var rebuilt := Deserialize(entries);
    copy := rebuilt.value;
    DescribesOne(entries, m.Table(), copy.Table());
    TableHolds(m);
    TableHolds(copy);
    HoldsOne(m.Table(), m.contents, copy.contents);
  }

  lemma AscendingDistinct(entries: seq<PageEntry>)
    requires Ascending(entries)
    ensures Distinct(entries)
  {
  }
}
