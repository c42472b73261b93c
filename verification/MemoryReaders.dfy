/** Reading a byte range out of the paged memory, one page at a time. */
module MemoryReaders {
  import opened Words
  import opened Results
  import opened MerkleTree
  import opened Pages
  import opened UpperTree
  import opened PagedMemory
  import opened Machine

  /** Bytes one call delivers: to the end of the page or of the range. */
  function Chunk(address: Word, count: Word): int {
    var end := Add(address, count);
    if address / PAGE_SIZE == end / PAGE_SIZE then end % PAGE_SIZE - address % PAGE_SIZE
    else PAGE_SIZE - address % PAGE_SIZE
  }

  lemma ChunkFits(address: Word, count: Word)
    requires count > 0
    ensures address % PAGE_SIZE + count >= WORD_LIMIT <==> Chunk(address, count) < 0
    ensures address % PAGE_SIZE + count < WORD_LIMIT ==>
      && 1 <= Chunk(address, count) <= count && address % PAGE_SIZE + Chunk(address, count) <= PAGE_SIZE
      && (Chunk(address, count) < count ==> Add(address, Chunk(address, count)) % PAGE_SIZE == 0)
  {
  }

  /** Reading a prefix and then the rest is reading the whole range. */
  lemma ReadRangeSplit(contents: Flat, a: Word, n: nat, k: nat)
    requires k <= n && k < WORD_LIMIT
    ensures ReadRange(contents, a, n) == ReadRange(contents, a, k) + ReadRange(contents, Add(a, k), n - k)
  {
    var left, right := ReadRange(contents, a, k), ReadRange(contents, Add(a, k), n - k);
    forall i | k <= i < n
      ensures ReadRange(contents, a, n)[i] == right[i - k]
    {
      AddThenWrap(a, k, i - k);
    }
    assert ReadRange(contents, a, n) == left + right;
  }

  lemma AddThenWrap(a: Word, k: Word, j: nat)
    ensures (Add(a, k) + j) % MEMORY_SIZE == (a + (k + j)) % MEMORY_SIZE
  {
  }

  lemma AddSteps(a: Word, k: Word, n: Word)
    requires k + n < WORD_LIMIT
    ensures Add(a, 0) == a && Add(Add(a, k), n) == Add(a, k + n)
  {
  }

  lemma PageRoom(a: Word, n: nat)
    requires a % PAGE_SIZE + n <= PAGE_SIZE
    ensures a + n <= MEMORY_SIZE && PAGE_SIZE * (a / PAGE_SIZE) + a % PAGE_SIZE == a
  {
  }

  lemma ReadRangeStraight(contents: Flat, a: Word, n: nat)
    requires a + n <= MEMORY_SIZE
    ensures ReadRange(contents, a, n) == contents[a..a + n]
  {
  }

  /** Inside one page the range is a slice of the page. */
  lemma ReadRangeInPage(contents: Flat, a: Word, n: nat)
    requires a % PAGE_SIZE + n <= PAGE_SIZE
    ensures ReadRange(contents, a, n) == PageSlice(contents, a / PAGE_SIZE)[a % PAGE_SIZE..a % PAGE_SIZE + n]
  {
    hide ReadRange;
    PageRoom(a, n);
    ReadRangeStraight(contents, a, n);
    SubSlice(contents, PAGE_SIZE * (a / PAGE_SIZE), PAGE_SIZE, a % PAGE_SIZE, n);
  }

  lemma SpliceFront(s: seq<Byte>, bytes: seq<Byte>)
    requires |bytes| <= |s|
    ensures Splice(s, 0, bytes)[..|bytes|] == bytes
  {
  }

  class MemoryReader {
    const memory: Memory
    var address: Word
    var count: Word

    constructor (memory: Memory, address: Word, count: Word)
      ensures this.memory == memory && this.address == address && this.count == count
    {
      this.memory := memory;
      this.address := address;
      this.count := count;
    }

    /** `Read::read`: fills a prefix of the buffer; a buffer shorter than the chunk is an error. */
    method Read(buf: array<Byte>) returns (r: Result<nat>)
      requires memory.Valid() && this !in memory.Repr && buf !in memory.Repr
      modifies `address, `count, memory`lastPage, buf
      ensures memory.Valid()
      ensures old(count) == 0 ==> r == Ok(0) && address == old(address) && count == 0
      ensures old(count) > 0 ==>
        r == if old(address) % PAGE_SIZE + old(count) >= WORD_LIMIT then Err(Panic)
             else if Chunk(old(address), old(count)) > buf.Length then Err(WriteZero)
             else Ok(Chunk(old(address), old(count)))
      ensures r.Ok? ==>
        && r.value <= buf.Length && r.value <= old(count)
        && address == Add(old(address), r.value) && count == old(count) - r.value
        && buf[..r.value] == ReadRange(memory.contents, old(address), r.value)
    {
      hide Add, Chunk, NodesCorrect, ReadRange, PageSlice, ZeroElsewhere, CacheCorrect, Splice, Memory.PagesMatch,
        Memory.PagesApart, Memory.SlotsMatch;
      AddSteps(address, 0, 0);
      if count == 0 {
        return Ok(0);
      }
      ChunkFits(address, count);
      var n := Chunk(address, count);
      if n < 0 {
        return Err(Panic);
      }
      var start := address % PAGE_SIZE;
      var k := address / PAGE_SIZE;
      memory.SoundSlots();
      if k in memory.pages {
        memory.PageFacts(k);
      }
      var page := memory.PageLookup(k);
      RangeOfLookup(k, start, n);
      var bytes := Zeros(n);
      if page != null {
        bytes := page.data[start..start + n];
      }
      if n > buf.Length {
        CopyInto(buf, 0, bytes[..buf.Length]);
        return Err(WriteZero);
      }
      CopyInto(buf, 0, bytes);
      SpliceFront(old(buf[..]), bytes);
      assert buf[..n] == buf[..][..n] == bytes;
      address := Add(address, n);
      count := count - n;
      r := Ok(n);
    }

    lemma RangeOfLookup(k: nat, start: nat, n: nat)
      requires memory.Valid() && k == address / PAGE_SIZE && start == address % PAGE_SIZE && start + n <= PAGE_SIZE
      ensures ReadRange(memory.contents, address, n)
        == if k in memory.pages then memory.pages[k].data[start..start + n] else Zeros(n)
    {
      hide NodesCorrect;
      ReadRangeInPage(memory.contents, address, n);
      if k in memory.pages {
        memory.PageFacts(k);
        assert memory.pages[k].data[..][start..start + n] == memory.pages[k].data[start..start + n];
      } else {
        memory.AbsentPageIsZero(k);
      }
    }

    /** `io::copy` and `read_to_end`: read until nothing is left, through an 8 KiB buffer. */
    method Drain() returns (r: Result<seq<Byte>>)
      requires memory.Valid() && this !in memory.Repr
      modifies `address, `count, memory`lastPage
      ensures memory.Valid()
      ensures r == RangeBytes(memory.contents, old(address), old(count))
    {
      hide Add, Chunk, NodesCorrect, ReadRange, CacheCorrect, PageSlice, Memory.PagesMatch, Memory.PagesApart,
        Memory.SlotsMatch;
      AddSteps(address, 0, 0);
      var buf := new Byte[8192](_ => 0);
      var data := [];
      while count > 0
        invariant memory.Valid() && buf !in memory.Repr
        invariant (address == old(address) && count == old(count)) || address % PAGE_SIZE == 0 || count == 0
        invariant count <= old(count) && |data| == old(count) - count && address == Add(old(address), |data|)
        invariant data == ReadRange(memory.contents, old(address), |data|)
        invariant |data| > 0 ==> old(address) % PAGE_SIZE + old(count) < WORD_LIMIT
        decreases count
      {
        ChunkFits(address, count);
        var n :- Read(buf);
        AddSteps(old(address), |data|, n);
        ReadRangeSplit(memory.contents, old(address), |data| + n, |data|);
        data := data + buf[..n];
      }
      r := Ok(data);
    }
  }
}
