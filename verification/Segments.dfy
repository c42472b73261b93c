/** Loading a program image: the segment loop of the loader on headers that are already parsed. */
module Segments {
  import opened Words
  import opened Results
  import opened MerkleTree
  import opened UpperTree
  import opened PagedMemory
  import opened Cpu
  import opened Instrumented
  import opened RangeLoading

  /** A program header with the file bytes it names; their number is the header's file size. */
  datatype Segment = Segment(kind: Word, vaddr: Long, memsz: Long, bytes: seq<Byte>)

  const PT_LOAD: Word := 1
  const ABI_FLAGS: Word := 0x7000_0003
  const HEAP_START: Word := 0x2000_0000

  predicate Skipped(s: Segment) { s.kind == ABI_FLAGS }

  /** The fill of a segment would be a vector of more than `isize::MAX` bytes. */
  predicate Overfull(s: Segment) { s.kind == PT_LOAD && s.memsz - |s.bytes| >= 0x8000_0000_0000_0000 }

  /** Filling is for loadable segments only and must fit a vector, and the 64-bit end address
      must be below 2^32. */
  predicate Rejected(s: Segment) {
    || (|s.bytes| != s.memsz && (s.kind != PT_LOAD || |s.bytes| > s.memsz))
    || Overfull(s)
    || (s.vaddr + s.memsz) % LONG_LIMIT >= WORD_LIMIT
  }

  predicate Loadable(segments: seq<Segment>) {
    forall s :: s in segments ==> Skipped(s) || !Rejected(s)
  }

  /** What a segment puts into memory: its file bytes, then zeros up to its memory size. */
  function Image(s: Segment): (bytes: seq<Byte>)
    requires !Rejected(s)
    ensures |bytes| == s.memsz
  {
    s.bytes + Zeros(s.memsz - |s.bytes|)
  }

  /** The memory after loading the segments in order. */
  ghost function Loaded(segments: seq<Segment>): Flat
    requires Loadable(segments)
    decreases |segments|
  {
    if segments == [] then ZERO_MEMORY
    else
      var before, s := Loaded(segments[..|segments| - 1]), segments[|segments| - 1];
      if Skipped(s) then before else Overlay(before, s.vaddr % WORD_LIMIT, Image(s))
  }

  lemma RejectsAt(segments: seq<Segment>, i: nat)
    requires i < |segments| && !Skipped(segments[i]) && Rejected(segments[i])
    ensures !Loadable(segments)
  {
    assert segments[i] in segments;
  }

  /** The reader of a segment: its bytes, followed by the fill when the sizes differ. */
  method SegmentReader(s: Segment) returns (data: MultiReader)
    requires !Rejected(s)
    ensures data.Valid() && !data.MayFail() && data.Rest() == Image(s)
    ensures fresh(data) && fresh(data.first) && fresh(data.second)
  {
    var file := new Reader(s.bytes, false);
    var fill := new Reader(Zeros(s.memsz - |s.bytes|), false);
    data := new MultiReader(file, fill);
  }

  ghost predicate NothingCached(nodes: Nodes) { CachesNoMore(map[], nodes) }

  lemma NothingCachedIsSafe(nodes: Nodes, present: set<nat>, touched: set<nat>)
    requires NothingCached(nodes)
    ensures LoadSafe(nodes, present, touched)
  {
  }

  /** One round of the loop. No hash above the pages has been computed yet. */
  method LoadSegment(memory: Memory, s: Segment) returns (r: Result<()>)
    requires memory.Valid() && NothingCached(memory.nodes) && !Skipped(s)
    modifies memory, memory.Repr
    ensures memory.Valid() && fresh(memory.Repr - old(memory.Repr)) && NothingCached(memory.nodes)
    ensures r.Ok? <==> !Rejected(s)
    ensures r.Err? ==> r.error == if Overfull(s) then Panic else InvalidSegment
    ensures r.Ok? ==> memory.contents == Overlay(old(memory.contents), s.vaddr % WORD_LIMIT, Image(s))
  {
    hide NodesCorrect, LoadSafe, Forgets, CachesNoMore, Overlay, Touched, Memory.PagesMatch, Memory.PagesApart,
      Memory.SlotsMatch;
    if |s.bytes| != s.memsz {
      if s.kind == PT_LOAD {
        if |s.bytes| > s.memsz {
          return Err(InvalidSegment);
        }
        if s.memsz - |s.bytes| >= 0x8000_0000_0000_0000 {
          return Err(Panic);
        }
      } else {
        return Err(InvalidSegment);
      }
    }
    if (s.vaddr + s.memsz) % LONG_LIMIT >= WORD_LIMIT {
      return Err(InvalidSegment);
    }
    var data := SegmentReader(s);
    var start: Word := s.vaddr % WORD_LIMIT;
    NothingCachedIsSafe(memory.nodes, memory.pages.Keys, Touched(start, |data.Rest()| + 1));
    r := SetMemoryRange(memory, start, data);
    CachesNoMoreTrans(map[], old(memory.nodes), memory.nodes);
  }

  /** Loads every segment but the ABI flags into a new state that starts at the entry point. */
  method LoadElf(entry: Long, segments: seq<Segment>) returns (r: Result<State>)
    ensures r.Ok? <==> Loadable(segments)
    ensures r.Ok? ==> var state := r.value; var pc: Word := entry % WORD_LIMIT;
      && fresh(state) && state.Valid() && state.lastHint == []
      && state.memory.contents == Loaded(segments)
      && state.Snapshot() ==
        Cpu(ZERO_LEAF, 0, pc, Add(pc, 4), 0, 0, HEAP_START, 0, false, 0, seq(32, _ => 0))
  {
    hide NodesCorrect, Memory.PagesMatch, Memory.PagesApart, Memory.SlotsMatch, CachesNoMore, Overlay, Rejected,
      Skipped, Loaded, Loadable;
    var memory := new Memory();
    var state := new State(memory);
    state.pc, state.nextPc, state.heap := entry % WORD_LIMIT, Add(entry % WORD_LIMIT, 4), HEAP_START;
    LoadedNone(segments);
    CachesSame(map[]);
    ghost var repr := memory.Repr;
    label Loading:
    for i := 0 to |segments|
      modifies memory, repr
      invariant fresh@Loading(memory.Repr - repr) && state !in memory.Repr && state.registers !in memory.Repr
      invariant memory.Valid() && NothingCached(memory.nodes)
      invariant Loadable(segments[..i]) && memory.contents == Loaded(segments[..i])
    {
      LoadableNext(segments, i);
      if Skipped(segments[i]) {
        LoadedSnoc(segments, i);
        continue;
      }
      var loaded := LoadSegment(memory, segments[i]);
      if loaded.Err? {
        RejectsAt(segments, i);
        return Err(loaded.error);
      }
      LoadedSnoc(segments, i);
    }
    assert segments[..|segments|] == segments;
    r := Ok(state);
  }

  lemma LoadedNone(segments: seq<Segment>)
    ensures Loadable(segments[..0]) && Loaded(segments[..0]) == ZERO_MEMORY
  {
  }

  lemma LoadableNext(segments: seq<Segment>, i: nat)
    requires i < |segments| && Loadable(segments[..i])
    ensures Loadable(segments[..i + 1]) <==> Skipped(segments[i]) || !Rejected(segments[i])
  {
    assert segments[..i + 1] == segments[..i] + [segments[i]];
    assert segments[i] in segments[..i + 1];
  }

  lemma LoadedSnoc(segments: seq<Segment>, i: nat)
    requires i < |segments| && Loadable(segments[..i + 1])
    ensures Loadable(segments[..i]) && (!Skipped(segments[i]) ==> !Rejected(segments[i]))
    ensures Loaded(segments[..i + 1]) ==
      if Skipped(segments[i]) then Loaded(segments[..i])
      else Overlay(Loaded(segments[..i]), segments[i].vaddr % WORD_LIMIT, Image(segments[i]))
  {
    var next := segments[..i + 1];
    assert next[..i] == segments[..i] && next[i] == segments[i] && segments[i] in next;
  }

  /** The range check holds the segment inside the address space exactly when the 64-bit sum
      it compares did not wrap. */
  lemma GuardExact(s: Segment)
    requires !Rejected(s)
    ensures s.vaddr + s.memsz < WORD_LIMIT <==> s.vaddr + s.memsz < LONG_LIMIT
  {
  }

  /** A header whose end wraps past 2^64 is accepted although it starts far outside. */
  lemma GuardMissesWrap()
    ensures var s := Segment(PT_LOAD, LONG_LIMIT - 1, 2, [7, 8]);
      !Rejected(s) && s.vaddr >= WORD_LIMIT
      && Overlay(ZERO_MEMORY, s.vaddr % WORD_LIMIT, Image(s))[0] == 8
  {
    var s := Segment(PT_LOAD, LONG_LIMIT - 1, 2, [7, 8]);
    var top: Word := WORD_LIMIT - 1;
    assert Image(s) == [7, 8] && s.vaddr % WORD_LIMIT == top && Add(top, 1) == 0;
    var once: Flat := ZERO_MEMORY[top := 7];
    assert [7, 8][1..] == [8];
    assert Overlay(ZERO_MEMORY, top, [7, 8]) == Overlay(once, 0, [8]);
    assert Overlay(once, 0, [8])[0] == 8 by {
      assert [8][1..] == [];
    }
  }

  predicate Covers(s: Segment, a: Word) { !Skipped(s) && s.vaddr <= a < s.vaddr + s.memsz }

  /** The byte at an address as the headers promise it: from the last segment over it, from the
      file or from the fill, and zero where no segment is. */
  function PromisedByte(segments: seq<Segment>, a: Word): Byte
    decreases |segments|
  {
    if segments == [] then 0
    else
      var s := segments[|segments| - 1];
      if !Covers(s, a) then PromisedByte(segments[..|segments| - 1], a)
      else if a - s.vaddr < |s.bytes| then s.bytes[a - s.vaddr] else 0
  }

  lemma OverlayByte(contents: Flat, start: Word, bytes: seq<Byte>, a: Word)
    requires start + |bytes| <= MEMORY_SIZE
    ensures Overlay(contents, start, bytes)[a] == if start <= a < start + |bytes| then bytes[a - start] else contents[a]
  {
    hide Overlay, Splice;
    OverlaySplice(contents, start, bytes);
    SpliceAt(contents, start, bytes, a);
  }

  /** Every byte of the loaded memory is the promised one, when no end address wraps. */
  lemma {:induction false} LoadedBytes(segments: seq<Segment>, a: Word)
    requires Loadable(segments)
    requires forall s :: s in segments && !Skipped(s) ==> s.vaddr + s.memsz < LONG_LIMIT
    ensures Loaded(segments)[a] == PromisedByte(segments, a)
    decreases |segments|
  {
    hide Overlay;
    if segments == [] {
    } else {
      var init, s := segments[..|segments| - 1], segments[|segments| - 1];
      LoadedBytes(init, a);
      if !Skipped(s) {
        assert s in segments;
        GuardExact(s);
        OverlayByte(Loaded(init), s.vaddr, Image(s), a);
      }
    }
  }
}
