/** Whole histories of the paged memory: through any sequence of operations it answers as the
    flat memory would, so its root depends on the last write to each address and on nothing
    else: not on write order, allocation or the state of any cache. */
module Interleavings {
  import opened Words
  import opened Results
  import opened MerkleTree
  import opened Pages
  import opened UpperTree
  import opened MemoryProofs
  import opened PagedMemory

  datatype Operation =
    | Set(address: Word, value: Word)
    | Get(address: Word)
    | Alloc(page: Long)
    | Root
    | Prove(address: Word)
    | Hash(gindex: Long)

  datatype Answer = Done | Value(word: Word) | Digested(digest: Digest) | Proven(proof: seq<Byte>) | Failed(error: Error)

  /** The flat memory after one operation, and the answer it calls for. */
  ghost function Next(contents: Flat, op: Operation): Flat {
    match op
    case Set(a, value) => if a % 4 == 0 then WriteWord(contents, a, value) else contents
    case Alloc(k) => PutPage(contents, k, ZERO_PAGE)
    case _ => contents
  }

  function Expected(contents: Flat, op: Operation): Answer {
    match op
    case Set(a, _) => if a % 4 == 0 then Done else Failed(UnalignedAccess)
    case Get(a) => if a % 4 == 0 then Value(WordAt(contents, a)) else Failed(UnalignedAccess)
    case Alloc(_) => Done
    case Root => Digested(TreeRoot(contents))
    case Prove(a) => Proven(Flatten(MemoryProof(contents, a)))
    case Hash(g) =>
      if g >= 2 * LEAVES then Failed(GindexTooDeep)
      else Digested(if g == 0 then ZeroHash(28) else Node(contents, LEAVES, g))
  }

  ghost function After(contents: Flat, ops: seq<Operation>): Flat
    decreases |ops|
  {
    if ops == [] then contents else Next(After(contents, ops[..|ops| - 1]), ops[|ops| - 1])
  }

  ghost function Answers(contents: Flat, ops: seq<Operation>): seq<Answer>
    decreases |ops|
  {
    if ops == [] then []
    else
      var init := ops[..|ops| - 1];
      Answers(contents, init) + [Expected(After(contents, init), ops[|ops| - 1])]
  }

  /** Which pages exist, and the keys in the lookup cache: all that decides whether a page may
      be reallocated. */
  datatype SlotKey = SlotKey(key: Long, filled: bool)

  type SlotKeys = s: seq<SlotKey> | |s| == 2 witness [SlotKey(0, false), SlotKey(0, false)]

  datatype Shape = Shape(present: set<nat>, slots: SlotKeys)

  ghost function ShapeOf(m: Memory): Shape
    requires |m.lastPage| == 2
    reads m
  {
    Shape(m.pages.Keys, KeysOf(m.lastPage))
  }

  function KeysOf(slots: seq<CacheSlot>): SlotKeys
    requires |slots| == 2
  {
    [SlotKey(slots[0].key, slots[0].page != null), SlotKey(slots[1].key, slots[1].page != null)]
  }

  function Held(slots: SlotKeys, k: nat): bool {
    if slots[0].key == k then slots[0].filled else slots[1].key == k && slots[1].filled
  }

  function LookedUp(shape: Shape, k: Long): SlotKeys {
    if !Held(shape.slots, k) && k in shape.present then [SlotKey(k, true), shape.slots[0]] else shape.slots
  }

  function NextShape(shape: Shape, op: Operation): Shape {
    match op
    case Set(a, _) =>
      if a % 4 == 0 then Shape(shape.present + {a / PAGE_SIZE}, LookedUp(shape, a / PAGE_SIZE)) else shape
    case Get(a) => if a % 4 == 0 then shape.(slots := LookedUp(shape, a / PAGE_SIZE)) else shape
    case Alloc(k) => shape.(present := shape.present + {k})
    case _ => shape
  }

  function ShapeAfter(shape: Shape, ops: seq<Operation>): Shape
    decreases |ops|
  {
    if ops == [] then shape else NextShape(ShapeAfter(shape, ops[..|ops| - 1]), ops[|ops| - 1])
  }

  /** An allocation is allowed unless the lookup cache holds the page it replaces. */
  predicate Allowed(shape: Shape, op: Operation) {
    op.Alloc? ==> forall i :: 0 <= i < 2 && shape.slots[i].filled ==> shape.slots[i].key != op.page
  }

  predicate AllAllowed(shape: Shape, ops: seq<Operation>) {
    forall i :: 0 <= i < |ops| ==> Allowed(ShapeAfter(shape, ops[..i]), ops[i])
  }

  lemma LookupShape(slots: seq<CacheSlot>, pages: map<nat, CachedPage>, k: Long)
    requires |slots| == 2
    ensures KeysOf(SlotsAfter(slots, pages, k)) == LookedUp(Shape(pages.Keys, KeysOf(slots)), k)
  {
  }

  lemma AllowedMeansFree(slots: seq<CacheSlot>, present: set<nat>, k: Long)
    requires |slots| == 2 && Allowed(Shape(present, KeysOf(slots)), Alloc(k))
    ensures SlotFree(slots, k)
  {
    var keys := KeysOf(slots);
    assert forall i :: 0 <= i < 2 ==> keys[i].key == slots[i].key && keys[i].filled == (slots[i].page != null);
  }

  /** One operation on the real structure. */
  method Perform(m: Memory, op: Operation) returns (answer: Answer)
    requires m.Valid() && |m.lastPage| == 2 && Allowed(ShapeOf(m), op)
    modifies m, m.Repr
    ensures m.Valid() && fresh(m.Repr - old(m.Repr)) && |m.lastPage| == 2
    ensures m.contents == Next(old(m.contents), op) && answer == Expected(old(m.contents), op)
    ensures ShapeOf(m) == NextShape(old(ShapeOf(m)), op)
  {
    hide NodesCorrect, CacheCorrect, Splice, WriteWord, WordAt, Node, TreeRoot, MemoryProof, Flatten, SlotFree, PutPage,
      ClearPath, PageKey, KeysOf, SlotsAfter, LookedUp, Allowed, Memory.PagesMatch, Memory.PagesApart,
      Memory.SlotsMatch, Memory.NoneStaleUnder, Memory.Stale;
    match op {
      case Set(a, value) =>
        LookupShape(m.lastPage, m.pages, a / PAGE_SIZE);
        var r := m.SetMemory(a, value);
        answer := if r.Ok? then Done else Failed(UnalignedAccess);
      case Get(a) =>
        LookupShape(m.lastPage, m.pages, a / PAGE_SIZE);
        var r := m.GetMemory(a);
        answer := if r.Ok? then Value(r.value) else Failed(r.error);
      case Alloc(k) =>
        AllowedMeansFree(m.lastPage, m.pages.Keys, k);
        var _ := m.AllocPage(k);
        answer := Done;
      case Root =>
        var r := m.MerkleRoot();
        answer := Digested(r.value);
      case Prove(a) =>
        var r := m.MerkleProof(a);
        answer := Proven(r.value);
      case Hash(g) =>
        var r := m.MerkleizeSubtree(g);
        answer := if r.Ok? then Digested(r.value) else Failed(r.error);
    }
  }

  /** Any interleaving of operations, from any reachable state of the caches. */
  method PerformAll(m: Memory, ops: seq<Operation>) returns (answers: seq<Answer>)
    requires m.Valid() && |m.lastPage| == 2 && AllAllowed(ShapeOf(m), ops)
    modifies m, m.Repr
    ensures m.Valid() && fresh(m.Repr - old(m.Repr))
    ensures m.contents == After(old(m.contents), ops)
    ensures answers == Answers(old(m.contents), ops)
  {
    hide NodesCorrect, CacheCorrect, Next, Expected, NextShape, Allowed, Memory.PagesMatch, Memory.PagesApart,
      Memory.SlotsMatch;
    answers := [];
    for i := 0 to |ops|
      invariant m.Valid() && fresh(m.Repr - old(m.Repr)) && |m.lastPage| == 2
      invariant ShapeOf(m) == ShapeAfter(old(ShapeOf(m)), ops[..i])
      invariant m.contents == After(old(m.contents), ops[..i])
      invariant answers == Answers(old(m.contents), ops[..i])
    {
      assert ops[..i + 1][..i] == ops[..i];
      var answer := Perform(m, ops[i]);
      answers := answers + [answer];
    }
    assert ops[..|ops|] == ops;
  }

  /** The last value written to an address, if any; allocating its page writes zero. */
  function LastWrite(ops: seq<Operation>, a: Word): Option<Word>
    decreases |ops|
  {
    if ops == [] then None
    else
      var op := ops[|ops| - 1];
      if op.Set? && op.address == a then Some(op.value)
      else if op.Alloc? && op.page == a / PAGE_SIZE then Some(0)
      else LastWrite(ops[..|ops| - 1], a)
  }

  lemma AllocThenRead(contents: Flat, k: nat, a: Word)
    requires a % 4 == 0
    ensures WordAt(PutPage(contents, k, ZERO_PAGE), a) == if a / PAGE_SIZE == k then 0 else WordAt(contents, a)
  {
    hide PutPage;
    var put := PutPage(contents, k, ZERO_PAGE);
    PutPageSlices(contents, k, ZERO_PAGE);
    WordInPage(put, a);
    WordInPage(contents, a);
  }

  /** Words of a memory after a write: the written one, and all others as before. */
  lemma WriteThenRead(contents: Flat, a: Word, value: Word, b: Word)
    requires a % 4 == 0 && b % 4 == 0
    ensures WordAt(WriteWord(contents, a, value), b) == if a == b then value else WordAt(contents, b)
  {
    var written := WriteWord(contents, a, value);
    if a == b {
      assert written[a..a + 4] == BytesOf(value);
      WordRoundTrip(value);
    } else {
      assert b + 4 <= a || a + 4 <= b;
      assert written[b..b + 4] == contents[b..b + 4];
    }
  }

  /** Reads return the last write. */
  lemma {:induction false} ReadsLastWrite(contents: Flat, ops: seq<Operation>, a: Word)
    requires a % 4 == 0
    ensures WordAt(After(contents, ops), a) ==
      match LastWrite(ops, a) case Some(value) => value case None => WordAt(contents, a)
    decreases |ops|
  {
    hide WordAt, WriteWord, PutPage;
    if ops != [] {
      var init, op := ops[..|ops| - 1], ops[|ops| - 1];
      ReadsLastWrite(contents, init, a);
      if op.Set? && op.address % 4 == 0 {
        WriteThenRead(After(contents, init), op.address, op.value, a);
      } else if op.Alloc? {
        AllocThenRead(After(contents, init), op.page, a);
      }
    }
  }

  /** A memory is its aligned words. */
  lemma SameWordsSameMemory(c: Flat, d: Flat)
    requires forall a: Word :: a % 4 == 0 ==> WordAt(c, a) == WordAt(d, a)
    ensures c == d
  {
    forall i | 0 <= i < MEMORY_SIZE
      ensures c[i] == d[i]
    {
      var a := i - i % 4;
      assert WordAt(c, a) == WordAt(d, a);
      BytesRoundTrip(c[a..a + 4]);
      BytesRoundTrip(d[a..a + 4]);
      assert c[a..a + 4][i % 4] == c[i] && d[a..a + 4][i % 4] == d[i];
    }
  }

  /** Two histories with the same last writes end with the same contents and root, however
      they are ordered and whatever else they do. */
  lemma RootForgetsHistory(contents: Flat, ops: seq<Operation>, ops': seq<Operation>)
    requires forall a: Word :: a % 4 == 0 ==> LastWrite(ops, a) == LastWrite(ops', a)
    ensures After(contents, ops) == After(contents, ops')
    ensures TreeRoot(After(contents, ops)) == TreeRoot(After(contents, ops'))
  {
    hide WordAt, TreeRoot, After, LastWrite;
    forall a: Word | a % 4 == 0
      ensures WordAt(After(contents, ops), a) == WordAt(After(contents, ops'), a)
    {
      ReadsLastWrite(contents, ops, a);
      ReadsLastWrite(contents, ops', a);
    }
    SameWordsSameMemory(After(contents, ops), After(contents, ops'));
  }
}
