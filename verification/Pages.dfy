/** A 4 KiB page with its cache of Merkle nodes. Nodes 1..127 of the page's 128-leaf tree
    are cached; a bitmap says which entries are current. */
module Pages {
  import opened Words
  import opened Results
  import opened MerkleTree

  const PAGE_SIZE := 4096
  const PAGE_LEAVES := 128
  const ZERO_PAGE := Zeros(PAGE_SIZE)

  /** Every entry marked valid is the true node hash, and validity is closed downwards. */
  ghost predicate CacheCorrect(data: seq<Byte>, cache: seq<Digest>, valid: seq<bool>) {
    && |data| == PAGE_SIZE && |cache| == |valid| == PAGE_LEAVES
    && (forall g :: 1 <= g < PAGE_LEAVES && valid[g] ==> cache[g] == Node(data, PAGE_LEAVES, g))
    && ClosedDownwards(valid)
  }

  ghost predicate ClosedDownwards(valid: seq<bool>)
    requires |valid| == PAGE_LEAVES
  {
    forall g :: 1 <= g < PAGE_LEAVES / 2 && valid[g] ==> valid[2 * g] && valid[2 * g + 1]
  }

  lemma {:induction false} RootValidMeansAll(valid: seq<bool>, g: nat)
    requires |valid| == PAGE_LEAVES && ClosedDownwards(valid) && valid[1] && 1 <= g < PAGE_LEAVES
    ensures valid[g]
    decreases g
  {
    if g > 1 {
      RootValidMeansAll(valid, g / 2);
      assert g == 2 * (g / 2) || g == 2 * (g / 2) + 1;
    }
  }

  /** The cached layer 64..127 covers two leaves each; every ancestor has a smaller index,
      so clearing the prefix up to it clears all nodes over the touched 64 bytes. */
  lemma PrefixCoversPath(a: nat, g: nat, i: nat)
    requires a < PAGE_SIZE && 1 <= g < PAGE_LEAVES && i / 2 == a / 64
    requires Above(g, PAGE_LEAVES + i)
    ensures g <= 64 + a / 64
  {
    AboveOrder(g, (PAGE_LEAVES + i) / 2);
  }

  /** Bytes in the invalidated 64-byte block may change without spoiling the cache. */
  lemma CacheSurvivesWrite(data: seq<Byte>, data': seq<Byte>, cache: seq<Digest>, valid: seq<bool>, a: nat)
    requires CacheCorrect(data, cache, valid) && |data'| == PAGE_SIZE && a < PAGE_SIZE
    requires forall i :: 0 <= i <= 64 + a / 64 ==> !valid[i]
    requires forall j :: 0 <= j < PAGE_SIZE && j / 64 != a / 64 ==> data[j] == data'[j]
    ensures CacheCorrect(data', cache, valid)
  {
    forall g | 1 <= g < PAGE_LEAVES && valid[g]
      ensures Node(data', PAGE_LEAVES, g) == Node(data, PAGE_LEAVES, g)
    {
      forall i | 0 <= i < PAGE_LEAVES && Above(g, PAGE_LEAVES + i)
        ensures Leaf(data, i) == Leaf(data', i)
      {
        if i / 2 == a / 64 {
          PrefixCoversPath(a, g, i);
        }
        assert forall j :: 32 * i <= j < 32 * i + 32 ==> j / 64 == i / 2;
      }
      NodeFrame(data, data', PAGE_LEAVES, g);
    }
  }

  /** Hashing 64 raw bytes is combining the two leaves they consist of. */
  lemma BottomLayer(data: seq<Byte>, g: nat)
    requires |data| == PAGE_SIZE && 64 <= g < 128
    ensures Keccak256(data[64 * (g - 64)..64 * (g - 64) + 64]) == Node(data, PAGE_LEAVES, g)
  {
    var i := 2 * g - 128;
    LeafNode(data, PAGE_LEAVES, i);
    LeafNode(data, PAGE_LEAVES, i + 1);
    assert data[32 * i..32 * i + 64] == Leaf(data, i) + Leaf(data, i + 1);
  }

  /** Caching a node whose children are cached keeps the invariant. */
  lemma CacheSurvivesStore(data: seq<Byte>, cache: seq<Digest>, valid: seq<bool>, g: nat)
    requires CacheCorrect(data, cache, valid) && 1 <= g < PAGE_LEAVES
    requires g < PAGE_LEAVES / 2 ==> valid[2 * g] && valid[2 * g + 1]
    ensures CacheCorrect(data, cache[g := Node(data, PAGE_LEAVES, g)], valid[g := true])
  {
  }

  lemma CachedValue(data: seq<Byte>, cache: seq<Digest>, valid: seq<bool>, g: nat)
    requires CacheCorrect(data, cache, valid) && 1 <= g < PAGE_LEAVES && valid[g]
    ensures cache[g] == Node(data, PAGE_LEAVES, g)
  {
  }

  class CachedPage {
    const data: array<Byte>
    const cache: array<Digest>
    const valid: array<bool>

    ghost const Repr: set<object>

    ghost predicate Shaped() {
      && Repr == {this, data, cache, valid}
      && data.Length == PAGE_SIZE && cache.Length == valid.Length == PAGE_LEAVES
    }

    ghost predicate Valid()
      reads data, cache, valid
    {
      Shaped() && CacheCorrect(data[..], cache[..], valid[..])
    }

    /** A zeroed page with an empty cache. */
    constructor Blank()
      ensures Valid() && fresh(Repr)
      ensures data[..] == ZERO_PAGE && !valid[1]
    {
      data := new Byte[PAGE_SIZE](_ => 0);
      cache := new Digest[PAGE_LEAVES](_ => ZERO_LEAF);
      valid := new bool[PAGE_LEAVES](_ => false);
      Repr := {this, data, cache, valid};
      new;
      assert data[..] == ZERO_PAGE;
    }

    /** A zeroed page with every node cached. */
    constructor ()
      ensures Valid() && fresh(Repr)
      ensures data[..] == ZERO_PAGE
      ensures forall g :: 0 <= g < PAGE_LEAVES ==> valid[g]
    {
      data := new Byte[PAGE_SIZE](_ => 0);
      cache := new Digest[PAGE_LEAVES](_ => ZERO_LEAF);
      valid := new bool[PAGE_LEAVES](_ => true);
      Repr := {this, data, cache, valid};
      new;
      var filled := DefaultCache();
      forall i | 0 <= i < PAGE_LEAVES {
        cache[i] := filled[i];
      }
      assert data[..] == ZERO_PAGE;
    }

    /** The cache of a zeroed page, computed once by hashing such a page. */
    static method DefaultCache() returns (filled: seq<Digest>)
      ensures |filled| == PAGE_LEAVES
      ensures forall g :: 1 <= g < PAGE_LEAVES ==> filled[g] == Node(ZERO_PAGE, PAGE_LEAVES, g)
    {
      var page := new CachedPage.Blank();
      var _ := page.MerkleRoot();
      forall g | 1 <= g < PAGE_LEAVES
        ensures page.valid[g]
      {
        RootValidMeansAll(page.valid[..], g);
      }
      filled := page.cache[..];
    }

    /** Clears every entry up to the bottom-layer node over the given address. */
    method Invalidate(pageAddress: Word) returns (r: Result<()>)
      requires Valid()
      modifies valid
      ensures Valid()
      ensures r.Ok? <==> pageAddress < PAGE_SIZE
      ensures forall i :: 0 <= i < PAGE_LEAVES ==>
        valid[i] == (old(valid[i]) && (r.Ok? ==> i > 64 + pageAddress / 64))
    {
      if pageAddress >= PAGE_SIZE {
        return Err(InvalidPageAddress);
      }
      var key := 64 + pageAddress / 64;
      for k := 0 to key + 1
        invariant forall i :: 0 <= i < PAGE_LEAVES ==> valid[i] == (old(valid[i]) && i >= k)
      {
        valid[k] := false;
      }
      r := Ok(());
    }

    /** Clears the whole cache, whatever the data has become meanwhile. */
    method InvalidateFull()
      requires Shaped()
      modifies valid
      ensures Valid()
      ensures forall i :: 0 <= i < PAGE_LEAVES ==> !valid[i]
    {
      forall i | 0 <= i < PAGE_LEAVES {
        valid[i] := false;
      }
    }

    method MerkleRoot() returns (r: Result<Digest>)
      requires Valid()
      modifies cache, valid
      ensures Valid() && valid[1]
      ensures r == Ok(Node(data[..], PAGE_LEAVES, 1))
    {
      r := MerkleizeSubtree(1);
    }

    /** Index 0 is not a node: it is answered from the unused entry 0 while that is marked
        valid, and recursed on without end once it is not. */
    method MerkleizeSubtree(g: Long) returns (r: Result<Digest>)
      requires Valid() && (g == 0 ==> valid[0])
      modifies cache, valid
      ensures Valid()
      ensures r == if g == 0 then Ok(old(cache[0]))
                   else if g < 2 * PAGE_LEAVES then Ok(Node(data[..], PAGE_LEAVES, g))
                   else Err(GindexTooDeep)
      ensures g == 0 ==> cache[..] == old(cache[..]) && valid[..] == old(valid[..])
      ensures forall i :: 0 <= i < PAGE_LEAVES && old(valid[i]) ==> valid[i]
      ensures g < PAGE_LEAVES ==> valid[g]
      decreases LONG_LIMIT - g
    {
      hide CacheCorrect;
      if PAGE_LEAVES <= g < 2 * PAGE_LEAVES {
        var at := g % 128 * 32;
        assert data[at..at + 32] == Leaf(data[..], g - PAGE_LEAVES);
        return Ok(data[at..at + 32]);
      } else if g >= 2 * PAGE_LEAVES {
        return Err(GindexTooDeep);
      } else if valid[g] {
        if g >= 1 {
          CachedValue(data[..], cache[..], valid[..], g);
        }
        return Ok(cache[g]);
      }
      var hash: Digest;
      if g >= 64 {
        var at := (g - 64) * 64;
        hash := Keccak256(data[at..at + 64]);
        BottomLayer(data[..], g);
        assert data[..][at..at + 64] == data[at..at + 64];
      } else {
        var left := MerkleizeSubtree(2 * g);
        var right := MerkleizeSubtree(2 * g + 1);
        hash := ConcatHash(left.value, right.value);
      }
      CacheSurvivesStore(data[..], cache[..], valid[..], g);
      ghost var valid', cache' := valid[..][g := true], cache[..][g := hash];
      valid[g] := true;
      cache[g] := hash;
      assert valid[..] == valid' && cache[..] == cache';
      r := Ok(hash);
    }
  }
}
