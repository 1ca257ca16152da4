/** The block chain of the arena, seen as a value: the blocks in address
    order, the tiling invariant they keep, and the effect of splitting a
    block on allocation and of coalescing neighbours on release. */
module Chain {

  /** Capacity of the arena in bytes. */
  const HEAP_SIZE: nat := 1024
  /** Bytes of a block header (the header record on an LP64 target). */
  const HEADER_SIZE: nat := 24
  /** Bytes of a block footer (one size word). */
  const FOOTER_SIZE: nat := 8
  /** The smallest block the allocator ever creates: a header, a footer
      and at least one byte between them. */
  const MIN_BLOCK: nat := HEADER_SIZE + FOOTER_SIZE + 1

  datatype Option<+T> = None | Some(value: T)

  /** One block of the chain: where it starts in the arena, its total
      extent (header, payload and footer) and whether it is free. */
  datatype BlockView = BlockView(offset: nat, size: nat, free: bool)

  /** The offset just past the block. */
  function End(b: BlockView): nat { b.offset + b.size }

  /** Block `j` starts where block `j - 1` ends. */
  predicate Adjacent(bs: seq<BlockView>, j: nat)
    requires 0 < j < |bs|
  {
    bs[j].offset == End(bs[j - 1])
  }

  /** The chain covers the arena edge to edge: it starts at offset 0, every
      block starts where its predecessor ends, the last one ends at the end
      of the arena, and no block is smaller than a header plus a footer. */
  predicate Tiles(bs: seq<BlockView>) {
    && |bs| > 0
    && bs[0].offset == 0
    && End(bs[|bs| - 1]) == HEAP_SIZE
    && (forall i :: 0 <= i < |bs| ==> MIN_BLOCK <= bs[i].size)
    && (forall j :: 0 < j < |bs| ==> Adjacent(bs, j))
  }

  /** Neighbours `j - 1` and `j` are both free. */
  predicate BothFree(bs: seq<BlockView>, j: nat)
    requires 0 < j < |bs|
  {
    bs[j - 1].free && bs[j].free
  }

  /** No two address-adjacent blocks are both free. */
  predicate NoAdjacentFree(bs: seq<BlockView>) {
    forall j :: 0 < j < |bs| ==> !BothFree(bs, j)
  }

  /** Sum of the block sizes along the chain. */
  function SumSizes(bs: seq<BlockView>): nat {
    if bs == [] then 0 else bs[0].size + SumSizes(bs[1..])
  }

  /** The offset of `b` if it is occupied. */
  function OccupiedOne(b: BlockView): set<nat> {
    if b.free then {} else {b.offset}
  }

  /** The offsets of the occupied blocks. */
  function Occupied(bs: seq<BlockView>): set<nat> {
    if bs == [] then {} else OccupiedOne(bs[0]) + Occupied(bs[1..])
  }

  ghost predicate IsBlockStart(bs: seq<BlockView>, off: nat) {
    exists i :: 0 <= i < |bs| && bs[i].offset == off
  }

  /** The position in the chain of the block starting at `off`. */
  ghost function IndexOf(bs: seq<BlockView>, off: nat): (i: nat)
    requires IsBlockStart(bs, off)
    ensures i < |bs| && bs[i].offset == off
    ensures forall j :: 0 <= j < i ==> bs[j].offset != off
  {
    if bs[0].offset == off then 0
    else
      var k :| 0 <= k < |bs| && bs[k].offset == off;
      assert bs[1..][k - 1].offset == off;
      IndexOf(bs[1..], off) + 1
  }

  // ---------------------------------------------------------------------
  // Facts about a tiling chain

  lemma {:induction false} EndBeforeStart(bs: seq<BlockView>, i: nat, j: nat)
    requires Tiles(bs) && i < j < |bs|
    ensures End(bs[i]) <= bs[j].offset
    decreases j - i
  {
    assert Adjacent(bs, j);
    if i + 1 < j {
      EndBeforeStart(bs, i, j - 1);
    }
  }

  /** Blocks of a tiling chain lie in the arena, in strictly increasing
      address order, so their offsets are pairwise distinct. */
  lemma {:induction false} Ordered(bs: seq<BlockView>)
    requires Tiles(bs)
    ensures forall i, j :: 0 <= i < j < |bs| ==> End(bs[i]) <= bs[j].offset
    ensures forall i :: 0 <= i < |bs| ==> End(bs[i]) <= HEAP_SIZE
  {
    forall i, j | 0 <= i < j < |bs|
      ensures End(bs[i]) <= bs[j].offset
    {
      EndBeforeStart(bs, i, j);
    }
    forall i | 0 <= i < |bs|
      ensures End(bs[i]) <= HEAP_SIZE
    {
      if i < |bs| - 1 {
        EndBeforeStart(bs, i, |bs| - 1);
      }
    }
  }

  /** In a tiling chain each block is found at its own position by its
      offset: no two blocks start at the same offset. */
  lemma {:induction false} IndexOfPosition(bs: seq<BlockView>, i: nat)
    requires Tiles(bs) && i < |bs|
    ensures IsBlockStart(bs, bs[i].offset) && IndexOf(bs, bs[i].offset) == i
  {
    var j := IndexOf(bs, bs[i].offset);
    if j < i {
      EndBeforeStart(bs, j, i);
    }
  }

  lemma {:induction false} SuffixSum(bs: seq<BlockView>, k: nat)
    requires Tiles(bs) && k < |bs|
    ensures SumSizes(bs[k..]) + bs[k].offset == HEAP_SIZE
    decreases |bs| - k
  {
    assert bs[k..][1..] == bs[k + 1..];
    if k + 1 < |bs| {
      assert Adjacent(bs, k + 1);
      SuffixSum(bs, k + 1);
    }
  }

  /** Coverage: the block sizes of a tiling chain add up to the arena. */
  lemma {:induction false} TilesSumToHeapSize(bs: seq<BlockView>)
    requires Tiles(bs)
    ensures SumSizes(bs) == HEAP_SIZE
  {
    SuffixSum(bs, 0);
    assert bs[0..] == bs;
  }

  lemma {:induction false} OccupiedConcat(a: seq<BlockView>, b: seq<BlockView>)
    ensures Occupied(a + b) == Occupied(a) + Occupied(b)
    decreases |a|
  {
    if a != [] {
      assert (a + b)[1..] == a[1..] + b;
      OccupiedConcat(a[1..], b);
    } else {
      assert a + b == b;
    }
  }

  lemma {:induction false} OccupiedMember(bs: seq<BlockView>, off: nat)
    ensures off in Occupied(bs) <==> exists j :: 0 <= j < |bs| && !bs[j].free && bs[j].offset == off
    decreases |bs|
  {
    if bs != [] {
      OccupiedMember(bs[1..], off);
      if off in Occupied(bs[1..]) {
        var j :| 0 <= j < |bs[1..]| && !bs[1..][j].free && bs[1..][j].offset == off;
        assert bs[j + 1] == bs[1..][j];
      }
      if exists j :: 0 <= j < |bs| && !bs[j].free && bs[j].offset == off {
        var j :| 0 <= j < |bs| && !bs[j].free && bs[j].offset == off;
        if j > 0 {
          assert bs[1..][j - 1] == bs[j];
        }
      }
    }
  }

  lemma {:induction false} Occupied3(a: seq<BlockView>, m: seq<BlockView>, c: seq<BlockView>)
    ensures Occupied(a + m + c) == Occupied(a) + Occupied(m) + Occupied(c)
  {
    OccupiedConcat(a + m, c);
    OccupiedConcat(a, m);
  }

  lemma {:induction false} OccupiedPair(x: BlockView, y: BlockView)
    ensures Occupied([x, y]) == OccupiedOne(x) + OccupiedOne(y)
  {
    assert [x, y] == [x] + [y];
    OccupiedConcat([x], [y]);
    OccupiedSingle(x);
    OccupiedSingle(y);
  }

  lemma {:induction false} OccupiedSingle(x: BlockView)
    ensures Occupied([x]) == OccupiedOne(x)
  {
    assert [x][1..] == [];
  }

  /** Cuts `bs` around position `i`, for the set algebra of Occupied. */
  lemma {:induction false} Around(bs: seq<BlockView>, i: nat)
    requires i < |bs|
    ensures bs == bs[..i] + [bs[i]] + bs[i + 1..]
    ensures Occupied(bs) == Occupied(bs[..i]) + OccupiedOne(bs[i]) + Occupied(bs[i + 1..])
  {
    assert bs == bs[..i] + [bs[i]] + bs[i + 1..];
    Occupied3(bs[..i], [bs[i]], bs[i + 1..]);
    OccupiedSingle(bs[i]);
  }

  // ---------------------------------------------------------------------
  // Splitting a block on allocation

  /** Allocation of `total` bytes from block `i`: when the block can hold
      `total` bytes and still leave room for a header, a footer and one
      byte, it is cut into an occupied prefix of `total` bytes and a free
      remainder; otherwise the whole block is taken as it is. */
  function Split(bs: seq<BlockView>, i: nat, total: nat): seq<BlockView>
    requires i < |bs|
  {
    var b := bs[i];
    if b.size >= total + HEADER_SIZE + FOOTER_SIZE + 1 then
      bs[..i] + [BlockView(b.offset, total, false), BlockView(b.offset + total, b.size - total, true)] + bs[i + 1..]
    else
      bs[i := b.(free := false)]
  }

  /** `r` is `bs` with block `i` cut into an occupied prefix of `total`
      bytes and a free remainder: the blocks before are kept and those
      after move up one place. */
  predicate Cut(bs: seq<BlockView>, r: seq<BlockView>, i: nat, total: nat) {
    && i < |bs|
    && total <= bs[i].size
    && |r| == |bs| + 1
    && r[i] == BlockView(bs[i].offset, total, false)
    && r[i + 1] == BlockView(bs[i].offset + total, bs[i].size - total, true)
    && (forall j :: 0 <= j < i ==> r[j] == bs[j])
    && (forall j :: i + 1 < j < |r| ==> r[j] == bs[j - 1])
  }

  /** Where the blocks of a split chain come from. */
  lemma {:induction false} SplitIndex(bs: seq<BlockView>, i: nat, total: nat)
    requires i < |bs| && bs[i].size >= total + HEADER_SIZE + FOOTER_SIZE + 1
    ensures Cut(bs, Split(bs, i, total), i, total)
  {
  }

  /** Splitting keeps the chain a tiling of the arena. */
  lemma {:induction false} SplitTiles(bs: seq<BlockView>, i: nat, total: nat)
    requires Tiles(bs) && i < |bs| && MIN_BLOCK <= total
    ensures Tiles(Split(bs, i, total))
  {
    var b := bs[i];
    var r := Split(bs, i, total);
    if b.size >= total + HEADER_SIZE + FOOTER_SIZE + 1 {
      SplitIndex(bs, i, total);
      forall j | 0 < j < |r|
        ensures Adjacent(r, j)
      {
        if j < i {
          assert r[j] == bs[j] && r[j - 1] == bs[j - 1];
          assert Adjacent(bs, j);
        } else if j == i {
          assert r[j - 1] == bs[j - 1];
          assert Adjacent(bs, j);
        } else if j == i + 2 {
          assert r[j] == bs[i + 1];
          assert Adjacent(bs, i + 1);
        } else if j > i + 2 {
          assert r[j] == bs[j - 1] && r[j - 1] == bs[j - 2];
          assert Adjacent(bs, j - 1);
        }
      }
      forall j | 0 <= j < |r|
        ensures MIN_BLOCK <= r[j].size
      {
        if j < i {
          assert r[j] == bs[j];
        } else if j > i + 1 {
          assert r[j] == bs[j - 1];
        }
      }
      assert r[|r| - 1] == if i + 1 < |bs| then bs[|bs| - 1] else r[i + 1];
    } else {
      forall j | 0 < j < |r|
        ensures Adjacent(r, j)
      {
        assert Adjacent(bs, j);
      }
    }
  }

  /** The block taken by an allocation starts where it did, is occupied and
      holds at least the requested total; every other block keeps its
      place and its state. */
  lemma {:induction false} SplitFrame(bs: seq<BlockView>, i: nat, total: nat)
    requires i < |bs| && total <= bs[i].size
    ensures var r := Split(bs, i, total);
      && (|r| == |bs| || |r| == |bs| + 1)
      && r[i].offset == bs[i].offset && !r[i].free && total <= r[i].size
      && (forall j :: 0 <= j < i ==> r[j] == bs[j])
      && (forall j :: i < j < |bs| ==> r[j + |r| - |bs|] == bs[j])
  {
    var r := Split(bs, i, total);
    if bs[i].size >= total + HEADER_SIZE + FOOTER_SIZE + 1 {
      SplitIndex(bs, i, total);
    } else {
      assert |r| == |bs|;
    }
  }

  /** Allocation adds exactly the taken block's offset to the set of
      occupied blocks. */
  lemma {:induction false} SplitOccupied(bs: seq<BlockView>, i: nat, total: nat)
    requires i < |bs|
    ensures Occupied(Split(bs, i, total)) == Occupied(bs) + {bs[i].offset}
  {
    var b := bs[i];
    var r := Split(bs, i, total);
    Around(bs, i);
    if b.size >= total + HEADER_SIZE + FOOTER_SIZE + 1 {
      var x, y := BlockView(b.offset, total, false), BlockView(b.offset + total, b.size - total, true);
      Occupied3(bs[..i], [x, y], bs[i + 1..]);
      OccupiedPair(x, y);
    } else {
      Around(r, i);
      assert r[..i] == bs[..i] && r[i + 1..] == bs[i + 1..];
    }
  }

  /** Taking a free block out of a chain without adjacent free blocks
      leaves none: the free remainder is followed by what followed the
      block, which was occupied. */
  lemma {:induction false} SplitKeepsNoAdjacentFree(bs: seq<BlockView>, i: nat, total: nat)
    requires i < |bs| && bs[i].free
    ensures NoAdjacentFree(bs) ==> NoAdjacentFree(Split(bs, i, total))
  {
    if !NoAdjacentFree(bs) {
      return;
    }
    var b := bs[i];
    var r := Split(bs, i, total);
    if b.size >= total + HEADER_SIZE + FOOTER_SIZE + 1 {
      forall j | 0 < j < |r|
        ensures !BothFree(r, j)
      {
        if j < i {
          assert r[j] == bs[j] && r[j - 1] == bs[j - 1];
          assert !BothFree(bs, j);
        } else if j == i + 2 {
          assert r[j] == bs[i + 1];
          assert !BothFree(bs, i + 1);
        } else if j > i + 2 {
          assert r[j] == bs[j - 1] && r[j - 1] == bs[j - 2];
          assert !BothFree(bs, j - 1);
        }
      }
    } else {
      forall j | 0 < j < |r|
        ensures !BothFree(r, j)
      {
        assert !BothFree(bs, j);
      }
    }
  }

  // ---------------------------------------------------------------------
  // Coalescing on release

  /** Block `i` absorbs its successor when the successor is free and starts
      exactly where block `i` ends. */
  function MergeNext(bs: seq<BlockView>, i: nat): seq<BlockView>
    requires i < |bs|
  {
    if i + 1 < |bs| && bs[i + 1].free && End(bs[i]) == bs[i + 1].offset then
      bs[..i] + [bs[i].(size := bs[i].size + bs[i + 1].size)] + bs[i + 2..]
    else
      bs
  }

  /** The predecessor of block `i` absorbs it when the predecessor is free
      and ends exactly where block `i` starts. */
  function MergePrev(bs: seq<BlockView>, i: nat): seq<BlockView>
    requires i < |bs|
  {
    if 0 < i && bs[i - 1].free && End(bs[i - 1]) == bs[i].offset then
      bs[..i - 1] + [bs[i - 1].(size := bs[i - 1].size + bs[i].size)] + bs[i + 1..]
    else
      bs
  }

  /** One coalescing pass around block `i`: forward, then backward. */
  function Coalesce(bs: seq<BlockView>, i: nat): seq<BlockView>
    requires i < |bs|
  {
    var fwd := MergeNext(bs, i);
    if i < |fwd| then MergePrev(fwd, i) else fwd
  }

  /** Release of block `i`: mark it free, then coalesce around it. */
  function Release(bs: seq<BlockView>, i: nat): seq<BlockView>
    requires i < |bs|
  {
    Coalesce(bs[i := bs[i].(free := true)], i)
  }

  /** `r` is `bs` with block `i` grown over block `i + 1`: the blocks
      before are kept, block `i + 1` is gone and those after move down one
      place. */
  predicate Absorbed(bs: seq<BlockView>, r: seq<BlockView>, i: nat) {
    && i + 1 < |bs|
    && |r| == |bs| - 1
    && r[i] == bs[i].(size := bs[i].size + bs[i + 1].size)
    && (forall j :: 0 <= j < i ==> r[j] == bs[j])
    && (forall j :: i < j < |r| ==> r[j] == bs[j + 1])
  }

  /** Forward merge with a free successor in a tiling absorbs it. */
  lemma {:induction false} MergeNextIndex(bs: seq<BlockView>, i: nat)
    requires Tiles(bs) && i + 1 < |bs| && bs[i + 1].free
    ensures Absorbed(bs, MergeNext(bs, i), i)
  {
    assert Adjacent(bs, i + 1);
    var r := MergeNext(bs, i);
    assert r == bs[..i] + [bs[i].(size := bs[i].size + bs[i + 1].size)] + bs[i + 2..];
    forall j | i < j < |r|
      ensures r[j] == bs[j + 1]
    {
      assert r[j] == bs[i + 2..][j - i - 1];
    }
  }

  /** Backward merge into a free predecessor in a tiling absorbs the
      block into it. */
  lemma {:induction false} MergePrevIndex(bs: seq<BlockView>, i: nat)
    requires Tiles(bs) && 0 < i < |bs| && bs[i - 1].free
    ensures Absorbed(bs, MergePrev(bs, i), i - 1)
  {
    assert Adjacent(bs, i);
    var r := MergePrev(bs, i);
    assert r == bs[..i - 1] + [bs[i - 1].(size := bs[i - 1].size + bs[i].size)] + bs[i + 1..];
    forall j | i - 1 < j < |r|
      ensures r[j] == bs[j + 1]
    {
      assert r[j] == bs[i + 1..][j - i];
    }
  }

  /** Growing a block over its successor keeps a tiling a tiling. */
  lemma {:induction false} AbsorbedTiles(bs: seq<BlockView>, r: seq<BlockView>, i: nat)
    requires Tiles(bs) && Absorbed(bs, r, i)
    ensures Tiles(r)
  {
    forall j | 0 < j < |r|
      ensures Adjacent(r, j)
    {
      if j < i {
        assert r[j] == bs[j] && r[j - 1] == bs[j - 1];
        assert Adjacent(bs, j);
      } else if j == i {
        assert r[j - 1] == bs[j - 1];
        assert Adjacent(bs, j);
      } else if j == i + 1 {
        assert r[j] == bs[i + 2];
        assert Adjacent(bs, i + 1) && Adjacent(bs, i + 2);
      } else {
        assert r[j] == bs[j + 1] && r[j - 1] == bs[j];
        assert Adjacent(bs, j + 1);
      }
    }
    if i + 2 < |bs| {
      assert r[|r| - 1] == bs[|bs| - 1];
    } else {
      assert Adjacent(bs, i + 1);
    }
    forall j | 0 <= j < |r|
      ensures MIN_BLOCK <= r[j].size
    {
      if j > i {
        assert r[j] == bs[j + 1];
      }
    }
  }

  lemma {:induction false} MergeNextTiles(bs: seq<BlockView>, i: nat)
    requires Tiles(bs) && i < |bs|
    ensures var r := MergeNext(bs, i);
      && Tiles(r) && i < |r|
      && r[i].offset == bs[i].offset && r[i].free == bs[i].free
      && (forall j :: 0 <= j < i ==> r[j] == bs[j])
  {
    if i + 1 < |bs| && bs[i + 1].free {
      MergeNextIndex(bs, i);
      AbsorbedTiles(bs, MergeNext(bs, i), i);
    }
  }

  lemma {:induction false} MergePrevTiles(bs: seq<BlockView>, i: nat)
    requires Tiles(bs) && i < |bs|
    ensures Tiles(MergePrev(bs, i))
  {
    if 0 < i && bs[i - 1].free {
      MergePrevIndex(bs, i);
      AbsorbedTiles(bs, MergePrev(bs, i), i - 1);
    }
  }

  lemma {:induction false} FreeFlagTiles(bs: seq<BlockView>, i: nat)
    requires Tiles(bs) && i < |bs|
    ensures Tiles(bs[i := bs[i].(free := true)])
  {
    var r := bs[i := bs[i].(free := true)];
    forall j | 0 < j < |r|
      ensures Adjacent(r, j)
    {
      assert Adjacent(bs, j);
    }
  }

  /** Release keeps the chain a tiling of the arena. */
  lemma {:induction false} ReleaseTiles(bs: seq<BlockView>, i: nat)
    requires Tiles(bs) && i < |bs|
    ensures Tiles(Release(bs, i))
  {
    var freed := bs[i := bs[i].(free := true)];
    FreeFlagTiles(bs, i);
    MergeNextTiles(freed, i);
    MergePrevTiles(MergeNext(freed, i), i);
  }

  /** Merging never changes which blocks are occupied: the block that
      absorbs keeps its offset and its flag, the one absorbed was free. */
  lemma {:induction false} MergeNextOccupied(bs: seq<BlockView>, i: nat)
    requires i < |bs|
    ensures Occupied(MergeNext(bs, i)) == Occupied(bs)
  {
    var r := MergeNext(bs, i);
    if r != bs {
      var m := bs[i].(size := bs[i].size + bs[i + 1].size);
      assert bs == bs[..i] + [bs[i], bs[i + 1]] + bs[i + 2..];
      Occupied3(bs[..i], [bs[i], bs[i + 1]], bs[i + 2..]);
      OccupiedPair(bs[i], bs[i + 1]);
      Occupied3(bs[..i], [m], bs[i + 2..]);
      OccupiedSingle(m);
    }
  }

  lemma {:induction false} MergePrevOccupied(bs: seq<BlockView>, i: nat)
    requires i < |bs| && bs[i].free
    ensures Occupied(MergePrev(bs, i)) == Occupied(bs)
  {
    var r := MergePrev(bs, i);
    if r != bs {
      var m := bs[i - 1].(size := bs[i - 1].size + bs[i].size);
      assert bs == bs[..i - 1] + [bs[i - 1], bs[i]] + bs[i + 1..];
      Occupied3(bs[..i - 1], [bs[i - 1], bs[i]], bs[i + 1..]);
      OccupiedPair(bs[i - 1], bs[i]);
      Occupied3(bs[..i - 1], [m], bs[i + 1..]);
      OccupiedSingle(m);
    }
  }

  lemma {:induction false} OccupiedAbsent(bs: seq<BlockView>, off: nat)
    requires forall j :: 0 <= j < |bs| ==> bs[j].offset != off
    ensures off !in Occupied(bs)
  {
    OccupiedMember(bs, off);
  }

  /** In a tiling chain, marking block `i` free removes exactly its offset
      from the occupied set (no other block starts at that offset). */
  lemma {:induction false} FreeFlagOccupied(bs: seq<BlockView>, i: nat)
    requires Tiles(bs) && i < |bs|
    ensures Occupied(bs[i := bs[i].(free := true)]) == Occupied(bs) - {bs[i].offset}
  {
    var off := bs[i].offset;
    var freed := bs[i := bs[i].(free := true)];
    var pre, post := bs[..i], bs[i + 1..];
    Around(bs, i);
    Around(freed, i);
    assert freed[..i] == pre && freed[i + 1..] == post;
    forall j | 0 <= j < |pre|
      ensures pre[j].offset != off
    {
      EndBeforeStart(bs, j, i);
    }
    forall j | 0 <= j < |post|
      ensures post[j].offset != off
    {
      EndBeforeStart(bs, i, i + 1 + j);
    }
    OccupiedAbsent(pre, off);
    OccupiedAbsent(post, off);
  }

  /** Releasing a block removes exactly its offset from the set of
      occupied blocks: no other allocation is affected. */
  lemma {:induction false} ReleaseOccupied(bs: seq<BlockView>, i: nat)
    requires Tiles(bs) && i < |bs|
    ensures Occupied(Release(bs, i)) == Occupied(bs) - {bs[i].offset}
  {
    var freed := bs[i := bs[i].(free := true)];
    FreeFlagOccupied(bs, i);
    MergeNextOccupied(freed, i);
    FreeFlagTiles(bs, i);
    MergeNextTiles(freed, i);
    MergePrevOccupied(MergeNext(freed, i), i);
  }

  /** After marking block `i` free and merging forward, the only pair of
      neighbours that may both be free is the one just before `i`, and the
      block after `i` is occupied. */
  lemma {:induction false} MergeNextAfterFree(bs: seq<BlockView>, i: nat)
    requires Tiles(bs) && NoAdjacentFree(bs) && i < |bs|
    ensures var r := MergeNext(bs[i := bs[i].(free := true)], i);
      && i < |r|
      && (forall j :: 0 < j < |r| && j != i ==> !BothFree(r, j))
      && (i + 1 < |r| ==> !r[i + 1].free)
  {
    var freed := bs[i := bs[i].(free := true)];
    var r := MergeNext(freed, i);
    FreeFlagTiles(bs, i);
    MergeNextTiles(freed, i);
    if r != freed {
      forall j | 0 < j < |r| && j != i
        ensures !BothFree(r, j)
      {
        if j < i {
          assert r[j] == bs[j] && r[j - 1] == bs[j - 1];
          assert !BothFree(bs, j);
        } else if j == i + 1 {
          assert r[j] == bs[i + 2];
          assert !BothFree(bs, i + 2);
        } else {
          assert r[j] == bs[j + 1] && r[j - 1] == bs[j];
          assert !BothFree(bs, j + 1);
        }
      }
      if i + 1 < |r| {
        assert r[i + 1] == bs[i + 2];
        assert !BothFree(bs, i + 2);
      }
    } else {
      if i + 1 < |bs| {
        assert Adjacent(bs, i + 1);
      }
      forall j | 0 < j < |r| && j != i
        ensures !BothFree(r, j)
      {
        if j != i + 1 {
          assert !BothFree(bs, j);
        }
      }
    }
  }

  /** The no-two-free-neighbours invariant is kept by release: the one
      coalescing pass absorbs a free successor and a free predecessor. */
  lemma {:induction false} ReleaseKeepsNoAdjacentFree(bs: seq<BlockView>, i: nat)
    requires Tiles(bs) && NoAdjacentFree(bs) && i < |bs|
    ensures NoAdjacentFree(Release(bs, i))
  {
    var freed := bs[i := bs[i].(free := true)];
    var fwd := MergeNext(freed, i);
    MergeNextAfterFree(bs, i);
    FreeFlagTiles(bs, i);
    MergeNextTiles(freed, i);
    var r := MergePrev(fwd, i);
    if r != fwd {
      forall j | 0 < j < |r|
        ensures !BothFree(r, j)
      {
        if j < i - 1 {
          assert r[j] == fwd[j] && r[j - 1] == fwd[j - 1];
          assert !BothFree(fwd, j);
        } else if j == i - 1 {
          assert r[j - 1] == fwd[i - 2];
          assert !BothFree(fwd, i - 1);
        } else if j == i {
          assert r[j] == fwd[i + 1];
        } else {
          assert r[j] == fwd[j + 1] && r[j - 1] == fwd[j];
          assert !BothFree(fwd, j + 1);
        }
      }
    } else {
      forall j | 0 < j < |r|
        ensures !BothFree(r, j)
      {
        if j == i {
          assert Adjacent(fwd, i);
        }
      }
    }
  }

  /** The block an allocation takes is found again from its offset, at the
      same position, occupied: the address handed out, less the header
      size, designates it for release. */
  lemma {:induction false} SplitBlockFound(bs: seq<BlockView>, i: nat, total: nat)
    requires Tiles(bs) && i < |bs| && MIN_BLOCK <= total && total <= bs[i].size
    ensures var r := Split(bs, i, total);
      IsBlockStart(r, bs[i].offset) && IndexOf(r, bs[i].offset) == i && !r[i].free
  {
    SplitTiles(bs, i, total);
    SplitFrame(bs, i, total);
    IndexOfPosition(Split(bs, i, total), i);
  }

  /** Releasing a block right after it was allocated restores the chain:
      the free remainder is merged back, and in a chain without adjacent
      free blocks the neighbours of a free block are occupied, so nothing
      else merges. */
  lemma {:induction false} ReleaseUndoesSplit(bs: seq<BlockView>, i: nat, total: nat)
    requires Tiles(bs) && NoAdjacentFree(bs) && i < |bs| && bs[i].free
    ensures Release(Split(bs, i, total), i) == bs
  {
    var b := bs[i];
    var r := Split(bs, i, total);
    if 0 < i {
      assert !BothFree(bs, i);
    }
    if b.size >= total + HEADER_SIZE + FOOTER_SIZE + 1 {
      SplitIndex(bs, i, total);
      var freed := r[i := r[i].(free := true)];
      assert freed[i + 1] == BlockView(b.offset + total, b.size - total, true);
      var fwd := MergeNext(freed, i);
      assert fwd == freed[..i] + [b] + freed[i + 2..];
      assert fwd == bs;
    } else {
      assert r[i := r[i].(free := true)] == bs;
      if i + 1 < |bs| {
        assert !BothFree(bs, i + 1);
      }
    }
  }

  /** A tiling chain with no occupied block and no two free neighbours is
      a single free block covering the whole arena. */
  lemma {:induction false} AllFreeIsWholeArena(bs: seq<BlockView>)
    requires Tiles(bs) && NoAdjacentFree(bs) && Occupied(bs) == {}
    ensures bs == [BlockView(0, HEAP_SIZE, true)]
  {
    if 1 < |bs| {
      var first, second := bs[0].offset, bs[1].offset;
      assert !BothFree(bs, 1);
      OccupiedMember(bs, first);
      OccupiedMember(bs, second);
      assert false;
    }
    OccupiedMember(bs, bs[0].offset);
  }

  /** Releases, one after another, the blocks starting at `offs`; an offset
      that is not the start of an occupied block leaves the chain as it is,
      as the double-release check does. */
  ghost function ReleaseAll(bs: seq<BlockView>, offs: seq<nat>): seq<BlockView>
    decreases |offs|
  {
    if offs == [] then bs
    else if IsBlockStart(bs, offs[0]) && !bs[IndexOf(bs, offs[0])].free then
      ReleaseAll(Release(bs, IndexOf(bs, offs[0])), offs[1..])
    else
      ReleaseAll(bs, offs[1..])
  }

  /** Full reclamation: releasing, in any order, a list of offsets that
      includes every occupied block (repeats and already free blocks
      allowed) returns the chain to one free block spanning the arena. */
  lemma {:induction false} ReleaseAllReclaimsArena(bs: seq<BlockView>, offs: seq<nat>)
    requires Tiles(bs) && NoAdjacentFree(bs)
    requires Occupied(bs) <= set o | o in offs
    ensures ReleaseAll(bs, offs) == [BlockView(0, HEAP_SIZE, true)]
    decreases |offs|
  {
    if offs == [] {
      AllFreeIsWholeArena(bs);
    } else {
      var o := offs[0];
      assert forall p :: p in offs && p != o ==> p in offs[1..];
      if IsBlockStart(bs, o) && !bs[IndexOf(bs, o)].free {
        var i := IndexOf(bs, o);
        ReleaseTiles(bs, i);
        ReleaseKeepsNoAdjacentFree(bs, i);
        ReleaseOccupied(bs, i);
        ReleaseAllReclaimsArena(Release(bs, i), offs[1..]);
      } else {
        OccupiedMember(bs, o);
        if o in Occupied(bs) {
          var j :| 0 <= j < |bs| && !bs[j].free && bs[j].offset == o;
          Ordered(bs);
          assert false;
        }
        ReleaseAllReclaimsArena(bs, offs[1..]);
      }
    }
  }
}
