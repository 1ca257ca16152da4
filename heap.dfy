/** The allocator over its fixed arena. The arena is an array indexed by
    byte offset; at the offset where a block starts it holds that block's
    header (total size, free flag, offset of the next block). Headers left
    behind by coalescing stay in the array as whole records; the bytes of
    a later header or footer that overlap them in C are not modelled. The
    chain the headers describe is kept as a ghost sequence of blocks, and
    the footers written by the allocator as a ghost map from offset to the
    value written there (the allocator never reads them back). */
module HeapManagement {
  import opened Chain
  import opened Fit

  /** Largest value of a C `int`: the initial "smallest remainder seen". */
  const INT_MAX: nat := 0x7fff_ffff

  /** A block header as stored in the arena. */
  datatype Header = Header(size: nat, free: bool, next: Option<nat>)

  /** The header block `i` of the chain has in a consistent arena. */
  function HeaderOf(bs: seq<BlockView>, i: nat): Header
    requires i < |bs|
  {
    Header(bs[i].size, bs[i].free, if i + 1 < |bs| then Some(bs[i + 1].offset) else None)
  }

  /** Where a block's footer lies: the last size word of the block. */
  function FooterAt(b: BlockView): int {
    End(b) - FOOTER_SIZE
  }

  /** The header at `b`'s offset records its size and flag, and its footer
      repeats its size. */
  ghost predicate Describes(mem: seq<Header>, foot: map<int, nat>, b: BlockView) {
    && End(b) <= |mem|
    && b.offset < |mem|
    && mem[b.offset].size == b.size
    && mem[b.offset].free == b.free
    && FooterAt(b) in foot
    && foot[FooterAt(b)] == b.size
  }

  /** Every block of `bs` is described by its header and footer. */
  ghost predicate Described(mem: seq<Header>, foot: map<int, nat>, bs: seq<BlockView>) {
    forall i :: 0 <= i < |bs| ==> Describes(mem, foot, bs[i])
  }

  /** The header of block `j - 1` links to block `j`. */
  ghost predicate LinkAt(mem: seq<Header>, bs: seq<BlockView>, j: nat)
    requires 0 < j < |bs|
  {
    bs[j - 1].offset < |mem| && mem[bs[j - 1].offset].next == Some(bs[j].offset)
  }

  /** Each header of `bs` links to the next block of `bs`, and the last
      one to nothing. */
  ghost predicate Linked(mem: seq<Header>, bs: seq<BlockView>) {
    && (forall j :: 0 < j < |bs| ==> LinkAt(mem, bs, j))
    && (0 < |bs| ==> bs[|bs| - 1].offset < |mem| && mem[bs[|bs| - 1].offset].next == None)
  }

  /** The arena `mem` and the footers `foot` describe the chain `bs`: each
      block's header lies at its offset and links to the next block (none
      for the last), and each block's footer repeats its size. */
  ghost predicate Stores(mem: seq<Header>, foot: map<int, nat>, bs: seq<BlockView>) {
    |mem| == HEAP_SIZE && Described(mem, foot, bs) && Linked(mem, bs)
  }

  /** What a search reads at a block's offset is that block's header. */
  lemma {:induction false} HeaderAt(mem: seq<Header>, foot: map<int, nat>, bs: seq<BlockView>, k: nat)
    requires Stores(mem, foot, bs) && k < |bs|
    ensures bs[k].offset < |mem| && mem[bs[k].offset] == HeaderOf(bs, k)
  {
    assert Describes(mem, foot, bs[k]);
    if k + 1 < |bs| {
      assert LinkAt(mem, bs, k + 1);
    }
  }

  /** Block `k`'s header, at its offset, gives its size, its flag and the
      offset of block `k + 1`, and the block lies in the arena. */
  ghost predicate ChainHeader(mem: seq<Header>, bs: seq<BlockView>, k: nat)
    requires k < |bs|
  {
    MIN_BLOCK <= bs[k].size && End(bs[k]) <= |mem| && mem[bs[k].offset] == HeaderOf(bs, k)
  }

  /** What a walk along the headers from offset 0 needs: the chain `bs`
      starts at offset 0 and every block of it has its header in `mem`. */
  ghost predicate Walkable(mem: seq<Header>, bs: seq<BlockView>) {
    && |mem| == HEAP_SIZE && 0 < |bs| && bs[0].offset == 0
    && forall k :: 0 <= k < |bs| ==> ChainHeader(mem, bs, k)
  }

  /** An arena that describes a tiling chain can be walked along it. */
  lemma {:induction false} StoresWalkable(mem: seq<Header>, foot: map<int, nat>, bs: seq<BlockView>)
    requires Tiles(bs) && Stores(mem, foot, bs)
    ensures Walkable(mem, bs)
  {
    forall k | 0 <= k < |bs|
      ensures ChainHeader(mem, bs, k)
    {
      HeaderAt(mem, foot, bs, k);
      assert Describes(mem, foot, bs[k]);
    }
  }

  // ---------------------------------------------------------------------
  // How each write to the arena keeps it describing the chain

  lemma {:induction false} StoresInit(mem: seq<Header>, foot: map<int, nat>)
    requires |mem| == HEAP_SIZE
    ensures Stores(mem[0 := Header(HEAP_SIZE, true, None)], foot[HEAP_SIZE - FOOTER_SIZE := HEAP_SIZE],
                   [BlockView(0, HEAP_SIZE, true)])
  {
    var mem' := mem[0 := Header(HEAP_SIZE, true, None)];
    var foot' := foot[HEAP_SIZE - FOOTER_SIZE := HEAP_SIZE];
    assert Describes(mem', foot', BlockView(0, HEAP_SIZE, true));
  }

  /** Marking a block free or occupied rewrites only its own header. */
  lemma {:induction false} StoresFlag(mem: seq<Header>, foot: map<int, nat>, bs: seq<BlockView>, i: nat, free: bool,
                                       mem': seq<Header>)
    requires Tiles(bs) && Stores(mem, foot, bs) && i < |bs|
    requires bs[i].offset < |mem| && mem' == mem[bs[i].offset := mem[bs[i].offset].(free := free)]
    ensures Stores(mem', foot, bs[i := bs[i].(free := free)])
  {
    var r := bs[i := bs[i].(free := free)];
    assert Describes(mem, foot, bs[i]);
    forall j | 0 <= j < |r|
      ensures Describes(mem', foot, r[j])
    {
      assert Describes(mem, foot, bs[j]);
      if j < i {
        EndBeforeStart(bs, j, i);
      } else if i < j {
        EndBeforeStart(bs, i, j);
      }
    }
    forall c | 0 < c < |r|
      ensures LinkAt(mem', r, c)
    {
      assert LinkAt(mem, bs, c);
    }
    assert Describes(mem, foot, bs[|bs| - 1]);
  }

  /** Writing a header and a footer elsewhere leaves a block described. */
  lemma {:induction false} KeptDescribed(mem: seq<Header>, foot: map<int, nat>, b: BlockView, o: nat, h: Header, k: int, v: nat)
    requires Describes(mem, foot, b) && o < |mem| && o != b.offset && k != FooterAt(b)
    ensures Describes(mem[o := h], foot[k := v], b)
  {
  }

  /** The headers and footers written when block `i` is cut describe the
      blocks of the cut chain. */
  lemma {:induction false} CutDescribed(mem: seq<Header>, foot: map<int, nat>, bs: seq<BlockView>, r: seq<BlockView>, i: nat, total: nat)
    requires Tiles(bs) && |mem| == HEAP_SIZE && Described(mem, foot, bs) && Cut(bs, r, i, total) && 0 < total < bs[i].size
    ensures var nb := bs[i].offset + total;
      Described(mem[nb := Header(bs[i].size - total, true, HeaderOf(bs, i).next)][bs[i].offset := Header(total, false, Some(nb))],
                foot[nb - FOOTER_SIZE := total][End(bs[i]) - FOOTER_SIZE := bs[i].size - total],
                r)
  {
    var b := bs[i];
    var nb := b.offset + total;
    var rest := Header(b.size - total, true, HeaderOf(bs, i).next);
    var mem1 := mem[nb := rest];
    var foot1 := foot[nb - FOOTER_SIZE := total];
    var mem' := mem1[b.offset := Header(total, false, Some(nb))];
    var foot' := foot1[End(b) - FOOTER_SIZE := b.size - total];
    assert Describes(mem, foot, b);
    assert Describes(mem', foot', r[i]);
    assert Describes(mem', foot', r[i + 1]);
    forall j | 0 <= j < |r| && j != i && j != i + 1
      ensures Describes(mem', foot', r[j])
    {
      var k := if j < i then j else j - 1;
      assert r[j] == bs[k];
      assert Describes(mem, foot, bs[k]);
      if j < i {
        EndBeforeStart(bs, j, i);
      } else {
        EndBeforeStart(bs, i, k);
      }
      KeptDescribed(mem, foot, bs[k], nb, rest, nb - FOOTER_SIZE, total);
      KeptDescribed(mem1, foot1, bs[k], b.offset, Header(total, false, Some(nb)), End(b) - FOOTER_SIZE, b.size - total);
    }
  }

  /** The links written when block `i` is cut chain the cut chain. */
  lemma {:induction false} CutLinked(mem: seq<Header>, bs: seq<BlockView>, r: seq<BlockView>, i: nat, total: nat)
    requires Tiles(bs) && Linked(mem, bs) && Cut(bs, r, i, total) && 0 < total < bs[i].size && End(bs[i]) <= |mem|
    ensures var nb := bs[i].offset + total;
      Linked(mem[nb := Header(bs[i].size - total, true, HeaderOf(bs, i).next)][bs[i].offset := Header(total, false, Some(nb))], r)
  {
    var b := bs[i];
    var nb := b.offset + total;
    var mem' := mem[nb := Header(b.size - total, true, HeaderOf(bs, i).next)][b.offset := Header(total, false, Some(nb))];
    forall c | 0 < c < |r|
      ensures LinkAt(mem', r, c)
    {
      var a := c - 1;
      if a == i + 1 {
        assert r[c] == bs[i + 1];
      } else if a != i {
        var k := if a < i then a else a - 1;
        assert r[a] == bs[k] && r[c].offset == bs[k + 1].offset;
        assert LinkAt(mem, bs, k + 1);
        if k < i {
          EndBeforeStart(bs, k, i);
        } else {
          EndBeforeStart(bs, i, k);
        }
      }
    }
    if i + 1 < |bs| {
      assert r[|r| - 1] == bs[|bs| - 1];
      EndBeforeStart(bs, i, |bs| - 1);
    }
  }

  /** The two headers and two footers written when a block is cut in two
      describe the split chain. */
  lemma {:induction false} StoresSplit(mem: seq<Header>, foot: map<int, nat>, bs: seq<BlockView>, i: nat, total: nat,
                                        b: nat, h: Header, mem': seq<Header>, foot': map<int, nat>)
    requires Tiles(bs) && Stores(mem, foot, bs) && i < |bs| && MIN_BLOCK <= total
    requires b == bs[i].offset && h == HeaderOf(bs, i) && h.size >= total + HEADER_SIZE + FOOTER_SIZE + 1
    requires mem' == mem[b + total := Header(h.size - total, true, h.next)][b := Header(total, false, Some(b + total))]
    requires foot' == foot[b + total - FOOTER_SIZE := total][b + h.size - FOOTER_SIZE := h.size - total]
    ensures Stores(mem', foot', Split(bs, i, total))
  {
    SplitIndex(bs, i, total);
    CutDescribed(mem, foot, bs, Split(bs, i, total), i, total);
    assert Describes(mem, foot, bs[i]);
    CutLinked(mem, bs, Split(bs, i, total), i, total);
  }

  /** Growing block `i` over block `i + 1` rewrites block `i`'s header and
      writes the footer at the new end; they describe the blocks of the
      shorter chain. */
  lemma {:induction false} AbsorbDescribed(mem: seq<Header>, foot: map<int, nat>, bs: seq<BlockView>, r: seq<BlockView>, i: nat)
    requires Tiles(bs) && |mem| == HEAP_SIZE && Described(mem, foot, bs) && Absorbed(bs, r, i)
    ensures var m := bs[i].size + bs[i + 1].size;
      Described(mem[bs[i].offset := Header(m, bs[i].free, HeaderOf(bs, i + 1).next)],
                foot[bs[i].offset + m - FOOTER_SIZE := m],
                r)
  {
    var m := bs[i].size + bs[i + 1].size;
    var grown := Header(m, bs[i].free, HeaderOf(bs, i + 1).next);
    var mem' := mem[bs[i].offset := grown];
    var foot' := foot[bs[i].offset + m - FOOTER_SIZE := m];
    assert Adjacent(bs, i + 1);
    assert Describes(mem, foot, bs[i + 1]);
    forall j | 0 <= j < |r|
      ensures Describes(mem', foot', r[j])
    {
      if j != i {
        var k := if j < i then j else j + 1;
        assert r[j] == bs[k];
        assert Describes(mem, foot, bs[k]);
        if j < i {
          EndBeforeStart(bs, j, i);
        } else {
          EndBeforeStart(bs, i + 1, k);
        }
        KeptDescribed(mem, foot, bs[k], bs[i].offset, grown, bs[i].offset + m - FOOTER_SIZE, m);
      }
    }
  }

  /** The link block `i` takes over from the block it absorbs chains the
      shorter chain. */
  lemma {:induction false} AbsorbLinked(mem: seq<Header>, bs: seq<BlockView>, r: seq<BlockView>, i: nat)
    requires Tiles(bs) && Linked(mem, bs) && Absorbed(bs, r, i) && bs[i].offset < |mem|
    ensures Linked(mem[bs[i].offset := Header(bs[i].size + bs[i + 1].size, bs[i].free, HeaderOf(bs, i + 1).next)], r)
  {
    var mem' := mem[bs[i].offset := Header(bs[i].size + bs[i + 1].size, bs[i].free, HeaderOf(bs, i + 1).next)];
    forall c | 0 < c < |r|
      ensures LinkAt(mem', r, c)
    {
      var a := c - 1;
      if a == i {
        assert r[c] == bs[i + 2];
      } else {
        var k := if a < i then a else a + 1;
        assert r[a] == bs[k] && r[c].offset == bs[k + 1].offset;
        assert LinkAt(mem, bs, k + 1);
        if k < i {
          EndBeforeStart(bs, k, i);
        } else {
          EndBeforeStart(bs, i, k);
        }
      }
    }
    if i + 2 < |bs| {
      assert r[|r| - 1] == bs[|bs| - 1];
      EndBeforeStart(bs, i, |bs| - 1);
    }
  }

  /** The header and footer rewritten when the block `b` with header `h`
      absorbs its free successor, whose header is `nh`, describe the
      merged chain. */
  lemma {:induction false} StoresMergeNext(mem: seq<Header>, foot: map<int, nat>, bs: seq<BlockView>, i: nat,
                                            b: nat, h: Header, nh: Header, mem': seq<Header>, foot': map<int, nat>)
    requires Tiles(bs) && Stores(mem, foot, bs) && i + 1 < |bs|
    requires b == bs[i].offset && h == HeaderOf(bs, i) && nh == HeaderOf(bs, i + 1) && nh.free
    requires mem' == mem[b := Header(h.size + nh.size, h.free, nh.next)]
    requires foot' == foot[b + (h.size + nh.size) - FOOTER_SIZE := h.size + nh.size]
    ensures Stores(mem', foot', MergeNext(bs, i))
  {
    MergeNextIndex(bs, i);
    AbsorbDescribed(mem, foot, bs, MergeNext(bs, i), i);
    assert Describes(mem, foot, bs[i]);
    AbsorbLinked(mem, bs, MergeNext(bs, i), i);
  }

  /** The header and footer rewritten when the free block `p` with header
      `ph` absorbs its successor, whose header is `bh`, describe the merged
      chain. */
  lemma {:induction false} StoresMergePrev(mem: seq<Header>, foot: map<int, nat>, bs: seq<BlockView>, i: nat,
                                            p: nat, ph: Header, bh: Header, mem': seq<Header>, foot': map<int, nat>)
    requires Tiles(bs) && Stores(mem, foot, bs) && 0 < i < |bs|
    requires p == bs[i - 1].offset && ph == HeaderOf(bs, i - 1) && ph.free && bh == HeaderOf(bs, i)
    requires mem' == mem[p := Header(ph.size + bh.size, ph.free, bh.next)]
    requires foot' == foot[p + (ph.size + bh.size) - FOOTER_SIZE := ph.size + bh.size]
    ensures Stores(mem', foot', MergePrev(bs, i))
  {
    MergePrevIndex(bs, i);
    AbsorbDescribed(mem, foot, bs, MergePrev(bs, i), i - 1);
    assert Describes(mem, foot, bs[i - 1]);
    AbsorbLinked(mem, bs, MergePrev(bs, i), i - 1);
  }

  /** `ptr` designates the chain position `pos` (both absent, or `ptr` is
      the offset of block `pos`). */
  ghost predicate Locates(bs: seq<BlockView>, ptr: Option<nat>, pos: Option<nat>) {
    && (ptr.None? <==> pos.None?)
    && (pos.Some? ==> pos.value < |bs| && ptr == Some(bs[pos.value].offset))
  }

  class Heap {
    /** The arena, one header slot per byte offset. */
    const arena: array<Header>
    /** Start of the chain; none until the arena is initialised. */
    var head: Option<nat>
    /** The placement policy used by allocation. */
    var strategy: Strategy
    /** The footers written so far, by offset. */
    ghost var footers: map<int, nat>
    /** The chain the headers describe, in address order. */
    ghost var blocks: seq<BlockView>

    /** The arena has been initialised, the chain starts at offset 0 and
        tiles the arena, and headers and footers describe it. */
    ghost predicate Valid()
      reads this, arena
    {
      && head == Some(0)
      && Tiles(blocks)
      && Stores(arena[..], footers, blocks)
    }

    /** The state at program start: a zeroed arena, no chain yet, first fit. */
    constructor ()
      ensures fresh(arena) && arena.Length == HEAP_SIZE && head == None && strategy == FirstFit
    {
      arena := new Header[HEAP_SIZE](_ => Header(0, false, None));
      head := None;
      strategy := FirstFit;
      footers := map[];
      blocks := [];
    }

    /** Writes the footer of the block whose header is at `b`. */
    ghost method SetFooter(b: nat)
      requires b < arena.Length
      modifies this`footers
      ensures footers == old(footers)[b + arena[b].size - FOOTER_SIZE := arena[b].size]
    {
      footers := footers[b + arena[b].size - FOOTER_SIZE := arena[b].size];
    }

    /** Installs one free block covering the whole arena. */
    method InitHeap()
      requires arena.Length == HEAP_SIZE
      modifies this, arena
      ensures Valid() && strategy == old(strategy)
      ensures blocks == [BlockView(0, HEAP_SIZE, true)]
    {
      StoresInit(arena[..], footers);
      head := Some(0);
      arena[0] := Header(HEAP_SIZE, true, None);
      SetFooter(0);
      blocks := [BlockView(0, HEAP_SIZE, true)];
    }

    /** Selects the placement policy for later allocations. */
    method ChangeStrategy(s: Strategy)
      modifies this`strategy
      ensures strategy == s
    {
      strategy := s;
    }

    /** The search for a block that can hold `total` bytes under policy `s`:
        one pass along the chain, reading headers only. It returns the
        offset of the block the policy chooses, or none. */
    method FindFreeBlock(total: nat, s: Strategy) returns (r: Option<nat>)
      requires head == Some(0) && Walkable(arena[..], blocks)
      ensures Locates(blocks, r, Select(blocks, total, s))
    {
      var curr := head.value;
      var best: Option<nat> := None;
      var worst: Option<nat> := None;
      var minRemainder: nat := INT_MAX;
      var maxSize: nat := 0;
      ghost var k: nat := 0;
      ghost var mem := arena[..];
      ghost var bi: Option<nat> := None;
      ghost var wi: Option<nat> := None;
      while true
        invariant k < |blocks| && curr == blocks[k].offset
        invariant s == FirstFit ==> SelectFirst(blocks, k, total).None?
        invariant s == BestFit ==> bi == SelectBest(blocks, k, total) && Locates(blocks, best, bi)
        invariant s == BestFit && bi.Some? ==> minRemainder == blocks[bi.value].size - total
        invariant s == WorstFit ==> wi == SelectWorst(blocks, k, total) && Locates(blocks, worst, wi)
        invariant s == WorstFit ==> maxSize == if wi.Some? then blocks[wi.value].size else 0
        invariant s == WorstFit && worst.Some? ==> worst.value < |mem| && mem[worst.value].size == maxSize
        decreases |blocks| - k
      {
        assert ChainHeader(mem, blocks, k);
        var h := arena[curr];
        assert h == mem[curr];
        if h.free && h.size >= total {
          if s == FirstFit {
            SelectFirstKeeps(blocks, k + 1, |blocks|, total);
            return Some(curr);
          } else if s == BestFit {
            if best.None? {
              minRemainder := INT_MAX;
            }
            var remainder := h.size - total;
            if remainder < minRemainder {
              minRemainder := remainder;
              best := Some(curr);
              bi := Some(k);
            }
          } else if s == WorstFit {
            if h.size > maxSize {
              maxSize := h.size;
              worst := Some(curr);
              wi := Some(k);
            }
          }
        }
        assert s == BestFit ==> bi == SelectBest(blocks, k + 1, total);
        assert s == WorstFit ==> wi == SelectWorst(blocks, k + 1, total);
        assert s == FirstFit ==> SelectFirst(blocks, k + 1, total).None?;
        if h.next.None? {
          break;
        }
        curr := h.next.value;
        k := k + 1;
      }
      assert k + 1 == |blocks|;
      assert s == BestFit ==> Select(blocks, total, s) == bi;
      assert s == WorstFit ==> Select(blocks, total, s) == wi;
      if s == BestFit {
        return best;
      } else if s == WorstFit {
        if worst.Some? && arena[worst.value].size >= total {
          return worst;
        } else {
          return None;
        }
      }
      return None;
    }

    /** The block before `block` in the chain, found by walking from the
        head: none for the first block; for an offset that starts no block
        the walk runs off the end and returns the last block. */
    method GetPrevBlock(block: nat) returns (prev: Option<nat>)
      requires head == Some(0) && Walkable(arena[..], blocks)
      ensures IsBlockStart(blocks, block) ==>
        var i := IndexOf(blocks, block);
        prev == if i == 0 then None else Some(blocks[i - 1].offset)
      ensures !IsBlockStart(blocks, block) ==> prev == Some(blocks[|blocks| - 1].offset)
    {
      var curr := head;
      prev := None;
      ghost var k: nat := 0;
      while curr.Some? && curr.value != block
        invariant k <= |blocks|
        invariant curr == if k < |blocks| then Some(blocks[k].offset) else None
        invariant prev == if k == 0 then None else Some(blocks[k - 1].offset)
        invariant forall j :: 0 <= j < k ==> blocks[j].offset != block
        decreases |blocks| - k
      {
        assert ChainHeader(arena[..], blocks, k);
        prev := curr;
        curr := arena[curr.value].next;
        k := k + 1;
      }
    }

    /** Cuts the block at `b` for an allocation of `total` bytes, or takes
        it whole when the remainder could not hold a block. */
    method SplitBlock(b: nat, total: nat)
      requires Valid() && IsBlockStart(blocks, b) && MIN_BLOCK <= total
      modifies this, arena
      ensures Valid() && strategy == old(strategy)
      ensures blocks == Split(old(blocks), IndexOf(old(blocks), b), total)
    {
      ghost var i := IndexOf(blocks, b);
      ghost var bs := blocks;
      ghost var mem := arena[..];
      HeaderAt(mem, footers, bs, i);
      assert Describes(mem, footers, bs[i]);
      var h := arena[b];
      if h.size >= total + HEADER_SIZE + FOOTER_SIZE + 1 {
        SplitTiles(bs, i, total);
        var newBlock := b + total;
        arena[newBlock] := Header(h.size - total, true, h.next);
        arena[b] := Header(total, false, Some(newBlock));
        ghost var foot := footers;
        SetFooter(b);
        SetFooter(newBlock);
        StoresSplit(mem, foot, bs, i, total, b, h, arena[..], footers);
        blocks := Split(bs, i, total);
      } else {
        SplitTiles(bs, i, total);
        arena[b] := h.(free := false);
        StoresFlag(mem, footers, bs, i, false, arena[..]);
        blocks := Split(bs, i, total);
      }
    }

    /** The forward half of coalescing: the block at `b` absorbs its
        successor when that is free and starts where the block ends. */
    method MergeWithNext(b: nat)
      requires Valid() && IsBlockStart(blocks, b)
      modifies this, arena
      ensures Valid() && strategy == old(strategy)
      ensures blocks == MergeNext(old(blocks), IndexOf(old(blocks), b))
      ensures b < arena.Length && arena[b].free == old(arena[b].free)
    {
      ghost var i := IndexOf(blocks, b);
      ghost var bs := blocks;
      ghost var mem := arena[..];
      ghost var foot := footers;
      HeaderAt(mem, foot, bs, i);
      MergeNextTiles(bs, i);
      var h := arena[b];
      if h.next.Some? {
        HeaderAt(mem, foot, bs, i + 1);
        var nh := arena[h.next.value];
        if nh.free && b + h.size == h.next.value {
          arena[b] := h.(size := h.size + nh.size, next := nh.next);
          SetFooter(b);
          StoresMergeNext(mem, foot, bs, i, b, h, nh, arena[..], footers);
          blocks := MergeNext(bs, i);
        }
      }
    }

    /** The backward half of coalescing: `prev`, the block before the one
        at `b` (none for the first block), absorbs it when it is free and
        ends where the block starts. */
    method MergeWithPrev(prev: Option<nat>, b: nat)
      requires Valid() && IsBlockStart(blocks, b)
      requires prev == (var i := IndexOf(blocks, b); if i == 0 then None else Some(blocks[i - 1].offset))
      modifies this, arena
      ensures Valid() && strategy == old(strategy)
      ensures blocks == MergePrev(old(blocks), IndexOf(old(blocks), b))
      ensures b < arena.Length && arena[b].free == old(arena[b].free)
    {
      ghost var i := IndexOf(blocks, b);
      ghost var bs := blocks;
      ghost var mem := arena[..];
      ghost var foot := footers;
      MergePrevTiles(bs, i);
      if prev.Some? {
        HeaderAt(mem, foot, bs, i - 1);
        HeaderAt(mem, foot, bs, i);
        var ph := arena[prev.value];
        if ph.free && prev.value + ph.size == b {
          var bh := arena[b];
          arena[prev.value] := ph.(size := ph.size + bh.size, next := bh.next);
          SetFooter(prev.value);
          StoresMergePrev(mem, foot, bs, i, prev.value, ph, bh, arena[..], footers);
          blocks := MergePrev(bs, i);
        }
      }
    }

    /** Coalescing around the block at `block`: forward with its successor,
        then backward with the block the walk from the head finds before
        it. A missing block is ignored. */
    method MergeBlock(block: Option<nat>)
      requires Valid() && (block.Some? ==> IsBlockStart(blocks, block.value))
      modifies this, arena
      ensures Valid() && strategy == old(strategy)
      ensures block.None? ==> blocks == old(blocks)
      ensures block.Some? ==> blocks == Coalesce(old(blocks), IndexOf(old(blocks), block.value))
      ensures block.Some? ==> block.value < arena.Length && arena[block.value].free == old(arena[block.value].free)
    {
      if block.None? {
        return;
      }
      var b := block.value;
      ghost var i := IndexOf(blocks, b);
      ghost var bs := blocks;
      MergeWithNext(b);
      MergeNextTiles(bs, i);
      IndexOfPosition(blocks, i);
      StoresWalkable(arena[..], footers, blocks);
      var prev := GetPrevBlock(b);
      MergeWithPrev(prev, b);
    }

    /** Release of the allocation whose payload starts at `ptr`: a missing
        pointer and a header that already reads free are ignored (the
        latter also covers the header of a block absorbed since its
        release, whose flag no merge rewrites);
        otherwise the block is marked free and coalesced with its
        neighbours. Either way the header at `ptr - HEADER_SIZE` reads
        free afterwards. */
    method FreeBlock(ptr: Option<nat>)
      requires Valid()
      requires ptr.Some? ==>
        && HEADER_SIZE <= ptr.value && ptr.value - HEADER_SIZE < arena.Length
        && (IsBlockStart(blocks, ptr.value - HEADER_SIZE) || arena[ptr.value - HEADER_SIZE].free)
      modifies this, arena
      ensures Valid() && strategy == old(strategy)
      ensures ptr.None? ==> blocks == old(blocks)
      ensures ptr.Some? ==> arena[ptr.value - HEADER_SIZE].free
      ensures ptr.Some? && !IsBlockStart(old(blocks), ptr.value - HEADER_SIZE) ==> blocks == old(blocks)
      ensures ptr.Some? && IsBlockStart(old(blocks), ptr.value - HEADER_SIZE) ==>
        var i := IndexOf(old(blocks), ptr.value - HEADER_SIZE);
        blocks == if old(blocks)[i].free then old(blocks) else Release(old(blocks), i)
    {
      if ptr.None? {
        return;
      }
      var b := ptr.value - HEADER_SIZE;
      ghost var bs := blocks;
      var h := arena[b];
      if h.free {
        if IsBlockStart(bs, b) {
          HeaderAt(arena[..], footers, bs, IndexOf(bs, b));
        }
        return;
      }
      ghost var i := IndexOf(bs, b);
      HeaderAt(arena[..], footers, bs, i);
      ghost var mem := arena[..];
      arena[b] := h.(free := true);
      StoresFlag(mem, footers, bs, i, true, arena[..]);
      FreeFlagTiles(bs, i);
      blocks := bs[i := bs[i].(free := true)];
      IndexOfPosition(blocks, i);
      MergeBlock(Some(b));
    }

    /** Allocation of `size` payload bytes: fails on zero or when the
        active policy finds no block; otherwise takes the chosen block
        (split if worth it) and returns the address just past its header. */
    method AllocateBlock(size: nat) returns (p: Option<nat>)
      requires Valid()
      modifies this, arena
      ensures Valid() && strategy == old(strategy)
      ensures p.None? <==> size == 0 || Select(old(blocks), HEADER_SIZE + size + FOOTER_SIZE, strategy).None?
      ensures p.None? ==> blocks == old(blocks)
      ensures p.Some? ==>
        var i := Select(old(blocks), HEADER_SIZE + size + FOOTER_SIZE, strategy).value;
        && p.value == old(blocks)[i].offset + HEADER_SIZE
        && blocks == Split(old(blocks), i, HEADER_SIZE + size + FOOTER_SIZE)
    {
      if size == 0 {
        return None;
      }
      var total := HEADER_SIZE + size + FOOTER_SIZE;
      StoresWalkable(arena[..], footers, blocks);
      var block := FindFreeBlock(total, strategy);
      if block.None? {
        return None;
      }
      IndexOfPosition(blocks, Select(blocks, total, strategy).value);
      SplitBlock(block.value, total);
      return Some(block.value + HEADER_SIZE);
    }
  }
}
