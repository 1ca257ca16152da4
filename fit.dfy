/** The placement policies of the allocator. Each one is a scan of the
    chain in address order that keeps a candidate; `n` counts the blocks
    scanned so far, and the candidate after `n + 1` blocks is computed from
    the candidate after `n` and block `n`, exactly as the search loop
    computes it one block at a time. Results are positions in the chain.
    What each policy chooses is stated by the lemma beside it. */
module Fit {
  import opened Chain

  datatype Strategy = FirstFit | BestFit | WorstFit

  /** A block can serve a request of `total` bytes (header, payload and
      footer) when it is free and at least that large. */
  predicate Fits(b: BlockView, total: nat) {
    b.free && b.size >= total
  }

  /** First fit over the first `n` blocks. */
  function SelectFirst(bs: seq<BlockView>, n: nat, total: nat): (r: Option<nat>)
    requires n <= |bs|
    ensures r.Some? ==> r.value < n && Fits(bs[r.value], total)
  {
    if n == 0 then None
    else
      var prev := SelectFirst(bs, n - 1, total);
      if prev.Some? then prev
      else if Fits(bs[n - 1], total) then Some(n - 1)
      else None
  }

  /** Best fit over the first `n` blocks; a later block replaces the
      candidate only on a strictly smaller remainder. */
  function SelectBest(bs: seq<BlockView>, n: nat, total: nat): (r: Option<nat>)
    requires n <= |bs|
    ensures r.Some? ==> r.value < n && Fits(bs[r.value], total)
  {
    if n == 0 then None
    else
      var prev := SelectBest(bs, n - 1, total);
      var last := bs[n - 1];
      if Fits(last, total) && (prev.None? || last.size - total < bs[prev.value].size - total)
      then Some(n - 1)
      else prev
  }

  /** Worst fit over the first `n` blocks; a later block replaces the
      candidate only when strictly larger. */
  function SelectWorst(bs: seq<BlockView>, n: nat, total: nat): (r: Option<nat>)
    requires n <= |bs|
    ensures r.Some? ==> r.value < n && Fits(bs[r.value], total)
  {
    if n == 0 then None
    else
      var prev := SelectWorst(bs, n - 1, total);
      var last := bs[n - 1];
      if Fits(last, total) && (prev.None? || last.size > bs[prev.value].size)
      then Some(n - 1)
      else prev
  }

  /** The block the policy `s` chooses in the whole chain, if any. */
  function Select(bs: seq<BlockView>, total: nat, s: Strategy): (r: Option<nat>)
    ensures r.Some? ==> r.value < |bs| && Fits(bs[r.value], total)
  {
    match s
    case FirstFit => SelectFirst(bs, |bs|, total)
    case BestFit => SelectBest(bs, |bs|, total)
    case WorstFit => SelectWorst(bs, |bs|, total)
  }

  /** The largest free block among the first `n`, whether or not it can
      serve any request. */
  function LargestFree(bs: seq<BlockView>, n: nat): (r: Option<nat>)
    requires n <= |bs|
    ensures r.Some? ==> r.value < n
  {
    if n == 0 then None
    else
      var prev := LargestFree(bs, n - 1);
      var last := bs[n - 1];
      if last.free && (prev.None? || last.size > bs[prev.value].size)
      then Some(n - 1)
      else prev
  }

  /** First fit chooses the lowest-address block that can serve the
      request, and fails only when none can. */
  lemma {:induction false} SelectFirstSpec(bs: seq<BlockView>, n: nat, total: nat)
    requires n <= |bs|
    ensures var r := SelectFirst(bs, n, total);
      && (r.Some? ==> r.value < n && Fits(bs[r.value], total))
      && (r.Some? ==> forall j :: 0 <= j < r.value ==> !Fits(bs[j], total))
      && (r.None? <==> forall j :: 0 <= j < n ==> !Fits(bs[j], total))
  {
    if n > 0 {
      SelectFirstSpec(bs, n - 1, total);
    }
  }

  /** Once first fit has found a block, scanning further blocks keeps it:
      the search may stop at the first block that fits. */
  lemma {:induction false} SelectFirstKeeps(bs: seq<BlockView>, n: nat, m: nat, total: nat)
    requires n <= m <= |bs| && SelectFirst(bs, n, total).Some?
    ensures SelectFirst(bs, m, total) == SelectFirst(bs, n, total)
    decreases m - n
  {
    if n < m {
      SelectFirstKeeps(bs, n, m - 1, total);
    }
  }

  /** Best fit chooses a block that can serve the request and leaves the
      smallest remainder `size - total`; of several such, the earliest. It
      fails only when no block can serve the request. */
  lemma {:induction false} SelectBestSpec(bs: seq<BlockView>, n: nat, total: nat)
    requires n <= |bs|
    ensures var r := SelectBest(bs, n, total);
      && (r.Some? ==> r.value < n && Fits(bs[r.value], total))
      && (r.Some? ==> forall j :: 0 <= j < n && Fits(bs[j], total) ==>
            bs[r.value].size - total <= bs[j].size - total)
      && (r.Some? ==> forall j :: 0 <= j < r.value && Fits(bs[j], total) ==>
            bs[r.value].size - total < bs[j].size - total)
      && (r.None? <==> forall j :: 0 <= j < n ==> !Fits(bs[j], total))
  {
    if n > 0 {
      SelectBestSpec(bs, n - 1, total);
    }
  }

  /** Worst fit chooses the largest block that can serve the request; of
      several such, the earliest. It fails only when no block can serve
      the request. */
  lemma {:induction false} SelectWorstSpec(bs: seq<BlockView>, n: nat, total: nat)
    requires n <= |bs|
    ensures var r := SelectWorst(bs, n, total);
      && (r.Some? ==> r.value < n && Fits(bs[r.value], total))
      && (r.Some? ==> forall j :: 0 <= j < n && Fits(bs[j], total) ==> bs[j].size <= bs[r.value].size)
      && (r.Some? ==> forall j :: 0 <= j < r.value && Fits(bs[j], total) ==> bs[j].size < bs[r.value].size)
      && (r.None? <==> forall j :: 0 <= j < n ==> !Fits(bs[j], total))
  {
    if n > 0 {
      SelectWorstSpec(bs, n - 1, total);
    }
  }

  /** Whatever the policy, the chosen block can serve the request, and the
      search fails exactly when no block of the chain can. */
  lemma {:induction false} SelectSpec(bs: seq<BlockView>, total: nat, s: Strategy)
    ensures var r := Select(bs, total, s);
      && (r.Some? ==> r.value < |bs| && Fits(bs[r.value], total))
      && (r.None? <==> forall j :: 0 <= j < |bs| ==> !Fits(bs[j], total))
  {
    match s
    case FirstFit => SelectFirstSpec(bs, |bs|, total);
    case BestFit => SelectBestSpec(bs, |bs|, total);
    case WorstFit => SelectWorstSpec(bs, |bs|, total);
  }

  /** The largest free block: no free block is larger, no earlier free
      block is as large, and there is none only when no block is free. */
  lemma {:induction false} LargestFreeSpec(bs: seq<BlockView>, n: nat)
    requires n <= |bs|
    ensures var r := LargestFree(bs, n);
      && (r.Some? ==> r.value < n && bs[r.value].free)
      && (r.Some? ==> forall j :: 0 <= j < n && bs[j].free ==> bs[j].size <= bs[r.value].size)
      && (r.Some? ==> forall j :: 0 <= j < r.value && bs[j].free ==> bs[j].size < bs[r.value].size)
      && (r.None? <==> forall j :: 0 <= j < n ==> !bs[j].free)
  {
    if n > 0 {
      LargestFreeSpec(bs, n - 1);
    }
  }

  /** Worst fit over fitting blocks is the same policy as "take the largest
      free block, and fail when it is too small": a smaller free block can
      never serve a request the largest one cannot, so worst fit never
      fails while some free block is large enough. */
  lemma {:induction false} WorstFitIsLargestFree(bs: seq<BlockView>, n: nat, total: nat)
    requires n <= |bs|
    ensures SelectWorst(bs, n, total) ==
      (var g := LargestFree(bs, n); if g.Some? && bs[g.value].size >= total then g else None)
  {
    if n > 0 {
      WorstFitIsLargestFree(bs, n - 1, total);
      SelectWorstSpec(bs, n - 1, total);
      LargestFreeSpec(bs, n - 1);
    }
  }
}
