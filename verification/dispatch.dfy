/** Static dispatch of the sixteen chunks to worker threads, shared by
    `archive` and `decompress_file`: every thread gets the same number of
    consecutive chunk indices, handed out by an index that starts at 0 and
    advances by that number per thread. Results land in per-index slots, so
    the order in which the threads finish does not matter. */
module Dispatch {
  import opened Base

  /** The thread counts that share the chunks out evenly: the divisors of
      the chunk count. */
  predicate ValidThreadCount(w: int)
  {
    1 <= w <= NumChunks && NumChunks % w == 0
  }

  /** The thread counts `main` accepts, 1, 2, 4, 8 and 16, are exactly the
      ones that share the chunks out evenly; any other is rejected before
      any work starts. */
  lemma ValidThreadCountValues(w: int)
    ensures ValidThreadCount(w) <==> w == 1 || w == 2 || w == 4 || w == 8 || w == 16
  {
    if 1 <= w <= NumChunks {
      assert w == 1 || w == 2 || w == 3 || w == 4 || w == 5 || w == 6 || w == 7 || w == 8
          || w == 9 || w == 10 || w == 11 || w == 12 || w == 13 || w == 14 || w == 15 || w == 16;
    }
  }

  /** The half-open range of chunk indices [lo, hi) one thread processes. */
  datatype Range = Range(lo: int, hi: int)
  {
    predicate Contains(j: int)
    {
      lo <= j < hi
    }
  }

  /** `chunks_per_thread = num_chunks / count_threads`. */
  function PerThread(w: int): nat
    requires w >= 1
  {
    NumChunks / w
  }

  /** The dispatch loop from the thread with index `index` onwards: `count`
      more threads, each taking `per` indices and advancing the index. */
  function RangesFrom(per: nat, count: nat, index: nat): (rs: seq<Range>)
    ensures |rs| == count
    ensures forall k :: 0 <= k < count ==>
              rs[k] == Range(index + Offset(per, k), index + Offset(per, k) + per)
  {
    if count == 0 then []
    else
      var rest := RangesFrom(per, count - 1, index + per);
      assert forall k :: 1 <= k < count ==> Offset(per, k) == per + Offset(per, k - 1) by {
        forall k | 1 <= k < count ensures Offset(per, k) == per + Offset(per, k - 1) {
        }
      }
      [Range(index, index + per)] + rest
  }

  /** The ranges of the `w` threads. The source divides by `w` without a
      check of its own, so it must be at least 1. */
  function Ranges(w: int): (rs: seq<Range>)
    requires w >= 1
    ensures |rs| == w
    ensures forall k :: 0 <= k < w ==> rs[k].lo == Offset(PerThread(w), k) && rs[k].hi == Offset(PerThread(w), k + 1)
  {
    RangesFrom(PerThread(w), w, 0)
  }

  /** With an accepted thread count the ranges are non-empty, start at 0,
      follow each other without gap or overlap, and end at the chunk count. */
  lemma RangesPartition(w: int)
    requires ValidThreadCount(w)
    ensures Ranges(w)[0].lo == 0
    ensures Ranges(w)[w - 1].hi == NumChunks
    ensures forall k :: 0 <= k < w - 1 ==> Ranges(w)[k].hi == Ranges(w)[k + 1].lo
    ensures forall k :: 0 <= k < w ==> Ranges(w)[k].lo < Ranges(w)[k].hi
  {
    LastOffsetCovers(w);
  }

  /** `w` threads of `16 / w` chunks each end exactly at chunk 16 if and only
      if `w` is an accepted thread count: any other count leaves chunks that
      no thread processes. */
  lemma CoversIffValid(w: int)
    requires w >= 1
    ensures Ranges(w)[w - 1].hi == NumChunks <==> ValidThreadCount(w)
  {
    var per := PerThread(w);
    assert Ranges(w)[w - 1].hi == Offset(per, w);
    OffsetIsProduct(per, w);
    if w > NumChunks {
      assert per == 0;
    } else {
      DivisionLeaves(w);
    }
  }

  /** Sixteen chunks over `w` threads leave exactly `16 % w` chunks over. */
  lemma DivisionLeaves(w: int)
    requires 1 <= w <= NumChunks
    ensures w * PerThread(w) == NumChunks - NumChunks % w
  {
  }

  lemma LastOffsetCovers(w: int)
    requires ValidThreadCount(w)
    ensures Offset(PerThread(w), w) == NumChunks
  {
    OffsetIsProduct(PerThread(w), w);
  }

  /** The thread that processes chunk j: j / (16 / w). */
  function Owner(w: int, j: int): int
    requires ValidThreadCount(w)
  {
    j / PerThread(w)
  }

  /** Every chunk index 0..15 lies in the range of its owner... */
  lemma OwnerContains(w: int, j: int)
    requires ValidThreadCount(w) && 0 <= j < NumChunks
    ensures 0 <= Owner(w, j) < w && Ranges(w)[Owner(w, j)].Contains(j)
  {
    var per := PerThread(w);
    LastOffsetCovers(w);
    BlockWithin(per, w, j);
    BlockOf(per, j, 0);
  }

  /** ... and in the range of no other thread. */
  lemma OwnerUnique(w: int, j: int, k: int)
    requires ValidThreadCount(w) && 0 <= j < NumChunks
    requires 0 <= k < w && Ranges(w)[k].Contains(j)
    ensures k == Owner(w, j)
  {
    BlockOf(PerThread(w), j, k);
  }

  /** An index below the end of `count` blocks lies in one of them. */
  lemma BlockWithin(step: nat, count: nat, j: nat)
    requires step >= 1 && j < Offset(step, count)
    ensures j / step < count
  {
    BlockOf(step, j, 0);
    if j / step >= count {
      OffsetMonotone(step, count, j / step);
    }
  }

  /** Index j lies in block j / step of a row of blocks of size `step`, and
      in no other. */
  lemma BlockOf(step: nat, j: nat, k: int)
    requires step >= 1
    ensures Offset(step, j / step) <= j < Offset(step, j / step + 1)
    ensures 0 <= k && Offset(step, k) <= j < Offset(step, k + 1) ==> k == j / step
  {
    var o := j / step;
    BlockStart(step, j);
    if 0 <= k && Offset(step, k) <= j < Offset(step, k + 1) {
      if k < o {
        OffsetMonotone(step, k + 1, o);
      } else if o < k {
        OffsetMonotone(step, o + 1, k);
      }
    }
  }

  /** Index j lies in block j / step, by the division j = (j / step) * step
      + j % step. */
  lemma BlockStart(step: nat, j: nat)
    requires step >= 1
    ensures Offset(step, j / step) <= j < Offset(step, j / step + 1)
  {
    var o := j / step;
    OffsetIsProduct(step, o);
    OffsetIsProduct(step, o + 1);
    assert j == o * step + j % step;
    assert (o + 1) * step == o * step + step;
  }

  /** The indices of one range in increasing order: what the thread works
      through, one after the other. */
  function Indices(r: Range): (js: seq<int>)
    requires r.lo <= r.hi
    ensures |js| == r.hi - r.lo
    ensures forall i :: 0 <= i < |js| ==> js[i] == r.lo + i
  {
    seq(r.hi - r.lo, i => r.lo + i)
  }

  /** The chunk indices of the first `k` threads, thread by thread. */
  function JobsUpTo(w: int, k: nat): seq<int>
    requires w >= 1 && k <= w
  {
    if k == 0 then [] else JobsUpTo(w, k - 1) + Indices(Ranges(w)[k - 1])
  }

  /** The chunk indices of all threads, thread by thread. */
  function Jobs(w: int): seq<int>
    requires w >= 1
  {
    JobsUpTo(w, w)
  }

  /** The first `k` threads together process chunks 0 .. Offset(per, k) - 1,
      each once and in increasing order. */
  lemma {:induction false} JobsUpToPrefix(w: int, k: nat)
    requires w >= 1 && k <= w
    ensures JobsUpTo(w, k) == Iota(Offset(PerThread(w), k))
  {
    if k > 0 {
      JobsUpToPrefix(w, k - 1);
      var r := Ranges(w)[k - 1];
      assert r.lo == Offset(PerThread(w), k - 1) && r.hi == Offset(PerThread(w), k);
      IotaAppend(r.lo, r.hi, Indices(r));
    }
  }

  /** The indices 0 .. a-1 followed by a .. b-1 are the indices 0 .. b-1. */
  lemma IotaAppend(a: nat, b: nat, more: seq<int>)
    requires a <= b && |more| == b - a
    requires forall i :: 0 <= i < |more| ==> more[i] == a + i
    ensures Iota(a) + more == Iota(b)
  {
    forall i | 0 <= i < b ensures (Iota(a) + more)[i] == i {
      if i >= a {
        assert (Iota(a) + more)[i] == more[i - a];
      }
    }
  }

  /** With an accepted thread count the threads together process every chunk
      index exactly once. */
  lemma JobsCover(w: int)
    requires ValidThreadCount(w)
    ensures Jobs(w) == Iota(NumChunks)
  {
    JobsUpToPrefix(w, w);
    LastOffsetCovers(w);
  }

  /** The slots after the workers wrote their results in the order `order`
      (the order in which chunks finished, across all threads): chunk j
      writes `writes[j]` into slot j, unless it has nothing to write. */
  function Fill<T>(init: seq<T>, writes: seq<Option<T>>, order: seq<int>): (slots: seq<T>)
    requires |writes| == |init|
    requires forall i :: 0 <= i < |order| ==> 0 <= order[i] < |init|
    ensures |slots| == |init|
  {
    if |order| == 0 then init
    else
      var before := Fill(init, writes, order[..|order| - 1]);
      var j := order[|order| - 1];
      match writes[j]
      case None => before
      case Some(v) => before[j := v]
  }

  /** Slot j holds what chunk j wrote if it ran and wrote something, and its
      initial value otherwise: no chunk writes another chunk's slot. */
  lemma {:induction false} FillSlot<T>(init: seq<T>, writes: seq<Option<T>>, order: seq<int>, j: int)
    requires |writes| == |init| && 0 <= j < |init|
    requires forall i :: 0 <= i < |order| ==> 0 <= order[i] < |init|
    ensures Fill(init, writes, order)[j] == if j in order && writes[j].Some? then writes[j].value else init[j]
  {
    if |order| > 0 {
      var rest := order[..|order| - 1];
      FillSlot(init, writes, rest, j);
      assert order == rest + [order[|order| - 1]];
      assert j in order <==> j in rest || j == order[|order| - 1];
    }
  }

  /** Whatever order the chunks finish in, once every chunk has run the slots
      are the same: each holds its chunk's result, or its initial value if
      the chunk wrote nothing. */
  lemma FillAnyOrder<T>(init: seq<T>, writes: seq<Option<T>>, order: seq<int>)
    requires |writes| == |init|
    requires forall i :: 0 <= i < |order| ==> 0 <= order[i] < |init|
    requires forall j :: 0 <= j < |init| ==> j in order
    ensures forall j :: 0 <= j < |init| ==>
              Fill(init, writes, order)[j] == if writes[j].Some? then writes[j].value else init[j]
  {
    forall j | 0 <= j < |init|
      ensures Fill(init, writes, order)[j] == if writes[j].Some? then writes[j].value else init[j]
    {
      FillSlot(init, writes, order, j);
    }
  }

  /** A completion order of the dispatch: any order that runs each of the
      threads' jobs once. This includes every interleaving of the threads'
      job lists, and other orders too. */
  ghost predicate CompletionOrder(w: int, order: seq<int>)
  {
    w >= 1 && multiset(order) == multiset(Jobs(w))
  }

  /** Under an accepted thread count, a completion order runs every chunk and
      only chunk indices. */
  lemma CompletionOrderCovers(w: int, order: seq<int>)
    requires ValidThreadCount(w) && CompletionOrder(w, order)
    ensures forall i :: 0 <= i < |order| ==> 0 <= order[i] < NumChunks
    ensures forall j :: 0 <= j < NumChunks ==> j in order
  {
    JobsCover(w);
    forall i | 0 <= i < |order| ensures 0 <= order[i] < NumChunks {
      assert order[i] in multiset(Iota(NumChunks));
    }
    forall j | 0 <= j < NumChunks ensures j in order {
      assert Iota(NumChunks)[j] == j;
      assert j in multiset(Iota(NumChunks));
    }
  }

  /** Filling the sixteen slots in a completion order of an accepted thread
      count gives every slot its chunk's result, whatever the order. */
  lemma FillCompletion<T>(w: int, order: seq<int>, init: seq<T>, writes: seq<Option<T>>)
    requires ValidThreadCount(w) && CompletionOrder(w, order)
    requires |init| == NumChunks && |writes| == NumChunks
    ensures forall i :: 0 <= i < |order| ==> 0 <= order[i] < |init|
    ensures forall j :: 0 <= j < NumChunks ==>
              Fill(init, writes, order)[j] == if writes[j].Some? then writes[j].value else init[j]
  {
    CompletionOrderCovers(w, order);
    FillAnyOrder(init, writes, order);
  }
}
