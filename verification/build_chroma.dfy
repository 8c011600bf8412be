/**
 * The indexing loop of `scripts/build_chroma.py`: limit the chunk stream, cut it into
 * batches, drop the chunks already in the collection, and send each non-empty remainder to
 * be embedded and added, counting what was indexed and what was skipped.
 */
module BuildChroma {

  import opened Wrappers
  import opened ChromaIndex

  // ----------------------------------------------------------------- batches

  /** `chunked(iterable, size)` with `batch` already collected: an item is appended, and the
      batch is yielded once it holds at least `size` items; a final partial batch is yielded. */
  function ChunkedFrom<T>(xs: seq<T>, size: int, batch: seq<T>): seq<seq<T>>
    decreases |xs|
  {
    if |xs| == 0 then (if |batch| == 0 then [] else [batch])
    else
      var b := batch + [xs[0]];
      if |b| >= size then [b] + ChunkedFrom(xs[1..], size, [])
      else ChunkedFrom(xs[1..], size, b)
  }

  function Chunked<T>(xs: seq<T>, size: int): seq<seq<T>>
  {
    ChunkedFrom(xs, size, [])
  }

  function Flatten<T>(bs: seq<seq<T>>): seq<T>
  {
    if |bs| == 0 then [] else bs[0] + Flatten(bs[1..])
  }

  lemma {:induction false} FlattenAppend<T>(xs: seq<seq<T>>, ys: seq<seq<T>>)
    ensures Flatten(xs + ys) == Flatten(xs) + Flatten(ys)
  {
    if |xs| == 0 {
      assert xs + ys == ys;
    } else {
      assert (xs + ys)[1..] == xs[1..] + ys;
      FlattenAppend(xs[1..], ys);
    }
  }

  /** The batches, put back together, are the pending batch followed by the input. */
  lemma {:induction false} ChunkedFromFlatten<T>(xs: seq<T>, size: int, batch: seq<T>)
    ensures Flatten(ChunkedFrom(xs, size, batch)) == batch + xs
    decreases |xs|
  {
    if |xs| == 0 {
      assert batch + xs == batch;
      if |batch| != 0 {
        assert Flatten([batch]) == batch + Flatten([]);
      }
    } else {
      var b := batch + [xs[0]];
      ChunkedFromFlatten(xs[1..], size, if |b| >= size then [] else b);
      assert batch + xs == b + xs[1..];
      if |b| >= size {
        assert ([b] + ChunkedFrom(xs[1..], size, []))[1..] == ChunkedFrom(xs[1..], size, []);
      }
    }
  }

  /** Concatenating the batches reproduces the input exactly. */
  lemma ChunkedFlatten<T>(xs: seq<T>, size: int)
    ensures Flatten(Chunked(xs, size)) == xs
  {
    ChunkedFromFlatten(xs, size, []);
  }

  predicate NoEmptyBatch<T>(bs: seq<seq<T>>)
  {
    forall i :: 0 <= i < |bs| ==> |bs[i]| > 0
  }

  /** Every batch holds between 1 and `size` items, and all but the last exactly `size`. */
  predicate WellCut<T>(bs: seq<seq<T>>, size: int)
  {
    && NoEmptyBatch(bs)
    && (forall i :: 0 <= i < |bs| ==> |bs[i]| <= size)
    && (forall i :: 0 <= i < |bs| - 1 ==> |bs[i]| == size)
  }

  /** No batch is ever empty. */
  lemma {:induction false} ChunkedFromNoEmpty<T>(xs: seq<T>, size: int, batch: seq<T>)
    ensures NoEmptyBatch(ChunkedFrom(xs, size, batch))
    decreases |xs|
  {
    if |xs| > 0 {
      var b := batch + [xs[0]];
      ChunkedFromNoEmpty(xs[1..], size, if |b| >= size then [] else b);
      if |b| >= size {
        var r := [b] + ChunkedFrom(xs[1..], size, []);
        assert forall i :: 1 <= i < |r| ==> r[i] == ChunkedFrom(xs[1..], size, [])[i - 1];
      }
    }
  }

  /** With a pending batch shorter than `size >= 1`, every batch is cut at `size`. */
  lemma {:induction false} ChunkedFromWellCut<T>(xs: seq<T>, size: int, batch: seq<T>)
    requires size >= 1 && |batch| < size
    ensures WellCut(ChunkedFrom(xs, size, batch), size)
    decreases |xs|
  {
    ChunkedFromNoEmpty(xs, size, batch);
    if |xs| > 0 {
      var b := batch + [xs[0]];
      ChunkedFromWellCut(xs[1..], size, if |b| >= size then [] else b);
      if |b| >= size {
        var rest := ChunkedFrom(xs[1..], size, []);
        var r := [b] + rest;
        assert forall i :: 1 <= i < |r| ==> r[i] == rest[i - 1];
      }
    }
  }

  /** For `size >= 1` every batch but the last holds exactly `size` items and the last at most
      `size`; for `size <= 1` every batch holds exactly one item. */
  lemma ChunkedSizes<T>(xs: seq<T>, size: int)
    ensures size >= 1 ==> WellCut(Chunked(xs, size), size)
    ensures size <= 1 ==> forall i :: 0 <= i < |Chunked(xs, size)| ==> |Chunked(xs, size)[i]| == 1
  {
    ChunkedFromNoEmpty(xs, size, []);
    if size >= 1 {
      ChunkedFromWellCut(xs, size, []);
    } else {
      ChunkedFromWellCut(xs, 1, []);
      ChunkedSmallSize(xs, size);
    }
  }

  /** Any size up to 1 cuts like size 1. */
  lemma {:induction false} ChunkedSmallSize<T>(xs: seq<T>, size: int)
    requires size <= 1
    ensures ChunkedFrom(xs, size, []) == ChunkedFrom(xs, 1, [])
    decreases |xs|
  {
    if |xs| > 0 {
      assert [] + [xs[0]] == [xs[0]];
      ChunkedSmallSize(xs[1..], size);
    }
  }

  // ------------------------------------------------------------ limit, skip

  /** `if args.limit:` keep the chunks whose position is below the limit; no limit or a zero
      limit keeps everything, and a negative limit keeps nothing. */
  function LimitChunks<T>(xs: seq<T>, limit: Option<int>): (r: seq<T>)
    ensures |r| <= |xs| && r == xs[..|r|]
    ensures limit.None? || limit == Some(0) ==> r == xs
    ensures limit.Some? && limit.value < 0 ==> r == []
    ensures limit.Some? && limit.value > 0 ==> |r| == (if limit.value < |xs| then limit.value else |xs|)
  {
    if limit.Some? && limit.value != 0 then
      (if limit.value <= 0 then [] else if limit.value < |xs| then xs[..limit.value] else xs)
    else xs
  }

  /** The ids already in the collection are consulted only with skip-existing on and reset off. */
  function ExistingIds(skipExisting: bool, reset: bool, stored: set<string>): (r: set<string>)
    ensures r == {} || (skipExisting && !reset)
    ensures skipExisting && !reset ==> r == stored
  {
    if skipExisting && !reset then stored else {}
  }

  /** `args.skip_existing and chunk_id in existing_ids` */
  predicate IsSkipped(t: Triple, skipExisting: bool, existing: set<string>)
  {
    skipExisting && t.id.Some? && t.id.value in existing
  }

  /** The chunks of a batch that are sent, in order. */
  function Kept(batch: seq<Triple>, skipExisting: bool, existing: set<string>): seq<Triple>
  {
    if |batch| == 0 then []
    else
      (if IsSkipped(batch[0], skipExisting, existing) then [] else [batch[0]])
        + Kept(batch[1..], skipExisting, existing)
  }

  /** The number of chunks of a batch counted as skipped. */
  function SkipCount(batch: seq<Triple>, skipExisting: bool, existing: set<string>): nat
  {
    if |batch| == 0 then 0
    else
      (if IsSkipped(batch[0], skipExisting, existing) then 1 else 0)
        + SkipCount(batch[1..], skipExisting, existing)
  }

  /** Every chunk of a batch is either sent or counted as skipped, and with skipping off the
      whole batch is sent. */
  lemma {:induction false} KeptCount(batch: seq<Triple>, skipExisting: bool, existing: set<string>)
    ensures |Kept(batch, skipExisting, existing)| + SkipCount(batch, skipExisting, existing) == |batch|
    ensures !skipExisting ==> Kept(batch, skipExisting, existing) == batch
  {
    if |batch| > 0 {
      KeptCount(batch[1..], skipExisting, existing);
      assert batch == [batch[0]] + batch[1..];
    }
  }

  /** A sent chunk comes from the batch and is never one to skip. */
  lemma {:induction false} KeptSound(batch: seq<Triple>, skipExisting: bool, existing: set<string>)
    ensures forall j :: 0 <= j < |Kept(batch, skipExisting, existing)| ==>
      && !IsSkipped(Kept(batch, skipExisting, existing)[j], skipExisting, existing)
      && Kept(batch, skipExisting, existing)[j] in batch
  {
    if |batch| > 0 {
      KeptSound(batch[1..], skipExisting, existing);
      var head := if IsSkipped(batch[0], skipExisting, existing) then [] else [batch[0]];
      var rest := Kept(batch[1..], skipExisting, existing);
      var r := head + rest;
      assert Kept(batch, skipExisting, existing) == r;
      assert forall j :: |head| <= j < |r| ==> r[j] == rest[j - |head|];
      assert forall t :: t in batch[1..] ==> t in batch;
    }
  }

  /** A chunk not to skip is always sent. */
  lemma {:induction false} KeptComplete(batch: seq<Triple>, skipExisting: bool, existing: set<string>)
    ensures forall j :: 0 <= j < |batch| && !IsSkipped(batch[j], skipExisting, existing) ==>
      batch[j] in Kept(batch, skipExisting, existing)
  {
    if |batch| > 0 {
      KeptComplete(batch[1..], skipExisting, existing);
      var head := if IsSkipped(batch[0], skipExisting, existing) then [] else [batch[0]];
      var rest := Kept(batch[1..], skipExisting, existing);
      assert Kept(batch, skipExisting, existing) == head + rest;
      assert forall j :: 1 <= j < |batch| ==> batch[j] == batch[1..][j - 1];
    }
  }

  /** Every chunk of a batch is either sent or counted as skipped; a sent chunk comes from the
      batch and is never one to skip, and one not to skip is always sent. */
  lemma {:induction false} KeptFacts(batch: seq<Triple>, skipExisting: bool, existing: set<string>)
    ensures |Kept(batch, skipExisting, existing)| + SkipCount(batch, skipExisting, existing) == |batch|
    ensures forall j :: 0 <= j < |Kept(batch, skipExisting, existing)| ==>
      && !IsSkipped(Kept(batch, skipExisting, existing)[j], skipExisting, existing)
      && Kept(batch, skipExisting, existing)[j] in batch
    ensures forall j :: 0 <= j < |batch| && !IsSkipped(batch[j], skipExisting, existing) ==>
      batch[j] in Kept(batch, skipExisting, existing)
    ensures !skipExisting ==> Kept(batch, skipExisting, existing) == batch
  {
    KeptCount(batch, skipExisting, existing);
    KeptSound(batch, skipExisting, existing);
    KeptComplete(batch, skipExisting, existing);
  }

  lemma {:induction false} KeptAppend(xs: seq<Triple>, ys: seq<Triple>, skipExisting: bool, existing: set<string>)
    ensures Kept(xs + ys, skipExisting, existing) == Kept(xs, skipExisting, existing) + Kept(ys, skipExisting, existing)
  {
    if |xs| == 0 {
      assert xs + ys == ys;
    } else {
      assert (xs + ys)[0] == xs[0];
      assert (xs + ys)[1..] == xs[1..] + ys;
      KeptAppend(xs[1..], ys, skipExisting, existing);
    }
  }

  // -------------------------------------------------------------------- loop

  /** What the loop did: the triples of each embed-and-add call, and the two counters. */
  datatype IndexRun = IndexRun(calls: seq<seq<Triple>>, indexed: nat, skipped: nat)

  /** The `for batch in chunked(...)` loop over the given batches. */
  function RunBatches(batches: seq<seq<Triple>>, skipExisting: bool, existing: set<string>): IndexRun
  {
    if |batches| == 0 then IndexRun([], 0, 0)
    else
      var kept := Kept(batches[0], skipExisting, existing);
      var skipped := SkipCount(batches[0], skipExisting, existing);
      var rest := RunBatches(batches[1..], skipExisting, existing);
      if |kept| == 0 then IndexRun(rest.calls, rest.indexed, skipped + rest.skipped)
      else IndexRun([kept] + rest.calls, |kept| + rest.indexed, skipped + rest.skipped)
  }

  /** The loop sends exactly the chunks not to skip, in order, never in an empty call; it counts
      every chunk as indexed or skipped, and the indexed count is the number sent. */
  lemma {:induction false} RunBatchesFacts(batches: seq<seq<Triple>>, skipExisting: bool, existing: set<string>)
    ensures var run := RunBatches(batches, skipExisting, existing);
      && Flatten(run.calls) == Kept(Flatten(batches), skipExisting, existing)
      && NoEmptyBatch(run.calls)
      && run.indexed == |Flatten(run.calls)|
      && run.indexed + run.skipped == |Flatten(batches)|
  {
    if |batches| > 0 {
      RunBatchesFacts(batches[1..], skipExisting, existing);
      KeptFacts(batches[0], skipExisting, existing);
      KeptAppend(batches[0], Flatten(batches[1..]), skipExisting, existing);
      var kept := Kept(batches[0], skipExisting, existing);
      var rest := RunBatches(batches[1..], skipExisting, existing);
      if |kept| != 0 {
        var calls := [kept] + rest.calls;
        assert calls[1..] == rest.calls;
        assert forall i :: 1 <= i < |calls| ==> calls[i] == rest.calls[i - 1];
      } else {
        assert kept == [];
      }
    }
  }

  /** The sent part of every batch, batch by batch. */
  function KeptEach(batches: seq<seq<Triple>>, skipExisting: bool, existing: set<string>): (r: seq<seq<Triple>>)
    ensures |r| == |batches|
    ensures forall i :: 0 <= i < |batches| ==> r[i] == Kept(batches[i], skipExisting, existing)
  {
    seq(|batches|, i requires 0 <= i < |batches| => Kept(batches[i], skipExisting, existing))
  }

  /** The non-empty ones among some sequences, in order. */
  function NonEmpty<T>(bs: seq<seq<T>>): seq<seq<T>>
  {
    if |bs| == 0 then [] else (if |bs[0]| == 0 then [] else [bs[0]]) + NonEmpty(bs[1..])
  }

  /** The loop makes one call per batch whose sent part is non-empty, in batch order, with
      exactly that part. */
  lemma {:induction false} RunBatchesCalls(batches: seq<seq<Triple>>, skipExisting: bool, existing: set<string>)
    ensures RunBatches(batches, skipExisting, existing).calls == NonEmpty(KeptEach(batches, skipExisting, existing))
  {
    if |batches| > 0 {
      RunBatchesCalls(batches[1..], skipExisting, existing);
      var ks := KeptEach(batches, skipExisting, existing);
      assert ks[1..] == KeptEach(batches[1..], skipExisting, existing);
      assert ks[0] == Kept(batches[0], skipExisting, existing);
    }
  }

  /** A sent call holds at most one batch's chunks. */
  lemma {:induction false} RunBatchesCallSize(batches: seq<seq<Triple>>, skipExisting: bool, existing: set<string>, size: int)
    requires forall i :: 0 <= i < |batches| ==> |batches[i]| <= size
    ensures forall i :: 0 <= i < |RunBatches(batches, skipExisting, existing).calls| ==>
      |RunBatches(batches, skipExisting, existing).calls[i]| <= size
  {
    if |batches| > 0 {
      RunBatchesCallSize(batches[1..], skipExisting, existing, size);
      KeptFacts(batches[0], skipExisting, existing);
      var kept := Kept(batches[0], skipExisting, existing);
      var rest := RunBatches(batches[1..], skipExisting, existing);
      if |kept| != 0 {
        var calls := [kept] + rest.calls;
        assert forall i :: 1 <= i < |calls| ==> calls[i] == rest.calls[i - 1];
      }
    }
  }

  /** The command-line options of `build_chroma.py` that shape the loop. */
  datatype Options = Options(batchSize: int, reset: bool, skipExisting: bool, limit: Option<int>)

  /** Lines 50-85 of `main`, with `stored` the ids the collection already holds. */
  function IndexCorpus(papers: seq<StoredPaper>, opts: Options, stored: set<string>): IndexRun
  {
    var chunks := LimitChunks(IterChunks(papers), opts.limit);
    RunBatches(Chunked(chunks, opts.batchSize), opts.skipExisting, ExistingIds(opts.skipExisting, opts.reset, stored))
  }

  /** Indexing sends, in order, exactly the (limited) chunks whose id is not already stored,
      one call per batch with something to send and never more than `batchSize` at once;
      every limited chunk is counted once, as indexed or as skipped. */
  lemma IndexCorpusFacts(papers: seq<StoredPaper>, opts: Options, stored: set<string>)
    ensures var chunks := LimitChunks(IterChunks(papers), opts.limit);
      var existing := ExistingIds(opts.skipExisting, opts.reset, stored);
      var run := IndexCorpus(papers, opts, stored);
      && Flatten(run.calls) == Kept(chunks, opts.skipExisting, existing)
      && NoEmptyBatch(run.calls)
      && run.indexed == |Flatten(run.calls)|
      && run.indexed + run.skipped == |chunks|
    ensures opts.batchSize >= 1 ==>
      forall i :: 0 <= i < |IndexCorpus(papers, opts, stored).calls| ==>
        |IndexCorpus(papers, opts, stored).calls[i]| <= opts.batchSize
    ensures var chunks := LimitChunks(IterChunks(papers), opts.limit);
      var existing := ExistingIds(opts.skipExisting, opts.reset, stored);
      IndexCorpus(papers, opts, stored).calls
        == NonEmpty(KeptEach(Chunked(chunks, opts.batchSize), opts.skipExisting, existing))
  {
    var chunks := LimitChunks(IterChunks(papers), opts.limit);
    var existing := ExistingIds(opts.skipExisting, opts.reset, stored);
    var batches := Chunked(chunks, opts.batchSize);
    RunBatchesCalls(batches, opts.skipExisting, existing);
    ChunkedFlatten(chunks, opts.batchSize);
    RunBatchesFacts(batches, opts.skipExisting, existing);
    if opts.batchSize >= 1 {
      ChunkedSizes(chunks, opts.batchSize);
      RunBatchesCallSize(batches, opts.skipExisting, existing, opts.batchSize);
    }
  }

  /** Without skip-existing, everything within the limit is indexed and nothing is skipped. */
  lemma IndexCorpusNoSkip(papers: seq<StoredPaper>, opts: Options, stored: set<string>)
    requires !opts.skipExisting
    ensures Flatten(IndexCorpus(papers, opts, stored).calls) == LimitChunks(IterChunks(papers), opts.limit)
    ensures IndexCorpus(papers, opts, stored).skipped == 0
  {
    var chunks := LimitChunks(IterChunks(papers), opts.limit);
    IndexCorpusFacts(papers, opts, stored);
    KeptFacts(chunks, false, ExistingIds(false, opts.reset, stored));
  }
}
