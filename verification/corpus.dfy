/**
 * The corpus assembler of `scripts/build_corpus.py`: limit the sorted list of paper sources,
 * build a document from each, keep the successes in order, and wrap them in a payload.
 */
module Corpus {

  import opened Wrappers
  import opened Document

  /** Python's `xs[:n]`: a negative `n` counts from the end. */
  function SlicePrefix<T>(xs: seq<T>, n: int): (r: seq<T>)
    ensures |r| <= |xs| && r == xs[..|r|]
    ensures n >= 0 ==> |r| == (if n < |xs| then n else |xs|)
    ensures n < 0 ==> |r| == (if |xs| + n > 0 then |xs| + n else 0)
  {
    if n >= 0 then (if n < |xs| then xs[..n] else xs)
    else if |xs| + n > 0 then xs[..|xs| + n]
    else []
  }

  /** `if args.limit: xs = xs[:args.limit]`: no limit or a zero limit keeps everything. */
  function ApplyLimit<T>(xs: seq<T>, limit: Option<int>): (r: seq<T>)
    ensures |r| <= |xs| && r == xs[..|r|]
    ensures limit.None? || limit == Some(0) ==> r == xs
    ensures limit.Some? && limit.value > 0 ==> |r| == (if limit.value < |xs| then limit.value else |xs|)
  {
    if limit.Some? && limit.value != 0 then SlicePrefix(xs, limit.value) else xs
  }

  /** The `if doc: papers.append(doc)` loop over the build results, in order. */
  function Successes<D>(results: seq<Option<D>>): seq<D>
  {
    if |results| == 0 then []
    else
      var last := results[|results| - 1];
      Successes(results[..|results| - 1]) + (if last.Some? then [last.value] else [])
  }

  /** The positions of the successful results, in order. */
  function SuccessIndices<D>(results: seq<Option<D>>): seq<nat>
  {
    if |results| == 0 then []
    else
      SuccessIndices(results[..|results| - 1])
        + (if results[|results| - 1].Some? then [|results| - 1] else [])
  }

  /** `ix` lists positions of `results` in strictly increasing order, each a success whose
      value is the matching element of `ds`. */
  ghost predicate PicksSuccesses<D>(results: seq<Option<D>>, ix: seq<nat>, ds: seq<D>)
  {
    && |ix| == |ds|
    && (forall j :: 0 <= j < |ix| ==> ix[j] < |results| && results[ix[j]] == Some(ds[j]))
    && (forall j, k :: 0 <= j < k < |ix| ==> ix[j] < ix[k])
  }

  /** Every success is listed. */
  ghost predicate ListsAllSuccesses<D>(results: seq<Option<D>>, ix: seq<nat>)
  {
    forall i :: 0 <= i < |results| && results[i].Some? ==> exists j :: 0 <= j < |ix| && ix[j] == i
  }

  /** Each kept document is a successful result, taken in input order. */
  lemma {:induction false} SuccessesPick<D>(results: seq<Option<D>>)
    ensures PicksSuccesses(results, SuccessIndices(results), Successes(results))
  {
    if |results| > 0 {
      var init := results[..|results| - 1];
      SuccessesPick(init);
      var ix, ds := SuccessIndices(init), Successes(init);
      assert forall i :: 0 <= i < |init| ==> init[i] == results[i];
      var last := results[|results| - 1];
      if last.Some? {
        var ix', ds' := ix + [|results| - 1], ds + [last.value];
        assert SuccessIndices(results) == ix' && Successes(results) == ds';
        assert forall j :: 0 <= j < |ix| ==> ix'[j] == ix[j] && ds'[j] == ds[j];
      } else {
        assert SuccessIndices(results) == ix && Successes(results) == ds;
      }
    }
  }

  /** No successful result is left out. */
  lemma {:induction false} SuccessesAll<D>(results: seq<Option<D>>)
    ensures ListsAllSuccesses(results, SuccessIndices(results))
  {
    if |results| > 0 {
      var init := results[..|results| - 1];
      SuccessesAll(init);
      var ix := SuccessIndices(init);
      assert forall i :: 0 <= i < |init| ==> init[i] == results[i];
      if results[|results| - 1].Some? {
        var ix' := ix + [|results| - 1];
        assert SuccessIndices(results) == ix';
        forall i | 0 <= i < |results| && results[i].Some?
          ensures exists j :: 0 <= j < |ix'| && ix'[j] == i
        {
          if i < |init| {
            var j :| 0 <= j < |ix| && ix[j] == i;
            assert ix'[j] == i;
          } else {
            assert ix'[|ix|] == i;
          }
        }
      } else {
        assert SuccessIndices(results) == ix;
      }
    }
  }

  /** The kept documents are exactly the successful results, in input order: a failure is
      skipped and never stops the loop. */
  lemma SuccessesSpec<D>(results: seq<Option<D>>)
    ensures PicksSuccesses(results, SuccessIndices(results), Successes(results))
    ensures ListsAllSuccesses(results, SuccessIndices(results))
  {
    SuccessesPick(results);
    SuccessesAll(results);
  }

  lemma {:induction false} SuccessesLength<D>(results: seq<Option<D>>)
    ensures |Successes(results)| <= |results|
  {
    if |results| > 0 {
      SuccessesLength(results[..|results| - 1]);
    }
  }

  /** Building from two runs of sources keeps the successes of each, in order. */
  lemma {:induction false} SuccessesAppend<D>(xs: seq<Option<D>>, ys: seq<Option<D>>)
    ensures Successes(xs + ys) == Successes(xs) + Successes(ys)
    decreases |ys|
  {
    if |ys| == 0 {
      assert xs + ys == xs;
    } else {
      var ys' := ys[..|ys| - 1];
      assert (xs + ys)[..|xs + ys| - 1] == xs + ys';
      SuccessesAppend(xs, ys');
    }
  }

  /** The JSON payload `build_corpus.py` writes. */
  datatype CorpusPayload = CorpusPayload(
    schemaVersion: int,
    generatedAt: string,
    numPapers: nat,
    papers: seq<Document>)

  /** The build result of every source, in order. */
  function BuildAll<S>(sources: seq<S>, build: S -> Option<Document>): (r: seq<Option<Document>>)
    ensures |r| == |sources|
    ensures forall i :: 0 <= i < |sources| ==> r[i] == build(sources[i])
  {
    seq(|sources|, i requires 0 <= i < |sources| => build(sources[i]))
  }

  /** Lines 28-43 of `main`: limit the sources, build each, keep the successes, and count them.
      `build` stands for `build_document` and `generatedAt` for the timestamp. */
  function AssembleCorpus<S>(sources: seq<S>, limit: Option<int>, build: S -> Option<Document>, generatedAt: string)
    : (r: CorpusPayload)
    ensures r.schemaVersion == 1
    ensures r.generatedAt == generatedAt
    ensures r.numPapers == |r.papers| <= |ApplyLimit(sources, limit)|
  {
    var results := BuildAll(ApplyLimit(sources, limit), build);
    SuccessesLength(results);
    var papers := Successes(results);
    CorpusPayload(1, generatedAt, |papers|, papers)
  }

  /** The papers of the payload are the successful builds of the kept sources, in source order,
      and every successful build of a kept source is among them. */
  lemma AssembleCorpusPapers<S>(sources: seq<S>, limit: Option<int>, build: S -> Option<Document>, generatedAt: string)
    ensures var kept := ApplyLimit(sources, limit);
      PicksSuccesses(BuildAll(kept, build), SuccessIndices(BuildAll(kept, build)),
                     AssembleCorpus(sources, limit, build, generatedAt).papers)
    ensures var kept := ApplyLimit(sources, limit);
      ListsAllSuccesses(BuildAll(kept, build), SuccessIndices(BuildAll(kept, build)))
  {
    SuccessesSpec(BuildAll(ApplyLimit(sources, limit), build));
  }

  predicate AllHaveChunks(papers: seq<Document>)
  {
    forall j :: 0 <= j < |papers| ==> papers[j].chunks != [] && papers[j].numChunks == |papers[j].chunks|
  }

  /** With `build_document` itself, every paper of the payload has at least one chunk and
      records its chunk count. */
  lemma CorpusPapersHaveChunks(sources: seq<PaperSource>, limit: Option<int>, minChars: int, generatedAt: string)
    ensures AllHaveChunks(AssembleCorpus(sources, limit, s => BuildDocument(s, minChars), generatedAt).papers)
  {
    var build := (s: PaperSource) => BuildDocument(s, minChars);
    var kept := ApplyLimit(sources, limit);
    var results := BuildAll(kept, build);
    var p := AssembleCorpus(sources, limit, build, generatedAt).papers;
    SuccessesSpec(results);
    var ix := SuccessIndices(results);
    forall j | 0 <= j < |p| ensures p[j].chunks != [] && p[j].numChunks == |p[j].chunks| {
      assert results[ix[j]] == Some(p[j]);
      assert BuildDocument(kept[ix[j]], minChars) == Some(p[j]);
    }
  }
}
