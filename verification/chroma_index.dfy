/**
 * `iter_chunks`: flatten the papers of a corpus into (id, text, metadata) triples, papers in
 * order and each paper's chunks in order.
 */
module ChromaIndex {

  import opened Wrappers
  import Document

  /** A chunk as read back from the corpus JSON: every field may be missing. */
  datatype StoredChunk = StoredChunk(
    chunkId: Option<string>,
    text: Option<string>,
    pageIdx: Option<int>,
    chunkIndex: Option<int>,
    kind: Option<string>)

  /** A paper as read back from the corpus JSON; `chunks` is None when the key is missing. */
  datatype StoredPaper = StoredPaper(
    paperId: Option<string>,
    title: Option<string>,
    sourcePath: Option<string>,
    pdfPath: Option<string>,
    chunks: Option<seq<StoredChunk>>)

  /** The metadata stored with each chunk: these seven fields and nothing else. */
  datatype ChunkMeta = ChunkMeta(
    paperId: Option<string>,
    paperTitle: Option<string>,
    pageIdx: Option<int>,
    chunkIndex: Option<int>,
    chunkType: Option<string>,
    sourcePath: Option<string>,
    pdfPath: Option<string>)

  datatype Triple = Triple(id: Option<string>, text: string, meta: ChunkMeta)

  /** `paper.get("chunks", [])` */
  function ChunksOf(p: StoredPaper): seq<StoredChunk>
  {
    p.chunks.GetOr([])
  }

  /** The triple yielded for one chunk of one paper. */
  function TripleOf(p: StoredPaper, c: StoredChunk): Triple
  {
    Triple(
      c.chunkId,
      c.text.GetOr(""),
      ChunkMeta(p.paperId, p.title, c.pageIdx, c.chunkIndex, c.kind, p.sourcePath, p.pdfPath))
  }

  /** The identifier, text and metadata of a triple are copied from its chunk and paper: the
      text defaults to "", the paper-level fields come from the paper, the chunk-level fields
      from the chunk. */
  lemma TripleOfFields(p: StoredPaper, c: StoredChunk)
    ensures TripleOf(p, c).id == c.chunkId
    ensures TripleOf(p, c).text == (if c.text.Some? then c.text.value else "")
    ensures var m := TripleOf(p, c).meta;
      && m.paperId == p.paperId && m.paperTitle == p.title
      && m.sourcePath == p.sourcePath && m.pdfPath == p.pdfPath
      && m.pageIdx == c.pageIdx && m.chunkIndex == c.chunkIndex && m.chunkType == c.kind
  {
  }

  function PaperTriples(p: StoredPaper): (r: seq<Triple>)
    ensures |r| == |ChunksOf(p)|
    ensures forall j :: 0 <= j < |ChunksOf(p)| ==> r[j] == TripleOf(p, ChunksOf(p)[j])
  {
    seq(|ChunksOf(p)|, j requires 0 <= j < |ChunksOf(p)| => TripleOf(p, ChunksOf(p)[j]))
  }

  /** `iter_chunks(papers)` as the sequence of everything it yields. */
  function IterChunks(papers: seq<StoredPaper>): seq<Triple>
  {
    if |papers| == 0 then [] else PaperTriples(papers[0]) + IterChunks(papers[1..])
  }

  /** The number of chunks of all papers together. */
  function TotalChunks(papers: seq<StoredPaper>): nat
  {
    if |papers| == 0 then 0 else |ChunksOf(papers[0])| + TotalChunks(papers[1..])
  }

  /** One triple per chunk. */
  lemma {:induction false} IterChunksLength(papers: seq<StoredPaper>)
    ensures |IterChunks(papers)| == TotalChunks(papers)
  {
    if |papers| > 0 {
      IterChunksLength(papers[1..]);
    }
  }

  /** Flattening two runs of papers flattens each run. */
  lemma {:induction false} IterChunksAppend(xs: seq<StoredPaper>, ys: seq<StoredPaper>)
    ensures IterChunks(xs + ys) == IterChunks(xs) + IterChunks(ys)
    ensures TotalChunks(xs + ys) == TotalChunks(xs) + TotalChunks(ys)
  {
    if |xs| == 0 {
      assert xs + ys == ys;
    } else {
      assert (xs + ys)[0] == xs[0];
      assert (xs + ys)[1..] == xs[1..] + ys;
      IterChunksAppend(xs[1..], ys);
    }
  }

  /** Chunk `j` of paper `i` is yielded at position `TotalChunks(papers[..i]) + j`: papers in
      order, and each paper's chunks in order. */
  lemma IterChunksAt(papers: seq<StoredPaper>, i: nat, j: nat)
    requires i < |papers| && j < |ChunksOf(papers[i])|
    ensures TotalChunks(papers[..i]) + j < |IterChunks(papers)|
    ensures IterChunks(papers)[TotalChunks(papers[..i]) + j] == TripleOf(papers[i], ChunksOf(papers[i])[j])
  {
    assert papers == papers[..i] + papers[i..];
    IterChunksAppend(papers[..i], papers[i..]);
    IterChunksLength(papers[..i]);
    assert IterChunks(papers[i..]) == PaperTriples(papers[i]) + IterChunks(papers[i + 1..]);
  }

  /** A paper without a "chunks" key, or with no chunk, yields nothing. */
  lemma NoChunksNoTriples(xs: seq<StoredPaper>, p: StoredPaper, ys: seq<StoredPaper>)
    requires ChunksOf(p) == []
    ensures IterChunks(xs + [p] + ys) == IterChunks(xs + ys)
  {
    IterChunksAppend(xs + [p], ys);
    IterChunksAppend(xs, [p]);
    IterChunksAppend(xs, ys);
    assert IterChunks([p]) == PaperTriples(p) + IterChunks([]);
  }

  // ---------------------------------------------------------------- documents

  /** How a built document is stored in the corpus JSON. */
  function StoreChunk(c: Document.Chunk): StoredChunk
  {
    StoredChunk(Some(c.chunkId), Some(c.text), c.pageIdx, Some(c.chunkIndex), Some(c.kind))
  }

  function StoreDocument(d: Document.Document): StoredPaper
  {
    StoredPaper(
      Some(d.paperId), Some(d.title), Some(d.sourcePath), d.pdfPath,
      Some(seq(|d.chunks|, j requires 0 <= j < |d.chunks| => StoreChunk(d.chunks[j]))))
  }

  /** The triples of a stored document carry its chunk ids and texts, in chunk order. */
  lemma StoredDocumentTriples(d: Document.Document)
    ensures |IterChunks([StoreDocument(d)])| == |d.chunks|
    ensures forall j :: 0 <= j < |d.chunks| ==>
      && IterChunks([StoreDocument(d)])[j].id == Some(d.chunks[j].chunkId)
      && IterChunks([StoreDocument(d)])[j].text == d.chunks[j].text
      && IterChunks([StoreDocument(d)])[j].meta.paperId == Some(d.paperId)
  {
    var p := StoreDocument(d);
    assert IterChunks([p]) == PaperTriples(p) + IterChunks([]);
  }

  /** Indexing a built document yields no repeated identifier. */
  lemma StoredDocumentIdsDistinct(src: Document.PaperSource, minChars: int)
    ensures Document.BuildDocument(src, minChars).Some? ==>
      var ts := IterChunks([StoreDocument(Document.BuildDocument(src, minChars).value)]);
      forall j, k :: 0 <= j < k < |ts| ==> ts[j].id != ts[k].id
  {
    if Document.BuildDocument(src, minChars).Some? {
      var d := Document.BuildDocument(src, minChars).value;
      StoredDocumentTriples(d);
      Document.ChunkIdsDistinct(src.folderName, src.content.items, minChars);
    }
  }
}
