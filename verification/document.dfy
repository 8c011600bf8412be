/**
 * `build_document` and its helpers: turn one paper's content list into a document record
 * holding a title, a PDF path, page and chunk counts, and one chunk per item with enough text.
 */
module Document {

  import opened Wrappers
  import opened Text
  import opened Whitespace
  import opened Decimal
  import opened Extract

  /** One retrievable passage: the text of one content item. */
  datatype Chunk = Chunk(
    chunkId: string,
    chunkIndex: nat,
    text: string,
    kind: string,
    pageIdx: Option<int>,
    textLevel: Option<int>)

  /** The record `build_document` returns. */
  datatype Document = Document(
    paperId: string,
    title: string,
    sourcePath: string,
    pdfPath: Option<string>,
    numPages: Option<int>,
    numChunks: nat,
    chunks: seq<Chunk>)

  /** A PDF found next to the content list: its file name and its path as recorded. */
  datatype PdfFile = PdfFile(name: string, path: string)

  /** What `load_content_list` produced: a list of items, or any other JSON value. */
  datatype Content = Items(items: seq<Item>) | Malformed

  /** One paper folder: its name (the paper id), the recorded path of its content list,
      its PDFs in sorted order, and its parsed content list. */
  datatype PaperSource = PaperSource(
    folderName: string,
    sourcePath: string,
    pdfs: seq<PdfFile>,
    content: Content)

  // ------------------------------------------------------------------- title

  /** A level-1 heading of type `text` whose normalised text is non-empty. */
  predicate IsTitleHeading(item: Item)
  {
    item.kind == Some("text") && item.textLevel == Some(1) && Normalize(item.text) != []
  }

  /** An item whose extracted text has at least 12 characters. */
  predicate IsLongText(item: Item)
  {
    var t := ExtractText(item).text;
    t.Some? && |t.value| >= 12
  }

  /** `_infer_title`: the first title heading, else the first long text, else the fallback. */
  function InferTitle(items: seq<Item>, fallback: string): string
  {
    match FirstIndex(items, IsTitleHeading)
    case Some(i) => Normalize(items[i].text)
    case None =>
      match FirstIndex(items, IsLongText)
      case Some(j) => TextOrEmpty(items[j])
      case None => fallback
  }

  /** The first title heading, wherever it is, gives the title. */
  lemma InferTitleHeading(items: seq<Item>, fallback: string, i: nat)
    requires i < |items| && IsTitleHeading(items[i])
    requires forall k :: 0 <= k < i ==> !IsTitleHeading(items[k])
    ensures InferTitle(items, fallback) == Normalize(items[i].text)
  {
    assert FirstIndex(items, IsTitleHeading) == Some(i);
  }

  /** With no title heading, the first item with a long text gives the title. */
  lemma InferTitleLongText(items: seq<Item>, fallback: string, j: nat)
    requires forall k :: 0 <= k < |items| ==> !IsTitleHeading(items[k])
    requires j < |items| && IsLongText(items[j])
    requires forall k :: 0 <= k < j ==> !IsLongText(items[k])
    ensures InferTitle(items, fallback) == TextOrEmpty(items[j])
  {
    assert FirstIndex(items, IsTitleHeading).None?;
    var r := FirstIndex(items, IsLongText);
    assert r.Some?;
    assert r.value >= j;
    assert r.value <= j;
  }

  /** With neither a title heading nor a long text, the fallback is the title. */
  lemma InferTitleFallback(items: seq<Item>, fallback: string)
    requires forall k :: 0 <= k < |items| ==> !IsTitleHeading(items[k]) && !IsLongText(items[k])
    ensures InferTitle(items, fallback) == fallback
  {
    assert FirstIndex(items, IsTitleHeading).None?;
    assert FirstIndex(items, IsLongText).None?;
  }

  /** A title is never blank unless the fallback is. */
  lemma InferTitleNonEmpty(items: seq<Item>, fallback: string)
    requires fallback != []
    ensures InferTitle(items, fallback) != []
  {
    match FirstIndex(items, IsTitleHeading)
    case Some(i) =>
    case None =>
      match FirstIndex(items, IsLongText)
      case Some(j) =>
      case None =>
  }

  // ------------------------------------------------------------- pdf, label

  predicate IsOriginPdf(pdf: PdfFile)
  {
    Contains(pdf.name, "origin")
  }

  /** `_infer_pdf_path`: the first PDF whose name contains "origin", else the first PDF,
      else none. */
  function InferPdfPath(pdfs: seq<PdfFile>): (r: Option<string>)
    ensures r.None? <==> pdfs == []
    ensures forall i ::
      (0 <= i < |pdfs| && IsOriginPdf(pdfs[i]) && forall k :: 0 <= k < i ==> !IsOriginPdf(pdfs[k])) ==>
      r == Some(pdfs[i].path)
    ensures pdfs != [] && (forall k :: 0 <= k < |pdfs| ==> !IsOriginPdf(pdfs[k])) ==>
      r == Some(pdfs[0].path)
  {
    if pdfs == [] then None
    else match FirstIndex(pdfs, IsOriginPdf)
      case Some(i) => Some(pdfs[i].path)
      case None => Some(pdfs[0].path)
  }

  /** `_paper_label`: the folder name cut before its first ".pdf-", underscores read as spaces. */
  function PaperLabel(folder: string): (r: string)
    ensures |r| <= |folder|
    ensures |r| < |folder| <==> Contains(folder, ".pdf-")
    ensures |r| < |folder| ==>
      OccursAt(folder, ".pdf-", |r|) && forall i: nat :: i < |r| ==> !OccursAt(folder, ".pdf-", i)
    ensures forall i :: 0 <= i < |r| ==> r[i] == (if folder[i] == '_' then ' ' else folder[i])
  {
    var base := match Find(folder, ".pdf-") case Some(i) => folder[..i] case None => folder;
    ReplaceChar(base, '_', ' ')
  }

  /** A label never holds an underscore. */
  lemma PaperLabelNoUnderscore(folder: string)
    ensures forall i :: 0 <= i < |PaperLabel(folder)| ==> PaperLabel(folder)[i] != '_'
  {
  }

  // ------------------------------------------------------------------ chunks

  /** `f"{paper_id}-{item_idx:06d}"` */
  function ChunkId(paperId: string, idx: nat): string
  {
    paperId + "-" + Pad6(idx)
  }

  /** Within one paper, chunk ids identify item positions. */
  lemma ChunkIdInjective(paperId: string, i: nat, j: nat)
    ensures ChunkId(paperId, i) == ChunkId(paperId, j) <==> i == j
  {
    if ChunkId(paperId, i) == ChunkId(paperId, j) {
      var n := |paperId| + 1;
      assert ChunkId(paperId, i)[n..] == Pad6(i);
      assert ChunkId(paperId, j)[n..] == Pad6(j);
      Pad6Injective(i, j);
    }
  }

  /** The `if not text or len(text) < min_chars: continue` test, negated, on an extracted text. */
  predicate Survives(text: Option<string>, minChars: int)
  {
    text.Some? && |text.value| >= minChars
  }

  /** An item whose extracted text is long enough to become a chunk. */
  predicate ItemSurvives(item: Item, minChars: int)
  {
    Survives(ExtractText(item).text, minChars)
  }

  /** The extracted text of every item, in order. */
  function Texts(items: seq<Item>): (r: seq<Option<string>>)
    ensures |r| == |items|
    ensures forall i :: 0 <= i < |items| ==> r[i] == ExtractText(items[i]).text
  {
    seq(|items|, i requires 0 <= i < |items| => ExtractText(items[i]).text)
  }

  /** The chunk record built from the item at position `idx` and its extracted text. */
  function MakeChunk(paperId: string, idx: nat, item: Item, text: string): Chunk
  {
    Chunk(ChunkId(paperId, idx), idx, text, ItemType(item), item.pageIdx, item.textLevel)
  }

  /** The chunk loop of `build_document`, from position `from` on, given every item's
      extracted text. */
  function ChunksFrom(paperId: string, items: seq<Item>, texts: seq<Option<string>>, from: nat, minChars: int)
    : seq<Chunk>
    requires |texts| == |items| && from <= |items|
    decreases |items| - from
  {
    if from == |items| then []
    else
      var rest := ChunksFrom(paperId, items, texts, from + 1, minChars);
      if Survives(texts[from], minChars) then [MakeChunk(paperId, from, items[from], texts[from].value)] + rest
      else rest
  }

  function Chunks(paperId: string, items: seq<Item>, minChars: int): seq<Chunk>
  {
    ChunksFrom(paperId, items, Texts(items), 0, minChars)
  }

  /** `c` is the chunk of a surviving item, built from that item and its text. */
  predicate IsChunkOf(paperId: string, items: seq<Item>, texts: seq<Option<string>>, c: Chunk, minChars: int)
    requires |texts| == |items|
  {
    && c.chunkIndex < |items|
    && Survives(texts[c.chunkIndex], minChars)
    && c == MakeChunk(paperId, c.chunkIndex, items[c.chunkIndex], texts[c.chunkIndex].value)
  }

  /** Every chunk of `cs` is the chunk of a surviving item at or after `from`. */
  predicate SoundFrom(paperId: string, items: seq<Item>, texts: seq<Option<string>>, from: nat, cs: seq<Chunk>, minChars: int)
    requires |texts| == |items|
  {
    forall j :: 0 <= j < |cs| ==> from <= cs[j].chunkIndex && IsChunkOf(paperId, items, texts, cs[j], minChars)
  }

  /** Every surviving item at or after `from` has a chunk in `cs`. */
  predicate CoversFrom(texts: seq<Option<string>>, from: nat, cs: seq<Chunk>, minChars: int)
  {
    forall i :: from <= i < |texts| && Survives(texts[i], minChars) ==>
      exists j :: 0 <= j < |cs| && cs[j].chunkIndex == i
  }

  /** The chunks of `cs` follow item order, each item at most once. */
  predicate InItemOrder(cs: seq<Chunk>)
  {
    forall j, k :: 0 <= j < k < |cs| ==> cs[j].chunkIndex < cs[k].chunkIndex
  }

  /** Every chunk comes from a surviving item at or after `from` and is built from it. */
  lemma {:induction false} ChunksFromSound(
    paperId: string, items: seq<Item>, texts: seq<Option<string>>, from: nat, minChars: int)
    requires |texts| == |items| && from <= |items|
    ensures SoundFrom(paperId, items, texts, from, ChunksFrom(paperId, items, texts, from, minChars), minChars)
    decreases |items| - from
  {
    if from < |items| {
      ChunksFromSound(paperId, items, texts, from + 1, minChars);
      var rest := ChunksFrom(paperId, items, texts, from + 1, minChars);
      if Survives(texts[from], minChars) {
        var c := MakeChunk(paperId, from, items[from], texts[from].value);
        assert c.chunkIndex == from;
        assert IsChunkOf(paperId, items, texts, c, minChars);
        var r := [c] + rest;
        assert ChunksFrom(paperId, items, texts, from, minChars) == r;
        assert forall j :: 1 <= j < |r| ==> r[j] == rest[j - 1];
      } else {
        assert ChunksFrom(paperId, items, texts, from, minChars) == rest;
      }
    }
  }

  /** The chunks follow item order. */
  lemma {:induction false} ChunksFromOrdered(
    paperId: string, items: seq<Item>, texts: seq<Option<string>>, from: nat, minChars: int)
    requires |texts| == |items| && from <= |items|
    ensures InItemOrder(ChunksFrom(paperId, items, texts, from, minChars))
    decreases |items| - from
  {
    if from < |items| {
      ChunksFromOrdered(paperId, items, texts, from + 1, minChars);
      ChunksFromSound(paperId, items, texts, from + 1, minChars);
      var rest := ChunksFrom(paperId, items, texts, from + 1, minChars);
      if Survives(texts[from], minChars) {
        var r := [MakeChunk(paperId, from, items[from], texts[from].value)] + rest;
        assert ChunksFrom(paperId, items, texts, from, minChars) == r;
        assert forall j :: 1 <= j < |r| ==> r[j] == rest[j - 1];
      } else {
        assert ChunksFrom(paperId, items, texts, from, minChars) == rest;
      }
    }
  }

  /** Every surviving item at or after `from` has its chunk. */
  lemma {:induction false} ChunksFromComplete(
    paperId: string, items: seq<Item>, texts: seq<Option<string>>, from: nat, minChars: int)
    requires |texts| == |items| && from <= |items|
    ensures CoversFrom(texts, from, ChunksFrom(paperId, items, texts, from, minChars), minChars)
    decreases |items| - from
  {
    if from < |items| {
      ChunksFromComplete(paperId, items, texts, from + 1, minChars);
      var rest := ChunksFrom(paperId, items, texts, from + 1, minChars);
      if Survives(texts[from], minChars) {
        var r := [MakeChunk(paperId, from, items[from], texts[from].value)] + rest;
        assert ChunksFrom(paperId, items, texts, from, minChars) == r;
        forall i | from <= i < |texts| && Survives(texts[i], minChars)
          ensures exists j :: 0 <= j < |r| && r[j].chunkIndex == i
        {
          if i == from {
            assert r[0].chunkIndex == i;
          } else {
            var j :| 0 <= j < |rest| && rest[j].chunkIndex == i;
            assert r[j + 1].chunkIndex == i;
          }
        }
      } else {
        assert ChunksFrom(paperId, items, texts, from, minChars) == rest;
      }
    }
  }

  /** `c` is the chunk of the item at its position, which survives: it carries that position,
      the item's extracted text, its type tag, and its page and heading level. */
  predicate IsItemChunk(paperId: string, items: seq<Item>, c: Chunk, minChars: int)
  {
    && c.chunkIndex < |items|
    && ItemSurvives(items[c.chunkIndex], minChars)
    && c == MakeChunk(paperId, c.chunkIndex, items[c.chunkIndex], TextOrEmpty(items[c.chunkIndex]))
  }

  /** Every surviving item has a chunk in `cs`. */
  predicate CoversSurvivors(items: seq<Item>, cs: seq<Chunk>, minChars: int)
  {
    forall i :: 0 <= i < |items| && ItemSurvives(items[i], minChars) ==>
      exists j :: 0 <= j < |cs| && cs[j].chunkIndex == i
  }

  /** The chunks of a paper are exactly its surviving items, in item order. */
  lemma ChunksSpec(paperId: string, items: seq<Item>, minChars: int)
    ensures forall j :: 0 <= j < |Chunks(paperId, items, minChars)| ==>
      IsItemChunk(paperId, items, Chunks(paperId, items, minChars)[j], minChars)
    ensures InItemOrder(Chunks(paperId, items, minChars))
    ensures CoversSurvivors(items, Chunks(paperId, items, minChars), minChars)
  {
    var texts := Texts(items);
    var r := Chunks(paperId, items, minChars);
    ChunksFromSound(paperId, items, texts, 0, minChars);
    ChunksFromOrdered(paperId, items, texts, 0, minChars);
    ChunksFromComplete(paperId, items, texts, 0, minChars);
    forall j | 0 <= j < |r| ensures IsItemChunk(paperId, items, r[j], minChars) {
      assert IsChunkOf(paperId, items, texts, r[j], minChars);
    }
  }

  /** Every chunk text is non-empty, normalised and at least `minChars` long. */
  lemma ChunkTexts(paperId: string, items: seq<Item>, minChars: int)
    ensures forall j :: 0 <= j < |Chunks(paperId, items, minChars)| ==>
      var t := Chunks(paperId, items, minChars)[j].text;
      t != [] && IsNormalized(t) && |t| >= minChars
  {
    var r := Chunks(paperId, items, minChars);
    var texts := Texts(items);
    ChunksFromSound(paperId, items, texts, 0, minChars);
    forall j | 0 <= j < |r|
      ensures r[j].text != [] && IsNormalized(r[j].text) && |r[j].text| >= minChars
    {
      assert IsChunkOf(paperId, items, texts, r[j], minChars);
      ExtractTextFacts(items[r[j].chunkIndex]);
    }
  }

  /** No two chunks share an id. */
  predicate IdsDistinct(cs: seq<Chunk>)
  {
    forall j, k :: 0 <= j < k < |cs| ==> cs[j].chunkId != cs[k].chunkId
  }

  /** No two chunks of one paper share an id. */
  lemma ChunkIdsDistinct(paperId: string, items: seq<Item>, minChars: int)
    ensures IdsDistinct(Chunks(paperId, items, minChars))
  {
    var r := Chunks(paperId, items, minChars);
    var texts := Texts(items);
    ChunksFromSound(paperId, items, texts, 0, minChars);
    ChunksFromOrdered(paperId, items, texts, 0, minChars);
    forall j, k | 0 <= j < k < |r| ensures r[j].chunkId != r[k].chunkId {
      assert IsChunkOf(paperId, items, texts, r[j], minChars);
      assert IsChunkOf(paperId, items, texts, r[k], minChars);
      ChunkIdInjective(paperId, r[j].chunkIndex, r[k].chunkIndex);
    }
  }

  /** No chunk at all exactly when no item survives. */
  lemma ChunksEmpty(paperId: string, items: seq<Item>, minChars: int)
    ensures Chunks(paperId, items, minChars) == [] <==>
      forall i :: 0 <= i < |items| ==> !ItemSurvives(items[i], minChars)
  {
    var texts := Texts(items);
    var r := Chunks(paperId, items, minChars);
    ChunksFromSound(paperId, items, texts, 0, minChars);
    ChunksFromComplete(paperId, items, texts, 0, minChars);
    if r != [] {
      assert IsChunkOf(paperId, items, texts, r[0], minChars);
    }
  }

  // ------------------------------------------------------------------- pages

  /** The running `max_page` over the kept chunks' integer page indexes. */
  function MaxPage(cs: seq<Chunk>): Option<int>
  {
    if |cs| == 0 then None
    else
      var m := MaxPage(cs[..|cs| - 1]);
      var p := cs[|cs| - 1].pageIdx;
      if p.None? then m
      else if m.None? then p
      else Some(if p.value > m.value then p.value else m.value)
  }

  /** `MaxPage` is none exactly when no chunk has a page, and otherwise is the largest page. */
  lemma {:induction false} MaxPageFacts(cs: seq<Chunk>)
    ensures MaxPage(cs).None? <==> forall j :: 0 <= j < |cs| ==> cs[j].pageIdx.None?
    ensures MaxPage(cs).Some? ==>
      && (exists j :: 0 <= j < |cs| && cs[j].pageIdx == MaxPage(cs))
      && (forall j :: 0 <= j < |cs| && cs[j].pageIdx.Some? ==> cs[j].pageIdx.value <= MaxPage(cs).value)
  {
    if |cs| > 0 {
      var init := cs[..|cs| - 1];
      MaxPageFacts(init);
      assert forall j :: 0 <= j < |init| ==> init[j] == cs[j];
      var m := MaxPage(init);
      if m.Some? {
        var j :| 0 <= j < |init| && init[j].pageIdx == m;
        assert cs[j].pageIdx == m;
      }
    }
  }

  /** `max_page + 1 if isinstance(max_page, int) else None` */
  function PageCount(cs: seq<Chunk>): Option<int>
  {
    var mp := MaxPage(cs);
    if mp.Some? then Some(mp.value + 1) else None
  }

  /** `numPages` is one more than the largest page index among `cs`, and none when no chunk
      has a page index. */
  predicate IsPageCount(numPages: Option<int>, cs: seq<Chunk>)
  {
    && (numPages.None? <==> forall j :: 0 <= j < |cs| ==> cs[j].pageIdx.None?)
    && (numPages.Some? ==>
          && (exists j :: 0 <= j < |cs| && cs[j].pageIdx == Some(numPages.value - 1))
          && (forall j :: 0 <= j < |cs| && cs[j].pageIdx.Some? ==> cs[j].pageIdx.value < numPages.value))
  }

  lemma PageCountFacts(cs: seq<Chunk>)
    ensures IsPageCount(PageCount(cs), cs)
  {
    MaxPageFacts(cs);
  }

  // ---------------------------------------------------------------- document

  /** `build_document`: none for a malformed content list or a paper with no surviving item. */
  function BuildDocument(src: PaperSource, minChars: int): (r: Option<Document>)
    ensures r.None? <==> src.content.Malformed? || Chunks(src.folderName, src.content.items, minChars) == []
    ensures r.Some? ==>
      && r.value.paperId == src.folderName
      && r.value.sourcePath == src.sourcePath
      && r.value.chunks == Chunks(src.folderName, src.content.items, minChars)
      && r.value.numChunks == |r.value.chunks| > 0
      && r.value.title == InferTitle(src.content.items, PaperLabel(src.folderName))
      && r.value.pdfPath == InferPdfPath(src.pdfs)
      && r.value.numPages == PageCount(r.value.chunks)
  {
    match src.content
    case Malformed => None
    case Items(items) =>
      var chunks := Chunks(src.folderName, items, minChars);
      if chunks == [] then None
      else
        Some(Document(
          src.folderName,
          InferTitle(items, PaperLabel(src.folderName)),
          src.sourcePath,
          InferPdfPath(src.pdfs),
          PageCount(chunks),
          |chunks|,
          chunks))
  }

  /** The page count of a built document is one past the largest page index of its chunks. */
  lemma BuildDocumentPages(src: PaperSource, minChars: int)
    ensures BuildDocument(src, minChars).Some? ==>
      IsPageCount(BuildDocument(src, minChars).value.numPages, BuildDocument(src, minChars).value.chunks)
  {
    if BuildDocument(src, minChars).Some? {
      PageCountFacts(BuildDocument(src, minChars).value.chunks);
    }
  }

  /** A built document has a non-empty title whenever the paper folder has a non-empty label. */
  lemma BuildDocumentTitle(src: PaperSource, minChars: int)
    ensures BuildDocument(src, minChars).Some? && PaperLabel(src.folderName) != [] ==>
      BuildDocument(src, minChars).value.title != []
  {
    if BuildDocument(src, minChars).Some? && PaperLabel(src.folderName) != [] {
      InferTitleNonEmpty(src.content.items, PaperLabel(src.folderName));
    }
  }
}
