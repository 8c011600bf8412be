# paper_chatbot in Dafny

This project models the deterministic core of `paper_chatbot`, a question-answering
assistant over a collection of academic papers:

- **Content extraction** (`paper_chatbot/corpus.py`). Each typed content item (text, list,
  equation, code, image, other) is rendered as raw text. The raw text is then normalised:
  horizontal whitespace runs collapse to one space, lines are trimmed, and blank lines are
  dropped.
- **Document building** (`paper_chatbot/corpus.py`).
  - The title is inferred in priority order: first level-1 heading, else the first text of at
    least 12 characters, else a label derived from the folder name.
  - The PDF is picked as the first name containing "origin", else the first name.
  - Every item that survives the minimum-length filter becomes a chunk with the id
    `{paper_id}-{index:06d}`.
  - The page count is one more than the largest integer page index.
- **Corpus assembly** (`scripts/build_corpus.py`). The sorted sources are limited, each is
  built, the successes are kept in order, and the result is wrapped in a payload with schema
  version 1.
- **Index feeding**.
  - `iter_chunks` (`paper_chatbot/chroma_index.py`) flattens papers into (id, text, metadata)
    triples.
  - In `scripts/build_chroma.py`, `chunked` cuts the stream into batches. The chunk limit,
    the skip-existing filter and the indexed/skipped counters sit around it.
- **Context packing and prompting** (`paper_chatbot/rag.py`).
  - `_build_context` packs ranked passages greedily into a character budget. The first block
    is always kept, and one source line is emitted per packed block.
  - `answer` builds the message list: the system prompt, the non-empty history sides, then
    the context-and-question prompt. A falsy `top_k` falls back to the configured one.
- **Chat front end** (`app.py`).
  - `_messages_to_pairs` folds chat messages into (user, assistant) pairs.
  - `respond` appends one exchange to the history.

Modules follow the source:

| module | file |
|---|---|
| `Text` | string primitives |
| `Whitespace` | `_normalize_whitespace` |
| `Extract` | `_extract_text` |
| `Decimal` | decimal rendering and `:06d` |
| `Document` | title, PDF, label, `build_document` |
| `Corpus` | `build_corpus.py` |
| `ChromaIndex` | `iter_chunks` |
| `BuildChroma` | `build_chroma.py` |
| `Rag` | `rag.py` |
| `ChatApp` | `app.py` |
| `Wrappers` | `Option` and first-match search |

Everything is pure: functions over immutable datatypes, with the properties proved as lemmas.
Calls into code this model cannot see become parameters:

- the document builder used by corpus assembly;
- the retrieval query and the chat completion used by `answer`;
- the `rag.answer` call inside `respond`;
- the generation timestamp.

Behaviour of the program that the model keeps:

- A list entry that already starts with `*` keeps its `*`. So list lines start with `-` or
  `*`, not always with a dash.
- The retrieval lists are zipped, so unequal lengths truncate to the shortest list. They are
  not assumed equal.
- The packing budget does not count the `"\n\n"` separators. With two or more blocks the
  context can exceed the budget by two characters per extra block (`Rag.BuildContextLength`).

## Model

| member | source | states |
|---|---|---|
| Text.StripFacts | paper_chatbot/corpus.py:18 | `strip()` yields the slice of the input between an all-white prefix and an all-white suffix; the slice starts and ends with a non-white character, so both cuts are maximal; it is empty exactly when the input is all white, keeps every non-white character in order, and adds no tab, newline or double space |
| Text.CollapseFacts | paper_chatbot/corpus.py:18 | `re.sub(r"[ \t]+", " ", line)` leaves no tab and no two adjacent spaces, adds no newline, and keeps every non-white character |
| Text.CollapseWords | paper_chatbot/corpus.py:18 | `re.sub(r"[ \t]+", " ", line)` is the line's words (its maximal runs without space or tab) one space apart, plus one space in front when the line opens with a space or tab and one behind when it has a word and closes with one |
| Text.HWordsShape | paper_chatbot/corpus.py:18 | words are non-empty and contain no space or tab; a line without words is all spaces and tabs |
| Text.StripPad | paper_chatbot/corpus.py:18 | white padding on either side does not change what `strip()` returns |
| Text.SplitJoin | paper_chatbot/corpus.py:17-21 | splitting a newline-join of newline-free lines gives the lines back |
| Text.JoinSplit | paper_chatbot/corpus.py:17-21 | newline-joining the split lines of a text gives the text back |
| Whitespace.CleanLineWords | paper_chatbot/corpus.py:18 | a cleaned line is the stripped space-join of the line's words; when spaces and tabs are its only white characters it is exactly the space-join of its words |
| Whitespace.NormalizeWords | paper_chatbot/corpus.py:15-21 | a text whose only white characters are spaces, tabs and newlines normalises to the newline-join of its lines, each as its words one space apart, with the lines that have no word dropped |
| Whitespace.CleanLineFacts | paper_chatbot/corpus.py:18-20 | a cleaned line keeps the line's non-white characters; it is empty exactly when the line is all white; otherwise it is a clean line |
| Whitespace.Normalize | paper_chatbot/corpus.py:15-21 | the normalised text has only clean lines (non-empty, no tab, no double space, no leading or trailing blank); it is empty exactly when the input is all white; it keeps every non-white character in order |
| Whitespace.NormalizeFixed | paper_chatbot/corpus.py:15-21 | a normalised text is left unchanged by normalisation |
| Whitespace.NormalizeIdempotent | paper_chatbot/corpus.py:15-21 | normalising twice equals normalising once |
| Whitespace.NormalizeConcat | paper_chatbot/corpus.py:15-21 | normalising two newline-separated pieces normalises each piece on its own, and an empty piece adds no line |
| Extract.ExtractTextFacts | paper_chatbot/corpus.py:24-65 | the type tag is the item's `type` or "unknown"; there is no text exactly when the raw rendering is all white; otherwise the text is the normalised raw rendering, non-empty, normalised and holding the raw rendering's non-white characters |
| Extract.StrippedNonBlankFacts | paper_chatbot/corpus.py:32-35 | the kept entries are stripped and non-empty, at most as many as the input, and newline-free when the input is |
| Extract.StrippedNonBlankPicks | paper_chatbot/corpus.py:32-35 | the kept entries are the stripped entries at exactly the non-blank positions, in increasing position order, none left out |
| Extract.BulletsShape | paper_chatbot/corpus.py:36-39 | every bullet line of a non-empty single-line entry starts with `-` or `*` and has no newline |
| Extract.ListItemLines | paper_chatbot/corpus.py:29-40 | for single-line list entries: no text exactly when every entry is blank; otherwise one output line per non-blank entry, in order, each the cleaned bullet of that entry and starting with `-` or `*` |
| Extract.CodeItemText | paper_chatbot/corpus.py:43-51 | a code item's text is the normalised space-joined caption line followed by the normalised body; a missing or blank body contributes nothing |
| Extract.CodeBlankBodyOmitted | paper_chatbot/corpus.py:48-50 | a blank code body extracts the same as an empty one |
| Extract.ImageItemText | paper_chatbot/corpus.py:52-58 | an image item's text is the normalised captions followed by the normalised footnotes |
| Document.InferTitleHeading | paper_chatbot/corpus.py:69-73 | the first level-1 text item with non-blank text gives the title, normalised |
| Document.InferTitleLongText | paper_chatbot/corpus.py:74-77 | with no usable heading, the first item whose extracted text has at least 12 characters gives the title |
| Document.InferTitleFallback | paper_chatbot/corpus.py:68-78 | with neither a heading nor a long text, the title is the fallback |
| Document.InferTitleNonEmpty | paper_chatbot/corpus.py:68-78 | a non-empty fallback guarantees a non-empty title |
| Document.InferPdfPath | paper_chatbot/corpus.py:81-88 | there is no PDF exactly when there are no names; otherwise the first "origin" name is picked, else the first name |
| Document.PaperLabel | paper_chatbot/corpus.py:91-96 | the label is cut exactly at the first ".pdf-" when present, is never longer than the folder name, and has every '_' replaced by ' ' with all other characters kept |
| Document.PaperLabelNoUnderscore | paper_chatbot/corpus.py:96 | a label contains no underscore |
| Decimal.Pad6Facts | paper_chatbot/corpus.py:132 | `:06d` renders only digits, reads back as the number, and has exactly six characters below 1000000; from there on it is the plain rendering, with no leading zero added |
| Decimal.Pad6Injective | paper_chatbot/corpus.py:132 | two indexes render equal exactly when they are equal |
| Decimal.IntToStringInjective | paper_chatbot/rag.py:79 | decimal rendering of integers, with a leading '-' for negatives, is injective, so distinct ranks and pages render differently |
| Document.ChunkIdInjective | paper_chatbot/corpus.py:132 | two chunk ids of one paper are equal exactly when their item indexes are equal |
| Document.ChunksSpec | paper_chatbot/corpus.py:123-139 | every chunk is built from a surviving item at its own position; chunks follow strictly increasing item index; every surviving item has a chunk |
| Document.ChunkTexts | paper_chatbot/corpus.py:124-126 | every chunk text is non-empty, normalised and at least `min_chars` long |
| Document.ChunkIdsDistinct | paper_chatbot/corpus.py:123-133 | no two chunks of a document share an id |
| Document.ChunksEmpty | paper_chatbot/corpus.py:121-142 | there are no chunks exactly when no item survives extraction and the length filter |
| Document.MaxPageFacts | paper_chatbot/corpus.py:127-129 | the running maximum is absent exactly when no chunk has a page index; otherwise it is some chunk's page index and bounds them all |
| Document.PageCountFacts | paper_chatbot/corpus.py:150 | the page count is one more than the largest page index, or absent when there is none |
| Document.BuildDocument | paper_chatbot/corpus.py:99-160 | there is no document exactly when the input is not a list or no chunk survives; otherwise the chunk count equals the number of chunks and is positive, and the fields carry the paper id, title and paths |
| Document.BuildDocumentPages | paper_chatbot/corpus.py:122-157 | a built document's page count is one more than its chunks' largest page index, or absent |
| Document.BuildDocumentTitle | paper_chatbot/corpus.py:110-111 | a non-empty folder label gives a non-empty title |
| Corpus.ApplyLimit | scripts/build_corpus.py:29-30 | the kept sources are a prefix; no limit or 0 keeps all; a positive limit keeps min(limit, count) |
| Corpus.SuccessesSpec | scripts/build_corpus.py:32-36 | the kept documents are exactly the successful builds, at strictly increasing positions, and no success is left out |
| Corpus.SuccessesAppend | scripts/build_corpus.py:32-36 | collecting over two runs of sources concatenates the two collections |
| Corpus.AssembleCorpus | scripts/build_corpus.py:38-42 | the payload has schema version 1, the given timestamp, and `num_papers` equal to the number of papers, at most the number of kept sources |
| Corpus.AssembleCorpusPapers | scripts/build_corpus.py:28-42 | the payload's papers are the successful builds of the limited sources, in order, with none missing |
| Corpus.CorpusPapersHaveChunks | scripts/build_corpus.py:32-36 | built with `build_document`, every paper has at least one chunk and records its chunk count |
| ChromaIndex.TripleOfFields | paper_chatbot/chroma_index.py:16-26 | the id and text come from the chunk, with text defaulting to ""; paper id, title and paths come from the paper; page, index and type come from the chunk |
| ChromaIndex.IterChunksLength | paper_chatbot/chroma_index.py:11-27 | one triple is yielded per chunk, summed over the papers |
| ChromaIndex.IterChunksAppend | paper_chatbot/chroma_index.py:12-15 | flattening two runs of papers concatenates their triples and adds their chunk counts |
| ChromaIndex.IterChunksAt | paper_chatbot/chroma_index.py:12-27 | chunk j of paper i is yielded at position (chunks of the earlier papers) + j |
| ChromaIndex.NoChunksNoTriples | paper_chatbot/chroma_index.py:15 | a paper without a chunk list, or with an empty one, contributes nothing |
| ChromaIndex.StoredDocumentIdsDistinct | paper_chatbot/chroma_index.py:16 | the triples of a built document carry pairwise distinct ids |
| BuildChroma.ChunkedFlatten | scripts/build_chroma.py:20-28 | concatenating the batches gives the input back |
| BuildChroma.ChunkedFromNoEmpty | scripts/build_chroma.py:22-28 | no batch is empty |
| BuildChroma.ChunkedSizes | scripts/build_chroma.py:20-28 | for size ≥ 1 every batch but the last has exactly `size` elements and the last at most `size`; for size ≤ 1 every batch has one element |
| BuildChroma.LimitChunks | scripts/build_chroma.py:62-63 | the kept chunks are a prefix; no limit or 0 keeps all; a negative limit keeps none; a positive limit keeps min(limit, count) |
| BuildChroma.ExistingIds | scripts/build_chroma.py:50-56 | the existing-id set is empty unless skip-existing is on and reset is off, and is then the stored ids |
| BuildChroma.KeptFacts | scripts/build_chroma.py:72-78 | every chunk of a batch is sent or counted as skipped; a sent chunk is from the batch and not one to skip; a chunk not to skip is sent; without skipping the whole batch is sent |
| BuildChroma.KeptAppend | scripts/build_chroma.py:72-78 | filtering two runs of chunks concatenates the filtered runs |
| BuildChroma.RunBatchesFacts | scripts/build_chroma.py:68-85 | the calls send exactly the chunks not to skip, in order, never in an empty call; indexed equals the number sent; indexed plus skipped equals the number processed |
| BuildChroma.RunBatchesCalls | scripts/build_chroma.py:68-84 | the loop makes one call per batch whose unskipped part is non-empty, in batch order, sending exactly that part |
| BuildChroma.RunBatchesCallSize | scripts/build_chroma.py:68-85 | no call sends more chunks than a batch holds |
| BuildChroma.IndexCorpusFacts | scripts/build_chroma.py:61-85 | over the limited triples of the corpus, the run sends exactly the ones not to skip, one call per `batch_size` batch with something to send, counts every one, and sends at most `batch_size` per call |
| BuildChroma.IndexCorpusNoSkip | scripts/build_chroma.py:68-85 | without skip-existing every limited triple is sent, in order, and none is skipped |
| Rag.Rows | paper_chatbot/rag.py:69-74 | one row per position of the shortest list, pairing the documents, metadata, ids and distances at that position |
| Rag.LocationFacts | paper_chatbot/rag.py:75-79 | the location starts with the title; the title is the paper title if non-empty, else the paper id if non-empty, else "Unknown"; ", page N" with N = page index + 1 is appended exactly when the page index is an integer |
| Rag.BlockFacts | paper_chatbot/rag.py:81 | a block is "[Source k] " for its rank k, then the passage's location, then one newline, then the stripped passage text; for a single-line location that newline is the block's first |
| Rag.PackCountFacts | paper_chatbot/rag.py:82-85 | the packed blocks are the greedy prefix: at least the first block when there is one; within the budget once two or more are taken; the next block, if any, would overflow |
| Rag.GreedyPackUnique | paper_chatbot/rag.py:82-85 | only one prefix length satisfies the greedy description |
| Rag.SecondBlockOverflows | paper_chatbot/rag.py:82-85 | two blocks that together exceed the budget pack to exactly one |
| Rag.BuildContextSpec | paper_chatbot/rag.py:59-95 | the context is the "\n\n"-join of the greedy prefix of the ranked blocks, and the listing is the "\n"-join of one source line per packed block, ranked 1..n |
| Rag.BuildContextEmpty | paper_chatbot/rag.py:93-94 | the context is empty, and the listing is "No sources retrieved.", exactly when there are no results |
| Rag.BuildContextKeepsFirst | paper_chatbot/rag.py:82-85 | the context always starts with the first block, whatever the budget |
| Rag.BuildContextLength | paper_chatbot/rag.py:82-93 | once two or more blocks are packed, the context is at most the budget plus two characters per extra block |
| Rag.MissingIdsLabel | paper_chatbot/rag.py:69-90 | without ids, the chunk label of rank k is "chunk-k" |
| Rag.HistoryMessagesFacts | paper_chatbot/rag.py:103-107 | the history becomes one message per non-empty side, none empty and none with the system role |
| Rag.HistoryMessagesAppend | paper_chatbot/rag.py:103-107 | the messages of two stretches of history are those of the first followed by those of the second |
| Rag.HistoryMessagesPair | paper_chatbot/rag.py:104-107 | one exchange gives the user message with its user side first and the assistant message with its assistant side last, each present exactly when that side is non-empty |
| Rag.AnswerMessagesShape | paper_chatbot/rag.py:102-110 | the system prompt comes first, the history messages next, and the context-and-question prompt last; the system role appears only first |
| Rag.EffectiveTopK | paper_chatbot/rag.py:98 | a missing or zero `top_k` uses the configured value; any other is used as given |
| Rag.AnswerFacts | paper_chatbot/rag.py:97-118 | the reply is the stripped chat reply to the messages built around the context packed from what was retrieved with the effective `k`, and the listing is the one built with that context |
| ChatApp.MessagesToPairsSnoc | app.py:47-57 | one more assistant message adds exactly one pair (latest unanswered user or "", its content); any other message adds none |
| ChatApp.PendingIsLatestUnanswered | app.py:50-57 | the loop's pending user is the most recent user message not yet followed by an assistant message |
| ChatApp.OnePairPerAssistant | app.py:47-57 | there is one pair per assistant message, in order, carrying its content |
| ChatApp.UnansweredAssistant | app.py:53-54 | an assistant message with nothing pending pairs with "" |
| ChatApp.LaterUserOverwrites | app.py:50-51 | of two user messages before an answer, the later one is paired |
| ChatApp.NonAssistantAddsNoPair | app.py:47-58 | a trailing user message, or a message of another role, adds no pair |
| ChatApp.PairsRoundTrip | app.py:44-58 | folding a history of user/assistant exchanges gives the exchanges back |
| ChatApp.Respond | app.py:60-78 | an empty message returns the history unchanged; otherwise exactly the user message and one reply are appended; the textbox is cleared; without an index or message the sources are empty, and otherwise they are the listing `rag.answer` returns |
| ChatApp.RespondAddsOnePair | app.py:72-77 | seen as pairs, a non-empty message adds exactly (message, reply) |

## Left out

- File system and JSON I/O are not modelled. This covers `find_content_lists`,
  `load_content_list`, `load_corpus`, `folder.glob` and the output writing. Items and the
  sorted PDF names come in as values, and a source that is not a list is the `Malformed`
  content.
- The sorting in `find_content_lists` and `_infer_pdf_path` is not modelled: the sources and
  PDF names are taken as already sorted.
- Path relativisation (`Path.relative_to` with its fallback) is not modelled. The relative
  source and PDF paths are given with the source.
- The embedding and chat services and the Chroma client are left out: `_retrieve`,
  `embed_texts` with its retry and sleep, `get_collection`, and `collection.add/get/query`.
  Retrieval and chat are function parameters, and an index call is recorded as the triples it
  would send.
- Float formatting of distances (`:.3f`) is not modelled. A distance is given already
  rendered, or as absent for "n/a".
- The UTC timestamp is a parameter.
- The Gradio UI wiring and the environment loading in `config.py` are left out, and so are
  the settings and command-line defaults: the configuration comes in as values.
- Text.SplitLines: only '\n' ends a line, while Python's `splitlines` knows more terminators.
  "" splits into [""] and a trailing '\n' yields a trailing "". Both vanish once blank lines
  are dropped.
- Whitespace.NormalizeWords: stated for texts whose only white characters are spaces, tabs and
  newlines, because Text.SplitLines treats '\r', '\v' and '\f' as ordinary characters where
  Python's `splitlines` ends a line; Whitespace.CleanLineWords gives the general form for the
  model's lines.
- Whitespace.Normalize: its own contract states the shape of the result and the characters it
  keeps; the content of each line is stated by Whitespace.CleanLineWords and
  Whitespace.NormalizeWords.
- Text.StripFacts: `IsWhite` is six of the characters Python's `strip` removes; the separators
  '\x1c' to '\x1f' and other Unicode whitespace are kept by the model.
- Document.InferTitleHeading: a `text_level` of `1.0` or `true` compares equal to 1 in the
  source and marks a title heading, but the model reads only integer levels, so such an item is
  not taken as the title.
- Rag.Rows: metadata that is missing or null reads as all fields missing. A `page_idx` that is
  not an integer (a float or a string) is represented as absent. `isinstance(x, int)` accepting
  `bool` is not modelled.
- ChromaIndex.TripleOfFields: a `text` field that is present but null reads as "". In Python
  it would pass through as `None`.
- ChatApp.Respond: a null message `content` reads as "", the slider value `k` is taken as
  an integer, and exceptions raised by `rag.answer` are not modelled.
- Extract.ExtractTextFacts: fields holding values of the wrong JSON type are not modelled,
  for example a null `text` on a text item, on which the source would raise.
- Corpus.AssembleCorpus: the builder is a total function. An exception escaping
  `build_document` would abort the Python loop.
