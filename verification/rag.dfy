/**
 * `RAGChatbot` minus its network calls: `_build_context` packs the retrieved passages into a
 * context under a character budget and lists their sources, and `answer` assembles the chat
 * messages around it.
 */
module Rag {

  import opened Wrappers
  import opened Text
  import opened Decimal

  // ----------------------------------------------------------------- results

  /** The metadata of one retrieved passage; a missing or null metadata dict has every field
      missing. */
  datatype Meta = Meta(paperTitle: Option<string>, paperId: Option<string>, pageIdx: Option<int>)

  /** The first (and only) query's lists from `collection.query`; a missing list is empty.
      A distance is present only when it is a number, and then as its `:.3f` rendering. */
  datatype Retrieved = Retrieved(
    documents: seq<string>,
    metadatas: seq<Meta>,
    ids: seq<Option<string>>,
    distances: seq<Option<string>>)

  /** One step of the `zip`. */
  datatype Row = Row(doc: string, meta: Meta, id: Option<string>, distance: Option<string>)

  function Min(a: int, b: int): int
  {
    if a < b then a else b
  }

  /** `ids = [None] * len(documents)` when the ids list is empty. */
  function EffectiveIds(r: Retrieved): (ids: seq<Option<string>>)
    ensures |r.ids| > 0 ==> ids == r.ids
    ensures |r.ids| == 0 ==> |ids| == |r.documents| && forall i :: 0 <= i < |ids| ==> ids[i].None?
  {
    if |r.ids| > 0 then r.ids else seq(|r.documents|, _ => None)
  }

  /** `zip(documents, metadatas, ids, distances)`: as many rows as the shortest list. */
  function Rows(r: Retrieved): (rows: seq<Row>)
    ensures |rows| == Min(Min(|r.documents|, |r.metadatas|), Min(|EffectiveIds(r)|, |r.distances|))
    ensures forall i :: 0 <= i < |rows| ==>
      rows[i] == Row(r.documents[i], r.metadatas[i], EffectiveIds(r)[i], r.distances[i])
  {
    var ids := EffectiveIds(r);
    var n := Min(Min(|r.documents|, |r.metadatas|), Min(|ids|, |r.distances|));
    seq(n, i requires 0 <= i < n => Row(r.documents[i], r.metadatas[i], ids[i], r.distances[i]))
  }

  // ---------------------------------------------------------------- rendering

  /** Python truthiness of an optional string. */
  predicate Truthy(s: Option<string>)
  {
    s.Some? && s.value != ""
  }

  /** `paper_title or paper_id or "Unknown"` */
  function Title(m: Meta): string
  {
    if Truthy(m.paperTitle) then m.paperTitle.value
    else if Truthy(m.paperId) then m.paperId.value
    else "Unknown"
  }

  /** The title, followed by the one-based page when the page index is an integer. */
  function Location(m: Meta): string
  {
    if m.pageIdx.Some? then Title(m) + ", page " + IntToString(m.pageIdx.value + 1) else Title(m)
  }

  /** The context block of the row ranked `rank`. */
  function Block(rank: int, row: Row): string
  {
    "[Source " + IntToString(rank) + "] " + Location(row.meta) + "\n" + Strip(row.doc)
  }

  /** `chunk_id or f"chunk-{idx}"` */
  function ChunkLabel(rank: int, row: Row): string
  {
    if Truthy(row.id) then row.id.value else "chunk-" + IntToString(rank)
  }

  /** The source line of the row ranked `rank`. */
  function SourceLine(rank: int, row: Row): string
  {
    var score := if row.distance.Some? then row.distance.value else "n/a";
    IntToString(rank) + ". " + Location(row.meta) + " (chunk " + ChunkLabel(rank, row) + ", score " + score + ")"
  }

  /** The location names the title, falls back from title to id to "Unknown", and mentions a
      page exactly when the metadata has an integer page index. */
  lemma LocationFacts(m: Meta)
    ensures Location(m)[..|Title(m)|] == Title(m)
    ensures Truthy(m.paperTitle) ==> Title(m) == m.paperTitle.value
    ensures !Truthy(m.paperTitle) && Truthy(m.paperId) ==> Title(m) == m.paperId.value
    ensures !Truthy(m.paperTitle) && !Truthy(m.paperId) ==> Title(m) == "Unknown"
    ensures m.pageIdx.None? <==> Location(m) == Title(m)
    ensures m.pageIdx.Some? ==> Location(m) == Title(m) + ", page " + IntToString(m.pageIdx.value + 1)
  {
  }

  /** Every block opens with its rank and the passage's location, then one newline, then the
      stripped passage text; when the location is a single line, that newline is the block's
      first. */
  lemma BlockFacts(rank: int, row: Row)
    ensures |Block(rank, row)| > 0 && Block(rank, row)[0] == '['
    ensures var head := "[Source " + IntToString(rank) + "] ";
      Block(rank, row)[..|head|] == head
    ensures var b, h := Block(rank, row), "[Source " + IntToString(rank) + "] " + Location(row.meta);
      && |h| < |b| && b[..|h|] == h && b[|h|] == '\n' && b[|h| + 1..] == Strip(row.doc)
      && (NoNewline(Location(row.meta)) ==> Find(b, "\n") == Some(|h|))
  {
    var pre := "[Source " + IntToString(rank) + "] ";
    var h := pre + Location(row.meta);
    assert Block(rank, row) == h + "\n" + Strip(row.doc);
    if NoNewline(Location(row.meta)) {
      IntToStringNoNewline(rank);
      assert NoNewline(pre);
      NoNewlineAppend(pre, Location(row.meta));
      FirstNewline(h, Strip(row.doc));
    }
  }

  lemma NoNewlineAppend(a: string, b: string)
    requires NoNewline(a) && NoNewline(b)
    ensures NoNewline(a + b)
  {
    assert forall i :: 0 <= i < |a + b| ==> (a + b)[i] == (if i < |a| then a[i] else b[i - |a|]);
  }

  /** In `h + "\n" + t` with `h` a single line, the first newline follows `h`. */
  lemma FirstNewline(h: string, t: string)
    requires NoNewline(h)
    ensures Find(h + "\n" + t, "\n") == Some(|h|)
  {
    var b := h + "\n" + t;
    forall i: nat | i < |h| ensures !OccursAt(b, "\n", i) {
      assert b[i..i + 1] == [h[i]];
    }
    assert b[|h|..|h| + 1] == "\n";
    assert OccursAt(b, "\n", |h|);
  }

  lemma IntToStringNoNewline(n: int)
    ensures NoNewline(IntToString(n))
  {
    var m := if n < 0 then -n else n;
    DigitsFacts(m);
    var s := IntToString(n);
    assert forall i :: 0 <= i < |s| ==> s[i] == '-' || IsDigit(s[i]);
  }

  // ------------------------------------------------------------------ packing

  /** The total length of some strings. */
  function SumLen(ss: seq<string>): nat
  {
    if |ss| == 0 then 0 else SumLen(ss[..|ss| - 1]) + |ss[|ss| - 1]|
  }

  /** The packing loop from block `i` on, `total` being the length already taken: a block is
      taken when nothing is taken yet or when it still fits; the first that does not fit ends
      the loop. The result is the number of blocks taken. */
  function PackFrom(blocks: seq<string>, i: nat, total: int, maxChars: int): nat
    requires i <= |blocks|
    decreases |blocks| - i
  {
    if i == |blocks| then i
    else if i > 0 && total + |blocks[i]| > maxChars then i
    else PackFrom(blocks, i + 1, total + |blocks[i]|, maxChars)
  }

  /** How many of `blocks` the context takes. */
  function PackCount(blocks: seq<string>, maxChars: int): nat
  {
    PackFrom(blocks, 0, 0, maxChars)
  }

  /** `n` blocks is what greedy packing takes: at least the first block, all of them within the
      budget once two or more are taken, and, if it stopped early, the next would overflow. */
  predicate IsGreedyPack(blocks: seq<string>, maxChars: int, n: nat)
  {
    && n <= |blocks|
    && (|blocks| > 0 ==> n >= 1)
    && (n >= 2 ==> SumLen(blocks[..n]) <= maxChars)
    && (n < |blocks| ==> SumLen(blocks[..n]) + |blocks[n]| > maxChars)
  }

  lemma {:induction false} PackFromFacts(blocks: seq<string>, i: nat, maxChars: int)
    requires i <= |blocks|
    requires i >= 2 ==> SumLen(blocks[..i]) <= maxChars
    ensures var n := PackFrom(blocks, i, SumLen(blocks[..i]), maxChars);
      && i <= n
      && (i == 0 && |blocks| > 0 ==> n >= 1)
      && IsGreedyPack(blocks, maxChars, n)
    decreases |blocks| - i
  {
    var total := SumLen(blocks[..i]);
    if i < |blocks| && !(i > 0 && total + |blocks[i]| > maxChars) {
      assert blocks[..i + 1][..i] == blocks[..i];
      assert SumLen(blocks[..i + 1]) == total + |blocks[i]|;
      PackFromFacts(blocks, i + 1, maxChars);
    }
  }

  /** The packed blocks are the greedy prefix. */
  lemma PackCountFacts(blocks: seq<string>, maxChars: int)
    ensures IsGreedyPack(blocks, maxChars, PackCount(blocks, maxChars))
  {
    assert blocks[..0] == [];
    PackFromFacts(blocks, 0, maxChars);
  }

  /** Two blocks that do not fit together: only the first is taken, however small the budget. */
  lemma SecondBlockOverflows(blocks: seq<string>, maxChars: int)
    requires |blocks| == 2 && |blocks[0]| + |blocks[1]| > maxChars
    ensures PackCount(blocks, maxChars) == 1
  {
    var one := blocks[..2][..1];
    assert blocks[..2] == blocks && one == [blocks[0]];
    assert SumLen(one) == SumLen(one[..0]) + |blocks[0]|;
    assert SumLen(blocks[..2]) == |blocks[0]| + |blocks[1]|;
    PackCountFacts(blocks, maxChars);
  }

  /** Only one count satisfies the greedy description. */
  lemma GreedyPackUnique(blocks: seq<string>, maxChars: int, n: nat, m: nat)
    requires IsGreedyPack(blocks, maxChars, n) && IsGreedyPack(blocks, maxChars, m)
    ensures n == m
  {
    if n < m {
      assert blocks[..n + 1][..n] == blocks[..n];
      SumLenPrefixMono(blocks, n + 1, m);
    } else if m < n {
      assert blocks[..m + 1][..m] == blocks[..m];
      SumLenPrefixMono(blocks, m + 1, n);
    }
  }

  lemma {:induction false} SumLenPrefixMono(ss: seq<string>, i: nat, j: nat)
    requires i <= j <= |ss|
    ensures SumLen(ss[..i]) <= SumLen(ss[..j])
    decreases j - i
  {
    if i < j {
      SumLenPrefixMono(ss, i, j - 1);
      assert ss[..j][..j - 1] == ss[..j - 1];
    }
  }

  /** A separator-join is as long as its parts plus one separator between each two. */
  lemma {:induction false} JoinLength(sep: string, parts: seq<string>)
    requires |parts| >= 1
    ensures |Join(sep, parts)| == SumLen(parts) + |sep| * (|parts| - 1)
    decreases |parts|
  {
    if |parts| > 1 {
      var init := parts[..|parts| - 1];
      JoinLength(sep, init);
      assert init + [parts[|parts| - 1]] == parts;
      JoinAppend(sep, init, [parts[|parts| - 1]]);
    }
  }

  /** A join starts with its first part. */
  lemma JoinStartsWithFirst(sep: string, parts: seq<string>)
    requires |parts| >= 1
    ensures |parts[0]| <= |Join(sep, parts)| && Join(sep, parts)[..|parts[0]|] == parts[0]
  {
  }

  lemma JoinFirst(sep: string, parts: seq<string>)
    requires |parts| >= 1 && |parts[0]| > 0
    ensures |Join(sep, parts)| > 0 && Join(sep, parts)[0] == parts[0][0]
  {
  }

  // ------------------------------------------------------------------ context

  function Blocks(rows: seq<Row>): (bs: seq<string>)
    ensures |bs| == |rows|
    ensures forall i :: 0 <= i < |rows| ==> bs[i] == Block(i + 1, rows[i])
  {
    seq(|rows|, i requires 0 <= i < |rows| => Block(i + 1, rows[i]))
  }

  function SourceLines(rows: seq<Row>, n: nat): (ls: seq<string>)
    requires n <= |rows|
    ensures |ls| == n
    ensures forall i :: 0 <= i < n ==> ls[i] == SourceLine(i + 1, rows[i])
  {
    seq(n, i requires 0 <= i < n => SourceLine(i + 1, rows[i]))
  }

  /** `_build_context(results, max_chars)`: the joined context and the source listing. */
  function BuildContext(r: Retrieved, maxChars: int): (string, string)
  {
    var rows := Rows(r);
    var blocks := Blocks(rows);
    var n := PackCount(blocks, maxChars);
    PackCountFacts(blocks, maxChars);
    var lines := SourceLines(rows, n);
    (Join("\n\n", blocks[..n]), if n == 0 then "No sources retrieved." else Join("\n", lines))
  }

  /** The context is the "\n\n"-join of the greedily packed prefix of the ranked blocks, and the
      listing has one line per packed block, with the same ranks, in the same order. */
  lemma BuildContextSpec(r: Retrieved, maxChars: int)
    ensures var rows := Rows(r);
      exists n: nat :: n <= |rows|
        && IsGreedyPack(Blocks(rows), maxChars, n)
        && BuildContext(r, maxChars).0 == Join("\n\n", Blocks(rows)[..n])
        && (n > 0 ==> BuildContext(r, maxChars).1 == Join("\n", SourceLines(rows, n)))
  {
    var rows := Rows(r);
    PackCountFacts(Blocks(rows), maxChars);
    var n := PackCount(Blocks(rows), maxChars);
    assert n <= |rows|;
  }

  /** No row: an empty context and "No sources retrieved."; otherwise neither. */
  lemma BuildContextEmpty(r: Retrieved, maxChars: int)
    ensures BuildContext(r, maxChars).0 == "" <==> |Rows(r)| == 0
    ensures BuildContext(r, maxChars).1 == "No sources retrieved." <==> |Rows(r)| == 0
  {
    var rows := Rows(r);
    var blocks := Blocks(rows);
    PackCountFacts(blocks, maxChars);
    var n := PackCount(blocks, maxChars);
    if n > 0 {
      BlockFacts(1, rows[0]);
      JoinFirst("\n\n", blocks[..n]);
      var lines := SourceLines(rows, n);
      var d := Digits(1);
      assert IntToString(1) == d && d == ['1'];
      assert lines[0][0] == '1';
      JoinFirst("\n", lines);
    }
  }

  /** Without ids every listed chunk is labelled by its rank. */
  lemma MissingIdsLabel(r: Retrieved, i: nat)
    requires |r.ids| == 0 && i < |Rows(r)|
    ensures ChunkLabel(i + 1, Rows(r)[i]) == "chunk-" + IntToString(i + 1)
  {
    assert Rows(r)[i].id == EffectiveIds(r)[i];
  }

  /** The first block is always in the context, even alone over budget. */
  lemma BuildContextKeepsFirst(r: Retrieved, maxChars: int)
    requires |Rows(r)| > 0
    ensures var c := BuildContext(r, maxChars).0;
      var b := Block(1, Rows(r)[0]);
      |b| <= |c| && c[..|b|] == b
  {
    var rows := Rows(r);
    var blocks := Blocks(rows);
    PackCountFacts(blocks, maxChars);
    var n := PackCount(blocks, maxChars);
    JoinStartsWithFirst("\n\n", blocks[..n]);
  }

  /** Once two or more blocks are taken the context exceeds the budget by at most the
      separators, two characters for each block after the first. */
  lemma BuildContextLength(r: Retrieved, maxChars: int)
    ensures var rows := Rows(r);
      var n := PackCount(Blocks(rows), maxChars);
      n >= 2 ==> |BuildContext(r, maxChars).0| <= maxChars + 2 * (n - 1)
  {
    var rows := Rows(r);
    var blocks := Blocks(rows);
    PackCountFacts(blocks, maxChars);
    var n := PackCount(blocks, maxChars);
    if n >= 2 {
      JoinLength("\n\n", blocks[..n]);
    }
  }

  // ----------------------------------------------------------------- messages

  datatype Role = System | User | Assistant

  datatype Message = Message(role: Role, content: string)

  const SystemPrompt: string :=
    "You are a helpful research assistant for a collection of papers. "
    + "Use the provided context to answer the question. "
    + "If the context does not contain the answer, say you do not know."

  /** The history pairs as messages: per pair, the user side then the assistant side, each
      only when non-empty. */
  function HistoryMessages(history: seq<(string, string)>): seq<Message>
  {
    if |history| == 0 then []
    else
      var (u, a) := history[0];
      (if u != "" then [Message(User, u)] else [])
        + (if a != "" then [Message(Assistant, a)] else [])
        + HistoryMessages(history[1..])
  }

  /** The number of non-empty sides in the history. */
  function NonEmptySides(history: seq<(string, string)>): nat
  {
    if |history| == 0 then 0
    else
      (if history[0].0 != "" then 1 else 0) + (if history[0].1 != "" then 1 else 0)
        + NonEmptySides(history[1..])
  }

  /** The history messages carry exactly the non-empty sides, never an empty content and never
      the system role. */
  lemma {:induction false} HistoryMessagesFacts(history: seq<(string, string)>)
    ensures |HistoryMessages(history)| == NonEmptySides(history)
    ensures forall i :: 0 <= i < |HistoryMessages(history)| ==>
      HistoryMessages(history)[i].content != "" && HistoryMessages(history)[i].role != System
  {
    if |history| > 0 {
      HistoryMessagesFacts(history[1..]);
      var (u, a) := history[0];
      var head := (if u != "" then [Message(User, u)] else []) + (if a != "" then [Message(Assistant, a)] else []);
      var rest := HistoryMessages(history[1..]);
      var r := head + rest;
      assert HistoryMessages(history) == r;
      assert forall i :: |head| <= i < |r| ==> r[i] == rest[i - |head|];
    }
  }

  /** The messages of two stretches of history are those of each stretch, in order. */
  lemma {:induction false} HistoryMessagesAppend(h1: seq<(string, string)>, h2: seq<(string, string)>)
    ensures HistoryMessages(h1 + h2) == HistoryMessages(h1) + HistoryMessages(h2)
  {
    if |h1| == 0 {
      assert h1 + h2 == h2;
    } else {
      assert (h1 + h2)[0] == h1[0];
      assert (h1 + h2)[1..] == h1[1..] + h2;
      HistoryMessagesAppend(h1[1..], h2);
    }
  }

  /** One exchange `(u, a)` gives the user message with `u`, then the assistant message with
      `a`, each present exactly when its content is non-empty. */
  lemma HistoryMessagesPair(u: string, a: string)
    ensures var ms := HistoryMessages([(u, a)]);
      && |ms| == (if u != "" then 1 else 0) + (if a != "" then 1 else 0)
      && (u != "" ==> ms[0] == Message(User, u))
      && (a != "" ==> ms[|ms| - 1] == Message(Assistant, a))
      && (forall i :: 0 <= i < |ms| ==> ms[i].role == User ==> ms[i].content == u)
      && (forall i :: 0 <= i < |ms| ==> ms[i].role == Assistant ==> ms[i].content == a)
  {
    assert [(u, a)][1..] == [];
  }

  function UserPrompt(context: string, question: string): string
  {
    "Context:\n" + context + "\n\nQuestion: " + question
  }

  /** The messages `answer` sends. */
  function AnswerMessages(question: string, history: seq<(string, string)>, context: string): seq<Message>
  {
    [Message(System, SystemPrompt)] + HistoryMessages(history) + [Message(User, UserPrompt(context, question))]
  }

  /** The message list opens with the system prompt, closes with the user prompt, and holds
      the history messages in between; the system role appears nowhere else. */
  lemma AnswerMessagesShape(question: string, history: seq<(string, string)>, context: string)
    ensures var ms := AnswerMessages(question, history, context);
      && |ms| == NonEmptySides(history) + 2
      && ms[0] == Message(System, SystemPrompt)
      && ms[|ms| - 1] == Message(User, UserPrompt(context, question))
      && ms[1..|ms| - 1] == HistoryMessages(history)
      && (forall i :: 1 <= i < |ms| ==> ms[i].role != System)
  {
    HistoryMessagesFacts(history);
    var ms := AnswerMessages(question, history, context);
    var h := HistoryMessages(history);
    assert ms[1..|ms| - 1] == h;
    assert forall i :: 1 <= i < |ms| - 1 ==> ms[i] == h[i - 1];
  }

  /** `top_k or self.top_k`: no value or 0 falls back to the configured value. */
  function EffectiveTopK(topK: Option<int>, configured: int): (k: int)
    ensures topK.None? || topK == Some(0) ==> k == configured
    ensures topK.Some? && topK.value != 0 ==> k == topK.value
  {
    if topK.Some? && topK.value != 0 then topK.value else configured
  }

  /** The chatbot's configuration. */
  datatype Chatbot = Chatbot(topK: int, maxContextChars: int)

  /** `answer(question, history, top_k)`, with the retrieval and the chat completion given as
      functions: retrieve with the effective `k`, build the context, send the messages, and
      return the stripped reply with the source listing. */
  function Answer(
    bot: Chatbot, question: string, history: seq<(string, string)>, topK: Option<int>,
    retrieve: (string, int) -> Retrieved, chat: seq<Message> -> string): (string, string)
  {
    var results := retrieve(question, EffectiveTopK(topK, bot.topK));
    var (context, sources) := BuildContext(results, bot.maxContextChars);
    (Strip(chat(AnswerMessages(question, history, context))), sources)
  }

  /** The reply is the stripped chat reply to the messages built around the context packed from
      what was retrieved with the effective `k`, and the listing is the one built alongside
      that context. */
  lemma AnswerFacts(
    bot: Chatbot, question: string, history: seq<(string, string)>, topK: Option<int>,
    retrieve: (string, int) -> Retrieved, chat: seq<Message> -> string)
    ensures var (reply, sources) := Answer(bot, question, history, topK, retrieve, chat);
      var built := BuildContext(retrieve(question, EffectiveTopK(topK, bot.topK)), bot.maxContextChars);
      && reply == Strip(chat(AnswerMessages(question, history, built.0)))
      && (reply == [] || (!IsWhite(reply[0]) && !IsWhite(reply[|reply| - 1])))
      && sources == BuildContext(retrieve(question, EffectiveTopK(topK, bot.topK)), bot.maxContextChars).1
  {
    var results := retrieve(question, EffectiveTopK(topK, bot.topK));
    var context := BuildContext(results, bot.maxContextChars).0;
    StripFacts(chat(AnswerMessages(question, history, context)));
  }
}
