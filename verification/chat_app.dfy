/**
 * The two pieces of logic in the chat front end: folding the chat widget's message list into
 * (user, assistant) pairs, and the history update of one `respond` call.
 */
module ChatApp {

  import opened Wrappers

  /** A chat widget message: `role` is None when the key is missing, and a missing content
      reads as "". */
  datatype ChatMessage = ChatMessage(role: Option<string>, content: string)

  predicate IsUser(m: ChatMessage)
  {
    m.role == Some("user")
  }

  predicate IsAssistant(m: ChatMessage)
  {
    m.role == Some("assistant")
  }

  /** The pending user message after one message has been read. */
  function Step(pending: Option<string>, m: ChatMessage): Option<string>
  {
    if IsUser(m) then Some(m.content) else if IsAssistant(m) then None else pending
  }

  /** The loop of `_messages_to_pairs` from the state `pending` on. */
  function PairsFrom(msgs: seq<ChatMessage>, pending: Option<string>): seq<(string, string)>
  {
    if |msgs| == 0 then []
    else
      var m := msgs[0];
      (if IsAssistant(m) then [(pending.GetOr(""), m.content)] else [])
        + PairsFrom(msgs[1..], Step(pending, m))
  }

  /** The pending user message once the loop has read all of `msgs`. */
  function PendingAfter(msgs: seq<ChatMessage>, pending: Option<string>): Option<string>
  {
    if |msgs| == 0 then pending else PendingAfter(msgs[1..], Step(pending, msgs[0]))
  }

  /** `_messages_to_pairs(messages)` */
  function MessagesToPairs(msgs: seq<ChatMessage>): seq<(string, string)>
  {
    PairsFrom(msgs, None)
  }

  /** Reading backwards: the content of the most recent user message not yet followed by an
      assistant message. */
  function LatestUnanswered(msgs: seq<ChatMessage>): Option<string>
  {
    if |msgs| == 0 then None
    else
      var m := msgs[|msgs| - 1];
      if IsUser(m) then Some(m.content)
      else if IsAssistant(m) then None
      else LatestUnanswered(msgs[..|msgs| - 1])
  }

  lemma {:induction false} PairsFromSnoc(msgs: seq<ChatMessage>, m: ChatMessage, pending: Option<string>)
    ensures PairsFrom(msgs + [m], pending)
      == PairsFrom(msgs, pending)
         + (if IsAssistant(m) then [(PendingAfter(msgs, pending).GetOr(""), m.content)] else [])
    ensures PendingAfter(msgs + [m], pending) == Step(PendingAfter(msgs, pending), m)
  {
    if |msgs| == 0 {
      assert msgs + [m] == [m];
      assert [m][1..] == [];
    } else {
      assert (msgs + [m])[0] == msgs[0];
      assert (msgs + [m])[1..] == msgs[1..] + [m];
      PairsFromSnoc(msgs[1..], m, Step(pending, msgs[0]));
    }
  }

  /** The loop's pending user is the most recent unanswered user message. */
  lemma {:induction false} PendingIsLatestUnanswered(msgs: seq<ChatMessage>)
    ensures PendingAfter(msgs, None) == LatestUnanswered(msgs)
    decreases |msgs|
  {
    if |msgs| > 0 {
      var init := msgs[..|msgs| - 1];
      PendingIsLatestUnanswered(init);
      assert init + [msgs[|msgs| - 1]] == msgs;
      PairsFromSnoc(init, msgs[|msgs| - 1], None);
    }
  }

  /** Reading one more message: an assistant message adds exactly one pair, made of the most
      recent unanswered user message (or "" when there is none) and its own content; any other
      message adds nothing. */
  lemma MessagesToPairsSnoc(msgs: seq<ChatMessage>, m: ChatMessage)
    ensures MessagesToPairs(msgs + [m])
      == MessagesToPairs(msgs)
         + (if IsAssistant(m) then [(LatestUnanswered(msgs).GetOr(""), m.content)] else [])
  {
    PairsFromSnoc(msgs, m, None);
    PendingIsLatestUnanswered(msgs);
  }

  /** A trailing user message, or a message of any other role, yields no pair. */
  lemma NonAssistantAddsNoPair(msgs: seq<ChatMessage>, m: ChatMessage)
    requires !IsAssistant(m)
    ensures MessagesToPairs(msgs + [m]) == MessagesToPairs(msgs)
  {
    MessagesToPairsSnoc(msgs, m);
  }

  /** An assistant message answering nothing is paired with "". */
  lemma UnansweredAssistant(msgs: seq<ChatMessage>, m: ChatMessage)
    requires IsAssistant(m) && LatestUnanswered(msgs).None?
    ensures MessagesToPairs(msgs + [m]) == MessagesToPairs(msgs) + [("", m.content)]
  {
    MessagesToPairsSnoc(msgs, m);
  }

  /** A second user message before any answer replaces the first. */
  lemma LaterUserOverwrites(msgs: seq<ChatMessage>, u1: ChatMessage, u2: ChatMessage, a: ChatMessage)
    requires IsUser(u1) && IsUser(u2) && IsAssistant(a)
    ensures MessagesToPairs(msgs + [u1, u2, a]) == MessagesToPairs(msgs) + [(u2.content, a.content)]
  {
    assert msgs + [u1, u2, a] == ((msgs + [u1]) + [u2]) + [a];
    NonAssistantAddsNoPair(msgs, u1);
    NonAssistantAddsNoPair(msgs + [u1], u2);
    MessagesToPairsSnoc((msgs + [u1]) + [u2], a);
  }

  /** The contents of the assistant messages, in order. */
  function AssistantContents(msgs: seq<ChatMessage>): seq<string>
  {
    if |msgs| == 0 then []
    else
      AssistantContents(msgs[..|msgs| - 1])
        + (if IsAssistant(msgs[|msgs| - 1]) then [msgs[|msgs| - 1].content] else [])
  }

  /** One pair per assistant message, in input order, carrying its content. */
  lemma {:induction false} OnePairPerAssistant(msgs: seq<ChatMessage>)
    ensures |MessagesToPairs(msgs)| == |AssistantContents(msgs)|
    ensures forall k :: 0 <= k < |MessagesToPairs(msgs)| ==> MessagesToPairs(msgs)[k].1 == AssistantContents(msgs)[k]
    decreases |msgs|
  {
    if |msgs| > 0 {
      var init := msgs[..|msgs| - 1];
      var m := msgs[|msgs| - 1];
      OnePairPerAssistant(init);
      assert init + [m] == msgs;
      MessagesToPairsSnoc(init, m);
    }
  }

  /** The message list `respond` appends for each exchange. */
  function PairsToMessages(pairs: seq<(string, string)>): seq<ChatMessage>
  {
    if |pairs| == 0 then []
    else
      PairsToMessages(pairs[..|pairs| - 1])
        + [ChatMessage(Some("user"), pairs[|pairs| - 1].0), ChatMessage(Some("assistant"), pairs[|pairs| - 1].1)]
  }

  /** Folding a history made of exchanges gives the exchanges back. */
  lemma {:induction false} PairsRoundTrip(pairs: seq<(string, string)>)
    ensures MessagesToPairs(PairsToMessages(pairs)) == pairs
    decreases |pairs|
  {
    if |pairs| > 0 {
      var init := pairs[..|pairs| - 1];
      var (u, a) := pairs[|pairs| - 1];
      var um, am := ChatMessage(Some("user"), u), ChatMessage(Some("assistant"), a);
      PairsRoundTrip(init);
      var ms := PairsToMessages(init);
      assert PairsToMessages(pairs) == (ms + [um]) + [am];
      NonAssistantAddsNoPair(ms, um);
      MessagesToPairsSnoc(ms + [um], am);
      assert init + [(u, a)] == pairs;
    }
  }

  // ------------------------------------------------------------------ respond

  const IndexUnavailable: string := "Index is not available. Please build the corpus and Chroma index."

  /** The three outputs of `respond`: the chat history, the cleared textbox and the sources. */
  datatype Ui = Ui(history: seq<ChatMessage>, textbox: string, sources: string)

  /** The reply `respond` records for a non-empty message. */
  function Reply(
    message: string, history: seq<ChatMessage>, k: int,
    rag: Option<(string, seq<(string, string)>, int) -> (string, string)>): string
  {
    if rag.None? then IndexUnavailable else rag.value(message, MessagesToPairs(history), k).0
  }

  /** `respond(message, history, k)`; `rag` is None when the chatbot failed to start, and
      otherwise stands for `rag.answer`, returning the answer and the source listing. An empty
      message changes nothing; otherwise the history grows by exactly the user message and one
      assistant reply, and the textbox is always cleared. */
  function Respond(
    message: string, history: Option<seq<ChatMessage>>, k: int,
    rag: Option<(string, seq<(string, string)>, int) -> (string, string)>): (u: Ui)
    ensures var h := if history.Some? then history.value else [];
      && u.textbox == ""
      && (message == "" ==> u == Ui(h, "", ""))
      && (message != "" ==>
            && |u.history| == |h| + 2
            && u.history[..|h|] == h
            && u.history[|h|] == ChatMessage(Some("user"), message)
            && u.history[|h| + 1] == ChatMessage(Some("assistant"), Reply(message, h, k, rag)))
      && (message == "" || rag.None? ==> u.sources == "")
      && (message != "" && rag.Some? ==> u.sources == rag.value(message, MessagesToPairs(h), k).1)
  {
    var h := history.GetOr([]);
    if message == "" then Ui(h, "", "")
    else if rag.None? then
      Ui(h + [ChatMessage(Some("user"), message), ChatMessage(Some("assistant"), IndexUnavailable)], "", "")
    else
      var (answer, sources) := rag.value(message, MessagesToPairs(h), k);
      Ui(h + [ChatMessage(Some("user"), message), ChatMessage(Some("assistant"), answer)], "", sources)
  }

  /** Seen as pairs, a call with a non-empty message adds exactly one exchange: the message
      with its reply. */
  lemma RespondAddsOnePair(
    message: string, history: seq<ChatMessage>, k: int,
    rag: Option<(string, seq<(string, string)>, int) -> (string, string)>)
    requires message != ""
    ensures MessagesToPairs(Respond(message, Some(history), k, rag).history)
      == MessagesToPairs(history) + [(message, Reply(message, history, k, rag))]
  {
    var um := ChatMessage(Some("user"), message);
    var am := ChatMessage(Some("assistant"), Reply(message, history, k, rag));
    assert Respond(message, Some(history), k, rag).history == (history + [um]) + [am];
    NonAssistantAddsNoPair(history, um);
    MessagesToPairsSnoc(history + [um], am);
  }
}
