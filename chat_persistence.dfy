/**
 * Per-user chat history kept in a document collection ("chat-history"),
 * with a word-count threshold past which the conversation is summarised by a
 * hosted language model.
 *
 * The collection is a map from user id to record; the language model is an
 * oracle `Completer` that either answers with text or fails; the current time
 * is a parameter.
 */
module ChatPersistence {
  import opened Wrappers
  import opened Text

  /** Word-count threshold: only a strictly larger count is summarised. */
  const MaxTokenCount: nat := 2000

  /** What summarisation returns when the model call fails. */
  const SummaryErrorText: string := "Error summarizing conversation"

  const SummaryModel: string := "text-davinci-003"
  const SummaryMaxTokens: nat := 150
  const SummaryPromptHeader: string := "Summarize the following conversation:\n"

  type UserId = string

  /** A field of a stored turn: absent, a Python `str`, or any other value (with its `str()` rendering). */
  datatype Field = Missing | Str(s: string) | NonStr(shown: string)

  /** One stored turn: `{user_message, ai_message, timestamp}`. */
  datatype Turn = Turn(userMessage: Field, aiMessage: Field, timestamp: Field)

  /** The empty document `{}`. */
  const EmptyTurn: Turn := Turn(Missing, Missing, Missing)

  /** The turn a save writes; `timestamp` is the ISO time of the call. */
  function NewTurn(userMessage: string, aiMessage: string, timestamp: string): Turn {
    Turn(Str(userMessage), Str(aiMessage), Str(timestamp))
  }

  /** A stored document; every field but the key is optional. */
  datatype ChatRecord = ChatRecord(
    history: Option<seq<Turn>>,    // conversation_history
    summary: Option<string>,       // conversation_summary
    lastMessage: Option<Turn>)     // last_message

  type Store = map<UserId, ChatRecord>

  datatype ChatError = KeyError(key: string)

  datatype CompletionRequest = CompletionRequest(model: string, prompt: string, maxTokens: nat)

  /** The model call: `None` when it raises, otherwise the text of its first choice. */
  type Completer = CompletionRequest -> Option<string>

  /** `msg.get(key, "")`. */
  function GetOrEmpty(f: Field): Field {
    if f.Missing? then Str("") else f
  }

  /** Words contributed by one turn; a turn with a non-string message contributes nothing. */
  function TurnTokens(m: Turn): (n: nat)
    ensures m.userMessage.Str? && m.aiMessage.Str? ==> n == WordCount(m.userMessage.s) + WordCount(m.aiMessage.s)
    ensures m.userMessage.NonStr? || m.aiMessage.NonStr? ==> n == 0
    ensures m.userMessage.Str? && m.aiMessage.Missing? ==> n == WordCount(m.userMessage.s)
    ensures m.userMessage.Missing? && m.aiMessage.Str? ==> n == WordCount(m.aiMessage.s)
  {
    var u := GetOrEmpty(m.userMessage);
    var a := GetOrEmpty(m.aiMessage);
    if u.Str? && a.Str? then WordCount(u.s) + WordCount(a.s) else 0
  }

  /** Approximate token count of a conversation: the sum of its turns' word counts. */
  function TokenCount(ms: seq<Turn>): nat {
    if ms == [] then 0 else TokenCount(ms[..|ms| - 1]) + TurnTokens(ms[|ms| - 1])
  }

  /** `get_token_count`: the accumulating loop. */
  method GetTokenCount(messages: seq<Turn>) returns (total: nat)
    ensures total == TokenCount(messages)
  {
    total := 0;
    var i := 0;
    while i < |messages|
      invariant 0 <= i <= |messages|
      invariant total == TokenCount(messages[..i])
    {
      var msg := messages[i];
      var userMessage := GetOrEmpty(msg.userMessage);
      var aiMessage := GetOrEmpty(msg.aiMessage);
      if userMessage.Str? && aiMessage.Str? {
        total := total + WordCount(userMessage.s) + WordCount(aiMessage.s);
      }
      assert messages[..i + 1][..i] == messages[..i];
      i := i + 1;
    }
    assert messages[..i] == messages;
  }

  /** The count of a concatenation is the sum of the counts. */
  lemma {:induction false} TokenCountConcat(xs: seq<Turn>, ys: seq<Turn>)
    ensures TokenCount(xs + ys) == TokenCount(xs) + TokenCount(ys)
    decreases |ys|
  {
    if ys == [] {
      assert xs + ys == xs;
    } else {
      var zs, init, last := xs + ys, ys[..|ys| - 1], ys[|ys| - 1];
      assert zs[..|zs| - 1] == xs + init;
      assert zs[|zs| - 1] == last;
      TokenCountConcat(xs, init);
      calc {
        TokenCount(zs);
        TokenCount(xs + init) + TurnTokens(last);
        TokenCount(xs) + TokenCount(init) + TurnTokens(last);
        TokenCount(xs) + TokenCount(ys);
      }
    }
  }

  /** Appending a turn adds exactly that turn's words; the empty conversation counts 0. */
  lemma TokenCountAppend(xs: seq<Turn>, m: Turn)
    ensures TokenCount([]) == 0
    ensures TokenCount(xs + [m]) == TokenCount(xs) + TurnTokens(m)
  {
    TokenCountConcat(xs, [m]);
    assert [m][..0] == [];
  }

  /** Turn shape in the prompt; `msg[key]` raises `KeyError` for an absent key. */
  function Render(f: Field, key: string): Result<string, ChatError> {
    match f
    case Missing => Err(KeyError(key))
    case Str(s) => Ok(s)
    case NonStr(shown) => Ok(shown)
  }

  function TurnText(m: Turn): Result<string, ChatError> {
    match Render(m.userMessage, "user_message")
    case Err(e) => Err(e)
    case Ok(u) =>
      match Render(m.aiMessage, "ai_message")
      case Err(e) => Err(e)
      case Ok(a) => Ok("User: " + u + "\nAI: " + a)
  }

  /** Whether every turn has both message keys, so that building the prompt cannot raise. */
  predicate HasMessageKeys(ms: seq<Turn>) {
    forall k :: 0 <= k < |ms| ==> !ms[k].userMessage.Missing? && !ms[k].aiMessage.Missing?
  }

  /** The rendered turns, in order; the first turn lacking a key raises. */
  function TurnTexts(ms: seq<Turn>): (r: Result<seq<string>, ChatError>)
    ensures r.Ok? <==> HasMessageKeys(ms)
    ensures r.Ok? ==> |r.value| == |ms|
  {
    if ms == [] then Ok([])
    else
      match TurnText(ms[0])
      case Err(e) => Err(e)
      case Ok(t) =>
        match TurnTexts(ms[1..])
        case Err(e) => Err(e)
        case Ok(ts) => Ok([t] + ts)
  }

  /** Text `k` is turn `k` rendered as `"User: {u}\nAI: {a}"`. */
  lemma {:induction false} TurnTextsAt(ms: seq<Turn>)
    ensures TurnTexts(ms).Ok? ==> forall k :: 0 <= k < |ms| ==> TurnText(ms[k]) == Ok(TurnTexts(ms).value[k])
    decreases |ms|
  {
    if ms != [] && TurnTexts(ms).Ok? {
      var ts := TurnTexts(ms).value;
      TurnTextsAt(ms[1..]);
      forall k | 0 <= k < |ms| ensures TurnText(ms[k]) == Ok(ts[k]) {
        if k > 0 {
          assert ms[k] == ms[1..][k - 1];
        }
      }
    }
  }

  /** The request sent to the model: the fixed header followed by the turns joined by newlines. */
  function SummaryRequest(ms: seq<Turn>): (r: Result<CompletionRequest, ChatError>)
    ensures r.Ok? ==>
              && r.value.model == SummaryModel && r.value.maxTokens == SummaryMaxTokens
              && SummaryPromptHeader <= r.value.prompt
  {
    match TurnTexts(ms)
    case Err(e) => Err(e)
    case Ok(ts) => Ok(CompletionRequest(SummaryModel, SummaryPromptHeader + Join("\n", ts), SummaryMaxTokens))
  }

  /** The prompt carries the whole conversation: the header, then every rendered turn, in order, one per `"\n"`-separated block. */
  lemma SummaryPromptCarriesTurns(ms: seq<Turn>)
    ensures SummaryRequest(ms).Ok? ==>
              var ts := TurnTexts(ms).value;
              && SummaryRequest(ms).value.prompt == SummaryPromptHeader + Join("\n", ts)
              && |ts| == |ms|
              && forall k :: 0 <= k < |ms| ==> TurnText(ms[k]) == Ok(ts[k])
  {
    TurnTextsAt(ms);
  }

  /**
   * `summarize_conversation`: `None` at or below the threshold; above it, the
   * stripped model reply, or the fixed error text when the model call fails.
   * A missing message key above the threshold raises before the guarded call.
   */
  function SummarizeConversation(ms: seq<Turn>, complete: Completer): (r: Result<Option<string>, ChatError>)
    ensures r == Ok(None) <==> TokenCount(ms) <= MaxTokenCount
    ensures r.Err? <==> TokenCount(ms) > MaxTokenCount && !HasMessageKeys(ms)
    ensures r.Ok? && r.value.Some? ==>
              var req := SummaryRequest(ms).value;
              || (complete(req).None? && r.value.value == SummaryErrorText)
              || (complete(req).Some? && r.value.value == Strip(complete(req).value))
  {
    if TokenCount(ms) > MaxTokenCount then
      match SummaryRequest(ms)
      case Err(e) => Err(e)
      case Ok(req) =>
        match complete(req)
        case None => Ok(Some(SummaryErrorText))
        case Some(text) => Ok(Some(Strip(text)))
    else
      Ok(None)
  }

  /** Python truthiness of `summary` (`None` and `""` are false). */
  predicate Truthy(summary: Option<string>) {
    summary.Some? && summary.value != ""
  }

  /** The appended history a save works on for a known user. */
  function AppendedHistory(rec: ChatRecord, turn: Turn): seq<Turn> {
    rec.history.GetOr([]) + [turn]
  }

  /** Whether saving `turn` for an existing record takes the summary branch. */
  predicate TakesSummaryPath(rec: ChatRecord, turn: Turn, complete: Completer) {
    var s := SummarizeConversation(AppendedHistory(rec, turn), complete);
    s.Ok? && Truthy(s.value)
  }

  /**
   * The collection after `save_chat_message`. An unknown user gets a fresh
   * one-turn record. A known user either gets the summary and last message set
   * (history untouched), or the turn appended to the history (summary and last
   * message untouched). No other user's record changes.
   */
  function SaveChat(store: Store, userId: UserId, userMessage: string, aiMessage: string,
                    timestamp: string, complete: Completer): (r: Result<Store, ChatError>)
    ensures r.Ok? ==> r.value.Keys == store.Keys + {userId}
    ensures r.Ok? ==> forall u :: u in store && u != userId ==> r.value[u] == store[u]
    ensures userId !in store ==>
              r.Ok? && r.value[userId] == ChatRecord(Some([NewTurn(userMessage, aiMessage, timestamp)]), None, None)
    ensures r.Err? <==>
              userId in store &&
              var hist := AppendedHistory(store[userId], NewTurn(userMessage, aiMessage, timestamp));
              TokenCount(hist) > MaxTokenCount && !HasMessageKeys(hist)
    ensures r.Ok? && userId in store ==>
              var old_ := store[userId];
              var turn := NewTurn(userMessage, aiMessage, timestamp);
              var new_ := r.value[userId];
              if TakesSummaryPath(old_, turn, complete) then
                && new_.history == old_.history
                && new_.summary.Some? && new_.summary.value != ""
                && new_.lastMessage == Some(turn)
              else
                && new_.history == Some(old_.history.GetOr([]) + [turn])
                && new_.summary == old_.summary
                && new_.lastMessage == old_.lastMessage
  {
    var turn := NewTurn(userMessage, aiMessage, timestamp);
    if userId in store then
      var rec := store[userId];
      var history := AppendedHistory(rec, turn);
      match SummarizeConversation(history, complete)
      case Err(e) => Err(e)
      case Ok(summary) =>
        if Truthy(summary) then
          Ok(store[userId := rec.(summary := summary, lastMessage := Some(turn))])
        else
          Ok(store[userId := rec.(history := Some(history))])
    else
      Ok(store[userId := ChatRecord(Some([turn]), None, None)])
  }

  /** What `get_chat_history` returns for a known user. */
  datatype HistoryView =
    | SummaryView(summary: string, lastMessage: Turn)
    | HistoryList(history: seq<Turn>)

  /**
   * `get_chat_history`: `None` for an unknown user; the summary form whenever a
   * summary is stored (even beside a history); otherwise the history, `[]` if absent.
   */
  function GetChatHistory(store: Store, userId: UserId): (r: Option<HistoryView>)
    ensures r.None? <==> userId !in store
    ensures r.Some? ==> (r.value.SummaryView? <==> store[userId].summary.Some?)
    ensures r.Some? && r.value.SummaryView? ==>
              && r.value.summary == store[userId].summary.value
              && r.value.lastMessage == store[userId].lastMessage.GetOr(EmptyTurn)
    ensures r.Some? && r.value.HistoryList? ==> r.value.history == store[userId].history.GetOr([])
  {
    if userId in store then
      var rec := store[userId];
      if rec.summary.Some? then Some(SummaryView(rec.summary.value, rec.lastMessage.GetOr(EmptyTurn)))
      else Some(HistoryList(rec.history.GetOr([])))
    else
      None
  }

  /** After a first save for a new user, reading back gives the one-turn history. */
  lemma SaveNewUserThenGet(store: Store, userId: UserId, um: string, am: string, ts: string, complete: Completer)
    requires userId !in store
    ensures var r := SaveChat(store, userId, um, am, ts, complete);
            r.Ok? && GetChatHistory(r.value, userId) == Some(HistoryList([NewTurn(um, am, ts)]))
  {
  }

  /**
   * Two saves for a new user whose combined word count stays within the
   * threshold leave a two-turn history, in order, whatever the model does.
   */
  lemma TwoSavesUnderThreshold(store: Store, userId: UserId, u1: string, a1: string, t1: string,
                               u2: string, a2: string, t2: string, complete: Completer)
    requires userId !in store
    requires WordCount(u1) + WordCount(a1) + WordCount(u2) + WordCount(a2) <= MaxTokenCount
    ensures var r1 := SaveChat(store, userId, u1, a1, t1, complete);
            r1.Ok? &&
            var r2 := SaveChat(r1.value, userId, u2, a2, t2, complete);
            r2.Ok? && GetChatHistory(r2.value, userId) == Some(HistoryList([NewTurn(u1, a1, t1), NewTurn(u2, a2, t2)]))
  {
    var m1, m2 := NewTurn(u1, a1, t1), NewTurn(u2, a2, t2);
    var s1 := SaveChat(store, userId, u1, a1, t1, complete).value;
    TokenCountAppend([m1], m2);
    TokenCountAppend([], m1);
    assert [] + [m1] == [m1];
    assert AppendedHistory(s1[userId], m2) == [m1] + [m2] == [m1, m2];
  }

  /** A save that takes the summary branch is read back as that summary with the new turn. */
  lemma SummaryPathThenGet(store: Store, userId: UserId, um: string, am: string, ts: string, complete: Completer)
    requires userId in store
    requires TakesSummaryPath(store[userId], NewTurn(um, am, ts), complete)
    ensures var r := SaveChat(store, userId, um, am, ts, complete);
            r.Ok? &&
            var v := GetChatHistory(r.value, userId);
            v.Some? && v.value.SummaryView? && v.value.lastMessage == NewTurn(um, am, ts) &&
            Some(v.value.summary) == SummarizeConversation(AppendedHistory(store[userId], NewTurn(um, am, ts)), complete).value
  {
  }

  /**
   * When the model call fails above the threshold, the fixed error text is
   * stored as the summary (it is non-empty, hence truthy).
   */
  lemma SummariserFailureStoresErrorText(store: Store, userId: UserId, um: string, am: string, ts: string,
                                         complete: Completer)
    requires userId in store
    requires var hist := AppendedHistory(store[userId], NewTurn(um, am, ts));
             && TokenCount(hist) > MaxTokenCount && HasMessageKeys(hist)
             && complete(SummaryRequest(hist).value).None?
    ensures var r := SaveChat(store, userId, um, am, ts, complete);
            r.Ok? && r.value[userId].summary == Some(SummaryErrorText)
            && r.value[userId].history == store[userId].history
  {
    assert SummaryErrorText != "";
  }

  /**
   * Once a record holds a summary it keeps one: every later successful save
   * leaves a summary in place, so reads keep returning the summary form.
   */
  lemma SummaryIsKept(store: Store, userId: UserId, um: string, am: string, ts: string, complete: Completer)
    requires userId in store && store[userId].summary.Some?
    ensures var r := SaveChat(store, userId, um, am, ts, complete);
            r.Ok? ==> r.value[userId].summary.Some? && GetChatHistory(r.value, userId).value.SummaryView?
  {
  }

  /**
   * A stored summary goes stale: when a save for a summarised record takes the
   * history branch, the turn is appended to the stored history but reads
   * return exactly what they returned before, so the new turn is not visible.
   */
  lemma StaleSummaryHidesTurn(store: Store, userId: UserId, um: string, am: string, ts: string, complete: Completer)
    requires userId in store && store[userId].summary.Some?
    requires !TakesSummaryPath(store[userId], NewTurn(um, am, ts), complete)
    requires HasMessageKeys(AppendedHistory(store[userId], NewTurn(um, am, ts)))
    ensures var r := SaveChat(store, userId, um, am, ts, complete);
            && r.Ok?
            && r.value[userId].history == Some(store[userId].history.GetOr([]) + [NewTurn(um, am, ts)])
            && GetChatHistory(r.value, userId) == GetChatHistory(store, userId)
  {
  }

  /** The "chat-history" collection, updated in place by saves. */
  class ChatCollection {
    var records: Store

    /** Opens the persistent collection as it currently stands. */
    constructor (existing: Store)
      ensures records == existing
    {
      records := existing;
    }

    /**
     * `save_chat_message`: on success the collection becomes `SaveChat` of the
     * old one; when building the summary prompt raises, nothing is written.
     */
    method SaveChatMessage(userId: UserId, userMessage: string, aiMessage: string,
                           timestamp: string, complete: Completer) returns (outcome: Result<(), ChatError>)
      modifies this
      ensures var r := SaveChat(old(records), userId, userMessage, aiMessage, timestamp, complete);
              && (r.Ok? ==> outcome == Ok(()) && records == r.value)
              && (r.Err? ==> outcome == Err(r.error) && records == old(records))
    {
      var turn := NewTurn(userMessage, aiMessage, timestamp);
      if userId in records {
        var userChat := records[userId];
        var conversationHistory := userChat.history.GetOr([]);
        conversationHistory := conversationHistory + [turn];
        var summary := SummarizeConversation(conversationHistory, complete);
        if summary.Err? {
          return Err(summary.error);
        }
        if Truthy(summary.value) {
          records := records[userId := userChat.(summary := summary.value, lastMessage := Some(turn))];
        } else {
          records := records[userId := userChat.(history := Some(conversationHistory))];
        }
      } else {
        records := records[userId := ChatRecord(Some([turn]), None, None)];
      }
      outcome := Ok(());
    }
  }
}
