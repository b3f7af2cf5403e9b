/**
 * The chat session: the state `sendMessage`, the send/stop button,
 * `summarizeIfNeeded` and the two clear buttons update in place. Network
 * round trips are split at their `await`: a `Begin…` method runs up to the
 * request and returns it, a `Finish…` method takes the outcome as a
 * parameter and runs the rest.
 */
module Session {
  import opened Wrappers
  import opened Text
  import opened ErrorNotice
  import opened Conversation

  /** `generationConfig`; the temperature is kept in tenths. */
  datatype GenerationConfig = GenerationConfig(temperatureTenths: nat, maxOutputTokens: nat)

  const ChatConfig := GenerationConfig(7, 4096)
  const SummaryConfig := GenerationConfig(3, 256)

  const ApiBase := "https://generativelanguage.googleapis.com/v1beta/models/"

  function Endpoint(model: string): string {
    ApiBase + model + ":generateContent"
  }

  /** A `generateContent` request: where it goes, the `x-goog-api-key`
      header and the JSON body. */
  datatype Request = Request(
    url: string,
    key: string,
    systemInstruction: Option<string>,
    contents: seq<Turn>,
    config: GenerationConfig)

  /** How a request settled: an ok response and the text found in it, a
      failed response with the parsed `error.code` and `error.message`, an
      abort, or any other failure (network, or an unparseable ok body). */
  datatype Outcome =
    | Ok(text: Option<string>)
    | HttpError(status: int, code: Option<int>, message: Option<string>)
    | Aborted
    | TransportError

  /** What pressing send did before any request: alerted about a missing
      key (with the alert's text), returned silently, or started a request. */
  datatype SendStart = Alerted(message: string) | Ignored | Started(request: Request)

  /** What the send/stop button did. */
  datatype Click = AbortRequested | Submitted(start: SendStart)

  /** `abortController`: none, or one and whether it was aborted. */
  datatype AbortHandle = NoController | Controller(aborted: bool)

  /** The alert shown when send is pressed with no API key. */
  function MissingKeyAlert(): string {
    "はぁ？APIキーも入れないで話しかけてくんの？"
  }
  const HistoryQuotaNotice := "⚠️ ブラウザの保存容量が上限に達しました。「🗑 履歴クリア」で空きを作ることをお勧めします。"
  const MemoryQuotaNotice := "⚠️ ブラウザの保存容量が上限に達し、記憶を保存できませんでした。「🗑 記憶クリア」または「🗑 履歴クリア」で空きを作ってください。"

  /** The chat request for the current history and memory. */
  function ChatRequest(model: string, key: string, basePrompt: string, memory: string, h: seq<Turn>): Request {
    Request(Endpoint(model), key, Some(SystemPromptWithMemory(basePrompt, memory)), h, ChatConfig)
  }

  /** The summarisation request: one user turn holding the summary prompt,
      no system instruction, the low-temperature configuration. */
  function SummaryRequest(model: string, key: string, memory: string, h: seq<Turn>): Request {
    Request(Endpoint(model), key, None, [Turn(User, SummaryPrompt(memory, h))], SummaryConfig)
  }

  /** The notice shown for a failed chat request. */
  function FailureNotice(outcome: Outcome): string
    requires !outcome.Ok?
  {
    match outcome
    case HttpError(status, code, message) => NoticeText(Classify(status, code, message))
    case Aborted => CancelledNotice
    case TransportError => ConnectionNotice
  }

  class ChatSession {
    var history: seq<Turn>
    var memory: string
    var turnsSinceLastSummary: nat
    var isSummarizing: bool
    var isLoading: bool
    var abortController: AbortHandle
    /** The trimmed key `sendMessage` read when the pending request started;
        the summary it may trigger is sent with the same key. */
    var pendingKey: string
    /** The `history` and `memory` entries of the page's storage. */
    var storedHistory: Option<seq<Turn>>
    var storedMemory: Option<string>

    /** A controller exists exactly while a chat request is pending. */
    predicate Valid()
      reads this
    {
      isLoading <==> abortController.Controller?
    }

    /** The history holds complete user/model pairs, plus the pending user
        turn while a request is out. */
    ghost predicate Paired()
      reads this
    {
      if isLoading then Awaiting(history) else Settled(history)
    }

    /** Page load: memory from storage (`|| ''`), and the saved history when
        it is a non-empty list. */
    constructor (savedMemory: Option<string>, savedHistory: Option<seq<Turn>>)
      ensures Valid() && !isLoading && !isSummarizing && turnsSinceLastSummary == 0
      ensures memory == savedMemory.GetOr("")
      ensures history == if savedHistory.Some? && savedHistory.value != [] then savedHistory.value else []
      ensures storedMemory == savedMemory && storedHistory == savedHistory
      ensures savedHistory.None? || Settled(savedHistory.value) ==> Paired()
    {
      memory := savedMemory.GetOr("");
      history := if savedHistory.Some? && savedHistory.value != [] then savedHistory.value else [];
      turnsSinceLastSummary := 0;
      isSummarizing := false;
      isLoading := false;
      abortController := NoController;
      pendingKey := "";
      storedMemory := savedMemory;
      storedHistory := savedHistory;
    }

    /** The seed memory of the character configuration: used, trimmed, only
        when it is not blank and there is no memory yet; not stored. */
    method SeedMemory(fetched: Option<string>)
      modifies this`memory
      ensures old(memory) != [] || fetched.None? || IsBlank(fetched.value) ==> memory == old(memory)
      ensures old(memory) == [] && fetched.Some? && !IsBlank(fetched.value) ==>
        memory == Trim(fetched.value) && !IsBlank(memory)
    {
      if fetched.Some? {
        var text := Trim(fetched.value);
        TrimEmptyIffBlank(fetched.value);
        if text != [] && memory == [] {
          memory := text;
          TrimEmptyIffBlank(text);
          TrimIdempotent(fetched.value);
        }
      }
    }

    /** `sendMessage` up to the request. The key check comes first; a blank
        message or a pending request is ignored; otherwise the user turn is
        pushed (and the history capped) and the request is built from it. */
    method BeginSend(keyInput: string, input: string, basePrompt: string, model: string)
      returns (start: SendStart)
      requires Valid()
      modifies this`history, this`isLoading, this`abortController, this`pendingKey
      ensures Valid()
      ensures start == (
        if Trim(keyInput) == [] then Alerted(MissingKeyAlert())
        else if Trim(input) == [] || old(isLoading) then Ignored
        else Started(ChatRequest(model, Trim(keyInput), basePrompt, memory,
                                 PushUser(old(history), Trim(input)))))
      ensures start.Started? ==>
        isLoading && abortController == Controller(false) && history == start.request.contents
      ensures !start.Started? ==>
        history == old(history) && isLoading == old(isLoading) && abortController == old(abortController)
      ensures pendingKey == if start.Started? then Trim(keyInput) else old(pendingKey)
      ensures old(Paired()) ==> Paired()
    {
      var key := Trim(keyInput);
      if key == [] {
        return Alerted(MissingKeyAlert());
      }
      var text := Trim(input);
      if text == [] || isLoading {
        return Ignored;
      }
      var request := StartRequest(key, text, basePrompt, model);
      start := Started(request);
    }

    /** The part of `sendMessage` past its guards: take the loading flag and
        a fresh controller, push and cap the user turn, build the request. */
    method StartRequest(key: string, text: string, basePrompt: string, model: string)
      returns (request: Request)
      requires Valid() && !isLoading
      modifies this`history, this`isLoading, this`abortController, this`pendingKey
      ensures Valid() && isLoading && abortController == Controller(false) && pendingKey == key
      ensures history == PushUser(old(history), text)
      ensures request == ChatRequest(model, key, basePrompt, memory, history)
      ensures old(Paired()) ==> Paired()
    {
      SendKeepsPairing(history, text);
      isLoading := true;
      abortController := Controller(false);
      pendingKey := key;
      history := PushUser(history, text);
      request := ChatRequest(model, key, basePrompt, memory, history);
    }

    /** The send/stop button: aborts the pending request, or sends. */
    method ClickSend(keyInput: string, input: string, basePrompt: string, model: string)
      returns (click: Click)
      requires Valid()
      modifies this`history, this`isLoading, this`abortController, this`pendingKey
      ensures Valid()
      ensures old(isLoading) <==> click == AbortRequested
      ensures !old(isLoading) ==> click == Submitted(
        if Trim(keyInput) == [] then Alerted(MissingKeyAlert())
        else if Trim(input) == [] then Ignored
        else Started(ChatRequest(model, Trim(keyInput), basePrompt, memory,
                                 PushUser(old(history), Trim(input)))))
      ensures click == AbortRequested ==>
        && history == old(history) && isLoading && abortController == Controller(true)
        && pendingKey == old(pendingKey)
      ensures click.Submitted? && click.start.Started? ==>
        && history == PushUser(old(history), Trim(input)) && pendingKey == Trim(keyInput)
        && isLoading && abortController == Controller(false)
      ensures click.Submitted? && !click.start.Started? ==>
        history == old(history) && !isLoading && pendingKey == old(pendingKey)
      ensures old(Paired()) ==> Paired()
    {
      if isLoading && abortController.Controller? {
        abortController := Controller(true);
        click := AbortRequested;
      } else {
        var start := BeginSend(keyInput, input, basePrompt, model);
        click := Submitted(start);
      }
    }

    /** The start of `summarizeIfNeeded`: counts the round trip and, at the
        interval with no summary in flight, resets the count, takes the
        guard and builds the request from the current memory and history. */
    method TriggerSummary(key: string, model: string) returns (request: Option<Request>)
      modifies this`turnsSinceLastSummary, this`isSummarizing
      ensures Compaction(turnsSinceLastSummary, isSummarizing)
        == Tick(Compaction(old(turnsSinceLastSummary), old(isSummarizing))).0
      ensures request.Some? <==>
        old(turnsSinceLastSummary) + 1 >= SummaryInterval && !old(isSummarizing)
      ensures request.Some? ==> request.value == SummaryRequest(model, key, memory, history)
    {
      turnsSinceLastSummary := turnsSinceLastSummary + 1;
      if turnsSinceLastSummary < SummaryInterval || isSummarizing {
        return None;
      }
      turnsSinceLastSummary := 0;
      isSummarizing := true;
      request := Some(SummaryRequest(model, key, memory, history));
    }

    /** `sendMessage` after the request settled. A reply is pushed, the
        history saved (a failed save shows a notice) and the compaction
        counter ticked; any failure shows its notice and pops the pending
        turn. Either way the request is no longer pending. The summary uses
        the key of the request that just settled and the model selected now. */
    method FinishSend(model: string, outcome: Outcome, historySaved: bool)
      returns (shown: seq<string>, summary: Option<Request>)
      requires Valid() && isLoading
      modifies this`history, this`isLoading, this`abortController, this`storedHistory,
               this`turnsSinceLastSummary, this`isSummarizing
      ensures Valid() && !isLoading && abortController == NoController
      ensures outcome.Ok? ==>
        && history == PushReply(old(history), ReplyText(outcome.text))
        && storedHistory == (if historySaved then Some(LastN(history, HistoryCap)) else old(storedHistory))
        && shown == [ReplyText(outcome.text)] + (if historySaved then [] else [HistoryQuotaNotice])
        && Compaction(turnsSinceLastSummary, isSummarizing)
             == Tick(Compaction(old(turnsSinceLastSummary), old(isSummarizing))).0
        && (summary.Some? <==>
             old(turnsSinceLastSummary) + 1 >= SummaryInterval && !old(isSummarizing))
        && (summary.Some? ==> summary.value == SummaryRequest(model, pendingKey, memory, history))
      ensures !outcome.Ok? ==>
        && history == Rollback(old(history))
        && shown == [FailureNotice(outcome)]
        && summary.None?
        && storedHistory == old(storedHistory)
        && turnsSinceLastSummary == old(turnsSinceLastSummary)
        && isSummarizing == old(isSummarizing)
      ensures old(Paired()) ==> Paired()
      ensures old(Paired()) && outcome.Ok? && historySaved ==> storedHistory == Some(history)
    {
      if outcome.Ok? {
        var reply := ReplyText(outcome.text);
        ReplySettles(history, reply);
        history := PushReply(history, reply);
        if historySaved {
          storedHistory := Some(LastN(history, HistoryCap));
          shown := [reply];
        } else {
          shown := [reply, HistoryQuotaNotice];
        }
        summary := TriggerSummary(pendingKey, model);
      } else {
        shown := [FailureNotice(outcome)];
        RollbackSettles(history);
        history := Rollback(history);
        summary := None;
      }
      isLoading := false;
      abortController := NoController;
    }

    /** The rest of `summarizeIfNeeded`: an ok response with a non-empty
        text replaces the memory by its trimmed text and stores it (a failed
        store shows a notice); anything else is silent. The guard is
        released in every case. */
    method FinishSummary(outcome: Outcome, memorySaved: bool) returns (shown: seq<string>)
      modifies this`memory, this`storedMemory, this`isSummarizing
      ensures !isSummarizing
      ensures memory == MergeSummary(old(memory), outcome.Ok?, if outcome.Ok? then outcome.text else None)
      ensures var replaced := outcome.Ok? && outcome.text.Some? && outcome.text.value != [];
        && (replaced && memorySaved ==> storedMemory == Some(memory) && shown == [])
        && (replaced && !memorySaved ==> storedMemory == old(storedMemory) && shown == [MemoryQuotaNotice])
        && (!replaced ==> memory == old(memory) && storedMemory == old(storedMemory) && shown == [])
    {
      shown := [];
      if outcome.Ok? && outcome.text.Some? && outcome.text.value != [] {
        memory := Trim(outcome.text.value);
        if memorySaved {
          storedMemory := Some(memory);
        } else {
          shown := [MemoryQuotaNotice];
        }
      }
      isSummarizing := false;
    }

    /** The clear-memory button, after the confirmation dialog. */
    method ClearMemory(confirmed: bool)
      modifies this`memory, this`storedMemory
      ensures confirmed ==> memory == [] && storedMemory.None?
      ensures !confirmed ==> memory == old(memory) && storedMemory == old(storedMemory)
    {
      if confirmed {
        memory := "";
        storedMemory := None;
      }
    }

    /** The clear-history button, after the confirmation dialog. Between
        requests the empty history is trivially paired. */
    method ClearHistory(confirmed: bool)
      modifies this`history, this`storedHistory, this`turnsSinceLastSummary
      ensures confirmed ==> history == [] && storedHistory.None? && turnsSinceLastSummary == 0
      ensures !confirmed ==> history == old(history) && storedHistory == old(storedHistory)
                             && turnsSinceLastSummary == old(turnsSinceLastSummary)
      ensures !isLoading && old(Paired()) ==> Paired()
    {
      if confirmed {
        history := [];
        storedHistory := None;
        turnsSinceLastSummary := 0;
      }
    }
  }
}
