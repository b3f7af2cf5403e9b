/**
 * The conversation state as values: turns, the bounded history and its
 * transformations, the system instruction with the memory note, the
 * summarisation prompt, and the compaction counter.
 */
module Conversation {
  import opened Wrappers
  import opened Text

  datatype Role = User | Model

  /** One entry of `chatHistory`: `{ role, parts: [{ text }] }`. */
  datatype Turn = Turn(role: Role, text: string)

  const HistoryCap := 100
  const SummaryWindow := 20
  const SummaryInterval := 10

  // ----- the shape of a conversation ----------------------------------------

  /** The role a well-paired history has at index i: user turns at even
      indices, model turns at odd ones. */
  function RoleAt(i: nat): Role {
    if i % 2 == 0 then User else Model
  }

  ghost predicate Alternates(h: seq<Turn>) {
    forall i :: 0 <= i < |h| ==> h[i].role == RoleAt(i)
  }

  /** Between round trips: complete user/model pairs, at most the cap. */
  ghost predicate Settled(h: seq<Turn>) {
    Alternates(h) && |h| % 2 == 0 && |h| <= HistoryCap
  }

  /** During a round trip: complete pairs followed by the pending user turn. */
  ghost predicate Awaiting(h: seq<Turn>) {
    Alternates(h) && |h| % 2 == 1 && |h| < HistoryCap
  }

  // ----- history transformations ---------------------------------------------

  /** The last `n` entries, `h.slice(-n)`. */
  function LastN(h: seq<Turn>, n: nat): (r: seq<Turn>)
    ensures |r| == if |h| <= n then |h| else n
    ensures r == h[|h| - |r|..]
  {
    if |h| <= n then h else h[|h| - n..]
  }

  /** The cap applied after a user turn is pushed: keep the last 100, then
      drop one leading model turn. */
  function Capped(h: seq<Turn>): (r: seq<Turn>)
    ensures |r| <= |h| && r == h[|h| - |r|..]
    ensures |h| <= HistoryCap ==> r == h
    ensures |h| > HistoryCap ==>
      |r| == if h[|h| - HistoryCap].role == Model then HistoryCap - 1 else HistoryCap
  {
    if |h| > HistoryCap then
      var tail := h[|h| - HistoryCap..];
      if tail[0].role == Model then tail[1..] else tail
    else h
  }

  /** `chatHistory.push({ role: 'user', ... })` followed by the cap. */
  function PushUser(h: seq<Turn>, text: string): seq<Turn> {
    Capped(h + [Turn(User, text)])
  }

  /** `chatHistory.push({ role: 'model', ... })`: no cap is applied here. */
  function PushReply(h: seq<Turn>, text: string): seq<Turn> {
    h + [Turn(Model, text)]
  }

  /** `chatHistory.pop()`: removes the last entry, if any. */
  function Rollback(h: seq<Turn>): seq<Turn> {
    if h == [] then [] else h[..|h| - 1]
  }

  /** The user turn pushed is the last entry, whatever the cap removed. */
  lemma PushUserEndsWithTurn(h: seq<Turn>, text: string)
    ensures var r := PushUser(h, text);
            |r| > 0 && r[|r| - 1] == Turn(User, text) && |r| <= HistoryCap
  {
  }

  lemma AlternatesDropPair(h: seq<Turn>)
    requires Alternates(h) && |h| >= 2
    ensures Alternates(h[2..])
  {
    forall i | 0 <= i < |h| - 2 ensures h[2..][i].role == RoleAt(i) {
      assert h[2..][i] == h[i + 2];
      assert RoleAt(i + 2) == RoleAt(i);
    }
  }

  /** A send from a settled history leaves it awaiting the reply. At the
      cap, the oldest pair is evicted to make room. */
  lemma SendFromSettled(h: seq<Turn>, text: string)
    requires Settled(h)
    ensures Awaiting(PushUser(h, text))
    ensures |h| < HistoryCap ==> PushUser(h, text) == h + [Turn(User, text)]
    ensures |h| == HistoryCap ==> PushUser(h, text) == h[2..] + [Turn(User, text)]
  {
    var pushed := h + [Turn(User, text)];
    if |h| == HistoryCap {
      assert pushed[1..] == h[1..] + [Turn(User, text)];
      assert pushed[|pushed| - HistoryCap] == h[1];
      assert h[1].role == RoleAt(1);
      assert PushUser(h, text) == pushed[2..];
      assert pushed[2..] == h[2..] + [Turn(User, text)];
      AlternatesDropPair(h);
    }
    var r := PushUser(h, text);
    assert |h| % 2 == 0;
    forall i | 0 <= i < |r| ensures r[i].role == RoleAt(i) {
      if i < |r| - 1 {
        if |h| == HistoryCap {
          assert r[i] == h[2..][i];
        } else {
          assert r[i] == h[i];
        }
      }
    }
  }

  /** The same as one implication, for callers that do not know the shape. */
  lemma SendKeepsPairing(h: seq<Turn>, text: string)
    ensures Settled(h) ==> Awaiting(PushUser(h, text))
  {
    if Settled(h) {
      SendFromSettled(h, text);
    }
  }

  /** A reply completes the pending pair. */
  lemma ReplySettles(h: seq<Turn>, text: string)
    ensures Awaiting(h) ==> Settled(PushReply(h, text))
  {
  }

  /** A rollback removes the pending turn and leaves complete pairs. */
  lemma RollbackSettles(h: seq<Turn>)
    ensures Awaiting(h) ==> Settled(Rollback(h))
  {
  }

  /** A successful send on a full history: still 100 entries, the oldest
      user/model pair gone, the new pair at the end. */
  lemma FullHistoryEvictsOldestPair(h: seq<Turn>, text: string, reply: string)
    requires Settled(h) && |h| == HistoryCap
    ensures var r := PushReply(PushUser(h, text), reply);
            && |r| == HistoryCap
            && r == h[2..] + [Turn(User, text), Turn(Model, reply)]
            && r[0].role == User
  {
    SendFromSettled(h, text);
  }

  /** A failed send removes exactly the turn it pushed: the history is what
      it was before, except that entries the cap evicted stay evicted. */
  lemma RollbackAfterPush(h: seq<Turn>, text: string)
    ensures var r := Rollback(PushUser(h, text));
            && |r| <= |h| && r == h[|h| - |r|..]
            && (r == h <==> |h| < HistoryCap)
  {
    var pushed := h + [Turn(User, text)];
    var c := Capped(pushed);
    var r := Rollback(c);
    if |h| < HistoryCap {
      assert c == pushed;
      assert r == h;
    } else {
      assert c == pushed[|pushed| - |c|..];
      assert r == c[..|c| - 1];
      assert |r| < |h|;
      assert r == h[|h| - |r|..];
    }
  }

  /** The same from a settled history: at the cap the oldest pair is lost. */
  lemma FailedSendOnSettled(h: seq<Turn>, text: string)
    requires Settled(h)
    ensures |h| < HistoryCap ==> Rollback(PushUser(h, text)) == h
    ensures |h| == HistoryCap ==> Rollback(PushUser(h, text)) == h[2..]
  {
    SendFromSettled(h, text);
    var t := Turn(User, text);
    if |h| == HistoryCap {
      assert (h[2..] + [t])[..|h| - 2] == h[2..];
    } else {
      assert (h + [t])[..|h|] == h;
    }
  }

  // ----- the model reply ------------------------------------------------------

  const NoReply := "(応答なし)"

  /** `data?.candidates?.[0]?.content?.parts?.[0]?.text || '(応答なし)'` */
  function ReplyText(text: Option<string>): (r: string)
    ensures r != []
    ensures text.Some? && text.value != [] ==> r == text.value
    ensures text.None? || text.value == [] ==> r == NoReply
  {
    if text.Some? && text.value != [] then text.value else NoReply
  }

  // ----- system instruction ---------------------------------------------------

  const MemoryHeader := "\n\n【過去の会話の記憶】\n"

  /** `getSystemPromptWithMemory()`: the base prompt, then the memory note
      under its header when there is one. */
  function SystemPromptWithMemory(base: string, memory: string): string {
    if memory == [] then base else base + MemoryHeader + memory
  }

  /** Reads the memory note back out of a system instruction built on `base`. */
  function MemoryInPrompt(base: string, prompt: string): Option<string> {
    if prompt == base then Some("")
    else if base + MemoryHeader <= prompt then Some(prompt[|base + MemoryHeader|..])
    else None
  }

  /** The instruction is the base prompt exactly when there is no memory;
      otherwise the note can be read back from it byte for byte. */
  lemma SystemPromptCarriesMemory(base: string, memory: string)
    ensures SystemPromptWithMemory(base, memory) == base <==> memory == []
    ensures MemoryInPrompt(base, SystemPromptWithMemory(base, memory)) == Some(memory)
  {
    var p := SystemPromptWithMemory(base, memory);
    if memory != [] {
      assert |p| > |base|;
      assert base + MemoryHeader <= p;
      assert p[|base + MemoryHeader|..] == memory;
    }
  }

  // ----- summary prompt -------------------------------------------------------

  /** One line of the transcript: `User: …` or `Bot: …`. */
  function TurnLine(t: Turn): string {
    (if t.role == User then "User" else "Bot") + ": " + t.text
  }

  /** The lines of the turns joined by `\n`. */
  function Transcript(ts: seq<Turn>): string
    decreases |ts|
  {
    if ts == [] then ""
    else if |ts| == 1 then TurnLine(ts[0])
    else TurnLine(ts[0]) + "\n" + Transcript(ts[1..])
  }

  /** Joining distributes over concatenation: the transcript of a history
      is the transcripts of its parts joined by one newline. */
  lemma {:induction false} TranscriptAppend(a: seq<Turn>, b: seq<Turn>)
    requires a != [] && b != []
    ensures Transcript(a + b) == Transcript(a) + "\n" + Transcript(b)
    decreases |a|
  {
    if |a| == 1 {
      assert (a + b)[1..] == b;
    } else {
      assert (a + b)[1..] == a[1..] + b;
      TranscriptAppend(a[1..], b);
    }
  }

  const SummaryInstruction :=
    "Summarize the key facts, user preferences, and important context from this conversation into a concise memory note (max 500 chars). Write in the same language the user used. Only output the summary, nothing else."

  /** `Previous memory:\n<note>\n\n` when there is a note. */
  function PreviousMemory(memory: string): string {
    if memory == [] then "" else "Previous memory:\n" + memory + "\n\n"
  }

  /** The text of the summarisation request: the memory block, the last 20
      turns, the instruction. */
  function SummaryPrompt(memory: string, h: seq<Turn>): string {
    PreviousMemory(memory) + (RecentConversation(h) + ("\n\n" + SummaryInstruction))
  }

  /** `Recent conversation:` and the transcript of the last 20 turns. */
  function RecentConversation(h: seq<Turn>): string {
    "Recent conversation:\n" + Transcript(LastN(h, SummaryWindow))
  }

  lemma OccursInMiddle(a: string, b: string, c: string)
    ensures OccursAt(a + (b + c), b, |a|)
  {
    assert (a + (b + c))[|a|..|a| + |b|] == b;
  }

  lemma PreviousMemoryMarks(memory: string, rest: string)
    requires rest != [] && rest[0] == 'R'
    ensures "Previous memory:\n" <= PreviousMemory(memory) + rest <==> memory != []
  {
    if memory == [] {
      assert (PreviousMemory(memory) + rest)[0] == 'R';
    } else {
      assert PreviousMemory(memory) + rest
        == "Previous memory:\n" + (memory + "\n\n" + rest);
    }
  }

  /** A non-empty note sits right after `Previous memory:\n`, followed by a
      blank line. */
  lemma PreviousMemoryCarries(memory: string, rest: string)
    requires memory != []
    ensures var p := PreviousMemory(memory) + rest;
            OccursAt(p, memory, |"Previous memory:\n"|) && OccursAt(p, "\n\n", |"Previous memory:\n"| + |memory|)
  {
    var head := "Previous memory:\n";
    var p := PreviousMemory(memory) + rest;
    assert p == head + (memory + ("\n\n" + rest));
    assert p[|head|..|head| + |memory|] == memory;
    assert p[|head| + |memory|..|head| + |memory| + 2] == "\n\n";
  }

  /** The prompt opens with the previous memory exactly when there is one,
      followed by the transcript of the most recent min(20, |h|) turns. */
  lemma SummaryPromptShape(memory: string, h: seq<Turn>)
    ensures var p := SummaryPrompt(memory, h);
            && ("Previous memory:\n" <= p <==> memory != [])
            && OccursAt(p, "Recent conversation:\n" + Transcript(LastN(h, SummaryWindow)), |PreviousMemory(memory)|)
            && |LastN(h, SummaryWindow)| == (if |h| < SummaryWindow then |h| else SummaryWindow)
            && p[|p| - |SummaryInstruction|..] == SummaryInstruction
            && (memory != [] ==>
                  && OccursAt(p, memory, |"Previous memory:\n"|)
                  && OccursAt(p, "\n\n", |"Previous memory:\n"| + |memory|))
  {
    var body, tail := RecentConversation(h), "\n\n" + SummaryInstruction;
    assert (body + tail)[0] == 'R';
    PreviousMemoryMarks(memory, body + tail);
    OccursInMiddle(PreviousMemory(memory), body, tail);
    EndsWithLast(PreviousMemory(memory), body, "\n\n", SummaryInstruction);
    if memory != [] {
      PreviousMemoryCarries(memory, body + tail);
    }
  }

  lemma EndsWithLast(a: string, b: string, c: string, d: string)
    ensures var p := a + (b + (c + d)); p[|p| - |d|..] == d
  {
    var p := a + (b + (c + d));
    assert p == (a + b + c) + d;
  }

  // ----- compaction counter ---------------------------------------------------

  /** `turnsSinceLastSummary` and `isSummarizing`. */
  datatype Compaction = Compaction(count: nat, inFlight: bool)

  /** The start of `summarizeIfNeeded`: count the round trip, and fire when
      the count reaches the interval and no summary is in flight. */
  function Tick(c: Compaction): (Compaction, bool) {
    var count := c.count + 1;
    if count < SummaryInterval || c.inFlight then (Compaction(count, c.inFlight), false)
    else (Compaction(0, true), true)
  }

  /** A tick fires exactly when it reaches the interval with the guard free;
      firing resets the count and takes the guard; otherwise the count grows. */
  lemma TickFires(c: Compaction)
    ensures var (next, fired) := Tick(c);
            && (fired <==> c.count + 1 >= SummaryInterval && !c.inFlight)
            && (fired ==> next == Compaction(0, true))
            && (!fired ==> next == Compaction(c.count + 1, c.inFlight))
  {
  }

  /** What happens to the counter and the guard between requests. */
  datatype CompactionEvent = RoundTrip | SummaryDone | HistoryCleared

  function Step(c: Compaction, e: CompactionEvent): (Compaction, bool) {
    match e
    case RoundTrip => Tick(c)
    case SummaryDone => (Compaction(c.count, false), false)
    case HistoryCleared => (Compaction(0, c.inFlight), false)
  }

  /** Replays events from a state: the final state and how many summaries fired. */
  function Replay(c: Compaction, events: seq<CompactionEvent>): (Compaction, nat)
    decreases |events|
  {
    if events == [] then (c, 0)
    else
      var (next, fired) := Step(c, events[0]);
      var (last, fires) := Replay(next, events[1..]);
      (last, fires + (if fired then 1 else 0))
  }

  function CountRoundTrips(events: seq<CompactionEvent>): nat
    decreases |events|
  {
    if events == [] then 0
    else (if events[0] == RoundTrip then 1 else 0) + CountRoundTrips(events[1..])
  }

  /** Over any run, ten round trips are counted for every summary fired:
      10 * fires + count <= round trips + the count it started from. */
  lemma {:induction false} AtMostOneSummaryPerInterval(c: Compaction, events: seq<CompactionEvent>)
    ensures var (last, fires) := Replay(c, events);
            SummaryInterval * fires + last.count <= CountRoundTrips(events) + c.count
    decreases |events|
  {
    if events != [] {
      var (next, fired) := Step(c, events[0]);
      AtMostOneSummaryPerInterval(next, events[1..]);
    }
  }

  /** While a summary is in flight, round trips only count: none fires. */
  lemma {:induction false} NoSummaryWhileInFlight(c: Compaction, n: nat)
    requires c.inFlight
    ensures var (last, fires) := Replay(c, seq(n, _ => RoundTrip));
            fires == 0 && last == Compaction(c.count + n, true)
    decreases n
  {
    if n > 0 {
      var events := seq(n, _ => RoundTrip);
      assert events[0] == RoundTrip;
      assert events[1..] == seq(n - 1, _ => RoundTrip);
      NoSummaryWhileInFlight(Compaction(c.count + 1, true), n - 1);
    }
  }

  // ----- summary result -------------------------------------------------------

  /** The memory after a summary response: replaced by the trimmed text when
      the response was ok and carried a non-empty text, else unchanged. */
  function MergeSummary(memory: string, ok: bool, text: Option<string>): string {
    if ok && text.Some? && text.value != [] then Trim(text.value) else memory
  }

  /** The note changes only on an ok, non-empty response, and a response of
      blanks erases it. */
  lemma MergeSummaryEffect(memory: string, ok: bool, text: Option<string>)
    ensures !ok || text.None? || text.value == [] ==> MergeSummary(memory, ok, text) == memory
    ensures ok && text.Some? && IsBlank(text.value) && text.value != [] ==> MergeSummary(memory, ok, text) == []
    ensures ok && text.Some? && !IsBlank(text.value) ==> !IsBlank(MergeSummary(memory, ok, text))
  {
    if ok && text.Some? && text.value != [] {
      TrimEmptyIffBlank(text.value);
      TrimEmptyIffBlank(Trim(text.value));
      TrimIdempotent(text.value);
    }
  }
}
