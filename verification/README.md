# chatbotlite conversation engine in Dafny

This project models the conversation engine of chatbotlite, a single-page chat client for Google's Gemini `generateContent` API. All of it lives in `app.js`. The engine keeps six pieces of module-level state:

- `chatHistory`: the turns sent with every request;
- `memory`: a running summary note appended to the system prompt;
- `turnsSinceLastSummary` and `isSummarizing`: the counter and guard of the background summarisation;
- `isLoading` and `abortController`: the state of the pending chat request.

`sendMessage` pushes the user turn and caps the history at 100 entries. It sends the history with the system prompt and then does one of two things. On success it appends the reply, saves the history and may start a summary. On any failure it shows a notice and pops the pending turn. The send button doubles as a stop button.

Around the engine sit pure string helpers:

- the error-to-notice classifier, including the "retry in N s" hint rounded up;
- the storage-key prefix derived from the page path;
- the API-key obfuscation (reverse, then base64);
- the fallback HTML escaping and tag stripping used when the markdown and sanitiser libraries are missing;
- the link filter that refuses `javascript:`, `data:` and `vbscript:` links;
- the title default.

Layout:

- `wrappers.dfy`: `Option`.
- `text.dfy` (module `Text`): ECMAScript `trim` and `\s`, substring test, ASCII lower-casing, reversal, decimal digits.
- `errors.dfy` (module `ErrorNotice`): the notice chosen for a failed request.
- `markup.dfy` (module `Markup`): the escape fallback and its inverse, the tag stripper, the link filter.
- `base64.dfy` (module `Base64`): `btoa` as section 4 of RFC 4648, and `atob` as the forgiving-base64 decode of the WHATWG Infra standard.
- `settings.dfy` (module `Settings`): storage prefix, key obfuscation, title default.
- `conversation.dfy` (module `Conversation`): turns and the value-level history operations (push with cap, reply, rollback), the system and summary prompts, and the compaction counter.
- `session.dfy` (module `Session`): class `ChatSession`, whose methods update the state in place.

Every network round trip is split at its `await`:

- a `Begin…`/`Trigger…` method runs up to the request and returns the request it would send;
- a `Finish…` method takes the outcome as a parameter and runs the rest.

Writes to the page's storage are fields of the session (`storedHistory`, `storedMemory`). Whether a write succeeded is a `bool` parameter, because a write can throw when the quota is exceeded.

## Model

| member | source | states |
|---|---|---|
| Text.TrimStart | app.js:466-470 | The result is a suffix of the input; it does not start with white space, and everything dropped is white space. |
| Text.TrimEnd | app.js:466-470 | The result is a prefix of the input; it does not end with white space, and everything dropped is white space. |
| Text.TrimIsTightSlice | app.js:466-470 | `trim` returns a contiguous slice of its input, with no white space at either end. |
| Text.TrimEmptyIffBlank | app.js:466-470 | The trimmed text is empty exactly when the input is all white space, so `!key` and `!text` test for blank input. |
| Text.TrimIdempotent | app.js:466-470 | Trimming twice is trimming once. |
| Text.Trim | app.js:466-470 | `String.prototype.trim`; `TrimIsTightSlice`, `TrimEmptyIffBlank` and `TrimIdempotent` state what it returns. |
| Text.ContainsAt | app.js:514 | `includes` holds whenever the word occurs at some index. |
| Text.ContainsHasIndex | app.js:514 | Conversely, `includes` holding means the word occurs at some index. |
| Text.Contains | app.js:514 | `String.prototype.includes`; `ContainsAt` and `ContainsHasIndex` make it equivalent to an occurrence at some index. |
| Text.ReverseInvolution | app.js:30-31 | Reversing twice gives back the key. |
| Text.Reverse | app.js:30-31 | `split('').reverse().join('')`: same length, the character at i is the one at length - 1 - i. |
| Text.LowerAscii | app.js:332 | `toLowerCase` on ASCII: same length, each character lower-cased on its own. |
| Text.DigitsValueBound | app.js:517 | A run of k digits denotes a value below 10^k, so the fraction digits of the retry hint denote less than one. |
| Text.NatToStringRoundTrip | app.js:517 | The seconds are printed as digits that read back as the same number, with no leading zero. |
| Text.NatToString | app.js:517 | The decimal digits of a natural number: non-empty, all digits, no leading zero. |
| Text.IntToString | app.js:526 | An integer printed as `-` and its digits when negative, else its digits; `OtherNoticeNamesCode` uses it. |
| ErrorNotice.ErrorCode | app.js:511 | The code is `error.code` when present and non-zero, otherwise the HTTP status. |
| ErrorNotice.Classify | app.js:511-527 | Code 429 is always a rate limit, and the generic notice carries the effective code and is used only for codes other than 400, 403, 404 and 429; `ClassifyTable` gives the full table. |
| ErrorNotice.MentionsRateLimit | app.js:514 | Code 429, or `quota` or `rate` anywhere in the message; `ContainsAt` and `ContainsHasIndex` give the meaning of the substring test. |
| ErrorNotice.RetryHintOf | app.js:515-518 | There is no hint exactly when the pattern matches at no index of the message; otherwise the hint is `RetrySeconds` of the leftmost capture. |
| ErrorNotice.RetryCapture | app.js:515 | `wait[1]`: the capture at the leftmost matching index; `RetryMatchIndexFirst` and `CaptureTwelvePointSeven` state which index that is. |
| ErrorNotice.RetrySeconds | app.js:517 | `Math.ceil(parseFloat(run))` over the decimal read; `RetrySecondsIsCeiling`, `RetrySecondsRoundsUp` and `RetrySecondsNaN` state its value. |
| ErrorNotice.ClassifyTable | app.js:511-527 | The decision table, in order: rate limit (code 429, or `quota` or `rate` in the message); otherwise 400, 403, 404; otherwise the generic notice carrying the code. Each case holds if and only if its condition does. |
| ErrorNotice.RateLimitWinsOverStatus | app.js:514-524 | For any status and code whose effective code is 400, 403 or 404, a message containing `rate` or `quota` is reported as a rate limit, with the hint read from that message. |
| ErrorNotice.GenerateReadsAsRateLimit | app.js:514 | The test is a case-sensitive substring test, so a status 500 saying "failed to generate" is reported as a rate limit with no hint. |
| ErrorNotice.Span | app.js:515 | The longest prefix of the input whose characters all satisfy the predicate. |
| ErrorNotice.MatchAt | app.js:515 | A match at the head of the text is `retry in` in any ASCII case, then the captured non-empty run of digits and dots, then `s` or `S`. |
| ErrorNotice.MatchAtFinds | app.js:515 | Conversely, that phrase, a non-empty run of digits and dots and a following `s` or `S` always match, and the capture is exactly that run. |
| ErrorNotice.SpanStopsAt | app.js:515 | `[\d.]+` is greedy: a run of matching characters followed by a non-matching one is exactly what is taken. |
| ErrorNotice.MatchNeedsR | app.js:515 | A match can only start at an `r` or `R`. |
| ErrorNotice.RetryMatchIndex | app.js:515 | The index returned holds a match, and no earlier index does. |
| ErrorNotice.RetryMatchIndexNone | app.js:515 | When the pattern matches at no index, no index is returned. |
| ErrorNotice.RetryMatchIndexComplete | app.js:515 | When no index is returned, the pattern matches at no index. |
| ErrorNotice.RetryMatchIndexFirst | app.js:515 | The leftmost match is the one found. |
| ErrorNotice.DecimalParts | app.js:517 | `parseFloat` reads the longest run of leading digits. When a dot follows it, it also reads the longest run of digits after that dot, and otherwise no fraction. Both parts are digits and lie in the run in that order. |
| ErrorNotice.RetrySecondsIsCeiling | app.js:517 | The seconds shown are the ceiling of the decimal read: (n - 1)·10^k < V ≤ n·10^k. |
| ErrorNotice.CeilingBounds | app.js:517 | The integer part plus one when the fraction is non-zero is the ceiling. |
| ErrorNotice.RetrySecondsNaN | app.js:517 | The hint is NaN exactly when the run starts neither with a digit nor with a dot followed by a digit. |
| ErrorNotice.RetrySecondsRoundsUp | app.js:517 | The seconds are the integer digits' value, plus one exactly when some fraction digit is not `0`. |
| ErrorNotice.RetryInTwelvePointSeven | app.js:514-518 | "Please retry in 12.7s." with status 429 gives the rate-limit notice with 13 seconds. |
| ErrorNotice.CaptureTwelvePointSeven | app.js:515 | The capture of that message is `12.7`. |
| ErrorNotice.MatchTwelvePointSeven | app.js:515 | The match at `retry in 12.7s.` captures `12.7`. |
| ErrorNotice.CeilTwelvePointSeven | app.js:517 | `12.7` rounds up to 13. |
| ErrorNotice.RetryNoticeNamesSeconds | app.js:516-518 | The rate-limit notice with a hint contains the digits of exactly the computed seconds. |
| ErrorNotice.OtherNoticeNamesCode | app.js:526 | The generic notice contains the error code. |
| ErrorNotice.NoticeText | app.js:516-526 | The text shown for each notice; `RetryNoticeNamesSeconds` and `OtherNoticeNamesCode` show that the seconds and the code can be read back from it. |
| Markup.ReplaceCharAppend | app.js:348-349 | A global single-character `replace` distributes over concatenation. |
| Markup.ReplaceCharAbsent | app.js:348-349 | Replacing a character that does not occur changes nothing. |
| Markup.ReplaceCharSingle | app.js:348-349 | On one character, `replace` substitutes it or keeps it. |
| Markup.RenderFallback | app.js:347-349 | The escape fallback: `&`, `<`, `>` then newlines replaced in that order; `RenderFallbackIsPerChar`, `RenderFallbackRoundTrip` and `RenderFallbackOnlyBreaks` state its meaning. |
| Markup.RenderFallbackChar | app.js:347-349 | The four chained replaces map one character to its escape: `&amp;`, `&lt;`, `&gt;`, `<br>`, or the character itself. |
| Markup.RenderFallbackIsPerChar | app.js:347-349 | Because `&` is replaced first, the chain equals escaping each character on its own. Later replaces never touch the entities made earlier. |
| Markup.UnescapeChar | app.js:347-349 | Decoding undoes the escape of one character, whatever follows it. |
| Markup.RenderFallbackRoundTrip | app.js:347-349 | The fallback output decodes back to exactly the input text. |
| Markup.EscapeEachRoundTrip | app.js:347-349 | The per-character escape decodes back to its input. |
| Markup.RenderFallbackOnlyBreaks | app.js:347-349 | Every `<` in the fallback output opens a `<br>`: no other markup can appear. |
| Markup.EscapeCharOpensOnlyBreak | app.js:349 | A `<` in an escaped character comes only from a newline's `<br>`. |
| Markup.EscapeEachOnlyBreaks | app.js:347-349 | Every `<` in the per-character escape opens a `<br>`. |
| Markup.IndexOf | app.js:362 | The first occurrence of a character: it is there, and not before. |
| Markup.StripTags | app.js:362 | `/<[^>]*>/g` removal keeps only characters of the input, and no `<` is followed later by a `>` in its output. |
| Markup.IndexOfFirst | app.js:362 | `[^>]*` stops at the first `>`: the first occurrence of a character is the index found. |
| Markup.StripTagsSkipsTag | app.js:362 | A tag is removed up to its first `>`, and the tag-free text before it is kept: `a` + `<t>` + `b` strips to `a` followed by the stripped `b`. |
| Markup.StripTagsPlainPrefix | app.js:362 | Text holding no `<` is kept in front of whatever the rest strips to. |
| Markup.StripTagsTagFirst | app.js:362 | A leading `<`…`>` tag with no `>` inside is dropped whole. |
| Markup.StripTagsUnclosedTail | app.js:362 | Text with no `>` after the stripped part is kept as it is, so a `<` never closed survives. |
| Markup.StripTagsExample | app.js:362 | `a<b>c` strips to `ac`. |
| Markup.StripTagsKeepsClean | app.js:362 | Text with no `<`…`>` pair is left unchanged. |
| Markup.StripTagsIdempotent | app.js:362 | Stripping twice equals stripping once. |
| Markup.RemoveIgnored | app.js:332 | The `\s` and control characters are removed: none remains. |
| Markup.RemoveIgnoredAppend | app.js:332 | The removal distributes over concatenation. |
| Markup.RemoveIgnoredNone | app.js:332 | Text without such characters is unchanged. |
| Markup.IsDangerousHref | app.js:332-333 | The normalised href starts with `javascript:`, `data:` or `vbscript:`; `InsertIgnoredKeepsVerdict` and `CaseKeepsVerdict` show what normalisation cannot hide. |
| Markup.SchemeKey | app.js:332 | The href lower-cased with `\s` and control characters removed; `InsertIgnoredKeepsVerdict`, `CaseKeepsVerdict` and `SchemeKeyPlainPrefix` state what it keeps. |
| Markup.RenderLink | app.js:331-334 | A dangerous href renders as the bare link text, any other as an anchor opening in a new tab with `noopener noreferrer`. |
| Markup.LowerAsciiAppend | app.js:332 | Lower-casing distributes over concatenation. |
| Markup.InsertIgnoredKeepsVerdict | app.js:332-333 | Hiding a space or control character anywhere in an href changes neither its normalised scheme nor the verdict. |
| Markup.CaseKeepsVerdict | app.js:332-333 | The verdict does not depend on ASCII case. |
| Markup.SchemeKeyPlainPrefix | app.js:332 | A lower-case printable prefix survives normalisation unchanged. |
| Markup.JavascriptSchemeBlocked | app.js:333 | Any href starting with `javascript:` is blocked. |
| Markup.ObfuscatedSchemesBlocked | app.js:331-334 | `JavaScript:` and `java<TAB>script:` links render as their bare text. |
| Base64.IndexChar | app.js:30 | Every sextet maps into the base64 alphabet. |
| Base64.CharIndex | app.js:31 | The decoder's alphabet lookup inverts the encoder's. |
| Base64.CharIndexOfIndexChar | app.js:30-31 | Looking up an encoded sextet gives it back. |
| Base64.EncodeData | app.js:30 | `btoa` emits only alphabet characters, four per three bytes and two or three for a final partial group. |
| Base64.EncodedLengthMod | app.js:30 | The unpadded length is 0, 2 or 3 modulo 4, following the byte count modulo 3. |
| Base64.Encode | app.js:30 | With its `=` padding, `btoa` output is a whole number of four-character groups. |
| Base64.RemoveWhitespace | app.js:31 | `atob` first drops ASCII white space: none remains. |
| Base64.DecodeQuad | app.js:30-31 | One group of three bytes survives encoding and decoding. |
| Base64.DecodeTripleOf | app.js:30-31 | A final group of two bytes survives encoding and decoding. |
| Base64.DecodePairOf | app.js:30-31 | A final group of one byte survives encoding and decoding. |
| Base64.DecodeGroup | app.js:30-31 | Decoding an encoding yields the first three bytes, then decodes the rest. |
| Base64.DecodeEncodeData | app.js:30-31 | Decoding the unpadded characters gives back the bytes. |
| Base64.StripPaddingOfEncode | app.js:30-31 | The padding `btoa` adds is exactly what `atob` strips. |
| Base64.EncodeHasNoWhitespace | app.js:30-31 | `btoa` output has no white space for `atob` to drop. |
| Base64.EncodeDataLength | app.js:30-31 | The unpadded encoding never has a length `atob` rejects. |
| Base64.DecodeEncode | app.js:30-31 | `atob(btoa(b)) == b` for every byte string. |
| Base64.DecodeRejects | app.js:31 | `atob` throws on `A` (length 1 modulo 4), `ab=c` (a `=` inside) and `Zm9!` (a character outside the alphabet). |
| Base64.Decode | app.js:31 | `atob`: fails on a stripped length of 1 modulo 4 or a character outside the alphabet; `DecodeEncode` and `DecodeRejects` state its meaning. |
| Settings.NormalisedIsDirectory | app.js:2 | A non-empty path normalises to a non-empty path ending in `/`, and the empty path stays empty. |
| Settings.NormaliseIdempotent | app.js:2 | Normalising twice is normalising once. |
| Settings.NormalisePath | app.js:2 | The two `replace` calls on the page path; `NormalisedIsDirectory` and `NormaliseIdempotent` state their effect. |
| Settings.StoragePrefix | app.js:2 | `cbl_`, the normalised path, `_`; `DirectoryFormsShareNamespace` states which pages share it. |
| Settings.DirectoryFormsShareNamespace | app.js:2 | `/x`, `/x/` and `/x/index.html` get the same storage prefix. |
| Settings.DirectoryNormalisesToItself | app.js:2 | A directory path (ending in `/`, not in `/index.html`) is left unchanged by normalisation. |
| Settings.DistinctDirectoriesDistinctPrefixes | app.js:1-2 | Two directory paths get the same storage prefix exactly when they are the same path, so different apps keep separate storage. |
| Settings.Latin1Bytes | app.js:30 | A Latin-1 string maps to the bytes of its code points. |
| Settings.Latin1String | app.js:31 | Bytes map back to Latin-1 characters with the same values. |
| Settings.ObfuscateKey | app.js:30 | Obfuscation succeeds exactly for Latin-1 keys (`btoa` throws otherwise). |
| Settings.DeobfuscateObfuscate | app.js:30-31 | A remembered Latin-1 key is restored exactly. |
| Settings.MalformedStoredKeyIsEmpty | app.js:31 | Any stored text that `atob` rejects restores as the empty key. |
| Settings.DeobfuscateKey | app.js:31 | `atob`, then reversal, or `''` when `atob` throws; `DeobfuscateObfuscate` and `MalformedStoredKeyIsEmpty` state both outcomes. |
| Settings.TitleIsSettled | app.js:277 | The title is never blank and is already trimmed; a non-blank input gives its trimmed self; applying the rule again changes nothing. |
| Settings.TitleOrDefault | app.js:277 | The trimmed title, or `メフィ` when it is blank; `TitleIsSettled` states its properties. |
| Conversation.LastN | app.js:540 | `slice(-n)` is the suffix of length min(n, length). |
| Conversation.Capped | app.js:484-487 | The cap keeps a suffix: the last 100 entries, or 99 when the first of those is a model turn; a history of at most 100 is untouched. |
| Conversation.PushUser | app.js:481-487 | Push then cap; `PushUserEndsWithTurn`, `SendFromSettled` and `FullHistoryEvictsOldestPair` state its effect. |
| Conversation.PushReply | app.js:537 | The uncapped push of the reply; `ReplySettles` states that it completes the pending pair. |
| Conversation.Rollback | app.js:529 | `pop()`; `RollbackSettles`, `RollbackAfterPush` and `FailedSendOnSettled` state its effect after a push. |
| Conversation.PushUserEndsWithTurn | app.js:481-487 | After the push and the cap, the new user turn is last and there are at most 100 entries. |
| Conversation.AlternatesDropPair | app.js:484-487 | Dropping the oldest pair keeps user/model alternation. |
| Conversation.SendFromSettled | app.js:481-487 | From complete pairs (even length ≤ 100, starting with a user turn), a send leaves pairs plus the pending turn. Below the cap it appends; at the cap the two oldest entries go. |
| Conversation.SendKeepsPairing | app.js:481-487 | The same, as an implication. |
| Conversation.ReplySettles | app.js:537 | The uncapped reply push completes the pending pair. |
| Conversation.RollbackSettles | app.js:529-554 | Popping the pending turn leaves complete pairs. |
| Conversation.FullHistoryEvictsOldestPair | app.js:481-537 | A successful send on a full history keeps 100 entries: the two oldest are gone, the new pair is at the end, and it still starts with a user turn. |
| Conversation.RollbackAfterPush | app.js:481-554 | A failed send leaves a suffix of the old history. It equals the old history exactly when that had fewer than 100 entries, because evicted entries stay evicted. |
| Conversation.FailedSendOnSettled | app.js:481-554 | From complete pairs, a failed send restores the history below the cap, and at the cap loses the oldest pair. |
| Conversation.ReplyText | app.js:534 | The reply text when present and non-empty, otherwise `(応答なし)`; never empty. |
| Conversation.SystemPromptWithMemory | app.js:366-372 | The base prompt, then the header and the memory when there is one; `SystemPromptCarriesMemory` states that the memory can be read back. |
| Conversation.SystemPromptCarriesMemory | app.js:366-372 | The instruction is the base prompt exactly when memory is empty. Otherwise the memory can be read back after the `【過去の会話の記憶】` header. |
| Conversation.TranscriptAppend | app.js:382-384 | The `\n`-joined transcript of two parts is their transcripts joined by one newline. |
| Conversation.Transcript | app.js:382-384 | The `User:`/`Bot:` lines joined by `\n`; `TranscriptAppend` states how it splits. |
| Conversation.TurnLine | app.js:382-383 | `User: ` or `Bot: ` by role, then the turn's text; `TranscriptAppend` relies on it. |
| Conversation.PreviousMemory | app.js:386 | `Previous memory:\n`, the note and a blank line, or nothing without a note; `PreviousMemoryMarks` and `PreviousMemoryCarries` state both. |
| Conversation.SummaryPrompt | app.js:382-397 | The text of the summary request; `SummaryPromptShape` states its layout. |
| Conversation.OccursInMiddle | app.js:397 | A middle part occurs right after its prefix. |
| Conversation.PreviousMemoryMarks | app.js:386 | The text opens with `Previous memory:` exactly when memory is non-empty. |
| Conversation.PreviousMemoryCarries | app.js:386 | A non-empty note follows `Previous memory:\n` verbatim and is followed by a blank line. |
| Conversation.SummaryPromptShape | app.js:382-397 | The summary prompt opens with `Previous memory:` exactly when memory is non-empty. A non-empty note follows that marker verbatim and is followed by a blank line. Right after the memory block comes `Recent conversation:` and the transcript of the last min(20, length) turns, and the prompt ends with the instruction. |
| Conversation.TickFires | app.js:376-379 | A call fires exactly when the incremented count reaches 10 and no summary is in flight. Firing resets the count and takes the guard; otherwise the count grows and the guard is untouched. |
| Conversation.Tick | app.js:376-379 | One call of the counter step; `TickFires`, `AtMostOneSummaryPerInterval` and `NoSummaryWhileInFlight` state its behaviour. |
| Conversation.AtMostOneSummaryPerInterval | app.js:375-379 | Over any sequence of round trips, finished summaries and history clears, 10 × (summaries fired) + final count ≤ round trips + initial count. |
| Conversation.NoSummaryWhileInFlight | app.js:376-377 | While the guard is held, any number of round trips fires nothing and only grows the count. |
| Conversation.MergeSummaryEffect | app.js:403-407 | Memory changes only for an ok response with non-empty text. A response of blanks erases it; a response with visible text leaves visible memory. |
| Conversation.MergeSummary | app.js:403-407 | The memory after a summary response; `MergeSummaryEffect` states when it changes. |
| Session.ChatSession.constructor | app.js:146-150 | Memory is the stored note or `''` (as at app.js:11); the saved history is used only when it is a non-empty list; nothing is loading or summarising. |
| Session.FailureNotice | app.js:509-552 | The notice of a failed request: the classified text for an error response, the cancel notice for an abort, the connection notice otherwise; used by `FinishSend`. |
| Session.ChatRequest | app.js:490-502 | The chat request: the model's endpoint, the key header, the memory-augmented system instruction, the history and temperature 0.7 with 4096 tokens; `BeginSend` and `StartRequest` state which history it carries. |
| Session.SummaryRequest | app.js:388-400 | The summary request: one user turn holding `SummaryPrompt`, no system instruction, temperature 0.3 with 256 tokens; `TriggerSummary` and `FinishSend` state when it is built. |
| Session.ChatSession.SeedMemory | app.js:95-99 | The seed never overwrites an existing memory or installs a blank one; otherwise memory becomes the trimmed seed. |
| Session.ChatSession.BeginSend | app.js:466-502 | A blank key gives the alert with its text; a blank message or a pending request returns silently; neither changes any state. Otherwise it sets loading with a fresh controller, pushes and caps the user turn, and returns the request carrying the history and the memory-augmented prompt. The trimmed key is kept for the summary. Pairing is preserved. |
| Session.ChatSession.StartRequest | app.js:477-502 | Past the guards: loading is set with a fresh, un-aborted controller, the key is kept for the summary, the user turn is pushed and capped, and the request carries that history and the memory-augmented prompt. Pairing is preserved. |
| Session.ChatSession.ClickSend | app.js:185-191 | While loading, a click aborts the controller and changes nothing else. Otherwise it does exactly what `BeginSend` does when no request is pending: the missing-key alert, a silent return for a blank message, or the started request with loading set, a fresh controller, the key kept and the capped push. Pairing is preserved. |
| Session.ChatSession.TriggerSummary | app.js:375-397 | The counter and guard move as `Tick` says. A request is returned exactly when it fires, built from the current memory and history at temperature 0.3 with 256 tokens. |
| Session.ChatSession.FinishSend | app.js:505-557 | Loading ends and the controller is cleared on every outcome. On success the reply is appended, the last 100 entries are stored (a failed write shows the quota notice) and the counter ticks; a summary request uses the key this request was sent with and the model selected now. On any failure the classified, cancel or connection notice is shown, the pending turn is popped, and storage, counter and guard stay as they were. Pairing is preserved. |
| Session.ChatSession.FinishSummary | app.js:399-415 | The guard is always released. Memory follows `MergeSummary` and is stored when replaced; a failed store shows the memory quota notice. |
| Session.ChatSession.ClearMemory | app.js:293-298 | After confirmation memory is empty and its stored entry removed; nothing else changes. |
| Session.ChatSession.ClearHistory | app.js:300-304 | After confirmation history is empty, its stored entry removed and the counter zero; memory is untouched. |

## Left out

- The network: the chat request, the summary request, the character-file loading and the key validation (`validateApiKey`, app.js:240-266, with its debounce timer). Requests are returned as values and their results are parameters (`Outcome`, the fetched seed text).
- Page storage reads and writes: storage is modelled as the two session fields; other keys (`remember`, `api_key`, `model`, `title`, theme) are not modelled beyond the key obfuscation and title rule.
- All DOM work: message bubbles, typing indicator, the input box being cleared, button labels, modals, `alert`/`confirm` (the confirmation is a `bool` parameter), the welcome element, the memory preview.
- The `marked` and `DOMPurify` branches (app.js:325-345, app.js:354-360): third-party libraries; only their fallbacks and the link renderer are modelled.
- The rest of the character loading: persona, knowledge text appended to the system prompt, style sheet, configuration fields other than the seed memory.
- `AbortController` mechanics: `ClickSend` records the abort on the handle, but the outcome passed to `FinishSend` is a free parameter. The model does not force an aborted request to report `Aborted`.
- Interleaving: the summary runs un-awaited in the background. `FinishSummary` may be called between any two other steps, and the model does not relate its outcome to the request `TriggerSummary` returned.
- Session.ChatSession.ClearHistory: pairing is promised only when no request is pending. Clearing during a request empties the history under the pending turn, and the reply or rollback then acts on the empty list; the source does the same.
- Floating point: `parseFloat` and `Math.ceil` are computed exactly over the decimal digits. Rounding of very long digit strings and exponent notation in printing (values of 1e21 and above) are not modelled.
- String encoding: strings are sequences of code points, not UTF-16 code units. This matters only for characters outside the Basic Multilingual Plane, which `btoa` rejects anyway. `toLowerCase` is modelled on ASCII only, which decides the three scheme prefixes the same way.
- Restored history: `JSON.parse` and array checks are reduced to an optional list of turns. Entries of another shape are not modelled.
- Response bodies: an ok response that cannot be parsed is passed as `TransportError`, matching the `catch` it reaches. An error body that cannot be parsed has neither code nor message.
