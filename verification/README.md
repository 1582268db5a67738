# AI web builder agent — Dafny model

This project models the core of `AIWebAgent` (`agent/main.py`), the object
behind a small service that turns a natural-language website request into
HTML by asking a chat-completion service. The agent keeps an append-only
conversation log, sends the system instruction plus the last ten logged
turns to the service, splits the reply into prose and an HTML code block,
and remembers the last generated code.

Two parts are modelled:

- **The reply splitter** (`extract_code_from_response`). `extract.dfy`
  emulates `re.search` with the patterns "```html\n([\s\S]*?)\n```" and
  "```\n([\s\S]*?)\n```": the match is the leftmost opener that has a
  closing "\n```" at or after the opener's end, and the body is the shortest
  one (lazy `*?`). `Extract.IsLeftmostFence` states these regex semantics
  directly; `Extract.FirstFence` finds the earliest opener and then the
  earliest closer, and is proved to report exactly that match. The tagged
  pattern wins over the untagged one; with no match the reply comes back
  untrimmed with empty code. `text.dfy` holds Python's `str.strip()`, the
  whitespace set of `str.isspace()` and a `find`-style search, on
  `seq<char>`.
- **The agent state machine** (`agent.dfy`). The agent is an immutable
  record `Agent(apiKey, history, generatedCode)` and each method is a pure
  transition. The clock is an input (every timestamp is a parameter) and the
  completion service is an input: a function from the key and the outgoing
  message list to `Ok(text)` or `Err(message)`, so the contract of
  `generate_website` names the exact context it sends.

`options.dfy` holds the `Option` type used for the optional key and for
search results.

## Model

| member | source | states |
|---|---|---|
| Text.IsSpace | agent/main.py:89-91 | the characters `strip()` removes: among ASCII exactly space, tab, line feed, carriage return, vertical tab, form feed and the separators 0x1C-0x1F; none above U+3000 |
| Text.Strip | agent/main.py:89 | `strip()` removes exactly the maximal leading whitespace run and a trailing whitespace run; the result is a contiguous piece of the input with no whitespace at either end |
| Text.StripPadded | agent/main.py:89-91 | a text without edge whitespace, padded on both sides by whitespace only, strips back to itself |
| Text.StripIdempotent | agent/main.py:89 | stripping twice is stripping once |
| Text.FindFrom | agent/main.py:86 | the search returns the smallest index at or after the start where the pattern occurs, and `None` only when no such index exists |
| Extract.EarliestOpenerSuffices | agent/main.py:86 | if the earliest opener has no closing fence after its end, no later opener has one either, so the search may stop at the earliest opener |
| Extract.FirstFence | agent/main.py:86 | the opener-then-closer search returns the leftmost match with the shortest body, and nothing exactly when the pattern cannot match anywhere |
| Extract.LeftmostFenceUnique | agent/main.py:86 | the leftmost match with the shortest body is unique |
| Extract.FirstFenceIsLeftmost | agent/main.py:86 | any leftmost match is what the search returns |
| Extract.Cut | agent/main.py:88-92 | cutting at a match yields trimmed prose before the opener and a trimmed body, the body never contains "\n```", and the prose is shorter than the reply |
| Extract.ExtractCode | agent/main.py:74-104 | whenever either pattern matches, explanation and code carry no edge whitespace, the code holds no closing fence, and the explanation is shorter than the reply |
| Extract.TaggedMatchWins | agent/main.py:85-92 | with a tagged match the result is the trimmed text before the leftmost "```html\n" and the trimmed text up to the first "\n```" at or after the opener's end, whatever untagged blocks come earlier |
| Extract.PlainMatchFallback | agent/main.py:94-101 | the untagged pattern is used only when the tagged one cannot match, with the same cut |
| Extract.NoMatchVerbatim | agent/main.py:103-104 | with neither pattern matching, the result is the reply itself, untrimmed, and empty code |
| Extract.VerbatimIffNoFence | agent/main.py:103-104 | the result is (reply, "") exactly when neither pattern matches |
| Extract.FencedResultTrimmed | agent/main.py:89-91 | in both fenced cases explanation and code have no leading or trailing whitespace and the code never contains "\n```" |
| Extract.LeftmostFenceSharedPrefix | agent/main.py:86 | a leftmost match stays the leftmost match in any text that agrees up to the end of its closing fence |
| Extract.TrailingTextIgnored | agent/main.py:86-92 | text after the tagged match's closing fence appears in neither output: any reply agreeing up to that fence splits identically |
| Extract.TaggedRoundTrip | agent/main.py:86-92 | a trimmed code without "\n```", wrapped as "```html\n" + code + "\n```", splits back into ("", code) |
| Extract.ProseThenTaggedBlock | agent/main.py:86-92 | for prose without backticks, a tagged block whose code has no "\n```", and any trailing text, the explanation is the trimmed prose, the code the trimmed block, and the trailing text is dropped |
| Extract.TaggedCodeRoundTrip | agent/main.py:86-92 | the code of any reply with a tagged block survives that round trip |
| Extract.PlainCodeHasNoTaggedOpener | agent/main.py:94-101 | code cut from an untagged block never contains "```html\n", because that opener with the block's closer would have been a tagged match |
| Extract.PlainRoundTrip | agent/main.py:94-101 | a trimmed code without "\n```" and without "```html\n", wrapped as "```\n" + code + "\n```", splits back into ("", code) |
| Extract.PlainCodeRoundTrip | agent/main.py:94-101 | the code of any reply split at an untagged block survives the untagged round trip |
| Agent.IsSet | agent/main.py:119 | Python truthiness of the key: it is set exactly when it is neither `None` nor `""` |
| Agent.New | agent/main.py:29-38 | the key is the given one when it is truthy and otherwise the environment's value; log and generated code start empty |
| Agent.SetApiKey | agent/main.py:59-61 | only the key changes |
| Agent.AddMessage | agent/main.py:63-72 | exactly one message with the given role, content and time is appended; the earlier log, key and generated code are unchanged |
| Agent.ClearHistory | agent/main.py:207-210 | log and generated code become empty, the key is kept |
| Agent.GetConversationHistory | agent/main.py:191-205 | one entry per logged message, same length and order, same role, content and timestamp |
| Agent.HistoryAfterAddMessage | agent/main.py:63-72 | listing the history after an append lists the earlier entries followed by the new one |
| Agent.Recent | agent/main.py:135-137 | `history[-n:]` with Python's slice rules: for n >= 1 it has min(n, length) messages and is a suffix of the log; for n = 0 (`-0` is `0`) it is the whole log |
| Agent.RecentAfterAppends | agent/main.py:135-137 | for n >= 1, after at least n appends the window of size n is exactly the last n appended, in order |
| Agent.RecentAfterClear | agent/main.py:207-210 | after clearing, every window is empty |
| Agent.Context | agent/main.py:131-139 | the request holds the system instruction followed by role and content of the last min(10, length) logged messages in order |
| Agent.ContextEndsWithNewest | agent/main.py:126-139 | the request has between 2 and 11 messages, starts with the system role and ends with the turn just logged |
| Agent.GenerateWebsite | agent/main.py:106-159 | no truthy key: nothing changes and the key error is returned; otherwise the user turn is logged before the call, a failure keeps only that turn, keeps the old code and returns "Error generating website: " + message, and a reply logs the raw reply as the assistant turn, stores the extracted code and returns the split with an empty error |
| Agent.GenerateErrorIffNoAnswer | agent/main.py:119-159 | the returned error is empty exactly when a key is set and the service answered; with an error, code and explanation are empty |
| Agent.GenerateHistoryGrowth | agent/main.py:119-154 | the log grows by 0 turns exactly without a key, by 2 exactly on success, never by more, and earlier turns are untouched |
| Agent.GeneratePreservesCodeTracking | agent/main.py:146-152 | if the generated code is the code of the last assistant turn in the log, it still is after `generate_website` |
| Agent.ApplyPreservesCodeTracking | agent/main.py:59-210 | setting the key, generating and clearing each keep the generated code equal to the code of the last assistant turn |
| Agent.RunKeepsCodeTracking | agent/main.py:146-152 | that relation survives any sequence of calls |
| Agent.FreshAgentTracksCode | agent/main.py:36-38 | from a fresh agent, after any calls, the generated code is the code of the most recent successful generation since the last clear, or "" |
| Agent.ApplyWithoutClearAppends | agent/main.py:126-152 | every call other than a clear only appends to the log |
| Agent.RunWithoutClearOnlyAppends | agent/main.py:126-152 | without a clear the log only grows; every earlier turn stays in place |

The agent's callers (`agent/server.py`) reach `add_message` only through
`generate_website`, which is why `Agent.Call` lists setting the key,
generating and clearing as the operations on a live agent.

With no fenced block the explanation is the reply exactly as received, not
trimmed (agent/main.py:104), unlike the two fenced branches. Every exception
raised inside the `try` block of `generate_website` (agent/main.py:129-159)
is modelled as the service outcome `Err`: a failed service call, and also a
reply that is not text (the service answering with a null content makes the
search at agent/main.py:86 raise), which is caught the same way.

## Left out

- `_call_openai_api` (agent/main.py:161-189): the HTTP request, its headers, model name, token ceiling, floating-point temperature, 60-second timeout and JSON decoding are replaced by the `Completion` function parameter returning `Ok(text)` or `Err(message)`; `Err` stands for every exception, and its message for `str(e)`.
- `save_code_to_file` (agent/main.py:212-222) and the example `main` (agent/main.py:226-250): filesystem and console I/O.
- `print(error_msg)` (agent/main.py:158): console output with no effect on state.
- `datetime.now()` (agent/main.py:71): timestamps are `Instant` parameters chosen by the caller.
- `os.getenv("OPENAI_API_KEY")` (agent/main.py:36): the environment's value is the `env` parameter.
- Agent.GetConversationHistory: returns the stored instant, not its `isoformat()` text (agent/main.py:202), because date formatting is outside the model.
- Agent.SystemPrompt: only the first sentence of the instruction text is reproduced; the model relies only on its being a fixed constant.
- async/await and concurrent use of one shared agent by several requests.
- `agent/server.py`: HTTP routing, CORS, static file serving, request models, the global exception handler and process configuration.
- Text.IsSpace: uses the fixed list of code points Python 3 treats as whitespace; the Unicode-version dependence of `str.isspace()` and strings holding lone surrogates are not modelled.
