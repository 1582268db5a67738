/** The conversation state of `AIWebAgent` and its transitions, as pure
    functions. The clock and the completion service are inputs: every
    timestamp is passed in, and the service is a function from the key and
    the outgoing message list to an outcome. */
module Agent {
  import opened Options
  import opened Extract

  /** A point in time, as returned by `datetime.now()`. */
  datatype Instant = Instant(ticks: int)

  /** One stored turn of the conversation. */
  datatype Message = Message(role: string, content: string, timestamp: Instant)

  /** One `{"role", "content"}` entry of the request sent to the completion service. */
  datatype ChatMessage = ChatMessage(role: string, content: string)

  /** One entry of `get_conversation_history`. */
  datatype HistoryEntry = HistoryEntry(role: string, content: string, timestamp: Instant)

  /** What the completion service does with one request: the first
      candidate's text, or the text of the exception it raised. */
  datatype Outcome = Ok(text: string) | Err(message: string)

  /** The completion service, as seen by the agent. */
  type Completion = (string, seq<ChatMessage>) -> Outcome

  /** The dictionary `generate_website` returns. */
  datatype Reply = Reply(code: string, explanation: string, error: string)

  /** The agent's mutable fields: key, conversation log, last generated code. */
  datatype Agent = Agent(apiKey: Option<string>, history: seq<Message>, generatedCode: string)

  /** The agent after a call, with what the call returned. */
  datatype Step = Step(agent: Agent, reply: Reply)

  const UserRole: string := "user"
  const AssistantRole: string := "assistant"
  const SystemRole: string := "system"

  /** How many stored messages are sent as context. */
  const ContextWindow: nat := 10

  /** The fixed instruction that opens every request; its wording is not
      part of this model beyond its first sentence. */
  const SystemPrompt: string :=
    "You are an expert web developer specializing in modern, clean HTML, CSS, and vanilla JavaScript."

  const MissingKeyError: string := "API key not set. Please set your OpenAI API key."
  const ErrorPrefix: string := "Error generating website: "

  /** Python truthiness of an optional string: `None` and `""` are the only
      falsy values. */
  predicate IsSet(key: Option<string>)
    ensures IsSet(key) <==> key != None && key != Some("")
  {
    key.Some? && key.value != ""
  }

  /** The constructor: the given key if it is truthy, otherwise whatever the
      environment holds for the key variable (`env`, possibly absent). */
  function New(apiKey: Option<string>, env: Option<string>): (a: Agent)
    ensures a.history == [] && a.generatedCode == ""
    ensures IsSet(apiKey) ==> a.apiKey == apiKey
    ensures !IsSet(apiKey) ==> a.apiKey == env
  {
    Agent(if IsSet(apiKey) then apiKey else env, [], "")
  }

  /** `set_api_key` replaces the key and nothing else. */
  function SetApiKey(a: Agent, key: string): (r: Agent)
    ensures r.apiKey == Some(key)
    ensures r.history == a.history && r.generatedCode == a.generatedCode
  {
    a.(apiKey := Some(key))
  }

  /** `add_message` appends exactly one message, stamped `now`, and leaves
      the earlier log, the key and the generated code as they were. Any role
      text is accepted. */
  function AddMessage(a: Agent, role: string, content: string, now: Instant): (r: Agent)
    ensures |r.history| == |a.history| + 1
    ensures r.history[..|a.history|] == a.history
    ensures r.history[|a.history|] == Message(role, content, now)
    ensures r.apiKey == a.apiKey && r.generatedCode == a.generatedCode
  {
    a.(history := a.history + [Message(role, content, now)])
  }

  /** `clear_history` empties the log and the generated code and keeps the key. */
  function ClearHistory(a: Agent): (r: Agent)
    ensures r.history == [] && r.generatedCode == ""
    ensures r.apiKey == a.apiKey
  {
    a.(history := [], generatedCode := "")
  }

  function Entry(m: Message): HistoryEntry
  {
    HistoryEntry(m.role, m.content, m.timestamp)
  }

  /** `get_conversation_history`: one entry per stored message, in order,
      with the same role, content and timestamp. */
  function GetConversationHistory(a: Agent): (h: seq<HistoryEntry>)
    ensures |h| == |a.history|
    ensures forall i :: 0 <= i < |h| ==>
      h[i].role == a.history[i].role && h[i].content == a.history[i].content
      && h[i].timestamp == a.history[i].timestamp
  {
    seq(|a.history|, i requires 0 <= i < |a.history| => Entry(a.history[i]))
  }

  /** Python's `h[-n:]` for a non-negative `n`. A negative slice start is
      counted from the end and clamped at 0, but `-0` is `0`, so `h[-0:]` is
      the whole log; for `n >= 1` the slice is the last `n` messages, or all
      of them when there are fewer. */
  function Recent(h: seq<Message>, n: nat): (w: seq<Message>)
    ensures n == 0 ==> w == h
    ensures n > 0 ==> |w| == if |h| < n then |h| else n
    ensures w == h[|h| - |w|..]
  {
    var start := 0 - n as int;
    var fromEnd := if start < 0 then |h| + start else start;
    h[if fromEnd < 0 then 0 else fromEnd..]
  }

  function ToChat(m: Message): ChatMessage
  {
    ChatMessage(m.role, m.content)
  }

  /** The message list sent to the completion service: the system
      instruction, then role and content of the last `ContextWindow` stored
      messages in their original order. */
  function Context(h: seq<Message>): (ms: seq<ChatMessage>)
    ensures |ms| == 1 + (if |h| < ContextWindow then |h| else ContextWindow)
    ensures ms[0] == ChatMessage(SystemRole, SystemPrompt)
    ensures forall k :: 1 <= k < |ms| ==> ms[k] == ToChat(h[|h| - |ms| + k])
  {
    var w := Recent(h, ContextWindow);
    [ChatMessage(SystemRole, SystemPrompt)] + seq(|w|, i requires 0 <= i < |w| => ToChat(w[i]))
  }

  /** The user turn `generate_website` records before calling the service. */
  function UserTurn(request: string, askedAt: Instant): Message
  {
    Message(UserRole, request, askedAt)
  }

  /** `generate_website`. Without a truthy key nothing changes and an error
      is returned. Otherwise the user turn is logged first, the service is
      asked with the context built from the log that already holds it, and:
      on failure only that turn stays, with an error naming the failure; on
      success the extracted code becomes the generated code, the raw reply
      (not its split pieces) is logged as the assistant turn, and the split
      is returned with an empty error. */
  function GenerateWebsite(a: Agent, request: string, complete: Completion,
                           askedAt: Instant, answeredAt: Instant): (s: Step)
    ensures !IsSet(a.apiKey) ==> s == Step(a, Reply("", "", MissingKeyError))
    ensures IsSet(a.apiKey) ==> s.agent.apiKey == a.apiKey
    ensures IsSet(a.apiKey) ==>
      var asked := a.history + [UserTurn(request, askedAt)];
      match complete(a.apiKey.value, Context(asked))
      case Err(e) =>
        && s.agent.history == asked
        && s.agent.generatedCode == a.generatedCode
        && s.reply == Reply("", "", ErrorPrefix + e)
      case Ok(text) =>
        && s.agent.history == asked + [Message(AssistantRole, text, answeredAt)]
        && s.agent.generatedCode == ExtractCode(text).code
        && s.reply == Reply(ExtractCode(text).code, ExtractCode(text).explanation, "")
  {
    if !IsSet(a.apiKey) then
      Step(a, Reply("", "", MissingKeyError))
    else
      var asked := AddMessage(a, UserRole, request, askedAt);
      match complete(a.apiKey.value, Context(asked.history))
      case Err(e) => Step(asked, Reply("", "", ErrorPrefix + e))
      case Ok(text) =>
        var split := ExtractCode(text);
        var answered := AddMessage(asked.(generatedCode := split.code), AssistantRole, text, answeredAt);
        Step(answered, Reply(split.code, split.explanation, ""))
  }

  /** For `n >= 1`, after `n` or more appends, the window of size `n` is
      exactly the last `n` appended, in order. (For `n == 0` the slice is the
      whole log, as `Recent` states.) */
  lemma RecentAfterAppends(h: seq<Message>, appended: seq<Message>, n: nat)
    requires 1 <= n <= |appended|
    ensures Recent(h + appended, n) == appended[|appended| - n..]
  {
    var w := Recent(h + appended, n);
    assert w == (h + appended)[|h| + |appended| - n..];
  }

  /** After clearing, every window of the log is empty. */
  lemma RecentAfterClear(a: Agent, n: nat)
    ensures Recent(ClearHistory(a).history, n) == []
  {
  }

  /** The context of a request holds at most `ContextWindow + 1` messages:
      the system instruction first and the newest stored turn last. */
  lemma ContextEndsWithNewest(h: seq<Message>, m: Message)
    ensures 2 <= |Context(h + [m])| <= ContextWindow + 1
    ensures Context(h + [m])[0].role == SystemRole
    ensures Context(h + [m])[|Context(h + [m])| - 1] == ToChat(m)
  {
    var ms := Context(h + [m]);
    assert ms[|ms| - 1] == ToChat((h + [m])[|h + [m]| - 1]);
  }

  /** The returned error is empty exactly when a key was set and the service
      answered; a service failure is reported with its fixed prefix. */
  lemma GenerateErrorIffNoAnswer(a: Agent, request: string, complete: Completion,
                                 askedAt: Instant, answeredAt: Instant)
    ensures var s := GenerateWebsite(a, request, complete, askedAt, answeredAt);
      s.reply.error == "" <==>
        IsSet(a.apiKey)
        && complete(a.apiKey.value, Context(a.history + [UserTurn(request, askedAt)])).Ok?
    ensures var s := GenerateWebsite(a, request, complete, askedAt, answeredAt);
      s.reply.error != "" ==> s.reply.code == "" && s.reply.explanation == ""
  {
  }

  /** A call logs no turn without a key, one turn when the service fails and
      two when it answers; earlier turns are never changed. */
  lemma GenerateHistoryGrowth(a: Agent, request: string, complete: Completion,
                              askedAt: Instant, answeredAt: Instant)
    ensures var s := GenerateWebsite(a, request, complete, askedAt, answeredAt);
      && |a.history| <= |s.agent.history| <= |a.history| + 2
      && s.agent.history[..|a.history|] == a.history
      && (|s.agent.history| == |a.history| <==> !IsSet(a.apiKey))
      && (|s.agent.history| == |a.history| + 2 <==> s.reply.error == "")
  {
    var s := GenerateWebsite(a, request, complete, askedAt, answeredAt);
    if IsSet(a.apiKey) {
      var asked := a.history + [UserTurn(request, askedAt)];
      assert asked[..|a.history|] == a.history;
      match complete(a.apiKey.value, Context(asked))
      case Err(e) =>
      case Ok(text) =>
        assert s.agent.history[..|a.history|] == asked[..|a.history|];
    }
  }

  /** Listing the history after an append lists one more entry at the end. */
  lemma HistoryAfterAddMessage(a: Agent, role: string, content: string, now: Instant)
    ensures GetConversationHistory(AddMessage(a, role, content, now))
      == GetConversationHistory(a) + [HistoryEntry(role, content, now)]
  {
  }

  /** The code extracted from the most recent assistant turn in a log, or ""
      when there is none. */
  function LastReplyCode(h: seq<Message>): string
  {
    if |h| == 0 then ""
    else if h[|h| - 1].role == AssistantRole then ExtractCode(h[|h| - 1].content).code
    else LastReplyCode(h[..|h| - 1])
  }

  /** The generated code is the code of the most recent successful
      generation still in the log, or "" when there is none. */
  ghost predicate CodeTracksLastReply(a: Agent)
  {
    a.generatedCode == LastReplyCode(a.history)
  }

  /** Appending a turn that is not an assistant turn keeps the last reply. */
  lemma LastReplyCodeSkipsOtherRoles(h: seq<Message>, m: Message)
    requires m.role != AssistantRole
    ensures LastReplyCode(h + [m]) == LastReplyCode(h)
  {
    assert (h + [m])[..|h|] == h;
  }

  /** `generate_website` keeps the generated code in step with the log. */
  lemma GeneratePreservesCodeTracking(a: Agent, request: string, complete: Completion,
                                      askedAt: Instant, answeredAt: Instant)
    requires CodeTracksLastReply(a)
    ensures CodeTracksLastReply(GenerateWebsite(a, request, complete, askedAt, answeredAt).agent)
  {
    if IsSet(a.apiKey) {
      LastReplyCodeSkipsOtherRoles(a.history, UserTurn(request, askedAt));
    }
  }

  /** The operations the agent's callers perform on it; `add_message` is only
      ever reached through `generate_website`. */
  datatype Call =
    | SetKey(key: string)
    | Generate(request: string, complete: Completion, askedAt: Instant, answeredAt: Instant)
    | Clear

  function Apply(a: Agent, c: Call): Agent
  {
    match c
    case SetKey(key) => SetApiKey(a, key)
    case Generate(request, complete, askedAt, answeredAt) =>
      GenerateWebsite(a, request, complete, askedAt, answeredAt).agent
    case Clear => ClearHistory(a)
  }

  function Run(a: Agent, calls: seq<Call>): Agent
    decreases |calls|
  {
    if |calls| == 0 then a else Run(Apply(a, calls[0]), calls[1..])
  }

  /** Every call keeps the generated code in step with the log. */
  lemma ApplyPreservesCodeTracking(a: Agent, c: Call)
    requires CodeTracksLastReply(a)
    ensures CodeTracksLastReply(Apply(a, c))
  {
    match c
    case SetKey(key) =>
    case Generate(request, complete, askedAt, answeredAt) =>
      GeneratePreservesCodeTracking(a, request, complete, askedAt, answeredAt);
    case Clear =>
  }

  /** The invariant survives any sequence of calls. */
  lemma {:induction false} RunKeepsCodeTracking(a: Agent, calls: seq<Call>)
    requires CodeTracksLastReply(a)
    ensures CodeTracksLastReply(Run(a, calls))
    decreases |calls|
  {
    if |calls| > 0 {
      ApplyPreservesCodeTracking(a, calls[0]);
      RunKeepsCodeTracking(Apply(a, calls[0]), calls[1..]);
    }
  }

  /** From a fresh agent, after any sequence of calls, the generated code is
      the code of the most recent successful generation since the last
      clear, or "" when there was none. */
  lemma FreshAgentTracksCode(apiKey: Option<string>, env: Option<string>, calls: seq<Call>)
    ensures Run(New(apiKey, env), calls).generatedCode == LastReplyCode(Run(New(apiKey, env), calls).history)
  {
    RunKeepsCodeTracking(New(apiKey, env), calls);
  }

  /** Every call other than a clear only appends to the log. */
  lemma ApplyWithoutClearAppends(a: Agent, c: Call)
    requires !c.Clear?
    ensures |a.history| <= |Apply(a, c).history|
    ensures Apply(a, c).history[..|a.history|] == a.history
  {
    if c.Generate? {
      GenerateHistoryGrowth(a, c.request, c.complete, c.askedAt, c.answeredAt);
    }
  }

  lemma PrefixTransitive(x: seq<Message>, y: seq<Message>, z: seq<Message>)
    requires |x| <= |y| <= |z| && y[..|x|] == x && z[..|y|] == y
    ensures z[..|x|] == x
  {
    assert z[..|y|][..|x|] == z[..|x|];
  }

  /** Without a clear, the log only grows: every earlier turn stays in place. */
  lemma {:induction false} RunWithoutClearOnlyAppends(a: Agent, calls: seq<Call>)
    requires forall i :: 0 <= i < |calls| ==> !calls[i].Clear?
    ensures |a.history| <= |Run(a, calls).history|
    ensures Run(a, calls).history[..|a.history|] == a.history
    decreases |calls|
  {
    if |calls| > 0 {
      var b := Apply(a, calls[0]);
      ApplyWithoutClearAppends(a, calls[0]);
      assert forall i :: 0 <= i < |calls[1..]| ==> !calls[1..][i].Clear? by {
        forall i | 0 <= i < |calls[1..]| ensures !calls[1..][i].Clear? {
          assert calls[1..][i] == calls[i + 1];
        }
      }
      RunWithoutClearOnlyAppends(b, calls[1..]);
      PrefixTransitive(a.history, b.history, Run(b, calls[1..]).history);
    }
  }
}
