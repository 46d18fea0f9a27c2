/** `GraphMemoryChatClient`: a chat client stage that, for a request made for
    a user, adds the graph-memory instructions and two tools, "graph_query"
    and "graph_mutate", which both run a Gremlin script against the user's
    partition of a graph database. A script must mention the partition-key
    placeholder, which is replaced by the user id before the script is sent;
    transient failures are retried with exponential back-off.

    The database is a parameter: `server(n, script)` is the outcome of the
    `n`-th attempt (counting from 0) to run `script`. */
module GraphMemory {
  import opened Wrappers
  import opened Text
  import opened Chat
  import opened ChatExtensions
  import opened SystemPromptExtensions

  const NewLine: string := ['\n']

  /** The opening lines of the graph-memory instructions added as a system
      prompt (the rest of the text is not modelled; it holds no '$'). */
  const GraphPromptHeading := "# Knowledge Graph Memory Management:"
  const GraphPrompt := GraphPromptHeading + NewLine + NewLine
    + "Follow these steps for each interaction:" + NewLine + NewLine + "1. Memory Retrieval:"

  const EndUserIdPlaceholder := "$$endUserId$$"
  const PartitionKeyPlaceholder := "$$partitionKey$$"

  const QueryToolName := "graph_query"
  const MutateToolName := "graph_mutate"

  /** A text without a '$' holds no placeholder that starts with one. */
  lemma {:induction false} NoDollarNoOccurrence(s: string, p: string)
    requires |p| > 0 && p[0] == '$'
    requires forall i :: 0 <= i < |s| ==> s[i] != '$'
    ensures IndexOf(s, p).None?
    decreases |s|
  {
    if |s| >= |p| {
      assert s[..|p|][0] != p[0];
      NoDollarNoOccurrence(s[1..], p);
    }
  }

  lemma GraphPromptHasNoDollar()
    ensures forall i :: 0 <= i < |GraphPrompt| ==> GraphPrompt[i] != '$'
    ensures GraphPrompt[0] == '#'
  {
    var a := GraphPromptHeading + NewLine + NewLine;
    var b := "Follow these steps for each interaction:" + NewLine + NewLine;
    var c := "1. Memory Retrieval:";
    NoDollarJoin(a, b);
    NoDollarJoin(a + b, c);
    assert GraphPrompt == a + b + c;
  }

  lemma NoDollarJoin(a: string, b: string)
    requires forall i :: 0 <= i < |a| ==> a[i] != '$'
    requires forall i :: 0 <= i < |b| ==> b[i] != '$'
    ensures forall i :: 0 <= i < |a + b| ==> (a + b)[i] != '$'
  {
  }

  /** The prompt for a user: `SystemPrompt.Replace("$$endUserId$$", userId)`.
      The prompt never mentions the placeholder, so it is the same for every
      user. */
  function UserPrompt(user: string): (r: string)
    ensures r == GraphPrompt
    ensures !IsNullOrWhiteSpace(Some(r))
  {
    GraphPromptHasNoDollar();
    NoDollarNoOccurrence(GraphPrompt, EndUserIdPlaceholder);
    ReplaceAllNoMatch(GraphPrompt, EndUserIdPlaceholder, user);
    var r := ReplaceAll(GraphPrompt, EndUserIdPlaceholder, user);
    assert !IsWhiteSpace(r[0]);
    r
  }

  /** `SetupTools`: for a request with a user, adds the graph prompt, puts
      "graph_query" and then "graph_mutate" in front of the tools unless a
      tool named "graph_query" is already there (creating the list if it is
      null), and makes the model call some tool. */
  function SetupTools(o: Option<ChatOptions>): (r: Option<ChatOptions>)
    ensures o.None? ==> r.None?
    ensures o.Some? && !HasEndUser(o.value) ==> r == o
    ensures o.Some? && HasEndUser(o.value) ==>
      && r.Some?
      && SystemPrompts(r.value).Some? && GraphPrompt in SystemPrompts(r.value).value
      && EndUserId(r.value) == EndUserId(o.value)
      && r.value.toolMode == Some(RequireAny)
      && r.value.conversationId == o.value.conversationId
      && HasTool(r.value.tools, QueryToolName)
      && (HasTool(o.value.tools, QueryToolName) ==> r.value.tools == o.value.tools)
      && (!HasTool(o.value.tools, QueryToolName) ==>
            r.value.tools == Some([Tool(QueryToolName), Tool(MutateToolName)] + o.value.tools.GetOr([])))
  {
    if o.None? || !HasEndUser(o.value) then o
    else
      var prompted := AddSystemPrompt(o.value, Some(UserPrompt(EndUserId(o.value).value)));
      assert EndUserId(prompted) == EndUserId(o.value);
      var tools := prompted.tools.GetOr([]);
      var tools' := if HasTool(Some(tools), QueryToolName) then tools
                    else [Tool(QueryToolName), Tool(MutateToolName)] + tools;
      assert tools'[0].name == QueryToolName || HasTool(Some(tools), QueryToolName);
      Some(prompted.(tools := Some(tools'), toolMode := Some(RequireAny)))
  }

  /** Setting up the tools of a request twice is the same as once: the second
      time the query tool is found and the prompt is already in the set. */
  lemma SetupToolsIdempotent(o: Option<ChatOptions>)
    ensures SetupTools(SetupTools(o)) == SetupTools(o)
  {
    if o.Some? && HasEndUser(o.value) {
      var once := SetupTools(o).value;
      var prompted := AddSystemPrompt(o.value, Some(GraphPrompt));
      AddSystemPromptIdempotent(o.value, Some(GraphPrompt));
      assert once == prompted.(tools := once.tools, toolMode := Some(RequireAny));
      assert AddSystemPrompt(once, Some(GraphPrompt)) == once;
    }
  }

  datatype ScriptError = MissingPartitionKey

  /** The script actually sent: a script that does not mention the
      placeholder in any letter case is rejected; otherwise every exact
      (case-sensitive) occurrence is replaced by the user id captured from the
      request, which removes it when the user id is null. */
  function PrepareScript(script: string, user: Option<string>): (r: Result<string, ScriptError>)
    ensures r.Err? <==> !ContainsIgnoreCase(script, PartitionKeyPlaceholder)
    ensures r.Ok? && !Contains(script, PartitionKeyPlaceholder) ==> r.value == script
    ensures r.Ok? && IndexOf(script, PartitionKeyPlaceholder).Some? ==>
      var k := IndexOf(script, PartitionKeyPlaceholder).value;
      var id := user.GetOr("");
      r.value == script[..k] + id
        + ReplaceAll(script[k + |PartitionKeyPlaceholder|..], PartitionKeyPlaceholder, id)
  {
    if !ContainsIgnoreCase(script, PartitionKeyPlaceholder) then Err(MissingPartitionKey)
    else
      var id := user.GetOr("");
      ReplaceAtFirstPlaceholder(script, id);
      ReplaceAllNoMatch(script, PartitionKeyPlaceholder, id);
      Ok(ReplaceAll(script, PartitionKeyPlaceholder, id))
  }

  lemma ReplaceAtFirstPlaceholder(script: string, id: string)
    ensures IndexOf(script, PartitionKeyPlaceholder).Some? ==>
      var k := IndexOf(script, PartitionKeyPlaceholder).value;
      ReplaceAll(script, PartitionKeyPlaceholder, id) == script[..k] + id
        + ReplaceAll(script[k + |PartitionKeyPlaceholder|..], PartitionKeyPlaceholder, id)
  {
    if IndexOf(script, PartitionKeyPlaceholder).Some? {
      ReplaceAllAtFirst(script, PartitionKeyPlaceholder, id, IndexOf(script, PartitionKeyPlaceholder).value);
    }
  }

  /** The exact occurrence of the placeholder is always accepted. */
  lemma ExactPlaceholderAccepted(script: string, user: Option<string>)
    requires Contains(script, PartitionKeyPlaceholder)
    ensures PrepareScript(script, user).Ok?
  {
    var k := IndexOf(script, PartitionKeyPlaceholder).value;
    var u := Upper(script);
    assert u[k..k + |PartitionKeyPlaceholder|] == Upper(PartitionKeyPlaceholder);
    assert OccursAt(u, Upper(PartitionKeyPlaceholder), k);
  }

  /** The check ignores letter case but the substitution does not: a script
      spelling the placeholder "$$PartitionKey$$" is accepted and sent
      unchanged, so it reaches the database without the user's partition
      key. */
  lemma MiscasedPlaceholderSentVerbatim(user: Option<string>)
    ensures PrepareScript("$$PartitionKey$$", user) == Ok("$$PartitionKey$$")
  {
    var s := "$$PartitionKey$$";
    var p := PartitionKeyPlaceholder;
    assert Upper(s) == Upper(p);
    assert Upper(s)[..|Upper(p)|] == Upper(p);
    assert IndexOf(Upper(s), Upper(p)) == Some(0);
    assert s[..|p|] != p by { assert s[2] != p[2]; }
    assert |s[1..]| < |p|;
    assert IndexOf(s, p).None?;
    ReplaceAllNoMatch(s, p, user.GetOr(""));
  }

  /** The codes a `WebSocketException` carries. */
  datatype WebSocketError =
    | Success | InvalidMessageType | Faulted | NativeError | NotAWebSocket
    | UnsupportedVersion | UnsupportedProtocol | HeaderError
    | ConnectionClosedPrematurely | InvalidState

  datatype ResponseStatus = TooManyRequests | OtherStatus

  /** Why an attempt failed. */
  datatype Failure =
    | WebSocketFailure(code: WebSocketError, innerIsTimeout: bool)
    | ResponseFailure(status: ResponseStatus)
    | TimeoutFailure
    | OtherFailure

  /** `IsTransientWebSocketError`. */
  predicate IsTransientWebSocketError(code: WebSocketError, innerIsTimeout: bool) {
    code == ConnectionClosedPrematurely || code == Faulted || innerIsTimeout
  }

  /** The failures the retry policy handles: transient web-socket errors,
      throttling responses and timeouts. */
  predicate Handled(f: Failure) {
    match f
    case WebSocketFailure(code, innerIsTimeout) => IsTransientWebSocketError(code, innerIsTimeout)
    case ResponseFailure(status) => status == TooManyRequests
    case TimeoutFailure => true
    case OtherFailure => false
  }

  const RetryCount := 3

  function Pow2(n: nat): (r: nat)
    ensures r >= 1
  {
    if n == 0 then 1 else 2 * Pow2(n - 1)
  }

  /** The wait before retry number `attempt` (from 1), in milliseconds. */
  function Backoff(attempt: nat): (r: nat)
    requires attempt >= 1
  {
    500 * Pow2(attempt - 1)
  }

  function Sum(s: seq<nat>): nat {
    if |s| == 0 then 0 else Sum(s[..|s| - 1]) + s[|s| - 1]
  }

  /** One more back-off keeps the total at 500 ms times one less than a
      power of two. */
  lemma SumStep(waits: seq<nat>, w: nat)
    requires Sum(waits) == 500 * (Pow2(|waits|) - 1)
    requires w == Backoff(|waits| + 1)
    ensures Sum(waits + [w]) == 500 * (Pow2(|waits| + 1) - 1)
  {
    assert (waits + [w])[..|waits|] == waits;
    var n := Pow2(|waits|);
    assert Pow2(|waits| + 1) == 2 * n;
    assert Sum(waits + [w]) == 500 * (n - 1) + 500 * n;
  }

  /** The attempts that failed with a handled error, one more. */
  lemma FailedStep<R>(script: string, server: (nat, string) -> Result<R, Failure>, n: nat)
    requires forall i :: 0 <= i < n ==> server(i, script).Err? && Handled(server(i, script).error)
    requires server(n, script).Err? && Handled(server(n, script).error)
    ensures forall i :: 0 <= i < n + 1 ==> server(i, script).Err? && Handled(server(i, script).error)
  {
  }

  /** The retry policy around one script: the script is attempted, and a
      handled failure is retried after a back-off, at most `RetryCount` times.
      Returns the final outcome and the waits made, in order. */
  method ExecuteWithRetry<R>(script: string, server: (nat, string) -> Result<R, Failure>)
    returns (r: Result<R, Failure>, waits: seq<nat>)
    ensures |waits| <= RetryCount
    ensures forall i :: 0 <= i < |waits| ==> waits[i] == Backoff(i + 1)
    ensures Sum(waits) == 500 * (Pow2(|waits|) - 1)
    ensures r == server(|waits|, script)
    ensures forall i :: 0 <= i < |waits| ==> server(i, script).Err? && Handled(server(i, script).error)
    ensures r.Err? && Handled(r.error) ==> |waits| == RetryCount
  {
    waits := [];
    r := server(0, script);
    while r.Err? && Handled(r.error) && |waits| < RetryCount
      invariant |waits| <= RetryCount
      invariant forall i :: 0 <= i < |waits| ==> waits[i] == Backoff(i + 1)
      invariant Sum(waits) == 500 * (Pow2(|waits|) - 1)
      invariant r == server(|waits|, script)
      invariant forall i :: 0 <= i < |waits| ==> server(i, script).Err? && Handled(server(i, script).error)
      decreases RetryCount - |waits|
    {
      var w := Backoff(|waits| + 1);
      SumStep(waits, w);
      FailedStep(script, server, |waits|);
      assert forall i :: 0 <= i < |waits| ==> (waits + [w])[i] == waits[i];
      waits := waits + [w];
      r := server(|waits|, script);
    }
  }

  datatype QueryError = Rejected(reason: ScriptError) | Failed(failure: Failure)

  /** `ExecuteQuery`, behind both tools: a script without the placeholder is
      rejected before anything is sent; otherwise the prepared script goes
      through the retry policy and a failure that remains is rethrown. */
  method ExecuteQuery<R>(script: string, user: Option<string>, server: (nat, string) -> Result<R, Failure>)
    returns (r: Result<R, QueryError>, waits: seq<nat>)
    ensures !ContainsIgnoreCase(script, PartitionKeyPlaceholder) ==> r == Err(Rejected(MissingPartitionKey)) && waits == []
    ensures ContainsIgnoreCase(script, PartitionKeyPlaceholder) ==>
      var sent := PrepareScript(script, user).value;
      && |waits| <= RetryCount
      && (forall i :: 0 <= i < |waits| ==> waits[i] == Backoff(i + 1))
      && (forall i :: 0 <= i < |waits| ==> server(i, sent).Err? && Handled(server(i, sent).error))
      && (server(|waits|, sent).Ok? ==> r == Ok(server(|waits|, sent).value))
      && (server(|waits|, sent).Err? ==> r == Err(Failed(server(|waits|, sent).error)))
      && (r.Err? && Handled(r.error.failure) ==> |waits| == RetryCount)
  {
    match PrepareScript(script, user)
    case Err(e) =>
      r, waits := Err(Rejected(e)), [];
    case Ok(sent) =>
      var outcome;
      outcome, waits := ExecuteWithRetry(sent, server);
      match outcome
      case Ok(v) => r := Ok(v);
      case Err(f) => r := Err(Failed(f));
  }
}
