/** System prompts attached to a request: `AddSystemPrompt` collects them in a
    `HashSet<string>` kept under the "SystemPrompts" key of the options, and the
    `UseSystemPrompt` pipeline stage turns each one into a system message in
    front of the conversation unless the conversation already has it. */
module SystemPromptExtensions {
  import opened Wrappers
  import opened Seqs
  import opened Text
  import opened Chat

  const SystemPromptsKey := "SystemPrompts"

  /** The `SystemPrompts` getter: null when the key is missing or its value is
      not a `HashSet<string>`. */
  function SystemPrompts(o: ChatOptions): (r: Option<seq<string>>)
    ensures r.Some? <==> SystemPromptsKey in o.props && o.props[SystemPromptsKey].StringSet?
    ensures r.Some? ==> o.props[SystemPromptsKey] == StringSet(r.value)
  {
    if SystemPromptsKey in o.props && o.props[SystemPromptsKey].StringSet?
    then Some(o.props[SystemPromptsKey].items)
    else None
  }

  /** `AddSystemPrompt`: a null, empty or blank prompt is ignored; otherwise the
      set is created if the getter yields null and the prompt is added to it
      (a set: adding a present prompt changes nothing). */
  function AddSystemPrompt(o: ChatOptions, prompt: Option<string>): (r: ChatOptions)
    ensures IsNullOrWhiteSpace(prompt) ==> r == o
    ensures !IsNullOrWhiteSpace(prompt) ==> SystemPrompts(r).Some?
    ensures !IsNullOrWhiteSpace(prompt) ==> forall x ::
      x in SystemPrompts(r).value <==> x == prompt.value || (SystemPrompts(o).Some? && x in SystemPrompts(o).value)
    ensures SystemPrompts(o).Some? && Distinct(SystemPrompts(o).value) ==> Distinct(SystemPrompts(r).value)
    ensures forall k :: k in o.props && k != SystemPromptsKey ==> k in r.props && r.props[k] == o.props[k]
    ensures forall k :: k in r.props && k != SystemPromptsKey ==> k in o.props
    ensures r.tools == o.tools && r.toolMode == o.toolMode && r.conversationId == o.conversationId
  {
    if IsNullOrWhiteSpace(prompt) then o
    else
      var current := SystemPrompts(o).GetOr([]);
      var updated := if prompt.value in current then current else current + [prompt.value];
      o.(props := o.props[SystemPromptsKey := StringSet(updated)])
  }

  /** Adding the same prompt twice equals adding it once. */
  lemma AddSystemPromptIdempotent(o: ChatOptions, prompt: Option<string>)
    ensures AddSystemPrompt(AddSystemPrompt(o, prompt), prompt) == AddSystemPrompt(o, prompt)
  {
    if !IsNullOrWhiteSpace(prompt) {
      var once := AddSystemPrompt(o, prompt);
      assert prompt.value in SystemPrompts(once).value;
      assert once.props[SystemPromptsKey := StringSet(SystemPrompts(once).value)] == once.props;
    }
  }

  /** The texts of the system messages of a conversation. */
  function SystemTexts(msgs: seq<Msg>): set<string>
    decreases |msgs|
  {
    if |msgs| == 0 then {}
    else (if msgs[0].role == System then {msgs[0].text} else {}) + SystemTexts(msgs[1..])
  }

  /** The conversation holds a system message whose text is `text`. */
  predicate HasSystemMessage(msgs: seq<Msg>, text: string) {
    text in SystemTexts(msgs)
  }

  lemma {:induction false} SystemTextsAppend(a: seq<Msg>, b: seq<Msg>)
    ensures SystemTexts(a + b) == SystemTexts(a) + SystemTexts(b)
    decreases |a|
  {
    if |a| == 0 {
      assert a + b == b;
    } else {
      assert (a + b)[0] == a[0];
      assert (a + b)[1..] == a[1..] + b;
      SystemTextsAppend(a[1..], b);
    }
  }

  /** `HasSystemMessage` is the message-by-message search
      `messages.Any(m => m.Role == ChatRole.System && m.Text == text)`. */
  lemma {:induction false} SystemTextsAt(msgs: seq<Msg>, text: string)
    ensures HasSystemMessage(msgs, text) <==>
      exists i :: 0 <= i < |msgs| && msgs[i].role == System && msgs[i].text == text
    decreases |msgs|
  {
    if |msgs| > 0 {
      var tail := msgs[1..];
      SystemTextsAt(tail, text);
      if exists i :: 0 <= i < |tail| && tail[i].role == System && tail[i].text == text {
        var i :| 0 <= i < |tail| && tail[i].role == System && tail[i].text == text;
        assert msgs[i + 1] == tail[i];
      }
      if exists i :: 0 <= i < |msgs| && msgs[i].role == System && msgs[i].text == text {
        var i :| 0 <= i < |msgs| && msgs[i].role == System && msgs[i].text == text;
        if i > 0 {
          assert tail[i - 1] == msgs[i];
        }
      }
    }
  }

  /** One step of the loop of `UseSystemPrompt`: the system message put in
      front for `p`, unless the conversation already has one with exactly
      that text. */
  function Head(msgs: seq<Msg>, p: string): (h: seq<Msg>)
    ensures |h| <= 1
  {
    if HasSystemMessage(msgs, p) then [] else [Msg(System, p)]
  }

  /** What the loop puts in front of the messages: the prompts are visited in
      enumeration order, and each one that is missing is put in front of the
      conversation as it stands at that point. */
  function Added(msgs: seq<Msg>, prompts: seq<string>): (a: seq<Msg>)
    ensures |a| <= |prompts|
    decreases |prompts|
  {
    if |prompts| == 0 then []
    else
      var h := Head(msgs, prompts[0]);
      Added(h + msgs, prompts[1..]) + h
  }

  /** Everything the loop puts in front is a system message for a prompt the
      conversation lacked, none twice, and afterwards every prompt is
      present. */
  lemma {:induction false} AddedFacts(msgs: seq<Msg>, prompts: seq<string>)
    ensures forall m :: m in Added(msgs, prompts) ==>
      m.role == System && m.text in prompts && !HasSystemMessage(msgs, m.text)
    ensures Distinct(Added(msgs, prompts))
    ensures forall p :: p in prompts ==> HasSystemMessage(Added(msgs, prompts) + msgs, p)
    decreases |prompts|
  {
    if |prompts| > 0 {
      var p := prompts[0];
      var h := Head(msgs, p);
      var next := h + msgs;
      var rest := Added(next, prompts[1..]);
      assert Added(msgs, prompts) == rest + h;
      AddedFacts(next, prompts[1..]);
      SystemTextsAppend(h, msgs);
      assert HasSystemMessage(next, p) by {
        if h != [] {
          assert h == [Msg(System, p)];
          assert h[1..] == [];
          assert SystemTexts(h) == {p};
        }
      }
      forall m | m in rest + h
        ensures m.role == System && m.text in prompts && !HasSystemMessage(msgs, m.text)
      {
        if m in rest {
          assert m.text in prompts[1..];
        } else {
          assert m == Msg(System, p);
        }
      }
      forall x | x in rest ensures x !in h {
        assert x.text != p;
      }
      DistinctAppend(rest, h);
      assert rest + h + msgs == rest + next;
      SystemTextsAppend(rest, next);
      forall q | q in prompts ensures HasSystemMessage(rest + h + msgs, q) {
        if q != p {
          assert q in prompts[1..];
        }
      }
    }
  }

  /** When every prompt is already there the loop adds nothing. */
  lemma {:induction false} AddedNothing(msgs: seq<Msg>, prompts: seq<string>)
    requires forall p :: p in prompts ==> HasSystemMessage(msgs, p)
    ensures Added(msgs, prompts) == []
    decreases |prompts|
  {
    if |prompts| > 0 {
      assert prompts[0] in prompts;
      assert Head(msgs, prompts[0]) == [];
      assert [] + msgs == msgs;
      forall p | p in prompts[1..] ensures HasSystemMessage(msgs, p) {
        assert p in prompts;
      }
      AddedNothing(msgs, prompts[1..]);
    }
  }

  /** The `UseSystemPrompt` pipeline stage: without prompts the messages pass
      through unchanged; otherwise each missing prompt is prepended as a system
      message and the original messages remain as a suffix. The options reach
      the inner client unchanged. */
  function UseSystemPrompt(messages: seq<Msg>, o: Option<ChatOptions>): (r: seq<Msg>)
    ensures (o.None? || SystemPrompts(o.value).None? || |SystemPrompts(o.value).value| == 0) ==> r == messages
    ensures |r| >= |messages| && r[|r| - |messages|..] == messages
    ensures o.Some? && SystemPrompts(o.value).Some? ==>
      forall p :: p in SystemPrompts(o.value).value ==> HasSystemMessage(r, p)
    ensures forall m :: m in r[..|r| - |messages|] ==>
      m.role == System && !HasSystemMessage(messages, m.text)
      && o.Some? && SystemPrompts(o.value).Some? && m.text in SystemPrompts(o.value).value
    ensures Distinct(r[..|r| - |messages|])
  {
    if o.Some? && SystemPrompts(o.value).Some? && |SystemPrompts(o.value).value| > 0
    then
      var prompts := SystemPrompts(o.value).value;
      var a := Added(messages, prompts);
      AddedFacts(messages, prompts);
      assert (a + messages)[..|a|] == a;
      assert (a + messages)[|a|..] == messages;
      a + messages
    else
      assert messages[..0] == [];
      messages
  }

  /** Running the stage on its own output adds nothing more. */
  lemma UseSystemPromptIdempotent(messages: seq<Msg>, o: Option<ChatOptions>)
    ensures UseSystemPrompt(UseSystemPrompt(messages, o), o) == UseSystemPrompt(messages, o)
  {
    var once := UseSystemPrompt(messages, o);
    if o.Some? && SystemPrompts(o.value).Some? && |SystemPrompts(o.value).value| > 0 {
      AddedNothing(once, SystemPrompts(o.value).value);
      assert [] + once == once;
    }
  }
}
