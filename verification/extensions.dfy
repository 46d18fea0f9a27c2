/** Small helpers: turning a string into a chat message, the `SystemPrompt`
    extension property on `ChatOptions`, and `AddRange` on a list. */
module Extensions {
  import opened Wrappers
  import opened Chat

  const SystemPromptKey := "SystemPrompt"

  /** `prompt.AsChat(role)`: a message carrying the text, by default from the
      user. */
  function AsChat(prompt: string, role: Option<Role>): (m: Msg)
    ensures m.text == prompt
    ensures role.None? ==> m.role == User
    ensures role.Some? ==> m.role == role.value
  {
    Msg(role.GetOr(User), prompt)
  }

  /** Null when the key is missing or holds anything but a string. */
  function SystemPrompt(o: ChatOptions): (r: Option<string>)
    ensures r.Some? <==> SystemPromptKey in o.props && o.props[SystemPromptKey].Str?
    ensures r.Some? ==> o.props[SystemPromptKey] == Str(r.value)
  {
    StringProperty(o, SystemPromptKey)
  }

  /** Writes only the "SystemPrompt" entry; reading it back gives the value set. */
  function SetSystemPrompt(o: ChatOptions, v: Option<string>): (r: ChatOptions)
    ensures SystemPrompt(r) == v
    ensures forall k :: k in o.props && k != SystemPromptKey ==> k in r.props && r.props[k] == o.props[k]
    ensures forall k :: k in r.props && k != SystemPromptKey ==> k in o.props
    ensures r.tools == o.tools && r.toolMode == o.toolMode && r.conversationId == o.conversationId
  {
    SetStringProperty(o, SystemPromptKey, v)
  }

  datatype ArgumentError = ArgumentNull

  /** `list.AddRange(items)`: a null `items` throws before the list is touched;
      otherwise each item is added at the end, in order. */
  method AddRange<T>(list: seq<T>, items: Option<seq<T>>) returns (r: Result<seq<T>, ArgumentError>)
    ensures items.None? ==> r == Err(ArgumentNull)
    ensures items.Some? ==> r.Ok?
    ensures items.Some? ==> |r.value| == |list| + |items.value|
    ensures items.Some? ==> r.value[..|list|] == list
    ensures items.Some? ==> forall i :: 0 <= i < |items.value| ==> r.value[|list| + i] == items.value[i]
  {
    if items.None? {
      return Err(ArgumentNull);
    }
    var xs := items.value;
    var acc := list;
    var i := 0;
    while i < |xs|
      invariant 0 <= i <= |xs|
      invariant acc == list + xs[..i]
    {
      acc := acc + [xs[i]];
      i := i + 1;
      assert xs[..i] == xs[..i - 1] + [xs[i - 1]];
    }
    assert xs[..i] == xs;
    return Ok(acc);
  }
}
