/** The `EndUserId` extension property on `ChatOptions`: the identity of the
    user a request is made for, kept under the key "EndUserId". */
module ChatExtensions {
  import opened Wrappers
  import opened Chat

  const EndUserIdKey := "EndUserId"

  /** Null when the key is missing or holds anything but a string. */
  function EndUserId(o: ChatOptions): (r: Option<string>)
    ensures r.Some? <==> EndUserIdKey in o.props && o.props[EndUserIdKey].Str?
    ensures r.Some? ==> o.props[EndUserIdKey] == Str(r.value)
  {
    StringProperty(o, EndUserIdKey)
  }

  /** Writes only the "EndUserId" entry; reading it back gives the value set. */
  function SetEndUserId(o: ChatOptions, v: Option<string>): (r: ChatOptions)
    ensures EndUserId(r) == v
    ensures forall k :: k in o.props && k != EndUserIdKey ==> k in r.props && r.props[k] == o.props[k]
    ensures forall k :: k in r.props && k != EndUserIdKey ==> k in o.props
    ensures r.tools == o.tools && r.toolMode == o.toolMode && r.conversationId == o.conversationId
  {
    SetStringProperty(o, EndUserIdKey, v)
  }

  /** The request names a user: `options?.EndUserId is { Length: > 0 }`. */
  predicate HasEndUser(o: ChatOptions) {
    EndUserId(o).Some? && |EndUserId(o).value| > 0
  }

  /** Setting the user twice keeps only the second value. */
  lemma SetEndUserIdTwice(o: ChatOptions, a: Option<string>, b: Option<string>)
    ensures SetEndUserId(SetEndUserId(o, a), b) == SetEndUserId(o, b)
  {
  }
}
