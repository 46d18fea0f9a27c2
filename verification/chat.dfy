/** The chat abstractions the core passes around: messages, tools, and the
    per-request `ChatOptions` with its `AdditionalProperties` dictionary
    (a null dictionary is the same as an empty one). */
module Chat {
  import opened Wrappers

  datatype Role = System | User | Assistant | ToolRole

  /** A chat message: its role and its text content. */
  datatype Msg = Msg(role: Role, text: string)

  /** The kinds of object stored in `AdditionalProperties` that the accessors
      tell apart: a string, a null, a `HashSet<string>` (kept in enumeration
      order), or any other object. */
  datatype Value = Str(s: string) | Null | StringSet(items: seq<string>) | OtherObject

  /** A tool offered to the model, identified by its name. */
  datatype Tool = Tool(name: string)

  datatype ToolMode = Auto | NoTools | RequireAny

  datatype ChatOptions = ChatOptions(
    props: map<string, Value>,
    tools: Option<seq<Tool>>,
    toolMode: Option<ToolMode>,
    conversationId: Option<string>)

  /** `new ChatOptions()`. */
  const NewOptions := ChatOptions(map[], None, None, None)

  /** The string-typed property accessor pattern:
      `TryGetValue(key, out var value) ? value as string : null`. */
  function StringProperty(o: ChatOptions, key: string): (r: Option<string>)
    ensures r.Some? <==> key in o.props && o.props[key].Str?
    ensures r.Some? ==> o.props[key] == Str(r.value)
  {
    if key in o.props && o.props[key].Str? then Some(o.props[key].s) else None
  }

  /** The matching setter: `AdditionalProperties[key] = value` (a null value
      is stored as null). */
  function SetStringProperty(o: ChatOptions, key: string, v: Option<string>): (r: ChatOptions)
    ensures StringProperty(r, key) == v
    ensures r.props.Keys == o.props.Keys + {key}
    ensures forall k :: k in o.props && k != key ==> r.props[k] == o.props[k]
    ensures r.tools == o.tools && r.toolMode == o.toolMode && r.conversationId == o.conversationId
  {
    o.(props := o.props[key := if v.Some? then Str(v.value) else Null])
  }

  /** Whether some tool in the (possibly null) list has the given name. */
  predicate HasTool(tools: Option<seq<Tool>>, name: string) {
    tools.Some? && exists i :: 0 <= i < |tools.value| && tools.value[i].name == name
  }
}
