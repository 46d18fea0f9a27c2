/** `ConversationChatClient`: a chat client stage that keeps every
    conversation's history in a document store keyed by conversation id,
    sends the model the whole history rather than only the new messages,
    tags the response with the conversation id and saves the extended
    history. Topic tools, which file conversations under topics in a table,
    are present in the code but switched off by a constant.

    The model, the fresh id (`Ulid.NewUlid()`), the `Sanitize` function of
    the table library and `ToChatResponse` are parameters. */
module ConversationStorage {
  import opened Wrappers
  import opened Seqs
  import opened Text
  import opened Chat
  import opened SystemPromptExtensions

  /** `useConversationTopics`, which nothing ever sets. */
  const UseConversationTopics := false

  /** The opening line of the topic instructions (the rest is not modelled). */
  const TopicsPrompt := "# Conversation Storage"

  const ReadHistoryTool := "conversation_read_history"

  /** The topic tools, in registration order. */
  const TopicTools: seq<Tool> := [
    Tool(ReadHistoryTool), Tool("conversation_add_topics"),
    Tool("conversation_read_topic"), Tool("conversation_find_by_topics")]

  /** The document store: the messages of each conversation by id. */
  type History = map<string, seq<Msg>>

  /** The message that opens a conversation created by a non-streaming call. */
  function IdMessage(id: string): (m: Msg)
    ensures m.role == System
  {
    Msg(System, "Conversation ID is " + id)
  }

  /** What the model answers: the conversation and the options it is sent. */
  type Model = (seq<Msg>, Option<ChatOptions>) -> seq<Msg>

  /** A response: its messages and the conversation id it is tagged with. */
  datatype Response = Response(messages: seq<Msg>, conversationId: Option<string>)

  /** The topic-prompt step at the start of each call: with topics enabled,
      the options are created if null and the topic prompt is added. */
  function AddTopicsPrompt(o: Option<ChatOptions>, useTopics: bool): (r: Option<ChatOptions>)
    ensures !useTopics ==> r == o
    ensures useTopics ==> r.Some? && SystemPrompts(r.value).Some? && TopicsPrompt in SystemPrompts(r.value).value
    ensures useTopics ==> r.value.conversationId == (if o.Some? then o.value.conversationId else None)
  {
    if !useTopics then o
    else
      assert TopicsPrompt[0] == '#';
      Some(AddSystemPrompt(o.GetOr(NewOptions), Some(TopicsPrompt)))
  }

  /** `SetupTools`: with topics disabled the options are passed on as they
      are; otherwise they are created if null and the four topic tools are
      appended unless "conversation_read_history" is already there. */
  function SetupTools(o: Option<ChatOptions>, useTopics: bool): (r: Option<ChatOptions>)
    ensures !useTopics ==> r == o
    ensures useTopics ==> r.Some? && HasTool(r.value.tools, ReadHistoryTool)
    ensures useTopics && o.Some? && HasTool(o.value.tools, ReadHistoryTool) ==> r == o
    ensures useTopics && !(o.Some? && HasTool(o.value.tools, ReadHistoryTool)) ==>
      r.value.tools == Some(o.GetOr(NewOptions).tools.GetOr([]) + TopicTools)
    ensures r.Some? && o.Some? ==> r.value.props == o.value.props && r.value.conversationId == o.value.conversationId
  {
    if !useTopics then o
    else
      var opts := o.GetOr(NewOptions);
      var tools := opts.tools.GetOr([]);
      if HasTool(Some(tools), ReadHistoryTool) then Some(opts.(tools := Some(tools)))
      else
        assert (tools + TopicTools)[|tools|].name == ReadHistoryTool;
        Some(opts.(tools := Some(tools + TopicTools)))
  }

  /** As the code stands, topics are off: no prompt is added and the options
      reach the model as they are. */
  lemma TopicsDisabled(o: Option<ChatOptions>)
    ensures AddTopicsPrompt(o, UseConversationTopics) == o
    ensures SetupTools(o, UseConversationTopics) == o
  {
  }

  /** The conversation a call works on: its id, the options passed on, and
      its messages. A request without a conversation id gets `freshId`,
      stored in the (created if null) options; a known id continues its
      stored history; an unknown id starts afresh. A conversation started by
      a non-streaming call opens with the id message. */
  function Open(history: History, messages: seq<Msg>, o: Option<ChatOptions>, freshId: string, streaming: bool)
    : (r: (string, Option<ChatOptions>, seq<Msg>))
  {
    var opening := if streaming then [] else [IdMessage(freshId)];
    if o.None? || o.value.conversationId.None? then
      (freshId, Some(o.GetOr(NewOptions).(conversationId := Some(freshId))), opening + messages)
    else
      var id := o.value.conversationId.value;
      if id in history then (id, o, history[id] + messages)
      else (id, o, (if streaming then [] else [IdMessage(id)]) + messages)
  }

  /** `GetResponseAsync`: the model gets the whole conversation, its
      response is appended to it and saved under the conversation id, and
      the response is tagged with that id. */
  function GetResponse(history: History, messages: seq<Msg>, o: Option<ChatOptions>, freshId: string, model: Model)
    : (r: (History, Response))
    ensures o.None? || o.value.conversationId.None? ==>
      var sent := [IdMessage(freshId)] + messages;
      var opts := Some(o.GetOr(NewOptions).(conversationId := Some(freshId)));
      && r.1 == Response(model(sent, opts), Some(freshId))
      && r.0 == history[freshId := sent + model(sent, opts)]
    ensures o.Some? && o.value.conversationId.Some? && o.value.conversationId.value in history ==>
      var id := o.value.conversationId.value;
      var sent := history[id] + messages;
      && r.1 == Response(model(sent, o), Some(id))
      && r.0 == history[id := sent + model(sent, o)]
    ensures o.Some? && o.value.conversationId.Some? && o.value.conversationId.value !in history ==>
      var id := o.value.conversationId.value;
      var sent := [IdMessage(id)] + messages;
      && r.1 == Response(model(sent, o), Some(id))
      && r.0 == history[id := sent + model(sent, o)]
  {
    var o' := AddTopicsPrompt(o, UseConversationTopics);
    var (id, opts, conversation) := Open(history, messages, o', freshId, false);
    var answer := model(conversation, SetupTools(opts, UseConversationTopics));
    (history[id := conversation + answer], Response(answer, Some(id)))
  }

  /** The id a call ends up with. */
  function ConversationOf(o: Option<ChatOptions>, freshId: string): string {
    if o.None? || o.value.conversationId.None? then freshId else o.value.conversationId.value
  }

  /** A call only writes its own conversation, and a known conversation's
      stored history only grows: the old history is a prefix of the new one,
      followed by the new messages and the answer. */
  lemma GetResponseExtendsHistory(history: History, messages: seq<Msg>, o: Option<ChatOptions>, freshId: string, model: Model)
    ensures var r := GetResponse(history, messages, o, freshId, model);
      var id := ConversationOf(o, freshId);
      && r.0.Keys == history.Keys + {id}
      && (forall c :: c in history && c != id ==> r.0[c] == history[c])
      && r.1.conversationId == Some(id)
      && r.0[id][|r.0[id]| - |r.1.messages|..] == r.1.messages
      && (o.Some? && o.value.conversationId.Some? && id in history ==>
            && r.0[id][..|history[id]|] == history[id]
            && r.0[id][|history[id]|..|history[id]| + |messages|] == messages)
  {
    var r := GetResponse(history, messages, o, freshId, model);
    var id := ConversationOf(o, freshId);
    if id in history && o.Some? && o.value.conversationId.Some? {
      var sent := history[id] + messages;
      assert r.0[id] == history[id] + messages + r.1.messages;
    }
  }

  /** A conversation continued with the id of the previous response: the
      model sees everything so far (the id message, the first messages, the
      first answer) followed by the new messages. */
  lemma FollowUpSeesWholeConversation(history: History, first: seq<Msg>, second: seq<Msg>,
                                      freshId: string, laterId: string, model: Model)
    ensures var (h1, r1) := GetResponse(history, first, None, freshId, model);
      var follow := Some(NewOptions.(conversationId := r1.conversationId));
      var (h2, r2) := GetResponse(h1, second, follow, laterId, model);
      && r2.conversationId == Some(freshId)
      && r2.messages == model([IdMessage(freshId)] + first + r1.messages + second, follow)
      && h2[freshId] == [IdMessage(freshId)] + first + r1.messages + second + r2.messages
  {
  }

  /** A streamed update: a piece of a message, possibly tagged with its
      conversation. */
  datatype Update = Update(role: Role, text: string, conversationId: Option<string>)

  /** What the streaming model yields for a conversation and options. */
  type StreamingModel = (seq<Msg>, Option<ChatOptions>) -> seq<Update>

  function Tag(updates: seq<Update>, id: string): (r: seq<Update>)
    ensures |r| == |updates|
    ensures forall i :: 0 <= i < |r| ==> r[i] == updates[i].(conversationId := Some(id))
  {
    seq(|updates|, i requires 0 <= i < |updates| => updates[i].(conversationId := Some(id)))
  }

  /** `GetStreamingResponseAsync`: like `GetResponse`, except that a new
      conversation does not open with the id message; every update is tagged
      with the conversation id as it is passed on, and once the stream ends
      the updates, merged into messages by `merge`, are appended and saved.
      Returns the history and the updates passed on. */
  function GetStreamingResponse(history: History, messages: seq<Msg>, o: Option<ChatOptions>, freshId: string,
                                model: StreamingModel, merge: seq<Update> -> seq<Msg>)
    : (r: (History, seq<Update>))
    ensures var id := ConversationOf(o, freshId);
      var opts := if o.None? || o.value.conversationId.None?
                  then Some(o.GetOr(NewOptions).(conversationId := Some(freshId))) else o;
      var sent := if o.Some? && o.value.conversationId.Some? && id in history then history[id] + messages else messages;
      && |r.1| == |model(sent, opts)|
      && (forall i :: 0 <= i < |r.1| ==> r.1[i] == model(sent, opts)[i].(conversationId := Some(id)))
      && r.0 == history[id := sent + merge(r.1)]
  {
    var o' := AddTopicsPrompt(o, UseConversationTopics);
    var (id, opts, conversation) := Open(history, messages, o', freshId, true);
    assert id == ConversationOf(o, freshId);
    assert conversation == if o.Some? && o.value.conversationId.Some? && id in history then history[id] + messages else messages;
    var updates := Tag(model(conversation, SetupTools(opts, UseConversationTopics)), id);
    (history[id := conversation + merge(updates)], updates)
  }

  /** A new streamed conversation holds no system message of its own: what
      is stored starts with the caller's messages. */
  lemma StreamingStartsWithoutIdMessage(history: History, messages: seq<Msg>, freshId: string,
                                        model: StreamingModel, merge: seq<Update> -> seq<Msg>)
    ensures var r := GetStreamingResponse(history, messages, None, freshId, model, merge);
      r.0[freshId][..|messages|] == messages
  {
  }

  /** `ReadHistory`: the stored messages, or none for an unknown id. */
  function ReadHistory(history: History, id: string): (r: seq<Msg>)
    ensures id !in history ==> r == []
    ensures id in history ==> r == history[id]
  {
    if id in history then history[id] else []
  }

  /** The history read back after a call is the conversation the model saw
      followed by its answer. */
  lemma ReadHistoryAfterResponse(history: History, messages: seq<Msg>, id: string, model: Model)
    ensures var o := Some(NewOptions.(conversationId := Some(id)));
      var r := GetResponse(history, messages, o, id, model);
      var sent := (if id in history then history[id] else [IdMessage(id)]) + messages;
      ReadHistory(r.0, id) == sent + r.1.messages
  {
  }

  /** A row of the "Topics" table: partition key (the conversation id) and
      row key (a topic). */
  datatype Row = Row(partition: string, rowKey: string)

  /** How a topic is stored: upper-cased, then sanitized for use as a row
      key. */
  function TopicKey(topic: string, sanitize: string -> string): string {
    sanitize(Upper(topic))
  }

  /** `AddTopics`: a null or empty topic list writes nothing; otherwise one
      row per topic is upserted under the conversation id. */
  function AddTopics(table: set<Row>, id: string, topics: Option<seq<string>>, sanitize: string -> string)
    : (r: set<Row>)
    ensures topics.None? || |topics.value| == 0 ==> r == table
    ensures table <= r
    ensures topics.Some? ==> forall t :: t in topics.value ==> Row(id, TopicKey(t, sanitize)) in r
    ensures forall row :: row in r && row !in table ==>
      row.partition == id && topics.Some? && exists t :: t in topics.value && row.rowKey == TopicKey(t, sanitize)
  {
    if topics.None? || |topics.value| == 0 then table
    else table + set t | t in topics.value :: Row(id, TopicKey(t, sanitize))
  }

  /** `ReadTopics`: the row keys stored under the conversation. */
  function ReadTopics(table: set<Row>, id: string): (r: set<string>)
    ensures forall k :: k in r <==> Row(id, k) in table
  {
    set row | row in table && row.partition == id :: row.rowKey
  }

  /** Adding topics to one conversation leaves every other conversation's
      topics as they were, and the conversation reads back the stored keys
      of the added topics. */
  lemma AddTopicsThenRead(table: set<Row>, id: string, topics: seq<string>, sanitize: string -> string, other: string)
    requires other != id
    ensures ReadTopics(AddTopics(table, id, Some(topics), sanitize), other) == ReadTopics(table, other)
    ensures forall t :: t in topics ==> TopicKey(t, sanitize) in ReadTopics(AddTopics(table, id, Some(topics), sanitize), id)
  {
  }

  /** A row key matches the search keys when its upper-cased form contains
      one of them. */
  predicate Matches(rowKey: string, keys: seq<string>) {
    exists j :: 0 <= j < |keys| && Contains(Upper(rowKey), keys[j])
  }

  /** Some row among the first `n` is under `pk` and matches. */
  predicate FoundIn(rows: seq<Row>, n: nat, keys: seq<string>, pk: string)
    requires n <= |rows|
  {
    exists i :: 0 <= i < n && rows[i].partition == pk && Matches(rows[i].rowKey, keys)
  }

  /** The search keys: each topic upper-cased and sanitized. */
  function SearchKeys(topics: seq<string>, sanitize: string -> string): (r: seq<string>)
    ensures |r| == |topics|
    ensures forall j :: 0 <= j < |r| ==> r[j] == TopicKey(topics[j], sanitize)
  {
    seq(|topics|, j requires 0 <= j < |topics| => TopicKey(topics[j], sanitize))
  }

  /** `FindConversations` over the rows of the table in enumeration order: a
      null or empty topic list finds nothing; otherwise the result holds,
      once each, the conversation of every row whose upper-cased row key
      contains some search key. */
  method FindConversations(rows: seq<Row>, topics: Option<seq<string>>, sanitize: string -> string)
    returns (r: seq<string>)
    ensures topics.None? || |topics.value| == 0 ==> r == []
    ensures Distinct(r)
    ensures topics.Some? ==> forall pk :: pk in r <==> FoundIn(rows, |rows|, SearchKeys(topics.value, sanitize), pk)
  {
    if topics.None? || |topics.value| == 0 {
      return [];
    }
    var keys := SearchKeys(topics.value, sanitize);
    r := [];
    var seen: set<string> := {};
    var i := 0;
    while i < |rows|
      invariant 0 <= i <= |rows|
      invariant Distinct(r) && seen == Elems(r)
      invariant forall pk :: pk in r <==> FoundIn(rows, i, keys, pk)
    {
      var row := rows[i];
      var upper := Upper(row.rowKey);
      var j := 0;
      while j < |keys|
        invariant 0 <= j <= |keys|
        invariant Distinct(r) && seen == Elems(r)
        invariant forall pk :: pk in r <==>
          FoundIn(rows, i, keys, pk)
          || (pk == row.partition && exists j' :: 0 <= j' < j && Contains(upper, keys[j']))
      {
        if Contains(upper, keys[j]) && row.partition !in seen {
          r := r + [row.partition];
          seen := seen + {row.partition};
        }
        j := j + 1;
      }
      forall pk ensures FoundIn(rows, i + 1, keys, pk) <==> FoundIn(rows, i, keys, pk) || (pk == row.partition && Matches(row.rowKey, keys)) {
        if FoundIn(rows, i + 1, keys, pk) {
          var k :| 0 <= k < i + 1 && rows[k].partition == pk && Matches(rows[k].rowKey, keys);
          if k < i {
            assert FoundIn(rows, i, keys, pk);
          }
        }
      }
      i := i + 1;
    }
  }

  /** A topic added to a conversation finds that conversation again when the
      stored key is unchanged by upper-casing (true of sanitized upper-case
      text). */
  lemma AddedTopicIsFound(table: set<Row>, id: string, topics: seq<string>, sanitize: string -> string,
                          rows: seq<Row>, query: seq<string>, t: string)
    requires Elems(rows) == AddTopics(table, id, Some(topics), sanitize)
    requires t in topics && t in query
    requires Upper(TopicKey(t, sanitize)) == TopicKey(t, sanitize)
    ensures FoundIn(rows, |rows|, SearchKeys(query, sanitize), id)
  {
    var key := TopicKey(t, sanitize);
    assert Row(id, key) in Elems(rows);
    var i :| 0 <= i < |rows| && rows[i] == Row(id, key);
    var keys := SearchKeys(query, sanitize);
    var j :| 0 <= j < |query| && query[j] == t;
    assert keys[j] == key;
    assert Upper(key)[..|key|] == key;
    assert Contains(Upper(rows[i].rowKey), keys[j]);
  }
}
