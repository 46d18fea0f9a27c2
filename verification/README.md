# Weaving core in Dafny

Weaving is a console chat host built from composable `IChatClient`
middleware and a set of agents. This project models its core as pure
Dafny functions over immutable data:

- **Agents.** `AgentRouter` asks a model which agent should answer and
  forwards the conversation to it. `AgentCoordinator` runs an execution plan
  whose steps depend on each other's outputs. The agent catalog is shared
  by both (module `Agents`).
- **Scheduling.** `Scheduler` keeps a registry of one-shot and recurring
  timers. A recurring timer does not wait for its running callback, and an
  exception escaping a callback ends the process. `SchedulingAgent` exposes it as two tools that ask the model for a
  response and publish the answer on the message bus.
- **Memory middleware.** The file-backed knowledge-graph tools (modules
  `Memory` and `MemoryClient`). The Gremlin-backed graph memory, with its
  partition-key check and retry policy (module `GraphMemory`). The
  conversation store, with its topic table (module `ConversationStorage`).
- **Option and message helpers.** `ChatExtensions`, `Extensions`,
  `SystemPromptExtensions` and `JsonExtensions`.

The chat model, storage, clocks and the message bus are not modelled. Each
appears as a parameter: a function from messages to a response, a map
standing for a table or file store, integer clock readings, and a sequence
of published responses. Concurrency is modelled as one sequential order of
events. Strings are `seq<char>`. A C# `null` is `Option.None`.

Shared vocabulary lives in `wrappers.dfy` (`Option`, `Result`), `seqs.dfy`
(distinctness, dedup, filter), `text.dfy` (ordinal `IndexOf`, `Replace`,
ASCII case folding, white space) and `chat.dfy` (messages, roles, tools,
options and their additional-properties bag).

## Model

| member | source | states |
|---|---|---|
| ChatExtensions.EndUserId | Weaving/ChatExtensions.cs:11 | The user id is read from the "EndUserId" property. It is present exactly when the key exists and holds a string, and then it is that string. |
| ChatExtensions.SetEndUserId | Weaving/ChatExtensions.cs:12 | Reading the id back gives the value just set. Every other property and option is unchanged. |
| ChatExtensions.SetEndUserIdTwice | Weaving/ChatExtensions.cs:11-12 | Setting the user twice is the same as setting only the second value. |
| Extensions.AsChat | Weaving/Extensions/Extensions.cs:12 | The message carries the prompt text. Its role is the given one, or User when none is given. |
| Extensions.SystemPrompt | Weaving/Extensions/Extensions.cs:19 | The "SystemPrompt" property is present exactly when the key exists and holds a string, and then it is that string. |
| Extensions.SetSystemPrompt | Weaving/Extensions/Extensions.cs:20 | Reading back gives the value set. Nothing else in the options changes. |
| Extensions.AddRange | Weaving/Extensions/Extensions.cs:26-33 | A null item list fails with an argument error. Otherwise the result is the list followed by every item in order. |
| SystemPromptExtensions.SystemPrompts | Weaving/SystemPromptExtensions.cs:23 | The prompt set is present exactly when the key exists and holds a set of strings, and then it is that set. |
| SystemPromptExtensions.AddSystemPrompt | Weaving/SystemPromptExtensions.cs:12-19 | A null or blank prompt leaves the options unchanged. Otherwise the set holds exactly the earlier prompts and this one, and it stays free of repeats. No other property or option changes. |
| SystemPromptExtensions.AddSystemPromptIdempotent | Weaving/SystemPromptExtensions.cs:12-19 | Adding the same prompt twice is the same as adding it once. |
| SystemPromptExtensions.UseSystemPrompt | Weaving/SystemPromptExtensions.cs:28-44 | Without prompts the messages pass through unchanged. Otherwise every prompt ends up present as a system message and the original messages remain a suffix. Everything put in front is a system message for a prompt the conversation lacked, and none is put in front twice. |
| SystemPromptExtensions.UseSystemPromptIdempotent | Weaving/SystemPromptExtensions.cs:34-40 | Running the stage on its own output changes nothing. |
| JsonExtensions.FilterNode | Weaving/Extensions/JsonExtensions.cs:25-55 | Null members and null array items are dropped and the rest keep their order, each filtered. A string longer than the limit becomes its first `max` characters plus "...". Other values are returned unchanged. |
| JsonExtensions.FilterNodeFiltered | Weaving/Extensions/JsonExtensions.cs:25-55 | The filtered tree has no null child anywhere, and each of its strings fits the limit or is the limit's worth of characters followed by "...". |
| JsonExtensions.ToJsonString | Weaving/Extensions/JsonExtensions.cs:16-23 | A null value gives the empty object. It fails exactly when the limit is negative and the tree holds a string. Otherwise the result is the tree filtered with the given limit, or 100 when none is given, and it has no nulls or over-long strings. |
| JsonExtensions.FilterFixesFiltered | Weaving/Extensions/JsonExtensions.cs:25-55 | A tree with no nulls and no over-long strings is returned unchanged. |
| JsonExtensions.FilterIdempotent | Weaving/Extensions/JsonExtensions.cs:25-55 | Filtering an already filtered tree gives the same tree. |
| Agents.BuildRegistry | Weaving/Agents/AgentRouter.cs:30 | The dictionary is keyed by exact agent name. It fails exactly when a name occurs twice, and then it names a repeated key. |
| Agents.SubstitutePrompt | Weaving/Agents/AgentCoordinator.cs:77-79 | The template is split at every `{{agents}}` and joined with the catalog. That text is then split at every `{{messages}}` and joined with the conversation. A template without `{{agents}}` only has its `{{messages}}` replaced. A template with neither placeholder comes back unchanged. |
| Text.ReplaceAllIsSplitJoin | Weaving/Agents/AgentCoordinator.cs:77-79 | `Replace` equals splitting the text at the occurrences of the pattern, found left to right, and joining the pieces with the replacement, whatever the number of occurrences. |
| Text.SplitPiecesFree | Weaving/Agents/AgentCoordinator.cs:77-79 | No piece of such a split holds the pattern, so every occurrence is replaced. |
| Text.JoinSplit | Weaving/Agents/AgentCoordinator.cs:77-79 | Joining the pieces back with the pattern gives the text again, so nothing but the occurrences changes. |
| Agents.SubstituteOneAgentsPlaceholder | Weaving/Agents/AgentCoordinator.cs:77-79 | Placeholder-free text around one `{{agents}}` becomes that text around the catalog, with `{{messages}}` then replaced throughout. |
| AgentRouter.NewRouter | Weaving/Agents/AgentRouter.cs:24-32 | A missing "agents:router" section fails. A repeated agent name fails. Otherwise the router holds the configured options, and its dictionary maps exactly the listed names to their agents. |
| AgentRouter.RouterPrompt | Weaving/Agents/AgentRouter.cs:36-39 | The configured prompt is split at every `{{agents}}` and joined with the catalog, then split at every `{{messages}}` and joined with the conversation. A prompt with neither placeholder is sent as it is. |
| AgentRouter.Route | Weaving/Agents/AgentRouter.cs:34-51 | The agent the model names answers the original messages. A name with no registered agent gives an empty response. |
| AgentRouter.RouteByExactName | Weaving/Agents/AgentRouter.cs:45-50 | In terms of the agent list: the agent whose name is exactly the chosen one answers. A name matching no agent exactly gives an empty response, even if it differs only in letter case. |
| AgentCoordinator.Deps | Weaving/Agents/AgentCoordinator.cs:96 | A null dependency list means no dependencies. |
| AgentCoordinator.Context | Weaving/Agents/AgentCoordinator.cs:95-109 | A step's messages start with the original conversation. A step without dependencies receives exactly that conversation. |
| AgentCoordinator.UnknownDependencySkipped | Weaving/Agents/AgentCoordinator.cs:100 | A dependency id that names no step contributes nothing, wherever it is listed. |
| AgentCoordinator.Start | Weaving/Agents/AgentCoordinator.cs:111-117 | A step whose agent is registered is done with that agent's answer to its context. A step whose agent is not registered fails. |
| AgentCoordinator.StepKeepsInv | Weaving/Agents/AgentCoordinator.cs:93-117 | Starting a ready step keeps the execution invariant. Done steps hold their agent's answer, and a step started only after its dependencies. |
| AgentCoordinator.FinalAgents | Weaving/Agents/AgentCoordinator.cs:111-117 | In the final state a started step is done exactly when its agent is registered. |
| AgentCoordinator.UniqueIdsCheck | Weaving/Agents/AgentCoordinator.cs:89 | Building the completion dictionary succeeds exactly when the step ids are unique. |
| AgentCoordinator.Execute | Weaving/Agents/AgentCoordinator.cs:87-139 | Duplicate step ids are reported exactly when the ids repeat. A completed run had unique ids and every agent registered. A missing-agent error names a step of the plan whose agent is not registered. |
| AgentCoordinator.MissingAgentNeverCompletes | Weaving/Agents/AgentCoordinator.cs:111-122 | With unique ids, a step whose agent is not registered never responds, and the plan never completes. It blocks, or reports a missing agent whenever no step is left waiting. |
| AgentCoordinator.Coordinate | Weaving/Agents/AgentCoordinator.cs:72-139 | A repeated agent name fails when the coordinator is built, before any plan runs. A completed plan names only agents from the list. A missing-agent error names an agent that is not in the list. |
| AgentCoordinator.OutputsIsReference | Weaving/Agents/AgentCoordinator.cs:125-135 | The joined outputs equal the reference responses joined in plan order. |
| AgentCoordinator.AcyclicPlanCompletes | Weaving/Agents/AgentCoordinator.cs:91-139 | An acyclic plan with unique ids and registered agents completes. Its response is each step's agent applied to the history plus its dependencies' responses, recursively, joined in plan order. |
| AgentCoordinator.CycleBlocks | Weaving/Agents/AgentCoordinator.cs:98-102 | A plan with a dependency cycle never returns. |
| AgentCoordinator.MissingAgentBlocksDependents | Weaving/Agents/AgentCoordinator.cs:100-116 | A step with an unregistered agent fails, and a step that depends on it never starts. |
| AgentCoordinator.DependenciesBeforeDependents | Weaving/Agents/AgentCoordinator.cs:98-116 | A step's agent runs only after each of its in-plan dependencies stored its response. It receives exactly the history followed by those responses in listed order. |
| Scheduler.Empty | Weaving/Scheduler.cs:12 | The registry starts with no timers. |
| Scheduler.Period | Weaving/Scheduler.cs:34 | A one-shot timer has an infinite period. A recurring one repeats every `delay`, except that a zero delay disables repetition. |
| Scheduler.Schedule | Weaving/Scheduler.cs:14-37 | A null action is rejected, then a negative delay, and nothing is registered. Otherwise exactly one new handle is registered, due `delay` ticks from now with no callback running, and every other entry is kept. |
| Scheduler.Begin | Weaving/Scheduler.cs:20-34 | A due timer starts one more callback, even while earlier ones still run. It is next due one period later, or never without a period. It stays registered and nothing else changes. |
| Scheduler.Finish | Weaving/Scheduler.cs:22-33 | Whether or not the action threw, a one-shot timer is removed. A recurring one stays as it was with one callback fewer running. An exception escapes exactly when the action threw. |
| Scheduler.Apply | Weaving/Scheduler.cs:14-37 | Every event keeps every registered handle below the next handle to be issued. The process ends exactly when a running callback ends by throwing. |
| Scheduler.OneShotFiresAtMostOnce | Weaving/Scheduler.cs:26-34 | A one-shot timer runs its action at most once along any sequence of events. |
| Scheduler.OneShotStartsAtMostRemaining | Weaving/Scheduler.cs:26-34 | A one-shot handle starts at most once while it is due, and never once it has fired or is gone. |
| Scheduler.OneShotRemovedAfterFiring | Weaving/Scheduler.cs:26-32 | After the callback ends, the one-shot timer is gone and every other entry is untouched. |
| Scheduler.RecurringNeverRemoved | Weaving/Scheduler.cs:28-34 | A recurring timer stays registered with its action and delay along any sequence of events. |
| Scheduler.RecurringOverlaps | Weaving/Scheduler.cs:20-34 | A recurring timer fires again one period later while its first callback still runs, so two callbacks run the action at once. |
| Scheduler.EscapeEndsProcess | Weaving/Scheduler.cs:22-33 | An exception escaping a callback ends the process after the `finally` block has run. No later event happens and no action starts again. |
| SchedulingAgent.SchedulePrompt | Weaving/Agents/SchedulingAgent.cs:63-75 | A null prompt is rejected, then a date before the first clock reading. Otherwise one one-shot entry is scheduled with the delay to the date from the second reading. |
| SchedulingAgent.ScheduleRelativeTime | Weaving/Agents/SchedulingAgent.cs:79-90 | A null prompt is rejected. Otherwise the delay and the recurring flag go to the scheduler unchanged, and only the scheduler rejects a negative delay. |
| SchedulingAgent.SchedulePromptIsRelative | Weaving/Agents/SchedulingAgent.cs:68-71 | Once the past check passes, scheduling at a date is scheduling with the computed delay and no recurrence. |
| SchedulingAgent.ClockRace | Weaving/Agents/SchedulingAgent.cs:68-71 | If the clock passes the date between its two readings, the scheduler rejects the negative delay and nothing is scheduled. |
| SchedulingAgent.RunJob | Weaving/Agents/SchedulingAgent.cs:71 | The model's answer is published once on the bus. A failed call publishes nothing and throws. |
| SchedulingAgent.FireEntry | Weaving/Agents/SchedulingAgent.cs:71 | Firing an entry publishes the answer to its prompt. A one-shot entry is then removed and a recurring one kept. |
| SchedulingAgent.ScheduledPromptPublishesOnce | Weaving/Agents/SchedulingAgent.cs:63-75 | Scheduling a future prompt and firing its entry publishes exactly one answer and leaves the registry as it was. |
| Memory.CheckNames | Weaving/MemoryExtensions.cs:161 | Building the entity dictionary fails exactly when two stored names are equal ignoring case. |
| Memory.Find | Weaving/MemoryExtensions.cs:164 | The lookup finds the first entity whose name equals the key ignoring case, and finds nothing when there is none. |
| Memory.Get | Weaving/MemoryExtensions.cs:164 | The entity stored for a name, ignoring case. |
| Memory.Merged | Weaving/MemoryExtensions.cs:167-168 | The merged entity takes the incoming name and type. Its observations are the old ones without repeats, in order, then the new ones not seen before, in order. With repeat-free old observations, the old list is kept as a prefix. |
| Memory.Upsert | Weaving/MemoryExtensions.cs:164-173 | A known name keeps its position and a new one is appended. The incoming name then maps to the incoming entity, merged with the earlier one if there was one. The names stay unique. |
| Memory.UpsertGet | Weaving/MemoryExtensions.cs:164-173 | After one upsert, the incoming name maps to the incoming entity, merged when it was known. Every other name maps to what it did before. |
| Memory.UpsertAllPresent | Weaving/MemoryExtensions.cs:162-174 | After the loop a name has an entity exactly when it had one or the batch mentions it. |
| Memory.UpsertAllUntouched | Weaving/MemoryExtensions.cs:162-174 | A name the batch does not mention keeps its entity. |
| Memory.UpsertAllLast | Weaving/MemoryExtensions.cs:162-174 | The last incoming entity with a name gives the stored entity its name and type. |
| Memory.UpsertAllObservations | Weaving/MemoryExtensions.cs:162-174 | A stored observation is one the entity had or one an incoming entity with that name brings, and every such observation is stored. |
| Memory.CreateEntities | Weaving/MemoryExtensions.cs:156-176 | Clashing stored names fail. Otherwise the entities are the batch upserted one by one, relations are kept, stored entities keep their positions, and names stay unique. A name has an entity exactly when it had one or the batch mentions it. |
| Memory.UpsertIdempotent | Weaving/MemoryExtensions.cs:162-174 | Upserting the same entity a second time changes nothing when its observations have no repeats. |
| Memory.AddObservationsUntargeted | Weaving/MemoryExtensions.cs:206-213 | An entity that no entry targets is left as it was. |
| Memory.AddObservationsContents | Weaving/MemoryExtensions.cs:206-213 | A targeted entity ends with exactly its old observations and the targeting contents, without repeats. |
| Memory.AddObservationsTo | Weaving/MemoryExtensions.cs:200-215 | Clashing stored names fail. Otherwise the entities are those of the observation-adding loop, names stay unique and the relations are kept. |
| Memory.DeleteObservationsUntargeted | Weaving/MemoryExtensions.cs:236-243 | An entity that no entry targets is left as it was. |
| Memory.DeleteObservationsContents | Weaving/MemoryExtensions.cs:236-243 | A targeted entity keeps exactly those old observations that no targeting entry lists, without repeats. |
| Memory.DeleteObservationsFrom | Weaving/MemoryExtensions.cs:230-245 | Clashing stored names fail. Otherwise the entities are those of the observation-removing loop, names stay unique and the relations are kept. |
| Memory.CreateRelations | Weaving/MemoryExtensions.cs:179-197 | Stored relations are kept as a prefix. The result holds exactly the stored and the batch relations. The new relations are appended in batch order, keeping the first occurrence of each triple not stored before. |
| Memory.DeleteEntities | Weaving/MemoryExtensions.cs:218-227 | The named entities and every relation from or to a named entity are dropped, matching names ignoring case. Every copy of everything else stays, in its original order. |
| Memory.DeleteEntitiesIdempotent | Weaving/MemoryExtensions.cs:218-227 | Deleting the same names again changes nothing. |
| Memory.DeleteEntitiesKeepsUnique | Weaving/MemoryExtensions.cs:218-227 | Deleting entities keeps entity names unique. |
| Memory.DeleteRelations | Weaving/MemoryExtensions.cs:248-256 | Exactly the relations whose triple is listed are dropped. Every copy of the others stays, in its original order. |
| Memory.CreateThenDeleteRelations | Weaving/MemoryExtensions.cs:179-256 | Creating a batch of relations and then deleting it is the same as only deleting it. |
| Memory.SearchNodes | Weaving/MemoryExtensions.cs:140-153 | The result holds the entities whose name contains the query ignoring case. It holds the relations from or to one of those names, compared exactly. |
| Memory.SearchEmptyQueryFindsAll | Weaving/MemoryExtensions.cs:145-147 | An empty query matches every entity. |
| Memory.OpenNodes | Weaving/MemoryExtensions.cs:259-275 | The result holds the relations touching a requested name, ignoring case. It holds the entities that are requested or an endpoint of one of those relations. |
| Memory.OpenNodesClosed | Weaving/MemoryExtensions.cs:265-274 | Every stored entity named exactly as an endpoint of a returned relation is returned with it. |
| Memory.WritesKeepNamesUnique | Weaving/MemoryExtensions.cs:156-256 | Every write tool, starting from unique names, succeeds and keeps the names unique. |
| MemoryClient.SetupTools | Weaving/MemoryExtensions.cs:89-109 | Without a non-empty user the options are unchanged. With one, the memory prompt is added. The nine memory tools are appended unless "memory_read_graph" is already there. |
| MemoryClient.SetupToolsIdempotent | Weaving/MemoryExtensions.cs:89-109 | Setting up the tools twice is the same as once. |
| MemoryClient.CurrentUser | Weaving/MemoryExtensions.cs:73 | The user the tools act for is the options' end user id, or null without options. |
| MemoryClient.Save | Weaving/MemoryExtensions.cs:122-128 | A successful write replaces the user's graph. A failure leaves the store unchanged. |
| MemoryClient.Invoke | Weaving/MemoryExtensions.cs:131-275 | With no user, queries return the empty graph and writes do nothing. Queries never change the store. A successful write stores the graph that write computes from the user's graph, and only that. A failed write returns its error and changes nothing. |
| MemoryClient.InvokeKeepsNamesUnique | Weaving/MemoryExtensions.cs:156-256 | For a user whose stored names are unique, every tool succeeds and the names stay unique. |
| GraphMemory.NoDollarNoOccurrence | Weaving/GraphMemoryExtensions.cs:250 | A pattern starting with '$' does not occur in a text without '$'. |
| GraphMemory.UserPrompt | Weaving/GraphMemoryExtensions.cs:250 | Replacing "$$endUserId$$" leaves the graph prompt unchanged, because the prompt has no such placeholder. The prompt is not blank. |
| GraphMemory.SetupTools | Weaving/GraphMemoryExtensions.cs:246-260 | Without a non-empty user the options are unchanged. With one, the prompt is added and the tool mode becomes RequireAny. Unless "graph_query" is present, "graph_query" and then "graph_mutate" are inserted at the front. |
| GraphMemory.SetupToolsIdempotent | Weaving/GraphMemoryExtensions.cs:246-260 | Setting up the tools twice is the same as once. |
| GraphMemory.PrepareScript | Weaving/GraphMemoryExtensions.cs:281-288 | The script is rejected exactly when it lacks "$$partitionKey$$" ignoring case. Otherwise every exact occurrence is replaced by the user id, or removed when the user is null. A script with only a miscased occurrence is sent as is. |
| GraphMemory.ExactPlaceholderAccepted | Weaving/GraphMemoryExtensions.cs:281-288 | A script with the exact placeholder is accepted, and the user id takes the placeholder's place. |
| GraphMemory.MiscasedPlaceholderSentVerbatim | Weaving/GraphMemoryExtensions.cs:281-288 | "$$PartitionKey$$" passes the check and is sent without substitution. |
| GraphMemory.ExecuteWithRetry | Weaving/GraphMemoryExtensions.cs:208-226 | There are at most 3 waits of 500, 1000 and 2000 ms, totalling 500·(2^n−1). Every earlier attempt failed with a handled error. The last result is returned, and a handled failure is returned only after all retries. |
| GraphMemory.ExecuteQuery | Weaving/GraphMemoryExtensions.cs:272-296 | A script without the placeholder is rejected before any attempt. Otherwise the prepared script runs under the retry policy and its outcome is returned. |
| ConversationStorage.AddTopicsPrompt | Weaving/ConversationStorage.cs:42-43 | With topics enabled the topics prompt is added, creating the options if null. With topics disabled the options are unchanged. |
| ConversationStorage.SetupTools | Weaving/ConversationStorage.cs:120-136 | With topics disabled the options pass through. Otherwise the four topic tools are appended unless "conversation_read_history" is present. |
| ConversationStorage.TopicsDisabled | Weaving/ConversationStorage.cs:37 | As built, with topics off, neither the prompt nor the tools are added. |
| ConversationStorage.GetResponse | Weaving/ConversationStorage.cs:39-77 | Without an id, a fresh id is used and the conversation starts with the id message. A known id continues the stored messages. An unknown id starts with the id message. The model's answer is appended, saved under the id and returned tagged with it. |
| ConversationStorage.GetResponseExtendsHistory | Weaving/ConversationStorage.cs:39-77 | Only the conversation's key changes in the store. The saved conversation ends with the answer, and a stored conversation is a prefix of the new one. The response carries the id. |
| ConversationStorage.FollowUpSeesWholeConversation | Weaving/ConversationStorage.cs:56-71 | A follow-up with the returned id sends the model the whole earlier exchange followed by the new messages. |
| ConversationStorage.GetStreamingResponse | Weaving/ConversationStorage.cs:79-116 | Every update is tagged with the conversation id. The saved conversation is the sent messages, without an id message, followed by the merged updates. |
| ConversationStorage.StreamingStartsWithoutIdMessage | Weaving/ConversationStorage.cs:85-101 | Unlike the non-streaming path, a new streamed conversation does not start with the id message. |
| ConversationStorage.ReadHistory | Weaving/ConversationStorage.cs:139-145 | The stored messages of the conversation, or none when it is unknown. |
| ConversationStorage.ReadHistoryAfterResponse | Weaving/ConversationStorage.cs:139-145 | After a response, reading the history gives the earlier conversation, or the id message for a new one, then the new messages, then the answer. |
| ConversationStorage.AddTopics | Weaving/ConversationStorage.cs:148-155 | Null or empty topics change nothing. Otherwise exactly one row per topic is added under the conversation, keyed by the sanitized upper-cased topic. |
| ConversationStorage.ReadTopics | Weaving/ConversationStorage.cs:158-164 | The row keys stored under the conversation. |
| ConversationStorage.AddTopicsThenRead | Weaving/ConversationStorage.cs:148-164 | After adding topics to a conversation, reading it gives every added topic's key. Reading any other conversation gives what it had before. |
| ConversationStorage.FindConversations | Weaving/ConversationStorage.cs:167-186 | Null or empty topics give no ids. Otherwise the ids are distinct, and an id is returned exactly when one of its rows' upper-cased key contains a sanitized upper-cased topic. |
| ConversationStorage.AddedTopicIsFound | Weaving/ConversationStorage.cs:148-186 | A conversation tagged with a topic is found when that topic is searched, provided the topic's sanitized key is already upper case. |

## Left out

- The chat model, the message bus, table storage, the memory files and the Gremlin server are parameters or maps, not implementations.
- `Ulid.NewUlid()` and `TableStorageAttribute.Sanitize` are parameters too. `ToChatResponse` is the merge function of `ConversationStorage.GetStreamingResponse`.
- Clocks are integer readings passed in. Timers are an event sequence. Concurrent tasks run in one sequential order.
- The `System.Threading.Timer` limits are not modelled: the maximum due time, the period overflow, and a zero-delay timer firing before it is registered.
- The prompt texts are modelled by their opening lines. `GremlinDescription` and the tool descriptions are left out.
- Case-insensitive comparison and `ToUpperInvariant` fold ASCII letters only.
- Agent configuration binding and JSON serialization of agents and messages are left out. The serialized texts are inputs.
- JSON rendering to text is left out. `ToJsonString` returns the filtered tree, not its text.
- Logging, `AnsiConsole` output and Polly's retry callback are left out, since none of them affects results.
- `GetMemoryPath` is left out, and `LoadGraph` and `SaveGraph` are a map from users to graphs. A corrupt or null-deserializing file is not modelled.
- The `EndUserId` property is defined twice in the source, in `ChatExtensions.cs` and `MemoryExtensions.cs:52-56`. Both copies behave alike, so they are modelled once.
- "graph_query" and "graph_mutate" both call `ExecuteQuery`, so one operation models both.
- GraphMemory.ExecuteWithRetry: the Gremlin response status codes are reduced to TooManyRequests and the rest.
- ConversationStorage.FindConversations: the order of the returned ids is left unspecified, because `HashSet.ToArray` does not promise one.
- `Interactive`, `Program`, the console logging extensions and the agents not named above (configurable, generic, conversation, memory, order) are not part of this model.
- AgentCoordinator.Execute: a step that never starts is reported as blocked instead of hanging forever.
- AgentCoordinator.Execute: agents are total functions, so an agent that throws is not modelled. In the source its completion is never set, so its dependents wait forever, as with a missing agent.
- JsonExtensions.FilterNode: string lengths count Dafny characters (Unicode scalar values). .NET counts UTF-16 code units, so for text outside the Basic Multilingual Plane the cut falls elsewhere and can split a surrogate pair.
- Memory.Merged: lists are never null in the model. In the source a null `Observations` or `Contents` makes `Union` or `Except` throw (`MemoryExtensions.cs:167`, `210`, `240`).
- ConversationStorage.GetStreamingResponse: the stream is assumed to be read to its end. In the source the conversation is saved only after the consumer drains the stream (`ConversationStorage.cs:106-115`), so a consumer that stops early saves nothing.
- SchedulingAgent.SchedulePrompt: after scheduling, both tools set `Terminate` on the current function-invocation context (`SchedulingAgent.cs:74`, `89`), which ends the tool-calling loop. That loop is not part of this model.
- Code and intent differ in three places, and the model follows the code. A dependency id that names no step is skipped silently. A repeated agent name makes construction throw. The dependents of a failed step wait forever instead of failing.
