/** `AgentRouter`: asks a model which registered agent should answer and
    hands the unmodified conversation to that agent. The model's choice is a
    parameter (`choose`, from the system prompt to an agent name). */
module AgentRouter {
  import opened Wrappers
  import opened Seqs
  import opened Text
  import opened Chat
  import opened Agents

  /** `AgentRouterOptions(Client, Prompt, Options)`. */
  datatype RouterOptions = RouterOptions(client: string, prompt: string, options: ChatOptions)

  datatype Router = Router(options: RouterOptions, agentsJson: string, registry: Registry)

  datatype RouterError = NotConfigured | DuplicateAgent(name: string)

  /** The constructor: the "agents:router" section must bind to options
      (`None` stands for a missing or unbound section), then the agents are
      put in a dictionary by name. `agentsJson` is the serialized agent
      catalog. */
  function NewRouter(config: Option<RouterOptions>, agents: seq<AgentInfo>, agentsJson: string): (r: Result<Router, RouterError>)
    ensures config.None? ==> r == Err(NotConfigured)
    ensures config.Some? && !Distinct(Names(agents)) ==> r.Err? && r.error.DuplicateAgent?
    ensures r.Ok? <==> config.Some? && Distinct(Names(agents))
    ensures r.Ok? ==> r.value.options == config.value && r.value.agentsJson == agentsJson
    ensures r.Ok? ==> forall i :: 0 <= i < |agents| ==>
      agents[i].name in r.value.registry && r.value.registry[agents[i].name] == agents[i].respond
    ensures r.Ok? ==> forall name :: name in r.value.registry ==>
      exists i :: 0 <= i < |agents| && agents[i].name == name
  {
    if config.None? then Err(NotConfigured)
    else
      match BuildRegistry(agents)
      case Err(DuplicateAgentName(name)) => Err(DuplicateAgent(name))
      case Ok(registry) => Ok(Router(config.value, agentsJson, registry))
  }

  /** The system prompt sent to the model: the configured prompt with the
      catalog and then the conversation substituted. */
  function RouterPrompt(router: Router, messagesJson: string): (r: string)
    ensures (!Contains(router.options.prompt, AgentsPlaceholder) &&
             !Contains(router.options.prompt, MessagesPlaceholder)) ==> r == router.options.prompt
    ensures r == Join(Split(Join(Split(router.options.prompt, AgentsPlaceholder), router.agentsJson),
                            MessagesPlaceholder), messagesJson)
  {
    SubstitutePrompt(router.options.prompt, router.agentsJson, messagesJson)
  }

  /** `GetResponseAsync`: the agent the model names answers the original
      messages; a name with no registered agent yields an empty response and
      no agent runs. */
  function Route(router: Router, messages: seq<Msg>, messagesJson: string, choose: string -> string): (r: seq<Msg>)
    ensures choose(RouterPrompt(router, messagesJson)) in router.registry ==>
      r == router.registry[choose(RouterPrompt(router, messagesJson))](messages)
    ensures choose(RouterPrompt(router, messagesJson)) !in router.registry ==> r == []
  {
    var name := choose(RouterPrompt(router, messagesJson));
    if name in router.registry then router.registry[name](messages) else []
  }

  /** Routing in terms of the agent list the router was built from: the agent
      whose name is exactly the chosen one answers the unmodified
      conversation; when no agent has exactly that name (even one that
      differs only in letter case) the response is empty. */
  lemma RouteByExactName(config: RouterOptions, agents: seq<AgentInfo>, agentsJson: string,
                         messages: seq<Msg>, messagesJson: string, choose: string -> string)
    requires NewRouter(Some(config), agents, agentsJson).Ok?
    ensures var router := NewRouter(Some(config), agents, agentsJson).value;
      var name := choose(RouterPrompt(router, messagesJson));
      && (forall i :: 0 <= i < |agents| && agents[i].name == name ==>
            Route(router, messages, messagesJson, choose) == agents[i].respond(messages))
      && ((forall i :: 0 <= i < |agents| ==> agents[i].name != name) ==>
            Route(router, messages, messagesJson, choose) == [])
  {
    var router := NewRouter(Some(config), agents, agentsJson).value;
    var name := choose(RouterPrompt(router, messagesJson));
    if forall i :: 0 <= i < |agents| ==> agents[i].name != name {
      assert name !in router.registry;
    }
  }
}
