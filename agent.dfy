/** `create_agent`: the tools, the prompt and the memory the data-analysis
    agent is assembled from. The model it runs on is `select_model`'s. */
module Agent {
  import opened Wrappers
  import opened Session
  import opened ModelSelection

  /** The agent's tools: BigQuery's table-information and query tools and
      the code interpreter. */
  datatype Tool = TableInfo | ExecQuery | CodeInterpreter

  /** One slot of a chat prompt: a message with a role and a template, or a
      place where a named list of messages is inserted. */
  datatype PromptSlot = Message(role: string, template: string) | Placeholder(variableName: string)

  /** `create_tool_calling_agent(llm, tools, prompt)`. */
  datatype ToolCallingAgent = ToolCallingAgent(llm: Option<ChatModel>, tools: seq<Tool>, prompt: seq<PromptSlot>)

  /** The `AgentExecutor` that `create_agent` returns. */
  datatype AgentExecutor = AgentExecutor(agent: ToolCallingAgent, tools: seq<Tool>, verbose: bool, memory: WindowMemory)

  /** The agent's tools, in order. */
  const AgentTools: seq<Tool> := [TableInfo, ExecQuery, CodeInterpreter]

  /** The agent's prompt for system prompt `system`, in order: the system
      message, the conversation so far, the user's input, and the agent's
      own tool calls. */
  function AgentPrompt(system: string): (ps: seq<PromptSlot>)
    ensures |ps| == 4
    ensures ps[0] == Message("system", system) && ps[2] == Message("user", "{input}")
    ensures ps[1] == Placeholder("chat_history") && ps[3] == Placeholder("agent_scratchpad")
  {
    [Message("system", system), Placeholder("chat_history"),
     Message("user", "{input}"), Placeholder("agent_scratchpad")]
  }

  /** `create_agent(bq_client)`, where `choice` is the model radio's option.
      The session's system prompt and memory are read from the session
      state; a session missing either key gives nothing (Python raises).
      Otherwise the executor runs an agent on the selected model with the
      three tools in order, the executor and the agent share the same tool
      list, and the executor holds the session's own memory object. */
  function CreateAgent(session: SessionState, choice: string): (r: Option<AgentExecutor>)
    reads session
    ensures r.Some? <==> session.customSystemPrompt.Some? && session.memory.Some?
    ensures r.Some? ==>
      && r.value.tools == r.value.agent.tools == AgentTools
      && r.value.agent.prompt == AgentPrompt(session.customSystemPrompt.value)
      && r.value.agent.llm == SelectModel(choice)
      && r.value.memory == session.memory.value
      && r.value.verbose
  {
    if session.customSystemPrompt.None? || session.memory.None? then None
    else
      var agent := ToolCallingAgent(SelectModel(choice), AgentTools, AgentPrompt(session.customSystemPrompt.value));
      Some(AgentExecutor(agent, AgentTools, true, session.memory.value))
  }

  /** The executor's memory fills a placeholder of the prompt with a list of
      messages: its key names a placeholder slot and it returns messages. */
  predicate HistoryFeedsPrompt(a: AgentExecutor) {
    a.memory.returnMessages && exists k :: 0 <= k < |a.agent.prompt| && a.agent.prompt[k] == Placeholder(a.memory.memoryKey)
  }

  /** The variables the prompt's placeholders take, in order: a name is
      listed exactly when some slot is a placeholder for it. */
  function PlaceholderNames(ps: seq<PromptSlot>): (ns: seq<string>)
    ensures forall n :: n in ns <==> exists k :: 0 <= k < |ps| && ps[k] == Placeholder(n)
  {
    if ps == [] then []
    else
      var rest := PlaceholderNames(ps[1..]);
      assert forall k :: 0 < k < |ps| ==> ps[k] == ps[1..][k - 1];
      assert forall k :: 0 <= k < |ps| - 1 ==> ps[1..][k] == ps[k + 1];
      (match ps[0] case Placeholder(n) => [n] case Message(_, _) => []) + rest
  }

  /** On a session `init_page` has made ready, `create_agent` always builds an
      executor on the radio's model, and the conversation the memory keeps is
      inserted into the prompt's history slot. The prompt's only other
      placeholder is the agent's scratchpad. */
  lemma {:induction false} AgentOnReadySession(session: SessionState, k: nat)
    requires session.Ready() && k < |ModelLabels|
    ensures CreateAgent(session, ModelLabels[k]).Some?
    ensures CreateAgent(session, ModelLabels[k]).value.agent.llm.Some?
    ensures HistoryFeedsPrompt(CreateAgent(session, ModelLabels[k]).value)
    ensures PlaceholderNames(CreateAgent(session, ModelLabels[k]).value.agent.prompt)
              == [session.memory.value.memoryKey, "agent_scratchpad"]
  {
    var a := CreateAgent(session, ModelLabels[k]).value;
    assert a.agent.prompt[1] == Placeholder(a.memory.memoryKey);
    PromptPlaceholders(session.customSystemPrompt.value);
  }

  /** The prompt takes two placeholders: the history, then the scratchpad. */
  lemma {:induction false} PromptPlaceholders(system: string)
    ensures PlaceholderNames(AgentPrompt(system)) == ["chat_history", "agent_scratchpad"]
  {
    var ps := AgentPrompt(system);
    assert ps[3..][1..] == [];
    assert PlaceholderNames(ps[3..]) == ["agent_scratchpad"];
    assert ps[2..][1..] == ps[3..];
    assert ps[1..][1..] == ps[2..];
    assert PlaceholderNames(ps[1..]) == ["chat_history"] + PlaceholderNames(ps[2..]);
  }
}
