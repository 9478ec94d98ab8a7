/**
 * The routing decision of the conversation graph (`route_tools`): after a
 * response, go to the tool-invocation node when the last message asks for
 * tools, and end the turn otherwise.
 */
module Router {
  import opened Wrappers

  /** A structured request to call one tool. */
  datatype ToolCall = ToolCall(name: string, args: string, id: string)

  /** A message; `toolCalls` is `None` when the message has no `tool_calls` attribute at all. */
  datatype Msg = Msg(content: string, toolCalls: Option<seq<ToolCall>>)

  /** The graph state: a bare list of messages, or a dictionary whose `"messages"` entry may be missing. */
  datatype State = List(items: seq<Msg>) | Dict(entry: Option<seq<Msg>>)

  /** Two ways routing fails: `state[-1]` on an empty list, and the `ValueError` for a dictionary. */
  datatype RoutingError = IndexError | NoMessages

  /** The name of the tool node. */
  const TOOLS := "tools"
  /** langgraph's `END`. */
  const END := "__end__"

  /** The messages the state carries; a missing `"messages"` entry counts as none. */
  function Messages(state: State): seq<Msg> {
    match state
    case List(items) => items
    case Dict(entry) => entry.GetOr([])
  }

  /** `state[-1]` for a list, `state["messages"][-1]` for a dictionary. */
  function LastMessage(state: State): Result<Msg, RoutingError> {
    match state
    case List(items) =>
      if items == [] then Failure(IndexError) else Success(items[|items| - 1])
    case Dict(entry) =>
      if entry.None? || entry.value == [] then Failure(NoMessages) else Success(entry.value[|entry.value| - 1])
  }

  predicate HasToolCalls(m: Msg) {
    m.toolCalls.Some? && |m.toolCalls.value| > 0
  }

  /**
   * `route_tools(state)`: `"tools"` exactly when the last message carries
   * at least one tool call, `END` when it carries none or has no
   * `tool_calls` attribute, and an error when there is no message.
   */
  function RouteTools(state: State): (r: Result<string, RoutingError>)
    ensures r.Success? <==> Messages(state) != []
    ensures r == Failure(IndexError) <==> state.List? && state.items == []
    ensures r == Failure(NoMessages) <==> state.Dict? && (state.entry == None || state.entry == Some([]))
    ensures r.Success? ==> (r.value == TOOLS <==> HasToolCalls(Messages(state)[|Messages(state)| - 1]))
    ensures r.Success? ==> (r.value == END <==> !HasToolCalls(Messages(state)[|Messages(state)| - 1]))
  {
    match LastMessage(state)
    case Failure(e) => Failure(e)
    case Success(last) => if HasToolCalls(last) then Success(TOOLS) else Success(END)
  }

  /** Only the last message is inspected: earlier messages, with or without tool calls, do not matter. */
  lemma RouteIgnoresEarlierMessages(earlier: seq<Msg>, other: seq<Msg>, last: Msg)
    ensures RouteTools(List(earlier + [last])) == RouteTools(List(other + [last]))
    ensures RouteTools(Dict(Some(earlier + [last]))) == RouteTools(Dict(Some(other + [last])))
    ensures RouteTools(List(earlier + [last])) == RouteTools(List([last]))
  {
  }

  /** A list state and a dictionary state holding the same messages route the same way. */
  lemma RouteListAgreesWithDict(messages: seq<Msg>)
    requires messages != []
    ensures RouteTools(List(messages)) == RouteTools(Dict(Some(messages)))
  {
  }
}
