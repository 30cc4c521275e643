/** The per-session chat history and the turn handler that extends it: one
    `user` entry for the prompt, then one `{role, content}` record per item
    the agent run produced, in order. */
module Session {

  /** The items of `result.new_items`, by the class the turn loop tests for.
      Text the agent runtime computes (the JSON dump of a tool call's
      arguments, a message's text, the string form of an item) is carried as given. */
  datatype Item =
    | ToolCallItem(name: string, arguments: string)
    | ToolCallOutputItem(output: string)
    | MessageOutputItem(text: string)
    | ReasoningItem(raw: string)
    | OtherItem(repr: string)

  /** The outcome of `Runner.run(assistant, prompt, max_turns)`: the
      new items, or an exception (the turn budget exceeded, or any other). */
  datatype RunResult = Completed(newItems: seq<Item>) | Raised

  /** One entry of `st.session_state.history`. */
  datatype Message = Message(role: string, content: string)

  /** The turn budget the turn handler passes to `Runner.run`. */
  const MAX_TURNS: nat := 40

  /** The role the turn loop records for an item. */
  function Role(item: Item): string
  {
    match item
    case ToolCallItem(_, _) => "tool"
    case ToolCallOutputItem(_) => "tool_result"
    case MessageOutputItem(_) => "assistant"
    case ReasoningItem(_) => "reasoning"
    case OtherItem(_) => "unknown"
  }

  /** The markdown the turn loop records for an item. */
  function Content(item: Item): string
  {
    match item
    case ToolCallItem(name, arguments) =>
      "\U{1F527} **Tool call** `" + name + "`\n```json\n" + arguments + "\n```"
    case ToolCallOutputItem(output) => "\U{1F4E4} **Tool result** \n```\n" + output + "\n```"
    case MessageOutputItem(text) => "\U{1F916} **LLM message**\n```\n" + text + "\n```"
    case ReasoningItem(raw) => raw
    case OtherItem(repr) => repr
  }

  /** The record the turn loop appends for an item. */
  function Render(item: Item): Message
  {
    Message(Role(item), Content(item))
  }

  /** One user's session state. */
  class ChatSession {
    var history: seq<Message>

    /** A new session starts with an empty history. */
    constructor ()
      ensures history == []
    {
      history := [];
    }

    /** One submission of the chat input. An empty (or absent) prompt changes
        nothing. Otherwise the prompt is recorded first; the agent is run on
        the prompt alone, with a budget of MAX_TURNS turns, and if the run raises, the history keeps just that
        one new entry. When it completes, exactly one record per new item
        follows, in the order of the items, with the item's role, and every
        earlier entry is left as it was. */
    method Submit(prompt: string, run: (string, nat) -> RunResult)
      modifies this
      ensures prompt == "" ==> history == old(history)
      ensures prompt != "" && run(prompt, MAX_TURNS).Raised? ==>
        history == old(history) + [Message("user", prompt)]
      ensures prompt != "" && run(prompt, MAX_TURNS).Completed? ==>
        var items := run(prompt, MAX_TURNS).newItems;
        var n := |old(history)|;
        && |history| == n + 1 + |items|
        && history[..n] == old(history)
        && history[n] == Message("user", prompt)
        && (forall i :: 0 <= i < |items| ==> history[n + 1 + i] == Render(items[i]))
    {
      if prompt == "" {
        return;
      }
      history := history + [Message("user", prompt)];
      var result := run(prompt, MAX_TURNS);
      if result.Raised? {
        return;
      }
      var items := result.newItems;
      ghost var start := history;
      var i := 0;
      while i < |items|
        invariant 0 <= i <= |items|
        invariant |history| == |start| + i
        invariant history[..|start|] == start
        invariant forall j :: 0 <= j < i ==> history[|start| + j] == Render(items[j])
      {
        var item := items[i];
        var entry: Message;
        match item {
          case ToolCallItem(name, arguments) =>
            var content := "\U{1F527} **Tool call** `" + name + "`\n```json\n" + arguments + "\n```";
            entry := Message("tool", content);
          case ToolCallOutputItem(output) =>
            var content := "\U{1F4E4} **Tool result** \n```\n" + output + "\n```";
            entry := Message("tool_result", content);
          case MessageOutputItem(text) =>
            var content := "\U{1F916} **LLM message**\n```\n" + text + "\n```";
            entry := Message("assistant", content);
          case ReasoningItem(raw) =>
            entry := Message("reasoning", raw);
          case OtherItem(repr) =>
            entry := Message("unknown", repr);
        }
        assert entry == Render(item);
        history := history + [entry];
        i := i + 1;
      }
      assert history[..|start| - 1] == history[..|start|][..|start| - 1];
    }
  }
}
