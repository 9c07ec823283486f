/** The message handling of the pygame chat client instruct_pygame.py: the
    role-tagged conversation `format_history` builds for the model, and the
    growing reply `generate_response` yields while tokens stream in. */
module Chat {
  import opened Wrappers

  datatype Role = System | User | Assistant

  /** One `{"role": ..., "content": ...}` entry of the conversation. */
  datatype Message = Message(role: Role, content: string)

  /** One earlier turn of the history: the user's query and the reply. */
  datatype Exchange = Exchange(query: string, response: string)

  /** The messages of the earlier turns, in order: each query as a user
      message followed by its reply as an assistant message. */
  function HistoryMessages(history: seq<Exchange>): seq<Message>
  {
    if history == [] then []
    else
      var last := history[|history| - 1];
      HistoryMessages(history[..|history| - 1])
      + [Message(User, last.query), Message(Assistant, last.response)]
  }

  /** Turn `k` sits at positions `2k` and `2k + 1` of the history messages. */
  lemma {:induction false} HistoryLayout(history: seq<Exchange>)
    ensures |HistoryMessages(history)| == 2 * |history|
    ensures forall k :: 0 <= k < |history| ==>
      HistoryMessages(history)[2 * k] == Message(User, history[k].query) &&
      HistoryMessages(history)[2 * k + 1] == Message(Assistant, history[k].response)
  {
    if history != [] {
      var init := history[..|history| - 1];
      HistoryLayout(init);
      forall k | 0 <= k < |init|
        ensures history[k] == init[k]
      {
      }
    }
  }

  /** The conversation sent to the model: the system prompt, the earlier
      turns, then the new message from the user. */
  function Conversation(msg: string, history: seq<Exchange>, systemPrompt: string): seq<Message>
  {
    [Message(System, systemPrompt)] + HistoryMessages(history) + [Message(User, msg)]
  }

  /** `format_history`: the system prompt, the earlier turns, then the new
      message from the user. */
  method FormatHistory(msg: string, history: seq<Exchange>, systemPrompt: string) returns (chatHistory: seq<Message>)
    ensures chatHistory == Conversation(msg, history, systemPrompt)
    ensures |chatHistory| == 2 * |history| + 2
    ensures chatHistory[0] == Message(System, systemPrompt)
    ensures chatHistory[|chatHistory| - 1] == Message(User, msg)
    ensures forall k :: 0 <= k < |history| ==>
      chatHistory[2 * k + 1] == Message(User, history[k].query) &&
      chatHistory[2 * k + 2] == Message(Assistant, history[k].response)
  {
    chatHistory := [Message(System, systemPrompt)];
    for k := 0 to |history|
      invariant chatHistory == [Message(System, systemPrompt)] + HistoryMessages(history[..k])
    {
      assert history[..k + 1][..k] == history[..k];
      chatHistory := chatHistory + [Message(User, history[k].query)];
      chatHistory := chatHistory + [Message(Assistant, history[k].response)];
    }
    assert history[..|history|] == history;
    chatHistory := chatHistory + [Message(User, msg)];
    HistoryLayout(history);
  }

  /** The accumulation loop of `generate_response`: after each token the text
      so far is yielded. */
  method Accumulate(tokens: seq<string>) returns (yielded: seq<string>)
    ensures |yielded| == |tokens|
    ensures forall k :: 0 <= k < |tokens| ==> yielded[k] == Flatten(tokens[..k + 1])
    ensures forall k :: 0 < k < |yielded| ==> yielded[k - 1] <= yielded[k]
  {
    var message := "";
    yielded := [];
    for k := 0 to |tokens|
      invariant message == Flatten(tokens[..k])
      invariant |yielded| == k
      invariant forall j :: 0 <= j < k ==> yielded[j] == Flatten(tokens[..j + 1])
      invariant forall j :: 0 < j < k ==> yielded[j - 1] <= yielded[j]
    {
      FlattenPrefix(tokens, k);
      message := message + tokens[k];
      yielded := yielded + [message];
    }
  }

  /** `generate_response`. The streaming chat call is foreign: `chat` stands
      for the tokens the model streams back for a conversation. */
  method GenerateResponse(msg: string, history: seq<Exchange>, systemPrompt: string,
                          chat: seq<Message> -> seq<string>) returns (yielded: seq<string>)
    ensures var tokens := chat(Conversation(msg, history, systemPrompt));
      |yielded| == |tokens| &&
      (forall k :: 0 <= k < |tokens| ==> yielded[k] == Flatten(tokens[..k + 1])) &&
      (forall k :: 0 < k < |yielded| ==> yielded[k - 1] <= yielded[k])
  {
    var chatHistory := FormatHistory(msg, history, systemPrompt);
    yielded := Accumulate(chat(chatHistory));
  }
}
