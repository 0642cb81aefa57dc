/** The chat-format training example shared by the builder, the prompt refiner
    and the splitter: a list of role/content messages, or a record without a
    message list. */
module TrainingFormat {

  datatype Message = Message(role: string, content: string)

  /** `Chat` is a record with a "messages" key; `Unstructured` is any record
      without one, which the refiner skips and the token count treats as empty. */
  datatype Example = Chat(messages: seq<Message>) | Unstructured

  /** Position of the first message with the given role, or `|msgs|` when none has it. */
  function FirstWithRole(msgs: seq<Message>, role: string): (r: nat)
    ensures r <= |msgs|
    ensures r < |msgs| ==> msgs[r].role == role
    ensures forall j :: 0 <= j < r ==> msgs[j].role != role
  {
    if msgs == [] then 0
    else if msgs[0].role == role then 0
    else 1 + FirstWithRole(msgs[1..], role)
  }

  /** `next((m["content"] for m in msgs if m["role"] == role), "")`. */
  function FirstContent(msgs: seq<Message>, role: string): string
  {
    var k := FirstWithRole(msgs, role);
    if k < |msgs| then msgs[k].content else ""
  }

  /** The two-message example every builder and refiner output has. */
  function Pair(user: string, assistant: string): Example
  {
    Chat([Message("user", user), Message("assistant", assistant)])
  }

  /** The first user and first assistant contents of a pair are its two halves. */
  lemma PairContents(user: string, assistant: string)
    ensures FirstContent(Pair(user, assistant).messages, "user") == user
    ensures FirstContent(Pair(user, assistant).messages, "assistant") == assistant
  {
    var msgs := Pair(user, assistant).messages;
    assert msgs[0].role == "user" && msgs[1].role == "assistant";
    assert msgs[0].role != "assistant" by {
      assert "user"[0] != "assistant"[0];
    }
  }
}
