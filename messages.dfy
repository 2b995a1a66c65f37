/** Chat messages as the completion API receives them: a role and a text content. */
module Messages {

  datatype Role = System | User | Assistant

  datatype Message = Message(role: Role, content: string)

  /** The contents of the messages, in order (`messages.map(m => m.content)`). */
  function Contents(messages: seq<Message>): (r: seq<string>)
    ensures |r| == |messages|
    ensures forall i :: 0 <= i < |messages| ==> r[i] == messages[i].content
  {
    if messages == [] then [] else [messages[0].content] + Contents(messages[1..])
  }

  /** The role that the turn at position `i` of a conversation has. */
  function TurnRole(i: nat): Role {
    if i % 2 == 0 then User else Assistant
  }

  /** User and assistant turns alternate, starting with a user turn, and come in pairs. */
  predicate Alternating(messages: seq<Message>) {
    |messages| % 2 == 0 &&
    forall i :: 0 <= i < |messages| ==> messages[i].role == TurnRole(i)
  }
}
