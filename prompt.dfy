/**
 * The request to the completion service: a fixed system message followed by
 * the conversation, and the reply taken from the response or a fallback text.
 */
module Prompt {

  import opened Wrappers
  import opened Messages

  /**
   * The reply used whenever the completion request fails, written in short
   * pieces so that its characters can be inspected one piece at a time.
   */
  const FallbackReply := "I'm having " + "trouble " + "processing " + "that right " +
                         "now. Could " + "you please " + "try again?"

  // The fallback reply holds neither the letter "f" nor the letter "k", in
  // either case; one character per lemma keeps each search small.

  lemma FallbackReplyLacksSmallF() ensures 'f' !in FallbackReply { }

  lemma FallbackReplyLacksCapitalF() ensures 'F' !in FallbackReply { }

  lemma FallbackReplyLacksSmallK() ensures 'k' !in FallbackReply { }

  lemma FallbackReplyLacksCapitalK() ensures 'K' !in FallbackReply { }

  /** The message list of the request: the system message, then the conversation in order. */
  function BuildPrompt(clinicContext: string, messages: seq<Message>): (prompt: seq<Message>)
    ensures |prompt| == |messages| + 1
    ensures prompt[0] == Message(System, clinicContext)
    ensures forall i :: 0 <= i < |messages| ==> prompt[i + 1] == messages[i]
  {
    [Message(System, clinicContext)] + messages
  }

  /**
   * `getGroqResponse`: `complete` stands for the HTTP call and yields the
   * reply content, or `None` for any failure, which becomes the fallback reply.
   */
  function GroqResponse(clinicContext: string, messages: seq<Message>,
                        complete: seq<Message> -> Option<string>): (reply: string)
    ensures complete(BuildPrompt(clinicContext, messages)).None? ==> reply == FallbackReply
    ensures complete(BuildPrompt(clinicContext, messages)).Some? ==>
              reply == complete(BuildPrompt(clinicContext, messages)).value
  {
    match complete(BuildPrompt(clinicContext, messages))
    case Some(content) => content
    case None => FallbackReply
  }

  /**
   * For a conversation of alternating turns, the system message is the
   * prompt's first message and no other message of the prompt is one.
   */
  lemma OnlyFirstIsSystem(clinicContext: string, messages: seq<Message>)
    requires forall i :: 0 <= i < |messages| ==> messages[i].role == TurnRole(i)
    ensures var prompt := BuildPrompt(clinicContext, messages);
      forall i :: 0 <= i < |prompt| ==> (prompt[i].role == System <==> i == 0)
  {
    var prompt := BuildPrompt(clinicContext, messages);
    forall i | 0 < i < |prompt| ensures prompt[i].role != System {
      assert prompt[i] == messages[i - 1];
    }
  }
}
