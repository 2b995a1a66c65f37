/**
 * The registry of text conversations, keyed by the sender's address, and the
 * exchange that the SMS and WhatsApp handlers perform on it.
 */
module Conversations {

  import opened Wrappers
  import opened Messages
  import Prompt
  import Booking

  /** `activeConversations.get(sender) || { messages: [] }`: the sender's messages, or none yet. */
  function MessagesOf(conversations: map<string, seq<Message>>, sender: string): (r: seq<Message>)
    ensures sender in conversations ==> r == conversations[sender]
    ensures sender !in conversations ==> r == []
  {
    if sender in conversations then conversations[sender] else []
  }

  /**
   * The registry after one exchange with `sender`: that sender's messages
   * extended by the user turn and the assistant turn, every other entry as before.
   */
  function AfterExchange(conversations: map<string, seq<Message>>, sender: string,
                         incoming: string, reply: string): (r: map<string, seq<Message>>)
    ensures r.Keys == conversations.Keys + {sender}
    ensures forall other :: other in conversations && other != sender ==> r[other] == conversations[other]
    ensures var before := MessagesOf(conversations, sender);
      |r[sender]| == |before| + 2 &&
      r[sender][..|before|] == before &&
      r[sender][|before|] == Message(User, incoming) &&
      r[sender][|before| + 1] == Message(Assistant, reply)
  {
    conversations[sender := MessagesOf(conversations, sender) + [Message(User, incoming), Message(Assistant, reply)]]
  }

  /** A sender seen for the first time starts from an empty conversation. */
  lemma FirstExchange(conversations: map<string, seq<Message>>, sender: string, incoming: string, reply: string)
    requires sender !in conversations
    ensures AfterExchange(conversations, sender, incoming, reply)[sender] ==
              [Message(User, incoming), Message(Assistant, reply)]
  {
    var r := AfterExchange(conversations, sender, incoming, reply)[sender];
    assert |r| == 2;
  }

  /** An exchange keeps a conversation's turns alternating. */
  lemma ExchangeKeepsAlternation(conversations: map<string, seq<Message>>, sender: string,
                                 incoming: string, reply: string)
    requires Alternating(MessagesOf(conversations, sender))
    ensures Alternating(AfterExchange(conversations, sender, incoming, reply)[sender])
  {
    var before := MessagesOf(conversations, sender);
    var after := AfterExchange(conversations, sender, incoming, reply)[sender];
    forall i | 0 <= i < |after| ensures after[i].role == TurnRole(i) {
      if i < |before| {
        assert after[i] == after[..|before|][i];
      }
    }
  }

  /** An exchange keeps every stored conversation alternating. */
  lemma ExchangeKeepsRegistryAlternating(conversations: map<string, seq<Message>>, sender: string,
                                         incoming: string, reply: string)
    requires forall s :: s in conversations ==> Alternating(conversations[s])
    ensures var after := AfterExchange(conversations, sender, incoming, reply);
      forall s :: s in after ==> Alternating(after[s])
  {
    ExchangeKeepsAlternation(conversations, sender, incoming, reply);
  }

  /**
   * A failed completion request still completes the exchange: the reply is
   * the fallback text, the sender's conversation grows by the user turn and
   * a fallback assistant turn, and no booking is triggered.
   */
  lemma FailedCompletionFallsBack(conversations: map<string, seq<Message>>, sender: string, incoming: string,
                                  clinicContext: string, complete: seq<Message> -> Option<string>)
    requires complete(Prompt.BuildPrompt(clinicContext,
               MessagesOf(conversations, sender) + [Message(User, incoming)])).None?
    ensures var reply := Prompt.GroqResponse(clinicContext,
              MessagesOf(conversations, sender) + [Message(User, incoming)], complete);
      var after := AfterExchange(conversations, sender, incoming, reply)[sender];
      reply == Prompt.FallbackReply &&
      |after| == |MessagesOf(conversations, sender)| + 2 &&
      after[|after| - 1] == Message(Assistant, Prompt.FallbackReply) &&
      !Booking.IsBookingReply(reply)
  {
    Prompt.FallbackReplyLacksSmallF();
    Prompt.FallbackReplyLacksCapitalF();
    Prompt.FallbackReplyLacksSmallK();
    Prompt.FallbackReplyLacksCapitalK();
    Booking.NoTriggerWithoutFOrK(Prompt.FallbackReply);
  }

  /** One inbound text message: who sent it, what it said, and the reply it received. */
  datatype Exchange = Exchange(sender: string, incoming: string, reply: string)

  /** The registry after a run of exchanges, from the empty registry at startup. */
  function Replay(exchanges: seq<Exchange>): map<string, seq<Message>>
  {
    if exchanges == [] then map[]
    else
      var last := exchanges[|exchanges| - 1];
      AfterExchange(Replay(exchanges[..|exchanges| - 1]), last.sender, last.incoming, last.reply)
  }

  /** The number of exchanges with `sender`. */
  function CountFrom(exchanges: seq<Exchange>, sender: string): nat {
    if exchanges == [] then 0
    else CountFrom(exchanges[..|exchanges| - 1], sender) +
         (if exchanges[|exchanges| - 1].sender == sender then 1 else 0)
  }

  /**
   * After any run of exchanges from startup, every sender's conversation
   * alternates user and assistant turns and holds two messages per exchange
   * with that sender; senders without exchanges have no entry.
   */
  lemma {:induction false} ReplayAlternates(exchanges: seq<Exchange>)
    ensures forall sender :: |MessagesOf(Replay(exchanges), sender)| == 2 * CountFrom(exchanges, sender)
    ensures forall sender :: sender in Replay(exchanges) ==> Alternating(Replay(exchanges)[sender])
    ensures forall sender :: sender in Replay(exchanges) <==> CountFrom(exchanges, sender) > 0
  {
    if exchanges != [] {
      var prefix := exchanges[..|exchanges| - 1];
      var last := exchanges[|exchanges| - 1];
      ReplayAlternates(prefix);
      var before := Replay(prefix);
      var after := Replay(exchanges);
      assert after == AfterExchange(before, last.sender, last.incoming, last.reply);
      ExchangeKeepsRegistryAlternating(before, last.sender, last.incoming, last.reply);
      forall sender
        ensures |MessagesOf(after, sender)| == 2 * CountFrom(exchanges, sender)
        ensures sender in after <==> CountFrom(exchanges, sender) > 0
      {
        assert CountFrom(exchanges, sender) ==
               CountFrom(prefix, sender) + (if last.sender == sender then 1 else 0);
        if sender != last.sender {
          assert MessagesOf(after, sender) == MessagesOf(before, sender);
        }
      }
    }
  }

  /** The conversation registry: `activeConversations` and the system prompt text. */
  class Registry {

    var conversations: map<string, seq<Message>>
    const clinicContext: string

    /** Every stored conversation alternates user and assistant turns. */
    ghost predicate Valid()
      reads this
    {
      forall sender :: sender in conversations ==> Alternating(conversations[sender])
    }

    /** Startup: no conversation yet. */
    constructor (clinicContext: string)
      ensures Valid()
      ensures conversations == map[] && this.clinicContext == clinicContext
    {
      conversations := map[];
      this.clinicContext := clinicContext;
    }

    /**
     * The shared body of the `/sms` and `/whatsapp` handlers: get or create
     * the sender's conversation, append the user turn, ask for a reply,
     * append the assistant turn, store the conversation, and on a booking
     * reply build the appointment record. `complete` stands for the
     * completion service and `now`, `createdAt` for the two clock reads.
     */
    method HandleMessage(sender: string, incoming: string, complete: seq<Message> -> Option<string>,
                         now: string, createdAt: string)
      returns (reply: string, saved: Option<Booking.AppointmentRecord>)
      requires Valid()
      modifies this
      ensures Valid()
      ensures reply == Prompt.GroqResponse(clinicContext,
                         MessagesOf(old(conversations), sender) + [Message(User, incoming)], complete)
      ensures conversations == AfterExchange(old(conversations), sender, incoming, reply)
      ensures saved.Some? <==> Booking.IsBookingReply(reply)
      ensures saved.Some? ==> saved.value == Booking.SavedRecord(sender, conversations[sender], now, createdAt)
    {
      var messages := if sender in conversations then conversations[sender] else [];
      ghost var before := conversations;
      messages := messages + [Message(User, incoming)];
      reply := Prompt.GroqResponse(clinicContext, messages, complete);
      messages := messages + [Message(Assistant, reply)];
      assert messages == MessagesOf(before, sender) + [Message(User, incoming), Message(Assistant, reply)];
      conversations := conversations[sender := messages];
      assert conversations == AfterExchange(before, sender, incoming, reply);
      ExchangeKeepsRegistryAlternating(before, sender, incoming, reply);
      if Booking.IsBookingReply(reply) {
        var record := Booking.SaveAppointment(sender, messages, now, createdAt);
        saved := Some(record);
      } else {
        saved := None;
      }
    }
  }
}
