/**
 * The /ask and /fight slash-command handlers, seen as the sequence of actions each
 * takes on its interaction: the deferred "thinking" acknowledgment, then every message
 * it sends, each tagged with where it goes. The generation call is an input: either
 * the text it returned or the text of the exception it raised.
 */
module Handlers {
  import opened Substring
  import opened Chunking
  import opened Replies

  /** Where a message is sent: the interaction's follow-up, or a plain message in its channel. */
  datatype Destination = FollowUp | Channel

  /** One action on the interaction, in the order the handler performs them. */
  datatype Event = Deferred | Sent(dest: Destination, text: string)

  /** What the generation step produced: the response text, or the text of the exception it raised. */
  datatype Outcome = Generated(text: string) | Raised(error: string)

  /**
   * The messages a handler sends, in order. An empty (falsy) reply is replaced by the
   * command's fallback; /ask relays its reply whole; /fight relays the chunks of its reply;
   * a caught exception yields the one error reply.
   */
  function Messages(cmd: Command, outcome: Outcome): (messages: seq<string>) {
    match outcome
    case Raised(error) => [ErrorReply(cmd, error)]
    case Generated(text) =>
      if text == [] then [Fallback(cmd)]
      else if cmd.Ask? then [text]
      else Chunks(text, CharLimit)
  }

  /** Plain channel messages, one per text, in order. */
  function ChannelSends(texts: seq<string>): (sends: seq<Event>) {
    seq(|texts|, k requires 0 <= k < |texts| => Sent(Channel, texts[k]))
  }

  /** The first message goes out as the interaction's follow-up, every later one to the channel. */
  function Deliver(messages: seq<string>): (sends: seq<Event>) {
    if messages == [] then [] else [Sent(FollowUp, messages[0])] + ChannelSends(messages[1..])
  }

  /** Everything a handler does: defer first, then deliver its messages. */
  function Trace(cmd: Command, outcome: Outcome): (trace: seq<Event>) {
    [Deferred] + Deliver(Messages(cmd, outcome))
  }

  /** The texts of the messages in a trace, in the order they were sent. */
  function SentTexts(trace: seq<Event>): (texts: seq<string>) {
    if trace == [] then []
    else (if trace[0].Sent? then [trace[0].text] else []) + SentTexts(trace[1..])
  }

  /**
   * The shape every handler run has: one deferral first, then exactly one follow-up,
   * then only channel messages.
   */
  ghost predicate FollowUpThenChannel(trace: seq<Event>) {
    && |trace| >= 2
    && trace[0] == Deferred
    && trace[1].Sent? && trace[1].dest == FollowUp
    && forall k :: 2 <= k < |trace| ==> trace[k].Sent? && trace[k].dest == Channel
  }

  /** /ask: defer, then send the reply as one follow-up, or the fallback, or the error reply. */
  method HandleAsk(outcome: Outcome) returns (trace: seq<Event>)
    ensures trace == Trace(Ask, outcome)
  {
    trace := [Deferred];
    var reply;
    match outcome {
      case Generated(text) =>
        if text != [] {
          reply := text;
        } else {
          reply := Fallback(Ask);
        }
      case Raised(error) =>
        reply := ErrorReply(Ask, error);
    }
    trace := trace + [Sent(FollowUp, reply)];
    SingleMessage(Ask, outcome);
  }

  /**
   * /fight: defer; a reply within the limit goes out whole as the follow-up; a longer one
   * is chunked, its first chunk sent as the follow-up and each later chunk, in order, to
   * the channel. An empty reply sends the fallback naming both characters; an exception
   * sends the error reply.
   */
  method HandleFight(character1: string, character2: string, outcome: Outcome) returns (trace: seq<Event>)
    ensures trace == Trace(Fight(character1, character2), outcome)
  {
    var cmd := Fight(character1, character2);
    trace := [Deferred];
    match outcome {
      case Generated(text) =>
        if text != [] {
          ChunkCount(text, CharLimit);
          if |text| <= CharLimit {
            trace := trace + [Sent(FollowUp, text)];
            SingleChunk(text, CharLimit);
          } else {
            var chunks := Chunks(text, CharLimit);
            trace := trace + [Sent(FollowUp, chunks[0])];
            for i := 1 to |chunks|
              invariant trace == [Deferred, Sent(FollowUp, chunks[0])] + ChannelSends(chunks[1..i])
            {
              ChannelSendsStep(chunks, i);
              trace := trace + [Sent(Channel, chunks[i])];
            }
            assert chunks[1..|chunks|] == chunks[1..];
          }
        } else {
          trace := trace + [Sent(FollowUp, Fallback(cmd))];
        }
      case Raised(error) =>
        trace := trace + [Sent(FollowUp, ErrorReply(cmd, error))];
    }
    TraceUnfold(cmd, outcome);
  }

  /** A run is the deferral, the first message as the follow-up, then the rest to the channel. */
  lemma TraceUnfold(cmd: Command, outcome: Outcome)
    requires Messages(cmd, outcome) != []
    ensures Trace(cmd, outcome) ==
      [Deferred, Sent(FollowUp, Messages(cmd, outcome)[0])] + ChannelSends(Messages(cmd, outcome)[1..])
  {
  }

  /** A run with a single message is the deferral followed by that message as the follow-up. */
  lemma SingleMessage(cmd: Command, outcome: Outcome)
    requires |Messages(cmd, outcome)| == 1
    ensures Trace(cmd, outcome) == [Deferred, Sent(FollowUp, Messages(cmd, outcome)[0])]
  {
    var messages := Messages(cmd, outcome);
    assert messages[1..] == [];
    assert Deliver(messages) == [Sent(FollowUp, messages[0])];
  }

  /** Sending one more text to the channel extends the channel sends by one event. */
  lemma ChannelSendsStep(texts: seq<string>, i: nat)
    requires 1 <= i < |texts|
    ensures ChannelSends(texts[1..i + 1]) == ChannelSends(texts[1..i]) + [Sent(Channel, texts[i])]
  {
    assert texts[1..i + 1] == texts[1..i] + [texts[i]];
  }

  /** The delivery sends one event per message: the first to the follow-up, the rest to the channel. */
  lemma DeliverOrder(messages: seq<string>)
    ensures |Deliver(messages)| == |messages|
    ensures forall k :: 0 <= k < |messages| ==>
      Deliver(messages)[k] == Sent(if k == 0 then FollowUp else Channel, messages[k])
  {
    if messages != [] {
      var rest := ChannelSends(messages[1..]);
      assert Deliver(messages) == [Sent(FollowUp, messages[0])] + rest;
      forall k | 1 <= k < |messages|
        ensures Deliver(messages)[k] == Sent(Channel, messages[k])
      {
        assert Deliver(messages)[k] == rest[k - 1];
      }
    }
  }

  /** Channel sends carry exactly the given texts, in order. */
  lemma {:induction false} ChannelSendsTexts(texts: seq<string>)
    ensures SentTexts(ChannelSends(texts)) == texts
    decreases |texts|
  {
    if texts != [] {
      assert ChannelSends(texts)[1..] == ChannelSends(texts[1..]);
      ChannelSendsTexts(texts[1..]);
    }
  }

  /** The messages a run sends are exactly the handler's messages, in order. */
  lemma TraceTexts(cmd: Command, outcome: Outcome)
    ensures SentTexts(Trace(cmd, outcome)) == Messages(cmd, outcome)
  {
    var messages := Messages(cmd, outcome);
    var trace := Trace(cmd, outcome);
    assert trace[1..] == Deliver(messages);
    if messages != [] {
      assert Deliver(messages)[1..] == ChannelSends(messages[1..]);
      ChannelSendsTexts(messages[1..]);
    }
  }

  /** A /fight reply within the limit is sent once, unchanged, as the follow-up. */
  lemma FightShortReply(character1: string, character2: string, text: string)
    requires 0 < |text| <= CharLimit
    ensures Trace(Fight(character1, character2), Generated(text)) == [Deferred, Sent(FollowUp, text)]
  {
    SingleChunk(text, CharLimit);
  }

  /**
   * A /fight reply over the limit is sent as its chunks, at least two, in slice order:
   * the first chunk as the follow-up and every later chunk to the channel, one send per chunk.
   */
  lemma FightLongReply(character1: string, character2: string, text: string)
    requires |text| > CharLimit
    ensures var chunks := Chunks(text, CharLimit);
      var trace := Trace(Fight(character1, character2), Generated(text));
      && |chunks| >= 2
      && |trace| == |chunks| + 1
      && trace[0] == Deferred
      && trace[1] == Sent(FollowUp, chunks[0])
      && forall k :: 1 <= k < |chunks| ==> trace[k + 1] == Sent(Channel, chunks[k])
  {
    var chunks := Chunks(text, CharLimit);
    ChunkCount(text, CharLimit);
    var trace := Trace(Fight(character1, character2), Generated(text));
    assert trace == [Deferred] + Deliver(chunks);
    DeliverOrder(chunks);
    forall k | 1 <= k < |chunks|
      ensures trace[k + 1] == Sent(Channel, chunks[k])
    {
      assert trace[k + 1] == Deliver(chunks)[k];
    }
  }

  /**
   * Whatever its length, a non-empty /fight reply is delivered in full: the sent texts
   * concatenate to the reply, each is non-empty and at most 1950 characters long, and all
   * but the last are exactly 1950 characters long.
   */
  lemma FightReplyReassembles(character1: string, character2: string, text: string)
    requires text != []
    ensures var sent := SentTexts(Trace(Fight(character1, character2), Generated(text)));
      && Concat(sent) == text
      && (forall k :: 0 <= k < |sent| ==> 0 < |sent[k]| <= CharLimit)
      && (forall k :: 0 <= k < |sent| - 1 ==> |sent[k]| == CharLimit)
  {
    TraceTexts(Fight(character1, character2), Generated(text));
    ChunksReassemble(text, CharLimit);
    ChunksBounded(text, CharLimit);
  }

  /** /ask relays a non-empty reply as a single follow-up, unsplit, whatever its length. */
  lemma AskReplyUnsplit(text: string)
    requires text != []
    ensures Trace(Ask, Generated(text)) == [Deferred, Sent(FollowUp, text)]
  {
    SingleMessage(Ask, Generated(text));
  }

  /** An empty reply produces exactly one follow-up, carrying the command's fallback. */
  lemma EmptyReplyFallback(cmd: Command)
    ensures Trace(cmd, Generated([])) == [Deferred, Sent(FollowUp, Fallback(cmd))]
    ensures cmd.Fight? ==> Occurs(cmd.character1, Fallback(cmd)) && Occurs(cmd.character2, Fallback(cmd))
  {
    SingleMessage(cmd, Generated([]));
    if cmd.Fight? {
      FightFallbackNamesBoth(cmd.character1, cmd.character2);
    }
  }

  /**
   * A caught exception produces exactly one follow-up: the command's cooldown notice if the
   * exception's text contains "429", the shared apology otherwise.
   */
  lemma ErrorSendsOneFollowUp(cmd: Command, error: string)
    ensures Occurs(RateLimitCode, error) ==>
      Trace(cmd, Raised(error)) == [Deferred, Sent(FollowUp, RateLimitNotice(cmd))]
    ensures !Occurs(RateLimitCode, error) ==>
      Trace(cmd, Raised(error)) == [Deferred, Sent(FollowUp, Apology)]
  {
    SingleMessage(cmd, Raised(error));
  }

  /**
   * Every run defers once, first, then sends exactly one follow-up, then only channel
   * messages; channel messages appear exactly when /fight relays a reply over the limit.
   */
  lemma TraceShape(cmd: Command, outcome: Outcome)
    ensures FollowUpThenChannel(Trace(cmd, outcome))
    ensures |Trace(cmd, outcome)| > 2 <==>
      cmd.Fight? && outcome.Generated? && |outcome.text| > CharLimit
  {
    var messages := Messages(cmd, outcome);
    if outcome.Generated? && outcome.text != [] && cmd.Fight? {
      ChunkCount(outcome.text, CharLimit);
      if |outcome.text| <= CharLimit {
        SingleChunk(outcome.text, CharLimit);
      }
    }
    DeliverOrder(messages);
  }
}
