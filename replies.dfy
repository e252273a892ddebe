/**
 * The fixed texts the bot answers with when it has no generated reply to relay:
 * the per-command fallback for an empty reply, and the error reply chosen by
 * looking for the rate-limit code "429" in the text of the caught exception.
 */
module Replies {
  import opened Substring

  /** The slash commands whose replies are modelled, with the arguments the replies mention. */
  datatype Command = Ask | Fight(character1: string, character2: string)

  /** The two kinds of failure the handlers tell apart. */
  datatype ErrorKind = RateLimited | Generic

  /** The marker of a rate-limit error in the exception's text. */
  const RateLimitCode: string := "429"

  /** The apology shared by both commands for every other error; it ends with U+1F614 (pensive face). */
  const Apology: string := "I am sorry. My oath has been taken away \U{1F614}"

  /** The cooldown notices of /ask and /fight. */
  const AskRateLimitNotice: string := "Ask me after a minute. I can look into only two places in a minute"
  const FightRateLimitNotice: string := "Ask me after a minute. You're pitting characters against each other too fast!"

  /** The cooldown notice each command sends when it was rate-limited. */
  function RateLimitNotice(cmd: Command): (notice: string) {
    match cmd
    case Ask => AskRateLimitNotice
    case Fight(_, _) => FightRateLimitNotice
  }

  /** The /ask fallback for an empty generated reply. */
  const AskFallback: string :=
    "I'm sorry, I couldn't come up with an answer for that. Please try rephrasing your question."

  /** The text each command sends in place of an empty generated reply. */
  function Fallback(cmd: Command): (fallback: string) {
    match cmd
    case Ask => AskFallback
    case Fight(character1, character2) =>
      "I'm sorry, I couldn't seem to simulate a battle between " + character1 + " and " + character2
      + ". Perhaps they are too evenly matched?"
  }

  /** `"429" in str(e)`: an error is a rate limit exactly when its text contains the code. */
  function Classify(error: string): (kind: ErrorKind)
    ensures kind == RateLimited <==> Occurs(RateLimitCode, error)
    ensures kind == Generic <==> !Occurs(RateLimitCode, error)
  {
    ContainsIffOccurs(error, RateLimitCode);
    if Contains(error, RateLimitCode) then RateLimited else Generic
  }

  /**
   * The one message sent for a caught exception: the command's cooldown notice when the
   * error text contains "429", the shared apology otherwise. The two are different texts,
   * so the message alone tells which branch was taken; the error text itself is never relayed.
   */
  function ErrorReply(cmd: Command, error: string): (reply: string)
    ensures reply == RateLimitNotice(cmd) <==> Occurs(RateLimitCode, error)
    ensures reply == Apology <==> !Occurs(RateLimitCode, error)
  {
    match Classify(error)
    case RateLimited => RateLimitNotice(cmd)
    case Generic => Apology
  }

  /** The exception text "429 Too Many Requests" selects the cooldown notice. */
  lemma TooManyRequestsIsRateLimited(cmd: Command)
    ensures ErrorReply(cmd, "429 Too Many Requests") == RateLimitNotice(cmd)
  {
    assert OccursAt(RateLimitCode, "429 Too Many Requests", 0);
  }

  /** The /fight fallback names both characters. */
  lemma FightFallbackNamesBoth(character1: string, character2: string)
    ensures Occurs(character1, Fallback(Fight(character1, character2)))
    ensures Occurs(character2, Fallback(Fight(character1, character2)))
  {
    var before := "I'm sorry, I couldn't seem to simulate a battle between ";
    var between := " and ";
    var after := ". Perhaps they are too evenly matched?";
    var reply := Fallback(Fight(character1, character2));
    assert reply == before + character1 + between + character2 + after;
    var i1, i2 := |before|, |before| + |character1| + |between|;
    assert reply[i1..i1 + |character1|] == character1;
    assert OccursAt(character1, reply, i1);
    assert reply[i2..i2 + |character2|] == character2;
    assert OccursAt(character2, reply, i2);
  }
}
