/**
 * The stop condition of the group chat: stop once the chat holds at least
 * as many messages as the roster has agents and the last message is by
 * the last agent of the roster.
 */
module Termination {
  import opened Wrappers
  import opened Chat

  /**
   * The strategy object: the roster (agent names, in order) it captures
   * when constructed. The roster is an immutable value, so nothing the
   * strategy does afterwards can change it.
   */
  datatype TerminationStrategy = TerminationStrategy(agents: seq<string>)

  /** `self._agents[-1]` on an empty roster. */
  datatype TerminationError = IndexError

  /**
   * `should_terminate`. With a non-empty chat and an empty roster the
   * length test passes and indexing the last agent fails.
   */
  function ShouldTerminate(strategy: TerminationStrategy, messages: seq<Msg>): (r: Result<bool, TerminationError>)
    ensures r.Failure? <==> messages != [] && strategy.agents == []
    ensures r == Success(true) <==>
      && messages != []
      && strategy.agents != []
      && |messages| >= |strategy.agents|
      && Last(messages).name == Some(Last(strategy.agents))
  {
    if messages == [] then Success(false)
    else if |messages| >= |strategy.agents| then
      var lastMessage := messages[|messages| - 1];
      if strategy.agents == [] then Failure(IndexError)
      else Success(lastMessage.name == Some(strategy.agents[|strategy.agents| - 1]))
    else Success(false)
  }

  lemma EmptyChatNeverTerminates(strategy: TerminationStrategy)
    ensures ShouldTerminate(strategy, []) == Success(false)
  {
  }

  /** A chat shorter than the roster never terminates, whatever it holds. */
  lemma ShortChatNeverTerminates(strategy: TerminationStrategy, messages: seq<Msg>)
    requires |messages| < |strategy.agents|
    ensures ShouldTerminate(strategy, messages) == Success(false)
  {
  }

  lemma LastRosterAgentTerminates(strategy: TerminationStrategy, messages: seq<Msg>)
    requires messages != [] && strategy.agents != []
    requires |messages| >= |strategy.agents|
    requires Last(messages).name == Some(Last(strategy.agents))
    ensures ShouldTerminate(strategy, messages) == Success(true)
  {
  }

  /**
   * The decision is a function of the message count and the last author
   * name alone: contents and earlier authors never matter.
   */
  lemma TerminationDependsOnlyOnCountAndLastName(strategy: TerminationStrategy, m1: seq<Msg>, m2: seq<Msg>)
    requires |m1| == |m2|
    requires m1 != [] ==> Last(m1).name == Last(m2).name
    ensures ShouldTerminate(strategy, m1) == ShouldTerminate(strategy, m2)
  {
  }
}
