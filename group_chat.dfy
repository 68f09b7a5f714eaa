/**
 * The group-chat loop that drives the two strategies. The loop itself
 * belongs to the agent framework and is not part of this repository; it is
 * modelled under an explicit assumption: on every turn the selection
 * strategy picks an agent from the current chat, that agent's reply is
 * appended under its name, and the termination strategy (built over the
 * same roster) is then asked about the extended chat. The agents' replies
 * are opaque and given as a sequence; running out of replies stands for the
 * framework's iteration cap.
 */
module GroupChat {
  import opened Wrappers
  import opened Chat
  import opened Selection
  import opened Termination

  datatype RunError = SelectionFailed(select: SelectError) | TerminationFailed(stop: TerminationError)

  /** The chat at the end of a run and whether the termination strategy stopped it. */
  datatype Outcome = Outcome(history: seq<Msg>, terminated: bool)

  /** One turn: select a speaker and append its reply under its name. */
  function Turn(roster: seq<string>, history: seq<Msg>, reply: string): (r: Result<seq<Msg>, RunError>)
    ensures r.Success? <==> TargetName(history) in roster
    ensures r.Success? ==> r.value == history + [Msg(Some(TargetName(history)), reply)]
  {
    match SelectNextAgent(roster, history)
    case Failure(e) => Failure(SelectionFailed(e))
    case Success(i) => Success(history + [Msg(Some(roster[i]), reply)])
  }

  function Run(roster: seq<string>, history: seq<Msg>, replies: seq<string>): (r: Result<Outcome, RunError>)
    ensures r.Success? ==> |history| <= |r.value.history| <= |history| + |replies|
    ensures r.Success? ==> r.value.history[..|history|] == history
    ensures r.Success? && r.value.terminated ==>
      ShouldTerminate(TerminationStrategy(roster), r.value.history) == Success(true)
    ensures r.Success? && !r.value.terminated ==> |r.value.history| == |history| + |replies|
    // A turn that succeeds leaves a non-empty roster, so termination itself never fails.
    ensures r.Failure? ==> r.error.SelectionFailed?
    decreases |replies|
  {
    if replies == [] then Success(Outcome(history, false))
    else
      var h :- Turn(roster, history, replies[0]);
      match ShouldTerminate(TerminationStrategy(roster), h)
      case Failure(e) => Failure(TerminationFailed(e))
      case Success(stop) =>
        if stop then Success(Outcome(h, true))
        else
          var r := Run(roster, h, replies[1..]);
          assert r.Success? ==> r.value.history[..|history|] == r.value.history[..|h|][..|history|];
          r
  }

  /**
   * One turn of a run whose selection succeeds: the chosen agent's reply is
   * appended, then the run stops if the termination strategy says so and
   * goes on with the remaining replies otherwise.
   */
  lemma RunTakesOneTurn(roster: seq<string>, history: seq<Msg>, replies: seq<string>)
    requires replies != [] && TargetName(history) in roster
    ensures var h := history + [Msg(Some(TargetName(history)), replies[0])];
      && ShouldTerminate(TerminationStrategy(roster), h).Success?
      && Run(roster, history, replies) ==
         if ShouldTerminate(TerminationStrategy(roster), h) == Success(true) then Success(Outcome(h, true))
         else Run(roster, h, replies[1..])
  {
    var h := history + [Msg(Some(TargetName(history)), replies[0])];
    assert Turn(roster, history, replies[0]) == Success(h);
  }

  /** A turn after which the termination strategy says "continue". */
  lemma RunContinuesAfterTurn(roster: seq<string>, history: seq<Msg>, replies: seq<string>, h: seq<Msg>)
    requires replies != [] && TargetName(history) in roster
    requires h == history + [Msg(Some(TargetName(history)), replies[0])]
    requires ShouldTerminate(TerminationStrategy(roster), h) == Success(false)
    ensures Run(roster, history, replies) == Run(roster, h, replies[1..])
  {
    RunTakesOneTurn(roster, history, replies);
  }

  /** A turn after which the termination strategy says "stop". */
  lemma RunStopsAfterTurn(roster: seq<string>, history: seq<Msg>, replies: seq<string>, h: seq<Msg>)
    requires replies != [] && TargetName(history) in roster
    requires h == history + [Msg(Some(TargetName(history)), replies[0])]
    requires ShouldTerminate(TerminationStrategy(roster), h) == Success(true)
    ensures Run(roster, history, replies) == Success(Outcome(h, true))
  {
    RunTakesOneTurn(roster, history, replies);
  }

  /**
   * The run stops at the first chat the termination strategy accepts:
   * every chat it passed through on the way was judged "continue", and so
   * was its final chat when it ran out of turns.
   */
  lemma {:induction false} RunStopsAtFirstFiring(roster: seq<string>, history: seq<Msg>, replies: seq<string>)
    requires Run(roster, history, replies).Success?
    ensures forall j :: |history| < j < |Run(roster, history, replies).value.history| ==>
      ShouldTerminate(TerminationStrategy(roster), Run(roster, history, replies).value.history[..j]) == Success(false)
    ensures !Run(roster, history, replies).value.terminated && replies != [] ==>
      ShouldTerminate(TerminationStrategy(roster), Run(roster, history, replies).value.history) == Success(false)
    decreases |replies|
  {
    if replies != [] {
      assert SelectNextAgent(roster, history).Success?;
      var strategy := TerminationStrategy(roster);
      var h := history + [Msg(Some(TargetName(history)), replies[0])];
      if ShouldTerminate(strategy, h) == Success(true) {
        RunStopsAfterTurn(roster, history, replies, h);
      } else {
        assert ShouldTerminate(strategy, h) == Success(false);
        RunContinuesAfterTurn(roster, history, replies, h);
        RunStopsAtFirstFiring(roster, h, replies[1..]);
        ContinuedChatsAfterOneTurn(strategy, history, h, Run(roster, h, replies[1..]).value.history);
      }
    }
  }

  /** Extends "every chat passed through was judged continue" back by one turn. */
  lemma ContinuedChatsAfterOneTurn(strategy: TerminationStrategy, history: seq<Msg>, h: seq<Msg>, run: seq<Msg>)
    requires |h| == |history| + 1 && |h| <= |run| && run[..|h|] == h
    requires ShouldTerminate(strategy, h) == Success(false)
    requires forall j :: |h| < j < |run| ==> ShouldTerminate(strategy, run[..j]) == Success(false)
    ensures forall j :: |history| < j < |run| ==> ShouldTerminate(strategy, run[..j]) == Success(false)
  {
  }

  /**
   * The run appends exactly what repeated selection appends, up to the turn
   * at which the termination strategy stops it.
   */
  lemma {:induction false} RunFollowsUnroll(roster: seq<string>, history: seq<Msg>, replies: seq<string>)
    requires Unroll(roster, history, replies).Success?
    ensures Run(roster, history, replies).Success?
    ensures Run(roster, history, replies).value.history ==
      Unroll(roster, history, replies).value[..|Run(roster, history, replies).value.history|]
    decreases |replies|
  {
    if replies != [] {
      assert SelectNextAgent(roster, history).Success?;
      var h := history + [Msg(Some(TargetName(history)), replies[0])];
      RunTakesOneTurn(roster, history, replies);
      UnrollTakesOneTurn(roster, history, replies);
      var u := Unroll(roster, h, replies[1..]).value;
      if ShouldTerminate(TerminationStrategy(roster), h) == Success(true) {
        assert u[..|h|] == h;
      } else {
        RunFollowsUnroll(roster, h, replies[1..]);
      }
    }
  }

  /**
   * With the cast on the roster, the run's speakers follow the cycle
   * Creation, Validation, User, ... from wherever the table points.
   */
  lemma RunFollowsCycle(roster: seq<string>, history: seq<Msg>, replies: seq<string>, k: nat)
    requires HasCast(roster)
    requires TargetName(history) == RoleName(CycleRole(k))
    ensures Run(roster, history, replies).Success?
    ensures forall j :: |history| <= j < |Run(roster, history, replies).value.history| ==>
      Run(roster, history, replies).value.history[j] == Msg(Some(RoleName(CycleRole(k + j - |history|))), replies[j - |history|])
  {
    UnrollFollowsCycle(roster, history, replies, k);
    RunFollowsUnroll(roster, history, replies);
    CyclePrefix(Run(roster, history, replies).value.history, Unroll(roster, history, replies).value, history, replies, k);
  }

  /** A prefix of a cycling run keeps the cycle. */
  lemma CyclePrefix(run: seq<Msg>, u: seq<Msg>, history: seq<Msg>, replies: seq<string>, k: nat)
    requires |history| <= |run| <= |u| == |history| + |replies| && run == u[..|run|]
    requires forall j :: 0 <= j < |replies| ==> u[|history| + j] == Msg(Some(RoleName(CycleRole(k + j))), replies[j])
    ensures forall j :: |history| <= j < |run| ==> run[j] == Msg(Some(RoleName(CycleRole(k + j - |history|))), replies[j - |history|])
  {
    forall j | |history| <= j < |run|
      ensures run[j] == Msg(Some(RoleName(CycleRole(k + j - |history|))), replies[j - |history|])
    {
      var i := j - |history|;
      assert run[j] == u[|history| + i];
    }
  }

  /** The roster as built by the program: Creation, User, Validation. */
  const MainRoster := [CreationAgentName, UserAgentName, ValidationAgentName]

  /** The task is added to the chat without an author name. */
  function Seeded(task: string): (h: seq<Msg>)
    ensures |h| == 1 && h[0].name.None?
  {
    [Msg(None, task)]
  }

  /**
   * The program's run: Creation speaks, then Validation; the chat then has
   * three messages, ends with the last roster agent, and the run stops.
   * With fewer than two turns allowed the run ends at the cap instead.
   */
  lemma MainRunStopsAfterValidation(task: string, replies: seq<string>)
    ensures |replies| >= 2 ==>
      Run(MainRoster, Seeded(task), replies) ==
      Success(Outcome(Seeded(task) + [Msg(Some(CreationAgentName), replies[0])] + [Msg(Some(ValidationAgentName), replies[1])], true))
    ensures |replies| == 1 ==>
      Run(MainRoster, Seeded(task), replies) ==
      Success(Outcome(Seeded(task) + [Msg(Some(CreationAgentName), replies[0])], false))
    ensures replies == [] ==> Run(MainRoster, Seeded(task), replies) == Success(Outcome(Seeded(task), false))
  {
    if |replies| >= 2 {
      MainRunTwoTurns(task, replies);
    } else if |replies| == 1 {
      MainRunOneTurn(task, replies);
    }
  }

  lemma MainRunOneTurn(task: string, replies: seq<string>)
    requires |replies| == 1
    ensures Run(MainRoster, Seeded(task), replies) ==
      Success(Outcome(Seeded(task) + [Msg(Some(CreationAgentName), replies[0])], false))
  {
    var h1 := Seeded(task) + [Msg(Some(CreationAgentName), replies[0])];
    MainFirstTurnContinues(task, replies[0]);
    RunContinuesAfterTurn(MainRoster, Seeded(task), replies, h1);
    assert replies[1..] == [];
  }

  lemma MainRunTwoTurns(task: string, replies: seq<string>)
    requires |replies| >= 2
    ensures Run(MainRoster, Seeded(task), replies) ==
      Success(Outcome(Seeded(task) + [Msg(Some(CreationAgentName), replies[0])] + [Msg(Some(ValidationAgentName), replies[1])], true))
  {
    var h1 := Seeded(task) + [Msg(Some(CreationAgentName), replies[0])];
    var h2 := h1 + [Msg(Some(ValidationAgentName), replies[1])];
    MainFirstTurnContinues(task, replies[0]);
    RunContinuesAfterTurn(MainRoster, Seeded(task), replies, h1);
    MainSecondTurnStops(task, replies[0], replies[1]);
    RunStopsAfterTurn(MainRoster, h1, replies[1..], h2);
  }

  lemma MainFirstTurnContinues(task: string, reply: string)
    ensures TargetName(Seeded(task)) == CreationAgentName && CreationAgentName in MainRoster
    ensures ShouldTerminate(TerminationStrategy(MainRoster), Seeded(task) + [Msg(Some(CreationAgentName), reply)]) == Success(false)
  {
  }

  lemma MainSecondTurnStops(task: string, first: string, second: string)
    ensures TargetName(Seeded(task) + [Msg(Some(CreationAgentName), first)]) == ValidationAgentName
    ensures ValidationAgentName in MainRoster
    ensures ShouldTerminate(TerminationStrategy(MainRoster),
      Seeded(task) + [Msg(Some(CreationAgentName), first)] + [Msg(Some(ValidationAgentName), second)]) == Success(true)
  {
    var h := Seeded(task) + [Msg(Some(CreationAgentName), first)] + [Msg(Some(ValidationAgentName), second)];
    assert Last(h).name == Some(Last(MainRoster));
  }

  /** In the program's run the user agent is never selected. */
  lemma MainRunNeverSelectsUser(task: string, replies: seq<string>)
    ensures Run(MainRoster, Seeded(task), replies).Success?
    ensures forall j :: 0 <= j < |Run(MainRoster, Seeded(task), replies).value.history| ==>
      Run(MainRoster, Seeded(task), replies).value.history[j].name != Some(UserAgentName)
  {
    MainRunStopsAfterValidation(task, replies);
  }

  /** How many more cycle steps from the k-th speaker until `role` speaks. */
  function StepsUntil(k: nat, role: Role): (d: nat)
    ensures d <= 2 && CycleRole(k + d) == role
    ensures d > 0 <==> CycleRole(k) != role
  {
    if CycleRole(k) == role then 0
    else if CycleRole(k + 1) == role then 1
    else 2
  }

  lemma StepsUntilAdvances(k: nat, role: Role)
    requires CycleRole(k) != role
    ensures StepsUntil(k + 1, role) == StepsUntil(k, role) - 1
  {
    assert CycleRole(k + 3) == CycleRole(k);
  }

  /** Turns needed before the chat is at least as long as the roster (and at least one). */
  function TurnsToFill(roster: seq<string>, history: seq<Msg>): (n: nat)
    ensures n >= 1 && |history| + n >= |roster|
  {
    if |roster| - |history| >= 1 then |roster| - |history| else 1
  }

  /** Total turns still needed before the run is sure to stop. */
  function TurnsToStop(roster: seq<string>, last: Role, history: seq<Msg>, k: nat): (n: nat)
    ensures n >= 1
  {
    TurnsToFill(roster, history) + StepsUntil(k + TurnsToFill(roster, history) - 1, last)
  }

  /** A turn after which the run does not stop brings the stop one turn closer. */
  lemma TurnBringsStopCloser(roster: seq<string>, last: Role, history: seq<Msg>, k: nat, reply: string)
    requires roster != [] && Last(roster) == RoleName(last)
    requires ShouldTerminate(TerminationStrategy(roster), history + [Msg(Some(RoleName(CycleRole(k))), reply)]) == Success(false)
    ensures TurnsToStop(roster, last, history + [Msg(Some(RoleName(CycleRole(k))), reply)], k + 1) ==
      TurnsToStop(roster, last, history, k) - 1
  {
    var h := history + [Msg(Some(RoleName(CycleRole(k))), reply)];
    var n := TurnsToFill(roster, history);
    assert |h| == |history| + 1 && Last(h).name == Some(RoleName(CycleRole(k)));
    assert |h| < |roster| || RoleName(CycleRole(k)) != Last(roster);
    if |roster| - |history| >= 2 {
      assert TurnsToFill(roster, h) == n - 1;
      assert k + 1 + TurnsToFill(roster, h) - 1 == k + n - 1;
    } else {
      assert n == 1 && TurnsToFill(roster, h) == 1;
      assert Last(h).name == Some(RoleName(CycleRole(k)));
      RoleNamesDistinct(CycleRole(k), last);
      StepsUntilAdvances(k, last);
    }
  }

  /**
   * Bounded termination: with every agent of the cast on the roster and a
   * cast member (`last`) last on it, a run that is allowed enough turns
   * stops by itself, within the turns needed to fill the roster plus at
   * most two more.
   */
  lemma {:induction false} RunTerminatesWithin(roster: seq<string>, last: Role, history: seq<Msg>, replies: seq<string>, k: nat)
    requires HasCast(roster) && roster != [] && Last(roster) == RoleName(last)
    requires TargetName(history) == RoleName(CycleRole(k))
    requires |replies| >= TurnsToStop(roster, last, history, k)
    ensures Run(roster, history, replies).Success?
    ensures Run(roster, history, replies).value.terminated
    ensures |Run(roster, history, replies).value.history| <= |history| + TurnsToStop(roster, last, history, k)
    decreases |replies|
  {
    var h := history + [Msg(Some(RoleName(CycleRole(k))), replies[0])];
    RunTakesOneTurn(roster, history, replies);
    if ShouldTerminate(TerminationStrategy(roster), h) != Success(true) {
      TargetAdvancesAlongCycle(history, k, replies[0]);
      TurnBringsStopCloser(roster, last, history, k, replies[0]);
      RunTerminatesWithin(roster, last, h, replies[1..], k + 1);
    }
  }

  /**
   * From the seeded chat, any roster holding the cast and ending with a
   * cast member stops within |roster| + 1 turns.
   */
  lemma SeededRunTerminatesWithin(roster: seq<string>, last: Role, task: string, replies: seq<string>)
    requires HasCast(roster) && roster != [] && Last(roster) == RoleName(last)
    requires |replies| >= |roster| + 1
    ensures Run(roster, Seeded(task), replies).Success?
    ensures Run(roster, Seeded(task), replies).value.terminated
    ensures |Run(roster, Seeded(task), replies).value.history| <= |roster| + 2
  {
    assert TargetName(Seeded(task)) == RoleName(CycleRole(0));
    RunTerminatesWithin(roster, last, Seeded(task), replies, 0);
  }
}
