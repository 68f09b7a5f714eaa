/**
 * The next-speaker policy of the group chat: a fixed transition table on
 * the author name of the last message, followed by a lookup of the first
 * roster agent carrying the chosen name.
 */
module Selection {
  import opened Wrappers
  import opened Chat

  /**
   * The lookup found no agent with the chosen name. In the source this is
   * `next` running out of candidates (StopIteration, which escapes the
   * coroutine as a RuntimeError); no agent is returned.
   */
  datatype SelectError = NoAgentNamed(name: string)

  /** The name of the agent the transition table asks for. */
  function TargetName(history: seq<Msg>): (name: string)
    ensures IsCastName(name)
  {
    if history == [] then CreationAgentName
    else
      var last := Last(history).name;
      if last == Some(CreationAgentName) then ValidationAgentName
      else if last == Some(ValidationAgentName) then UserAgentName
      else if last == Some(UserAgentName) then CreationAgentName
      else CreationAgentName
  }

  /** `next(agent for agent in agents[from:] if agent.name == name)`, as an index. */
  function FirstIndexFrom(roster: seq<string>, name: string, from: nat): (r: Option<nat>)
    requires from <= |roster|
    ensures r.Some? ==> from <= r.value < |roster| && roster[r.value] == name
    ensures r.Some? ==> forall j :: from <= j < r.value ==> roster[j] != name
    ensures r.None? <==> name !in roster[from..]
    decreases |roster| - from
  {
    if from == |roster| then None
    else if roster[from] == name then Some(from)
    else
      assert roster[from..] == [roster[from]] + roster[from + 1..];
      FirstIndexFrom(roster, name, from + 1)
  }

  /**
   * `select_next_agent`: the roster position of the agent that speaks next,
   * or the failure of the lookup. The chosen agent is the first one whose
   * name is the table's target.
   */
  function SelectNextAgent(roster: seq<string>, history: seq<Msg>): (r: Result<nat, SelectError>)
    ensures r.Success? ==> r.value < |roster| && roster[r.value] == TargetName(history)
    ensures r.Success? ==> forall j :: 0 <= j < r.value ==> roster[j] != TargetName(history)
    ensures r.Failure? <==> TargetName(history) !in roster
    ensures r.Failure? ==> r.error == NoAgentNamed(TargetName(history))
  {
    var name := TargetName(history);
    match FirstIndexFrom(roster, name, 0)
    case Some(i) => Success(i)
    case None => Failure(NoAgentNamed(name))
  }

  /** The cyclic order Creation -> Validation -> User -> Creation. */
  function Successor(role: Role): (next: Role)
    ensures next != role
  {
    match role
    case Creation => Validation
    case Validation => User
    case User => Creation
  }

  /**
   * The transition table is the successor permutation on roles, entered at
   * Creation both for an empty history and for a last author outside the cast.
   */
  lemma TargetIsSuccessorOfLastRole(history: seq<Msg>)
    ensures history == [] ==> TargetName(history) == RoleName(Creation)
    ensures history != [] && RoleOf(Last(history).name).None? ==> TargetName(history) == RoleName(Creation)
    ensures history != [] && RoleOf(Last(history).name).Some? ==>
      TargetName(history) == RoleName(Successor(RoleOf(Last(history).name).value))
  {
  }

  lemma SuccessorHasPeriodThree(role: Role)
    ensures Successor(Successor(Successor(role))) == role
    ensures Successor(Successor(role)) != role
  {
  }

  lemma EmptyHistorySelectsCreation(roster: seq<string>)
    ensures TargetName([]) == CreationAgentName
    ensures CreationAgentName in roster ==> SelectNextAgent(roster, []).Success?
    ensures CreationAgentName in roster ==> roster[SelectNextAgent(roster, []).value] == CreationAgentName
  {
  }

  lemma CreationIsFollowedByValidation(history: seq<Msg>)
    requires history != [] && Last(history).name == Some(CreationAgentName)
    ensures TargetName(history) == ValidationAgentName
  {
  }

  lemma ValidationIsFollowedByUser(history: seq<Msg>)
    requires history != [] && Last(history).name == Some(ValidationAgentName)
    ensures TargetName(history) == UserAgentName
  {
  }

  lemma UserIsFollowedByCreation(history: seq<Msg>)
    requires history != [] && Last(history).name == Some(UserAgentName)
    ensures TargetName(history) == CreationAgentName
  {
  }

  /** Any other author, including the nameless seeded task message, falls back to Creation. */
  lemma OtherAuthorFallsBackToCreation(history: seq<Msg>)
    requires history != [] && forall role :: Last(history).name != Some(RoleName(role))
    ensures TargetName(history) == CreationAgentName
  {
    assert Last(history).name != Some(RoleName(Creation));
    assert Last(history).name != Some(RoleName(Validation));
    assert Last(history).name != Some(RoleName(User));
  }

  /**
   * Only the last author name matters: content and earlier messages never
   * change the choice.
   */
  lemma SelectionDependsOnlyOnLastName(roster: seq<string>, h1: seq<Msg>, h2: seq<Msg>)
    requires h1 == [] <==> h2 == []
    requires h1 != [] ==> Last(h1).name == Last(h2).name
    ensures SelectNextAgent(roster, h1) == SelectNextAgent(roster, h2)
  {
  }

  /** The k-th speaker of the cycle Creation, Validation, User, Creation, ... */
  function CycleRole(k: nat): (role: Role)
    ensures role == Creation <==> k % 3 == 0
    ensures role == Validation <==> k % 3 == 1
  {
    if k % 3 == 0 then Creation else if k % 3 == 1 then Validation else User
  }

  /** Appending a message by the k-th cycle speaker moves the target to the (k+1)-th. */
  lemma TargetAdvancesAlongCycle(history: seq<Msg>, k: nat, content: string)
    ensures TargetName(history + [Msg(Some(RoleName(CycleRole(k))), content)]) == RoleName(CycleRole(k + 1))
  {
    var h := history + [Msg(Some(RoleName(CycleRole(k))), content)];
    assert Last(h).name == Some(RoleName(CycleRole(k)));
    TargetIsSuccessorOfLastRole(h);
    RoleNamesDistinct(RoleOf(Last(h).name).value, CycleRole(k));
  }

  /**
   * Selection applied once per reply, each time appending a message by the
   * chosen agent with that reply as its content. No termination check.
   */
  function Unroll(roster: seq<string>, history: seq<Msg>, replies: seq<string>): (r: Result<seq<Msg>, SelectError>)
    ensures r.Success? ==> |r.value| == |history| + |replies| && r.value[..|history|] == history
    decreases |replies|
  {
    if replies == [] then Success(history)
    else
      var i :- SelectNextAgent(roster, history);
      Unroll(roster, history + [Msg(Some(roster[i]), replies[0])], replies[1..])
  }

  /** One step of `Unroll` whose selection succeeds. */
  lemma UnrollTakesOneTurn(roster: seq<string>, history: seq<Msg>, replies: seq<string>)
    requires replies != [] && TargetName(history) in roster
    ensures Unroll(roster, history, replies) ==
      Unroll(roster, history + [Msg(Some(TargetName(history)), replies[0])], replies[1..])
  {
  }

  /** One step of `Unroll` along the cycle: the k-th speaker is appended and the (k+1)-th is next. */
  lemma UnrollCycleStep(roster: seq<string>, history: seq<Msg>, replies: seq<string>, k: nat)
    requires HasCast(roster) && replies != []
    requires TargetName(history) == RoleName(CycleRole(k))
    ensures var h := history + [Msg(Some(RoleName(CycleRole(k))), replies[0])];
      && Unroll(roster, history, replies) == Unroll(roster, h, replies[1..])
      && TargetName(h) == RoleName(CycleRole(k + 1))
  {
    UnrollTakesOneTurn(roster, history, replies);
    TargetAdvancesAlongCycle(history, k, replies[0]);
  }

  /**
   * Repeated selection cycles with period three: when the table currently
   * points at the k-th cycle speaker, the j-th appended message is by the
   * (k+j)-th one. From an empty or seeded history k is 0, giving
   * Creation, Validation, User, Creation, ...
   */
  lemma {:induction false} UnrollFollowsCycle(roster: seq<string>, history: seq<Msg>, replies: seq<string>, k: nat)
    requires HasCast(roster)
    requires TargetName(history) == RoleName(CycleRole(k))
    ensures Unroll(roster, history, replies).Success?
    ensures forall j :: 0 <= j < |replies| ==>
      Unroll(roster, history, replies).value[|history| + j] == Msg(Some(RoleName(CycleRole(k + j))), replies[j])
    decreases |replies|
  {
    if replies != [] {
      var h := history + [Msg(Some(RoleName(CycleRole(k))), replies[0])];
      UnrollCycleStep(roster, history, replies, k);
      UnrollFollowsCycle(roster, h, replies[1..], k + 1);
      var r := Unroll(roster, h, replies[1..]).value;
      assert Unroll(roster, history, replies).value == r;
      CycleMessagesAfterOneTurn(r, history, h, replies, k);
    }
  }

  /**
   * The messages appended from `history` are the first turn's message
   * followed by the messages appended after it, one cycle step later.
   */
  lemma CycleMessagesAfterOneTurn(r: seq<Msg>, history: seq<Msg>, h: seq<Msg>, replies: seq<string>, k: nat)
    requires replies != [] && h == history + [Msg(Some(RoleName(CycleRole(k))), replies[0])]
    requires |r| == |h| + |replies[1..]| && r[..|h|] == h
    requires forall j :: 0 <= j < |replies[1..]| ==>
      r[|h| + j] == Msg(Some(RoleName(CycleRole(k + 1 + j))), replies[1..][j])
    ensures forall j :: 0 <= j < |replies| ==> r[|history| + j] == Msg(Some(RoleName(CycleRole(k + j))), replies[j])
  {
    forall j | 0 <= j < |replies|
      ensures r[|history| + j] == Msg(Some(RoleName(CycleRole(k + j))), replies[j])
    {
      if j == 0 {
        assert r[|history|] == r[..|h|][|history|];
      } else {
        var i := j - 1;
        assert r[|h| + i] == Msg(Some(RoleName(CycleRole(k + 1 + i))), replies[1..][i]);
      }
    }
  }
}
