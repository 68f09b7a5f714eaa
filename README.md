# Turn-taking policy of the Terraform agent group chat

This project is a Dafny model of the two strategies that drive the
three-agent group chat of the Terraform generator. The cast is
`TerraformCreationAgent`, `TerraformValidationAgent` and `UserAgent`.

- **Selection** (`selection.dfy`, module `Selection`) models
  `CustomSelectionStrategy.select_next_agent`. A fixed transition table on
  the author name of the last chat message picks a name: empty chat to
  Creation, Creation to Validation, Validation to User, User to Creation,
  and any other author (including the nameless task message) to Creation.
  Then the first roster agent with that name is looked up. The roster is a
  sequence of agent names, and the chosen agent is returned as its roster
  position. When no agent has the name, `next` exhausts its generator. The
  model returns `Failure(NoAgentNamed(name))` in that case. Because the
  method is a coroutine, the `StopIteration` reaches the caller as a
  `RuntimeError`.
- **Termination** (`termination.dfy`, module `Termination`) models
  `CustomTerminationStrategy`. The constructor captures the roster. This is
  the datatype `TerminationStrategy(agents)`, an immutable value, so
  `should_terminate` can only read it. `ShouldTerminate` holds exactly when
  the chat is non-empty, at least as long as the roster, and its last
  message is by the last roster agent. If the roster is empty and the chat
  is not, the length test passes and `self._agents[-1]` raises
  `IndexError`. The model returns `Failure(IndexError)` there.
- **Chat** (`chat.dfy`) holds the message record (an optional author name
  and opaque content), the three agent names, and the cast as a closed
  `Role` type. `Role` serves as an independent reference for the transition
  table.
- **GroupChat** (`group_chat.dfy`) composes both strategies. The loop that
  calls them belongs to the agent framework and is not part of this
  repository. It is modelled under a stated assumption. The chat is seeded
  with the nameless task message. On each turn the selected agent's reply
  is appended under its name, and the termination strategy, built over the
  same roster, is asked about the extended chat. That the reply carries the
  agent's name is the framework's doing. Each agent returns the completion
  service's first message without setting a name
  (`agents/terraform_creation_agent.py:53`,
  `agents/terraform_validation_agent.py:50`, `agents/user_agent.py:46`).
  Replies are opaque, so they are a parameter. Running out of replies
  stands for the framework's iteration cap.
- **Wrappers** (`wrappers.dfy`) holds `Option` and `Result`.

`custom_termination_strategy.py` looks only at the message count and the
last author. It reads no message text and has no iteration cap of its own.
Termination of a run is proved from that rule alone
(`GroupChat.RunTerminatesWithin`).

With the program's own roster order (Creation, User, Validation), the last
roster agent is the validation agent. The seeded task message counts
toward the chat's length. The run therefore stops after two turns,
Creation then Validation, and the user agent never speaks
(`GroupChat.MainRunStopsAfterValidation`, `GroupChat.MainRunNeverSelectsUser`).
The comment at `custom_termination_strategy.py:34` says the chat ends once
every agent has had a turn. The code does not do that for this roster.
The model follows the code.

## Model

| member | source | states |
|---|---|---|
| `Chat.RoleOf` | custom_selection_strategy.py:24-33 | an author name denotes a role exactly when it is that role's agent name; any other name, or no name, denotes none |
| `Selection.TargetName` | custom_selection_strategy.py:17-36 | the table always asks for one of the three cast names |
| `Selection.FirstIndexFrom` | custom_selection_strategy.py:18 | the generator lookup: the result is the first position at or after `from` whose name matches, and there is none exactly when the name does not occur there |
| `Selection.SelectNextAgent` | custom_selection_strategy.py:11-36 | the selected agent is on the roster, carries the table's target name and is the first such agent; the call fails, with that name, exactly when no roster agent has it |
| `Selection.TargetIsSuccessorOfLastRole` | custom_selection_strategy.py:17-36 | the table equals the cyclic successor on roles, entered at Creation for an empty chat or an author outside the cast |
| `Selection.SuccessorHasPeriodThree` | custom_selection_strategy.py:24-33 | the successor cycle returns to its start after exactly three steps and never after two |
| `Selection.EmptyHistorySelectsCreation` | custom_selection_strategy.py:17-18 | an empty chat selects the creation agent whenever the roster has one |
| `Selection.CreationIsFollowedByValidation` | custom_selection_strategy.py:24-25 | after the creation agent, the validation agent is asked for |
| `Selection.ValidationIsFollowedByUser` | custom_selection_strategy.py:28-29 | after the validation agent, the user agent is asked for |
| `Selection.UserIsFollowedByCreation` | custom_selection_strategy.py:32-33 | after the user agent, the creation agent is asked for |
| `Selection.OtherAuthorFallsBackToCreation` | custom_selection_strategy.py:35-36 | any other last author, including none, falls back to the creation agent |
| `Selection.SelectionDependsOnlyOnLastName` | custom_selection_strategy.py:21-36 | two chats that are both empty or share the last author name get the same selection, whatever their contents and earlier messages |
| `Selection.TargetAdvancesAlongCycle` | custom_selection_strategy.py:24-33 | appending a message by the k-th speaker of the cycle makes the (k+1)-th the target |
| `Selection.Unroll` | custom_selection_strategy.py:11-36 | repeated selection, each time appending the chosen agent's message, adds exactly one message per reply and keeps the earlier chat as a prefix |
| `Selection.UnrollFollowsCycle` | custom_selection_strategy.py:17-33 | with the cast on the roster, repeated selection appends Creation, Validation, User, Creation, ... (period three) from wherever the table points, each message carrying its reply |
| `Termination.ShouldTerminate` | custom_termination_strategy.py:20-40 | the decision fails exactly for a non-empty chat with an empty roster; otherwise it is true exactly when the chat is non-empty, at least as long as the roster, and its last author is the last roster agent |
| `Termination.EmptyChatNeverTerminates` | custom_termination_strategy.py:31-32 | an empty chat never terminates |
| `Termination.ShortChatNeverTerminates` | custom_termination_strategy.py:35 | a chat shorter than the roster never terminates, whatever it holds |
| `Termination.LastRosterAgentTerminates` | custom_termination_strategy.py:35-38 | a chat at least as long as the roster whose last author is the last roster agent terminates |
| `Termination.TerminationDependsOnlyOnCountAndLastName` | custom_termination_strategy.py:35-40 | the decision depends only on the message count and the last author name |
| `GroupChat.Turn` | main.py:139 | a turn succeeds exactly when the target name is on the roster, and appends one message by that agent carrying the reply |
| `GroupChat.Run` | main.py:139-140 | the run only appends, by at most one message per reply; it stops early only on a chat the termination strategy accepts; it can fail only in selection, never in termination |
| `GroupChat.RunStopsAtFirstFiring` | custom_termination_strategy.py:20-40 | every chat the run passed through before its end was judged "continue", and so was its final chat when it ran out of turns |
| `GroupChat.RunFollowsUnroll` | custom_selection_strategy.py:11-36 | whenever repeated selection succeeds, the run succeeds too and its chat is a prefix of what repeated selection appends: the same speakers with the same replies, cut off where termination fires |
| `GroupChat.RunFollowsCycle` | custom_selection_strategy.py:17-33 | with the cast on the roster, the j-th message the run appends is by the (k+j)-th speaker of the cycle Creation, Validation, User and carries reply j |
| `GroupChat.Seeded` | main.py:132-137 | the seeded chat is one message without an author name |
| `GroupChat.MainFirstTurnContinues` | custom_termination_strategy.py:35 | from the seeded chat the creation agent speaks first, and the two-message chat does not terminate |
| `GroupChat.MainSecondTurnStops` | custom_termination_strategy.py:35-38 | the validation agent speaks second, and the three-message chat ending with it terminates |
| `GroupChat.MainRunStopsAfterValidation` | main.py:116-137 | with the roster Creation, User, Validation and the seeded task, the run is Creation then Validation and stops there; with fewer than two turns allowed it stops at the cap |
| `GroupChat.MainRunNeverSelectsUser` | main.py:116-120 | in that run no message is by the user agent |
| `GroupChat.TurnBringsStopCloser` | custom_termination_strategy.py:35-38 | a turn after which the run goes on lowers the number of turns still needed to stop by one |
| `GroupChat.RunTerminatesWithin` | custom_termination_strategy.py:35-38 | if the roster holds the cast and ends with a cast member, a run allowed enough turns stops by itself, within the turns needed to reach the roster's length plus at most two |
| `GroupChat.SeededRunTerminatesWithin` | main.py:132-137 | from the seeded chat, such a roster stops within its length plus one turns |

## Left out

- The agents' replies are large-language-model calls and plugin calls. They appear only as opaque reply strings.
- The agents' small string checks on model output are left out, because they only decorate opaque replies.
- The file, Terraform execution and user-prompt plugins are I/O with no decision logic, and are left out.
- Environment loading, tracing and logging setup, kernel wiring and printing are left out.
- The final-artifact extraction after the run depends on the message order the framework returns, which is not part of this repository. It is not modelled.
- The framework's group-chat loop is not part of this repository. `GroupChat.Run` models it only under the assumption stated above. How the framework actually invokes the strategies, and its iteration cap, are not modelled beyond that.
- `Selection.SelectNextAgent` returns the roster position of the selected agent, not the agent object. Agents are identified by their names only.
- Message roles, message ids and async execution are not modelled. Both strategies are synchronous functions here.
