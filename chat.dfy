/**
 * The shared conversation: chat messages attributed (or not) to a speaker,
 * and the fixed cast of three agents that take part in the group chat.
 */
module Chat {
  import opened Wrappers

  /**
   * A chat message. Only the author name matters to the turn-taking
   * policies; the content is opaque text. A message added to the chat
   * directly (the seeded task) has no name.
   */
  datatype Msg = Msg(name: Option<string>, content: string)

  /** Last element of a non-empty sequence (Python's `xs[-1]`). */
  function Last<T>(xs: seq<T>): T
    requires xs != []
  {
    xs[|xs| - 1]
  }

  // The names the three agents give themselves at construction.
  const CreationAgentName := "TerraformCreationAgent"
  const ValidationAgentName := "TerraformValidationAgent"
  const UserAgentName := "UserAgent"

  /** The cast as a closed set of roles, independent of the name strings. */
  datatype Role = Creation | Validation | User

  function RoleName(role: Role): string {
    match role
    case Creation => CreationAgentName
    case Validation => ValidationAgentName
    case User => UserAgentName
  }

  /** Which role, if any, an author name denotes. */
  function RoleOf(name: Option<string>): (r: Option<Role>)
    ensures r.None? ==> forall role :: name != Some(RoleName(role))
    ensures r.Some? ==> name == Some(RoleName(r.value))
  {
    if name == Some(CreationAgentName) then Some(Creation)
    else if name == Some(ValidationAgentName) then Some(Validation)
    else if name == Some(UserAgentName) then Some(User)
    else None
  }

  predicate IsCastName(name: string) {
    name == CreationAgentName || name == ValidationAgentName || name == UserAgentName
  }

  /** Every role of the cast has a distinct name. */
  lemma RoleNamesDistinct(a: Role, b: Role)
    ensures RoleName(a) == RoleName(b) <==> a == b
  {
  }

  /** A roster in which each of the three agents can be found by name. */
  predicate HasCast(roster: seq<string>) {
    CreationAgentName in roster && ValidationAgentName in roster && UserAgentName in roster
  }
}
