/** The rows of the three tables (users, user_profiles, issues), the token
    payload, the closed enumerations, and JavaScript truthiness of an
    optional string field. */
module Entities {
  import opened Wrappers

  const IssueTypes: seq<string> := ["cloud-security", "reteam-assessment", "vapt"]
  const Priorities: seq<string> := ["low", "medium", "high", "critical"]
  const Statuses: seq<string> := ["open", "in-progress", "resolved", "closed"]
  const DefaultPriority: string := "medium"
  const DefaultStatus: string := "open"

  /** A JSON body field: absent (`undefined`) or a string. */
  type Field = Option<string>

  /** `if (x)` on an optional string: present and non-empty. */
  predicate Truthy(f: Field) {
    f.Some? && f.value != ""
  }

  /** `x || fallback` for a string fallback. */
  function OrElse(f: Field, fallback: string): (r: string)
    ensures Truthy(f) ==> r == f.value
    ensures !Truthy(f) ==> r == fallback
  {
    if Truthy(f) then f.value else fallback
  }

  /** `x || fallback` for a nullable fallback (`null` is `None`). */
  function OrElseNull(f: Field, fallback: Field): (r: Field)
    ensures Truthy(f) ==> r == f
    ensures !Truthy(f) ==> r == fallback
  {
    if Truthy(f) then f else fallback
  }

  /** A row of the `issues` table. */
  datatype Issue = Issue(
    id: nat,
    userId: int,
    issueType: string,
    title: string,
    description: string,
    priority: string,
    status: string,
    createdAt: int,
    updatedAt: int)

  /** A request body for issue creation or update: every field may be
      absent, and the body is not stripped of keys the handler did not
      expect (`userId` among them). */
  datatype IssueBody = IssueBody(
    issueType: Field,
    title: Field,
    description: Field,
    priority: Field,
    status: Field,
    userId: Option<int>)

  /** What the issue repository's `create` receives. */
  datatype NewIssue = NewIssue(
    userId: int,
    issueType: string,
    title: string,
    description: string,
    priority: Field,
    status: Field)

  /** A row of the `users` table. */
  datatype User = User(id: nat, email: string, password: string, createdAt: int, updatedAt: int)

  /** A user as returned to clients: the same row with no password field. */
  datatype PublicUser = PublicUser(id: nat, email: string, createdAt: int, updatedAt: int)

  function WithoutPassword(u: User): (p: PublicUser)
    ensures p.id == u.id && p.email == u.email
    ensures p.createdAt == u.createdAt && p.updatedAt == u.updatedAt
  {
    PublicUser(u.id, u.email, u.createdAt, u.updatedAt)
  }

  /** A row of the `user_profiles` table; `null` columns are `None`. */
  datatype Profile = Profile(
    id: nat,
    userId: int,
    firstName: Field,
    lastName: Field,
    phone: Field,
    company: Field,
    position: Field,
    bio: Field,
    updatedAt: int)

  /** A profile update body. */
  datatype ProfileBody = ProfileBody(
    firstName: Field,
    lastName: Field,
    phone: Field,
    company: Field,
    position: Field,
    bio: Field)

  /** The claims a signed token carries (besides its expiry). */
  datatype Payload = Payload(userId: int, email: string)
}
