/** The issue service: the create and update validation chains, and the
    owner-scoped get, create, update and delete operations over the issue
    repository. */
module IssueServices {
  import opened Wrappers
  import opened Text
  import opened Entities
  import opened Errors
  import opened IssueRepo

  const IssueNotFound: string := "Issue not found"
  const InvalidTypeOnCreate: string := "Invalid issue type. Must be: cloud-security, reteam-assessment, or vapt"
  const TitleRequired: string := "Title is required"
  const DescriptionRequired: string := "Description is required"
  const TitleTooLongOnCreate: string := "Title is too long (max 200 characters)"
  const DescriptionTooLongOnCreate: string := "Description is too long (max 5000 characters)"
  const InvalidPriorityOnCreate: string := "Invalid priority. Must be: low, medium, high, or critical"
  const InvalidStatusOnCreate: string := "Invalid status. Must be: open, in-progress, resolved, or closed"
  const InvalidType: string := "Invalid issue type"
  const InvalidPriority: string := "Invalid priority"
  const InvalidStatus: string := "Invalid status"
  const TitleTooLong: string := "Title is too long"
  const DescriptionTooLong: string := "Description is too long"

  const MaxTitle: nat := 200
  const MaxDescription: nat := 5000

  /** A missing, empty or white-space-only text field. */
  predicate Blank(f: Field) {
    f.None? || AllSpace(f.value)
  }

  /** `createIssue`'s checks in the order the code makes them; the first that
      fails is the error thrown. */
  function CreateViolation(body: IssueBody): (r: Option<Error>)
    ensures r.Some? ==> r.value.ValidationError?
    ensures r.None? <==>
              && Truthy(body.issueType) && body.issueType.value in IssueTypes
              && !Blank(body.title) && !Blank(body.description)
              && Utf16Length(body.title.value) <= MaxTitle && Utf16Length(body.description.value) <= MaxDescription
              && (Truthy(body.priority) ==> body.priority.value in Priorities)
              && (Truthy(body.status) ==> body.status.value in Statuses)
    ensures !(Truthy(body.issueType) && body.issueType.value in IssueTypes) ==>
              r == Some(ValidationError(InvalidTypeOnCreate))
    ensures Truthy(body.issueType) && body.issueType.value in IssueTypes && Blank(body.title) ==>
              r == Some(ValidationError(TitleRequired))
  {
    if !Truthy(body.issueType) || body.issueType.value !in IssueTypes then
      Some(ValidationError(InvalidTypeOnCreate))
    else if !Truthy(body.title) || |Trim(body.title.value)| == 0 then
      TrimEmptyIffAllSpace(body.title.GetOr(""));
      Some(ValidationError(TitleRequired))
    else if !Truthy(body.description) || |Trim(body.description.value)| == 0 then
      TrimEmptyIffAllSpace(body.description.GetOr(""));
      Some(ValidationError(DescriptionRequired))
    else if Utf16Length(body.title.value) > MaxTitle then
      Some(ValidationError(TitleTooLongOnCreate))
    else if Utf16Length(body.description.value) > MaxDescription then
      Some(ValidationError(DescriptionTooLongOnCreate))
    else if Truthy(body.priority) && body.priority.value !in Priorities then
      Some(ValidationError(InvalidPriorityOnCreate))
    else if Truthy(body.status) && body.status.value !in Statuses then
      Some(ValidationError(InvalidStatusOnCreate))
    else
      TrimEmptyIffAllSpace(body.title.value);
      TrimEmptyIffAllSpace(body.description.value);
      None
  }

  /** `updateIssue`'s checks: every field is optional and checked only when
      truthy; title and description are only bounded in length. */
  function UpdateViolation(body: IssueBody): (r: Option<Error>)
    ensures r.Some? ==> r.value.ValidationError?
    ensures r.None? <==>
              && (Truthy(body.issueType) ==> body.issueType.value in IssueTypes)
              && (Truthy(body.priority) ==> body.priority.value in Priorities)
              && (Truthy(body.status) ==> body.status.value in Statuses)
              && (Truthy(body.title) ==> Utf16Length(body.title.value) <= MaxTitle)
              && (Truthy(body.description) ==> Utf16Length(body.description.value) <= MaxDescription)
  {
    if Truthy(body.issueType) && body.issueType.value !in IssueTypes then Some(ValidationError(InvalidType))
    else if Truthy(body.priority) && body.priority.value !in Priorities then Some(ValidationError(InvalidPriority))
    else if Truthy(body.status) && body.status.value !in Statuses then Some(ValidationError(InvalidStatus))
    else if Truthy(body.title) && Utf16Length(body.title.value) > MaxTitle then Some(ValidationError(TitleTooLong))
    else if Truthy(body.description) && Utf16Length(body.description.value) > MaxDescription then Some(ValidationError(DescriptionTooLong))
    else None
  }

  /** The create checks read as conditions on the body. */
  lemma ServiceAcceptsCreate(body: IssueBody)
    requires Truthy(body.issueType) && body.issueType.value in IssueTypes
    requires !Blank(body.title) && !Blank(body.description)
    requires Utf16Length(body.title.value) <= MaxTitle && Utf16Length(body.description.value) <= MaxDescription
    requires Truthy(body.priority) ==> body.priority.value in Priorities
    requires Truthy(body.status) ==> body.status.value in Statuses
    ensures CreateViolation(body).None?
  {
  }

  /** Once type, title and description are present and valid, a title over
      200 UTF-16 units is the error reported, whatever the description's
      length, priority and status: the title's length is checked first. */
  lemma LongTitleReportedFirst(body: IssueBody)
    requires Truthy(body.issueType) && body.issueType.value in IssueTypes
    requires !Blank(body.title) && !Blank(body.description)
    requires Utf16Length(body.title.value) > MaxTitle
    ensures CreateViolation(body) == Some(ValidationError(TitleTooLongOnCreate))
  {
    TrimEmptyIffAllSpace(body.title.value);
    TrimEmptyIffAllSpace(body.description.value);
    assert Truthy(body.title) && |Trim(body.title.value)| != 0;
    assert Truthy(body.description) && |Trim(body.description.value)| != 0;
  }

  /** The update chain does not require a title: an empty or blank one
      passes and, being falsy or kept as given, reaches the repository. */
  lemma UpdateAcceptsBlankTitle(body: IssueBody)
    requires body.title == Some("") || body.title == Some("   ")
    requires body.issueType.None? && body.priority.None? && body.status.None? && body.description.None?
    ensures UpdateViolation(body).None?
  {
  }

  /** The record `createIssue` passes to the repository, as the code builds
      it: `{ userId, ...issueData }`. The spread comes last, so a `userId`
      key in the request body replaces the caller's id. */
  function NewIssueAsWritten(userId: int, body: IssueBody): (n: NewIssue)
    requires body.issueType.Some? && body.title.Some? && body.description.Some?
    ensures body.userId.None? ==> n.userId == userId
    ensures body.userId.Some? ==> n.userId == body.userId.value
  {
    NewIssue(body.userId.GetOr(userId), body.issueType.value, body.title.value, body.description.value,
             body.priority, body.status)
  }

  /** A body that passes every create check yet carries a `userId` other
      than the caller's produces a record owned by that other user. */
  lemma CreateAsWrittenStoresForeignOwner(caller: int, body: IssueBody)
    requires CreateViolation(body).None?
    requires body.userId.Some? && body.userId.value != caller
    ensures NewIssueAsWritten(caller, body).userId != caller
  {
  }

  /** Such a body exists: caller 1 posting a valid "vapt" issue with
      `"userId": 2` in the body. */
  lemma ForeignOwnerWitness()
    ensures CreateViolation(IssueBody(Some("vapt"), Some("T"), Some("D"), None, None, Some(2))).None?
  {
    var body := IssueBody(Some("vapt"), Some("T"), Some("D"), None, None, Some(2));
    assert body.issueType.value == IssueTypes[2];
    assert !AllSpace(body.title.value) by {
      assert !IsSpace(body.title.value[0]);
    }
    assert !AllSpace(body.description.value) by {
      assert !IsSpace(body.description.value[0]);
    }
    assert Truthy(body.issueType) && body.issueType.value in IssueTypes;
    assert Utf16Length(body.title.value) <= MaxTitle && Utf16Length(body.description.value) <= MaxDescription;
    assert !Truthy(body.priority) && !Truthy(body.status);
  }

  /** The record as evidently intended: the caller owns it whatever the body
      says; the other fields are the body's. */
  function NewIssueFor(userId: int, body: IssueBody): (n: NewIssue)
    requires body.issueType.Some? && body.title.Some? && body.description.Some?
    ensures n.userId == userId
    ensures n == NewIssueAsWritten(userId, body.(userId := None))
  {
    NewIssue(userId, body.issueType.value, body.title.value, body.description.value, body.priority, body.status)
  }

  /** `getAllIssues`: the caller's issues (of one type, when a type is
      given), newest first; no other owner's row is ever listed. */
  function GetAllIssues(repo: IssueRepository, userId: int, issueType: Field): (r: seq<Issue>)
    reads repo
    ensures NewestFirst(r)
    ensures forall x :: x in r <==> x in repo.rows && Selected(x, userId, issueType)
  {
    var all := repo.FindAll(userId, issueType);
    assert forall x :: x in all <==> multiset(all)[x] > 0;
    assert forall x :: x in repo.rows <==> multiset(repo.rows)[x] > 0;
    all
  }

  /** `getIssueById`: the caller's row, or NotFound; a row owned by someone
      else is reported exactly like a missing one. */
  function GetIssueById(repo: IssueRepository, id: nat, userId: int): (r: Result<Issue, Error>)
    reads repo
    ensures r.Failure? <==> forall j :: 0 <= j < |repo.rows| ==> !Owned(repo.rows[j], id, userId)
    ensures r.Failure? ==> r.error == NotFoundError(IssueNotFound)
    ensures r.Success? ==> r.value in repo.rows && r.value.id == id && r.value.userId == userId
  {
    match repo.FindById(id, userId)
    case None => Failure(NotFoundError(IssueNotFound))
    case Some(issue) => Success(issue)
  }

  /** Another owner's issue cannot be read: the answer is NotFound. */
  lemma ForeignIssueLooksMissing(repo: IssueRepository, j: int, userId: int)
    requires IdsUnique(repo.rows)
    requires 0 <= j < |repo.rows| && repo.rows[j].userId != userId
    ensures GetIssueById(repo, repo.rows[j].id, userId) == Failure(NotFoundError(IssueNotFound))
  {
  }

  /** `createIssue`: validates, then inserts the record `NewIssueAsWritten`
      builds, so the row's owner is the body's `userId` when the body has
      one and the caller otherwise. On a failed check nothing is written. */
  method CreateIssue(repo: IssueRepository, userId: int, body: IssueBody, now: int) returns (r: Result<Issue, Error>)
    requires repo.Valid()
    modifies repo
    ensures repo.Valid()
    ensures CreateViolation(body).Some? ==>
              r == Failure(CreateViolation(body).value)
              && repo.rows == old(repo.rows) && repo.nextId == old(repo.nextId)
    ensures CreateViolation(body).None? ==>
              && r.Success? && r.value.userId == body.userId.GetOr(userId)
              && r.value.issueType == body.issueType.value
              && r.value.title == body.title.value && r.value.description == body.description.value
              && r.value.priority == OrElse(body.priority, DefaultPriority)
              && r.value.status == OrElse(body.status, DefaultStatus)
              && r.value.createdAt == r.value.updatedAt == now
              && repo.rows == old(repo.rows) + [r.value]
              && repo.nextId == old(repo.nextId) + 1
              && repo.FindById(r.value.id, body.userId.GetOr(userId)) == Some(r.value)
  {
    var violation := CreateViolation(body);
    if violation.Some? {
      return Failure(violation.value);
    }
    var issue := repo.Create(NewIssueAsWritten(userId, body), now);
    r := Success(issue);
  }

  /** `updateIssue`: the ownership lookup comes first, so a foreign or
      missing id is NotFound even when the body is invalid; then the update
      checks; then the repository's read-merge-write. */
  method UpdateIssue(repo: IssueRepository, id: nat, userId: int, body: IssueBody, now: int) returns (r: Result<Issue, Error>)
    requires repo.Valid()
    modifies repo
    ensures repo.Valid() && repo.nextId == old(repo.nextId)
    ensures old(repo.FindById(id, userId)).None? ==>
              r == Failure(NotFoundError(IssueNotFound)) && repo.rows == old(repo.rows)
    ensures old(repo.FindById(id, userId)).Some? && UpdateViolation(body).Some? ==>
              r == Failure(UpdateViolation(body).value) && repo.rows == old(repo.rows)
    ensures old(repo.FindById(id, userId)).Some? && UpdateViolation(body).None? ==>
              && r == Success(MergeIssue(old(repo.FindById(id, userId)).value, body, now))
              && repo.FindById(id, userId) == Some(r.value)
              && |repo.rows| == |old(repo.rows)|
              && forall j :: 0 <= j < |repo.rows| && !Owned(old(repo.rows)[j], id, userId) ==> repo.rows[j] == old(repo.rows)[j]
  {
    var existing := repo.FindById(id, userId);
    if existing.None? {
      return Failure(NotFoundError(IssueNotFound));
    }
    var violation := UpdateViolation(body);
    if violation.Some? {
      return Failure(violation.value);
    }
    r := repo.Update(id, userId, body, now);
  }

  /** `deleteIssue`: NotFound unless the caller owns the id; otherwise the
      row is removed and the answer is `true`. */
  method DeleteIssue(repo: IssueRepository, id: nat, userId: int) returns (r: Result<bool, Error>)
    requires repo.Valid()
    modifies repo
    ensures repo.Valid() && repo.nextId == old(repo.nextId)
    ensures old(repo.FindById(id, userId)).None? ==>
              r == Failure(NotFoundError(IssueNotFound)) && repo.rows == old(repo.rows)
    ensures old(repo.FindById(id, userId)).Some? ==>
              && r == Success(true)
              && repo.rows == Without(old(repo.rows), id, userId)
              && |repo.rows| == |old(repo.rows)| - 1
              && repo.FindById(id, userId).None?
  {
    var existing := repo.FindById(id, userId);
    if existing.None? {
      return Failure(NotFoundError(IssueNotFound));
    }
    var deleted := repo.Delete(id, userId);
    r := Success(deleted);
  }
}
