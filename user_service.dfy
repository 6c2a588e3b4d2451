/** The user service: profile lookup with a default, and the length guards
    in front of the repository's profile upsert. */
module UserServices {
  import opened Wrappers
  import opened Text
  import opened Entities
  import opened Errors
  import opened UserRepo

  const FirstNameTooLong: string := "First name is too long"
  const LastNameTooLong: string := "Last name is too long"
  const PhoneTooLong: string := "Phone number is too long"
  const MaxName: nat := 100
  const MaxPhone: nat := 20

  /** The profile returned when none is stored: id 0, no optional field. */
  function DefaultProfile(userId: int, now: int): (p: Profile)
    ensures p.id == 0 && p.userId == userId && p.updatedAt == now
    ensures p.firstName.None? && p.lastName.None? && p.phone.None?
    ensures p.company.None? && p.position.None? && p.bio.None?
  {
    Profile(0, userId, None, None, None, None, None, None, now)
  }

  /** `getProfile`: the stored profile, or the default; never an error. */
  function GetProfile(repo: UserRepository, userId: int, now: int): (p: Profile)
    reads repo
    ensures repo.GetProfile(userId).Some? ==> p == repo.GetProfile(userId).value
    ensures repo.GetProfile(userId).None? ==> p == DefaultProfile(userId, now)
    ensures p.userId == userId
  {
    match repo.GetProfile(userId)
    case Some(stored) => stored
    case None => DefaultProfile(userId, now)
  }

  /** Stored profile ids start at 1, so id 0 means exactly "no profile row
      yet". */
  lemma ZeroIdMeansNoProfile(repo: UserRepository, userId: int, now: int)
    requires repo.Valid()
    ensures GetProfile(repo, userId, now).id == 0 <==> repo.GetProfile(userId).None?
  {
    if repo.GetProfile(userId).Some? {
      assert repo.GetProfile(userId).value in repo.profiles;
    }
  }

  /** `updateProfile`'s guards, in order: first name, last name, phone.
      Company, position and bio are not bounded here. */
  function ProfileViolation(body: ProfileBody): (r: Option<Error>)
    ensures r.Some? ==> r.value.ValidationError?
    ensures r.None? <==>
              && (Truthy(body.firstName) ==> Utf16Length(body.firstName.value) <= MaxName)
              && (Truthy(body.lastName) ==> Utf16Length(body.lastName.value) <= MaxName)
              && (Truthy(body.phone) ==> Utf16Length(body.phone.value) <= MaxPhone)
  {
    if Truthy(body.firstName) && Utf16Length(body.firstName.value) > MaxName then Some(ValidationError(FirstNameTooLong))
    else if Truthy(body.lastName) && Utf16Length(body.lastName.value) > MaxName then Some(ValidationError(LastNameTooLong))
    else if Truthy(body.phone) && Utf16Length(body.phone.value) > MaxPhone then Some(ValidationError(PhoneTooLong))
    else None
  }

  /** `updateProfile`: a failed guard throws before the repository is
      touched; otherwise the repository's upsert result is returned as is. */
  method UpdateProfile(repo: UserRepository, userId: int, body: ProfileBody, now: int) returns (r: Result<Profile, Error>)
    requires repo.Valid()
    modifies repo
    ensures repo.Valid()
    ensures repo.users == old(repo.users)
    ensures ProfileViolation(body).Some? ==>
              r == Failure(ProfileViolation(body).value)
              && repo.profiles == old(repo.profiles) && repo.nextProfileId == old(repo.nextProfileId)
    ensures ProfileViolation(body).None? ==>
              && r.Success?
              && repo.GetProfile(userId) == Some(r.value)
              && (old(repo.GetProfile(userId)).None? ==>
                    && r.value == FreshProfile(old(repo.nextProfileId), userId, body, now)
                    && repo.profiles == old(repo.profiles) + [r.value]
                    && repo.nextProfileId == old(repo.nextProfileId) + 1)
              && (old(repo.GetProfile(userId)).Some? ==>
                    && r.value == MergeProfile(old(repo.GetProfile(userId)).value, body, now)
                    && repo.profiles == SetProfileColumns(old(repo.profiles), userId, r.value)
                    && repo.nextProfileId == old(repo.nextProfileId))
              && (forall i :: 0 <= i < |old(repo.profiles)| && old(repo.profiles)[i].userId != userId ==>
                    repo.profiles[i] == old(repo.profiles)[i])
    ensures old(repo.OneProfileEach()) ==> repo.OneProfileEach()
  {
    var violation := ProfileViolation(body);
    if violation.Some? {
      return Failure(violation.value);
    }
    var updated := repo.UpdateProfile(userId, body, now);
    r := Success(updated);
  }
}
