/** The `users` and `user_profiles` tables and the statements the user
    repository runs against them. */
module UserRepo {
  import opened Wrappers
  import opened Entities

  /** Position of the first element satisfying `p`, or -1: the `rows[0]` of
      a `SELECT ... WHERE` on a table. */
  function FirstIndex<T>(s: seq<T>, p: T -> bool): (k: int)
    ensures -1 <= k < |s|
    ensures k >= 0 ==> p(s[k]) && forall j :: 0 <= j < k ==> !p(s[j])
    ensures k == -1 ==> forall j :: 0 <= j < |s| ==> !p(s[j])
  {
    if s == [] then -1
    else if p(s[0]) then 0
    else
      var k := FirstIndex(s[1..], p);
      if k == -1 then -1 else k + 1
  }

  /** A stored profile never holds an empty string: `x || null` and
      `x || existing.x` only ever store a non-empty value or `null`. */
  predicate NoEmptyColumn(p: Profile) {
    && p.firstName != Some("") && p.lastName != Some("") && p.phone != Some("")
    && p.company != Some("") && p.position != Some("") && p.bio != Some("")
  }

  /** The row `createProfile` inserts: each absent or empty field is `null`. */
  function FreshProfile(id: nat, userId: int, body: ProfileBody, now: int): (p: Profile)
    ensures NoEmptyColumn(p) && p.id == id && p.userId == userId && p.updatedAt == now
    ensures Truthy(body.firstName) ==> p.firstName == body.firstName
    ensures !Truthy(body.firstName) ==> p.firstName.None?
    ensures Truthy(body.lastName) ==> p.lastName == body.lastName
    ensures !Truthy(body.lastName) ==> p.lastName.None?
    ensures Truthy(body.phone) ==> p.phone == body.phone
    ensures !Truthy(body.phone) ==> p.phone.None?
    ensures Truthy(body.company) ==> p.company == body.company
    ensures !Truthy(body.company) ==> p.company.None?
    ensures Truthy(body.position) ==> p.position == body.position
    ensures !Truthy(body.position) ==> p.position.None?
    ensures Truthy(body.bio) ==> p.bio == body.bio
    ensures !Truthy(body.bio) ==> p.bio.None?
  {
    Profile(id, userId,
      OrElseNull(body.firstName, None), OrElseNull(body.lastName, None), OrElseNull(body.phone, None),
      OrElseNull(body.company, None), OrElseNull(body.position, None), OrElseNull(body.bio, None),
      now)
  }

  /** The columns the profile UPDATE writes: each truthy field replaces the
      stored one, every other keeps the stored value. */
  function MergeProfile(existing: Profile, body: ProfileBody, now: int): (p: Profile)
    ensures p.id == existing.id && p.userId == existing.userId && p.updatedAt == now
    ensures NoEmptyColumn(existing) ==> NoEmptyColumn(p)
  {
    existing.(
      firstName := OrElseNull(body.firstName, existing.firstName),
      lastName := OrElseNull(body.lastName, existing.lastName),
      phone := OrElseNull(body.phone, existing.phone),
      company := OrElseNull(body.company, existing.company),
      position := OrElseNull(body.position, existing.position),
      bio := OrElseNull(body.bio, existing.bio),
      updatedAt := now)
  }

  /** A profile field that is set can never be cleared again: neither an
      absent nor an empty string reaches the column. */
  lemma MergeProfileCannotClear(existing: Profile, body: ProfileBody, now: int)
    ensures existing.firstName.Some? ==> MergeProfile(existing, body, now).firstName.Some?
    ensures existing.lastName.Some? ==> MergeProfile(existing, body, now).lastName.Some?
    ensures existing.phone.Some? ==> MergeProfile(existing, body, now).phone.Some?
    ensures existing.company.Some? ==> MergeProfile(existing, body, now).company.Some?
    ensures existing.position.Some? ==> MergeProfile(existing, body, now).position.Some?
    ensures existing.bio.Some? ==> MergeProfile(existing, body, now).bio.Some?
  {
  }

  /** Upserting a body into a missing profile, and then into the result
      again, gives the same columns as the first upsert. */
  lemma MergeProfileIdempotent(existing: Profile, body: ProfileBody, t1: int, t2: int)
    ensures MergeProfile(MergeProfile(existing, body, t1), body, t2) == MergeProfile(existing, body, t1).(updatedAt := t2)
    ensures MergeProfile(FreshProfile(existing.id, existing.userId, body, t1), body, t2)
            == FreshProfile(existing.id, existing.userId, body, t2)
  {
  }

  /** `UPDATE user_profiles SET ... WHERE userId = ?`: every row of that
      user takes the merged columns, keeping its own id. */
  function SetProfileColumns(rows: seq<Profile>, userId: int, m: Profile): (r: seq<Profile>)
    ensures |r| == |rows|
    ensures forall i :: 0 <= i < |rows| && rows[i].userId != userId ==> r[i] == rows[i]
    ensures forall i :: 0 <= i < |rows| && rows[i].userId == userId ==> r[i] == m.(id := rows[i].id, userId := userId)
  {
    seq(|rows|, i requires 0 <= i < |rows| =>
      if rows[i].userId == userId then m.(id := rows[i].id, userId := userId) else rows[i])
  }

  /** `SELECT * FROM user_profiles WHERE userId = ?`, `rows[0]`: the position
      of the user's first profile row, or -1. */
  function ProfileIndex(rows: seq<Profile>, userId: int): (k: int)
    ensures -1 <= k < |rows|
    ensures k >= 0 ==> rows[k].userId == userId && forall j :: 0 <= j < k ==> rows[j].userId != userId
    ensures k == -1 ==> forall j :: 0 <= j < |rows| ==> rows[j].userId != userId
  {
    if rows == [] then -1
    else if rows[0].userId == userId then 0
    else
      var k := ProfileIndex(rows[1..], userId);
      if k == -1 then -1 else k + 1
  }

  /** The lookup finds the first row of the user, wherever it is. */
  lemma ProfileIndexIs(rows: seq<Profile>, userId: int, k: nat)
    requires k < |rows| && rows[k].userId == userId
    requires forall j :: 0 <= j < k ==> rows[j].userId != userId
    ensures ProfileIndex(rows, userId) == k
  {
  }

  class UserRepository {
    var users: seq<User>
    var profiles: seq<Profile>
    /** The two tables' AUTO_INCREMENT counters. */
    var nextUserId: nat
    var nextProfileId: nat

    ghost predicate Valid()
      reads this
    {
      && 1 <= nextUserId && 1 <= nextProfileId
      && (forall i, j :: 0 <= i < j < |users| ==> users[i].id != users[j].id)
      && (forall u :: u in users ==> 1 <= u.id < nextUserId)
      && (forall p :: p in profiles ==> 1 <= p.id < nextProfileId && NoEmptyColumn(p))
    }

    /** The `email` column's UNIQUE constraint. */
    ghost predicate EmailsUnique()
      reads this
    {
      forall i, j :: 0 <= i < j < |users| ==> users[i].email != users[j].email
    }

    /** At most one profile row per user. */
    ghost predicate OneProfileEach()
      reads this
    {
      forall i, j :: 0 <= i < j < |profiles| ==> profiles[i].userId != profiles[j].userId
    }

    constructor()
      ensures Valid() && EmailsUnique() && OneProfileEach()
      ensures users == [] && profiles == []
    {
      users, profiles := [], [];
      nextUserId, nextProfileId := 1, 1;
    }

    /** `findByEmail`: the first user with exactly that email, or null. */
    function FindByEmail(email: string): (r: Option<User>)
      reads this
      ensures r.Some? ==> r.value in users && r.value.email == email
      ensures r.None? <==> forall u :: u in users ==> u.email != email
      ensures r.Some? ==> forall j :: 0 <= j < |users| && users[j] != r.value && users[j].email == email ==>
                            exists i :: 0 <= i < j && users[i] == r.value
    {
      var k := FirstIndex(users, (u: User) => u.email == email);
      if k == -1 then None else Some(users[k])
    }

    /** `findById`. */
    function FindById(id: int): (r: Option<User>)
      reads this
      ensures r.Some? ==> r.value in users && r.value.id == id
      ensures r.None? <==> forall u :: u in users ==> u.id != id
    {
      var k := FirstIndex(users, (u: User) => u.id == id);
      if k == -1 then None else Some(users[k])
    }

    /** `create`: inserts a user with the next id and the given (already
        hashed) password, then re-reads it. */
    method Create(email: string, hashedPassword: string, now: int) returns (user: User)
      requires Valid()
      modifies this
      ensures Valid()
      ensures user == User(old(nextUserId), email, hashedPassword, now, now)
      ensures users == old(users) + [user] && nextUserId == old(nextUserId) + 1
      ensures profiles == old(profiles) && nextProfileId == old(nextProfileId)
      ensures FindById(user.id) == Some(user)
    {
      var inserted := User(nextUserId, email, hashedPassword, now, now);
      users := users + [inserted];
      nextUserId := nextUserId + 1;
      assert forall j :: 0 <= j < |users| - 1 ==> users[j].id != inserted.id;
      var stored := FindById(inserted.id);
      user := stored.value;
    }

    /** `getProfile`: the first profile row of the user, or null. */
    function GetProfile(userId: int): (r: Option<Profile>)
      reads this
      ensures r.Some? ==> r.value in profiles && r.value.userId == userId
      ensures r.None? <==> forall p :: p in profiles ==> p.userId != userId
    {
      var k := ProfileIndex(profiles, userId);
      if k == -1 then None else Some(profiles[k])
    }

    /** `createProfile`: inserts a profile row (absent or empty fields as
        null) and re-reads the user's first profile row. */
    method CreateProfile(userId: int, body: ProfileBody, now: int) returns (p: Profile)
      requires Valid()
      modifies this
      ensures Valid()
      ensures profiles == old(profiles) + [FreshProfile(old(nextProfileId), userId, body, now)]
      ensures nextProfileId == old(nextProfileId) + 1
      ensures users == old(users) && nextUserId == old(nextUserId)
      ensures old(GetProfile(userId)).None? ==> p == FreshProfile(old(nextProfileId), userId, body, now)
      ensures old(GetProfile(userId)).Some? ==> p == old(GetProfile(userId)).value
      ensures GetProfile(userId) == Some(p)
      ensures old(OneProfileEach()) && old(GetProfile(userId)).None? ==> OneProfileEach()
    {
      var inserted := FreshProfile(nextProfileId, userId, body, now);
      ghost var k := ProfileIndex(profiles, userId);
      profiles := profiles + [inserted];
      nextProfileId := nextProfileId + 1;
      ProfileIndexIs(profiles, userId, if k == -1 then |profiles| - 1 else k);
      var stored := GetProfile(userId);
      p := stored.value;
    }

    /** `updateProfile`: creates the profile if the user has none, otherwise
        merges the truthy fields into it; returns the re-read profile. Only
        this user's profile rows change. */
    method UpdateProfile(userId: int, body: ProfileBody, now: int) returns (p: Profile)
      requires Valid()
      modifies this
      ensures Valid()
      ensures users == old(users) && nextUserId == old(nextUserId)
      ensures old(GetProfile(userId)).None? ==>
                && p == FreshProfile(old(nextProfileId), userId, body, now)
                && profiles == old(profiles) + [p]
                && nextProfileId == old(nextProfileId) + 1
      ensures old(GetProfile(userId)).Some? ==>
                && p == MergeProfile(old(GetProfile(userId)).value, body, now)
                && profiles == SetProfileColumns(old(profiles), userId, p)
                && nextProfileId == old(nextProfileId)
      ensures GetProfile(userId) == Some(p)
      ensures old(OneProfileEach()) ==> OneProfileEach()
      ensures forall i :: 0 <= i < |old(profiles)| && old(profiles)[i].userId != userId ==> profiles[i] == old(profiles)[i]
    {
      var existing := GetProfile(userId);
      if existing.None? {
        p := CreateProfile(userId, body, now);
        return;
      }
      var merged := MergeProfile(existing.value, body, now);
      ghost var k := ProfileIndex(profiles, userId);
      profiles := SetProfileColumns(profiles, userId, merged);
      assert profiles[k] == merged;
      ProfileIndexIs(profiles, userId, k);
      var updated := GetProfile(userId);
      p := updated.value;
    }
  }
}
