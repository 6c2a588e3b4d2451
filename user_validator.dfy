/** The profile update validator: every field optional, trimmed, and bounded
    in length; an empty value passes. */
module UserValidation {
  import opened Wrappers
  import opened Text
  import opened Entities
  import opened Validation
  import Svc = UserServices
  import Repo = UserRepo

  const FirstNameUnderMax: string := "First name must be less than 100 characters"
  const LastNameUnderMax: string := "Last name must be less than 100 characters"
  const PhoneUnderMax: string := "Phone number must be less than 20 characters"
  const CompanyUnderMax: string := "Company name must be less than 200 characters"
  const PositionUnderMax: string := "Position must be less than 200 characters"
  const BioUnderMax: string := "Bio must be less than 1000 characters"

  const MaxName: nat := 100
  const MaxPhone: nat := 20
  const MaxCompany: nat := 200
  const MaxPosition: nat := 200
  const MaxBio: nat := 1000

  /** `validateUpdateProfile`'s messages, field by field. */
  function ProfileErrors(body: ProfileBody): (errs: seq<string>)
    ensures errs == [] <==>
              && (body.firstName.Some? ==> ValidatorLength(Trim(body.firstName.value)) <= MaxName)
              && (body.lastName.Some? ==> ValidatorLength(Trim(body.lastName.value)) <= MaxName)
              && (body.phone.Some? ==> ValidatorLength(Trim(body.phone.value)) <= MaxPhone)
              && (body.company.Some? ==> ValidatorLength(Trim(body.company.value)) <= MaxCompany)
              && (body.position.Some? ==> ValidatorLength(Trim(body.position.value)) <= MaxPosition)
              && (body.bio.Some? ==> ValidatorLength(Trim(body.bio.value)) <= MaxBio)
    ensures |errs| <= 6
  {
    OptionalMaxLength(body.firstName, MaxName, FirstNameUnderMax)
    + OptionalMaxLength(body.lastName, MaxName, LastNameUnderMax)
    + OptionalMaxLength(body.phone, MaxPhone, PhoneUnderMax)
    + OptionalMaxLength(body.company, MaxCompany, CompanyUnderMax)
    + OptionalMaxLength(body.position, MaxPosition, PositionUnderMax)
    + OptionalMaxLength(body.bio, MaxBio, BioUnderMax)
  }

  /** The body the profile handler receives after the sanitizers ran: every
      present field trimmed, every missing one still missing. */
  function SanitizeProfile(body: ProfileBody): (r: ProfileBody)
    ensures r.firstName.None? <==> body.firstName.None?
    ensures r.lastName.None? <==> body.lastName.None?
    ensures r.phone.None? <==> body.phone.None?
    ensures r.company.None? <==> body.company.None?
    ensures r.position.None? <==> body.position.None?
    ensures r.bio.None? <==> body.bio.None?
    ensures body.firstName.Some? ==> r.firstName.value == Trim(body.firstName.value)
    ensures body.lastName.Some? ==> r.lastName.value == Trim(body.lastName.value)
    ensures body.phone.Some? ==> r.phone.value == Trim(body.phone.value)
    ensures body.company.Some? ==> r.company.value == Trim(body.company.value)
    ensures body.position.Some? ==> r.position.value == Trim(body.position.value)
    ensures body.bio.Some? ==> r.bio.value == Trim(body.bio.value)
  {
    ProfileBody(TrimField(body.firstName), TrimField(body.lastName), TrimField(body.phone),
                TrimField(body.company), TrimField(body.position), TrimField(body.bio))
  }

  /** A body the chain accepts, once sanitized, passes `updateProfile`'s
      guards, provided `s.length` and `isLength` agree on the three guarded
      texts (no surrogate pair, no variation selector). */
  lemma ProfileValidatorImpliesServiceChecks(body: ProfileBody)
    requires ProfileErrors(body) == []
    requires LengthsAgree(Seen(body.firstName)) && LengthsAgree(Seen(body.lastName)) && LengthsAgree(Seen(body.phone))
    ensures Svc.ProfileViolation(SanitizeProfile(body)).None?
  {
    SanitizedWithin(body.firstName, MaxName);
    SanitizedWithin(body.lastName, MaxName);
    SanitizedWithin(body.phone, MaxPhone);
    ServiceAcceptsProfile(SanitizeProfile(body));
  }

  /** A present field within `max` by `isLength` after trimming is within
      `max` UTF-16 units once trimmed, when the two measures agree on it. */
  lemma SanitizedWithin(f: Field, max: nat)
    requires f.Some? ==> ValidatorLength(Trim(f.value)) <= max
    requires LengthsAgree(Seen(f))
    ensures TrimField(f).Some? ==> Utf16Length(TrimField(f).value) <= max
  {
    if f.Some? {
      TrimKeepsLengthsAgree(f.value);
    }
  }

  lemma ServiceAcceptsProfile(body: ProfileBody)
    requires body.firstName.Some? ==> Utf16Length(body.firstName.value) <= Svc.MaxName
    requires body.lastName.Some? ==> Utf16Length(body.lastName.value) <= Svc.MaxName
    requires body.phone.Some? ==> Utf16Length(body.phone.value) <= Svc.MaxPhone
    ensures Svc.ProfileViolation(body).None?
  {
  }

  /** A white-space-only first name passes the chain, is trimmed to `""`,
      and the repository's merge then keeps the stored first name: through
      this endpoint a set field cannot be cleared. */
  lemma BlankFirstNameKeepsStored(existing: Profile, body: ProfileBody, now: int)
    requires body.firstName.Some? && AllSpace(body.firstName.value)
    ensures OptionalMaxLength(body.firstName, MaxName, FirstNameUnderMax) == []
    ensures Repo.MergeProfile(existing, SanitizeProfile(body), now).firstName == existing.firstName
  {
    TrimEmptyIffAllSpace(body.firstName.value);
  }
}
