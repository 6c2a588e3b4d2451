/** The issue validators: the create and update body chains and the list
    filter on the query string. Chains do not bail, so every failing check
    of every field adds its message. */
module IssueValidation {
  import opened Wrappers
  import opened Text
  import opened Entities
  import opened Validation
  import Svc = IssueServices

  const TypeMustBe: string := "Issue type must be: cloud-security, reteam-assessment, or vapt"
  const TitleIsRequired: string := "Title is required"
  const TitleUnderMax: string := "Title must be less than 200 characters"
  const DescriptionIsRequired: string := "Description is required"
  const DescriptionUnderMax: string := "Description must be less than 5000 characters"
  const PriorityMustBe: string := "Priority must be: low, medium, high, or critical"
  const StatusMustBe: string := "Status must be: open, in-progress, resolved, or closed"
  const InvalidIssueType: string := "Invalid issue type"
  const TitleCannotBeEmpty: string := "Title cannot be empty"
  const DescriptionCannotBeEmpty: string := "Description cannot be empty"
  const InvalidPriority: string := "Invalid priority"
  const InvalidStatus: string := "Invalid status"
  const InvalidFilterType: string := "Invalid filter type"

  const MaxTitle: nat := 200
  const MaxDescription: nat := 5000

  /** `validateCreate`'s messages, field by field. */
  function CreateErrors(body: IssueBody): (errs: seq<string>)
    ensures errs == [] <==>
              && Seen(body.issueType) in IssueTypes
              && TextOk(Seen(body.title), MaxTitle)
              && TextOk(Seen(body.description), MaxDescription)
              && (body.priority.Some? ==> body.priority.value in Priorities)
              && (body.status.Some? ==> body.status.value in Statuses)
  {
    OneOf(body.issueType, IssueTypes, TypeMustBe)
    + RequiredText(body.title, TitleIsRequired, MaxTitle, TitleUnderMax)
    + RequiredText(body.description, DescriptionIsRequired, MaxDescription, DescriptionUnderMax)
    + OptionalOneOf(body.priority, Priorities, PriorityMustBe)
    + OptionalOneOf(body.status, Statuses, StatusMustBe)
  }

  /** The body the create or update handler receives after the sanitizers
      ran: both chains trim the title and the description, nothing else. */
  function SanitizeTexts(body: IssueBody): (r: IssueBody)
    ensures r.issueType == body.issueType && r.priority == body.priority && r.status == body.status
    ensures r.userId == body.userId
  {
    body.(title := TrimField(body.title), description := TrimField(body.description))
  }

  /** A body the create chain accepts, once sanitized, passes every check of
      `createIssue`, provided `s.length` and `isLength` agree on its texts:
      the chain counts with validator.js's measure, the service in UTF-16
      units. */
  lemma CreateValidatorImpliesServiceChecks(body: IssueBody)
    requires CreateErrors(body) == []
    requires LengthsAgree(Seen(body.title)) && LengthsAgree(Seen(body.description))
    ensures Svc.CreateViolation(SanitizeTexts(body)).None?
  {
    assert "" !in IssueTypes;
    assert Trim("") == "";
    assert body.title.Some? && body.description.Some?;
    TextAccepted(body.title.value, MaxTitle);
    TextAccepted(body.description.value, MaxDescription);
    Svc.ServiceAcceptsCreate(SanitizeTexts(body));
  }

  /** A value `trim().notEmpty().isLength({max})` accepts trims to a
      non-blank text of at most `max` UTF-16 units when the two measures
      agree on it. */
  lemma TextAccepted(v: string, max: nat)
    requires TextOk(v, max)
    ensures !AllSpace(Trim(v)) && Trim(v) != ""
    ensures LengthsAgree(v) ==> Utf16Length(Trim(v)) <= max
  {
    TrimIdempotent(v);
    TrimEmptyIffAllSpace(Trim(v));
    if LengthsAgree(v) {
      TrimKeepsLengthsAgree(v);
    }
  }

  /** Without that proviso the layers disagree: a title of 101 to 200
      characters, all outside the Basic Multilingual Plane, passes the
      chain's limit of 200 but is over 200 UTF-16 units for the service. */
  lemma AstralTitleSplitsTheLayers(title: string)
    requires 100 < |title| <= MaxTitle
    requires forall i :: 0 <= i < |title| ==> title[i] as int > 0xFFFF
    ensures var body := IssueBody(Some("vapt"), Some(title), Some("D"), None, None, None);
            && CreateErrors(body) == []
            && Svc.CreateViolation(SanitizeTexts(body)) == Some(Errors.ValidationError(Svc.TitleTooLongOnCreate))
  {
    SpaceFreeTrimsToItself(title);
    Utf16LengthOfAstral(title);
    TrimmedTitlePassesChain(title);
    TrimmedTitleFailsSanitized(title);
  }

  /** The variation selectors open the same gap: 200 plain characters
      followed by U+FE0F are 200 long for `isLength`, which passes the
      chain, and 201 UTF-16 units long for the service. */
  lemma SelectorTitleSplitsTheLayers(t: string)
    requires |t| == MaxTitle
    requires forall i :: 0 <= i < |t| ==> !IsSpace(t[i]) && t[i] as int <= 0xFFFF && !IsVariationSelector(t[i])
    ensures var body := IssueBody(Some("vapt"), Some(t + "\U{FE0F}"), Some("D"), None, None, None);
            && CreateErrors(body) == []
            && Svc.CreateViolation(SanitizeTexts(body)) == Some(Errors.ValidationError(Svc.TitleTooLongOnCreate))
  {
    var title := t + "\U{FE0F}";
    SelectorTitleMeasures(t);
    SpaceFreeTrimsToItself(title);
    TrimmedTitlePassesChain(title);
    TrimmedTitleFailsSanitized(title);
  }

  /** A non-empty title with nothing to trim that `isLength` finds within the
      limit passes the create chain. */
  lemma TrimmedTitlePassesChain(title: string)
    requires Trim(title) == title != ""
    requires ValidatorLength(title) <= MaxTitle
    ensures CreateErrors(IssueBody(Some("vapt"), Some(title), Some("D"), None, None, None)) == []
  {
    ShortDescription();
    VaptIsAType();
  }

  /** A non-empty title with nothing to trim and over 200 UTF-16 units fails
      the service once sanitized. */
  lemma TrimmedTitleFailsSanitized(title: string)
    requires Trim(title) == title != ""
    requires Utf16Length(title) > MaxTitle
    ensures var body := IssueBody(Some("vapt"), Some(title), Some("D"), None, None, None);
            Svc.CreateViolation(SanitizeTexts(body)) == Some(Errors.ValidationError(Svc.TitleTooLongOnCreate))
  {
    TrimEmptyIffAllSpace(title);
    ShortDescription();
    VaptIsAType();
    Svc.LongTitleReportedFirst(SanitizeTexts(IssueBody(Some("vapt"), Some(title), Some("D"), None, None, None)));
  }

  lemma VaptIsAType()
    ensures "vapt" in IssueTypes
  {
    assert "vapt" == IssueTypes[2];
  }

  /** The description `"D"` of these examples passes both layers. */
  lemma ShortDescription()
    ensures TextOk("D", MaxDescription) && Trim("D") == "D" && !Svc.Blank(Some("D"))
  {
    SpaceFreeTrimsToItself("D");
    assert !IsSpace("D"[0]);
  }

  /** The two measures of such a title, and that it has no white space. */
  lemma SelectorTitleMeasures(t: string)
    requires forall i :: 0 <= i < |t| ==> !IsSpace(t[i]) && t[i] as int <= 0xFFFF && !IsVariationSelector(t[i])
    ensures ValidatorLength(t + "\U{FE0F}") == |t|
    ensures Utf16Length(t + "\U{FE0F}") == |t| + 1
    ensures forall i :: 0 <= i < |t| + 1 ==> !IsSpace((t + "\U{FE0F}")[i])
  {
    LengthsAgreeIff(t);
    ValidatorLengthAppend(t, "\U{FE0F}");
    Utf16LengthAppend(t, "\U{FE0F}");
    assert ValidatorLength("\U{FE0F}") == 0 by {
      assert IsVariationSelector("\U{FE0F}"[0]);
    }
    assert Utf16Length("\U{FE0F}") == 1;
  }

  /** `validateUpdate`'s messages: every field optional; a present title or
      description must not trim to nothing. */
  function UpdateErrors(body: IssueBody): (errs: seq<string>)
    ensures errs == [] <==>
              && (body.issueType.Some? ==> body.issueType.value in IssueTypes)
              && (body.title.Some? ==> TextOk(body.title.value, MaxTitle))
              && (body.description.Some? ==> TextOk(body.description.value, MaxDescription))
              && (body.priority.Some? ==> body.priority.value in Priorities)
              && (body.status.Some? ==> body.status.value in Statuses)
  {
    OptionalOneOf(body.issueType, IssueTypes, InvalidIssueType)
    + OptionalText(body.title, TitleCannotBeEmpty, MaxTitle, TitleUnderMax)
    + OptionalText(body.description, DescriptionCannotBeEmpty, MaxDescription, DescriptionUnderMax)
    + OptionalOneOf(body.priority, Priorities, InvalidPriority)
    + OptionalOneOf(body.status, Statuses, InvalidStatus)
  }

  /** A body the update chain accepts, once sanitized, passes every check of
      `updateIssue`, under the same proviso as for create. */
  lemma UpdateValidatorImpliesServiceChecks(body: IssueBody)
    requires UpdateErrors(body) == []
    requires LengthsAgree(Seen(body.title)) && LengthsAgree(Seen(body.description))
    ensures Svc.UpdateViolation(SanitizeTexts(body)).None?
  {
    SanitizedUpdateAccepted(body);
  }

  /** The same, from the field conditions the update chain enforces. */
  lemma SanitizedUpdateAccepted(body: IssueBody)
    requires body.issueType.Some? ==> body.issueType.value in IssueTypes
    requires body.title.Some? ==> TextOk(body.title.value, MaxTitle)
    requires body.description.Some? ==> TextOk(body.description.value, MaxDescription)
    requires body.priority.Some? ==> body.priority.value in Priorities
    requires body.status.Some? ==> body.status.value in Statuses
    requires LengthsAgree(Seen(body.title)) && LengthsAgree(Seen(body.description))
    ensures Svc.UpdateViolation(SanitizeTexts(body)).None?
  {
    var sanitized := SanitizeTexts(body);
    SanitizedTextBounded(body.title, MaxTitle);
    SanitizedTextBounded(body.description, MaxDescription);
    ServiceAcceptsUpdate(sanitized);
  }

  /** An optional text the chain accepts stays within `max` UTF-16 units
      after trimming. */
  lemma SanitizedTextBounded(f: Field, max: nat)
    requires f.Some? ==> TextOk(f.value, max)
    requires LengthsAgree(Seen(f))
    ensures Truthy(TrimField(f)) ==> Utf16Length(TrimField(f).value) <= max
  {
    if f.Some? {
      TextAccepted(f.value, max);
    }
  }

  /** The service's update checks, read as conditions on the body. */
  lemma ServiceAcceptsUpdate(body: IssueBody)
    requires Truthy(body.title) ==> Utf16Length(body.title.value) <= Svc.MaxTitle
    requires Truthy(body.description) ==> Utf16Length(body.description.value) <= Svc.MaxDescription
    requires body.issueType.Some? ==> body.issueType.value in IssueTypes
    requires body.priority.Some? ==> body.priority.value in Priorities
    requires body.status.Some? ==> body.status.value in Statuses
    ensures Svc.UpdateViolation(body).None?
  {
  }

  /** The chain in front of `updateIssue` is what keeps a blank title out:
      the service alone accepts one. */
  lemma UpdateValidatorRejectsBlankTitle(body: IssueBody)
    requires body.title.Some? && AllSpace(body.title.value)
    ensures TitleCannotBeEmpty in UpdateErrors(body)
  {
    TrimEmptyIffAllSpace(body.title.value);
    var prefix := OptionalOneOf(body.issueType, IssueTypes, InvalidIssueType);
    var title := OptionalText(body.title, TitleCannotBeEmpty, MaxTitle, TitleUnderMax);
    assert title == [TitleCannotBeEmpty];
    assert (prefix + title)[|prefix|] == TitleCannotBeEmpty;
  }

  /** `validateFilter`: the optional `type` query parameter must name an
      issue type. */
  function FilterErrors(typeQuery: Field): (errs: seq<string>)
    ensures errs == [] <==> typeQuery.None? || typeQuery.value in IssueTypes
    ensures errs != [] ==> errs == [InvalidFilterType]
  {
    OptionalOneOf(typeQuery, IssueTypes, InvalidFilterType)
  }
}
