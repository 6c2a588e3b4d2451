/** The request-body checks shared by the three validators: how a missing
    field is seen, the trim sanitizer, and `handleValidationErrors`. */
module Validation {
  import opened Wrappers
  import opened Text
  import opened Errors
  import opened Entities

  const Separator: string := ", "

  /** The value a validator sees: a missing field reads as the empty string. */
  function Seen(f: Field): string {
    f.GetOr("")
  }

  /** The `trim()` sanitizer, which rewrites a present field in place. */
  function TrimField(f: Field): (r: Field)
    ensures r.None? <==> f.None?
    ensures r.Some? ==> r.value == Trim(f.value) && |r.value| <= |f.value|
  {
    if f.Some? then Some(Trim(f.value)) else None
  }

  /** One failed check contributes its message, a passed one nothing. */
  function Check(ok: bool, message: string): (r: seq<string>)
    ensures r == [] <==> ok
  {
    if ok then [] else [message]
  }

  /** `.isIn(allowed)` on a required field. */
  function OneOf(f: Field, allowed: seq<string>, message: string): (r: seq<string>)
    ensures r == [] <==> Seen(f) in allowed
    ensures r != [] ==> r == [message]
  {
    Check(Seen(f) in allowed, message)
  }

  /** `.optional().isIn(allowed)`: a missing field is not checked. */
  function OptionalOneOf(f: Field, allowed: seq<string>, message: string): (r: seq<string>)
    ensures r == [] <==> (f.Some? ==> f.value in allowed)
    ensures r != [] ==> r == [message]
  {
    if f.None? then [] else OneOf(f, allowed, message)
  }

  /** What `trim().notEmpty().isLength({max})` accepts; `isLength` counts
      with validator.js's measure. */
  predicate TextOk(v: string, max: nat) {
    Trim(v) != "" && ValidatorLength(Trim(v)) <= max
  }

  /** `.trim().notEmpty().isLength({max})` on a required field: both checks
      run, so each failing one adds its message. */
  function RequiredText(f: Field, emptyMessage: string, max: nat, longMessage: string): (r: seq<string>)
    ensures r == [] <==> TextOk(Seen(f), max)
    ensures Trim(Seen(f)) == "" ==> r == [emptyMessage]
  {
    var v := Trim(Seen(f));
    Check(v != "", emptyMessage) + Check(ValidatorLength(v) <= max, longMessage)
  }

  /** The same chain behind `.optional()`. */
  function OptionalText(f: Field, emptyMessage: string, max: nat, longMessage: string): (r: seq<string>)
    ensures r == [] <==> (f.Some? ==> TextOk(f.value, max))
    ensures f.Some? && Trim(f.value) == "" ==> r == [emptyMessage]
  {
    if f.None? then [] else RequiredText(f, emptyMessage, max, longMessage)
  }

  /** `.optional().trim().isLength({max})`: an empty text passes. */
  function OptionalMaxLength(f: Field, max: nat, message: string): (r: seq<string>)
    ensures r == [] <==> (f.Some? ==> ValidatorLength(Trim(f.value)) <= max)
    ensures r != [] ==> r == [message]
  {
    if f.None? then [] else Check(ValidatorLength(Trim(f.value)) <= max, message)
  }

  /** `handleValidationErrors`: no message lets the request through; any
      message throws one validation error listing them all, in order,
      separated by `", "`. */
  function HandleValidationErrors(messages: seq<string>): (o: Outcome<Error>)
    ensures o.Next? <==> messages == []
    ensures o.Throw? ==> o.error.ValidationError? && o.error.message == Join(messages, Separator)
    ensures o.Throw? ==> messages[0] <= o.error.message
  {
    if messages == [] then Next else Throw(ValidationError(Join(messages, Separator)))
  }

  /** A later message is appended after the earlier ones. */
  lemma ReportsEveryMessage(messages: seq<string>, last: string)
    requires messages != []
    ensures HandleValidationErrors(messages + [last])
            == Throw(ValidationError(HandleValidationErrors(messages).error.message + Separator + last))
  {
    JoinSnoc(messages, Separator, last);
  }
}
