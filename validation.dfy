/**
 * The express-validator rule chains of the request middleware. The `.trim()` sanitizer
 * rewrites the body field in place, so each chain returns the sanitized fields that the
 * handler behind it goes on to read.
 */
module Validation {
  import opened Wrappers
  import opened JsString
  import SchoolModel

  /** One failed rule, named by the body field it checked. */
  datatype FieldError = FieldError(field: string)

  /** Variation selectors U+FE0E and U+FE0F, which `isLength` does not count as characters. */
  predicate IsPresentationSelector(c: char) {
    c == '\U{FE0E}' || c == '\U{FE0F}'
  }

  /** The length `isLength` measures: code points, not counting presentation selectors. */
  function ValidatorLength(s: string): (n: nat)
    ensures n <= |s|
    ensures (forall k :: 0 <= k < |s| ==> !IsPresentationSelector(s[k])) ==> n == |s|
  {
    if s == [] then 0 else (if IsPresentationSelector(s[0]) then 0 else 1) + ValidatorLength(s[1..])
  }

  /** `isLength({min, max})`. */
  predicate IsLength(s: string, min: nat, max: nat) {
    min <= ValidatorLength(s) <= max
  }

  /** `handleValidationErrors`: 400 with the errors, or on to the handler. */
  function HandleValidationErrors(errors: seq<FieldError>): (g: Gate)
    ensures g.Next? <==> errors == []
    ensures g.Halt? ==> g.error == InvalidInput
  {
    if errors == [] then Next else Halt(InvalidInput)
  }

  function Check(ok: bool, field: string): seq<FieldError> {
    if ok then [] else [FieldError(field)]
  }

  /** The errors of `validateSchool` on the trimmed name and city. */
  function SchoolErrors(name: string, city: string): seq<FieldError> {
    Check(IsLength(Trim(name), 7, 39), "name") + Check(IsLength(Trim(city), 3, 14), "city")
  }

  /** `validateSchool`: the request goes on, with trimmed name and city, exactly when both lengths fit. */
  function ValidateSchool(name: string, city: string): (r: Result<(string, string)>)
    ensures r.Ok? <==> IsLength(Trim(name), 7, 39) && IsLength(Trim(city), 3, 14)
    ensures r.Ok? ==> r.value == (Trim(name), Trim(city))
    ensures r.Err? ==> r.error == InvalidInput
  {
    match HandleValidationErrors(SchoolErrors(name, city))
    case Next => Ok((Trim(name), Trim(city)))
    case Halt(e) => Err(e)
  }

  /** The errors of `validateRumor`: the class must be a listed label, whatever the institution. */
  function RumorErrors(classLabel: string, content: string): seq<FieldError> {
    Check(SchoolModel.IsClassLabel(classLabel), "class") + Check(IsLength(Trim(content), 10, 10000), "content")
  }

  /** `validateRumor`: the request goes on, with the class and the trimmed content, exactly when both rules hold. */
  function ValidateRumor(classLabel: string, content: string): (r: Result<(string, string)>)
    ensures r.Ok? <==> SchoolModel.IsClassLabel(classLabel) && IsLength(Trim(content), 10, 10000)
    ensures r.Ok? ==> r.value == (classLabel, Trim(content))
    ensures r.Err? ==> r.error == InvalidInput
  {
    match HandleValidationErrors(RumorErrors(classLabel, content))
    case Next => Ok((classLabel, Trim(content)))
    case Halt(e) => Err(e)
  }

  /** A name `validateSchool` accepts is at least 7 UTF-16 units long, above the schema's minimum of 3. */
  lemma ValidatedNameNotTooShort(name: string, city: string)
    requires ValidateSchool(name, city).Ok?
    ensures 7 <= Utf16Length(Trim(name)) && 3 <= Utf16Length(Trim(city))
  {
  }

  /**
   * For text in the Basic Multilingual Plane without presentation selectors, the two
   * length measures agree, so a school `validateSchool` accepts also fits the schema.
   */
  lemma ValidatedSchoolFitsSchema(name: string, city: string)
    requires ValidateSchool(name, city).Ok?
    requires forall k :: 0 <= k < |Trim(name)| ==> Trim(name)[k] as int <= 0xFFFF && !IsPresentationSelector(Trim(name)[k])
    requires forall k :: 0 <= k < |Trim(city)| ==> Trim(city)[k] as int <= 0xFFFF && !IsPresentationSelector(Trim(city)[k])
    ensures SchoolModel.NameWithinSchema(Trim(name)) && SchoolModel.CityWithinSchema(Trim(city))
  {
    Utf16LengthBmp(Trim(name));
    Utf16LengthBmp(Trim(city));
  }

  /**
   * The two measures differ outside that range: a name of 39 astral code points passes
   * `validateSchool` but is 78 UTF-16 units long, beyond the schema maximum.
   */
  lemma AstralNamePassesValidatorOnly(name: string, city: string)
    requires |name| == 39 && forall k :: 0 <= k < |name| ==> name[k] == '\U{1F600}'
    requires IsLength(Trim(city), 3, 14)
    ensures ValidateSchool(name, city).Ok? && !SchoolModel.NameWithinSchema(Trim(name))
  {
    TrimOfUnpadded(name);
    AstralLength(name);
  }

  lemma {:induction false} AstralLength(s: string)
    requires forall k :: 0 <= k < |s| ==> s[k] == '\U{1F600}'
    ensures Utf16Length(s) == 2 * |s| && ValidatorLength(s) == |s|
  {
    if s != [] {
      AstralLength(s[1..]);
    }
  }
}
