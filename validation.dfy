/** Request validation: the collection constraint the controller builds, the violations a
    validator reports for it, and `validateParam`, which turns a non-empty report into an
    exception carrying the first violation's message. */
module Validation {
  import opened Values

  /** The PHP types a `Type` rule can demand (`is_string`, `is_float`). */
  datatype TypeTag = StringType | FloatType

  /** The rules declared for one field: `NotNull` then `Type`, each with its message. */
  datatype FieldRules = FieldRules(notNullMessage: string, typeTag: TypeTag, typeMessage: string)

  /** A `Collection` constraint: the declared fields, whether other keys are allowed, and
      the message template for a missing field. Missing fields are never allowed. */
  datatype Collection = Collection(
    fields: map<string, FieldRules>,
    allowExtraFields: bool,
    missingFieldsMessage: string)

  /** One reported violation: the offending key and its message. */
  datatype Violation = Violation(path: string, message: string)

  const FieldPlaceholder := "{{ field }}"
  const ExtraFieldsMessage := "This field was not expected."

  predicate HasType(v: Value, t: TypeTag)
  {
    match t
    case StringType => v.Str?
    case FloatType => v.Float?
  }

  /** Every occurrence of `pattern` in `s` replaced by `replacement`, left to right. */
  function Replace(s: string, pattern: string, replacement: string): string
    decreases |s|
  {
    if |pattern| == 0 || |s| < |pattern| then s
    else if s[..|pattern|] == pattern then replacement + Replace(s[|pattern|..], pattern, replacement)
    else [s[0]] + Replace(s[1..], pattern, replacement)
  }

  /** The message for a missing field: the template with the quoted field name filled in. */
  function MissingMessage(template: string, field: string): string
  {
    Replace(template, FieldPlaceholder, "\"" + field + "\"")
  }

  /** What the validator reports for `params` against `c`. The validator is outside this
      model: this is its documented behaviour for `Collection`, `NotNull` and `Type`
      (a `Type` rule ignores null, which `NotNull` already reports). Its reporting order
      is not specified, so the result is a set. */
  function Violations(c: Collection, params: Fields): (vs: set<Violation>)
  {
    (set f | f in c.fields && f !in params :: Violation(f, MissingMessage(c.missingFieldsMessage, f)))
    + (set f | f in c.fields && f in params && params[f].Null? :: Violation(f, c.fields[f].notNullMessage))
    + (set f | f in c.fields && f in params && !params[f].Null? && !HasType(params[f], c.fields[f].typeTag)
         :: Violation(f, c.fields[f].typeMessage))
    + (if c.allowExtraFields then {}
       else set k | k in params && k !in c.fields :: Violation(k, ExtraFieldsMessage))
  }

  /** `params` satisfies `c` field by field. */
  predicate Conforms(c: Collection, params: Fields)
  {
    && (forall f :: f in c.fields ==> f in params && HasType(params[f], c.fields[f].typeTag))
    && (!c.allowExtraFields ==> forall k :: k in params ==> k in c.fields)
  }

  /** The validator reports nothing exactly when the parameters conform. */
  lemma NoViolationsIffConforms(c: Collection, params: Fields)
    ensures Violations(c, params) == {} <==> Conforms(c, params)
  {
    if exists f :: f in c.fields && f !in params {
      var f :| f in c.fields && f !in params;
      assert Violation(f, MissingMessage(c.missingFieldsMessage, f)) in Violations(c, params);
    } else if exists f :: f in c.fields && params[f].Null? {
      var f :| f in c.fields && params[f].Null?;
      assert Violation(f, c.fields[f].notNullMessage) in Violations(c, params);
    } else if exists f :: f in c.fields && !HasType(params[f], c.fields[f].typeTag) {
      var f :| f in c.fields && !HasType(params[f], c.fields[f].typeTag);
      assert Violation(f, c.fields[f].typeMessage) in Violations(c, params);
    } else if !c.allowExtraFields && exists k :: k in params && k !in c.fields {
      var k :| k in params && k !in c.fields;
      assert Violation(k, ExtraFieldsMessage) in Violations(c, params);
    }
  }

  /** `errors` is a report of exactly the violations `vs`, in some order. */
  predicate Reports(errors: seq<Violation>, vs: set<Violation>)
  {
    && (forall v :: v in errors ==> v in vs)
    && (forall v :: v in vs ==> v in errors)
  }

  /** `validateParam`: `Ok(true)` when the validator reports nothing, otherwise the thrown
      exception with the message of the first violation reported. It never yields false and,
      being a function of its arguments, changes nothing. */
  function ValidateParam(params: Fields, c: Collection, errors: seq<Violation>): (r: Result<bool, string>)
    requires Reports(errors, Violations(c, params))
    ensures r.Ok? <==> Conforms(c, params)
    ensures r.Ok? ==> r.value
    ensures r.Err? ==> |errors| > 0 && r.error == errors[0].message
    ensures r.Err? ==> exists v :: v in Violations(c, params) && v.message == r.error
  {
    NoViolationsIffConforms(c, params);
    if |errors| > 0 then
      assert errors[0] in Violations(c, params);
      Err(errors[0].message)
    else
      assert Violations(c, params) == {};
      Ok(true)
  }
}
