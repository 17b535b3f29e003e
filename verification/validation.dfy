/**
 The field rules of the create route: `title` and `description` must not be
 empty and `price` must be numeric. The two checks belong to the validation
 library and are left uninterpreted: a `Validator` carries them as functions.
 */
module Validation {
  import opened Courses

  /** The library's `notEmpty` and `isNumeric` checks on one body value. */
  datatype Validator = Validator(notEmpty: Value -> bool, isNumeric: Value -> bool)

  /** The rule the create route declares for each field. */
  function Rule(v: Validator, f: Field): Value -> bool {
    match f
    case Title => v.notEmpty
    case Description => v.notEmpty
    case Price => v.isNumeric
  }

  /**
   Whether field `f` of the body passes its rule. A field the body does not
   carry fails: the library checks a missing field as the empty string,
   which is neither non-empty nor numeric.
   */
  predicate Passes(v: Validator, p: Payload, f: Field) {
    match p.Get(f)
    case Some(x) => Rule(v, f)(x)
    case None => false
  }

  /** Every field passes its rule. */
  predicate Valid(v: Validator, p: Payload) {
    forall f: Field :: Passes(v, p, f)
  }

  /**
   The fields that fail their rule, in declaration order. Every rule is run;
   the failures are collected, not cut short at the first one.
   */
  function Errors(v: Validator, p: Payload): (errs: seq<Field>)
    ensures forall f :: f in errs <==> !Passes(v, p, f)
    ensures errs == [] <==> Valid(v, p)
    ensures |errs| <= 3
  {
    (if Passes(v, p, Title) then [] else [Title])
    + (if Passes(v, p, Description) then [] else [Description])
    + (if Passes(v, p, Price) then [] else [Price])
  }
}
