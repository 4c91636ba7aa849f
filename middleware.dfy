/**
  The middleware (index.js, JsonSchemaValidation and validate).

  `validate` builds one validator, copies the custom properties registered so
  far into it, and returns a request handler. The handler validates each
  request property named in the schemas under the label "request." + name,
  keeps the results that are not valid, and calls `next` with a
  JsonSchemaValidation holding their formatted errors, or with nothing when
  every property validated.
 */
module Middleware {
  import opened Wrappers
  import opened Formatting
  import opened CustomProperties

  const ValidationName := "JsonSchemaValidation"
  const ValidationMessage := "express-jsonschema: Invalid data found"

  /** The error passed to `next` when the request holds invalid data. */
  datatype JsonSchemaValidation<V> =
    JsonSchemaValidation(name: string, message: string, validations: map<string, seq<Entry<V>>>)

  /** The JsonSchemaValidation constructor: formats the invalid results. */
  method NewJsonSchemaValidation<V>(validations: map<string, ValidatorResult<V>>) returns (e: JsonSchemaValidation<V>)
    ensures e.name == ValidationName && e.message == ValidationMessage
    ensures e.validations.Keys == validations.Keys
    ensures forall k :: k in e.validations ==> e.validations[k] == Format(validations[k].errors)
  {
    var formatted := FormatValidations(validations);
    e := JsonSchemaValidation(ValidationName, ValidationMessage, formatted);
  }

  /** How the handler calls `next`: with no argument, or with the error. */
  datatype Next<V> = Proceed | ProceedWithError(error: JsonSchemaValidation<V>)

  /**
    The middleware returned by `validate`. `validator` stands for the
    jsonschema validator built by `validate`: given the custom attributes
    copied into it, a schema, the request property's data (absent when the
    request has no such property) and the label of the data, it answers
    whether the data is valid and with which errors.
   */
  class ValidationMiddleware<S, D, E, V> {
    const schemas: map<string, S>
    const attributes: map<string, E>
    const validator: (map<string, E>, S, Option<D>, string) -> ValidatorResult<V>

    /** validate(schemas): the custom properties are copied now, once. */
    constructor Validate(schemas: map<string, S>, registry: Registry<E>,
                         validator: (map<string, E>, S, Option<D>, string) -> ValidatorResult<V>)
      ensures this.schemas == schemas && this.validator == validator
      ensures attributes == registry.custom
    {
      var copied := map[];
      var remaining := registry.custom.Keys;
      while remaining != {}
        invariant remaining <= registry.custom.Keys
        invariant copied.Keys == registry.custom.Keys - remaining
        invariant forall attr :: attr in copied ==> copied[attr] == registry.custom[attr]
        decreases remaining
      {
        var attr :| attr in remaining;
        copied := copied[attr := registry.custom[attr]];
        remaining := remaining - {attr};
      }
      this.schemas := schemas;
      this.attributes := copied;
      this.validator := validator;
    }

    /** The validator's answer for one request property of a request: the
        property's schema is applied, with the copied custom attributes, to
        the request's data for that property (absent when the request has no
        such property), under the label "request." followed by its name. */
    function Run(req: map<string, D>, requestProperty: string): ValidatorResult<V>
      requires requestProperty in schemas
    {
      var data := if requestProperty in req then Some(req[requestProperty]) else None;
      validator(attributes, schemas[requestProperty], data, "request." + requestProperty)
    }

    /** Validating one request property reads only that property of the
        request: two requests that agree on it get the same answer. */
    lemma RunReadsOnlyItsKey(req: map<string, D>, req': map<string, D>, requestProperty: string)
      requires requestProperty in schemas
      requires requestProperty in req <==> requestProperty in req'
      requires requestProperty in req ==> req[requestProperty] == req'[requestProperty]
      ensures Run(req, requestProperty) == Run(req', requestProperty)
    {
    }

    /** The request handler: `next()` exactly when every schema key
        validated, otherwise `next(error)` whose report holds exactly the
        keys that did not validate, each with its formatted errors. */
    method Handle(req: map<string, D>) returns (next: Next<V>)
      ensures next.Proceed? <==> forall k :: k in schemas ==> Run(req, k).valid
      ensures next.ProceedWithError? ==>
        && next.error.name == ValidationName
        && next.error.message == ValidationMessage
        && next.error.validations.Keys == (set k | k in schemas && !Run(req, k).valid)
        && forall k :: k in next.error.validations ==> next.error.validations[k] == Format(Run(req, k).errors)
    {
      var validations: map<string, ValidatorResult<V>> := map[];
      var remaining := schemas.Keys;
      while remaining != {}
        invariant remaining <= schemas.Keys
        invariant forall k :: k in validations <==> k in schemas && k !in remaining && !Run(req, k).valid
        invariant forall k :: k in validations ==> validations[k] == Run(req, k)
        decreases remaining
      {
        var requestProperty :| requestProperty in remaining;
        var data := if requestProperty in req then Some(req[requestProperty]) else None;
        var validation := validator(attributes, schemas[requestProperty], data, "request." + requestProperty);
        assert validation == Run(req, requestProperty);
        if !validation.valid {
          validations := validations[requestProperty := validation];
        }
        remaining := remaining - {requestProperty};
      }
      assert validations.Keys == set k | k in schemas && !Run(req, k).valid;
      if |validations| != 0 {
        var error := NewJsonSchemaValidation(validations);
        next := ProceedWithError(error);
      } else {
        assert forall k :: k in schemas ==> k !in validations;
        next := Proceed;
      }
    }
  }

  /** Properties registered after `validate` was called do not change what
      the middleware it returned does. */
  method RegisterAfterValidate<S, D, E, V>(registry: Registry<E>, schemas: map<string, S>,
                                           validator: (map<string, E>, S, Option<D>, string) -> ValidatorResult<V>,
                                           later: seq<(string, E)>, req: map<string, D>)
    returns (before: Next<V>, after: Next<V>)
    requires registry.Valid()
    modifies registry
    ensures before == after
  {
    var middleware := new ValidationMiddleware.Validate(schemas, registry, validator);
    before := middleware.Handle(req);
    var _ := registry.AddSchemaProperties(later);
    after := middleware.Handle(req);
    if before.ProceedWithError? {
      assert before.error.validations == after.error.validations;
    }
  }
}
