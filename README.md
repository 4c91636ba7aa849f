# express-jsonschema, modelled in Dafny

express-jsonschema turns the `jsonschema` validator into Express middleware.
`validate(schemas)` builds a validator and returns a request handler. The
handler validates each request property named in `schemas` (`body`, `query`,
...) and either calls `next()` or calls `next(new JsonSchemaValidation(...))`.
That error carries a report: for each request property that failed, the
validator's flat error list grouped into entries `{property, value, messages}`.
`addSchemaProperties` adds custom schema keywords to a process-wide registry. It
throws `JsonSchemaCustomPropertyError` at the first name that is a built-in
validator attribute.

The model has four modules, one file each:

- `Wrappers` (wrappers.dfy): an `Option` type.
- `Formatting` (formatting.dfy): `formatValidations`.
  - `Format` is the specification function. It takes one `Step` per error, as the source's `forEach` does.
  - `IsGrouping` is an independent description: maximal runs of equal paths, front to back.
  - The lemmas prove that `Format` is the one and only grouping, and they derive the properties the report promises from that.
  - `FormatErrors` and `FormatValidations` are the loops of the source, proved against `Format`.
- `CustomProperties` (custom_properties.dfy): the error message template and its read-back, plus the `Registry` class that models the module-level `customProperties` object. `AddSchemaProperties` is its loop, and it may stop partway through.
- `Middleware` (middleware.dfy): the `JsonSchemaValidation` error, plus the `ValidationMiddleware` class.
  - Its constructor `Validate` copies the registry once.
  - `Handle` is the request handler. The `Next` value it returns stands for the call to `next`.

The `jsonschema` validator is a parameter. It is a function from (custom
attributes, schema, request data or absent, label) to `(valid, errors)`.
Built-in attribute names are a set given to the `Registry`.

The model follows the code in three places where it is easy to assume otherwise:

- `addSchemaProperties` checks a new name only against a freshly built
  validator's attributes (index.js:124-126), not against names registered
  earlier. Registering an existing custom name again therefore silently
  replaces its evaluator (`RegisterLastWins`). Only a built-in name throws.
- The handler only ever calls `next` (index.js:188-192).
- A raw error is read only for `property`, `message` and `instance`
  (index.js:37-47). No separate instance path is used.

## Model

| member | source | states |
|---|---|---|
| `Formatting.Step` | index.js:37-48 | one error handled: a new entry is opened exactly when there is no entry yet or the last entry's path differs, and the new entry holds the error's path, instance and message. All earlier entries are unchanged, and a continued entry keeps its value. The error's message is appended to the messages in order, and the last entry carries the error's path |
| `Formatting.Format` | index.js:36-49 | the formatted list is never longer than the error list, is empty exactly when there are no errors, and its last entry has the last error's path |
| `Formatting.StepPreservesGrouping` | index.js:37-48 | handling one more error (open a new entry on a path change, otherwise append the message to the current entry) keeps the entries a grouping of the errors seen so far |
| `Formatting.FormatIsGrouping` | index.js:36-49 | the pass splits the errors into maximal runs of equal paths, in order. Each entry carries its run's path, the instance of the run's first error and the run's messages in order |
| `Formatting.GroupingUnique` | index.js:37-47 | an error list has only one such grouping |
| `Formatting.FormatIsTheGrouping` | index.js:36-49 | an entry list equals the pass's output if and only if it is a grouping of the errors |
| `Formatting.GroupingKeepsMessages` | index.js:43-47 | concatenating the entries' messages gives exactly the errors' messages: none dropped, duplicated or reordered |
| `Formatting.GroupingAdjacentDistinct` | index.js:37-45 | consecutive entries have different paths |
| `Formatting.GroupingEntryAt` | index.js:40-47 | entry k covers the errors from its offset on. Its value is the first of them's instance, and each of its messages comes from an error with its path |
| `Formatting.FormatCountsRuns` | index.js:37-45 | the number of entries is the number of positions where a run of equal paths starts, so grouping is by adjacency and not by global key |
| `Formatting.OneRunOneEntry` | index.js:37-47 | errors that all share one path give one entry with all their messages and the first error's value |
| `Formatting.NoRunsOneEntryEach` | index.js:37-45 | when neighbouring errors never share a path, each error gets its own one-message entry |
| `Formatting.AdjacentRunMerges` | index.js:37-47 | [(p1,m1),(p1,m2),(p2,m3)] formats to [{p1,[m1,m2]},{p2,[m3]}] |
| `Formatting.SeparatedRunsStaySeparate` | index.js:37-45 | [(p1,m1),(p2,m2),(p1,m3)] formats to three entries. The second p1 error is not merged into the first |
| `Formatting.FormatErrors` | index.js:32-49 | the loop, with `current` starting absent, returns exactly `Format` of the errors. Its messages concatenate to the error messages, and its adjacent entries differ in path |
| `Formatting.FormatValidations` | index.js:28-55 | the report has exactly the input's request-property keys, and each key maps to the formatted errors of that property |
| `CustomProperties.NewCustomPropertyError` | index.js:69-79 | the error is named JsonSchemaCustomPropertyError, and its message is the fixed template around the property name, from which the name reads back unchanged |
| `CustomProperties.MessageIdentifiesProperty` | index.js:74-78 | two property names give the same message exactly when they are the same name |
| `CustomProperties.MinLengthMessage` | test/unit.js:9-18 | the message for "minLength" is exactly the text the unit test expects |
| `CustomProperties.FirstBuiltin` | index.js:125-128 | the position where registration stops: every earlier name is not built in, and the name there (if any) is built in |
| `CustomProperties.Register` | index.js:125-130 | writing properties one after another leaves the old names plus all new names registered |
| `CustomProperties.RegisterKeepsOthers` | index.js:129 | a name that no new property carries keeps its old entry (or stays absent) |
| `CustomProperties.RegisterLastWins` | index.js:129 | a name maps to the evaluator of the last new property carrying it |
| `CustomProperties.Registry.constructor` | index.js:7-8 | the registry starts empty |
| `CustomProperties.Registry.AddSchemaProperties` | index.js:123-131 | the call throws the error for the first built-in name and no error if there is none. Exactly the names before it are registered (they stay registered after the throw), and no registered name is ever a built-in |
| `Middleware.NewJsonSchemaValidation` | index.js:94-103 | the error is named JsonSchemaValidation, has the fixed message, and its report has the input's keys, each mapping to the formatted errors |
| `Middleware.ValidationMiddleware.Validate` | index.js:160-171 | the middleware keeps the schemas as they are at this moment and a copy of the custom properties registered at this moment |
| `Middleware.ValidationMiddleware.RunReadsOnlyItsKey` | index.js:179-183 | one key's validation reads only that key of the request: two requests that both lack the key, or hold equal data under it, get the same answer. `Run`, the reference definition of this one validator call that `Handle`'s contract is stated in, applies the key's schema to `req[key]` (absent when missing) under the label "request." + key |
| `Middleware.ValidationMiddleware.Handle` | index.js:173-193 | each schema key is validated under the label "request." + key. `next()` happens exactly when every key validated. Otherwise the error is a JsonSchemaValidation whose report keys are exactly the keys that did not validate, each with its formatted errors |
| `Middleware.RegisterAfterValidate` | index.js:169-171 | properties registered after `validate` leave the built middleware's outcome for any request unchanged |

## Left out

- The `jsonschema` library is not modelled. This covers type, format and length checks, `$ref` resolution and its message texts. It appears as the `validator` parameter.
- `schemaDependencies` and `validator.addSchema` (index.js:163-167) are not modelled. They only configure that foreign validator, so they are folded into the `validator` parameter.
- The built-in attribute table is the `builtins` set given to the registry. It contains whatever names a fresh validator's attribute lookup answers truthily for.
- The evaluators of custom properties are an opaque type parameter. What they check belongs to the validator.
- Express plumbing is not modelled: `req`/`res`, body parsing, the error-handling middleware and the HTTP status. A request is a map from request-property name to data, and `next` is the returned `Next` value.
- The key order of JavaScript objects is not modelled for the report or for the schemas: the model uses `map`s. `addSchemaProperties` does take its new properties as a sequence in key order, because the order decides which names are registered before a throw.
- `currentPropertyValidation` aliases the last pushed entry, and the source pushes messages into that entry in place. The model replaces the last element of the entry sequence with the extended entry, which has the same observable result.
- `formatValidations` does not change its input, so equal inputs give equal reports. `Format` is a Dafny function, so the model has the same property without a lemma.
- A validator that throws is not modelled. `validator.validate` (index.js:179-183) is not guarded. A `SchemaError`, for example from an unresolved `$ref` or from a custom evaluator, ends the handler before `next` is called. The model's `validator` is a total function, so every request ends in `Proceed` or `ProceedWithError`.
- The source holds the caller's `schemas` object by reference and reads its keys on every request (index.js:175-176). A key the caller adds to that object after `validate` is validated by the source. The model takes the schemas as a value when the middleware is built, so later changes to the caller's object are not seen.
- Concurrent use of the module-level registry is not modelled. The source does not address it.
- Special property names that JavaScript treats differently as object keys (such as `__proto__`) are not modelled.
