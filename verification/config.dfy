/** The options of one configured instance (`configure(options)`), as far as the
    assertion engine reads them. User-supplied expander, stripper and type-guesser
    functions are not part of this model; the defaults are built in. */
module Config {

  /** Message templates, exposed for localization; `%s` marks where values go. */
  datatype Templates = Templates(unmet: string, extra: string, mismatch: string, unknown: string, orWord: string)

  /** What to do with a validation failure: a falsy `onError` returns the result, a
      function is called with the error and the result, any other value throws. */
  datatype ErrorPolicy = Silent | Callback(id: nat) | Throw

  datatype Options = Options(
    separator: string,       // separates the alternatives of a type union
    any: string,             // the type that matches every value
    strict: bool,            // when false, missing tokens and types default to `any`
    positions: seq<string>,  // friendly names of argument positions
    templates: Templates,
    onError: ErrorPolicy)

  /** The default texts, written around their `%s` placeholders. */
  const DefaultTemplates := Templates(
    "expected at least " + "%s" + " argument(s) but got " + "%s" + ".",
    "expected no more than " + "%s" + " argument(s) but got " + "%s" + ".",
    "%s" + " arg has type " + "%s" + " but only " + "%s" + " is allowed.",
    "validator " + "%s" + " could not be found.",
    "or")

  const DefaultPositions := ["first", "second", "third", "fourth", "fifth", "sixth", "seventh"]

  const Defaults := Options("|", "any", false, DefaultPositions, DefaultTemplates, Throw)
}
