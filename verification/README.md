# argsert in Dafny

A model of the assertion engine of argsert (`src/argsert.ts`), a small library that
checks a function's arguments against a map string such as
`'<string> <age:number> [string]'`. Angle brackets mark a required argument, square
brackets an optional one, `name:` names it, `|` separates alternative types and `...`
repeats the last marked token. One configured instance holds options and a registry of
named validators. `assert` turns the map into tokens, binds the tokens to the supplied
values and runs the validators until one of them fails.

The model follows the program's structure, one module per concern:

- `Values` (`values.dfy`): runtime values by kind and the default type guesser `parseType`.
- `JsString` (`jsstring.dfy`): the JavaScript string operations the engine relies on.
  These are `trim`, `indexOf`, `lastIndexOf`, `replace`, `split` and `join`, plus number
  printing and the `%s`/`%%` part of Node's `util.format`.
- `Grammar` (`grammar.dfy`): the default expander `/([\[<])\S+([\]>])/g` and the default
  stripper `/[<>\[\]]/g` plus `trim`.
  - The regular expression is modelled twice. `ScanMatches` is the scan the matcher
    performs: greedy `\S+`, then backtracking to a closer, then resuming after the match.
  - `Tokens` is a word-by-word description: from a word's first opener to its last
    closer.
  - `ScanMatchesIsTokens` proves the two agree.
- `Config` (`config.dfy`): the options record and the default templates.
- `Normalization` (`normalize.dfy`): `normalize`. It drops trailing `undefined` values,
  fixes the effective length, materializes the repeat marker and pads with `[any]`.
- `Binder` (`binder.dfy`): `parseMap` and its descriptors and index lists.
- `Validators` (`validators.dfy`): `unmetArgs`, `extraArgs` and `mismatchArgs`.
- `Registry` (`registry.dfy`): the validator registry and its enablement state machine.
  This covers `toggleValidators`, `enable`, `disable`, `enabled`, `disabled`, `add`,
  `remove`, `once` and `reset`, plus the `option` getter/setter and the initial state
  built by `configure`.
- `Pipeline` (`pipeline.dfy`): `assert` and `handleError`. This includes the label
  shift, the early `null`, the validator loop and the error policy.
- `Scenarios` (`scenarios.dfy`): the eight cases of `src/test.spec.ts`, taken in the
  order `src/test.spec.ts` declares them, sharing one instance's state, each proved end
  to end.

User-supplied handlers (validators and the `onError` callback) are parameters:

- a handler is known by an identity and its declared parameter count;
- what it returns for a given result is a function `Behaviour` fixed for one call.

`console.warn` output is a log of warnings held in the state.

Two details of the code that the model keeps as written:

- **Empty type list.** The empty-types default (`src/argsert.ts:306-307`) is reachable
  with an empty `separator` option, because `"".split("")` returns `[]`.
  `AllowedTypes` and `UntypedPositionMatches` cover that case.
- **Name segment.** The name of a position is `names[0]` only
  (`names[0] || positions[i]`, `src/argsert.ts:293`). An empty first segment falls back
  to the positional name, even when a later segment is non-empty.

## Model

| member | source | states |
|---|---|---|
| Values.TypeOf | src/argsert.ts:149-162 | `null` and `undefined` are the only values tagged "null" and "undefined", and no value is tagged with the `any` type |
| Values.TypeOfInjective | src/argsert.ts:149-162 | different kinds of value never share a tag |
| JsString.Trim | src/argsert.ts:172 | the result is a slice of the input with only white space cut from either end, and it starts and ends with a non-space character; a string without white space is left unchanged |
| JsString.IndexOf | src/argsert.ts:234 | the result is -1 or a position where the pattern occurs, and the pattern occurs at no earlier position |
| JsString.ReplaceFirst | src/argsert.ts:235 | a string without the pattern is unchanged; otherwise the first occurrence of the pattern, and only it, is exchanged for the replacement |
| JsString.LastIndexOfChar | src/argsert.ts:282 | the result is -1 or a position holding the character, and no later position holds it |
| JsString.Split | src/argsert.ts:286-290 | a non-empty separator always gives at least one piece; the empty separator gives one piece per character |
| JsString.JoinSplit | src/argsert.ts:286-290 | joining the pieces of a split with the same separator gives back the string |
| JsString.SplitPiecesFree | src/argsert.ts:286-290 | no piece of a split on a non-empty separator contains that separator |
| JsString.ParseNatToString | src/argsert.ts:71 | the decimal text printed for a count reads back as that count |
| JsString.FormatTwo | src/argsert.ts:71 | filling a template `p %s q %s r` with two arguments puts them in place of the placeholders, in order |
| JsString.FormatThree | src/argsert.ts:103 | filling a template `p %s q %s r %s u` with three arguments puts them in place of the placeholders, in order |
| Grammar.RunLength | src/argsert.ts:13 | the run of non-space characters at the start of a string ends at white space or at the end |
| Grammar.LastCloserIn | src/argsert.ts:13 | the result is -1 or a closer inside the range, and no closer follows it in the range |
| Grammar.MatchLength | src/argsert.ts:13 | a match starting at an opener is at least three characters long (opener, one character, closer) |
| Grammar.Tokens | src/argsert.ts:13 | every token starts with an opener, ends with a closer, is at least three long and holds no white space |
| Grammar.ScanMatchesIsTokens | src/argsert.ts:13 | the regular expression's global match finds exactly the word-by-word tokens |
| Grammar.ScanWord | src/argsert.ts:13 | scanning a string that starts with a word yields that word's token, if any, then the matches after the word |
| Grammar.WordTokenTail | src/argsert.ts:13 | dropping a first character that is not an opener does not change a word's token |
| Grammar.TokensJoin | src/argsert.ts:13 | well-formed tokens written with single spaces between them are found again, in order |
| Grammar.WordTokenWhole | src/argsert.ts:13 | a well-formed token is matched whole |
| Grammar.TokensTrim | src/argsert.ts:187 | trimming the map before matching does not change the tokens |
| Grammar.TokensLeadingSpace | src/argsert.ts:187 | white space in front of a map adds no tokens |
| Grammar.TokensTrailingSpace | src/argsert.ts:187 | white space after a map adds no tokens |
| Grammar.Expand | src/argsert.ts:184-188 | the expander fails (null match) exactly when the map has no token, and otherwise yields the word-by-word tokens |
| Grammar.RemoveBrackets | src/argsert.ts:14 | the result holds no bracket and is no longer than the input |
| Grammar.RemoveBracketsFree | src/argsert.ts:14 | a string without brackets is left unchanged |
| Grammar.RemoveBracketsAppend | src/argsert.ts:14 | removing brackets works piecewise over a concatenation |
| Grammar.Strip | src/argsert.ts:169-173 | the stripped token holds no bracket and neither starts nor ends with white space; a token without white space only loses its brackets |
| Grammar.StripWrapped | src/argsert.ts:172 | stripping a bracketed word with no inner brackets or white space gives back what was inside |
| Grammar.NoSpaceKept | src/argsert.ts:172 | removing the brackets of a token introduces no white space |
| Normalization.TrimUndefined | src/argsert.ts:223 | the result is a prefix of the values that does not end in `undefined`, and everything dropped was `undefined` |
| Normalization.LastRepeat | src/argsert.ts:233-240 | the index found holds the `...` marker and no later token does |
| Normalization.Repeat | src/argsert.ts:233-248 | every token loses its first `...`, and `max(0, len - (k + 1))` copies of the last marked token (index `k`) are appended at the end |
| Normalization.Pad | src/argsert.ts:251-252 | strict mode never pads; otherwise `[any]` tokens are appended until there are at least `len`, and the original tokens stay in front |
| Normalization.Normalize | src/argsert.ts:216-261 | fails exactly when the map has no token; otherwise gives the trimmed values, the override or the trimmed count as length, and the token count of the repeat and padding steps |
| Normalization.NormalizeTokens | src/argsert.ts:233-252 | each normalized token is a raw token without its first `...`, a copy of the last marked token, or `[any]` padding, in that order |
| Normalization.NormalizeUnmarked | src/argsert.ts:242-252 | without a repeat marker the normalized tokens are the raw tokens, padded outside strict mode |
| Binder.SplitToken | src/argsert.ts:282-291 | there are name segments exactly when the token holds a `:`, at least one then and none otherwise |
| Binder.SplitTokenRoundTrip | src/argsert.ts:282-291 | the name segments and the type list join back to the stripped token; the split is at the last `:`, so no name segment and no type holds a `:`, and no type holds the separator |
| Binder.AllowedTypes | src/argsert.ts:304-315 | strict mode keeps the declared types; otherwise an empty list becomes `[any]`, and an optional `undefined` or `null` value adds its own type; nothing else is added |
| Binder.Describe | src/argsert.ts:276-315 | the descriptor at position `i` has index `i`, is required exactly when its token starts with `<`, and carries the value at `i`, its type, the declared name and the allowed types |
| Binder.IndexListsShaped | src/argsert.ts:317-318 | the required and optional lists are ascending, below the token count, and hold exactly the `<...>` and the other positions |
| Binder.ParseMap | src/argsert.ts:271-325 | one descriptor per token at its own index, `max` is the token count, `actual` is the length, and the two index lists partition the positions in order |
| Validators.Prefix | src/argsert.ts:69 | an empty label adds nothing, a non-empty one adds itself and a space |
| Validators.UnmetArgs | src/argsert.ts:68-73 | fails exactly when the length is below the count of required positions, with the message built from the `unmet` template |
| Validators.ExtraArgs | src/argsert.ts:75-80 | fails exactly when the length exceeds `max`, with the message built from the `extra` template |
| Validators.DisplayName | src/argsert.ts:98 | the descriptor's own name when it has a non-empty one, else the positional name, and `undefined` for a position past the positional names |
| Validators.MismatchReport | src/argsert.ts:95-105 | the failure carries the offending descriptor and the `mismatch` template filled with name, type and allowed types joined by the `or` word |
| Validators.FirstBad | src/argsert.ts:87-93 | every key before the result passes, and the key at the result does not |
| Validators.ScanKeysIsFirstBad | src/argsert.ts:84-109 | the key loop returns nothing when every key passes, throws when the first failing key is out of range, and otherwise reports that key |
| Validators.MismatchArgs | src/argsert.ts:82-111 | passes exactly when every required-then-optional key names a matching descriptor |
| Validators.MismatchInRange | src/argsert.ts:84-109 | with every key in range the check never throws, and a failure reports the first non-matching position in required-then-optional order |
| Validators.MismatchOnParsed | src/argsert.ts:89 | on a bound result every key names a descriptor, so the type check never throws |
| Validators.ExtraNeverFailsLenient | src/argsert.ts:251-252 | outside strict mode the padding keeps `extraArgs` from ever failing on a normalized call |
| Validators.ExtraStrict | src/argsert.ts:77 | in strict mode `extraArgs` fails exactly when the length exceeds the declared tokens plus the repeated copies |
| Validators.LenientPositionMatches | src/argsert.ts:311-315 | outside strict mode an optional position with a missing or `null` value always matches |
| Validators.UntypedPositionMatches | src/argsert.ts:306-307 | outside strict mode a position without declared types accepts every value |
| Validators.UnmetMessage | src/argsert.ts:68-73 | with the default templates the message reads "[label ]expected at least R argument(s) but got A." |
| Validators.ExtraMessage | src/argsert.ts:75-80 | with the default templates the message reads "[label ]expected no more than M argument(s) but got A." |
| Validators.MismatchMessage | src/argsert.ts:102-105 | with the default templates the message reads "[label ]<name> arg has type <type> but only <t1 or t2 ...> is allowed." |
| Pipeline.MapOf | src/argsert.ts:397-398 | a non-empty string is a map; a non-empty array or a function with parameters faults later; everything else returns `null` |
| Pipeline.ValuesOf | src/argsert.ts:218 | an array is taken as it is, a string gives one string per character, a function one hole per parameter, anything else nothing |
| Pipeline.RefOf | src/argsert.ts:415-418 | only a truthy argument (not missing, not `''`, not `0`) selects a validator: a function inline, a non-empty string by name |
| Pipeline.Consult | src/argsert.ts:429-438 | an inline function always runs; a name runs its entry exactly when it is registered and not disabled |
| Pipeline.RunValidators | src/argsert.ts:423-451 | a throwing handler is reported with how many names were shifted off, at least one and at most all |
| Pipeline.FirstDecisive | src/argsert.ts:423-451 | no validator before the result stops the loop, and the one at the result does |
| Pipeline.RunIsFirstDecisive | src/argsert.ts:423-451 | the loop ends at the first decisive verdict: no failure when there is none, a throw there, or that verdict's failure |
| Pipeline.DisabledSkipped | src/argsert.ts:436 | a disabled entry is skipped even when it is the validator named explicitly |
| Pipeline.AllSkipped | src/argsert.ts:435-436 | when every entry is disabled, running any list of names decides nothing |
| Pipeline.ByNames | src/argsert.ts:416 | one name reference per name, in order |
| Pipeline.HandleError | src/argsert.ts:121-142 | the call answers `undefined` exactly under the throwing policy, and then only logs a fault; under the other two policies the state is untouched and the result comes back with the failure stored, after the callback exactly when `onError` is a function |
| Pipeline.Validate | src/argsert.ts:412-462 | registry, options and default lists are untouched; a returned result is the bound one, with `once` cleared and only a failure added; a throwing handler leaves a `once` list it ran from shortened by the names shifted off it, and any other `once` as it was |
| Pipeline.Assert | src/argsert.ts:384-470 | returns `null` exactly for an empty map and then changes nothing; a malformed map, and a non-empty map with no token, are caught faults; a returned result carries the caller's label and leaves `once` cleared |
| Pipeline.ValidateOutcome | src/argsert.ts:412-462 | the validator stage returns the bound result with no failure when no selected validator decides; a first decisive verdict that throws is a logged fault that leaves the rest of a `once` list after it; any other first decisive verdict's failure goes to `handleError` with `once` cleared |
| Pipeline.AssertOutcome | src/argsert.ts:406-462 | when the map holds at least one token it binds, and the answer is the result with no failure when no validator decides, and otherwise the first decisive failure handed to `handleError` |
| Pipeline.AssertThrows | src/argsert.ts:423-468 | under the default throwing policy a call with a token-bearing map answers `undefined` exactly when some selected validator is decisive |
| Pipeline.ValidateStopsAt | src/argsert.ts:423-460 | when the validators before position `j` stay silent and the one at `j` fails, `once` is cleared and that failure goes to `handleError` |
| Pipeline.ValidatePasses | src/argsert.ts:423-462 | when no selected validator decides, `once` is cleared and the bound result comes back without a failure |
| Registry.Names | src/argsert.ts:198 | one name per entry, in registry order |
| Registry.Find | src/argsert.ts:202 | finds the first entry with the name exactly when the name is registered |
| Registry.Lookup | src/argsert.ts:435 | gives an entry with the name exactly when the name is registered |
| Registry.LookupAt | src/argsert.ts:435 | with distinct names, looking up the name of entry `i` gives entry `i` |
| Registry.Put | src/argsert.ts:359 | a known name keeps its position and a new one goes last; the new entry is found by its name, other entries stay, and distinct names stay distinct |
| Registry.PutAll | src/argsert.ts:47-59 | every name put is registered afterwards, no earlier name is lost, and distinct names stay distinct |
| Registry.PutAllFresh | src/argsert.ts:47-59 | entries with distinct new names are appended in the order given |
| Registry.LookupFrame | src/argsert.ts:359 | storing one entry leaves the lookup of every other name unchanged |
| Registry.Select | src/argsert.ts:351 | the positions an `Object.keys(...).filter(...)` keeps: ascending, each one kept, and as many as there are kept entries |
| Registry.SelectComplete | src/argsert.ts:351 | every kept position is among the selected ones |
| Registry.ListedNamesMembers | src/argsert.ts:351 | a name is in an ordered listing exactly when some kept entry has it |
| Registry.DeleteLookup | src/argsert.ts:368 | deleting one name leaves the lookup of every other name unchanged |
| Registry.Delete | src/argsert.ts:368 | the remaining entries are exactly the entries without the name, in their old relative order; distinct names stay distinct |
| Registry.EnabledNames | src/argsert.ts:351 | the names of the enabled entries, in registry order: one per enabled position, taken in ascending position order |
| Registry.DisabledNames | src/argsert.ts:355 | the names of the disabled entries, in registry order; together with the enabled list it is as long as the registry |
| Registry.Partition | src/argsert.ts:348-356 | with distinct names, each registered name is listed by exactly one of `enabled()` and `disabled()` |
| Registry.EnabledNamesAll | src/argsert.ts:351 | with every entry enabled, `enabled()` lists all names in registry order; with none, it lists none |
| Registry.SetEnabled | src/argsert.ts:203 | sets the flag of the entries with the name and changes nothing else |
| Registry.UnknownWarnings | src/argsert.ts:205 | a single name gives one warning with the `unknown` template exactly when it is not registered; nothing is warned about when every listed name is registered |
| Registry.UnknownWarningsAppend | src/argsert.ts:201-206 | the warnings for two lists are those of the first followed by those of the second, so they come one per unknown name in list order |
| Registry.UnknownWarningsMembers | src/argsert.ts:205 | a warning is logged exactly for the listed names that are not registered, each with its formatted message |
| Registry.ToggleEachEffect | src/argsert.ts:201-206 | registered names in the list get the new state, every other entry keeps its own, and each unknown name is warned about, in list order |
| Registry.Toggle | src/argsert.ts:197-207 | an empty list with `allowAll` switches every entry and warns about nothing; otherwise as `ToggleEachEffect`; names and handlers never change |
| Registry.Enable | src/argsert.ts:336-340 | clears `once`; enables every entry when no names are given, else the named ones only; warns once per unknown name in order; options and default lists are untouched |
| Registry.Disable | src/argsert.ts:342-346 | clears `once`; disables every entry when no names are given, else the named ones only; warns once per unknown name in order; options and default lists are untouched |
| Registry.Enabled | src/argsert.ts:348-352 | the pending `once` list when there is one, else the names of the enabled entries in registry order |
| Registry.Disabled | src/argsert.ts:354-356 | the names of the disabled entries in registry order, whatever `once` holds |
| Registry.RemoveFirst | src/argsert.ts:369-372 | removes one occurrence of the name when present, as a multiset |
| Registry.Add | src/argsert.ts:358-365 | the entry is found under its name, other names look up as before, and the name joins the default list matching its flag unless already there |
| Registry.Remove | src/argsert.ts:367-374 | the name leaves the registry and one occurrence leaves each default list; every other name looks up the same entry as before, in the same relative order |
| Registry.Once | src/argsert.ts:376-382 | without names nothing changes; with names every entry is disabled and `enabled()` reports exactly those names |
| Registry.Reset | src/argsert.ts:472-477 | clears `once` and keeps the registered names |
| Registry.ResetEnables | src/argsert.ts:472-477 | after `reset` an entry is enabled exactly when it is a default-enabled one, or when no name is |
| Registry.Configure | src/argsert.ts:47-64 | the three built-ins when no validators are given, else the given ones in order (when their names are distinct); names stay distinct, no `once` is pending, and every name is on a default list |
| Registry.OperationsKeepValid | src/argsert.ts:336-382 | every operation keeps names distinct and every registered name on a default list |
| Registry.Current | src/argsert.ts:329-331 | reading an option gives the value under that key |
| Registry.Apply | src/argsert.ts:332 | storing an option keeps `once`, the log and the default lists, and keeps the registry unless the validators are replaced |
| Registry.OptionRoundTrip | src/argsert.ts:329-334 | reading an option back gives what was stored, and every other option is unchanged |
| Registry.ValidatorsReadBack | src/argsert.ts:332 | validators with distinct names are stored in the order given |
| Scenarios.UnmetScenario | src/test.spec.ts:17-23 | two required positions and one value: the result comes back with "expected at least 2 argument(s) but got 1." |
| Scenarios.ExtraScenario | src/test.spec.ts:25-31 | strict mode, two tokens, three values: the result comes back with "expected no more than 2 argument(s) but got 3." |
| Scenarios.LenientScenario | src/test.spec.ts:33-40 | outside strict mode the same call is padded with `[any]` and passes |
| Scenarios.UnionScenario | src/test.spec.ts:42-48 | `<string\|number>` accepts a string and the missing optional value passes |
| Scenarios.ExtraDisabledScenario | src/test.spec.ts:50-59 | with `extra` disabled the strict call with an extra value passes |
| Scenarios.OnceScenario | src/test.spec.ts:61-64 | `once('unmet').enabled()` is `['unmet']` |
| Scenarios.ToggleAllScenario | src/test.spec.ts:66-71 | `disable().enabled()` is empty and `enable().enabled()` lists the three built-ins in order |
| Scenarios.NamedValidatorScenario | src/test.spec.ts:73-79 | naming `mismatch` runs only it, and it reports "age arg has type string but only number is allowed." |
| Scenarios.AllPass | src/argsert.ts:415-462 | when the counts fit and every position matches, no built-in validator objects and the result comes back untouched |

## Left out

- The `Error` object and its stack rewrite (`src/argsert.ts:124-127`) are not modelled. Only the message is kept, and the rewrite is the identity anyway.
- The text `console.warn` prints is not modelled. Warnings are recorded as entries of a log (`Unknown` with the formatted message, or `Fault`), not as output.
- User-supplied `expander`, `stripper` and `parser` functions are not modelled. Only the defaults are built in; the `parser` option is never consulted by the code either.
- General JavaScript regular expressions are not modelled. Only the two default patterns are, as explicit string functions.
- The `util.format` model is partial. It covers only string arguments and the `%s` and `%%` placeholders. Other specifiers (`%d`, `%j`, `%o`, ...) are copied unchanged rather than formatted.
- Strings are sequences of code points. UTF-16 surrogate pairs, and JavaScript's exact `\s` set beyond the listed white-space characters, are not modelled.
- Values carry only their kind.
  - Numbers carry no payload, so `NaN` or fractional lengths are out of scope.
  - `symbol` and `bigint` values are not modelled.
  - Objects are not inspected beyond their `typeof`.
- The length and validator slots of `assert` cannot hold an array. Its JavaScript coercion would need element payloads, so `Assert` requires `WellTyped`.
- `option(key, value)` under a key other than the seven known options is not modelled. The options bag is a record.
- Registry key order is insertion order. JavaScript orders integer-like keys (such as a validator named `"1"`) first; that ordering, and inherited prototype names, are not modelled.
- Handlers that throw are not modelled beyond the throw itself. What a throwing user handler logs is not modelled; it is recorded as a caught fault, as `assert`'s `catch` does.
- The `onError` callback is identified by a number. Its effects are outside the model.
- HandleError: a callback that throws is not modelled. At `src/argsert.ts:136` such a throw is caught at `:466` and `assert` returns `undefined`; `HandleError` always answers `CallbackThenReturned` for a function policy.
- Validator handlers are pure functions of the bound result. In the code a handler gets the live `result` and may change it, or call `enable`, `disable`, `add`, `remove`, `once` or `option`. The loop re-reads the registry on every turn (`src/argsert.ts:435`), so such calls would change what runs next. Handler side effects are not modelled.
- Templates are replaced as a whole. `Object.assign` at `src/argsert.ts:47` and `option` at `:332` store whatever object is given, so a partial `templates` object leaves the other templates `undefined`. The five-string templates record cannot express a missing template.
- Object identity is not modelled. The `validators` object and `add`'s entry objects are stored by reference, so toggling changes the caller's objects, and one object added under two names toggles under both. Entries here are values, one per name.
- Concurrency is not modelled. The code is single-threaded.
- The compiled `dist/` files and the `validate` overloads declared in `dist/interfaces.d.ts` are not part of this model. The former repeat the source and the latter have no implementation.
- Registry.Reset: the contract states only that `once` is cleared and the names kept. What `reset` does to each flag is stated by `ResetEnables`, under the condition that every name is on a default list.
