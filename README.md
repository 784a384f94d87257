# i18n-js core in Dafny

A model of the translation engine in `assets/js/i18n.js`, with proofs about it:

- the plural rules (`English`, `Russian`, with `getForm` and `getFormIdx`);
- `PluralizerFactory`, the registry from language code to plural rule;
- `KeyValueStorage` with `TranslationId` and `Translation`;
- `I18nService`: `translate`, `isExist`, `_checkKey`, `_interpolate`, `_getPluralizer`
  and `_resolveOperator`, together with what it reports to its auditor.

Files and modules:

| file | module | models |
|---|---|---|
| `wrappers.dfy` | `Wrappers` | `Option` (JavaScript's `null`) and `Result` (a thrown error) |
| `text.dfy` | `Text` | the JavaScript built-ins the engine relies on: `\w`, `\s`, `indexOf`, `replace`, `split`, number rendering and array-index parsing |
| `plural.dfy` | `Plural` | plural forms, the two rules, and the LDML rules as a reference |
| `pluralizer_factory.dfy` | `Pluralizers` | `PluralizerFactory` as a class over a `map` |
| `storage.dfy` | `Storage` | identities, storage keys, and `KeyValueStorage` as a class over a `map` |
| `operator.dfy` | `Operator` | the operator grammar `%{count, sex -> forms}`: a scanner in place of the global regular expression, and the choice of a variant |
| `interpolation.dfy` | `Interpolation` | the search/replace list of `_interpolate` and how it is applied |
| `service.dfy` | `Service` | `I18nService` as a class, with the value-level specification `TranslateSpec` of `translate` |

How things are represented:

- The auditor is a ghost sequence of (identity, event) pairs that the service
  appends to. The per-language cache of plural rules is a `map` field.
- A parameter value is `Param(text, number)`. `text` is its string conversion, used for
  simple placeholders and for the gender index. `number` is its numeric conversion, used by
  the plural rules. A number is either an integer or a non-integer (fraction, NaN or
  infinity), and both rules answer `other` for every non-integer.
- JavaScript's `%` takes the sign of the dividend. `TruncRem` writes that out, so negative
  counts behave as in the source.
- The parameter object is a sequence of (key, value) pairs in its enumeration order.
- Plural rules are a closed datatype: `English` (used for `en` and `it`) and `Russian`.

Three behaviours of the code worth knowing:

- Plural slots are separated by "," and gender variants by "|". So in
  `"%{count -> item|items}"` the whole forms text is one plural slot with two gender
  variants. Count 5 therefore yields `"item"`, exactly as count 1 does
  (`Operator.SingleSlotIgnoresCount`). Reading the template as "item for one, items
  otherwise" would expect `"items"`. The model follows the code, and
  `Operator.EnglishTwoSlots` shows that `"item,items"` gives that result.
- `_getPluralizer` runs on every interpolation, including one whose template has no
  operator, because the test `if (match)` on an array is always true. A pluralizer miss is
  therefore audited once per language as soon as any template with parameters is
  translated for it.
- On negative integers the rules differ from LDML, which classifies by absolute value:
  -1 is `other` under both rules (`Plural.NegativeOneDiffersFromLdml`).

## Model

| member | source | states |
|---|---|---|
| Text.IsWordChar | assets/js/i18n.js:231 | a `\w` character is none of the operator's punctuation `% { } , \| - >` |
| Text.IsSpace | assets/js/i18n.js:231 | a `\s` character is neither a word character nor any of the operator's punctuation |
| Text.IndexOf | assets/js/i18n.js:43-45 | the first position of an element, or -1 exactly when it is absent |
| Text.FindFrom | assets/js/i18n.js:246-248 | the first occurrence of a pattern at or after a position, or -1 when there is none |
| Text.Find | assets/js/i18n.js:246-248 | the first occurrence of a pattern, or -1 exactly when the string does not contain it |
| Text.ReplaceFirst | assets/js/i18n.js:246-248 | a string without the pattern is left unchanged |
| Text.ReplaceWhole | assets/js/i18n.js:246-248 | replacing a whole string by a text gives that text |
| Text.ReplaceFirstKeepsLater | assets/js/i18n.js:246-248 | an occurrence after the first one survives `replace`, shifted by the length difference |
| Text.Split | assets/js/i18n.js:272 | `split` yields at least one part, and no part holds the separator |
| Text.JoinSplit | assets/js/i18n.js:272 | joining the parts of a split gives back the string |
| Text.SplitJoin | assets/js/i18n.js:272 | splitting a join of separator-free parts gives back the parts |
| Text.SplitAt | assets/js/i18n.js:288 | `split` cuts at the first separator and splits the rest |
| Text.NatToString | assets/js/i18n.js:283 | the decimal rendering of a number is a non-empty digit string without a leading zero |
| Text.IntToString | assets/js/i18n.js:158 | a number's rendering in a storage key is non-empty and has no slash |
| Text.ParseNatToString | assets/js/i18n.js:283 | the rendering of n is read back as the array index n |
| Text.NatToStringOfParse | assets/js/i18n.js:298 | a string is read as index n only when it is n's canonical rendering |
| Plural.Forms | assets/js/i18n.js:50-52 | a rule's form list starts with `one`, ends with `other` and has no repeats |
| Plural.TruncRem | assets/js/i18n.js:87-88 | JavaScript's remainder lies strictly between -b and b and takes the sign of the dividend |
| Plural.TruncRemMultiple | assets/js/i18n.js:87-88 | the remainder differs from the dividend by a multiple of b, which with the bound and the sign fixes it uniquely |
| Plural.GetForm | assets/js/i18n.js:59-99 | every form a rule returns is in that rule's form list |
| Plural.GetFormIdx | assets/js/i18n.js:43-45 | the index is valid, names the number's form, and is 0 exactly when the form is `one` |
| Plural.EnglishForms | assets/js/i18n.js:59-65 | English is `one` exactly for 1 and `other` otherwise, with index 0 or 1 |
| Plural.RussianNonNegative | assets/js/i18n.js:81-99 | on non-negative integers Russian gives `one`, `few` and `many` by the mod-10/mod-100 tests, never `other`, and an index of at most 2 |
| Plural.NonIntegerIsOther | assets/js/i18n.js:82-85 | a non-integer is `other` under both rules, at the last index |
| Plural.AgreesWithLdml | assets/js/i18n.js:32-38 | on non-negative integers and on non-integers, both rules equal the LDML rules they cite |
| Plural.NegativeOneDiffersFromLdml | assets/js/i18n.js:87-98 | for -1 both rules answer `other` where LDML answers `one` |
| Plural.RussianNegative | assets/js/i18n.js:87-98 | a negative Russian integer is `many` exactly when its absolute value ends in 0, and `other` otherwise |
| Plural.Examples | assets/js/i18n.js:59-99 | the classifications of 0, 1, 2, 5, 11, 21 and of a fraction |
| Pluralizers.Builtin | assets/js/i18n.js:103-107 | the built-in registry maps exactly `ru`, `en` and `it` |
| Pluralizers.DefaultLanguage | assets/js/i18n.js:102 | a falsy argument becomes `en`, and any other argument is kept |
| Pluralizers.PluralizerFactory.Init | assets/js/i18n.js:101-108 | the new factory holds the given default and registry and is valid |
| Pluralizers.PluralizerFactory.Create | assets/js/i18n.js:101-112 | construction succeeds exactly when the default language is built in; otherwise it fails with "Unable to lookup pluralizer for fallback language " followed by the language |
| Pluralizers.PluralizerFactory.GetPluralizer | assets/js/i18n.js:115-121 | null exactly for an unregistered language, otherwise the registered rule |
| Pluralizers.PluralizerFactory.GetDefaultPluralizer | assets/js/i18n.js:123-125 | never fails on a valid factory, and equals the lookup of the default language |
| Pluralizers.PluralizerFactory.AddPluralizer | assets/js/i18n.js:127-129 | the language now maps to the rule, every other language maps as before, and the factory stays valid |
| Pluralizers.CreateOutcomes | assets/js/i18n.js:101-111 | no argument or "" means `en`; `ru` and `it` are accepted and `de` is refused |
| Storage.NewTranslationId | assets/js/i18n.js:161-165 | a falsy section id becomes 0 and any other is kept |
| Storage.SectionText | assets/js/i18n.js:158 | a section name appears as it is; a section number appears as a non-empty, slash-free rendering that reads back as the number when it is not negative |
| Storage.BuildKeyLayout | assets/js/i18n.js:157-159 | a storage key is the language, "/", the section text, "/" and the key, in that order and nothing else |
| Storage.DefaultSectionKey | assets/js/i18n.js:157-165 | without a section a template is filed under `lang/0/key` |
| Storage.BuildKeyInjective | assets/js/i18n.js:157-159 | with slash-free language and section text, two storage keys are equal exactly when language, section text and key are |
| Storage.SlashCollision | assets/js/i18n.js:157-159 | with a slash in the language, two different identities share a storage key |
| Storage.Put | assets/js/i18n.js:141-143 | `set` files the text under its key and changes no other key |
| Storage.Lookup | assets/js/i18n.js:136-140 | a stored text is found exactly when its key is present |
| Storage.PutAll | assets/js/i18n.js:147-151 | after `batchSet` every key present before and every key of the batch is present |
| Storage.PutAllLastWins | assets/js/i18n.js:147-151 | after `batchSet`, `get` returns the last translation filed under the key |
| Storage.PutAllOthers | assets/js/i18n.js:147-151 | `batchSet` leaves every key outside the batch untouched, present or absent, with its old value |
| Storage.RemoveAll | assets/js/i18n.js:152-156 | after `batchDelete` a key remains exactly when it was present and no identity names it, with its old value |
| Storage.RemoveAllMissing | assets/js/i18n.js:144-156 | every identity passed to `batchDelete` reads back as null |
| Storage.KeyValueStorage.constructor | assets/js/i18n.js:131-133 | a new store is empty |
| Storage.KeyValueStorage.Get | assets/js/i18n.js:136-140 | the text under the identity's key, or null exactly when there is none |
| Storage.KeyValueStorage.Set | assets/js/i18n.js:141-143 | the new store is the old one with the key overwritten, and `get` then returns the text |
| Storage.KeyValueStorage.Remove | assets/js/i18n.js:144-146 | the new store is the old one without the key, and `get` then returns null |
| Storage.KeyValueStorage.BatchSet | assets/js/i18n.js:147-151 | the loop leaves the store as `set` applied left to right |
| Storage.KeyValueStorage.BatchDelete | assets/js/i18n.js:152-156 | the loop leaves the store as `remove` applied left to right |
| Operator.SkipSpaces | assets/js/i18n.js:231 | `\s*` ends within the text, at or after where it starts |
| Operator.SkipSpacesStops | assets/js/i18n.js:231 | `\s*` consumes only white space and stops at the first character that is not: the longest run |
| Operator.SkipWord | assets/js/i18n.js:231 | `\w+` ends within the text, at or after where it starts |
| Operator.SkipWordStops | assets/js/i18n.js:231 | `\w+` consumes only word characters and stops at the first that is not: the longest run |
| Operator.CloseBrace | assets/js/i18n.js:231 | `[^}]*}` stops at the first closing brace |
| Operator.ParseNames | assets/js/i18n.js:231 | the optional count and sex names are words and the arrow position stays within the text |
| Operator.MatchAt | assets/js/i18n.js:231-233 | a match starts at its position, is the text it covers, starts with "%{", ends with "}", and its forms hold no "}" and do not start with white space |
| Operator.MatchAtGrammar | assets/js/i18n.js:231 | both directions: `MatchAt` finds a token at a position exactly when the text there is `%{count, sex -> forms}` written with some white space (`OperatorAt`), with word names, forms without "}" and not led by white space |
| Operator.MatchAtSound | assets/js/i18n.js:231 | whatever `MatchAt` finds is an operator written out by the grammar |
| Operator.MatchAtOperatorText | assets/js/i18n.js:231 | an operator written out at a position, with or without the sex group and with any white space, is matched there with its names and forms |
| Operator.ParseNamesOf | assets/js/i18n.js:231 | the names written out with their white space are read back, and the arrow is found right after them |
| Operator.MatchArrow | assets/js/i18n.js:231 | the same shape after the names, keeping the names that were read |
| Operator.OperatorShape | assets/js/i18n.js:231 | such a match is at least five characters long, from "%{" to "}" |
| Operator.Matches | assets/js/i18n.js:233-235 | one regular-expression result per position of the text |
| Operator.MatchesValid | assets/js/i18n.js:233-235 | every match starts where it stands and ends within the text |
| Operator.Walk | assets/js/i18n.js:233-235 | the global search's tokens start at or after the search position and end within the text |
| Operator.WalkTokensMatch | assets/js/i18n.js:233-235 | each token of the search is the match at its start |
| Operator.WalkOrdered | assets/js/i18n.js:233-235 | the tokens follow one another without overlap |
| Operator.WalkEmpty | assets/js/i18n.js:233-235 | an empty search means no match from the search position on |
| Operator.WalkLeadingGap | assets/js/i18n.js:233-235 | no match lies before the first token |
| Operator.WalkTrailingGap | assets/js/i18n.js:233-235 | no match lies after the last token |
| Operator.WalkInnerGaps | assets/js/i18n.js:233-235 | no match lies between consecutive tokens |
| Operator.Scan | assets/js/i18n.js:233-235 | the operators of a template lie within it, at or after the scan position |
| Operator.NoMatchFromTable | assets/js/i18n.js:233-235 | a stretch without table entries is a stretch where the expression matches nowhere |
| Operator.ScanTokensMatch | assets/js/i18n.js:233-235 | each operator found is the regular expression's match at its position |
| Operator.MatchOpens | assets/js/i18n.js:231 | every match starts with "%{" in the text |
| Operator.ScanOpens | assets/js/i18n.js:233-235 | the first operator found starts with "%{" |
| Operator.ScanOrdered | assets/js/i18n.js:233-235 | the operators found do not overlap and are in text order |
| Operator.ScanEmpty | assets/js/i18n.js:233-235 | when nothing is found, the expression matches nowhere from the start position |
| Operator.ScanLeadingGap | assets/js/i18n.js:233-235 | nothing matches before the first operator found |
| Operator.ScanTrailingGap | assets/js/i18n.js:233-235 | nothing matches after the last operator found |
| Operator.ScanInnerGaps | assets/js/i18n.js:233-235 | nothing matches between two consecutive operators found |
| Operator.ScanStep | assets/js/i18n.js:233-235 | one `exec` step: take the match and resume at its end, or move on by one |
| Operator.ScanAdvance | assets/js/i18n.js:233-235 | after one `exec` step the tokens collected so far followed by the rest of the scan are still all operators of the template |
| Operator.FindOperators | assets/js/i18n.js:229-235 | the `exec` loop collects exactly the operators of the template |
| Operator.ParamOf | assets/js/i18n.js:277-281 | `params[name]` is absent exactly when no own key is the name, and otherwise is the value of the first such key |
| Operator.PluralIndex | assets/js/i18n.js:274-286 | slot 0 without a count name, slot 0 and a key miss for an absent count, otherwise `getFormIdx` of the count clamped to 0 when there is no such slot |
| Operator.SexIndex | assets/js/i18n.js:289-301 | variant 0 without a sex name or value; otherwise the variant the value names as an index, or 0 when there is no such variant |
| Operator.Select | assets/js/i18n.js:272-303 | a key miss is reported exactly when the operator names a count parameter that `params` lacks |
| Operator.SelectIsVariant | assets/js/i18n.js:272-303 | the chosen text is one variant of one slot: it stands in the forms text and holds no ",", "\|" or "}" |
| Operator.PartOfJoin | assets/js/i18n.js:272 | every part of a split stands in the text that was split |
| Operator.SexIndexOfNumber | assets/js/i18n.js:296-300 | a sex value given as the number n selects variant n whenever there is one |
| Operator.SplitNone | assets/js/i18n.js:272 | forms without a "," are a single plural slot |
| Operator.SplitOnce | assets/js/i18n.js:288 | a slot with one "\|" has two gender variants |
| Operator.FirstVariant | assets/js/i18n.js:272-303 | forms without a "," and an operator without a sex name yield the first gender variant |
| Operator.SingleSlotIgnoresCount | assets/js/i18n.js:272-303 | forms without a "," yield their first gender variant whatever the count and the rule |
| Operator.EnglishTwoSlots | assets/js/i18n.js:272-303 | with two slots under English, count 1 or a missing count selects the first and any other count the second |
| Interpolation.Placeholder | assets/js/i18n.js:225 | a simple placeholder is "%{", the name, and "}", so it holds the name between its braces |
| Interpolation.SimpleSubs | assets/js/i18n.js:224-227 | one entry per parameter, in key order, from its placeholder to its text |
| Interpolation.OperatorSubs | assets/js/i18n.js:240-243 | one entry per operator found |
| Interpolation.OperatorSubsSnoc | assets/js/i18n.js:240-243 | one more operator adds its own entry at the end |
| Interpolation.OperatorSubsEntry | assets/js/i18n.js:240-243 | entry i replaces operator i's whole text by the variant it selects |
| Interpolation.ApplySubstitutions | assets/js/i18n.js:246-248 | the loop applies each entry to the string rewritten so far, in list order |
| Interpolation.ApplyAll | assets/js/i18n.js:246-248 | when no search text of the list occurs in the string, the string is left unchanged |
| Interpolation.OperatorNeedsOpening | assets/js/i18n.js:231-235 | a template with an operator contains "%{" |
| Interpolation.PlaceholdersNeedOpening | assets/js/i18n.js:224-227 | a template without "%{" contains no simple placeholder |
| Interpolation.SearchesNeedOpening | assets/js/i18n.js:224-248 | no search text of the list occurs in a template without "%{", so the list leaves it as it is |
| Interpolation.Interpolated | assets/js/i18n.js:220-250 | a template without "%{" comes back unchanged, whatever the rule and the parameters |
| Interpolation.RepeatedPlaceholderSurvives | assets/js/i18n.js:246-248 | a simple placeholder that occurs twice is substituted only once |
| Interpolation.CountOperatorScanned | assets/js/i18n.js:229-235 | the template `%{c -> f}` holds exactly one operator, with count name c and forms f |
| Interpolation.CountOperatorHasNoPlaceholder | assets/js/i18n.js:224-227 | the template `%{c -> f}` does not contain c's simple placeholder `%{c}` |
| Interpolation.SingleEntries | assets/js/i18n.js:224-244 | for one parameter and one operator the list is the placeholder's entry, then the operator's |
| Interpolation.ApplyTwo | assets/js/i18n.js:246-248 | a two-entry list replaces the first entry's search text, then the second's |
| Interpolation.SingleOperatorTemplate | assets/js/i18n.js:220-250 | a template that is one operator and holds no placeholder of its one parameter becomes the variant the operator selects |
| Interpolation.TwoFormsUnderEnglish | assets/js/i18n.js:272-303 | the forms `a,b` under English select a for a count of 1 and b for any other count |
| Interpolation.EnglishCountOperator | assets/js/i18n.js:220-303 | end to end: under English, the template `%{c -> a,b}` with parameter c interpolates to a when c is 1 and to b otherwise |
| Service.Code | assets/js/i18n.js:9-13 | the numeric event codes are below 5, and 0 is exactly KEY_USE |
| Service.AllKeyChars | assets/js/i18n.js:217 | true exactly when every character is allowed in a key |
| Service.CheckKey | assets/js/i18n.js:216-218 | a key is valid exactly when it is non-empty and uses only `a-z 0-9 . # = { } [ ] -` |
| Service.ValidKeyCharacters | assets/js/i18n.js:216-218 | a valid key has no slash, "%", space or upper-case letter |
| Service.LookupRule | assets/js/i18n.js:252-263 | the cached rule, else the registered rule, else the default with a pluralizer miss, and the miss exactly when neither has the language |
| Service.KeyMisses | assets/js/i18n.js:275-279 | resolving operators logs only key misses, at most one per operator |
| Service.HitEvents | assets/js/i18n.js:202-209 | a hit logs KEY_USE, then a pluralizer miss exactly when there was one, then only key misses, and never KEYWORD_MISS |
| Service.InvalidKeyOutcome | assets/js/i18n.js:190-193 | an invalid key gives "" and exactly one KEY_INVALID, whatever the store holds |
| Service.MissingTemplateOutcome | assets/js/i18n.js:195-200 | a valid key without a template gives the key and exactly one KEY_MISS |
| Service.NoParamsOutcome | assets/js/i18n.js:202-209 | without parameters the stored template comes back verbatim after one KEY_USE |
| Service.PlaceholderFreeOutcome | assets/js/i18n.js:187-250 | a stored template without "%{" comes back unchanged whatever the parameters |
| Service.TranslateSpec | assets/js/i18n.js:187-210 | every call logs at least one event, and first exactly one of KEY_INVALID, KEY_MISS and KEY_USE, following the ladder |
| Service.OutcomeLaterEvents | assets/js/i18n.js:252-293 | the later events of a call are at most one pluralizer miss right after the first, then key misses; KEYWORD_MISS is never logged |
| Service.OutcomeCache | assets/js/i18n.js:252-263 | a pluralizer miss happens only for an uncached language, which is cached afterwards; the cache never loses a language |
| Service.InvariantAfterMiss | assets/js/i18n.js:256-260 | logging a pluralizer miss for an uncached language, then caching whatever rule it gets, keeps every missed language cached and missed once |
| Service.InvariantAfterEvent | assets/js/i18n.js:191-202 | logging any event other than a pluralizer miss keeps the audit invariant |
| Service.InvariantAfterOtherEvents | assets/js/i18n.js:275-279 | events other than pluralizer misses keep the audit invariant |
| Service.InvariantAfterCaching | assets/js/i18n.js:253-255 | caching a rule keeps the audit invariant |
| Service.ResolveStep | assets/js/i18n.js:240-243 | one more operator extends the list by its resolution and the audit by its key miss |
| Service.I18nService.constructor | assets/js/i18n.js:178-184 | a new service has an empty cache and an empty audit, and is valid |
| Service.I18nService.Log | assets/js/i18n.js:191-278 | each `_auditor.log` call appends one (identity, event) pair to the audit trail |
| Service.I18nService.IsExist | assets/js/i18n.js:212-214 | true exactly when a template is stored under the key; it cannot log |
| Service.I18nService.GetPluralizer | assets/js/i18n.js:252-263 | returns and caches `LookupRule`'s rule and logs its pluralizer miss, keeping the audit invariant |
| Service.I18nService.ResolveOperator | assets/js/i18n.js:265-304 | returns the variant `Select` chooses and logs one key miss exactly when the count parameter is absent |
| Service.I18nService.PlaceholderSubs | assets/js/i18n.js:224-227 | the first loop builds exactly the simple-placeholder list |
| Service.I18nService.ResolveAll | assets/js/i18n.js:237-244 | the operator loop builds exactly the operator list and logs exactly their key misses, in order |
| Service.I18nService.Interpolate | assets/js/i18n.js:220-250 | returns the interpolated template and updates the cache and the audit as `LookupRule` and the operators' key misses say |
| Service.I18nService.Translate | assets/js/i18n.js:187-210 | the result, the new cache and the appended audit are those of `TranslateSpec`, and no language is ever logged as a pluralizer miss twice |

## Left out

- The build script (`gulpfile.js`), the UMD/AMD export wrapper and `NullAuditor` are not modelled. The auditor is the ghost sequence `audit`.
- JavaScript objects used as dictionaries are modelled as `map`s, so keys such as `toString` or `__proto__` that reach `Object.prototype` (for example in `_pluralizers[lang]`) are not modelled.
- Operator.SexIndex: a sex value such as `"length"` is treated as no index. In the source, `bySex.hasOwnProperty("length")` is true, so the array's length would be substituted.
- Operator.PluralIndex: loose `==` on values that are not numbers is covered only through their numeric conversion `Param.number`.
- Integers are unbounded. Counts beyond 2^53, where JavaScript numbers lose precision, are not modelled.
- Service.I18nService.ResolveOperator: a sex parameter whose value is `null` or `undefined` makes `sex.toString()` throw in the source. The model reads such a value as its string form and selects variant 0.
- Text.ReplaceFirst: the replacement text is inserted literally. The `$&`, `$$` and similar replacement patterns of `String.prototype.replace` are not modelled.
- Pluralizers.PluralizerFactory.AddPluralizer: it registers one of the two built-in rules, not an arbitrary constructor function.
- Storage.SectionText: section ids are integers or strings. Fractional and other non-integer section ids, and falsy values other than absent, 0 and "" (such as `NaN`, `false` and `null`), are not modelled.
- Operator.ParamOf: a parameter list may repeat a key, which a JavaScript object cannot. With a repeated key, `Interpolation.SimpleSubs` makes one entry per pair while `ParamOf` reads the first pair.
- The enumeration order of `params` (`for ... in`) is the order of the pair sequence, taken as given. JavaScript lists integer-like keys first.
- KEYWORD_MISS is never logged; the source leaves it as a TODO for a missing sex parameter. `Service.OutcomeLaterEvents` proves it never appears.
- Interpolation.OperatorSubs: its own contract states only the length. The content of each entry is stated by `Interpolation.OperatorSubsEntry`.
- Operator.Select: its own contract states only when a key miss is reported. What it chooses is stated by `Operator.PluralIndex`, `Operator.SexIndex`, `Operator.SelectIsVariant`, `Operator.SingleSlotIgnoresCount` and `Operator.EnglishTwoSlots`.
- The regular-expression engine is replaced by the deterministic scanner `Operator.MatchAt`. The scanner relies on the fact that this expression never needs to backtrack into a different match.
