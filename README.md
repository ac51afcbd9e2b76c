# erector, modelled in Dafny

erector is a small project scaffolder. It asks the user a list of questions
on the terminal, keeps the answers (optionally in an answers file in the
working directory), and then renders a list of file templates with those
answers: `{{ name }}` tokens in a template's destination path and in its
content are replaced by the answer called `name`, missing directories are
created, and each destination is created, overwritten, updated in place or
left alone.

The repository carries two generations of both halves, and this project
models all four, plus the helpers they use:

| module | file | what it is |
|---|---|---|
| `JsValue` | (shared) | JavaScript values, truthiness, `String(v)`, `trim`, `toLowerCase` |
| `Answers` | (shared) | answer records, question specs, `answers.find` by name |
| `TypeCheck` | src/utils/type-check.js | `getType`, `checkIsType` |
| `Merge` | src/utils/merge.js | `copyValue`, `mergeDeep` |
| `Inquire` | src/inquire.js | the newer question engine, with defaults, a completer, persisted-answer transforms and optional saving |
| `LegacyInquire` | inquire.js | the older question engine, which saves the answers file on every level of its recursion |
| `Construct` | src/construct.js | the newer renderer, with named updater methods |
| `LegacyConstruct` | construct.js | the older renderer, with a global `overwrite` and JSON deep-merge updates |
| `SampleQuestions` | examples/questions.js | the sample question list with its yes/no and whitespace transforms |

Both engines are modelled twice over:
- as pure functions over a finite list of typed inputs (`Inquire.Inquire`,
  `LegacyInquire.Inquire`), which return the answers, the prompts shown, the
  unread inputs and whether the walk finished;
- as a `Session` class whose recursive methods (`Ask`, `Walk`, `Start`)
  consume the inputs, record every prompt and write the answers file in
  place, each proved equal to the function.

If the inputs run out, the walk stops unfinished. This is where the
JavaScript promise would stay pending for ever.

The renderers work the same way. `Construct.Created` and
`Construct.ConstructAll` are transitions on a file-system value (a map from
path to content plus a set of directories). `Construct.Disk` is a class
holding that state, whose methods (`EnsureDirectories`, `Create`,
`ConstructTemplates`) perform the same steps in place with a loop over the
templates and a loop over the directories.

Errors the source raises are modelled as failures:
- reading a directory or a missing file;
- writing a directory, a path that names no file, or a file whose
  directory is missing or is a file (`ensureDirectories` only tests that a
  path exists, so a file on the way down is skipped and the write below it
  throws);
- `mkdir` below a file;
- `Object.keys(null)` in `mergeDeep`;
- a `JSON.parse` syntax error in the older renderer, in the template or in
  the existing destination;
- `startsWith` on a truthy default that is not a string, when the
  completer of the newer engine runs.

A failure ends the run and keeps the changes made before it.

The older renderer shares the newer one's check gate, token substitution,
template lookup and directory creation. The two files behave identically
on the values modelled, so `LegacyConstruct` reuses those members of
`Construct`. They differ on one kind of value the model does not have: the
newer check gate (src/construct.js:19) asks `checkIsType(check, 'function')`,
which names an async or generator function `AsyncFunction` or
`GeneratorFunction` and so skips calling it, while the older one
(construct.js:33) asks `typeof`, which calls it.

## Operations

Each operation of the core is a transparent function or method whose body
follows the cited lines; what it promises is stated by the lemmas of the
"## Model" table named beside it.

| operation | source | models | promise stated by |
|---|---|---|---|
| TypeCheck.CheckIsType | src/utils/type-check.js:3 | `checkIsType` | CheckIsClassName, CheckIsFunction, CheckIsOwnType and CheckIsTypeIgnoresCase |
| Merge.MergeDeep | src/utils/merge.js:5-16 | `mergeDeep` | MergeScalarTarget, MergeArrayTarget, MergeObjectTarget and MergeSucceedsIffMergeable |
| Merge.MergeObject | src/utils/merge.js:25-37 | `mergeObject` | MergeObjectTarget, MergeObjectSucceeds, MergeSharedKey and MergeObjectNullishSource |
| Merge.Spread | src/utils/merge.js:22 | what `concat` appends | MergeArray and MergeArrayTarget |
| Inquire.CompleterFor | src/inquire.js:81-88 | the completer `query` installs | CompleterOffersDefault, CompleterNonStringThrows and Session.ShowPrompt |
| Inquire.CompleteLine | src/inquire.js:84-87 | calling the installed completer | CompleterOffersDefault and CompleterNonStringThrows |
| Inquire.AugmentQuestion | src/inquire.js:108-128 | `augmentQuestion` | AugmentQuestionText, AugmentWithoutDefault and AugmentWithDefault |
| Inquire.GetDefaultAnswer | src/inquire.js:130-139 | `getDefaultAnswer` | FalsyAnswerTakesDefault and DefaultDiscardsInput |
| Inquire.FindAnswer | src/inquire.js:158-166 | `findAnswer` | FindAnswerIsFirst and PersistedShadows |
| Inquire.TransformAnswer | src/inquire.js:168-179 | `transformAnswer` | DefaultDiscardsInput, TruthyAnswerKept and DerivedAnswers |
| Inquire.CheckIsAnswerValid | src/inquire.js:186-196 | `checkIsAnswerValid` | CheckIsAnswerValidByTag, NullishRejected and TruthyAnswerKept |
| Inquire.DeriveAnswer | src/inquire.js:151-156 | `deriveAnswer` | UseAnswer and DerivedAnswers |
| Inquire.Inquire | src/inquire.js:50-63 | the recursive walk `inquire` performs | InquireFrom, InquireCount, InquireRecords and Session.Walk |
| LegacyInquire.GetValueType | inquire.js:133-136 | `getValueType` | GetValueTypeIsGetType and TagOfName |
| LegacyInquire.TransformAnswer | inquire.js:107-115 | `transformAnswer` | Query, DerivedAnswers and RejectedInputLosesAnswers |
| LegacyInquire.CheckIsAnswerValid | inquire.js:121-131 | `checkIsAnswerValid` | CheckIsAnswerValidByTag, ValidityAgreesWithoutDefault and AcceptedAnswer |
| LegacyInquire.Inquire | inquire.js:27-45 | the recursive walk with its write of the answers file | InquireAnswered, InquireCount, InquireWrites, InquireRecords and Session.Walk |
| SampleQuestions.GetYesNoValue | examples/questions.js:15-28 | `getYesNoValue` | YesNoMapping |
| SampleQuestions.SpacesTransform | examples/questions.js:30 | `convertSpaces` as the `foodId` transform | FoodIdDerived |
| Construct.Read | src/construct.js:48 | `fs.readFileSync` | ReadAfterWrite and DirectoryNotFile |
| Construct.Writable | src/construct.js:42 | when `fs.writeFileSync` can write a path | EnsureDirsMakesParent, WriteBelowFileThrows and DirectoryNotFile |
| Construct.Write | src/construct.js:42 | `fs.writeFileSync` | ReadAfterWrite, DirectoryNotFile and WriteBelowFileThrows |
| Construct.Directories | src/construct.js:99-104 | the names `ensureDirectories` walks | DirectoriesBelowRoot, DirectoriesOfOtherPath and DirectoriesFromParts |
| Construct.ReplaceAll | src/construct.js:94-96 | `template.replace` with the token regex | ReplaceAllNoToken, ReplaceAllToken, ReplaceAllPrefix and ReplaceAllSkips |
| Construct.ReplaceAnswer | src/construct.js:93-97 | `replaceAnswer` | RenderOneToken |
| Construct.Render | src/construct.js:78 | the `reduce` of `replaceAnswer` over the answers | RenderNoTokens, RenderOneToken and RenderEmpty |
| Construct.Replace | src/construct.js:73-82 | `replace` | TemplateSource and DestinationIgnoresFiles |
| Construct.CheckCreateFile | src/construct.js:16-24 | `checkCreateFile` | CheckGateSkips and NoCheckCreates |
| Construct.GetUpdateMethod | src/construct.js:59-71 | `getUpdateMethod` | CreateUpdates |
| Construct.Update | src/construct.js:46-57 | `update` | CreateUpdates and CreateOnDirectory |
| Construct.Created | src/construct.js:26-44 | `create` | CreateWritesTemplate, CreateUpdates, CreateKeeps, CreateUnwritableThrows and CreateTouchesOnlyDestination |
| Construct.CreatedAfter | src/construct.js:28-43 | the write decision of `create` once the directories are made | the same lemmas and Disk.WriteDecided |
| Construct.ConstructAll | src/construct.js:8-14 | the exported loop | CheckGateSkips, NoCheckCreates, ConstructAllValid and ConstructAllTouchesOnlyDestinations |
| LegacyConstruct.MergeUpdate | construct.js:20-26 | the JSON update branch | UpdateMerges, UnparsableTemplateThrows, UnparsableExistingThrows and MergeFailureThrows |
| LegacyConstruct.LegacyCreated | construct.js:10-27 | one template of the older loop | AgreesWithNewer, GlobalOverwriteWrites, UpdateMerges and LegacyKeeps |
| LegacyConstruct.LegacyCreatedAfter | construct.js:15-26 | its write decision | LegacyAfterTouchesOnly and WriteDestination |
| LegacyConstruct.LegacyConstructAll | construct.js:7-28 | the older exported loop | LegacyCheckGateSkips, LegacyTouchesOnlyDestinations and LegacyConstruct |

## Model

| member | source | states |
|---|---|---|
| JsValue.Trim | src/inquire.js:109 | `trim()` removes exactly a whitespace prefix and suffix and leaves no whitespace at either end |
| JsValue.TrimIs | src/inquire.js:109 | any slice with only whitespace outside it and none at its ends is the trimmed text |
| JsValue.TrimStart | src/inquire.js:109 | the suffix left after the leading whitespace, starting with a non-space |
| JsValue.TrimEnd | src/inquire.js:109 | the prefix left before the trailing whitespace, ending with a non-space |
| JsValue.Lower | src/utils/type-check.js:7 | the ASCII fold standing for `toLowerCase`: one folded character per character |
| JsValue.LowerChar | src/utils/type-check.js:7 | in the ASCII fold only the letters A-Z change, and they become a-z |
| JsValue.LowerIdempotent | src/utils/type-check.js:3 | lower-casing twice is lower-casing once |
| JsValue.Digit | src/utils/merge.js:28 | a decimal digit character with the right value |
| JsValue.NatToDecimal | src/utils/merge.js:28 | an array index key is a non-empty digit string without a leading zero |
| JsValue.DecimalRoundTrip | src/utils/merge.js:28 | reading an index key back gives the index |
| JsValue.NatToDecimalInjective | src/utils/merge.js:28 | distinct indices give distinct keys |
| JsValue.IntToDecimal | src/inquire.js:100 | `String(n)` is non-empty and starts with `-` exactly for negative numbers |
| JsValue.ToText | src/inquire.js:100 | `'' + v` is the string itself, `[object Object]` for objects, the decimal for numbers, `undefined` gives `"undefined"`, `null` gives `"null"`, `false` and `true` give `"false"` and `"true"`, and `0` gives `"0"` |
| JsValue.JoinWith | src/construct.js:103 | joining no pieces is empty; joining one piece is that piece |
| Answers.Find | src/inquire.js:159 | a found record has the requested name and is in the list |
| Answers.FindFirst | src/inquire.js:159 | nothing is found exactly when no record has the name; otherwise the first such record is found |
| Answers.FindShadows | src/inquire.js:182 | a record already in the earlier answers hides any later one with the same name |
| Answers.FindFallsThrough | src/inquire.js:182 | a name missing from the earlier answers is looked up in the later ones |
| Answers.Answerable | src/inquire.js:50-63 | the leading specs that are asked or derived: all before it are, the next one is neither |
| TypeCheck.GetType | src/utils/type-check.js:5-8 | the tag of each kind of value: `undefined`, `null`, `boolean`, `number`, `string`, `array`, `object`, `date`, `function` |
| TypeCheck.GetTypeSeparatesKinds | src/utils/type-check.js:5-8 | two values get the same tag exactly when they are the same kind |
| TypeCheck.CheckIsClassName | src/utils/type-check.js:3 | the class name `Object.prototype.toString` reports is accepted as the type |
| TypeCheck.CheckIsFunction | src/utils/type-check.js:3 | `checkIsType(v, 'function')` holds exactly for functions |
| TypeCheck.CheckIsOwnType | src/utils/type-check.js:3 | a value always has the type its own tag names |
| TypeCheck.CheckIsTypeIgnoresCase | src/utils/type-check.js:3 | type names equal up to letter case are checked alike |
| TypeCheck.CheckIsTypeCapitals | src/utils/type-check.js:3 | `String` and `STRING` accept a string; `Number` does not |
| Merge.CopyValue | src/utils/merge.js:39-52 | a copy is deep-equal to the original |
| Merge.CopyArray | src/utils/merge.js:54 | an array copy has the same elements |
| Merge.CopyDate | src/utils/merge.js:55 | a date copy has the same time |
| Merge.CopyObject | src/utils/merge.js:56-59 | an object copy has the same properties |
| Merge.IndicesDistinct | src/utils/merge.js:28 | no two array indices share a key |
| Merge.OwnEntries | src/utils/merge.js:28 | `Object.keys` throws exactly for `null` and `undefined`; an object lists its own properties; an array or a string lists exactly its indices, as canonical decimals, each with its element or character; other values list nothing |
| Merge.IndexEntries | src/utils/merge.js:28 | the keys of an array-like value are exactly its indices written in decimal, each holding its element |
| Merge.MergeArray | src/utils/merge.js:18-23 | an array target is followed by the source's elements |
| Merge.MergeScalarTarget | src/utils/merge.js:13-14 | a target that is neither array nor object is replaced by the source |
| Merge.MergeArrayTarget | src/utils/merge.js:18-23 | an array target is followed by the elements of an array source, or by any other source as one element; with an array source the length is the sum |
| Merge.MergeObjectNullishSource | src/utils/merge.js:28 | merging `null` or `undefined` into an object throws |
| Merge.NestedNullThrows | src/utils/merge.js:28-30 | a nested `null` under a key whose target value is an object makes the whole merge throw |
| Merge.MergeObjectTarget | src/utils/merge.js:25-37 | keys of the result are the union; target-only keys are kept; source-only keys and keys whose target value is falsy take the source value; truthy shared keys are merged recursively |
| Merge.MergeSucceedsIffMergeable | src/utils/merge.js:5-37 | the merge throws exactly when some reached source is nullish where the target is an object |
| Merge.MergeObjectSucceeds | src/utils/merge.js:25-37 | an object merge succeeds exactly when every truthy shared key merges |
| Merge.MergeSharedKey | src/utils/merge.js:29-33 | per shared key: merged when the target's value is truthy, replaced otherwise |
| Merge.MergeWithEmptyObject | src/utils/merge.js:25-37 | merging `{}` into an object returns an equal object |
| Merge.MergeLeafObjects | src/utils/merge.js:25-37 | a one-key object merge takes the source's string |
| Merge.MergeJsonExample | test/updaters/json.spec.js:10-18 | `{a:{b:'c'}, d:true}` merged with `{a:{b:'e'}}` is `{a:{b:'e'}, d:true}` |
| Merge.MergeNestedInner | test/utils.spec.js:61-91 | the nested object of the test merges to `{e: date, f: ['a','b','d']}` |
| Merge.MergeNestedExample | test/utils.spec.js:61-91 | the whole test: arrays concatenate, `false` is replaced by `true`, nested objects merge and the date is kept |
| Inquire.CompleterOffersDefault | src/inquire.js:84-87 | on tab the default is offered when the line is a prefix of it, `''` otherwise, and the line is returned |
| Inquire.CompleterNonStringThrows | src/inquire.js:85 | a truthy default that is not a string makes tab completion throw, whatever the line |
| Inquire.AugmentQuestionText | src/inquire.js:108-128 | the prompt is the trimmed question, the default in parentheses before any final punctuation mark, and a trailing space |
| Inquire.AugmentWithoutDefault | src/inquire.js:108-127 | without a truthy default the prompt is the trimmed question and a space |
| Inquire.AugmentWithDefault | src/inquire.js:114-127 | with a truthy default, ` (default)` goes before a final `:`, `.`, `?` or `!`, or at the end |
| Inquire.FindAnswerIsFirst | src/inquire.js:158-166 | `undefined` when no record has the name, else the answer of the first record that has it |
| Inquire.CheckIsAnswerValidByTag | src/inquire.js:186-196 | the same decision taken on `getType`'s tag, as the source switches |
| Inquire.UseAnswer | src/inquire.js:141-149 | the derived record keeps the spec's name and is never `undefined`: a derived `undefined` becomes `''`, anything else is kept |
| Inquire.DerivedAnswers | src/inquire.js:141-179 | copies the source answer; applies the transform to it and the answers, with an `undefined` result becoming `''`; gives `''` for an unknown source or when a truthy default and no transform discard it |
| Inquire.TransformPreviousAnswers | src/inquire.js:39-48 | persisted records keep order and names; those with a transform get its result, the rest are unchanged |
| Inquire.Query | src/inquire.js:76-106 | asks until the first input that is accepted, and returns its accepted value; every earlier input was rejected; without one, every input was rejected and the prompt is still pending |
| Inquire.QueryStep | src/inquire.js:90-105 | one attempt: an accepted input answers, a rejected one asks again with the same answers |
| Inquire.RetryThenAccept | src/inquire.js:104-105 | an `undefined` input is refused and the next string accepted on the second attempt |
| Inquire.RetryShown | src/inquire.js:104-105 | a re-ask shows the same prompt once more per attempt |
| Inquire.DefaultDiscardsInput | src/inquire.js:168-179 | with a truthy default and no transform, any input is accepted, and the answer is the default function's result on the answers, or the plain default itself |
| Inquire.FalsyAnswerTakesDefault | src/inquire.js:130-139 | an accepted answer that is falsy once transformed resolves to the function default called with the answers, the plain default as it is, or `''` without one |
| Inquire.TruthyAnswerKept | src/inquire.js:91-94 | an answer that is truthy once transformed is accepted and kept, whatever the default |
| Inquire.NoDefaultFallsBackToBlank | src/inquire.js:94 | without a default, a falsy accepted answer resolves to `''` |
| Inquire.NullishRejected | src/inquire.js:190-192 | a transform result of `null` or `undefined` is always re-asked |
| Inquire.Dispatch | src/inquire.js:50-63 | a spec with a prompt is asked, one with only `useAnswer` is derived without a prompt, any other stops |
| Inquire.InquireFrom | src/inquire.js:181-184 | the walk is one dispatch followed by the walk of the remaining specs with the answer appended to the lookup list |
| Inquire.InquireAdvance | src/inquire.js:181-184 | advancing the walk by one answered spec keeps answers and prompts in order |
| Inquire.InquireCount | src/inquire.js:50-63 | a finished walk answers exactly the leading asked-or-derived specs; an unfinished one fewer, with no input left |
| Inquire.InquireRecords | src/inquire.js:50-74 | the i-th answer is the i-th spec's record: an asked spec's value is what its query resolves to on the input left at that point, a derived spec's value is `useAnswer` on the lookup list extended by the answers before it |
| Inquire.BuiltFromNames | src/inquire.js:198-201 | the i-th answer is named after the i-th spec |
| Inquire.DispatchOrder | src/inquire.js:50-63 | the first prompt belongs to the first spec; a spec that is neither asked nor derived ends the walk at once |
| Inquire.RejectedInputAsksAgain | src/inquire.js:104-105 | a rejected input shows the same prompt a second time |
| Inquire.PersistedShadows | src/inquire.js:99-101 | persisted answers win the lookup; the pre-fill is `'' + previous answer` unless it is `undefined` |
| Inquire.InquireSingle | src/inquire.js:181-184 | a one-spec walk yields that spec's answer and finishes |
| Inquire.DerivedLast | src/inquire.js:141-149 | a final derived spec adds its record without a prompt and consumes no input |
| Inquire.AskThenDerive | src/inquire.js:65-74 | an asked spec answered by a non-empty string, then a derived spec, answers both in order |
| Inquire.PaddedQuestion | test/inquire.spec.js:97-111 | the padded question trims to `Do you like food?` |
| Inquire.TrimmedPromptExample | test/inquire.spec.js:97-111 | the padded question is shown as `Do you like food? ` |
| Inquire.NoInputAsksAgainExample | test/inquire.spec.js:155-171 | an empty reply shows the same prompt again, and the next reply answers |
| Inquire.DerivedExample | test/inquire.spec.js:193-213 | `pizza` answers `fav` and `derived` copies it |
| Inquire.UnknownSourceExample | test/inquire.spec.js:215-235 | an unknown source gives the derived spec `''` |
| Inquire.TransformExample | test/inquire.spec.js:237-257 | the derived transform gives `pizza is the best!` |
| Inquire.Session.constructor | src/inquire.js:10-18 | a fresh session: the inputs, no prompts, the base completer, the stored answers file |
| Inquire.Session.Complete | src/inquire.js:12 | the reader's completer delegates to whatever completer is installed |
| Inquire.Session.ShowPrompt | src/inquire.js:81-90 | shows the augmented prompt and installs the completer for the default |
| Inquire.Session.Ask | src/inquire.js:76-106 | the recursive re-ask consumes the inputs as `Query` does and shows the prompt once per attempt |
| Inquire.Session.Next | src/inquire.js:50-63 | one dispatch, performed on the session state, agrees with `Dispatch` |
| Inquire.Session.Walk | src/inquire.js:50-63 | the recursive walk agrees with `Inquire` on answers, prompts, inputs and completion |
| Inquire.Session.Start | src/inquire.js:10-37 | the persisted answers, transformed, are the lookup list; the answers file is written exactly when the walk finishes and saving is on |
| LegacyInquire.StripClosing | inquire.js:135 | removing `[object ` and `]` from a bracket-free name followed by `]` leaves the name |
| LegacyInquire.TagOfName | inquire.js:133-136 | stripping the marks and lower-casing gives the same tag as slicing the lower-cased string |
| LegacyInquire.GetValueTypeIsGetType | inquire.js:133-136 | the older `getValueType` agrees with `getType` on every value |
| LegacyInquire.ClassNameNoBrackets | inquire.js:133-136 | no class name contains a bracket |
| LegacyInquire.FindAnswer | inquire.js:87-94 | `undefined` answers find nothing; a found record has the spec's name |
| LegacyInquire.CheckIsAnswerValidByTag | inquire.js:121-131 | the same decision taken on `getValueType`'s tag |
| LegacyInquire.ValidityAgreesWithoutDefault | inquire.js:121-131 | without a truthy default both engines judge an answer alike |
| LegacyInquire.DeriveAnswer | inquire.js:96-105 | a derived record has the spec's name |
| LegacyInquire.DerivedAnswers | inquire.js:96-105 | `''` for an unknown source, else the source answer, transformed when there is a transform |
| LegacyInquire.Query | inquire.js:60-79 | asks until the first accepted input; the first attempt sees the answers, every retry sees `undefined`; the accepted value is the transformed input |
| LegacyInquire.QueryStep | inquire.js:60-79 | one attempt; a rejected input re-asks with the answers dropped |
| LegacyInquire.AcceptedAnswer | inquire.js:62-70 | an accepted answer is neither `null` nor `undefined`, and is `''` only when blanks are allowed |
| LegacyInquire.Prompts | inquire.js:63-74 | the first prompt may be pre-filled, every retry prompt is not |
| LegacyInquire.PromptsRetry | inquire.js:77-78 | the first prompt followed by the retries' prompts is the whole prompt sequence |
| LegacyInquire.RetryShown | inquire.js:77-78 | a retry appends the retry prompts to those already shown |
| LegacyInquire.PrefillOnlyFromRecord | inquire.js:72-74 | the pre-fill is the previous record's answer when one exists, never on a retry; the prompt is the trimmed question and a space |
| LegacyInquire.RejectedInputLosesAnswers | inquire.js:77-78 | after a rejected input the prompt loses its pre-fill and the transform receives `undefined` |
| LegacyInquire.Dispatch | inquire.js:27-37 | asked, derived or stop, as the newer engine dispatches |
| LegacyInquire.DispatchOrder | inquire.js:27-37 | the first prompt is the first spec's; a stop writes the empty list once |
| LegacyInquire.FirstPrompts | inquire.js:47-58 | the first spec's prompts come first |
| LegacyInquire.InquireAnswered | inquire.js:39-44 | each finished level writes its answers after the deeper levels have written theirs |
| LegacyInquire.InquireCount | inquire.js:27-45 | a finished walk answers exactly the leading asked-or-derived specs |
| LegacyInquire.InquireWrites | inquire.js:39-44 | a finished walk of n answers writes the file n+1 times, each time a longer suffix of the answers, and the whole list last; an unfinished walk writes nothing |
| LegacyInquire.SuffixWrites | inquire.js:39-44 | one more level keeps the writes a sequence of growing suffixes |
| LegacyInquire.InquireRecords | inquire.js:27-58 | the i-th answer is the i-th spec's record: an asked spec's value is what its query resolves to on the input left at that point, a derived spec's value is `deriveAnswer` on the extended lookup list |
| LegacyInquire.BuiltFromNames | inquire.js:138-141 | the i-th answer is named after the i-th spec |
| LegacyInquire.AnsweredAtOnce | inquire.js:60-71 | a non-empty string answers an untransformed question on the first prompt |
| LegacyInquire.InquireLast | inquire.js:39-44 | a one-spec walk writes `[]` and then the single answer |
| LegacyInquire.TwoAnsweredWrites | inquire.js:39-44 | two answered questions write `[]`, `[b]`, `[a, b]` |
| LegacyInquire.WritesExample | inquire.js:39-44 | the same for two concrete questions |
| LegacyInquire.Session.constructor | inquire.js:7-17 | a fresh session: the inputs, no prompts, the stored answers file, no writes |
| LegacyInquire.Session.Save | inquire.js:41 | the answers file holds the list and the write is recorded |
| LegacyInquire.Session.ShowPrompt | inquire.js:63 | records the prompt and changes nothing else |
| LegacyInquire.Session.AskQuery | inquire.js:60-79 | the recursive re-ask agrees with `Query` and shows `Prompts` |
| LegacyInquire.Session.Next | inquire.js:27-37 | one dispatch, performed on the session state, agrees with `Dispatch` |
| LegacyInquire.Session.Walk | inquire.js:27-45 | the recursive walk agrees with `Inquire`, including every write of the answers file |
| LegacyInquire.Session.Start | inquire.js:7-25 | the persisted answers are the lookup list; a finished walk leaves its answers in the file |
| SampleQuestions.HandleYesNo | examples/questions.js:3-13 | the result is always `Alright!`, `''` or `null` |
| SampleQuestions.YesNoMapping | examples/questions.js:3-28 | `y`, `yes`, `Alright!` map to `Alright!`; `n`, `no` to `''`; anything else to `null` |
| SampleQuestions.YesNoIsCaseSensitive | examples/questions.js:6 | capitalised replies are rejected |
| SampleQuestions.ConvertSpaces | examples/questions.js:30 | the result is no longer and has no whitespace |
| SampleQuestions.ConvertSpacesKeepsPlain | examples/questions.js:30 | text without whitespace is unchanged |
| SampleQuestions.ConvertSpacesIdempotent | examples/questions.js:30 | removing whitespace twice is removing it once |
| SampleQuestions.ConvertSpacesKeepsOthers | examples/questions.js:30 | every other character keeps its number of occurrences |
| SampleQuestions.ConvertSpacesAppend | examples/questions.js:30 | removal distributes over concatenation, so the kept characters stay in their original order |
| SampleQuestions.Sample | examples/questions.js:32-37 | four specs: three asked, the last derived from `food` |
| SampleQuestions.YesNoAcceptance | examples/questions.js:35 | both engines accept exactly the recognised replies |
| SampleQuestions.FoodIdDerived | examples/questions.js:36 | `foodId` is the `food` answer without whitespace, in both engines |
| SampleQuestions.SampleAnswerable | examples/questions.js:32-37 | the walk covers all four specs |
| Construct.ReadAfterWrite | src/construct.js:42-48 | after a successful write the path reads back the content and every other path reads as before |
| Construct.DirectoryNotFile | src/construct.js:42-48 | reading or writing a directory fails |
| Construct.ParentOfChild | src/construct.js:42 | the directory of `dir/name` is `dir` |
| Construct.Split | src/construct.js:103 | `split` yields at least one piece, none containing the separator |
| Construct.JoinSplit | src/construct.js:103 | joining the pieces of a split gives the string back |
| Construct.SplitJoin | src/construct.js:103 | splitting a join of separator-free pieces gives the pieces back |
| Construct.SplitPlain | src/construct.js:103 | a separator-free string splits into itself |
| Construct.SplitHead | src/construct.js:103 | a split peels off the piece before the first separator |
| Construct.Chain | src/construct.js:106-114 | one visited path per directory name |
| Construct.ChainPaths | src/construct.js:106-114 | the k-th visited path is the root joined with the first k+1 names |
| Construct.DirectoriesBelowRoot | src/construct.js:99-104 | for a path under the working directory, the names walked are all but the file name |
| Construct.DirectoriesOfOtherPath | src/construct.js:102-104 | a path that does not start with the working directory is split whole, and the names walked are the pieces between its first and its last |
| Construct.StripRootBelow | src/construct.js:102 | removing the working directory keeps the leading separator |
| Construct.StripRootPrefix | src/construct.js:102 | removing the working directory from a path that starts with it leaves the rest |
| Construct.SplitLeadingSeparator | src/construct.js:103 | a path with a leading separator splits into `''` and its names |
| Construct.DirectoriesFromParts | src/construct.js:102-104 | the names walked are the split pieces without the first and the last |
| Construct.DirectoriesOfLeadingSeparator | src/construct.js:103-104 | a path that splits into `''` and its names walks every name but the file name |
| Construct.DirectoriesExample | test/construct.spec.js:95-121 | `/this/location/file` walks `this`, then `this/location`, under the working directory |
| Construct.MakeDirs | src/construct.js:106-114 | making directories never changes a file and never removes a directory |
| Construct.MakeDirsCreates | src/construct.js:106-114 | exactly the missing paths on the chain become directories, and afterwards every path on it exists |
| Construct.MakeDirsSucceeds | src/construct.js:106-114 | the walk succeeds when no path on it is a file |
| Construct.MakeDirsValid | src/construct.js:106-114 | no path becomes both a file and a directory |
| Construct.EnsureDirs | src/construct.js:99-115 | creating directories leaves every file as it was |
| Construct.EnsureDirsMakesParent | src/construct.js:31-115 | after `ensureDirectories` on a path below the working directory, its last directory exists exactly when it was not a file, and the destination can be written exactly when it is not a directory and that directory was not a file |
| Construct.ParentBelowRoot | src/construct.js:99-104 | a path below the working directory names a file in its last directory |
| Construct.PathSplitsAtLast | src/construct.js:103-107 | the path is its last directory, the separator and the file name |
| Construct.EnsureDirsBelowRoot | src/construct.js:99-115 | `ensureDirectories` on a path below the working directory walks all its names but the last |
| Construct.LastDirectoryMade | src/construct.js:106-114 | after the walk the last directory exists exactly when it was not a file |
| Construct.LastMadeBelow | src/construct.js:106-114 | the deepest path of a successful walk is a directory exactly when it was not a file |
| Construct.WriteBelowFileThrows | src/construct.js:31-109 | a file on the way down is skipped by the walk, and the write below it fails |
| Construct.SkipWs | src/construct.js:94 | the `\s*` run is no longer than the text |
| Construct.SkipWsRun | src/construct.js:94 | `\s*` is greedy: it takes every leading whitespace character and stops at the first other one |
| Construct.SkipWsOver | src/construct.js:94 | a whitespace prefix adds its length to the run |
| Construct.MatchTokenAt | src/construct.js:94 | the token matches when `{{`, spaces, the name, spaces and `}}` follow in turn |
| Construct.OpeningSkip | src/construct.js:94 | the spaces after `{{` stop at the name, or run through both gaps when the name is empty |
| Construct.TokenShape | src/construct.js:94 | the pieces of a token and their positions |
| Construct.TokenMatches | src/construct.js:94 | `{{`, whitespace, the name, whitespace, `}}` matches the whole token |
| Construct.TokenMatchesShaped | src/construct.js:94 | the same for a non-empty name, given the token's pieces |
| Construct.EmptyTokenMatchesShaped | src/construct.js:94 | the same for an empty name |
| Construct.NoBraceNoToken | src/construct.js:94 | text without `{` contains no token |
| Construct.ReplaceAllNoToken | src/construct.js:93-97 | text without a token is left unchanged |
| Construct.ReplaceAllToken | src/construct.js:93-97 | a token is replaced by the value and the scan goes on after it |
| Construct.ReplaceAllPrefix | src/construct.js:96 | text without `{` before the first token is kept as it is |
| Construct.ReplaceAllSkips | src/construct.js:96 | a character other than `{` is copied |
| Construct.RenderNoTokens | src/construct.js:78 | a template with no token for any answer renders unchanged |
| Construct.RenderOneToken | src/construct.js:93-97 | one token is replaced by `String(answer)` and the text around it is kept |
| Construct.RenderEmpty | src/construct.js:78 | an empty template renders empty |
| Construct.PizzaExample | test/construct.spec.js:170-192 | `this is the {{ name }}!` renders to `this is the pizza!` |
| Construct.GetTemplate | src/construct.js:85-91 | a file path gives that file's content, reading a directory fails, anything else is the template text |
| Construct.TemplateSource | src/construct.js:73-91 | a non-string or empty template renders `''`; an existing file path renders the file; a missing path renders the text itself |
| Construct.DestinationIgnoresFiles | src/construct.js:27 | the destination is rendered as text, never read from a file |
| Construct.CreateWritesTemplate | src/construct.js:33-35 | a missing or overwritten destination receives the rendered template |
| Construct.CreateUpdates | src/construct.js:36-71 | an existing destination with `update` receives the function's result on the existing content and the rendered template; a string naming a registry function uses that function; any other value keeps the existing content |
| Construct.CreateKeeps | src/construct.js:33-43 | an existing destination without `overwrite` or `update` is left alone |
| Construct.CreateUnwritableThrows | src/construct.js:31-43 | a write the file system refuses fails the template, keeping the directories made for it |
| Construct.CreateOnDirectory | src/construct.js:41-42 | writing over a directory fails |
| Construct.CreateTouchesOnlyDestination | src/construct.js:26-44 | a template changes only its destination file, and only the directories made for it |
| Construct.CreateValid | src/construct.js:26-44 | no path becomes both a file and a directory |
| Construct.WriteResultTouchesOnly | src/construct.js:41-42 | a write changes at most the file it names and leaves the directories alone |
| Construct.CheckGateSkips | src/construct.js:8-14 | a template whose check is falsy is skipped |
| Construct.NoCheckCreates | src/construct.js:8-24 | a template without a check function, or whose check is truthy on the answers, is created, and the run goes on only if that succeeded |
| Construct.ConstructAllValid | src/construct.js:8-14 | the whole run keeps files and directories apart and removes no directory |
| Construct.ConstructAllTouchesOnlyDestinations | src/construct.js:8-14 | a path that is no template's destination is unchanged by the run |
| Construct.Disk.constructor | src/construct.js:3 | the disk starts in the given state |
| Construct.Disk.EnsureDirectories | src/construct.js:99-115 | the loop creates the directories as `EnsureDirs` specifies |
| Construct.Disk.WriteFile | src/construct.js:42 | writes one file in place as `WriteResult` specifies: it fails on a path that names no file, a directory, or a missing or non-directory parent |
| Construct.Disk.Create | src/construct.js:26-44 | performs `create` in place, as `Created` specifies |
| Construct.Disk.WriteDecided | src/construct.js:28-43 | the `write`/`output` decision and the write, performed in place, as `CreatedAfter` specifies |
| Construct.Disk.ConstructTemplates | src/construct.js:8-14 | the loop over the templates performs `ConstructAll` in place |
| LegacyConstruct.AgreesWithNewer | construct.js:7-28 | without a global overwrite and without `update`, the older renderer does what the newer one does |
| LegacyConstruct.GlobalOverwriteWrites | construct.js:15-19 | a truthy global `overwrite` writes the rendered template even over an existing file |
| LegacyConstruct.UpdateMerges | construct.js:20-26 | an update writes the JSON of the deep merge of the existing file and the rendered template |
| LegacyConstruct.UnparsableTemplateThrows | construct.js:21 | an update whose rendered template is not JSON fails |
| LegacyConstruct.UnparsableExistingThrows | construct.js:22 | an existing destination that is not JSON makes the update throw, and nothing is written |
| LegacyConstruct.MergeFailureThrows | construct.js:24 | a deep merge that throws makes the update throw, and nothing is written |
| LegacyConstruct.LegacyKeeps | construct.js:15-26 | an existing destination with no overwrite and no update is left alone |
| LegacyConstruct.LegacyTouchesOnlyDestination | construct.js:7-28 | a template changes only its destination file and keeps files and directories apart |
| LegacyConstruct.LegacyAfterTouchesOnly | construct.js:15-26 | whichever branch the write decision takes, only the destination file changes |
| LegacyConstruct.LegacyCheckGateSkips | construct.js:30-38 | a template whose check is falsy is skipped |
| LegacyConstruct.LegacyTouchesOnlyDestinations | construct.js:7-28 | a path that is no template's destination is unchanged by the run |
| LegacyConstruct.LegacyCreate | construct.js:11-26 | performs one template in place, as `LegacyCreated` specifies |
| LegacyConstruct.WriteDestination | construct.js:15-26 | the write-or-update decision, performed in place |
| LegacyConstruct.LegacyConstruct | construct.js:7-28 | the loop over the templates performs `LegacyConstructAll` in place |

## Left out

- Terminal I/O. `readline`, the promise chain and asynchrony are replaced by a finite list of typed inputs and a transcript of prompts. `reader.close()` has no counterpart.
- The answers file is a field of the session, and its path (`utils.getAnswersPath`) is not part of this model. `JSON.parse`/`JSON.stringify` of the answers are identities on records.
- In the older renderer, `JSON.parse` and `JSON.stringify(…, null, 2)` are parameters. The JSON updater in src/updaters/json.js is not part of this model; the registry of named updaters is a parameter.
- File-system errors are one failure. Their kinds and messages are not distinguished.
- The working directory is a parameter and is assumed to exist. Paths are plain strings with `/` as the separator. `path.resolve` does not normalise `.` or `..` here.
- Construct.Writable: paths are map keys compared as plain strings and are never resolved against the working directory. For a relative destination or template path (such as `this/location/f.txt`), or a path with a doubled separator (`/w/a//f`), the model reports a failed write or a missing file where the source, resolving the path first, writes or finds it. `Resolve("/", name)` gives `//name` where `path.resolve` gives `/name`. The same holds for `Construct.Read`, `Construct.Write` and `Construct.GetTemplate`.
- `filepath.replace(rootDirectory, '')` is modelled only where the working directory is a prefix of the path. An occurrence further inside the path is not removed.
- Regular-expression metacharacters in an answer name and `$&`-style patterns in an answer are taken literally. `\s` is the whitespace set of JavaScript.
- `String(date)` is carried as text inside the date value. A function answer is printed as its source text; `String.prototype.replace` would instead call it as a replacer function (src/construct.js:96).
- Function values reach the model only as `Call` alternatives. A `defaultAnswer` or `transform` key holding a plain function value (`Plain(Fn)`) is truthy but is never called: the default counts as truthy and is used as it is, and the transform is treated as absent.
- JsValue.Lower: folds only the ASCII letters A-Z. `toLowerCase` also folds other scripts and can change the length (`İ` becomes two characters), which this model does not capture.
- JsValue.LowerChar: the same ASCII-only fold, one character at a time.
- Numbers are `Num(int)`: fractions, `NaN`, the infinities and `-0` are not modelled, and `String(n)` is the decimal integer.
- Construct.ReplaceAllToken: the scan assumes an answer name that does not begin with whitespace. For such a name the regular expression backtracks out of `\s*` and still matches, while the model's greedy whitespace run does not.
- Merge.MergeObjectTarget: a `__proto__` key is an ordinary property here. In the source, assigning it in `mergeObject` and `copyObject` sets the prototype instead.
- The set of directories is not assumed closed under parents; the file-system value is only kept with files and directories apart.
- Construct.GetUpdateMethod: a plain value held by a registry key or by `update` counts as "no method" even when the host would find a callable there, because only `Call` values can be applied.
- Construct.CheckCreateFile: a `check` that is a plain, non-function value is ignored, as the source does.
- Inquire.TransformPreviousAnswers: a transforms entry that is not a function is treated as absent. The transforms are a map of own keys only: a name inherited from `Object.prototype` (such as `toString` or `constructor`) is found and called in the source, so a persisted record named `toString` gets `"[object Undefined]"` and one named `constructor` gets `Object(answer)`, while the model keeps both records unchanged.
- Answer records with no `answer` key are not modelled; `findAnswer` then returns the record itself in the source.
- Properties inherited through the prototype chain of the updaters registry are not modelled.
- SampleQuestions.SpacesTransform: on a non-string value the source throws, and the model returns `undefined` instead.
- The module wiring (`index.js`, `src/index.js`, `src/utils/index.js`) and the example build script are not part of this model.
