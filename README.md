# Mock-interview form: response cleaning and form rules

A Dafny model of the logic inside the mock-interview form component of interview_iq
(`src/components/ui/form-mock-interview.tsx`). The component asks a generative-language
model for interview questions and turns its free-text reply into a JSON array with
`cleanAiResponse`, after validating the job details the user typed with a zod schema.

The model covers:

- `cleanAiResponse`, step by step on `string` (`seq<char>`):
  - `TextTrim`: `trim()`, with the ECMAScript whitespace and line-terminator set written out.
  - `TokenStrip`: `replace(/(json|```|`)/g, "")`. It is a single left-to-right scan that tries
    the alternatives in order and never rescans deleted text.
  - `ArrayExtract`: `match(/\[.*\]/s)`. It is a backtracking search: leftmost start, and the
    greedy `.*` gives characters back. It is proved to run from the first `[` to the last `]`.
  - `AiResponse`: the whole pipeline. `JSON.parse` is an abstract parameter that returns a
    value or a syntax error. The two errors thrown (`NoJsonArray`, `InvalidJson`) and their
    messages are modelled.
- `FormSchema`: the four field bounds of `formSchema`, the issues and messages they report,
  and the message the resolver reports for each field (the one its `FormMessage` renders).
- `FormView`: the create/edit labels and toast, and the submit and reset `disabled` rules.

Every operation is a function on values; there is no mutable state in the modelled part.
`FormSchema.CheckIssues` and `FormSchema.NumberIssues` are the definitions of the checks on
lines 28-36, `FormView.SubmitDisabled` of the `disabled` rule on line 278 and
`FormView.SubmitContent` of the button content on line 280; the lemmas about them in the table
state what they promise.
`Wrappers` holds `Option` and `Result`.

## Model

| member | source | states |
|---|---|---|
| TextTrim.SkipLeading | src/components/ui/form-mock-interview.tsx:65 | the scan stops at the first character that is not whitespace, or at the end, having passed only whitespace |
| TextTrim.SkipTrailing | src/components/ui/form-mock-interview.tsx:65 | the backward scan stops after the last character that is not whitespace, or at the start of the text, having passed only whitespace |
| TextTrim.Trim | src/components/ui/form-mock-interview.tsx:65 | the trimmed text neither starts nor ends with whitespace, and it is a contiguous part of the input with only whitespace cut off on either side |
| TextTrim.TrimUnique | src/components/ui/form-mock-interview.tsx:65 | any whitespace-padded infix that neither starts nor ends with whitespace is the trimmed text, so the contract determines trim |
| TextTrim.TrimAroundCore | src/components/ui/form-mock-interview.tsx:65 | trimming around a core that starts and ends with a non-space keeps the core whole; only a suffix of the text before it and a prefix of the text after it remain |
| TokenStrip.MatchLength | src/components/ui/form-mock-interview.tsx:67 | the pattern matches at a position exactly when a backtick or the word `json` begins there |
| TokenStrip.StripTokens | src/components/ui/form-mock-interview.tsx:67 | the result is never longer than the input and contains no backtick |
| TokenStrip.StripIsSubsequence | src/components/ui/form-mock-interview.tsx:67 | the result is a subsequence of the input: the replace only deletes |
| TokenStrip.StripUnchangedIffNoToken | src/components/ui/form-mock-interview.tsx:67 | the text is unchanged exactly when it contains neither `json` nor a backtick; otherwise it gets strictly shorter |
| TokenStrip.StripOmits | src/components/ui/form-mock-interview.tsx:67 | a character missing from the input is missing from the result |
| TokenStrip.StripSplits | src/components/ui/form-mock-interview.tsx:67 | no match straddles the start of a text whose first character occurs in no token, so the scan handles the two sides separately |
| TokenStrip.StripSplitsAt | src/components/ui/form-mock-interview.tsx:67 | no match straddles a character that occurs in no token, so the scan splits there |
| TokenStrip.StripAroundArray | src/components/ui/form-mock-interview.tsx:67 | a bracketed text with no token in it is kept whole, and the text on each side is stripped separately |
| TokenStrip.StripCanCreateJson | src/components/ui/form-mock-interview.tsx:67 | deleting `json` or a backtick between `js` and `on` leaves a `json` that the single pass does not delete |
| TokenStrip.StripTwiceCanDiffer | src/components/ui/form-mock-interview.tsx:67 | a second pass of the replace can change its result: it is not idempotent |
| TokenStrip.StripAltersWords | src/components/ui/form-mock-interview.tsx:67 | `package.json` inside answer text becomes `package.` |
| TokenStrip.StripAltersCode | src/components/ui/form-mock-interview.tsx:67 | inline-code backticks inside answer text are removed |
| ArrayExtract.BackOff | src/components/ui/form-mock-interview.tsx:69 | the greedy `.*` backs off to the last `]` before its limit that stands after the `[` at the start (so `[]` matches), and fails exactly when there is none |
| ArrayExtract.MatchAt | src/components/ui/form-mock-interview.tsx:69 | a match starting at a position needs a `[` there and some later `]`; it then ends at the last `]` of the text |
| ArrayExtract.Search | src/components/ui/form-mock-interview.tsx:69 | the leftmost match starts at a `[` with no earlier `[` and ends at a `]` with no later `]`; there is none exactly when no `[` precedes a `]` |
| ArrayExtract.MatchArray | src/components/ui/form-mock-interview.tsx:69-74 | a match exists exactly when some `[` precedes some `]`; it is a contiguous part of the text, starts with `[` and ends with `]` |
| ArrayExtract.MatchIsFirstOpenToLastClose | src/components/ui/form-mock-interview.tsx:69-71 | when the first `[` comes before the last `]`, the match is exactly the text from the one to the other, inclusive |
| ArrayExtract.NoMatchIffNoOpenBeforeLastClose | src/components/ui/form-mock-interview.tsx:69-74 | there is no match exactly when the first `[`, if any, does not come before the last `]` |
| ArrayExtract.MatchBetweenBracketFree | src/components/ui/form-mock-interview.tsx:69-71 | an array with no `[` before it and no `]` after it is the match |
| AiResponse.ErrorMessage | src/components/ui/form-mock-interview.tsx:73-80 | the invalid-JSON message starts with "Invalid JSON format: " and continues with the parser's message; the first letter alone tells it from the no-array message |
| AiResponse.CleanText | src/components/ui/form-mock-interview.tsx:65-67 | the text the search runs on is no longer than the reply, holds no backtick, and is a subsequence of the trimmed reply |
| AiResponse.WrapParse | src/components/ui/form-mock-interview.tsx:77-81 | a parsed value is returned as it is; a failure here is never the no-array error, and its thrown message is "Invalid JSON format: " followed by the parser's message |
| AiResponse.WrapParseInjective | src/components/ui/form-mock-interview.tsx:77-81 | the wrapping loses nothing: results that agree, down to the thrown message, come from the same parser outcome |
| AiResponse.CleanAiResponse | src/components/ui/form-mock-interview.tsx:63-82 | fails with the no-array error exactly when the cleaned text has no `[` before a `]`; a value or a parse error comes from the parser applied to the match |
| AiResponse.ErrorMessageNamesError | src/components/ui/form-mock-interview.tsx:70-81 | the messages "No JSON array found in response" and "Invalid JSON format: " followed by the parser's message never coincide, and the second gives back the parser's message |
| AiResponse.NoArrayNeverParses | src/components/ui/form-mock-interview.tsx:70-74 | without a bracket pair every parser gives the same result, the "No JSON array found in response" error: parsing is never attempted |
| AiResponse.ParserSeesOnlyTheMatch | src/components/ui/form-mock-interview.tsx:71-78 | two parsers that agree on the extracted text give the same result |
| AiResponse.ParsesFirstOpenToLastClose | src/components/ui/form-mock-interview.tsx:69-81 | the parser gets the cleaned text from its first `[` to its last `]`; its value is returned unchecked, and its failure becomes "Invalid JSON format: " followed by its message |
| AiResponse.NoOpenBracketNoArray | src/components/ui/form-mock-interview.tsx:63-74 | a reply without any `[` always ends in the no-array error |
| AiResponse.TrimOmits | src/components/ui/form-mock-interview.tsx:65 | trimming introduces no character that the reply lacks |
| AiResponse.CleanTextAroundArray | src/components/ui/form-mock-interview.tsx:65-67 | trimming and stripping keep a token-free array whole; a text with no `[` before the array and no `]` after it keeps that property |
| AiResponse.ArraySurvivesNoise | src/components/ui/form-mock-interview.tsx:63-82 | prose and code fences around a token-free array do not change the result when no `[` comes before it and no `]` after it: the parser gets exactly the array |
| AiResponse.FencedReplyParsesArray | src/components/ui/form-mock-interview.tsx:63-82 | a reply of prose, then the array inside a `json` fence, hands the parser the bare array |
| AiResponse.StrayBracketsKeepArray | src/components/ui/form-mock-interview.tsx:63-82 | in "Step 1]:[1](see [note" the stray `]` before the array and `[` after it leave the parser exactly `[1]` |
| AiResponse.ReplyWithoutArrayFails | src/components/ui/form-mock-interview.tsx:70-74 | "No array here." ends in the no-array error |
| AiResponse.UnparsableArrayFails | src/components/ui/form-mock-interview.tsx:77-81 | the reply "[{question: unquoted}]", rejected by the parser, ends in the invalid-JSON error that carries the parser's message |
| FormSchema.LengthChecksNeverBothFail | src/components/ui/form-mock-interview.tsx:28-31 | a `.min` and a `.max` with the minimum not above the maximum, as on `position`, never both report an issue |
| FormSchema.CheckSeesOnlyLength | src/components/ui/form-mock-interview.tsx:28-36 | a length check gives values of the same length the same issues |
| FormSchema.NumberIssuesMonotone | src/components/ui/form-mock-interview.tsx:33-35 | the experience bound is inclusive, 0 passes, and raising a passing value never makes it fail |
| FormSchema.SchemaIssues | src/components/ui/form-mock-interview.tsx:27-38 | `formSchema`'s issues: at most one per field, in the order the keys are declared |
| FormSchema.InSchemaIssues | src/components/ui/form-mock-interview.tsx:27-38 | an issue is reported exactly when one of the five checks fails and it is that check's issue |
| FormSchema.IsValid | src/components/ui/form-mock-interview.tsx:27-38 | the form is valid exactly when no field has a message |
| FormSchema.ValidIffBounds | src/components/ui/form-mock-interview.tsx:27-38 | the form is valid exactly when 1 ≤ position length ≤ 100, description length ≥ 10, experience ≥ 0 and tech-stack length ≥ 1 |
| FormSchema.IssueIffViolated | src/components/ui/form-mock-interview.tsx:27-38 | each of the five messages is reported exactly when its bound is violated |
| FormSchema.FirstIssueOf | src/components/ui/form-mock-interview.tsx:186 | finds the first issue about a field, and finds none exactly when no issue is about it |
| FormSchema.FirstIssueAfter | src/components/ui/form-mock-interview.tsx:186 | issues about other fields placed in front do not change which issue comes first |
| FormSchema.FieldMessage | src/components/ui/form-mock-interview.tsx:186-252 | the message reported for a field is one of the issues about it, and there is none exactly when no issue is about it |
| FormSchema.OnlyIssueFor | src/components/ui/form-mock-interview.tsx:186-252 | when a field has at most one issue and the others are about other fields, that issue is its message |
| FormSchema.PositionMessage | src/components/ui/form-mock-interview.tsx:28-31 | an empty position reports "position is required", a longer than 100 one reports "position must be 100 character or less", any other reports nothing |
| FormSchema.DescriptionFieldMessage | src/components/ui/form-mock-interview.tsx:32 | the description reports "description is required" exactly when it is shorter than 10 characters, and nothing otherwise |
| FormSchema.ExperienceFieldMessage | src/components/ui/form-mock-interview.tsx:33-35 | a negative experience reports "Experience can not be negative", any other reports nothing |
| FormSchema.TechStackFieldMessage | src/components/ui/form-mock-interview.tsx:36 | an empty tech stack reports "Techstack must be atleast a character", any other reports nothing |
| FormView.HasPosition | src/components/ui/form-mock-interview.tsx:53-55 | `initialData?.position` is truthy only with initial data, not for an empty position, and always for an interview whose values pass the schema |
| FormView.ModeLabels | src/components/ui/form-mock-interview.tsx:53-60 | heading and breadcrumb agree, on the stored position or on the create fallbacks; caption and toast agree on the mode; a heading showing a position belongs to edit mode |
| FormView.ModeDecidesActionAndToast | src/components/ui/form-mock-interview.tsx:57-60 | the caption is "Save changes" and the toast is "updated" exactly with initial data; without it they are "Create" and "Created" |
| FormView.HeadingFollowsPosition | src/components/ui/form-mock-interview.tsx:53-55 | title and breadcrumb show the existing position when it is non-empty, and otherwise "Create a new mock interview" and "Create" |
| FormView.EmptyPositionEditsUnderCreateHeading | src/components/ui/form-mock-interview.tsx:53-57 | an interview stored with an empty position opens in edit mode under the create heading |
| FormView.ResetDisabled | src/components/ui/form-mock-interview.tsx:271 | once the form is idle, submit is disabled exactly when the form is invalid |
| FormView.Tracks | src/components/ui/form-mock-interview.tsx:44-49 | `isValid` is set exactly when no field has a message |
| FormView.SubmitEnabledIffIdleAndInBounds | src/components/ui/form-mock-interview.tsx:278 | submit is enabled exactly when the form is not submitting, not loading, and the four bounds hold |
| FormView.NegativeExperienceCannotSubmit | src/components/ui/form-mock-interview.tsx:278 | a negative experience keeps submit disabled, and the resolver reports its message for the field; the request itself is sent by the left-out `onSubmit` |
| FormView.FieldMessageDisablesSubmit | src/components/ui/form-mock-interview.tsx:278 | a field with a message keeps submit disabled; an enabled submit means every field is clear |
| FormView.ResetDisabledImpliesSubmitDisabled | src/components/ui/form-mock-interview.tsx:271-278 | a disabled reset implies a disabled submit; submit alone is disabled exactly for an invalid, idle form |
| FormView.CaptionNamesMode | src/components/ui/form-mock-interview.tsx:280 | the submit button shows a spinner while loading, and otherwise the mode's caption |
| FormView.SpinnerFollowsLoadingOnly | src/components/ui/form-mock-interview.tsx:280 | the button's content depends on `loading` alone, not on `isSubmitting` or validity |

## Left out

- The generative-language client and chat session (`src/scripts/index.ts`) are left out. They are configuration of a third-party library plus a network call.
- `generateAiResponse` (prompt text and `sendMessage`) is left out. The prompt is plain interpolation and the call is network I/O. The model starts at the reply text.
- `onSubmit` is left out: the Firestore `addDoc`/`updateDoc` with server timestamps, the toasts, `navigate`, the `loading` flag set and cleared around awaited calls, and the catch-all error handler. These are remote I/O and UI side effects; only the label and toast values it uses are modelled.
- `JSON.parse` is a parameter of `CleanAiResponse`, not a JSON parser. What it accepts is not modelled.
- Zod's `Number()` coercion of `experience` is left out, because it is floating-point parsing; `experience` is the `real` after coercion. A field the user clears holds `""` (the input's `value` fallback), which coerces to 0 and passes the check. A field never filled is `undefined` under the empty default values and coerces to `NaN`, which fails zod's number type check with zod's own message before `.min` runs; `NaN` is not represented.
- Tracks: react-hook-form computes `formState.isValid` itself, asynchronously after each change (lines 44-48). The model assumes it equals the resolver's verdict on the current values, which `SubmitEnabledIffIdleAndInBounds`, `NegativeExperienceCannotSubmit` and `FieldMessageDisablesSubmit` take as a precondition; the moments when it lags behind the values are not modelled.
- Fields that are still `undefined` (zod's "Required" issue) are left out. Every field is a string in the model.
- String lengths count Dafny characters (Unicode scalar values). JavaScript counts UTF-16 code units, so the two differ for characters outside the Basic Multilingual Plane.
- The `useEffect` reset, JSX rendering, the disabled state of the inputs, the delete button, routing (`src/App.tsx`) and the home page (`src/routes/home.tsx`) are UI and navigation glue.
- AiResponse.FencedReplyParsesArray: the reply is given as its three literal pieces joined together rather than as one literal. It is the same text.
- AiResponse.UnparsableArrayFails, TokenStrip.StripCanCreateJson and TokenStrip.StripTwiceCanDiffer are stated the same way, for the pieces of their concrete texts.
- The cleaner deletes every lowercase `json` and every backtick, inside questions and answers too, and a `]` in trailing prose widens the match. `ArraySurvivesNoise` states when the array reaches the parser unchanged.
- `CleanAiResponse` is a function, so the same reply always gives the same result. `StripTokens` applied twice can differ from once (`StripTwiceCanDiffer`).
