# String and number utilities of the voice-agent application

This project models `lib/utils.ts`, the utility layer of a real-estate voice-agent
application (AI voice agents that place and receive calls, contact and call history,
batch-calling campaigns). The layer holds the project's only executable logic:

- validation of phone numbers in the international format of ITU-T Recommendation E.164
  (`isValidE164`);
- normalisation of user-typed phone numbers to that format, with Australian defaults
  (`formatPhoneE164`);
- formatting of call durations (`"1h 5s"`) and of transcript timestamps (`"2:05"`);
- two text helpers, `capitalize` and `truncateText`.

Every utility is a pure function, so the model is written as Dafny functions and
lemmas about them. Two modules:

- `JsRuntime` (`js_runtime.dfy`) models the parts of the JavaScript runtime the
  utilities rely on: decimal printing of non-negative integers (template interpolation),
  `String.prototype.slice` with its negative-index rule, `startsWith`, `padStart`, and
  ASCII case mapping.
- `Utils` (`utils.dfy`) holds one function per utility. Each function has a partner
  that the lemmas connect it to:
  - the E.164 check is written as the regular expression's pieces, and a closed-form
    characterisation is proved equivalent to it;
  - the duration and timestamp printers have parsers, with round-trip lemmas;
  - `capitalize` is related to a "capitalized" predicate and to case-insensitive equality;
  - `truncateText` has a prefix-and-length specification and an idempotence lemma.

Behaviour the proofs bring out, all modelled as the code is written:

- `isValidE164` requires 2 to 15 digits after the `+`. Its comment says 1 to 15. The
  regular expression `\d{1,14}` after the leading `[1-9]` decides, and
  `Utils.E164Shape` states it.
- The Australian rules of `formatPhoneE164` do not validate what they produce. A `+`
  after the first character survives cleaning: `"0+1"` becomes `"+61+1"`. A long digit
  string gets `+61` in front whatever its length. `Utils.FormatPhoneInnerPlus` and
  `Utils.FormatPhoneAustralianValidity` state this.
- `truncateText` with `maxLength` below 3 passes a negative end to `slice`, which
  counts from the end of the text. `truncateText("hello", 2)` is `"hell..."`, longer than
  the limit. `Utils.TruncateTextShortLimit` and `Utils.TruncateTextExample` state this.

## Model

| member | source | states |
|---|---|---|
| `Utils.IsValidE164` | lib/utils.ts:14-19 | an accepted number has at least 3 characters, starts with `+` and has a digit second |
| `Utils.DigitRun` | lib/utils.ts:17 | a string matched by `\d{min,max}$` has between `min` and `max` characters |
| `Utils.E164Shape` | lib/utils.ts:14-19 | a string passes the E.164 check exactly when it is `+`, a digit 1-9, then digits only, 3 to 16 characters in all (both directions) |
| `Utils.DigitRunIsBoundedDigits` | lib/utils.ts:17 | the regex piece `\d{min,max}$` matches exactly the all-digit strings whose length lies between `min` and `max` |
| `Utils.Clean` | lib/utils.ts:29 | cleaning never lengthens the input, leaves only digits and `+`, and returns an input made only of those unchanged |
| `Utils.CleanMembers` | lib/utils.ts:29 | a character is in the cleaned text exactly when it is in the input and is a digit or `+` |
| `Utils.CleanAppend` | lib/utils.ts:29 | cleaning distributes over concatenation: it works character by character and keeps order |
| `Utils.CleanWithoutPlus` | lib/utils.ts:29 | an input with no `+` cleans to a string of digits only |
| `Utils.CleanIdempotent` | lib/utils.ts:29 | cleaning a cleaned string changes nothing |
| `Utils.FormatPhoneE164` | lib/utils.ts:27-53 | every result is either the empty string or starts with `+`, and holds only digits and `+` |
| `Utils.FormatPhoneKeepsValid` | lib/utils.ts:29-34 | a valid E.164 number is returned unchanged whatever the country argument |
| `Utils.FormatPhoneFixedPoints` | lib/utils.ts:27-53 | formatting a result again returns it unchanged exactly when it is `""` or valid E.164; an invalid non-empty result formats to `""` |
| `Utils.DefaultCountryFormatsLongNumbers` | lib/utils.ts:27-47 | with the default country `'AU'`, a cleaned number of at least 9 characters without a leading `+` always formats to a `+61` number |
| `Utils.FormatPhoneIsCleanAndValidate` | lib/utils.ts:31-52 | for a country other than AU, or a cleaned input starting with `+`, the result is the cleaned input when it is valid E.164 and `""` otherwise |
| `Utils.FormatPhoneAustralian` | lib/utils.ts:37-48 | AU without a leading `+`: a result exists exactly when the cleaned number starts with `61` or `0` or has at least 9 characters, and it is `+61` followed by the number minus its `61` or trunk `0` |
| `Utils.FormatPhoneAustralianValidity` | lib/utils.ts:37-48 | AU, input without `+`: the result is `""`, or has at least 3 characters and is valid E.164 exactly when it has at most 16 |
| `Utils.CountryCodeSixtyOne` | lib/utils.ts:41-47 | `+61` followed by digits is valid E.164 exactly when there are at most 13 digits |
| `Utils.FormatPhoneInnerPlus` | lib/utils.ts:29-44 | `"0+1"` formats to `"+61+1"` under AU, which is not valid E.164 |
| `Utils.FormatDuration` | lib/utils.ts:60-84 | the output has at least 2 characters and ends in `s` exactly when the input is under a minute or has a non-zero seconds remainder |
| `Utils.FormatDurationRoundTrip` | lib/utils.ts:60-84 | the printed duration parses back into `h`/`m`/`s` pieces in that order that sum to the input; below 60 it is the single piece `<n>s`; from 60 on, no piece is zero and minutes and seconds are below 60 |
| `Utils.DurationComponents` | lib/utils.ts:65-81 | the hours/minutes/seconds split of `n`, zero pieces omitted from a minute on, sums to `n` with minutes and seconds below 60 |
| `Utils.FormatDurationInjective` | lib/utils.ts:60-84 | two different durations never print the same string |
| `Utils.FormatTimestamp` | lib/utils.ts:119-123 | the output has at least 4 characters, with the colon third from the end |
| `Utils.FormatTimestampRoundTrip` | lib/utils.ts:119-123 | the printed timestamp parses back to `(n div 60, n mod 60)`, and its seconds field is exactly two digits after the colon |
| `Utils.PaddedSeconds` | lib/utils.ts:121-122 | a seconds value below 60, padded with `0`, is two digits denoting the same value |
| `Utils.FormatTimestampInjective` | lib/utils.ts:119-123 | two different numbers of seconds never print the same timestamp |
| `Utils.Capitalize` | lib/utils.ts:130-133 | capitalizing preserves length |
| `Utils.CapitalizeSpec` | lib/utils.ts:130-133 | the result has no lower-case first letter and no upper-case letter after it, and equals the input ignoring case |
| `Utils.CapitalizeFixedPoints` | lib/utils.ts:130-133 | capitalize returns its input unchanged exactly when the input is already capitalized |
| `Utils.CapitalizeIdempotent` | lib/utils.ts:130-133 | capitalizing twice equals capitalizing once |
| `Utils.TruncateText` | lib/utils.ts:141-144 | for a limit of at least 3 the result never exceeds the limit |
| `Utils.TruncateTextSpec` | lib/utils.ts:141-144 | text within the limit is returned unchanged; longer text becomes a prefix of itself followed by `...`, of exactly `maxLength` characters when `maxLength` is at least 3 |
| `Utils.TruncateTextShortLimit` | lib/utils.ts:143 | with a limit below 3 the kept prefix is the text minus its last `3 - maxLength` characters, so the result is longer than the limit |
| `Utils.TruncateTextExample` | lib/utils.ts:143 | `truncateText("hello", 2)` is `"hell..."` |
| `Utils.TruncateTextIdempotent` | lib/utils.ts:141-144 | for a limit of at least 3, truncating twice equals truncating once |
| `JsRuntime.NatToDecimal` | lib/utils.ts:62 | the printed numeral of a non-negative integer is non-empty, all digits, has no leading zero, and has one digit exactly below 10 |
| `JsRuntime.DecimalRoundTrip` | lib/utils.ts:62 | reading a printed numeral back gives the number |
| `JsRuntime.CanonicalNumeralRoundTrip` | lib/utils.ts:62 | every digit string without a leading zero is what the printer produces for its value |
| `JsRuntime.ClampIndex` | lib/utils.ts:143 | a negative index counts from the end and is floored at 0; an index past the end becomes the length; an in-range index is kept |
| `JsRuntime.StartsWith` | lib/utils.ts:32-42 | `s` starts with `prefix` exactly when `s` is `prefix` followed by the rest of `s` |
| `JsRuntime.ToUpperChar` | lib/utils.ts:132 | the result is never a lower-case ASCII letter; each lower-case letter becomes the upper-case letter at the same place in the alphabet, everything else is unchanged |
| `JsRuntime.ToLowerChar` | lib/utils.ts:132 | the result is never an upper-case ASCII letter; each upper-case letter becomes the lower-case letter at the same place in the alphabet, everything else is unchanged |
| `JsRuntime.ToUpperCase` | lib/utils.ts:132 | same length, each character mapped by `ToUpperChar` |
| `JsRuntime.ToLowerCase` | lib/utils.ts:132 | same length, each character mapped by `ToLowerChar` |
| `JsRuntime.Slice` | lib/utils.ts:143 | `slice` never lengthens the text and within bounds is the plain substring |
| `JsRuntime.PadStart` | lib/utils.ts:122 | padding gives length `max(width, |s|)`, ends with `s` and is filled in front with the filler |

## Left out

- `cn` (lib/utils.ts:5-7) only forwards to the external `clsx` and `tailwind-merge` libraries.
- `formatDate` (lib/utils.ts:91-112) reads the wall clock and the time zone and formats through `date-fns`.
- `safeJsonParse` (lib/utils.ts:152-158) wraps `JSON.parse` and its exceptions.
- `generateId` (lib/utils.ts:164-166) depends on `Math.random` and `Date.now`, so it is nondeterministic.
- FormatDuration and FormatTimestamp take natural numbers. Negative and fractional seconds, the floating-point rounding of JavaScript numbers beyond 2^53, and the exponent notation JavaScript prints from 10^21 on (`NatToDecimal` always prints plain digits) are not modelled.
- TruncateText: strings here are sequences of Unicode scalar values, while JavaScript measures `text.length` and slices in UTF-16 code units. A character beyond U+FFFF counts 1 here and 2 in the source, so such text can fit the limit here and be truncated in the source (`truncateText("😀😀😀😀", 5)` gives `"😀..."` in the source and the text unchanged here). The source can also cut such a character in half, leaving a lone surrogate, which these strings cannot hold.
- Slice: indices count Unicode scalar values, not UTF-16 code units, for the reason in the TruncateText line.
- Capitalize: `charAt(0)` in the source takes the first UTF-16 code unit. Here it takes the first Unicode scalar value. The two differ only for a first character beyond U+FFFF, which ASCII case mapping leaves alone in both.
- TruncateText takes an integer `maxLength`. A fractional limit, which `slice` would truncate, is not modelled.
- Capitalize maps case for ASCII letters only and leaves every other character as it is. JavaScript's `toUpperCase`/`toLowerCase` apply full Unicode case mapping, which can change the length (`ß` becomes `SS`).
- FormatPhoneE164 takes the country as an explicit argument. The source's default argument `'AU'` is the constant `Utils.DefaultCountry`.
- The regular-expression engine is not modelled. Both patterns (`^\+[1-9]\d{1,14}$` and `[^\d+]`) are written directly over the character sequence.
- The records, status unions and API payload types in lib/types/index.ts, lib/types/elevenlabs.ts and lib/types/webhook.ts declare data shapes only and have no behaviour. The batch-calling job lifecycle they describe is not implemented in the source.
- app/page.tsx is static page markup.
- lib/db/schema.ts is a placeholder table definition whose id comes from an external ID generator.
