# TIPTV native input validation

This project models the input-validation helpers of TIPTV's Tauri native side and the `greet` command that uses them (`src-tauri/src/lib.rs`). The helpers are:

- `validate_string_length`: bounds the length of a string.
- `sanitize_string`: keeps only whitelisted characters, namely alphanumerics, whitespace, `-`, `_` and `.`.
- `greet`: rejects an over-long name, sanitises it, rejects it if nothing visible is left, and otherwise returns `Hello, <name>! Welcome to TIPTV.`

All three are pure functions, so the model consists of Dafny functions and lemmas:

- `results.dfy`: Rust's `Result<T, String>`, with `:-` playing the role of `?`.
- `sequences.dfy`: two general facts about sequences that the filter proofs use.
- `rust_text.dfy`: the standard-library behaviour the helpers rely on:
  - `str::len` as the UTF-8 byte length;
  - `char::is_whitespace` as the 25 White_Space code points;
  - `char::is_alphanumeric`;
  - `str::trim` and `str::contains`;
  - the decimal rendering of a `usize` by `format!`.
- `validation.dfy`: the three helpers and their properties.
- `validation_examples.dfy`: the unit tests of `lib.rs`, stated as lemmas.

A string is a sequence of Unicode scalar values, the same thing as a Rust `char` sequence.

`validate_string_length` compares the UTF-8 **byte** length with the limit, exactly as `input.len()` does. Its message nevertheless speaks of "characters". For ASCII text the two agree. Beyond ASCII they do not: a name of 51 `é` is refused by `greet` with "maximum length of 100 characters" (`ValidateRejectsFewerCharactersThanLimit`). The model follows the code.

## Model

| member | source | states |
|---|---|---|
| RustText.Utf8Width | src-tauri/src/lib.rs:3 | a character takes 1 to 4 UTF-8 bytes, and exactly 1 iff it is ASCII |
| RustText.Utf8Len | src-tauri/src/lib.rs:3 | the byte length of a string lies between its character count and four times that |
| RustText.Utf8LenAppend | src-tauri/src/lib.rs:3 | byte length is additive over concatenation |
| RustText.Utf8LenIsCountIffAscii | src-tauri/src/lib.rs:3 | byte length equals character count iff the string is all ASCII |
| RustText.Utf8LenRepeat | src-tauri/src/lib.rs:132 | n copies of a character take n times its width in bytes |
| RustText.IsWhitespace | src-tauri/src/lib.rs:12 | `char::is_whitespace`, defined as the 25 White_Space code points; its contract is WhitespaceAsciiListed |
| RustText.WhitespaceAsciiListed | src-tauri/src/lib.rs:12 | on ASCII, whitespace is exactly tab, line feed, vertical tab, form feed, carriage return and space |
| RustText.IsAlphanumeric | src-tauri/src/lib.rs:12 | `char::is_alphanumeric`: ASCII letters and digits, and above U+007F the Unicode table; its contract is AlphanumericAsciiListed |
| RustText.AlphanumericAsciiListed | src-tauri/src/lib.rs:12 | on ASCII, alphanumeric is exactly the listed ten digits and 52 letters, whatever the Unicode table |
| RustText.LeadingWhitespace | src-tauri/src/lib.rs:40 | the count covers only whitespace and stops at the end of the text or at the first character that is not whitespace, so it is the longest whitespace prefix |
| RustText.TrailingWhitespace | src-tauri/src/lib.rs:40 | the count covers only whitespace and stops at the start of the text or at the last character that is not whitespace, so it is the longest whitespace suffix |
| RustText.TrimStart | src-tauri/src/lib.rs:40 | the result is a suffix of the input, everything removed is whitespace, and it does not start with whitespace |
| RustText.TrimEnd | src-tauri/src/lib.rs:40 | the result is a prefix of the input, everything removed is whitespace, and it does not end with whitespace |
| RustText.Trim | src-tauri/src/lib.rs:40 | the trimmed text is a block of the input, no longer than it, that neither starts nor ends with whitespace |
| RustText.TrimDropsWhitespace | src-tauri/src/lib.rs:40 | the input is exactly the whitespace `TrimStart` drops, then the trimmed text, then whitespace |
| RustText.TrimIsEmptyIff | src-tauri/src/lib.rs:40 | trimming leaves nothing iff the string is all whitespace, in both directions |
| RustText.Contains | src-tauri/src/lib.rs:110 | `str::contains`: the empty needle is always contained, and a contained needle is no longer than the text |
| RustText.ContainsIffOccurs | src-tauri/src/lib.rs:150-153 | the text contains the needle iff some offset of the text holds it, in both directions |
| RustText.ContainsAt | src-tauri/src/lib.rs:110 | a block occurring at any offset is contained |
| RustText.ContainsFirstChar | src-tauri/src/lib.rs:150-151 | a contained non-empty block starts with a character of the text |
| RustText.DigitChar | src-tauri/src/lib.rs:4 | a digit below ten maps to the decimal character denoting it |
| RustText.DecimalString | src-tauri/src/lib.rs:4 | the rendering of `max_length` is non-empty and all digits, has no leading zero except for zero, and denotes the number (round trip with DecimalValue) |
| Validation.LengthError | src-tauri/src/lib.rs:4 | the message starts "Input exceeds maximum length of ", ends " characters", and the digits between them read back as the limit, with no leading zero |
| Validation.HundredInDecimal | src-tauri/src/lib.rs:34 | the limit 100 is written "100" |
| Validation.LengthErrorForNames | src-tauri/src/lib.rs:4 | with the limit of 100 the message is "Input exceeds maximum length of 100 characters" |
| Validation.LengthErrorMentionsMaximum | src-tauri/src/lib.rs:4 | every length message contains "maximum length" |
| Validation.ValidateStringLength | src-tauri/src/lib.rs:2-7 | the result is Ok iff the byte length is at most the limit, and the error is the length message |
| Validation.ValidateBoundsCharacters | src-tauri/src/lib.rs:2-7 | an accepted input has at most the limit in characters, and on ASCII input acceptance is exactly the character bound |
| Validation.ValidateRejectsFewerCharactersThanLimit | src-tauri/src/lib.rs:3-4 | 51 two-byte characters, fewer than 100, are refused by the length check, and `greet` refuses them with "Input exceeds maximum length of 100 characters" |
| Validation.IsAllowed | src-tauri/src/lib.rs:12 | the filter's whitelist: alphanumeric, whitespace, `-`, `_` or `.`; its contract is AllowedAsciiListed |
| Validation.AllowedAsciiListed | src-tauri/src/lib.rs:12 | on ASCII the whitelist is exactly the listed digits, letters, six whitespace characters and `-_.` |
| Validation.Sanitize | src-tauri/src/lib.rs:9-14 | the output is never longer than the input and holds only whitelisted characters |
| Validation.SanitizeSnoc | src-tauri/src/lib.rs:11-13 | one more input character appends exactly what the filter keeps of it |
| Validation.SanitizeAppend | src-tauri/src/lib.rs:11-13 | filtering a concatenation is the concatenation of the filtered parts |
| Validation.SanitizeSplit | src-tauri/src/lib.rs:11-13 | filtering splits at every position of the input |
| Validation.SanitizeIsSubsequence | src-tauri/src/lib.rs:11-13 | the output is an order-preserving subsequence of the input |
| Validation.SanitizeCounts | src-tauri/src/lib.rs:12 | each allowed character occurs in the output as often as in the input, and no refused character occurs |
| Validation.SanitizeFixedPointIff | src-tauri/src/lib.rs:9-14 | the output equals the input iff every input character is allowed |
| Validation.SanitizeEmptyIff | src-tauri/src/lib.rs:9-14 | the output is empty iff every input character is refused |
| Validation.SanitizeKeepsRun | src-tauri/src/lib.rs:11-13 | a run of allowed characters passes through unchanged ahead of the rest |
| Validation.SanitizeDropsRun | src-tauri/src/lib.rs:11-13 | a run of refused characters vanishes |
| Validation.SanitizeKeepsLengthIff | src-tauri/src/lib.rs:9-14 | the output keeps the input's character count iff nothing is dropped |
| Validation.SanitizeIdempotent | src-tauri/src/lib.rs:9-14 | sanitising twice gives the same result as sanitising once |
| Validation.SanitizeShrinksBytes | src-tauri/src/lib.rs:9-14 | the output is never longer than the input in bytes |
| Validation.SanitizedBlankIff | src-tauri/src/lib.rs:37-40 | the sanitised name is blank iff the name has no allowed non-whitespace character, in both directions |
| Validation.Greet | src-tauri/src/lib.rs:32-45 | stated on the raw name: a name over 100 bytes gets the length error, even when it is also blank; otherwise a name with no allowed non-whitespace character gets "Name cannot be empty"; otherwise the result is "Hello, " + sanitised name + "! Welcome to TIPTV."; so greet succeeds iff the name fits and has an allowed visible character |
| Validation.WrappedAlphabet | src-tauri/src/lib.rs:44 | the greeting template around whitelisted text adds no characters besides `,` and `!` |
| Validation.GreetingAlphabet | src-tauri/src/lib.rs:37-44 | a greeting has the template's length plus the sanitised name's; its middle is all whitelisted; and each of its characters is whitelisted or `,` or `!` |
| Validation.GreetEchoesCleanName | src-tauri/src/lib.rs:37-44 | a successful greeting for a name of allowed characters contains the name verbatim and "TIPTV" |
| Validation.GreetingContains | src-tauri/src/lib.rs:44 | the greeting template contains the name it wraps and "TIPTV" |
| Validation.GreetOmitsRefusedText | src-tauri/src/lib.rs:36-44 | no successful greeting contains text that starts with a refused character other than `,` or `!` |
| ValidationExamples.ValidateAcceptsExamples | src-tauri/src/lib.rs:159-160 | "short" and "exactly10!" (exactly ten bytes) pass a limit of 10 |
| ValidationExamples.ValidateRejectsExample | src-tauri/src/lib.rs:161 | "too long string" fails a limit of 5 with the length message |
| ValidationExamples.SanitizeKeepsPlainTextExamples | src-tauri/src/lib.rs:167-168 | "normal text" and "test-name_123" come back unchanged |
| ValidationExamples.KeepThenDrop | src-tauri/src/lib.rs:11-13 | an allowed run followed by a refused run filters to the allowed run, followed by the filtered rest |
| ValidationExamples.SanitizeStripsSymbolsExamples | src-tauri/src/lib.rs:169-170 | "test<>{}[]" and "test@#$%" filter to "test" |
| ValidationExamples.GreetCleanName | src-tauri/src/lib.rs:32-45 | a fitting ASCII name of allowed characters that does not start with whitespace is greeted verbatim |
| ValidationExamples.GreetWithNameExample | src-tauri/src/lib.rs:101-115 | "Test User" is greeted, and the greeting contains the name and "TIPTV" |
| ValidationExamples.EmptyErrorMentionsEmpty | src-tauri/src/lib.rs:41 | the empty-name message contains "empty" |
| ValidationExamples.GreetWithEmptyNameExample | src-tauri/src/lib.rs:117-127 | the empty name fails with the empty-name message, which contains "empty" |
| ValidationExamples.GreetWithLongNameExample | src-tauri/src/lib.rs:129-139 | 101 copies of "a" fail with the length message, which contains "maximum length" |
| ValidationExamples.SanitizeAlternatingRuns | src-tauri/src/lib.rs:11-13 | six allowed runs separated by refused runs filter to the allowed runs joined |
| ValidationExamples.ScriptNameFits | src-tauri/src/lib.rs:144 | the script test input fits the 100-byte limit |
| ValidationExamples.SanitizeScriptExample | src-tauri/src/lib.rs:144 | the script test input filters to "TestscriptalertxssscriptUser" |
| ValidationExamples.GreetScriptExample | src-tauri/src/lib.rs:141-146 | the script test input is greeted with its filtered form |
| ValidationExamples.GreetSanitizesInputExample | src-tauri/src/lib.rs:141-154 | that greeting succeeds, contains neither "<script>" nor "</script>", and contains "TestscriptalertxssscriptUser" |

## Left out

- `run` (lib.rs:47-69) is not part of this model. It builds the Tauri application, registers plugins and commands, and starts the event loop; all of that is framework I/O.
- `get_platform_info` and `get_app_version` are not part of this model. They return the host OS name and the package version, which the build environment supplies.
- The `#[tauri::command]` IPC layer is not part of this model. That layer serialises arguments and results between the web view and the native side.
- The TypeScript front end and its navigation engine are not part of this model.
- The Unicode Alphabetic and Numeric tables behind `char::is_alphanumeric` above U+007F are not modelled. They enter as an arbitrary parameter `unicodeAlnum`, and every property holds for every such table. ASCII characters, the whitespace set and everything else are modelled exactly.
- Validation.ValidateStringLength: `usize` is modelled as an unbounded `nat`. Byte lengths and the limit of 100 are far below 2^64, so no wrap-around arises.
