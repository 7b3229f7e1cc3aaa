# Contact form input handling

This project models the client-side logic of the marketing site's contact form script (`script.js`). That logic has four parts:

- **Phone mask.** The `telefone` input handler keeps only the digits. It cuts them greedily into groups of at most 2, 5 and 4 digits and writes them back as `(DD) DDDDD-DDDD`. When the second group is empty, it writes the bare first group, without parentheses. When only the third group is empty, it leaves out the hyphen.
- **Five field checks.** The submit handler checks `nome` (the trimmed value splits on `' '` into at least two pieces), `empresa` (the trimmed value is not empty), `email` (the trimmed value matches `^[^\s@]+@[^\s@]+\.[^\s@]+$`), `telefone` (at least ten digits) and `mensagem` (the trimmed value has at least 20 characters).
- **Submit handler.** It runs the five checks in that order and marks each field as an error or clears it. It folds `isValid` as a conjunction and remembers `firstInvalidInput`, the earliest field that failed. When every check passes, it resets the form and the character counter.
- **Character counter.** The `mensagem` input handler shows `"<length> / 1000"`. The text is green from 20 characters on and amber below that. Reaching 20 characters also clears the message's error marker.

Modules:

- `Text` (`text.dfy`) models the string primitives the script relies on: `trim`, the `\s` and `\d` classes, `replace(/\D/g, '')`, `split(' ')` and the decimal rendering of a length.
- `PhoneMask` (`phone_mask.dfy`) models the mask.
- `Validators` (`validators.dfy`) models the five checks. The e-mail regular expression is restated as a predicate over characters.
- `CharCounter` (`char_counter.dfy`) models the counter's text and colour.
- `ContactForm` (`contact_form.dfy`) models the form. A `Form` object holds the field values, their markup defaults, the set of fields marked as errors and the counter display. Its methods are the three event handlers and the helpers they call: `ShowError` and `ClearError` (showError/clearError), `CheckField` (one check block) and `RunChecks` (the five blocks).

The script evaluates each condition just before its own `showError` or `clearError` call. The model evaluates all five conditions up front (`Check`) and then runs the five check blocks as straight-line code on local variables (`RunChecks`, `CheckField`). The two orders are equivalent because `showError` and `clearError` never change the field values. The contract of `RunChecks` ties the outcome to a pure specification: `Failing` gives the set of failing fields and `FirstFailure` the first of them in check order.

Whitespace is the set ECMAScript calls WhiteSpace and LineTerminator (sections 12.2 and 12.3 of ECMA-262). It is what both `String.prototype.trim` and the regular-expression class `\s` use. In ECMAScript `\d` is `[0-9]`, so a digit is an ASCII digit. Stripping with `\D` removes every other character.

Lengths are JavaScript's `length`, which counts UTF-16 code units (`Text.Utf16Length`). A character outside the Basic Multilingual Plane counts as two. Every whitespace character and every digit is inside that plane, so `trim` and the digit strip give the same result on characters as on code units.

## Model

| member | source | states |
|---|---|---|
| `Text.TrimStartSuffix` | script.js:84 | The leading cut of `trim` keeps a suffix of the value. Everything it removes is whitespace, and what it keeps does not start with whitespace. |
| `Text.TrimEndPrefix` | script.js:84 | The trailing cut of `trim` keeps a prefix of the value. Everything it removes is whitespace, and what it keeps does not end with whitespace. |
| `Text.TrimSlice` | script.js:91 | `trim` returns the slice of the value between a whitespace-only prefix and a whitespace-only suffix. |
| `Text.TrimEnds` | script.js:91 | A trimmed value is empty, or it neither starts nor ends with whitespace. |
| `Text.TrimIgnoresPadding` | script.js:114 | Trimming gives the same result whatever whitespace surrounds the value. |
| `Text.TrimIdempotent` | script.js:114 | Trimming twice gives the same result as trimming once. |
| `Text.Digits` | script.js:106 | `replace(/\D/g, '')` yields only digits and is never longer than its input. |
| `Text.DigitsAppend` | script.js:106 | Stripping non-digits from a concatenation gives the concatenation of the stripped parts. |
| `Text.DigitsOfDigits` | script.js:142 | Stripping non-digits from a digit string leaves it unchanged. |
| `Text.TrimStart` | script.js:84 | The leading cut of `trim`. Its meaning is stated by `TrimStartSuffix`. |
| `Text.TrimEnd` | script.js:84 | The trailing cut of `trim`. Its meaning is stated by `TrimEndPrefix`. |
| `Text.Trim` | script.js:84 | `String.prototype.trim`. `TrimSlice`, `TrimEnds`, `TrimIgnoresPadding` and `TrimIdempotent` state its meaning. |
| `Text.Split` | script.js:84 | `split(' ')`. It always yields at least one piece. `SplitJoin` and `SplitEnds` state its meaning. |
| `Text.SplitJoin` | script.js:84 | `split(' ')` followed by a join on `' '` gives back the value. No piece contains a space, and there is one more piece than there are spaces. |
| `Text.SplitEnds` | script.js:84 | The first piece of a split is empty exactly when the value is empty or starts with the separator. The last piece is empty exactly when the value is empty or ends with it. |
| `Text.CountPositive` | script.js:84 | A character occurs in a string exactly when its count there is positive. |
| `Text.Utf16Length` | script.js:151 | JavaScript's `length` is between one and two code units per character, and zero only for the empty string. |
| `Text.Utf16LengthAppend` | script.js:151 | The length of a concatenation is the sum of the lengths of its parts. |
| `Text.Utf16LengthAstral` | script.js:151 | Characters outside the Basic Multilingual Plane count as two code units each. |
| `Text.Utf16LengthTrim` | script.js:114 | Trimming never increases the length. |
| `Text.NatToString` | script.js:152 | The decimal rendering of a length is a non-empty digit string with no leading zero. |
| `Text.NatToStringRoundTrip` | script.js:152 | Reading the decimal rendering of a length back gives the same length. |
| `PhoneMask.Render` | script.js:143 | The conditional expression that writes the groups back. `DigitsOfRender` and `MaskShape` state its meaning. |
| `PhoneMask.Mask` | script.js:142-143 | The value the phone handler writes back. `MaskKeepsDigits`, `MaskIdempotent`, `MaskShape`, `MaskPunctuation` and `MaskAlphabet` state its meaning. |
| `PhoneMask.MatchGroups` | script.js:142 | The three capture groups spell out the kept digits. Their widths are at most 2, 5 and 4, and a group is used only once the one before it is full. |
| `PhoneMask.GroupsOfKept` | script.js:142 | The groups are slices of the kept digits at positions 2 and 7. |
| `PhoneMask.MaskKeepsDigits` | script.js:142-143 | The digits of the masked value are exactly the first `min(11, n)` digits of the input, in order. Every other character is dropped. |
| `PhoneMask.MaskIdempotent` | script.js:142-143 | Masking an already masked value leaves it unchanged. |
| `PhoneMask.MaskShape` | script.js:142-143 | With at most 2 kept digits the output is the bare digits. With 3 to 7 it is `"(" + first 2 + ") " + rest`. With 8 to 11 it is `"(DD) DDDDD-" + the remaining digits`. |
| `PhoneMask.MaskPunctuation` | script.js:143 | The output contains a hyphen exactly when at least 8 digits are kept, and a parenthesis exactly when at least 3 are kept. |
| `PhoneMask.MaskAlphabet` | script.js:143 | The output is at most 15 characters long and contains only digits, parentheses, a space and a hyphen. |
| `PhoneMask.DigitsOfRender` | script.js:143 | The rendering adds no digits: its digits are those of the three groups, in order. |
| `Validators.NameValid` | script.js:84 | The name check. `NameValidIff` and `NameValidHasFirstAndLast` state its meaning. |
| `Validators.CompanyValid` | script.js:91 | The company check. `CompanyValidIff` states its meaning. |
| `Validators.EmailPattern` | script.js:98 | The e-mail regular expression as a predicate. `EmailPatternIff` states its meaning. |
| `Validators.EmailValid` | script.js:99 | The e-mail check on the trimmed value. `EmailValidIff` states its meaning. |
| `Validators.PhoneValid` | script.js:106-107 | The phone check: at least ten digits. `PhoneValidIgnoresNonDigits` and `ContactForm.MaskPreservesPhoneCheck` state its meaning. |
| `Validators.MessageValid` | script.js:114 | The message check: the trimmed value is at least 20 UTF-16 code units long. `MessageValidIgnoresPadding` and `CharCounter.ValidMessageShowsGreen` state its meaning. |
| `Validators.NameValidIff` | script.js:84 | The name check passes exactly when the trimmed value contains a space character. |
| `Validators.NameValidHasFirstAndLast` | script.js:84 | When the name check passes, the first and the last piece of the split are both non-empty. |
| `Validators.NameValidUnpadded` | script.js:84 | A value with no whitespace at either end passes the name check exactly when it contains a space. |
| `Validators.SingleWordFailsName` | script.js:84 | A single word fails the name check. |
| `Validators.TabSeparatedFailsName` | script.js:84 | Two words separated only by a tab fail the name check. |
| `Validators.SpaceSeparatedPassesName` | script.js:84 | Two words separated by a space pass the name check. |
| `Validators.CompanyValidIff` | script.js:91 | The company check passes exactly when the value has a character that is not whitespace. |
| `Validators.OnlyOccurrence` | script.js:98 | In a string with exactly one `@`, any two positions holding `@` are the same position. |
| `Validators.PatternImpliesAddress` | script.js:98 | A value matching the e-mail pattern has no whitespace and exactly one `@`, with something before it and an inner `.` after it. |
| `Validators.AddressImpliesPattern` | script.js:98 | A value with no whitespace, exactly one `@`, something before it and an inner `.` after it matches the e-mail pattern. |
| `Validators.EmailPatternIff` | script.js:98 | The e-mail pattern holds exactly for well-formed addresses. Both directions are proved. |
| `Validators.EmailValidIff` | script.js:98-99 | The e-mail check passes exactly when the trimmed value is a well-formed address. |
| `Validators.PhoneValidIgnoresNonDigits` | script.js:106-107 | Inserting non-digit characters anywhere in the value never changes the phone check's verdict. |
| `Validators.MessageValidIgnoresPadding` | script.js:114 | Whitespace around the message never changes the message check's verdict. |
| `CharCounter.CountText` | script.js:151-152 | The counter text, built from the UTF-16 length. `CountTextShowsLength` states its meaning. |
| `CharCounter.CountColour` | script.js:154-159 | The counter colour: green from a UTF-16 length of 20 on. `ValidMessageShowsGreen` and `PaddedMessageGreenButInvalid` state its meaning. |
| `CharCounter.CountTextShowsLength` | script.js:151-152 | Reading the counter text back gives the untrimmed UTF-16 length of the message. |
| `CharCounter.AstralMessageCountsTwice` | script.js:150-159 | Ten characters outside the Basic Multilingual Plane show "20 / 1000" in green and pass the message check (line 114). |
| `CharCounter.ValidMessageShowsGreen` | script.js:150-159 | A message that passes the submit check (line 114) always shows a green counter. |
| `CharCounter.PaddedMessageGreenButInvalid` | script.js:150-159 | The converse of the previous row fails. A short text padded with whitespace to 20 characters shows green but fails the submit check. |
| `CharCounter.ResetDisplayIsEmptyCount` | script.js:133-134 | The display restored after a successful submission is the one the counter shows for an empty message. |
| `ContactForm.Rank` | script.js:83-117 | Each field has a position in the check order, and the order holds that field at that position. |
| `ContactForm.Check` | script.js:84-114 | The verdicts of the five checks on the current values. `Form.Submit` states what the handler does with them. |
| `ContactForm.FirstInvalid` | script.js:73-117 | The field the handler focuses. `FirstInvalidIsEarliest` and `FirstFailureInOrder` state its meaning. |
| `ContactForm.Failing` | script.js:83-121 | A field is in the failing set exactly when its check fails. |
| `ContactForm.FirstFailure` | script.js:87-117 | The result is none exactly when no field of the order fails. Otherwise it is a failing field and every field before it passes. |
| `ContactForm.FirstInvalidIsEarliest` | script.js:73-123 | No field is reported exactly when all five checks pass. A reported field fails, and every field checked before it passes. Both directions are proved. |
| `ContactForm.FirstFailureInOrder` | script.js:83-121 | The reported field is read off the checks in the order nome, empresa, email, telefone, mensagem. |
| `ContactForm.MaskPreservesPhoneCheck` | script.js:106-107 | Masking never changes the phone check's verdict (the mask is at lines 142-143). Any masked value with 10 or 11 digits passes. |
| `ContactForm.Form.constructor` | script.js:47-49 | The form starts with its markup values and defaults, and no field is marked as an error. |
| `ContactForm.Form.ShowError` | script.js:51-59 | Marks exactly the given field. Nothing else changes. |
| `ContactForm.Form.ClearError` | script.js:61-68 | Unmarks exactly the given field. Nothing else changes. |
| `ContactForm.Form.CheckField` | script.js:84-88 | A failing field is marked, makes `isValid` false and becomes `firstInvalidInput` if none is set yet. A passing field is cleared. |
| `ContactForm.Form.RunChecks` | script.js:73-135 | `isValid` holds exactly when all five verdicts pass. Exactly the failing fields end up marked. `firstInvalidInput` is the earliest failing field, or none. On success the values return to their defaults and the counter shows `0 / 1000` in amber. On failure the values and the counter are unchanged. |
| `ContactForm.Form.Submit` | script.js:71-136 | The same outcome as `RunChecks`, stated for the five checks applied to the values present when the form is submitted. |
| `ContactForm.Form.OnPhoneInput` | script.js:141-144 | The phone field now holds the mask of what was typed. Nothing else changes. |
| `ContactForm.Form.OnMessageInput` | script.js:150-160 | The counter shows the new UTF-16 length and its colour. The message's error marker is cleared exactly when that length reaches 20. Nothing else changes. |

## Left out

- Scroll restoration and the back-to-top button (script.js:4-10, 35-44) are left out. They are browser window state and scroll events.
- The accordion (script.js:13-32) is left out. It depends on rendered heights and inline styles.
- The error messages are left out, along with their `display` style (script.js:54-58, 64-67). A field's error state is only membership in the `errors` set.
- `e.preventDefault()`, `alert`, `focus` and `scrollIntoView` (script.js:72, 124-130) are left out. They are browser side effects. `firstInvalidInput` is returned instead of focused.
- The counter colours are an abstract two-valued tag, not the hex strings `#27c93f` and `#ffbd2e`.
- The model assumes every element the script looks up exists. The `null` guards on `contactForm`, `telInput`, `msgInput` and `charCountDisplay` (script.js:49, 140, 149) are not modelled.
- The regular-expression engine is replaced by hand-written predicates with the same meaning.
- Strings are sequences of Unicode scalar values. A JavaScript string holding a lone surrogate code unit has no counterpart in the model.
