# Client-side form validation of the VietHub login page, in Dafny

This project models the validation core of `public/script.js` from the VietHub authentication front end. That page holds three forms: login, register and forgot-password. The model covers:

- the four pure validators the script exports: `validateEmail`, `validatePassword`, `calculatePasswordStrength` and `validateName`;
- `switchForm`, the three-state form switcher, with its reset of field decorations;
- `validateForm`, which applies the validators to the required inputs of a form and to the terms checkbox.

The DOM is replaced by explicit records:

- a `Field` is an input with its `error`/`success` classes and its error-message element;
- a `Page` holds the active form, the active tab buttons, the module-level `currentForm` and every input.

Modules:

- `Text` (text.dfy): the ECMAScript whitespace set, which `\s` and `String.prototype.trim` share; `trim` itself; and JavaScript's `length` as a count of UTF-16 code units.
- `Validation` (validation.dfy): the email, password and name validators.
- `Forms` (forms.dfy): `switchForm` and `validateForm`.
- `Examples` (examples.dfy): concrete inputs and outputs.

Strings are `seq<char>` of Unicode scalar values. JavaScript's `length` counts UTF-16 code units, so `Utf16Length` counts a character above U+FFFF as two. For strings whose surrogates are all paired, no other rule of the validators can tell the two representations apart:

- the positive classes `[A-Z]`, `[a-z]`, `\d`, the special characters, `[a-zA-ZÀ-ỹ\s]` and `\s` contain no surrogate half;
- the negated class `[^\s@]` matches every surrogate half, so `[^\s@]+` accepts a surrogate pair exactly as it accepts the one scalar value it encodes.

The regular expression of `validateEmail` is given its meaning as a language (`MatchesEmailPattern`: some split of the string into the three `[^\s@]+` runs around the `@` and the literal `.`). `ValidateEmail` decides it through an equivalent shape that uses no regular expression.

## Model

| member | source | states |
|---|---|---|
| Text.Utf16Length | public/script.js:96 | `password.length` counts UTF-16 code units: between one and two per character, and equal to the character count exactly when every character is in the Basic Multilingual Plane |
| Text.Utf16LengthAppend | public/script.js:96 | the UTF-16 length of a concatenation is the sum of the lengths |
| Text.LeadingWhitespace | public/script.js:131 | the leading run that `trim()` removes: every character before the returned index is whitespace and the one at it is not |
| Text.TrailingWhitespace | public/script.js:131 | the trailing run that `trim()` removes: every character after the returned cut is whitespace and the one before it is not |
| Text.Trim | public/script.js:131 | `trim()` returns a slice of its input with only whitespace outside it and no whitespace at either end of it; the result is empty exactly when the input is all whitespace |
| Text.TrimUnique | public/script.js:131 | any split of a string into whitespace, a middle that neither starts nor ends with whitespace, and whitespace has `trim()` as its middle |
| Text.TrimCharacterization | public/script.js:131 | a string is the trim of another if and only if it is that string with its leading and trailing whitespace removed and nothing else |
| Text.TrimOfUnpadded | public/script.js:131 | a string that neither starts nor ends with whitespace is its own trim |
| Text.TrimIdempotent | public/script.js:397 | trimming an already trimmed value changes nothing |
| Validation.EmailShapeIsPattern | public/script.js:91 | `/^[^\s@]+@[^\s@]+\.[^\s@]+$/` accepts exactly the strings with no whitespace and exactly one `@` with something before it, whose part after the `@` has a `.` that is neither its first nor its last character |
| Validation.ValidateEmail | public/script.js:90-93 | `validateEmail` is true exactly when the whole string matches the anchored email pattern |
| Validation.AcceptedEmailIsTrimmed | public/script.js:90-93 | an address `validateEmail` accepts holds no whitespace, so the trimming that precedes validation changes nothing |
| Validation.CalculatePasswordStrength | public/script.js:115-128 | the label is `weak` when at most two of the five criteria hold, `fair` at three, `good` at four; it is `strong` exactly when length ≥ 8, a lowercase letter, an uppercase letter, a digit and a special character are all present |
| Validation.ValidatePassword | public/script.js:95-113 | `isValid` holds iff length ≥ 8 and an uppercase letter, a lowercase letter and a digit are present, so the special character plays no part; the strength is `calculatePasswordStrength`'s; each field of `requirements` reports its own test (`minLength` the length, `hasUpperCase` an uppercase letter, `hasLowerCase` a lowercase letter, `hasNumbers` a digit, `hasSpecialChar` a special character); a valid password is `good` or `strong`; it is `strong` exactly when it is valid and has a special character |
| Validation.StrengthAgreesWithRequirements | public/script.js:96-124 | the strength is the label of the number of fields of the returned `requirements` object that hold, each of which reports one of the five criteria the score counts |
| Validation.ValidityIgnoresSpecialChars | public/script.js:100-103 | two passwords that agree on length, uppercase, lowercase and digit are both valid or both invalid, whatever their special characters |
| Validation.EmptyPasswordIsWeak | public/script.js:116-124 | the empty password meets no criterion, scores 0, is `weak` and is not valid |
| Validation.RequirementsGrowWithAppend | public/script.js:96-100 | each of the five password criteria, once met, stays met when more characters are typed after the password |
| Validation.StrengthMonotoneUnderAppend | public/script.js:115-128 | typing more characters after a password never lowers its strength label and never turns a valid password invalid |
| Validation.ValidateName | public/script.js:130-132 | `validateName` holds iff the trimmed name has at least two UTF-16 code units and every character is an ASCII letter, in U+00C0..U+1EF9 or whitespace; so a whitespace-only name and any name with an ASCII digit fail |
| Validation.TrimPreservesNameVerdict | public/script.js:130-132 | a name validates exactly when its trim validates, so the trimming before `validateName` in the blur handler and in `validateForm` (public/script.js:197, 397) never changes the verdict |
| Forms.SwitchForm | public/script.js:135-162 | after `switchForm(f)`: `currentForm` is `f`; exactly form `f` is active; a tab is active iff it targets `f`, so none for forgot-password; no input keeps `error` or `success`; no error message is shown; the error texts and all other input state are unchanged |
| Forms.SwitchFormLastWins | public/script.js:135-162 | two switches in a row leave the page exactly as the second switch alone would |
| Forms.CheckField | public/script.js:396-435 | one required input after `validateForm`'s checks. The error message is shown exactly when the input is flagged, and a flagged input loses `success` and has a non-empty message. An unflagged input has its error text cleared and keeps its `success` class. An input that is empty after trimming shows only the "required" message. Any other input shows the message of the last rule it breaks in the order email, name, register password, confirmation, so a confirmation mismatch has the last word. The decoration changes are those of `showError` and `clearError` (public/script.js:64-81) |
| Forms.CheckFieldFlagsBrokenRules | public/script.js:396-435 | the sequential checks flag a required input exactly when one of the rules is broken: it is empty after trimming; it is email-typed and fails `validateEmail`; it is named `name` and fails `validateName`; it is named `password`, the current form is register and it is not valid; or it is named `confirmPassword` and its trimmed value differs from the raw register password |
| Forms.ValidateForm | public/script.js:392-448 | returns false iff some required input breaks one of the per-field rules listed above, or the current form is register with the terms unchecked. It raises the terms warning exactly in that last case. Each required input gets its decoration from the rule checks, and every other input is left untouched |
| Examples.EmailExamples | public/script.js:90-93 | `a@b.com` is accepted; `bad`, `a@b.` and an address with a space are rejected |
| Examples.ValidPasswordExample | public/script.js:95-113 | `Abcdef12` is valid with strength `good` |
| Examples.StrengthExamples | public/script.js:115-128 | the empty password gets the label `'weak'` and `Ab1!aaaa` the label `'strong'` |
| Examples.NoUpperCaseExample | public/script.js:95-103 | `abcdefgh!` is not valid: it has no uppercase letter |
| Examples.SpecialCharsArePunctuation | public/script.js:100 | no character of the special class is an ASCII letter or digit |
| Examples.VietnameseNameExample | public/script.js:130-132 | `Nguyễn Văn A` is a valid name |
| Examples.RejectedNameExamples | public/script.js:130-132 | `A1`, ` a ` and a blank name are rejected |
| Examples.ConfirmComparesTrimmedWithRaw | public/script.js:421-434 | on the register form, ` Abcdef12` typed into both password inputs passes the password rule but fails the confirmation rule, because the trimmed confirmation is compared with the untrimmed password |
| Examples.LoginIgnoresPasswordStrength | public/script.js:421-427 | on the login form a password input that is not blank is never rejected for strength |

Two behaviours of the code worth knowing:

- `switchForm` hides every error message but does not clear its text (public/script.js:155-157).
- `validateForm` decides whether the password-strength rule and the terms rule apply from the module-level `currentForm`, not from the form element it is given (public/script.js:421, 439).

## Left out

- server.js: the upload server is not part of this model. It is framework and filesystem plumbing: routing, multipart parsing, `readdir`/`stat`, and file names built from the clock and `Math.random`.
- Toasts, the loading overlay, the button loading state, the password visibility toggle, the screen-reader announcer, the keyboard handler and the global error listeners (public/script.js:10-62, 280-300, 451-464, 551-558, 575-598, 615-623): DOM rendering with nothing to state beyond a class being set. `validateForm`'s terms toast is modelled only as the `termsWarning` flag.
- `handleLogin`, `handleRegister`, `handleForgotPassword`, `handleSocialLogin` (public/script.js:303-389): timer-driven mock calls with a fixed credential pair and page navigation.
- `debounce` (public/script.js:602-612): only timer scheduling.
- The blur and input handlers of `setupRealTimeValidation` (public/script.js:165-277): they re-apply the same validators to DOM decorations.
- The event wiring of `DOMContentLoaded` (public/script.js:467-571) and the test export (public/script.js:626-633).
- Forms.SwitchForm: it accepts only the three form names. A different name makes the source throw on the missing form, and that error path is not modelled. The model also takes it that the page has tab buttons for login and register, and that each input's message element `<id>Error` carries the class `error-message`, the only elements whose `show` class `switchForm` removes (public/script.js:155-157). script.js guarantees neither: both hold only if index.html, which is not part of this model, provides them. Without a login or register tab, line 151 throws; without the class, an error message stays shown after the switch that lines 154-157 are meant to clear.
- Forms.ValidateForm: the `document.getElementById` lookups of the register password and of the terms checkbox become parameters. If those elements are missing, the source throws; that case is not modelled.
- Forms.ValidateForm: each input is taken to own its decoration. The source reaches the input and its message element through `document.getElementById(input.id)` and `document.getElementById(input.id + 'Error')` (public/script.js:64-81, 398-401). A required input without an id or without an `<id>Error` element makes `clearError` throw and stops the loop partway; an input whose id is shared decorates another element. The model reads no id and does not model either case.
- Unpaired surrogates: a JavaScript string may hold a lone surrogate half, which `[^\s@]` matches (so `validateEmail("a\uD800@b.com")` is true), but a `seq<char>` of scalar values cannot represent one. Such strings are outside the model.
- Text.IsWhitespace: the space separators are those of category Zs in current Unicode. Engines built on an older Unicode table may differ; U+180E, for one, left Zs in Unicode 6.3.
