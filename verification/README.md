# Bella Vista landing page script, modelled in Dafny

This project models the behaviour of the restaurant landing page's script,
`res.js`, and proves properties of that model. The browser's part (the DOM,
the clock, local storage and the scroll offset) enters only as values.

- **Contact form** (`field_validation.dfy`, `contact_form.dfy`). The rule table
  of the four fields (name, email, phone, message) is modelled, and so is
  `validateField`'s chain of checks: required, then minimum length, then
  maximum length, then pattern. The two regular expressions are written out as
  predicates, and each is proved equal to a plain description of the strings
  it accepts. The form is a class with these handlers:
  - blur validates the raw text;
  - input re-validates only a field that is marked invalid;
  - submit validates every field on its trimmed text and sends exactly when
    all four pass;
  - the final reset runs after a successful send.

  The form's state is the inputs' text and the error messages on display.
- **JavaScript text** (`js_text.dfy`): `\s`, `trim()`, and `length` counted in
  UTF-16 code units.
- **Navigation** (`navigation.dfy`): the scroll handler's navbar background and
  the loop that picks the active navigation link.
- **Dark mode** (`dark_mode.dfy`): a class for the toggle's state.
  - At startup, dark mode follows the stored string.
  - A toggle flips the mode and persists it.
  - Storage says `"true"` exactly when the page is dark.
- **Today's special badge** (`special_badge.dfy`): the weekend test, the two
  timers, and dismissal by a click or the Escape key.

`validateField` tests the value it is given and does not trim it. Only the
submit handler trims (res.js:198); the blur and input handlers pass the raw
text. `BlankNameBlurVersusSubmit`
shows the consequence: a name made only of spaces passes on blur and fails
with "Name is required" on submit.

## Model

| member | source | states |
|---|---|---|
| JsText.IsSpace | res.js:162 | `\s`, the whitespace the email pattern excludes and `trim()` removes: the ECMAScript WhiteSpace and LineTerminator code points, every one of them in the Basic Multilingual Plane |
| JsText.Utf16Length | res.js:254-261 | `value.length` counts UTF-16 code units: between the number of code points and twice that, and equal to it exactly when every code point is in the Basic Multilingual Plane |
| JsText.TrimStartSuffix | res.js:198 | dropping leading whitespace leaves the suffix after an all-whitespace prefix, and that suffix does not start with whitespace |
| JsText.TrimEndPrefix | res.js:198 | dropping trailing whitespace leaves the prefix before an all-whitespace suffix, and that prefix does not end with whitespace |
| JsText.Trim | res.js:198 | `trim()` gives a result with no whitespace at either end, which is empty exactly when the input is all whitespace |
| JsText.TrimSlice | res.js:198 | `trim()` returns a contiguous slice of its input, and what it cuts off on either side is whitespace |
| FieldValidation.RuleFor | res.js:153-176 | the `validators` table: name 2-50 and message 10-500 characters, both required; email required with the email pattern; phone optional with the phone pattern; each with its message |
| FieldValidation.RuleTableShape | res.js:153-176 | every rule of the table has a non-empty message; only phone is optional; length bounds come in pairs of positive numbers with the minimum below the maximum; each rule has either length bounds or a pattern |
| FieldValidation.IsEmailAddress | res.js:162 | `/^[^\s@]+@[^\s@]+\.[^\s@]+$/` as a split of the string at an '@' and a later '.' into three non-empty runs without whitespace or '@'; a match is at least 5 characters long |
| FieldValidation.IsPhoneNumber | res.js:167 | `/^[\+]?[1-9][\d]{0,15}$/` as an optional '+' followed by a digit 1-9 and at most 15 more digits; a match is 1 to 17 characters long and ends in a digit |
| FieldValidation.EmailAddressShape | res.js:162 | the email pattern accepts a string exactly when three things hold: the string has no whitespace; it has exactly one '@', and that '@' is not first; after the '@' there is a '.' that is neither the first nor the last character |
| FieldValidation.MatchHasShape | res.js:162 | a match of the email pattern has that shape |
| FieldValidation.ShapeHasMatch | res.js:162 | a string of that shape matches the email pattern |
| FieldValidation.PhoneNumberShape | res.js:167 | the optional '+' of the phone pattern is taken exactly when present; a match is 1 to 17 characters long, all in the Basic Multilingual Plane, and made of digits, with an optional leading '+' |
| FieldValidation.Capitalize | res.js:251 | upper-casing the first letter keeps the length and the rest of the key |
| FieldValidation.Check | res.js:245-266 | the chain of checks passes exactly when the value satisfies every check of the rule, where a length bound of zero is falsy and skipped as in JavaScript; a pass has the empty message; a failure of the required check reports "<Key> is required"; any other failure reports the rule's message |
| FieldValidation.TableSatisfies | res.js:153-176 | the rule table accepts, for each field, the values of its stated ranges and patterns; every rule message is non-empty; all fields but phone are required |
| FieldValidation.Validate | res.js:240-283 | a field's verdict is valid exactly when the value is acceptable for that field; valid exactly when the message is empty; an invalid empty required field reports "<Key> is required"; every other failure reports the rule's message |
| FieldValidation.CapitalizedKey | res.js:251 | capitalising each table key gives the field's display name |
| FieldValidation.RequiredMessages | res.js:249-252 | an empty name, email or message is invalid with "Name is required", "Email is required" or "Message is required" |
| FieldValidation.NameBounds | res.js:154-158 | a non-empty name is valid exactly when its length is 2 to 50; otherwise the message is "Name must be between 2-50 characters" |
| FieldValidation.MessageBounds | res.js:170-174 | a non-empty message is valid exactly when its length is 10 to 500; otherwise the message is "Message must be between 10-500 characters" |
| FieldValidation.EmailValidity | res.js:160-164 | a non-empty email is valid exactly when it has the email shape; otherwise the message is "Please enter a valid email address" |
| FieldValidation.PhoneValidity | res.js:165-169 | an empty phone is valid; a non-empty one is valid exactly when it is an optional '+', then a digit 1-9, then at most 15 digits; otherwise the message is "Please enter a valid phone number" |
| FieldValidation.EmailExamples | res.js:162 | "a@b.com" is a valid email and "a@b" is not |
| FieldValidation.PhoneExamples | res.js:167 | "12345" and "+4915112345678" are valid phones; "abc", "0123", "+" and a 17-digit number are not |
| FieldValidation.NameLengthExamples | res.js:154-158 | names of 1 and 51 characters fail; names of 2 and 50 characters pass |
| FieldValidation.MessageLengthExamples | res.js:170-174 | messages of 9 and 501 characters fail; messages of 10 and 500 characters pass |
| FieldValidation.BlankNameBlurVersusSubmit | res.js:181-201 | a whitespace-only name of length 2 to 50 passes the raw check on blur and fails "Name is required" on the trimmed check of submit |
| ContactForm.Values.With | res.js:182 | editing one input changes that input's text and no other |
| ContactForm.Position | res.js:145-150 | every field has a place in the order `Object.keys(fields)` visits |
| ContactForm.FieldsDistinct | res.js:145-150 | the fields are visited once each |
| ContactForm.Rejected | res.js:197-204 | the fields a submit marks invalid are exactly those whose trimmed text fails validation |
| ContactForm.Errors | res.js:197-204 | after a submit, a field shows an error exactly when its trimmed text fails; the error shown is that failure's non-empty message |
| ContactForm.PassUpToAll | res.js:193-204 | after the first n fields, `isValid` holds exactly when none of them failed |
| ContactForm.ErrorsUpToAll | res.js:197-204 | after the first n fields, the errors on display are the failures among them; every later field keeps its earlier state |
| ContactForm.DataUpToAll | res.js:197-199 | after the first n fields, `formData` holds exactly those fields, each mapped to its trimmed text |
| ContactForm.SubmitFolds | res.js:193-204 | after all four fields, `isValid` means no failure, the errors on display are the failures, and `formData` holds every trimmed field |
| ContactForm.Form.constructor | res.js:143-150 | the form starts with empty inputs and no errors shown |
| ContactForm.Form.ValidateField | res.js:240-283 | returns the field's verdict; a pass clears the field's error, and a failure shows the failure's message; the inputs are unchanged |
| ContactForm.Form.Blur | res.js:181 | a blur validates the raw text of the input and updates only that field's error |
| ContactForm.Form.Input | res.js:182-186 | typing changes that input's text; the field is re-validated on its raw text only if it already shows an error; otherwise nothing else changes |
| ContactForm.Form.Submit | res.js:190-205 | the form is sent exactly when all four trimmed fields pass; `formData` maps every field to its trimmed text; the inputs keep their text; the errors on display are exactly those of the failing fields |
| ContactForm.Form.ResetAfterSend | res.js:220-234 | the reset after a send empties the inputs and clears every error |
| Navigation.NavbarBackground | res.js:40-50 | the navbar background is an `rgba(...)` colour whose palette follows the colour scheme (white, or 17, 24, 39 when dark) and whose opacity is 0.98 past 50 pixels of scrolling and 0.95 otherwise |
| Navigation.NavbarBackgroundDistinct | res.js:40-50 | the four navbar backgrounds are distinct: two are equal exactly when they share the colour scheme and agree on whether the page is scrolled past 50 pixels |
| Navigation.LastReached | res.js:54-66 | the section chosen is the last one whose band from top-150 to top-150+height contains the probe; when none does, none is chosen |
| Navigation.FirstLinkTo | res.js:61 | the link activated for a section is the first whose href is "#" followed by the section id; when there is none, no link is activated |
| Navigation.UpdateActive | res.js:53-66 | the scroll loop leaves active exactly the first link to the last section reached by scrollY+100; when no section is reached, the active links are unchanged |
| DarkMode.Stored | res.js:93-107 | the stored string is "true" exactly when dark mode is on |
| DarkMode.StartsDark | res.js:77 | the page starts dark exactly when the saved entry is what enabling dark mode stores |
| DarkMode.StoredRoundTrip | res.js:77-107 | a stored preference is read back as the same mode at the next startup |
| DarkMode.Theme.constructor | res.js:76-80 | at startup, dark mode is on exactly when the saved entry is "true"; storage still says "true" exactly when the page is dark; nothing is written or changed when the page starts light |
| DarkMode.Theme.Enable | res.js:90-102 | enabling sets the dark class, the sun icon and the stored "true", and gives the dark navbar background for the scroll offset |
| DarkMode.Theme.Disable | res.js:104-116 | disabling clears the dark class, sets the moon icon and the stored "false", and gives the light navbar background for the scroll offset |
| DarkMode.Theme.Toggle | res.js:82-88 | a click flips the mode; afterwards storage says "true" exactly when the page is dark, and the icon and the navbar follow the new mode |
| DarkMode.Theme.Scroll | res.js:40-50 | the scroll handler's navbar background follows the current mode and the scroll offset |
| SpecialBadge.IsSpecialDay | res.js:125 | the badge's days are Friday (5), Saturday (6) and Sunday (0); Monday to Thursday are excluded |
| SpecialBadge.Step | res.js:137-139 | a click on the badge, the Escape key (res.js:392-396) and the hide timer each leave the badge hidden; only the show timer shows it |
| SpecialBadge.Schedule | res.js:122-134 | timers are set exactly on Friday, Saturday and Sunday |
| SpecialBadge.ReplayLast | res.js:126-139 | every event decides the badge on its own: the badge shows exactly when the last event was the show timer |
| SpecialBadge.HiddenWithoutShow | res.js:126-139 | without the show timer, a hidden badge stays hidden |
| SpecialBadge.TimersAlone | res.js:122-134 | left to its timers, the badge is visible t milliseconds after load exactly on a special day with 2000 <= t < 12000 |
| SpecialBadge.NeverOnOtherDays | res.js:122-139 | on Monday to Thursday the badge never shows, whatever clicks and Escape presses happen |
| SpecialBadge.DismissHides | res.js:137-139 | after a click on the badge or an Escape press, the badge is hidden |

## Left out

- The DOM is not modelled: element lookup, class lists, inline styles and the error elements.
  - The form's `is-invalid` marker and the displayed error text are one map.
  - The model assumes every field has its error element, so the `if (errorElement)` guards always pass.
- The submit button's "Sending..." and "Message Sent!" states are left out, and so are their two timers (res.js:206-236). Only the final reset is modelled, as `ContactForm.Form.ResetAfterSend`. The delays are recorded as the constants `SendingMs` and `ResetMs`.
- The real clock is not modelled; the badge's timers are replayed as an ordered list of events. `new Date().getDay()` is an input of type `Weekday`, and local storage is an input `Option<string>`.
- `window.scrollY` and the section offsets are whole pixels. The browser can report fractional values, and those are not modelled.
- The following are left out because they call into the browser or Bootstrap with no logic of their own to model:
  - smooth scrolling on navigation clicks (res.js:19-33);
  - the gallery modal (res.js:287-324);
  - the scroll animations through `IntersectionObserver` (res.js:327-359);
  - `debounce` and its empty scroll handler (res.js:362-377);
  - Escape's closing of open modals (res.js:383-390);
  - the global error listener and the console messages (res.js:401-408).
- JsText.IsSpace: the Unicode space separators (category Zs) are listed by code point. They are not looked up in a Unicode database.
- JsText.Utf16Length: a lone surrogate code unit cannot occur in a Dafny string, so strings containing one are not modelled.
- FieldValidation.Capitalize: only ASCII lower-case letters are upper-cased. That is all the four field keys need; `toUpperCase` on other letters is not modelled.
- Navigation.FirstLinkTo: section ids are assumed free of `"`, `\` and line breaks. The script builds the selector `.nav-link[href="#id"]` by splicing the id in (res.js:61). With such an id, `querySelector` either throws, which aborts the scroll handler after every link has lost `active`, or unescapes the id before comparing. The model compares the href with `"#"` plus the id as plain strings.
- ContactForm.Blank: `form.reset()` (res.js:221) restores each input's default value from the page's markup. The model assumes those defaults are empty.
- DarkMode.Theme.constructor: the body is assumed to start without the `dark-mode` class, so the page starts light unless the saved entry turns dark mode on.
- DarkMode.Theme.constructor: the icon and the navbar background are `None` until the script first sets them. The page's own markup for them is not modelled.
