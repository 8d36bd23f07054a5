# Contact form of a portfolio site, modelled in Dafny

The site is a single-page portfolio whose only logic is its contact form
(`ContactSection`). The form holds four text fields (`from_name`,
`from_email`, `subject`, `message`). The model has two parts.

- **The field validator** (`validateForm`). Name, subject and message are
  required: a value that is empty after trimming fails. The address fails with
  "Email is required" when it is blank, and otherwise with "Valid email is
  required" unless the value *as typed* matches `^[^\s@]+@[^\s@]+\.[^\s@]+$`.
  The validator builds a fresh error map and reports success when that map is
  empty.
- **The component state and its handlers.** The state is the form, the
  error map and the flags `isSubmitting` and `isSubmitted`. Events:
  - `handleChange` is an edit of one field.
  - `handleSubmit` runs in two steps around its one `await`. `Submit`
    validates, checks the three configuration values and issues the request.
    `Complete` applies the relay's success or failure.
  - `Tick` is the five-second timer that hides the thank-you panel again.

Files:

- `wrappers.dfy`: the `Option` type.
- `text.dfy`: JavaScript's whitespace set (`\s`, which `trim` also uses) and `trim`.
- `email.dfy`: the address expression as a predicate on strings (`EmailShape`),
  a matcher for it (`MatchesEmail`), and the proof that the two agree.
- `validation.dfy`: `FormState`, the per-field rules, `Validate`, and lemmas
  that state the rules in the form's own terms, with worked examples.
- `contact.dfy`: the class `ContactSection` with its invariant `Valid()`,
  the methods `Edit`, `Submit`, `Complete` and `Tick`, and a client `Visit`
  that runs one complete submission.

Points of the code that the model makes explicit:

- The missing-configuration path resets `isSubmitting` (ContactSection.tsx:67)
  before returning, so `Submit` ends with no send in flight.
- An edit removes the field's error even if the new value still fails, so
  `Valid()` states one direction: every error on display is the rule's
  verdict for the field's current value.
- The address expression forbids '@' in all three parts, forbids whitespace
  anywhere, requires all three parts to be non-empty, and tests the
  untrimmed value. `EmailShape` follows the expression.

## Model

| member | source | states |
|---|---|---|
| Text.Trim | src/components/sections/ContactSection.tsx:38-45 | the trimmed value is a slice of the value with only whitespace before and after it; it is empty exactly when the value is all JavaScript whitespace, and otherwise starts and ends with a non-whitespace character |
| Email.MatchesEmailSound | src/components/sections/ContactSection.tsx:41 | every string the matcher accepts splits as local "@" domain "." suffix with three non-empty parts free of whitespace and '@' |
| Email.MatchesEmailComplete | src/components/sections/ContactSection.tsx:41 | every string that splits that way is accepted by the matcher |
| Email.MatchesEmailIff | src/components/sections/ContactSection.tsx:41 | the matcher accepts exactly the language of `^[^\s@]+@[^\s@]+\.[^\s@]+$` |
| Email.AtSignRequired | src/components/sections/ContactSection.tsx:41 | a string without '@' is rejected |
| Email.DotRequiredAfterAt | src/components/sections/ContactSection.tsx:41 | a string with no '.' after its first '@' is rejected |
| Email.PaddedAddressFails | src/components/sections/ContactSection.tsx:41 | a leading or trailing space makes any string fail the shape, since the expression is anchored and sees the untrimmed value |
| Validation.FormState.With | src/components/sections/ContactSection.tsx:29 | replacing one field gives it the new value and leaves the other three unchanged |
| Validation.Validate | src/components/sections/ContactSection.tsx:36-48 | the fresh map holds exactly the fields whose rule fails, each with that rule's message |
| Validation.ValidateFollowsRules | src/components/sections/ContactSection.tsx:37-45 | for every field, it has an entry exactly when its rule fails, and the entry is the rule's message |
| Validation.RequiredFieldRule | src/components/sections/ContactSection.tsx:38-45 | name, subject and message have an error exactly when their trimmed value is empty, and it is the matching "... is required" message |
| Validation.EmailRule | src/components/sections/ContactSection.tsx:39-43 | no address error exactly when it is non-blank after trimming and of the expression's shape; "Email is required" exactly when it is blank; "Valid email is required" exactly when it is non-blank but not of the shape |
| Validation.ValidIff | src/components/sections/ContactSection.tsx:36-48 | the form is valid (empty map) exactly when all four fields are non-blank after trimming and the address has the shape |
| Validation.EmptyFormFailsEverywhere | src/components/sections/ContactSection.tsx:36-45 | the all-empty form gets all four "required" errors |
| Validation.ExampleAddressWellFormed | src/components/sections/ContactSection.tsx:41 | "ann@example.com" has the expression's shape |
| Validation.FilledFormPasses | src/components/sections/ContactSection.tsx:36-48 | {Ann, ann@example.com, Hi, Hello} is valid |
| Validation.OnlyAddressFails | src/components/sections/ContactSection.tsx:36-45 | with the other fields filled in and a non-blank but malformed address, the map is exactly {from_email: "Valid email is required"} |
| Validation.AddressWithoutAtFails | src/components/sections/ContactSection.tsx:36-45 | with from_email = "not-an-email" and the other fields filled in, the map is exactly the address-shape error |
| Validation.AddressWithoutDotFails | src/components/sections/ContactSection.tsx:36-45 | with from_email = "ann@localhost" and the other fields filled in, the map is exactly the address-shape error |
| Validation.PaddedAddressRejected | src/components/sections/ContactSection.tsx:39-42 | a value that begins with a space followed by a well-formed address is not blank, yet it gets "Valid email is required" |
| Contact.ContactSection.constructor | src/components/sections/ContactSection.tsx:17-25 | four empty fields, no errors, neither flag set; the invariant holds |
| Contact.ContactSection.Edit | src/components/sections/ContactSection.tsx:27-34 | the edited field holds the new value and the others are unchanged; that field's error is gone and every other error is untouched; the flags are unchanged; the invariant is kept |
| Contact.ContactSection.Submit | src/components/sections/ContactSection.tsx:51-69 | the error map becomes the validator's verdict; a request is issued exactly when the form is valid and all three configuration values are present and non-empty; the request carries those values and the form; a send is in flight exactly when a request was issued; the form is untouched |
| Contact.ContactSection.Complete | src/components/sections/ContactSection.tsx:72-91 | on success the panel is shown and all four fields are emptied; on failure the form and the panel flag are unchanged; either way no send is in flight and the errors are untouched |
| Contact.ContactSection.Tick | src/components/sections/ContactSection.tsx:84 | the panel is hidden and nothing else changes |
| Contact.Visit | src/components/sections/ContactSection.tsx:27-92 | filling in a valid form and submitting it sends one request exactly when configured; the form is emptied and the panel shown only after a successful send, and the timer then brings the form back; otherwise the form is kept and the component is idle |

## Left out

- The `emailjs.send` call and the network (ContactSection.tsx:72-77). It is a foreign library. `Submit` returns the request it would issue, and `Complete` takes the outcome as a parameter.
- `process.env` (ContactSection.tsx:59-61). The three values are the `Config` parameter of `Submit`; `None` stands for an undefined variable.
- `alert` and `console` output. They affect no component state.
- The `setTimeout` scheduling itself. Its callback is the `Tick` event.
- Contact.ContactSection.Tick: requires the thank-you panel to be shown, because the timer is scheduled only on success and is pending exactly then. A timer firing after unmount is not modelled.
- Contact.ContactSection.Edit and Contact.ContactSection.Submit: require what the rendered markup guarantees. The inputs exist only while the panel is hidden (ContactSection.tsx:139). The submit button is disabled while a send is in flight (ContactSection.tsx:212).
- Contact.ContactSection.Edit: clearing an error writes `undefined` under the field's key. The model removes the key instead. Nothing reads the map except by truthiness, so the two agree on everything observable.
- The browser's own handling of the `type="email"` input (ContactSection.tsx:166-175) is not modelled: its value sanitization and the form's built-in constraint validation, which can stop a submit before `handleSubmit` runs. `Validate`'s outcomes are stated for every value the handler could be given, so some of them (a padded value, "not-an-email") are not reachable by typing into a browser that applies those rules.
- React's batching and re-rendering are not modelled. State updates are applied in order, on the state they read.
- Characters: Dafny characters are Unicode scalar values, while JavaScript strings are UTF-16 code units. The characters the rules test (whitespace, '@', '.') are all in the Basic Multilingual Plane. A character outside it is two code units, neither of them whitespace or '@', so both views accept the same strings. The whitespace set is that of current Unicode; later versions may add characters.
- Presentation is not modelled: all markup, the framer-motion variants with their durations and offsets, and the other sections (hero, about, projects, services, section titles, footer, cursor follower).
- The one-shot visibility latch (`useInView` with `triggerOnce`) is not modelled. It lives inside a library that is not part of this model.
- The header's scroll styling, the mobile-menu toggle, the theme context and `useMousePosition` are not modelled. They are window events and trivial flags, or code that is not part of this model.
- The project-modal selection in ProjectsSection is not modelled. It is an optional value over static data.
