# School registration form handler, modelled in Dafny

This project models the data logic of `script.js`, the handler of a school
registration page. The user fills in nine text fields and a terms checkbox,
and may add or remove emergency-contact rows. On every edit `validate`
writes one message per field into the page's error elements. A submit that
passes validation builds a record with the trimmed values and the collected
contacts. It puts the record at the head of a list kept in local storage
under `registrations` and re-renders the list of submissions, one summary
line per record. Then it resets the form and validates it once more.

Modules, one per part of the handler:

- `Wrappers` (`wrappers.dfy`): `Option` and `Result`.
- `Text` (`text.dfy`): the ECMAScript whitespace set used by `\s` and
  `String.prototype.trim`, plus `Trim` and `StripWs`. `StripWs` stands for
  `.replace(/\s+/g, "")`.
- `Patterns` (`patterns.dfy`): `EMAIL_RE` and `PHONE_RE`.
  - `EMAIL_RE` appears twice: as a ghost predicate that follows the regular
    expression's structure, and as an executable test. A lemma proves the
    two agree in both directions.
- `Validation` (`validation.dfy`): `getValue`, `setError` and `validate`.
  - The error elements are a `Panel` record with one optional slot per
    field. An element the page lacks is `None`, and `setError` leaves it
    alone.
  - `validate` is an imperative method with the source's mutable `ok` flag
    and its ten `setError` steps, in the source's order.
  - The method is proved against the specification functions `Accepts` and
    `Message`.
- `Contacts` (`contacts.dfy`): the contact rows.
  - `addMember` appends a row titled with the row count plus one.
  - The remove button deletes only its own row. Rows carry an element
    identity, `id`.
  - The submit handler collects the rows into contacts.
  - The `MemberList` class holds the rows and updates them in place.
- `Submissions` (`submissions.dfy`): the stored log and the summary list.
  - `SubmissionLog` holds what local storage holds under `registrations`.
  - `SummaryView` is the `#submissions` list. `renderSubmissions` is its
    loop.
- `Registration` (`registration.dfy`): the page as a whole.
  - Its constructor is the render when the script loads.
  - It has the input and change listeners.
  - The submit handler is split in three: the check, the storing of an
    accepted record, and the clearing of the form.

Behaviour worth noting:

- Unparsable stored data makes `JSON.parse` throw (lines 57 and 135). It is
  not treated as an empty log. A submit with such a log stops after
  validation, and nothing is stored or re-rendered. The render at load
  leaves the list empty.
- `form.reset()` clears the contact inputs but leaves the contact rows on
  the page.
- The terms checkbox is read with no guard (line 31), so the model assumes
  the page has it. The nine text inputs and the ten error elements may each
  be missing.

## Model

| member | source | states |
|---|---|---|
| Text.IsWs | script.js:16 | whitespace is ECMAScript's WhiteSpace and LineTerminator set, the one `trim` and the `\s` of lines 6 and 25 share; every trimming, stripping and pattern fact is stated over it |
| Text.LeadingWs | script.js:16 | counts the whitespace the input starts with: every character before the count is whitespace and the one at the count is not |
| Text.TrailingWs | script.js:16 | counts the whitespace the input ends with: every character in that tail is whitespace and the one before it is not |
| Text.Trim | script.js:16 | the result is the slice of the input that starts right after its leading whitespace and is followed only by whitespace; neither end of it is whitespace; an input without whitespace is returned unchanged |
| Text.StripWs | script.js:25 | the result holds no whitespace and is no longer than the input |
| Text.StripWsConcat | script.js:25 | stripping whitespace works piece by piece over a concatenation |
| Text.StripWsAllWs | script.js:25 | a run of whitespace strips to the empty string |
| Text.StripWsNoWs | script.js:25 | a string without whitespace is unchanged by stripping |
| Text.StripWsDropPrefix | script.js:25 | dropping leading whitespace does not change the stripped string |
| Text.StripWsDropSuffix | script.js:25 | dropping trailing whitespace does not change the stripped string |
| Text.StripWsTrim | script.js:116 | trimming before stripping, as the phone code does, gives the same result as stripping alone |
| Text.TrimEmptyIffAllWs | script.js:16 | `trim` gives "" exactly for an all-whitespace input |
| Text.StripWsEmptyIffAllWs | script.js:25 | removing whitespace gives "" exactly for an all-whitespace input |
| Patterns.IsPhone | script.js:7 | `PHONE_RE`: exactly ten characters, each an ASCII digit; `Validation.PhoneNoWs` and `Validation.TenDigitsPass` are proved about it |
| Patterns.MatchesEmailRe | script.js:6 | `EMAIL_RE`'s structure: an '@' and a later '.' that cut the string into three non-empty runs without whitespace or '@' |
| Patterns.IsEmail | script.js:37 | `EMAIL_RE.test` as a scan: no whitespace, a first '@' that is not the first character and has no '@' after it, and a '.' inside the part after the '@'; `Patterns.EmailMatchesRe` proves it agrees with `Patterns.MatchesEmailRe` |
| Patterns.FirstAt | script.js:6 | the index of the first '@', or the length when there is none |
| Patterns.EmailAtUnique | script.js:6 | an accepted email has exactly one '@', and it is not at index 0 |
| Patterns.AtomOfSlice | script.js:6 | a non-empty slice with no whitespace and no '@' is one `[^\s@]+` match |
| Patterns.SliceOfAtom | script.js:6 | each character of a `[^\s@]+` match is neither whitespace nor '@' |
| Patterns.EmailToRe | script.js:6 | the executable email test accepts only strings that `EMAIL_RE` matches |
| Patterns.ReToEmail | script.js:6 | every string `EMAIL_RE` matches passes the executable email test |
| Patterns.EmailMatchesRe | script.js:37 | the email test is true exactly when `EMAIL_RE` matches |
| Patterns.EmailAccepted | script.js:6 | "ann@school.rw" is accepted |
| Patterns.EmailRejectedLocal | script.js:6 | an address starting with '@' is rejected |
| Patterns.EmailRejectedDomain | script.js:6 | an empty middle part and a trailing '.' are rejected |
| Patterns.EmailRejectedChars | script.js:6 | a second '@' and a space are rejected |
| Validation.GetValue | script.js:14-17 | a missing input reads as ""; a present one reads as the trim of its value, so no longer than it and with no whitespace at either end |
| Validation.Read | script.js:22-31 | the eight other text entries are `getValue` of their inputs; the phone entry is the raw phone value with all whitespace removed ("" with no input); the terms entry is the checkbox state |
| Validation.Shows | script.js:33-50 | the text of a message is empty exactly for the cleared message; each error has the source's own wording |
| Validation.RequiredMessage | script.js:33-34 | a required field's message: its "required" error when the value is empty, else none |
| Validation.EmailMessage | script.js:36-38 | the email chain: "Email is required" when empty, else "Invalid email format" when `EMAIL_RE` fails, else none |
| Validation.PhoneMessage | script.js:40-42 | the phone chain: "Phone is required" when empty, else "Phone must be 10 digits" when `PHONE_RE` fails, else none |
| Validation.Message | script.js:33-50 | each of the ten fields gets its own chain, the terms box included; `Validation.MessageEmptyIffPasses` and `Validation.RequiredBeforeFormat` are proved about it |
| Validation.Passes | script.js:33-50 | the rule each field must meet, stated apart from the messages: a non-empty value, an email of `EMAIL_RE`'s structure, a ten-digit phone, a ticked terms box |
| Validation.MessageEmptyIffPasses | script.js:33-50 | a field's message is empty exactly when the field passes its rule, so a fixed field's old error is overwritten |
| Validation.RequiredBeforeFormat | script.js:36-42 | an empty email or phone gets its "required" message and never the format message; the format message is given exactly to non-empty values that fail the pattern |
| Validation.PhoneIgnoresWs | script.js:25 | whitespace inside a phone number never changes the phone message |
| Validation.PhoneFieldPasses | script.js:40-42 | the phone passes exactly when the input exists and its value, with whitespace removed, is ten digits |
| Validation.BlankFieldRequired | script.js:22-50 | a text field gets its "required" message exactly when its input is missing or holds only whitespace, and the form is then rejected |
| Validation.ShortPhoneRejected | script.js:41 | "12345" gets "Phone must be 10 digits" |
| Validation.TenDigitsPass | script.js:7 | "1234567890" matches the phone pattern and gets no phone message |
| Validation.PhoneNoWs | script.js:7 | a string that matches the phone pattern holds no whitespace |
| Validation.GroupedPhonePasses | script.js:25 | ten digits in three groups separated by whitespace get no phone message |
| Validation.SpacedPhone | script.js:25 | "123 456 7890" gets no phone message |
| Validation.Accepts | script.js:52 | the value `validate` returns: no field got an error; `Validation.AcceptsIffPasses` ties it to the field rules |
| Validation.AcceptsIffPasses | script.js:19-53 | `validate` returns true exactly when every field passes its rule |
| Validation.AcceptedFields | script.js:33-50 | an accepted form has nine non-empty text fields, an `EMAIL_RE` email, a ten-digit phone and the terms ticked |
| Validation.Displays | script.js:9-12 | what one run of `validate` leaves in the error elements: each present element shows its field's message, whatever it showed before, and a missing one stays missing |
| Validation.DisplaysTwice | script.js:9-12 | after two runs of `validate`, only the second run's messages show |
| Validation.Write | script.js:9-12 | `setError` on one field: its element, if present, shows the message |
| Validation.WriteOnly | script.js:9-12 | a `setError` changes only its own field's element, and a missing element stays missing |
| Validation.Written | script.js:33-50 | the ten `setError` calls of `validate` in order; `Validation.WrittenAt` states what each element ends up showing |
| Validation.WrittenAt | script.js:33-50 | after the ten `setError` calls, each present element shows its own field's message and a missing one stays missing |
| Validation.Report | script.js:20-52 | with a mutable flag and ten writes: the flag ends as the acceptance verdict and every element shows its field's current message |
| Validation.Validate | script.js:19-53 | reads the form, then the same as `Report` for what was read |
| Contacts.Ids | script.js:92 | the set of row identities holds the identity of every row and nothing else |
| Contacts.AddRow | script.js:70-96 | the old rows are kept, and a new row with empty inputs is appended, titled with the old row count plus one |
| Contacts.RemoveRow | script.js:91-93 | no row with the removed identity remains, and the list does not grow |
| Contacts.EnterRow | script.js:79-83 | typing changes only the inputs that the typed row has; every other row is unchanged |
| Contacts.CollectOne | script.js:112-117 | the name is the trim of the name input ("" with no input); the phone has no whitespace and equals the raw value with whitespace removed ("" with no input) |
| Contacts.Collect | script.js:111-118 | one contact per row, in row order |
| Contacts.CollectAppend | script.js:111 | collecting works row by row over a concatenation |
| Contacts.RemoveOwnRow | script.js:91-93 | with distinct identities, removing a row deletes exactly that row and keeps its siblings in order |
| Contacts.RemoveAbsent | script.js:92 | removing a row that is not there changes nothing |
| Contacts.RemoveThenCollect | script.js:111-118 | after removing row k, the collected contacts are the old ones without the k-th |
| Contacts.AddTwoRemoveFirst | script.js:71 | add two rows, remove the first and type into the second: the result is one trimmed, stripped contact, and a third row repeats the title number 2 |
| Contacts.MemberList.constructor | script.js:2 | the list starts with no rows |
| Contacts.MemberList.AddMember | script.js:70-96 | appends a fresh row, whose identity no earlier row has, and keeps identities distinct |
| Contacts.MemberList.RemoveMember | script.js:91-93 | the rows become the old rows without the removed one, and identities stay distinct |
| Contacts.MemberList.Enter | script.js:79-83 | the rows become the typed-into rows |
| Contacts.MemberList.Reset | script.js:140 | every input present is emptied; the rows stay |
| Contacts.RemoveKeepsDistinct | script.js:91-93 | removal keeps identities distinct and adds no new identity |
| Contacts.Cleared | script.js:140 | each row keeps its identity and title, and every present input becomes "" |
| Submissions.Load | script.js:56-57 | a missing log reads as the empty list, and reading fails exactly on unparsable text |
| Submissions.SubmissionLog.constructor | script.js:56 | the store starts with the given contents |
| Submissions.SubmissionLog.Append | script.js:134-137 | on unparsable text it fails and leaves the store unchanged; otherwise the stored list becomes the payload followed by the old list |
| Submissions.NonEmptyNames | script.js:63 | the result is no longer than the contacts, and no listed name is empty |
| Submissions.NonEmptyNamesHas | script.js:63 | a name is listed exactly when it is non-empty and some contact has it |
| Submissions.NonEmptyNamesAppend | script.js:63 | the filter keeps contact order over a concatenation |
| Submissions.Join | script.js:63 | joining no items gives "", and joining one item gives that item |
| Submissions.JoinSnoc | script.js:63 | joining one more item appends the separator and the item |
| Submissions.ContactsSuffix | script.js:62-64 | the suffix is empty exactly when the record has no contacts |
| Submissions.SuffixWhenContacts | script.js:62-64 | the suffix starts with " \| Contacts: " exactly when there are contacts, and is exactly that text when every name is empty |
| Submissions.SummaryLine | script.js:65 | one list item: name, email, course and level separated by " \| ", then the contacts suffix; `Submissions.SummaryLineParts` is proved about it |
| Submissions.SummaryLineParts | script.js:65 | a line starts with name, email, course and level, and is just that exactly when the record has no contacts |
| Submissions.Summaries | script.js:60-67 | one line per record, in log order |
| Submissions.SummariesPrepend | script.js:136 | after an append, the new record's line comes first and the old lines follow unchanged |
| Submissions.SummaryView.constructor | script.js:3 | the list starts empty |
| Submissions.SummaryView.Render | script.js:55-68 | on unparsable text it fails and leaves the list as it was; otherwise the list shows one summary line per stored record, in order |
| Registration.Payload | script.js:120-132 | the record's nine text fields are the values `validate` read, it carries the collected contacts and the given time, and its phone has no whitespace |
| Registration.PayloadPassed | script.js:109-132 | a stored record always satisfies the field rules: non-empty fields, an `EMAIL_RE` email and a ten-digit phone |
| Registration.Reset | script.js:140 | no input appears or disappears, and the terms box is unticked |
| Registration.ResetReadsBlank | script.js:140 | a reset form reads as all blank, whichever inputs it has |
| Registration.BlankFailsEverywhere | script.js:141 | on a blank form `validate` fails and every field gets an error, including "Email is required" and "Phone is required" |
| Registration.Page.constructor | script.js:144 | at load there are no rows, and the list is rendered from the stored log (left empty when the log does not parse) |
| Registration.Page.OnInput | script.js:100-105 | an edit that changes values, not which inputs exist, runs `validate`: every present error element shows its field's message for the edited form |
| Registration.Page.Submit | script.js:107-142 | rejected exactly when `validate` fails, which only updates messages; throws exactly when the form is valid and the log is unparsable, which changes nothing else; otherwise stores the record at the head of the log, re-renders, resets the form and contact inputs, and shows the blank form's messages |
| Registration.Page.Store | script.js:111-141 | the accepted part of the handler: fails exactly on an unparsable log, with nothing changed; otherwise the stored list is the record followed by the old list, and the view, form, rows and messages are updated as above |
| Registration.Page.ClearForm | script.js:140-141 | the form and contact inputs are reset, and the error elements show the reset form's messages |
| Registration.NoRowsNoSuffix | script.js:62-65 | with no contact rows, the record has no contacts and its line ends after the level |

## Left out

- DOM lookups and templating are not modelled.
  - `getElementById`, `form.elements`, `querySelector`, `innerHTML`, `createElement` and `appendChild` become record fields and sequence updates.
  - The `contactName_<n>` and `contactPhone_<n>` input names are not modelled. A row's inputs are its own two slots. The model does not capture name clashes between rows that share a title number.
- Event-listener wiring (script.js:98-105) is modelled only as the methods the listeners call.
- `localStorage` and JSON encoding are abstracted.
  - The store is `Stored`: absent, unparsable, or a list of records.
  - JSON that parses to something other than a list of records is not modelled, and neither are a record whose `contacts` is not an array or a failing `setItem`.
- `new Date().toISOString()` (script.js:131) is a clock call. It becomes the `now` parameter.
- `String(el.value || "")` is taken to be the input's string value. Values are strings here, so both agree.
- Text is `seq<char>` with the ECMAScript whitespace set. UTF-16 surrogate pairs are not treated specially, because none of them is whitespace.
- `form.reset()` is assumed to restore blank defaults. Inputs whose HTML sets a non-empty default value are not modelled.
- The contact inputs are assumed to lie inside the form, so `form.reset()` clears them.
- Validation.Report: `ok` is modelled as `ok && message == Clear` after each step, not as the source's assignment `ok = false` inside the error branch. Both give the same flag.
- Registration.Page.constructor: assumes a starting page that the script does not show. The `#members` container starts with no rows, which matters because a new row's title counts the existing ones (script.js:71). The `#submissions` list starts empty, so it shows nothing when the stored log does not parse. Each error element starts out showing one of the thirteen texts a message can show, the empty text included, because a panel slot holds a message, not arbitrary markup.
- Registration.Reset: its contract states which inputs exist and the terms box, not the values. What a reset form reads as is stated by `Registration.ResetReadsBlank`.
