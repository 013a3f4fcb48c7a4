# Contact-form endpoint, modelled in Dafny

This project models `contact.php`, the server side of a marketing site's
contact form. The script accepts a POST of six form fields: company, name,
email, phone, message and consent. It passes each field through a PHP
sanitising filter and requires company, name, email, message and consent to
be non-empty in PHP's sense of `empty()`. It then validates the email format,
builds an inquiry record and makes sure the storage directory exists. Finally
it appends the record as one line to `storage/inquiries.log`. Every exit path
has a fixed HTTP status and message: 405, 422 (missing fields), 422 (bad
email), 500 (storage directory), 500 (write) or 200.

The model has four modules:

- `ContactSpec` (contact_spec.dfy) holds the fields and the per-field filter
  policy, `empty()`, the inquiry record and the response. It also holds
  `Decide`, which gives the whole script as a function: the response, whether
  the storage directory exists afterwards, and the record appended, if any.
- `ContactProperties` (contact_properties.dfy) holds one lemma per promise the
  script makes about a single request.
- `InquiryLog` (inquiry_log.dfy) holds the persistent state, which is the
  directory flag and the append-only log. It also holds what sequences of
  requests do to that state.
- `ContactHandler` (contact_handler.dfy) holds the script in its own
  imperative form. The class `InquiryEndpoint` has the fields `dirExists` and
  `log`. Its `Handle` method runs the checks in the script's order and loops
  over the required fields. It is proved to agree with `Decide` and
  `InquiryLog.Serve`.

Things that PHP or the host decides are inputs to the model:

- What the sanitising filters make of a string, and whether
  FILTER_VALIDATE_EMAIL accepts one. These are the `FilterLibrary` function
  values, fixed for each endpoint.
- The request method, the POST body and the User-Agent header.
- The formatted timestamp.
- What the filesystem does. `mkdir` is three-valued: `Created`,
  `CreatedByOther` or `Failed`. `CreatedByOther` means mkdir was refused but
  the second `is_dir` found the directory. This is how the model captures the
  script's tolerance of a creation race. A plain success flag could not
  express the second look.
- Whether the append succeeds.

`filter_var(..., FILTER_VALIDATE_EMAIL)` returns the email itself on success.
By that point the email is neither `""` nor `"0"`, so the script's `!filter_var(...)` is exactly
"validation failed". This is why the model uses a boolean `validEmail`.

## Model

| member | source | states |
|---|---|---|
| `ContactSpec.Sanitise` | contact.php:13-22 | a field is in the sanitised input iff it was posted, and then it holds the result of the filter its policy names (email: SANITIZE_EMAIL, consent: NUMBER_INT, others: FULL_SPECIAL_CHARS); an empty body gives the empty input |
| `ContactSpec.Policy` | contact.php:13-20 | the filter table: email goes through SANITIZE_EMAIL and only email, consent through NUMBER_INT and only consent, every other field through FULL_SPECIAL_CHARS; `Sanitise` applies it |
| `ContactSpec.IsEmpty` | contact.php:26 | PHP `empty($input[$field])` on the sanitised input: absent, "" or "0"; `SanitisedEmpty` restates it in terms of the raw POST value |
| `ContactSpec.BuildInquiry` | contact.php:45-53 | builds the record from the sanitised company, name, email, message, phone or "" when absent, the timestamp, and the User-Agent or "unknown"; `AcceptedRecord` pins every field of the record that is appended |
| `ContactSpec.DirReady` | contact.php:56 | the storage guard passes unless the directory was missing and mkdir failed with the directory still missing, so a lost creation race passes; `StorageFailure` ties it to the 500 response |
| `ContactSpec.Decide` | contact.php:4-80 | every outcome has status 200, 405, 422 or 500; success iff status 200 iff the confirmation message; a record is appended iff success, and it then satisfies every stored required-field and the email constraint and the directory exists; an existing directory is never lost; a non-500 failure leaves the directory as it was |
| `ContactProperties.NonPostRejected` | contact.php:4-11 | any method other than POST gives 405, success false, the not-allowed message; nothing is appended and the directory is untouched |
| `ContactProperties.SanitisedEmpty` | contact.php:22-26 | a field counts as empty iff it was not posted or its filter produced "" or "0" |
| `ContactProperties.MissingFieldRejected` | contact.php:24-34 | a POST gets the missing-fields message iff one of company, name, email, message, consent is empty after sanitising, and that outcome is 422, success false, nothing appended, directory untouched |
| `ContactProperties.EmptyBodyRejected` | contact.php:22-34 | a POST with no fields has every required field empty and is answered 422 with the missing-fields message |
| `ContactProperties.MissingCheckedBeforeEmail` | contact.php:24-43 | a request with a missing field and an invalid email gets the missing-fields message, not the email message |
| `ContactProperties.InvalidEmailRejected` | contact.php:36-43 | with all required fields present, the email message is given iff the sanitised email fails validation, whatever the directory and filesystem do; that outcome is 422, success false, nothing appended |
| `ContactProperties.InvalidEmailAlwaysRejected` | contact.php:24-43 | a POST whose sanitised email fails validation gets 422 with success false (the missing-fields or the email message), nothing appended and the directory untouched, whatever the other fields hold |
| `ContactProperties.AcceptedRecord` | contact.php:45-53 | on success all required fields were posted, and the record holds the sanitised company, name, email, message, the sanitised phone or "" when not posted, the request's timestamp, and the User-Agent or "unknown" |
| `ContactProperties.ConsentNotStored` | contact.php:24-53 | replacing a non-empty consent by any other value the number filter keeps non-empty changes neither the response nor the record |
| `ContactProperties.StorageFailure` | contact.php:55-63 | the internal-error message is given iff the request passed validation, the directory was missing and mkdir failed with the directory still missing; that outcome is 500, success false, no directory, nothing appended |
| `ContactProperties.WriteFailure` | contact.php:65-75 | the write-failure message is given iff the request passed validation, the directory is in place and the append failed; that outcome is 500, success false, nothing appended, directory present |
| `ContactProperties.AcceptedExactly` | contact.php:65-80 | success iff validation passed, the directory is in place and the write succeeded; then the response is 200 with the confirmation message and exactly one admissible record is appended |
| `ContactProperties.FailureAppendsNothing` | contact.php:4-75 | every non-200 outcome has success false and appends nothing |
| `ContactProperties.MessagesDistinct` | contact.php:8-79 | the six message texts are pairwise different, so each exit path is recognisable by its message |
| `InquiryLog.Serve` | contact.php:4-80 | one request keeps the old log as a prefix and adds at most one line, and preserves "every record admissible, and a non-empty log only inside an existing directory" |
| `InquiryLog.RunAppendOnly` | contact.php:65-68 | after any sequence of requests the earlier log is an unchanged prefix of the new one |
| `InquiryLog.RunGrowth` | contact.php:65-80 | a sequence of requests grows the log by exactly the number of successful responses |
| `InquiryLog.RunConsistent` | contact.php:24-68 | no sequence of requests writes a record breaking a required-field or email constraint, or a log without its directory |
| `InquiryLog.RunKeepsDirectory` | contact.php:55-63 | once the storage directory exists, it still exists after any sequence of requests |
| `InquiryLog.RunNonPostUnchanged` | contact.php:4-11 | a sequence of non-POST requests leaves the directory and the log exactly as they were |
| `ContactHandler.MissingRequired` | contact.php:24-34 | the loop over the required fields reports a missing field iff some required field is empty |
| `ContactHandler.InquiryEndpoint.constructor` | contact.php:65 | an endpoint starts over the log file's existing contents and a given directory state, provided that log satisfies the log invariant |
| `ContactHandler.InquiryEndpoint.Handle` | contact.php:4-80 | the response is that of `Decide`; the new directory flag and log are `Serve` of the old ones; on success status is 200, the log grows by exactly one admissible record with the old log as prefix; otherwise the log is unchanged; the log invariant is kept |

## Left out

- The PHP filter extension's behaviour (FULL_SPECIAL_CHARS, SANITIZE_EMAIL, NUMBER_INT, VALIDATE_EMAIL) is library code. It is a parameter of the model, not a reimplementation of HTML escaping or email syntax.
- Form values are strings. Array-valued fields, for which a scalar filter yields `false`, are not modelled.
- The JSON encoding of the record and of the response envelope, and `PHP_EOL`, are not modelled. The record and the response are datatypes. The model also does not cover a failing `json_encode` of the record, for example on invalid UTF-8 in the unsanitised User-Agent. In that case the script would append a bare newline.
- The clock and the Asia/Tokyo ATOM formatting are not modelled. The timestamp is an input string.
- `LOCK_EX` and concurrent writers are not modelled. Each request is atomic, and requests are served one after another.
- Directory permissions (0775), recursive creation and the log file's path are not modelled. They are outside what the model observes.
- The `Content-Type` response header is not modelled, because it is the same on every path.
- A partial write is not modelled. The append either adds the whole line or fails and adds nothing.
- Removal of the directory or the log by anything outside the script is not modelled.
- script.js is not part of this model. It is browser UI (navigation toggle, counters, parallax, cursor, and a fetch-based submit handler).
