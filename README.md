# E-mail input pipeline and queue record, in Dafny

This project models the two pieces of logic in the e-mail sender that do not
depend on Firestore, Gmail or the command line:

- **The input pipeline of `utils/validators.py`.** `sanitize_email` strips the
  surrounding white space and lower-cases the address. `is_valid_email` turns
  the verdict of the `email_validator` library into a boolean and catches
  `EmailNotValidError`. `validate_email_input` checks the raw input for
  emptiness, then sanitises it, then asks the format check. It returns
  `(False, "E-posta adresi boş olamaz!")`, `(False, "Geçersiz e-posta formatı!")`
  or `(True, <sanitised address>)`.
- **The queue record of `src/email_service.py`.** `EmailService.send_email`
  builds the document the "Trigger Email" extension reads: `to` as a
  one-element list, and `message` with `subject`, `text` and
  `html = "<p>" + text + "</p>"`. It hands the document to the queue once and
  returns `True` exactly when that call did not raise an `Exception`.

The library is not part of this model. `ValidateEmailInput` takes it as a
parameter, a function from the address to `Normalized(email)` or
`EmailNotValid(reason)`, and every control-flow lemma holds for any such
function. The module `AddressSyntax` gives one concrete stand-in: a small
grammar with one `@`, a dot-atom local part (section 3.2.3 of RFC 5322) and a
domain of two or more letter-digit-hyphen labels. That grammar is proved to
accept the six valid examples and reject the seven invalid examples of
`utils/test_validators.py`. It makes no claim of RFC 5322 conformance. The
queue is also a parameter of `SendEmail`: a function from the document to
`Enqueued` or `Raised(error)`.

Files:

- `validators.dfy`: module `Validators`, for strip, lower, sanitise, `IsValidEmail` and `ValidateEmailInput`.
- `address_syntax.dfy`: module `AddressSyntax`, for split and join, the approximate grammar, and its shape and rejection lemmas.
- `validator_examples.dfy`: module `ValidatorExamples`, for the examples pinned by the tests.
- `email_service.dfy`: module `EmailService`, for the record, its document, reading it back, and `SendEmail`.

Points about the code's behaviour:

- The record has no `from` and no `delivery` field. The code never sets `delivery.state`, `attempts` or `error`.
- The emptiness check is on the raw string, before stripping. A blank input such as `"   "` gets the format message, not the empty message.
- The code imposes no maximum length. Any limit is the library's.
- The HTML body is not escaped.
- The result is the pair `(valid, text)`, modelled as `InputCheck(valid, text)`. It is not a tagged union.

## Model

| member | source | states |
|---|---|---|
| `Validators.LowerChar` | utils/validators.py:37 | The result is never a capital letter. A capital moves to its lower-case letter and anything else is unchanged. Being white space is preserved. |
| `Validators.LeadingSpace` | utils/validators.py:37 | The count is at most the length, everything before it is white space, and the character at it, if any, is not. |
| `Validators.TrailingSpace` | utils/validators.py:37 | The index is at most the length, everything from it on is white space, and the character before it, if any, is not. |
| `Validators.LeadingSpaceAt` | utils/validators.py:37 | Leading white space followed by a non-space or the end has exactly the length `LeadingSpace` returns. |
| `Validators.TrailingSpaceAt` | utils/validators.py:37 | Trailing white space preceded by a non-space or the start begins exactly where `TrailingSpace` says. |
| `Validators.Strip` | utils/validators.py:37 | The result is the input with white space cut from both ends, and it has no surrounding white space. It is empty exactly when the input is all white space. |
| `Validators.Lower` | utils/validators.py:37 | Same length, and each character is lower-cased in place. |
| `Validators.Sanitize` | utils/validators.py:27-37 | The result is no longer than the input and has no surrounding white space and no capitals. It is empty exactly when the input is blank. |
| `Validators.StripUnique` | utils/validators.py:37 | Any cut of white space from both ends that leaves no surrounding white space is the strip. |
| `Validators.StripRemovesPadding` | utils/validators.py:37 | White space put around a string with no surrounding white space is exactly what strip removes. |
| `Validators.StripWithoutSurroundingSpace` | utils/validators.py:37 | A string with no surrounding white space is its own strip. |
| `Validators.SanitizeFixedPoint` | utils/validators.py:37 | An address with no surrounding white space and no capitals is its own sanitised form. |
| `Validators.SanitizeIdempotent` | utils/validators.py:37 | Sanitising twice is the same as sanitising once. |
| `Validators.IsValidEmail` | utils/validators.py:7-25 | True exactly when the library did not report `EmailNotValidError`. |
| `Validators.ValidateEmailInput` | utils/validators.py:39-59 | Returns the empty message if and only if the input is "". Returns the format message if and only if the input is non-empty and its sanitised form is rejected. Returns valid if and only if it is non-empty and accepted, and then the text is the sanitised input. |
| `Validators.ValidateExactlyOne` | utils/validators.py:39-59 | Every input gets exactly one of the three answers. |
| `Validators.BlankInputIsAFormatError` | utils/validators.py:49-57 | A non-empty all-white-space input sanitises to "". It never gets the empty message, and it can fail only with the format message. |
| `Validators.ValidateIgnoresNormalizedForm` | utils/validators.py:17-25 | Two libraries with the same verdict give the same answer, so the library's normalised form is never returned. |
| `Validators.RevalidationStable` | utils/validators.py:49-59 | For a non-empty input whose sanitised form is non-empty, validating the sanitised form gives the same answer. |
| `Validators.AcceptedAddressRevalidates` | utils/validators.py:49-59 | A non-empty accepted address validates to the same answer again. |
| `Validators.RevalidationChangesBlankInput` | utils/validators.py:49-53 | For `" "`, re-validating the sanitised form changes the answer, so the non-blank condition above is needed. |
| `AddressSyntax.Split` | utils/validators.py:19 | The number of pieces is one more than the number of separators, and no piece holds the separator. |
| `AddressSyntax.JoinSplit` | utils/validators.py:19 | Joining the pieces of a split gives back the string. |
| `AddressSyntax.SplitJoin` | utils/validators.py:19 | Splitting a join of separator-free pieces gives back the pieces. |
| `AddressSyntax.ApproximateLibrary` | utils/validators.py:19 | Accepts exactly the addresses of the approximate grammar, and returns the address unchanged. |
| `AddressSyntax.AddressShape` | utils/validators.py:19 | An accepted address is a non-empty local part, exactly one "@" and a domain holding a dot. It contains no white space and no "..". |
| `AddressSyntax.RejectsUnlessOneAt` | utils/test_validators.py:24-28 | Rejects any address without exactly one "@". |
| `AddressSyntax.RejectsRepeatedAt` | utils/test_validators.py:28 | Rejects any address with two "@" characters. |
| `AddressSyntax.RejectsEmptyLocalPart` | utils/test_validators.py:25 | Rejects any address starting with "@". |
| `AddressSyntax.RejectsUndottedDomain` | utils/test_validators.py:27 | Rejects any address whose domain has no dot. |
| `AddressSyntax.RejectsDoubleDot` | utils/test_validators.py:29 | Rejects any address containing "..". |
| `AddressSyntax.RejectsSpace` | utils/test_validators.py:30 | Rejects any address containing white space. |
| `AddressSyntax.AddressFromParts` | utils/test_validators.py:9-16 | Atoms joined by dots, then "@", then two or more labels joined by dots, form an accepted address. |
| `AddressSyntax.LowerKeepsAddress` | utils/validators.py:37 | Lower-casing an accepted address keeps it accepted. |
| `AddressSyntax.AcceptedAddressValidates` | utils/validators.py:49-59 | An accepted address passes `validate_email_input` with the approximate library, and the result is its lower-case form. |
| `ValidatorExamples.AcceptsPlain` | utils/test_validators.py:10 | "test@example.com" is accepted. |
| `ValidatorExamples.AcceptsDottedLocalPart` | utils/test_validators.py:11 | "user.name@domain.co.uk" is accepted. |
| `ValidatorExamples.AcceptsPlus` | utils/test_validators.py:12 | "firstname+lastname@example.com" is accepted. |
| `ValidatorExamples.AcceptsSubdomain` | utils/test_validators.py:13 | "email@subdomain.example.com" is accepted. |
| `ValidatorExamples.AcceptsDigits` | utils/test_validators.py:14 | "1234567890@example.com" is accepted. |
| `ValidatorExamples.AcceptsHyphenatedLabel` | utils/test_validators.py:15 | "email@example-one.com" is accepted. |
| `ValidatorExamples.RejectsPlainAddress` | utils/test_validators.py:24 | "plainaddress" is rejected. |
| `ValidatorExamples.RejectsNoLocalPart` | utils/test_validators.py:25 | "@no-local.com" is rejected. |
| `ValidatorExamples.RejectsMissingAtSign` | utils/test_validators.py:26 | "missing-at-sign.com" is rejected. |
| `ValidatorExamples.RejectsMissingDomainDot` | utils/test_validators.py:27 | "missing@domain" is rejected. |
| `ValidatorExamples.RejectsTwoAtSigns` | utils/test_validators.py:28 | "two@@example.com" is rejected. |
| `ValidatorExamples.RejectsDotDot` | utils/test_validators.py:29 | "dotdot..@example.com" is rejected. |
| `ValidatorExamples.RejectsSpaces` | utils/test_validators.py:30 | "spaces in@example.com" is rejected. |
| `ValidatorExamples.SanitizePadded` | utils/test_validators.py:38 | "  TEST@EXAMPLE.COM  " sanitises to "test@example.com". |
| `ValidatorExamples.SanitizeMixedCase` | utils/test_validators.py:39 | "User@Domain.Com" sanitises to "user@domain.com". |
| `ValidatorExamples.SanitizeClean` | utils/test_validators.py:40 | "email@test.com" is its own sanitised form. |
| `ValidatorExamples.EmptyInputExample` | utils/test_validators.py:45-47 | With any library, "" is invalid and its message contains "boş olamaz". |
| `ValidatorExamples.InvalidInputExample` | utils/test_validators.py:50-52 | With a library that rejects "invalid-email", that input is invalid and its message starts with "Geçersiz". |
| `ValidatorExamples.PaddedInputExample` | utils/test_validators.py:55-57 | With a library that accepts "test@example.com", "  TEST@EXAMPLE.COM  " is valid with text "test@example.com". |
| `ValidatorExamples.ApproximateEmptyInput` | utils/test_validators.py:45-47 | With the approximate grammar, "" gets `(False, EmptyMessage)`. |
| `ValidatorExamples.RejectsInvalidEmail` | utils/test_validators.py:50 | "invalid-email" is rejected by the approximate grammar. |
| `ValidatorExamples.ApproximateInvalidInput` | utils/test_validators.py:50-52 | With the approximate grammar, "invalid-email" gets `(False, FormatMessage)`. |
| `ValidatorExamples.ApproximatePaddedInput` | utils/test_validators.py:55-57 | With the approximate grammar, "  TEST@EXAMPLE.COM  " gets `(True, "test@example.com")`. |
| `EmailService.Paragraph` | src/email_service.py:33 | The HTML is the text verbatim between "<p>" and "</p>", seven characters longer than the text. |
| `EmailService.BuildRecord` | src/email_service.py:28-35 | `to` is the one-element list holding the given recipient, unsanitised. Subject and text are the arguments unchanged, and the HTML is the text in a paragraph. |
| `EmailService.Document` | src/email_service.py:28-35 | The document has exactly the keys `to` and `message`. `message` has exactly `subject`, `text` and `html`. |
| `EmailService.ReadDocument` | src/email_service.py:28-35 | Reading the fields back from the document gives the record, so nothing is lost. |
| `EmailService.BuildRecordInjective` | src/email_service.py:28-35 | Two records are equal if and only if they were built from equal arguments. This is determinism in one direction and injectivity in the other. |
| `EmailService.DocumentOfBuiltRecord` | src/email_service.py:28-35 | The document's `to` is `[to]`, the subject and text are as given, the HTML is `"<p>" + text + "</p>"`, and there is no `from` or `delivery` key. |
| `EmailService.HtmlNotEscaped` | src/email_service.py:33 | For every text, each of its characters, markup included, appears unescaped in the HTML right after "<p>". |
| `EmailService.HtmlNotEscapedExample` | src/email_service.py:33 | The text "a < b & c" gives the HTML "<p>a < b & c</p>". |
| `EmailService.SendEmail` | src/email_service.py:14-41 | Exactly one document is handed to the queue: the document of the built record, which reads back as that record. The result is true if and only if that call returned without raising an `Exception`. |
| `EmailService.SendEmailConsultsOnlyItsDocument` | src/email_service.py:36-41 | Two queues that answer alike for this call's document give the same report. |
| `EmailService.SendEmailOutcome` | src/email_service.py:26-41 | The single attempt is the built document with `to` equal to `[to]`. An `Exception` raised by the call gives false and a returned call gives true. |

## Left out

- The grammar of the `email_validator` library (utils/validators.py:2, :19) is foreign code and is not part of this model. It is a parameter here. `AddressSyntax` only approximates it: no length limits, no quoted local parts, no internationalised domains, and no special-use or numeric top-level domain rules.
- The library's normalised address (`validation.email`, utils/validators.py:20) is only logged by the source. The model carries it in `Normalized(email)` and proves that it is never returned.
- Exceptions other than `EmailNotValidError` propagate out of `is_valid_email` in the source. The library outcome here has no such case.
- White space, for stripping, is the full list of characters Python's `str.isspace()` accepts.
- Validators.Lower: only ASCII capitals are lower-cased. Python's `str.lower()` also maps non-ASCII letters, sometimes to more than one character.
- Validators.Sanitize: inherits the ASCII-only lower-casing, so its `|r| <= |email|` holds in the model only. Python's `sanitize_email("İ")` has two characters.
- EmailService.SendEmail: `Raised` stands for an `Exception` subclass, which src/email_service.py:39 catches. An exception derived only from `BaseException` (`KeyboardInterrupt`, `SystemExit`) propagates out of `send_email` in the source and is not modelled.
- Logging (utils/validators.py:21, :24; src/email_service.py:37, :40) is left out and utils/logger.py is not part of this model. In `send_email`, `logger.info` runs inside the `try`, so a logger that raised would turn a successful enqueue into `False`. The model assumes logging does not raise.
- The Firestore gateway is not modelled. `src/email_service.py` calls `firebase_client.add_email_to_queue`, yet src/firebase_client.py defines only `FirebaseClient.add_email_task`. `SendEmail` therefore takes the enqueue call as a parameter and ties it to neither.
- src/firebase_client.py (credentials, app set-up, `email_tasks` insertion with a server timestamp), src/main.py (argument parsing, coloured output), config/settings.py (environment reads) and functions/index.js (the SMTP cloud function that sets `delivery.state`) are I/O and are not part of this model.
- `EmailService` is a class without fields in the source. It is modelled as a module of pure functions, because `send_email` changes no state of its own.
