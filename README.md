# Email validation pipeline, modelled in Dafny

This project models the email-address validator in `main.py`. The validator has these parts:

- a syntax check, which is a regular expression applied with `re.match`;
- an MX lookup for the domain;
- an SMTP probe of the first MX exchange (HELO, `MAIL FROM`, `RCPT TO`);
- three placeholder checks (authentication, user engagement, mailbox availability);
- `validate_email`, which writes one flag per stage into a result dict and returns at the first false flag;
- the `GET /validate` endpoint, which splits its `email` parameter on commas, strips each piece and validates the pieces in order.

The network is a value, `MailOracles.Network`:

- a function from domain to MX answer: records, `NoAnswer`, `NXDOMAIN`, or another resolver exception;
- a function from (exchange, recipient) to an SMTP session outcome: an exception during the session, or the RCPT reply code together with whether the closing QUIT completed.

The model keeps three Python behaviours exactly:

- **Result dict.** The dict is an insertion-ordered list of entries.
- **Exceptions.** Whether each check returns or raises is represented explicitly.
- **Strings.** `str.split(',')`, `str.strip()` (with Python's whitespace set) and `email.split('@')[1]` (which raises `IndexError`) are modelled exactly.

Files:

- `wrappers.dfy` defines `Option` and `Result`.
- `strings.dfy` defines `Count`, `Find`, `Split`, `Join` and `Strip`.
- `syntax.dfy` defines the syntax check and its reference regular language.
- `result.dfy` defines the result dict.
- `oracles.dfy` defines the network checks.
- `pipeline.dfy` defines `validate_email`.
- `batch.dfy` defines the endpoint.

`validate_email` updates a local dict step by step, so it is written as a method. It is proved equal to a reference function, `Pipeline.Validated`. Everything else in the source is expressions and calls, so it is written as functions.

## Model

| member | source | states |
|---|---|---|
| EmailSyntax.SyntacticValidIsRegexMatch | main.py:13-17 | the scanner behind `is_syntactic_valid` accepts exactly the strings the pattern `^[a-zA-Z0-9._%+-]+@[a-zA-Z0-9.-]+\.[a-zA-Z]{2,}$` matches under `re.match`, where `$` also matches before one final newline |
| EmailSyntax.BodyAcceptedIsPattern | main.py:13 | without the newline allowance, acceptance is exactly "a local run, '@', a domain run, '.', two or more letters, nothing else" |
| EmailSyntax.PatternSplitIsRecognised | main.py:13 | every way of writing a string in that pattern form is accepted, wherever the last '.' falls inside the domain run |
| EmailSyntax.SyntaxCharacterization | main.py:13-17 | valid exactly when, after dropping one final newline, splitting at '@' gives two parts: a non-empty local part of `[a-zA-Z0-9._%+-]`, and a domain of `[a-zA-Z0-9.-]` whose last '.' has at least one character before it and two or more letters after it |
| EmailSyntax.AcceptedIsAddressShaped | main.py:13 | an accepted body has that two-part shape |
| EmailSyntax.AddressShapedIsAccepted | main.py:13 | an address of that shape is accepted |
| EmailSyntax.NewlineTolerance | main.py:13-17 | validity is decided on the string with at most one final newline removed |
| EmailSyntax.OneNewlineIgnored | main.py:13-17 | appending one newline to a string that does not end in one leaves its validity unchanged |
| EmailSyntax.SplitWellDefined | main.py:64-69 | a valid address contains exactly one '@', so `email.split('@')[1]` exists, has no '@', and the local part is not empty |
| EmailSyntax.AcceptedEndsInLetter | main.py:13 | an accepted address ends in an ASCII letter |
| EmailSyntax.RejectsWithoutAt | main.py:13-17 | a string without '@' is rejected |
| EmailSyntax.RejectsSeveralAt | main.py:13-17 | a string with two or more '@' is rejected |
| EmailSyntax.RejectsOneLetterFinalLabel | main.py:13 | a string whose second-to-last character is '.' is rejected (the final label needs two letters) |
| EmailSyntax.RejectsUnlessLetterLast | main.py:13-17 | a string that does not end in a letter, before an optional final newline, is rejected |
| EmailSyntax.AcceptsAssembled | main.py:13-17 | `local@host.tld` is accepted for every non-empty local part and host over their classes and every tld of two or more letters |
| PyStrings.SplitLength | main.py:106 | `split` with a one-character separator gives one more piece than there are separators |
| PyStrings.JoinSplit | main.py:106 | joining the pieces with the separator gives back the original string |
| PyStrings.SplitJoin | main.py:106 | splitting a join of non-empty, separator-free pieces gives back the pieces |
| PyStrings.Split | main.py:106 | there is at least one piece, and no piece contains the separator |
| PyStrings.StripIsInnerSlice | main.py:107 | `strip()` removes exactly the whitespace runs at both ends and keeps the inner slice |
| PyStrings.StripIdempotent | main.py:107 | stripping twice is stripping once |
| ValidationResult.Lookup | main.py:61-94 | a key is absent exactly when it was never written, and a found value is the value of an entry with that key |
| ValidationResult.Assign | main.py:61-94 | `result[k] = v` appends a new key at the end and keeps the key order when the key exists |
| ValidationResult.AssignThenLookup | main.py:61-94 | after `result[k] = v`, reading `k` gives `v` and every other key reads as before |
| ValidationResult.LookupAt | main.py:61-94 | when keys are distinct, reading the key at position `i` gives the value at position `i` |
| MailOracles.IsDomainValid | main.py:20-25 | true exactly when MX records come back, false exactly for `NoAnswer` and `NXDOMAIN`, and every other resolver exception propagates with its reason |
| MailOracles.DeliverableIffFirstExchangeSays250 | main.py:28-41 | deliverable exactly when the answer has records and the session with the first record's exchange returns RCPT code 250 and closes cleanly; every other outcome is false and nothing raises |
| MailOracles.OnlyFirstRecordCounts | main.py:31-32 | the verdict depends only on the first record's exchange, not on preferences or on later records |
| MailOracles.DomainPart | main.py:69 | `email.split('@')[1]` raises IndexError exactly when there is no '@', and otherwise returns a part without '@' |
| MailOracles.PlaceholdersRepeatEarlierChecks | main.py:44-57 | the authentication check repeats the domain check, engagement is always true, and mailbox availability repeats the SMTP check |
| Pipeline.FirstFailure | main.py:60-95 | every stage before the returned position returned true, and the stage at that position did not |
| Pipeline.Reached | main.py:61-94 | the dict after `n` passed stages is the email followed by `n` true flags under the stage keys, in order |
| Pipeline.ValidateEmail | main.py:60-95 | the method returns exactly the reference outcome, and every dict it returns is staged |
| Pipeline.RunStage | main.py:63-92 | one stage: an exception escapes before anything is written; otherwise the flag is appended, and the run stops exactly when the check did not return true |
| Pipeline.ExpectedIsStaged | main.py:60-95 | every returned dict is staged: entry `i` has key rank `i`, the email comes first, the last flag is false unless all eight keys are present, and every earlier flag is true |
| Pipeline.StagedKeysArePrefix | main.py:60-95 | the keys of a staged dict are a prefix of `email, syntactic_valid, domain_valid, smtp_deliverable, authenticated, user_engaged, mailbox_available, valid` |
| Pipeline.StagedVerdict | main.py:94 | `valid` is present exactly when all eight keys are, it is never false, and it is true exactly then |
| Pipeline.ValidIffNoFalseFlag | main.py:94 | `valid` is true exactly when no flag in the dict is false |
| Pipeline.SyntaxFailureShape | main.py:64-66 | a syntax failure returns exactly `{email, syntactic_valid: false}`, and only a syntax failure does |
| Pipeline.NeverIndexError | main.py:65-69 | the IndexError of `email.split('@')[1]` never escapes, because an address without '@' fails the syntax check first |
| Pipeline.OutcomeByNetwork | main.py:68-95 | for a valid address: a resolver exception escapes; `NoAnswer` or `NXDOMAIN` gives three entries ending in `domain_valid: false`; a failed probe gives four entries ending in `smtp_deliverable: false`; a passed probe gives all eight entries with `valid: true` |
| Pipeline.RaisesOnlyOnResolverFailure | main.py:60-95 | `validate_email` raises exactly when the address is valid and its MX query fails with a resolver exception other than `NoAnswer` or `NXDOMAIN` |
| Pipeline.ReturnedLengths | main.py:79-92 | with repeated queries answered alike, a returned dict has 2, 3, 4 or 8 entries, and `user_engaged` is never false |
| Pipeline.ValidMeansDeliverable | main.py:74-94 | `valid: true` implies a valid address whose first MX exchange accepted the recipient with 250 and closed the session cleanly |
| Batch.Pieces | main.py:106-107 | there is one piece per comma-separated part, and piece `i` is part `i` stripped |
| Batch.Status | main.py:103-108 | the status is 200 exactly for a list of results |
| Batch.ValidateEachInOrder | main.py:107 | the comprehension succeeds exactly when no address raises, and then gives one result per address, in input order |
| Batch.ValidateEachAbortsAtFirst | main.py:107 | an aborted comprehension carries the exception of the first address that raised, and every earlier address returned |
| Batch.EmptyParameterRejected | main.py:101-104 | the 400 "No email provided" reply comes exactly for an empty or missing parameter |
| Batch.ResultsFollowPieces | main.py:106-108 | a 200 reply has `count(',') + 1` results, and result `i` is `validate_email` of piece `i` |
| Batch.ResultsAreStaged | main.py:107 | every result in a 200 reply is staged for its own piece |
| Batch.ServerErrorIffSomePieceRaises | main.py:107 | the reply is a server error exactly when some piece's validation raises |
| Batch.ServerErrorIsFirstRaise | main.py:107 | a server error carries the first raising piece's exception, and that exception is always a resolver error |
| Batch.PiecesAreStripped | main.py:107 | no piece has surrounding whitespace left |
| Batch.SingleAddress | main.py:106-107 | a parameter without a comma is the single piece `param.strip()` |

## Left out

- Flask is not modelled: routing, the query-string parser and the JSON encoding of the reply. The parameter arrives as a string, and a missing parameter is the empty string (`request.args.get('email', '')`). The reply is modelled as a datatype with its status code.
- The 500 reply for an escaping exception is Flask's default behaviour, not code in `main.py`. The model records only that the request fails with that exception.
- Real DNS and SMTP are not modelled. Connections, timeouts, sockets, `set_debuglevel` and the HELO/MAIL replies become the two oracle functions of `Network`. Only their outcomes matter to the code.
- Answers that change between repeated queries are not modelled. One validation queries DNS up to four times and SMTP up to twice, and the oracles give the same answer every time. Under that assumption the authentication, engagement and mailbox stages cannot fail (see `Pipeline.ReturnedLengths`). With a live resolver they could.
- The code does not have several parts of the design description, so the model does not either:
  - sorting MX records by preference;
  - falling back to later MX hosts;
  - an MX cache;
  - per-step timeouts;
  - a tagged probe outcome with 4xx/5xx classification;
  - catch-all or greylisting handling.
- In the code, any RCPT reply other than 250 is false. An exception while leaving the `with` block (the QUIT step) is caught and also gives false, which is why `SessionCompleted` carries `closedCleanly`.
- Concurrency is not modelled. The code validates the addresses of a batch one after another.
- The design description says one failing address does not affect the others. In the code, a resolver exception from any address escapes the list comprehension and fails the whole request. The model follows the code (`Batch.ServerErrorIffSomePieceRaises`).
- The unused imports (`socket`, `parseaddr`, `parse_qs`) and the `app.run` entry point are not modelled.
- Python's `re` engine is not modelled in general. Only the one fixed pattern is modelled, as a reference language plus a scanner that is proved to recognise it.
