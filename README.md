# One-time-passcode login, modelled in Dafny

The service has two HTTP handlers over two SQLite tables:

- `send_otp` draws a code in 1000..9999 and stores it as a row of table `otps`. The row holds the phone number, the code's decimal text, and an expiration 300 seconds after the current time. Older rows are kept.
- `verify_otp` selects the newest `otps` row (highest id) whose phone and code equal the request's. It rejects the request when there is no such row, or when that row's expiration is before the current time. Otherwise it deletes the row and upserts the `users` row for the phone: it overwrites `session_id`, `ip` and `device_name`, or it inserts a new row. Then it commits.

The model has three modules:

- `OtpCode` (`otp_code.dfy`): the code text, `str(n)`, with its inverse and the four-digit facts.
- `Tables` (`tables.dfy`): the row shapes, both tables as one value `Db`, and the two handlers as the specification functions `Issue` and `Verify`. It also holds the lemmas about them, and `VerifyCorrected`, the verify handler with its response message corrected (see Findings).
- `Handlers` (`handlers.dfy`): the class `Store` holding the tables as fields. Its methods `SendOtp` and `VerifyOtp` do the handlers' steps and are proved equal to `Issue` and `Verify`. A rejected request returns before any field is written; this is how rollback is modelled. The fields are written only where the handler commits.

The clock (`int(time.time())`), the random draw and the session token are method parameters.

The code does not do several things an OTP login commonly does. The model follows the code:

- There is no rate limit and no `created_at` column.
- There is no per-code attempt counter and no lock-out. A wrong code changes nothing.
- Issuing does not delete earlier codes, so several live codes per phone can coexist.
- An expired row is not deleted on verify, because the handler raises before committing.
- "No such code" and "wrong code" are one error (`WrongCode`).

## Model

| member | source | states |
|---|---|---|
| OtpCode.Decimal | main.py:57 | `str(n)` is a non-empty string of decimal digits with no leading zero for n > 0 |
| OtpCode.DecimalRoundTrip | main.py:57 | parsing the decimal text of n gives back n |
| OtpCode.DecimalLength | main.py:57 | a number with `width` digits has decimal text of exactly that length |
| OtpCode.CodeText | main.py:57 | the stored code for a draw in 1000..9999 is four digits, has no leading zero, and has the draw as its value |
| OtpCode.CodeTextInjective | main.py:57 | two draws give the same code text exactly when they are equal |
| Tables.WellFormed | main.py:18-31 | the table invariants (ascending OTP rowids, each user stored under its own phone, distinct user ids all in 1..n for n users, with the next user id n + 1) imply that no two OTP rows share an id and no two user rows share a phone |
| Tables.EmptyDbWellFormed | main.py:33-34 | freshly created empty tables satisfy the table invariants |
| Tables.NextOtpId | main.py:26-28 | a new OTP rowid is at least 1 and above every rowid in the table |
| Tables.NewestMatch | main.py:67-70 | the query result is None exactly when no row matches phone and code; otherwise it is a matching row with the largest id among the matches |
| Tables.NewestMatchUnique | main.py:67-70 | with ascending ids, the matching row of largest id is the one the query returns |
| Tables.RemoveAtKeepsOrder | main.py:78 | deleting one row keeps the remaining rowids ascending |
| Tables.Issue | main.py:55-62 | issuing appends exactly one row and keeps every earlier row, including older codes for the same phone; the user table is untouched; the new row has the request's phone, a four-digit code whose value is the draw, expiration exactly now + 300, and an id above all earlier ids |
| Tables.IssuePreservesWellFormed | main.py:55-62 | issuing keeps the table invariants |
| Tables.UpsertedUser | main.py:81-95 | the user row written on login carries the new token, ip and device; an existing user keeps its id and phone; a new user gets the request's phone and an id above every existing user id |
| Tables.Verify | main.py:65-102 | a rejection returns the tables unchanged; a login returns the token, the id of the phone's user row, and always the login message |
| Tables.VerifyRejections | main.py:67-75 | `WrongCode` exactly when no row matches phone and code; `CodeExpired` exactly when the newest matching row expires before now; a rejection changes neither table |
| Tables.VerifyExpiryIsStrict | main.py:74-75 | the newest matching row logs in exactly when now <= its expiration, so expiration == now still succeeds |
| Tables.VerifyConsumesNewestMatch | main.py:67-78 | on success the newest matching, unexpired row is the one deleted; every other row stays, in order, and the table shrinks by one |
| Tables.ResubmitFindsOnlyOtherRows | main.py:67-78 | after a success, the same phone and code find a row again exactly when some other row also matched |
| Tables.CodeVerifiesOnce | main.py:67-78 | when only one row matched, resubmitting the same code after a success is rejected as `WrongCode` |
| Tables.VerifyUpsertsUser | main.py:81-95 | on success the phone's user row holds the new token, ip and device; an existing user keeps its id; a new user gets an id no other user has; other users are unchanged; the response carries the token and that id, and its message is the login message (see `Tables.Verify`) |
| Tables.VerifyPreservesWellFormed | main.py:65-102 | verifying keeps the table invariants: ascending OTP rowids, one user per phone, distinct user ids |
| Tables.IssueThenVerifyLogsIn | main.py:55-102 | issuing and then submitting the issued code before it expires logs in, consumes exactly the issued row, and stores the token on the user |
| Tables.VerifyCorrectedReportsCreation | main.py:84-99 | with the corrected message rule, the tables and the rest of the response are those of the handler, and the message is account-created exactly when the phone had no user row, that is, exactly when the login added a user row |
| Tables.CreatedAccountReportedAsLogin | main.py:84-99 | a login that creates the phone's user row gets the login message from the handler as written, and account-created from the corrected rule |
| Tables.FirstLoginExample | main.py:55-102 | on empty tables, issue 1234 then verify: user 1 is created, the handler as written answers with the login message, the corrected rule with account-created |
| Handlers.Store.constructor | main.py:33-34 | a fresh database has both tables empty and satisfies the invariants |
| Handlers.Store.SendOtp | main.py:55-62 | the new tables and the returned code are those of `Issue`: one row appended with the four-digit code and expiration now + 300; the earlier rows and the users are unchanged |
| Handlers.Store.VerifyOtp | main.py:65-102 | the new tables and the result are those of `Verify`; a rejection leaves every field unchanged; a success stores the token on the phone's user, returns that user's id and the login message |

## Findings

| source | as written | input that shows it | evidently intended | confidence | as-written member | corrected member |
|---|---|---|---|---|---|---|
| main.py:99 | `"message": <login text> if user else <account-created text>`; by line 99 `user` always holds a row (found at line 81 or built at line 89), so the account-created text is never returned | a first `verify_otp` for a phone with no user row, using a valid code | report the account-created message when this request created the user | high (not executed) | Tables.Verify | Tables.VerifyCorrectedReportsCreation |

`Tables.ResponseMessageAsWritten` is the expression of line 99 as written. `Tables.Verify` and `Handlers.Store.VerifyOtp` use it, as the handler does, and their contracts state that every login answers with the login message. `Tables.CreatedAccountReportedAsLogin` and `Tables.FirstLoginExample` exhibit the discrepancy. `Tables.VerifyCorrected` applies the corrected rule `Tables.LoginMessage`; `Tables.VerifyCorrectedReportsCreation` proves the intended property about it.

## Left out

- FastAPI routing, the pydantic request models, the `get_db` session lifecycle, and the engine and table creation (main.py:1-15, 33-53) are framework plumbing. The verify request body is the datatype `VerifyRequest`.
- The SQLAlchemy query and commit machinery is replaced by in-memory tables. A commit is the point where the method writes its staged rows to the fields.
- `random.randint` and `time.time()` are parameters. The code draw is required to lie in 1000..9999, as `randint(1000, 9999)` guarantees.
- The SHA-256 derivation of the session token (main.py:82) is not modelled. The token is an opaque parameter, so the model proves nothing about token uniqueness or unpredictability.
- The Arabic message texts are tags. `SendOtp` returns the code instead of the message text that embeds it.
- Row ids follow SQLite's rowid rule: one past the largest id, or 1 for an empty table. For `otps` this is computed from the rows. For `users`, rows are never deleted, so the rule is the counter `nextUserId`.
- Concurrent requests are not modelled. Each handler runs as one atomic step.
- Storage failures (a failed commit) are not modelled.
