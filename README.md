# Verification codes, account workflows and validators of my-library-django

This project models the account core of a Django back end.

- **Purposes.** `Enums` holds the closed set of purposes a code is issued for.
- **Code store.** `Redis` models the key-value store with expiry that holds the verification codes.
  - Each code is kept under the key `"<purpose>:<code>"`.
  - The value is the decimal user id, and it lives for `RESET_CODE_EXPIRE` (3600) seconds.
- **Utils.** `Utils` holds the password rule, code generation, and the set/get/compare/delete helpers over the store.
- **Serializers.** `Serializers` runs the workflows that use those helpers, over a user table and a task outbox:
  - registration by e-mail;
  - password change;
  - password reset: request, check and submit;
  - e-mail verification: request and submit.
- **Validators.** `Validators` holds the file-size check and the e-mail and phone regular expressions.
  - Each pattern is written twice: as an existential description of the regular expression, and as a direct scan.
  - A lemma proves the two agree.
- **Handlers.** `Handlers` holds the pure parts of the mail handlers:
  - template variable substitution;
  - the recipient string;
  - the `List-Unsubscribe` header.

Modelling choices:

- **Store.** The store is the class `Redis.Store`.
  - It holds a map from key to `(value, expiresAt)` and a clock `now` in seconds.
  - A key is live while `now < expiresAt`.
  - `SET ... EX` overwrites the value and restarts the expiry.
  - `DEL` answers the number of live keys it removed.
- **Users and tasks.**
  - `Serializers.Backend` holds the user table as `map<nat, UserRec>`, the Celery outbox as a `seq<Task>`, and the store.
  - Its invariant `Valid()` is the database's unique constraint on `User.email` (`app/user/models.py:48`).
  - Passwords are abstract strings: `set_password` stores one and `check_password` compares for equality.
  - `filter(email=...).first()` is `FindUserByEmail`, which answers the matching user of least id.
- **Randomness.** `random.choice` is an oracle argument `draws`: one index into the alphabet per position.
- **Stored values.**
  - The client stores the integer id as its decimal string (`Strings.DecimalString`).
  - `code.decode() if code else None` treats an empty reply like a missing one (`Utils.Decoded`).
  - `int(...)` on the stored value is `Strings.ParseDecimal`.
  - When the stored value is not a decimal number, the `ValueError` that Python raises is `Serializers.MalformedUserId`.
- **Failures.** A raised `ValidationError` or `Http404` is a `Failure` of the serializer's `Result`.
  - Every modelled failure is raised before the serializer writes anything, so no state changes on a failure path.
  - Failures of the store and the task queue themselves are not modelled (see "Left out").
- **Unreachable branch.** `is_valid_password` either raises or returns `True`, and `Utils.IsValidPassword` ensures exactly that.
  - So the branch at `app/user/serializers.py:233-235` cannot be taken, and `Backend.PasswordResetSubmit` has no such outcome.
- **Registration casing.** `EmailRegistration.validate` looks the address up exactly as typed, but `create` stores its lowercase form.
  - So a second registration that differs only in case passes `validate`.
  - It then fails in `save` on the unique constraint, which the model reports as `RegistrationError`.
- **No cross-check on verification.** E-mail verification accepts any live `VERIFY_EMAIL` entry for the submitted code.
  - The user id stored with that entry is never compared with the user who owns the submitted address.
  - `Serializers.CrossUserVerifyScenario` shows a code mailed to one user verifying another user's address.
- **Substitution.** `body_replace` replaces the variables in the dictionary's iteration order, passed here as a sequence of pairs.
  - Each step is Python's `str.replace`: leftmost, non-overlapping, every occurrence.
  - It is written as the recursive function `Strings.Replace`.

## Model

| member | source | states |
|---|---|---|
| Enums.Value | app/user/enums.py:5-7 | each purpose's value is non-empty and contains no ':' |
| Enums.FromValue | app/user/enums.py:4-7 | looking a purpose up by a string finds one with that value, or reports that no purpose has it |
| Enums.ExactlyThreeMembers | app/user/enums.py:4-7 | every purpose is one of REFRESH_PASSWORD, VERIFY_EMAIL, RESET_PASSWORD; the list has three distinct entries |
| Enums.ValueIsNameAndDistinct | app/user/enums.py:5-7 | each value equals the member's own name (the string a `str` enum member compares equal to); equal values mean equal members |
| Enums.FromValueOfValue | app/user/enums.py:4-7 | looking up a member's value gives that member back |
| Redis.Read | app/user/utils.py:58 | `GET` answers a value iff the key is present and not expired, and the value is the stored one |
| Redis.ReadAfterSet | app/user/utils.py:48-52 | after `SET key value EX ttl` at `t0`, the key reads as `value` exactly while the clock is before `t0 + ttl`, and as absent afterwards |
| Redis.OtherKeysUnaffected | app/user/utils.py:48-52 | a `SET` or a `DEL` of one key leaves the reading of every other key unchanged |
| Redis.ExpiredStaysExpired | app/user/utils.py:51 | once a key has expired it reads as absent at every later time |
| Redis.Store.Set | app/user/utils.py:48-52 | the key gets the new value and expires `ex` seconds from now (last write wins); no other key changes; the key then reads back as the value |
| Redis.Store.Get | app/user/utils.py:64 | answers the stored value iff the key is live; changes nothing |
| Redis.Store.Delete | app/user/utils.py:70 | answers 1 if the key was live and 0 otherwise; removes that key only; the key then reads as absent |
| Strings.Lower | app/user/serializers.py:46 | same length; no upper-case letter is left; every character that is not upper case is kept; every upper-case letter becomes the same letter in lower case |
| Strings.LowerIdempotent | app/user/serializers.py:46 | lower-casing twice is lower-casing once, and an address already in lower case is stored exactly as typed |
| Strings.DecimalString | app/user/utils.py:48-52 | the stored form of a user id is a non-empty digit string without leading zeros |
| Strings.ParseDecimal | app/user/serializers.py:274 | `int(...)` succeeds exactly on non-empty strings of digits |
| Strings.ParseDecimalString | app/user/serializers.py:274 | `int(str(n)) == n`: the decimal form the store keeps parses back to the same id |
| Strings.DecimalStringInjective | app/user/utils.py:48-52 | different user ids are stored as different strings |
| Strings.Replace | app/mail/handlers.py:62 | `str.replace`: replacing a target by itself changes nothing; a replacement no longer than a non-empty target never lengthens the text |
| Strings.ReplaceEmpty | app/mail/handlers.py:62 | `str.replace` with an empty target puts the replacement before every character and at the end, so the length grows by one replacement per gap; an empty replacement changes nothing |
| Strings.ReplaceWithoutOccurrence | app/mail/handlers.py:62 | `str.replace` returns a text unchanged when the target does not occur in it |
| Strings.ReplacePrefix | app/mail/handlers.py:62 | every prefix of a replacement's result is untouched input text, or it contains a full copy of the replacement starting inside it |
| Strings.ReplaceLeavesNoOccurrence | app/mail/handlers.py:62 | when the replacement text is clean for `k` (non-empty, holds neither end character of `k`, does not occur inside `k`), no `k` remains after the replacement, if `k` is the target itself or did not occur before |
| Utils.Search | app/user/utils.py:15-17 | `re.search` on a character range finds the first matching index, and finds nothing iff no character is in the range |
| Utils.IsValidPassword | app/user/utils.py:12-20 | accepted iff at least 8 characters with a digit and an ASCII letter; acceptance is always `True`; otherwise the first failing rule (length, then digit, then letter) is the error |
| Utils.GenerateVerificationCode | app/user/utils.py:42-43 | the code has exactly `size` characters, each from the alphabet |
| Utils.EveryCodeIsReachable | app/user/utils.py:42-43 | every string of `size` characters from the alphabet is produced by some sequence of random choices |
| Utils.CodeCharsAlphabet | app/user/utils.py:42 | the default alphabet has 36 characters, and a character is in it iff it is `A`-`Z` or `0`-`9` |
| Utils.DefaultCodeShape | app/user/utils.py:42-43 | a default code has 6 characters, each an upper-case ASCII letter or a digit |
| Utils.CodeKey | app/user/utils.py:47 | the key is the purpose's value, then ':', then the code; its first ':' is the one right after the purpose |
| Utils.Decoded | app/user/utils.py:59 | `code.decode() if code else None`: a reply is kept iff it is present and non-empty, and then unchanged |
| Utils.ParseCodeKeyOfCodeKey | app/user/utils.py:47 | the key `"<purpose>:<code>"` splits back into exactly that purpose and code |
| Utils.CodeKeyInjective | app/user/utils.py:47 | equal keys mean equal purpose and equal code, so different purposes never share a key |
| Utils.IssuedCodeReadsBack | app/user/utils.py:46-65 | after issuing a code for a user, reading it answers the user id in decimal for 3600 seconds and nothing from then on; the answer parses back to the id |
| Utils.IssueLeavesOtherCodes | app/user/utils.py:46-53 | issuing a code changes the reading of no other (purpose, code) pair |
| Utils.DeleteReadings | app/user/utils.py:68-71 | after a delete that (purpose, code) reads as absent and every other pair reads as before; deleting a key that is not live changes no reading |
| Utils.SetVerificationCode | app/user/utils.py:46-53 | returns the key `"<purpose>:<code>"`; the store holds the decimal user id under it with a 3600-second expiry, and nothing else changes |
| Utils.CompareVerificationCode | app/user/utils.py:56-59 | answers the live stored value for the key, or nothing; identical to `get_verification_code` on every input; changes nothing |
| Utils.GetVerificationCode | app/user/utils.py:62-65 | answers the live stored value for the key, or nothing; changes nothing |
| Utils.DeleteUsedCode | app/user/utils.py:68-71 | removes that key only and answers 1 if it was live, else 0 |
| Validators.ValidateFileSize | app/core/validators.py:10-18 | fails iff the size exceeds 5242880 bytes; otherwise returns the value unchanged |
| Validators.ScanEmailMatchesPattern | app/core/validators.py:22 | the scan for the first '@' and the first '.' after it accepts exactly the strings the e-mail pattern matches in full |
| Validators.EmailRegexIsScan | app/core/validators.py:22 | the `$`-anchored match is the scan of the value with one final newline removed |
| Validators.EmailValidator | app/core/validators.py:21-25 | succeeds iff `re.match` of the anchored pattern succeeds; then it returns the value unchanged, else `InvalidEmailFormat` |
| Validators.EmailShape | app/core/validators.py:22 | an accepted address has exactly one '@', a non-empty part before it, and a '.' after it |
| Validators.EmailTrailingNewline | app/core/validators.py:22 | an accepted address followed by one newline is accepted as well |
| Validators.ScanPhoneMatchesPattern | app/core/validators.py:29 | the digit scan after an optional '+' accepts exactly the strings `\+?1?\d{9,15}` matches in full |
| Validators.PhoneRegexIsScan | app/core/validators.py:29 | the `$`-anchored match is the scan of the value with one final newline removed |
| Validators.PhoneValidator | app/core/validators.py:28-32 | succeeds iff `re.match` of the anchored pattern succeeds; then it returns the value unchanged, else `InvalidPhoneFormat` |
| Validators.PhoneDigitsOnly | app/core/validators.py:29 | an all-digit string of length n is accepted iff 9 <= n <= 15, or n = 16 and it starts with '1' |
| Validators.PhoneCharacters | app/core/validators.py:29 | a number the pattern matches in full consists of digits with at most one leading '+' |
| Handlers.VerifyEmailUrl | app/settings.py:27 | the default verification URL is the frontend URL followed by `/verify-email` |
| Handlers.HandlerVariables | app/mail/handlers.py:94-97 | both handlers substitute exactly two variables, `{{code}}` by the code and then `{{url}}` by the url, with distinct keys |
| Handlers.BodyReplace | app/mail/handlers.py:56-64 | the result is the body with each variable replaced in turn, in the given order; no variables leave the body unchanged |
| Handlers.ApplyVariablesWithoutKeys | app/mail/handlers.py:56-64 | if no key occurs in the body, the result is the body |
| Handlers.HandlerBodyFullySubstituted | app/mail/handlers.py:94-99 | with a clean code and a clean url, no `{{code}}` and no `{{url}}` survives the handlers' substitution, whatever the template |
| Handlers.GeneratedCodeIsClean | app/mail/handlers.py:95 | every generated code is clean for `{{code}}` |
| Handlers.VerifyEmailUrlIsClean | app/mail/handlers.py:82 | the default verification URL is clean for both placeholders when the frontend URL has no braces |
| Handlers.UrlPlaceholderCanReappear | app/mail/handlers.py:124-130 | a url that does not contain `{{url}}` can still leave a `{{url}}` in the result ("url" replacing inside "{{{{url}}}}") |
| Handlers.Recipient | app/mail/handlers.py:18-22 | for a non-empty name the recipient is the name, " <", the address and ">"; otherwise it is the bare address |
| Handlers.HandlerRecipientIsBracketed | app/mail/handlers.py:103-104 | the handlers' name `name + " " + surname` is never empty, so their recipient is always the bracketed form |
| Handlers.ListUnsubscribe | app/mail/handlers.py:29-31 | the header is the frontend URL, then `/unsubscribe/`, then the address |
| Serializers.FindUserByEmail | app/user/serializers.py:26-28 | answers a user with exactly that e-mail and the least id among them; answers nothing iff no user has the e-mail |
| Serializers.RequestedResetCodeNamesUser | app/user/serializers.py:271-277 | within 3600 seconds of issue, a reset code's stored value parses to the id of the user it was issued for |
| Serializers.Backend.SendVerificationEmail | app/user/serializers.py:280-290 | stores one VERIFY_EMAIL code for the user and appends one `send_verify_email` task carrying the same user and code |
| Serializers.Backend.ValidateRegistration | app/user/serializers.py:25-43 | fails with "User already registered" iff the e-mail exists as typed; otherwise the password rule's error, or success iff the password is valid |
| Serializers.Backend.CreateRegistration | app/user/serializers.py:45-61 | fails with "Registration error", changing nothing, iff the lowercased e-mail is already taken; otherwise adds the user with the lowercased e-mail, empty names and not verified, and sends one verification code; keeps e-mails unique |
| Serializers.Backend.ChangePassword | app/user/serializers.py:158-169 | succeeds iff the old password matches and then sets the new one without checking it; otherwise "Invalid old password" and no change |
| Serializers.Backend.PasswordResetRequest | app/user/serializers.py:180-198 | fails with "User not found", writing nothing, iff no user has the e-mail; otherwise stores one RESET_PASSWORD code naming that user and queues exactly one `send_password_reset_request_email` task with the same code |
| Serializers.Backend.CheckPasswordResetCodeExist | app/user/serializers.py:265-277 | "User does not exist" iff no user has the e-mail; `(True, None)` iff the live RESET_PASSWORD entry for the code names that user; a non-numeric stored value is an error; the code is never deleted |
| Serializers.Backend.CheckPasswordResetCode | app/user/serializers.py:205-217 | blank e-mail or code fails first; then "User does not exist" iff no user has the e-mail; then the `ValueError` of a non-numeric stored value propagates; succeeds iff the code names the e-mail's user; every other outcome (missing, expired or foreign code) is "Code is NOT valid" |
| Serializers.Backend.PasswordResetSubmit | app/user/serializers.py:224-262 | checks, in order: blank fields, the password rule, a live code, a numeric stored id, the user exists, the password differs; the first failure decides and changes nothing; success sets the password and deletes only that code |
| Serializers.Backend.EmailVerifyRequest | app/user/serializers.py:296-308 | not found iff no user has the e-mail; "Email already verified" iff that user is verified, and then nothing is issued; otherwise one VERIFY_EMAIL code for that user and one `send_verify_email` task |
| Serializers.Backend.EmailVerifySubmit | app/user/serializers.py:315-340 | blank fields fail first, then a missing code ("Wrong code"), then a missing user ("User not found"), all without change; success needs only a live code and a user with the e-mail, marks that user verified and deletes the code |

## Left out

- The client construction at `app/user/utils.py:34-39` is not modelled, and neither is concurrency. Each serializer runs as one uninterrupted step. Redemption is a separate read and delete, so nothing here claims that a code is redeemed exactly once under concurrent requests.
- `Redis.Store.Advance` stands for time passing; the source has no such call, and expiry is what it makes observable.
- Utils.GenerateVerificationCode: the random choices are an argument, so nothing is said about their distribution.
- Strings.ParseDecimal: covers ASCII digit strings only. Python's `int` also accepts surrounding whitespace, a sign, underscores between digits and non-ASCII digits; the values the code stores never have these.
- Strings.Lower: maps ASCII letters only; Python's `str.lower` also maps other Unicode letters.
- Validators.PhoneValidator: `\d` is taken as the ASCII digits; Python's `re` also matches other Unicode decimal digits.
- Validators.EmailValidator: only the validator is modelled; the DRF `EmailField` checks that run before the serializers are not.
- Handlers.HandlerBodyFullySubstituted: needs the url and the code to be clean, which is stronger than "the url does not contain `{{url}}`". That weaker condition does not suffice, as `Handlers.UrlPlaceholderCanReappear` shows.
- String formatting of purposes: the model builds the key from the member's value. On Python versions where formatting a `str`-mixin enum member gives its qualified name, every key instead starts with `UserSecurityCode.`. The prefix is the same for every purpose, so key injectivity is unaffected.
- Password hashing, the ORM and `save` are abstracted to map updates and equality of stored passwords.
- Serializers.Backend.PasswordResetSubmit: an exception inside `save` ("Update password error") is not modelled; the update always succeeds.
- Serializers.Backend.CreateRegistration: the only `save` failure modelled is the unique e-mail constraint.
- Store and task-queue operations never fail in this model. In the source their exceptions behave as follows:
  - A store or broker error inside `_send_verification_email` is swallowed at `app/user/serializers.py:56-59` (registration) and at `app/user/serializers.py:303-306` (verification request). The serializer then succeeds with no code stored or no task queued; the model always stores the code and queues the task.
  - A store error in `delete_used_code` propagates after a write. `app/user/serializers.py:332-335` has already saved `is_email_verified = True`, and `app/user/serializers.py:252-259` has already saved the new password. The request then fails with the user updated and the code left live; the model always deletes the code.
- Serializers.Backend.EmailVerifyRequest: `get_object_or_404` raising on several matches cannot happen under the unique e-mail invariant, and is not modelled.
- Celery task bodies (`app/mail/tasks.py`) and mail I/O are not part of this model. That covers message sending, template file reads, the inline logo and the `Mail` records.
- Also not part of this model:
  - the phone registration and phone forgot-password flows;
  - the JWT login serializers;
  - OAuth, Twilio and Firebase code;
  - worker hooks;
  - settings;
  - URL wiring and admin classes.
  They are framework or provider calls, or commented-out code.
