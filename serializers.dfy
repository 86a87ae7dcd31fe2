/**
 * The account workflows over the user table, the code store and the task
 * queue: registration by e-mail, password change, password reset
 * (request, check, submit) and e-mail verification (request, submit).
 * Each method is one serializer's `validate` or `create`; raised
 * `ValidationError`s and `Http404` are `Failure` results.
 */
module Serializers {
  import opened Wrappers
  import opened Strings
  import opened Enums
  import opened Redis
  import opened Utils

  /** The `User` fields the workflows read or write; `password` stands for the stored hash. */
  datatype UserRec = UserRec(email: string, password: string, name: string, surname: string, isEmailVerified: bool)

  /** One `celery_app.send_task(name, kwargs={'user_id': ..., 'code': ...})`. */
  datatype Task = Task(name: string, userId: nat, code: string)

  const SEND_VERIFY_EMAIL: string := "send_verify_email"

  const SEND_PASSWORD_RESET_REQUEST_EMAIL: string := "send_password_reset_request_email"

  datatype Error =
    | UserAlreadyRegistered      // "User already registered"
    | RegistrationError          // "Registration error": `save` hit the unique e-mail constraint
    | InvalidPassword(reason: PasswordError)
    | InvalidOldPassword         // "Invalid old password"
    | UserNotFound               // "User not found"
    | UserDoesNotExist           // "User does not exist"
    | EmailOrCodeBlank           // "Email or code cant be blank"
    | CodeNotValid               // "Code is NOT valid"
    | FieldsNotFilled            // "Not all fields are filled correctly"
    | CodeDoesNotExist           // "Code doest exist"
    | OldPasswordReused          // "Old password cant be used as new password"
    | NotFound                   // Http404 from get_object_or_404
    | EmailAlreadyVerified       // "Email already verified"
    | WrongCode                  // "Wrong code"
    | MalformedUserId            // ValueError: the stored value is not a decimal id

  /** The database's unique constraint on `User.email`. */
  ghost predicate UniqueEmails(users: map<nat, UserRec>) {
    forall a, b :: a in users && b in users && users[a].email == users[b].email ==> a == b
  }

  ghost predicate HasEmail(users: map<nat, UserRec>, email: string) {
    exists id :: id in users && users[id].email == email
  }

  /** A code reading names user `id`, as `int(...)` of the stored value. */
  ghost predicate NamesUser(reading: Option<string>, id: nat) {
    reading.Some? && ParseDecimal(reading.value) == Some(id)
  }

  lemma UpdateKeepsUnique(users: map<nat, UserRec>, id: nat, rec: UserRec)
    requires UniqueEmails(users) && id in users && rec.email == users[id].email
    ensures UniqueEmails(users[id := rec])
  {
  }

  lemma AddKeepsUnique(users: map<nat, UserRec>, id: nat, rec: UserRec)
    requires UniqueEmails(users) && id !in users && !HasEmail(users, rec.email)
    ensures UniqueEmails(users[id := rec])
  {
  }

  /** `User.objects.filter(email=email).first()`: the matching user of least id (primary-key order). */
  method FindUserByEmail(users: map<nat, UserRec>, email: string) returns (r: Option<nat>)
    ensures r.Some? ==> r.value in users && users[r.value].email == email
    ensures r.Some? ==> forall id :: id in users && users[id].email == email ==> r.value <= id
    ensures r.None? <==> !HasEmail(users, email)
  {
    r := None;
    var rest := users.Keys;
    while rest != {}
      invariant rest <= users.Keys
      invariant r.Some? ==> r.value in users && users[r.value].email == email
      invariant r.Some? ==> forall id :: id in users && id !in rest && users[id].email == email ==> r.value <= id
      invariant r.None? ==> forall id :: id in users && id !in rest ==> users[id].email != email
      decreases rest
    {
      var id :| id in rest;
      if users[id].email == email && (r.None? || id < r.value) {
        r := Some(id);
      }
      rest := rest - {id};
    }
  }

  class Backend {
    var users: map<nat, UserRec>
    var outbox: seq<Task>
    const store: Store

    ghost predicate Valid()
      reads this
    {
      UniqueEmails(users)
    }

    constructor (store: Store, users: map<nat, UserRec>)
      requires UniqueEmails(users)
      ensures Valid() && this.store == store && this.users == users && outbox == []
    {
      this.store := store;
      this.users := users;
      outbox := [];
    }

    /** `_send_verification_email`: issues a VERIFY_EMAIL code for the user and queues the mail. */
    method SendVerificationEmail(userId: nat, draws: seq<nat>)
      requires ValidDraws(draws, DEFAULT_CODE_SIZE, CODE_CHARS)
      modifies this`outbox, store`entries
      ensures var code := GenerateVerificationCode(DEFAULT_CODE_SIZE, CODE_CHARS, draws);
        && store.entries == Issued(old(store.entries), store.now, VERIFY_EMAIL, code, userId)
        && outbox == old(outbox) + [Task(SEND_VERIFY_EMAIL, userId, code)]
    {
      var code := GenerateVerificationCode(DEFAULT_CODE_SIZE, CODE_CHARS, draws);
      var _ := SetVerificationCode(store, code, VERIFY_EMAIL, userId);
      outbox := outbox + [Task(SEND_VERIFY_EMAIL, userId, code)];
    }

    /** `EmailRegistration.validate`: the e-mail is compared verbatim, then the password rule runs. */
    method ValidateRegistration(email: string, password: string) returns (r: Result<(), Error>)
      ensures r == Failure(UserAlreadyRegistered) <==> HasEmail(users, email)
      ensures !HasEmail(users, email) && IsValidPassword(password).Failure? ==>
        r == Failure(InvalidPassword(IsValidPassword(password).error))
      ensures r.Success? <==> !HasEmail(users, email) && IsValidPassword(password).Success?
    {
      var existing := FindUserByEmail(users, email);
      if existing.Some? {
        return Failure(UserAlreadyRegistered);
      }
      var check := IsValidPassword(password);
      if check.Failure? {
        return Failure(InvalidPassword(check.error));
      }
      return Success(());
    }

    /**
     * `EmailRegistration.create`: stores the lowercased e-mail; `save`
     * fails on the unique constraint when that form is already taken,
     * even though `validate` compared the e-mail as typed.
     */
    method CreateRegistration(email: string, password: string, freshId: nat, draws: seq<nat>)
      returns (r: Result<nat, Error>)
      requires Valid() && freshId !in users
      requires ValidDraws(draws, DEFAULT_CODE_SIZE, CODE_CHARS)
      modifies this`users, this`outbox, store`entries
      ensures Valid()
      ensures r.Failure? <==> old(HasEmail(users, Lower(email)))
      ensures r.Failure? ==> r.error == RegistrationError
      ensures r.Failure? ==> users == old(users) && outbox == old(outbox) && store.entries == old(store.entries)
      ensures r.Success? ==> r.value == freshId
      ensures r.Success? ==> users == old(users)[freshId := UserRec(Lower(email), password, "", "", false)]
      ensures r.Success? ==>
        var code := GenerateVerificationCode(DEFAULT_CODE_SIZE, CODE_CHARS, draws);
        && store.entries == Issued(old(store.entries), store.now, VERIFY_EMAIL, code, freshId)
        && outbox == old(outbox) + [Task(SEND_VERIFY_EMAIL, freshId, code)]
    {
      var lowered := Lower(email);
      var taken := FindUserByEmail(users, lowered);
      if taken.Some? {
        return Failure(RegistrationError);
      }
      var rec := UserRec(lowered, password, "", "", false);
      AddKeepsUnique(users, freshId, rec);
      users := users[freshId := rec];
      SendVerificationEmail(freshId, draws);
      return Success(freshId);
    }

    /** `ChangePasswordSerializer.create` for the authenticated user; the new password is not checked. */
    method ChangePassword(userId: nat, oldPassword: string, newPassword: string) returns (r: Result<nat, Error>)
      requires Valid() && userId in users
      modifies this`users
      ensures Valid()
      ensures r.Success? <==> old(users)[userId].password == oldPassword
      ensures r.Failure? ==> r.error == InvalidOldPassword && users == old(users)
      ensures r.Success? ==> r.value == userId && users == old(users)[userId := old(users)[userId].(password := newPassword)]
    {
      if users[userId].password != oldPassword {
        return Failure(InvalidOldPassword);
      }
      UpdateKeepsUnique(users, userId, users[userId].(password := newPassword));
      users := users[userId := users[userId].(password := newPassword)];
      return Success(userId);
    }

    /** `PasswordResetRequestSerializer.create`: one RESET_PASSWORD code and one queued mail, or nothing. */
    method PasswordResetRequest(email: string, draws: seq<nat>) returns (r: Result<(), Error>)
      requires Valid()
      requires ValidDraws(draws, DEFAULT_CODE_SIZE, CODE_CHARS)
      modifies this`outbox, store`entries
      ensures r.Failure? <==> !HasEmail(users, email)
      ensures r.Failure? ==> r.error == UserNotFound && outbox == old(outbox) && store.entries == old(store.entries)
      ensures r.Success? ==>
        var code := GenerateVerificationCode(DEFAULT_CODE_SIZE, CODE_CHARS, draws);
        exists id :: id in users && users[id].email == email
          && store.entries == Issued(old(store.entries), store.now, RESET_PASSWORD, code, id)
          && outbox == old(outbox) + [Task(SEND_PASSWORD_RESET_REQUEST_EMAIL, id, code)]
    {
      var found := FindUserByEmail(users, email);
      if found.None? {
        return Failure(UserNotFound);
      }
      var id := found.value;
      var code := GenerateVerificationCode(DEFAULT_CODE_SIZE, CODE_CHARS, draws);
      var _ := SetVerificationCode(store, code, RESET_PASSWORD, id);
      outbox := outbox + [Task(SEND_PASSWORD_RESET_REQUEST_EMAIL, id, code)];
      return Success(());
    }

    /**
     * `check_password_reset_code_exist`: `Success(true)` is `(True, None)`,
     * `Success(false)` is `(False, message)`. The code is only read.
     */
    method CheckPasswordResetCodeExist(email: string, code: string) returns (r: Result<bool, Error>)
      requires Valid()
      ensures r.Failure? ==> r.error == UserDoesNotExist || r.error == MalformedUserId
      ensures r == Failure(UserDoesNotExist) <==> !HasEmail(users, email)
      ensures r == Failure(MalformedUserId) <==>
        HasEmail(users, email) && StoredCode(store, RESET_PASSWORD, code).Some?
        && ParseDecimal(StoredCode(store, RESET_PASSWORD, code).value).None?
      ensures r == Success(true) <==>
        exists id :: id in users && users[id].email == email && NamesUser(StoredCode(store, RESET_PASSWORD, code), id)
    {
      var found := FindUserByEmail(users, email);
      if found.None? {
        return Failure(UserDoesNotExist);
      }
      var fromCode := GetVerificationCode(store, code, RESET_PASSWORD);
      if fromCode.None? {
        return Success(false);
      }
      var parsed := ParseDecimal(fromCode.value);
      if parsed.None? {
        return Failure(MalformedUserId);
      }
      return Success(parsed.value == found.value);
    }

    /** `CheckPasswordResetCodeSerialiser.create`. */
    method CheckPasswordResetCode(email: string, code: string) returns (r: Result<(), Error>)
      requires Valid()
      ensures r == Failure(EmailOrCodeBlank) <==> email == "" || code == ""
      ensures r.Failure? ==> r.error in {EmailOrCodeBlank, UserDoesNotExist, MalformedUserId, CodeNotValid}
      ensures r == Failure(UserDoesNotExist) <==> email != "" && code != "" && !HasEmail(users, email)
      ensures r == Failure(MalformedUserId) <==>
        && email != "" && code != "" && HasEmail(users, email)
        && StoredCode(store, RESET_PASSWORD, code).Some?
        && ParseDecimal(StoredCode(store, RESET_PASSWORD, code).value).None?
      ensures r.Success? <==>
        && email != "" && code != ""
        && exists id :: id in users && users[id].email == email && NamesUser(StoredCode(store, RESET_PASSWORD, code), id)
    {
      if email == "" || code == "" {
        return Failure(EmailOrCodeBlank);
      }
      var check := CheckPasswordResetCodeExist(email, code);
      if check.Failure? {
        return Failure(check.error);
      }
      if !check.value {
        return Failure(CodeNotValid);
      }
      return Success(());
    }

    /**
     * `PasswordResetSubmitSerialiser.create`: the checks run in order and the
     * first failing one decides; only a successful update consumes the code.
     */
    method PasswordResetSubmit(code: string, password: string) returns (r: Result<(), Error>)
      requires Valid()
      modifies this`users, store`entries
      ensures Valid()
      ensures r.Failure? ==> users == old(users) && store.entries == old(store.entries)
      ensures r == Failure(FieldsNotFilled) <==> code == "" || password == ""
      ensures code != "" && password != "" && IsValidPassword(password).Failure? ==>
        r == Failure(InvalidPassword(IsValidPassword(password).error))
      ensures code != "" && password != "" && IsValidPassword(password).Success? ==>
        var reading := old(StoredCode(store, RESET_PASSWORD, code));
        && (reading.None? ==> r == Failure(CodeDoesNotExist))
        && (reading.Some? && ParseDecimal(reading.value).None? ==> r == Failure(MalformedUserId))
        && (reading.Some? && ParseDecimal(reading.value).Some? ==>
              var id := ParseDecimal(reading.value).value;
              && (id !in old(users) ==> r == Failure(UserDoesNotExist))
              && (id in old(users) && old(users)[id].password == password ==> r == Failure(OldPasswordReused))
              && (id in old(users) && old(users)[id].password != password ==>
                    && r.Success?
                    && users == old(users)[id := old(users)[id].(password := password)]
                    && store.entries == old(store.entries) - {CodeKey(RESET_PASSWORD, code)}))
    {
      if code == "" || password == "" {
        return Failure(FieldsNotFilled);
      }
      var valid := IsValidPassword(password);
      if valid.Failure? {
        return Failure(InvalidPassword(valid.error));
      }
      var userId := GetVerificationCode(store, code, RESET_PASSWORD);
      if userId.None? {
        return Failure(CodeDoesNotExist);
      }
      var id := ParseDecimal(userId.value);
      if id.None? {
        return Failure(MalformedUserId);
      }
      if id.value !in users {
        return Failure(UserDoesNotExist);
      }
      var user := users[id.value];
      if user.password == password {
        return Failure(OldPasswordReused);
      }
      UpdateKeepsUnique(users, id.value, user.(password := password));
      users := users[id.value := user.(password := password)];
      var _ := DeleteUsedCode(store, code, RESET_PASSWORD);
      return Success(());
    }

    /** `EmailVerifyRequestSerialiser.create`. */
    method EmailVerifyRequest(email: string, draws: seq<nat>) returns (r: Result<nat, Error>)
      requires Valid()
      requires ValidDraws(draws, DEFAULT_CODE_SIZE, CODE_CHARS)
      modifies this`outbox, store`entries
      ensures r.Failure? ==> r.error == NotFound || r.error == EmailAlreadyVerified
      ensures r == Failure(NotFound) <==> !HasEmail(users, email)
      ensures r == Failure(EmailAlreadyVerified) <==>
        exists id :: id in users && users[id].email == email && users[id].isEmailVerified
      ensures r.Failure? ==> outbox == old(outbox) && store.entries == old(store.entries)
      ensures r.Success? ==>
        var code := GenerateVerificationCode(DEFAULT_CODE_SIZE, CODE_CHARS, draws);
        && r.value in users && users[r.value].email == email && !users[r.value].isEmailVerified
        && store.entries == Issued(old(store.entries), store.now, VERIFY_EMAIL, code, r.value)
        && outbox == old(outbox) + [Task(SEND_VERIFY_EMAIL, r.value, code)]
    {
      var found := FindUserByEmail(users, email);
      if found.None? {
        return Failure(NotFound);
      }
      var id := found.value;
      if users[id].isEmailVerified {
        return Failure(EmailAlreadyVerified);
      }
      SendVerificationEmail(id, draws);
      return Success(id);
    }

    /**
     * `EmailVerifySubmitSerialiser.create`: any live VERIFY_EMAIL entry for
     * the code will do; the user id stored with it is never compared with
     * the user of the submitted e-mail.
     */
    method EmailVerifySubmit(email: string, code: string) returns (r: Result<nat, Error>)
      requires Valid()
      modifies this`users, store`entries
      ensures Valid()
      ensures r.Failure? ==> users == old(users) && store.entries == old(store.entries)
      ensures r == Failure(FieldsNotFilled) <==> email == "" || code == ""
      ensures email != "" && code != "" && old(StoredCode(store, VERIFY_EMAIL, code)).None? ==> r == Failure(WrongCode)
      ensures r == Failure(UserNotFound) <==>
        email != "" && code != "" && old(StoredCode(store, VERIFY_EMAIL, code)).Some? && !HasEmail(old(users), email)
      ensures r.Success? <==>
        email != "" && code != "" && old(StoredCode(store, VERIFY_EMAIL, code)).Some? && HasEmail(old(users), email)
      ensures r.Success? ==>
        && r.value in old(users) && old(users)[r.value].email == email
        && users == old(users)[r.value := old(users)[r.value].(isEmailVerified := true)]
        && store.entries == old(store.entries) - {CodeKey(VERIFY_EMAIL, code)}
    {
      if email == "" || code == "" {
        return Failure(FieldsNotFilled);
      }
      var isValidCode := CompareVerificationCode(store, code, VERIFY_EMAIL);
      if isValidCode.None? {
        return Failure(WrongCode);
      }
      var found := FindUserByEmail(users, email);
      if found.None? {
        return Failure(UserNotFound);
      }
      var id := found.value;
      UpdateKeepsUnique(users, id, users[id].(isEmailVerified := true));
      users := users[id := users[id].(isEmailVerified := true)];
      var _ := DeleteUsedCode(store, code, VERIFY_EMAIL);
      return Success(id);
    }
  }

  /**
   * A code issued by a reset request names the requesting user for
   * `RESET_CODE_EXPIRE` seconds, so the reset check answers `(True, None)`
   * for that e-mail and code within that window.
   */
  lemma RequestedResetCodeNamesUser(entries: map<string, Entry>, t0: int, code: string, id: nat, now: int)
    requires now < t0 + RESET_CODE_EXPIRE
    ensures NamesUser(CodeReading(Issued(entries, t0, RESET_PASSWORD, code, id), now, RESET_PASSWORD, code), id)
  {
    IssuedCodeReadsBack(entries, t0, RESET_PASSWORD, code, id, now);
  }

  /** Request a reset and check the code that was mailed. */
  method PasswordResetRequestScenario()
  {
    var store := new Store(0);
    var b := new Backend(store, map[7 := UserRec("ann@example.com", "oldpass1", "", "", true)]);
    var draws := [0, 1, 2, 3, 4, 5];
    assert GenerateVerificationCode(DEFAULT_CODE_SIZE, CODE_CHARS, draws) == "ABCDEF";
    var before := store.entries;
    var requested := b.PasswordResetRequest("ann@example.com", draws);
    assert b.users[7].email == "ann@example.com";
    assert requested.Success? && b.outbox == [Task(SEND_PASSWORD_RESET_REQUEST_EMAIL, 7, "ABCDEF")];
    assert store.entries == Issued(before, 0, RESET_PASSWORD, "ABCDEF", 7) && store.now == 0;
    RequestedResetCodeNamesUser(before, 0, "ABCDEF", 7, 0);
    assert NamesUser(StoredCode(store, RESET_PASSWORD, "ABCDEF"), 7);
    var checked := b.CheckPasswordResetCode("ann@example.com", "ABCDEF");
    assert checked.Success?;
  }

  /** Checking a code for an address no user has fails with "User does not exist". */
  method UnknownEmailCheckScenario()
  {
    var store := new Store(0);
    var b := new Backend(store, map[7 := UserRec("ann@example.com", "oldpass1", "", "", true)]);
    var wrong := b.CheckPasswordResetCode("bob@example.com", "ABCDEF");
    assert wrong == Failure(UserDoesNotExist);
  }

  /** Submit a live reset code with a new password, then replay the used code with the same password. */
  method PasswordResetSubmitScenario()
  {
    var store := new Store(0);
    var b := new Backend(store, map[7 := UserRec("ann@example.com", "oldpass1", "", "", true)]);
    var before := store.entries;
    var _ := SetVerificationCode(store, "ABCDEF", RESET_PASSWORD, 7);
    IssuedCodeReadsBack(before, 0, RESET_PASSWORD, "ABCDEF", 7, 0);
    assert IsDigit("newpass12"[7]) && IsAsciiLetter("newpass12"[0]);
    assert IsValidPassword("newpass12").Success?;
    assert StoredCode(store, RESET_PASSWORD, "ABCDEF") == Some("7");
    assert ParseDecimal("7") == Some(7);
    var mid := store.entries;
    var submitted := b.PasswordResetSubmit("ABCDEF", "newpass12");
    assert submitted.Success? && b.users[7].password == "newpass12";
    DeleteReadings(mid, 0, RESET_PASSWORD, "ABCDEF", RESET_PASSWORD, "ABCDEF");
    var replayed := b.PasswordResetSubmit("ABCDEF", "newpass12");
    assert replayed == Failure(CodeDoesNotExist);
  }

  /** A verification code sent to one user marks a different user's e-mail as verified. */
  method CrossUserVerifyScenario()
  {
    var store := new Store(0);
    var b := new Backend(store, map[1 := UserRec("a@x.io", "p", "", "", false), 2 := UserRec("b@x.io", "p", "", "", false)]);
    var draws := [0, 0, 0, 0, 0, 0];
    assert GenerateVerificationCode(DEFAULT_CODE_SIZE, CODE_CHARS, draws) == "AAAAAA";
    assert b.users[1].email == "a@x.io";
    var before := store.entries;
    var sent := b.EmailVerifyRequest("a@x.io", draws);
    assert sent == Success(1);
    IssuedCodeReadsBack(before, 0, VERIFY_EMAIL, "AAAAAA", 1, 0);
    assert b.users[2].email == "b@x.io";
    var verified := b.EmailVerifySubmit("b@x.io", "AAAAAA");
    assert verified == Success(2);
    assert b.users[2].isEmailVerified && !b.users[1].isEmailVerified;
  }
}
