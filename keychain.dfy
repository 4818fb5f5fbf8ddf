/** The user table of mykeychain.py and the operations that change it: create_account,
    login, create_new_category, add_password, update_password and delete_password. Each
    operation reads one answer per prompt, given here as arguments; the retry loops
    around the prompts belong to the menus and are not part of this model. */
module Keychain {
  import opened Text
  import opened Cipher
  import opened Categories

  /** One stored password: the cipher text and the category it was filed under. */
  datatype Record = Record(encrypted: string, category: string)

  /** One user: the master password (kept as typed), the records by resource name and the
      categories the user added. */
  datatype Account = Account(masterPassword: string, passwords: map<string, Record>, customCategories: seq<string>)

  /** The whole table, by login name, as users.json holds it. */
  type Users = map<string, Account>

  const MinMasterLength: nat := 6

  /** What add_password and update_password store: the password encrypted with a shift
      equal to its length. */
  function Seal(cs: string, password: string, category: string): Record {
    Record(Transform(cs, password, |password|, false), category)
  }

  /** What the listings show for a record: the cipher text decrypted with a shift equal to
      the length of the cipher text. */
  function Decrypt(cs: string, rec: Record): string {
    Transform(cs, rec.encrypted, |rec.encrypted|, true)
  }

  /** A stored record decrypts to the password that was saved: the cipher keeps the length,
      so the shift computed at reading equals the shift used at writing. */
  lemma {:induction false} DecryptSeal(cs: string, password: string, category: string)
    requires Distinct(cs)
    ensures Decrypt(cs, Seal(cs, password, category)) == password
    ensures Seal(cs, password, category).category == category
  {
    var enc := Transform(cs, password, |password|, false);
    assert |enc| == |password|;
    RoundTrip(cs, password, |password|);
  }

  /** How an operation ended. */
  datatype Outcome =
    | Done
    | EmptyLogin | LoginTaken | MasterTooShort | MasterMismatch
    | EmptyResource | ResourceExists | ResourceNotFound | Cancelled
    | EmptyCategory | CategoryTaken

  /** An outcome and the table after the operation. */
  datatype Step = Step(outcome: Outcome, users: Users)

  // The operations as functions of the table before them.

  /** create_account: a stripped, non-empty, unused login and a master password of at
      least six characters typed the same way twice. */
  function AfterCreateAccount(users: Users, loginAnswer: string, master: string, confirm: string): Step {
    var login := Strip(loginAnswer);
    if login == [] then Step(EmptyLogin, users)
    else if login in users then Step(LoginTaken, users)
    else if |master| < MinMasterLength then Step(MasterTooShort, users)
    else if master != confirm then Step(MasterMismatch, users)
    else Step(Done, users[login := Account(master, map[], [])])
  }

  /** The password add_password and update_password store: the one typed, or the generated
      one when the answer was empty. */
  function ChosenPassword(answer: string, generated: string): string {
    if answer == [] then generated else answer
  }

  /** add_password for the user `login`, with the category already chosen. */
  function AfterAdd(cs: string, users: Users, login: string, resourceAnswer: string, category: string,
                    passwordAnswer: string, generated: string): Step
    requires login in users
  {
    var resource := Strip(resourceAnswer);
    var acc := users[login];
    if resource == [] then Step(EmptyResource, users)
    else if resource in acc.passwords then Step(ResourceExists, users)
    else
      var rec := Seal(cs, ChosenPassword(passwordAnswer, generated), category);
      Step(Done, users[login := acc.(passwords := acc.passwords[resource := rec])])
  }

  /** update_password: a new cipher text under the old category. */
  function AfterUpdate(cs: string, users: Users, login: string, resourceAnswer: string,
                       passwordAnswer: string, generated: string): Step
    requires login in users
  {
    var resource := Strip(resourceAnswer);
    var acc := users[login];
    if resource == [] then Step(EmptyResource, users)
    else if resource !in acc.passwords then Step(ResourceNotFound, users)
    else
      var rec := Seal(cs, ChosenPassword(passwordAnswer, generated), acc.passwords[resource].category);
      Step(Done, users[login := acc.(passwords := acc.passwords[resource := rec])])
  }

  /** delete_password: removes the record only when the confirmation, stripped and lowered,
      is "y". */
  function AfterDelete(users: Users, login: string, resourceAnswer: string, confirmAnswer: string): Step
    requires login in users
  {
    var resource := Strip(resourceAnswer);
    var acc := users[login];
    if resource == [] then Step(EmptyResource, users)
    else if resource !in acc.passwords then Step(ResourceNotFound, users)
    else if Lower(Strip(confirmAnswer)) != "y" then Step(Cancelled, users)
    else Step(Done, users[login := acc.(passwords := acc.passwords - {resource})])
  }

  /** create_new_category: appends an accepted name to the user's custom categories. */
  function AfterNewCategory(users: Users, login: string, answer: string): Step
    requires login in users
  {
    var acc := users[login];
    match CheckCategoryName(acc.customCategories, answer)
    case EmptyName => Step(EmptyCategory, users)
    case NameTaken => Step(CategoryTaken, users)
    case NameOk(name) => Step(Done, users[login := acc.(customCategories := acc.customCategories + [name])])
  }

  // What the operations keep.

  /** The shape every account has when it was built by these operations. */
  predicate AccountInvariant(acc: Account) {
    && |acc.masterPassword| >= MinMasterLength
    && CustomCatalogue(acc.customCategories)
    && forall r :: r in acc.passwords ==>
         r != [] && IsTrimmed(r) && acc.passwords[r].category in Menu(acc.customCategories)
  }

  predicate StoreInvariant(users: Users) {
    forall login :: login in users ==> login != [] && IsTrimmed(login) && AccountInvariant(users[login])
  }

  /** The user table after a change: `login` maps to `acc`, and every other login and its
      account are as before. */
  predicate OnlyAccountChanged(before: Users, after: Users, login: string) {
    && after.Keys == before.Keys
    && forall other :: other in before && other != login ==> after[other] == before[other]
  }

  /** Only the records of `resource` differ between two record maps. */
  predicate OnlyRecordChanged(before: map<string, Record>, after: map<string, Record>, resource: string) {
    && (forall r :: r in before && r != resource ==> r in after && after[r] == before[r])
    && (forall r :: r in after && r != resource ==> r in before)
  }

  /** create_account refuses an empty or taken login, a short master password and a
      mismatched confirmation, and otherwise adds exactly the new, empty account. */
  lemma CreateAccountEffect(users: Users, loginAnswer: string, master: string, confirm: string)
    ensures var s := AfterCreateAccount(users, loginAnswer, master, confirm);
      && (s.outcome == Done <==>
           Strip(loginAnswer) != [] && Strip(loginAnswer) !in users && |master| >= 6 && master == confirm)
      && (s.outcome != Done ==> s.users == users)
      && (s.outcome == Done ==>
           && s.users.Keys == users.Keys + {Strip(loginAnswer)}
           && (forall other :: other in users ==> s.users[other] == users[other])
           && s.users[Strip(loginAnswer)] == Account(master, map[], []))
  {
  }

  /** add_password refuses an empty or existing resource and otherwise adds exactly one
      record, which decrypts to the saved password and carries the chosen category. */
  lemma AddEffect(cs: string, users: Users, login: string, resourceAnswer: string, category: string,
                  passwordAnswer: string, generated: string)
    requires login in users && Distinct(cs)
    ensures var s := AfterAdd(cs, users, login, resourceAnswer, category, passwordAnswer, generated);
      var resource := Strip(resourceAnswer);
      && (s.outcome == Done <==> resource != [] && resource !in users[login].passwords)
      && (s.outcome != Done ==> s.users == users)
      && (s.outcome == Done ==>
           && OnlyAccountChanged(users, s.users, login)
           && s.users[login].masterPassword == users[login].masterPassword
           && s.users[login].customCategories == users[login].customCategories
           && s.users[login].passwords.Keys == users[login].passwords.Keys + {resource}
           && OnlyRecordChanged(users[login].passwords, s.users[login].passwords, resource)
           && s.users[login].passwords[resource].category == category
           && Decrypt(cs, s.users[login].passwords[resource]) == ChosenPassword(passwordAnswer, generated))
  {
    DecryptSeal(cs, ChosenPassword(passwordAnswer, generated), category);
  }

  /** update_password refuses an empty or unknown resource and otherwise replaces the cipher
      text of that one record, keeping its category. */
  lemma UpdateEffect(cs: string, users: Users, login: string, resourceAnswer: string,
                     passwordAnswer: string, generated: string)
    requires login in users && Distinct(cs)
    ensures var s := AfterUpdate(cs, users, login, resourceAnswer, passwordAnswer, generated);
      var resource := Strip(resourceAnswer);
      && (s.outcome == Done <==> resource != [] && resource in users[login].passwords)
      && (s.outcome != Done ==> s.users == users)
      && (s.outcome == Done ==>
           && OnlyAccountChanged(users, s.users, login)
           && s.users[login].masterPassword == users[login].masterPassword
           && s.users[login].customCategories == users[login].customCategories
           && s.users[login].passwords.Keys == users[login].passwords.Keys
           && OnlyRecordChanged(users[login].passwords, s.users[login].passwords, resource)
           && s.users[login].passwords[resource].category == users[login].passwords[resource].category
           && Decrypt(cs, s.users[login].passwords[resource]) == ChosenPassword(passwordAnswer, generated))
  {
    var resource := Strip(resourceAnswer);
    if resource != [] && resource in users[login].passwords {
      DecryptSeal(cs, ChosenPassword(passwordAnswer, generated), users[login].passwords[resource].category);
    }
  }

  /** delete_password removes exactly the named record, and only on a "y"; any other answer,
      an empty or an unknown resource leaves the table as it was. */
  lemma DeleteEffect(users: Users, login: string, resourceAnswer: string, confirmAnswer: string)
    requires login in users
    ensures var s := AfterDelete(users, login, resourceAnswer, confirmAnswer);
      var resource := Strip(resourceAnswer);
      && (s.outcome == Done <==>
           resource != [] && resource in users[login].passwords && Lower(Strip(confirmAnswer)) == "y")
      && (s.outcome == Cancelled <==>
           resource != [] && resource in users[login].passwords && Lower(Strip(confirmAnswer)) != "y")
      && (s.outcome != Done ==> s.users == users)
      && (s.outcome == Done ==>
           && OnlyAccountChanged(users, s.users, login)
           && s.users[login].masterPassword == users[login].masterPassword
           && s.users[login].customCategories == users[login].customCategories
           && s.users[login].passwords.Keys == users[login].passwords.Keys - {resource}
           && OnlyRecordChanged(users[login].passwords, s.users[login].passwords, resource))
  {
  }

  /** " Y " confirms a deletion as "y" does. */
  lemma UpperCaseConfirms(users: Users, login: string, resourceAnswer: string)
    requires login in users
    requires Strip(resourceAnswer) in users[login].passwords && Strip(resourceAnswer) != []
    ensures AfterDelete(users, login, resourceAnswer, " Y ").outcome == Done
  {
    var t := TrimStart(" Y ");
    assert t == "Y ";
    assert TrimEnd(t) == "Y";
    assert Lower("Y") == "y";
  }

  /** create_new_category appends the stripped name when it is new and refuses it otherwise,
      changing nothing else. */
  lemma NewCategoryEffect(users: Users, login: string, answer: string)
    requires login in users
    ensures var s := AfterNewCategory(users, login, answer);
      var name := Strip(answer);
      && (s.outcome == Done <==> name != [] && name !in Menu(users[login].customCategories))
      && (s.outcome != Done ==> s.users == users)
      && (s.outcome == Done ==>
           && OnlyAccountChanged(users, s.users, login)
           && s.users[login] == users[login].(customCategories := users[login].customCategories + [name]))
  {
  }

  /** Every operation keeps the table in the shape the operations build: logins and
      resources stripped and non-empty, master passwords of six characters or more, custom
      categories distinct and apart from the built-in ones, every record filed under a
      category the account knows. */
  lemma {:induction false} CreateAccountKeepsInvariant(users: Users, loginAnswer: string, master: string, confirm: string)
    requires StoreInvariant(users)
    ensures StoreInvariant(AfterCreateAccount(users, loginAnswer, master, confirm).users)
  {
    var _, _ := StripShape(loginAnswer);
    var s := AfterCreateAccount(users, loginAnswer, master, confirm);
    if s.outcome == Done {
      forall login | login in s.users
        ensures login != [] && IsTrimmed(login) && AccountInvariant(s.users[login])
      {
        if login != Strip(loginAnswer) {
          assert login in users;
        }
      }
    }
  }

  lemma {:induction false} AddKeepsInvariant(cs: string, users: Users, login: string, resourceAnswer: string,
                                             category: string, passwordAnswer: string, generated: string)
    requires login in users && StoreInvariant(users)
    requires category in Menu(users[login].customCategories)
    ensures StoreInvariant(AfterAdd(cs, users, login, resourceAnswer, category, passwordAnswer, generated).users)
  {
    var _, _ := StripShape(resourceAnswer);
    var s := AfterAdd(cs, users, login, resourceAnswer, category, passwordAnswer, generated);
    if s.outcome == Done {
      var acc := s.users[login];
      assert login in users;
      forall r | r in acc.passwords
        ensures r != [] && IsTrimmed(r) && acc.passwords[r].category in Menu(acc.customCategories)
      {
        if r != Strip(resourceAnswer) {
          assert r in users[login].passwords;
        }
      }
      assert AccountInvariant(acc);
      forall other | other in s.users
        ensures other != [] && IsTrimmed(other) && AccountInvariant(s.users[other])
      {
        assert other in users;
      }
    }
  }

  lemma {:induction false} UpdateKeepsInvariant(cs: string, users: Users, login: string, resourceAnswer: string,
                                                passwordAnswer: string, generated: string)
    requires login in users && StoreInvariant(users)
    ensures StoreInvariant(AfterUpdate(cs, users, login, resourceAnswer, passwordAnswer, generated).users)
  {
    var s := AfterUpdate(cs, users, login, resourceAnswer, passwordAnswer, generated);
    if s.outcome == Done {
      var acc := s.users[login];
      assert login in users;
      forall r | r in acc.passwords
        ensures r != [] && IsTrimmed(r) && acc.passwords[r].category in Menu(acc.customCategories)
      {
        assert r in users[login].passwords;
      }
      forall other | other in s.users
        ensures other != [] && IsTrimmed(other) && AccountInvariant(s.users[other])
      {
        assert other in users;
      }
    }
  }

  lemma {:induction false} DeleteKeepsInvariant(users: Users, login: string, resourceAnswer: string, confirmAnswer: string)
    requires login in users && StoreInvariant(users)
    ensures StoreInvariant(AfterDelete(users, login, resourceAnswer, confirmAnswer).users)
  {
    var s := AfterDelete(users, login, resourceAnswer, confirmAnswer);
    if s.outcome == Done {
      var acc := s.users[login];
      assert login in users;
      forall r | r in acc.passwords
        ensures r != [] && IsTrimmed(r) && acc.passwords[r].category in Menu(acc.customCategories)
      {
        assert r in users[login].passwords;
      }
      forall other | other in s.users
        ensures other != [] && IsTrimmed(other) && AccountInvariant(s.users[other])
      {
        assert other in users;
      }
    }
  }

  lemma {:induction false} NewCategoryKeepsInvariant(users: Users, login: string, answer: string)
    requires login in users && StoreInvariant(users)
    ensures StoreInvariant(AfterNewCategory(users, login, answer).users)
  {
    var s := AfterNewCategory(users, login, answer);
    assert login in users;
    var old_acc := users[login];
    AppendKeepsCatalogue(old_acc.customCategories, answer);
    if s.outcome == Done {
      var acc := s.users[login];
      forall r | r in acc.passwords
        ensures r != [] && IsTrimmed(r) && acc.passwords[r].category in Menu(acc.customCategories)
      {
        assert r in old_acc.passwords;
        assert old_acc.passwords[r].category in Menu(old_acc.customCategories);
      }
      forall other | other in s.users
        ensures other != [] && IsTrimmed(other) && AccountInvariant(s.users[other])
      {
        assert other in users;
      }
    }
  }

  // Logging in.

  /** The message after a wrong master password on attempt `tries` (0, 1, 2): how many
      attempts are left, printed only for 2 and 1. */
  function Warning(tries: nat): seq<nat> {
    if 2 - tries == 1 then [1] else if 2 - tries == 2 then [2] else []
  }

  datatype Attempts = Matched(attempt: nat, warnings: seq<nat>) | Exhausted(warnings: seq<nat>)

  /** The three tries of login from try `tries` on, with the warnings printed so far. */
  function TryFrom(master: string, attempts: seq<string>, tries: nat, warned: seq<nat>): Attempts
    requires |attempts| >= 3 && tries <= 3
    decreases 3 - tries
  {
    if tries == 3 then Exhausted(warned)
    else if attempts[tries] == master then Matched(tries, warned)
    else TryFrom(master, attempts, tries + 1, warned + Warning(tries))
  }

  datatype LoginResult =
    | NoAccounts
    | UnknownLogin(login: string)
    | LoggedIn(login: string, attempt: nat, warnings: seq<nat>)
    | TooManyAttempts(login: string, warnings: seq<nat>)

  /** login(): an empty table or an unknown (stripped) login ends it at once; otherwise the
      first of three attempts that equals the master password logs in. */
  function LoginSpec(users: Users, loginAnswer: string, attempts: seq<string>): LoginResult
    requires |attempts| >= 3
  {
    if users == map[] then NoAccounts
    else
      var login := Strip(loginAnswer);
      if login !in users then UnknownLogin(login)
      else match TryFrom(users[login].masterPassword, attempts, 0, [])
        case Matched(k, w) => LoggedIn(login, k, w)
        case Exhausted(w) => TooManyAttempts(login, w)
  }

  lemma {:induction false} TryFromRule(master: string, attempts: seq<string>, tries: nat, warned: seq<nat>)
    requires |attempts| >= 3 && tries <= 3
    requires warned == [2, 1][..if tries < 2 then tries else 2]
    requires forall j :: 0 <= j < tries ==> attempts[j] != master
    ensures var r := TryFrom(master, attempts, tries, warned);
      && (r.Matched? <==> exists i :: 0 <= i < 3 && attempts[i] == master)
      && (r.Matched? ==>
           && r.attempt < 3 && attempts[r.attempt] == master
           && (forall j :: 0 <= j < r.attempt ==> attempts[j] != master)
           && r.warnings == [2, 1][..if r.attempt < 2 then r.attempt else 2])
      && (r.Exhausted? ==> r.warnings == [2, 1])
    decreases 3 - tries
  {
    if tries < 3 && attempts[tries] != master {
      TryFromRule(master, attempts, tries + 1, warned + Warning(tries));
    }
  }

  /** The three-attempt rule: login succeeds exactly when one of the three attempts is the
      master password, on the first such attempt; a first failure warns "2 left", a second
      "1 left", and a third failure warns nothing and ends in "too many attempts". */
  lemma LoginRule(users: Users, loginAnswer: string, attempts: seq<string>)
    requires |attempts| >= 3 && users != map[] && Strip(loginAnswer) in users
    ensures var master := users[Strip(loginAnswer)].masterPassword;
      var r := LoginSpec(users, loginAnswer, attempts);
      && (r.LoggedIn? <==> exists i :: 0 <= i < 3 && attempts[i] == master)
      && (r.LoggedIn? || r.TooManyAttempts?)
      && (r.LoggedIn? ==>
           && r.attempt < 3 && attempts[r.attempt] == master
           && (forall j :: 0 <= j < r.attempt ==> attempts[j] != master)
           && r.warnings == [2, 1][..r.attempt])
      && (r.TooManyAttempts? ==> r.warnings == [2, 1])
  {
    TryFromRule(users[Strip(loginAnswer)].masterPassword, attempts, 0, []);
  }

  /** Example: wrong, wrong, right logs in on the third attempt after
      both warnings. */
  lemma ThirdAttemptLogsIn()
    ensures LoginSpec(map["carol" := Account("password1", map[], [])], "carol", ["bad", "worse", "password1"])
      == LoggedIn("carol", 2, [2, 1])
  {
    var a := ["bad", "worse", "password1"];
    var u := map["carol" := Account("password1", map[], [])];
    assert "carol" in u && u != map[];
    assert Strip("carol") == "carol" by {
      StripTrimmed("carol");
    }
    assert TryFrom("password1", a, 2, [2, 1]) == Matched(2, [2, 1]);
    assert [2] + Warning(1) == [2, 1];
    assert TryFrom("password1", a, 1, [2]) == Matched(2, [2, 1]);
    assert [] + Warning(0) == [2];
    assert TryFrom("password1", a, 0, []) == Matched(2, [2, 1]);
    assert LoginSpec(u, "carol", a) == LoggedIn("carol", 2, [2, 1]);
  }

  /** The in-memory user table of a running keychain, with the charset it was started with. */
  class Store {
    const charset: string
    var users: Users

    constructor (charset: string, users: Users)
      ensures this.charset == charset && this.users == users
    {
      this.charset := charset;
      this.users := users;
    }

    method CreateAccount(loginAnswer: string, master: string, confirm: string) returns (outcome: Outcome)
      modifies this
      ensures Step(outcome, users) == AfterCreateAccount(old(users), loginAnswer, master, confirm)
      ensures StoreInvariant(old(users)) ==> StoreInvariant(users)
    {
      if StoreInvariant(users) {
        CreateAccountKeepsInvariant(users, loginAnswer, master, confirm);
      }
      var login := Strip(loginAnswer);
      if login == [] {
        return EmptyLogin;
      }
      if login in users {
        return LoginTaken;
      }
      if |master| < MinMasterLength {
        return MasterTooShort;
      }
      if master != confirm {
        return MasterMismatch;
      }
      users := users[login := Account(master, map[], [])];
      outcome := Done;
    }

    /** login(): reads up to three attempts and stops at the first right one. */
    method Login(loginAnswer: string, attempts: seq<string>) returns (r: LoginResult)
      requires |attempts| >= 3
      ensures r == LoginSpec(users, loginAnswer, attempts)
    {
      if users == map[] {
        return NoAccounts;
      }
      var login := Strip(loginAnswer);
      if login !in users {
        return UnknownLogin(login);
      }
      var master := users[login].masterPassword;
      var warned: seq<nat> := [];
      var tries := 0;
      while tries < 3
        invariant 0 <= tries <= 3
        invariant TryFrom(master, attempts, tries, warned) == TryFrom(master, attempts, 0, [])
      {
        if attempts[tries] == master {
          return LoggedIn(login, tries, warned);
        }
        if 2 - tries == 1 {
          warned := warned + [1];
        } else if 2 - tries == 2 {
          warned := warned + [2];
        }
        tries := tries + 1;
      }
      r := TooManyAttempts(login, warned);
    }

    method CreateNewCategory(login: string, answer: string) returns (outcome: Outcome)
      requires login in users
      modifies this
      ensures Step(outcome, users) == AfterNewCategory(old(users), login, answer)
      ensures StoreInvariant(old(users)) ==> StoreInvariant(users)
    {
      if StoreInvariant(users) {
        NewCategoryKeepsInvariant(users, login, answer);
      }
      var name := Strip(answer);
      if name == [] {
        return EmptyCategory;
      }
      var acc := users[login];
      if name in BuiltinCategories() + acc.customCategories {
        return CategoryTaken;
      }
      users := users[login := acc.(customCategories := acc.customCategories + [name])];
      outcome := Done;
    }

    /** add_password with the category chosen beforehand. */
    method AddPassword(login: string, resourceAnswer: string, category: string,
                       passwordAnswer: string, generated: string) returns (outcome: Outcome)
      requires login in users
      modifies this
      ensures Step(outcome, users) ==
        AfterAdd(charset, old(users), login, resourceAnswer, category, passwordAnswer, generated)
      ensures StoreInvariant(old(users)) && category in Menu(old(users)[login].customCategories) ==>
        StoreInvariant(users)
    {
      if StoreInvariant(users) && category in Menu(users[login].customCategories) {
        AddKeepsInvariant(charset, users, login, resourceAnswer, category, passwordAnswer, generated);
      }
      var resource := Strip(resourceAnswer);
      if resource == [] {
        return EmptyResource;
      }
      var acc := users[login];
      if resource in acc.passwords {
        return ResourceExists;
      }
      var password := passwordAnswer;
      if password == [] {
        password := generated;
      }
      var encrypted := CaesarCipher(charset, password, |password|, false);
      users := users[login := acc.(passwords := acc.passwords[resource := Record(encrypted, category)])];
      outcome := Done;
    }

    method UpdatePassword(login: string, resourceAnswer: string, passwordAnswer: string, generated: string)
      returns (outcome: Outcome)
      requires login in users
      modifies this
      ensures Step(outcome, users) ==
        AfterUpdate(charset, old(users), login, resourceAnswer, passwordAnswer, generated)
      ensures StoreInvariant(old(users)) ==> StoreInvariant(users)
    {
      if StoreInvariant(users) {
        UpdateKeepsInvariant(charset, users, login, resourceAnswer, passwordAnswer, generated);
      }
      var resource := Strip(resourceAnswer);
      if resource == [] {
        return EmptyResource;
      }
      var acc := users[login];
      if resource !in acc.passwords {
        return ResourceNotFound;
      }
      var password := passwordAnswer;
      if password == [] {
        password := generated;
      }
      var encrypted := CaesarCipher(charset, password, |password|, false);
      var oldCategory := acc.passwords[resource].category;
      users := users[login := acc.(passwords := acc.passwords[resource := Record(encrypted, oldCategory)])];
      outcome := Done;
    }

    method DeletePassword(login: string, resourceAnswer: string, confirmAnswer: string) returns (outcome: Outcome)
      requires login in users
      modifies this
      ensures Step(outcome, users) == AfterDelete(old(users), login, resourceAnswer, confirmAnswer)
      ensures StoreInvariant(old(users)) ==> StoreInvariant(users)
    {
      if StoreInvariant(users) {
        DeleteKeepsInvariant(users, login, resourceAnswer, confirmAnswer);
      }
      var resource := Strip(resourceAnswer);
      if resource == [] {
        return EmptyResource;
      }
      var acc := users[login];
      if resource !in acc.passwords {
        return ResourceNotFound;
      }
      var confirm := Lower(Strip(confirmAnswer));
      if confirm == "y" {
        users := users[login := acc.(passwords := acc.passwords - {resource})];
        outcome := Done;
      } else {
        outcome := Cancelled;
      }
    }
  }
}
