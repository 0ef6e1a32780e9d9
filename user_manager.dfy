/**
 * The account store and session of the chat application: the accounts by
 * username, registration, a login of at most three attempts, logout, and
 * saving the accounts to `users.json`.
 */
module UserManager {
  import opened JavaLang
  import opened Records
  import opened Storage
  import opened Validation

  /** Every key is the username of the account stored under it. */
  predicate KeysAreUsernames(users: map<string, User>)
  {
    forall name :: name in users ==> users[name].username == Some(name)
  }

  /** How many username and password pairs `login` asks for at most. */
  const MaxAttempts: nat := 3

  /** One answer to the pair of login dialogs: the username, then the password. */
  type Prompt = (Option<string>, Option<string>)

  /** The `i`-th pair of answers; once the scripted answers run out the dialogs are cancelled, which yields null. */
  function PromptAt(prompts: seq<Prompt>, i: nat): Prompt
  {
    if i < |prompts| then prompts[i] else (None, None)
  }

  /** The `i`-th pair of answers logs in. */
  predicate Accepts(prompts: seq<Prompt>, users: map<string, User>, i: nat)
  {
    Authenticates(PromptAt(prompts, i).0, PromptAt(prompts, i).1, users)
  }

  /** The first of the first `n` pairs of answers that logs in, if any. */
  function FirstAccepted(prompts: seq<Prompt>, users: map<string, User>, n: nat): (first: Option<nat>)
    ensures first.Some? ==> first.value < n && Accepts(prompts, users, first.value)
    ensures first.Some? ==> forall j :: 0 <= j < first.value ==> !Accepts(prompts, users, j)
    ensures first.None? ==> forall j :: 0 <= j < n ==> !Accepts(prompts, users, j)
    decreases n
  {
    if n == 0 then None
    else
      var earlier := FirstAccepted(prompts, users, n - 1);
      if earlier.Some? then earlier
      else if Accepts(prompts, users, n - 1) then Some(n - 1)
      else None
  }

  /**
   * The first step of `register`: run `registerUser` on the answers and look
   * for the success sentence in its report. It is found exactly when the
   * three fields are well formed.
   */
  method ValidationPasses(username: Option<string>, password: Option<string>, cellphone: Option<string>)
    returns (passes: bool)
    ensures passes <==> AcceptsRegistration(username, password, cellphone)
  {
    var validationResult := RegisterUser(username, password, cellphone);
    RegistrationSucceedsIff(username, password, cellphone);
    passes := Contains(validationResult, RegisteredStem);
  }

  /** `UserManager`: the accounts, the session, and the file the accounts are saved to. */
  class UserManager {
    var users: map<string, User>
    /** The account logged in, `None` when nobody is. */
    var loggedInUser: Option<User>
    const validator: LoginValidator
    /** `users.json`; every instance opens the same file. */
    const file: JsonFile<map<string, User>>

    /** Loads the accounts from the file; nobody is logged in. */
    constructor(file: JsonFile<map<string, User>>)
      ensures this.file == file && fresh(validator) && validator.loginStatus == ""
      ensures users == (if file.stored.Document? then file.stored.value else map[])
      ensures loggedInUser.None?
    {
      this.file := file;
      users := map[];
      validator := new LoginValidator();
      loggedInUser := None;
      new;
      LoadUsers();
    }

    /**
     * `register`: when the report of `registerUser` announces success and the
     * username is not taken yet, stores a new account made of the five answers
     * under the username and saves the accounts; otherwise changes nothing.
     */
    method Register(username: Option<string>, password: Option<string>, name: Option<string>,
                    surname: Option<string>, cellphone: Option<string>)
      modifies this, file
      ensures if AcceptsRegistration(username, password, cellphone) && username.value !in old(users) then
                && users == old(users)[username.value := User(name, surname, username, password, cellphone)]
                && file.stored == (if old(file.writable) then Document(users) else old(file.stored))
              else
                users == old(users) && file.stored == old(file.stored)
      ensures forall key :: key in users && key !in old(users) ==> IsWellFormedUserName(key)
      ensures KeysAreUsernames(old(users)) ==> KeysAreUsernames(users)
      ensures loggedInUser == old(loggedInUser) && file.writable == old(file.writable)
    {
      var passed := ValidationPasses(username, password, cellphone);
      if !passed {
        return;
      }
      if username.value in users {
        return;
      }
      var newUser := User(name, surname, username, password, cellphone);
      users := users[username.value := newUser];
      SaveUsers();
    }

    /**
     * `login`: when nobody is logged in, asks for up to three username and
     * password pairs and stops at the first one `loginUser` accepts, logging
     * in the account stored under that username. The validator's status is
     * that of the last attempt. When somebody is logged in already, nothing
     * is asked and nothing changes.
     */
    method Login(prompts: seq<Prompt>)
      requires PasswordsPresent(users)
      modifies this, validator
      ensures users == old(users)
      ensures old(loggedInUser).Some? ==>
                loggedInUser == old(loggedInUser) && validator.loginStatus == old(validator.loginStatus)
      ensures old(loggedInUser).None? ==>
                var first := FirstAccepted(prompts, users, MaxAttempts);
                var last := PromptAt(prompts, if first.Some? then first.value else MaxAttempts - 1);
                && validator.loginStatus == LoginStatusFor(last.0, last.1, users)
                && (if first.Some? then loggedInUser == Some(users[last.0.value]) else loggedInUser.None?)
    {
      var attempts := MaxAttempts;
      while attempts > 0 && loggedInUser.None?
        invariant 0 <= attempts <= MaxAttempts && users == old(users)
        invariant old(loggedInUser).Some? ==>
                    loggedInUser == old(loggedInUser) && validator.loginStatus == old(validator.loginStatus)
        invariant old(loggedInUser).None? ==>
                    loggedInUser.None? && FirstAccepted(prompts, users, MaxAttempts - attempts).None?
        invariant old(loggedInUser).None? && attempts < MaxAttempts ==>
                    var last := PromptAt(prompts, MaxAttempts - attempts - 1);
                    validator.loginStatus == LoginStatusFor(last.0, last.1, users)
        decreases attempts
      {
        var prompt := PromptAt(prompts, MaxAttempts - attempts);
        var success := validator.LoginUser(prompt.0, prompt.1, users);
        if success {
          loggedInUser := Some(users[prompt.0.value]);
          break;
        } else {
          attempts := attempts - 1;
        }
      }
    }

    /** `logout`: nobody is logged in afterwards, whether or not somebody was. */
    method Logout()
      modifies this
      ensures loggedInUser.None? && users == old(users)
    {
      if loggedInUser.Some? {
        loggedInUser := None;
      }
    }

    /** `isLoggedIn`: somebody is logged in, that is, `getLoggedInUser` is not null. */
    method IsLoggedIn() returns (loggedIn: bool)
      ensures loggedIn <==> loggedInUser.Some?
    {
      loggedIn := loggedInUser.Some?;
    }

    /** `getLoggedInUser`: the account logged in, or null. */
    method GetLoggedInUser() returns (user: Option<User>)
      ensures user == loggedInUser
    {
      user := loggedInUser;
    }

    /** `saveUsers`: writes the accounts to the file; when the writer cannot be opened the error is reported and the file keeps its old contents. */
    method SaveUsers()
      modifies file
      ensures file.stored == (if old(file.writable) then Document(users) else old(file.stored))
      ensures file.writable == old(file.writable)
    {
      file.Write(users);
    }

    /** `loadUsers`: the accounts read from the file; a missing file or a `null` document gives no accounts. */
    method LoadUsers()
      modifies this
      ensures users == (if file.stored.Document? then file.stored.value else map[])
      ensures loggedInUser == old(loggedInUser)
    {
      match file.stored
      case Document(saved) => users := saved;
      case _ => users := map[];
    }
  }

  /**
   * Whatever one manager saves, a manager created afterwards on the same file
   * loads unchanged, and it starts with nobody logged in.
   */
  method SaveThenReload(manager: UserManager) returns (reloaded: UserManager)
    requires manager.file.writable
    modifies manager.file
    ensures reloaded.users == manager.users && reloaded.loggedInUser.None?
  {
    manager.SaveUsers();
    reloaded := new UserManager(manager.file);
  }

  /** A new manager has nobody logged in: `isLoggedIn` is false and `getLoggedInUser` is null. */
  method NewManagerIsLoggedOut(file: JsonFile<map<string, User>>) returns (loggedIn: bool, user: Option<User>)
    ensures !loggedIn && user.None?
  {
    var manager := new UserManager(file);
    loggedIn := manager.IsLoggedIn();
    user := manager.GetLoggedInUser();
  }

  /** Logging out twice leaves the same state as logging out once. */
  method LogoutTwice(manager: UserManager)
    modifies manager
    ensures manager.loggedInUser.None? && manager.users == old(manager.users)
  {
    manager.Logout();
    manager.Logout();
  }
}
