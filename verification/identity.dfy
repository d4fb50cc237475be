/** Accounts: registration with a username and a password, password login,
    and sign-in with a verified federated identity, which provisions an
    account on first use. */
module Identity {
  import opened Tables
  import opened Models
  import opened Outcomes

  /** What the federated-identity collaborator reports for a sign-in request:
      no token in the request body, a token it refuses, or the verified
      subject id and email claim. */
  datatype Token = NoToken | BadToken | Verified(uid: string, email: Option<string>)

  ghost predicate UsernameTaken(users: Table<User>, name: string) {
    exists k: nat :: Has(users, k) && users[k].value.username == name
  }

  ghost predicate EmailTaken(users: Table<User>, email: string) {
    exists k: nat :: Has(users, k) && users[k].value.email == Some(email)
  }

  /** The first user with this username. */
  function FindByUsername(users: Table<User>, name: string): (r: Option<UserId>)
    ensures r.Some? ==> Has(users, r.value) && users[r.value].value.username == name
    ensures r.None? <==> !UsernameTaken(users, name)
  {
    First(users, (k: nat, u: User) => u.username == name)
  }

  /** The first user whose email column equals `email`. A missing email is
      compared the way the query layer compares with null: it matches the
      users that have no email. */
  function FindByEmail(users: Table<User>, email: Option<string>): (r: Option<UserId>)
    ensures r.Some? ==> Has(users, r.value) && users[r.value].value.email == email
    ensures r.None? <==> forall k: nat :: Has(users, k) ==> users[k].value.email != email
  {
    First(users, (k: nat, u: User) => u.email == email)
  }

  /** The text before the first `@` of an email address, or all of it when it
      has none: the default username of a provisioned account. */
  function EmailPrefix(email: string): (r: string)
    ensures r <= email
    ensures '@' !in r
    ensures |r| < |email| ==> email[|r|] == '@'
  {
    if email == [] || email[0] == '@' then [] else [email[0]] + EmailPrefix(email[1..])
  }

  /** `EmailPrefix` recovers the local part of any address built from a local
      part without `@`, whatever the domain. */
  lemma {:induction false} EmailPrefixOfAddress(local: string, domain: string)
    requires '@' !in local
    ensures EmailPrefix(local + "@" + domain) == local
  {
    if local != [] {
      assert (local + "@" + domain)[1..] == local[1..] + "@" + domain;
      EmailPrefixOfAddress(local[1..], domain);
    }
  }

  /** Registration. A taken username is refused and nothing changes;
      otherwise exactly one user is added, holding the username and the
      password hash, and nothing else changes. */
  function Register(s: Store, username: string, hash: string): (r: Reply<UserId>)
    ensures UsernameTaken(s.users, username) ==> r == Reply(s, Rejected(DuplicateUsername))
    ensures !UsernameTaken(s.users, username) ==>
      && r.outcome.Ok?
      && !Has(s.users, r.outcome.value)
      && Has(r.store.users, r.outcome.value)
      && r.store.users[r.outcome.value].value == User(username, None, Hashed(hash))
    ensures forall k: nat :: Has(s.users, k) ==> Has(r.store.users, k) && r.store.users[k] == s.users[k]
    ensures forall k: nat :: Has(r.store.users, k) && !Has(s.users, k) ==> r.outcome == Ok(k)
    ensures r.store.lists == s.lists && r.store.items == s.items && r.store.shares == s.shares
  {
    if FindByUsername(s.users, username).Some? then Reply(s, Rejected(DuplicateUsername))
    else Reply(s.(users := Insert(s.users, User(username, None, Hashed(hash)))), Ok(|s.users|))
  }

  /** Password login. `check` is the password-hash verifier, given the stored
      credential and the submitted password. The answer is the id of the
      first user with that username when the verifier accepts, and
      `InvalidCredentials` otherwise, without saying which part was wrong. */
  function Login(s: Store, username: string, password: string, check: (Credential, string) -> bool): (r: Outcome<UserId>)
    ensures r.Ok? ==>
      Has(s.users, r.value) && s.users[r.value].value.username == username
      && check(s.users[r.value].value.password, password)
    ensures !r.Ok? ==> r == Rejected(InvalidCredentials)
    ensures UniqueUsernames(s.users) ==>
      (r.Ok? <==> exists k: nat :: Has(s.users, k) && s.users[k].value.username == username
                                  && check(s.users[k].value.password, password))
  {
    match FindByUsername(s.users, username)
    case None => Rejected(InvalidCredentials)
    case Some(k) => if check(s.users[k].value.password, password) then Ok(k) else Rejected(InvalidCredentials)
  }

  /** Sign-in by a verified email address: the account holding the address,
      or else a new account named after the address's local part. When that
      name is taken the insert violates the unique username constraint; the
      handler catches the failure and answers "invalid token". */
  function SignInByEmail(s: Store, email: string): (r: Reply<UserId>)
    ensures EmailTaken(s.users, email) ==>
      && r.store == s
      && r.outcome.Ok?
      && Has(s.users, r.outcome.value)
      && s.users[r.outcome.value].value.email == Some(email)
    ensures !EmailTaken(s.users, email) && UsernameTaken(s.users, EmailPrefix(email)) ==>
      r == Reply(s, Rejected(InvalidToken))
    ensures !EmailTaken(s.users, email) && !UsernameTaken(s.users, EmailPrefix(email)) ==>
      && r.outcome.Ok?
      && !Has(s.users, r.outcome.value)
      && Has(r.store.users, r.outcome.value)
      && r.store.users[r.outcome.value].value == User(EmailPrefix(email), Some(email), NoPassword)
    ensures forall k: nat :: Has(s.users, k) ==> Has(r.store.users, k) && r.store.users[k] == s.users[k]
    ensures forall k: nat :: Has(r.store.users, k) && !Has(s.users, k) ==> r.outcome == Ok(k)
    ensures r.store.lists == s.lists && r.store.items == s.items && r.store.shares == s.shares
  {
    match FindByEmail(s.users, Some(email))
    case Some(k) => Reply(s, Ok(k))
    case None =>
      var name := EmailPrefix(email);
      if FindByUsername(s.users, name).Some? then Reply(s, Rejected(InvalidToken))
      else Reply(s.(users := Insert(s.users, User(name, Some(email), NoPassword))), Ok(|s.users|))
  }

  /** Federated sign-in as the code reads against the user table as declared.
      The table has no email column, so the lookup by email raises; the
      handler's catch-all turns every verified token into "invalid token". */
  function SessionLoginAsWritten(s: Store, t: Token): (r: Reply<UserId>)
    ensures r.store == s
    ensures t.NoToken? ==> r.outcome == Rejected(MissingToken)
    ensures !t.NoToken? ==> r.outcome == Rejected(InvalidToken)
  {
    match t
    case NoToken => Reply(s, Rejected(MissingToken))
    case BadToken => Reply(s, Rejected(InvalidToken))
    case Verified(_, _) => Reply(s, Rejected(InvalidToken))
  }

  /** Federated sign-in as the code reads once the user table has a nullable
      email column and a nullable password: a token without an email claim is
      looked up with a null comparison and so matches accounts that have no
      email; only when none exists does the username derivation fail on the
      missing email. */
  function SessionLoginEmailColumnOnly(s: Store, t: Token): (r: Reply<UserId>)
    ensures t.Verified? && t.email.None? ==>
      && r.store == s
      && (r.outcome.Ok? <==> exists k: nat :: Has(s.users, k) && s.users[k].value.email.None?)
      && (r.outcome.Ok? ==> Has(s.users, r.outcome.value) && s.users[r.outcome.value].value.email.None?)
      && (!r.outcome.Ok? ==> r.outcome == Rejected(InvalidToken))
    ensures t.Verified? && t.email.Some? ==> r == SignInByEmail(s, t.email.value)
    ensures !t.Verified? ==> r.store == s && r.outcome.Rejected?
  {
    match t
    case NoToken => Reply(s, Rejected(MissingToken))
    case BadToken => Reply(s, Rejected(InvalidToken))
    case Verified(_, None) =>
      (match FindByEmail(s.users, None)
       case Some(k) => Reply(s, Ok(k))
       case None => Reply(s, Rejected(InvalidToken)))
    case Verified(_, Some(e)) => SignInByEmail(s, e)
  }

  /** Federated sign-in as intended: a verified token signs in the account
      holding its email claim, provisioning one on first use; a token without
      an email claim is refused. The answer is never an account whose email
      differs from the claim. */
  function SessionLogin(s: Store, t: Token): (r: Reply<UserId>)
    ensures r.outcome.Ok? ==>
      && t.Verified? && t.email.Some?
      && Has(r.store.users, r.outcome.value)
      && r.store.users[r.outcome.value].value.email == t.email
    ensures t.NoToken? ==> r == Reply(s, Rejected(MissingToken))
    ensures t.BadToken? || (t.Verified? && t.email.None?) ==> r == Reply(s, Rejected(InvalidToken))
    ensures t.Verified? && t.email.Some? ==> r == SignInByEmail(s, t.email.value)
  {
    match t
    case NoToken => Reply(s, Rejected(MissingToken))
    case BadToken => Reply(s, Rejected(InvalidToken))
    case Verified(_, None) => Reply(s, Rejected(InvalidToken))
    case Verified(_, Some(e)) => SignInByEmail(s, e)
  }

  /** Registering a username a second time is refused, and the second
      attempt changes nothing. */
  lemma RegisterTwiceRejected(s: Store, username: string, h1: string, h2: string)
    ensures var s1 := Register(s, username, h1).store;
      Register(s1, username, h2) == Reply(s1, Rejected(DuplicateUsername))
  {
  }

  /** A freshly registered user can log in exactly with the passwords the
      verifier accepts for the stored hash. */
  lemma RegisterThenLogin(s: Store, username: string, hash: string, password: string,
                          check: (Credential, string) -> bool)
    requires Valid(s)
    requires !UsernameTaken(s.users, username)
    ensures var r := Register(s, username, hash);
      Login(r.store, username, password, check) ==
        (if check(Hashed(hash), password) then r.outcome else Rejected(InvalidCredentials))
  {
  }

  lemma RegisterPreservesValid(s: Store, username: string, hash: string)
    requires Valid(s)
    ensures Valid(Register(s, username, hash).store)
  {
  }

  lemma SessionLoginPreservesValid(s: Store, t: Token)
    requires Valid(s)
    ensures Valid(SessionLogin(s, t).store)
  {
  }

  /** Signing in twice with the same token answers the same account, and the
      second sign-in changes nothing. */
  lemma SessionLoginIdempotent(s: Store, t: Token)
    requires Valid(s)
    requires SessionLogin(s, t).outcome.Ok?
    ensures var r := SessionLogin(s, t);
      SessionLogin(r.store, t) == Reply(r.store, r.outcome)
  {
  }

  /** On an empty user table, a verified token for ann@example.org signs in a
      new account named "ann" once the email column exists; as the code reads
      against the declared table, the same request is refused. */
  lemma AsWrittenRefusesNewAccount()
    ensures SessionLoginAsWritten(Empty, Verified("u1", Some("ann@example.org"))).outcome == Rejected(InvalidToken)
    ensures var r := SessionLogin(Empty, Verified("u1", Some("ann@example.org")));
      r.outcome == Ok(0) && r.store.users == [Some(User("ann", Some("ann@example.org"), NoPassword))]
  {
    EmailPrefixOfAddress("ann", "example.org");
    assert "ann" + "@" + "example.org" == "ann@example.org";
  }

  /** With the email column added but the lookup unchanged, a verified token
      without an email claim signs in as a password-registered account. */
  lemma EmailColumnOnlySignsIntoPasswordAccount()
    ensures var s := Store([Some(User("alice", None, Hashed("h")))], [], [], {});
      && SessionLoginEmailColumnOnly(s, Verified("u2", None)).outcome == Ok(0)
      && SessionLogin(s, Verified("u2", None)).outcome == Rejected(InvalidToken)
  {
  }
}
