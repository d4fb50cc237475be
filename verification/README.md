# Grocery-list sharing and access control, in Dafny

This project models the core of a multi-user grocery-list web application:
users register with a password or sign in with a federated identity, create
grocery lists, add, tick off, edit and delete items, and share a list with
other users by username. Each route handler becomes a pure transition over an
immutable store of four relations:

- `users`
- `lists` (grocery lists)
- `items` (grocery items)
- `shares`: a set of `(list, user)` pairs

A transition returns the new store and an outcome: `Ok`, `Unauthorized`,
`NotFound`, a `Notice` (the route's flash warning on a harmless refusal),
`Rejected`, or `Fault` (an uncaught exception, after which nothing is
committed). The acting user is an explicit parameter.

Modules, in dependency order:

- `Tables` (`tables.dfy`): rows keyed by id; "first match" and "all matches"
  queries in id order; row deletion.
- `Models` (`models.dfy`): the records, the store invariant `Valid`, and the
  ORM cascades for deleting a list or a user.
- `Outcomes` (`outcomes.dfy`): what a route answers.
- `Identity` (`identity.dfy`): `register`, `login`, `session_login`.
- `Lists` (`lists.dfy`): `create_list`, `add_list`, `dashboard`, `view_list`,
  `delete_list`.
- `Items` (`items.dfy`): `add_item`, `toggle_item`, `update_item`,
  `delete_item`.
- `Sharing` (`sharing.dfy`): `share_list` (both the form post and the members
  page) and `unshare_list`.
- `Invariants` (`invariants.dfy`): every request, and every sequence of
  requests from the empty store, keeps `Valid`.
- `Scenario` (`scenario.dfy`): the alice/bob/carol collaboration story,
  step by step.

The model follows the code where the routes disagree with each other or with
their own comments:

- Sharing checks ownership against the list's `user_id` column. Unsharing
  checks it against `created_by`. `add_list` fills only `user_id`, so its
  lists can never be unshared (`Sharing.QuickListsCannotBeUnshared`).
- `delete_list` makes no ownership check.
- `add_item`, `toggle_item`, `update_item` and `delete_item` make no access
  check. `add_item` does not even check that the list exists
  (`Items.AddItem`, `Scenario.CarolIsNotStopped`).
- `create_list` accepts an empty name. `update_item` accepts empty fields.
- Sharing with oneself and sharing with a user who already has access get
  the same notice.
- A provisioned username that collides with an existing one is not
  disambiguated. The insert fails and the route answers "invalid token".

## Model

| member | source | states |
|---|---|---|
| `Identity.FindByUsername` | app.py:239 | the answer is a user holding that username, and it is absent exactly when no user holds it |
| `Identity.FindByEmail` | app.py:83 | the answer is a user whose email column equals the given one (a missing email matches users without one), and it is absent exactly when none does |
| `Identity.Register` | app.py:41-51 | a taken username is refused with nothing changed; otherwise exactly one user is added, with that username and password hash, and no other row changes |
| `Identity.RegisterTwiceRejected` | app.py:46-47 | registering the same username a second time is refused and changes nothing |
| `Identity.RegisterPreservesValid` | models.py:8 | registration keeps usernames unique and the rest of the store invariant |
| `Identity.Login` | app.py:54-64 | login succeeds only for a user with that username whose stored credential the verifier accepts; with unique usernames it succeeds exactly then; every failure is the same "invalid credentials" |
| `Identity.RegisterThenLogin` | app.py:45-63 | a newly registered user logs in exactly with the passwords the verifier accepts for the stored hash, and gets the id registration returned |
| `Identity.EmailPrefix` | app.py:87 | the derived username is a prefix of the email, contains no `@`, and stops at the first `@` when there is one |
| `Identity.EmailPrefixOfAddress` | app.py:87 | for an address `local@domain` whose local part has no `@`, the derived username is exactly the local part |
| `Identity.SignInByEmail` | app.py:83-94 | the account holding the email is signed in unchanged; otherwise one account named after the email's local part is added, unless that name is taken, in which case nothing changes and the answer is "invalid token" |
| `Identity.SessionLoginAsWritten` | app.py:68-98 | against the user table as declared, no token ever signs anyone in and the store never changes |
| `Identity.SessionLoginEmailColumnOnly` | app.py:80-98 | with a nullable email column and a nullable password added to the user table, a token with no email claim changes nothing and signs in exactly when some account has no email, and then into such an account, otherwise "invalid token"; a token with an email claim behaves as `SignInByEmail` |
| `Identity.SessionLogin` | app.py:68-98 | a missing token, a bad token and a token without an email claim are refused with nothing changed; a signed-in account always holds the token's email |
| `Identity.SessionLoginPreservesValid` | app.py:86-89 | provisioning keeps usernames and emails unique |
| `Identity.SessionLoginIdempotent` | app.py:83-94 | signing in again with the same token answers the same account and changes nothing |
| `Identity.AsWrittenRefusesNewAccount` | app.py:83-87 | on an empty store, a verified `ann@example.org` is refused by the code as written, while the corrected sign-in provisions exactly the user "ann" |
| `Identity.EmailColumnOnlySignsIntoPasswordAccount` | app.py:80-83 | with only the schema fixed (a nullable email column and a nullable password), a token with no email claim signs into a password account; the corrected sign-in refuses it |
| `Models.DeleteListCascade` | models.py:34-37 | deleting a list removes the list, every item and every share of that list, and keeps every other list, item, share and user |
| `Models.DeleteUserCascade` | models.py:11-24 | deleting a user removes the user and every share naming them, clears `created_by` on their lists, and leaves items and every other row alone |
| `Models.DeleteListPreservesValid` | models.py:35-37 | the list cascade keeps the store invariant |
| `Models.DeleteUserPreservesValid` | models.py:20-24 | the user cascade keeps the store invariant, so no share is left naming a deleted user |
| `Lists.CreateList` | app.py:126-142 | a missing acting user is a fault with nothing changed; otherwise exactly one list is added, with both ownership columns set to the acting user |
| `Lists.AddList` | app.py:146-153 | exactly one list is added, with `user_id` set to the acting user and no `created_by` |
| `Lists.OwnedLists` | app.py:113 | the lists whose `user_id` is the user, each once, in increasing id order |
| `Lists.SharedLists` | app.py:116-118 | the lists joined with a share granting them to the user, each once, in increasing id order |
| `Lists.Dashboard` | app.py:107-123 | a list is shown exactly when it is owned by or shared with the user; owned lists come first, then shared lists |
| `Lists.DashboardHasNoDuplicates` | app.py:121 | in a valid store the concatenation never shows a list twice |
| `Lists.ViewList` | app.py:199-204 | a missing list is "not found"; otherwise the answer is exactly the ids of the items of that list, each once, in increasing id order |
| `Lists.DeleteList` | app.py:217-225 | a missing list is a fault with nothing changed; otherwise the result is the list cascade, for any requester |
| `Lists.DeleteListForgetsList` | app.py:220-224 | after deletion no dashboard shows the list, its page is "not found", no item or share refers to it, and other lists' items and shares survive |
| `Items.AddItem` | app.py:158-177 | an empty name or quantity changes nothing; otherwise exactly one item is added to the given list, attributed to the acting user and not completed (the column default) |
| `Items.ToggleItem` | app.py:180-186 | a missing item is "not found" with nothing changed; otherwise only that item's completed flag is negated, and the answer carries the new flag and the item's list |
| `Items.ToggleTwiceRestores` | app.py:183-185 | toggling the same item twice restores the original store |
| `Items.UpdateItem` | app.py:206-214 | a missing item is "not found" with nothing changed; otherwise only that item's name and quantity change |
| `Items.UpdateItemIdempotent` | app.py:209-213 | repeating an update with the same values changes nothing more |
| `Items.DeleteItem` | app.py:189-196 | a missing item is "not found" with nothing changed; otherwise only that item is removed, and the answer is its list |
| `Items.AddThenDeleteItem` | app.py:167-196 | deleting an item just added answers the list it was added to, and leaves the other items as they were |
| `Sharing.ShareList` | app.py:228-253 | outcomes, in the order the route checks: missing list is "not found"; a requester other than the list's `user_id` is unauthorized; an unknown username gets a notice; an existing share or a self-share gets a notice. All of these change nothing. Otherwise exactly the pair (list, grantee) is added |
| `Sharing.SharePage` | app.py:255-262 | only the list's `user_id` may see the members; members are that user (when the account exists) and then exactly the users holding a share, in id order |
| `Sharing.UnshareList` | app.py:265-286 | a requester other than `created_by` is unauthorized; the creator cannot be removed; an existing share is removed and nothing else changes; a missing share gets a notice |
| `Sharing.ShareListPreservesValid` | models.py:57-58 | sharing keeps shares pointing at live rows and never grants a list to its owner |
| `Sharing.UnshareListPreservesValid` | app.py:278-281 | unsharing keeps the store invariant |
| `Sharing.ShareGrantsAccess` | app.py:244-251 | after a share the grantee sees the list on their dashboard and is listed among its members exactly once; sharing again is a notice that changes nothing |
| `Sharing.UnshareUndoesShare` | app.py:265-281 | on a list whose ownership columns agree, unsharing the user just added restores the store exactly |
| `Sharing.ManageIsOwnerExclusive` | app.py:234-271 | a successful share or unshare was requested by the owner column the route checks; in a valid store a grantee is refused both when trying to share and when trying to unshare |
| `Sharing.QuickListsCannotBeUnshared` | app.py:150 | a list made by `add_list` answers every unshare request with "unauthorized" |
| `Invariants.ApplyPreservesValid` | models.py:8 | every state-changing request keeps unique usernames and emails, keeps shares referencing live rows and never their list's owner, and never lets the two ownership columns name different users |
| `Invariants.RunPreservesValid` | models.py:57-58 | any sequence of requests keeps the invariant |
| `Invariants.ReachableIsValid` | models.py:55-58 | every store reachable from the empty store satisfies the invariant |
| `Scenario.RegisterThree` | app.py:46-50 | registering alice, bob and carol gives ids 0, 1 and 2 |
| `Scenario.AliceCreatesAndShares` | app.py:133-136 | alice's list is created with both ownership columns set, and sharing it with bob adds exactly the share (list 0, bob) |
| `Scenario.OnlyBobSeesIt` | app.py:113-121 | bob's dashboard shows the shared list; carol's shows nothing |
| `Scenario.BobAddsAliceTicks` | app.py:167-184 | bob's item is attributed to bob and starts not completed; alice's toggle completes it |
| `Scenario.ListShowsTickedMilk` | app.py:202-203 | the list page then shows exactly the milk, completed and attributed to bob |
| `Scenario.CarolIsNotStopped` | app.py:164-174 | carol, who cannot see the list, still adds an item to it, and adding to a list id that does not exist succeeds too |
| `Scenario.AliceDeletesIt` | app.py:220-224 | deleting the list leaves no item and no share behind, and its page is "not found" |

## Left out

- HTTP plumbing is not modelled. This covers routing, redirects, templates,
  flash messages, the diagnostic `print` in `session_login`'s exception
  handler, the session cookie, `logout`, `home` and the
  `login_required` redirect. The acting user is passed in explicitly.
- Firebase setup and ID-token verification are foreign network calls. Their
  result is the `Identity.Token` input. The `uid` claim is read but never
  used by the code.
- Password hashing is a collaborator. `Register` takes the hash string.
  `Login` takes the verifier as the function `check`. An exception inside
  the verifier is not modelled.
- Timestamps (`created_at`, `added_at`) depend on the clock and play no part
  in the rules.
- The unused `Item` model has no route that reads or writes it.
- Persistence details are not modelled.
  - SQLite may reuse the largest freed row id. The model never reuses an id.
  - Queries without an ORDER BY return rows in an engine-chosen order. The
    model uses increasing id order.
  - Column length limits are not enforced by SQLite.
  - Foreign keys are not enforced either, so items may name a missing list,
    as the code allows.
- Concurrency and transactions are not modelled; each request is one atomic
  step.
- Malformed requests are not modelled. That means missing form keys, a
  non-JSON body, `update_item` JSON with missing keys, and a null `name` in
  `update_item` JSON. Those fail inside Flask or, for the non-nullable
  `name`, at commit. Form fields are strings, and an absent
  `name`/`quantity` in `add_item` is the empty string.
- Items.UpdateItem: a null `quantity` in the JSON is accepted and stored as
  NULL, because the column is nullable. The model's `quantity: string`
  cannot represent it, and no rule reads the quantity.
- The browser scripts only check that the password matches its
  confirmation before calling Firebase.
- `Models.DeleteUserCascade`: no route deletes a user. It states only the
  ORM's relationship configuration.

## Findings

| source | as written | input that shows it | evidently intended | confidence | as-written member | corrected member |
|---|---|---|---|---|---|---|
| models.py:6-9 | `User` declares no `email` column and a non-null `password`. `session_login` filters and builds users by email, so the query raises and the catch-all answers "Invalid ID token" to every verified token | empty store; verified token for `ann@example.org` | a nullable unique `email` and a nullable `password`, so that first sign-in provisions the account "ann" | not executed; high | `Identity.SessionLoginAsWritten`, `Identity.AsWrittenRefusesNewAccount` | `Identity.SessionLogin` |
| app.py:80-83 | once the email column exists, a token without an email claim is looked up with `email = None`, which the query layer compiles to IS NULL. This matches any account that has no email | one password account "alice" with no email; verified token with no email claim; the answer is alice's account | refuse a token that carries no email | not executed; medium (needs the first row's schema fix to be reachable) | `Identity.SessionLoginEmailColumnOnly`, `Identity.EmailColumnOnlySignsIntoPasswordAccount` | `Identity.SessionLogin` |
