/** The four relations of the grocery-list application (users, grocery lists,
    grocery items and list shares), their uniqueness constraints, their
    defaults, and the cascades the ORM runs when a list or a user is deleted. */
module Models {
  import opened Tables

  type UserId = nat
  type ListId = nat
  type ItemId = nat

  /** The stored password credential. `Hashed` carries the output of the
      password-hashing collaborator; accounts provisioned from a federated
      identity have none. */
  datatype Credential = NoPassword | Hashed(digest: string)

  /** A user: the username is unique across all users; the email, when
      present, is unique too. */
  datatype User = User(username: string, email: Option<string>, password: Credential)

  /** A grocery list. Both ownership columns are kept: the routes disagree on
      which one names the owner, and `add_list` fills only `userId`. */
  datatype GroceryList = GroceryList(name: string, userId: Option<UserId>, createdBy: Option<UserId>)

  /** A grocery item. `listId` is never null; `userId` is the user who added it. */
  datatype GroceryItem = GroceryItem(
    name: string,
    quantity: string,
    listId: ListId,
    completed: bool,
    addedBy: Option<string>,
    userId: Option<UserId>)

  /** A grant of access to a list; both references are non-null. */
  datatype Share = Share(listId: ListId, userId: UserId)

  /** The whole persistent state. Shares form a set, so a (list, user) pair is
      recorded at most once, as the table's unique constraint demands. */
  datatype Store = Store(
    users: Table<User>,
    lists: Table<GroceryList>,
    items: Table<GroceryItem>,
    shares: set<Share>)

  const Empty := Store([], [], [], {})

  /** An item as the ORM builds it from the columns a route supplies: the
      columns the route leaves out take their defaults. */
  function NewItem(name: string, quantity: string, listId: ListId, userId: UserId): GroceryItem
  {
    GroceryItem(name, quantity, listId, false, None, Some(userId))
  }

  ghost predicate UniqueUsernames(users: Table<User>) {
    forall a: nat, b: nat ::
      Has(users, a) && Has(users, b) && users[a].value.username == users[b].value.username ==> a == b
  }

  ghost predicate UniqueEmails(users: Table<User>) {
    forall a: nat, b: nat ::
      Has(users, a) && Has(users, b) && users[a].value.email.Some? && users[a].value.email == users[b].value.email
      ==> a == b
  }

  /** Every share names a live list and a live user. */
  ghost predicate SharesReferenceRows(s: Store) {
    forall sh :: sh in s.shares ==> Has(s.lists, sh.listId) && Has(s.users, sh.userId)
  }

  /** No share grants a list to the user recorded in its `userId` column:
      that user already sees it as an owned list. */
  ghost predicate NoShareToOwner(s: Store) {
    forall sh :: sh in s.shares && Has(s.lists, sh.listId) ==> s.lists[sh.listId].value.userId != Some(sh.userId)
  }

  /** The two ownership columns never name different users: a list made
      from the form page has both set to its creator, a list made from the
      dashboard's quick form has no `createdBy`, and deleting a user only
      clears `createdBy`. */
  ghost predicate OwnershipAgrees(s: Store) {
    forall l: nat :: Has(s.lists, l) ==>
      s.lists[l].value.createdBy.None? || s.lists[l].value.createdBy == s.lists[l].value.userId
  }

  /** The invariant every reachable store satisfies. */
  ghost predicate Valid(s: Store) {
    && UniqueUsernames(s.users)
    && UniqueEmails(s.users)
    && SharesReferenceRows(s)
    && NoShareToOwner(s)
    && OwnershipAgrees(s)
  }

  lemma EmptyIsValid()
    ensures Valid(Empty)
  {
  }

  /** True if some share grants `l` to `u`. */
  predicate SharedWith(s: Store, l: ListId, u: UserId) {
    Share(l, u) in s.shares
  }

  /** Deleting a grocery list: the ORM deletes its items and its shares with it
      (both relationships cascade with delete-orphan), and nothing else. */
  function DeleteListCascade(s: Store, l: ListId): (r: Store)
    ensures !Has(r.lists, l)
    ensures forall k: nat :: k != l ==> (Has(r.lists, k) <==> Has(s.lists, k))
    ensures forall k: nat :: k != l && Has(r.lists, k) ==> Has(s.lists, k) && r.lists[k] == s.lists[k]
    ensures forall k: nat :: Has(r.items, k) <==> Has(s.items, k) && s.items[k].value.listId != l
    ensures forall k: nat :: Has(r.items, k) ==> Has(s.items, k) && r.items[k] == s.items[k]
    ensures forall sh :: sh in r.shares <==> sh in s.shares && sh.listId != l
    ensures r.users == s.users
  {
    Store(
      s.users,
      if l < |s.lists| then s.lists[l := None] else s.lists,
      DeleteWhere(s.items, (k: nat, i: GroceryItem) => i.listId == l),
      set sh | sh in s.shares && sh.listId != l)
  }

  /** Deleting a user: the ORM deletes the user's shares (delete-orphan
      cascade), and clears `createdBy` on the lists the user created (the
      relationship on that column has no delete cascade, so the ORM nulls the
      foreign key). Items and the `userId` column of lists are left as they were. */
  function DeleteUserCascade(s: Store, u: UserId): (r: Store)
    ensures !Has(r.users, u)
    ensures forall k: nat :: k != u ==> (Has(r.users, k) <==> Has(s.users, k))
    ensures forall k: nat :: k != u && Has(r.users, k) ==> Has(s.users, k) && r.users[k] == s.users[k]
    ensures forall sh :: sh in r.shares <==> sh in s.shares && sh.userId != u
    ensures |r.lists| == |s.lists|
    ensures forall k: nat :: Has(r.lists, k) <==> Has(s.lists, k)
    ensures forall k: nat :: Has(r.lists, k) && Has(s.lists, k) ==>
      var before := s.lists[k].value;
      r.lists[k].value == (if before.createdBy == Some(u) then before.(createdBy := None) else before)
    ensures r.items == s.items
  {
    Store(
      if u < |s.users| then s.users[u := None] else s.users,
      seq(|s.lists|, k requires 0 <= k < |s.lists| =>
        if s.lists[k].Some? && s.lists[k].value.createdBy == Some(u)
        then Some(s.lists[k].value.(createdBy := None))
        else s.lists[k]),
      s.items,
      set sh | sh in s.shares && sh.userId != u)
  }

  lemma DeleteListPreservesValid(s: Store, l: ListId)
    requires Valid(s)
    ensures Valid(DeleteListCascade(s, l))
  {
  }

  lemma DeleteUserPreservesValid(s: Store, u: UserId)
    requires Valid(s)
    ensures Valid(DeleteUserCascade(s, u))
  {
  }
}
