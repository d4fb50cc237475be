/** Grocery lists: the two creation routes, the dashboard query of the lists a
    user sees, and list deletion. */
module Lists {
  import opened Tables
  import opened Models
  import opened Outcomes

  /** Creation from the form page. The acting user's row is fetched first; if
      it is gone, reading its id raises. Both ownership columns get the user. */
  function CreateList(s: Store, actor: UserId, name: string): (r: Reply<ListId>)
    ensures !Has(s.users, actor) ==> r == Reply(s, Fault)
    ensures Has(s.users, actor) ==>
      && r.outcome.Ok?
      && !Has(s.lists, r.outcome.value)
      && Has(r.store.lists, r.outcome.value)
      && r.store.lists[r.outcome.value].value == GroceryList(name, Some(actor), Some(actor))
    ensures forall k: nat :: Has(s.lists, k) ==> Has(r.store.lists, k) && r.store.lists[k] == s.lists[k]
    ensures forall k: nat :: Has(r.store.lists, k) && !Has(s.lists, k) ==> r.outcome == Ok(k)
    ensures r.store.users == s.users && r.store.items == s.items && r.store.shares == s.shares
  {
    if !Has(s.users, actor) then Reply(s, Fault)
    else Reply(s.(lists := Insert(s.lists, GroceryList(name, Some(actor), Some(actor)))), Ok(|s.lists|))
  }

  /** Creation from the dashboard's quick form: only `userId` is set, and the
      acting user's row is not consulted. */
  function AddList(s: Store, actor: UserId, name: string): (r: Reply<ListId>)
    ensures r.outcome.Ok?
    ensures !Has(s.lists, r.outcome.value) && Has(r.store.lists, r.outcome.value)
    ensures r.store.lists[r.outcome.value].value == GroceryList(name, Some(actor), None)
    ensures forall k: nat :: Has(s.lists, k) ==> Has(r.store.lists, k) && r.store.lists[k] == s.lists[k]
    ensures forall k: nat :: Has(r.store.lists, k) && !Has(s.lists, k) ==> r.outcome == Ok(k)
    ensures r.store.users == s.users && r.store.items == s.items && r.store.shares == s.shares
  {
    Reply(s.(lists := Insert(s.lists, GroceryList(name, Some(actor), None))), Ok(|s.lists|))
  }

  /** True if list `l` exists and `u` either is recorded in its `userId`
      column or holds a share of it. */
  ghost predicate Visible(s: Store, u: UserId, l: ListId) {
    Has(s.lists, l) && (s.lists[l].value.userId == Some(u) || Share(l, u) in s.shares)
  }

  /** The lists whose `userId` column names `u`, in id order. */
  function OwnedLists(s: Store, u: UserId): (r: seq<ListId>)
    ensures forall l: nat :: l in r <==> Has(s.lists, l) && s.lists[l].value.userId == Some(u)
    ensures forall i, j :: 0 <= i < j < |r| ==> r[i] < r[j]
  {
    Ids(s.lists, (k: nat, gl: GroceryList) => gl.userId == Some(u))
  }

  /** The lists joined with a share granting them to `u`, in id order. */
  function SharedLists(s: Store, u: UserId): (r: seq<ListId>)
    ensures forall l: nat :: l in r <==> Has(s.lists, l) && Share(l, u) in s.shares
    ensures forall i, j :: 0 <= i < j < |r| ==> r[i] < r[j]
  {
    Ids(s.lists, (k: nat, gl: GroceryList) => Share(k, u) in s.shares)
  }

  /** The dashboard: the lists `u` owns followed by the lists shared with `u`.
      A list is shown exactly when it is visible to `u`. */
  function Dashboard(s: Store, u: UserId): (r: seq<ListId>)
    ensures forall l: nat :: l in r <==> Visible(s, u, l)
    ensures |r| == |OwnedLists(s, u)| + |SharedLists(s, u)|
    ensures forall i :: 0 <= i < |OwnedLists(s, u)| ==>
      Has(s.lists, r[i]) && s.lists[r[i]].value.userId == Some(u)
    ensures forall i :: |OwnedLists(s, u)| <= i < |r| ==>
      Has(s.lists, r[i]) && Share(r[i], u) in s.shares
  {
    var owned := OwnedLists(s, u);
    var shared := SharedLists(s, u);
    assert forall i :: 0 <= i < |owned| ==> owned[i] in owned;
    assert forall i :: 0 <= i < |shared| ==> shared[i] in shared;
    owned + shared
  }

  /** In a valid store no list appears twice on a dashboard: a list is never
      both owned by and shared with the same user. */
  lemma DashboardHasNoDuplicates(s: Store, u: UserId)
    requires Valid(s)
    ensures var r := Dashboard(s, u); forall i, j :: 0 <= i < j < |r| ==> r[i] != r[j]
  {
  }

  /** The list page: the list's items, in id order; a missing list is "not found". */
  function ViewList(s: Store, l: ListId): (r: Outcome<seq<ItemId>>)
    ensures !Has(s.lists, l) <==> r == NotFound
    ensures r.Ok? ==> forall i: nat :: i in r.value <==> Has(s.items, i) && s.items[i].value.listId == l
    ensures r.Ok? ==> forall i, j :: 0 <= i < j < |r.value| ==> r.value[i] < r.value[j]
    ensures r.Ok? || r == NotFound
  {
    if !Has(s.lists, l) then NotFound
    else Ok(Ids(s.items, (k: nat, it: GroceryItem) => it.listId == l))
  }

  /** List deletion. No ownership check is made. A missing list makes the
      route read the items of nothing and raise; otherwise the list, its items
      and its shares go, and nothing else changes. */
  function DeleteList(s: Store, l: ListId): (r: Reply<()>)
    ensures !Has(s.lists, l) ==> r == Reply(s, Fault)
    ensures Has(s.lists, l) ==> r == Reply(DeleteListCascade(s, l), Ok(()))
  {
    if !Has(s.lists, l) then Reply(s, Fault) else Reply(DeleteListCascade(s, l), Ok(()))
  }

  /** After a list is deleted nobody sees it, its page is "not found", and no
      item or share refers to it; every other list's items and shares are
      untouched. */
  lemma DeleteListForgetsList(s: Store, l: ListId, u: UserId)
    requires Has(s.lists, l)
    ensures var t := DeleteList(s, l).store;
      && l !in Dashboard(t, u)
      && ViewList(t, l) == NotFound
      && (forall i: nat :: Has(t.items, i) ==> t.items[i].value.listId != l)
      && (forall sh :: sh in t.shares ==> sh.listId != l)
      && (forall i: nat :: Has(s.items, i) && s.items[i].value.listId != l ==> Has(t.items, i) && t.items[i] == s.items[i])
      && (forall sh :: sh in s.shares && sh.listId != l ==> sh in t.shares)
  {
  }
}
