/** Grocery items: adding, completing, editing and deleting. None of these
    routes checks that the acting user may use the item's list. */
module Items {
  import opened Tables
  import opened Models
  import opened Outcomes

  /** `t` and `r` hold the same rows at every id other than `id`. */
  ghost predicate SameExcept<V>(t: Table<V>, r: Table<V>, id: nat) {
    |r| == |t| && forall k: nat :: k < |t| && k != id ==> r[k] == t[k]
  }

  /** Adding an item. A missing or empty name or quantity is refused and
      nothing changes; otherwise exactly one item is added to list `l`,
      attributed to the acting user and not completed. The list is not
      looked up, so `l` need not exist. */
  function AddItem(s: Store, actor: UserId, l: ListId, name: string, quantity: string): (r: Reply<ItemId>)
    ensures name == [] || quantity == [] ==> r == Reply(s, Rejected(MissingField))
    ensures name != [] && quantity != [] ==>
      && r.outcome.Ok?
      && !Has(s.items, r.outcome.value)
      && Has(r.store.items, r.outcome.value)
      && r.store.items[r.outcome.value].value == GroceryItem(name, quantity, l, false, None, Some(actor))
    ensures forall k: nat :: Has(s.items, k) ==> Has(r.store.items, k) && r.store.items[k] == s.items[k]
    ensures forall k: nat :: Has(r.store.items, k) && !Has(s.items, k) ==> r.outcome == Ok(k)
    ensures r.store.users == s.users && r.store.lists == s.lists && r.store.shares == s.shares
  {
    if name == [] || quantity == [] then Reply(s, Rejected(MissingField))
    else Reply(s.(items := Insert(s.items, NewItem(name, quantity, l, actor))), Ok(|s.items|))
  }

  /** Toggling completion. A missing item is "not found" and nothing changes;
      otherwise only that item's `completed` flag is negated, and the answer
      carries the new flag and the item's list. */
  function ToggleItem(s: Store, i: ItemId): (r: Reply<(bool, ListId)>)
    ensures !Has(s.items, i) <==> r == Reply(s, NotFound)
    ensures Has(s.items, i) ==>
      && r.outcome == Ok((!s.items[i].value.completed, s.items[i].value.listId))
      && Has(r.store.items, i)
      && r.store.items[i].value == s.items[i].value.(completed := !s.items[i].value.completed)
    ensures SameExcept(s.items, r.store.items, i)
    ensures r.store.users == s.users && r.store.lists == s.lists && r.store.shares == s.shares
  {
    if !Has(s.items, i) then Reply(s, NotFound)
    else
      var it := s.items[i].value;
      Reply(s.(items := s.items[i := Some(it.(completed := !it.completed))]), Ok((!it.completed, it.listId)))
  }

  /** Toggling an item twice restores the store. */
  lemma ToggleTwiceRestores(s: Store, i: ItemId)
    ensures ToggleItem(ToggleItem(s, i).store, i).store == s
  {
  }

  /** Editing an item. A missing item is "not found" and nothing changes;
      otherwise the item's name and quantity are overwritten (with no check
      for emptiness) and every other field and every other row is kept. */
  function UpdateItem(s: Store, i: ItemId, name: string, quantity: string): (r: Reply<()>)
    ensures !Has(s.items, i) <==> r == Reply(s, NotFound)
    ensures Has(s.items, i) ==>
      && r.outcome == Ok(())
      && Has(r.store.items, i)
      && r.store.items[i].value.name == name
      && r.store.items[i].value.quantity == quantity
      && r.store.items[i].value.listId == s.items[i].value.listId
      && r.store.items[i].value.completed == s.items[i].value.completed
      && r.store.items[i].value.addedBy == s.items[i].value.addedBy
      && r.store.items[i].value.userId == s.items[i].value.userId
    ensures SameExcept(s.items, r.store.items, i)
    ensures r.store.users == s.users && r.store.lists == s.lists && r.store.shares == s.shares
  {
    if !Has(s.items, i) then Reply(s, NotFound)
    else
      var it := s.items[i].value;
      Reply(s.(items := s.items[i := Some(it.(name := name, quantity := quantity))]), Ok(()))
  }

  /** Editing an item twice with the same values is the same as editing it once. */
  lemma UpdateItemIdempotent(s: Store, i: ItemId, name: string, quantity: string)
    ensures var t := UpdateItem(s, i, name, quantity).store;
      UpdateItem(t, i, name, quantity).store == t
  {
  }

  /** Deleting an item. A missing item is "not found" and nothing changes;
      otherwise only that item is removed and the answer is its list. */
  function DeleteItem(s: Store, i: ItemId): (r: Reply<ListId>)
    ensures !Has(s.items, i) <==> r == Reply(s, NotFound)
    ensures Has(s.items, i) ==> r.outcome == Ok(s.items[i].value.listId) && !Has(r.store.items, i)
    ensures SameExcept(s.items, r.store.items, i)
    ensures r.store.users == s.users && r.store.lists == s.lists && r.store.shares == s.shares
  {
    if !Has(s.items, i) then Reply(s, NotFound)
    else Reply(s.(items := s.items[i := None]), Ok(s.items[i].value.listId))
  }

  /** An item just added can be deleted again, which answers the list it was
      added to and leaves the other items as they were. */
  lemma AddThenDeleteItem(s: Store, actor: UserId, l: ListId, name: string, quantity: string)
    requires name != [] && quantity != []
    ensures var a := AddItem(s, actor, l, name, quantity);
      var d := DeleteItem(a.store, a.outcome.value);
      && d.outcome == Ok(l)
      && (forall k: nat :: Has(d.store.items, k) <==> Has(s.items, k))
      && (forall k: nat :: Has(s.items, k) ==> d.store.items[k] == s.items[k])
  {
  }
}
