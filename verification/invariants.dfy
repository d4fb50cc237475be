/** Every state-changing request, taken together: each keeps the store
    invariant (unique usernames and emails, shares that name live rows and
    never grant a list to its owner, and two ownership columns that never
    name different users), so every store a sequence of requests reaches
    from the empty store satisfies it. */
module Invariants {
  import opened Tables
  import opened Models
  import opened Outcomes
  import Identity
  import Lists
  import Items
  import Sharing

  /** A state-changing request, with the acting user made explicit. A
      federated sign-in is served by the corrected `Identity.SessionLogin`;
      the code as written (`Identity.SessionLoginAsWritten`) never changes the
      store, so the invariant holds for it trivially. */
  datatype Request =
    | Register(username: string, hash: string)
    | SessionLogin(token: Identity.Token)
    | CreateList(actor: UserId, name: string)
    | AddList(actor: UserId, name: string)
    | AddItem(actor: UserId, list: ListId, name: string, quantity: string)
    | ToggleItem(item: ItemId)
    | UpdateItem(item: ItemId, name: string, quantity: string)
    | DeleteItem(item: ItemId)
    | DeleteList(list: ListId)
    | ShareList(list: ListId, requester: UserId, username: string)
    | UnshareList(list: ListId, requester: UserId, target: UserId)

  /** The store after serving one request. */
  function Apply(s: Store, q: Request): Store {
    match q
    case Register(n, h) => Identity.Register(s, n, h).store
    case SessionLogin(t) => Identity.SessionLogin(s, t).store
    case CreateList(a, n) => Lists.CreateList(s, a, n).store
    case AddList(a, n) => Lists.AddList(s, a, n).store
    case AddItem(a, l, n, qty) => Items.AddItem(s, a, l, n, qty).store
    case ToggleItem(i) => Items.ToggleItem(s, i).store
    case UpdateItem(i, n, qty) => Items.UpdateItem(s, i, n, qty).store
    case DeleteItem(i) => Items.DeleteItem(s, i).store
    case DeleteList(l) => Lists.DeleteList(s, l).store
    case ShareList(l, rq, n) => Sharing.ShareList(s, l, rq, n).store
    case UnshareList(l, rq, tg) => Sharing.UnshareList(s, l, rq, tg).store
  }

  /** The store after serving the requests in order. */
  function Run(s: Store, qs: seq<Request>): Store
    decreases |qs|
  {
    if qs == [] then s else Run(Apply(s, qs[0]), qs[1..])
  }

  /** A request that only adds a list keeps the invariant: the new id was
      free, so no share refers to it, and the new list's ownership columns
      agree. */
  lemma NewListPreservesValid(s: Store, t: Store)
    requires Valid(s)
    requires t.users == s.users && t.shares == s.shares
    requires forall k: nat :: Has(s.lists, k) ==> Has(t.lists, k) && t.lists[k] == s.lists[k]
    requires forall k: nat :: Has(t.lists, k) && !Has(s.lists, k) ==>
      t.lists[k].value.createdBy.None? || t.lists[k].value.createdBy == t.lists[k].value.userId
    ensures Valid(t)
  {
  }

  /** One request keeps the invariant. */
  lemma ApplyPreservesValid(s: Store, q: Request)
    requires Valid(s)
    ensures Valid(Apply(s, q))
  {
    match q
    case Register(n, h) => Identity.RegisterPreservesValid(s, n, h);
    case SessionLogin(t) => Identity.SessionLoginPreservesValid(s, t);
    case CreateList(a, n) => NewListPreservesValid(s, Lists.CreateList(s, a, n).store);
    case AddList(a, n) => NewListPreservesValid(s, Lists.AddList(s, a, n).store);
    case AddItem(a, l, n, qty) =>
    case ToggleItem(i) =>
    case UpdateItem(i, n, qty) =>
    case DeleteItem(i) =>
    case DeleteList(l) => DeleteListPreservesValid(s, l);
    case ShareList(l, rq, n) => Sharing.ShareListPreservesValid(s, l, rq, n);
    case UnshareList(l, rq, tg) => Sharing.UnshareListPreservesValid(s, l, rq, tg);
  }

  /** Any sequence of requests keeps the invariant. */
  lemma {:induction false} RunPreservesValid(s: Store, qs: seq<Request>)
    requires Valid(s)
    ensures Valid(Run(s, qs))
    decreases |qs|
  {
    if qs != [] {
      ApplyPreservesValid(s, qs[0]);
      RunPreservesValid(Apply(s, qs[0]), qs[1..]);
    }
  }

  /** Every store reachable from the empty store is valid: in particular no
      two users share a username and no list is shared with its owner. */
  lemma ReachableIsValid(qs: seq<Request>)
    ensures Valid(Run(Empty, qs))
  {
    EmptyIsValid();
    RunPreservesValid(Empty, qs);
  }
}
