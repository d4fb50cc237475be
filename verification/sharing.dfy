/** Sharing a list with other users by username, the page listing a list's
    members, and withdrawing a share. Sharing checks ownership against the
    list's `userId` column; unsharing checks it against `createdBy`. */
module Sharing {
  import opened Tables
  import opened Models
  import opened Outcomes
  import Identity
  import Lists

  /** Sharing list `l` with the user called `username`, on behalf of
      `requester`. Only the user in the list's `userId` column may share. An
      unknown username, a user who already holds a share, and the requester
      themself are answered with a notice and change nothing. Otherwise
      exactly the pair (l, grantee) is added and nothing else changes. */
  function ShareList(s: Store, l: ListId, requester: UserId, username: string): (r: Reply<()>)
    ensures !Has(s.lists, l) ==> r == Reply(s, NotFound)
    ensures Has(s.lists, l) && s.lists[l].value.userId != Some(requester) ==> r == Reply(s, Unauthorized)
    ensures Has(s.lists, l) && s.lists[l].value.userId == Some(requester) ==>
      match Identity.FindByUsername(s.users, username)
      case None => r == Reply(s, Notice(UserNotFound))
      case Some(g) =>
        if Share(l, g) in s.shares || g == requester then r == Reply(s, Notice(AlreadySharedOrCreator))
        else r.outcome == Ok(()) && r.store == s.(shares := s.shares + {Share(l, g)})
    ensures !r.outcome.Ok? ==> r.store == s
    ensures r.outcome.Ok? ==> |r.store.shares| == |s.shares| + 1
  {
    if !Has(s.lists, l) then Reply(s, NotFound)
    else if s.lists[l].value.userId != Some(requester) then Reply(s, Unauthorized)
    else
      match Identity.FindByUsername(s.users, username)
      case None => Reply(s, Notice(UserNotFound))
      case Some(g) =>
        if Share(l, g) in s.shares || g == requester then Reply(s, Notice(AlreadySharedOrCreator))
        else Reply(s.(shares := s.shares + {Share(l, g)}), Ok(()))
  }

  /** Who has access to a list, as the share page shows it: the user in the
      list's `userId` column (absent if that account is gone) and then the
      users holding a share, in id order. */
  datatype Members = Members(creator: Option<UserId>, grantees: seq<UserId>)

  /** The share page. Only the user in the list's `userId` column may see it. */
  function SharePage(s: Store, l: ListId, requester: UserId): (r: Outcome<Members>)
    ensures !Has(s.lists, l) <==> r == NotFound
    ensures Has(s.lists, l) && s.lists[l].value.userId != Some(requester) ==> r == Unauthorized
    ensures r.Ok? ==> s.lists[l].value.userId == Some(requester)
    ensures r.Ok? ==> (r.value.creator == Some(requester) <==> Has(s.users, requester))
    ensures r.Ok? ==> r.value.creator.None? || r.value.creator == Some(requester)
    ensures r.Ok? ==> forall u: nat :: u in r.value.grantees <==> Has(s.users, u) && Share(l, u) in s.shares
    ensures r.Ok? ==> forall i, j :: 0 <= i < j < |r.value.grantees| ==> r.value.grantees[i] < r.value.grantees[j]
    ensures r.Ok? || r == NotFound || r == Unauthorized
  {
    if !Has(s.lists, l) then NotFound
    else if s.lists[l].value.userId != Some(requester) then Unauthorized
    else Ok(Members(
      if Has(s.users, requester) then Some(requester) else None,
      Ids(s.users, (k: nat, u: User) => Share(l, k) in s.shares)))
  }

  /** Withdrawing `target`'s share of list `l`, on behalf of `requester`. Only
      the user in the list's `createdBy` column may unshare, and cannot remove
      themself. A share that exists is removed and nothing else changes; a
      missing share is answered with a notice. */
  function UnshareList(s: Store, l: ListId, requester: UserId, target: UserId): (r: Reply<()>)
    ensures !Has(s.lists, l) ==> r == Reply(s, NotFound)
    ensures Has(s.lists, l) && s.lists[l].value.createdBy != Some(requester) ==> r == Reply(s, Unauthorized)
    ensures Has(s.lists, l) && s.lists[l].value.createdBy == Some(requester) ==>
      if target == requester then r == Reply(s, Notice(CannotRemoveCreator))
      else if Share(l, target) in s.shares then r.outcome == Ok(()) && r.store == s.(shares := s.shares - {Share(l, target)})
      else r == Reply(s, Notice(NotShared))
    ensures !r.outcome.Ok? ==> r.store == s
    ensures r.outcome.Ok? ==> |r.store.shares| == |s.shares| - 1
  {
    if !Has(s.lists, l) then Reply(s, NotFound)
    else if s.lists[l].value.createdBy != Some(requester) then Reply(s, Unauthorized)
    else if target == s.lists[l].value.createdBy.value then Reply(s, Notice(CannotRemoveCreator))
    else if Share(l, target) in s.shares then Reply(s.(shares := s.shares - {Share(l, target)}), Ok(()))
    else Reply(s, Notice(NotShared))
  }

  lemma ShareListPreservesValid(s: Store, l: ListId, requester: UserId, username: string)
    requires Valid(s)
    ensures Valid(ShareList(s, l, requester, username).store)
  {
  }

  lemma UnshareListPreservesValid(s: Store, l: ListId, requester: UserId, target: UserId)
    requires Valid(s)
    ensures Valid(UnshareList(s, l, requester, target).store)
  {
  }

  /** Once a share succeeds the grantee sees the list on their dashboard and
      appears among the list's members exactly once; repeating the request
      is answered with a notice and changes nothing. */
  lemma ShareGrantsAccess(s: Store, l: ListId, requester: UserId, username: string)
    requires ShareList(s, l, requester, username).outcome.Ok?
    ensures var t := ShareList(s, l, requester, username).store;
      var g := Identity.FindByUsername(s.users, username).value;
      && l in Lists.Dashboard(t, g)
      && SharePage(t, l, requester).Ok?
      && multiset(SharePage(t, l, requester).value.grantees)[g] == 1
      && ShareList(t, l, requester, username) == Reply(t, Notice(AlreadySharedOrCreator))
  {
    var t := ShareList(s, l, requester, username).store;
    var g := Identity.FindByUsername(s.users, username).value;
    assert Lists.Visible(t, g, l);
    var gs := SharePage(t, l, requester).value.grantees;
    assert g in gs;
    SingleOccurrence(gs, g);
  }

  /** In a strictly increasing sequence a member occurs exactly once. */
  lemma {:induction false} SingleOccurrence(xs: seq<nat>, x: nat)
    requires forall i, j :: 0 <= i < j < |xs| ==> xs[i] < xs[j]
    requires x in xs
    ensures multiset(xs)[x] == 1
  {
    assert xs == [xs[0]] + xs[1..];
    if xs[0] == x {
      assert forall i :: 0 <= i < |xs[1..]| ==> xs[1..][i] > x;
      assert x !in xs[1..];
    } else {
      SingleOccurrence(xs[1..], x);
    }
  }

  /** On a list whose two ownership columns agree, as the form-created lists
      have them, unsharing the user a share just added restores the store
      exactly. */
  lemma UnshareUndoesShare(s: Store, l: ListId, requester: UserId, username: string)
    requires ShareList(s, l, requester, username).outcome.Ok?
    requires s.lists[l].value.createdBy == s.lists[l].value.userId
    ensures var g := Identity.FindByUsername(s.users, username).value;
      UnshareList(ShareList(s, l, requester, username).store, l, requester, g) == Reply(s, Ok(()))
  {
    var g := Identity.FindByUsername(s.users, username).value;
    assert Share(l, g) !in s.shares;
    assert s.shares + {Share(l, g)} - {Share(l, g)} == s.shares;
  }

  /** Managing a list is owner-exclusive: a share or an unshare that succeeds
      was asked for by the owner the route checks, and a grantee gets no
      manage rights from holding a share, neither to share the list further
      nor to withdraw anyone's share of it. */
  lemma ManageIsOwnerExclusive(s: Store, l: ListId, requester: UserId, username: string, target: UserId)
    requires Valid(s)
    ensures ShareList(s, l, requester, username).outcome.Ok? ==> s.lists[l].value.userId == Some(requester)
    ensures UnshareList(s, l, requester, target).outcome.Ok? ==> s.lists[l].value.createdBy == Some(requester)
    ensures Share(l, requester) in s.shares ==> ShareList(s, l, requester, username) == Reply(s, Unauthorized)
    ensures Share(l, requester) in s.shares ==> UnshareList(s, l, requester, target) == Reply(s, Unauthorized)
  {
  }

  /** A list made by the dashboard's quick form has no `createdBy`, so nobody
      can ever withdraw a share of it. */
  lemma QuickListsCannotBeUnshared(s: Store, actor: UserId, name: string, requester: UserId, target: UserId)
    ensures var a := Lists.AddList(s, actor, name);
      UnshareList(a.store, a.outcome.value, requester, target) == Reply(a.store, Unauthorized)
  {
  }
}
