/** The collaboration story end to end: alice creates a list and shares it
    with bob, bob adds milk, alice ticks it off; carol, who holds no share,
    is not stopped from adding to the list; alice then deletes it. Each step
    is one lemma about the store the previous step left. */
module Scenario {
  import opened Tables
  import opened Models
  import opened Outcomes
  import Identity
  import Lists
  import Items
  import Sharing

  const Alice := User("alice", None, Hashed("ha"))
  const Bob := User("bob", None, Hashed("hb"))
  const Carol := User("carol", None, Hashed("hc"))
  const Milk := GroceryItem("Milk", "1 gal", 0, false, None, Some(1))

  /** alice (0), bob (1) and carol (2) registered. */
  const Registered := Store([Some(Alice), Some(Bob), Some(Carol)], [], [], {})
  /** alice's list "Groceries" (0) created. */
  const Created := Registered.(lists := [Some(GroceryList("Groceries", Some(0), Some(0)))])
  /** The list shared with bob. */
  const Shared := Created.(shares := {Share(0, 1)})
  /** bob's milk added as item 0. */
  const Added := Shared.(items := [Some(Milk)])
  /** alice ticked the milk off. */
  const Ticked := Shared.(items := [Some(Milk.(completed := true))])

  lemma RegisterThree()
    ensures var s1 := Identity.Register(Empty, "alice", "ha");
      var s2 := Identity.Register(s1.store, "bob", "hb");
      var s3 := Identity.Register(s2.store, "carol", "hc");
      s1.outcome == Ok(0) && s2.outcome == Ok(1) && s3 == Reply(Registered, Ok(2))
  {
  }

  lemma AliceCreatesAndShares()
    ensures Lists.CreateList(Registered, 0, "Groceries") == Reply(Created, Ok(0))
    ensures Sharing.ShareList(Created, 0, 0, "bob") == Reply(Shared, Ok(()))
  {
    assert Identity.FindByUsername(Created.users, "bob") == Some(1) by {
      assert "alice" != "bob";
    }
  }

  /** bob, as a grantee, sees the list; carol does not. */
  lemma OnlyBobSeesIt()
    ensures Lists.Dashboard(Shared, 1) == [0]
    ensures Lists.Dashboard(Shared, 2) == []
  {
    assert Lists.OwnedLists(Shared, 1) == [];
    assert 0 in Lists.SharedLists(Shared, 1);
    assert Lists.OwnedLists(Shared, 2) == [];
    assert Lists.SharedLists(Shared, 2) == [];
  }

  lemma BobAddsAliceTicks()
    ensures Items.AddItem(Shared, 1, 0, "Milk", "1 gal") == Reply(Added, Ok(0))
    ensures Items.ToggleItem(Added, 0) == Reply(Ticked, Ok((true, 0)))
  {
  }

  /** The list page then shows exactly the milk, completed and attributed to bob. */
  lemma ListShowsTickedMilk()
    ensures Lists.ViewList(Ticked, 0).Ok?
    ensures forall k: nat :: k in Lists.ViewList(Ticked, 0).value <==> k == 0
    ensures forall k :: k in Lists.ViewList(Ticked, 0).value ==>
      && Has(Ticked.items, k)
      && Ticked.items[k].value.name == "Milk"
      && Ticked.items[k].value.completed
      && Ticked.items[k].value.userId == Some(1)
  {
  }

  /** carol holds no share, yet adding to the list succeeds: the route checks
      no access. Adding to a list id that does not exist succeeds as well. */
  lemma CarolIsNotStopped()
    ensures !Lists.Visible(Ticked, 2, 0)
    ensures Items.AddItem(Ticked, 2, 0, "Eggs", "12").outcome == Ok(1)
    ensures !Has(Ticked.lists, 7) && Items.AddItem(Ticked, 2, 7, "Eggs", "12").outcome == Ok(1)
  {
  }

  /** Deleting the list takes its items and its share with it. */
  lemma AliceDeletesIt()
    ensures var d := Lists.DeleteList(Ticked, 0);
      && d.outcome == Ok(())
      && Lists.ViewList(d.store, 0) == NotFound
      && d.store.shares == {}
      && d.store.items == [None]
  {
  }
}
