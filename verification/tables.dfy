/** Relational tables as the application's routes see them: rows keyed by an
    integer id, queried with "first row matching" and "all rows matching",
    and deleted row by row. */
module Tables {

  datatype Option<+T> = None | Some(value: T)

  /** A table of rows. The id of a row is its position; deleting a row empties
      its slot, so an id is never handed out twice. */
  type Table<V> = seq<Option<V>>

  /** True if `id` names a live row of `t`. */
  predicate Has<V>(t: Table<V>, id: nat) {
    id < |t| && t[id].Some?
  }

  /** Appends a row; it receives the id `|t|`. */
  function Insert<V>(t: Table<V>, v: V): (r: Table<V>)
    ensures |r| == |t| + 1 && Has(r, |t|) && r[|t|].value == v
    ensures forall k: nat :: k < |t| ==> r[k] == t[k]
  {
    t + [Some(v)]
  }

  /** The lowest id below `n` whose live row satisfies `p`: what a query's
      `.first()` yields when rows come back in id order. */
  function FirstBelow<V>(t: Table<V>, p: (nat, V) -> bool, n: nat): (r: Option<nat>)
    requires n <= |t|
    ensures r.Some? ==> r.value < n && Has(t, r.value) && p(r.value, t[r.value].value)
    ensures r.Some? ==> forall k: nat :: k < r.value && Has(t, k) ==> !p(k, t[k].value)
    ensures r.None? ==> forall k: nat :: k < n && Has(t, k) ==> !p(k, t[k].value)
  {
    if n == 0 then None
    else
      match FirstBelow(t, p, n - 1)
      case Some(k) => Some(k)
      case None => if t[n - 1].Some? && p(n - 1, t[n - 1].value) then Some(n - 1) else None
  }

  /** The first row of the whole table that satisfies `p`. */
  function First<V>(t: Table<V>, p: (nat, V) -> bool): (r: Option<nat>)
    ensures r.Some? ==> Has(t, r.value) && p(r.value, t[r.value].value)
    ensures r.Some? ==> forall k: nat :: k < r.value && Has(t, k) ==> !p(k, t[k].value)
    ensures r.None? <==> forall k: nat :: Has(t, k) ==> !p(k, t[k].value)
  {
    FirstBelow(t, p, |t|)
  }

  /** The ids below `n` of the live rows satisfying `p`, in increasing order:
      what `.all()` yields when rows come back in id order. */
  function IdsBelow<V>(t: Table<V>, p: (nat, V) -> bool, n: nat): (r: seq<nat>)
    requires n <= |t|
    ensures forall k: nat :: k in r <==> k < n && Has(t, k) && p(k, t[k].value)
    ensures forall i, j :: 0 <= i < j < |r| ==> r[i] < r[j]
  {
    if n == 0 then []
    else
      var prefix := IdsBelow(t, p, n - 1);
      assert forall i :: 0 <= i < |prefix| ==> prefix[i] in prefix;
      assert forall i :: 0 <= i < |prefix| ==> prefix[i] < n - 1;
      if t[n - 1].Some? && p(n - 1, t[n - 1].value) then prefix + [n - 1] else prefix
  }

  /** All ids of the live rows satisfying `p`, in increasing order. */
  function Ids<V>(t: Table<V>, p: (nat, V) -> bool): (r: seq<nat>)
    ensures forall k: nat :: k in r <==> Has(t, k) && p(k, t[k].value)
    ensures forall i, j :: 0 <= i < j < |r| ==> r[i] < r[j]
  {
    IdsBelow(t, p, |t|)
  }

  /** Deletes every live row that satisfies `p`; every other row keeps its id
      and its contents. */
  function DeleteWhere<V>(t: Table<V>, p: (nat, V) -> bool): (r: Table<V>)
    ensures |r| == |t|
    ensures forall k: nat :: Has(r, k) <==> Has(t, k) && !p(k, t[k].value)
    ensures forall k: nat :: Has(r, k) ==> r[k] == t[k]
  {
    seq(|t|, k requires 0 <= k < |t| => if t[k].Some? && p(k, t[k].value) then None else t[k])
  }
}
