/**
 * The two renderings of a search result the IMAP layer prints:
 * `dbmail_mailbox_ids_as_string` (SEARCH) and
 * `dbmail_mailbox_sorted_as_string` (SORT). Each prints every id with
 * `"%llu "` and chomps the trailing space; ids are UIDs in a UID command and
 * message sequence numbers otherwise.
 */
module Listing {
  import opened Options
  import opened Text
  import opened UidIndex
  import opened FoundSet
  import Sorting

  // ---------------------------------------------------------------------
  // `dbmail_mailbox_ids_as_string`

  /**
   * `g_tree_keys` or `g_tree_values` of the result: the UIDs in ascending
   * order, or the sequence number of each in the same order.
   */
  function Listed(found: Found, uid: bool): (xs: seq<nat>)
    ensures |xs| == |found|
  {
    var keys := SortedKeys(found.Keys);
    if uid then keys else seq(|keys|, i requires 0 <= i < |keys| => found[keys[i]])
  }

  /**
   * `dbmail_mailbox_ids_as_string`: NULL when there is no result or it is
   * empty; otherwise the ids, each followed by a space, chomped.
   */
  function IdsAsString(found: Option<Found>, uid: bool): (r: Option<string>)
    ensures r.None? <==> found.None? || |found.value| == 0
    ensures r.Some? ==> ParseNumbers(r.value) == Listed(found.value, uid)
  {
    if found.None? || |found.value| == 0 then None
    else
      var xs := Listed(found.value, uid);
      ChompSpaceTerminated(xs);
      Some(Chomp(SpaceTerminated(xs)))
  }

  /** Sequence numbers grow with UIDs. */
  predicate Monotone(found: Found) {
    forall u, v | u in found && v in found && u < v :: found[u] < found[v]
  }

  lemma WellNumberedMonotone(ix: Index, found: Found)
    requires WellNumbered(ix) && Within(found, ix.ids)
    ensures Monotone(found)
  {
  }

  /** The sequence-number listing of a monotone result ascends. */
  lemma MsnListingAscends(found: Found)
    requires Monotone(found)
    ensures StrictlyIncreasing(Listed(found, false))
  {
    var keys := SortedKeys(found.Keys);
    var xs := Listed(found, false);
    forall i, j | 0 <= i < j < |xs| ensures xs[i] < xs[j] {
      assert xs[i] == found[keys[i]] && xs[j] == found[keys[j]];
      assert keys[i] < keys[j];
    }
  }

  /** The sequence-number listing holds the sequence number of every message of the result, and no other. */
  lemma MsnListingValues(found: Found)
    ensures var xs := Listed(found, false);
      forall m :: m in xs <==> exists u | u in found :: found[u] == m
  {
    forall m | m in Listed(found, false) ensures exists u | u in found :: found[u] == m {
      MsnListed(found, m);
    }
    forall u | u in found ensures found[u] in Listed(found, false) {
      MsnListedOf(found, u);
    }
  }

  lemma MsnListed(found: Found, m: nat)
    requires m in Listed(found, false)
    ensures exists u | u in found :: found[u] == m
  {
    var keys := SortedKeys(found.Keys);
    var xs := Listed(found, false);
    var i :| 0 <= i < |xs| && xs[i] == m;
    assert found[keys[i]] == m;
  }

  lemma MsnListedOf(found: Found, u: Uid)
    requires u in found
    ensures found[u] in Listed(found, false)
  {
    var keys := SortedKeys(found.Keys);
    var xs := Listed(found, false);
    assert u in Elements(keys);
    var i :| 0 <= i < |keys| && keys[i] == u;
    assert xs[i] == found[u];
  }

  /**
   * Read back, the UID listing is the result's UIDs in ascending order, each
   * once; the sequence-number listing, for a result drawn from a correctly
   * numbered index, is their sequence numbers, ascending too.
   */
  lemma IdsAsStringMeaning(ix: Index, found: Found, uid: bool)
    requires WellNumbered(ix) && Within(found, ix.ids) && |found| > 0
    ensures var xs := ParseNumbers(IdsAsString(Some(found), uid).value);
      && |xs| == |found|
      && StrictlyIncreasing(xs)
      && (uid ==> forall u :: u in xs <==> u in found)
      && (!uid ==> forall m :: m in xs <==> exists u | u in found :: found[u] == m)
  {
    assert ParseNumbers(IdsAsString(Some(found), uid).value) == Listed(found, uid);
    if !uid {
      WellNumberedMonotone(ix, found);
      MsnListingAscends(found);
      MsnListingValues(found);
    }
  }

  // ---------------------------------------------------------------------
  // `dbmail_mailbox_sorted_as_string`

  /** The entries of the sorted list that are in the result, as UIDs or sequence numbers, in list order. */
  function Shown(sorted: seq<Uid>, found: Found, uid: bool): (xs: seq<nat>)
    ensures |xs| <= |sorted|
    ensures uid ==> forall i | 0 <= i < |xs| :: xs[i] in found && xs[i] in sorted
    ensures (forall i | 0 <= i < |sorted| :: sorted[i] in found) ==> |xs| == |sorted|
  {
    if sorted == [] then []
    else
      var rest := Shown(sorted[1..], found, uid);
      var u := sorted[0];
      if u in found then [if uid then u else found[u]] + rest else rest
  }

  /**
   * `dbmail_mailbox_sorted_as_string`: NULL when the sorted list is empty;
   * otherwise the entries that are in the result, each followed by a space,
   * chomped (an empty string when none is).
   */
  function SortedAsString(sorted: seq<Uid>, found: Found, uid: bool): (r: Option<string>)
    ensures r.None? <==> sorted == []
    ensures r.Some? ==> ParseNumbers(r.value) == Shown(sorted, found, uid)
  {
    if sorted == [] then None
    else
      var xs := Shown(sorted, found, uid);
      ChompSpaceTerminated(xs);
      Some(Chomp(SpaceTerminated(xs)))
  }

  /** What the listing prints for each entry of a list inside the result: the UID itself, or its sequence number. */
  function Printed(sorted: seq<Uid>, found: Found, uid: bool): (xs: seq<nat>)
    requires forall i | 0 <= i < |sorted| :: sorted[i] in found
    ensures |xs| == |sorted|
  {
    seq(|sorted|, i requires 0 <= i < |sorted| => if uid then sorted[i] else found[sorted[i]])
  }

  /** A list whose entries are all in the result is shown whole, in its own order. */
  lemma {:induction false} ShownWhole(sorted: seq<Uid>, found: Found, uid: bool)
    requires forall i | 0 <= i < |sorted| :: sorted[i] in found
    ensures Shown(sorted, found, uid) == Printed(sorted, found, uid)
    ensures uid ==> Shown(sorted, found, uid) == sorted
  {
    if sorted != [] {
      ShownWhole(sorted[1..], found, uid);
      assert Printed(sorted, found, uid) == [if uid then sorted[0] else found[sorted[0]]] + Printed(sorted[1..], found, uid);
    }
  }

  /**
   * After a sort, the SORT listing reads back as the result's messages in
   * the order of the sort query's rows, each once: their UIDs in a UID
   * command, their sequence numbers otherwise.
   */
  lemma SortedListing(rows: seq<Uid>, found: Found, uid: bool)
    requires exists u | u in rows :: u in found
    ensures var s := Sorting.SortedIds(rows, found);
      && SortedAsString(s, found, uid).Some?
      && (forall i | 0 <= i < |s| :: s[i] in found)
      && ParseNumbers(SortedAsString(s, found, uid).value) == Printed(s, found, uid)
      && (uid ==> ParseNumbers(SortedAsString(s, found, uid).value) == s)
  {
    var s := Sorting.SortedIds(rows, found);
    var u :| u in rows && u in found;
    assert u in s;
    ShownWhole(s, found, uid);
  }
}
