/**
 * `dbmail_mailbox_sort` and `_do_sort`: the sort node of the search tree
 * names an ORDER BY clause (built by the parser, see `SearchParser`); the
 * store answers the sort query with every message of the mailbox in that
 * order, and the sorted list keeps, in that order and once each, the
 * messages of the search result.
 */
module Sorting {
  import opened Options
  import opened UidIndex
  import opened FoundSet
  import opened SearchTree
  import SearchEval

  /** The first position of `u` in `rows`. */
  function FirstIndex(rows: seq<Uid>, u: Uid): (i: nat)
    requires u in rows
    ensures i < |rows| && rows[i] == u && u !in rows[..i]
  {
    if rows[0] == u then 0
    else
      var i := 1 + FirstIndex(rows[1..], u);
      assert rows[..i] == [rows[0]] + rows[1..][..i - 1];
      i
  }

  lemma {:induction false} FirstIndexExtend(rows: seq<Uid>, v: Uid, u: Uid)
    requires u in rows
    ensures FirstIndex(rows + [v], u) == FirstIndex(rows, u)
  {
    if rows[0] != u {
      assert (rows + [v])[1..] == rows[1..] + [v];
      FirstIndexExtend(rows[1..], v, u);
    }
  }

  /**
   * `_do_sort`'s loop over the rows of the sort query: a row is kept when
   * its message is in the search result and has not been kept before. (The
   * list is built by prepending and reversed at the end, which leaves the
   * rows' order.)
   */
  function SortedIds(rows: seq<Uid>, found: Found): (r: seq<Uid>)
    ensures forall i | 0 <= i < |r| :: r[i] in found && r[i] in rows
    ensures forall u | u in rows && u in found :: u in r
    ensures forall i, j | 0 <= i < j < |r| :: r[i] != r[j]
    decreases |rows|
  {
    if rows == [] then []
    else
      var pre := rows[..|rows| - 1];
      var prev := SortedIds(pre, found);
      var u := rows[|rows| - 1];
      assert rows == pre + [u];
      if u in found && u !in prev then prev + [u] else prev
  }

  /** The messages of `r`, all of them in `rows`, come in the order of their first rows. */
  predicate InFirstOrder(rows: seq<Uid>, r: seq<Uid>)
    requires forall i | 0 <= i < |r| :: r[i] in rows
  {
    forall i, j | 0 <= i < j < |r| :: FirstIndex(rows, r[i]) < FirstIndex(rows, r[j])
  }

  /** The kept messages come in the order of their first rows. */
  lemma {:induction false} SortedIdsOrder(rows: seq<Uid>, found: Found)
    ensures InFirstOrder(rows, SortedIds(rows, found))
    decreases |rows|
  {
    if rows != [] {
      var pre := rows[..|rows| - 1];
      var u := rows[|rows| - 1];
      var prev := SortedIds(pre, found);
      assert rows == pre + [u];
      SortedIdsOrder(pre, found);
      assert InFirstOrder(pre, prev);
      forall i | 0 <= i < |prev|
        ensures FirstIndex(rows, prev[i]) == FirstIndex(pre, prev[i]) < |pre|
      {
        FirstIndexExtend(pre, u, prev[i]);
      }
      var r := SortedIds(rows, found);
      if u in found && u !in prev {
        assert u !in pre;
        assert FirstIndex(rows, u) == |pre|;
        assert r == prev + [u];
      } else {
        assert r == prev;
      }
      forall i, j | 0 <= i < j < |r|
        ensures FirstIndex(rows, r[i]) < FirstIndex(rows, r[j])
      {
        assert r[i] == prev[i];
        if j < |prev| {
          assert r[j] == prev[j];
          assert FirstIndex(pre, prev[i]) < FirstIndex(pre, prev[j]);
        } else {
          assert r[j] == u;
        }
      }
    }
  }

  // ---------------------------------------------------------------------
  // `dbmail_mailbox_sort`

  /**
   * `_do_sort` at each node of `order` in turn: at a sort node not yet
   * sorted, the sorted list is replaced by the node's query rows kept to the
   * result, and the node is marked sorted; other nodes are passed over. The
   * store's rows for a sort key are `rows(key)`.
   */
  function SortPass(t: Tree, done: set<nat>, sorted: Option<seq<Uid>>, found: Found,
                    rows: Key -> seq<Uid>, order: seq<nat>): (r: (set<nat>, Option<seq<Uid>>))
    requires forall k | 0 <= k < |order| :: order[k] < |t.nodes|
    ensures done <= r.0
    ensures forall k | 0 <= k < |order| && t.nodes[order[k]].key.SortKey? :: order[k] in r.0
    decreases |order|
  {
    if order == [] then (done, sorted)
    else
      var n := order[0];
      var key := t.nodes[n].key;
      var r := if key.SortKey? && n !in done
        then SortPass(t, done + {n}, Some(SortedIds(rows(key), found)), found, rows, order[1..])
        else SortPass(t, done, sorted, found, rows, order[1..]);
      assert forall k | 1 <= k < |order| :: order[k] == order[1..][k - 1];
      r
  }

  /** `dbmail_mailbox_sort`: the sort pass over the whole tree in pre-order, if there is a tree. */
  function Sort(t: Tree, done: set<nat>, sorted: Option<seq<Uid>>, found: Found,
                rows: Key -> seq<Uid>): (r: (set<nat>, Option<seq<Uid>>))
    requires Valid(t)
  {
    if t.nodes == [] then (done, sorted)
    else SortPass(t, done, sorted, found, rows, PreOrder(t, 0))
  }

  /** A pass over nodes none of which is an unsorted sort node changes nothing. */
  lemma {:induction false} SortPassIdle(t: Tree, done: set<nat>, sorted: Option<seq<Uid>>, found: Found,
                                        rows: Key -> seq<Uid>, order: seq<nat>)
    requires forall k | 0 <= k < |order| :: order[k] < |t.nodes|
    requires forall k | 0 <= k < |order| && t.nodes[order[k]].key.SortKey? :: order[k] in done
    ensures SortPass(t, done, sorted, found, rows, order) == (done, sorted)
    decreases |order|
  {
    if order != [] {
      SortPassIdle(t, done, sorted, found, rows, order[1..]);
    }
  }

  /** A pass over nodes whose only unsorted sort node is `n` sorts by `n`. */
  lemma {:induction false} SortPassOne(t: Tree, done: set<nat>, sorted: Option<seq<Uid>>, found: Found,
                                       rows: Key -> seq<Uid>, order: seq<nat>, n: nat)
    requires forall k | 0 <= k < |order| :: order[k] < |t.nodes|
    requires n < |t.nodes| && t.nodes[n].key.SortKey? && n !in done && n in order
    requires forall k | 0 <= k < |order| && t.nodes[order[k]].key.SortKey? && order[k] !in done :: order[k] == n
    ensures SortPass(t, done, sorted, found, rows, order) ==
      (done + {n}, Some(SortedIds(rows(t.nodes[n].key), found)))
    decreases |order|
  {
    if order[0] == n {
      SortPassIdle(t, done + {n}, Some(SortedIds(rows(t.nodes[n].key), found)), found, rows, order[1..]);
    } else {
      assert order[1..] != [] && n in order[1..];
      SortPassOne(t, done, sorted, found, rows, order[1..], n);
    }
  }

  /**
   * In a tree with one sort node, not yet sorted, sorting leaves the result's
   * messages in the order of the node's sort query and marks the node.
   */
  lemma SortOnce(t: Tree, done: set<nat>, sorted: Option<seq<Uid>>, found: Found,
                 rows: Key -> seq<Uid>, n: nat)
    requires Valid(t) && n < |t.nodes| && t.nodes[n].key.SortKey? && n !in done
    requires forall k | 0 <= k < |t.nodes| && t.nodes[k].key.SortKey? :: k == n
    ensures Sort(t, done, sorted, found, rows) ==
      (done + {n}, Some(SortedIds(rows(t.nodes[n].key), found)))
  {
    var i := SearchEval.Visits(t, n);
    SortPassOne(t, done, sorted, found, rows, PreOrder(t, 0), n);
  }

  /** Sorting a second time changes nothing: every sort node is already marked. */
  lemma SortTwice(t: Tree, done: set<nat>, sorted: Option<seq<Uid>>, found: Found, rows: Key -> seq<Uid>)
    requires Valid(t)
    ensures var r := Sort(t, done, sorted, found, rows);
      Sort(t, r.0, r.1, found, rows) == r
  {
    if t.nodes != [] {
      var r := Sort(t, done, sorted, found, rows);
      SortPassIdle(t, r.0, r.1, found, rows, PreOrder(t, 0));
    }
  }
}
