/**
 * `dbmail_mailbox_search`: the two passes over the parsed search tree.
 *
 * Pass one (`_do_search`, in pre-order) gives every node its own found set:
 * message sets through `dbmail_mailbox_get_set`, the other leaves through the
 * store, groups an empty set after their children. Pass two (`_merge_search`,
 * in pre-order again) folds the found sets into an accumulator seeded with
 * the whole index. Each node carries the `searched`, `found` and `merged`
 * fields of `search_key_t` as one `Status`, which survives between calls.
 *
 * A missing found set (a NULL tree) is `None`. `g_tree_merge` and
 * `g_tree_foreach` on a NULL tree change nothing, which is what GLib's
 * argument checks and the "cannot compare null trees" error of
 * `dbmail_mailbox_get_set` give.
 */
module SearchEval {
  import opened Options
  import opened UidIndex
  import opened FoundSet
  import opened SequenceSet
  import opened SearchTree

  /** `searched`/`found`/`merged` of one node: merged nodes have freed their set. */
  datatype Status = Unsearched | Searched(found: Found) | Merged

  function FoundOf(s: Status): (f: Option<Found>)
    ensures f.Some? <==> s.Searched?
  {
    if s.Searched? then Some(s.found) else None
  }

  /**
   * What a search reads besides the tree: the index, the message count of
   * the mailbox state when there is one, and the message ids the store
   * returns for a key's query, in store order.
   */
  datatype Env = Env(ix: Index, messages: Option<nat>, rows: Key -> seq<Uid>)

  /**
   * The loop at the end of `mailbox_search`: each returned id that the index
   * knows is entered with its MSN; unknown ids are skipped.
   */
  function StoreFound(ix: Index, rows: seq<Uid>): (f: Found)
    ensures forall u :: u in f <==> u in rows && u in ix.ids
    ensures Within(f, ix.ids)
  {
    if rows == [] then map[]
    else
      var f := StoreFound(ix, rows[..|rows| - 1]);
      var u := rows[|rows| - 1];
      assert rows == rows[..|rows| - 1] + [u];
      if u in ix.ids then f[u := ix.ids[u]] else f
  }

  // ---------------------------------------------------------------------
  // Pass one: `_do_search`

  /**
   * One call of `_do_search` on node `n`; the flag is the callback's return
   * value, TRUE when `dbmail_mailbox_get_set` failed, which stops a traversal.
   * Already searched nodes and sort nodes are left alone; a group first
   * searches its children, ignoring what they return.
   */
  function DoSearch(t: Tree, env: Env, st: seq<Status>, n: nat): (r: (bool, seq<Status>))
    requires Valid(t) && |st| == |t.nodes| && n < |t.nodes|
    ensures |r.1| == |st|
    ensures r.0 ==> r.1 == st
    decreases |t.nodes| - n, 1
  {
    var key := t.nodes[n].key;
    if !st[n].Unsearched? then (false, st)
    else match key
      case SortKey(_, _) => (false, st)
      case SetKey(range, uid) =>
        (match GetSet(env.ix, range, uid, env.messages)
         case None => (true, st)
         case Some(f) => (false, st[n := Searched(f)]))
      case AndGroup => (false, SearchChildren(t, env, st, ChildrenOf(t, n), n)[n := Searched(map[])])
      case OrGroup => (false, SearchChildren(t, env, st, ChildrenOf(t, n), n)[n := Searched(map[])])
      case NotGroup => (false, SearchChildren(t, env, st, ChildrenOf(t, n), n)[n := Searched(map[])])
      case _ => (false, st[n := Searched(StoreFound(env.ix, env.rows(key)))])
  }

  /** The children of `n`, each after it. */
  function ChildrenOf(t: Tree, n: nat): (cs: seq<nat>)
    requires Valid(t)
    ensures forall k | 0 <= k < |cs| :: n < cs[k] < |t.nodes|
    ensures cs == Children(t, n)
  {
    ChildrenAfter(t, n);
    Children(t, n)
  }

  /** `g_node_children_foreach(node, ..., _do_search, self)`. */
  function SearchChildren(t: Tree, env: Env, st: seq<Status>, cs: seq<nat>, p: nat): (r: seq<Status>)
    requires Valid(t) && |st| == |t.nodes|
    requires forall k | 0 <= k < |cs| :: p < cs[k] < |t.nodes|
    ensures |r| == |st|
    decreases |t.nodes| - p, 0, |cs|
  {
    if cs == [] then st
    else SearchChildren(t, env, DoSearch(t, env, st, cs[0]).1, cs[1..], p)
  }

  /** `g_node_traverse` with `_do_search` over `order`: stops at the first TRUE. */
  function SearchPass(t: Tree, env: Env, st: seq<Status>, order: seq<nat>): (r: (bool, seq<Status>))
    requires Valid(t) && |st| == |t.nodes|
    requires forall k | 0 <= k < |order| :: order[k] < |t.nodes|
    ensures |r.1| == |st|
    decreases |order|
  {
    if order == [] then (false, st)
    else
      var d := DoSearch(t, env, st, order[0]);
      if d.0 then (true, d.1) else SearchPass(t, env, d.1, order[1..])
  }

  // ---------------------------------------------------------------------
  // Pass two: `_merge_search`

  /** The three operations of `g_tree_merge`. */
  datatype Op = Intersect | Unite | Subtract

  /**
   * `g_tree_merge(a, b, op)`, in place on `a`: intersection, union (entries
   * of `b` replacing those of `a`) or difference. A NULL operand leaves `a`
   * as it was.
   */
  function TreeMerge(a: Option<Found>, b: Option<Found>, op: Op): (r: Option<Found>)
    ensures r.Some? <==> a.Some?
    ensures a.Some? && b.Some? && op == Intersect ==> r.value.Keys == a.value.Keys * b.value.Keys
    ensures a.Some? && b.Some? && op == Unite ==> r.value.Keys == a.value.Keys + b.value.Keys
    ensures a.Some? && b.Some? && op == Subtract ==> r.value.Keys == a.value.Keys - b.value.Keys
    ensures a.Some? && b.None? ==> r == a
  {
    if a.None? || b.None? then a
    else match op
      case Intersect => Some(And(a.value, b.value))
      case Unite => Some(Or(a.value, b.value))
      case Subtract => Some(Diff(a.value, b.value))
  }

  /** `g_tree_foreach(src, _found_tree_copy, dst)`: every entry of `src` inserted into `dst`. */
  function CopyInto(src: Option<Found>, dst: Option<Found>): (r: Option<Found>)
    ensures r.Some? <==> dst.Some?
    ensures src.Some? && dst.Some? ==> r.value.Keys == src.value.Keys + dst.value.Keys && Within(src.value, r.value)
    ensures src.None? ==> r == dst
  {
    if src.None? || dst.None? then dst else Some(Or(dst.value, src.value))
  }

  /**
   * The state of the merge pass: the node states and the accumulator the
   * current callback writes into, or a NULL dereference (an OR node with
   * fewer than two children).
   */
  datatype Merge = Pass(st: seq<Status>, acc: Option<Found>) | Fault

  /** The merge keeps the accumulator inside what it started from. */
  predicate Narrows(r: Merge, st: seq<Status>, acc: Option<Found>) {
    r.Pass? ==>
      && |r.st| == |st|
      && (r.acc.Some? <==> acc.Some?)
      && (acc.Some? ==> Within(r.acc.value, acc.value))
  }

  /**
   * `_merge_search(node, found)`: sort nodes and merged nodes are skipped; an
   * AND group merges its children into the same accumulator and stays
   * unmerged itself; NOT merges its children into a copy of the accumulator
   * and subtracts the result; OR unites its first two children, each an AND
   * group narrowed from a copy of the accumulator or else its own found set,
   * and intersects the union into the accumulator; any other node
   * intersects its found set into the accumulator.
   */
  function MergeNode(t: Tree, st: seq<Status>, acc: Option<Found>, n: nat): (r: Merge)
    requires Valid(t) && |st| == |t.nodes| && n < |t.nodes|
    ensures Narrows(r, st, acc)
    decreases |t.nodes| - n, 1
  {
    var key := t.nodes[n].key;
    if key.SortKey? || st[n].Merged? then Pass(st, acc)
    else if key.AndGroup? then MergeChildren(t, st, acc, ChildrenOf(t, n), n)
    else if key.NotGroup? then
      var inner := CopyInto(acc, FoundOf(st[n]));
      match MergeChildren(t, st, inner, ChildrenOf(t, n), n)
      case Fault => Fault
      case Pass(st1, inner1) => Pass(st1[n := Merged], TreeMerge(acc, inner1, Subtract))
    else if key.OrGroup? then MergeOr(t, st, acc, n)
    else Pass(st[n := Merged], TreeMerge(acc, FoundOf(st[n]), Intersect))
  }

  /**
   * The OR case of `_merge_search`: a NULL dereference with fewer than two
   * children; otherwise the union of what the first two children contribute,
   * united into the node's own found set and intersected into the
   * accumulator, with the node and both children marked merged.
   */
  function MergeOr(t: Tree, st: seq<Status>, acc: Option<Found>, n: nat): (r: Merge)
    requires Valid(t) && |st| == |t.nodes| && n < |t.nodes|
    ensures Narrows(r, st, acc)
    decreases |t.nodes| - n, 0, 0
  {
    var cs := ChildrenOf(t, n);
    if |cs| < 2 then Fault
    else
      match MergeOrChild(t, st, acc, cs[0])
      case Fault => Fault
      case Pass(st1, a) =>
        match MergeOrChild(t, st1, acc, cs[1])
        case Fault => Fault
        case Pass(st2, b) =>
          var s := TreeMerge(FoundOf(st2[n]), TreeMerge(a, b, Unite), Unite);
          Pass(st2[cs[1] := Merged][cs[0] := Merged][n := Merged], TreeMerge(acc, s, Intersect))
  }

  /**
   * What one operand of an OR contributes: an AND group's found set after
   * the accumulator is copied into it and its children are merged into it;
   * any other node's found set as it stands.
   */
  function MergeOrChild(t: Tree, st: seq<Status>, acc: Option<Found>, x: nat): (r: Merge)
    requires Valid(t) && |st| == |t.nodes| && x < |t.nodes|
    ensures r.Pass? ==> |r.st| == |st|
    decreases |t.nodes| - x, 2
  {
    if t.nodes[x].key.AndGroup? then
      MergeChildren(t, st, CopyInto(acc, FoundOf(st[x])), ChildrenOf(t, x), x)
    else Pass(st, FoundOf(st[x]))
  }

  /** `g_node_children_foreach(node, ..., _merge_search, found)`. */
  function MergeChildren(t: Tree, st: seq<Status>, acc: Option<Found>, cs: seq<nat>, p: nat): (r: Merge)
    requires Valid(t) && |st| == |t.nodes|
    requires forall k | 0 <= k < |cs| :: p < cs[k] < |t.nodes|
    ensures Narrows(r, st, acc)
    decreases |t.nodes| - p, 0, |cs|
  {
    if cs == [] then Pass(st, acc)
    else
      match MergeNode(t, st, acc, cs[0])
      case Fault => Fault
      case Pass(st1, acc1) =>
        var r := MergeChildren(t, st1, acc1, cs[1..], p);
        assert acc.Some? && r.Pass? ==> Within(r.acc.value, acc1.value) && Within(acc1.value, acc.value);
        r
  }

  /** `g_node_traverse` with `_merge_search` over `order`, which never stops early. */
  function MergePass(t: Tree, st: seq<Status>, acc: Option<Found>, order: seq<nat>): (r: Merge)
    requires Valid(t) && |st| == |t.nodes|
    requires forall k | 0 <= k < |order| :: order[k] < |t.nodes|
    ensures Narrows(r, st, acc)
    decreases |order|
  {
    if order == [] then Pass(st, acc)
    else
      match MergeNode(t, st, acc, order[0])
      case Fault => Fault
      case Pass(st1, acc1) => MergePass(t, st1, acc1, order[1..])
  }

  // ---------------------------------------------------------------------
  // `dbmail_mailbox_search`

  /** The result of a search: no tree, the new node states and found set, or a crash. */
  datatype Outcome = NoTree | Done(st: seq<Status>, found: Found) | Crash

  /**
   * `dbmail_mailbox_search`: with no tree nothing happens; otherwise the
   * found set is reset to a copy of the index, pass one runs (whether or not
   * it stops early) and then pass two, both over the whole tree in pre-order.
   */
  function Search(env: Env, t: Tree, st: seq<Status>): (r: Outcome)
    requires Valid(t) && |st| == |t.nodes|
    ensures r.NoTree? <==> t.nodes == []
    ensures r.Done? ==> Within(r.found, env.ix.ids) && |r.st| == |st|
  {
    if t.nodes == [] then NoTree
    else
      var order := PreOrder(t, 0);
      var first := SearchPass(t, env, st, order);
      match MergePass(t, first.1, Some(env.ix.ids), order)
      case Fault => Crash
      case Pass(st2, acc) => Done(st2, acc.value)
  }

  // ---------------------------------------------------------------------
  // Pass one against a per-node reference

  /**
   * What pass one should leave in a node of the given key, by the node alone:
   * a sort node stays unsearched, a group holds the empty set, a message set
   * its `dbmail_mailbox_get_set` result (`None` when that fails), any other
   * leaf the store's matches that the index knows.
   */
  function Expected(env: Env, key: Key): Option<Status> {
    match key
    case SortKey(_, _) => Some(Unsearched)
    case SetKey(range, uid) =>
      (match GetSet(env.ix, range, uid, env.messages)
       case None => None
       case Some(f) => Some(Searched(f)))
    case AndGroup => Some(Searched(map[]))
    case OrGroup => Some(Searched(map[]))
    case NotGroup => Some(Searched(map[]))
    case _ => Some(Searched(StoreFound(env.ix, env.rows(key))))
  }

  /** A message set node whose set `dbmail_mailbox_get_set` rejects. */
  predicate Failing(env: Env, key: Key) {
    Expected(env, key).None?
  }

  /** The status a node ends pass one with: its expected status, or unsearched. */
  function Settle(env: Env, key: Key): Status {
    Expected(env, key).GetOr(Unsearched)
  }

  /** Every node is unsearched or already holds its expected status. */
  predicate Consistent(t: Tree, env: Env, st: seq<Status>) {
    && |st| == |t.nodes|
    && forall k | 0 <= k < |st| :: st[k].Unsearched? || st[k] == Settle(env, t.nodes[k].key)
  }

  /** Nodes that hold their expected status in `st` still hold it in `st2`. */
  predicate Keeps(t: Tree, env: Env, st: seq<Status>, st2: seq<Status>) {
    && |st| == |t.nodes| == |st2|
    && forall k | 0 <= k < |st| && st[k] == Settle(env, t.nodes[k].key) :: st2[k] == st[k]
  }

  lemma KeepsTransitive(t: Tree, env: Env, a: seq<Status>, b: seq<Status>, c: seq<Status>)
    requires Keeps(t, env, a, b) && Keeps(t, env, b, c)
    ensures Keeps(t, env, a, c)
  {
  }

  /**
   * One call of `_do_search` writes only expected statuses, keeps those
   * already written, returns TRUE exactly on a failing message set, and
   * otherwise leaves its node at its expected status.
   */
  lemma {:induction false} DoSearchSettles(t: Tree, env: Env, st: seq<Status>, n: nat)
    requires Valid(t) && n < |t.nodes| && Consistent(t, env, st)
    ensures var r := DoSearch(t, env, st, n);
      && Consistent(t, env, r.1) && Keeps(t, env, st, r.1)
      && (r.0 <==> Failing(env, t.nodes[n].key))
      && (!r.0 ==> r.1[n] == Settle(env, t.nodes[n].key))
    decreases |t.nodes| - n, 1
  {
    var key := t.nodes[n].key;
    var r := DoSearch(t, env, st, n);
    if !st[n].Unsearched? {
      assert r == (false, st);
      SettledNotFailing(t, env, st, n);
    } else if key.IsGroup() {
      var cs := ChildrenOf(t, n);
      SearchChildrenSettles(t, env, st, cs, n);
      var c := SearchChildren(t, env, st, cs, n);
      assert r.1 == c[n := Searched(map[])];
      WriteExpected(t, env, c, n);
      KeepsTransitive(t, env, st, c, r.1);
    } else if key.SortKey? {
      assert r == (false, st);
    } else if Failing(env, key) {
      assert r == (true, st);
    } else {
      DoSearchLeaf(t, env, st, n);
      WriteExpected(t, env, st, n);
    }
  }

  /** A node that already holds a status other than unsearched is not a failing set. */
  lemma SettledNotFailing(t: Tree, env: Env, st: seq<Status>, n: nat)
    requires n < |t.nodes| && Consistent(t, env, st) && !st[n].Unsearched?
    ensures !Failing(env, t.nodes[n].key) && st[n] == Settle(env, t.nodes[n].key)
  {
  }

  /** Writing a node's expected status keeps the statuses consistent and kept. */
  lemma WriteExpected(t: Tree, env: Env, st: seq<Status>, n: nat)
    requires n < |t.nodes| && Consistent(t, env, st)
    requires st[n].Unsearched? || st[n] == Settle(env, t.nodes[n].key)
    ensures var st2 := st[n := Settle(env, t.nodes[n].key)];
      Consistent(t, env, st2) && Keeps(t, env, st, st2)
  {
  }

  /** `_do_search` on an unsearched leaf that is neither a sort node nor a failing set writes its expected status. */
  lemma DoSearchLeaf(t: Tree, env: Env, st: seq<Status>, n: nat)
    requires Valid(t) && |st| == |t.nodes| && n < |t.nodes| && st[n].Unsearched?
    requires !t.nodes[n].key.IsGroup() && !t.nodes[n].key.SortKey? && !Failing(env, t.nodes[n].key)
    ensures DoSearch(t, env, st, n) == (false, st[n := Settle(env, t.nodes[n].key)])
  {
  }

  lemma {:induction false} SearchChildrenSettles(t: Tree, env: Env, st: seq<Status>, cs: seq<nat>, p: nat)
    requires Valid(t) && Consistent(t, env, st)
    requires forall k | 0 <= k < |cs| :: p < cs[k] < |t.nodes|
    ensures var r := SearchChildren(t, env, st, cs, p);
      Consistent(t, env, r) && Keeps(t, env, st, r)
    decreases |t.nodes| - p, 0, |cs|
  {
    if cs != [] {
      var d := DoSearch(t, env, st, cs[0]).1;
      DoSearchSettles(t, env, st, cs[0]);
      SearchChildrenSettles(t, env, d, cs[1..], p);
      KeepsTransitive(t, env, st, d, SearchChildren(t, env, d, cs[1..], p));
    }
  }

  /** Some node of `order` is a failing message set. */
  predicate AnyFailing(t: Tree, env: Env, order: seq<nat>)
    requires forall k | 0 <= k < |order| :: order[k] < |t.nodes|
  {
    exists i | 0 <= i < |order| :: Failing(env, t.nodes[order[i]].key)
  }

  /**
   * A traversal with `_do_search` stops early exactly when it meets a
   * failing message set; when it does not, every node it visits holds its
   * expected status.
   */
  lemma {:induction false} SearchPassSettles(t: Tree, env: Env, st: seq<Status>, order: seq<nat>)
    requires Valid(t) && Consistent(t, env, st)
    requires forall k | 0 <= k < |order| :: order[k] < |t.nodes|
    ensures var r := SearchPass(t, env, st, order);
      && Consistent(t, env, r.1)
      && (r.0 <==> AnyFailing(t, env, order))
      && (!r.0 ==> forall i | 0 <= i < |order| :: r.1[order[i]] == Settle(env, t.nodes[order[i]].key))
    decreases |order|
  {
    if order != [] {
      var d := DoSearch(t, env, st, order[0]);
      DoSearchSettles(t, env, st, order[0]);
      if !d.0 {
        var rest := order[1..];
        SearchPassSettles(t, env, d.1, rest);
        var r := SearchPass(t, env, d.1, rest);
        assert AnyFailing(t, env, order) <==> AnyFailing(t, env, rest) by {
          if AnyFailing(t, env, order) {
            var i :| 0 <= i < |order| && Failing(env, t.nodes[order[i]].key);
            assert i > 0 && rest[i - 1] == order[i];
          }
          if AnyFailing(t, env, rest) {
            var i :| 0 <= i < |rest| && Failing(env, t.nodes[rest[i]].key);
            assert order[i + 1] == rest[i];
          }
        }
        if !r.0 {
          SearchPassKeeps(t, env, d.1, rest);
          forall i | 0 <= i < |order|
            ensures r.1[order[i]] == Settle(env, t.nodes[order[i]].key)
          {
            if i > 0 {
              assert order[i] == rest[i - 1];
            }
          }
        }
      } else {
        assert Failing(env, t.nodes[order[0]].key);
      }
    }
  }

  lemma {:induction false} SearchPassKeeps(t: Tree, env: Env, st: seq<Status>, order: seq<nat>)
    requires Valid(t) && Consistent(t, env, st)
    requires forall k | 0 <= k < |order| :: order[k] < |t.nodes|
    ensures Keeps(t, env, st, SearchPass(t, env, st, order).1)
    decreases |order|
  {
    if order != [] {
      var d := DoSearch(t, env, st, order[0]);
      DoSearchSettles(t, env, st, order[0]);
      if !d.0 {
        SearchPassKeeps(t, env, d.1, order[1..]);
        KeepsTransitive(t, env, st, d.1, SearchPass(t, env, d.1, order[1..]).1);
      }
    }
  }

  /** Every node unsearched, as `g_new0` leaves a freshly parsed tree. */
  predicate AllUnsearched(st: seq<Status>) {
    forall k | 0 <= k < |st| :: st[k].Unsearched?
  }

  /**
   * Pass one over a freshly parsed tree stops early exactly when some
   * message set of the tree is rejected; otherwise every node ends with the
   * status its own key determines, whatever the shape of the tree.
   */
  lemma PassOneResult(t: Tree, env: Env, st: seq<Status>)
    requires Valid(t) && |t.nodes| > 0 && |st| == |t.nodes| && AllUnsearched(st)
    ensures var r := SearchPass(t, env, st, PreOrder(t, 0));
      && (r.0 <==> exists k | 0 <= k < |t.nodes| :: Failing(env, t.nodes[k].key))
      && (!r.0 ==> forall k | 0 <= k < |t.nodes| :: r.1[k] == Settle(env, t.nodes[k].key))
  {
    var order := PreOrder(t, 0);
    SearchPassSettles(t, env, st, order);
    var r := SearchPass(t, env, st, order);
    if r.0 {
      var i :| 0 <= i < |order| && Failing(env, t.nodes[order[i]].key);
      assert order[i] < |t.nodes|;
    }
    if exists k | 0 <= k < |t.nodes| :: Failing(env, t.nodes[k].key) {
      var k :| 0 <= k < |t.nodes| && Failing(env, t.nodes[k].key);
      var i := Visits(t, k);
      assert Failing(env, t.nodes[order[i]].key);
    }
    if !r.0 {
      forall k | 0 <= k < |t.nodes|
        ensures r.1[k] == Settle(env, t.nodes[k].key)
      {
        var i := Visits(t, k);
      }
    }
  }

  /** The position of node `k` in the pre-order traversal from the root. */
  lemma Visits(t: Tree, k: nat) returns (i: nat)
    requires Valid(t) && k < |t.nodes|
    ensures i < |PreOrder(t, 0)| && PreOrder(t, 0)[i] == k
  {
    UnderRoot(t, k);
    PreOrderCovers(t, 0, k);
    var order := PreOrder(t, 0);
    i :| 0 <= i < |order| && order[i] == k;
  }

  // ---------------------------------------------------------------------
  // Subtrees of the search tree

  lemma ChildrenAreSiblings(t: Tree, n: nat)
    requires Valid(t)
    ensures Siblings(t, ChildrenOf(t, n), n)
  {
  }

  /** Whatever lies strictly under `n` lies under one of its children. */
  lemma UnderSomeChild(t: Tree, n: nat, k: nat)
    requires Valid(t) && InSubtree(t, n, k) && k != n
    ensures UnderAny(t, ChildrenOf(t, n), k)
  {
    var c := ChildOnPath(t, n, k);
    var cs := ChildrenOf(t, n);
    var i :| 0 <= i < |cs| && cs[i] == c;
    UnderAnyMember(t, cs, i, k);
  }

  /** `st2` equals `st` on the subtree of `n`. */
  predicate AgreeOn(t: Tree, st: seq<Status>, st2: seq<Status>, n: nat) {
    && |st| == |st2|
    && forall k | 0 <= k < |st| && InSubtree(t, n, k) :: st2[k] == st[k]
  }

  /** `st2` equals `st` outside the subtree of `n`. */
  predicate Beyond(t: Tree, st: seq<Status>, st2: seq<Status>, n: nat) {
    && |st| == |st2|
    && forall k | 0 <= k < |st| && !InSubtree(t, n, k) :: st2[k] == st[k]
  }

  /** `st2` equals `st` outside the subtrees of `cs`. */
  predicate BeyondAll(t: Tree, st: seq<Status>, st2: seq<Status>, cs: seq<nat>) {
    && |st| == |st2|
    && forall k | 0 <= k < |st| && !UnderAny(t, cs, k) :: st2[k] == st[k]
  }

  // ---------------------------------------------------------------------
  // The meaning of a search

  /**
   * Whether message `u` satisfies the search key at node `n` (section 6.4.4
   * of RFC 3501), given the found sets of pass one: a leaf when its set holds
   * `u`, a parenthesised group when all its keys do, NOT when not all its
   * keys do, OR when either operand does; a sort criterion always.
   */
  predicate Sat(t: Tree, st: seq<Status>, n: nat, u: Uid)
    requires Valid(t) && |st| == |t.nodes| && n < |t.nodes|
    decreases |t.nodes| - n, 1, 0
  {
    var key := t.nodes[n].key;
    var cs := ChildrenOf(t, n);
    if key.SortKey? then true
    else if key.AndGroup? then AllSat(t, st, cs, n, u)
    else if key.NotGroup? then !AllSat(t, st, cs, n, u)
    else if key.OrGroup? then |cs| >= 2 && (Sat(t, st, cs[0], u) || Sat(t, st, cs[1], u))
    else st[n].Searched? && u in st[n].found
  }

  predicate AllSat(t: Tree, st: seq<Status>, cs: seq<nat>, p: nat, u: Uid)
    requires Valid(t) && |st| == |t.nodes|
    requires forall k | 0 <= k < |cs| :: p < cs[k] < |t.nodes|
    decreases |t.nodes| - p, 0, |cs|
  {
    cs == [] || (Sat(t, st, cs[0], u) && AllSat(t, st, cs[1..], p, u))
  }

  /** An operand `_merge_search` handles as the search key it is: not NOT, OR or a sort. */
  predicate Operand(key: Key) {
    !(key.NotGroup? || key.OrGroup? || key.SortKey?)
  }

  /**
   * A subtree whose leaves have no children and whose OR nodes have exactly
   * two children, neither of them a NOT or OR group.
   */
  predicate Plain(t: Tree, n: nat)
    requires Valid(t) && n < |t.nodes|
    decreases |t.nodes| - n, 1, 0
  {
    var key := t.nodes[n].key;
    var cs := ChildrenOf(t, n);
    && (!key.IsGroup() ==> cs == [])
    && (key.OrGroup? ==> |cs| == 2 && Operand(t.nodes[cs[0]].key) && Operand(t.nodes[cs[1]].key))
    && AllPlain(t, cs, n)
  }

  predicate AllPlain(t: Tree, cs: seq<nat>, p: nat)
    requires Valid(t)
    requires forall k | 0 <= k < |cs| :: p < cs[k] < |t.nodes|
    decreases |t.nodes| - p, 0, |cs|
  {
    cs == [] || (Plain(t, cs[0]) && AllPlain(t, cs[1..], p))
  }

  /** The status pass one leaves a node in when nothing failed. */
  predicate FreshStatus(key: Key, s: Status) {
    if key.SortKey? then s.Unsearched?
    else if key.IsGroup() then s == Searched(map[])
    else s.Searched?
  }

  /** The status after the merge pass: merged, a sort node, or a searched AND group. */
  predicate DoneStatus(key: Key, s: Status) {
    s.Merged? || key.SortKey? || (key.AndGroup? && s.Searched?)
  }

  predicate Fresh(t: Tree, st: seq<Status>, n: nat) {
    && |st| == |t.nodes|
    && forall k | 0 <= k < |st| && InSubtree(t, n, k) :: FreshStatus(t.nodes[k].key, st[k])
  }

  predicate FreshAll(t: Tree, st: seq<Status>, cs: seq<nat>) {
    && |st| == |t.nodes|
    && forall k | 0 <= k < |st| && UnderAny(t, cs, k) :: FreshStatus(t.nodes[k].key, st[k])
  }

  predicate Settled(t: Tree, st: seq<Status>, n: nat) {
    && |st| == |t.nodes|
    && forall k | 0 <= k < |st| && InSubtree(t, n, k) :: DoneStatus(t.nodes[k].key, st[k])
  }

  predicate SettledAll(t: Tree, st: seq<Status>, cs: seq<nat>) {
    && |st| == |t.nodes|
    && forall k | 0 <= k < |st| && UnderAny(t, cs, k) :: DoneStatus(t.nodes[k].key, st[k])
  }

  /** Whether a message satisfies a key depends only on the key's own subtree. */
  lemma {:induction false} SatFrame(t: Tree, st: seq<Status>, st2: seq<Status>, n: nat, u: Uid)
    requires Valid(t) && |st| == |t.nodes| && n < |t.nodes| && AgreeOn(t, st, st2, n)
    ensures Sat(t, st, n, u) == Sat(t, st2, n, u)
    decreases |t.nodes| - n, 1, 0
  {
    var key := t.nodes[n].key;
    var cs := ChildrenOf(t, n);
    ChildrenAreSiblings(t, n);
    if key.AndGroup? || key.NotGroup? {
      forall k | 0 <= k < |st| && UnderAny(t, cs, k) ensures st2[k] == st[k] {
        UnderAnyBelow(t, cs, n, k);
      }
      AllSatFrame(t, st, st2, cs, n, u);
    } else if key.OrGroup? && |cs| >= 2 {
      forall i | 0 <= i < 2 ensures AgreeOn(t, st, st2, cs[i]) {
        forall k | 0 <= k < |st| && InSubtree(t, cs[i], k) ensures st2[k] == st[k] {
          SubtreeOfChild(t, n, cs[i], k);
        }
      }
      SatFrame(t, st, st2, cs[0], u);
      SatFrame(t, st, st2, cs[1], u);
    }
  }

  lemma {:induction false} AllSatFrame(t: Tree, st: seq<Status>, st2: seq<Status>, cs: seq<nat>, p: nat, u: Uid)
    requires Valid(t) && |st| == |t.nodes| == |st2| && Siblings(t, cs, p)
    requires forall k | 0 <= k < |st| && UnderAny(t, cs, k) :: st2[k] == st[k]
    ensures AllSat(t, st, cs, p, u) == AllSat(t, st2, cs, p, u)
    decreases |t.nodes| - p, 0, |cs|
  {
    if cs != [] {
      SatFrame(t, st, st2, cs[0], u);
      AllSatFrame(t, st, st2, cs[1..], p, u);
    }
  }

  // ---------------------------------------------------------------------
  // Pass two against the meaning

  lemma FreshChildren(t: Tree, st: seq<Status>, n: nat)
    requires Valid(t) && n < |t.nodes| && Fresh(t, st, n)
    ensures FreshAll(t, st, ChildrenOf(t, n))
  {
    var cs := ChildrenOf(t, n);
    ChildrenAreSiblings(t, n);
    forall k | 0 <= k < |st| && UnderAny(t, cs, k)
      ensures FreshStatus(t.nodes[k].key, st[k])
    {
      UnderAnyBelow(t, cs, n, k);
    }
  }

  lemma FreshChild(t: Tree, st: seq<Status>, n: nat, c: nat)
    requires n < c < |t.nodes| && t.nodes[c].parent == Some(n) && Fresh(t, st, n)
    ensures Fresh(t, st, c)
  {
    forall k | 0 <= k < |st| && InSubtree(t, c, k)
      ensures FreshStatus(t.nodes[k].key, st[k])
    {
      SubtreeOfChild(t, n, c, k);
    }
  }

  /** A node is settled when it is done and everything under its children is settled. */
  lemma SettledFromChildren(t: Tree, st: seq<Status>, n: nat)
    requires Valid(t) && n < |t.nodes| && |st| == |t.nodes|
    requires DoneStatus(t.nodes[n].key, st[n]) && SettledAll(t, st, ChildrenOf(t, n))
    ensures Settled(t, st, n)
  {
    forall k | 0 <= k < |st| && InSubtree(t, n, k)
      ensures DoneStatus(t.nodes[k].key, st[k])
    {
      if k != n {
        UnderSomeChild(t, n, k);
      }
    }
  }

  /** Changes under the children of `n` are changes inside the subtree of `n`, below `n`. */
  lemma BeyondFromChildren(t: Tree, st: seq<Status>, st2: seq<Status>, n: nat)
    requires Valid(t) && n < |t.nodes| && BeyondAll(t, st, st2, ChildrenOf(t, n))
    ensures Beyond(t, st, st2, n) && (n < |st| ==> st2[n] == st[n])
  {
    var cs := ChildrenOf(t, n);
    ChildrenAreSiblings(t, n);
    forall k | 0 <= k < |st| && (k == n || !InSubtree(t, n, k))
      ensures st2[k] == st[k]
    {
      if UnderAny(t, cs, k) {
        UnderAnyBelow(t, cs, n, k);
      }
    }
  }

  /** A childless node's subtree is the node itself. */
  lemma Childless(t: Tree, n: nat, k: nat)
    requires Valid(t) && n < |t.nodes| && ChildrenOf(t, n) == [] && InSubtree(t, n, k)
    ensures k == n
  {
    if k != n {
      UnderSomeChild(t, n, k);
    }
  }

  /**
   * Merging a plain subtree fresh from pass one narrows the accumulator to
   * the messages that satisfy its key, leaves the whole subtree settled, and
   * changes no node outside it.
   */
  lemma {:induction false} MergeNodeMeaning(t: Tree, st: seq<Status>, acc: Found, n: nat)
    requires Valid(t) && n < |t.nodes| && Fresh(t, st, n) && Plain(t, n)
    ensures var r := MergeNode(t, st, Some(acc), n);
      && r.Pass? && r.acc.Some?
      && (forall u :: u in r.acc.value <==> u in acc && Sat(t, st, n, u))
      && Settled(t, r.st, n) && Beyond(t, st, r.st, n)
    decreases |t.nodes| - n, 2, 0
  {
    var key := t.nodes[n].key;
    var cs := ChildrenOf(t, n);
    assert InSubtree(t, n, n);
    if key.OrGroup? {
      MergeOrMeaning(t, st, acc, n);
    } else if key.AndGroup? {
      ChildrenAreSiblings(t, n);
      FreshChildren(t, st, n);
      MergeChildrenMeaning(t, st, acc, cs, n);
      var r := MergeChildren(t, st, Some(acc), cs, n);
      BeyondFromChildren(t, st, r.st, n);
      SettledFromChildren(t, r.st, n);
    } else if key.NotGroup? {
      ChildrenAreSiblings(t, n);
      FreshChildren(t, st, n);
      var inner := Or(map[], acc);
      assert CopyInto(Some(acc), FoundOf(st[n])) == Some(inner);
      MergeChildrenMeaning(t, st, inner, cs, n);
      var r := MergeChildren(t, st, Some(inner), cs, n);
      BeyondFromChildren(t, st, r.st, n);
      SettledFromChildren(t, r.st[n := Merged], n);
    } else {
      var r := MergeNode(t, st, Some(acc), n);
      forall k | 0 <= k < |st| && InSubtree(t, n, k)
        ensures DoneStatus(t.nodes[k].key, r.st[k])
      {
        Childless(t, n, k);
      }
    }
  }

  /**
   * An OR node with two plain operands narrows the accumulator to the
   * messages satisfying either operand.
   */
  lemma {:induction false} MergeOrMeaning(t: Tree, st: seq<Status>, acc: Found, n: nat)
    requires Valid(t) && n < |t.nodes| && t.nodes[n].key.OrGroup? && Fresh(t, st, n) && Plain(t, n)
    ensures var r := MergeNode(t, st, Some(acc), n);
      && r.Pass? && r.acc.Some?
      && (forall u :: u in r.acc.value <==> u in acc && Sat(t, st, n, u))
      && Settled(t, r.st, n) && Beyond(t, st, r.st, n)
    decreases |t.nodes| - n, 1, 0
  {
    var cs := ChildrenOf(t, n);
    var x, y := cs[0], cs[1];
    var st1, st2, a, b := OrOperands(t, st, acc, n);
    assert st2[n] == Searched(map[]);
    var s := TreeMerge(FoundOf(st2[n]), TreeMerge(Some(a), Some(b), Unite), Unite);
    var fin := st2[y := Merged][x := Merged][n := Merged];
    assert MergeNode(t, st, Some(acc), n) == Pass(fin, TreeMerge(Some(acc), s, Intersect));
    IntersectUnion(acc, a, b);
    OrSettled(t, st, st1, st2, n);
  }

  /** Intersecting the union of two sets, grown from an empty one, into `acc`. */
  lemma IntersectUnion(acc: Found, a: Found, b: Found)
    ensures var s := TreeMerge(Some(map[]), TreeMerge(Some(a), Some(b), Unite), Unite);
      forall u :: u in TreeMerge(Some(acc), s, Intersect).value <==> u in acc && (u in a || u in b)
  {
  }

  /**
   * The two operands of a plain OR node merged in turn from the same
   * accumulator: each narrows it to the messages satisfying that operand.
   */
  lemma OrOperands(t: Tree, st: seq<Status>, acc: Found, n: nat)
    returns (st1: seq<Status>, st2: seq<Status>, a: Found, b: Found)
    requires Valid(t) && n < |t.nodes| && t.nodes[n].key.OrGroup? && Fresh(t, st, n) && Plain(t, n)
    ensures |ChildrenOf(t, n)| == 2
    ensures var x, y := ChildrenOf(t, n)[0], ChildrenOf(t, n)[1];
      && MergeOrChild(t, st, Some(acc), x) == Pass(st1, Some(a))
      && MergeOrChild(t, st1, Some(acc), y) == Pass(st2, Some(b))
      && Beyond(t, st, st1, x) && SettledAll(t, st1, ChildrenOf(t, x))
      && Beyond(t, st1, st2, y) && SettledAll(t, st2, ChildrenOf(t, y))
    ensures forall u | u in acc :: (u in a || u in b) <==> Sat(t, st, n, u)
    ensures st2[n] == st[n] == Searched(map[])
    decreases |t.nodes| - n, 0, 0
  {
    var cs := ChildrenOf(t, n);
    ChildrenAreSiblings(t, n);
    assert InSubtree(t, n, n);
    var x, y := cs[0], cs[1];
    assert Plain(t, x) && Plain(t, y) by {
      assert AllPlain(t, cs[1..], n);
    }
    FreshChild(t, st, n, x);
    FreshChild(t, st, n, y);
    MergeOrChildMeaning(t, st, acc, x);
    var r1 := MergeOrChild(t, st, Some(acc), x);
    st1, a := r1.st, r1.acc.value;
    assert AgreeOn(t, st, st1, y) by {
      forall k | 0 <= k < |st| && InSubtree(t, y, k) ensures st1[k] == st[k] {
        SiblingsDisjoint(t, n, y, x, k);
      }
    }
    assert Fresh(t, st1, y);
    forall u ensures Sat(t, st1, y, u) == Sat(t, st, y, u) {
      SatFrame(t, st, st1, y, u);
    }
    MergeOrChildMeaning(t, st1, acc, y);
    var r2 := MergeOrChild(t, st1, Some(acc), y);
    st2, b := r2.st, r2.acc.value;
    assert !InSubtree(t, x, n) && !InSubtree(t, y, n);
  }

  /** What lies under one of two children lies under the first or the second. */
  lemma UnderPair(t: Tree, cs: seq<nat>, k: nat)
    requires |cs| == 2 && UnderAny(t, cs, k)
    ensures InSubtree(t, cs[0], k) || InSubtree(t, cs[1], k)
  {
    assert cs[1..][0] == cs[1];
    assert cs[1..][1..] == [];
    assert !UnderAny(t, cs[1..][1..], k);
  }

  /** The settledness half of `MergeOrMeaning`. */
  lemma OrSettled(t: Tree, st: seq<Status>, st1: seq<Status>, st2: seq<Status>, n: nat)
    requires Valid(t) && n < |t.nodes| && |st| == |t.nodes|
    requires |ChildrenOf(t, n)| == 2
    requires var x, y := ChildrenOf(t, n)[0], ChildrenOf(t, n)[1];
      && Beyond(t, st, st1, x) && SettledAll(t, st1, ChildrenOf(t, x))
      && Beyond(t, st1, st2, y) && SettledAll(t, st2, ChildrenOf(t, y))
    ensures var x, y := ChildrenOf(t, n)[0], ChildrenOf(t, n)[1];
      var fin := st2[y := Merged][x := Merged][n := Merged];
      Settled(t, fin, n) && Beyond(t, st, fin, n)
  {
    var cs := ChildrenOf(t, n);
    ChildrenAreSiblings(t, n);
    var x, y := cs[0], cs[1];
    var fin := st2[y := Merged][x := Merged][n := Merged];
    forall k | 0 <= k < |st| && InSubtree(t, n, k) && k != n && k != x && k != y
      ensures DoneStatus(t.nodes[k].key, fin[k])
    {
      OrSettledAt(t, st1, st2, n, k);
    }
    forall k | 0 <= k < |st| && !InSubtree(t, n, k)
      ensures fin[k] == st[k]
    {
      OrOutside(t, n, k);
    }
  }

  lemma OrSettledAt(t: Tree, st1: seq<Status>, st2: seq<Status>, n: nat, k: nat)
    requires Valid(t) && n < |t.nodes| && |st1| == |t.nodes|
    requires |ChildrenOf(t, n)| == 2
    requires var x, y := ChildrenOf(t, n)[0], ChildrenOf(t, n)[1];
      && SettledAll(t, st1, ChildrenOf(t, x))
      && Beyond(t, st1, st2, y) && SettledAll(t, st2, ChildrenOf(t, y))
    requires InSubtree(t, n, k) && k != n && k != ChildrenOf(t, n)[0] && k != ChildrenOf(t, n)[1]
    ensures DoneStatus(t.nodes[k].key, st2[k])
  {
    var cs := ChildrenOf(t, n);
    ChildrenAreSiblings(t, n);
    var x, y := cs[0], cs[1];
    UnderSomeChild(t, n, k);
    UnderPair(t, cs, k);
    if InSubtree(t, x, k) {
      UnderSomeChild(t, x, k);
      SiblingsDisjoint(t, n, x, y, k);
    } else {
      UnderSomeChild(t, y, k);
    }
  }

  /** Outside the subtree of an OR node lies outside both operands' subtrees. */
  lemma OrOutside(t: Tree, n: nat, k: nat)
    requires Valid(t) && n < |t.nodes| && |ChildrenOf(t, n)| == 2 && !InSubtree(t, n, k)
    ensures var x, y := ChildrenOf(t, n)[0], ChildrenOf(t, n)[1];
      && !InSubtree(t, x, k) && !InSubtree(t, y, k)
      && k != n && k != x && k != y
  {
    var cs := ChildrenOf(t, n);
    ChildrenAreSiblings(t, n);
    var x, y := cs[0], cs[1];
    if InSubtree(t, x, k) {
      SubtreeOfChild(t, n, x, k);
    }
    if InSubtree(t, y, k) {
      SubtreeOfChild(t, n, y, k);
    }
    assert InSubtree(t, n, x) && InSubtree(t, n, y);
  }

  /**
   * An operand of OR: an AND group narrows a copy of the accumulator to the
   * messages satisfying it; a leaf contributes its own found set.
   */
  lemma {:induction false} MergeOrChildMeaning(t: Tree, st: seq<Status>, acc: Found, x: nat)
    requires Valid(t) && x < |t.nodes| && Fresh(t, st, x) && Plain(t, x) && Operand(t.nodes[x].key)
    ensures var r := MergeOrChild(t, st, Some(acc), x);
      && r.Pass? && r.acc.Some?
      && (forall u | u in acc :: u in r.acc.value <==> Sat(t, st, x, u))
      && SettledAll(t, r.st, ChildrenOf(t, x)) && Beyond(t, st, r.st, x)
    decreases |t.nodes| - x, 3, 0
  {
    assert InSubtree(t, x, x);
    var cs := ChildrenOf(t, x);
    if t.nodes[x].key.AndGroup? {
      ChildrenAreSiblings(t, x);
      FreshChildren(t, st, x);
      var inner := Or(map[], acc);
      assert CopyInto(Some(acc), FoundOf(st[x])) == Some(inner);
      MergeChildrenMeaning(t, st, inner, cs, x);
      var r := MergeChildren(t, st, Some(inner), cs, x);
      BeyondFromChildren(t, st, r.st, x);
    }
  }

  /**
   * Merging plain sibling subtrees fresh from pass one, one after the other,
   * narrows the accumulator to the messages satisfying all of them.
   */
  lemma {:induction false} MergeChildrenMeaning(t: Tree, st: seq<Status>, acc: Found, cs: seq<nat>, p: nat)
    requires Valid(t) && Siblings(t, cs, p) && FreshAll(t, st, cs) && AllPlain(t, cs, p)
    ensures var r := MergeChildren(t, st, Some(acc), cs, p);
      && r.Pass? && r.acc.Some?
      && (forall u :: u in r.acc.value <==> u in acc && AllSat(t, st, cs, p, u))
      && SettledAll(t, r.st, cs) && BeyondAll(t, st, r.st, cs)
    decreases |t.nodes| - p, 0, |cs|
  {
    if cs != [] {
      var c, rest := cs[0], cs[1..];
      forall k | 0 <= k < |st| && InSubtree(t, c, k)
        ensures FreshStatus(t.nodes[k].key, st[k])
      {
        assert UnderAny(t, cs, k);
      }
      MergeNodeMeaning(t, st, acc, c);
      var r1 := MergeNode(t, st, Some(acc), c);
      var st1, acc1 := r1.st, r1.acc.value;
      forall k | 0 <= k < |st| && UnderAny(t, rest, k)
        ensures st1[k] == st[k]
      {
        if InSubtree(t, c, k) {
          ApartFromLater(t, rest, p, c, k);
        }
      }
      assert FreshAll(t, st1, rest);
      MergeChildrenMeaning(t, st1, acc1, rest, p);
      var r := MergeChildren(t, st1, Some(acc1), rest, p);
      forall u ensures AllSat(t, st1, rest, p, u) == AllSat(t, st, rest, p, u) {
        AllSatFrame(t, st, st1, rest, p, u);
      }
      forall k | 0 <= k < |st| && InSubtree(t, c, k)
        ensures r.st[k] == st1[k]
      {
        ApartFromLater(t, rest, p, c, k);
      }
      assert MergeChildren(t, st, Some(acc), cs, p) == r;
    }
  }

  // ---------------------------------------------------------------------
  // The pre-order traversal of pass two

  /** Traversing `a + b` traverses `a`, then `b` from where `a` left off. */
  lemma {:induction false} MergePassAppend(t: Tree, st: seq<Status>, acc: Option<Found>, a: seq<nat>, b: seq<nat>)
    requires Valid(t) && |st| == |t.nodes|
    requires forall k | 0 <= k < |a| :: a[k] < |t.nodes|
    requires forall k | 0 <= k < |b| :: b[k] < |t.nodes|
    ensures MergePass(t, st, acc, a + b) ==
      match MergePass(t, st, acc, a)
      case Fault => Fault
      case Pass(st1, acc1) => MergePass(t, st1, acc1, b)
    decreases |a|
  {
    if a == [] {
      assert a + b == b;
    } else {
      assert (a + b)[0] == a[0];
      assert (a + b)[1..] == a[1..] + b;
      match MergeNode(t, st, acc, a[0])
      case Fault =>
      case Pass(st1, acc1) => MergePassAppend(t, st1, acc1, a[1..], b);
    }
  }

  /** A settled node is passed over: nothing changes. */
  lemma {:induction false} SettledNoOp(t: Tree, st: seq<Status>, acc: Option<Found>, n: nat)
    requires Valid(t) && n < |t.nodes| && Settled(t, st, n)
    ensures MergeNode(t, st, acc, n) == Pass(st, acc)
    decreases |t.nodes| - n, 1
  {
    assert InSubtree(t, n, n);
    if t.nodes[n].key.AndGroup? && !st[n].Merged? {
      ChildrenAreSiblings(t, n);
      forall k | 0 <= k < |st| && UnderAny(t, ChildrenOf(t, n), k)
        ensures DoneStatus(t.nodes[k].key, st[k])
      {
        UnderAnyBelow(t, ChildrenOf(t, n), n, k);
      }
      SettledChildrenNoOp(t, st, acc, ChildrenOf(t, n), n);
    }
  }

  lemma {:induction false} SettledChildrenNoOp(t: Tree, st: seq<Status>, acc: Option<Found>, cs: seq<nat>, p: nat)
    requires Valid(t) && Siblings(t, cs, p) && SettledAll(t, st, cs)
    ensures MergeChildren(t, st, acc, cs, p) == Pass(st, acc)
    decreases |t.nodes| - p, 0, |cs|
  {
    if cs != [] {
      forall k | 0 <= k < |st| && InSubtree(t, cs[0], k)
        ensures DoneStatus(t.nodes[k].key, st[k])
      {
        assert UnderAny(t, cs, k);
      }
      SettledNoOp(t, st, acc, cs[0]);
      SettledChildrenNoOp(t, st, acc, cs[1..], p);
    }
  }

  /** The traversal of a settled subtree changes nothing. */
  lemma {:induction false} SettledPassNoOp(t: Tree, st: seq<Status>, acc: Option<Found>, n: nat)
    requires Valid(t) && n < |t.nodes| && Settled(t, st, n)
    ensures MergePass(t, st, acc, PreOrder(t, n)) == Pass(st, acc)
    decreases |t.nodes| - n, 1, 0
  {
    var cs := ChildrenOf(t, n);
    ChildrenAreSiblings(t, n);
    SettledNoOp(t, st, acc, n);
    forall k | 0 <= k < |st| && UnderAny(t, cs, k)
      ensures DoneStatus(t.nodes[k].key, st[k])
    {
      UnderAnyBelow(t, cs, n, k);
    }
    SettledAllPassNoOp(t, st, acc, cs, n);
    assert PreOrder(t, n)[1..] == PreOrderAll(t, cs, n);
  }

  lemma {:induction false} SettledAllPassNoOp(t: Tree, st: seq<Status>, acc: Option<Found>, cs: seq<nat>, p: nat)
    requires Valid(t) && Siblings(t, cs, p) && SettledAll(t, st, cs)
    ensures MergePass(t, st, acc, PreOrderAll(t, cs, p)) == Pass(st, acc)
    decreases |t.nodes| - p, 0, |cs|
  {
    if cs != [] {
      forall k | 0 <= k < |st| && InSubtree(t, cs[0], k)
        ensures DoneStatus(t.nodes[k].key, st[k])
      {
        assert UnderAny(t, cs, k);
      }
      SettledPassNoOp(t, st, acc, cs[0]);
      SettledAllPassNoOp(t, st, acc, cs[1..], p);
      MergePassAppend(t, st, acc, PreOrder(t, cs[0]), PreOrderAll(t, cs[1..], p));
    }
  }

  /**
   * On a plain subtree fresh from pass one, the traversal does what merging
   * the subtree's root does: the descendants it reaches afterwards are
   * already merged.
   */
  lemma PreOrderPassMeaning(t: Tree, st: seq<Status>, acc: Found, n: nat)
    requires Valid(t) && n < |t.nodes| && Fresh(t, st, n) && Plain(t, n)
    ensures MergePass(t, st, Some(acc), PreOrder(t, n)) == MergeNode(t, st, Some(acc), n)
  {
    var cs := ChildrenOf(t, n);
    ChildrenAreSiblings(t, n);
    MergeNodeMeaning(t, st, acc, n);
    var r := MergeNode(t, st, Some(acc), n);
    forall k | 0 <= k < |st| && UnderAny(t, cs, k)
      ensures DoneStatus(t.nodes[k].key, r.st[k])
    {
      UnderAnyBelow(t, cs, n, k);
    }
    SettledAllPassNoOp(t, r.st, r.acc, cs, n);
    assert PreOrder(t, n)[1..] == PreOrderAll(t, cs, n);
  }

  /** The traversal of plain sibling subtrees merges them as an AND would. */
  lemma {:induction false} PreOrderAllPassMeaning(t: Tree, st: seq<Status>, acc: Found, cs: seq<nat>, p: nat)
    requires Valid(t) && Siblings(t, cs, p) && FreshAll(t, st, cs) && AllPlain(t, cs, p)
    ensures MergePass(t, st, Some(acc), PreOrderAll(t, cs, p)) == MergeChildren(t, st, Some(acc), cs, p)
    decreases |cs|
  {
    if cs != [] {
      var c, rest := cs[0], cs[1..];
      forall k | 0 <= k < |st| && InSubtree(t, c, k)
        ensures FreshStatus(t.nodes[k].key, st[k])
      {
        assert UnderAny(t, cs, k);
      }
      MergeNodeMeaning(t, st, acc, c);
      PreOrderPassMeaning(t, st, acc, c);
      var r1 := MergeNode(t, st, Some(acc), c);
      forall k | 0 <= k < |st| && UnderAny(t, rest, k)
        ensures r1.st[k] == st[k]
      {
        if InSubtree(t, c, k) {
          ApartFromLater(t, rest, p, c, k);
        }
      }
      assert FreshAll(t, r1.st, rest);
      PreOrderAllPassMeaning(t, r1.st, r1.acc.value, rest, p);
      MergePassAppend(t, st, Some(acc), PreOrder(t, c), PreOrderAll(t, rest, p));
    }
  }

  // ---------------------------------------------------------------------
  // What `dbmail_mailbox_search` computes

  /** The node states pass one leaves when no message set is rejected. */
  function PassOneStates(env: Env, t: Tree): (st: seq<Status>)
    ensures |st| == |t.nodes|
    ensures forall k | 0 <= k < |st| :: st[k] == Settle(env, t.nodes[k].key)
  {
    seq(|t.nodes|, k requires 0 <= k < |t.nodes| => Settle(env, t.nodes[k].key))
  }

  /** Without a rejected message set, pass one leaves every node one. */
  lemma SettleIsFresh(env: Env, key: Key)
    requires !Failing(env, key)
    ensures FreshStatus(key, Settle(env, key))
  {
  }

  /** Without a rejected message set, pass one ends in `PassOneStates`. */
  lemma PassOneIsStates(env: Env, t: Tree, st: seq<Status>)
    requires Valid(t) && |t.nodes| > 0 && |st| == |t.nodes| && AllUnsearched(st)
    requires forall k | 0 <= k < |t.nodes| :: !Failing(env, t.nodes[k].key)
    ensures SearchPass(t, env, st, PreOrder(t, 0)) == (false, PassOneStates(env, t))
  {
    PassOneResult(t, env, st);
    var r := SearchPass(t, env, st, PreOrder(t, 0));
    assert !r.0;
    assert r.1 == PassOneStates(env, t);
  }

  /** Without a rejected message set, pass one leaves every node fresh. */
  lemma PassOneStatesFresh(env: Env, t: Tree)
    requires forall k | 0 <= k < |t.nodes| :: !Failing(env, t.nodes[k].key)
    ensures var one := PassOneStates(env, t);
      forall k | 0 <= k < |one| :: FreshStatus(t.nodes[k].key, one[k])
  {
    forall k | 0 <= k < |t.nodes| ensures FreshStatus(t.nodes[k].key, PassOneStates(env, t)[k]) {
      SettleIsFresh(env, t.nodes[k].key);
    }
  }

  /**
   * Pass two over the states of pass one: the root message set narrows the
   * whole mailbox, then the top-level keys are merged as an AND group's.
   */
  lemma PassTwoFromRoot(t: Tree, one: seq<Status>, acc: Found)
    requires Valid(t) && |t.nodes| > 0 && |one| == |t.nodes|
    requires forall k | 0 <= k < |one| :: FreshStatus(t.nodes[k].key, one[k])
    requires t.nodes[0].key.SetKey? && one[0].Searched? && AllPlain(t, ChildrenOf(t, 0), 0)
    ensures var cs := ChildrenOf(t, 0);
      var st1 := one[0 := Merged];
      var acc1 := And(acc, one[0].found);
      && FreshAll(t, st1, cs)
      && (forall u :: AllSat(t, st1, cs, 0, u) == AllSat(t, one, cs, 0, u))
      && MergePass(t, one, Some(acc), PreOrder(t, 0)) == MergeChildren(t, st1, Some(acc1), cs, 0)
  {
    var cs := ChildrenOf(t, 0);
    ChildrenAreSiblings(t, 0);
    assert PreOrder(t, 0) == [0] + PreOrderAll(t, cs, 0);
    var st1 := one[0 := Merged];
    var acc1 := And(acc, one[0].found);
    assert MergeNode(t, one, Some(acc), 0) == Pass(st1, Some(acc1));
    forall k | 0 <= k < |st1| && UnderAny(t, cs, k)
      ensures st1[k] == one[k]
    {
      UnderAnyBelow(t, cs, 0, k);
    }
    PreOrderAllPassMeaning(t, st1, acc1, cs, 0);
    forall u ensures AllSat(t, st1, cs, 0, u) == AllSat(t, one, cs, 0, u) {
      AllSatFrame(t, one, st1, cs, 0, u);
    }
  }

  /**
   * A search whose root is a message set and whose top-level keys are plain
   * (every OR has two operands that are neither NOT nor OR) finds exactly the
   * messages of the mailbox that lie in the root set and satisfy every
   * top-level key, each key judged by the found sets pass one computed.
   */
  lemma SearchMeaning(env: Env, t: Tree, st: seq<Status>)
    requires Valid(t) && |t.nodes| > 0 && |st| == |t.nodes| && AllUnsearched(st)
    requires forall k | 0 <= k < |t.nodes| :: !Failing(env, t.nodes[k].key)
    requires t.nodes[0].key.SetKey? && AllPlain(t, ChildrenOf(t, 0), 0)
    ensures var r := Search(env, t, st);
      var one := PassOneStates(env, t);
      && r.Done?
      && forall u :: u in r.found <==>
           u in env.ix.ids && Sat(t, one, 0, u) && AllSat(t, one, ChildrenOf(t, 0), 0, u)
  {
    var one := PassOneStates(env, t);
    var cs := ChildrenOf(t, 0);
    ChildrenAreSiblings(t, 0);
    PassOneIsStates(env, t, st);
    PassOneStatesFresh(env, t);
    PassTwoFromRoot(t, one, env.ix.ids);
    MergeChildrenMeaning(t, one[0 := Merged], And(env.ix.ids, one[0].found), cs, 0);
  }

  /** Pass one passes over a tree none of whose searchable nodes is unsearched. */
  lemma {:induction false} SearchPassIdle(t: Tree, env: Env, st: seq<Status>, order: seq<nat>)
    requires Valid(t) && |st| == |t.nodes|
    requires forall k | 0 <= k < |order| :: order[k] < |t.nodes|
    requires forall k | 0 <= k < |st| :: st[k].Unsearched? ==> t.nodes[k].key.SortKey?
    ensures SearchPass(t, env, st, order) == (false, st)
    decreases |order|
  {
    if order != [] {
      SearchPassIdle(t, env, st, order[1..]);
    }
  }

  /**
   * Searching a tree every node of which is already merged (or is a sort
   * node, or an AND group, which is never marked) finds the whole mailbox.
   */
  lemma SettledSearchIsWhole(env: Env, t: Tree, st: seq<Status>)
    requires Valid(t) && |t.nodes| > 0 && |st| == |t.nodes|
    requires forall k | 0 <= k < |st| :: DoneStatus(t.nodes[k].key, st[k])
    ensures Search(env, t, st) == Done(st, env.ix.ids)
  {
    SearchPassIdle(t, env, st, PreOrder(t, 0));
    SettledPassNoOp(t, st, Some(env.ix.ids), 0);
  }

  /**
   * Searching the same tree a second time, with the node states the first
   * search left, finds the whole mailbox: every key is already merged.
   */
  lemma SearchAgain(env: Env, t: Tree, st: seq<Status>)
    requires Valid(t) && |t.nodes| > 0 && |st| == |t.nodes| && AllUnsearched(st)
    requires forall k | 0 <= k < |t.nodes| :: !Failing(env, t.nodes[k].key)
    requires t.nodes[0].key.SetKey? && AllPlain(t, ChildrenOf(t, 0), 0)
    ensures var r := Search(env, t, st);
      r.Done? && Search(env, t, r.st) == Done(r.st, env.ix.ids)
  {
    var one := PassOneStates(env, t);
    var cs := ChildrenOf(t, 0);
    ChildrenAreSiblings(t, 0);
    PassOneIsStates(env, t, st);
    PassOneStatesFresh(env, t);
    PassTwoFromRoot(t, one, env.ix.ids);
    var st1 := one[0 := Merged];
    var acc1 := And(env.ix.ids, one[0].found);
    MergeChildrenMeaning(t, st1, acc1, cs, 0);
    var st2 := MergeChildren(t, st1, Some(acc1), cs, 0).st;
    assert !UnderAny(t, cs, 0) by {
      if UnderAny(t, cs, 0) {
        UnderAnyBelow(t, cs, 0, 0);
      }
    }
    forall k | 0 <= k < |st2|
      ensures DoneStatus(t.nodes[k].key, st2[k])
    {
      if k != 0 {
        UnderRoot(t, k);
        UnderSomeChild(t, 0, k);
      }
    }
    SettledSearchIsWhole(env, t, st2);
  }

  // ---------------------------------------------------------------------
  // How an OR treats operands that are themselves NOT or OR

  /**
   * An OR whose first two operands are not AND groups takes each operand's
   * found set as it stands, unites them into its own and intersects the
   * union into the accumulator; the OR and both operands are marked merged.
   */
  lemma OrOperandsAsTheyStand(t: Tree, st: seq<Status>, acc: Found, n: nat)
    requires Valid(t) && |st| == |t.nodes| && n < |t.nodes|
    requires t.nodes[n].key.OrGroup? && st[n].Searched? && |ChildrenOf(t, n)| >= 2
    requires var x, y := ChildrenOf(t, n)[0], ChildrenOf(t, n)[1];
      && !t.nodes[x].key.AndGroup? && st[x].Searched?
      && !t.nodes[y].key.AndGroup? && st[y].Searched?
    ensures var x, y := ChildrenOf(t, n)[0], ChildrenOf(t, n)[1];
      var r := MergeNode(t, st, Some(acc), n);
      && r.Pass? && r.acc.Some?
      && (forall u :: u in r.acc.value <==>
            u in acc && (u in st[n].found || u in st[x].found || u in st[y].found))
      && r.st == st[y := Merged][x := Merged][n := Merged]
  {
    var cs := ChildrenOf(t, n);
    var x, y := cs[0], cs[1];
    assert MergeOrChild(t, st, Some(acc), x) == Pass(st, Some(st[x].found));
    assert MergeOrChild(t, st, Some(acc), y) == Pass(st, Some(st[y].found));
  }

  /**
   * An OR one of whose two operands, first or second, is itself an OR or a
   * NOT group takes that operand's own found set, which pass one left
   * empty, so the OR narrows the accumulator to its other operand alone,
   * whatever the nested group says. The nested group is marked merged but
   * its children are not: the traversal reaches them next and intersects
   * each of them into the accumulator.
   */
  lemma OrWithGroupOperand(t: Tree, st: seq<Status>, acc: Found, n: nat, i: nat)
    requires Valid(t) && |st| == |t.nodes| && n < |t.nodes|
    requires t.nodes[n].key.OrGroup? && st[n] == Searched(map[]) && |ChildrenOf(t, n)| >= 2 && i < 2
    requires var g, o := ChildrenOf(t, n)[i], ChildrenOf(t, n)[1 - i];
      && (t.nodes[g].key.OrGroup? || t.nodes[g].key.NotGroup?) && st[g] == Searched(map[])
      && !t.nodes[o].key.AndGroup? && st[o].Searched?
    ensures var x, y, o := ChildrenOf(t, n)[0], ChildrenOf(t, n)[1], ChildrenOf(t, n)[1 - i];
      var r := MergeNode(t, st, Some(acc), n);
      && r.Pass? && r.acc.Some?
      && (forall u :: u in r.acc.value <==> u in acc && u in st[o].found)
      && r.st == st[y := Merged][x := Merged][n := Merged]
  {
    OrOperandsAsTheyStand(t, st, acc, n);
  }

  /**
   * The tree `dbmail_mailbox_build_imap_search` builds for
   * `SEARCH <set> OR a OR b c`: the message set at the root, an OR under
   * it holding the leaf `a` and a second OR, which holds the leaves `b`
   * and `c`.
   */
  predicate NestedOrShape(t: Tree) {
    && Valid(t) && |t.nodes| == 6
    && t.nodes[1].parent == Some(0) && t.nodes[2].parent == Some(1) && t.nodes[3].parent == Some(1)
    && t.nodes[4].parent == Some(3) && t.nodes[5].parent == Some(3)
    && t.nodes[0].key.SetKey? && t.nodes[1].key.OrGroup? && t.nodes[3].key.OrGroup?
    && (forall k | k in {2, 4, 5} :: !t.nodes[k].key.IsGroup() && !t.nodes[k].key.SortKey?)
  }

  /**
   * `SEARCH <set> OR a OR b c` finds the messages that satisfy `a`, `b` and
   * `c` together, not those satisfying `a` or `b` or `c`: the inner OR
   * contributes its empty set to the outer one, and the traversal then
   * intersects `b` and `c` in on their own.
   */
  lemma NestedOrIsConjunction(env: Env, t: Tree, st: seq<Status>)
    requires NestedOrShape(t) && |st| == 6 && AllUnsearched(st)
    requires forall k | 0 <= k < 6 :: !Failing(env, t.nodes[k].key)
    ensures var r := Search(env, t, st);
      var one := PassOneStates(env, t);
      && r.Done?
      && (forall u :: u in r.found <==>
            u in env.ix.ids && Sat(t, one, 0, u) && Sat(t, one, 2, u) && Sat(t, one, 4, u) && Sat(t, one, 5, u))
  {
    var one := PassOneStates(env, t);
    NestedOrOrder(t);
    PassOneIsStates(env, t, st);
    PassOneStatesFresh(env, t);
    assert FreshStatus(t.nodes[1].key, one[1]) && FreshStatus(t.nodes[3].key, one[3]);
    assert forall k | k in {0, 2, 4, 5} :: FreshStatus(t.nodes[k].key, one[k]);
    NestedOrPassTwo(t, one, env.ix.ids);
    forall u, k | k in {0, 2, 4, 5} ensures Sat(t, one, k, u) <==> u in one[k].found {
    }
  }

  /** Pass two over the nested OR tree: the root set and the three leaves are intersected in. */
  lemma NestedOrPassTwo(t: Tree, one: seq<Status>, all: Found)
    requires NestedOrShape(t) && |one| == 6
    requires one[1] == Searched(map[]) && one[3] == Searched(map[])
    requires one[0].Searched? && one[2].Searched? && one[4].Searched? && one[5].Searched?
    ensures var r := MergePass(t, one, Some(all), [0, 1, 2, 3, 4, 5]);
      && r.Pass? && r.acc.Some?
      && (forall u :: u in r.acc.value <==>
            u in all && u in one[0].found && u in one[2].found && u in one[4].found && u in one[5].found)
  {
    var st2 := one[0 := Merged][3 := Merged][2 := Merged][1 := Merged];
    var acc := NestedOrHead(t, one, all);
    NestedOrTail(t, st2, acc);
  }

  /** The root set and then the outer OR, which takes only the leaf `a`. */
  lemma NestedOrHead(t: Tree, one: seq<Status>, all: Found) returns (acc: Found)
    requires NestedOrShape(t) && |one| == 6
    requires one[1] == Searched(map[]) && one[3] == Searched(map[])
    requires one[0].Searched? && one[2].Searched?
    ensures forall u :: u in acc <==> u in all && u in one[0].found && u in one[2].found
    ensures MergePass(t, one, Some(all), [0, 1, 2, 3, 4, 5])
      == MergePass(t, one[0 := Merged][3 := Merged][2 := Merged][1 := Merged], Some(acc), [2, 3, 4, 5])
  {
    NestedOrChildren(t);
    var acc0 := And(all, one[0].found);
    var st1 := one[0 := Merged];
    assert MergeNode(t, one, Some(all), 0) == Pass(st1, Some(acc0));
    OrWithGroupOperand(t, st1, acc0, 1, 1);
    var r1 := MergeNode(t, st1, Some(acc0), 1);
    acc := r1.acc.value;
    assert [0, 1, 2, 3, 4, 5][1..] == [1, 2, 3, 4, 5] && [1, 2, 3, 4, 5][1..] == [2, 3, 4, 5];
  }

  /** After the outer OR, the merged nodes are skipped and the two inner leaves intersected in. */
  lemma NestedOrTail(t: Tree, st: seq<Status>, acc: Found)
    requires Valid(t) && |t.nodes| == |st| == 6
    requires st[2].Merged? && st[3].Merged? && st[4].Searched? && st[5].Searched?
    requires forall k | k in {4, 5} :: !t.nodes[k].key.IsGroup() && !t.nodes[k].key.SortKey?
    ensures var r := MergePass(t, st, Some(acc), [2, 3, 4, 5]);
      && r.Pass? && r.acc.Some?
      && (forall u :: u in r.acc.value <==> u in acc && u in st[4].found && u in st[5].found)
  {
    assert [2, 3, 4, 5][1..] == [3, 4, 5] && [3, 4, 5][1..] == [4, 5];
    assert [4, 5][1..] == [5] && [5][1..] == [];
    var st4 := st[4 := Merged];
    var acc4 := And(acc, st[4].found);
    assert MergeNode(t, st, Some(acc), 4) == Pass(st4, Some(acc4));
    assert MergeNode(t, st4, Some(acc4), 5) == Pass(st4[5 := Merged], Some(And(acc4, st[5].found)));
  }

  /** The pre-order traversal of the nested OR tree visits its nodes in index order. */
  lemma NestedOrOrder(t: Tree)
    requires NestedOrShape(t)
    ensures PreOrder(t, 0) == [0, 1, 2, 3, 4, 5]
  {
    NestedOrChildren(t);
    ShapeOrder(t);
  }

  lemma ShapeOrder(t: Tree)
    requires Valid(t) && |t.nodes| == 6
    requires Children(t, 0) == [1] && Children(t, 1) == [2, 3] && Children(t, 3) == [4, 5]
    requires Children(t, 2) == [] && Children(t, 4) == [] && Children(t, 5) == []
    ensures PreOrder(t, 0) == [0, 1, 2, 3, 4, 5]
  {
    LeafOrder(t, 2);
    LeafOrder(t, 4);
    LeafOrder(t, 5);
    PairOrder(t, 3, 4, 5);
    PairOrder(t, 1, 2, 3);
    SingleOrder(t, 0, 1);
  }

  /** Who the children are in the nested OR tree. */
  lemma NestedOrChildren(t: Tree)
    requires NestedOrShape(t)
    ensures Children(t, 0) == [1] && Children(t, 1) == [2, 3] && Children(t, 3) == [4, 5]
    ensures Children(t, 2) == [] && Children(t, 4) == [] && Children(t, 5) == []
  {
    NestedOrParents(t);
    NestedOrGroups(t);
    NestedOrLeaves(t);
  }

  lemma NestedOrGroups(t: Tree)
    requires |t.nodes| == 6
    requires forall i | 0 <= i < |t.nodes| :: t.nodes[i].parent == [None, Some(0), Some(1), Some(1), Some(3), Some(3)][i]
    ensures Children(t, 0) == [1] && Children(t, 1) == [2, 3] && Children(t, 3) == [4, 5]
  {
    ChildrenExactly(t, 0, [1]);
    ChildrenExactly(t, 1, [2, 3]);
    ChildrenExactly(t, 3, [4, 5]);
  }

  lemma NestedOrLeaves(t: Tree)
    requires |t.nodes| == 6
    requires forall i | 0 <= i < |t.nodes| :: t.nodes[i].parent == [None, Some(0), Some(1), Some(1), Some(3), Some(3)][i]
    ensures Children(t, 2) == [] && Children(t, 4) == [] && Children(t, 5) == []
  {
    ChildrenExactly(t, 2, []);
    ChildrenExactly(t, 4, []);
    ChildrenExactly(t, 5, []);
  }

  lemma NestedOrParents(t: Tree)
    requires NestedOrShape(t)
    ensures forall i | 0 <= i < |t.nodes| :: t.nodes[i].parent == [None, Some(0), Some(1), Some(1), Some(3), Some(3)][i]
  {
  }

  lemma LeafOrder(t: Tree, n: nat)
    requires Valid(t) && n < |t.nodes| && Children(t, n) == []
    ensures PreOrder(t, n) == [n]
  {
    assert PreOrderAll(t, [], n) == [];
  }

  lemma PairOrder(t: Tree, n: nat, a: nat, b: nat)
    requires Valid(t) && n < a < |t.nodes| && n < b < |t.nodes| && Children(t, n) == [a, b]
    ensures PreOrder(t, n) == [n] + PreOrder(t, a) + PreOrder(t, b)
  {
    assert [a, b][1..] == [b] && [b][1..] == [];
    assert PreOrderAll(t, [b], n) == PreOrder(t, b) + PreOrderAll(t, [], n);
    assert PreOrderAll(t, [a, b], n) == PreOrder(t, a) + PreOrderAll(t, [b], n);
  }

  lemma SingleOrder(t: Tree, n: nat, a: nat)
    requires Valid(t) && n < a < |t.nodes| && Children(t, n) == [a]
    ensures PreOrder(t, n) == [n] + PreOrder(t, a)
  {
    assert [a][1..] == [];
    assert PreOrderAll(t, [a], n) == PreOrder(t, a) + PreOrderAll(t, [], n);
  }

  /** The children of `p` are the ascending nodes whose parent is `p`. */
  lemma ChildrenExactly(t: Tree, p: nat, xs: seq<nat>)
    requires StrictlyIncreasing(xs)
    requires forall i | 0 <= i < |xs| :: xs[i] < |t.nodes|
    requires forall i | 0 <= i < |t.nodes| :: t.nodes[i].parent == Some(p) <==> i in xs
    ensures Children(t, p) == xs
  {
    var cs := Children(t, p);
    assert Elements(cs) == Elements(xs);
    IncreasingUnique(cs, xs);
  }

  /** An OR left with fewer than two operands dereferences a missing child. */
  lemma OrNeedsTwoOperands(t: Tree, st: seq<Status>, acc: Option<Found>, n: nat)
    requires Valid(t) && |st| == |t.nodes| && n < |t.nodes|
    requires t.nodes[n].key.OrGroup? && !st[n].Merged? && |ChildrenOf(t, n)| < 2
    ensures MergeNode(t, st, acc, n).Fault?
  {
  }
}
