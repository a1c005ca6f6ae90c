/**
 * The parsed search: a tree of search keys (`self->search`, a GLib n-ary
 * tree) held here as an arena of nodes that point at their parent by index,
 * together with the "current node" cursor the parser appends under.
 * Children are appended last, so a node's children in index order are its
 * children in GLib order.
 */
module SearchTree {
  import opened Options

  /** How a date key compares (`before`, `on`, `since`). */
  datatype DateRel = Before | On | Since

  /** One column test of a flag key, such as `seen_flag=0`. */
  datatype FlagTest = FlagTest(column: string, value: nat)

  /**
   * A search needle: taken as written (`header`), or passed through the
   * charset conversion with the charset declared so far, if any.
   */
  datatype Needle = Raw(text: string) | Transcoded(text: string, charset: Option<string>)

  /** The payload of a node (`search_key_t`), by key type. */
  datatype Key =
    | SetKey(range: string, uid: bool)                  // IST_SET, IST_UIDSET
    | FlagKey(tests: seq<FlagTest>)                      // IST_FLAG: a conjunction of column tests
    | HeaderKey(field: string, needle: Needle)           // IST_HDR
    | HeaderDateKey(rel: DateRel, date: Needle)          // IST_HDRDATE_*, on the date header
    | InternalDateKey(rel: DateRel, day: string)      // IST_IDATE
    | BodyKey(needle: Needle)                            // IST_DATA_BODY
    | TextKey(needle: Needle)                            // IST_DATA_TEXT
    | SizeKey(larger: bool, size: nat)                   // IST_SIZE_LARGER, IST_SIZE_SMALLER
    | SortKey(order: string, joins: seq<string>)         // IST_SORT
    | AndGroup                                           // IST_SUBSEARCH_AND
    | OrGroup                                            // IST_SUBSEARCH_OR
    | NotGroup                                           // IST_SUBSEARCH_NOT
  {
    predicate IsGroup() {
      AndGroup? || OrGroup? || NotGroup?
    }
  }

  datatype Node = Node(key: Key, parent: Option<nat>)

  /** The nodes, and the current node (`None` while the tree is empty). */
  datatype Tree = Tree(nodes: seq<Node>, cur: Option<nat>)

  /**
   * Node 0 is the root; every other node's parent comes before it; the
   * current node exists exactly when the tree is non-empty.
   */
  predicate Valid(t: Tree) {
    && (t.cur.None? <==> t.nodes == [])
    && (t.cur.Some? ==> t.cur.value < |t.nodes|)
    && (|t.nodes| > 0 ==> t.nodes[0].parent.None?)
    && (forall i | 0 < i < |t.nodes| :: t.nodes[i].parent.Some? && t.nodes[i].parent.value < i)
  }

  function EmptyTree(): (t: Tree)
    ensures Valid(t)
  {
    Tree([], None)
  }

  /** The children of `p` among the first `n` nodes, in order. */
  function ChildrenBelow(nodes: seq<Node>, p: nat, n: nat): (cs: seq<nat>)
    requires n <= |nodes|
    ensures forall k | 0 <= k < |cs| :: cs[k] < n && nodes[cs[k]].parent == Some(p)
    ensures forall i | 0 <= i < n && nodes[i].parent == Some(p) :: i in cs
    ensures forall k, l | 0 <= k < l < |cs| :: cs[k] < cs[l]
  {
    if n == 0 then []
    else
      var prev := ChildrenBelow(nodes, p, n - 1);
      if nodes[n - 1].parent == Some(p) then prev + [n - 1] else prev
  }

  /** The children of node `p`, in the order they were appended. */
  function Children(t: Tree, p: nat): (cs: seq<nat>)
    ensures forall k | 0 <= k < |cs| :: cs[k] < |t.nodes| && t.nodes[cs[k]].parent == Some(p)
    ensures forall i | 0 <= i < |t.nodes| && t.nodes[i].parent == Some(p) :: i in cs
    ensures forall k, l | 0 <= k < l < |cs| :: cs[k] < cs[l]
  {
    ChildrenBelow(t.nodes, p, |t.nodes|)
  }

  /** In a valid tree a node's children come after it. */
  lemma ChildrenAfter(t: Tree, p: nat)
    requires Valid(t)
    ensures forall c | c in Children(t, p) :: p < c < |t.nodes|
  {
  }

  /**
   * `append_search`: the first node becomes the root and the current node;
   * later nodes become the last child of the current node, which moves to
   * the new node when `descend` is set.
   */
  function AppendSearch(t: Tree, key: Key, descend: bool): (r: Tree)
    requires Valid(t)
    ensures Valid(r)
    ensures |r.nodes| == |t.nodes| + 1 && r.nodes[..|t.nodes|] == t.nodes
    ensures r.nodes[|t.nodes|].key == key
    ensures t.cur.None? ==> r.nodes == [Node(key, None)] && r.cur == Some(0)
    ensures t.cur.Some? ==>
      && r.nodes[|t.nodes|].parent == t.cur
      && r.cur == (if descend then Some(|t.nodes|) else t.cur)
  {
    match t.cur
    case None => Tree([Node(key, None)], Some(0))
    case Some(c) =>
      var r := Tree(t.nodes + [Node(key, Some(c))], if descend then Some(|t.nodes|) else t.cur);
      assert r.nodes[..|t.nodes|] == t.nodes;
      r
  }

  /** The appended node becomes the last child of the current node; no other children change. */
  lemma AppendSearchChildren(t: Tree, key: Key, descend: bool)
    requires Valid(t) && t.cur.Some?
    ensures Children(AppendSearch(t, key, descend), t.cur.value) == Children(t, t.cur.value) + [|t.nodes|]
    ensures forall q | q != t.cur.value :: Children(AppendSearch(t, key, descend), q) == Children(t, q)
  {
    var r := AppendSearch(t, key, descend);
    AppendedChildren(t.nodes, r.nodes, t.cur.value);
  }

  lemma AppendedChildren(old_nodes: seq<Node>, nodes: seq<Node>, p: nat)
    requires |nodes| == |old_nodes| + 1 && nodes[..|old_nodes|] == old_nodes
    ensures forall q :: ChildrenBelow(nodes, q, |old_nodes|) == ChildrenBelow(old_nodes, q, |old_nodes|)
  {
    forall q ensures ChildrenBelow(nodes, q, |old_nodes|) == ChildrenBelow(old_nodes, q, |old_nodes|) {
      PrefixChildren(old_nodes, nodes, q, |old_nodes|);
    }
  }

  lemma {:induction false} PrefixChildren(a: seq<Node>, b: seq<Node>, q: nat, n: nat)
    requires n <= |a| && n <= |b|
    requires a[..n] == b[..n]
    ensures ChildrenBelow(a, q, n) == ChildrenBelow(b, q, n)
  {
    if n > 0 {
      assert a[..n - 1] == b[..n - 1] by {
        assert a[..n - 1] == a[..n][..n - 1];
        assert b[..n - 1] == b[..n][..n - 1];
      }
      assert a[n - 1] == a[..n][n - 1];
      assert b[n - 1] == b[..n][n - 1];
      PrefixChildren(a, b, q, n - 1);
    }
  }

  /** `pop_search`: move the current node to its parent, if it has one. */
  function PopSearch(t: Tree): (r: Tree)
    requires Valid(t)
    ensures Valid(r) && r.nodes == t.nodes
    ensures t.cur.Some? && t.nodes[t.cur.value].parent.Some? ==> r.cur == t.nodes[t.cur.value].parent
    ensures t.cur.None? || t.nodes[t.cur.value].parent.None? ==> r == t
  {
    match t.cur
    case Some(c) =>
      if t.nodes[c].parent.Some? then Tree(t.nodes, t.nodes[c].parent) else t
    case None => t
  }

  /** Descending into a new node and popping back returns to where the parser was. */
  lemma PopAfterDescend(t: Tree, key: Key)
    requires Valid(t)
    ensures PopSearch(AppendSearch(t, key, true)).cur == (if t.cur.None? then Some(0) else t.cur)
    ensures PopSearch(AppendSearch(t, key, true)).nodes == AppendSearch(t, key, false).nodes
  {
  }

  /** Appending never moves an existing node or changes its key or parent. */
  predicate Extends(t: Tree, u: Tree) {
    |t.nodes| <= |u.nodes| && u.nodes[..|t.nodes|] == t.nodes
  }

  lemma ExtendsTransitive(t: Tree, u: Tree, v: Tree)
    requires Extends(t, u) && Extends(u, v)
    ensures Extends(t, v)
  {
    assert v.nodes[..|t.nodes|] == v.nodes[..|u.nodes|][..|t.nodes|];
  }

  // ---------------------------------------------------------------------
  // Subtrees

  /** `k` is `n` or one of its descendants, found by walking up from `k`. */
  predicate InSubtree(t: Tree, n: nat, k: nat)
    decreases k
  {
    || k == n
    || (&& n < k < |t.nodes|
        && t.nodes[k].parent.Some? && t.nodes[k].parent.value < k
        && InSubtree(t, n, t.nodes[k].parent.value))
  }

  /** A child's subtree lies inside its parent's. */
  lemma {:induction false} SubtreeOfChild(t: Tree, n: nat, c: nat, k: nat)
    requires n < c < |t.nodes| && t.nodes[c].parent == Some(n)
    requires InSubtree(t, c, k)
    ensures InSubtree(t, n, k)
    decreases k
  {
    if k != c {
      SubtreeOfChild(t, n, c, t.nodes[k].parent.value);
    }
  }

  /** Two subtrees that share a node are nested. */
  lemma {:induction false} SubtreesNest(t: Tree, a: nat, b: nat, k: nat)
    requires InSubtree(t, a, k) && InSubtree(t, b, k)
    ensures InSubtree(t, a, b) || InSubtree(t, b, a)
    decreases k
  {
    if k != a && k != b {
      SubtreesNest(t, a, b, t.nodes[k].parent.value);
    }
  }

  /** The subtrees of two different children of one node share no node. */
  lemma SiblingsDisjoint(t: Tree, p: nat, c: nat, d: nat, k: nat)
    requires p < c < |t.nodes| && p < d < |t.nodes| && c != d
    requires t.nodes[c].parent == Some(p) && t.nodes[d].parent == Some(p)
    requires InSubtree(t, c, k)
    ensures !InSubtree(t, d, k)
  {
    if InSubtree(t, d, k) {
      SubtreesNest(t, c, d, k);
      assert false;
    }
  }

  /** Below `n`, the path up from `k` passes through a child of `n`. */
  lemma {:induction false} ChildOnPath(t: Tree, n: nat, k: nat) returns (c: nat)
    requires Valid(t) && InSubtree(t, n, k) && k != n
    ensures c in Children(t, n) && InSubtree(t, c, k)
    decreases k
  {
    var q := t.nodes[k].parent.value;
    if q == n {
      c := k;
    } else {
      c := ChildOnPath(t, n, q);
      assert InSubtree(t, c, k);
    }
  }

  /** Every node lies below the root. */
  lemma {:induction false} UnderRoot(t: Tree, k: nat)
    requires Valid(t) && k < |t.nodes|
    ensures InSubtree(t, 0, k)
    decreases k
  {
    if k != 0 {
      UnderRoot(t, t.nodes[k].parent.value);
    }
  }

  // ---------------------------------------------------------------------
  // Pre-order traversal (`g_node_traverse(root, G_PRE_ORDER, ...)`)

  /** Node `n`, then the subtrees of its children in order. */
  function PreOrder(t: Tree, n: nat): (r: seq<nat>)
    requires Valid(t) && n < |t.nodes|
    ensures |r| > 0 && r[0] == n
    ensures forall k | 0 <= k < |r| :: n <= r[k] < |t.nodes|
    decreases |t.nodes| - n, 1, 0
  {
    var cs := Children(t, n);
    ChildrenAfter(t, n);
    [n] + PreOrderAll(t, cs, n)
  }

  /** The subtrees of the nodes `cs`, all children of `p`, in order. */
  function PreOrderAll(t: Tree, cs: seq<nat>, p: nat): (r: seq<nat>)
    requires Valid(t)
    requires forall k | 0 <= k < |cs| :: p < cs[k] < |t.nodes|
    ensures forall k | 0 <= k < |r| :: p < r[k] < |t.nodes|
    decreases |t.nodes| - p, 0, |cs|
  {
    if cs == [] then []
    else PreOrder(t, cs[0]) + PreOrderAll(t, cs[1..], p)
  }

  /** The subtree of each node in `cs` is part of their joint traversal. */
  lemma {:induction false} PreOrderAllHas(t: Tree, cs: seq<nat>, p: nat, i: nat, x: nat)
    requires Valid(t)
    requires forall k | 0 <= k < |cs| :: p < cs[k] < |t.nodes|
    requires i < |cs| && x in PreOrder(t, cs[i])
    ensures x in PreOrderAll(t, cs, p)
    decreases |cs|
  {
    if i > 0 {
      PreOrderAllHas(t, cs[1..], p, i - 1, x);
    }
  }

  /** A pre-order traversal visits every node of the subtree. */
  lemma {:induction false} PreOrderCovers(t: Tree, n: nat, k: nat)
    requires Valid(t) && n < |t.nodes| && InSubtree(t, n, k)
    ensures k in PreOrder(t, n)
    decreases |t.nodes| - n
  {
    if k != n {
      var c := ChildOnPath(t, n, k);
      var cs := Children(t, n);
      ChildrenAfter(t, n);
      var i :| 0 <= i < |cs| && cs[i] == c;
      PreOrderCovers(t, c, k);
      PreOrderAllHas(t, cs, n, i, k);
    }
  }

  /** `cs` are children of `p`, in increasing order. */
  predicate Siblings(t: Tree, cs: seq<nat>, p: nat) {
    && (forall i | 0 <= i < |cs| :: p < cs[i] < |t.nodes| && t.nodes[cs[i]].parent == Some(p))
    && (forall i, j | 0 <= i < j < |cs| :: cs[i] < cs[j])
  }

  /** `k` lies in the subtree of some node of `cs`. */
  predicate UnderAny(t: Tree, cs: seq<nat>, k: nat)
    decreases |cs|
  {
    cs != [] && (InSubtree(t, cs[0], k) || UnderAny(t, cs[1..], k))
  }

  /** What lies under children of `p` lies strictly under `p`. */
  lemma {:induction false} UnderAnyBelow(t: Tree, cs: seq<nat>, p: nat, k: nat)
    requires Siblings(t, cs, p) && UnderAny(t, cs, k)
    ensures InSubtree(t, p, k) && k != p
    decreases |cs|
  {
    if InSubtree(t, cs[0], k) {
      SubtreeOfChild(t, p, cs[0], k);
    } else {
      UnderAnyBelow(t, cs[1..], p, k);
    }
  }

  lemma {:induction false} UnderAnyMember(t: Tree, cs: seq<nat>, i: nat, k: nat)
    requires i < |cs| && InSubtree(t, cs[i], k)
    ensures UnderAny(t, cs, k)
    decreases i
  {
    if i > 0 {
      UnderAnyMember(t, cs[1..], i - 1, k);
    }
  }

  /** The first sibling's subtree is apart from the later siblings' subtrees. */
  lemma {:induction false} ApartFromLater(t: Tree, cs: seq<nat>, p: nat, c: nat, k: nat)
    requires Siblings(t, cs, p) && p < c < |t.nodes| && t.nodes[c].parent == Some(p)
    requires forall i | 0 <= i < |cs| :: c < cs[i]
    requires InSubtree(t, c, k)
    ensures !UnderAny(t, cs, k)
    decreases |cs|
  {
    if cs != [] {
      SiblingsDisjoint(t, p, c, cs[0], k);
      ApartFromLater(t, cs[1..], p, c, k);
    }
  }

  /** No node appears twice. */
  predicate Distinct(s: seq<nat>) {
    forall i, j | 0 <= i < j < |s| :: s[i] != s[j]
  }

  /**
   * A pre-order traversal visits exactly the nodes of the subtree, each
   * once, which is what `g_node_traverse` promises its callback.
   */
  lemma PreOrderExactlyOnce(t: Tree, n: nat)
    requires Valid(t) && n < |t.nodes|
    ensures forall k :: k in PreOrder(t, n) <==> InSubtree(t, n, k)
    ensures Distinct(PreOrder(t, n))
  {
    PreOrderWithin(t, n);
    forall k | InSubtree(t, n, k) ensures k in PreOrder(t, n) {
      PreOrderCovers(t, n, k);
    }
  }

  /** Every node a pre-order traversal visits is in the subtree, and none twice. */
  lemma {:induction false} PreOrderWithin(t: Tree, n: nat)
    requires Valid(t) && n < |t.nodes|
    ensures forall k | 0 <= k < |PreOrder(t, n)| :: InSubtree(t, n, PreOrder(t, n)[k])
    ensures Distinct(PreOrder(t, n))
    decreases |t.nodes| - n, 1
  {
    var cs := Children(t, n);
    ChildrenAfter(t, n);
    var rest := PreOrderAll(t, cs, n);
    PreOrderAllWithin(t, cs, n);
    assert PreOrder(t, n) == [n] + rest;
    forall k | 0 <= k < |rest| ensures InSubtree(t, n, rest[k]) && rest[k] != n {
      UnderAnyBelow(t, cs, n, rest[k]);
    }
  }

  /**
   * The joint traversal of siblings visits only nodes of their subtrees, and
   * none twice, since sibling subtrees are disjoint.
   */
  lemma {:induction false} PreOrderAllWithin(t: Tree, cs: seq<nat>, p: nat)
    requires Valid(t) && Siblings(t, cs, p)
    ensures forall k | 0 <= k < |PreOrderAll(t, cs, p)| :: UnderAny(t, cs, PreOrderAll(t, cs, p)[k])
    ensures Distinct(PreOrderAll(t, cs, p))
    decreases |t.nodes| - p, 0, |cs|
  {
    if cs == [] {
      assert PreOrderAll(t, cs, p) == [];
    } else {
      var head := PreOrder(t, cs[0]);
      var tail := PreOrderAll(t, cs[1..], p);
      PreOrderWithin(t, cs[0]);
      PreOrderAllWithin(t, cs[1..], p);
      assert PreOrderAll(t, cs, p) == head + tail;
      forall i, j | 0 <= i < |head| && 0 <= j < |tail| ensures head[i] != tail[j] {
        ApartFromLater(t, cs[1..], p, cs[0], head[i]);
      }
    }
  }
}
