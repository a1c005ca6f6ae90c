/**
 * Search results (`found` trees): maps from UID to MSN, combined in place by
 * `g_tree_merge`. The body of `g_tree_merge` is not part of this model; it is
 * given the semantics its call sites rely on: intersection for AND, union
 * for OR and difference for NOT, with entries inserted from the second tree
 * replacing those of the first.
 */
module FoundSet {
  import opened UidIndex

  /** A result set, keyed by UID with the MSN as value. */
  type Found = map<Uid, Msn>

  /** Every entry of `f` is an entry of `g`. */
  predicate Within(f: Found, g: Found) {
    forall u | u in f :: u in g && f[u] == g[u]
  }

  /** `g_tree_merge(a, b, IST_SUBSEARCH_AND)`. */
  function And(a: Found, b: Found): (r: Found)
    ensures r.Keys == a.Keys * b.Keys
    ensures Within(r, a)
  {
    map u | u in a.Keys * b.Keys :: a[u]
  }

  /** `g_tree_merge(a, b, IST_SUBSEARCH_OR)`. */
  function Or(a: Found, b: Found): (r: Found)
    ensures r.Keys == a.Keys + b.Keys
    ensures Within(b, r)
    ensures forall u | u in a && u !in b :: r[u] == a[u]
  {
    a + b
  }

  /** `g_tree_merge(a, b, IST_SUBSEARCH_NOT)`. */
  function Diff(a: Found, b: Found): (r: Found)
    ensures r.Keys == a.Keys - b.Keys
    ensures Within(r, a)
  {
    a - b.Keys
  }

  lemma WithinTransitive(f: Found, g: Found, h: Found)
    requires Within(f, g) && Within(g, h)
    ensures Within(f, h)
  {
  }

  /**
   * The three merges keep results drawn from one index inside it: an MSN
   * attached to a UID is always that UID's MSN in the index.
   */
  lemma MergesStayWithin(a: Found, b: Found, ix: Found)
    requires Within(a, ix) && Within(b, ix)
    ensures Within(And(a, b), ix)
    ensures Within(Or(a, b), ix)
    ensures Within(Diff(a, b), ix)
  {
  }
}
