/**
 * The subject tree of `dbmail_mailbox_orderedsubject`: a GLib balanced tree
 * keyed by subject under `strcmp`, each subject holding the list of ids of
 * its thread. It is held here as the entries in key order, which is the
 * order `g_tree_foreach` visits them in.
 */
module SubjectTree {
  import opened Options

  // ---------------------------------------------------------------------
  // `strcmp` order

  /** `strcmp(a, b) < 0`: `a` is a proper prefix of `b` or smaller at the first difference. */
  predicate Below(a: string, b: string)
    decreases |a|
  {
    && |b| > 0
    && (|a| == 0 || a[0] < b[0] || (a[0] == b[0] && Below(a[1..], b[1..])))
  }

  lemma {:induction false} BelowIrreflexive(a: string)
    ensures !Below(a, a)
    decreases |a|
  {
    if |a| > 0 {
      BelowIrreflexive(a[1..]);
    }
  }

  lemma {:induction false} BelowTransitive(a: string, b: string, c: string)
    requires Below(a, b) && Below(b, c)
    ensures Below(a, c)
    decreases |a|
  {
    if |a| > 0 && a[0] == b[0] == c[0] {
      BelowTransitive(a[1..], b[1..], c[1..]);
    }
  }

  lemma {:induction false} BelowTotal(a: string, b: string)
    requires a != b
    ensures Below(a, b) || Below(b, a)
    decreases |a|
  {
    if |a| > 0 && |b| > 0 && a[0] == b[0] {
      assert a == [a[0]] + a[1..] && b == [b[0]] + b[1..];
      BelowTotal(a[1..], b[1..]);
    }
  }

  // ---------------------------------------------------------------------
  // Entries in key order

  datatype Entry = Entry(subject: string, ids: seq<nat>)

  /** Subjects strictly increase, so no subject appears twice. */
  predicate Ordered(es: seq<Entry>) {
    forall i, j | 0 <= i < j < |es| :: Below(es[i].subject, es[j].subject)
  }

  function Subjects(es: seq<Entry>): set<string> {
    set i | 0 <= i < |es| :: es[i].subject
  }

  lemma SubjectsCons(e: Entry, es: seq<Entry>)
    ensures Subjects([e] + es) == {e.subject} + Subjects(es)
  {
    var r := [e] + es;
    forall k | k in Subjects(r) ensures k in {e.subject} + Subjects(es) {
      var i :| 0 <= i < |r| && r[i].subject == k;
      if i > 0 {
        assert es[i - 1].subject == k;
      }
    }
    forall k | k in Subjects(es) ensures k in Subjects(r) {
      var i :| 0 <= i < |es| && es[i].subject == k;
      assert r[i + 1].subject == k;
    }
    assert r[0].subject == e.subject;
  }

  /** `g_tree_lookup`: the ids stored under `k`, if `k` is a key. */
  function Lookup(es: seq<Entry>, k: string): (r: Option<seq<nat>>)
    ensures r.Some? <==> k in Subjects(es)
  {
    if es == [] then None
    else if es[0].subject == k then Some(es[0].ids)
    else
      SubjectsCons(es[0], es[1..]);
      assert [es[0]] + es[1..] == es;
      Lookup(es[1..], k)
  }

  /** The first entry's subject is below every later one's. */
  lemma FirstBelowRest(es: seq<Entry>, k: string)
    requires Ordered(es) && es != [] && k in Subjects(es[1..])
    ensures Below(es[0].subject, k)
  {
    var i :| 0 <= i < |es[1..]| && es[1..][i].subject == k;
    assert es[i + 1].subject == k;
  }

  /**
   * `g_tree_insert`: `v` is stored under `k`, replacing what was stored
   * there; the other keys keep their values and the order is kept.
   */
  function Insert(es: seq<Entry>, k: string, v: seq<nat>): (r: seq<Entry>)
    requires Ordered(es)
    ensures Ordered(r)
    ensures Subjects(r) == Subjects(es) + {k}
    ensures Lookup(r, k) == Some(v)
    ensures forall k2 | k2 != k :: Lookup(r, k2) == Lookup(es, k2)
  {
    if es == [] then
      SubjectsCons(Entry(k, v), []);
      assert [Entry(k, v)] + [] == [Entry(k, v)];
      [Entry(k, v)]
    else if es[0].subject == k then
      var r := [Entry(k, v)] + es[1..];
      assert r[1..] == es[1..];
      SubjectsCons(Entry(k, v), es[1..]);
      SubjectsCons(es[0], es[1..]);
      assert [es[0]] + es[1..] == es;
      r
    else if Below(k, es[0].subject) then
      InsertFirst(es, k, v);
      [Entry(k, v)] + es
    else
      BelowTotal(k, es[0].subject);
      var rest := Insert(es[1..], k, v);
      InsertAfterFirst(es, k, v, rest);
      [es[0]] + rest
  }

  /** A key below every key goes in front. */
  lemma InsertFirst(es: seq<Entry>, k: string, v: seq<nat>)
    requires Ordered(es) && es != [] && Below(k, es[0].subject)
    ensures var r := [Entry(k, v)] + es;
      && Ordered(r)
      && Subjects(r) == Subjects(es) + {k}
      && Lookup(r, k) == Some(v)
      && forall k2 | k2 != k :: Lookup(r, k2) == Lookup(es, k2)
  {
    var r := [Entry(k, v)] + es;
    assert r[1..] == es;
    forall j | 0 < j < |r| ensures Below(k, r[j].subject) {
      if j > 1 {
        BelowTransitive(k, es[0].subject, es[j - 1].subject);
      }
    }
    SubjectsCons(Entry(k, v), es);
  }

  /** A key above the first key goes into the rest; the first entry stays in front. */
  lemma InsertAfterFirst(es: seq<Entry>, k: string, v: seq<nat>, rest: seq<Entry>)
    requires Ordered(es) && es != [] && Below(es[0].subject, k)
    requires Ordered(rest) && Subjects(rest) == Subjects(es[1..]) + {k}
    requires Lookup(rest, k) == Some(v)
    requires forall k2 | k2 != k :: Lookup(rest, k2) == Lookup(es[1..], k2)
    ensures var r := [es[0]] + rest;
      && Ordered(r)
      && Subjects(r) == Subjects(es) + {k}
      && Lookup(r, k) == Some(v)
      && forall k2 | k2 != k :: Lookup(r, k2) == Lookup(es, k2)
  {
    FirstStaysFirst(es, k, rest);
    var r := [es[0]] + rest;
    assert r[1..] == rest;
    BelowIrreflexive(k);
    SubjectsCons(es[0], rest);
    SubjectsCons(es[0], es[1..]);
    assert [es[0]] + es[1..] == es;
  }

  lemma FirstStaysFirst(es: seq<Entry>, k: string, rest: seq<Entry>)
    requires Ordered(es) && es != [] && Below(es[0].subject, k)
    requires Ordered(rest) && Subjects(rest) == Subjects(es[1..]) + {k}
    ensures Ordered([es[0]] + rest)
  {
    var r := [es[0]] + rest;
    assert r[1..] == rest;
    forall j | 0 < j < |r| ensures Below(es[0].subject, r[j].subject) {
      assert r[j] == rest[j - 1];
      assert r[j].subject in Subjects(rest);
      if r[j].subject != k {
        FirstBelowRest(es, r[j].subject);
      }
    }
  }

  /** The thread lists in the order `g_tree_foreach` visits them: by subject. */
  function Threads(es: seq<Entry>): (ts: seq<seq<nat>>)
    ensures |ts| == |es|
    ensures forall i | 0 <= i < |es| :: ts[i] == es[i].ids
  {
    seq(|es|, i requires 0 <= i < |es| => es[i].ids)
  }
}
