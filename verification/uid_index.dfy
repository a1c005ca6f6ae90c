/**
 * The UID <-> MSN index of a mailbox snapshot (`self->ids`, `self->msn`):
 * persistent message identifiers (UIDs) and the dense message sequence
 * numbers 1..N that IMAP derives from them (section 2.3.1 of RFC 3501).
 * The index is built when the mailbox is opened and renumbered in full after
 * every insertion or removal.
 */
module UidIndex {

  type Uid = nat
  type Msn = nat

  /** `ids` maps UID -> MSN, `msn` maps MSN -> UID. */
  datatype Index = Index(ids: map<Uid, Msn>, msn: map<Msn, Uid>)

  /** Return codes of the mutating calls (`DM_SUCCESS`, `DM_EGENERAL`). */
  datatype Code = Success | EGeneral

  /**
   * The mailbox state these calls touch: the index and the set of UIDs the
   * message-summary cache (`self->msginfo`) holds an entry for.
   */
  datatype Mailbox = Mailbox(index: Index, cached: set<Uid>)

  predicate StrictlyIncreasing(s: seq<nat>) {
    forall i, j | 0 <= i < j < |s| :: s[i] < s[j]
  }

  function Elements(s: seq<nat>): set<nat> {
    set x | x in s
  }

  /** `s` is exactly the sequence numbers 1..n of an n-message mailbox. */
  ghost predicate Dense(s: set<nat>, n: nat) {
    forall m :: m in s <==> 1 <= m <= n
  }

  lemma {:induction false} DenseSize(s: set<nat>, n: nat)
    requires Dense(s, n)
    ensures |s| == n
  {
    if n > 0 {
      assert n in s;
      DenseSize(s - {n}, n - 1);
    } else {
      assert s == {} by {
        forall m | m in s ensures false {
        }
      }
    }
  }

  /**
   * Reference description of a correctly numbered index: `ids` is a
   * monotone bijection from the UIDs onto 1..N and `msn` is its exact inverse.
   */
  ghost predicate WellNumbered(ix: Index) {
    && Dense(ix.msn.Keys, |ix.ids|)
    && |ix.msn| == |ix.ids|
    && (forall u | u in ix.ids :: ix.ids[u] in ix.msn && ix.msn[ix.ids[u]] == u)
    && (forall m | m in ix.msn :: ix.msn[m] in ix.ids && ix.ids[ix.msn[m]] == m)
    && (forall u, v | u in ix.ids && v in ix.ids && u < v :: ix.ids[u] < ix.ids[v])
  }

  // ---------------------------------------------------------------------
  // Cardinality facts

  lemma {:induction false} IncreasingElementsSize(s: seq<nat>)
    requires StrictlyIncreasing(s)
    ensures |Elements(s)| == |s|
  {
    if s != [] {
      IncreasingElementsSize(s[1..]);
      assert Elements(s) == {s[0]} + Elements(s[1..]);
      assert s[0] !in Elements(s[1..]);
    } else {
      assert Elements(s) == {};
    }
  }

  // ---------------------------------------------------------------------
  // Ascending enumeration of a set of UIDs (`g_tree_keys`)

  /** A least element of a non-empty set of numbers, found by removing elements one by one. */
  lemma {:induction false} LeastOf(s: set<nat>) returns (m: nat)
    requires s != {}
    ensures m in s && forall x | x in s :: m <= x
    decreases |s|
  {
    var x :| x in s;
    if s == {x} {
      m := x;
    } else {
      var m1 := LeastOf(s - {x});
      m := if x < m1 then x else m1;
      forall z | z in s ensures m <= z {
        if z != x {
          assert z in s - {x};
        }
      }
    }
  }

  /** A greatest element of a non-empty set of numbers, found the same way. */
  lemma {:induction false} GreatestOf(s: set<nat>) returns (m: nat)
    requires s != {}
    ensures m in s && forall x | x in s :: x <= m
    decreases |s|
  {
    var x :| x in s;
    if s == {x} {
      m := x;
    } else {
      var m1 := GreatestOf(s - {x});
      m := if x > m1 then x else m1;
      forall z | z in s ensures z <= m {
        if z != x {
          assert z in s - {x};
        }
      }
    }
  }

  lemma HasLeast(s: set<nat>)
    requires s != {}
    ensures exists m :: m in s && forall x | x in s :: m <= x
  {
    var m := LeastOf(s);
  }

  lemma HasGreatest(s: set<nat>)
    requires s != {}
    ensures exists m :: m in s && forall x | x in s :: x <= m
  {
    var m := GreatestOf(s);
  }

  function Least(s: set<nat>): (m: nat)
    requires s != {}
    ensures m in s && forall x | x in s :: m <= x
  {
    HasLeast(s);
    var m :| m in s && forall x | x in s :: m <= x; m
  }

  function Greatest(s: set<nat>): (m: nat)
    requires s != {}
    ensures m in s && forall x | x in s :: x <= m
  {
    HasGreatest(s);
    var m :| m in s && forall x | x in s :: x <= m; m
  }

  /** The elements of `s` in ascending order. */
  function SortedKeys(s: set<nat>): (r: seq<nat>)
    ensures StrictlyIncreasing(r)
    ensures Elements(r) == s
    ensures |r| == |s|
    decreases |s|
  {
    if s == {} then []
    else
      var m := Least(s);
      var rest := SortedKeys(s - {m});
      PrependLeast(m, s, rest);
      [m] + rest
  }

  lemma PrependLeast(m: nat, s: set<nat>, rest: seq<nat>)
    requires m in s && forall x | x in s :: m <= x
    requires StrictlyIncreasing(rest) && Elements(rest) == s - {m} && |rest| == |s - {m}|
    ensures StrictlyIncreasing([m] + rest)
    ensures Elements([m] + rest) == s
    ensures |[m] + rest| == |s|
  {
    ElementsCons(m, rest);
    var r := [m] + rest;
    forall i | 0 < i < |r| ensures r[0] < r[i] {
      assert r[i] == rest[i - 1];
      assert r[i] in Elements(rest);
    }
  }

  lemma ElementsCons(m: nat, rest: seq<nat>)
    ensures Elements([m] + rest) == {m} + Elements(rest)
  {
    assert forall x | x in [m] + rest :: x == m || x in rest;
  }

  /** Two ascending sequences with the same elements are equal. */
  lemma {:induction false} IncreasingUnique(a: seq<nat>, b: seq<nat>)
    requires StrictlyIncreasing(a) && StrictlyIncreasing(b)
    requires Elements(a) == Elements(b)
    ensures a == b
  {
    if a == [] {
      assert forall i | 0 <= i < |b| :: b[i] in Elements(b);
    } else {
      assert b != [] by {
        assert a[0] in Elements(a);
      }
      SameLeast(a, b);
      ElementsTail(a);
      ElementsTail(b);
      IncreasingUnique(a[1..], b[1..]);
      assert a == [a[0]] + a[1..] && b == [b[0]] + b[1..];
    }
  }

  /** The first elements of two ascending sequences with the same elements agree. */
  lemma SameLeast(a: seq<nat>, b: seq<nat>)
    requires StrictlyIncreasing(a) && StrictlyIncreasing(b)
    requires Elements(a) == Elements(b) && a != [] && b != []
    ensures a[0] == b[0]
  {
    assert a[0] in Elements(b) && b[0] in Elements(a);
    var i :| 0 <= i < |b| && b[i] == a[0];
    var j :| 0 <= j < |a| && a[j] == b[0];
    assert b[0] <= b[i] && a[0] <= a[j];
  }

  /** The rest of an ascending sequence holds all its elements but the first. */
  lemma ElementsTail(a: seq<nat>)
    requires StrictlyIncreasing(a) && a != []
    ensures Elements(a[1..]) == Elements(a) - {a[0]}
  {
    assert forall x | x in a[1..] :: x > a[0];
    assert forall x | x in a :: x == a[0] || x in a[1..];
  }

  // ---------------------------------------------------------------------
  // Numbering

  /**
   * The numbering loop shared by `dbmail_mailbox_open` and `uid_msn_map`:
   * the i-th row (from 1) gets MSN i in both directions.
   */
  function Number(rows: seq<Uid>): (ix: Index)
    ensures ix.ids.Keys == Elements(rows)
    ensures Dense(ix.msn.Keys, |rows|)
    ensures forall i | 0 <= i < |rows| :: ix.msn[i + 1] == rows[i]
    decreases |rows|
  {
    if rows == [] then Index(map[], map[])
    else
      var pre, x := rows[..|rows| - 1], rows[|rows| - 1];
      var prev := Number(pre);
      NumberStep(pre, x, prev);
      assert rows == pre + [x];
      Index(prev.ids[x := |rows|], prev.msn[|rows| := x])
  }

  /** Numbering one more row keeps the numbering of the rows before it. */
  lemma NumberStep(pre: seq<Uid>, x: Uid, prev: Index)
    requires prev.ids.Keys == Elements(pre)
    requires Dense(prev.msn.Keys, |pre|)
    requires forall i | 0 <= i < |pre| :: prev.msn[i + 1] == pre[i]
    ensures prev.ids[x := |pre| + 1].Keys == Elements(pre + [x])
    ensures Dense(prev.msn[|pre| + 1 := x].Keys, |pre| + 1)
    ensures forall i | 0 <= i < |pre| + 1 :: prev.msn[|pre| + 1 := x][i + 1] == (pre + [x])[i]
  {
    ElementsAppend(pre, x);
  }

  lemma ElementsAppend(s: seq<nat>, x: nat)
    ensures Elements(s + [x]) == Elements(s) + {x}
  {
    assert forall y | y in s + [x] :: y == x || y in s;
  }

  /** With ascending rows, row i gets MSN i+1 and the result is well numbered. */
  lemma NumberAscending(rows: seq<Uid>)
    requires StrictlyIncreasing(rows)
    ensures forall i | 0 <= i < |rows| :: Number(rows).ids[rows[i]] == i + 1
    ensures WellNumbered(Number(rows))
  {
    NumberRank(rows);
    RankedIsWellNumbered(rows, Number(rows));
  }

  lemma RankedIsWellNumbered(rows: seq<Uid>, ix: Index)
    requires StrictlyIncreasing(rows)
    requires ix.ids.Keys == Elements(rows)
    requires Dense(ix.msn.Keys, |rows|)
    requires forall i | 0 <= i < |rows| :: ix.msn[i + 1] == rows[i]
    requires forall i | 0 <= i < |rows| :: ix.ids[rows[i]] == i + 1
    ensures WellNumbered(ix)
  {
    IncreasingElementsSize(rows);
    DenseSize(ix.msn.Keys, |rows|);
    RankedInverse(rows, ix);
    RankedMonotone(rows, ix);
  }

  lemma RankedInverse(rows: seq<Uid>, ix: Index)
    requires ix.ids.Keys == Elements(rows)
    requires Dense(ix.msn.Keys, |rows|)
    requires forall i | 0 <= i < |rows| :: ix.msn[i + 1] == rows[i]
    requires forall i | 0 <= i < |rows| :: ix.ids[rows[i]] == i + 1
    ensures forall u | u in ix.ids :: ix.ids[u] in ix.msn && ix.msn[ix.ids[u]] == u
    ensures forall m | m in ix.msn :: ix.msn[m] in ix.ids && ix.ids[ix.msn[m]] == m
  {
    forall u | u in ix.ids
      ensures ix.ids[u] in ix.msn && ix.msn[ix.ids[u]] == u
    {
      var i :| 0 <= i < |rows| && rows[i] == u;
    }
    forall m | m in ix.msn
      ensures ix.msn[m] in ix.ids && ix.ids[ix.msn[m]] == m
    {
      assert ix.msn[m] == rows[m - 1];
    }
  }

  lemma RankedMonotone(rows: seq<Uid>, ix: Index)
    requires StrictlyIncreasing(rows)
    requires ix.ids.Keys == Elements(rows)
    requires forall i | 0 <= i < |rows| :: ix.ids[rows[i]] == i + 1
    ensures forall u, v | u in ix.ids && v in ix.ids && u < v :: ix.ids[u] < ix.ids[v]
  {
    forall u, v | u in ix.ids && v in ix.ids && u < v
      ensures ix.ids[u] < ix.ids[v]
    {
      var i :| 0 <= i < |rows| && rows[i] == u;
      var j :| 0 <= j < |rows| && rows[j] == v;
    }
  }

  lemma {:induction false} NumberRank(rows: seq<Uid>)
    requires StrictlyIncreasing(rows)
    ensures forall i | 0 <= i < |rows| :: Number(rows).ids[rows[i]] == i + 1
  {
    if rows != [] {
      var n := |rows|;
      var prefix := rows[..n - 1];
      NumberRank(prefix);
      assert Number(rows).ids == Number(prefix).ids[rows[n - 1] := n];
      forall i | 0 <= i < n
        ensures Number(rows).ids[rows[i]] == i + 1
      {
        if i < n - 1 {
          assert rows[i] == prefix[i];
        }
      }
    }
  }

  /** Lists a well-numbered index's UIDs in MSN order. */
  function Enumerate(ix: Index): (r: seq<Uid>)
    requires WellNumbered(ix)
    ensures |r| == |ix.ids|
    ensures forall i | 0 <= i < |r| :: r[i] == ix.msn[i + 1]
  {
    seq(|ix.ids|, i requires 0 <= i < |ix.ids| => ix.msn[i + 1])
  }

  /** A well-numbered index is the numbering of its UIDs listed in MSN order. */
  lemma NumberEnumerate(ix: Index)
    requires WellNumbered(ix)
    ensures StrictlyIncreasing(Enumerate(ix))
    ensures Elements(Enumerate(ix)) == ix.ids.Keys
    ensures Number(Enumerate(ix)) == ix
  {
    EnumerateIncreasing(ix);
    EnumerateElements(ix);
    NumberOfEnumerate(ix);
  }

  lemma NumberOfEnumerate(ix: Index)
    requires WellNumbered(ix)
    ensures Number(Enumerate(ix)) == ix
  {
    var e := EnumerateFacts(ix);
    NumberMatches(e, ix);
  }

  /** Everything `NumberMatches` needs of the MSN-order listing. */
  lemma EnumerateFacts(ix: Index) returns (e: seq<Uid>)
    requires WellNumbered(ix)
    ensures e == Enumerate(ix)
    ensures StrictlyIncreasing(e)
    ensures Elements(e) == ix.ids.Keys
    ensures forall i | 0 <= i < |e| :: ix.msn[i + 1] == e[i]
    ensures forall i | 0 <= i < |e| :: ix.ids[e[i]] == i + 1
  {
    e := Enumerate(ix);
    EnumerateIncreasing(ix);
    EnumerateElements(ix);
    EnumerateRanks(ix);
  }

  lemma EnumerateRanks(ix: Index)
    requires WellNumbered(ix)
    ensures Dense(ix.msn.Keys, |Enumerate(ix)|)
    ensures forall i | 0 <= i < |Enumerate(ix)| :: ix.msn[i + 1] == Enumerate(ix)[i]
    ensures forall i | 0 <= i < |Enumerate(ix)| :: ix.ids[Enumerate(ix)[i]] == i + 1
  {
    var e := Enumerate(ix);
    forall i | 0 <= i < |e| ensures ix.ids[e[i]] == i + 1 {
      assert i + 1 in ix.msn;
    }
  }

  /** An index that ranks an ascending list the way `Number` does is its numbering. */
  lemma NumberMatches(e: seq<Uid>, ix: Index)
    requires StrictlyIncreasing(e)
    requires Elements(e) == ix.ids.Keys
    requires Dense(ix.msn.Keys, |e|)
    requires forall i | 0 <= i < |e| :: ix.msn[i + 1] == e[i]
    requires forall i | 0 <= i < |e| :: ix.ids[e[i]] == i + 1
    ensures Number(e) == ix
  {
    NumberRank(e);
    var r := Number(e);
    SameRanks(e, r.ids, ix.ids);
    SamePositions(e, r.msn, ix.msn);
  }

  lemma SameRanks(e: seq<Uid>, a: map<Uid, Msn>, b: map<Uid, Msn>)
    requires a.Keys == Elements(e) && b.Keys == Elements(e)
    requires forall i | 0 <= i < |e| :: a[e[i]] == i + 1
    requires forall i | 0 <= i < |e| :: b[e[i]] == i + 1
    ensures a == b
  {
    forall u | u in a ensures a[u] == b[u] {
      var i :| 0 <= i < |e| && e[i] == u;
    }
  }

  lemma SamePositions(e: seq<Uid>, a: map<Msn, Uid>, b: map<Msn, Uid>)
    requires Dense(a.Keys, |e|) && Dense(b.Keys, |e|)
    requires forall i | 0 <= i < |e| :: a[i + 1] == e[i]
    requires forall i | 0 <= i < |e| :: b[i + 1] == e[i]
    ensures a == b
  {
    forall m | m in a ensures a[m] == b[m] {
      assert a[(m - 1) + 1] == e[m - 1];
    }
  }

  lemma EnumerateIncreasing(ix: Index)
    requires WellNumbered(ix)
    ensures StrictlyIncreasing(Enumerate(ix))
  {
    var e := Enumerate(ix);
    forall i, j | 0 <= i < j < |e| ensures e[i] < e[j] {
      var u, v := e[i], e[j];
      assert ix.ids[u] == i + 1 && ix.ids[v] == j + 1;
    }
  }

  lemma EnumerateElements(ix: Index)
    requires WellNumbered(ix)
    ensures Elements(Enumerate(ix)) == ix.ids.Keys
  {
    EnumerateCovers(ix);
    EnumerateWithin(ix);
  }

  lemma EnumerateCovers(ix: Index)
    requires WellNumbered(ix)
    ensures ix.ids.Keys <= Elements(Enumerate(ix))
  {
    var e := Enumerate(ix);
    forall u | u in ix.ids ensures u in Elements(e) {
      var m := ix.ids[u];
      assert 1 <= m <= |ix.ids|;
      assert e[m - 1] == u;
    }
  }

  lemma EnumerateWithin(ix: Index)
    requires WellNumbered(ix)
    ensures Elements(Enumerate(ix)) <= ix.ids.Keys
  {
    PositionsWithin(Enumerate(ix), ix);
  }

  lemma PositionsWithin(e: seq<Uid>, ix: Index)
    requires Dense(ix.msn.Keys, |e|)
    requires forall i | 0 <= i < |e| :: e[i] == ix.msn[i + 1]
    requires forall m | m in ix.msn :: ix.msn[m] in ix.ids
    ensures Elements(e) <= ix.ids.Keys
  {
    forall u | u in Elements(e) ensures u in ix.ids {
      var i :| 0 <= i < |e| && e[i] == u;
      assert i + 1 in ix.msn;
    }
  }

  /** A well-numbered index is determined by its set of UIDs. */
  lemma WellNumberedUnique(a: Index, b: Index)
    requires WellNumbered(a) && WellNumbered(b)
    requires a.ids.Keys == b.ids.Keys
    ensures a == b
  {
    NumberEnumerate(a);
    NumberEnumerate(b);
    IncreasingUnique(Enumerate(a), Enumerate(b));
  }

  // ---------------------------------------------------------------------
  // The operations

  /** `mailbox_uid_msn_new`: both maps empty. */
  function EmptyIndex(): (ix: Index)
    ensures ix.ids == map[] && ix.msn == map[]
    ensures WellNumbered(ix)
  {
    Index(map[], map[])
  }

  /**
   * `uid_msn_map`: renumber every UID by its ascending rank and rebuild the
   * MSN map from scratch.
   */
  function Renumber(ix: Index): (r: Index)
    ensures r.ids.Keys == ix.ids.Keys
    ensures WellNumbered(r)
  {
    var ks := SortedKeys(ix.ids.Keys);
    NumberAscending(ks);
    Number(ks)
  }

  /** Renumbering an index that is already well numbered changes nothing. */
  lemma RenumberStable(ix: Index)
    requires WellNumbered(ix)
    ensures Renumber(ix) == ix
  {
    WellNumberedUnique(Renumber(ix), ix);
  }

  /**
   * The index part of `dbmail_mailbox_open`: the store's rows of message ids
   * (ordered by id) are numbered 1..N in the order given, and the summary
   * cache holds an entry for each of them.
   */
  function Open(rows: seq<Uid>): (mb: Mailbox)
    ensures mb.index.ids.Keys == Elements(rows) == mb.cached
    ensures Dense(mb.index.msn.Keys, |rows|)
    ensures forall i | 0 <= i < |rows| :: mb.index.msn[i + 1] == rows[i]
    ensures StrictlyIncreasing(rows) ==>
      WellNumbered(mb.index) && forall i | 0 <= i < |rows| :: mb.index.ids[rows[i]] == i + 1
  {
    var ix := Number(rows);
    assert StrictlyIncreasing(rows) ==>
      WellNumbered(ix) && forall i | 0 <= i < |rows| :: ix.ids[rows[i]] == i + 1
    by {
      if StrictlyIncreasing(rows) {
        NumberAscending(rows);
      }
    }
    Mailbox(ix, Elements(rows))
  }

  /**
   * `dbmail_mailbox_insert_uid`: add the UID (with a provisional MSN of N+1)
   * and renumber everything. Always succeeds.
   */
  function InsertUid(mb: Mailbox, id: Uid): (r: (Code, Mailbox))
    ensures r.0 == Success
    ensures r.1.index.ids.Keys == mb.index.ids.Keys + {id}
    ensures WellNumbered(r.1.index)
    ensures r.1.cached == mb.cached
  {
    var ids := mb.index.ids[id := |mb.index.ids| + 1];
    UpdateKeys(mb.index.ids, id, |mb.index.ids| + 1);
    (Success, Mailbox(Renumber(Index(ids, mb.index.msn)), mb.cached))
  }

  lemma UpdateKeys(m: map<Uid, Msn>, k: Uid, v: Msn)
    ensures m[k := v].Keys == m.Keys + {k}
  {
  }

  /**
   * `dbmail_mailbox_remove_uid`: drop the UID from the summary cache (a
   * missing entry there is only a warning), then from the index; a UID the
   * index does not hold is a general error and nothing is renumbered.
   */
  function RemoveUid(mb: Mailbox, id: Uid): (r: (Code, Mailbox))
    ensures r.1.cached == mb.cached - {id}
    ensures id !in mb.index.ids ==> r.0 == EGeneral && r.1.index == mb.index
    ensures id in mb.index.ids ==>
      && r.0 == Success
      && r.1.index.ids.Keys == mb.index.ids.Keys - {id}
      && |r.1.index.ids| == |mb.index.ids| - 1
      && WellNumbered(r.1.index)
  {
    var cached := mb.cached - {id};
    if id !in mb.index.ids then (EGeneral, Mailbox(mb.index, cached))
    else
      var ids := mb.index.ids - {id};
      assert ids.Keys == mb.index.ids.Keys - {id};
      (Success, Mailbox(Renumber(Index(ids, mb.index.msn)), cached))
  }

  /** Inserting a new UID and removing it again restores a well-numbered index. */
  lemma RemoveAfterInsert(mb: Mailbox, id: Uid)
    requires WellNumbered(mb.index)
    requires id !in mb.index.ids
    ensures RemoveUid(InsertUid(mb, id).1, id) == (Success, Mailbox(mb.index, mb.cached - {id}))
  {
    var r := RemoveUid(InsertUid(mb, id).1, id);
    WellNumberedUnique(r.1.index, mb.index);
  }

  /** Removing a UID and inserting it again restores a well-numbered index. */
  lemma InsertAfterRemove(mb: Mailbox, id: Uid)
    requires WellNumbered(mb.index)
    requires id in mb.index.ids
    ensures InsertUid(RemoveUid(mb, id).1, id).1.index == mb.index
  {
    var removed := RemoveUid(mb, id).1;
    var r := InsertUid(removed, id).1.index;
    AddBack(mb.index.ids.Keys, id);
    WellNumberedUnique(r, mb.index);
  }

  lemma AddBack(s: set<Uid>, x: Uid)
    requires x in s
    ensures (s - {x}) + {x} == s
  {
  }
}
