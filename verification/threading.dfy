/**
 * `dbmail_mailbox_orderedsubject` (THREAD=ORDEREDSUBJECT) and the callback
 * `_tree_foreach` that prints it. The store answers two queries: the thread
 * roots (the least message id per subject) and every message with its
 * subject, ordered by subject and date. Both are given here as rows.
 */
module Threading {
  import opened Options
  import opened Text
  import opened UidIndex
  import opened FoundSet
  import opened SubjectTree

  /** A row of either query: a message id and its subject. */
  datatype Row = Row(id: Uid, subject: string)

  /** The subjects of the rows whose message is in the result. */
  function FoundSubjects(rows: seq<Row>, found: Found): set<string> {
    set i | 0 <= i < |rows| && rows[i].id in found :: rows[i].subject
  }

  lemma FoundSubjectsLast(rows: seq<Row>, found: Found)
    requires rows != []
    ensures var pre, row := rows[..|rows| - 1], rows[|rows| - 1];
      FoundSubjects(rows, found) ==
        FoundSubjects(pre, found) + (if row.id in found then {row.subject} else {})
  {
    var pre, row := rows[..|rows| - 1], rows[|rows| - 1];
    forall s | s in FoundSubjects(rows, found)
      ensures s in FoundSubjects(pre, found) + (if row.id in found then {row.subject} else {})
    {
      var i :| 0 <= i < |rows| && rows[i].id in found && rows[i].subject == s;
      if i < |pre| {
        assert pre[i] == rows[i];
      }
    }
    forall s | s in FoundSubjects(pre, found) ensures s in FoundSubjects(rows, found) {
      var i :| 0 <= i < |pre| && pre[i].id in found && pre[i].subject == s;
      assert rows[i] == pre[i];
    }
  }

  /** A tree whose every subject has no thread yet. */
  ghost predicate Bare(es: seq<Entry>) {
    forall s :: Lookup(es, s).GetOr([]) == []
  }

  /**
   * The first query's loop: a row whose message is in the result enters its
   * subject into the tree, with no thread yet.
   */
  function Roots(rows: seq<Row>, found: Found): (es: seq<Entry>)
    ensures Ordered(es) && Bare(es)
    ensures Subjects(es) == FoundSubjects(rows, found)
    decreases |rows|
  {
    if rows == [] then []
    else
      var pre, row := rows[..|rows| - 1], rows[|rows| - 1];
      var prev := Roots(pre, found);
      FoundSubjectsLast(rows, found);
      if row.id in found then Insert(prev, row.subject, []) else prev
  }

  /** The id a thread shows for a message of the result: its UID, or its sequence number. */
  function ShownId(found: Found, u: Uid, uid: bool): nat
    requires u in found
  {
    if uid then u else found[u]
  }

  /** The ids of the rows with subject `s` whose message is in the result, in row order. */
  function ThreadOf(rows: seq<Row>, found: Found, uid: bool, s: string): seq<nat>
    decreases |rows|
  {
    if rows == [] then []
    else
      var row := rows[|rows| - 1];
      ThreadOf(rows[..|rows| - 1], found, uid, s)
        + (if row.id in found && row.subject == s then [ShownId(found, row.id, uid)] else [])
  }

  /** One row of the second query: its id, if its message is in the result, goes to the end of its subject's thread. */
  function AddRow(es: seq<Entry>, row: Row, found: Found, uid: bool): (r: seq<Entry>)
    requires Ordered(es)
    ensures Ordered(r)
    ensures Subjects(r) == Subjects(es) + (if row.id in found then {row.subject} else {})
    ensures forall s ::
              Lookup(r, s).GetOr([]) ==
                Lookup(es, s).GetOr([]) + (if row.id in found && row.subject == s then [ShownId(found, row.id, uid)] else [])
  {
    if row.id in found then
      Insert(es, row.subject, Lookup(es, row.subject).GetOr([]) + [ShownId(found, row.id, uid)])
    else es
  }

  /**
   * The second query's loop: a row whose message is in the result appends
   * its id to its subject's thread, entering the subject if it is new.
   */
  function Collect(es: seq<Entry>, rows: seq<Row>, found: Found, uid: bool): (r: seq<Entry>)
    requires Ordered(es)
    ensures Ordered(r)
    ensures Subjects(r) == Subjects(es) + FoundSubjects(rows, found)
    ensures forall s :: Lookup(r, s).GetOr([]) == Lookup(es, s).GetOr([]) + ThreadOf(rows, found, uid, s)
    decreases |rows|
  {
    if rows == [] then es
    else
      var pre, row := rows[..|rows| - 1], rows[|rows| - 1];
      var prev := Collect(es, pre, found, uid);
      FoundSubjectsLast(rows, found);
      CollectStep(es, prev, rows, found, uid);
      AddRow(prev, row, found, uid)
  }

  /** Adding the last row extends every thread collected from the rows before it by that row's id, if any. */
  lemma CollectStep(es: seq<Entry>, prev: seq<Entry>, rows: seq<Row>, found: Found, uid: bool)
    requires rows != [] && Ordered(prev)
    requires forall s :: Lookup(prev, s).GetOr([]) == Lookup(es, s).GetOr([]) + ThreadOf(rows[..|rows| - 1], found, uid, s)
    ensures forall s ::
              Lookup(AddRow(prev, rows[|rows| - 1], found, uid), s).GetOr([]) ==
                Lookup(es, s).GetOr([]) + ThreadOf(rows, found, uid, s)
  {
    var pre, row := rows[..|rows| - 1], rows[|rows| - 1];
    var r := AddRow(prev, row, found, uid);
    forall s ensures Lookup(r, s).GetOr([]) == Lookup(es, s).GetOr([]) + ThreadOf(rows, found, uid, s) {
      var a, b := Lookup(es, s).GetOr([]), ThreadOf(pre, found, uid, s);
      var c := if row.id in found && row.subject == s then [ShownId(found, row.id, uid)] else [];
      assert ThreadOf(rows, found, uid, s) == b + c;
      AppendAssociative(a, b, c);
    }
  }

  lemma AppendAssociative(a: seq<nat>, b: seq<nat>, c: seq<nat>)
    ensures (a + b) + c == a + (b + c)
  {
  }

  // ---------------------------------------------------------------------
  // Printing and reading back

  /** One member as `_tree_foreach` prints it: its id in parentheses. */
  function Member(id: nat): string {
    "(" + NatToString(id) + ")"
  }

  function MemberList(ids: seq<nat>): string {
    if ids == [] then "" else Member(ids[0]) + MemberList(ids[1..])
  }

  /** `_tree_foreach`: the members, wrapped in one more pair of parentheses when more than one. */
  function RenderThread(ids: seq<nat>): string {
    if |ids| > 1 then "(" + MemberList(ids) + ")" else MemberList(ids)
  }

  /** `g_tree_foreach` over the threads: each printed in turn, nothing between. */
  function RenderThreads(ts: seq<seq<nat>>): string {
    if ts == [] then "" else RenderThread(ts[0]) + RenderThreads(ts[1..])
  }

  /** The threads that have a member. */
  function NonEmpty(ts: seq<seq<nat>>): (r: seq<seq<nat>>)
    ensures forall i | 0 <= i < |r| :: r[i] != []
  {
    if ts == [] then []
    else if ts[0] == [] then NonEmpty(ts[1..])
    else [ts[0]] + NonEmpty(ts[1..])
  }

  /** One member read from the front of `s`. */
  function ReadMember(s: string): (r: Option<(nat, string)>)
    ensures r.Some? ==> |r.value.1| < |s|
  {
    if |s| >= 2 && s[0] == '(' && IsDigit(s[1]) then
      var (n, rest) := ReadNumber(s[1..]);
      if |rest| > 0 && rest[0] == ')' then Some((n, rest[1..])) else None
    else None
  }

  /** As many members as can be read from the front of `s`. */
  function ReadMembers(s: string): (r: (seq<nat>, string))
    ensures |r.1| <= |s|
    decreases |s|
  {
    match ReadMember(s)
    case None => ([], s)
    case Some((n, rest)) =>
      var (ns, rest2) := ReadMembers(rest);
      ([n] + ns, rest2)
  }

  /** Reads printed threads back: a single member, or a parenthesised list of two or more. */
  function ReadThreads(s: string): Option<seq<seq<nat>>>
    decreases |s|
  {
    if s == [] then Some([])
    else if |s| >= 2 && s[0] == '(' && s[1] == '(' then
      var (ns, rest) := ReadMembers(s[1..]);
      if |ns| > 1 && |rest| > 0 && rest[0] == ')' then
        match ReadThreads(rest[1..])
        case None => None
        case Some(ts) => Some([ns] + ts)
      else None
    else
      match ReadMember(s)
      case None => None
      case Some((n, rest)) =>
        match ReadThreads(rest)
        case None => None
        case Some(ts) => Some([[n]] + ts)
  }

  lemma ReadMemberOf(n: nat, rest: string)
    ensures ReadMember(Member(n) + rest) == Some((n, rest))
  {
    var d := NatToString(n);
    var s := Member(n) + rest;
    assert s == "(" + (d + (")" + rest));
    assert s[1..] == d + (")" + rest);
    ReadRendered(n, ")" + rest);
    assert (")" + rest)[1..] == rest;
  }

  /** A member in front of `x` is read, then reading goes on with `x`. */
  lemma ReadMembersStep(n: nat, x: string)
    ensures ReadMembers(Member(n) + x) == ([n] + ReadMembers(x).0, ReadMembers(x).1)
  {
    ReadMemberOf(n, x);
  }

  lemma MemberListCons(ids: seq<nat>, rest: string)
    requires ids != []
    ensures MemberList(ids) + rest == Member(ids[0]) + (MemberList(ids[1..]) + rest)
  {
  }

  lemma {:induction false} ReadMemberListOf(ids: seq<nat>, rest: string)
    requires ReadMember(rest).None?
    ensures ReadMembers(MemberList(ids) + rest) == (ids, rest)
  {
    if ids == [] {
      assert MemberList(ids) + rest == rest;
    } else {
      ReadMemberListOf(ids[1..], rest);
      MemberListCons(ids, rest);
      ReadMembersStep(ids[0], MemberList(ids[1..]) + rest);
      assert [ids[0]] + ids[1..] == ids;
    }
  }

  /** A thread of two or more members in front of `tail` is read as a whole, then reading goes on with `tail`. */
  lemma ReadGroupStep(ids: seq<nat>, tail: string)
    requires |ids| > 1
    ensures ReadThreads(RenderThread(ids) + tail) ==
      match ReadThreads(tail) case None => None case Some(ts) => Some([ids] + ts)
  {
    var body := MemberList(ids);
    var after := body + (")" + tail);
    var s := "(" + after;
    assert s == RenderThread(ids) + tail;
    assert s[1..] == after;
    MemberListCons(ids, ")" + tail);
    assert s[0] == '(' && s[1] == after[0] == '(';
    assert ReadMember(")" + tail).None?;
    ReadMemberListOf(ids, ")" + tail);
    assert (")" + tail)[1..] == tail;
  }

  /** A thread of one member in front of `tail` is read, then reading goes on with `tail`. */
  lemma ReadSingleStep(n: nat, tail: string)
    ensures ReadThreads(RenderThread([n]) + tail) ==
      match ReadThreads(tail) case None => None case Some(ts) => Some([[n]] + ts)
  {
    var s := Member(n) + tail;
    assert MemberList([n]) == Member(n) by {
      assert [n][1..] == [];
    }
    assert s == RenderThread([n]) + tail;
    assert IsDigit(s[1]) && s[1] != '(';
    ReadMemberOf(n, tail);
  }

  lemma {:induction false} ReadThreadsOf(ts: seq<seq<nat>>)
    requires forall i | 0 <= i < |ts| :: ts[i] != []
    ensures ReadThreads(RenderThreads(ts)) == Some(ts)
  {
    if ts != [] {
      var ids := ts[0];
      ReadThreadsOf(ts[1..]);
      assert RenderThreads(ts) == RenderThread(ids) + RenderThreads(ts[1..]);
      if |ids| > 1 {
        ReadGroupStep(ids, RenderThreads(ts[1..]));
      } else {
        assert ids == [ids[0]];
        ReadSingleStep(ids[0], RenderThreads(ts[1..]));
      }
      assert [ids] + ts[1..] == ts;
    }
  }

  /** Threads without members print nothing. */
  lemma {:induction false} RenderNonEmpty(ts: seq<seq<nat>>)
    ensures RenderThreads(NonEmpty(ts)) == RenderThreads(ts)
  {
    if ts != [] {
      RenderNonEmpty(ts[1..]);
      if ts[0] != [] {
        assert ([ts[0]] + NonEmpty(ts[1..]))[1..] == NonEmpty(ts[1..]);
      }
    }
  }

  /** Printed threads read back as the threads that have members, in the same order. */
  lemma RenderedThreadsRead(ts: seq<seq<nat>>)
    ensures ReadThreads(RenderThreads(ts)) == Some(NonEmpty(ts))
  {
    RenderNonEmpty(ts);
    ReadThreadsOf(NonEmpty(ts));
  }

  // ---------------------------------------------------------------------
  // `dbmail_mailbox_orderedsubject`

  /**
   * `dbmail_mailbox_orderedsubject`: NULL when either query returns no row;
   * otherwise the threads of the subject tree, printed in subject order.
   * (A subject whose root is in the result but none of whose rows in the
   * second query is prints nothing.)
   */
  function OrderedSubject(roots: seq<Row>, rows: seq<Row>, found: Found, uid: bool): (r: Option<string>)
    ensures r.None? <==> roots == [] || rows == []
  {
    if roots == [] then None
    else if rows == [] then None
    else Some(RenderThreads(Threads(Collect(Roots(roots, found), rows, found, uid))))
  }

  /** In an ordered tree, looking up an entry's subject finds that entry. */
  lemma LookupAt(es: seq<Entry>, i: nat)
    requires Ordered(es) && i < |es|
    ensures Lookup(es, es[i].subject) == Some(es[i].ids)
    decreases i
  {
    if i > 0 {
      assert es[0].subject != es[i].subject by {
        if es[0].subject == es[i].subject {
          BelowIrreflexive(es[0].subject);
        }
      }
      assert Ordered(es[1..]);
      LookupAt(es[1..], i - 1);
    }
  }

  /** Collected onto a tree with no threads, each subject's thread is its rows' ids in the result. */
  lemma CollectedThreads(bare: seq<Entry>, rows: seq<Row>, found: Found, uid: bool)
    requires Ordered(bare) && Bare(bare)
    ensures var es := Collect(bare, rows, found, uid);
      forall i | 0 <= i < |es| :: es[i].ids == ThreadOf(rows, found, uid, es[i].subject)
  {
    var es := Collect(bare, rows, found, uid);
    forall i | 0 <= i < |es| ensures es[i].ids == ThreadOf(rows, found, uid, es[i].subject) {
      LookupAt(es, i);
      assert Lookup(bare, es[i].subject).GetOr([]) == [];
    }
  }

  /**
   * The threads printed are those of the subjects of the result's roots and
   * rows, in `strcmp` order of subject, each holding the ids of its
   * subject's rows in the result in the second query's order; read back, the
   * output is exactly the threads that have members.
   */
  lemma OrderedSubjectMeaning(roots: seq<Row>, rows: seq<Row>, found: Found, uid: bool)
    requires roots != [] && rows != []
    ensures var es := Collect(Roots(roots, found), rows, found, uid);
      && OrderedSubject(roots, rows, found, uid) == Some(RenderThreads(Threads(es)))
      && Ordered(es)
      && Subjects(es) == FoundSubjects(roots, found) + FoundSubjects(rows, found)
      && (forall i | 0 <= i < |es| :: es[i].ids == ThreadOf(rows, found, uid, es[i].subject))
      && ReadThreads(OrderedSubject(roots, rows, found, uid).value) == Some(NonEmpty(Threads(es)))
  {
    var es := Collect(Roots(roots, found), rows, found, uid);
    CollectedThreads(Roots(roots, found), rows, found, uid);
    RenderedThreadsRead(Threads(es));
  }
}
