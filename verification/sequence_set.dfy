/**
 * `dbmail_mailbox_get_set`: evaluation of an IMAP sequence set (the
 * `sequence-set` rule of section 9 of RFC 3501: `*`, `N`, `N:M` and comma
 * lists) against the index, either over UIDs or over message sequence
 * numbers. The result is always keyed by UID with the MSN as value.
 */
module SequenceSet {
  import opened Options
  import opened Text
  import opened UidIndex
  import opened FoundSet

  function Min(a: nat, b: nat): nat { if a <= b then a else b }
  function Max(a: nat, b: nat): nat { if a <= b then b else a }

  /** The lowest and highest value an endpoint may name. */
  datatype Bounds = Bounds(lo: nat, hi: nat)

  /**
   * Over UIDs the bounds are the lowest and highest UID of the index; over
   * sequence numbers they are 1 and the mailbox state's message count
   * (`exists`), or the size of the index when there is no state.
   */
  function SetBounds(ix: Index, uid: bool, messages: Option<nat>): (b: Bounds)
    requires |ix.ids| > 0
    ensures uid ==> b.lo in ix.ids && b.hi in ix.ids
    ensures uid ==> forall u | u in ix.ids :: b.lo <= u <= b.hi
    ensures !uid ==> b.lo == 1 && b.hi == messages.GetOr(|ix.ids|)
  {
    if uid then
      assert ix.ids.Keys != {} by {
        var u :| u in ix.ids;
      }
      Bounds(Least(ix.ids.Keys), Greatest(ix.ids.Keys))
    else Bounds(1, messages.GetOr(|ix.ids|))
  }

  /** What one comma-separated element of the set asks for. */
  datatype Element =
    | Stop              // the loop ends quietly, keeping what it has
    | Fail              // the whole call returns NULL
    | Span(l: nat, r: nat)

  /** Outlook sends 4294967295 for "the highest message". */
  function Outlook(n: nat, hi: nat): (r: nat)
    ensures n == OutlookHighest ==> r == hi
    ensures n != OutlookHighest ==> r == n
  {
    if n == OutlookHighest then hi else n
  }

  /** The right endpoint is lowered to `hi`, then raised to `lo`. */
  function Clip(r: nat, b: Bounds): (c: nat)
    ensures b.lo <= b.hi ==> b.lo <= c <= b.hi
    ensures b.lo <= r <= b.hi ==> c == r
  {
    var r1 := if r > b.hi then b.hi else r;
    if r1 < b.lo then b.lo else r1
  }

  /**
   * Parses one element. The left endpoint is `*` (the highest value) or a
   * number, which is raised to `lo` but never lowered to `hi`; a zero or
   * missing number is an error.
   */
  function ParseElement(e: string, b: Bounds): Element
  {
    if |e| == 0 then Stop
    else if e[0] == '*' then
      RangeTail(b.hi, if |e| > 1 then e[1..] else e, b)
    else
      var n := ReadNumber(e);
      if n.0 == 0 then Fail
      else RangeTail(Max(Outlook(n.0, b.hi), b.lo), n.1, b)
  }

  /**
   * The text after the left endpoint: `:` followed by `*` or a number gives
   * the right endpoint, clipped into the bounds; anything else makes the
   * element a single value.
   */
  function RangeTail(l: nat, rest: string, b: Bounds): Element
  {
    if |rest| > 0 && rest[0] == ':' then
      var t := if |rest| > 1 then rest[1..] else rest;
      if t[0] == '*' then Close(l, b.hi, b)
      else
        var n := ReadNumber(t).0;
        if n == 0 then Fail else Close(l, Outlook(n, b.hi), b)
    else Endpoints(l, l)
  }

  function Close(l: nat, r: nat, b: Bounds): Element {
    if r == 0 then Stop else Endpoints(l, Clip(r, b))
  }

  /** Either endpoint being zero ends the loop. */
  function Endpoints(l: nat, r: nat): (el: Element)
    ensures el.Span? ==> el.l > 0 && el.r > 0
  {
    if l == 0 || r == 0 then Stop else Span(l, r)
  }

  // ---------------------------------------------------------------------
  // The range loop

  /** Where a UID sits on the axis the set is written against. */
  function Coord(ix: Index, uid: bool, u: Uid): nat
    requires u in ix.ids
  {
    if uid then u else ix.ids[u]
  }

  /** Reference: the index entries whose coordinate lies in [i, j]. */
  function Window(ix: Index, uid: bool, i: nat, j: nat): (w: Found)
    ensures Within(w, ix.ids)
  {
    map u | u in ix.ids && i <= Coord(ix, uid, u) <= j :: ix.ids[u]
  }

  /**
   * One turn of the range loop: look the value up in the UID map (or the
   * MSN map) and record the entry it names, keyed by UID.
   */
  function Visit(ix: Index, uid: bool, i: nat, acc: Found): Found {
    if uid then
      if i in ix.ids then acc[i := ix.ids[i]] else acc
    else
      if i in ix.msn then acc[ix.msn[i] := i] else acc
  }

  /** The loop `for (i = from; i <= to; i++)` adding to `acc`. */
  function Collect(ix: Index, uid: bool, i: nat, j: nat, acc: Found): (r: Found)
    ensures uid || WellNumbered(ix) ==> r == acc + Window(ix, uid, i, j)
    decreases j + 1 - i
  {
    if i > j then
      assert Window(ix, uid, i, j) == map[];
      acc
    else
      var next := Visit(ix, uid, i, acc);
      assert uid || WellNumbered(ix) ==> next + Window(ix, uid, i + 1, j) == acc + Window(ix, uid, i, j) by {
        if uid || WellNumbered(ix) {
          VisitWindow(ix, uid, i, j, acc);
        }
      }
      Collect(ix, uid, i + 1, j, next)
  }

  lemma VisitWindow(ix: Index, uid: bool, i: nat, j: nat, acc: Found)
    requires uid || WellNumbered(ix)
    requires i <= j
    ensures Visit(ix, uid, i, acc) + Window(ix, uid, i + 1, j) == acc + Window(ix, uid, i, j)
  {
    if uid {
      VisitWindowUid(ix, i, j, acc);
    } else {
      VisitWindowMsn(ix, i, j, acc);
    }
  }

  lemma VisitWindowUid(ix: Index, i: nat, j: nat, acc: Found)
    requires i <= j
    ensures Visit(ix, true, i, acc) + Window(ix, true, i + 1, j) == acc + Window(ix, true, i, j)
  {
    var w := Window(ix, true, i, j);
    var w1 := Window(ix, true, i + 1, j);
    if i in ix.ids {
      assert w == w1[i := ix.ids[i]];
      UpdateUnion(acc, w1, i, ix.ids[i]);
    } else {
      assert w == w1;
    }
  }

  lemma VisitWindowMsn(ix: Index, i: nat, j: nat, acc: Found)
    requires WellNumbered(ix)
    requires i <= j
    ensures Visit(ix, false, i, acc) + Window(ix, false, i + 1, j) == acc + Window(ix, false, i, j)
  {
    if i in ix.msn {
      var u := ix.msn[i];
      assert u in ix.ids && ix.ids[u] == i;
      assert forall v | v in ix.ids && ix.ids[v] == i :: v == u by {
        forall v | v in ix.ids && ix.ids[v] == i ensures v == u {
          assert ix.msn[ix.ids[v]] == v;
        }
      }
      VisitHit(ix, i, j, acc, u);
    } else {
      assert forall v | v in ix.ids :: ix.ids[v] != i by {
        forall v | v in ix.ids ensures ix.ids[v] != i {
          assert ix.ids[v] in ix.msn;
        }
      }
      VisitMiss(ix, i, j, acc);
    }
  }

  lemma VisitHit(ix: Index, i: nat, j: nat, acc: Found, u: Uid)
    requires i <= j
    requires i in ix.msn && ix.msn[i] == u
    requires u in ix.ids && ix.ids[u] == i
    requires forall v | v in ix.ids && ix.ids[v] == i :: v == u
    ensures Visit(ix, false, i, acc) + Window(ix, false, i + 1, j) == acc + Window(ix, false, i, j)
  {
    assert Visit(ix, false, i, acc) == acc[u := i];
    WindowHit(ix, i, j, u);
    UpdateUnion(acc, Window(ix, false, i + 1, j), u, i);
  }

  lemma VisitMiss(ix: Index, i: nat, j: nat, acc: Found)
    requires i !in ix.msn
    requires forall v | v in ix.ids :: ix.ids[v] != i
    ensures Visit(ix, false, i, acc) + Window(ix, false, i + 1, j) == acc + Window(ix, false, i, j)
  {
    WindowMiss(ix, i, j);
  }

  lemma WindowHit(ix: Index, i: nat, j: nat, u: Uid)
    requires i <= j
    requires u in ix.ids && ix.ids[u] == i
    requires forall v | v in ix.ids && ix.ids[v] == i :: v == u
    ensures u !in Window(ix, false, i + 1, j)
    ensures Window(ix, false, i, j) == Window(ix, false, i + 1, j)[u := i]
  {
  }

  lemma WindowMiss(ix: Index, i: nat, j: nat)
    requires forall v | v in ix.ids :: ix.ids[v] != i
    ensures Window(ix, false, i, j) == Window(ix, false, i + 1, j)
  {
  }

  lemma UpdateUnion(acc: Found, w: Found, u: Uid, x: Msn)
    requires u !in w
    ensures acc[u := x] + w == acc + w[u := x]
  {
  }

  /** The window of a parsed range, whichever way round it was written. */
  function SpanWindow(ix: Index, uid: bool, el: Element): Found
    requires el.Span?
  {
    Window(ix, uid, Min(el.l, el.r), Max(el.l, el.r))
  }

  /**
   * UID `u` is named by one of the elements, every element up to and
   * including that one having parsed as a range.
   */
  ghost predicate Reached(fields: seq<string>, b: Bounds, ix: Index, uid: bool, u: Uid) {
    exists k | 0 <= k < |fields| ::
      && (forall j | 0 <= j <= k :: ParseElement(fields[j], b).Span?)
      && u in SpanWindow(ix, uid, ParseElement(fields[k], b))
  }

  /** Some element fails to parse before any element stops the loop. */
  ghost predicate Fails(fields: seq<string>, b: Bounds) {
    exists k | 0 <= k < |fields| ::
      && ParseElement(fields[k], b) == Fail
      && (forall j | 0 <= j < k :: ParseElement(fields[j], b).Span?)
  }

  /** The loop over the comma-separated elements. */
  function Evaluate(fields: seq<string>, b: Bounds, ix: Index, uid: bool, acc: Found): (r: Option<Found>)
    ensures r.None? <==> Fails(fields, b)
    ensures r.Some? && (uid || WellNumbered(ix)) ==>
      forall u :: u in r.value <==> u in acc || Reached(fields, b, ix, uid, u)
    ensures r.Some? && (uid || WellNumbered(ix)) && Within(acc, ix.ids) ==> Within(r.value, ix.ids)
    decreases |fields|
  {
    if fields == [] then Some(acc)
    else
      var el := ParseElement(fields[0], b);
      match el
      case Stop =>
        assert !Fails(fields, b) by {
          assert !ParseElement(fields[0], b).Span? && ParseElement(fields[0], b) != Fail;
        }
        NotReachedAfterStop(fields, b, ix, uid);
        Some(acc)
      case Fail =>
        assert Fails(fields, b) by {
          assert ParseElement(fields[0], b) == Fail;
        }
        None
      case Span(l, r) =>
        var next := Collect(ix, uid, Min(l, r), Max(l, r), acc);
        var rest := Evaluate(fields[1..], b, ix, uid, next);
        EvaluateStep(fields, b, ix, uid, acc, next, rest);
        rest
  }

  lemma NotReachedAfterStop(fields: seq<string>, b: Bounds, ix: Index, uid: bool)
    requires |fields| > 0 && ParseElement(fields[0], b) == Stop
    ensures forall u :: !Reached(fields, b, ix, uid, u)
  {
    assert !ParseElement(fields[0], b).Span?;
  }

  /** Relates the outcome for `fields` to the outcome for its tail. */
  lemma EvaluateStep(fields: seq<string>, b: Bounds, ix: Index, uid: bool, acc: Found, next: Found, rest: Option<Found>)
    requires |fields| > 0 && ParseElement(fields[0], b).Span?
    requires next == Collect(ix, uid, Min(ParseElement(fields[0], b).l, ParseElement(fields[0], b).r),
                             Max(ParseElement(fields[0], b).l, ParseElement(fields[0], b).r), acc)
    requires rest.None? <==> Fails(fields[1..], b)
    requires rest.Some? && (uid || WellNumbered(ix)) ==>
      forall u :: u in rest.value <==> u in next || Reached(fields[1..], b, ix, uid, u)
    requires rest.Some? && (uid || WellNumbered(ix)) && Within(next, ix.ids) ==> Within(rest.value, ix.ids)
    ensures rest.None? <==> Fails(fields, b)
    ensures rest.Some? && (uid || WellNumbered(ix)) ==>
      forall u :: u in rest.value <==> u in acc || Reached(fields, b, ix, uid, u)
    ensures rest.Some? && (uid || WellNumbered(ix)) && Within(acc, ix.ids) ==> Within(rest.value, ix.ids)
  {
    FailsShift(fields, b);
    if rest.Some? && (uid || WellNumbered(ix)) {
      var w := SpanWindow(ix, uid, ParseElement(fields[0], b));
      assert next == acc + w;
      forall u ensures u in rest.value <==> u in acc || Reached(fields, b, ix, uid, u) {
        ReachedShift(fields, b, ix, uid, u);
      }
      if Within(acc, ix.ids) {
        assert Within(next, ix.ids);
      }
    }
  }

  lemma FailsShift(fields: seq<string>, b: Bounds)
    requires |fields| > 0 && ParseElement(fields[0], b).Span?
    ensures Fails(fields, b) <==> Fails(fields[1..], b)
  {
    var tail := fields[1..];
    if Fails(fields, b) {
      var k :| 0 <= k < |fields| && ParseElement(fields[k], b) == Fail
        && (forall j | 0 <= j < k :: ParseElement(fields[j], b).Span?);
      assert k > 0;
      assert ParseElement(tail[k - 1], b) == Fail;
      assert forall j | 0 <= j < k - 1 :: tail[j] == fields[j + 1];
    }
    if Fails(tail, b) {
      var k :| 0 <= k < |tail| && ParseElement(tail[k], b) == Fail
        && (forall j | 0 <= j < k :: ParseElement(tail[j], b).Span?);
      assert ParseElement(fields[k + 1], b) == Fail;
      forall j | 0 <= j < k + 1 ensures ParseElement(fields[j], b).Span? {
        if j > 0 {
          assert fields[j] == tail[j - 1];
        }
      }
    }
  }

  lemma ReachedShift(fields: seq<string>, b: Bounds, ix: Index, uid: bool, u: Uid)
    requires |fields| > 0 && ParseElement(fields[0], b).Span?
    ensures Reached(fields, b, ix, uid, u) <==>
      u in SpanWindow(ix, uid, ParseElement(fields[0], b)) || Reached(fields[1..], b, ix, uid, u)
  {
    if Reached(fields, b, ix, uid, u) && u !in SpanWindow(ix, uid, ParseElement(fields[0], b)) {
      ReachedLater(fields, b, ix, uid, u);
    }
    if u in SpanWindow(ix, uid, ParseElement(fields[0], b)) {
      assert forall j | 0 <= j <= 0 :: ParseElement(fields[j], b).Span?;
    }
    if Reached(fields[1..], b, ix, uid, u) {
      ReachedEarlier(fields, b, ix, uid, u);
    }
  }

  /** Reached, but not by the first element: reached by the rest. */
  lemma ReachedLater(fields: seq<string>, b: Bounds, ix: Index, uid: bool, u: Uid)
    requires |fields| > 0 && Reached(fields, b, ix, uid, u)
    requires u !in SpanWindow(ix, uid, ParseElement(fields[0], b))
    ensures Reached(fields[1..], b, ix, uid, u)
  {
    var tail := fields[1..];
    var k :| 0 <= k < |fields|
      && (forall j | 0 <= j <= k :: ParseElement(fields[j], b).Span?)
      && u in SpanWindow(ix, uid, ParseElement(fields[k], b));
    assert k > 0;
    assert tail[k - 1] == fields[k];
    forall j | 0 <= j <= k - 1 ensures ParseElement(tail[j], b).Span? {
      assert tail[j] == fields[j + 1];
    }
  }

  /** Reached by the rest after a range: reached. */
  lemma ReachedEarlier(fields: seq<string>, b: Bounds, ix: Index, uid: bool, u: Uid)
    requires |fields| > 0 && ParseElement(fields[0], b).Span?
    requires Reached(fields[1..], b, ix, uid, u)
    ensures Reached(fields, b, ix, uid, u)
  {
    var tail := fields[1..];
    var k :| 0 <= k < |tail|
      && (forall j | 0 <= j <= k :: ParseElement(tail[j], b).Span?)
      && u in SpanWindow(ix, uid, ParseElement(tail[k], b));
    assert fields[k + 1] == tail[k];
    forall j | 0 <= j <= k + 1 ensures ParseElement(fields[j], b).Span? {
      if j > 0 {
        assert fields[j] == tail[j - 1];
      }
    }
  }

  /**
   * `dbmail_mailbox_get_set`: an empty index gives an empty result; otherwise
   * the set's elements are evaluated in turn, a failing element making the
   * whole result NULL (`None`).
   */
  function GetSet(ix: Index, s: string, uid: bool, messages: Option<nat>): (r: Option<Found>)
    ensures |ix.ids| == 0 ==> r == Some(map[])
    ensures |ix.ids| > 0 ==> (r.None? <==> Fails(Split(s, ','), SetBounds(ix, uid, messages)))
    ensures (uid || WellNumbered(ix)) && r.Some? ==> Within(r.value, ix.ids)
  {
    if |ix.ids| == 0 then Some(map[])
    else Evaluate(Split(s, ','), SetBounds(ix, uid, messages), ix, uid, map[])
  }

  // ---------------------------------------------------------------------
  // Properties of whole sets

  /** UIDs are non-zero numbers (`nz-number` in section 9 of RFC 3501). */
  predicate PositiveUids(ix: Index) {
    forall u | u in ix.ids :: u > 0
  }

  /** Every entry's coordinate lies within the bounds. */
  predicate Covers(ix: Index, uid: bool, b: Bounds) {
    forall u | u in ix.ids :: b.lo <= Coord(ix, uid, u) <= b.hi
  }

  /**
   * The bounds span the whole index: over UIDs always, over sequence numbers
   * when the message count agrees with the index.
   */
  ghost predicate InSync(ix: Index, uid: bool, messages: Option<nat>) {
    if uid then PositiveUids(ix)
    else WellNumbered(ix) && messages.GetOr(|ix.ids|) == |ix.ids|
  }

  lemma BoundsCover(ix: Index, uid: bool, messages: Option<nat>)
    requires |ix.ids| > 0 && InSync(ix, uid, messages)
    ensures Covers(ix, uid, SetBounds(ix, uid, messages))
    ensures 1 <= SetBounds(ix, uid, messages).lo <= SetBounds(ix, uid, messages).hi
  {
    var b := SetBounds(ix, uid, messages);
    if !uid {
      forall u | u in ix.ids ensures b.lo <= Coord(ix, uid, u) <= b.hi {
        assert ix.ids[u] in ix.msn;
      }
    }
  }

  /** What a set of one element evaluates to. */
  function SingleResult(ix: Index, uid: bool, el: Element): Option<Found> {
    match el
    case Stop => Some(map[])
    case Fail => None
    case Span(_, _) => Some(SpanWindow(ix, uid, el))
  }

  lemma SingleElement(ix: Index, x: string, uid: bool, messages: Option<nat>)
    requires |ix.ids| > 0 && (uid || WellNumbered(ix))
    requires ',' !in x
    ensures GetSet(ix, x, uid, messages) == SingleResult(ix, uid, ParseElement(x, SetBounds(ix, uid, messages)))
  {
    SplitNoSep(x, ',');
    var fields := Split(x, ',');
    var b := SetBounds(ix, uid, messages);
    var el := ParseElement(x, b);
    if el.Span? {
      var next := Collect(ix, uid, Min(el.l, el.r), Max(el.l, el.r), map[]);
      assert fields[1..] == [];
      assert Evaluate(fields[1..], b, ix, uid, next) == Some(next);
      assert next == SpanWindow(ix, uid, el);
    }
  }

  lemma DigitsHaveNoSeparator(n: nat)
    ensures ',' !in NatToString(n) && ':' !in NatToString(n) && '*' !in NatToString(n)
  {
    var s := NatToString(n);
    assert forall i | 0 <= i < |s| :: IsDigit(s[i]);
  }

  /** A decimal number at the front of an element is its left endpoint. */
  lemma ParseLeading(a: nat, rest: string, b: Bounds)
    requires rest == [] || !IsDigit(rest[0])
    ensures ParseElement(NatToString(a) + rest, b) ==
      if a == 0 then Fail else RangeTail(Max(Outlook(a, b.hi), b.lo), rest, b)
  {
    var e := NatToString(a) + rest;
    ReadRendered(a, rest);
    assert e[0] == NatToString(a)[0];
  }

  /** `:M` after the left endpoint, with `M` written in decimal. */
  lemma RangeTailNumber(l: nat, c: nat, b: Bounds)
    ensures RangeTail(l, ":" + NatToString(c), b) ==
      if c == 0 then Fail else Close(l, Outlook(c, b.hi), b)
  {
    var sc := NatToString(c);
    var rest := ":" + sc;
    assert rest[1..] == sc;
    ReadRendered(c, []);
    assert sc + [] == sc;
  }

  /** The element `N:M`, both numbers in decimal. */
  function RangeText(a: nat, c: nat): string {
    NatToString(a) + (":" + NatToString(c))
  }

  /** `N:M` written with decimal numbers. */
  lemma ParseRange(a: nat, c: nat, b: Bounds)
    ensures ParseElement(RangeText(a, c), b) ==
      if a == 0 || c == 0 then Fail
      else Close(Max(Outlook(a, b.hi), b.lo), Outlook(c, b.hi), b)
  {
    ParseLeading(a, ":" + NatToString(c), b);
    RangeTailNumber(Max(Outlook(a, b.hi), b.lo), c, b);
  }

  /** `N` written as a decimal number. */
  lemma ParseSingle(a: nat, b: Bounds)
    ensures ParseElement(NatToString(a), b) ==
      if a == 0 then Fail else Endpoints(Max(Outlook(a, b.hi), b.lo), Max(Outlook(a, b.hi), b.lo))
  {
    ReadRendered(a, []);
    assert NatToString(a) + [] == NatToString(a);
  }

  /** `N:*` written with a decimal number. */
  lemma ParseToHighest(a: nat, b: Bounds)
    ensures ParseElement(NatToString(a) + ":*", b) ==
      if a == 0 then Fail else Close(Max(Outlook(a, b.hi), b.lo), b.hi, b)
  {
    var sa := NatToString(a);
    ReadRendered(a, ":*");
    var rest: string := ":*";
    assert rest[1..] == "*";
  }

  /**
   * Within the bounds, a range whose left end was only raised to `lo`
   * selects what the fully clipped range selects.
   */
  lemma WindowClip(ix: Index, uid: bool, b: Bounds, x: nat, y: nat)
    requires Covers(ix, uid, b) && b.lo <= b.hi
    ensures var l, r := Max(x, b.lo), Clip(y, b);
      Window(ix, uid, Min(l, r), Max(l, r)) ==
      Window(ix, uid, Min(Clip(x, b), r), Max(Clip(x, b), r))
  {
  }

  /** With both ends inside the bounds, `N:M` parses as a range. */
  lemma SpanOfRange(a: nat, c: nat, b: Bounds)
    requires 1 <= b.lo <= b.hi && a != 0 && c != 0
    ensures ParseElement(RangeText(a, c), b) ==
      Span(Max(Outlook(a, b.hi), b.lo), Clip(Outlook(c, b.hi), b))
  {
    ParseRange(a, c, b);
  }

  /** What `N:M` selects: nothing valid if either is zero, else what lies between the two ends clipped into the bounds. */
  function RangeSelection(ix: Index, uid: bool, b: Bounds, a: nat, c: nat): Option<Found> {
    var x, y := Clip(Outlook(a, b.hi), b), Clip(Outlook(c, b.hi), b);
    if a == 0 || c == 0 then None else Some(Window(ix, uid, Min(x, y), Max(x, y)))
  }

  /** `N:M` selects what lies between its two ends, each clipped into the bounds. */
  lemma RangeResult(ix: Index, a: nat, c: nat, uid: bool, messages: Option<nat>)
    requires |ix.ids| > 0 && InSync(ix, uid, messages)
    ensures GetSet(ix, RangeText(a, c), uid, messages) ==
      RangeSelection(ix, uid, SetBounds(ix, uid, messages), a, c)
  {
    var b := SetBounds(ix, uid, messages);
    BoundsCover(ix, uid, messages);
    DigitsHaveNoSeparator(a);
    DigitsHaveNoSeparator(c);
    var e := RangeText(a, c);
    assert ',' !in e;
    SingleElement(ix, e, uid, messages);
    if a == 0 || c == 0 {
      ParseRange(a, c, b);
    } else {
      SpanOfRange(a, c, b);
      WindowClip(ix, uid, b, Outlook(a, b.hi), Outlook(c, b.hi));
    }
  }

  lemma RangeSelectionSymmetric(ix: Index, uid: bool, b: Bounds, a: nat, c: nat)
    ensures RangeSelection(ix, uid, b, a, c) == RangeSelection(ix, uid, b, c, a)
  {
  }

  /** A range means the same whichever end is written first (`4:2` is `2:4`). */
  lemma ReversedRange(ix: Index, a: nat, c: nat, uid: bool, messages: Option<nat>)
    requires |ix.ids| > 0 && InSync(ix, uid, messages)
    ensures GetSet(ix, RangeText(a, c), uid, messages) ==
            GetSet(ix, RangeText(c, a), uid, messages)
  {
    RangeResult(ix, a, c, uid, messages);
    RangeResult(ix, c, a, uid, messages);
    RangeSelectionSymmetric(ix, uid, SetBounds(ix, uid, messages), a, c);
  }

  /** `*` names the highest UID. */
  lemma StarIsHighest(ix: Index, messages: Option<nat>)
    requires |ix.ids| > 0 && PositiveUids(ix)
    ensures var hi := SetBounds(ix, true, messages).hi;
      GetSet(ix, "*", true, messages) == Some(map[hi := ix.ids[hi]])
  {
    var b := SetBounds(ix, true, messages);
    SingleElement(ix, "*", true, messages);
    assert ParseElement("*", b) == Span(b.hi, b.hi);
    assert Window(ix, true, b.hi, b.hi) == map[b.hi := ix.ids[b.hi]];
  }

  /** The Outlook literal 4294967295 means the same as `*`. */
  lemma OutlookIsStar(ix: Index, uid: bool, messages: Option<nat>)
    requires |ix.ids| > 0 && InSync(ix, uid, messages)
    ensures GetSet(ix, NatToString(OutlookHighest), uid, messages) == GetSet(ix, "*", uid, messages)
  {
    HighestLiteral(ix, OutlookHighest, uid, messages);
  }

  lemma HighestLiteral(ix: Index, a: nat, uid: bool, messages: Option<nat>)
    requires |ix.ids| > 0 && InSync(ix, uid, messages)
    requires a == OutlookHighest
    ensures GetSet(ix, NatToString(a), uid, messages) == GetSet(ix, "*", uid, messages)
  {
    var b := SetBounds(ix, uid, messages);
    BoundsCover(ix, uid, messages);
    DigitsHaveNoSeparator(a);
    SingleElement(ix, NatToString(a), uid, messages);
    SingleElement(ix, "*", uid, messages);
    ParseSingle(a, b);
    assert ParseElement("*", b) == Endpoints(b.hi, b.hi);
  }

  /** A number above the highest UID is not lowered to it: alone it selects nothing. */
  lemma AboveHighest(ix: Index, a: nat, messages: Option<nat>)
    requires |ix.ids| > 0 && PositiveUids(ix)
    requires a > SetBounds(ix, true, messages).hi && a != OutlookHighest
    ensures GetSet(ix, NatToString(a), true, messages) == Some(map[])
  {
    var b := SetBounds(ix, true, messages);
    DigitsHaveNoSeparator(a);
    SingleElement(ix, NatToString(a), true, messages);
    ParseSingle(a, b);
    assert Window(ix, true, a, a) == map[];
  }

  /** `N:*` with `N` above the highest UID selects the highest UID alone. */
  lemma AboveHighestToStar(ix: Index, a: nat, messages: Option<nat>)
    requires |ix.ids| > 0 && PositiveUids(ix)
    requires a > SetBounds(ix, true, messages).hi && a != OutlookHighest
    ensures var hi := SetBounds(ix, true, messages).hi;
      GetSet(ix, NatToString(a) + ":*", true, messages) == Some(map[hi := ix.ids[hi]])
  {
    var b := SetBounds(ix, true, messages);
    var e := NatToString(a) + ":*";
    BoundsCover(ix, true, messages);
    ToHighestElement(a, b);
    SingleElement(ix, e, true, messages);
    WindowAtTop(ix, b.hi, a);
  }

  /** `N:*` with `N` above the bounds parses as the range from `N` down to the highest value. */
  lemma ToHighestElement(a: nat, b: Bounds)
    requires 1 <= b.lo <= b.hi < a && a != OutlookHighest
    ensures ',' !in NatToString(a) + ":*"
    ensures ParseElement(NatToString(a) + ":*", b) == Span(a, b.hi)
  {
    DigitsHaveNoSeparator(a);
    ParseToHighest(a, b);
  }

  lemma WindowAtTop(ix: Index, hi: Uid, a: nat)
    requires hi in ix.ids && hi <= a
    requires forall u | u in ix.ids :: u <= hi
    ensures Window(ix, true, hi, a) == map[hi := ix.ids[hi]]
  {
    var w := Window(ix, true, hi, a);
    assert w.Keys == {hi} by {
      forall u | u in w ensures u == hi {
        assert u in ix.ids;
      }
      assert hi in w;
    }
  }

  /** `6:*` over UIDs 1 to 5 selects UID 5 alone. */
  lemma SixToStarOverFive(ix: Index)
    requires ix.ids.Keys == {1, 2, 3, 4, 5}
    ensures GetSet(ix, "6:*", true, None) == Some(map[5 := ix.ids[5]])
  {
    assert |ix.ids| > 0 by {
      assert 5 in ix.ids;
    }
    assert SetBounds(ix, true, None).hi == 5;
    assert NatToString(6) == "6";
    AboveHighestToStar(ix, 6, None);
  }

  /** `keyword X` becomes the set `"0"`, which the evaluator rejects. */
  lemma ZeroFails(ix: Index, uid: bool, messages: Option<nat>)
    requires |ix.ids| > 0 && (uid || WellNumbered(ix))
    ensures GetSet(ix, "0", uid, messages) == None
  {
    SingleElement(ix, "0", uid, messages);
    ReadRendered(0, []);
    assert NatToString(0) == "0";
  }

  /** An element that is neither a number nor `*` makes the call fail. */
  lemma NonNumericFails(ix: Index, s: string, uid: bool, messages: Option<nat>)
    requires |ix.ids| > 0
    requires |s| > 0 && !IsDigit(s[0]) && s[0] != '*' && s[0] != ','
    ensures GetSet(ix, s, uid, messages) == None
  {
    var fields := Split(s, ',');
    assert fields[0] == [s[0]] + Split(s[1..], ',')[0];
    assert ParseElement(fields[0], SetBounds(ix, uid, messages)) == Fail;
  }

  /** An empty element ends the evaluation quietly with what was gathered. */
  lemma EmptyElementStops(ix: Index, t: string, uid: bool, messages: Option<nat>)
    ensures GetSet(ix, "," + t, uid, messages) == Some(map[])
  {
    var s := "," + t;
    assert s[1..] == t;
    assert Split(s, ',')[0] == "";
  }
}
