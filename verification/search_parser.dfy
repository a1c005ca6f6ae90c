/**
 * The search-key parser: `dbmail_mailbox_build_imap_search`,
 * `_handle_search_args`, `_handle_sort_args` and `_append_sort`. It reads an
 * IMAP SEARCH key list (section 6.4.4 of RFC 3501), optionally preceded by a
 * SORT criteria list (section 3 of RFC 5256), moving a token cursor and
 * appending nodes under the tree's current node.
 *
 * Positions at or past the end of the key list read as the terminating
 * NULL. The date check `check_date` is a parameter (`validDate`).
 */
module SearchParser {
  import opened Options
  import opened Text
  import opened SearchTree

  /** The parser's state: the tree, the declared charset and the cursor. */
  datatype Parser = Parser(tree: Tree, charset: Option<string>, idx: nat)

  /** What kind of command the keys belong to (`search_order_t`). */
  datatype Order = Unordered | Sorted | ThreadOrderedSubject | ThreadReferences

  predicate ParserOk(keys: seq<string>, p: Parser) {
    Valid(p.tree) && p.idx <= |keys| + 1
  }

  /** The parser moved forward and only appended to the tree. */
  predicate Progress(p: Parser, q: Parser) {
    p.idx <= q.idx && Extends(p.tree, q.tree)
  }

  function Advance(p: Parser, n: nat): Parser {
    p.(idx := p.idx + n)
  }

  /** Append a leaf under the current node and consume `n` tokens. */
  function Leaf(p: Parser, key: Key, n: nat): (r: (int, Parser))
    requires Valid(p.tree)
    ensures r.0 == 0 && Valid(r.1.tree) && Extends(p.tree, r.1.tree)
    ensures r.1.idx == p.idx + n && r.1.charset == p.charset
    ensures r.1.tree == AppendSearch(p.tree, key, false)
  {
    (0, Parser(AppendSearch(p.tree, key, false), p.charset, p.idx + n))
  }

  function Pop(p: Parser): (r: Parser)
    requires Valid(p.tree)
    ensures Valid(r.tree) && r.tree.nodes == p.tree.nodes && r.idx == p.idx && r.charset == p.charset
  {
    p.(tree := PopSearch(p.tree))
  }

  // ---------------------------------------------------------------------
  // Keywords

  /**
   * The words the parser compares tokens with (`MATCH`, an ASCII
   * case-insensitive comparison), and `Other` for every other token.
   */
  datatype Word =
    | All | Uid | Keyword | Unkeyword | Header | BodyWord | TextWord | Larger | Smaller
    | Answered | Deleted | Flagged | Recent | Seen | Draft | New | Old
    | Unanswered | Undeleted | Unflagged | Unseen | Undraft
    | Bcc | Cc | From | To | Subject
    | SentBefore | SentOn | SentSince | BeforeWord | OnWord | SinceWord
    | NotWord | OrWord | LParen | RParen | Charset
    | Reverse | Arrival | Size | DateWord
    | Utf8 | UsAscii | Latin1
    | Other

  /** How each keyword is spelled, in lower case. */
  function Spelling(w: Word): string {
    match w
    case All => "all" case Uid => "uid" case Keyword => "keyword" case Unkeyword => "unkeyword"
    case Header => "header" case BodyWord => "body" case TextWord => "text"
    case Larger => "larger" case Smaller => "smaller"
    case Answered => "answered" case Deleted => "deleted" case Flagged => "flagged"
    case Recent => "recent" case Seen => "seen" case Draft => "draft" case New => "new" case Old => "old"
    case Unanswered => "unanswered" case Undeleted => "undeleted" case Unflagged => "unflagged"
    case Unseen => "unseen" case Undraft => "undraft"
    case Bcc => "bcc" case Cc => "cc" case From => "from" case To => "to" case Subject => "subject"
    case SentBefore => "sentbefore" case SentOn => "senton" case SentSince => "sentsince"
    case BeforeWord => "before" case OnWord => "on" case SinceWord => "since"
    case NotWord => "not" case OrWord => "or" case LParen => "(" case RParen => ")" case Charset => "charset"
    case Reverse => "reverse" case Arrival => "arrival" case Size => "size" case DateWord => "date"
    case Utf8 => "utf-8" case UsAscii => "us-ascii" case Latin1 => "iso-8859-1"
    case Other => ""
  }

  /** Every keyword, in the order `_handle_search_args` tests them. */
  const Keywords: seq<Word> := [
    All, Uid, Answered, Deleted, Flagged, Recent, Seen, Keyword, Draft, New, Old,
    Unanswered, Undeleted, Unflagged, Unseen, Unkeyword, Undraft,
    Bcc, Cc, From, To, Subject, Header, SentBefore, SentOn, SentSince,
    BeforeWord, OnWord, SinceWord, BodyWord, TextWord, Larger, Smaller,
    NotWord, OrWord, LParen, RParen, Charset,
    Reverse, Arrival, Size, DateWord, Utf8, UsAscii, Latin1]

  /** The first word of `table` spelled `k`, or `Other`. */
  function Lookup(k: string, table: seq<Word>): (w: Word)
    ensures w != Other ==> k == Spelling(w) && w in table
    ensures w == Other ==> forall x | x in table && x != Other :: k != Spelling(x)
  {
    if table == [] then Other
    else if table[0] != Other && k == Spelling(table[0]) then table[0]
    else Lookup(k, table[1..])
  }

  /** The keyword a token matches, ignoring ASCII case. */
  function Classify(key: string): (w: Word)
    ensures w != Other ==> Lower(key) == Spelling(w)
  {
    Lookup(Lower(key), Keywords)
  }

  /** The word at position `i`; the terminating NULL past the end matches nothing. */
  function WordAt(keys: seq<string>, i: nat): Word {
    if i < |keys| then Classify(keys[i]) else Other
  }

  predicate IsCharsetName(w: Word) {
    w == Utf8 || w == UsAscii || w == Latin1
  }

  /** A token that ends the sort criteria: a charset name, in any ASCII case. */
  predicate CharsetToken(k: string) {
    Lower(k) in {"utf-8", "us-ascii", "iso-8859-1"}
  }

  // ---------------------------------------------------------------------
  // Flag keys

  function Test(column: string, value: nat): seq<FlagTest> {
    [FlagTest(column, value)]
  }

  /** The single-token flag keys and the column tests they stand for. */
  function FlagKeyword(w: Word): Option<seq<FlagTest>> {
    match w
    case Answered => Some(Test("answered_flag", 1))
    case Deleted => Some(Test("deleted_flag", 1))
    case Flagged => Some(Test("flagged_flag", 1))
    case Recent => Some(Test("recent_flag", 1))
    case Seen => Some(Test("seen_flag", 1))
    case Draft => Some(Test("draft_flag", 1))
    case New => Some([FlagTest("seen_flag", 0), FlagTest("recent_flag", 1)])
    case Old => Some(Test("recent_flag", 0))
    case Unanswered => Some(Test("answered_flag", 0))
    case Undeleted => Some(Test("deleted_flag", 0))
    case Unflagged => Some(Test("flagged_flag", 0))
    case Unseen => Some(Test("seen_flag", 0))
    case Undraft => Some(Test("draft_flag", 0))
    case _ => None
  }

  /** The flags `not` folds into a single flag key instead of a NOT node. */
  function NegatedFlag(w: Word): Option<seq<FlagTest>> {
    match w
    case Answered => Some(Test("answered_flag", 0))
    case Deleted => Some(Test("deleted_flag", 0))
    case Flagged => Some(Test("flagged_flag", 0))
    case Recent => Some(Test("recent_flag", 0))
    case Seen => Some(Test("seen_flag", 0))
    case Draft => Some(Test("draft_flag", 0))
    case New => Some([FlagTest("seen_flag", 1), FlagTest("recent_flag", 0)])
    case Old => Some(Test("recent_flag", 1))
    case _ => None
  }

  /** Keys followed by one argument that becomes a header needle. */
  function HeaderField(w: Word): Option<string> {
    match w
    case Bcc => Some("bcc")
    case Cc => Some("cc")
    case From => Some("from")
    case To => Some("to")
    case Subject => Some("subject")
    case _ => None
  }

  function SentRel(w: Word): Option<DateRel> {
    match w
    case SentBefore => Some(Before)
    case SentOn => Some(On)
    case SentSince => Some(Since)
    case _ => None
  }

  function DateRelOf(w: Word): Option<DateRel> {
    match w
    case BeforeWord => Some(Before)
    case OnWord => Some(On)
    case SinceWord => Some(Since)
    case _ => None
  }

  // ---------------------------------------------------------------------
  // The mutually recursive parser

  /**
   * The keys of `_handle_search_args` that append one leaf: `None` when the
   * word is none of them; otherwise whether the arguments are present and
   * valid, the leaf to append and how many tokens it takes.
   */
  function LeafSpec(w: Word, keys: seq<string>, validDate: string -> bool, i: nat, charset: Option<string>): (s: Option<(bool, Key, nat)>)
    requires i < |keys|
    ensures s.Some? ==> 1 <= s.value.2 <= 3
    ensures s.Some? && s.value.0 ==> i + s.value.2 <= |keys|
  {
    var hasArg := i + 1 < |keys|;
    var arg := if hasArg then keys[i + 1] else "";
    match w
    case All => Some((true, SetKey("1:*", true), 1))
    case Uid => Some((hasArg && IsMsgSet(arg), SetKey(arg, true), 2))
    case Keyword => Some((hasArg, SetKey("0", false), 2))
    case Unkeyword => Some((hasArg, SetKey("1:*", false), 2))
    case Header =>
      Some((i + 2 < |keys|, HeaderKey(arg, Raw(if i + 2 < |keys| then keys[i + 2] else "")), 3))
    case BodyWord => Some((hasArg, BodyKey(Transcoded(arg, charset)), 2))
    case TextWord => Some((hasArg, TextKey(Transcoded(arg, charset)), 2))
    case Larger => Some((hasArg, SizeKey(true, ReadNumber(arg).0), 2))
    case Smaller => Some((hasArg, SizeKey(false, ReadNumber(arg).0), 2))
    case Answered | Deleted | Flagged | Recent | Seen | Draft | New | Old
       | Unanswered | Undeleted | Unflagged | Unseen | Undraft =>
      Some((true, FlagKey(FlagKeyword(w).value), 1))
    case Bcc | Cc | From | To | Subject =>
      Some((hasArg, HeaderKey(HeaderField(w).value, Transcoded(arg, charset)), 2))
    case SentBefore | SentOn | SentSince =>
      Some((hasArg, HeaderDateKey(SentRel(w).value, Transcoded(arg, charset)), 2))
    case BeforeWord | OnWord | SinceWord =>
      Some((hasArg && validDate(arg), InternalDateKey(DateRelOf(w).value, arg), 2))
    case _ => None
  }

  /**
   * A leaf key step: 0 after appending the leaf, or -1 with the parser
   * unchanged when an argument is missing or malformed.
   */
  function LeafKey(keys: seq<string>, validDate: string -> bool, p: Parser): (r: Option<(int, Parser)>)
    requires ParserOk(keys, p) && p.idx < |keys|
    ensures r.Some? ==> ParserOk(keys, r.value.1) && Progress(p, r.value.1)
    ensures r.Some? ==> r.value.0 == 0 || r.value == (-1, p)
    ensures r.Some? && r.value.0 == 0 ==> r.value.1.idx > p.idx && r.value.1.charset == p.charset
  {
    match LeafSpec(Classify(keys[p.idx]), keys, validDate, p.idx, p.charset)
    case None => None
    case Some((ok, key, n)) => Some(if ok then Leaf(p, key, n) else (-1, p))
  }

  /**
   * `_handle_search_args`: parse one search key at the cursor. Returns 0
   * after a key, 1 at the end of the keys or after `)`, and -1 for an
   * unknown key or a missing or malformed argument.
   */
  function Handle(keys: seq<string>, validDate: string -> bool, p: Parser): (r: (int, Parser))
    requires ParserOk(keys, p)
    ensures ParserOk(keys, r.1) && Progress(p, r.1)
    ensures r.0 == -1 || r.0 == 0 || r.0 == 1
    ensures r.0 == 0 ==> r.1.idx > p.idx
    ensures r.0 == 1 ==> r.1.tree == p.tree
    decreases |keys| + 2 - p.idx, 1
  {
    if p.idx >= |keys| then (1, p)
    else
      var w := Classify(keys[p.idx]);
      if LeafSpec(w, keys, validDate, p.idx, p.charset).Some? then LeafKey(keys, validDate, p).value
      else if w == NotWord || w == OrWord || w == LParen then Group(keys, validDate, p, w)
      else Rest(keys, p, w)
  }

  /** `not`, `or` and `(`: the keys that open a group node and parse inside it. */
  function Group(keys: seq<string>, validDate: string -> bool, p: Parser, w: Word): (r: (int, Parser))
    requires ParserOk(keys, p) && p.idx < |keys|
    requires w == NotWord || w == OrWord || w == LParen
    ensures ParserOk(keys, r.1) && Progress(p, r.1)
    ensures r.0 == -1 || r.0 == 0 || r.0 == 1
    ensures r.0 == 0 ==> r.1.idx > p.idx
    ensures r.0 == 1 ==> r.1.tree == p.tree
    decreases |keys| + 2 - p.idx, 0
  {
    var i := p.idx;
    if w == NotWord then
      if i + 1 >= |keys| then (-1, p)
      else if NegatedFlag(Classify(keys[i + 1])).Some? then
        Leaf(p, FlagKey(NegatedFlag(Classify(keys[i + 1])).value), 2)
      else
        var p1 := Parser(AppendSearch(p.tree, NotGroup, true), p.charset, i + 1);
        var r := Handle(keys, validDate, p1);
        ExtendsTransitive(p.tree, p1.tree, r.1.tree);
        if r.0 < 0 then r else (0, Pop(r.1))
    else if w == OrWord then
      var p1 := Parser(AppendSearch(p.tree, OrGroup, true), p.charset, i + 1);
      var r1 := Handle(keys, validDate, p1);
      ExtendsTransitive(p.tree, p1.tree, r1.1.tree);
      if r1.0 < 0 then r1
      else
        var r2 := Handle(keys, validDate, r1.1);
        ExtendsTransitive(p.tree, r1.1.tree, r2.1.tree);
        if r2.0 < 0 then r2 else (0, Pop(r2.1))
    else
      var p1 := Parser(AppendSearch(p.tree, AndGroup, true), p.charset, i + 1);
      var r := ParenLoop(keys, validDate, p1);
      ExtendsTransitive(p.tree, p1.tree, r.tree);
      (0, Pop(r))
  }

  /** The remaining keys: `)`, a message set, `charset`, or an unknown key. */
  function Rest(keys: seq<string>, p: Parser, w: Word): (r: (int, Parser))
    requires ParserOk(keys, p) && p.idx < |keys|
    ensures ParserOk(keys, r.1) && Progress(p, r.1)
    ensures r.0 == -1 || r.0 == 0 || r.0 == 1
    ensures r.0 == 0 ==> r.1.idx > p.idx
    ensures r.0 != 0 ==> r.1.tree == p.tree
    ensures r.0 == -1 ==> r.1 == p
  {
    var i := p.idx;
    if w == RParen then (1, Advance(p, 1))
    else if IsMsgSet(keys[i]) then Leaf(p, SetKey(keys[i], false), 1)
    else if w == Charset then (0, Parser(p.tree, if i + 1 < |keys| then Some(keys[i + 1]) else None, i + 2))
    else (-1, p)
  }

  /** `while (keys[idx] && (result = handle()) == 0);` starting from `prev`. */
  function SearchLoop(keys: seq<string>, validDate: string -> bool, p: Parser, prev: int): (r: (int, Parser))
    requires ParserOk(keys, p)
    requires prev == -1 || prev == 0 || prev == 1
    ensures ParserOk(keys, r.1) && Progress(p, r.1)
    ensures r.0 == -1 || r.0 == 0 || r.0 == 1
    ensures r.0 == 0 ==> r.1.idx > p.idx || (p.idx >= |keys| && prev == 0)
    ensures r.1.idx >= |keys| || r.0 != 0
    decreases |keys| + 2 - p.idx, 2
  {
    if p.idx >= |keys| then (prev, p)
    else
      var r := Handle(keys, validDate, p);
      if r.0 == 0 then
        var s := SearchLoop(keys, validDate, r.1, 0);
        ExtendsTransitive(p.tree, r.1.tree, s.1.tree);
        s
      else r
  }

  /**
   * `dbmail_mailbox_build_imap_search`: an initial message-set node (the set
   * at the cursor, or `1:*`), then the sort criteria or the thread charset,
   * then search keys until one returns non-zero or the keys run out.
   */
  function Build(keys: seq<string>, validDate: string -> bool, p: Parser, order: Order): (r: (int, Parser))
    requires ParserOk(keys, p)
    ensures ParserOk(keys, r.1) && Progress(p, r.1)
    ensures r.0 == -1 || r.0 == 0 || r.0 == 1
    ensures r.0 == 0 ==> r.1.idx > p.idx
    ensures p.idx < |keys| ==> |r.1.tree.nodes| > |p.tree.nodes|
    decreases |keys| + 2 - p.idx, 3
  {
    var i := p.idx;
    if i >= |keys| then (1, p)
    else
      var p1 := Parser(AppendSearch(p.tree, InitialSet(keys, i), false), p.charset,
                       if IsMsgSet(keys[i]) then i + 1 else i);
      match order
      case Unordered =>
        var r := SearchLoop(keys, validDate, p1, 0);
        ExtendsTransitive(p.tree, p1.tree, r.1.tree);
        r
      case Sorted =>
        var s := SortLoop(keys, p1, SortKey("", []));
        var r := SearchLoop(keys, validDate, s.1, s.0);
        ExtendsTransitive(p.tree, p1.tree, s.1.tree);
        ExtendsTransitive(p.tree, s.1.tree, r.1.tree);
        r
      case _ =>
        var k := p1.idx + 1;
        if IsCharsetName(WordAt(keys, k)) then
          var r := SearchLoop(keys, validDate, p1.(idx := k + 1), 0);
          ExtendsTransitive(p.tree, p1.tree, r.1.tree);
          r
        else (-1, p1.(idx := k))
  }

  /** The message-set node every search (and every parenthesised group) starts with. */
  function InitialSet(keys: seq<string>, i: nat): Key
    requires i < |keys|
  {
    SetKey(if IsMsgSet(keys[i]) then keys[i] else "1:*", false)
  }

  /** The body of `(`: `while (build(..., 0) == 0);`, whatever ends it. */
  function ParenLoop(keys: seq<string>, validDate: string -> bool, p: Parser): (r: Parser)
    requires ParserOk(keys, p)
    ensures ParserOk(keys, r) && Progress(p, r)
    decreases |keys| + 2 - p.idx, 4
  {
    var b := Build(keys, validDate, p, Unordered);
    if b.0 == 0 then
      var r := ParenLoop(keys, validDate, b.1);
      ExtendsTransitive(p.tree, b.1.tree, r.tree);
      r
    else b.1
  }

  // ---------------------------------------------------------------------
  // Sort criteria

  /** `_append_sort`: one ORDER BY term, marked descending when reversed. */
  function AppendSort(order: string, field: string, reverse: bool): string {
    order + Term(field, reverse) + ","
  }

  function Term(field: string, reverse: bool): string {
    field + (if reverse then " DESC" else "")
  }

  /** Sort keys, the column they order by and the table they join, if any. */
  function SortColumn(w: Word): Option<(string, Option<string>)> {
    match w
    case Arrival => Some(("internal_date", None))
    case Size => Some(("messagesize", None))
    case From => Some(("fromaddr", Some("fromfield")))
    case Subject => Some(("subjectfield", Some("subjectfield")))
    case Cc => Some(("ccaddr", Some("ccfield")))
    case To => Some(("toaddr", Some("tofield")))
    case DateWord => Some(("datefield", Some("datefield")))
    case _ => None
  }

  /** Where the sort key starting at `i` has its word: after a leading `reverse`, if any. */
  function SortWordAt(keys: seq<string>, i: nat): nat
    requires i < |keys|
  {
    if Classify(keys[i]) == Reverse then i + 1 else i
  }

  /**
   * `_handle_sort_args`: one sort key, optionally preceded by `reverse`,
   * which applies to that key only. Returns the result code, the updated
   * sort node and the new cursor; 1 means a charset ended the criteria.
   */
  function SortArgs(keys: seq<string>, value: Key, i: nat): (r: (int, Key, nat))
    requires value.SortKey? && i <= |keys| + 1
    ensures r.1.SortKey? && i <= r.2 <= |keys| + 1
    ensures r.0 == -1 || r.0 == 0 || r.0 == 1
    ensures r.0 != -1 ==> r.2 > i
    ensures r.0 != 0 ==> r.1 == value
  {
    if i >= |keys| then (-1, value, i)
    else
      var reverse := Classify(keys[i]) == Reverse;
      var j := SortWordAt(keys, i);
      var w := WordAt(keys, j);
      if SortColumn(w).Some? then
        var (field, join) := SortColumn(w).value;
        var joins := if join.Some? then value.joins + [join.value] else value.joins;
        (0, SortKey(AppendSort(value.order, field, reverse), joins), j + 1)
      else if w == LParen || w == RParen then (0, value, j + 1)
      else if IsCharsetName(w) then (1, value, j + 1)
      else (-1, value, j)
  }

  /**
   * `_handle_sort_args` returns 1 exactly when the word of the sort key, after
   * an optional `reverse`, is a charset name, and then it has consumed that
   * name.
   */
  lemma SortArgsOnCharset(keys: seq<string>, value: Key, i: nat)
    requires value.SortKey? && i <= |keys| + 1
    ensures var r := SortArgs(keys, value, i);
      && (r.0 == 1 <==> i < |keys| && IsCharsetName(WordAt(keys, SortWordAt(keys, i))))
      && (r.0 == 1 ==> i < r.2 <= |keys| && r.2 == SortWordAt(keys, i) + 1)
  {
    if i < |keys| && IsCharsetName(WordAt(keys, SortWordAt(keys, i))) {
      CharsetEndsSort(keys, value, i);
    } else {
      OnlyCharsetEndsSort(keys, value, i);
    }
  }

  lemma CharsetEndsSort(keys: seq<string>, value: Key, i: nat)
    requires value.SortKey? && i < |keys| && IsCharsetName(WordAt(keys, SortWordAt(keys, i)))
    ensures SortArgs(keys, value, i) == (1, value, SortWordAt(keys, i) + 1)
  {
    var w := WordAt(keys, SortWordAt(keys, i));
    assert SortColumn(w).None? && w != LParen && w != RParen;
  }

  lemma OnlyCharsetEndsSort(keys: seq<string>, value: Key, i: nat)
    requires value.SortKey? && i <= |keys| + 1
    requires !(i < |keys| && IsCharsetName(WordAt(keys, SortWordAt(keys, i))))
    ensures SortArgs(keys, value, i).0 != 1
  {
  }

  /** A charset name, as `_handle_sort_args` matches it, is a charset token. */
  lemma CharsetNameToken(keys: seq<string>, k: nat)
    requires k < |keys| && IsCharsetName(WordAt(keys, k))
    ensures CharsetToken(keys[k])
  {
  }

  /**
   * The sort-criteria loop of `dbmail_mailbox_build_imap_search`: the sort
   * node joins the tree, as a leaf under the current node, only when a
   * charset ends the criteria.
   */
  function SortLoop(keys: seq<string>, p: Parser, value: Key): (r: (int, Parser))
    requires ParserOk(keys, p) && value.SortKey?
    ensures ParserOk(keys, r.1) && Progress(p, r.1) && r.1.charset == p.charset
    ensures r.0 == -1 || r.0 == 0 || r.0 == 1
    ensures r.0 == 0 ==> r.1.idx > p.idx
    ensures r.0 == 1 <==> |r.1.tree.nodes| == |p.tree.nodes| + 1
    ensures r.0 == 1 ==> r.1.tree.nodes[|p.tree.nodes|].key.SortKey?
    ensures r.0 == 1 && p.tree.cur.Some? ==> r.1.tree.cur == p.tree.cur
    ensures r.0 != 1 ==> r.1.tree == p.tree
    decreases |keys| + 2 - p.idx
  {
    var s := SortArgs(keys, value, p.idx);
    if s.0 == 1 then (1, Parser(AppendSearch(p.tree, s.1, false), p.charset, s.2))
    else if s.0 == 0 && s.2 < |keys| then
      var r := SortLoop(keys, p.(idx := s.2), s.1);
      ExtendsTransitive(p.tree, p.tree, r.1.tree);
      r
    else (s.0, p.(idx := s.2))
  }

  /**
   * The sort node joins the tree only because a charset name ended the
   * criteria, and it joins as a child of the current node.
   */
  lemma {:induction false} SortLoopOnCharset(keys: seq<string>, p: Parser, value: Key)
    requires ParserOk(keys, p) && value.SortKey?
    ensures var r := SortLoop(keys, p, value);
      r.0 == 1 ==>
        && r.1.tree.nodes[|p.tree.nodes|].parent == p.tree.cur
        && p.idx < r.1.idx <= |keys| && CharsetToken(keys[r.1.idx - 1])
    decreases |keys| + 2 - p.idx
  {
    var s := SortArgs(keys, value, p.idx);
    if s.0 == 1 {
      SortLoopStops(keys, p, value);
    } else if s.0 == 0 && s.2 < |keys| {
      SortLoopOnCharset(keys, p.(idx := s.2), s.1);
      assert SortLoop(keys, p, value) == SortLoop(keys, p.(idx := s.2), s.1);
    } else {
      assert SortLoop(keys, p, value).0 == s.0;
    }
  }

  /** The step of `SortLoopOnCharset` where the charset name is met. */
  lemma SortLoopStops(keys: seq<string>, p: Parser, value: Key)
    requires ParserOk(keys, p) && value.SortKey? && SortArgs(keys, value, p.idx).0 == 1
    ensures var r := SortLoop(keys, p, value);
      && r.0 == 1
      && r.1.tree.nodes[|p.tree.nodes|].parent == p.tree.cur
      && p.idx < r.1.idx <= |keys| && CharsetToken(keys[r.1.idx - 1])
  {
    var s := SortArgs(keys, value, p.idx);
    SortArgsOnCharset(keys, value, p.idx);
    CharsetNameToken(keys, s.2 - 1);
    assert SortLoop(keys, p, value) == (1, Parser(AppendSearch(p.tree, s.1, false), p.charset, s.2));
  }

  /** The ORDER BY clause of the sort query: the sort terms, then the UID. */
  function OrderClause(value: Key): string
    requires value.SortKey?
  {
    value.order + "message_idnr"
  }

  /** Terms, each followed by a comma, as `_append_sort` accumulates them. */
  function Terms(ts: seq<string>): string {
    if ts == [] then "" else Terms(ts[..|ts| - 1]) + ts[|ts| - 1] + ","
  }

  /** Each sort key adds its term at the end of the order; nothing before it changes. */
  lemma AppendSortAddsTerm(ts: seq<string>, field: string, reverse: bool)
    ensures AppendSort(Terms(ts), field, reverse) == Terms(ts + [Term(field, reverse)])
  {
    assert (ts + [Term(field, reverse)])[..|ts|] == ts;
  }

  lemma {:induction false} TermsJoin(ts: seq<string>, last: string)
    ensures Terms(ts) + last == JoinWith(ts + [last], ',')
  {
    if ts != [] {
      var init := ts[..|ts| - 1];
      TermsJoin(init, ts[|ts| - 1] + "," + last);
      assert init + [ts[|ts| - 1] + "," + last] == ts[..|ts| - 1] + [ts[|ts| - 1] + "," + last];
      JoinLast(init, ts[|ts| - 1], last);
      assert init + [ts[|ts| - 1]] == ts;
    }
  }

  /** Joining with one more field only changes the end of the string. */
  lemma {:induction false} JoinLast(fs: seq<string>, a: string, b: string)
    ensures JoinWith(fs + [a + "," + b], ',') == JoinWith(fs + [a] + [b], ',')
  {
    if fs != [] {
      assert (fs + [a + "," + b])[1..] == fs[1..] + [a + "," + b];
      assert (fs + [a] + [b])[1..] == fs[1..] + [a] + [b];
      JoinLast(fs[1..], a, b);
    } else {
      assert ([a] + [b])[1..] == [b];
    }
  }

  /**
   * The ORDER BY clause reads back, split at its commas, as the sort terms in
   * the order the keys gave them, followed by `message_idnr` as the final
   * tie-break.
   */
  lemma OrderClauseTerms(value: Key, ts: seq<string>)
    requires value.SortKey? && value.order == Terms(ts)
    requires forall k | 0 <= k < |ts| :: ',' !in ts[k]
    ensures Split(OrderClause(value), ',') == ts + ["message_idnr"]
  {
    TermsJoin(ts, "message_idnr");
    SplitJoin(ts + ["message_idnr"], ',');
  }

  /** A sort key with or without `reverse` adds one term, descending only when reversed. */
  lemma SortTerm(keys: seq<string>, value: Key, i: nat)
    requires value.SortKey? && i < |keys|
    requires SortColumn(WordAt(keys, if Classify(keys[i]) == Reverse then i + 1 else i)).Some?
    ensures var reverse := Classify(keys[i]) == Reverse;
      var j := if reverse then i + 1 else i;
      var r := SortArgs(keys, value, i);
      && r.0 == 0 && r.2 == j + 1
      && r.1.order == AppendSort(value.order, SortColumn(WordAt(keys, j)).value.0, reverse)
  {
  }

  /** `reverse` applies to the key right after it and to no later key. */
  lemma ReverseOnlyNext(keys: seq<string>, value: Key, i: nat)
    requires value.SortKey? && i + 2 < |keys|
    requires Classify(keys[i]) == Reverse
    requires SortColumn(Classify(keys[i + 1])).Some? && SortColumn(Classify(keys[i + 2])).Some?
    ensures var r1 := SortArgs(keys, value, i);
      var r2 := SortArgs(keys, r1.1, r1.2);
      r2.1.order == value.order
        + Term(SortColumn(Classify(keys[i + 1])).value.0, true) + ","
        + Term(SortColumn(Classify(keys[i + 2])).value.0, false) + ","
  {
    SortTerm(keys, value, i);
    var r1 := SortArgs(keys, value, i);
    assert Classify(keys[i + 2]) != Reverse;
    SortTerm(keys, r1.1, i + 2);
  }

  // ---------------------------------------------------------------------
  // Token consumption

  /**
   * How many tokens a leaf key takes, counting the key itself, or `None`
   * when the word is not a leaf key.
   */
  function Arity(w: Word): Option<nat> {
    match w
    case All | Answered | Deleted | Flagged | Recent | Seen | Draft | New | Old
       | Unanswered | Undeleted | Unflagged | Unseen | Undraft => Some(1)
    case Header => Some(3)
    case Uid | Keyword | Unkeyword | BodyWord | TextWord | Larger | Smaller
       | Bcc | Cc | From | To | Subject | SentBefore | SentOn | SentSince
       | BeforeWord | OnWord | SinceWord => Some(2)
    case _ => None
  }

  /** The argument checks beyond presence: a set after `uid`, a date after `before`/`on`/`since`. */
  predicate ArgumentsValid(w: Word, keys: seq<string>, validDate: string -> bool, i: nat)
    requires i + 1 < |keys|
  {
    && (w == Uid ==> IsMsgSet(keys[i + 1]))
    && (DateRelOf(w).Some? ==> validDate(keys[i + 1]))
  }

  /**
   * `LeafSpec` gives a leaf exactly for the words with an arity; the leaf
   * consumes its arity, and is accepted exactly when its arguments are
   * present and valid.
   */
  predicate LeafAgreesWithArity(w: Word, keys: seq<string>, validDate: string -> bool, i: nat, charset: Option<string>)
    requires i < |keys|
  {
    && (LeafSpec(w, keys, validDate, i, charset).Some? <==> Arity(w).Some?)
    && (LeafSpec(w, keys, validDate, i, charset).Some? ==>
      var s := LeafSpec(w, keys, validDate, i, charset).value;
      && s.2 == Arity(w).value
      && (s.0 <==> i + s.2 <= |keys| && (s.2 > 1 ==> ArgumentsValid(w, keys, validDate, i))))
  }

  lemma LeafConsumesArity(w: Word, keys: seq<string>, validDate: string -> bool, i: nat, charset: Option<string>)
    requires i < |keys|
    ensures LeafAgreesWithArity(w, keys, validDate, i, charset)
  {
    if || w == All || w == Uid || w == Keyword || w == Unkeyword || w == Header
       || w == BodyWord || w == TextWord || w == Larger || w == Smaller {
      ArgumentLeafArity(w, keys, validDate, i, charset);
    } else if FlagKeyword(w).Some? {
      FlagLeafArity(w, keys, validDate, i, charset);
    } else if HeaderField(w).Some? || SentRel(w).Some? || DateRelOf(w).Some? {
      FieldLeafArity(w, keys, validDate, i, charset);
    } else {
      NonLeafArity(w, keys, validDate, i, charset);
    }
  }

  lemma ArgumentLeafArity(w: Word, keys: seq<string>, validDate: string -> bool, i: nat, charset: Option<string>)
    requires i < |keys|
    requires || w == All || w == Uid || w == Keyword || w == Unkeyword || w == Header
             || w == BodyWord || w == TextWord || w == Larger || w == Smaller
    ensures LeafAgreesWithArity(w, keys, validDate, i, charset)
  {
  }

  lemma FlagLeafArity(w: Word, keys: seq<string>, validDate: string -> bool, i: nat, charset: Option<string>)
    requires i < |keys| && FlagKeyword(w).Some?
    ensures LeafAgreesWithArity(w, keys, validDate, i, charset)
  {
    FlagSpec(w, keys, validDate, i, charset);
    FlagArity(w);
  }

  /** A flag key is accepted as it stands: one token, one flag leaf. */
  lemma FlagSpec(w: Word, keys: seq<string>, validDate: string -> bool, i: nat, charset: Option<string>)
    requires i < |keys| && FlagKeyword(w).Some?
    ensures LeafSpec(w, keys, validDate, i, charset) == Some((true, FlagKey(FlagKeyword(w).value), 1))
  {
  }

  lemma FlagArity(w: Word)
    requires FlagKeyword(w).Some?
    ensures Arity(w) == Some(1)
  {
  }

  lemma FieldLeafArity(w: Word, keys: seq<string>, validDate: string -> bool, i: nat, charset: Option<string>)
    requires i < |keys|
    requires HeaderField(w).Some? || SentRel(w).Some? || DateRelOf(w).Some?
    ensures LeafAgreesWithArity(w, keys, validDate, i, charset)
  {
    if HeaderField(w).Some? {
      HeaderFieldArity(w, keys, validDate, i, charset);
    } else if SentRel(w).Some? {
      SentArity(w, keys, validDate, i, charset);
    } else {
      DateArity(w, keys, validDate, i, charset);
    }
  }

  lemma HeaderFieldArity(w: Word, keys: seq<string>, validDate: string -> bool, i: nat, charset: Option<string>)
    requires i < |keys| && HeaderField(w).Some?
    ensures LeafAgreesWithArity(w, keys, validDate, i, charset)
  {
  }

  lemma SentArity(w: Word, keys: seq<string>, validDate: string -> bool, i: nat, charset: Option<string>)
    requires i < |keys| && SentRel(w).Some?
    ensures LeafAgreesWithArity(w, keys, validDate, i, charset)
  {
  }

  lemma DateArity(w: Word, keys: seq<string>, validDate: string -> bool, i: nat, charset: Option<string>)
    requires i < |keys| && DateRelOf(w).Some?
    ensures LeafAgreesWithArity(w, keys, validDate, i, charset)
  {
  }

  /** The words that are not leaf keys. */
  predicate NonLeaf(w: Word) {
    || w == NotWord || w == OrWord || w == LParen || w == RParen || w == Charset
    || w == Reverse || w == Arrival || w == Size || w == DateWord
    || w == Utf8 || w == UsAscii || w == Latin1 || w == Other
  }

  lemma NonLeafArity(w: Word, keys: seq<string>, validDate: string -> bool, i: nat, charset: Option<string>)
    requires i < |keys| && NonLeaf(w)
    ensures LeafSpec(w, keys, validDate, i, charset).None? && Arity(w).None?
    ensures LeafAgreesWithArity(w, keys, validDate, i, charset)
  {
    NonLeafNoSpec(w, keys, validDate, i, charset);
    NonLeafNoArity(w);
  }

  lemma NonLeafNoSpec(w: Word, keys: seq<string>, validDate: string -> bool, i: nat, charset: Option<string>)
    requires i < |keys| && NonLeaf(w)
    ensures LeafSpec(w, keys, validDate, i, charset).None?
  {
    if w == NotWord || w == OrWord || w == LParen || w == RParen {
      GroupWordNoSpec(w, keys, validDate, i, charset);
    } else if w == Charset || w == Utf8 || w == UsAscii || w == Latin1 {
      CharsetWordNoSpec(w, keys, validDate, i, charset);
    } else {
      SortWordNoSpec(w, keys, validDate, i, charset);
    }
  }

  lemma GroupWordNoSpec(w: Word, keys: seq<string>, validDate: string -> bool, i: nat, charset: Option<string>)
    requires i < |keys| && (w == NotWord || w == OrWord || w == LParen || w == RParen)
    ensures LeafSpec(w, keys, validDate, i, charset).None?
  {
  }

  lemma CharsetWordNoSpec(w: Word, keys: seq<string>, validDate: string -> bool, i: nat, charset: Option<string>)
    requires i < |keys| && (w == Charset || w == Utf8 || w == UsAscii || w == Latin1)
    ensures LeafSpec(w, keys, validDate, i, charset).None?
  {
  }

  lemma SortWordNoSpec(w: Word, keys: seq<string>, validDate: string -> bool, i: nat, charset: Option<string>)
    requires i < |keys| && (w == Reverse || w == Arrival || w == Size || w == DateWord || w == Other)
    ensures LeafSpec(w, keys, validDate, i, charset).None?
  {
  }

  lemma NonLeafNoArity(w: Word)
    requires NonLeaf(w)
    ensures Arity(w).None?
  {
  }

  /**
   * `_handle_search_args` on a leaf key appends that one leaf under the
   * current node when the key is accepted, and otherwise leaves the parser
   * exactly as it was.
   */
  lemma HandleLeaf(keys: seq<string>, validDate: string -> bool, p: Parser)
    requires ParserOk(keys, p) && p.idx < |keys| && Arity(Classify(keys[p.idx])).Some?
    ensures LeafSpec(Classify(keys[p.idx]), keys, validDate, p.idx, p.charset).Some?
    ensures var s := LeafSpec(Classify(keys[p.idx]), keys, validDate, p.idx, p.charset).value;
      Handle(keys, validDate, p) == if s.0 then Leaf(p, s.1, s.2) else (-1, p)
  {
    LeafConsumesArity(Classify(keys[p.idx]), keys, validDate, p.idx, p.charset);
  }

  /** A single-token flag key appends one flag leaf under the current node. */
  lemma FlagConsumesOne(keys: seq<string>, validDate: string -> bool, p: Parser)
    requires ParserOk(keys, p) && p.idx < |keys|
    requires FlagKeyword(Classify(keys[p.idx])).Some?
    ensures Handle(keys, validDate, p) ==
      (0, Parser(AppendSearch(p.tree, FlagKey(FlagKeyword(Classify(keys[p.idx])).value), false), p.charset, p.idx + 1))
  {
    HandleLeaf(keys, validDate, p);
  }

  /** The flag leaf lands after the existing nodes, under the current node, which stays put. */
  lemma FlagStep(keys: seq<string>, validDate: string -> bool, p: Parser)
    requires ParserOk(keys, p) && p.idx < |keys| && p.tree.cur.Some?
    requires FlagKeyword(Classify(keys[p.idx])).Some?
    ensures Handle(keys, validDate, p) ==
      (0, Parser(Tree(p.tree.nodes + [FlagLeaf(keys[p.idx], p.tree.cur)], p.tree.cur), p.charset, p.idx + 1))
  {
    FlagConsumesOne(keys, validDate, p);
  }

  /** `dbmail_mailbox_build_imap_search` for a plain search: the initial set, then the key loop. */
  lemma BuildUnordered(keys: seq<string>, validDate: string -> bool, p: Parser)
    requires ParserOk(keys, p) && p.idx < |keys|
    ensures Build(keys, validDate, p, Unordered) == SearchLoop(keys, validDate,
      Parser(AppendSearch(p.tree, InitialSet(keys, p.idx), false), p.charset,
             if IsMsgSet(keys[p.idx]) then p.idx + 1 else p.idx), 0)
  {
  }

  /** `not` is handled as a group key. */
  lemma HandleNot(keys: seq<string>, validDate: string -> bool, p: Parser)
    requires ParserOk(keys, p) && p.idx < |keys| && Classify(keys[p.idx]) == NotWord
    ensures Handle(keys, validDate, p) == Group(keys, validDate, p, NotWord)
  {
    GroupWordNoSpec(NotWord, keys, validDate, p.idx, p.charset);
  }

  /** `not` followed by one of eight flags is a single flag key, with no NOT node. */
  lemma NotFlagShortcut(keys: seq<string>, validDate: string -> bool, p: Parser)
    requires ParserOk(keys, p) && p.idx + 1 < |keys|
    requires Classify(keys[p.idx]) == NotWord && NegatedFlag(Classify(keys[p.idx + 1])).Some?
    ensures Handle(keys, validDate, p) ==
      (0, Parser(AppendSearch(p.tree, FlagKey(NegatedFlag(Classify(keys[p.idx + 1])).value), false), p.charset, p.idx + 2))
  {
    HandleNot(keys, validDate, p);
    NotGroupShortcut(keys, validDate, p, NegatedFlag(Classify(keys[p.idx + 1])).value);
  }

  lemma NotGroupShortcut(keys: seq<string>, validDate: string -> bool, p: Parser, tests: seq<FlagTest>)
    requires ParserOk(keys, p) && p.idx + 1 < |keys|
    requires NegatedFlag(Classify(keys[p.idx + 1])) == Some(tests)
    ensures Group(keys, validDate, p, NotWord) == Leaf(p, FlagKey(tests), 2)
  {
  }

  /** `not` before anything but those flags wraps the next key in a NOT group. */
  lemma NotStep(keys: seq<string>, validDate: string -> bool, p: Parser)
    requires ParserOk(keys, p) && p.idx + 1 < |keys|
    requires Classify(keys[p.idx]) == NotWord && NegatedFlag(Classify(keys[p.idx + 1])).None?
    ensures var p1 := Parser(AppendSearch(p.tree, NotGroup, true), p.charset, p.idx + 1);
      var r := Handle(keys, validDate, p1);
      Handle(keys, validDate, p) == if r.0 < 0 then r else (0, Pop(r.1))
  {
    HandleNot(keys, validDate, p);
    NotGroupWraps(keys, validDate, p);
  }

  lemma NotGroupWraps(keys: seq<string>, validDate: string -> bool, p: Parser)
    requires ParserOk(keys, p) && p.idx + 1 < |keys|
    requires NegatedFlag(Classify(keys[p.idx + 1])).None?
    ensures var p1 := Parser(AppendSearch(p.tree, NotGroup, true), p.charset, p.idx + 1);
      var r := Handle(keys, validDate, p1);
      Group(keys, validDate, p, NotWord) == if r.0 < 0 then r else (0, Pop(r.1))
  {
  }

  /**
   * `not` before a flag without a shortcut opens a NOT group holding that
   * flag; the current node is back where it was afterwards.
   */
  lemma NotWrapsLeaf(keys: seq<string>, validDate: string -> bool, p: Parser)
    requires ParserOk(keys, p) && p.tree.cur.Some? && p.idx + 2 < |keys|
    requires Classify(keys[p.idx]) == NotWord && FlagKeyword(Classify(keys[p.idx + 1])).Some?
    requires NegatedFlag(Classify(keys[p.idx + 1])).None?
    ensures Handle(keys, validDate, p).0 == 0
    ensures Handle(keys, validDate, p).1.idx == p.idx + 2
    ensures Handle(keys, validDate, p).1.tree.cur == p.tree.cur
    ensures Handle(keys, validDate, p).1.tree.nodes == p.tree.nodes
      + [Node(NotGroup, p.tree.cur), Node(FlagKey(FlagKeyword(Classify(keys[p.idx + 1])).value), Some(|p.tree.nodes|))]
  {
    var p1 := Parser(AppendSearch(p.tree, NotGroup, true), p.charset, p.idx + 1);
    NotStep(keys, validDate, p);
    FlagConsumesOne(keys, validDate, p1);
  }

  /** `not answered` and friends ask for the same column test as their `un`-forms. */
  lemma NegatedFlagIsUnForm(flag: Word)
    requires flag in {Answered, Deleted, Flagged, Seen, Draft}
    ensures NegatedFlag(flag) == FlagKeyword(
      match flag
      case Answered => Unanswered case Deleted => Undeleted case Flagged => Unflagged
      case Seen => Unseen case _ => Undraft)
    ensures NegatedFlag(Recent) == FlagKeyword(Old) && NegatedFlag(Old) == FlagKeyword(Recent)
  {
  }

  /** A message's flag columns satisfy every test of a flag key. */
  predicate Holds(flags: map<string, nat>, tests: seq<FlagTest>) {
    forall k | 0 <= k < |tests| :: tests[k].column in flags && flags[tests[k].column] == tests[k].value
  }

  /** A message whose six flag columns each hold 0 or 1. */
  predicate FlagRow(flags: map<string, nat>) {
    && (forall c | c in flags :: flags[c] <= 1)
    && "answered_flag" in flags && "deleted_flag" in flags && "flagged_flag" in flags
    && "recent_flag" in flags && "seen_flag" in flags && "draft_flag" in flags
  }

  /** For the seven single-flag words, `not w` selects exactly the messages `w` does not. */
  lemma NegatedFlagComplements(flag: Word, flags: map<string, nat>)
    requires FlagRow(flags)
    requires NegatedFlag(flag).Some? && flag != New
    ensures Holds(flags, NegatedFlag(flag).value) <==> !Holds(flags, FlagKeyword(flag).value)
  {
    var t := NegatedFlag(flag).value[0];
    var u := FlagKeyword(flag).value[0];
    assert |NegatedFlag(flag).value| == 1 && |FlagKeyword(flag).value| == 1;
    assert t.column == u.column && t.value == 1 - u.value;
    assert t.column in flags;
  }

  /**
   * `not new` is not the complement of `new`: an unseen message that is no
   * longer recent matches neither.
   */
  lemma NotNewIsNotComplement(flags: map<string, nat>)
    requires flags == map["seen_flag" := 0, "recent_flag" := 0]
    ensures !Holds(flags, FlagKeyword(New).value) && !Holds(flags, NegatedFlag(New).value)
  {
    assert FlagKeyword(New).value[1] == FlagTest("recent_flag", 1);
    assert NegatedFlag(New).value[0] == FlagTest("seen_flag", 1);
  }

  /** `charset` takes its name and the next token, and adds no node. */
  lemma CharsetConsumesTwo(keys: seq<string>, validDate: string -> bool, p: Parser)
    requires ParserOk(keys, p) && p.idx < |keys| && Classify(keys[p.idx]) == Charset
    ensures Handle(keys, validDate, p) ==
      (0, Parser(p.tree, if p.idx + 1 < |keys| then Some(keys[p.idx + 1]) else None, p.idx + 2))
  {
    KeywordNotMsgSet(keys[p.idx]);
    LeafConsumesArity(Classify(keys[p.idx]), keys, validDate, p.idx, p.charset);
  }

  /** Every word `_handle_search_args` knows, besides message sets. */
  predicate KnownKey(w: Word) {
    Arity(w).Some? || w in {NotWord, OrWord, LParen, RParen, Charset}
  }

  /** An unknown key is rejected with the parser left exactly as it was. */
  lemma UnknownKeyRejected(keys: seq<string>, validDate: string -> bool, p: Parser)
    requires ParserOk(keys, p) && p.idx < |keys|
    requires !KnownKey(Classify(keys[p.idx])) && !IsMsgSet(keys[p.idx])
    ensures Handle(keys, validDate, p) == (-1, p)
  {
    LeafConsumesArity(Classify(keys[p.idx]), keys, validDate, p.idx, p.charset);
  }

  /** Every key from position `i` on is a single-token flag key. */
  predicate FlagsFrom(keys: seq<string>, i: nat)
    decreases |keys| - i
  {
    i >= |keys| || (FlagKeyword(Classify(keys[i])).Some? && FlagsFrom(keys, i + 1))
  }

  /** The leaf a flag key becomes under `cur`. */
  function FlagLeaf(key: string, cur: Option<nat>): Node {
    Node(FlagKey(FlagKeyword(Classify(key)).GetOr([])), cur)
  }

  /** One flag leaf under `cur` for each key from position `i` on, in order. */
  function FlagLeaves(keys: seq<string>, i: nat, cur: Option<nat>): (ns: seq<Node>)
    ensures |ns| == if i <= |keys| then |keys| - i else 0
    decreases |keys| - i
  {
    if i >= |keys| then [] else [FlagLeaf(keys[i], cur)] + FlagLeaves(keys, i + 1, cur)
  }

  lemma FlagLeavesCons(nodes: seq<Node>, keys: seq<string>, i: nat, cur: Option<nat>)
    requires i < |keys|
    ensures nodes + FlagLeaves(keys, i, cur) == (nodes + [FlagLeaf(keys[i], cur)]) + FlagLeaves(keys, i + 1, cur)
  {
  }

  /** One step of the search loop over a key that parses to 0. */
  lemma SearchLoopStep(keys: seq<string>, validDate: string -> bool, p: Parser)
    requires ParserOk(keys, p) && p.idx < |keys| && Handle(keys, validDate, p).0 == 0
    ensures SearchLoop(keys, validDate, p, 0) == SearchLoop(keys, validDate, Handle(keys, validDate, p).1, 0)
  {
  }

  /** The parser after one flag key: its leaf appended under the current node. */
  function NextFlag(keys: seq<string>, p: Parser): Parser
    requires p.idx < |keys|
  {
    Parser(Tree(p.tree.nodes + [FlagLeaf(keys[p.idx], p.tree.cur)], p.tree.cur), p.charset, p.idx + 1)
  }

  /** A parser in a valid state with only flag keys left before the end of the input. */
  predicate FlagRun(keys: seq<string>, p: Parser) {
    ParserOk(keys, p) && p.tree.cur.Some? && p.idx <= |keys| && FlagsFrom(keys, p.idx)
  }

  lemma FlagLoopStep(keys: seq<string>, validDate: string -> bool, p: Parser)
    requires FlagRun(keys, p) && p.idx < |keys|
    ensures FlagRun(keys, NextFlag(keys, p))
    ensures SearchLoop(keys, validDate, p, 0) == SearchLoop(keys, validDate, NextFlag(keys, p), 0)
  {
    FlagsFromNext(keys, p.idx);
    FlagStep(keys, validDate, p);
    SearchLoopStep(keys, validDate, p);
    var q := NextFlag(keys, p);
    assert q.idx == p.idx + 1;
    assert FlagsFrom(keys, q.idx);
    assert ParserOk(keys, q);
  }

  lemma FlagsFromNext(keys: seq<string>, i: nat)
    requires FlagsFrom(keys, i) && i < |keys|
    ensures FlagKeyword(Classify(keys[i])).Some? && FlagsFrom(keys, i + 1)
  {
  }

  /** The parser once every flag key from its position on has been appended. */
  function FlagsAppended(keys: seq<string>, p: Parser): Parser {
    Parser(Tree(p.tree.nodes + FlagLeaves(keys, p.idx, p.tree.cur), p.tree.cur), p.charset, |keys|)
  }

  lemma FlagsAppendedStep(keys: seq<string>, p: Parser)
    requires p.idx < |keys|
    ensures FlagsAppended(keys, NextFlag(keys, p)) == FlagsAppended(keys, p)
  {
    FlagLeavesCons(p.tree.nodes, keys, p.idx, p.tree.cur);
  }

  /**
   * A run of flag keys to the end of the input appends one flag leaf per
   * key, in order, all under the current node, and ends the loop with 0.
   */
  lemma {:induction false} FlatConjunction(keys: seq<string>, validDate: string -> bool, p: Parser)
    requires FlagRun(keys, p)
    decreases |keys| - p.idx
    ensures SearchLoop(keys, validDate, p, 0) == (0, FlagsAppended(keys, p))
  {
    if p.idx < |keys| {
      FlagLoopStep(keys, validDate, p);
      FlatConjunction(keys, validDate, NextFlag(keys, p));
      FlagsAppendedStep(keys, p);
    } else {
      assert p.tree.nodes + FlagLeaves(keys, p.idx, p.tree.cur) == p.tree.nodes;
    }
  }

  /**
   * A search of flag keys only: the root is the implicit `1:*` set and each
   * key becomes, in order, a flag leaf directly under the root.
   */
  lemma FlagSearchTree(keys: seq<string>, validDate: string -> bool)
    requires |keys| > 0 && FlagsFrom(keys, 0)
    ensures Build(keys, validDate, Parser(EmptyTree(), None, 0), Unordered) ==
      (0, Parser(Tree([Node(SetKey("1:*", false), None)] + FlagLeaves(keys, 0, Some(0)), Some(0)), None, |keys|))
  {
    var p0 := Parser(EmptyTree(), None, 0);
    var p1 := Parser(Tree([Node(SetKey("1:*", false), None)], Some(0)), None, 0);
    FlagStart(keys, p0);
    BuildUnordered(keys, validDate, p0);
    FlatConjunction(keys, validDate, p1);
  }

  /** A search that opens with a flag key starts at the key with only the implicit `1:*` root. */
  lemma FlagStart(keys: seq<string>, p: Parser)
    requires |keys| > 0 && FlagsFrom(keys, 0) && p == Parser(EmptyTree(), None, 0)
    ensures Parser(AppendSearch(p.tree, InitialSet(keys, 0), false), None, if IsMsgSet(keys[0]) then 1 else 0)
      == Parser(Tree([Node(SetKey("1:*", false), None)], Some(0)), None, 0)
    ensures FlagRun(keys, Parser(Tree([Node(SetKey("1:*", false), None)], Some(0)), None, 0))
  {
    FlagsFromNext(keys, 0);
    KeywordNotMsgSet(keys[0]);
  }

  /** Every keyword starts with a letter or a parenthesis. */
  lemma SpellingStart(w: Word)
    requires w != Other
    ensures |Spelling(w)| > 0 && !IsDigit(Spelling(w)[0]) && Spelling(w)[0] != '*'
  {
    if Arity(w) == Some(1) {
      SingleSpellingStart(w);
    } else if Arity(w).Some? {
      ArgumentSpellingStart(w);
    } else {
      NonLeafSpellingStart(w);
    }
  }

  lemma SingleSpellingStart(w: Word)
    requires Arity(w) == Some(1)
    ensures |Spelling(w)| > 0 && !IsDigit(Spelling(w)[0]) && Spelling(w)[0] != '*'
  {
  }

  lemma ArgumentSpellingStart(w: Word)
    requires Arity(w).Some? && Arity(w) != Some(1)
    ensures |Spelling(w)| > 0 && !IsDigit(Spelling(w)[0]) && Spelling(w)[0] != '*'
  {
  }

  lemma NonLeafSpellingStart(w: Word)
    requires Arity(w).None? && w != Other
    ensures |Spelling(w)| > 0 && !IsDigit(Spelling(w)[0]) && Spelling(w)[0] != '*'
  {
  }

  /** A keyword is never taken for a message set, whatever its case. */
  lemma KeywordNotMsgSet(key: string)
    requires Classify(key) != Other
    ensures !IsMsgSet(key)
  {
    SpellingStart(Classify(key));
    assert |key| > 0;
    assert Lower(key)[0] == LowerChar(key[0]);
  }
}
