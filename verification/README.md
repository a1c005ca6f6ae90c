# dbmail mailbox search, sort and thread engine

A Dafny model of the search core of dbmail's `DbmailMailbox`
(`src/dbmail-mailbox.c`), the part of the IMAP server that answers SEARCH,
SORT and THREAD=ORDEREDSUBJECT:

- **UID/MSN index** (`UidIndex`). A mailbox snapshot holds two maps:
  - `ids`, from UID to message sequence number;
  - `msn`, its inverse.
  `dbmail_mailbox_open` builds them from the store's rows.
  `dbmail_mailbox_insert_uid` and `dbmail_mailbox_remove_uid` change the UID
  set, and `uid_msn_map` then renumbers everything 1..N.
- **Sequence sets** (`SequenceSet`). `dbmail_mailbox_get_set` evaluates an
  IMAP sequence set (`*`, `N`, `N:M`, comma lists) over UIDs or MSNs. It
  keeps dbmail's own rules:
  - the Outlook literal 4294967295 is `*`;
  - a left endpoint is raised to the lowest value but never lowered to the
    highest;
  - a zero or non-numeric element makes the whole call fail;
  - an empty element ends the list quietly.
- **Search tree** (`SearchTree`). A tree of search keys with a current node:
  `append_search` adds nodes and `pop_search` moves to the parent. Pre-order
  traversal is `g_node_traverse(G_PRE_ORDER)`.
- **Parser** (`SearchParser`). `dbmail_mailbox_build_imap_search`,
  `_handle_search_args`, `_handle_sort_args` and `_append_sort` turn a key
  list into that tree. It keeps dbmail's own choices:
  - `not <flag>` is folded into one flag test, and `not new` is *not* the
    complement of `new`;
  - `keyword X` becomes the message set `"0"`;
  - `unkeyword X` becomes `1:*`;
  - `reverse` applies to the next sort key only.
- **Evaluator** (`SearchEval`). `dbmail_mailbox_search` runs two pre-order
  passes:
  - `_do_search` gives every node its own found set;
  - `_merge_search` folds the sets into an accumulator seeded with the whole
    index.

  The per-node `searched`/`found`/`merged` state is kept as a `Status` that
  survives between calls. The two flags are collapsed into that one status
  (see "Search state" under Left out).
- **Sort** (`Sorting`). `dbmail_mailbox_sort`/`_do_sort` keep the store's
  ORDER BY rows that are in the result, once each, in row order.
- **Threads** (`SubjectTree`, `Threading`). `dbmail_mailbox_orderedsubject`
  collects a thread per subject in a `strcmp`-ordered tree. `_tree_foreach`
  prints it as `(a)(b)` groups.
- **Listings** (`Listing`). `dbmail_mailbox_ids_as_string` and
  `dbmail_mailbox_sorted_as_string` print the result.
- **Supporting modules.** `Text` holds the strings and numbers these share:
  `g_strsplit`, `strtoull`, `g_strchomp`, and printing with `"%llu "`.
  `FoundSet` holds the found sets and their merges. `Options` holds `Option`.

The store is a parameter. Every SQL query is replaced by the rows it returns:
`Env.rows` for search keys, `rows` for the sort and thread queries. The date
check `check_date` is a predicate parameter. No result here comes from
running anything; everything is proved.

Where the intent and the code part ways, the model follows the code:

- Merged flags persist, so a second `dbmail_mailbox_search` over the same
  tree returns the whole index (`SearchEval.SearchAgain`). It does not repeat
  the first result.
- An OR operand that is itself a NOT or OR group, in either position, next
  to an operand that is not an AND group, contributes the empty found set pass one gave it, rather than its
  complement or its union (`SearchEval.OrWithGroupOperand`). The nested
  group's own keys are then intersected in by the traversal, so
  `SEARCH OR a OR b c` finds the messages matching `a`, `b` and `c` together
  (`SearchEval.NestedOrIsConjunction`).
- An OR with fewer than two children dereferences NULL
  (`SearchEval.OrNeedsTwoOperands`).

## Model

| member | source | states |
|---|---|---|
| UidIndex.EmptyIndex | src/dbmail-mailbox.c:139-150 | a fresh index has no UIDs and no MSNs and is well numbered |
| UidIndex.SortedKeys | src/dbmail-mailbox.c:112 | `g_tree_keys`: the UIDs strictly ascending, each once, exactly the key set |
| UidIndex.Renumber | src/dbmail-mailbox.c:107-137 | the UID set is unchanged and the result is well numbered: UID to MSN is a monotone bijection onto 1..N, and the MSN map is its exact inverse |
| UidIndex.RenumberStable | src/dbmail-mailbox.c:107-137 | renumbering an index that is already well numbered changes nothing |
| UidIndex.WellNumberedUnique | src/dbmail-mailbox.c:107-137 | two well-numbered indexes over the same UIDs are equal, so the numbering is fixed by the UID set alone |
| UidIndex.Number | src/dbmail-mailbox.c:193-203 | the open loop: the UIDs are the rows' ids; the MSNs are exactly 1..N; MSN i+1 names row i |
| UidIndex.NumberAscending | src/dbmail-mailbox.c:193-203 | for ascending rows, row i gets MSN i+1 and the index is well numbered |
| UidIndex.NumberRank | src/dbmail-mailbox.c:193-203 | for ascending rows the UID map gives each row its position plus one |
| UidIndex.NumberOfEnumerate | src/dbmail-mailbox.c:107-137 | numbering a well-numbered index's UIDs in MSN order rebuilds the same index |
| UidIndex.NumberEnumerate | src/dbmail-mailbox.c:107-137 | the UIDs of a well-numbered index in MSN order ascend, cover the index, and number back to it |
| UidIndex.Open | src/dbmail-mailbox.c:185-244 | after open, the index keys and the summary cache are both the rows' ids; MSN i+1 names row i; for ascending rows (the query orders them) the index is well numbered |
| UidIndex.InsertUid | src/dbmail-mailbox.c:306-320 | always succeeds; the UID set gains the id; the index is renumbered well; the cache is untouched |
| UidIndex.RemoveUid | src/dbmail-mailbox.c:286-304 | the id leaves the cache. An unknown id is a general error that leaves the index alone. A known id leaves the index, which shrinks by one and is renumbered well |
| UidIndex.RemoveAfterInsert | src/dbmail-mailbox.c:286-320 | inserting a new UID and removing it again succeeds and gives back the original index |
| UidIndex.InsertAfterRemove | src/dbmail-mailbox.c:286-320 | removing a UID and inserting it again gives back the original index |
| FoundSet.And | src/dbmail-mailbox.c:1784 | the AND merge keeps exactly the UIDs in both sets, with the first set's MSNs |
| FoundSet.Or | src/dbmail-mailbox.c:1766 | the OR merge holds the UIDs of either set; the second set's entries win |
| FoundSet.Diff | src/dbmail-mailbox.c:1743 | the NOT merge keeps the UIDs of the first set not in the second |
| FoundSet.MergesStayWithin | src/dbmail-mailbox.c:1743-1784 | merging sets drawn from the index stays within the index |
| Text.Split | src/dbmail-mailbox.c:1557 | `g_strsplit`: at least one field, none holding the separator |
| Text.JoinSplit | src/dbmail-mailbox.c:1557 | joining the fields of a split with the separator gives the string back |
| Text.SplitJoin | src/dbmail-mailbox.c:1557 | splitting a join of separator-free fields gives the fields back |
| Text.ReadNumber | src/dbmail-mailbox.c:1573-1576 | `dm_strtoull`: the value of the leading digits and the text after them; no digits reads 0 and consumes nothing |
| Text.NatToString | src/dbmail-mailbox.c:614 | `%llu`: all digits, decimal value n, no leading zero |
| Text.ReadRendered | src/dbmail-mailbox.c:1573-1576 | reading a printed number back gives the number and the rest of the text |
| Text.JoinNumbersRoundTrip | src/dbmail-mailbox.c:613-626 | a space-separated list of numbers reads back as the same list |
| Text.Chomp | src/dbmail-mailbox.c:626 | `g_strchomp`: a prefix with no trailing space, only spaces removed |
| Text.ChompSpaceTerminated | src/dbmail-mailbox.c:613-626 | `"%llu "` per id then chomp is the ids joined by single spaces, and it reads back as the ids |
| SequenceSet.SetBounds | src/dbmail-mailbox.c:1533-1551 | over UIDs, lo and hi are the least and greatest UID of the index; over MSNs they are 1 and the state's message count, or the index size without a state |
| SequenceSet.Outlook | src/dbmail-mailbox.c:1578-1579 | 4294967295 stands for the highest value; any other number stands for itself |
| SequenceSet.Clip | src/dbmail-mailbox.c:1598-1599 | the right endpoint lands inside [lo, hi]; one already inside is kept |
| SequenceSet.Window | src/dbmail-mailbox.c:1604-1626 | the reference selection: index entries whose UID (or MSN) lies in [i, j], a subset of the index |
| SequenceSet.Collect | src/dbmail-mailbox.c:1604-1626 | the range loop adds exactly the window [i, j] to what it had (over MSNs, for a well-numbered index) |
| SequenceSet.Evaluate | src/dbmail-mailbox.c:1557-1632 | the element loop fails iff some element fails before any element stops it; otherwise a UID is in the result iff it was there or a parsed range before the stop names it |
| SequenceSet.GetSet | src/dbmail-mailbox.c:1514-1649 | an empty index gives an empty result; otherwise NULL iff an element fails before the list stops; the result lies within the index |
| SequenceSet.SingleElement | src/dbmail-mailbox.c:1557-1632 | a set without commas evaluates to what its one element selects |
| SequenceSet.ParseRange | src/dbmail-mailbox.c:1565-1602 | `N:M` fails if either number is 0; otherwise the left end is raised to lo and the right end clipped |
| SequenceSet.RangeResult | src/dbmail-mailbox.c:1514-1649 | over an index in sync with its bounds, `N:M` selects the entries between the two ends, each clipped into the bounds |
| SequenceSet.ReversedRange | src/dbmail-mailbox.c:1604-1626 | `M:N` selects what `N:M` selects |
| SequenceSet.StarIsHighest | src/dbmail-mailbox.c:1567-1571 | `*` over UIDs selects the highest UID alone |
| SequenceSet.OutlookIsStar | src/dbmail-mailbox.c:1578-1579 | the literal 4294967295 selects what `*` selects |
| SequenceSet.AboveHighest | src/dbmail-mailbox.c:1581 | a single UID above the highest is not lowered to it and selects nothing |
| SequenceSet.AboveHighestToStar | src/dbmail-mailbox.c:1581-1600 | `N:*` with N above the highest UID selects the highest UID alone |
| SequenceSet.SixToStarOverFive | src/dbmail-mailbox.c:1581-1600 | over UIDs 1 to 5, `6:*` selects UID 5 |
| SequenceSet.ZeroFails | src/dbmail-mailbox.c:1573-1576 | the set `"0"` (what `keyword X` produces) makes the call return NULL |
| SequenceSet.NonNumericFails | src/dbmail-mailbox.c:1573-1576 | a set starting with neither a digit nor `*` returns NULL |
| SequenceSet.EmptyElementStops | src/dbmail-mailbox.c:1563 | a leading empty element ends the loop with an empty result |
| SearchTree.EmptyTree | src/dbmail-mailbox.c:665-683 | the empty tree, with no current node, is valid |
| SearchTree.Children | src/dbmail-mailbox.c:1704 | a node's children ascend and are exactly the nodes whose parent it is |
| SearchTree.AppendSearch | src/dbmail-mailbox.c:665-683 | the first node becomes root and current. Later nodes become the last child of the current node. Descending moves the current node to the new one. Existing nodes never change |
| SearchTree.AppendSearchChildren | src/dbmail-mailbox.c:665-683 | the new node is appended to the current node's children; no other node's children change |
| SearchTree.PopSearch | src/dbmail-mailbox.c:790-795 | the current node moves to its parent when it has one; otherwise nothing changes |
| SearchTree.PopAfterDescend | src/dbmail-mailbox.c:665-795 | descending into a new node and popping returns to the previous current node, with the same nodes as a plain append |
| SearchTree.PreOrder | src/dbmail-mailbox.c:1818-1822 | a pre-order traversal starts at its node and stays within its subtree's index range |
| SearchTree.PreOrderExactlyOnce | src/dbmail-mailbox.c:1818-1822 | a pre-order traversal visits a node iff it is in the subtree, and no node twice |
| SearchTree.PreOrderCovers | src/dbmail-mailbox.c:1818-1822 | the pre-order traversal from a node visits every node of its subtree |
| SearchTree.UnderRoot | src/dbmail-mailbox.c:1818-1822 | every node lies below the root |
| SearchTree.SiblingsDisjoint | src/dbmail-mailbox.c:1704 | the subtrees of two different children of one node share no node |
| SearchParser.Lookup | src/dbmail-mailbox.c:810-1163 | a token is a keyword iff it equals that keyword's spelling; Other means no keyword matches |
| SearchParser.Classify | src/dbmail-mailbox.c:810-1163 | `MATCH`: a recognised token equals its keyword's spelling ignoring ASCII case |
| SearchParser.LeafSpec | src/dbmail-mailbox.c:810-1054 | a leaf key takes 1 to 3 tokens; an accepted one never reads past the keys |
| SearchParser.LeafConsumesArity | src/dbmail-mailbox.c:810-1054 | each leaf key takes its fixed number of tokens (1 for flags and `all`, 3 for `header`, 2 otherwise) and no other word is a leaf |
| SearchParser.Handle | src/dbmail-mailbox.c:797-1171 | one key: returns -1, 0 or 1; 0 moves the cursor forward; 1 leaves the tree alone; the tree is only appended to |
| SearchParser.Group | src/dbmail-mailbox.c:1061-1140 | `not`, `or`, `(`: the same result codes and progress as a single key |
| SearchParser.Rest | src/dbmail-mailbox.c:1142-1163 | `)` returns 1. A message set appends a leaf. `charset` takes two tokens. Anything else returns -1 with the parser unchanged |
| SearchParser.SearchLoop | src/dbmail-mailbox.c:1233 | the key loop stops only at the end of the keys or on a non-zero result |
| SearchParser.Build | src/dbmail-mailbox.c:1181-1239 | with keys left, it always appends the initial set node; result codes and progress as above |
| SearchParser.ParenLoop | src/dbmail-mailbox.c:1137 | the `(` loop only moves forward and appends |
| SearchParser.SortArgs | src/dbmail-mailbox.c:703-788 | one sort key: -1 leaves the node alone; 0 and 1 move the cursor forward; only 0 changes the ORDER BY text |
| SearchParser.SortLoop | src/dbmail-mailbox.c:1203-1211 | the sort node is appended iff the loop ends with result 1; it is a sort node and the current node stays; otherwise the tree is unchanged |
| SearchParser.SortArgsOnCharset | src/dbmail-mailbox.c:714-788 | `_handle_sort_args` returns 1 iff the word after an optional `reverse` is `utf-8`, `us-ascii` or `iso-8859-1`, and then consumes it |
| SearchParser.SortLoopOnCharset | src/dbmail-mailbox.c:1203-1211 | when the sort node is appended, a charset token ended the criteria, and the node's parent is the current node |
| SearchParser.SortTerm | src/dbmail-mailbox.c:714-758 | a sort key, optionally after `reverse`, appends its column term (with ` DESC` if reversed) and moves past it |
| SearchParser.ReverseOnlyNext | src/dbmail-mailbox.c:714-758 | `reverse a b` orders by a descending and b ascending |
| SearchParser.AppendSortAddsTerm | src/dbmail-mailbox.c:694-701 | `_append_sort` adds one comma-terminated term to the ORDER BY list |
| SearchParser.OrderClauseTerms | src/dbmail-mailbox.c:1256-1261 | the finished ORDER BY clause splits into the sort terms followed by `message_idnr` |
| SearchParser.HandleLeaf | src/dbmail-mailbox.c:810-1054 | a leaf key appends its leaf and takes its tokens, or returns -1 with the parser unchanged when an argument is missing or malformed |
| SearchParser.FlagConsumesOne | src/dbmail-mailbox.c:830-905 | a flag keyword appends its flag test and takes one token |
| SearchParser.BuildUnordered | src/dbmail-mailbox.c:1181-1239 | a SEARCH first appends the leading message set (or `1:*` when there is none), then runs the key loop |
| SearchParser.NotFlagShortcut | src/dbmail-mailbox.c:1063-1106 | `not <flag>` appends one negated flag test and takes two tokens |
| SearchParser.NotStep | src/dbmail-mailbox.c:1108-1117 | `not <other>` opens a NOT node, parses one key inside it, and pops back unless that key failed |
| SearchParser.NotWrapsLeaf | src/dbmail-mailbox.c:1108-1117 | `not <flag with no negated form>` (such as `not unseen`) gives a NOT node holding that flag's leaf |
| SearchParser.NegatedFlagIsUnForm | src/dbmail-mailbox.c:1063-1106 | `not answered` (and deleted, flagged, seen, draft) tests what `unanswered` (and so on) tests; `not recent` is `old` and `not old` is `recent` |
| SearchParser.NegatedFlagComplements | src/dbmail-mailbox.c:1063-1106 | for every flag except `new`, the negated test holds exactly when the flag's own test does not |
| SearchParser.NotNewIsNotComplement | src/dbmail-mailbox.c:867-871 | a message with seen=0 and recent=0 matches neither `new` nor `not new` |
| SearchParser.CharsetConsumesTwo | src/dbmail-mailbox.c:1153-1158 | `charset X` records X (NULL past the end), takes two tokens and appends nothing |
| SearchParser.UnknownKeyRejected | src/dbmail-mailbox.c:1159-1163 | an unknown key that is not a message set returns -1 and leaves the parser as it was |
| SearchParser.FlatConjunction | src/dbmail-mailbox.c:1233 | a run of flag keywords appends one flag leaf per token under the current node |
| SearchParser.FlagSearchTree | src/dbmail-mailbox.c:1181-1239 | a SEARCH of flag keywords only builds a `1:*` root with one flag leaf per keyword, in order |
| SearchParser.KeywordNotMsgSet | src/dbmail-mailbox.c:1146-1150 | no keyword is also a message set |
| SearchEval.StoreFound | src/dbmail-mailbox.c:1485-1504 | the found set of a store query holds exactly the returned ids the index knows, with their MSNs |
| SearchEval.DoSearch | src/dbmail-mailbox.c:1668-1719 | `_do_search` on a node returns TRUE only with the node states unchanged |
| SearchEval.DoSearchSettles | src/dbmail-mailbox.c:1668-1719 | one call writes only per-key expected states and keeps those already written. It returns TRUE exactly on a message set `dbmail_mailbox_get_set` rejects; otherwise the node ends in its expected state |
| SearchEval.SearchPassSettles | src/dbmail-mailbox.c:1818-1819 | pass one stops iff some visited node is a rejected message set; otherwise every visited node holds its expected state |
| SearchEval.PassOneResult | src/dbmail-mailbox.c:1818-1819 | from a fresh tree, pass one fails iff some node is a rejected set; otherwise every node holds its expected state |
| SearchEval.TreeMerge | src/dbmail-mailbox.c:1743-1784 | `g_tree_merge`: intersection, union or difference of the keys; a NULL second operand leaves the first as it was |
| SearchEval.CopyInto | src/dbmail-mailbox.c:1651-1660 | `_found_tree_copy` of a set into another: the union of the keys, with the copied entries |
| SearchEval.MergeNode | src/dbmail-mailbox.c:1722-1796 | `_merge_search` never enlarges the accumulator and keeps the node count |
| SearchEval.MergeOr | src/dbmail-mailbox.c:1750-1780 | the OR case never enlarges the accumulator |
| SearchEval.MergeChildren | src/dbmail-mailbox.c:1737 | merging the children never enlarges the accumulator |
| SearchEval.MergePass | src/dbmail-mailbox.c:1821-1822 | pass two never enlarges the accumulator |
| SearchEval.Search | src/dbmail-mailbox.c:1809-1830 | no tree means nothing happens; a completed search's result lies within the index |
| SearchEval.MergeNodeMeaning | src/dbmail-mailbox.c:1722-1796 | on a fresh plain subtree, the accumulator keeps exactly the UIDs that satisfy the node's key (IMAP meaning of AND, NOT, OR and leaves); the subtree ends merged; nothing outside it changes |
| SearchEval.MergeOrMeaning | src/dbmail-mailbox.c:1750-1780 | an OR of two plain operands keeps exactly the UIDs that satisfy either operand |
| SearchEval.MergeChildrenMeaning | src/dbmail-mailbox.c:1737 | merging fresh plain siblings keeps exactly the UIDs that satisfy all of them |
| SearchEval.PreOrderAllPassMeaning | src/dbmail-mailbox.c:1821-1822 | the pre-order pass over fresh plain siblings' subtrees merges exactly as merging the siblings in turn |
| SearchEval.SearchMeaning | src/dbmail-mailbox.c:1809-1830 | for a plain tree with no rejected set, the result holds exactly the UIDs of the index that are in the root set and satisfy every top-level key |
| SearchEval.SearchAgain | src/dbmail-mailbox.c:1809-1830 | a second search over the same tree returns the whole index |
| SearchEval.SettledSearchIsWhole | src/dbmail-mailbox.c:1809-1830 | once every node is searched (or a sort) and merged, a search returns the whole index and changes no state |
| SearchEval.OrOperandsAsTheyStand | src/dbmail-mailbox.c:1750-1780 | an OR whose two operands are not AND groups narrows the accumulator to the union of its own and its operands' found sets as they stand, and marks all three merged |
| SearchEval.OrWithGroupOperand | src/dbmail-mailbox.c:1750-1780 | an OR with a NOT or OR group as first or second operand, whose other operand is not an AND group, keeps only what that other operand found; the nested group contributes its empty set |
| SearchEval.NestedOrIsConjunction | src/dbmail-mailbox.c:1750-1790 | `SEARCH <set> OR a OR b c` finds exactly the messages in the set that satisfy `a`, `b` and `c` together |
| SearchEval.OrNeedsTwoOperands | src/dbmail-mailbox.c:1750-1755 | an unmerged OR node with fewer than two children dereferences NULL |
| Sorting.SortedIds | src/dbmail-mailbox.c:1275-1283 | the sorted list holds exactly the rows' UIDs that are in the result, each once |
| Sorting.SortedIdsOrder | src/dbmail-mailbox.c:1275-1295 | the sorted list follows the order of each UID's first appearance in the rows |
| Sorting.SortPass | src/dbmail-mailbox.c:1242-1301 | every sort node visited is marked sorted; marks are never removed |
| Sorting.SortPassIdle | src/dbmail-mailbox.c:1253-1255 | a pass with no unsorted sort node changes nothing |
| Sorting.SortOnce | src/dbmail-mailbox.c:1798-1806 | with one sort node, `dbmail_mailbox_sort` marks it sorted and sets the list to its rows kept to the result |
| Sorting.SortTwice | src/dbmail-mailbox.c:1798-1806 | sorting again changes nothing |
| Listing.Listed | src/dbmail-mailbox.c:603-610 | one listed id per result entry |
| Listing.IdsAsString | src/dbmail-mailbox.c:591-628 | NULL iff there is no result or it is empty; otherwise the text reads back as the listed ids |
| Listing.IdsAsStringMeaning | src/dbmail-mailbox.c:591-628 | read back, a SEARCH listing holds one id per result message, strictly ascending. In UID mode the ids are the result's UIDs. Otherwise they are the result's MSNs |
| Listing.MsnListingAscends | src/dbmail-mailbox.c:608 | with MSNs growing with UIDs, `g_tree_values` ascends |
| Listing.MsnListingValues | src/dbmail-mailbox.c:608 | `g_tree_values` holds exactly the MSNs of the result |
| Listing.Shown | src/dbmail-mailbox.c:643-654 | only entries of the result are shown, at most one per list entry, all of them when the whole list is in the result |
| Listing.SortedAsString | src/dbmail-mailbox.c:629-661 | NULL iff the sorted list is empty; otherwise the text reads back as the shown ids |
| Listing.ShownWhole | src/dbmail-mailbox.c:643-654 | a list wholly inside the result is shown whole, in its own order, as UIDs or as each UID's sequence number |
| Listing.SortedListing | src/dbmail-mailbox.c:629-661 | after a sort, the SORT listing reads back as the sorted list itself in a UID command, and as the sequence numbers of its entries, in order, otherwise |
| SubjectTree.BelowIrreflexive | src/dbmail-mailbox.c:505 | no subject sorts before itself under `strcmp` |
| SubjectTree.BelowTransitive | src/dbmail-mailbox.c:505 | the `strcmp` order is transitive |
| SubjectTree.BelowTotal | src/dbmail-mailbox.c:505 | any two different subjects are ordered one way or the other |
| SubjectTree.Lookup | src/dbmail-mailbox.c:562 | `g_tree_lookup` finds a value iff the subject is in the tree |
| SubjectTree.Insert | src/dbmail-mailbox.c:518-564 | `g_tree_insert` keeps the tree ordered, adds the subject, binds it to the new value and leaves every other subject's value alone |
| SubjectTree.Threads | src/dbmail-mailbox.c:579 | `g_tree_foreach` visits each subject's list, in key order |
| Threading.Roots | src/dbmail-mailbox.c:512-519 | the roots loop builds an ordered tree of the subjects of the rows in the result, all without a thread yet |
| Threading.AddRow | src/dbmail-mailbox.c:549-565 | a row in the result appends its UID (or MSN) to its subject's thread; other rows change nothing |
| Threading.Collect | src/dbmail-mailbox.c:549-565 | the thread loop leaves each subject's thread extended by exactly the ids of that subject's rows in the result, in row order |
| Threading.CollectedThreads | src/dbmail-mailbox.c:549-565 | starting from the roots, every subject's thread is exactly its rows' ids in the result |
| Threading.ReadThreadsOf | src/dbmail-mailbox.c:454-478 | the printed threads read back as the threads, when none is empty |
| Threading.RenderNonEmpty | src/dbmail-mailbox.c:454-478 | a subject with an empty thread prints nothing |
| Threading.RenderedThreadsRead | src/dbmail-mailbox.c:454-478 | any printed threads read back as the non-empty threads |
| Threading.OrderedSubject | src/dbmail-mailbox.c:481-586 | NULL iff either query returns no rows |
| Threading.OrderedSubjectMeaning | src/dbmail-mailbox.c:481-586 | the answer lists one group per subject of a result message, in `strcmp` order. Each group holds that subject's ids in the result in row order, and it reads back as exactly those threads |

## Left out

- SQL text and the store. Every query becomes the rows it returns, as a parameter: `mailbox_search`'s query building (1302-1484), the sort and thread queries, and the JOIN text of `_append_join`. SQL exceptions are left out too, including the partial sorted list `_do_sort` leaves behind and the query error in `orderedsubject`.
- `dbmail_mailbox_dump`, `_mimeparts_dump` and the message cache's contents (flags, keywords, sizes). They are not part of the search core. The cache is modelled only as the set of UIDs it holds.
- Charset transcoding of needles. The needle records the declared charset. `check_date` and `check_msg_set` are not part of this model: dates are checked by a parameter, and message sets by a character-class predicate.
- `g_tree_merge` is not part of this model. It is taken to compute intersection, union or difference, and to leave its target alone when either operand is NULL.
- Memory: `MAX_SEARCH_LEN` truncation, leaked nodes, `TRACE` output, and reads at or past the keys' terminating NULL. Each such read is modelled as "no word". This covers reading the NULL itself. It also covers the slot after it, which the source reads in two places: after a trailing `charset` (src/dbmail-mailbox.c:1153-1157 leaves the cursor one past the NULL), and in THREAD when the initial set took the last key (1214-1216 step past the NULL and read there). A read past the NULL is undefined behaviour in C. The model gives it no meaning beyond "no word": SearchParser.Build then returns -1 in the THREAD case.
- Text.ReadNumber: `dm_strtoull` is not part of this model. It, and `strtoull` for the LARGER and SMALLER sizes, are taken to read the leading decimal digits only. Leading white space, a sign and overflow, which the C library's `strtoull` would accept, are not modelled.
- SearchEval.Search: the result holds its sequence numbers by value, as they were when the search ran. In the source, `dbmail_mailbox_search` fills `found` with `_shallow_tree_copy` (src/dbmail-mailbox.c:1662-1666, 1816), so its values are the index's own MSN cells. A later `uid_msn_map` (line 123) rewrites those cells, and `dbmail_mailbox_remove_uid` (286-300) removes one. The MSNs that `ids_as_string` and `sorted_as_string` print after an insert or remove therefore change or dangle. The model does not follow them.
- Search state: the source's separate `searched` and `merged` flags are collapsed into one status. Pass two marks every node it reaches as merged, even one that pass one never reached because a rejected set stopped it. In the source, such a node keeps `searched` FALSE, so a later `dbmail_mailbox_search` runs `_do_search` on it again: another store query, or TRUE again for a rejected set. The model skips that repeat. The found result is the same, because the node is already merged and pass two skips it.
- Integer width. UIDs and MSNs are unbounded, so the wrap-around of the `u64_t` range loop at 2^64-1 is not modelled.
- The `MailboxState` message count is taken as a parameter (`messages`). The count it stores in `uid_msn_map` is not modelled.
- THREAD=REFERENCES parses like ORDEREDSUBJECT, but its threading lives outside this file.
- The callback codes of `_do_search` for unknown key types (`default: return TRUE`). Every key type the parser produces is handled.
- SearchEval.SearchMeaning: proved only for plain trees. In these, every OR has exactly two operands, neither a NOT, OR or sort node; no leaf has children; the root is a message set; and no set is rejected. For an OR with a NOT or OR operand in either position and no AND operand, SearchEval.OrOperandsAsTheyStand and SearchEval.OrWithGroupOperand state what one OR node does, and SearchEval.NestedOrIsConjunction works one nested-OR search through. An OR with fewer than two operands is SearchEval.OrNeedsTwoOperands. Other shapes, such as an OR with an AND operand inside a larger tree, have no whole-search statement.
- SearchEval.SearchAgain: proved under the same conditions as SearchEval.SearchMeaning.
- SearchEval.MergeNodeMeaning: proved for fresh plain subtrees only, for the same reason.
- UidIndex.Open: the numbering is proved well formed only for ascending rows. The open query orders its rows by id.
- SequenceSet.Evaluate: the membership statement over MSNs needs a well-numbered index.
- SequenceSet.RangeResult: stated for an index whose bounds cover it, meaning positive UIDs, or an MSN count equal to the index size.
- Listing.IdsAsStringMeaning: the MSN listing is proved ascending only for a result drawn from a well-numbered index.
- Sorting.SortOnce: stated for trees with a single sort node, the only shape the parser builds.
