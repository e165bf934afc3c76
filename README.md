# Station aggregation and extreme-balance shortlists

This project models the C core of the grid-station aggregator in
`projet_preing2/codeC`. The program reads semicolon-separated lines. Each line
names a power plant, an HV-B station, an HV-A station and an LV post, and
carries a capacity or a load. The program decides which station the line
belongs to. It then adds the capacity or the load into that station's record
in an AVL tree keyed by station id. At the end it writes the records in id
order. On an "lv all" run it also keeps two bounded shortlists: the ten
lowest balances and the ten highest (balance is capacity minus consumption).
It then writes a minimum/maximum report from those two lists.

The model has five modules:

- `Avl` (avl.dfy): the tree as an immutable datatype with its cached
  heights. It holds `getHeight`, `max`, `getBalance`, `createNode`, the two
  rotations, `insertAVL` (with its rebalancing tail split out as
  `Rebalance`) and `inOrderTraversal` as a function returning the records.
  The proofs cover the search-tree order, the AVL balance with correct cached
  heights, the per-id view (`Content`) and the shape of the tree after a
  duplicate key.
- `Traversal` (traversal.dfy): what the in-order traversal emits. Each node
  appears once, ids are strictly ascending, and the sequence is fixed by the
  per-id view alone.
- `Aggregation` (aggregation.dfy): what a whole run of `insertAVL` calls
  builds. It is one record per id holding the sums of that id's
  contributions, and the result does not depend on the order of the lines.
- `Shortlist` (shortlist.dfy): `TopStations` as a class over a fixed array
  of `TOP_COUNT` (10) entries and a size. `insertTopHigh` and `insertTopLow`
  are proved against a specification function `Offer`. Further lemmas show
  that a run of offers keeps the first ten of a stable sort of everything
  offered.
- `Driver` (driver.dfy): the parts of `main` around them. These are the
  classification of one parsed line, the loop of `insertAVL` calls,
  `traverseAndProcess` and the order of the report lines. `Run` chains them
  from parsed lines to output.

## Model

| member | source | states |
|---|---|---|
| Avl.GetHeight | projet_preing2/codeC/avl.c:4-8 | an empty subtree has height 0; on a tree with correct cached heights the result is the real height |
| Avl.Max | projet_preing2/codeC/avl.c:11-13 | the result is one of the two arguments and at least both |
| Avl.GetBalance | projet_preing2/codeC/avl.c:50-54 | 0 for an empty subtree, otherwise left height minus right height |
| Avl.CreateNode | projet_preing2/codeC/avl.c:57-68 | a valid leaf of height 1 holding the station, whose traversal is just that station |
| Avl.RightRotate | projet_preing2/codeC/avl.c:16-30 | the left child becomes the root, the old root takes the left child's right subtree, and both cached heights are recomputed from their children |
| Avl.LeftRotate | projet_preing2/codeC/avl.c:33-47 | the mirror image of `RightRotate` |
| Avl.RightRotateKeepsInOrder | projet_preing2/codeC/avl.c:16-30 | a right rotation keeps the in-order sequence of records |
| Avl.LeftRotateKeepsInOrder | projet_preing2/codeC/avl.c:33-47 | a left rotation keeps the in-order sequence of records |
| Avl.RightRotateKeepsContent | projet_preing2/codeC/avl.c:16-30 | a right rotation keeps the record held for every id |
| Avl.LeftRotateKeepsContent | projet_preing2/codeC/avl.c:33-47 | a left rotation keeps the record held for every id |
| Avl.RightRotateKeepsBST | projet_preing2/codeC/avl.c:16-30 | a right rotation keeps the search-tree order and the set of keys |
| Avl.LeftRotateKeepsBST | projet_preing2/codeC/avl.c:33-47 | a left rotation keeps the search-tree order and the set of keys |
| Avl.RightRotateBalances | projet_preing2/codeC/avl.c:97-99 | in the left-left case (left side 2 taller, its outer subtree taller), the right rotation gives a balanced tree as tall as the old left subtree |
| Avl.LeftRotateBalances | projet_preing2/codeC/avl.c:101-103 | in the right-right case, the left rotation gives a balanced tree as tall as the old right subtree |
| Avl.LeftRightBalances | projet_preing2/codeC/avl.c:105-109 | in the left-right case, the double rotation gives a balanced tree as tall as the old left subtree |
| Avl.RightLeftBalances | projet_preing2/codeC/avl.c:111-115 | in the right-left case, the double rotation gives a balanced tree as tall as the old right subtree |
| Avl.Merge | projet_preing2/codeC/avl.c:80-87 | a duplicate id keeps the record's id and adds the incoming capacity and consumption into it |
| Avl.Rebalance | projet_preing2/codeC/avl.c:89-117 | after an insertion below a node, the result is a valid AVL search tree with the same keys; when the balance factor is within -1..1 no rotation happens and the node keeps its station and children; the resulting height is stated for both cases |
| Avl.RebalanceKeepsOrder | projet_preing2/codeC/avl.c:89-117 | rebalancing changes neither the in-order sequence nor the per-id records |
| Avl.InsertAVL | projet_preing2/codeC/avl.c:71-118 | on a valid tree, the result is a valid AVL search tree whose keys are the old keys plus the station's id; the height grows by at most one and does not grow when the id was already present |
| Avl.InsertAVLContent | projet_preing2/codeC/avl.c:71-118 | the per-id records after insertion are the old ones with the station merged into its id's record, or added when the id is new |
| Avl.InsertExistingKeepsShape | projet_preing2/codeC/avl.c:80-87 | inserting an id already present keeps every node's id, position and cached height: no rotation and no new node |
| Avl.SameShapeHeight | projet_preing2/codeC/avl.c:80-87 | two trees of the same shape have the same height |
| Avl.ContentIds | projet_preing2/codeC/avl.h:7-11 | the record held for an id carries that id |
| Traversal.TraversalStations | projet_preing2/codeC/avl.c:121-127 | the traversal emits every node's record exactly once (as a multiset, the tree's records) |
| Traversal.TraversalContent | projet_preing2/codeC/avl.c:121-127 | the traversal holds the same per-id records as the tree |
| Traversal.TraversalAscending | projet_preing2/codeC/avl.c:121-127 | on a search tree the emitted ids are strictly ascending |
| Traversal.SameContentSameTraversal | projet_preing2/codeC/avl.c:121-127 | two search trees with the same per-id records emit the same sequence, whatever their shapes |
| Aggregation.BuildSnoc | projet_preing2/codeC/main.c:256 | one more contribution is one more `insertAVL` call on the tree built so far |
| Aggregation.BuildTotals | projet_preing2/codeC/avl.c:71-118 | the tree built from the contributions holds, for each id mentioned, one record whose capacity and consumption are the sums of that id's contributions, and nothing else |
| Aggregation.TotalPermutation | projet_preing2/codeC/avl.c:80-87 | reordering the contributions changes no id's sums |
| Aggregation.OrderIndependent | projet_preing2/codeC/main.c:189-259 | the same contributions in any order give the same output sequence |
| Aggregation.BuildTraversal | projet_preing2/codeC/main.c:259 | the output has one record per id mentioned, ids strictly ascending, each record holding that id's sums |
| Aggregation.InsertNewKey | projet_preing2/codeC/avl.c:73-79 | a new id adds exactly one record, equal to the station given, and the traversal stays strictly ascending |
| Aggregation.InsertExistingKey | projet_preing2/codeC/avl.c:80-87 | an id already present keeps the key set, adds the station's capacity and consumption into that id's record and leaves every other record unchanged |
| Shortlist.Offer | projet_preing2/codeC/main.c:34-115 | a shortlist with room grows by the entry; a full one admits an entry only when it comes strictly before the last entry, which it then evicts; a rejected entry changes nothing |
| Shortlist.InsertPermutes | projet_preing2/codeC/main.c:39-51 | the swap pass adds the new entry and loses none of the others |
| Shortlist.InsertPosBounds | projet_preing2/codeC/main.c:44-50 | on a sorted list the new entry stops behind every entry it does not come strictly before, equal balances included, and in front of every entry it does |
| Shortlist.InsertSorted | projet_preing2/codeC/main.c:39-51 | the swap pass keeps a sorted shortlist sorted |
| Shortlist.OfferSorted | projet_preing2/codeC/main.c:34-115 | an offer keeps a sorted shortlist sorted |
| Shortlist.OfferTake | projet_preing2/codeC/main.c:52-71 | an offer to the first k entries of a sorted list gives the first k entries of the list with the entry inserted |
| Shortlist.InsertionSortSorts | projet_preing2/codeC/main.c:39-51 | insertion sort with the same swap pass sorts and is a permutation |
| Shortlist.OfferAllKeepsBest | projet_preing2/codeC/main.c:313-317 | after any run of offers to an empty shortlist it holds the first k entries of the stable sort of everything offered: the k best balances, ties in offer order |
| Shortlist.OfferAllAppend | projet_preing2/codeC/main.c:306-320 | offers made in two runs give the same shortlist as the offers of the whole run |
| Shortlist.TopStations.constructor | projet_preing2/codeC/main.c:183-184 | a shortlist with fresh storage for `TOP_COUNT` entries, empty |
| Shortlist.TopStations.InitTopStations | projet_preing2/codeC/main.c:29-31 | the shortlist becomes empty and keeps its storage |
| Shortlist.TopStations.InsertTopHigh | projet_preing2/codeC/main.c:34-73 | the entries in use become `Offer` of the station in lowest-balance-first order |
| Shortlist.TopStations.InsertTopLow | projet_preing2/codeC/main.c:76-115 | the entries in use become `Offer` of the station in highest-balance-first order |
| Shortlist.TopStations.InsertTop | projet_preing2/codeC/main.c:37-72 | append when there is room, or overwrite the last slot when the station comes strictly before it, then run the swap pass; the result is `Offer` |
| Shortlist.TopStations.BubbleUp | projet_preing2/codeC/main.c:40-51 | the in-place swap pass leaves the array's used part equal to the specification `Insert` of the last entry into the ones before it |
| Driver.Classify | projet_preing2/codeC/main.c:223-253 | a line contributes exactly when the first present column (LV, then HV-A, HV-B, power plant) holds a positive id and exactly one of capacity and load is positive; the id is that column's, and the value goes to capacity or to consumption accordingly |
| Driver.ToEntries | projet_preing2/codeC/main.c:315-316 | one entry per record, in order, with the same id and the same balance |
| Driver.Aggregate | projet_preing2/codeC/main.c:189-257 | the reading loop leaves a valid AVL tree equal to the one built by inserting the classified contributions in line order |
| Driver.TraverseAndProcess | projet_preing2/codeC/main.c:306-320 | emits the in-order sequence of the tree; on an "lv all" run both shortlists receive the emitted records as offers in that order, otherwise they are unchanged |
| Driver.OffersInOrder | projet_preing2/codeC/main.c:308-319 | offering the left subtree's records, then the node's, then the right subtree's is offering the whole traversal |
| Driver.ReversedAt | projet_preing2/codeC/main.c:293 | position k of the reversal holds position size-1-k of the list |
| Driver.MinMaxReport | projet_preing2/codeC/main.c:287-295 | the report lines are the lowest-balance list front to back, then the highest-balance list back to front |
| Driver.ReversedHighestFirst | projet_preing2/codeC/main.c:292-295 | the second half of the report is in ascending balance order, so the most positive balance comes last |
| Driver.Run | projet_preing2/codeC/main.c:183-295 | from parsed lines: the output is the traversal of the tree the contributions build; on an "lv all" run the report is the ten lowest balances ascending followed by the ten highest in ascending order, and otherwise there is no report |

The program's design description says that the second half of the report
shows the most positive balance first. The code at main.c:292-295 prints the
highest-balance list from its last entry to its first. That list is kept
highest first, so the most positive balance is printed last. The model
follows the code, and `Driver.ReversedHighestFirst` states the resulting
order.

## Left out

- Command-line handling, opening and closing files, error exits 1-4, the
  header line and the derivation of the station and consumer types from the
  output file name (main.c:120-180) are left out. The types arrive as
  strings, and output leaves as sequences of records.
- Reading and tokenising lines (main.c:189-221) is left out: `trim_newline`,
  skipping empty lines, `strtok`, `atoi`/`atoll` and "-" as a missing field.
  A line arrives as its already-parsed fields (`Driver.Line`). A line with
  too few fields makes the C code pass NULL to `strcmp`; that undefined
  behaviour is not modelled. The company and individual columns are read and
  ignored, so they are not part of `Line`.
- The text rendering `id:capacity:consumption` (avl.c:124, main.c:289,
  main.c:294, main.c:311) is left out. Records leave as values, in the order
  they are written.
- Building the minimum/maximum file name (main.c:264-282) and its fixed
  title lines are left out.
- `freeAVL` and the exit on a failed `malloc` in `createNode` are left out.
  Memory is not modelled.
- Integer widths are left out: `int` ids and heights, and `long long`
  capacities, consumptions and balances, are unbounded integers. Overflow of
  the sums or of capacity minus consumption is not modelled.
- Avl.InsertAVL: requires a valid AVL search tree with correct cached
  heights. The C function takes any tree, but `main` only passes NULL and
  trees returned by `insertAVL`. On a malformed tree the C code can follow a
  NULL child in the rotation cases.
- Avl.RightRotate and Avl.LeftRotate, and the rest of the tree, work on
  immutable values. The C code rewires child pointers and cached heights in
  place. No node is shared, so the resulting tree is the same, but aliasing
  is not modelled.
- Shortlist.TopStations.InsertTopHigh and Shortlist.TopStations.InsertTopLow
  share one body, `InsertTop`, parameterised by the comparison. The C code
  has two copies that differ only in `<` versus `>`.
- Avl.InOrderTraversal has no contract of its own. What it emits is stated
  by the `Traversal` lemmas.
