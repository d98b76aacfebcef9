# PostgreSQL contrib components in Dafny

This project models the parts of PostgreSQL 13.9's contrib tree whose correctness rests on
invariants that no single function shows, and proves what those parts promise.

* **intarray, boolean queries** (`Query*.dfy`). Lexer, operator-stack parser, linking by 16-bit
  offsets, short-circuit evaluation, printer, and the GIN search built on them. The parser accepts
  exactly a grammar over spelled tokens, and which texts give which error is said by the grammar too;
  printing and reading back keeps the meaning; a GIN search is exact.
* **intarray, range keys** (`Int*.dfy`). In-place compression of an integer set to k ranges, which
  is proved to be the smallest cover by k intervals, expansion, the tests on keys, and searches over
  whole trees, which return exactly the rows whose test says so; exactly when that test is right is
  proved too.
* **btree_gist, truncated keys** (`ByteOrder.dfy`, `VarKey*.dfy`). Bounds cut to a common prefix at
  each level. Unions and splits of leaf pages never lose a value; splits of cut keys can, and the exact
  condition is given.
* **amcheck** (`Btree*.dfy`). The checker of B-tree indexes as a state machine over pages. Each
  method is proved both ways (acceptance implies its specification, a report of corruption implies
  its negation), and an index of live pages is accepted if and only if it is sound, which is defined
  by the order of keys and the links between pages; further theorems say what acceptance means.
* **bloom** (`Bloom*.dfy`). The random number generator in 32-bit arithmetic, signatures, page
  compaction, the build, and the concurrent index as a step machine: conservation of entries, no
  reinitialisation of used pages, completeness of scans.
* **hstore** (`Hstore*.dfy`). The packed store and its construction in shared memory, search with a
  carried bound, merges as map operations, the tests of stored values and the in-place conversion of
  the old form, every spelling of the text form, and the round trip through it.

`Wrappers.dfy`, `MachineInt.dfy` and `Growth.dfy` (allocation and doubling buffers) hold shared
definitions.

## Reading the model

Code that changes things step by step is a method or a class with loops and invariants, proved
against a function or predicate on values; recursion and pure tests are functions. Errors of the
original are results. Library code that is not part of this model appears as its contract: `qsort`
is a method of which callers know only that it returns a sorted permutation (hstore) or sorted list
of the same elements (intarray), hash functions are a parameter, and memory allocation fails beyond
0x3fffffff bytes, also where a buffer grows by doubling.

amcheck is modelled in readonly mode on version 4 indexes (heap TID as last key column), without
INCLUDE columns and posting lists. Its loops follow links that may form circles, so they are
bounded, and running out gives a third verdict besides acceptance and corruption. With bounds above
the number of pages that verdict, too, means that the index does not pass. Block 0 is not a page of
the tree. A plain tuple without a valid heap TID counts as lacking one. Reading offset 0 of a page in
the last high key comparison counts as corrupt. Block number 0xffffffff, which the original uses for
"no block yet" where it follows the child level, is an ordinary number here; a right link with it
makes the original start afresh there, but the verdict on the whole index is the same, because the
walk of that level itself comes to the number later and finds no page there.

The bloom step machine makes one step of what a process does under the page locks it holds at one
time. The exclusive lock of the metapage is part of the state. Any process may stop at any point.
The free space map may name any block. The shift by a negative count that the generator's state zero
leads to is an arbitrary fixed word.

In hstore memory a word takes four cells, so that moving bytes over words would be noticed. The bit
fields of the old hstore entries are laid out as on a little-endian machine: the length of the key in
the lower half of the first word, the mark of a null in the lowest bit of the second. A word read
behind the end of a value is arbitrary.

## What turned out not to hold

* Query offsets are 16 bits wide: links are right if and only if each right operand has fewer than
  32768 items (`QueryItems.StoredIsLinked`). An accepted query whose root is stored with offset zero
  cannot be evaluated (`QueryLongOperand.LongOperandAccepted`, `LongOperandStuck`).
* A split of cut btree_gist keys can hide values that the keys cover (`VarKeySplit.SplitExact`), also
  stored ones (`VarKeyTree.SplitLosesValue`).
* The level walk of amcheck does not always end. It goes on for ever if and only if no page fails its
  checks and the right links lead to a circle through an ignorable page
  (`BtreeCircleTheorems.EndsIffNoCircle`, `RepeatsIffCircle`, `HalfDeadCircle`).
* A leaf item of an accepted index can lie below the separator of its grandparent
  (`BtreeLagExample.BelowGrandparent`). A separator bounds everything below its downlink if and only
  if it bounds the first leaf item there (`BtreeOrderTheorems.LowerBoundIff`).
* A null downlink on a first item is accepted, even without a leaf level (`NullDownlinkAccepted`,
  `ChainedIffNoNull`).
* amcheck reports an index as corrupt whose page deletion was interrupted: the high keys of half-dead
  pages are compared with separators too, and deletion leaves them without attributes
  (`src/backend/access/nbtree/nbtpage.c:1845-1857`, `BtreeHalfDead.HalfDeadReported`).
* Rows of at least 2k integers are read as ranges. They are read right if and only if they are an even
  number of integers within the limit, in pairs of consecutive ones, without the largest int
  (`IntGist.LongRowExact`, `LongRowLosesMatch`, `LongRowNotExpanded`).
* A page key of at least 2k integers is expanded if and only if the largest int is not among them
  (`IntGist.FormedExpandable`, `LargestIntNotExpanded`).
* A stored query cannot always be printed. It comes back from its text if and only if its text fits
  the growing buffers (`QueryReread.Reread`, `LongTextNotPrinted`).
* Two seeds put the bloom generator in state zero, from which it draws -1 for ever
  (`BloomRand.SeededIs`, `AllDraws`).
* A short old-format hstore whose first pair is a null with a large length left in it is taken for
  the new format (`HstoreUpgrade.OldIsTakenAsOld`, `NullLengthMisread`).
* A printed hstore is not always read back: it is if and only if it has at most 2^24 pairs
  (`HstoreRoundTrip.RoundTrip`, `HstoreLimit.TooManyPairs`).

## Model

| member | source | states |
|---|---|---|
| QueryWorkState.WorkState.GetToken | PostgreSQL-13.9/contrib/intarray/_int_bool.c:47-130 | the lexer returns the next token of the text, or fails where the text has none; which spellings are tokens, and what number a literal is, say QueryLiterals.LiteralIs, SpelledIsRead and ReadIsSpelled |
| QueryLiterals.LiteralIs | PostgreSQL-13.9/contrib/intarray/_int_bool.c:84-104 | digits, perhaps behind a minus, are a literal if and only if they are fewer than 16 characters and their number fits 32 bits; the number is the sum of the digits by their places, in base 8 behind a leading zero and up to the first 8 or 9, otherwise in base 10 |
| QueryLiterals.SpelledIsRead | PostgreSQL-13.9/contrib/intarray/_int_bool.c:47-130 | every sequence of literals, operators and parentheses with blanks anywhere between them is read as those tokens |
| QueryLiterals.ReadIsSpelled | PostgreSQL-13.9/contrib/intarray/_int_bool.c:47-130 | every text that is read to its end is such a sequence |
| QueryWorkState.WorkState.MakePol | PostgreSQL-13.9/contrib/intarray/_int_bool.c:152-223 | the recursive stack parser computes the token-level parse: same postfix, same syntax errors, same stack overflow at 16 operators |
| QueryWorkState.StuckIsSyntaxError | PostgreSQL-13.9/contrib/intarray/_int_bool.c:207-212 | where the lexer finds no token the parse is a syntax error, in either of its states |
| QueryParser.AcceptsGrammar | PostgreSQL-13.9/contrib/intarray/_int_bool.c:152-223 | the parser accepts a token stream if and only if it is the text of a tree of the grammar (! over & over the left-associative or) that fits the stack, and then its output is that tree in postfix form |
| QueryParser.DisjStep | PostgreSQL-13.9/contrib/intarray/_int_bool.c:152-223 | completeness: reading a whole disjunction leaves its operands on the output and one pending operator at most |
| QueryParser.SoundOperand | PostgreSQL-13.9/contrib/intarray/_int_bool.c:152-223 | soundness: an accepting run that awaits an operand reads a tree of the grammar |
| QueryParser.NegationsFit | PostgreSQL-13.9/contrib/intarray/_int_bool.c:178-188 | any number of ! before an operand fits if and only if each gets one of the 16 entries of the stack and the operand fits behind them |
| QueryInput.QueryIn | PostgreSQL-13.9/contrib/intarray/_int_bool.c:476-542 | a text is stored if and only if it denotes an expression, its tokens being those of QueryLiterals; the stored items are its postfix form with the offsets that 16 bits keep; want of stack is reported if and only if the text begins like texts of the grammar none of which fits the stack, a syntax error if and only if it does not and is no text of the grammar, and too many items if and only if there are |
| QueryErrors.ErrorsByGrammar | PostgreSQL-13.9/contrib/intarray/_int_bool.c:152-223 | the two errors of the parser, each said by the grammar alone, for all token sequences |
| QueryErrors.ReadIffFits | PostgreSQL-13.9/contrib/intarray/_int_bool.c:152-223 | the parser gets through the beginning of a text if and only if some text of the grammar that fits the stack begins like it |
| QueryInput.DenotesUnique | PostgreSQL-13.9/contrib/intarray/_int_bool.c:152-223 | a text denotes at most one expression |
| QueryInput.TopLevelReadsAll | PostgreSQL-13.9/contrib/intarray/_int_bool.c:152-223 | outside parentheses an accepting run reads the whole text |
| QueryItems.FindOprnd | PostgreSQL-13.9/contrib/intarray/_int_bool.c:439-470 | linking starts at the last item and ends just before the first item of the expression; every operator then holds the 16-bit offset of its left operand and nothing else changed |
| QueryItems.FindBoth | PostgreSQL-13.9/contrib/intarray/_int_bool.c:455-469 | the same for a binary operator, whose right operand is linked first |
| QueryItems.StoredIsLinked | PostgreSQL-13.9/contrib/intarray/_int_bool.c:439-470 | the stored offsets lead to the left operands if and only if every right operand has fewer than 32768 items |
| QueryItems.PostfixUnique | PostgreSQL-13.9/contrib/intarray/_int_bool.c:439-470 | a postfix form can be read from its end in one way only |
| QueryInput.ExecuteIsMeaning | PostgreSQL-13.9/contrib/intarray/_int_bool.c:265-294 | evaluation with calcnot equals the truth value of the tree, although it short-circuits and follows offsets |
| QueryInput.LossyExecuteKeepsMatches | PostgreSQL-13.9/contrib/intarray/_int_bool.c:265-294 | evaluation without calcnot, on a test that accepts all elements, is true whenever the query is |
| QueryInput.LossyExecuteIs | PostgreSQL-13.9/contrib/intarray/_int_bool.c:265-294 | evaluation without calcnot is the truth value of the tree in which every negation counts as true, for every set of elements |
| QueryInput.CheckConditionArr | PostgreSQL-13.9/contrib/intarray/_int_bool.c:234-254 | the binary search finds a value if and only if it is in the sorted array |
| QueryInput.ExecuteOnArray | PostgreSQL-13.9/contrib/intarray/_int_bool.c:418-437 | evaluation against a sorted array equals the truth value on its elements |
| QueryInput.EvaluateLinked | PostgreSQL-13.9/contrib/intarray/_int_bool.c:265-294 | evaluation of arbitrary items to a given depth of recursion agrees with the above when the links are right |
| QueryInput.SelfLinkNeverEnds | PostgreSQL-13.9/contrib/intarray/_int_bool.c:265-294 | an operator with offset zero has no value at any depth of recursion |
| QueryLongOperand.LongOperandAccepted | PostgreSQL-13.9/contrib/intarray/_int_bool.c:476-542 | the text of a balanced disjunction of 65536 ones is accepted, with a right operand of 65535 items |
| QueryLongOperand.LongOperandStuck | PostgreSQL-13.9/contrib/intarray/_int_bool.c:439-470 | however that query is stored, its root holds offset zero instead of -65536, and its evaluation has no value at any depth |
| QueryPrinter.Infix.Run | PostgreSQL-13.9/contrib/intarray/_int_bool.c:563-637 | the printer, walking the items backwards, writes the text of the expression and ends before its first item, if and only if its buffer can grow at every point |
| QueryPrinter.PrintedForms | PostgreSQL-13.9/contrib/intarray/_int_bool.c:563-637 | the layout of each operator, alone and nested: blanks around & and or, parentheses around a nested or and around a negated expression that is not a literal |
| QueryPrinter.QueryOut | PostgreSQL-13.9/contrib/intarray/_int_bool.c:640-659 | the output of a stored query is the printed text of its expression, or fails exactly when a buffer cannot grow |
| QueryPrinter.PrintsBounds | PostgreSQL-13.9/contrib/intarray/_int_bool.c:544-561 | texts shorter than 2^29 - 12 characters are printed, and none of 2^29 - 1 or more |
| QueryPrinter.RoundTrip | PostgreSQL-13.9/contrib/intarray/_int_bool.c:563-637 | the text of any query is accepted, never reaches the stack limit, has the same truth value on every array, and keeps offsets short |
| QueryReread.Reread | PostgreSQL-13.9/contrib/intarray/_int_bool.c:640-659 | output followed by input gives a query with the same truth value on every array if and only if the text can be printed, and nothing otherwise |
| QueryReread.LongTextNotPrinted | PostgreSQL-13.9/contrib/intarray/_int_bool.c:553-561 | disjunctions of 29826163 or more of the longest literals, which are accepted and cannot be printed |
| QueryPrinter.PrintStable | PostgreSQL-13.9/contrib/intarray/_int_bool.c:563-637 | the query read from a printed text prints as the same text |
| QueryPrinter.ConcreteFits | PostgreSQL-13.9/contrib/intarray/_int_bool.c:178-188 | the text of any expression needs less than the 16 stack entries |
| QueryPrinter.ConcreteMeaning | PostgreSQL-13.9/contrib/intarray/_int_bool.c:563-637 | re-association of & chains by the round trip does not change the truth value |
| QueryGin.QueryExtract | PostgreSQL-13.9/contrib/intarray/_int_gin.c:22-56 | the values asked for are all operands in order; all arrays are searched if and only if the query holds of no values at all with its negations taken as true |
| QueryGin.RequiredIsPresent | PostgreSQL-13.9/contrib/intarray/_int_bool.c:363-404 | a query that requires a value holds only of arrays that contain an extracted value |
| QueryGin.RequiredIff | PostgreSQL-13.9/contrib/intarray/_int_bool.c:363-404 | a query requires a value if and only if it fails of the empty set when every negation counts as true |
| QueryGin.GinBoolConsistent | PostgreSQL-13.9/contrib/intarray/_int_bool.c:335-361 | on presence bits of the extracted values the test equals the truth value |
| QueryGin.GinMatches | PostgreSQL-13.9/contrib/intarray/_int_gin.c:165-173 | a GIN search keeps an array if and only if the query holds of it, in both search modes |
| IntCover.ThriftyIsCheapest | PostgreSQL-13.9/contrib/intarray/_int_gist.c:232-258 | filling the narrowest gaps costs no more than filling any other choice of at least as many gaps |
| IntCover.CoverCosts | PostgreSQL-13.9/contrib/intarray/_int_gist.c:232-258 | any cover by k intervals covers at least the elements and the narrowest n - k gaps |
| IntCover.RangesOfCuts | PostgreSQL-13.9/contrib/intarray/_int_gist.c:201-258 | ranges between cuts are disjoint, ascending, cover all elements, and cover as many integers as elements and filled gaps together |
| IntCover.ThriftyCoverIsCheapest | PostgreSQL-13.9/contrib/intarray/_int_gist.c:232-258 | leaving the widest gaps open gives the smallest cover |
| IntCompress.ExtendRun | PostgreSQL-13.9/contrib/intarray/_int_gist.c:222-226 | a run of consecutive integers is followed down as far as merges are left |
| IntCompress.MergeRuns | PostgreSQL-13.9/contrib/intarray/_int_gist.c:214-243 | in place, right to left: the array ends with the ranges of a choice of free gaps, at most n - k of them, while unread elements stay intact |
| IntCompress.NarrowestGap | PostgreSQL-13.9/contrib/intarray/_int_gist.c:249-255 | the candidate is a narrowest gap between ranges |
| IntCompress.DropNarrowest | PostgreSQL-13.9/contrib/intarray/_int_gist.c:247-258 | closing a narrowest gap keeps the choice of gaps thrifty |
| IntCompress.CloseGaps | PostgreSQL-13.9/contrib/intarray/_int_gist.c:246-259 | gaps are closed in place until exactly k ranges are left, still a thrifty choice |
| IntCompress.ToRanges | PostgreSQL-13.9/contrib/intarray/_int_gist.c:201-258 | both passes over the one array: from increasing elements to k ranges |
| IntCompress.InternalSize | PostgreSQL-13.9/contrib/intarray/_int_tool.c:291-306 | the size is the sum of the ranges that do not start where the one before ends, or -1 beyond an int |
| IntCompress.CountedPoints | PostgreSQL-13.9/contrib/intarray/_int_tool.c:291-306 | that size falls short of the integers covered by exactly the ranges it does not count |
| IntCompress.AscendingCount | PostgreSQL-13.9/contrib/intarray/_int_tool.c:291-306 | for separate ranges the size is the number of integers covered |
| IntCompress.Compress | PostgreSQL-13.9/contrib/intarray/_int_gist.c:155-276 | a compressed key has exactly k disjoint ascending ranges with bounds among the elements, covers them all, and covers no more than any cover by k intervals; it fails exactly when the array for it would be too large or every such cover exceeds the limit |
| IntGist.FillRange | PostgreSQL-13.9/contrib/intarray/_int_gist.c:333-336 | one range is written without a repeated first element; the step past the largest int and a write past the buffer end the run |
| IntGist.Decompress | PostgreSQL-13.9/contrib/intarray/_int_gist.c:278-345 | a key is kept when shorter than 2k; otherwise its integers come out strictly ascending and as many as the size says, if and only if it is expandable: bounds in pairs, size within the limit, no range that starts where the one before ends and goes on, and no range that ends at the largest int |
| IntGist.CountedAll | PostgreSQL-13.9/contrib/intarray/_int_tool.c:291-306 | the size equals the number of integers written if and only if no range starts where the one before ends and goes on |
| IntGist.InnerContains | PostgreSQL-13.9/contrib/intarray/_int_tool.c:13-45 | the merge loop decides inclusion of element sets |
| IntGist.InnerOverlap | PostgreSQL-13.9/contrib/intarray/_int_tool.c:48-75 | the merge loop decides whether the sets meet |
| IntGist.SameElements | PostgreSQL-13.9/contrib/intarray/_int_gist.c:372-403 | element-wise comparison decides equality of sets |
| IntGist.ExecConsistent | PostgreSQL-13.9/contrib/intarray/_int_bool.c:308-319 | a boolean query on a key: the truth value on leaves; above them the truth value with every negation taken as true |
| IntGist.Consistent | PostgreSQL-13.9/contrib/intarray/_int_gist.c:45-113 | the test of an entry is exact on leaves; above them it accepts if and only if some subset of the key matches, and for boolean queries if and only if the query holds of the key with every negation taken as true |
| IntGist.FormedCovers | PostgreSQL-13.9/contrib/intarray/_int_gist.c:115-276 | what a page key stands for contains every key it was formed from |
| IntGist.Covered | PostgreSQL-13.9/contrib/intarray/_int_gist.c:115-345 | through any number of levels a page key stands for whatever the rows below stand for |
| IntGist.Search | PostgreSQL-13.9/contrib/intarray/_int_gist.c:45-113 | a search over the whole tree, of rows of any length, succeeds if and only if the topmost key is expandable, and returns exactly the rows whose own test says that they match |
| IntGist.SearchRightRows | PostgreSQL-13.9/contrib/intarray/_int_gist.c:45-113 | where all rows are read right, a search returns exactly the matching rows |
| IntGist.FormedExpandable | PostgreSQL-13.9/contrib/intarray/_int_gist.c:115-345 | a page key can be expanded if and only if it was formed from fewer than 2k integers or the largest int is not among them |
| IntGist.LargestIntNotExpanded | PostgreSQL-13.9/contrib/intarray/_int_gist.c:321-337 | a page of two rows of one integer whose key no search can expand |
| IntGist.LongRowExact | PostgreSQL-13.9/contrib/intarray/_int_gist.c:168-187 | the test of a row succeeds and agrees with the row on every condition if and only if the row is shorter than 2k, or is an even number of integers within the limit, in pairs of consecutive ones, without the largest int |
| IntGist.LongRowLosesMatch | PostgreSQL-13.9/contrib/intarray/_int_gist.c:168-187 | a longer row and a query it meets but is refused for |
| IntGist.LongRowNotExpanded | PostgreSQL-13.9/contrib/intarray/_int_gist.c:321-337 | longer rows that end at the largest int, or have an odd number of integers, and are not expanded |
| IntUnion.Union | PostgreSQL-13.9/contrib/intarray/_int_gist.c:115-150 | the union of keys, whatever their integers: their elements, strictly ascending; it fails exactly when the array for all of them would be too large |
| IntUnion.PageKey | PostgreSQL-13.9/contrib/intarray/_int_gist.c:115-276 | union and compression give a key that the search can rely on, and whether it can be expanded; or they fail |
| VarKey.NodeCpLen | PostgreSQL-13.9/contrib/btree_gist/btree_utils_var.c:120-162 | the loop computes the length of the longest common prefix of the bounds |
| VarKey.BinUnion | PostgreSQL-13.9/contrib/btree_gist/btree_utils_var.c:232-277 | the union of two keys has the least lower and the greatest upper bound |
| VarKey.VarUnion | PostgreSQL-13.9/contrib/btree_gist/btree_utils_var.c:321-357 | the union of a page is the cut union of all its keys |
| VarKey.LeafExact | PostgreSQL-13.9/contrib/btree_gist/btree_utils_var.c:553-612 | on a leaf the test is exact for all six strategies |
| VarKey.NodeTests | PostgreSQL-13.9/contrib/btree_gist/btree_utils_var.c:553-612 | above the leaves each of the six strategies accepts if and only if the bounds allow it, or the query begins like a bound |
| VarKey.CoversConsistent | PostgreSQL-13.9/contrib/btree_gist/btree_utils_var.c:553-612 | a key never rejects a value it covers: lower bound at most the value, and upper bound at least the value or a long enough prefix of it |
| VarKey.UnionCovers | PostgreSQL-13.9/contrib/btree_gist/btree_utils_var.c:321-357 | a cut union covers whatever one of its keys covers |
| VarKeyTree.KeyCovers | PostgreSQL-13.9/contrib/btree_gist/btree_utils_var.c:321-357 | through any tree of unions, cut at each level, and of halves of split pages without loose keys, a page key covers every value below |
| VarKeyTree.SearchFinds | PostgreSQL-13.9/contrib/btree_gist/btree_utils_var.c:553-612 | a search never rejects a page of such a tree with a matching value below, for all six strategies |
| VarKeyTree.LeafHalfBuilt | PostgreSQL-13.9/contrib/btree_gist/btree_utils_var.c:529-544 | either half of a split leaf page belongs to such trees |
| VarKeySplit.PickSplit | PostgreSQL-13.9/contrib/btree_gist/btree_utils_var.c:457-547 | both halves of a split are cut at the longer of their common prefixes plus two |
| VarKeySplit.SplitExact | PostgreSQL-13.9/contrib/btree_gist/btree_utils_var.c:529-544 | the key of a half is found for everything that its keys cover if and only if none of them strays (its upper bound was cut shorter than the shared cut, and the bound of the half goes on behind it) |
| VarKeySplit.HalfFinds | PostgreSQL-13.9/contrib/btree_gist/btree_utils_var.c:529-544 | a half without stray keys loses nothing that its keys cover |
| VarKeySplit.HalfCovers | PostgreSQL-13.9/contrib/btree_gist/btree_utils_var.c:529-544 | a half covers whatever a key of it covers that is not loose (cut shorter than the shared cut) |
| VarKeySplit.StrayLoses | PostgreSQL-13.9/contrib/btree_gist/btree_utils_var.c:529-544 | a stray key covers a value that the half turns away |
| VarKeyTree.SplitLosesValue | PostgreSQL-13.9/contrib/btree_gist/btree_utils_var.c:529-544 | a tree whose split hides a stored value from an equality search |
| BtreeKey.CompareIsOrder | PostgreSQL-13.9/src/backend/access/nbtree/nbtsearch.c:665-846 | the comparison is the order in which truncated attributes and missing heap TIDs are minus infinity |
| BtreeKey.LessTransitive | PostgreSQL-13.9/contrib/amcheck/verify_nbtree.c:2664-2771 | that order is transitive |
| BtreePage.InvariantsAreOrder | PostgreSQL-13.9/contrib/amcheck/verify_nbtree.c:2663-2771 | the three invariant tests decide strict order, order, and strict order, up to the leniency of the first on equal pivots |
| BtreePage.NattsRegular | PostgreSQL-13.9/src/backend/access/nbtree/nbtutils.c:2465-2618 | items with a permitted number of attributes are ones on which the order is defined |
| BtreeSound.NattsKinds | PostgreSQL-13.9/src/backend/access/nbtree/nbtutils.c:2465-2618 | both ways, for each place on a live page: the number of attributes is permitted if and only if the item is of the kind that belongs there |
| BtreeChild.DownlinkMissingCheck | PostgreSQL-13.9/contrib/amcheck/verify_nbtree.c:2146-2316 | acceptance means the page may lack a downlink (root, incomplete split on its left, or head of an interrupted deletion); corruption means it may not, and so does a walk of more steps than there are pages |
| BtreeHalfDead.MissingOkIs | PostgreSQL-13.9/contrib/amcheck/verify_nbtree.c:2146-2316 | a page may lack a downlink if and only if it is a root or the first downlinks lead from it, one level down each, to a half-dead leaf that names it |
| BtreeCheck.CheckState.MatchHighKey | PostgreSQL-13.9/contrib/amcheck/verify_nbtree.c:1840-1942 | the high key of a child is accepted if and only if it is identical to the separator that follows its downlink |
| BtreeCheck.CheckState.CheckChild | PostgreSQL-13.9/contrib/amcheck/verify_nbtree.c:1770-1942 | both ways: one page on the way to the next downlink fits |
| BtreeCheck.CheckState.ChildHighkeyCheck | PostgreSQL-13.9/contrib/amcheck/verify_nbtree.c:1726-1960 | both ways: the walk from where the previous call stopped reaches the next downlink over fitting pages, and the state carries where it stopped |
| BtreeCheck.CheckState.RightPageCheckScankey | PostgreSQL-13.9/contrib/amcheck/verify_nbtree.c:1451-1647 | the key is the first item of the first page to the right that is not ignorable |
| BtreeCheck.CheckState.CheckRight | PostgreSQL-13.9/contrib/amcheck/verify_nbtree.c:1348-1405 | both ways: the last item against the item to its right |
| BtreeCheck.CheckState.ChildCheck | PostgreSQL-13.9/contrib/amcheck/verify_nbtree.c:1975-2131 | both ways: the child is reached by the walk and all its items exceed the separator |
| BtreeCheck.CheckState.CheckOffset | PostgreSQL-13.9/contrib/amcheck/verify_nbtree.c:990-1405 | both ways: the checks on one item |
| BtreeCheck.CheckState.TargetPageCheck | PostgreSQL-13.9/contrib/amcheck/verify_nbtree.c:943-1433 | both ways: the checks on one page, with the state left for the next |
| BtreeCheck.CheckState.CheckLevel | PostgreSQL-13.9/contrib/amcheck/verify_nbtree.c:680-905 | both ways: the walk along a level, where the next level starts, and the left-link test |
| BtreeCheck.CheckState.CheckEveryLevel | PostgreSQL-13.9/contrib/amcheck/verify_nbtree.c:442-660 | acceptance of the index is acceptance of every level from the root down, and corruption is its negation; with loop bounds above the number of pages the index is accepted if and only if every level passes, which for live pages is soundness (BtreeSoundTheorems.PassesIffSound) |
| BtreeSoundTheorems.PassesIffSound | PostgreSQL-13.9/contrib/amcheck/verify_nbtree.c:442-660 | an index of live pages, without null downlinks, rows without heap TID and root marks below the top, passes if and only if it is sound: items of the right kind in strict order on and across pages and up to the high keys, siblings linked both ways, children above their separators, high keys that repeat the separators, and every page with a downlink or right of an incomplete split |
| BtreeSoundPasses.SoundPasses | PostgreSQL-13.9/contrib/amcheck/verify_nbtree.c:442-660 | no false alarm: a sound index of live pages passes, incomplete splits included |
| BtreeHalfDead.HalfDeadReported | PostgreSQL-13.9/contrib/amcheck/verify_nbtree.c:1840-1942 | an index with a half-dead page whose high key lacks attributes, below a live level, does not pass |
| BtreeFinite.WalkBound | PostgreSQL-13.9/contrib/amcheck/verify_nbtree.c:1726-1960 | a walk along the child level that ends has no more steps than the index has pages |
| BtreeFinite.LandsBound | PostgreSQL-13.9/contrib/amcheck/verify_nbtree.c:1451-1647 | the same for the walk to the first page on the right that is not ignorable |
| BtreeFinite.DescentBound | PostgreSQL-13.9/contrib/amcheck/verify_nbtree.c:2146-2316 | the same for the descent that looks for a missing downlink |
| BtreeFinite.LevelBound | PostgreSQL-13.9/contrib/amcheck/verify_nbtree.c:680-905 | the same for a level that passes, half-dead pages or not |
| BtreeLevelTheorems.NoBlockTwice | PostgreSQL-13.9/contrib/amcheck/verify_nbtree.c:707-892 | a walk without half-dead pages visits no block twice, however corrupt the links |
| BtreeLevelTheorems.WalkIsFinite | PostgreSQL-13.9/contrib/amcheck/verify_nbtree.c:707-892 | such a walk is no longer than the index has pages |
| BtreeLevelTheorems.NoDeletedPage | PostgreSQL-13.9/contrib/amcheck/verify_nbtree.c:716-760 | a level that passes has no deleted page, and its rightmost page is live |
| BtreeCircleTheorems.RepeatsIffCircle | PostgreSQL-13.9/contrib/amcheck/verify_nbtree.c:707-892 | a walk meets a block twice if and only if the right links lead from its start to an ignorable page and back to it within its length |
| BtreeCircleTheorems.NoCircleBound | PostgreSQL-13.9/contrib/amcheck/verify_nbtree.c:707-892 | without such a circle every walk, passing or not, is no longer than the index has pages |
| BtreeCircleTheorems.CircleHasNoEnd | PostgreSQL-13.9/contrib/amcheck/verify_nbtree.c:707-892 | with such a circle no walk passes the level |
| BtreeCircleTheorems.EndsIffNoCircle | PostgreSQL-13.9/contrib/amcheck/verify_nbtree.c:707-892 | a level passes if and only if no page that the walk comes to fails its checks and there is no such circle; the walk goes on for any number of steps if and only if no page fails and there is one |
| BtreeCircleTheorems.HalfDeadCircle | PostgreSQL-13.9/contrib/amcheck/verify_nbtree.c:707-892 | three half-dead pages in a circle, the first of them named as root, over which the walk goes on for ever |
| BtreeLevelTheorems.LeafItemsIncreasing | PostgreSQL-13.9/contrib/amcheck/verify_nbtree.c:990-1405 | on an accepted leaf level of live, non-empty pages all items over all pages are strictly increasing |
| BtreeChainTheorems.DownlinksInOrder | PostgreSQL-13.9/contrib/amcheck/verify_nbtree.c:1726-1960 | the downlinks of an accepted level occur in order on the right-link chain of the level below, from its leftmost page to its end, and pages in between may be skipped |
| BtreeChainTheorems.ChainedIffNoNull | PostgreSQL-13.9/contrib/amcheck/verify_nbtree.c:1726-1960 | such a chain exists if and only if no downlink is the null block number |
| BtreeIndexTheorems.HighKeyBounds | PostgreSQL-13.9/contrib/amcheck/verify_nbtree.c:1267-1296 | every leaf item below a page is at most its high key, at any height |
| BtreeIndexTheorems.DownlinkBounds | PostgreSQL-13.9/contrib/amcheck/verify_nbtree.c:1840-1942 | every leaf item below a downlink is at most the next pivot, or the high key of the page for the last downlink, at any height |
| BtreeIndexTheorems.ChildItemsAbove | PostgreSQL-13.9/contrib/amcheck/verify_nbtree.c:1975-2131 | every real item of a child exceeds the separator of its downlink |
| BtreeOrderTheorems.ChildrenInOrder | PostgreSQL-13.9/contrib/amcheck/verify_nbtree.c:1726-1960 | downlinks that come earlier on a level lead to pages that come earlier on the level below |
| BtreeOrderTheorems.SubtreesInOrder | PostgreSQL-13.9/contrib/amcheck/verify_nbtree.c:943-1433 | every leaf item below a page is strictly less than every leaf item below a page to its right, at any height |
| BtreeOrderTheorems.FirstIsLeast | PostgreSQL-13.9/contrib/amcheck/verify_nbtree.c:943-1433 | the item found by following first downlinks is the least leaf item below a page |
| BtreeOrderTheorems.LowerBoundIff | PostgreSQL-13.9/contrib/amcheck/verify_nbtree.c:1975-2131 | the separator of a downlink is below all leaf items under it if and only if it is below the one that first downlinks lead to |
| BtreeLagExample.BelowGrandparent | PostgreSQL-13.9/contrib/amcheck/verify_nbtree.c:1975-2131 | an accepted index of three levels with a leaf item below the separator of its grandparent |
| BtreeIndexTheorems.NullDownlinkAccepted | PostgreSQL-13.9/contrib/amcheck/verify_nbtree.c:1726-1960 | an index without leaf level that every check accepts |
| BloomRand.StepSplit | PostgreSQL-13.9/contrib/bloom/blutils.c:237-240 | the intermediate products fit 32 bits, and the step is the multiplication up to a multiple of 2^31 - 1 |
| BloomRand.StepMultiplies | PostgreSQL-13.9/contrib/bloom/blutils.c:220-245 | inside [1, 0x7ffffffe] a step is 16807 x mod (2^31 - 1) and stays inside |
| BloomRand.StepEntersRange | PostgreSQL-13.9/contrib/bloom/blutils.c:220-245 | from every state but zero a step leads into the range |
| BloomRand.SeededIs | PostgreSQL-13.9/contrib/bloom/blutils.c:247-253 | a seed gives a state in range if and only if it is below 2^31 or 0x80000002, and state zero if and only if it is 0xffffffff or 0x80000001 |
| BloomRand.AllDraws | PostgreSQL-13.9/contrib/bloom/blutils.c:220-253 | for every seed all numbers drawn lie in [0, 0x7ffffffd], except that two seeds draw -1 for ever |
| BloomRand.DrawsArePowers | PostgreSQL-13.9/contrib/bloom/blutils.c:220-245 | the states are the seed times the powers of 16807 |
| BloomBits.DrawIs | PostgreSQL-13.9/contrib/bloom/blutils.c:220-245 | the number drawn from every state, zero and the states beyond the range included |
| BloomRand.Generator.MyRand | PostgreSQL-13.9/contrib/bloom/blutils.c:220-245 | the number returned and the new state |
| BloomRand.Generator.MySrand | PostgreSQL-13.9/contrib/bloom/blutils.c:247-253 | the state after seeding, both conditions of it |
| BloomSign.SignValue | PostgreSQL-13.9/contrib/bloom/blutils.c:258-286 | the signature gains exactly the bits of the value in its column; which bits those are says BloomBits.ValueBits |
| BloomBits.SeedsByHash | PostgreSQL-13.9/contrib/bloom/blutils.c:258-286 | in one column two values seed the generator alike if and only if their hashes are equal |
| BloomBits.ValueBits | PostgreSQL-13.9/contrib/bloom/blutils.c:258-286 | the bits of a value: the remainders of the numbers drawn after seeding with the column number, and then with its next number xor the hash |
| BloomBits.RowBits | PostgreSQL-13.9/contrib/bloom/blutils.c:291-310 | the bits of a row are those of its non-null columns |
| BloomBits.KeyBits | PostgreSQL-13.9/contrib/bloom/blscan.c:90-116 | the bits looked for are those of the keys |
| BloomBits.MatchIs | PostgreSQL-13.9/contrib/bloom/blscan.c:147-155 | an entry matches if and only if every bit that some key asks for is one that some column of the row sets |
| BloomBits.SubIs | PostgreSQL-13.9/contrib/bloom/blscan.c:147-155 | containment of signatures word by word is containment of their sets of bits |
| BloomSign.FormTuple | PostgreSQL-13.9/contrib/bloom/blutils.c:291-310 | the entry of a row has the bits of all its non-null columns and no others |
| BloomSign.ScanSignature | PostgreSQL-13.9/contrib/bloom/blscan.c:90-116 | no signature if and only if a key is null; otherwise the bits of all keys |
| BloomSign.SignMatches | PostgreSQL-13.9/contrib/bloom/blscan.c:147-155 | the word loop decides whether every bit looked for is set |
| BloomSign.RowMatches | PostgreSQL-13.9/contrib/bloom/blscan.c:81-172 | no false negatives: a row that equals all keys has every bit of the scan signature |
| BloomPage.FitsIffBelowCapacity | PostgreSQL-13.9/contrib/bloom/bloom.h:152-155 | the free-space test tells exactly whether one more entry fits |
| BloomPage.EmptyPageFits | PostgreSQL-13.9/contrib/bloom/blinsert.c:345-349 | an entry always fits on an empty page |
| BloomPage.Buffer.AddItem | PostgreSQL-13.9/contrib/bloom/blutils.c:316-344 | an entry is appended if and only if there is room |
| BloomPage.Buffer.Purge | PostgreSQL-13.9/contrib/bloom/blvacuum.c:85-137 | in-place compaction: the entries of live rows in order, the page marked deleted when none is left, and whether it belongs on the list |
| BloomPage.SurvivorsAre | PostgreSQL-13.9/contrib/bloom/blvacuum.c:85-107 | compaction removes exactly the dead entries, whatever their multiplicity |
| BloomPage.PurgedDeletes | PostgreSQL-13.9/contrib/bloom/blvacuum.c:109-137 | a page is marked deleted if and only if it had entries and all of them are dead |
| BloomPage.BuildState.Callback | PostgreSQL-13.9/contrib/bloom/blinsert.c:74-116 | one row more, across page boundaries |
| BloomPage.Build | PostgreSQL-13.9/contrib/bloom/blinsert.c:121-159 | the built pages hold every row once, in order, on pages that are neither empty nor overfull |
| BloomIndex.TryFirstKeeps | PostgreSQL-13.9/contrib/bloom/blinsert.c:233-269 | the first attempt on the remembered block keeps the invariant, although the block may have been deleted or reused since |
| BloomIndex.LockMetaKeeps | PostgreSQL-13.9/contrib/bloom/blinsert.c:281-289 | taking the metapage lock keeps the invariant |
| BloomIndex.TryNextKeeps | PostgreSQL-13.9/contrib/bloom/blinsert.c:296-333 | each attempt on a listed block keeps the invariant |
| BloomIndex.TakeFreeKeeps | PostgreSQL-13.9/contrib/bloom/blutils.c:351-383 | reuse of any block that the free space map names keeps the invariant, because only unused pages are taken |
| BloomIndex.ExtendKeeps | PostgreSQL-13.9/contrib/bloom/blutils.c:385-399 | extending the file before locking the new page keeps the invariant |
| BloomIndex.InitExtendedKeeps | PostgreSQL-13.9/contrib/bloom/blinsert.c:340-357 | the unconditional initialisation of the new page meets a page that is still new |
| BloomIndex.VacuumPageKeeps | PostgreSQL-13.9/contrib/bloom/blvacuum.c:58-139 | vacuuming a page keeps the invariant |
| BloomIndex.WriteMetaKeeps | PostgreSQL-13.9/contrib/bloom/blvacuum.c:141-158 | the rewrite of the metapage from outdated information keeps the invariant |
| BloomIndex.StepKeeps | PostgreSQL-13.9/contrib/bloom/blinsert.c:197-366 | every step of every process keeps the invariant |
| BloomIndex.ScanEntries | PostgreSQL-13.9/contrib/bloom/blscan.c:142-164 | the scan of one page finds the rows of its matching entries |
| BloomRuns.BuiltIsInitial | PostgreSQL-13.9/contrib/bloom/blinsert.c:121-159 | a built index satisfies the invariant |
| BloomRuns.Conservation | PostgreSQL-13.9/contrib/bloom/blinsert.c:197-366 | at every point of every run the entries on pages in use are those inserted and not vacuumed, as multisets, and unused pages hold none |
| BloomRuns.OnlyVacuumRemoves | PostgreSQL-13.9/contrib/bloom/blvacuum.c:34-161 | a step changes a page only by appending an entry or by removing dead ones, so no page with entries is initialised anew |
| BloomRuns.StaysOnPage | PostgreSQL-13.9/contrib/bloom/blvacuum.c:85-107 | an entry that is not vacuumed stays on its page |
| BloomRuns.ScanFinds | PostgreSQL-13.9/contrib/bloom/blscan.c:81-172 | a finished scan has found every entry that was there when it began, was not removed meanwhile and has the bits |
| BloomRuns.ScanFindsRow | PostgreSQL-13.9/contrib/bloom/blscan.c:81-172 | a finished scan has found every row that was live throughout and equals all keys |
| BloomRuns.Progress | PostgreSQL-13.9/contrib/bloom/blinsert.c:197-366 | no process gets stuck: blocks it uses exist, pages it adds to are in use, and entries fit on empty pages |
| HstoreFormat.DecodeEncode | PostgreSQL-13.9/contrib/hstore/hstore.h:99-126 | reading the words and bytes of an encoding gives back the pairs |
| HstoreFormat.EncodeDecode | PostgreSQL-13.9/contrib/hstore/hstore.h:23-34 | encoding the pairs of a packed store gives the store again, word for word |
| HstoreBuilder.Builder.CopyItem | PostgreSQL-13.9/contrib/hstore/hstore.h:99-107 | copying a pair appends it to the store under construction |
| HstoreBuilder.Builder.AddItem | PostgreSQL-13.9/contrib/hstore/hstore.h:112-126 | adding a pair appends it; a null takes no bytes |
| HstoreBuilder.Builder.Finalize | PostgreSQL-13.9/contrib/hstore/hstore.h:129-140 | after the move of the bytes over unused entries, memory holds exactly the encoding of the pairs |
| HstoreOps.FindKey | PostgreSQL-13.9/contrib/hstore/hstore_op.c:35-70 | with only smaller keys below the carried bound the search is a full search, and the new bound has only keys up to this one below it |
| HstoreOps.BoundCarries | PostgreSQL-13.9/contrib/hstore/hstore_op.c:35-70 | the bound of one search is good for every larger key |
| HstoreOps.KeyLtMeans | PostgreSQL-13.9/contrib/hstore/hstore_io.c:280-302 | keys are in order if and only if the first is shorter, or both are as long and the first has the smaller byte where they first differ |
| ByteOrder.LtMeans | PostgreSQL-13.9/src/backend/utils/adt/varlena.c:4181-4200 | byte strings are in order if and only if the first is a proper beginning of the second or has the smaller byte where they first differ |
| HstoreOps.Contains | PostgreSQL-13.9/contrib/hstore/hstore_op.c:966-1010 | containment is sub-map inclusion |
| HstoreOps.ExistsAll | PostgreSQL-13.9/contrib/hstore/hstore_op.c:197-227 | existence of all keys is key-set inclusion |
| HstoreMerge.MergeOrdered | PostgreSQL-13.9/contrib/hstore/hstore_op.c:524-561 | merging keeps pairs strictly sorted by length and bytes |
| HstoreMerge.MergeLookup | PostgreSQL-13.9/contrib/hstore/hstore_op.c:524-561 | a merge looks up in the second list first |
| HstoreMerge.ConcatStores | PostgreSQL-13.9/contrib/hstore/hstore_op.c:472-566 | concatenation is right-biased map override, on a valid packed store; it fails exactly when its memory would be too large |
| HstoreMerge.EncodeValid | PostgreSQL-13.9/contrib/hstore/hstore.h:129-140 | a finished store of sorted pairs is valid and has their map |
| HstoreDelete.DeleteStore | PostgreSQL-13.9/contrib/hstore/hstore_op.c:372-468 | removal of equal pairs: the map without the pairs of the other |
| HstoreDelete.DeleteArray | PostgreSQL-13.9/contrib/hstore/hstore_op.c:293-368 | removal of keys: the map without them |
| HstoreMerge.MinusLookup | PostgreSQL-13.9/contrib/hstore/hstore_op.c:416-463 | the difference keeps exactly the keys that are not dropped |
| HstoreUpgrade.Value.ValidOldFormat | PostgreSQL-13.9/contrib/hstore/hstore_compat.c:170-229 | accepts exactly values whose words and bytes fit, contiguous and with rising key lengths; tells exactly which of them have bytes to spare; a count beyond the memory is refused |
| HstoreValid.ValidOldIff | PostgreSQL-13.9/contrib/hstore/hstore_compat.c:170-229 | words and bytes are valid in the old form if and only if they are those of some pairs whose keys do not get shorter, written in the old form |
| HstoreOld.OldIsValid | PostgreSQL-13.9/contrib/hstore/hstore_compat.c:170-229 | what the old code wrote is valid and says what it was written from |
| HstoreUpgrade.Value.ValidNewFormat | PostgreSQL-13.9/contrib/hstore/hstore_compat.c:118-162 | accepts exactly marked values and values whose words and bytes fit, with rising positions and key lengths; tells exactly which have bytes to spare; a count beyond the memory is refused |
| HstoreValid.ValidNewIff | PostgreSQL-13.9/contrib/hstore/hstore_compat.c:118-162 | the same for the new form, where the mark of a null on the first key is not looked at |
| HstoreOld.NewIsValid | PostgreSQL-13.9/contrib/hstore/hstore_compat.c:118-162 | what the new code writes is valid, with the mark of the new form or without |
| HstoreOld.NewReading | PostgreSQL-13.9/contrib/hstore/hstore_compat.c:250-270 | what the new code writes, without the mark, is taken as new if and only if it is empty, short, or not also valid in the old form |
| HstoreUpgrade.Value.Convert | PostgreSQL-13.9/contrib/hstore/hstore_compat.c:319-344 | the words are rewritten in place although old and new share memory, and the size is that of the last position |
| HstoreUpgrade.Value.Upgrade | PostgreSQL-13.9/contrib/hstore/hstore_compat.c:235-347 | which values are left alone, marked, converted or refused, and what becomes of them, validity being that of HstoreValid; a count beyond the memory is refused unless the value is short and begins with the mark of a first entry |
| HstoreOld.UpgradeOld | PostgreSQL-13.9/contrib/hstore/hstore_compat.c:235-347 | the upgrade turns the old value of any sorted pairs into the new encoding of the same pairs if and only if it is not short with a null of length 32768 or more in front |
| HstoreUpgrade.ConversionKeeps | PostgreSQL-13.9/contrib/hstore/hstore_compat.c:319-344 | the converted value reads as the pairs of the old one |
| HstoreUpgrade.UpgradeKeepsPairs | PostgreSQL-13.9/contrib/hstore/hstore_compat.c:319-344 | keys, values and nulls survive the conversion byte for byte, and the size matches the last position |
| HstoreUpgrade.OldIsTakenAsOld | PostgreSQL-13.9/contrib/hstore/hstore_compat.c:250-256 | an old value is taken as old if and only if it is not both short and headed by a null with a length of 32768 or more left in it |
| HstoreUpgrade.NullLengthMisread | PostgreSQL-13.9/contrib/hstore/hstore_compat.c:250-256 | such a value, whose null would be read as a value |
| HstoreText.Parser.PutChar | PostgreSQL-13.9/contrib/hstore/hstore_io.c:41-50 | the doubling word buffer takes a further byte if and only if the word stays below 2^29 bytes |
| HstoreText.Parser.GrowPairs | PostgreSQL-13.9/contrib/hstore/hstore_io.c:197-202 | the doubling array of pairs has room for a further one if and only if there are fewer than 2^24 |
| HstoreText.Parser.TakeByte | PostgreSQL-13.9/contrib/hstore/hstore_io.c:67-166 | one byte: the move of the automaton, its word and its state; what the automaton reads is HstoreSpelling.SpelledIsRead |
| HstoreText.Parser.GetVal | PostgreSQL-13.9/contrib/hstore/hstore_io.c:59-172 | the word reader computes the five-state automaton on the rest of the text, and fails exactly when a word would reach 2^29 bytes or the text is malformed; which words it reads is HstoreSpelling.SpelledIsRead |
| HstoreText.Parser.Parse | PostgreSQL-13.9/contrib/hstore/hstore_io.c:181-278 | the parser accepts exactly the texts of the pair automaton, which has room for 2^24 pairs, and returns its pairs; those texts are the ones of HstoreSpelling |
| HstoreSpelling.SpelledIsRead | PostgreSQL-13.9/contrib/hstore/hstore_io.c:59-278 | every spelling of pairs (bare or quoted words, any byte escaped that must be and any others, blanks anywhere, NULL in any case, a comma at the end) is read as those pairs, or refused where words or pairs are too many |
| HstoreSpelling.ReadIsSpelled | PostgreSQL-13.9/contrib/hstore/hstore_io.c:59-278 | every text that is accepted is such a spelling |
| HstoreInput.ReadEscaped | PostgreSQL-13.9/contrib/hstore/hstore_io.c:128-164 | inside quotes the parser undoes the escapes |
| HstoreInput.PrintedIsRead | PostgreSQL-13.9/contrib/hstore/hstore_io.c:1158-1225 | every printed list of up to 2^24 pairs with words below 2^29 bytes parses back, nulls as nulls and quoted NULL as a string, and every longer list is refused |
| HstorePrintForm.PrintedForm | PostgreSQL-13.9/contrib/hstore/hstore_io.c:1158-1225 | the printed text is the quoted spelling of the pairs that escapes quotes and backslashes only, with a bare NULL for nulls |
| HstorePrint.PrintFits | PostgreSQL-13.9/contrib/hstore/hstore_io.c:1183-1193 | the text and its terminator fit the precomputed buffer |
| HstorePrint.HstoreOut | PostgreSQL-13.9/contrib/hstore/hstore_io.c:1158-1225 | the output is the printed text, written inside the buffer; it fails exactly when the buffer would be too large |
| HstoreRoundTrip.SortedUnique | PostgreSQL-13.9/contrib/hstore/hstore_io.c:280-302 | pairs with distinct keys in order have one sorted arrangement only |
| HstoreRoundTrip.UniquePairs | PostgreSQL-13.9/contrib/hstore/hstore_io.c:310-356 | in place: the first pair of each key, and the bytes they need |
| HstoreRoundTrip.DedupOrdered | PostgreSQL-13.9/contrib/hstore/hstore_io.c:310-356 | the result is strictly sorted and has the same keys |
| HstoreRoundTrip.HstorePairs | PostgreSQL-13.9/contrib/hstore/hstore_io.c:379-406 | packing sorted pairs gives their encoding |
| HstoreRoundTrip.HstoreIn | PostgreSQL-13.9/contrib/hstore/hstore_io.c:410-426 | a text gives the store of the first pairs of some sorted arrangement of the pairs it spells, which is valid and has the keys of the pairs, each with one of its values; none exactly when the text does not parse or that store is too large |
| HstoreRoundTrip.RoundTrip | PostgreSQL-13.9/contrib/hstore/hstore_io.c:1158-1225 | output followed by input returns the same store, word for word, for every valid store without zero bytes, if and only if the printer can allot its buffer and there are at most 2^24 pairs; otherwise it fails |
| HstoreLimit.TooManyPairs | PostgreSQL-13.9/contrib/hstore/hstore_io.c:187-202 | for every larger number of pairs up to 59652323, a valid store that is printed and whose text is refused |

## Left out

- amcheck: concurrent (non-readonly) mode, heapallindexed, rootdescend, posting lists, INCLUDE columns, tuple sizes, line pointers, the garbage flag, and indexes before version 4.
- BtreeCheck.CheckState.CheckEveryLevel: nothing is promised about runs that give up with loop bounds of at most the number of pages; the original has no bounds and does not end on circular links.
- BtreeSoundTheorems.PassesIffSound: indexes with half-dead pages, null downlinks, rows without heap TID or root marks below the top are not covered both ways; the theorems on accepted indexes say what holds of them.
- BtreePage.InvariantsAreOrder: the first test is implied by strict order only for items whose heap TID it looks at, as in the original.
- BloomIndex.StepKeeps: insertion and vacuum of whole operations are steps on values, not methods on buffers, because other processes run between their page locks; the page operations themselves are methods (`BloomPage.Buffer`).
- bloom: WAL records, buffer pins, statistics, index options, and the recording of free pages (the free space map may name any block anyway).
- HstoreDelete.DeleteArray: the keys are given sorted and without repetitions, as the unpacking of the array leaves them; the limit on their number is not modelled.
- HstoreOps.ExistsAll: the same about its keys.
- HstoreRoundTrip.HstoreIn: which value of a repeated key is kept is left open, because qsort leaves it open.
- HstoreRoundTrip.RoundTrip: null values are without bytes, as input and packing leave them; a null with bytes would lose them.
- IntGist.Decompress: an odd number of bounds, a write past the buffer and the step past the largest int are one outcome, after which nothing is said.
- IntGist.CountedAll: keys that the size falls short of do not come from compression; the theorem is about arbitrary stored keys.
- IntGist.LongRowExact: what the test of a row says that is not expanded is left open, because it depends on memory behind the array.
- IntUnion.Union: qsort and removal of duplicates are modelled on values; the total length is not reduced to 32 bits.
- VarKeyTree.SearchFinds: halves of split pages have no loose keys, which leaf pages never have; what becomes of other halves is the subject of VarKeySplit.SplitExact.
- VarKeySplit.PickSplit: the sort of the entries comes before; keys are byte strings (bytea), not collated text.
- intarray: penalty and picksplit heuristics in floating point, the intbig signature class, array functions outside the index support.
- hstore: GIN, GiST and hash support, conversions to and from records, arrays and JSON, the binary protocol.
- btree_gist: fixed-length types, penalty, and text types with collations.
- cube, earthdistance, fuzzystrmatch, dblink, file_fdw, language bridges and the data analysis scripts: arithmetic on doubles, rule tables or plumbing.
- HstoreUpgrade.Value.Upgrade: nothing is said about the new length of a short value whose count is beyond its memory, because it is computed from a word outside the value.
- Checks of the depth of recursion, which depend on the machine.
- Text is bytes; multibyte encodings are not modelled.
