# Verified models of PostgreSQL contrib modules

A Dafny model of the index keys, packed formats, query languages, page stores and checkers in six
contrib modules, with contracts and lemmas about every input, every run or every tree. Each module
of the project names the C file it models. `dafny verify dfyconfig.toml` checks everything.

## What is modelled

**bloom** (`Bloom*.dfy`). `BloomRand` is the 32-bit generator, `BloomSignature` the signatures it
draws, `BloomPage` a page with in-place compaction, `BloomScan` the loops that read a page, and
`BloomBuild` the bulk build. `BloomIndex` is a transition system: any number of backends insert (in
the lock phases of the insertion code), bulk-delete, clean up and scan, and each step is what happens
under one buffer lock. `BloomRuns` states what holds over all runs, `BloomSolo` what one operation does
when no other moves meanwhile, and `BloomProgress` that no operation gets stuck.

**intarray queries** (`IntQuery*.dfy`, `IntGin.dfy`). The query compiler: `IntQueryLex` the tokens,
`IntQueryGrammar` the grammar with `!` over `&` over `|`, `IntQueryParse` the operator-precedence
parser, `IntQueryInput` the left-operand links and the whole input function, `IntQueryText` the texts
of a query down to their characters, written without the lexer, `IntQuery` the evaluators
that follow the links, `IntQueryPrint` and `IntQueryRoundTrip` the infix printer and the way back,
`IntQueryLinks` what becomes of links that are too long, `IntQueryLong` a query that can be read but not
printed. `Buffers` holds the buffers that grow by doubling, `Sets` facts about finite sets.
`IntGin` is the GIN support built on it.

**intarray keys** (`IntRange*.dfy`, `IntBig.dfy`). `IntRange` is the mathematics of cutting an
increasing array into ranges, `IntRangeCompress` the in-place compressor and its inverse,
`IntRangeLeaf` leaf arrays as they are read back, `IntRangeIndex` the search with such keys. `IntBig`
holds the signature keys.

**hstore** (`Hstore*.dfy`, `ByteOrder.dfy`). `HstoreFormat` is the packed form and the writer,
`HstoreMap` its meaning as a map, `HstoreOps`, `HstoreMerge` and `HstoreCmp` the operations,
`HstorePairs` sorting and uniquing, `HstoreText` the two parsers, `HstoreGrammar` and `HstoreLanguage`
a grammar for the same texts, `HstorePrint` and `HstoreRoundTrip` the printer and the way back,
`HstoreMany` a value that can be printed but not read, `HstoreCompat` the upgrade of old values, and
`HstoreOld` the two formats it tells apart, as their writers leave them.

**amcheck** (`Btree*.dfy`). The read-only check of a B-Tree: `BtreePages` says what a page, a chain of
right links and an excuse for a missing downlink are, `BtreeCheck` and `BtreeLevels` are the checks,
`BtreeCircles` and `BtreeWalk` say when their loops end, `BtreeTree`, `BtreeOrder` and `BtreeSearch` what
acceptance implies, `BtreeExact` which trees are accepted and when the check comes to an end.

**Lossy GiST keys** (`VarKey*.dfy`, `Cube*.dfy`). Truncated bounds for byte strings (`VarKey` the
unions, `VarKeySplit` the splits), and boxes of different dimensions (`Cube` the boxes, `CubeOrder`
their comparison, `CubeIndex` the searches, `CubeDistance` the distances, `CubePoints` what the operations
mean for the points of the boxes).

Machine integers are written out where they matter: `int32` wrap-around of seeds, the `int16` link of
a query item, the 30-bit offsets of hstore entries, the step of a counter past the largest int.
Library sorts are taken by their contract: where the source sorts, the model accepts every ordered
rearrangement. Hash functions are parameters. Error reports are results.

## Where the code differs from what one would expect

- A bloom seed of 0xFFFFFFFF or 0x80000001 collapses the generator; every bit number drawn lies in the
  signature exactly for the other seeds, although seeds from 2^31 on start outside the range that the
  comment in the generator asks for (`BloomSignature.DrawnBitsInSignature`). Each column has exactly two
  hash values that lead to a bad seed (`BloomSignature.BadHashes`).
- The 16-bit links of a stored query are the true distances if and only if no right operand has more
  than 32767 items (`IntQueryLinks.LinksTrueIff`). Beyond that a link leads to an item after its
  operator, to the operator itself (65535 items), or back into the right operand
  (`IntQueryLinks.LinkTarget`): at the root of a query the evaluation then leaves the query, never
  ends, or takes a part of the right operand for the left one (`IntQueryLinks.OversizedRoot`). Texts
  that store such queries are accepted (`IntQueryLinks.ReadWide`).
- A stored query prints if and only if its text with the final zero is shorter than 2^29 bytes, where
  the output buffer meets the allocation limit (`IntQueryPrint.PrintFitsIff`); an accepted query
  exceeds that (`IntQueryLong.ReadNotPrinted`).
- A leaf array of at least twice num_ranges elements is read back as ranges. Every search decides the
  leaf exactly if and only if the array is shorter or is made of pairs of consecutive integers
  (`IntRangeIndex.LeafExactIff`); otherwise contained-by and equality searches for the array itself
  miss it in every tree, and an overlap search reports it wrongly without a recheck
  (`IntRangeIndex.LongLeafMissed`, `IntRangeIndex.LongLeafFails`). Overlap, contains and queries
  without negations never miss it (`IntRangeIndex.SearchIsComplete`).
- An hstore value of more than 2^24 pairs can be printed and not be read, because the array that holds
  the pairs of a text cannot grow further (`HstoreRoundTrip.OutThenIn`, `HstoreMany.PrintedButNotRead`).
- "Statement too complex" needs 15 consecutive `!` and is certain with 17; parentheses start a new
  count (`IntQueryParse.OverflowNeedsBangs`).
- An old hstore value under 32768 bytes is taken for a new one exactly when its first value is a null
  whose unused length field is 32768 or more, and then the null is lost (`HstoreCompat.ShortcutIff`,
  `HstoreCompat.ShortcutLosesNull`).
- A contained-by search for boxes, described as exact, can miss a leaf, exactly when the query has a
  dimension that the leaf lacks and zero is not in it (`CubeIndex.ContainedByIff`).
- A B-Tree with everything the read-only checks establish can still hide a leaf item from searches (the
  source's comments say so): the search takes the route to an item exactly when the item is above the
  downlink key at every hop that is followed by a first downlink on an inner page
  (`BtreeSearch.SearchTakesRoute`); a tree of at most two levels, or a route without such a hop, is
  always safe (`BtreeSearch.PlainRouteIsTaken`), and the check does accept a tree where one is missed
  (`BtreeSearch.CousinMissed`, `BtreeExact.CheckCousins`).
- Splitting an inner page of byte-string keys cuts both halves at the longer common prefix. A half keeps
  covering its values if and only if none of its parts has a cut-off upper bound that the new bound
  extends with a byte below 255 (`VarKeySplit.CutKeepsIff`); otherwise an equality search can miss a
  value (`VarKeySplit.FindableIff`, `VarKeySplit.SplitLosesExample`). Splits of leaf pages and unions are
  safe (`VarKeySplit.SplitIsKey`, `VarKeySplit.UnitedIsBuilt`).
- The comparison of boxes is free of cycles among the boxes of a set of dimensions if and only if the
  set has at most one dimension besides zero (`CubeOrder.OrderIff`).
- The right links of a damaged B-Tree can form circles that the circularity tests do not see
  (`BtreeExact.CheckCircular`, for every number of steps). The walk over a level meets distinct blocks,
  at most as many as the index has, if and only if it meets no half-dead page twice
  (`BtreeWalk.WalkIsBounded`), and it can go on forever if and only if some walk does
  (`BtreeWalk.EndlessIff`). The check of a leaf level fails to decide if and only if that happens or the
  right siblings of a page are ignorable without end (`BtreeExact.CheckLeafLevel`). Without a circle of
  right links the whole check decides within one step more than the index has blocks
  (`BtreeExact.CheckAcyclic`).

## Model

| member | source | states |
|---|---|---|
| BloomRand.SchrageCongruent | contrib/bloom/blutils.c:221-245 | the division trick with both intermediates inside int32 gives 16807 times the state modulo 2^31 - 1, for negative start states too |
| BloomRand.MultiplierInvertible | contrib/bloom/blutils.c:221-245 | 16807 has the inverse 1407677000, so a step leads to state zero from state zero only |
| BloomRand.StateBefore | contrib/bloom/blutils.c:221-245 | every nonzero state is reached in any number of calls from some nonzero state |
| BloomRand.SeedStateZero | contrib/bloom/blutils.c:248-253 | seeding leaves state zero for exactly two seeds, 0xFFFFFFFF and 0x80000001 |
| BloomRand.DrawnValues | contrib/bloom/blutils.c:221-253 | over whole runs from any other seed every value drawn is in [0, 0x7ffffffd] and the state is never zero; from the two bad seeds it always is |
| BloomRand.Generator.Rand | contrib/bloom/blutils.c:221-245 | one call moves the static state to the mathematical next state and returns it minus one |
| BloomRand.Generator.Srand | contrib/bloom/blutils.c:248-253 | assigning a uint32 to the int32 state and reducing it gives the seed state, sign included |
| BloomSignature.DrawnBitsInSignature | contrib/bloom/blutils.c:259-286 | all bit numbers drawn from a seed lie inside the signature if and only if the seed is not one of the two bad ones |
| BloomSignature.SeedHash | contrib/bloom/blutils.c:259-286 | in each column every seed comes from exactly one hash value |
| BloomSignature.BadHashes | contrib/bloom/blutils.c:259-286 | in each column exactly two hash values lead to a bad seed, and the first bit number drawn for them is negative |
| BloomSignature.EveryBitDrawn | contrib/bloom/blutils.c:259-286 | in each column and for each of its draws, every bit of the signature is the one drawn for some hash value, which sets it |
| BloomSignature.FewBits | contrib/bloom/blutils.c:259-286 | a value sets at most as many bits as its column draws |
| BloomSignature.ColumnsDiffer | contrib/bloom/blutils.c:259-286 | two columns turn the same hash value into different seeds |
| BloomSignature.SignValue | contrib/bloom/blutils.c:259-286 | the signature array gains exactly the bits drawn for the value and its column, and reports whether any bit fell outside |
| BloomSignature.FormTuple | contrib/bloom/blutils.c:292-310 | the tuple of a row has exactly the bits of its non-null columns and the given heap pointer |
| BloomSignature.ScanSignature | contrib/bloom/blscan.c:90-116 | a null key yields no scan; otherwise the scan signature has exactly the bits of all keys |
| BloomSignature.CoversIffBits | contrib/bloom/blscan.c:146-155 | the word-by-word mask test is inclusion of bit sets |
| BloomSignature.MatchingRowIsCovered | contrib/bloom/blscan.c:90-155 | a row whose columns equal the scan keys has a tuple that passes the signature test, whatever the hash functions are |
| BloomPage.FitsIffBelowCapacity | contrib/bloom/bloom.h:152-155 | the free-space macro allows one more tuple exactly while maxoff is below the page capacity |
| BloomPage.PageBuffer.AddItem | contrib/bloom/blutils.c:317-344 | appends the tuple when it fits and leaves the page alone when it does not |
| BloomPage.PageBuffer.Compact | contrib/bloom/blvacuum.c:85-107 | the two-cursor loop leaves the survivors in order in place and counts the removed tuples |
| BloomPage.PageBuffer.BulkDelete | contrib/bloom/blvacuum.c:73-138 | one page of bulk deletion: survivors kept, an emptied page flagged deleted, and a page qualifies for the not-full list exactly when it is nonempty and has room |
| BloomPage.SurvivorsAndVictims | contrib/bloom/blvacuum.c:85-107 | compaction splits the stored tuples as multisets: nothing lost, nothing invented |
| BloomPage.SurvivorOrVictim | contrib/bloom/blvacuum.c:85-107 | each tuple goes to the side its heap pointer decides |
| BloomScan.SignatureMatches | contrib/bloom/blscan.c:146-155 | the early-exit word loop decides inclusion of the scan signature |
| BloomScan.ScanOnePage | contrib/bloom/blscan.c:137-164 | a live page reports the heap pointers of exactly its covering tuples, a new or deleted page none, and the counter counts them |
| BloomBuild.Builder.Flush | contrib/bloom/blinsert.c:47-58 | the cached page becomes the next page of the file |
| BloomBuild.Builder.Add | contrib/bloom/blinsert.c:75-116 | the callback adds the tuple to what the file and the cached page hold together, flushing a full page first |
| BloomBuild.Build | contrib/bloom/blinsert.c:122-159 | a built index is an initial state of the transition system and stores exactly the tuples of the heap scan |
| BloomIndex.TryHintPreserves | contrib/bloom/blinsert.c:233-275 | the first lock phase, inserting into the page hinted by the metapage, keeps the invariant although the metapage lock was released |
| BloomIndex.LoopHintPreserves | contrib/bloom/blinsert.c:281-334 | the loop over not-full pages under the metapage lock keeps the invariant, also when it initialises a deleted page |
| BloomIndex.PublishPreserves | contrib/bloom/blinsert.c:340-365 | initialising a new or deleted page, storing the tuple and resetting the hint list keeps the invariant; which hint is left is stated by BloomSolo.InsertAlone |
| BloomIndex.AllocPreserves | contrib/bloom/blutils.c:352-400 | recycling from the free list, or extending the file and locking the new page in a later step, keeps the invariant |
| BloomIndex.VacuumPagePreserves | contrib/bloom/blvacuum.c:57-139 | a page step of bulk deletion keeps the invariant beside any concurrent insertion |
| BloomIndex.EndVacuumPreserves | contrib/bloom/blvacuum.c:146-158 | replacing the hint list by the pages bulk deletion collected keeps nStart <= nEnd <= capacity and only lists data pages |
| BloomIndex.CleanupPagePreserves | contrib/bloom/blvacuum.c:189-212 | recording new and deleted pages as free keeps the invariant, though other backends may reuse them meanwhile |
| BloomIndex.NextPreserves | contrib/bloom/blinsert.c:198-366 | every step of every backend keeps the whole invariant, tuple conservation included |
| BloomRuns.RunSafety | contrib/bloom/blinsert.c:198-366 | in every run the stored multiset is inserted minus bulk-deleted, nStart <= nEnd <= 2004, a page flagged deleted is empty, and a page just added is still new when it is initialised |
| BloomRuns.PagesStep | contrib/bloom/blvacuum.c:57-139 | no tuple moves between pages: a page stays, gains the tuple of one insertion, or loses the victims of one bulk deletion |
| BloomRuns.TupleStays | contrib/bloom/blutils.c:352-416 | a stored tuple that no running bulk deletion targets stays on its page, so no page initialisation discards it |
| BloomRuns.ScanIsComplete | contrib/bloom/blscan.c:81-172 | a scan interleaved with anything returns every tuple that was stored when it began, was not bulk-deleted meanwhile and whose row matches the keys |
| BloomRuns.ScanIsSound | contrib/bloom/blscan.c:81-172 | a scan returns only heap pointers of tuples that were inserted and cover the scan signature |
| BloomRuns.BulkDeleteIsComplete | contrib/bloom/blvacuum.c:34-161 | when a bulk deletion has passed all pages no tuple with a dead heap pointer is left, whatever ran beside it, as long as dead pointers are not reused |
| BloomSolo.InsertAlone | contrib/bloom/blinsert.c:198-366 | an insertion that no other operation overlaps adds its tuple to the first listed page with room, where the window of hints then begins; only without such a page it takes a free page or adds one, which becomes the only hint |
| BloomSolo.FillsPages | contrib/bloom/blinsert.c:198-366 | one backend that inserts n tuples one after another into an index without data pages leaves exactly n divided by the capacity of a page, rounded up, live data pages |
| BloomSolo.VacuumAlone | contrib/bloom/blvacuum.c:34-161 | a bulk deletion that runs alone takes just the dead tuples off every page and keeps the others in order, flags exactly the pages it emptied, and leaves as hints the first 2004 partially filled pages in order |
| BloomSolo.CleanupAlone | contrib/bloom/blvacuum.c:169-218 | a cleanup that runs alone adds to the free space map exactly the new and the deleted pages and changes nothing else |
| BloomSolo.ScanAlone | contrib/bloom/blscan.c:81-172 | a scan that runs alone finds exactly the heap pointers of the stored tuples that have all bits of its signature |
| BloomProgress.CanFinish | contrib/bloom/blinsert.c:198-366 | from every reachable state an operation can be finished by its own steps unless another backend holds the metapage lock, and an insertion has then stored its tuple |
| BloomProgress.CanInsert | contrib/bloom/blinsert.c:198-366 | after any run, a tuple can be inserted by a backend that is idle while the metapage is unlocked |
| IntQueryLex.Lexer.ReadNumber | contrib/intarray/_int_bool.c:85-108 | a number is read to its last digit and rejected when it does not fit int32 or its buffer; which number it is, decimal or octal, is stated by IntQueryText.NumberWordIff |
| IntQueryLex.Lexer.GetToken | contrib/intarray/_int_bool.c:48-130 | the token stream of a text: each call returns the next token, advances, and ends at the end of the text or at the first error |
| IntQueryText.NumberWordIff | contrib/intarray/_int_bool.c:85-108 | the words read as a number v are exactly those of at most 15 characters made of an optional sign and the decimal digits of v, or zeros, the octal digits of v and possibly more digits from an 8 or 9 on; a sign alone is zero |
| IntQueryText.OctalToken | contrib/intarray/_int_bool.c:85-108 | the text of a number in octal after one or more zeros, with or without a sign, is read as that number, and a digit 8 or 9 ends what is read |
| IntQueryText.OctalRoundTrip | contrib/intarray/_int_bool.c:85-108 | every int32 reads back from its octal digits after a zero |
| IntQueryText.SpellsIffWritten | contrib/intarray/_int_bool.c:48-130 | a text is read as the tokens of a syntax tree exactly when it is their words, each after any blanks, up to its end or a zero character |
| IntQueryGrammar.Unambiguous | contrib/intarray/_int_bool.c:153-223 | a token sequence is the yield of at most one syntax tree |
| IntQueryGrammar.ShiftDisj | contrib/intarray/_int_bool.c:153-223 | reading the yield of a tree token by token rebuilds that tree, left-associative |
| IntQueryParse.Parser.MakePol | contrib/intarray/_int_bool.c:153-223 | the parser emits the postfix form of the one tree that the tokens spell, fails on exactly the token errors, and overflows exactly when a `!` meets a full stack |
| IntQueryParse.OverflowNeedsBangs | contrib/intarray/_int_bool.c:176-188 | the stack is at most one "or", one `&` and then only `!`: a full stack needs a run of at least 15 `!`, and a run of 17 always fills it |
| IntQueryInput.FindOprnd | contrib/intarray/_int_bool.c:440-470 | the link pass walks postfix items from right to left in place and gives every item the link of its expression, touching nothing else |
| IntQueryInput.ReadQuery | contrib/intarray/_int_bool.c:477-542 | the input function is exact: too complex, syntax error, or the linked items of the expression the text spells, one of the three for every text |
| IntQueryInput.StoredQueryMeans | contrib/intarray/_int_bool.c:266-294 | evaluating what was read computes the Boolean value of the infix expression on every array, and the conservative mode is true whenever that value is |
| IntQuery.LinkStoredIff | contrib/intarray/_int.h:140-145 | a link survives its int16 field exactly when the right operand has at most 32767 items |
| IntQueryLinks.LinksTrueIff | contrib/intarray/_int_bool.c:440-470 | every link stored for a query is the true distance if and only if no right operand in it has more than 32767 items |
| IntQueryLinks.LinkTarget | contrib/intarray/_int_bool.c:440-470 | where the link of any binary operator leads, by the size of its right operand modulo 65536: to its left operand, past itself, to itself or into the right operand |
| IntQueryLinks.SelfLinkReadsNothing | contrib/intarray/_int_bool.c:266-294 | no expression can be read through an operator that links to itself, so an evaluation from there does not end |
| IntQueryLinks.RunReads | contrib/intarray/_int_bool.c:266-294 | whatever the links are, where following them reads an expression the evaluation computes its value |
| IntQueryLinks.OversizedRoot | contrib/intarray/_int_bool.c:266-294 | for a right operand of the root above 32767 items the evaluation leaves the query, never ends, or computes the value with a part of the right operand in place of the left one |
| IntQueryLinks.ReadWide | contrib/intarray/_int_bool.c:477-542 | for every size of a right operand within the item limit some accepted text stores a query with it |
| IntQuery.StoredReads | contrib/intarray/_int_bool.c:266-294 | items with fitting links can be followed from the last one back to every operand |
| IntQuery.Execute | contrib/intarray/_int_bool.c:266-294 | following links with short circuits gives the lossy value of the expression for any primitive test |
| IntQuery.EvalLossyCovers | contrib/intarray/_int_bool.c:266-294 | with calcnot off, a test that covers an array never makes a satisfied query false |
| IntQuery.LossyWithoutNot | contrib/intarray/_int_bool.c:266-294 | without negations the value with calcnot off is exact |
| IntQuery.ContainsRequired | contrib/intarray/_int_bool.c:364-396 | when the analysis says so, every array that satisfies the query contains one of its values; it says no exactly when the empty set satisfies the query once negations count as true |
| IntQuery.InSorted | contrib/intarray/_int_bool.c:235-254 | the binary search on a sorted array decides membership |
| IntQueryPrint.Infix.Print | contrib/intarray/_int_bool.c:564-637 | the cursor walk writes the infix text of the items and stops right before them; it fails exactly when one of the doubling buffers would exceed the allocation limit |
| IntQueryPrint.NeedClose | contrib/intarray/_int_bool.c:556-637 | the bytes requested of a buffer are those of the text, except for texts so short that they never matter |
| IntQueryPrint.PrintFitsIff | contrib/intarray/_int_bool.c:556-637 | no request fails if and only if the text with its final zero is shorter than 2^29 bytes |
| IntQueryPrint.PrintQuery | contrib/intarray/_int_bool.c:640-659 | the text of the stored expression, or the error, exactly from 2^29 - 1 characters on |
| IntQueryPrint.NumberRoundTrip | contrib/intarray/_int_bool.c:569-575 | every int32 reads back from its decimal text, which fits the number buffer |
| IntQueryRoundTrip.RenderTokens | contrib/intarray/_int_bool.c:564-637 | the printed text tokenizes to the yield of a tree, in any context that can follow an operand |
| IntQueryRoundTrip.PrintedSpells | contrib/intarray/_int_bool.c:564-637 | printed text always parses and never exhausts the stack |
| IntQueryRoundTrip.PrintReadRoundTrip | contrib/intarray/_int_bool.c:477-659 | reading a printed query gives the re-associated expression: same value on every array, same size, same printed text |
| IntQueryRoundTrip.ExprReadBack | contrib/intarray/_int_bool.c:564-637 | structure changes only by re-associating `&` |
| IntQueryRoundTrip.PrintAndRead | contrib/intarray/_int_bool.c:477-659 | printing fails exactly when the text does not fit, and the printed text of every stored query within the item limit is read back |
| IntQueryLong.ReadNotPrinted | contrib/intarray/_int_bool.c:640-659 | an accepted query of forty million values is not printed |
| IntGin.QueryExtract | contrib/intarray/_int_gin.c:13-105 | the entries are the query values; for a Boolean query the full-scan mode is chosen exactly when an array without them could pass, negations counting as true; otherwise every matching array contains an entry |
| IntGin.BoolConsistent | contrib/intarray/_int_bool.c:336-361 | the answers for the entries, mapped back to the items, give the exact value on the array they describe |
| IntGin.Consistent | contrib/intarray/_int_gin.c:110-180 | exact for Boolean queries; recheck is requested exactly for contained-by and equality |
| IntGin.SearchOne | contrib/intarray/_int_gin.c:13-180 | GIN visits and accepts every matching array, what it accepts without recheck matches, and a recheck is asked exactly for contained-by and equality; an array without an entry of the query is visited only if it is empty and could match, or if the query could be satisfied without entries |
| IntRange.EndsShape | contrib/intarray/_int_gist.c:214-245 | cuts give disjoint increasing ranges, one more than cuts, that denote as many integers as the weight of the cuts |
| IntRange.EndsCover | contrib/intarray/_int_gist.c:214-245 | every element of the array lies in one of its ranges |
| IntRange.SeparatedIsLightest | contrib/intarray/_int_gist.c:244-258 | cutting the largest gaps is best among all sets of no more cuts |
| IntRange.CoverCuts | contrib/intarray/_int_gist.c:214-258 | a cover by m arbitrary intervals leaves at most m - 1 gaps open |
| IntRange.GreedyIsOptimal | contrib/intarray/_int_gist.c:214-258 | no union of that many or fewer intervals that contains the array has fewer integers, overlapping and oversized intervals included |
| IntRangeCompress.PullDown | contrib/intarray/_int_gist.c:222-226 | the inner loop joins consecutive values into one range and uses one merge for each |
| IntRangeCompress.MergeRuns | contrib/intarray/_int_gist.c:214-229 | tail to head and in place: ranges grow at the end of the buffer while unread elements stay at its front, and no more than the allowed merges are made |
| IntRangeCompress.CopyRest | contrib/intarray/_int_gist.c:230-232 | the elements left at the front become trivial ranges |
| IntRangeCompress.NarrowestGap | contrib/intarray/_int_gist.c:249-255 | finds the first boundary of the smallest distance, with 64-bit differences |
| IntRangeCompress.MergeNarrowest | contrib/intarray/_int_gist.c:246-258 | closing smallest gaps in place keeps the cuts larger than all closed gaps and ends with exactly the wanted number of ranges |
| IntRangeCompress.InternalSize | contrib/intarray/_int_tool.c:292-306 | the number of integers a range key denotes, or -1 when it exceeds int |
| IntRangeCompress.Compress | contrib/intarray/_int_gist.c:187-276 | short keys stay; longer ones become exactly 2 * num_ranges range ends that cover the array with the fewest integers possible, or the too-sparse error when even that exceeds the limit |
| IntRangeCompress.Decompress | contrib/intarray/_int_gist.c:279-345 | a long key is expanded to exactly internal_size elements; the counter steps past the largest int exactly when the last range ends there |
| IntRangeCompress.ExpansionFacts | contrib/intarray/_int_gist.c:333-336 | the expansion is strictly increasing and as long as the ranges are large |
| IntRangeCompress.SparseIffEveryCoverIs | contrib/intarray/_int_gist.c:260-266 | the compressor gives up exactly when every union of at most num_ranges intervals around the array exceeds the limit |
| IntRangeCompress.Reload | contrib/intarray/_int_gist.c:156-345 | stored and read again, a key is strictly increasing, contains every element, and no cover by as many intervals is smaller; within the size limit the counter overflows exactly for a long key with the value INT_MAX |
| IntRangeLeaf.LeafKept | contrib/intarray/_int_gist.c:168-185 | a leaf array read back has lost no element, and has gained none if and only if it is short or all its stored pairs are consecutive |
| IntRangeLeaf.ReadLeaf | contrib/intarray/_int_gist.c:279-345 | reading a leaf array of any even length, with the exact conditions of the size error and the counter overflow |
| IntRangeIndex.InnerContains | contrib/intarray/_int_tool.c:14-45 | the merge loop decides inclusion |
| IntRangeIndex.InnerOverlap | contrib/intarray/_int_tool.c:49-75 | the merge loop decides whether the arrays share an element |
| IntRangeIndex.Consistent | contrib/intarray/_int_gist.c:46-113 | the decision for every strategy in terms of membership in the key; recheck is requested exactly for equality |
| IntRangeIndex.LeafIsExact | contrib/intarray/_int_gist.c:46-113 | on a leaf key with exactly the elements of the array the decision is the query |
| IntRangeIndex.LeafExactIff | contrib/intarray/_int_gist.c:46-185 | every search decides a leaf exactly if and only if its array has fewer than twice num_ranges elements or is stored as pairs of consecutive integers |
| IntRangeIndex.LongLeafFails | contrib/intarray/_int_gist.c:46-185 | a leaf that gained an element misses contained-by and equality searches for its own array and is reported, without recheck, by an overlap search for the element |
| IntRangeIndex.LongLeafExample | contrib/intarray/_int_gist.c:168-185 | with one range the array {1, 3} reads as 1, 2, 3 |
| IntRangeIndex.NeverLoses | contrib/intarray/_int_gist.c:46-150 | no entry above a matching array is rejected, although keys were united, compressed and expanded; at the leaf, for arrays read back exactly and for requests that more elements cannot falsify |
| IntRangeIndex.PruningIsTight | contrib/intarray/_int_gist.c:46-113 | an inner key is descended into exactly when some array made of its elements could satisfy the request, for all array queries and for queries without negations |
| IntRangeIndex.SearchIsComplete | contrib/intarray/_int_gist.c:46-345 | a search of any tree of range keys reaches every matching array that is read back exactly, and every matching array at all for overlap, contains and queries without negations |
| IntRangeIndex.LongLeafMissed | contrib/intarray/_int_gist.c:46-345 | in every tree, contained-by and equality searches for an array that is not read back exactly miss it |
| IntBig.Generate | contrib/intarray/_int_tool.c:322-332 | the signature of an array has exactly the bits of its elements |
| IntBig.HashKeepsApart | contrib/intarray/_int.h:80-81 | different elements below the number of bits get different bits, their own numbers; a negative element gets the bit of the unsigned number with its 32 bits |
| IntBig.Union | contrib/intarray/_intbig_gist.c:253-288 | the union has exactly the bits of its members, or the all-true flag when a member has it |
| IntBig.CompressInner | contrib/intarray/_intbig_gist.c:182-204 | a full signature becomes the flag and nothing else changes |
| IntBig.Consistent | contrib/intarray/_intbig_gist.c:462-575 | the decision for every strategy in terms of signature bits |
| IntBig.SignConsistent | contrib/intarray/_int_bool.c:300-305 | a Boolean query is evaluated lossily on the signature |
| IntBig.NeverLoses | contrib/intarray/_intbig_gist.c:462-575 | an entry whose signature covers a matching array is consistent, for every strategy |
| IntBig.PruningIsTight | contrib/intarray/_intbig_gist.c:462-575 | a signature key is descended into exactly when some array whose bits it has would be accepted at a leaf |
| IntBig.LeafIsExact | contrib/intarray/_intbig_gist.c:462-575 | when all elements are below the number of bits, a leaf decides every array query and every Boolean query without negations exactly |
| IntBig.SearchIsComplete | contrib/intarray/_intbig_gist.c:253-575 | a search of any tree of signature keys reaches every matching array |
| IntBig.SearchIsExact | contrib/intarray/_intbig_gist.c:253-575 | for such elements and queries a search of any tree reaches only matching arrays |
| HstoreFormat.ReadPacked | contrib/hstore/hstore.h:28-34 | the accessor macros read back key, value and null flag of every pair from end offsets in 30-bit entries |
| HstoreFormat.DecodePack | contrib/hstore/hstore.h:71-83 | packing a list of pairs and decoding it is the identity |
| HstoreFormat.Writer.CopyItem | contrib/hstore/hstore.h:99-106 | copying contiguous bytes with two new entries appends the pair |
| HstoreFormat.Writer.AddItem | contrib/hstore/hstore.h:112-126 | appends a pair, a null without bytes |
| HstoreFormat.Writer.Finalize | contrib/hstore/hstore.h:129-140 | marks the first entry and sets count and exact size: the packed form of the written pairs |
| HstoreMap.SortedUnique | contrib/hstore/hstore_io.c:281-302 | a list in strict (length, bytes) order is determined by its map |
| HstoreMap.LessMeans | contrib/hstore/hstore_io.c:281-302 | a shorter key comes first, and of two keys of the same length the one with the smaller byte at the first difference |
| HstoreMap.CanonicalUnique | contrib/hstore/hstore.h:99-147 | canonical values are equal exactly when their maps are |
| HstoreMap.FilterMap | contrib/hstore/hstore_op.c:247-289 | dropping pairs restricts the map and keeps the order |
| HstoreOps.FindKey | contrib/hstore/hstore_op.c:36-70 | binary search with any lower bound below which all keys are smaller gives the answer of an unrestricted search and a bound past the key |
| HstoreOps.BoundCarries | contrib/hstore/hstore_op.c:160-227 | the bound one search leaves is good for every larger key |
| HstoreOps.ExistsAny | contrib/hstore/hstore_op.c:164-193 | true exactly when some given key is in the map |
| HstoreOps.ExistsAll | contrib/hstore/hstore_op.c:198-227 | true exactly when all given keys are in the map |
| HstoreOps.FetchVal | contrib/hstore/hstore_op.c:130-146 | the value of the key; nothing for a missing key or a null |
| HstoreOps.Contains | contrib/hstore/hstore_op.c:967-1010 | true exactly when the template map is included, nulls equal to nulls |
| HstoreOps.Delete | contrib/hstore/hstore_op.c:247-289 | canonical result, the map without the key |
| HstoreMerge.DeleteArray | contrib/hstore/hstore_op.c:294-368 | canonical result, the map without the given keys |
| HstoreMerge.DeleteHstore | contrib/hstore/hstore_op.c:373-468 | canonical result, the map without the pairs that the other value has too |
| HstoreMerge.Concat | contrib/hstore/hstore_op.c:473-566 | canonical result, the second map over the first; fails exactly when both sizes together exceed the allocation limit |
| HstoreMerge.SliceToHstore | contrib/hstore/hstore_op.c:634-691 | canonical result, the map restricted to the given keys |
| HstoreMerge.PackPairs | contrib/hstore/hstore_io.c:380-406 | the packed form of the pairs |
| HstoreMerge.FixSizeKeeps | contrib/hstore/hstore.h:143-147 | recomputing the size of a canonical value changes nothing |
| HstorePairs.UniquePairs | contrib/hstore/hstore_io.c:311-356 | in place, the first pair of every run of equal keys moves to the front, and the string length they need is returned |
| HstorePairs.UniqueSorted | contrib/hstore/hstore_io.c:311-356 | uniquing a sorted list orders it strictly |
| HstorePairs.SortOfSorted | contrib/hstore/hstore_io.c:324-324 | a strictly ordered list has only one sorted rearrangement, so an unstable sort cannot change it |
| HstorePairs.ArrayToPairs | contrib/hstore/hstore_op.c:73-125 | strictly ordered keys, exactly the non-null elements of the array |
| HstoreCmp.Compare | contrib/hstore/hstore_op.c:1087-1163 | string buffers, counts and entries compared in turn give a lexicographic product, whose direction is stated by OrderMeans |
| HstoreCmp.OrderReverse | contrib/hstore/hstore_op.c:1087-1163 | swapping the operands negates the result |
| HstoreCmp.OrderTransitive | contrib/hstore/hstore_op.c:1087-1163 | the comparison is transitive |
| HstoreCmp.OrderZero | contrib/hstore/hstore_op.c:1087-1163 | zero exactly for equal maps |
| HstoreCmp.OrderMeans | contrib/hstore/hstore_op.c:1087-1163 | negative exactly when the first value comes first: the empty value, or the smaller byte at the first difference of the string buffers or the shorter buffer, or fewer pairs, or at the first entry that differs the smaller end offset, or a value against a null; positive exactly the other way round |
| HstoreText.HSParser.GetVal | contrib/hstore/hstore_io.c:60-172 | the cursor, the word and the quoting flag after each call are those of the word automaton; a word fails exactly when it exceeds 2^29 - 1 bytes, where its doubling buffer meets the allocation limit |
| HstoreText.HSParser.ParseHstore | contrib/hstore/hstore_io.c:182-278 | the pairs read, or the error, are those of the pair automaton, which fails at the pair where the doubling array meets the allocation limit; what it reads, nulls included, is stated by HstoreGrammar and HstoreLanguage without it |
| Buffers.GrowsIffBelow | contrib/hstore/hstore_io.c:41-50 | a buffer that doubles fails to grow exactly at the largest size within the allocation limit |
| HstoreGrammar.GrammarIsRead | contrib/hstore/hstore_io.c:60-278 | every text of the grammar (bare and quoted words, escapes, white space, a trailing comma) parses to the pairs it spells, or fails, exactly when they are more than 2^24 |
| HstoreGrammar.NullIff | contrib/hstore/hstore_io.c:240-256 | a single pair reads as a null exactly when its value is not quoted and is one of the sixteen spellings of the four letters; otherwise as the bytes of its value |
| HstoreLanguage.ReadIsGrammar | contrib/hstore/hstore_io.c:60-278 | every accepted text is a text of the grammar with that meaning and at most 2^24 pairs |
| HstoreLanguage.LanguageIsGrammar | contrib/hstore/hstore_io.c:60-278 | the parser accepts exactly the texts of the grammar with at most 2^24 pairs and reads them as meant |
| HstorePrint.Cpw | contrib/hstore/hstore_io.c:1144-1155 | copies with a backslash before quotes and backslashes, inside the buffer |
| HstorePrint.BufferLength | contrib/hstore/hstore_io.c:1173-1191 | the computed length is the pessimistic bound and never leaves int |
| HstorePrint.HstoreOut | contrib/hstore/hstore_io.c:1159-1225 | the text of the pairs, written inside the computed buffer with its final zero; fails exactly when that buffer exceeds the allocation limit |
| HstoreRoundTrip.PrintedIsSpelling | contrib/hstore/hstore_io.c:1159-1225 | printed text is a spelling of the pairs |
| HstoreRoundTrip.ReadPrinted | contrib/hstore/hstore_io.c:60-278 | reading printed text gives back the pairs (nulls against the quoted word, empty keys, quotes and backslashes), or fails, exactly when they are more than 2^24 |
| HstoreRoundTrip.HstoreIn | contrib/hstore/hstore_io.c:411-426 | an error, or a canonical value with exactly the given keys and for each one of its given values |
| HstoreRoundTrip.OutThenIn | contrib/hstore/hstore_io.c:411-1225 | printing and reading a canonical value without zero bytes gives back the identical packed value, or nothing, exactly when the printed bound exceeds the allocation limit or the value has more than 2^24 pairs |
| HstoreMany.PrintedButNotRead | contrib/hstore/hstore_io.c:182-278 | a canonical value exists that is printed and whose text is refused |
| HstoreCompat.Value.ValidNewFormat | contrib/hstore/hstore_compat.c:119-162 | nonzero exactly for ordered positions and key lengths, non-null keys and a size that fits; two exactly when the size is exact |
| HstoreCompat.Value.ValidOldFormat | contrib/hstore/hstore_compat.c:171-229 | nonzero exactly for contiguous positions, non-decreasing key lengths and a size that fits; two exactly when the size is exact |
| HstoreCompat.Value.Rewrite | contrib/hstore/hstore_compat.c:319-342 | overwriting the entries in place leaves the entries of the packed form of the old pairs |
| HstoreCompat.Value.Upgrade | contrib/hstore/hstore_compat.c:236-347 | a valid old value that is not taken as new becomes exactly the packed form of its pairs; a value taken as new keeps its entries under a header with the new version and the exact length, and one that is valid in neither format is refused |
| HstoreCompat.UpgradeDecodes | contrib/hstore/hstore_compat.c:316-346 | the upgraded value decodes to the same keys, values and null flags, with exact size |
| HstoreOld.OldReadsBack | contrib/hstore/hstore_compat.c:99-106 | the words that an old writer leaves for a list of pairs read back as that list, without gaps; the test of key lengths is their order by length |
| HstoreOld.OldOkIff | contrib/hstore/hstore_compat.c:171-229 | the test for the old format accepts exactly what an old writer leaves for some pairs ordered by key length |
| HstoreOld.PackedWords | contrib/hstore/hstore.h:71-83 | the entries, the count and the length of the packed form in numbers: end offsets, 2^31 more on the first entry, 2^30 more on a null |
| HstoreOld.PackedIsNew | contrib/hstore/hstore_compat.c:119-162 | the packed form of pairs ordered by key length passes the test for the new format with its exact size |
| HstoreOld.NewOkMeans | contrib/hstore/hstore_compat.c:119-162 | the test for the new format accepts exactly when the first entry alone has the flag, end offsets never fall and fit the value, key lengths never fall and no key after the first is null |
| HstoreOld.ForcedIsPacked | contrib/hstore/hstore_compat.c:250-270 | forcing flag and length on the entries of a packed value, with any bytes after its buffer, gives the packed value |
| HstoreCompat.ShortcutIff | contrib/hstore/hstore_compat.c:250-256 | a valid old value is taken as new exactly when it is under 32768 bytes and its first value is a null with a length field of 32768 or more |
| HstoreCompat.ShortcutLosesNull | contrib/hstore/hstore_compat.c:250-256 | a value that takes it decodes to as many pairs, of which the first has a value where the old one has null |
| HstoreCompat.ShortcutExample | contrib/hstore/hstore_compat.c:250-256 | such a value exists |
| BtreeCheck.CheckState.DownlinkMissingCheck | contrib/amcheck/verify_nbtree.c:2120-2289 | accepts only a root, a page after an incomplete split, or a page from which first downlinks lead to a half-dead leaf that points back to it; the descent ends within as many steps as there are blocks |
| BtreeCheck.CheckState.HighKeyMatches | contrib/amcheck/verify_nbtree.c:1813-1915 | accepted exactly when the high key of the page a downlink leads to equals the next separator, or the parent's high key after the last one |
| BtreeCheck.CheckState.ChildHighkeyCheck | contrib/amcheck/verify_nbtree.c:1700-1933 | walking right from the previous child reaches the downlink's page and passes over excused pages only |
| BtreeCheck.CheckState.ChildCheck | contrib/amcheck/verify_nbtree.c:1949-2104 | in addition the downlink key is strictly below every real item of the child, which is not deleted |
| BtreeCheck.CheckState.RightFirstKey | contrib/amcheck/verify_nbtree.c:1425-1620 | the key compared across pages is the first real item of the first live page to the right, and there is none exactly when there is no such page or item; the search runs out of steps exactly when that many ignorable pages follow one another |
| BtreeCheck.CheckState.TargetPageCheck | contrib/amcheck/verify_nbtree.c:917-1406 | an accepted page has its items in strict order and within the high key, agrees with all its children, and its last item is below the first item of the first live page to the right; what that means for a whole level is stated by BtreeOrder.LevelInOrder |
| BtreeLevels.VisitPage | contrib/amcheck/verify_nbtree.c:680-817 | an accepted live page agrees with its left neighbour and has the level expected; the first live page is leftmost |
| BtreeLevels.CheckLevel | contrib/amcheck/verify_nbtree.c:654-878 | an accepted level is a chain of such pages from a leftmost page to the end, and its downlinks thread the whole child level; a level all of whose pages satisfy the checks is accepted; with more steps than blocks it decides, unless the walk met a half-dead page twice or pages without downlinks form a circle; on the leaf level it runs out of steps exactly on walks that pass its tests and are too long or stuck |
| BtreeTree.CheckEveryLevel | contrib/amcheck/verify_nbtree.c:416-565 | the root block is a live leftmost page with the root flag on level btm_level; levels are accepted from it down, each starting at the first downlink of the one above, at most btm_level + 1 of them; and every tree whose levels can be walked with all checks satisfied is accepted; with more steps than blocks it fails to decide only for such circles |
| BtreeCircles.PassingCircle | contrib/amcheck/verify_nbtree.c:1744-1932 | more pages passed over on the child level than the index has form a circle of pages that all have an excuse |
| BtreeCircles.BlindForever | contrib/amcheck/verify_nbtree.c:1470-1490 | if more right siblings than the index has blocks are ignorable, all that follow are |
| BtreeCircles.SinkingFits | contrib/amcheck/verify_nbtree.c:2196-2236 | a descent whose levels fall by one, with 32-bit wrap-around, visits no block twice |
| BtreeWalk.RepeatIsHalfDead | contrib/amcheck/verify_nbtree.c:680-865 | a block that comes twice in a walk means a half-dead block that does |
| BtreeWalk.WalkIsBounded | contrib/amcheck/verify_nbtree.c:680-865 | in a walk, ended or not, the blocks are pairwise distinct if and only if no half-dead page comes twice, and then no more than the index has |
| BtreeWalk.EndlessIff | contrib/amcheck/verify_nbtree.c:680-865 | there are walks of every length from a block if and only if some walk from it meets a half-dead page twice |
| BtreeWalk.CircularWalk | contrib/amcheck/verify_nbtree.c:814-825 | an index of three blocks whose walk passes every test, the circularity tests included, at any length |
| BtreeTree.ChainIsWalk | contrib/amcheck/verify_nbtree.c:1700-1933 | the pages reached through a level's downlinks are exactly the pages of the next level, in order |
| BtreeTree.SeparatorsLead | contrib/amcheck/verify_nbtree.c:1809-1914 | for every parent and every real item in a child it links to, the last downlink strictly below the item is the downlink to that child |
| BtreeOrder.AcrossPages | contrib/amcheck/verify_nbtree.c:1195-1263 | from one live page of an accepted level to the next one, ignorable pages skipped, the last key is below the first |
| BtreeOrder.LevelInOrder | contrib/amcheck/verify_nbtree.c:917-1406 | on an accepted level the real items of any stretch of pages without an empty live page strictly increase from its first page to its last |
| BtreeOrder.UnderHighKeys | contrib/amcheck/verify_nbtree.c:1195-1263 | on a live page that is not the last of its level every real item is at most the high key, and below it on an internal page |
| BtreeOrder.ChildOneBelow | contrib/amcheck/verify_nbtree.c:1949-2104 | every downlink of an accepted level leads to a readable page one level below, if it is live, and from the second downlink on to a page that is not deleted and whose items are all above the downlink key |
| BtreeOrder.LeavesAtBottom | contrib/amcheck/verify_nbtree.c:416-565 | every live page of an accepted tree is on the level of its distance from the bottom, and is a leaf exactly at the bottom |
| BtreeOrder.DownlinksAreLevel | contrib/amcheck/verify_nbtree.c:1700-1933 | without pending splits and deletions and without a second root, the downlinks of an accepted level read from left to right are exactly the pages of the level below |
| BtreeSearch.AllLevels | contrib/amcheck/verify_nbtree.c:546-565 | with nonzero downlinks exactly btm_level + 1 levels are visited |
| BtreeSearch.RouteUpper | contrib/amcheck/verify_nbtree.c:1195-1263 | an item is at most the separators after its route on every level above, not only the next one |
| BtreeSearch.SearchTakesRoute | contrib/amcheck/verify_nbtree.c:2060-2101 | a search from the root takes the route to a leaf item if and only if the item is above the downlink key at the hops that are followed by a first downlink on an inner page |
| BtreeSearch.PlainRouteIsTaken | contrib/amcheck/verify_nbtree.c:2060-2101 | on a route without such a hop, and in every tree of at most two levels, the search always takes the route |
| BtreeSearch.CousinMissed | contrib/amcheck/verify_nbtree.c:2514-2536 | a tree with all the properties of acceptance in which that fails |
| BtreeExact.SettledIsReady | contrib/amcheck/verify_nbtree.c:416-565 | a tree with all the properties of acceptance, no split or deletion pending and a downlink for every page satisfies every check |
| BtreeExact.CheckSettled | contrib/amcheck/verify_nbtree.c:416-565 | the check accepts every such tree, given enough steps |
| BtreeExact.CheckAcyclic | contrib/amcheck/verify_nbtree.c:416-565 | without a circle of right links the check accepts or reports corruption within one step more than the index has blocks |
| BtreeExact.CheckLeafLevel | contrib/amcheck/verify_nbtree.c:654-878 | with more steps than blocks the check of a leaf level fails to decide if and only if some walk meets a half-dead page twice or comes to a page whose right siblings are ignorable without end, and then with any number of steps |
| BtreeExact.CheckCircular | contrib/amcheck/verify_nbtree.c:814-825 | no number of steps decides the circular index |
| BtreeExact.CheckCousins | contrib/amcheck/verify_nbtree.c:416-565 | the check accepts the tree in which a search misses an item |
| VarKey.NodeCpLen | contrib/btree_gist/btree_utils_var.c:121-162 | the length of the common prefix of the bounds |
| VarKey.NodeTruncate | contrib/btree_gist/btree_utils_var.c:204-228 | each bound keeps at most one byte more than the length given |
| VarKey.BinUnion | contrib/btree_gist/btree_utils_var.c:233-277 | widening keeps the least bounds of all keys so far |
| VarKey.Union | contrib/btree_gist/btree_utils_var.c:322-357 | the hull of the entries with both bounds cut after the common prefix and two bytes |
| VarKey.CutCovers | contrib/btree_gist/btree_utils_var.c:204-228 | a cut key covers what its parts covered: a bound cut shorter than a value is a prefix of it |
| VarKey.CutLengths | contrib/btree_gist/btree_utils_var.c:204-228 | a cut key keeps the longest common prefix of the bounds and at most two bytes more of each |
| VarKey.LeafIsExact | contrib/btree_gist/btree_utils_var.c:554-612 | on a leaf the decision is the comparison |
| VarKey.CoverIsConsistent | contrib/btree_gist/btree_utils_var.c:554-612 | a key that covers a value is consistent with every query the value satisfies |
| VarKey.InnerTestIff | contrib/btree_gist/btree_utils_var.c:554-612 | the test of an inner key passes exactly when a value that it covers satisfies the query, or the query starts with one of the bounds and asks for no inequality |
| VarKeySplit.PickSplit | contrib/btree_gist/btree_utils_var.c:458-547 | the first half of the sorted entries goes left; both hulls are cut after the longer of their common prefixes and two bytes |
| VarKeySplit.CutKeepsIff | contrib/btree_gist/btree_utils_var.c:458-547 | cutting a hull keeps every value that a part covers if and only if the cut bound does not extend the cut-off bound of the part by bytes that are not all 255 |
| VarKeySplit.FindableIff | contrib/btree_gist/btree_utils_var.c:458-612 | no search for a value of the part is lost if and only if that holds or the bound of the part starts with the lower bound of the key |
| VarKeySplit.UnionIsKey | contrib/btree_gist/btree_utils_var.c:322-357 | a union always keeps what its parts cover |
| VarKeySplit.SplitKeepsIff | contrib/btree_gist/btree_utils_var.c:458-547 | a half of a split covers everything its parts covered if and only if none of them is overshot |
| VarKeySplit.SplitIsKey | contrib/btree_gist/btree_utils_var.c:458-547 | such a half, and every half of a leaf page, can be built upon |
| VarKeySplit.UnitedIsBuilt | contrib/btree_gist/btree_utils_var.c:322-357 | every nesting of unions can be built upon, without any condition |
| VarKeySplit.LongerHalfKeeps | contrib/btree_gist/btree_utils_var.c:458-547 | the half with the longer common prefix keeps it |
| VarKeySplit.SplitLosesExample | contrib/btree_gist/btree_utils_var.c:458-547 | a split after which the search for a value below the left half does not descend |
| VarKeySplit.BuiltCovers | contrib/btree_gist/btree_utils_var.c:322-547 | however unions and such splits are nested, the key covers every value it was built from |
| VarKeySplit.NeverLoses | contrib/btree_gist/btree_utils_var.c:554-612 | no inner key built by any nesting of unions and such splits rejects a satisfied query, for all six strategies |
| Cube.UnionV0 | contrib/cube/cube.c:691-748 | the bounding box in the larger dimension, zero-extended, for corners in any order; a point result is flagged without changing a side |
| Cube.BuiltCovers | contrib/cube/cube.c:691-748 | any repetition of unions covers every member after zero-extension |
| Cube.OverlapV0 | contrib/cube/cube.c:1137-1172 | true exactly when the zero-extended boxes meet in every dimension |
| Cube.ContainsV0 | contrib/cube/cube.c:1067-1102 | true exactly for containment in the common dimensions with zero in the extra dimensions of the inner box |
| CubeOrder.CmpV0 | contrib/cube/cube.c:880-957 | lower sides, upper sides, extra dimensions against zero, then dimensions |
| CubeOrder.OrderZero | contrib/cube/cube.c:880-957 | zero exactly for the same dimension and sides |
| CubeOrder.OrderReverse | contrib/cube/cube.c:880-957 | swapping the operands negates the result, across dimensions too |
| CubeOrder.OrderMeans | contrib/cube/cube.c:880-957 | negative exactly when the first box has the smaller side at the first difference, in the order lower sides and upper sides of the common dimensions, lower and upper sides of the others, or no difference and fewer dimensions |
| CubeOrder.OrderTransitive | contrib/cube/cube.c:880-957 | transitive, strictly where one side is strict, for three boxes of which two have the smallest dimension, or one has dimension zero and the others the same |
| CubeOrder.IncompatibleCycle | contrib/cube/cube.c:880-957 | every other combination of three dimensions has boxes that compare in a circle |
| CubeOrder.OrderIff | contrib/cube/cube.c:880-957 | no boxes with dimensions from a set compare in a circle if and only if the set has at most one dimension besides zero |
| CubeIndex.LeafConsistent | contrib/cube/cube.c:622-648 | the decision on a leaf is the operator |
| CubeIndex.InternalConsistent | contrib/cube/cube.c:651-675 | the decision on an inner key |
| CubeIndex.NeverLoses | contrib/cube/cube.c:651-675 | no inner key above a matching leaf is rejected; for contained-by, if zero is in the dimensions that only the query has |
| CubeIndex.ContainedByIff | contrib/cube/cube.c:651-675 | a contained leaf is found under every key that covers it if and only if zero is in the dimensions that only the query has |
| CubeIndex.ContainedByMissed | contrib/cube/cube.c:651-675 | a leaf and a query where it is not found |
| CubePoints.OverlapMeans | contrib/cube/cube.c:1137-1172 | two boxes overlap exactly when they have a common point |
| CubePoints.ContainsMeans | contrib/cube/cube.c:1067-1102 | a box contains another exactly when it has all its points, dimensions of its own left aside |
| CubePoints.UnionIsLeast | contrib/cube/cube.c:691-748 | the union covers both boxes, and every key that covers both covers it |
| CubePoints.PruningIsTight | contrib/cube/cube.c:651-675 | a key is descended into exactly when some box that it covers satisfies the query, for overlap and contains; for contained-by, when one does that meets the query; a key that covers the query passes for equality, and only such a key has an equal box under it |
| CubeDistance.DistanceIsGap | contrib/cube/cube.c:1446-1458 | the one-dimensional distance is the gap between the intervals, corners in any order |
| CubeDistance.DistanceTaxicab | contrib/cube/cube.c:1245-1286 | the smallest sum of coordinate differences between a point of one box and a point of the other, both with zeros in missing dimensions |
| CubeDistance.DistanceChebyshev | contrib/cube/cube.c:1289-1338 | the smallest largest coordinate difference between such points |
| CubeDistance.DistanceSquared | contrib/cube/cube.c:1196-1242 | the smallest sum of squared coordinate differences between such points, whose square root is the result |
| CubeDistance.DistanceIsMinimum | contrib/cube/cube.c:1196-1338 | in all three metrics no two points of the boxes are nearer than the sum over the gaps, and two points are that near |
| CubeDistance.KeyIsNearer | contrib/cube/cube.c:1341-1443 | in all three metrics a key built by unions is at most as far from the query as every leaf below it |
| CubeDistance.KeyIsNearerEuclid | contrib/cube/cube.c:1341-1443 | so is the Euclidean distance itself, the nonnegative number with that square |
| CubeDistance.LeafCoordinate | contrib/cube/cube.c:1348-1416 | a leaf returns the chosen side with the sign of the coordinate, zero for a missing dimension |
| CubeDistance.CoordinatesInTurn | contrib/cube/cube.c:1348-1416 | coordinates 1, 2, 3, 4 and so on of a leaf are the smaller and the larger corner value of each dimension in turn, negative coordinates their opposites |
| CubeDistance.CoordinateIsLower | contrib/cube/cube.c:1348-1416 | the signed coordinate of a key is at most that of every leaf below it |

## Left out

- The replay controller, redo and remote-procedure code that the repository's README.md describes: its sources are not part of this model.
- Buffer manager, write-ahead log, memory contexts, toasting, error texts, catalog lookups and call glue: plain values or error results.
- bloom: index options parsing, cost estimation and the metapage's physical layout; the hash functions of operator classes are parameters.
- BloomRuns.BulkDeleteIsComplete: assumes that no insertion stores a heap pointer that the running deletion calls dead.
- intarray operators on arrays (sort, subarray, idx and the like), penalty and picksplit: heuristics or easy loops.
- IntQuery.Execute: needs links that fit int16; for longer ones IntQueryLinks.OversizedRoot states what is computed when the root alone is concerned, and RunReads wherever an expression can be read.
- g_int_union sorts and uniques with library routines: its result is taken as any increasing array with the elements of all entries.
- IntRangeCompress.Decompress: leaf arrays of odd length with at least twice num_ranges elements are excluded, because the source then takes the last range end from beyond the array.
- IntRangeLeaf.ReadLeaf: the same odd lengths are excluded.
- IntRangeIndex.SearchIsComplete: the tree has no leaf of such an odd length, and its keys could be read without an error.
- IntRangeIndex.PruningIsTight: for queries with negations the inner test is only stated not to lose arrays (IntRangeIndex.NeverLoses).
- IntBig.SearchIsExact: queries with negations are excluded, because the signature test counts a negation as true.
- hstore: the packed value as one block of memory (the writer keeps entries and bytes apart), binary input and output, conversion to arrays, records and JSON, the GiST and GIN classes, hashing.
- HstoreText.HSParser.GetVal: white space is that of the C locale; pointers have eight bytes, which fixes the size of a pair and with it the limit on pairs.
- HstorePairs.UniquePairs: the flag that marks pairs to be freed is left out; which of several values wins for one key depends on the sort and is left open.
- HstoreCompat.Value.Upgrade: entry layout of little-endian machines; a count that claims more entries than can be read is not modelled.
- amcheck: the mode with concurrent changes, the comparison with the heap, the independent search for every tuple, posting lists, tuple sizes and attribute counts, indexes of versions before 4 (equal siblings).
- BtreeCheck.CheckState.HighKeyMatches: in the last call of a level, which has no downlink, the source compares with a line pointer that does not exist; the model lets the page pass, which allows more.
- BtreeTree.CheckEveryLevel: loops have a number of steps; a circle of pages without downlinks is shown to be necessary for one on the child level to run on, not sufficient; pages that lack the items their flags call for are rejected; block 0 is never a tree page.
- BtreeTree.SeparatorsLead: downlinks to block 0 are excluded, because the check takes one for the end of the child level; incomplete splits, half-dead and deleted pages are excluded on the two levels walked, not elsewhere in the index.
- BtreeSearch.SearchTakesRoute: the same pages are excluded on all levels walked.
- BtreeExact.CheckSettled: the exact condition is stated for trees without pending splits and deletions; for the others BtreeTree.CheckEveryLevel states acceptance page by page.
- btree_gist: text in multibyte encodings, bit strings, the fixed-length types and penalty.
- VarKeySplit.PickSplit: takes the entries in sorted order; the offsets they came from are not carried along.
- cube: text input and output, intersection, enlargement, subsets, penalty and picksplit; NaN and rounding.
- CubePoints.PruningIsTight: for equality the inner test can pass although no equal box is under the key.
- CubeDistance.CoordDistance: the coordinate INT_MIN is not modelled, whose negation leaves int in the source.
- CubeDistance.DistanceSquared: stops before the square root, which KeyIsNearerEuclid takes by its meaning.
- ltree, pg_trgm, fuzzystrmatch and the other contrib modules.
