# LF core library: models and proofs

Dafny models of the parts of the LF library that rest on invariants, and proofs of what these parts promise:

- **The lock-free hash map** (`src/hash_map.cc`, `src/alloc_pin.cc`, `src/dyn_array.cc`, `include/lf/bit_util.hh`). One sorted list holds all
  elements, buckets are dummy nodes in it, a deletion marks and then unlinks, and an unlinked node waits until no thread has it pinned.
  The model (`HashListState`) is a state machine with one step for each load, store or CAS on shared memory, for any number of threads; nodes
  are addresses that are freed, pooled and handed out again. `PinStack` and `DynArray` are machines of the same kind for the stack of free `Pins` and
  for the four-level array that holds them.
- **Exact decimals** (`src/decimal.cc`): addition, subtraction, comparison, multiplication, division, remainder, rounding, the byte format
  that sorts, and the text form. A `Decimal` is a class with the fields of `decimal_t` and a buffer of base-10^9 words; the methods do what the source does to the
  buffers, and their contracts speak of the number as an integer of whole words (`Magnitude`) and of its count of fraction words.
- **Parts of the Masstree** (`include/masstree`): the doubly linked list of leaves whose pointers are locked by marks, node splits, the
  permutation packed into one 64-bit word, and the version word with its optimistic readers.
- **The big integers of dtoa** (`src/dtoa.cc`, with 32-bit limbs): the division step for one digit, and all that it rests on.
- **The calendar** (`src/time.cc`): day numbers, dates from day numbers, adding an interval of the time family, and the text form of dates and times.

`dafny verify dfyconfig.toml` checks everything; each file needs only the other `.dfy` files.

## Model

The runs of the state machines are sequences of states, each next one by a step of one thread or by a new thread. Contracts of methods that
change objects speak of the old and of the new state; the properties of the functions they use are lemmas.

| member | source | states |
|---|---|---|
| `HashListRun.InvRun` | src/hash_map.cc:70-145 | in every reachable state the list is strictly sorted by reversed hash and key, every search position is one from which the target can still be found, and every address is in exactly one place |
| `HashListSafety.PinnedIsNeverFreed` | src/alloc_pin.cc:212-276 | no node that some thread has pinned and validated, or copied from such a pin, is ever in a chain given to the free function, though the scan reads the pins one at a time while others move |
| `HashListSafety.TouchedIsHeld` | src/hash_map.cc:79-143 | whatever a search dereferences is in the list or marked and not yet reclaimed |
| `HashListSafety.PinnedIsStable` | src/alloc_pin.cc:46-56 | while a pin stays validated, the node keeps its incarnation, hash and key |
| `HashListSafety.RetiredOnce` | src/alloc_pin.cc:185-203 | a node that is retired twice has been handed out again in between |
| `HashListSafety.DeletedIsUnreachable` | src/hash_map.cc:304-350 | once a deletion is about to report success, its node never is in the list again in that incarnation |
| `HashListSafety.AllocatedIsExclusive` | src/alloc_pin.cc:362-395 | a node popped from the pool or made belongs to one operation: it is not in the list, not in the pool, in no purgatory and with nobody else |
| `HashListSafety.RetiredWaitsOnce` | src/alloc_pin.cc:212-303 | reclaiming conserves nodes: what a thread has retired waits in its purgatory or its scan exactly once, with nobody else, and at the next step still waits or is in the pool, which has it once |
| `HashListReclaim.ScanFreesUnpinned` | src/alloc_pin.cc:212-276 | a scan divides the purgatory it began with: what no read of a pin during the scan found is given to the free function when it ends, what some read found waits again |
| `HashListReclaim.EveryPinIsRead` | src/alloc_pin.cc:212-276 | before anything is freed every pin of every `Pins` there was at the beginning has been read; a scan takes at most one step for each pin there is |
| `HashListReclaim.FreedReachPool` | src/alloc_pin.cc:283-320 | a chain given to the free function stays as it is until one step brings all of it to the front of the pool |
| `HashListReclaim.UndisturbedPush` | src/alloc_pin.cc:283-320 | the second step after the load of `top_` succeeds, unless `top_` has another value by then |
| `HashListReclaim.WaitingIsBounded` | src/alloc_pin.cc:198-276 | in every reachable state a thread has at most 4 nodes for each `Pins`, and 10 more, that are retired and not yet in the pool |
| `HashListReclaim.TenthBeginsScan` | src/alloc_pin.cc:198-203 | a retirement begins a scan exactly if it makes the count of the purgatory a multiple of ten |
| `HashListPins.PinsAreReleased` | src/hash_map.cc:295-376 | between operations a thread has no pins but pin 2 after a search |
| `HashListResult.FoundStaysValid` | src/hash_map.cc:363-376 | what a search has returned is the node with the hash and key it was asked for, in the list or marked and not reclaimed, and in no chain given to the free function, until the pin is taken back |
| `HashListResult.SearchStartsAtBucket` | src/hash_map.cc:463-531 | an operation searches from the bucket of its hash number, in a table of the size it loaded |
| `HashListPins.PoolIsUsedFirst` | src/alloc_pin.cc:362-395 | `malloc` gives a node for an element only when the pool is empty |
| `HashListPins.PopSucceeds` | src/alloc_pin.cc:362-395 | the CAS of an allocation takes the first node of the pool if that still is the one it read |
| `HashListSafety.BucketRecursionIsShallow` | src/hash_map.cc:663-694 | bucket creation recurses at most 32 deep, to ever smaller buckets |
| `HashListEffect.StepEffect` | src/hash_map.cc:254-350 | an insert CAS adds exactly its own node, which was not there; a mark CAS removes exactly the node with the operation's key; no other step changes what is stored |
| `HashListHistory.SetStep` | src/hash_map.cc:254-350 | the same by keys: a step changes at most the key of its operation, an insertion only from absent to present, a deletion only from present to absent |
| `HashListLinear.OperationsLinearize` | src/hash_map.cc:463-568 | every decided operation has a moment between its call and its return at which its result is that of the operation on the set, and changes the set in at most one step |
| `HashListLinear.ChangesOnce` | src/hash_map.cc:254-350 | an operation whose CAS has changed the set makes no other such CAS |
| `HashListPath.ListIsReachable` | src/hash_map.cc:70-145 | what is in the list is exactly what is reached from cell 0 by links |
| `HashListPath.WalkIsSorted` | src/hash_map.cc:70-145 | following the links, ranks rise strictly |
| `HashListPath.StartDoesNotMatter` | src/hash_map.cc:517-531 | searches from any two nodes before the target stop at the same node |
| `HashListPath.ResizeIsInvisible` | src/hash_map.cc:463-531 | for every power-of-two size, a search from the bucket's dummy stops where a search from the head of the list stops |
| `HashListPath.StopFindsKey` | src/hash_map.cc:363-376 | the key is stored exactly if the node where the search stops is unmarked and has it |
| `HashListCount.QuiescentCount` | src/hash_map.cc:463-568 | when no operation is under way, `count_` is the number of stored elements |
| `HashListGrowth.DoublesWhenLoaded` | src/hash_map.cc:463-493 | the size of the table only ever doubles, and only after an insertion has counted more elements than that size |
| `HashListGrowth.LoadedDoubles` | src/hash_map.cc:463-493 | an insertion that counts more elements than the size it loaded leaves a table of at least twice that size |
| `SplitOrder.BucketBeforeKey` | src/hash_map.cc:463-493 | the dummy of bucket `hashnr % size` is before every element of the bucket |
| `SplitOrder.ParentComesFirst` | src/hash_map.cc:663-694 | the parent bucket has a smaller number, and its dummy is earlier in the list |
| `SplitOrder.SplitBucket` | include/lf/bit_util.hh:10-27 | when the table doubles, the elements of a bucket stay or go to a bucket whose parent it is |
| `BitUtil.ReverseBitsMirrors` | include/lf/bit_util.hh:10-20 | the table look-up reverses the 32 bits of a word |
| `BitUtil.ClearsHighestBit` | include/lf/bit_util.hh:21-27 | smearing and shifting clears exactly the highest bit |
| `BitUtil.BucketIsInterval` | include/lf/bit_util.hh:10-27 | the elements of a bucket are exactly an interval of reversed hashes |
| `KeyOrder.RankIsSearchOrder` | src/hash_map.cc:10-22 | the comparisons of a search are the order and the equality of one real number for each hash and key |
| `PinStack.NoSharedPins` | src/alloc_pin.cc:95-177 | at every moment no two callers have the same `Pins`, none in hand is on the stack, and every `Pins` ever made is in exactly one place |
| `PinStack.LastInFirstOut` | src/alloc_pin.cc:95-177 | every change of the stack is that of one caller, who takes the first `Pins` and has it then, or puts the one it had in front |
| `PinStack.NewPinsOnlyIfEmpty` | src/alloc_pin.cc:95-138 | a new `Pins` is made only by a caller that found the stack empty |
| `PinStack.VersionComesRound` | src/alloc_pin.cc:95-177 | the limit of the version: a run in which 65536 changes of the stack between a load and its CAS give a `Pins` in hand out again |
| `DynArray.PlaceIsUnique` | src/dyn_array.cc:57-105 | two indices have the same level, path and offset only if they are the same |
| `DynArray.OneElementPerIndex` | src/dyn_array.cc:57-135 | whatever callers install arrays at once, two calls return the same element exactly if they were given the same index |
| `DynArray.ScanVisitsAll` | include/lf/dyn_array.hh:38-69 | a scan that reads the cells one at a time, while callers install arrays, passes every element that had been returned before it started |
| `DecimalSigned.Add` | src/decimal.cc:1981-2218 | for every operand: the exact signed sum with the larger scale, well formed; or, with room for the integers only, the sum of both operands cut towards zero, and exactly when it is -0; exactly when which error is reported, by the sizes and leading words; exactly when a word in front of the buffer is written |
| `DecimalSigned.Sub` | src/decimal.cc:2061-2218 | the same for the difference |
| `DecimalSigned.FrontOfBuffer` | src/decimal.cc:2061-2204 | [5, 0, 0] - [4, 1, 1] into one word writes in front of it |
| `DecimalSigned.PositiveOverflow` | src/decimal.cc:1981-2059 | -999999999 + -1 into one word overflows to the positive 999999999 |
| `DecimalSigned.NegativeZeroDifference` | src/decimal.cc:2061-2204 | a difference that is cut off to nothing is -0 |
| `DecimalSigned.Cmp` | src/decimal.cc:2220-2230 | the order of the values, whatever leading and trailing zeros |
| `DecimalMul.DecimalMul` | src/decimal.cc:2263-2378 | the exact product, cut off at scale 31, with its sign, and exactly when it is well formed; or, with room for the integers only, the product of what is left of the factors when the words that are missing are taken from both fractions by halves; exactly when which error is reported |
| `DecimalMul.ProductIsWellFormed` | src/decimal.cc:2263-2378 | with scales of at most 31 together the product is well formed; beyond, exactly when it is a negative zero or keeps digits that are not its own |
| `DecimalMul.NegativeZeroSquare` | src/decimal.cc:2345-2378 | -10^-20 times 10^-20 is -0 |
| `DecimalMul.DigitBeyondScale` | src/decimal.cc:2263-2378 | 10^-16 squared keeps a digit behind its scale |
| `DecimalDivMod.DecimalDiv` | src/decimal.cc:2390-2678 | q with q * divisor <= dividend < (q + 1) * divisor at the scale of the result, its sign and its scale; each error exactly, by the sizes and leading words of the operands; exactly when the result is not well formed, by the operands |
| `DecimalDivMod.ScaleIsLeast` | src/decimal.cc:2456-2510 | the scale of a quotient is the least number of whole words that has room for the fraction words of both operands and covers their scales with the increment that is asked for |
| `DecimalDivMod.QuotientIsUnique` | src/decimal.cc:2390-2678 | operands and scale leave one quotient |
| `DecimalDivMod.QuotientIsZero` | src/decimal.cc:2390-2678 | exactly which quotients are cut off to zero |
| `DecimalDivMod.HalfWithoutScale` | src/decimal.cc:2390-2678 | 1 / 2 without a scale has no digits at all |
| `DecimalDivMod.NegativeZero` | src/decimal.cc:2390-2678 | -1 / 10^18 with one fraction word is -0 |
| `DecimalModulo.DecimalMod` | src/decimal.cc:2390-2734 | for every operand and buffer: dividend minus remainder is a whole multiple of the divisor and the remainder is smaller than it, with the dividend's sign; exactly when it is cut off, and to what, and exactly when it is not well formed; exactly when it overflows, with the integer digits that `to` had before; exactly when words behind the buffer are written |
| `DecimalModulo.MinusOneModOne` | src/decimal.cc:2600-2678 | -1.0 modulo 1.0 is -0.0 |
| `DecimalModulo.FourModTwo` | src/decimal.cc:2600-2678 | 4 modulo 2 has no digits at all |
| `DecimalModulo.BehindTheBuffer` | src/decimal.cc:2600-2678 | a remainder with 36 fraction digits, 27 of them leading zeros, is written behind a buffer of three words |
| `DecimalModulo.StaleSeven` | src/decimal.cc:2600-2678 | 1000000005 modulo 2000000000 into one word overflows and leaves the 7 of before |
| `DecimalSortable.MemcmpIsOrder` | src/decimal.cc:1320-1380 | byte order of two encodings is the order of the two numbers, negative ones included |
| `DecimalFormat.BinSizeIsLeast` | src/decimal.cc:1687-1700 | the size of an encoding: each whole word and each rest of a word takes the fewest bytes that hold all numbers of so many digits and leave the top bit free |
| `DecimalToBin.Decimal2Bin` | src/decimal.cc:1382-1519 | the bytes are the encoding, in the format, of the last integer digits and the first fraction digits that it has places for; without an error of the whole number; each error exactly by the value and the sizes |
| `DecimalToBin.IntegerPartIs` | src/decimal.cc:372-393 | the integer words are the quotient of the whole number by its scale |
| `DecimalBinary.Bin2Decimal` | src/decimal.cc:1538-1664 | of any bytes: rejected exactly if a field is out of its range, else the number the fields say; of an encoding: its number, cut off to the buffer |
| `DecimalRoundTrip.EncodingsSort` | src/decimal.cc:1382-1519 | the encodings of two well-formed numbers stored with the same scale compare as the numbers compare |
| `DecimalOrder.MemcmpIsStored` | src/decimal.cc:1320-1380 | byte order of two encodings of equal width, whatever their scales, is the order of the numbers that are stored |
| `DecimalOrder.StoreTwo` | src/decimal.cc:1382-1519 | two numbers stored with the same precision and scale compare by their bytes as `decimal_cmp` compares them exactly if their signs, or their words but for the last, differ, or the stored last words compare as the last words do; they do if neither has digits beyond the scale |
| `DecimalOrder.WrongOrder` | src/decimal.cc:1382-1519 | 0.12 and 0.2 in a format of one fraction digit are the bytes 140 and 130 |
| `DecimalOrder.EqualNumbers` | src/decimal.cc:1382-1519 | 0.10 and 0.1 in that format are the bytes 138 and 129 |
| `DecimalRoundTrip.RoundTrip` | src/decimal.cc:1382-1664 | storing and reading: exactly when storing succeeds and exactly when the value comes back |
| `DecimalRoundTrip.OverlongExample` | src/decimal.cc:1382-1664 | 0.12 is stored in a format of one fraction digit without an error and then rejected |
| `DecimalRounded.DecimalRound` | src/decimal.cc:1720-1935 | the number rounded at any scale, in place or not, with its sign and scale; exactly when it overflows or loses a word, and exactly when a word behind the buffer is written |
| `DecimalRounded.ZeroBehind` | src/decimal.cc:1905-1920 | 0.04 in one word, rounded at one digit, writes a second one |
| `DecimalRounded.SixTenths` | src/decimal.cc:1720-1935 | 0.55 there is rounded to 0.6 |
| `DecimalRounded.RoundingIsNearest` | src/decimal.cc:1720-1935 | HALF_UP is the nearest multiple, the one farther from zero of two; TRUNCATE is the multiple towards zero |
| `DecimalRounded.CeilingAndFloor` | src/decimal.cc:1720-1935 | exactly when CEILING and FLOOR are that |
| `DecimalRounded.CeilingMissesDigits` | src/decimal.cc:1835-1860 | 1.005 rounded up at one digit is 1.0 |
| `DecimalRounded.HalfEvenIsEven` | src/decimal.cc:1720-1860 | HALF_EVEN is the nearest multiple, and the even one of two, exactly if the first dropped digit is not a five that is more than a half behind an even digit, and no tie behind an odd digit is cut off in whole integer words |
| `DecimalRounded.TwoFiftyOne` | src/decimal.cc:1812-1826 | 2.51 is rounded half-even to 2 |
| `DecimalRounded.BillionAndAHalf` | src/decimal.cc:1841-1854 | 1500000000 is rounded half-even to 1000000000 when nine digits are cut off |
| `DecimalPrint.Decimal2String` | src/decimal.cc:447-560 | with a variable width: the decimal numeral of the number; with too little room that of the number cut off after as many fraction digits as fit; with too little room for the integer digits exactly which of them are printed; exactly when which error is reported |
| `DecimalPrint.FirstDigitsPrinted` | src/decimal.cc:488-560 | those are the leading digits if the ones left out fill whole words |
| `DecimalPrint.FivePlaces` | src/decimal.cc:447-560 | of 1234567890123 in five places 01234 is printed |
| `DecimalParse.Str2Dec` | src/decimal.cc:910-1035 | of any text, up to an exponent: rejected exactly if it has no digits, else the number its digits say, cut off to the buffer, never -0; exactly when which error is reported, and whether an exponent follows. Which digits these are say the next two |
| `DecimalGrammar.ReadsTheParts` | src/decimal.cc:915-945 | of a text that is blanks, a sign, digits, a point, digits and something else, each as long as can be, it reads just these digits, and the number is negative exactly after a minus sign |
| `DecimalGrammar.EveryTextSplits` | src/decimal.cc:915-945 | every text has such parts |
| `DecimalText.PrintThenParse` | src/decimal.cc:447-1057 | printing and reading gives back value, scale and sign; exactly when there is room for it |
| `DecimalText.HalfIntoOneWord` | src/decimal.cc:447-1057 | 0.5, which takes one word, is printed and not read back into one |
| `LeafLinkRun.InvRun` | include/masstree/mt_leaflink.hh:26-85 | in every reachable state `next` spells the order of the leaves but for marks, and `prev` lags behind only where an operation owes it |
| `LeafLinkRun.MarkIsOnPredecessor` | include/masstree/mt_leaflink.hh:67-85 | the CAS of an unlink that succeeds is on the true predecessor |
| `LeafLinkRun.QuiescentInverse` | include/masstree/mt_leaflink.hh:46-85 | with no operation under way, `next` and `prev` are inverse and spell the order |
| `LeafLinkWait.WaitsForLower` | include/masstree/mt_leaflink.hh:31-44 | a spinning thread waits for a busy one that does not spin or stands farther left |
| `LeafLinkWait.NoWaitingCycle` | include/masstree/mt_leaflink.hh:31-85 | no cycle of spinning threads |
| `LeafLinkWait.SomebodyMoves` | include/masstree/mt_leaflink.hh:31-85 | while any operation is under way, one is not held up |
| `LeafLinkWait.MoverAdvances` | include/masstree/mt_leaflink.hh:31-85 | an operation that is not held up leaves its loop within three steps of its own |
| `LeafLinkWait.OrderStep` | include/masstree/mt_leaflink.hh:48-85 | no step changes the order of the leaves that stay, and the first leaf stays |
| `LeafLinkWait.OrderSet` | include/masstree/mt_leaflink.hh:48-85 | the leaves in the list change only by the new leaf of a split and by the leaf whose unlink is done |
| `LeafLinkWait.OrderGain` | include/masstree/mt_leaflink.hh:48-61 | a new leaf comes right behind the one that was split |
| `LeafSplit.SplitInsert` | include/masstree/mt_split.hh:35-103 | with the fix-up of the permutation and `finish_insert`: left ++ right is the old content with the new entry inserted, equal ikeys stay together, `split_ikey` is the first on the right, and the place is the nearest such one to the intended; which slot of the left leaf the new entry takes, if it stays there |
| `LeafSplit.GrowsAtItsEnds` | include/masstree/mt_split.hh:48-78 | the first leaf that grows in front, and the last that grows at its end, leave the new entry alone in a leaf; any other full leaf is halved |
| `LeafSplit.SplitSeparates` | include/masstree/mt_split.hh:35-103 | in a sorted leaf exactly the entries on the left are below `split_ikey` |
| `LeafSplit.FirstSlotSpared` | include/masstree/mt_split.hh:161-264 | the slot with the leaf's lower bound is not given to the new entry, when the entries are in order and the bound is one |
| `LeafSplit.FirstSlotTaken` | include/masstree/mt_split.hh:161-264 | it is given to it exactly if the leaf has 15 entries and the last of them is there |
| `InterSplit.SplitInsert` | include/masstree/mt_split.hh:115-159 | left ++ [split_ikey] ++ right are the old keys with the new one inserted; the same for the children; the lengths of the two sides differ by at most one, but for a split of type 2, which leaves no key on the right |
| `InterSplit.Insert` | include/masstree/mt_split.hh:205-240 | the insertion without a split |
| `Kpermuter.AlwaysPermutation` | include/masstree/kpermuter.hh:54-198 | every sequence of operations on words keeps a permutation and a size of at most 15 |
| `Kpermuter.WordHasEffect` | include/masstree/kpermuter.hh:94-198 | each word operation does what its plain sequence operation says |
| `Kpermuter.Permuter.InsertFromBack` | include/masstree/kpermuter.hh:104-111 | the last element moves to position i, those from i on one place back; the size grows |
| `Kpermuter.Permuter.Remove` | include/masstree/kpermuter.hh:137-151 | the element at i moves behind the others in use; the size shrinks |
| `Kpermuter.Permuter.RemoveToBack` | include/masstree/kpermuter.hh:157-164 | the same to the very end |
| `Kpermuter.Permuter.Rotate` | include/masstree/kpermuter.hh:170-180 | the elements from i on, rotated so that j comes first |
| `Kpermuter.Permuter.Exchange` | include/masstree/kpermuter.hh:182-188 | two positions exchanged |
| `Kpermuter.Permuter.ExchangeValues` | include/masstree/kpermuter.hh:190-200 | two values exchanged, wherever they are |
| `Kpermuter.SelectedNeedsOrder` | include/masstree/kpermuter.hh:112-128 | `insert_selected` keeps a permutation exactly if di <= si |
| `Kpermuter.ValueFrom` | include/masstree/kpermuter.hh:85-93 | the shifted word has the elements from i on, in order |
| `NodeVersion.NothingChanged` | include/masstree/nodeversion.hh:81-90 | if `has_changed` finds nothing, no insert or split was being made, was begun or finished in between |
| `NodeVersion.SplitIsSeen` | include/masstree/nodeversion.hh:91-101 | `has_split` misses no step that ends a split |
| `NodeMarks.MarkedSplitIsSeen` | include/masstree/nodeversion.hh:91-190 | after `mark_split` or `mark_deleted` and the unlock of the same holder, `has_split` is true of any word from before |
| `NodeMarks.MarkedChangeIsSeen` | include/masstree/nodeversion.hh:81-190 | after `mark_insert`, `mark_split` or `mark_deleted` and the unlock, `has_changed` is true of any word from before |
| `NodeMarks.ChangeIsVisible` | include/masstree/nodeversion.hh:45-55 | until that unlock the word is dirty, so that `stable` waits |
| `NodeMarks.MarkSets` | include/masstree/nodeversion.hh:154-209 | each mark sets or clears its own flags of the word and leaves the others |
| `NodeMarks.UnlockClears` | include/masstree/nodeversion.hh:138-152 | unlock clears the lock and the marks of a change, after a split the root flag too, and nothing else |
| `NodeMarks.DeletedStays` | include/masstree/nodeversion.hh:184-197 | after `mark_deleted` or `mark_deleted_tree` the deleted flag stays |
| `NodeMarks.DeletedByMark` | include/masstree/nodeversion.hh:184-197 | and it is set by nothing else |
| `NodeMarks.SplitOfInserts` | include/masstree/nodeversion.hh:91-152 | while there are only inserts, `has_split` reports a split exactly from the one on that carries out of the 16 bits that count them |
| `NodeVersion.UnlockedIsClean` | include/masstree/nodeversion.hh:114-158 | an unlocked word is never dirty, nor is the one a lock takes over |
| `NodeVersion.InsertsLookLikeSplit` | include/masstree/nodeversion.hh:91-158 | the 65536th insert looks like a split |
| `Bigint.Quorem` | src/dtoa.cc:1866-1925 | quotient and remainder of b < 10 * S, the estimate being off by at most one; exactly when no limb is left |
| `Bigint.NoLimbLeft` | src/dtoa.cc:1866-1925 | 0x08000000 by itself leaves no limb |
| `BigintScale.Scale` | src/dtoa.cc:2412-2439 | the shift dtoa computes from `hi0bits` gives S four leading zero bits and multiplies both numbers by the same power of two |
| `BigintScale.FirstDigit` | src/dtoa.cc:2412-2486 | the first digit is the quotient of the unscaled numbers, the rest their remainder, scaled |
| `BigintMul.Mult` | src/dtoa.cc:779-827 | the exact product, without leading zero limbs |
| `BigintMul.MultAdd` | src/dtoa.cc:607-637 | b * m + a, in a new number if the carry has no room |
| `BigintPow5.Pow5Mult` | src/dtoa.cc:867-908 | b * 5^k for every k, by the table and by squaring past its end |
| `BigintShift.LShift` | src/dtoa.cc:910-946 | b * 2^k |
| `BigintShift.Hi0Bits` | src/dtoa.cc:683-714 | the count of leading zero bits |
| `BigintDiff.Diff` | src/dtoa.cc:971-1021 | the distance of two numbers, and its sign |
| `Calendar.DaynrIs` | src/time.cc:930-951 | the closed form is the count of the days of all years, months and days before |
| `Calendar.DateIsUnique` | src/time.cc:930-951 | different dates have different numbers |
| `Calendar.GetDateFromDaynr` | src/time.cc:955-996 | the valid date with this number, or zeros outside the range |
| `Calendar.ThereAndBack` | src/time.cc:930-996 | a date comes back exactly if its number is below the limit |
| `Calendar.LastDay` | src/time.cc:930-951 | exactly the dates up to year 9999 have numbers up to 3652424 |
| `DateAdd.MyTime.AddInterval` | src/time.cc:571-631 | the time moves by exactly the seconds and microseconds of the interval, all fields in range; exactly when it is out of range |
| `DateAdd.SecondsAreMeant` | src/time.cc:571-631 | these are the seconds that are meant exactly if the days do not wrap |
| `DateAdd.DaysComeRound` | src/time.cc:571-631 | 1193047 days are taken for less than 13 hours |
| `DateText.DatetimeToStr` | src/time.cc:1003-1112 | the text of year, month, day and time, with `dec` fraction digits, in the form the next one says |
| `DateText.PrintedForm` | src/time.cc:1003-1112 | YYYY-MM-DD hh:mm:ss, and a point and `dec` digits |
| `DateText.StrToDatetime` | src/time.cc:179-529 | what any text that is accepted gives is in range and a date the flags allow; a text of one to seven numbers, separated by punctuation or side by side in their fixed widths, gives the numbers at their places, exactly if there are three, they are in range and the flags allow the date, and otherwise which warning |
| `DateText.DashedText` | src/time.cc:179-462 | y-m-d and y-m-d h:m:s are such texts; a year of two digits is one of 1970 to 2069 |
| `DateText.DigitsText` | src/time.cc:199-462 | and so are 6, 8, 12 and 14 digits: a year of two or four, and two digits for each other number |
| `DateText.ShortYears` | src/time.cc:179-529 | 99-12-31 23:59:59 is read as a time of 1999, 690102 as a day of 2069 |
| `DateText.StrictFlags` | src/time.cc:50-108 | without the flags for partial and invalid dates, exactly the valid dates and times are allowed, and the zero date |
| `DateText.PrintThenParse` | src/time.cc:179-1112 | every date and time comes back, truncated to `dec` fraction digits and without a warning, exactly if the flags allow the date |
| `DateText.ValidIsAccepted` | src/time.cc:50-108 | they allow every valid date of the years 0 to 9999 |
| `DateText.WrappedYear` | src/time.cc:283-312 | the year 18446744073709553640 is read as 2024 |

## Findings

Where the code does not do what its names or documentation say. The members named, or the contracts of the methods concerned, prove it.

- Subtraction: when both numbers have the same number of significant integer words, more than the result has words, and one of them ends in more
  zero integer words than that, `do_sub` writes in front of the result's buffer, besides reporting the overflow. The condition is
  `DecimalSigned.LeavesBuffer`, the input `FrontOfBuffer`. A truncated difference can be -0 (`NegativeZeroDifference`).
- Addition: a negative sum that overflows becomes the largest positive number (`DecimalSigned.PositiveOverflow`).
- Division: a quotient that is cut off to zero keeps its sign, so the result can be -0; without a fraction word it then has no digits at all
  (`intg` and `frac` are 0). The condition is in the contract of `DecimalDivMod.DecimalDiv`; 1 / 2 and -1 / 10^18 are the inputs.
- Modulus: a remainder of zero keeps the dividend's sign (-1.0 mod 1.0 is -0.0), and has no digits when neither operand has fraction words,
  because `make_zero` is followed by the removal of leading zeros. A fraction that fills the result's buffer exactly loses its last word. A
  fraction longer than the buffer, with two leading zero words or more, is written behind it. The Overflow exit leaves the digits of an earlier
  result. The conditions are in the contract of `DecimalModulo.DecimalMod`; `MinusOneModOne`, `FourModTwo`, `BehindTheBuffer` and `StaleSeven`
  are the inputs.
- Multiplication: a scale beyond 31 is cut to 31 without an error. What is left can be -0, or have digits behind its scale in its last word.
- Storing: when the number's scale is larger than the format's but needs as many bytes, `decimal2bin` stores the digits of the number's scale and
  reports no error. Reading then fails or gives another value, unless the last fraction word is zero; the bytes of two such numbers need not
  compare as the numbers (`DecimalOrder.WrongOrder`), and equal numbers need not have equal bytes (`EqualNumbers`). `bin2decimal` also accepts a
  first group that has one digit more than the format, and takes the product for a partial last group modulo 2^32.
- Rounding: CEILING and FLOOR look only at the first dropped digit when the cut is inside a word. HALF_EVEN takes 2.51 for a tie, for it looks at
  the first dropped digit only (`DecimalRounded.TwoFiftyOne`), and when the integer digits cut off are a multiple of nine it takes every digit in front for
  even (`BillionAndAHalf`); the exact condition is `HalfEvenIsEven`. A number without integer digits that is
  rounded to zero gets a word written behind a buffer that has only its fraction: exactly when `DecimalRounded.DecimalRound` returns `behind`,
  as for 0.04 (`ZeroBehind`) and not for 0.55 (`SixTenths`).
- Text: 0.5 is printed with a zero before the point, which takes a word when it is read; a number whose fraction fills its buffer does not come back
  into an equal one (`DecimalText.HalfIntoOneWord`). The condition is in the contract of `DecimalText.PrintThenParse`. When there is no room
  for the integer digits, those that are printed are neither the first nor the last (`DecimalPrint.FivePlaces`).
- Dates: a part of a date of 2^64 or more is taken modulo 2^64 (`DateText.WrappedYear`).
- `insert_selected` needs di <= si, which its documented precondition does not say.
- `has_split` reports a split after 65536 inserts.
- The interval's days are multiplied by 3600 in 32 bits, so from 1193047 days on a wrong interval is added. A result in the year 0 becomes the
  date 0000-00-00 without an error.
- `quorem` leaves no limb at all when the remainder of a one-limb number is zero; `cmp` and `diff` would then read outside of the number.
  `BigintDiff.Diff` requires a limb of both. `Bigint.Quorem` says exactly when that is, and `NoLimbLeft` is an input.
- `value_from(15)` shifts a word by its width; what it gives is not read (`LeafSplit.FillRight`).

## Scope

What the contracts take for granted, as the source does or as its callers ensure:

- Shared memory is sequentially consistent. Counters do not wrap (`count_`, `pins_in_array`), and the table stays below 2^31 buckets. `malloc`
  gives an address that is not in use and succeeds. The hash function is a parameter.
- The map is one with unique keys, the keys are shorter than 256 bytes (`lsearch` takes their length in a `uint8_t`), and each thread uses one
  `Pins`. The word of a freed node that links the purgatory is arbitrary for its readers.
- `NoSharedPins` holds as long as no CAS happens 65536 or more changes after its load (a condition on the run), and the two readers'
  theorems as long as the counter in the version word has not come round.
- The leaf list is one list; the lock of a leaf is held for the whole of an operation on it, the first leaf is not unlinked, and a leaf that
  is unlinked is not used again. A split leaf has not all its ikeys equal. `assign`, `assign_initialize` and `shift_from` copy an entry, and a key with
  its child, from one place to another. The parent pointers are not modelled.
- Decimals: result and operands have their own buffers (`DecimalRound` also works in place, and with buffers of equal length), and operands are
  well formed. Where the source would write outside of the result's buffer the method stops and returns `outside` or `behind`. The result of
  `DecimalMod` holds some number before, if only a zero.
- Intervals are small enough for 64-bit sums (`DateAdd.Small`).

## Left out

- DecimalMul.DecimalMul: of Overflow only that it is reported, exactly when the integer words do not fit; the words are then of no use.
- DecimalSigned.Add: on Overflow with different signs, of the result's words only that they are words.
- DecimalSigned.Sub: on Overflow with equal signs, of the result's words only that they are words.
- DecimalPrint.Decimal2String: the form with a fixed width and a filler is not modelled.
- DecimalParse.Str2Dec: what follows an exponent mark (`strtoint64`, `decimal_shift`), and the form with fixed digit counts.
- DateText.StrToDatetime: the rounding by a seventh fraction digit (`datetime_add_nanoseconds_with_round`), which a printed text does not have. Of texts of
  another form, and of what follows the numbers, only that what is accepted is in range and allowed.
- DynArray.ScanVisitsAll: the function that is called for each array never stops the scan.
- DynArray.OneElementPerIndex: alignment and freeing of the arrays are not modelled.
- DateAdd.MyTime.AddInterval: only intervals of the time family; day, month and year intervals would add easy cases.
- The text forms of times without a date, the packed forms of dates and times, time zones and clocks.
- `src/wfmcas.cc`, `include/lf/skiplist_mcas.hh`, `include/lf/limbo.hh`, `src/sort_list.cc`: unfinished, without the code they rest on, or a copy of
  the list modelled here.
- `lfind_match` and `random_match` of the hash map, and its destructor.
- Masstree searches, insertions and removals over the whole tree.
- Decimal shifts and conversions to and from floating point and integers; the floating-point parts of dtoa, its memory pool, 64-bit limbs.
- Loggers, environment and file helpers, status codes, hash mixing, random numbers.
