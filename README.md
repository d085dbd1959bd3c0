# Programming Pearls, columns 1 and 2, in Dafny

This project models the C programs of columns 1 and 2 of *Programming
Pearls*:

- **The bit set** (`bitset.c`): a fixed number of bits, stored in 32-bit
  words, with init, test, set, clear, toggle and reset.
- **`bitset_sort`**: reads numbers, sets their bits and prints the set bits
  in ascending order.
- **`unique_random`**: prints k distinct random integers below n. It does a
  partial Fisher–Yates shuffle of 0 .. n-1.
- **`missing_number_bitset`**: prints the least 32-bit value that does not
  occur in the input. It uses a bit set of 2^32 - 1 bits.
- **`missing_number_file`**: finds a missing value with little memory. It
  makes one pass per bit and splits the numbers into two temporary files
  by that bit. It then continues with the smaller file.
- **The comparators** (`compare.c`) and **the string signatures**
  (`common/stringsig.c`, `column02/stringsig.c`): a word's characters
  sorted with `qsort`.
- **`build_anagram_db` and `search_anagram_db`**: the first writes a
  database of anagram groups. The second loads that database and looks up
  the anagrams of a query word by binary search on the signature.

## How it is modelled

Pure logic is written as functions and lemmas. Code that changes state is
written as imperative Dafny:

- The bit set is the class `BitSets.BitSet`. Its words are an
  `array<bv32>`, and its abstract value is the set of members.
- The dictionary reader and the database loader fill arrays that grow by
  chunks of 1000, as `realloc` does.
- `qsort` on an array, the shuffle of `unique_random` and the loops of the
  programs are methods with loop invariants. Each is proved against a
  specification function.

Files are sequences of bytes or of parsed lines:

- `Support.Parse` stands for the verdict of `strtoll`/`strtoul` on a line.
- `rand()` is a function parameter.
- `missing_number_file` is parameterised by the width N of its numbers. The
  program uses N = 32.

The two anagram programs are connected by the lemma
`AnagramDb.DictionaryQuery`. For a dictionary of clean lines, querying the
database built from the sorted pairs prints exactly the query's other
anagrams. It prints them only when the dictionary holds two or more
anagrams of the query.

## Model

| member | source | states |
|---|---|---|
| BitSets.NumUnitsIsCeiling | src/column01/bitset.c:14 | BS_NUM_BYTES allocates ceil(n/32) words: enough for n bits and no word more |
| BitSets.UnitPosInRange | src/column01/bitset.c:15 | every index below n falls in an allocated word |
| BitSets.BitPos | src/column01/bitset.c:16 | the bit position inside a word is below 32 |
| BitSets.IndexMappingInjective | src/column01/bitset.c:15-16 | two different indices never share a word and a position |
| BitSets.OrBit | src/column01/bitset.c:79 | `w \| (1 << b)` sets bit b and keeps every other bit |
| BitSets.AndNotBit | src/column01/bitset.c:96 | `w & ~(1 << b)` clears bit b and keeps every other bit |
| BitSets.XorBit | src/column01/bitset.c:113 | `w ^ (1 << b)` flips bit b and keeps every other bit |
| BitSets.ZeroWord | src/column01/bitset.c:37 | a zeroed word has no bit set |
| BitSets.GuardAsWrittenOverruns | src/column01/bitset.c:60 | when n is a multiple of 32, the guard `index > n` lets index n through to the word just past the allocation |
| BitSets.GuardInBounds | src/column01/bitset.c:75 | the corrected guard `index < n` admits only allocated words |
| BitSets.MembersOf | include/bitset.h:14-19 | the members of a word array are all below n |
| BitSets.InMembersOf | src/column01/bitset.c:59-65 | i is a member iff i < n and bit i is set in its word |
| BitSets.OrAt | src/column01/bitset.c:79 | or-ing a mask into a word changes only that word's bit, in the whole array |
| BitSets.AndNotAt | src/column01/bitset.c:96 | and-ing the complement changes only that word's bit, in the whole array |
| BitSets.XorAt | src/column01/bitset.c:113 | xor-ing the mask flips only that word's bit, in the whole array |
| BitSets.SetAt | src/column01/bitset.c:74-82 | after bs_set's update, bit i is set iff i is the index or was set |
| BitSets.ClearAt | src/column01/bitset.c:91-99 | after bs_clear's update, bit i is set iff i is not the index and was set |
| BitSets.ToggleAt | src/column01/bitset.c:108-116 | after bs_toggle's update, only the index's bit has flipped |
| BitSets.SetInWords | src/column01/bitset.c:74-82 | bs_set's word update adds exactly the index to the members |
| BitSets.ClearInWords | src/column01/bitset.c:91-99 | bs_clear's word update removes exactly the index |
| BitSets.ToggleInWords | src/column01/bitset.c:108-116 | bs_toggle's word update flips exactly the index's membership |
| BitSets.Flip | src/column01/bitset.c:113 | the flipped set holds x iff the old one did not, and agrees on all else |
| BitSets.ZeroWords | src/column01/bitset.c:37 | zeroed storage holds no members |
| BitSets.BitSet.constructor | include/bitset.h:14-19 | the object's initial state before Init: no bits and no storage (in C the fields of `BitSet bs;` are indeterminate, and every program calls bs_init before any other operation) |
| BitSets.BitSet.Init | src/column01/bitset.c:25-41 | fails iff n is 0; otherwise fresh, zeroed storage of n bits and no members |
| BitSets.BitSet.IsSet | src/column01/bitset.c:59-65 | true iff the index is a member |
| BitSets.BitSet.Set | src/column01/bitset.c:74-82 | succeeds iff index < n; the members gain the index and nothing else |
| BitSets.BitSet.Clear | src/column01/bitset.c:91-99 | succeeds iff index < n; the members lose the index and nothing else |
| BitSets.BitSet.Toggle | src/column01/bitset.c:108-116 | succeeds iff index < n; the index's membership flips and nothing else changes |
| BitSets.BitSet.Reset | src/column01/bitset.c:124-126 | succeeds and leaves no members |
| BitSets.ToggleTwiceRestores | src/column01/bitset.c:108-116 | toggling twice restores the members |
| BitSets.ClearIsIdempotent | src/column01/bitset.c:91-99 | clearing twice is clearing once; the index is then absent |
| BitsetSort.StoredIsRecordedValues | src/column01/bitset_sort.c:31-43 | x is in the bit set iff some line recorded x |
| BitsetSort.StoredOrderIndependent | src/column01/bitset_sort.c:31-43 | the stored set depends only on which lines occur, not on their order or repetition |
| BitsetSort.Listing | src/column01/bitset_sort.c:46-50 | the output holds exactly the members below MAX_VALUE, strictly ascending |
| BitsetSort.ReadNumbers | src/column01/bitset_sort.c:31-43 | succeeds iff every line parses; the bit set then holds the stored values |
| BitsetSort.ListMembers | src/column01/bitset_sort.c:46-50 | prints the listing of the bit set's members |
| BitsetSort.SortNumbers | src/column01/bitset_sort.c:21-56 | a parse failure, or the sorted, deduplicated values below MAX_VALUE |
| BitsetSort.PrintedAreSortedInputs | src/column01/bitset_sort.c:28-50 | a successful run prints exactly the input values below MAX_VALUE (mod 2^32), each once and in ascending order |
| BitsetSort.MaxValueOverrunsAsWritten | src/column01/bitset_sort.c:16 | MAX_VALUE is a multiple of 32, so bs_set(MAX_VALUE) passes the guard as written and writes past the allocation |
| MissingNumberBitset.NoErrorMeansAccepted | src/column02/missing_number_bitset.c:49-74 | a run without error read at most MAX_VALUE lines, each a number in [0, MAX_VALUE] |
| MissingNumberBitset.StoredIsInputsBelowMax | src/column02/missing_number_bitset.c:73 | x is in the bit set iff x < MAX_VALUE and some line holds x |
| MissingNumberBitset.FirstAbsent | src/column02/missing_number_bitset.c:77-82 | the least value from i up that is not in the set, or none when all up to MAX_VALUE are present |
| MissingNumberBitset.ReadValues | src/column02/missing_number_bitset.c:49-74 | reports the first error (too many lines, invalid input, out of range); otherwise the bit set holds the stored values |
| MissingNumberBitset.ScanFirstUnset | src/column02/missing_number_bitset.c:77-82 | prints the least value whose bit is unset |
| MissingNumberBitset.FindMissing | src/column02/missing_number_bitset.c:40-82 | the whole program: the first error, or the scan's result |
| MissingNumberBitset.PrintsLeastAbsent | src/column02/missing_number_bitset.c:77-82 | without error, it prints a value <= MAX_VALUE that is absent from the input, and every smaller value is present |
| MissingNumberFile.ReadNumber | src/column02/missing_number_file.c:31-46 | succeeds iff the line is a number in [0, MAX_VALUE]; writes the number back only on success |
| MissingNumberFile.Bit | src/column02/missing_number_file.c:115 | `(x >> b) & 1` is 0 or 1 |
| MissingNumberFile.Low | src/column02/missing_number_file.c:127 | the low b bits of x are below 2^b |
| MissingNumberFile.LowStep | src/column02/missing_number_file.c:127 | the low b+1 bits are the low b bits plus bit b times 2^b |
| MissingNumberFile.LowOfSmall | src/column02/missing_number_file.c:143 | a number of at most b bits is its own low b bits |
| MissingNumberFile.ExtendLow | src/column02/missing_number_file.c:125-139 | x agrees with m + c*2^b on b+1 bits iff it agrees with m on b bits and bit b is c |
| MissingNumberFile.InSide | src/column02/missing_number_file.c:115-121 | a value goes to the file for c iff it was read and its bit b is c |
| MissingNumberFile.SideAppend | src/column02/missing_number_file.c:115-121 | each line read appends its value to exactly the file its bit selects |
| MissingNumberFile.SplitIsPartition | src/column02/missing_number_file.c:115-121 | the two temporary files together hold exactly the values read, as a multiset |
| MissingNumberFile.SplitCounts | src/column02/missing_number_file.c:117-120 | the two counts add up to the number of lines read |
| MissingNumberFile.FirstError | src/column02/missing_number_file.c:100-113 | the error a pass stops at is never a printed number |
| MissingNumberFile.NoErrorIffReadable | src/column02/missing_number_file.c:100-113 | a pass reads its file to the end when the file has at most MAX_VALUE lines, all readable |
| MissingNumberFile.Values | src/column02/missing_number_file.c:112-113 | one number per line |
| MissingNumberFile.TempFileRoundTrip | src/column02/missing_number_file.c:116-119 | each number written to a temporary file (unsigned) is read back unchanged and without error |
| MissingNumberFile.FindMissing | src/column02/missing_number_file.c:78-143 | the outer loop computes the search's result |
| MissingNumberFile.ReadPass | src/column02/missing_number_file.c:100-122 | one pass: the first error, or the two files split by the bit and their counts |
| MissingNumberFile.StopAvoids | src/column02/missing_number_file.c:125-131 | an empty side gives a value that no input agreeing with it on b bits has |
| MissingNumberFile.NextFile | src/column02/missing_number_file.c:132-139 | the file searched next reads without error, is smaller than 2^(N-b-1) and holds the inputs that agree with the new prefix |
| MissingNumberFile.SmallerSideHalves | src/column02/missing_number_file.c:132-139 | the smaller file holds fewer than half of the lines allowed |
| MissingNumberFile.SideKeepsInvariant | src/column02/missing_number_file.c:132-139 | the file for c holds exactly the inputs whose low b+1 bits are the prefix extended by c |
| MissingNumberFile.PassKeepsInvariant | src/column02/missing_number_file.c:99-141 | a pass neither fails nor loses the invariant: it stops at an absent value or continues with it kept |
| MissingNumberFile.SearchAvoids | src/column02/missing_number_file.c:78-142 | the search from bit b ends with an N-bit value that is not among the inputs |
| MissingNumberFile.ResultIsAbsent | src/column02/missing_number_file.c:78-143 | on at most MAX_VALUE readable lines, the search ends with a value <= MAX_VALUE that no line holds (its `%d` rendering at line 143 is PrintedResultAsWritten) |
| MissingNumberFile.PrintedResultAsWritten | src/column02/missing_number_file.c:143 | `printf("%d")` shows a result of 2^31 or more as that result minus 2^32, a negative number, and a smaller result as it is |
| MissingNumberFile.TooManyLinesRejected | src/column02/missing_number_file.c:102-106 | a file with more than MAX_VALUE lines stops with "Too many input lines" |
| MissingNumberFile.TooManyLinesFrom | src/column02/missing_number_file.c:102-106 | the line cap is reached before a later line is looked at |
| MissingNumberFile.RejectsUnreadableInput | src/column02/missing_number_file.c:31-46 | an input with an unreadable line prints no number (corrected program) |
| MissingNumberFile.AsInt32 | src/column02/missing_number_file.c:116 | `%d` shows a uint32_t as the int with the same bits |
| MissingNumberFile.ValuesAsWritten | src/column02/missing_number_file.c:112-113 | as written, a rejected line leaves the number uninitialised; one value per line |
| MissingNumberFile.UnreadableLineSplitAsWritten | src/column02/missing_number_file.c:113 | as written, an unreadable line is still split, and the printed number depends on uninitialised memory |
| MissingNumberFile.SignedTempFileAsWritten | src/column02/missing_number_file.c:112-119 | 2147483648 written with `%d` reads back as out of range; on input {2147483648, 1} the program as written then splits the uninitialised `number` and prints 0 when its bit 1 is set, 2 otherwise |
| MissingNumberFile.UnsignedTempFileOnSameInput | src/column02/missing_number_file.c:78-143 | the corrected program on the same input prints 2 |
| MissingNumberFile.IntShiftOverflowsAtBit31 | src/column02/missing_number_file.c:127 | the int `1 << b` is defined for bit 30 but not for bit 31 |
| MissingNumberFile.BitValueFits | src/column02/missing_number_file.c:134 | the unsigned 2^b is an N-bit number for every bit the loop visits |
| UniqueRandom.Range | src/column01/unique_random.c:51-54 | the initial array holds 0 .. n-1 |
| UniqueRandom.ChosenInRange | src/column01/unique_random.c:59 | whatever rand() returns, j lies in [i, n-1] |
| UniqueRandom.SwapPermutes | src/column01/unique_random.c:61-63 | a swap permutes the array and keeps it free of repeats |
| UniqueRandom.Shuffle | src/column01/unique_random.c:57-65 | the shuffle keeps the length |
| UniqueRandom.ShufflePermutes | src/column01/unique_random.c:57-65 | the shuffle permutes the array and keeps it free of repeats |
| UniqueRandom.Rolls | src/column01/unique_random.c:59 | the first k values of rand() |
| UniqueRandom.NewRange | src/column01/unique_random.c:51-54 | a fresh array holding 0 .. n-1 |
| UniqueRandom.ShufflePrefix | src/column01/unique_random.c:57-65 | the array ends as the shuffle of its old contents; the printed numbers are its first k slots |
| UniqueRandom.Generate | src/column01/unique_random.c:32-65 | the whole program: the argument checks, then the printed numbers |
| UniqueRandom.TooManyRejected | src/column01/unique_random.c:45-48 | k >= n is rejected before anything is printed |
| UniqueRandom.PrintsDistinctBelowMax | src/column01/unique_random.c:57-65 | whatever rand() returns, exactly k distinct integers below n are printed |
| Compare.CompareChar | src/common/compare.c:13-24 | -1, 0 or 1 exactly as x is below, equal to or above y |
| Compare.CompareU32 | src/common/compare.c:34-45 | -1, 0 or 1 exactly as x is below, equal to or above y |
| Compare.CompareCharTotalOrder | src/common/compare.c:13-24 | antisymmetric and transitive, so qsort may sort by it |
| Compare.CompareU32TotalOrder | src/common/compare.c:34-45 | antisymmetric and transitive, so qsort may sort by it |
| CStrings.StrCmp | src/common/stringsig.c:48 | strcmp's sign is -1, 0 or 1 |
| CStrings.StrNCmp | src/column02/search_anagram_db.c:117 | strncmp's sign is -1, 0 or 1 |
| CStrings.StrCmpZeroIffEqual | src/common/stringsig.c:48 | two C strings compare equal iff they are equal |
| CStrings.StrCmpAntisymmetric | src/column02/build_anagram_db.c:33-39 | swapping the operands negates the result |
| CStrings.StrCmpTransitive | src/column02/build_anagram_db.c:33-39 | strcmp is transitive |
| CStrings.StrNCmpZeroIffPrefixesEqual | src/column02/search_anagram_db.c:117 | strncmp is 0 iff the first n bytes agree |
| CStrings.StrNCmpWideIsStrCmp | src/column02/build_anagram_db.c:36-38 | a bound past both strings' ends makes strncmp strcmp |
| CStrings.StrCmpReflexive | src/column02/build_anagram_db.c:131-132 | every string compares equal to itself |
| CStrings.StrCmpEqualTransitive | src/column02/build_anagram_db.c:131-132 | comparing equal is transitive |
| CStrings.StrCmpLessThenAtMost | src/column02/search_anagram_db.c:114 | below then at most gives strictly below |
| CStrings.StrCmpAtMostThenLess | src/column02/search_anagram_db.c:114 | at most then below gives strictly below |
| CStrings.CPrefix | src/column02/search_anagram_db.c:45 | the C string a buffer holds is a NUL-free prefix of it, and all of it when it has no NUL |
| Sorting.Insert | src/common/stringsig.c:20 | inserting adds exactly one element to the multiset |
| Sorting.InsertSorted | src/common/stringsig.c:20 | inserting into a sorted sequence keeps it sorted |
| Sorting.Sort | src/column02/build_anagram_db.c:113 | a permutation of the input |
| Sorting.SortSorts | src/column02/build_anagram_db.c:113 | the result is sorted by the comparator |
| Sorting.SortedHeadsEqual | src/common/stringsig.c:20 | two sorted arrangements of one multiset start alike, under an antisymmetric order |
| Sorting.TailsSameMultiset | src/common/stringsig.c:20 | removing one equal head leaves one multiset |
| Sorting.SortedArrangementUnique | src/common/stringsig.c:20 | under an antisymmetric order, a multiset has only one sorted arrangement, so qsort's result is determined |
| StringSig.CharLeOrders | src/common/compare.c:13-24 | compare_char is a total, antisymmetric order |
| StringSig.Signature | src/column02/stringsig.c:15-19 | the signature is a permutation of the word |
| StringSig.SignatureSorted | src/column02/stringsig.c:18 | the signature is ascending under compare_char |
| StringSig.SignatureUnique | src/common/stringsig.c:20 | the only sorted permutation of a word is its signature |
| StringSig.SignatureIffAnagram | src/common/stringsig.c:42-54 | two words share a signature iff they are anagrams |
| StringSig.SignatureIdempotent | src/column02/stringsig.c:15-19 | sorting a signature again changes nothing |
| StringSig.SignatureKeepsCString | src/common/stringsig.c:20 | the signature of a C string has no NUL |
| StringSig.QsortChars | src/common/stringsig.c:20 | qsort of the first count characters leaves their signature and touches nothing after them |
| StringSig.StringSignature.Init | src/common/stringsig.c:15-24 | a fresh sorted copy of the string, a permutation of it, and n = strlen |
| StringSig.StringSignature.Matches | src/common/stringsig.c:42-54 | true iff the string is an anagram of the signature's source |
| StringSig.StrNCpy | src/column02/stringsig.c:16 | strncpy fills exactly length bytes |
| StringSig.StrNCpyOfString | src/column02/stringsig.c:16 | from a long enough C string, strncpy copies its first length bytes |
| StringSig.Calculated | src/column02/stringsig.c:15-19 | ss_calculate leaves length characters before the terminator |
| StringSig.Calculate | src/column02/stringsig.c:15-19 | writes the sorted characters, then a NUL at length, and nothing beyond |
| StringSig.CalculatedIsSignature | src/column02/stringsig.c:15-19 | the result is the signature of the first length characters: sorted, a permutation, NUL-free |
| StringSig.CalculateIdempotent | src/column02/stringsig.c:15-19 | applied to its own result, ss_calculate changes nothing |
| StringSig.CalculatedIffAnagram | src/column02/stringsig.c:15-19 | two words get the same signature iff their first length characters are anagrams |
| Support.AsU32 | src/column01/unique_random.c:32 | a value in the u_int32_t range is kept as is |
| Support.Pow2 | src/column02/missing_number_file.c:134 | 2^k is at least 1 |
| Support.Pow2Monotone | src/column02/missing_number_file.c:134 | 2^j <= 2^k when j <= k |
| Support.ElementsBound | src/column02/missing_number_bitset.c:77-82 | a sequence holds at least as many items as it has distinct values |
| Support.Below | src/column02/missing_number_bitset.c:77 | the values below m |
| Support.BelowSize | src/column02/missing_number_bitset.c:77 | there are exactly m of them |
| Support.AllBelowPresentExcludesBound | src/column02/missing_number_bitset.c:50-54 | at most m values that include all of 0..m-1 cannot include m |
| Support.SubsetSize | src/column02/missing_number_bitset.c:77-82 | a subset is no larger |
| Support.Grow | src/column02/build_anagram_db.c:108 | realloc: a fresh, larger array that starts with the old contents |
| Support.Append | src/column02/build_anagram_db.c:103-109 | stores one more element; the array grows by a chunk when it fills up, so there is always a free slot |
| BuildAnagramDb.ComparePairs | src/column02/build_anagram_db.c:33-39 | compare_signature_pairs is strcmp of the signatures |
| BuildAnagramDb.PairLeOrders | src/column02/build_anagram_db.c:33-39 | compare_signature_pairs is a total order, so qsort may sort by it |
| BuildAnagramDb.Strip | src/column02/build_anagram_db.c:93-96 | the word is the line less at most its trailing newline, and holds no newline |
| BuildAnagramDb.PairOfWord | src/column02/build_anagram_db.c:98-103 | the pair holds the stripped word, its signature and its length |
| BuildAnagramDb.Pairs | src/column02/build_anagram_db.c:91-110 | one pair per line |
| BuildAnagramDb.ReadDictionary | src/column02/build_anagram_db.c:84-110 | the pairs array holds the lines' pairs in order, with a free slot and a whole number of chunks |
| BuildAnagramDb.QsortPairs | src/column02/build_anagram_db.c:113 | the pairs end sorted by signature and permuted; nothing after them changes |
| BuildAnagramDb.AsByte | src/column02/build_anagram_db.c:50-52 | `(char) x` keeps x when it fits a byte |
| BuildAnagramDb.WriteDbEntry | src/column02/build_anagram_db.c:49-56 | the length byte, the signature, the count byte and the words, in that order |
| BuildAnagramDb.SameSignatureIff | src/column02/build_anagram_db.c:131-132 | the grouping test holds iff the lengths agree and strcmp finds the signatures equal |
| BuildAnagramDb.SameSignatureReflexive | src/column02/build_anagram_db.c:131-132 | every pair passes the test against itself |
| BuildAnagramDb.RunsFrom | src/column02/build_anagram_db.c:130-147 | the runs formed from a current run are non-empty and start with it |
| BuildAnagramDb.RunsPartition | src/column02/build_anagram_db.c:127-147 | the grouping loop partitions the pairs into maximal runs of one signature |
| BuildAnagramDb.RunsFromPartition | src/column02/build_anagram_db.c:130-147 | from any loop state, the runs formed partition the rest |
| BuildAnagramDb.WriteGroups | src/column02/build_anagram_db.c:127-147 | the bytes written are the database of the pairs |
| BuildAnagramDb.CloseGroup | src/column02/build_anagram_db.c:138-140 | closing a run appends its bytes when it has two or more pairs |
| BuildAnagramDb.ExtendRun | src/column02/build_anagram_db.c:131-134 | a pair passing the test joins the current run |
| BuildAnagramDb.CloseRun | src/column02/build_anagram_db.c:135-142 | a pair failing the test closes the run and starts a new one |
| BuildAnagramDb.WrittenSnoc | src/column02/build_anagram_db.c:145-147 | writing one more run appends its bytes |
| BuildAnagramDb.Build | src/column02/build_anagram_db.c:84-147 | the output is the database of a sorted permutation of the pairs; there is none iff the dictionary is empty |
| SearchAnagramDb.GetS | src/column02/search_anagram_db.c:45 | fgets returns a prefix shorter than its buffer |
| SearchAnagramDb.GetSStopsAtNewline | src/column02/search_anagram_db.c:50 | fgets stops after a newline or when the buffer is full |
| SearchAnagramDb.ReadWords | src/column02/search_anagram_db.c:48-51 | the loop reads word_count words and consumes input |
| SearchAnagramDb.ReadWord | src/column02/search_anagram_db.c:50 | each word read is a C string |
| SearchAnagramDb.ReadCount | src/column02/search_anagram_db.c:46 | fgetc returns the next byte and consumes exactly it, when the file has not ended |
| SearchAnagramDb.ReadEntry | src/column02/search_anagram_db.c:38-54 | false iff at the end of the file; otherwise an entry and less input |
| SearchAnagramDb.ReadAfterLength | src/column02/search_anagram_db.c:43-51 | after the length byte an entry is always read |
| SearchAnagramDb.ReadDbWellFormed | src/column02/search_anagram_db.c:38-54 | every entry read has a C string signature and word_count words |
| SearchAnagramDb.ReadDbEntry | src/column02/search_anagram_db.c:38-54 | read_db_entry computes ReadEntry |
| SearchAnagramDb.ReadDbStep | src/column02/search_anagram_db.c:100-101 | one more entry read moves it from the file to the entries |
| SearchAnagramDb.ReadDbEnd | src/column02/search_anagram_db.c:100 | at the end of the file, the entries so far are all of them |
| SearchAnagramDb.LoadDb | src/column02/search_anagram_db.c:95-106 | the array holds every entry of the file, in order |
| SearchAnagramDb.CompareEntries | src/column02/search_anagram_db.c:64-69 | 0 iff the key equals the entry's signature |
| SearchAnagramDb.BSearch | src/column02/search_anagram_db.c:114 | a match has the key's signature; no match in a sorted array means no entry has it |
| SearchAnagramDb.Others | src/column02/search_anagram_db.c:115-121 | no more words than the entry holds |
| SearchAnagramDb.OthersMembers | src/column02/search_anagram_db.c:116-119 | a word is printed iff it is in the entry and strncmp finds it different from the query |
| SearchAnagramDb.OthersAreOtherAnagrams | src/column02/search_anagram_db.c:117 | for words of the query's length, printed iff different from the query |
| SearchAnagramDb.PrintOthers | src/column02/search_anagram_db.c:115-121 | puts the entry's words that differ from the query |
| SearchAnagramDb.Search | src/column02/search_anagram_db.c:95-121 | a found entry is in the file and has the query's signature, and its other words are printed; nothing is found only when no entry has the signature, in a database sorted by signature |
| AnagramDb.StorableOfLine | src/column02/build_anagram_db.c:93-103 | a clean line makes a storable pair holding its word's signature |
| AnagramDb.GetSReadsWord | src/column02/search_anagram_db.c:45 | fgets with room for exactly a newline-free word reads that word |
| AnagramDb.ReadWordsStep | src/column02/search_anagram_db.c:48-51 | one more word written is one more word read |
| AnagramDb.ReadWordsOfWords | src/column02/search_anagram_db.c:48-51 | the word loop reads back the words write_db_entry wrote |
| AnagramDb.ReadEntryOfParts | src/column02/search_anagram_db.c:43-51 | a signature, a count and words read back as their entry |
| AnagramDb.ReadEntryOfRun | src/column02/build_anagram_db.c:49-56 | read_db_entry on write_db_entry's bytes returns the run's entry and the rest |
| AnagramDb.EntryBytesLayout | src/column02/build_anagram_db.c:49-56 | an entry's bytes are its length byte, then its signature, count and words |
| AnagramDb.ReadDbOfRun | src/column02/build_anagram_db.c:138-146 | a run's bytes read back as its entry when it has two or more pairs |
| AnagramDb.ReadDbOfGrouping | src/column02/build_anagram_db.c:127-147 | the database reads back as the entries of the runs of two or more pairs |
| AnagramDb.SameSignatureIsEqual | src/column02/build_anagram_db.c:131-132 | for storable pairs, the grouping test is equality of signatures |
| AnagramDb.SortedSignaturesAscending | src/column02/build_anagram_db.c:113 | sorted pairs have ascending signatures |
| AnagramDb.FirstRunShares | src/column02/build_anagram_db.c:130-134 | the pairs of the first run share its signature |
| AnagramDb.FirstRunBelowRest | src/column02/build_anagram_db.c:130-142 | and every later pair has a greater signature |
| AnagramDb.NextRunAbove | src/column02/build_anagram_db.c:135-142 | the next run's signature is greater |
| AnagramDb.AscendingCons | src/column02/search_anagram_db.c:114 | an entry below all later ones keeps the order strict |
| AnagramDb.EntriesCons | src/column02/build_anagram_db.c:138-140 | the first run contributes an entry iff it has two or more pairs |
| AnagramDb.GroupingRunsAscend | src/column02/build_anagram_db.c:127-147 | the runs of sorted pairs ascend strictly |
| AnagramDb.EntriesAscending | src/column02/search_anagram_db.c:114 | the entries are strictly ascending, as bsearch requires |
| AnagramDb.AnagramsMembers | src/column02/search_anagram_db.c:115-121 | a word is an anagram iff some pair holds it with that signature |
| AnagramDb.AnagramsSkip | src/column02/build_anagram_db.c:135-142 | pairs of another signature add no anagrams |
| AnagramDb.AnagramsTake | src/column02/build_anagram_db.c:131-134 | a run of one signature contributes exactly its words |
| AnagramDb.RestAbove | src/column02/build_anagram_db.c:130-147 | no later pair or entry has the first run's signature |
| AnagramDb.SignatureCons | src/column02/build_anagram_db.c:138-140 | the first run's entry holds its anagrams, and later entries have other signatures |
| AnagramDb.OtherSignatureCons | src/column02/build_anagram_db.c:138-140 | the first run's entry changes nothing for other signatures |
| AnagramDb.EntriesOfFirstSignature | src/column02/build_anagram_db.c:127-147 | the first signature's entry holds exactly its anagrams |
| AnagramDb.EntriesOfSignature | src/column02/build_anagram_db.c:127-147 | every signature's entry holds exactly its anagrams, at least two; a signature without an entry has at most one word |
| AnagramDb.EntriesOfOtherSignature | src/column02/build_anagram_db.c:127-147 | other signatures are handled by the later runs |
| AnagramDb.PairsOfCleanLines | src/column02/build_anagram_db.c:91-103 | clean lines make storable pairs holding the lines' words |
| AnagramDb.RearrangedPairs | src/column02/build_anagram_db.c:113 | sorting keeps the pairs storable and their words the same |
| AnagramDb.SortedPairsOfLines | src/column02/build_anagram_db.c:84-113 | the sorted pairs of clean lines are storable and hold exactly the lines' words |
| AnagramDb.DatabaseReadsBack | src/column02/build_anagram_db.c:127-147 | the database written for sorted pairs reads back as its runs' entries, strictly ascending |
| AnagramDb.EntriesLengths | src/column02/search_anagram_db.c:43-45 | each entry's length byte is its signature's length |
| AnagramDb.AnagramsOfSignature | src/column02/search_anagram_db.c:115-121 | the anagrams of a signature are exactly the dictionary words having it |
| AnagramDb.SearchPrintsOtherAnagrams | src/column02/search_anagram_db.c:108-121 | an entry is found iff two or more anagrams exist; a word is printed iff it is another anagram of the query |
| AnagramDb.DictionaryQuery | src/column02/search_anagram_db.c:95-121 | end to end from dictionary lines: prints exactly the query's other anagrams, when there are two or more |

## Left out

- Input and output are sequences. Files, `fopen` failures, `tmpfile`
  failures, argument-count checks and the messages on standard error are
  not modelled.
- `malloc`/`realloc`/`strdup` failures and all freeing are not modelled.
  That covers `bs_destroy`, `ss_destroy` and the cleanup blocks.
- `strtoll`/`strtoul` are an oracle. Each line arrives already parsed as
  `Support.Parse`: a value or unparsable.
- `rand()` is a function parameter: `UniqueRandom.Rolls`. `srand(time(NULL))`
  is not modelled.
- `char` is compared as an unsigned byte. Where `char` is signed, bytes
  >= 128 sort first under compare_char.
- `qsort` is not a stable sort. `Sorting.Sort` is one admissible order.
  For characters the order is determined anyway
  (`Sorting.SortedArrangementUnique`).
- BitsetSort.SortNumbers: the error message's line number is not
  modelled. That counter is never incremented, so it always prints 0.
- `library_sort.c` and `anagram.c` are not part of this model.
- MissingNumberFile.FindMissing: returns the number the search computes,
  not the text line 143 prints. As written, `%d` prints AsInt32 of it,
  which is negative for a result of 2^31 or more
  (MissingNumberFile.PrintedResultAsWritten). Such a result needs at least
  2^31 input lines. The width N is a parameter; the program fixes N = 32. `(1 << b) | missing` is written as
  `missing + 2^b`. The two agree because missing is below 2^b.
- SearchAnagramDb.GetS: `fgets` at the end of the file, with nothing
  read, leaves the buffer unchanged. The model returns the empty string.
- SearchAnagramDb.ReadCount: a count byte read at the end of the file
  is EOF. The model takes it as 255.
- SearchAnagramDb.BSearch: it is halving on the sorted range. Which
  equal element `bsearch` returns is unspecified; the model returns one.
- SearchAnagramDb.PrintOthers: `puts` output is a sequence of words.
- AnagramDb.DictionaryQuery: the round trip is proved only for clean
  dictionaries. A clean dictionary has no NUL byte in a line and no word
  of 256 bytes or more. Its groups of anagrams hold at most 255 words.
  Outside these, the length and count bytes wrap and the database is not
  read back as written.
- MissingNumberBitset.StoredIsInputsBelowMax: the bit set follows the
  corrected guard, so the value MAX_VALUE is never stored. As written it
  is stored in a padding bit of the last word. Either way the scan prints
  a value of [0, MAX_VALUE], because at most MAX_VALUE lines are read.

## Findings

| source | as written | input that shows it | evidently intended | confidence | as-written member | corrected member |
|---|---|---|---|---|---|---|
| src/column01/bitset.c:60 | `if (index > bs->n)` rejects only indices above n, in bs_is_set, bs_set, bs_clear and bs_toggle | n = 10000000 (bitset_sort's MAX_VALUE) with index 10000000: UNIT_POS is 312500, one word past the 312500 allocated | `index >= n` | high (not executed) | BitsetSort.MaxValueOverrunsAsWritten | BitSets.BitSet.Set |
| src/column02/missing_number_file.c:113 | the result of `read_number` is ignored, so an invalid line splits an uninitialised number | a file holding the single line `x` | stop with an error, as missing_number_bitset does | high (not executed) | MissingNumberFile.UnreadableLineSplitAsWritten | MissingNumberFile.RejectsUnreadableInput |
| src/column02/missing_number_file.c:116 | the temporary files (lines 116 and 119) and the result (line 143) are printed with `%d`: values of 2^31 and above come back negative and are rejected, and a result of 2^31 or above is printed negative | the lines 2147483648 and 1: the program prints 0 or 2 depending on the uninitialised `number` (0 when its bit 1 is set), where 2 is intended | print with `%u` at lines 116, 119 and 143 | high (not executed) | MissingNumberFile.SignedTempFileAsWritten | MissingNumberFile.UnsignedTempFileOnSameInput |
| src/column02/missing_number_file.c:127 | `1 << current_bit` shifts an int, which is undefined at bit 31 | any input whose search reaches bit 31 with the set side smaller or empty | `1u << current_bit` | medium (not executed) | MissingNumberFile.IntShiftOverflowsAtBit31 | MissingNumberFile.BitValueFits |
