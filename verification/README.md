# Verified model of libdeepc

libdeepc is a small C standard library for x86-64 Linux. This project models its hardest parts in Dafny, in the form
the C code has (loops, classes with mutable fields, arrays written in place, state machines for concurrent code), and
proves what those parts promise.

| files | source | what is modelled |
|---|---|---|
| `Digits`, `Atoi` | `src/atoi.c` | digit loops that saturate exactly, `atoi`, `strtol`, `strtoul` |
| `PrintfSink`, `PrintfInt`, `PrintfFormat`, `PrintfGrammar`, `Printf`, `PrintfConcat`, `PrintfLength` | `src/printf.c` | the string sink, the integer formatter, the parser of conversion specifications, `vsnprintf`, `vsprintf` |
| `RoundTrip` | `src/printf.c`, `src/atoi.c` | what is printed is read back |
| `SearchTree`, `SearchTreeHeap`, `SearchTreeWalk` | `src/search.c` | `tsearch`, `tfind`, `tdelete`, `twalk` on linked nodes |
| `Bits`, `Ring`, `HashTable`, `HashTableHeap`, `HashTableLoss`, `HashTableItems` | `src/search.c` | `hcreate_r`, `hsearch_r`, and exactly when the table is a map |
| `Queue` | `src/search.c` | `insque`, `remque`, linear and circular |
| `Spinlock` | `src/spinlock.c`, `src/atomic-flag-set.S` | lock, read, write, unlock by any number of threads |
| `Threads` | `src/threads.c` | the reference count of thread objects under exit, join and detach |
| `Malloc`, `MallocLimits`, `Heap`, `ReallocThreads` | `src/malloc.c`, `src/unistd.c` | `malloc` on a two-call `sbrk` by any number of threads, and what its safety rests on; `realloc` and `calloc`; `realloc` beside other threads |
| `Tss`, `TssThreads` | `src/tls.c` | thread-specific storage and its destructors; its calls interleaved |
| `Strided`, `Sorting`, `Stdlib` | `src/stdlib.c` | `qsort` and `bsearch` on bytes with an element size |
| `Strings`, `Tokenizer` | `src/string.c` | `memcmp`, `strchr`, `strspn`, `strcspn`, `strstr`, `strtok_r` |

`Machine` holds the machine integers, the C string and C's division; `Sequences` a few facts on sequences. A text is a
sequence of characters; a C string is its characters with one NUL at the end, and every index is proved to stay inside
it. Where the source computes with numbers that may be large (`Atoi`, the printf modules, `Bits`, `HashTableHeap`,
`Malloc`, `Heap`), its variables are declared with the ranges of their types, so each assignment is proved not to
overflow unless the wrap-around is written out. Offsets and sizes within an object that exists (in `PrintfSink`,
`Strings`, `Tokenizer`, `Strided`, `Stdlib` and `Tss`) are natural numbers bounded by the size of that object.

Concurrent code is a state machine: a thread's turn is one access to shared memory, and a schedule is any sequence of
turns. Sequential consistency is what the `xchg` instructions of `src/atomic-flag-set.S:10-15` and
`src/atomic-flag-set.S:34-39` give. Statements about runs are for all schedules and any number of threads.

A class that keeps a history of its calls (`SearchRoot`, `HsearchData`, `Storage`) has an invariant that ties its
memory to a function of that history, so its methods speak about whole runs.

Where the code does not do what its documentation or the standard says, the model follows the code:

- `strto_start` takes `0x` even when no hexadecimal digit follows, and the end pointer is not reset when there are no
  digits. `ScanMeetsStandard` says exactly for which texts that differs from section 7.22.1.4 of ISO/IEC 9899:2011.
- The length modifiers `l ll j z t L` are stored in the conversion and overwritten, so they have no effect
  (`src/printf.c:429-444`, `src/printf.c:495`); `LongModifiersAreIgnored`. What an integer conversion then prints is
  right if and only if the value fits the 32-bit type; `LongPrintsRightIfFits`. `%ln` stores an int.
- The hash table masks with `capacity - 1` although the capacity is not rounded up, so that probing runs through a ring
  of slots that is the whole table only for a power of two; and `hsearch_r` hashes `item.data` instead of the key
  (`src/search.c:72`, `src/search.c:121`). For any capacity and any set of items, the table behaves as a bounded map on
  all runs if and only if items that share a key start at one slot and, unless the capacity is a power of two, no ring
  is the start of more keys than it has slots (`MapIffItemsFit`). So entering (k, d1) and asking for (k, d2) may find
  nothing (`OtherStartMisses`), and one key too many on a ring always loses another (`EntersAndLoses`).
- `nel * 2` and the allocation size of `hcreate_r` wrap around; `Hcreate` says for which sizes it succeeds, and that
  from 2^63 on the table has fewer slots than its capacity says.
- The argument that `malloc` gives to `sbrk` wraps around. Sizes up to `max` are safe under every schedule if and only
  if `max`, the header and the room for the break together fit 64 bits; `SafeIffSmall`.
- `next_pow_2` yields 0 for 0 and above 2^63; `NextPow2` states when it is right.
- `tdelete` returns NULL for a deleted root too; `Tdelete` says when.
- `calloc` calls `memset` with its arguments exchanged and fills no bytes. The block is zero all the same because
  the kernel's pages are and `free` never gives memory back; `Calloc`.
- `bsearch` passes the element first and the key second to its comparison function. For a key and a function it does
  what section 7.22.5.1 of ISO/IEC 9899:2011 says on every array that is ordered as the standard asks if and only if
  exchanging the arguments keeps equality and, unless no element at all matches the key, turns the sign round
  (`StandardIffExchangeable`; `MissesMatch` is an input on which it does not).
- `strtok_r` gives NULL once after the last token, where section 7.24.5.8 of ISO/IEC 9899:2011 promises it for every
  later call; one call more reads through a null pointer. `CallTimes` says exactly how many calls are safe.

## Model

| member | source | states |
|---|---|---|
| `Digits.ToBaseNInvertsDigitChar` | src/atoi.c:67-84 | a character is a digit of a base exactly if it is one of the digit characters of that base, in either case |
| `Digits.RunEndsAt` | src/atoi.c:117-130 | the run of digits ends exactly at the first character that is no digit |
| `Digits.ValueOfExtension` | src/atoi.c:117-130 | the value of a text never shrinks when digits follow, so saturation may be decided digit by digit |
| `Digits.ValueOfDigits` | src/printf.c:180-213 | the digits of a number, with any zeros in front, are digits of the base and worth the number |
| `Digits.DigitCountBound` | src/printf.c:125-146 | a number below base^k has at most k digits |
| `Digits.DigitAt` | src/printf.c:180-205 | the i-th of k digits is the character at n / base^(k-1-i) % base in "0123456789abcdef...", or in capitals under X |
| `Atoi.FitsBelow` | src/atoi.c:117-127 | the test by quotient and remainder accepts a digit exactly when value * base + digit stays within the limit, without computing it |
| `Atoi.FitsAbove` | src/atoi.c:151-161 | the same on the negative side, where C's division truncates toward zero |
| `Atoi.SkipDigits` | src/atoi.c:124-126 | after an overflow the rest of the digit run is passed over |
| `Atoi.AtoiStart` | src/atoi.c:15-39 | passes over white space and one sign |
| `Atoi.StrtoStart` | src/atoi.c:41-65 | rejects exactly the bases below 0, 1 and above 36 with EINVAL, else resolves base 0 and 16 from the text |
| `Atoi.ReadPosInt` | src/atoi.c:103-131 | returns min(value of the maximal digit run, limit), reports overflow exactly if the value exceeds the limit, takes the whole run |
| `Atoi.ReadNegInt` | src/atoi.c:137-165 | the same for negated values down to the lower limit, no intermediate leaving intmax_t |
| `Atoi.Atoi` | src/atoi.c:167-197 | the standard's signed value of the text, 0 if it does not fit |
| `Atoi.Strtol` | src/atoi.c:199-236 | the standard's value if it is in the range, the upper limit with ERANGE above it, the lower limit with ERANGE below it; EINVAL exactly for a base other than 0 and 2 to 36; the end is the standard's but for the two families of `ScanMeetsStandard` |
| `Atoi.Strtoul` | src/atoi.c:238-271 | the upper limit with ERANGE if the standard's magnitude exceeds it, else the number modulo 2^64 that is congruent to the signed value; EINVAL and the end as for `Strtol` |
| `Atoi.ScanMeetsStandard` | src/atoi.c:41-65 | the value read is always that of C11 7.22.1.4; the end pointer is the standard's unless, and only unless, 0x stands without a hexadecimal digit or no digit follows white space or a sign |
| `Atoi.ScanIsSubject` | src/atoi.c:41-65 | the standard's scan from the text alone: white space, one sign, 0x before a hexadecimal digit, then every digit of the base, and the text they are worth |
| `Atoi.HexPrefixWithoutDigit` | src/atoi.c:54-63 | "0xg" is a text on which the end pointers differ |
| `Atoi.StrtolIsStandard` | src/atoi.c:199-236 | the specification of strtol gives what the standard says on every text, base and range |
| `Atoi.StrtoulIsStandard` | src/atoi.c:238-271 | so does that of strtoul |
| `PrintfSink.VprintfInfo.constructor` | src/printf.c:54-68 | a sink starts with nothing written |
| `PrintfSink.VprintfInfo.WriteStr` | src/printf.c:89-100 | the output gains the text; the buffer holds the first characters for which there is room and nothing behind them changes |
| `PrintfSink.VprintfInfo.Padding` | src/printf.c:148-163 | chunks of 64 add up to exactly the requested number of characters |
| `PrintfInt.BodyFillsPrecision` | src/printf.c:218-260 | the precision bump of #o yields the digits that the standard describes by a forced leading zero |
| `PrintfInt.DigitsAreNumeral` | src/printf.c:180-205 | the digits of a number are its notation without leading zeros, digit by digit |
| `PrintfInt.LayoutIsLaidOut` | src/printf.c:218-304 | the layout is blanks, sign or 0x, zeros, digits and blanks, each counted as section 7.21.6.1 of ISO/IEC 9899:2011 says, with the flags that win |
| `PrintfInt.DigitsInTheirCase` | src/printf.c:172-304 | x prints none of "ABCDEF" and X none of "abcdef" |
| `PrintfInt.LayoutLength` | src/printf.c:218-304 | the length is max(width, prefix + max(digits, effective precision)) |
| `PrintfInt.AtMost22Digits` | src/printf.c:172-213 | a 64-bit value has at most 22 digits in bases 8, 10 and 16, so the 32-byte buffer suffices |
| `PrintfInt.LogUIntMax` | src/printf.c:125-146 | the count loop counts exactly the digits that the writing loop writes |
| `PrintfInt.LogIntMax` | src/printf.c:125-136 | the same for signed values, the least one included |
| `PrintfInt.SignedDigits` | src/printf.c:180-192 | the reverse loop leaves the positional decimal notation of the absolute value, for the least intmax_t too |
| `PrintfInt.UnsignedDigits` | src/printf.c:180-205 | the reverse loop leaves the positional notation in base 8, 10 or 16, with the digits of "0123456789abcdef" or "0123456789ABCDEF" |
| `PrintfInt.WriteNumber` | src/printf.c:172-216 | hands exactly the digits of the value to the sink: of its absolute value for d, in base 8 for o, 10 for u, 16 for x and X, capitals for X only |
| `PrintfInt.Measure` | src/printf.c:218-262 | digit count, bumped precision and prefix as the standard's layout has them |
| `PrintfInt.Plan` | src/printf.c:218-264 | the numbers of zeros and blanks are those of the standard's layout, also where the zero fill falls below the digit count |
| `PrintfInt.WriteCore` | src/printf.c:274-295 | prefix, zeros and digits in that order |
| `PrintfInt.OutputInt` | src/printf.c:218-304 | the output is laid out as section 7.21.6.1 of ISO/IEC 9899:2011 prescribes for the flags, width and precision, with the digits of the value in the case of the conversion |
| `RoundTrip.LayoutIsField` | src/printf.c:218-304 | every printed integer is blanks, sign, hexadecimal prefix, digits and blanks, and stands for its value |
| `RoundTrip.FieldScan` | src/atoi.c:41-165 | such a field is read as its value up to the end of its digits |
| `RoundTrip.SignedRoundTrip` | src/printf.c:172-304 | strtol reads back every value printed by d, for all flags, widths and precisions, without error, stopping where the right padding begins |
| `RoundTrip.UnsignedRoundTrip` | src/printf.c:172-304 | strtoul reads back every value printed by u, o, x and X in its own base, and in base 0 under # |
| `PrintfFormat.ReadNumber` | src/printf.c:354-371 | a width or precision in digits is its value if that is at most INT_MAX, else an error |
| `PrintfFormat.WidthStage` | src/printf.c:341-376 | one pass of the width stage agrees with the grammar's width, a negative argument of `*` turning into the - flag |
| `PrintfFormat.PrecisionStage` | src/printf.c:378-412 | one pass of the precision stage agrees with the grammar's precision, a negative argument of `*` counting as none |
| `PrintfFormat.LengthStage` | src/printf.c:414-450 | one pass of the length stage agrees with the grammar's length |
| `PrintfFormat.ParseStages` | src/printf.c:306-498 | the loop over the stages computes the grammar-directed parse and never leaves the format |
| `PrintfFormat.SpecIsDenoted` | src/printf.c:455-496 | an accepted specification ends with the character that denotes its conversion; one whose last character is none of "dioxXucspn%" is EINVAL |
| `PrintfFormat.VprintfParseSpec` | src/printf.c:306-498 | the staged parser that reuses one character computes the grammar-directed parse, always advances, and stops at the NUL at the latest; what it accepts ends with the character of its conversion, d and i alike, and a character that is none is EINVAL |
| `PrintfGrammar.AcceptsDirective` | src/printf.c:306-498 | every well-formed directive is accepted with its meaning, and exactly its text is used up |
| `PrintfGrammar.AcceptedIsDirective` | src/printf.c:306-498 | whatever is accepted is the text of a well-formed directive |
| `PrintfGrammar.AcceptsExactlyDirectives` | src/printf.c:306-498 | accepted if and only if flags* width? precision? length? conversion with values within INT_MAX |
| `PrintfGrammar.MeaningIs` | src/printf.c:306-498 | the meaning of a directive from its text: the flags that stand in it, its width and precision or the ints given for them, hh, h or none, and the conversion of its last character |
| `PrintfGrammar.OtherCharacterFails` | src/printf.c:455-493 | any character other than "dioxXucspn%" in the place of the conversion is EINVAL |
| `PrintfGrammar.LargeWidthFails` | src/printf.c:354-371 | a width in digits above INT_MAX is ERANGE, whatever follows it |
| `PrintfGrammar.LargePrecisionFails` | src/printf.c:378-412 | so is a precision in digits above INT_MAX |
| `PrintfGrammar.WrittenSpecReadsBack` | src/printf.c:306-498 | writing a specification of length none, h or hh and parsing it gives it back from exactly that text |
| `PrintfGrammar.LongModifiersAreIgnored` | src/printf.c:429-495 | l, ll, j, z, t and L change nothing |
| `PrintfLength.LayoutIsInjective` | src/printf.c:172-304 | under one specification no two words are printed alike |
| `PrintfLength.LongPrintsRightIfFits` | src/printf.c:429-562 | with l, ll, j, z or t an integer conversion prints its argument right if and only if the value fits the 32-bit type |
| `Printf.ConvCharacter` | src/printf.c:564-577 | one character in its field |
| `Printf.ConvString` | src/printf.c:579-602 | at most precision characters of the string in its field, "(NULL)" for NULL |
| `Printf.ConvPointer` | src/printf.c:604-619 | the address as by #x, "(nil)" for NULL |
| `Printf.ConvertPrints` | src/printf.c:500-682 | every conversion prints what the standard says: the signed or unsigned value congruent to the argument within the range of its type, the character, the string up to the precision, the address, in a field of the width |
| `Printf.StoredIsConverted` | src/printf.c:621-649 | what %n leaves in the object is the count converted to signed char, short or int |
| `Printf.WriteSpec` | src/printf.c:651-682 | prints what section 7.21.6.1 of ISO/IEC 9899:2011 says of the conversion, for the argument converted to char, short or int under hh, h or none, and uses up that argument; %n stores the count of characters written so far, converted to its type, at its argument and nothing else stores |
| `Printf.WriteLiteral` | src/printf.c:698-704 | hands a run of literal characters to the sink |
| `Printf.VprintfLoop` | src/printf.c:684-737 | batching literal runs yields the output and the stores of %n defined character by character, up to the first bad specification |
| `Printf.VprintfShared` | src/printf.c:684-737 | returns the length of the output, -1 on a bad specification; a length that is no int comes back modulo 2^32 |
| `Printf.TerminatedCut` | src/printf.c:754-769 | what is left in the buffer is the first min(L, n - 1) characters, one NUL, and the old bytes from n on |
| `Printf.Vsnprintf` | src/printf.c:754-769 | for n > 0 the buffer holds the first min(L, n - 1) characters of the unbounded output, one NUL, and what it held behind them; for n = 0 it is untouched; the return value does not depend on n; n may exceed the buffer if the output fits |
| `Printf.Vsprintf` | src/printf.c:750-752 | the buffer holds the whole output and one NUL, and what it held behind them |
| `PrintfConcat.ParseIsLocal` | src/printf.c:306-498 | a specification is parsed alike wherever its text stands |
| `PrintfConcat.PrintOfConcatenation` | src/printf.c:684-737 | printing a concatenation of formats is printing one and then the other with the remaining arguments, and what %n stores shifts by the first length |
| `PrintfConcat.TextPrintsItself` | src/printf.c:684-737 | a format without % prints itself and takes no argument |
| `PrintfConcat.DirectivePrints` | src/printf.c:684-737 | a format that is one well-formed directive prints its conversion with its meaning |
| `PrintfConcat.BadDirectiveStops` | src/printf.c:706-722 | a specification in error prints nothing more and makes the call fail |
| `PrintfConcat.CountsWhatIsBefore` | src/printf.c:621-649 | after a complete format %n stores at its argument the number of characters that the format has printed, as an int |
| `SearchTree.FindIsMembership` | src/search.c:204-220 | the descent finds a node with the key if and only if there is one, and no other node has it |
| `SearchTree.InsertOrdered` | src/search.c:272-299 | hanging a node where the search ends adds it and keeps the order |
| `SearchTree.HangOrdered` | src/search.c:249-258 | hanging the right subtree under the maximum of the left one keeps the order |
| `SearchTree.DeleteNodes` | src/search.c:226-263 | deleting removes exactly the node that the search finds |
| `SearchTree.DeleteOrdered` | src/search.c:226-263 | the splice keeps the order |
| `SearchTree.DeleteInorder` | src/search.c:226-263 | deleting takes one node out of the inorder sequence and leaves the others in place |
| `SearchTree.OrderedIsUnshared` | src/search.c:272-299 | an ordered tree has no node twice |
| `SearchTree.RunIsSet` | src/search.c:226-299 | after every run the tree is a strict unshared search tree whose keys are those inserted and not deleted since |
| `SearchTreeHeap.SearchRoot.constructor` | src/search.c:197-203 | an empty tree |
| `SearchTreeHeap.SearchRoot.FindWithParent` | src/search.c:204-220 | the descent through the links gives the node and its parent |
| `SearchTreeHeap.SearchRoot.Tfind` | src/search.c:265-270 | answers membership in the set described by all calls so far |
| `SearchTreeHeap.SearchRoot.Tsearch` | src/search.c:272-299 | returns the node of a present key, else adds one fresh node and keeps all others, or fails without memory changing nothing |
| `SearchTreeHeap.SearchRoot.Tdelete` | src/search.c:226-263 | removes exactly the node that the search finds and returns the node whose child it was, NULL if and only if the key is absent or its node was the root |
| `SearchTreeHeap.SearchRoot.LinkNew` | src/search.c:287-297 | the link that the comparison names turns the tree into the one with the node inserted |
| `SearchTreeHeap.SearchRoot.Store` | src/search.c:234-241 | writes the root pointer or the parent's link that holds the node, and no other |
| `SearchTreeHeap.SearchRoot.Rightmost` | src/search.c:252-256 | reaches the last node of the left subtree |
| `SearchTreeHeap.SearchRoot.Relink` | src/search.c:243-260 | the parent takes over one branch, whose last node takes the other if both exist; no other link changes |
| `SearchTreeHeap.SearchRoot.Unlink` | src/search.c:234-260 | the links become those of the tree without the node |
| `SearchTreeHeap.InsertLinked` | src/search.c:272-299 | writing the one link of the parent turns the old shape into the inserted one |
| `SearchTreeHeap.DeleteLinked` | src/search.c:234-259 | writing the parent's link and the maximum's right link turns the old shape into the spliced one |
| `SearchTreeWalk.TwalkInternal` | src/search.c:301-315 | the calls of the action are the events of the subtree in order |
| `SearchTreeWalk.Twalk` | src/search.c:317-319 | starts at depth 0 |
| `SearchTreeWalk.TurnsAreInorder` | src/search.c:301-315 | postorder and leaf events list the nodes in inorder |
| `SearchTreeWalk.WalkIsSorted` | src/search.c:301-319 | those events list all keys in strictly increasing order |
| `SearchTreeWalk.WalkListsSet` | src/search.c:226-319 | after every run of tsearch and tdelete the walk lists exactly the keys inserted and not deleted since, in strictly increasing order |
| `SearchTreeWalk.VisitsOfNode` | src/search.c:301-315 | a leaf is visited once, an inner node in preorder, postorder and endorder, at its distance from the root |
| `SearchTreeWalk.WalkNests` | src/search.c:301-315 | the events are a balanced nesting |
| `Bits.IsPow2Means` | src/search.c:35-37 | true of exactly zero and the powers of two |
| `Bits.ShiftAbove` | src/search.c:44-52 | the shift loop gives the first power of two above, and 0 if that is 2^64 |
| `Bits.NextPow2` | src/search.c:39-52 | the least power of two that is not smaller, if and only if 1 <= n <= 2^63; else 0 |
| `Ring.ProbeStep` | src/search.c:133 | the probe step runs through a ring of slots and back to its first |
| `Ring.WholeRing` | src/search.c:72 | the ring is the whole table if and only if the capacity is a power of two |
| `Ring.WalkRing` | src/search.c:133-137 | probing from a slot goes through the slots of its ring one by one and is back after exactly as many steps |
| `Ring.EverySlotOnRing` | src/search.c:72-137 | for a power of two probing reaches every slot of the table |
| `HashTable.FullTableMissesNothing` | src/search.c:117-137 | for a power of two, after any run that fills the table every search finds its key if and only if it is stored, whatever was hashed |
| `HashTable.WrapMeansFull` | src/search.c:133-137 | for a power of two a search comes back to its start only in a table without room |
| `HashTable.StoreKeepsTable` | src/search.c:139-148 | storing where the search stopped keeps probe chains and distinct keys |
| `HashTable.FindsItsKey` | src/search.c:117-137 | in a table whose probe chains are unbroken a search from the home of its key stops at the key if and only if it is stored |
| `HashTable.CallIsMapStep` | src/search.c:117-148 | a call that starts at the home of its key answers as the bounded map does and leaves what the map step gives, if the search for a new key comes back to its start only in a full table |
| `HashTable.RunBehavesAsMap` | src/search.c:117-148 | so does every call of a run, if no ring is the home of more of its keys than it has slots, or the capacity is a power of two |
| `HashTable.RingOfOthers` | src/search.c:126-137 | a search that comes back to its start has passed as many other keys with their home on that ring as it has slots |
| `HashTable.OtherStartMisses` | src/search.c:121-137 | entering (k, d1) and asking for (k, d2) fails whenever the two data start at different slots |
| `HashTableHeap.HsearchData.Hcreate` | src/search.c:54-75 | 0 is EINVAL; else an empty table of the asked capacity for exactly the sizes whose allocation does not wrap to 0 bytes, if memory is there; from 2^63 on with fewer slots than its capacity |
| `HashTableHeap.HsearchData.Probe` | src/search.c:126-137 | the loop stops where the search stops: at the key, an empty slot, or back at the start |
| `HashTableHeap.HsearchData.Find` | src/search.c:117-137 | stops where the search from the slot of the hashed data does, and says whether the key is there |
| `HashTableHeap.HsearchData.StoreItem` | src/search.c:144-147 | the item takes the slot and size grows by one |
| `HashTableHeap.HsearchData.Hsearch` | src/search.c:117-148 | for every item, hash and capacity the table stays what the calls since hcreate_r make of an empty one, and the answer is that of the table; a failure changes nothing |
| `HashTableLoss.EntersAndLoses` | src/search.c:72-145 | for every hash, every datum and every capacity that is no power of two: entering any distinct keys with that datum, one more than the ring has slots, loses the first although there is room |
| `HashTableLoss.EnterOne` | src/search.c:117-148 | while the ring of probed slots has room, a new key goes behind the others |
| `HashTableLoss.OneTooMany` | src/search.c:117-148 | one key more than the ring has slots takes the place of the first, which is then not found |
| `HashTableLoss.RingIsSmall` | src/search.c:72-133 | for a capacity that is no power of two the ring is at most a third of the table |
| `HashTableLoss.MapIffPowerOfTwo` | src/search.c:72-148 | with one datum every run behaves as the bounded map if and only if the capacity is a power of two |
| `HashTableItems.MapIffItemsFit` | src/search.c:72-148 | for every capacity, hash and set of items: all runs over the items behave as the bounded insert-only map if and only if items that share a key start at one slot and, unless the capacity is a power of two, no ring is the start of more keys than it has slots |
| `HashTableItems.MapIffStartsAgree` | src/search.c:117-148 | for a power of two the starts decide alone |
| `HashTableItems.TooFewSlots` | src/search.c:126-145 | if all entered keys are found again, those that start on one ring are no more than it has slots |
| `Queue.RemoveUndoesInsert` | src/search.c:150-174 | removing right after inserting restores the sequence |
| `Queue.InsertionLinks` | src/search.c:158-164 | the links written are those of the list with the element in it, linear or circular |
| `Queue.RemovalLinks` | src/search.c:166-174 | the links written are those of the list without the element |
| `Queue.Insque` | src/search.c:150-164 | inserts after the predecessor; only the element and its two neighbours are written |
| `Queue.InsqueFirst` | src/search.c:153-157 | starts a linear list of one |
| `Queue.Remque` | src/search.c:166-174 | removes the element; only its neighbours are written |
| `Queue.InsqueThenRemque` | src/search.c:150-174 | every link of every member is as before |
| `Queue.Replay` | src/search.c:150-174 | after any sequence of calls the links are those of the sequence that inserting and removing gives |
| `Spinlock.StepKeeps` | src/spinlock.c:10-18 | each access keeps: as many threads inside as the flag says, and no store missing from the counter |
| `Spinlock.LockConservesAdditions` | tests/threads2-test.c:11-28 | under every schedule the flag is set if and only if one thread is inside, never two are, and the counter is the start with every completed addition |
| `Spinlock.BumpsCountOneEach` | tests/threads2-test.c:17-24 | the counter is start + n if and only if n = 0, start >= 0 or start + n <= -2; else it is 2 more for start = -1 and 1 more below |
| `Spinlock.CounterFitsInt` | tests/threads2-test.c:11-28 | no schedule overflows the int counter if and only if making all additions one after the other does not |
| `Spinlock.EveryRunCanFinish` | src/spinlock.c:10-18 | no run deadlocks; all additions get in |
| `Threads.ExiterStepKeeps` | src/threads.c:50-65 | each step of the exiting thread keeps the reference count and both sides' knowledge |
| `Threads.OwnerStepKeeps` | src/threads.c:161-191 | each step of a join or detach does |
| `Threads.ObjectsAreFreedOnce` | src/threads.c:36-191 | under every schedule, of every object: refs is 2 minus references given back, each assertion finds the count it asserts, no access follows a free, it is freed once if and only if both sides are through, and a join delivers the exit value |
| `Threads.EveryRunCanFinish` | src/threads.c:161-191 | no run deadlocks, the waiting loop of thrd_join included |
| `Malloc.StepKeeps` | src/malloc.c:47-66 | each access keeps one thread inside the mutex, the granted blocks adjoining up to the break, and no block in two hands |
| `Malloc.BlocksNeverOverlap` | src/malloc.c:47-66 | under every schedule the blocks handed out lie apart with their headers, below the break, each header tells its size; what a call returns is a block of the size it asked for and no other call's; none granted is lost, and the break moved by what was granted |
| `Malloc.KeepsAccounted` | src/malloc.c:47-66 | no granted block is lost: it is in a caller's hands or on its way there |
| `Malloc.FailureLeavesBreak` | src/unistd.c:9-21 | a call fails if and only if the kernel refuses, and then the break is as it was; else it gets the old break |
| `Malloc.EveryRunCanFinish` | src/malloc.c:47-66 | no run deadlocks: each can be continued until every call has returned |
| `MallocLimits.WithoutMutexBlocksOverlap` | src/unistd.c:9-21 | without the mutex two calls of any sizes can be given the same bytes |
| `MallocLimits.HugeSizeFallsBack` | src/malloc.c:55-62 | a size whose increment wraps can take the break back below a block that was handed out |
| `MallocLimits.SafeIffSmall` | src/malloc.c:47-66 | sizes up to max are safe under every schedule if and only if max, the header and the room for the break together fit size_t |
| `Heap.Process.Sbrk` | src/unistd.c:9-21 | the old break, or failure with the break as it was; the new break is the wrapped sum |
| `Heap.Process.Brk` | src/unistd.c:10-15 | the system call moves the break or leaves it, and returns where it is |
| `Heap.Process.Allocate` | src/malloc.c:47-66 | a cleared block above all others, behind 8 bytes of metadata, if and only if both fit below the limit; else nothing changes |
| `Heap.Process.Store` | src/malloc.c:37-45 | a store into a block hits no header |
| `Heap.Process.Copy` | src/malloc.c:85-88 | copies the bytes into the block and writes nothing else |
| `Heap.Process.Memset` | src/string.c:35-45 | fills the bytes it is asked to fill, none when asked for 0 |
| `Heap.Process.Realloc` | src/malloc.c:75-93 | the new block holds the first min(old, new) bytes, every other block its contents, the old one too; a failure changes nothing |
| `Heap.Process.Calloc` | src/malloc.c:95-104 | succeeds if and only if the wrapped product is not 0 and fits; the block is all zero and the others unchanged |
| `Heap.FreshBlock` | src/malloc.c:55-65 | a block added at the break is zero and disturbs no other |
| `Heap.CopiedBlock` | src/malloc.c:85-88 | copying the start over a cleared block resizes the contents |
| `ReallocThreads.ReallocKeepsBytes` | src/malloc.c:75-93 | while other threads allocate and store into their own blocks under any schedule, the old block keeps its contents and the new one ends up with the first min(old, new) bytes of it; every header tells its block's size |
| `ReallocThreads.ReallocDisturbsNobody` | src/malloc.c:85-88 | outside the new block memory is as if the copying had not been done |
| `Tss.Storage.Create` | src/tls.c:62-92 | a key never given out before; its destructor is the one given and no other destructor or value changes, through the doubling; the table has the least size 8, 16, 32, ... with room for all keys; a failure changes nothing |
| `Tss.Storage.Get` | src/tls.c:94-99 | what this thread stored last under the key, NULL if nothing |
| `Tss.Storage.Set` | src/tls.c:101-126 | stores for this thread and key and changes nothing else; the assertion at line 108 holds for every key given out |
| `Tss.Storage.Delete` | src/tls.c:128-133 | the key has no destructor any more; no other destructor and no value changes |
| `Tss.Storage.Perform` | src/tls.c:62-133 | a call made during a destructor has exactly its own effect on keys, values and table sizes |
| `Tss.Storage.PerformAll` | src/tls.c:62-133 | so have several, one after the other |
| `Tss.Storage.RunDestructors` | src/tls.c:135-154 | the destructors called, their values and the tables afterwards are those that the exit specification gives for the calls each destructor makes; of the keys left alone, those of exactly the live ones run |
| `Tss.KeysAreNew` | src/tls.c:85-88 | keys increase, so none is given out twice |
| `Tss.RunsInKeyOrder` | src/tls.c:140-152 | destructors run in key order, each at most once |
| `Tss.RunsExactlyTheLive` | src/tls.c:140-152 | a destructor runs if and only if key and value are live after the calls of the destructors before it, with that value |
| `Tss.ExitPlays` | src/tls.c:135-154 | nothing but the calls made by the destructors that run changes the tables |
| `Tss.UntouchedKeyRuns` | src/tls.c:135-154 | a key nobody deletes or stores to meanwhile has its destructor run if and only if it is live at the exit, with its value there |
| `Tss.DeadKeyNeverRuns` | src/tls.c:128-154 | nothing that is called gives a deleted key a destructor back, so none runs for it |
| `Tss.DeletedKeyDoesNotRun` | src/tls.c:128-154 | a key deleted anywhere among the calls of an earlier key's destructor does not have its own run |
| `TssThreads.StepKeeps` | src/tls.c:62-133 | each access of tss_create, tss_set or tss_delete by any thread keeps one thread inside the mutex, what every thread knows of the tables, and the tables in step with the calls completed |
| `TssThreads.EveryThreadKeepsItsValues` | src/tls.c:94-133 | under every schedule the assertion at line 108 holds, no store is out of bounds, tss_get gives what its own thread stored last, and between locked sections the shared table holds the destructors of the history |
| `TssThreads.EveryRunCanFinish` | src/tls.c:62-133 | no run deadlocks: it can be continued until all calls in progress have returned, and then the history has gained each of them once |
| `TssThreads.EveryCallGetsThrough` | src/tls.c:62-133 | at any time an idle thread can begin a tss_create, or a tss_set or tss_delete of a key that was given out, and have it in the history |
| `TssThreads.NoGrowthWithoutMemory` | src/tls.c:68-120 | no table grows in a turn whose allocation fails |
| `Strided.PutElement` | src/stdlib.c:93-101 | writing one element changes that element and no byte outside the array |
| `Strided.SplitElems` | src/stdlib.c:128-131 | the elements are those left of the pivot, the pivot, and those right of it |
| `Stdlib.Swap` | src/stdlib.c:93-101 | three copies exchange the two areas |
| `Stdlib.SwapElements` | src/stdlib.c:93-101 | on elements that is a swap, and nothing else changes |
| `Stdlib.Partition` | src/stdlib.c:110-126 | elements less than the last one in front of it, the others behind, a permutation, one comparison each |
| `Sorting.MoveLeft` | src/stdlib.c:117-121 | swapping a smaller element to the left side advances the partition |
| `Sorting.InsertPivot` | src/stdlib.c:125-126 | the last swap puts the pivot in its place |
| `Sorting.JoinSides` | src/stdlib.c:128-131 | sorted sides around a pivot are sorted as a whole |
| `Sorting.JoinPermutes` | src/stdlib.c:128-131 | permuting the sides permutes the whole |
| `Stdlib.Qsort` | src/stdlib.c:103-132 | for any element size and any comparison function: a permutation of the elements, nothing outside changed, at most n(n-1)/2 calls of the function; sorted if it is a total preorder |
| `Stdlib.SortedIsOrdered` | src/stdlib.c:134-157 | what qsort leaves is fit for searching any key |
| `Stdlib.SearchFindsIfOrdered` | src/stdlib.c:134-157 | on ordered elements the search specification finds an equal element if and only if there is one |
| `Stdlib.Bsearch` | src/stdlib.c:134-157 | for any array and function: ends where the search specification does, in at most floor(log2 n) + 1 calls of the function (2^(calls - 1) <= n); on elements ordered by it, finds an equal one if and only if there is one |
| `Stdlib.StandardBsearch` | src/stdlib.c:134-157 | on an array ordered as C11 7.22.5.1 asks, among whose elements the arguments may be exchanged: finds a match, the key compared first, if and only if there is one |
| `Stdlib.StandardIffExchangeable` | src/stdlib.c:134-157 | for a key and a function: bsearch meets C11 7.22.5.1 on every array ordered as that asks if and only if exchanging the arguments keeps equality and, if any element matches the key, turns the sign round |
| `Stdlib.MissesMatch` | src/stdlib.c:134-157 | an array, a key and a function for which the standard promises a match and none is found |
| `Stdlib.SortThenFind` | src/stdlib.c:103-157 | sorting and searching finds exactly what the array held before |
| `Strings.Strlen` | src/string.c:106-113 | the number of characters before the NUL |
| `Strings.Memcmp` | src/string.c:18-33 | 0 if and only if all bytes agree, else -1 or 1 by the first two that differ: the lesser first byte gives -1 if both are below 128 or both from 128 on, and a byte from 128 on is less than one below 128 |
| `Strings.Strchr` | src/string.c:172-183 | the first occurrence up to the NUL |
| `Strings.Member` | src/string.c:208-215 | the inner loop decides membership in the set |
| `Strings.Strspn` | src/string.c:200-217 | stops at the first character outside the set or the NUL |
| `Strings.Strcspn` | src/string.c:219-236 | stops at the first character of the set or the NUL |
| `Strings.SkipMissesNothing` | src/string.c:255-264 | skipping to the next candidate passes over no occurrence |
| `Strings.CandidateOccurs` | src/string.c:257-261 | comparing the rest behind a matching first character decides the occurrence |
| `Strings.Strstr` | src/string.c:248-266 | the least offset at which the substring occurs, NULL if and only if there is none, never reading past the NUL |
| `Tokenizer.StrtokR` | src/string.c:274-301 | gives the next run; at most the byte ending it changes, to NUL; the saved position moves past it; a call with no string and no saved position reads through a null pointer |
| `Tokenizer.RunsAreMaximal` | src/string.c:274-301 | the runs are exactly the maximal delimiter-free stretches, from left to right |
| `Tokenizer.Tokenize` | src/string.c:274-301 | calling until NULL gives one pointer for each run of the original string, in order |
| `Tokenizer.CallTimes` | src/string.c:274-301 | calling it k times gives the tokens in order and then NULL, and faults if and only if k is more than one above the number of tokens |
| `Tokenizer.TokensAreMaximalRuns` | src/string.c:274-301 | the tokens read as the maximal runs of the original string, and only the bytes ending them are different, now NUL |

## Left out

- HashTableHeap.HsearchData.Hsearch: asks for a table made with fewer than 2^63 entries, because beyond that the array has fewer slots than the code probes.
- Heap.Process.Allocate: asks, as `realloc` and `calloc` do, for a size that is small in the sense of `SafeIffSmall`; what happens beyond it is `HugeSizeFallsBack`.
- Heap.Process.Calloc: the bytes come cleared from the kernel by assumption.
- The object that %n writes to is not the output buffer, and is an object of its own type: the stores are listed, not made.
- Spinlock.LockConservesAdditions: the counter is unbounded here; `CounterFitsInt` says when that makes no difference.
- File descriptors, streams and the descriptor sink of printf (`write_fd`): kernel I/O; the checks of `rc` inside a conversion matter only there.
- The spin lock around printf: one call at a time is assumed.
- The variable argument list is a sequence of machine words and strings; a missing argument reads as zero.
- `vprintf_parse_spec` is one function with jumps in the source and several stage methods here.
- A width of INT_MIN given by `*` is negated as the machine does it, without a claim that this is defined in C.
- The hash mixing function of hsearch is any function, and the comparison functions of tsearch, qsort and bsearch are the same on all calls and have no effects.
- Characters are Dafny characters; only `memcmp` distinguishes their sign.
- The racing first initialisation of the lazy mutexes (src/malloc.c:19-35, src/tls.c:46-60): initialisation before a second thread exists is assumed.
- A mutex is modelled as the exchange on its flag. In `Tss`, which covers the destructors, each locked section is one step, and only the gap in which a destructor runs is open to other calls; `TssThreads` interleaves the accesses of the calls, without the exit of a thread.
- `TssThreads` and `ReallocThreads` have no bound on table sizes; the doubling of `tss_meta_capacity` does not wrap before memory runs out.
- Freeing a stack that the exiting thread still stands on, and the stack's memory as such.
- Freeing memory: `free` does nothing, so only the order of accesses around a free is modelled, in `Threads`.
- `qsort` with an element size of 0.
- Other entry points on the same code (`strtoll`, `atol`, `hsearch`, `strtok`, and the like), `ctype.c`, `setjmp`, signals, time and the header generator: they would add only easy members.
