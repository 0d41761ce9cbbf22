# Verified model of the inline MySQL client headers

The app bundles MySQL's C headers, and several of them define real algorithms inline. This project
models those algorithms in Dafny and proves what they promise.

| file | models |
|---|---|
| `AhoCorasick.dfy`, `Trie.dfy` | the multi-pattern matcher of `include/my_trie.h`: the mathematics over paths, then the linked nodes and the three walks over them |
| `AtomicSpec.dfy` | the contract of `include/my_atomic.h` as an atomic object shared by any number of threads |
| `Labels.dfy`, `CasMachine.dfy`, `MutexMachine.dfy` | the two ways of implementing that contract, interleaved step by step |
| `AtomicLaws.dfy` | what the contract means for callers: the last writer is seen, replies fit one another, the log is complete |
| `CasCompletion.dfy`, `MutexCompletion.dfy` | that calls can always be finished and the lock handed over, and what a call does that nobody interrupts |
| `CasWorstCase.dfy` | a schedule that reaches the bound on retries |
| `AtomicBodies.dfy` | the same bodies line by line, as one thread runs them while others interfere |
| `BitTricks.dfy` | `include/my_bit.h`, and the order arithmetic of a table kept in reversed-hash order |
| `SkipSpace.dfy` | `skip_trailing_space` of `include/m_string.h` |
| `Bitmap.dfy` | `include/my_bitmap.h` over a byte buffer |
| `Codec.dfy`, `Bytes.dfy` | the integer stores and loads of `include/myisampack.h` and `include/my_global.h`, and `MY_ALIGN` |
| `Words.dfy` | C's bitwise operators on bounded integers |

## Conventions

* Machine words are ranges of the integers. The operators `>>`, `&`, `|` and `^` are defined digit by
  digit and connected to a bit predicate by lemmas. Additions that can wrap are written `Add32`.
* The atomics assume sequentially consistent single-word reads and swaps. The state machines let
  any set of threads, of any size, take steps in any order. A run is linearizable when its calls and
  returns are also a behaviour of the atomic object of `AtomicSpec`, in which a call commits at one
  instant between its invocation and its return.
* Tables that the headers only declare are parameters with a contract (`BitTricks.Tables.Ok`), as is
  the tail mask of a bitmap (`Bitmap.MaskOk`). For each there is a proof that one exists. The
  constructor `Trie.Trie.ForKeys` does the same for prepared tries. It is not the repository's
  insertion or preparation code.

## Where the code and its comments disagree

The model follows the code.

* `my_bit_log2` is described as the smallest X with 2^X >= value. The loop computes the highest set
  bit. `BitTricks.Log2IsSmallestExponentIff` says exactly when the two are the same, and
  `BitTricks.Log2OfThree` gives an input where they differ.
* `ac_trie_next` is described as returning the length of the matched word. It looks only at the node
  it is in, so it can return 0 where a shorter key ends (`AhoCorasick.MissedMatch`).
  `AhoCorasick.ReportsEveryPositionIff` says for which key sets it never does.
* `my_round_up_to_next_power` names 0 as its only special input. Values above 2^31 also give 0.
* `skip_trailing_space` is described as returning the last non-space character. It returns the
  address after it.

## Model

| member | source | states |
|---|---|---|
| AhoCorasick.RunIsLongestSuffix | include/my_trie.h:82-92 | after any text fed from the root, the state is a suffix of the whole text that is empty or a prefix of some key, and no longer suffix of the text is a prefix of a key |
| AhoCorasick.NodesArePrefixesOfKeys | include/my_trie.h:22-29 | the nodes are the root and the strings with which some key begins, and no others |
| AhoCorasick.LongestCharacterized | include/my_trie.h:28 | the recursive longest suffix is the declarative one, and the only one |
| AhoCorasick.DeltaTracksLongest | include/my_trie.h:89-90 | following failure links until a child is found keeps the longest-suffix meaning for one more character |
| AhoCorasick.FailMovesIsLeast | include/my_trie.h:89-90 | a step follows the least number of failure links after which there is a child for the character or the root is reached, and ends at that child or at the root |
| AhoCorasick.AmortisedMoves | include/my_trie.h:89-90 | feeding a text follows at most as many failure links as it has characters, less the depth reached |
| AhoCorasick.GotoCallsAreLinear | include/my_trie.h:82-92 | the `trie_goto` calls made while feeding a text, added up over its characters, are at most two per character, less the depth reached |
| AhoCorasick.ReportIsLongestKey | include/my_trie.h:78-92 | a non-zero report L means that the last L characters are a key, and no longer key ends there |
| AhoCorasick.ReportsEveryPositionIff | include/my_trie.h:78-92 | for all texts the report is non-zero exactly where some key ends, if and only if every prefix of a key that ends in a key is itself a key |
| AhoCorasick.NoInnerKeysSuffices | include/my_trie.h:78-92 | no match is missed if no key occurs inside a key away from its start |
| AhoCorasick.MissedMatch | include/my_trie.h:78-92 | a key set and a text for which the report is 0 although a key has just ended |
| Trie.Trie.ForKeys | include/my_trie.h:22-38 | every key set with key lengths from 1 to 65535 has a prepared trie that satisfies the invariant, and its nodes are exactly the prefixes of keys and the root |
| Trie.TrieGoto | include/my_trie.h:55-65 | the walk along the siblings finds the child with the label; without one the root stays and other nodes give NULL; each call adds one to the count of calls |
| Trie.TrieSearch | include/my_trie.h:116-136 | the search succeeds exactly for the keys, and then stops at the node of the key |
| Trie.AcTrieState.constructor | include/my_trie.h:40-50 | a fresh matcher stands at the root and has been fed nothing |
| Trie.AcTrieState.Next | include/my_trie.h:82-92 | after every call the matcher is at the node of the longest suffix of the text fed so far that is a prefix of some key, or at the root if there is none; the result is the length of that suffix if it is a key and 0 otherwise; and the `trie_goto` calls counted since the start are at most two per character |
| Trie.FedKeyMatchesSearch | include/my_trie.h:82-136 | when a key has been fed to a fresh matcher, it stands at the node a search reaches, and the last report is the key's length |
| AtomicSpec.CommitOrderExplainsRun | include/my_atomic.h:17-38 | running the operations one by one in commit order gives the final value and every reply |
| AtomicSpec.ReturnsCommittedInside | include/my_atomic.h:17-38 | a call that returns committed exactly once, between its invocation and its return, with the reply that its operation gives at that instant |
| AtomicSpec.NoUpdateLost | include/my_atomic.h:19-20 | in any linearizable history of adds and loads in which all calls returned, the final value is the initial one plus all that was requested, modulo 2^32 |
| AtomicSpec.AddsBalance | include/my_atomic.h:19-20 | at every moment the word plus what pending adds still owe is the initial value plus all requests, modulo 2^32 |
| AtomicSpec.SwapRunsConserve | include/my_atomic.h:22-24 | in every concurrent run whose commits are swaps and loads, fetch-and-store hands out each value exactly once: fetched values and the final value are the stored values and the initial one |
| AtomicLaws.LastWriterIsSeen | include/my_atomic.h:17-38 | if a store or fetch-and-store of v commits and nothing but loads commits until a later call does, that call returns v, or compares with v if it is a compare-and-swap |
| AtomicLaws.LastWriterIsLeft | include/my_atomic.h:37-38 | until something other than a load commits, the word holds what was last stored |
| AtomicLaws.NextReplyFits | include/my_atomic.h:17-38 | the reply of each call determines, with its operation, what the next call finds: the old value plus the summand, the stored value, or the value seen |
| AtomicLaws.FirstReplyFits | include/my_atomic.h:17-38 | the first call to commit finds the initial value |
| AtomicLaws.LogHasEveryCommit | include/my_atomic.h:17-38 | the log that explains a run has one entry for every commit |
| AtomicLaws.LogHoldsReplies | include/my_atomic.h:17-38 | the entry of a call that returned holds its thread, its operation and the reply its caller got |
| CasMachine.StepRefines | include/my_atomic.h:64-86 | each step of a thread inside a body is one event of the atomic object or none |
| CasMachine.MachineRefinesSpec | include/my_atomic.h:64-86 | every interleaving of the swap loops, for any number of threads and every back end, maps to a run of the atomic object with the same calls, returns and word |
| CasMachine.CasLoopsAreLinearizable | include/my_atomic.h:64-86 | every history of add, fetch-and-store, compare-and-swap, load and store is linearizable |
| CasMachine.CasAddsLoseNothing | include/my_atomic.h:65-70 | after any run of adds and loads that has come to rest, the word is the initial value plus the sum of the adds modulo 2^32 |
| CasMachine.StaysUpToDate | include/my_atomic.h:65-76 | a thread that knows the word right after its read or failed attempt still knows it at its next attempt unless another thread commits in between |
| CasMachine.FailureMeansSomeoneElseCommitted | include/my_atomic.h:65-76 | whenever a retrying call is about to fail, another thread has committed since that call last looked at the word, be it by its plain read or by its previous attempt |
| CasMachine.AttemptsAreBounded | include/my_atomic.h:65-76 | in every schedule k calls make at most k(k+1)/2 compare-and-swap attempts altogether |
| CasMachine.AttemptsAreCounted | include/my_atomic.h:65-76 | the attempts of the bound are the steps by which a thread inside a loop executes compare-and-swap |
| CasWorstCase.BoundIsReached | include/my_atomic.h:65-70 | for every k there is a schedule of k adds of 1, all of which return, that makes exactly k(k+1)/2 attempts, so the bound is exact |
| CasCompletion.FinishesAlone | include/my_atomic.h:64-86 | from every reachable state a thread inside a call that runs alone returns after at most five steps |
| CasCompletion.WholeCall | include/my_atomic.h:64-86 | a call that nobody interrupts takes one step as a primitive and three as a derived body, and has the effect and the reply stated in the header, operation by operation |
| MutexMachine.StepRefines | include/atomic/rwlock.h:52-56 | under the lock, each plain access of a body is one event of the atomic object or none |
| MutexMachine.MachineRefinesSpec | include/atomic/rwlock.h:40-56 | every run of the locked bodies maps to a run of the same atomic object that the swap loops refine |
| MutexMachine.LockedBodiesAreLinearizable | include/atomic/rwlock.h:40-56 | every history of the mutex back end is linearizable |
| MutexMachine.LockedAddsLoseNothing | include/atomic/rwlock.h:52 | after any locked run of adds and loads that has come to rest, the word is the initial value plus the sum of the adds modulo 2^32 |
| MutexMachine.MutualExclusion | include/atomic/rwlock.h:40-45 | at most one thread is inside a body, and it holds the lock |
| MutexMachine.BlockIsAtomic | include/my_atomic.h:40-44 | from taking the lock until releasing it, however many calls are made in between, no other thread takes a step |
| MutexCompletion.LockIsHandedOver | include/atomic/rwlock.h:42-45 | an owner outside a call can release the lock, which is then free, and any thread can take it next |
| MutexCompletion.LockCanBeFreed | include/atomic/rwlock.h:42-56 | in every reachable state the thread inside a call can by itself finish within three steps, return and leave the lock free |
| MutexCompletion.WholeLockedCall | include/atomic/rwlock.h:42-56 | whenever the lock is free any thread can take it, make any call, finish it with the effect and the reply stated in the header, and leave the lock free |
| MutexMachine.UnlockedAddsLoseAnUpdate | include/my_atomic.h:40-44 | without the lock there is a run of two adds that loses one, and whose history no atomic behaviour explains |
| AtomicBodies.GccCas | include/atomic/gcc_builtins.h:22-25 | the body over the compiler's builtin is one atomic compare-and-swap with the contract's verdict and the seen value |
| AtomicBodies.MsvcCas | include/atomic/generic-msvc.h:66-69 | so is the body over the Windows intrinsic |
| AtomicBodies.MsvcLoad | include/atomic/generic-msvc.h:72-74 | swapping 0 for 0 reads the word and leaves it alone |
| AtomicBodies.AddBody | include/my_atomic.h:66-69 | whatever others write between its accesses, the loop ends with exactly one write, which leaves the returned old value plus the summand modulo 2^32 |
| AtomicBodies.FasBody | include/my_atomic.h:72-75 | the same for fetch-and-store: the write leaves the given value and the old one is returned |
| AtomicBodies.LoadBody | include/my_atomic.h:78-80 | one access that reports the word and leaves it alone |
| AtomicBodies.StoreBody | include/my_atomic.h:83-84 | the only write of the call is its last access and leaves the value in the word |
| AtomicBodies.LockedAdd | include/atomic/rwlock.h:52 | without interference the body has the effect and the reply of an atomic add |
| AtomicBodies.LockedFas | include/atomic/rwlock.h:53 | the same for fetch-and-store |
| AtomicBodies.LockedCas | include/atomic/rwlock.h:54 | the same for compare-and-swap |
| AtomicBodies.LockedLoad | include/atomic/rwlock.h:55 | the same for load |
| AtomicBodies.LockedStore | include/atomic/rwlock.h:56 | the same for store: the word holds the value afterwards |
| BitTricks.MyBitLog2 | include/my_bit.h:16-21 | the shift loop gives the position of the highest set bit |
| BitTricks.Log2Brackets | include/my_bit.h:16-21 | 2^log2(v) <= v < 2^(log2(v)+1) for v > 0 |
| BitTricks.Log2IsSmallestExponentIff | include/my_bit.h:11-21 | the loop's result is the smallest X with 2^X >= value exactly when value is 0 or a power of two |
| BitTricks.Log2OfThree | include/my_bit.h:11-21 | for 3 the smallest such X is 2 and the loop gives 1 |
| BitTricks.SmearDown | include/my_bit.h:73-77 | five shifted ors set every bit below the highest one |
| BitTricks.MyRoundUpToNextPower | include/my_bit.h:70-79 | the result is the least power of two not below v exactly for 1 <= v <= 2^31 and 0 otherwise, and its log2 is the smallest X with 2^X >= v |
| BitTricks.MyClearHighestBit | include/my_bit.h:81-90 | v without its highest bit, v - 2^log2(v) |
| BitTricks.MyCountBits | include/my_bit.h:23-43 | eight table lookups add up to the number of set bits of 64 |
| BitTricks.PopCountCounts | include/my_bit.h:23-43 | the sum of the binary digits is the number of positions with a set bit |
| BitTricks.ClearingTakesPopCountSteps | include/my_bit.h:23-90 | clearing the highest bit n times gives 0 exactly when n is at least the number of set bits |
| BitTricks.ClearingChainEnds | include/my_bit.h:23-90 | in any sequence of values each of which is the one before without its highest bit, 0 comes after exactly as many steps as the first has bits |
| BitTricks.MyReverseBits | include/my_bit.h:92-99 | four table lookups reverse 32 bits |
| BitTricks.BitOfRev | include/my_bit.h:92-99 | bit i of the reversed number is bit n-1-i of the number |
| BitTricks.ReverseIsInvolution | include/my_bit.h:92-99 | reversing twice gives the key back |
| BitTricks.ClearedIsSplitOrderPredecessor | include/my_bit.h:81-99 | among all c below 2^log2(b), b without its highest bit has the greatest reversed value not above that of b, and strictly below it |
| SkipSpace.SkipTrailingSpace | include/m_string.h:361-385 | for every buffer, address, word size and byte order the result is that of the plain loop: from it to the end all is 0x20, the byte before it is not, and every read is inside the buffer |
| SkipSpace.SkipWords | include/m_string.h:378-379 | the word loop reads only aligned words inside the buffer and passes over nothing but spaces |
| SkipSpace.TrimmedCharacterized | include/m_string.h:382-384 | the plain loop's result is the one length after which all is space and before which is none |
| SkipSpace.WordOfSpaces | include/m_string.h:318-323 | a word equals `SPACE_INT` exactly when all its bytes are spaces |
| Bitmap.OpRefinesSet | include/my_bitmap.h:99-106 | set, flip, clear, set-all and clear-all on the bytes are those operations on the set of members |
| Bitmap.RunRefinesSet | include/my_bitmap.h:99-160 | so is any run of them, from any contents |
| Bitmap.LastTouchDecides | include/my_bitmap.h:99-160 | in any run the last operation that names a bit decides it: set, cleared, or the opposite of what it was before that operation |
| Bitmap.MyBitmap.SetBit | include/my_bitmap.h:119-124 | adds the bit to the set; every other bit of the buffer keeps its value |
| Bitmap.MyBitmap.FlipBit | include/my_bitmap.h:125-130 | toggles the bit in the set; every other bit of the buffer keeps its value |
| Bitmap.MyBitmap.ClearBit | include/my_bitmap.h:131-136 | removes the bit from the set; every other bit of the buffer keeps its value |
| Bitmap.MyBitmap.IsSet | include/my_bitmap.h:137-142 | non-zero exactly for members, and then the bit's value in its byte |
| Bitmap.MyBitmap.SetAllBits | include/my_bitmap.h:159-160 | the set becomes all numbers below n_bits |
| Bitmap.MyBitmap.ClearAllBits | include/my_bitmap.h:157-158 | the set becomes empty |
| Bitmap.MyBitmap.SetTail | include/my_bitmap.h:152-153 | or-ing the mask into the last word changes no member and sets every bit beyond the map |
| Bitmap.EqualBytesIffEqualSets | include/my_bitmap.h:154 | with the tails set, equal bytes mean equal sets and the other way round |
| Bitmap.BitmapCmp | include/my_bitmap.h:150-155 | true exactly for equal sets, and neither set changes, also when the maps share a buffer |
| Bitmap.SizesAgreeIff | include/my_bitmap.h:95-98 | the two ways of computing the buffer size agree exactly outside the 24 values of n_bits for which only one of them wraps |
| Bitmap.SizesAreLeastIff | include/my_bitmap.h:95-98 | `no_bytes_in_map` is the least number of bytes for all bits, `bytes_word_aligned` the least multiple of 4 not below its argument, and `bitmap_buffer_size` the least number of bytes in whole words for all bits, each exactly when its sum does not wrap |
| Bitmap.BufferHasRoom | include/my_bitmap.h:95-98 | the buffer of a map has the size that both macros compute, and room for every bit with less than a word to spare |
| Bytes.HighFirstKeepsOrder | include/myisampack.h:16-21 | x < y exactly when the high-first bytes of x are below those of y byte by byte, for every width |
| Bytes.LexBelowMeans | include/myisampack.h:16-21 | byte strings compare by the first byte that differs |
| Bytes.DigitOfToLow | include/my_global.h:1284-1312 | byte k of the low-first bytes is x / 256^k modulo 256 |
| Bytes.DigitOfFromLow | include/my_global.h:1255-1283 | the number read back has the bytes as its digits in base 256 |
| Codec.StoredKeysKeepOrder | include/myisampack.h:84-125 | so keys stored in buffers compare as their numbers do |
| Codec.MiIntStore | include/myisampack.h:84-125 | the stores of 2 to 8 bytes write the digits of the number in base 256, of its two's complement if negative, highest first, and leave every other byte of the buffer as it was |
| Codec.MiUintKorr | include/myisampack.h:42-79 | the unsigned loads of 2 to 8 bytes give the number whose highest byte comes first |
| Codec.MiSintKorr | include/myisampack.h:27-41 | the signed loads give its two's complement value, whether `char` is signed or not |
| Codec.HighRoundTrip | include/myisampack.h:27-125 | loading after storing gives x mod 256^n, or the two's complement value for signed loads, and x itself if it fits |
| Codec.IntStore | include/my_global.h:1284-1312 | the portable stores write the digits of the number in base 256, of its two's complement if negative, lowest first, and leave every other byte of the buffer as it was |
| Codec.UintKorr | include/my_global.h:1255-1283 | the portable unsigned loads give the number whose lowest byte comes first |
| Codec.SintKorr | include/my_global.h:1240-1254 | the portable signed loads give its two's complement value |
| Codec.LowRoundTrip | include/my_global.h:1240-1312 | loading after storing, low byte first |
| Codec.FastIntStore | include/my_global.h:1198-1214 | the x86 word stores leave the whole buffer as the portable stores do |
| Codec.FastUintKorr | include/my_global.h:1170-1196 | the x86 word loads agree with the portable ones, `uint3korr` with its four-byte read included |
| Codec.FastSintKorr | include/my_global.h:1160-1197 | the x86 signed loads agree with the portable ones |
| Codec.LoadsMirror | include/myisampack.h:27-79 | a high-first load is the low-first load of the reversed bytes |
| Codec.DivUpIsLeast | include/my_global.h:940 | l times `MY_DIV_UP(a, l)` is the least multiple of l not below a |
| Codec.AlignIsLeastMultipleIff | include/my_global.h:931-940 | for a power of two, `MY_ALIGN` is the least multiple not below a exactly when the sum does not wrap, and then equals l times `MY_DIV_UP` |

## Left out

- The Objective-C classes of the app: user interface, stored records, file transfer, SSH and speech glue. The framework headers beside them are declarations without bodies.
- MySQL parts that are only declared: key cache, thread locks, lock-free hash and allocator, trees, queues, decimals, digests, `trie_insert`, `ac_trie_prepare`, `create_last_word_mask`.
- The insertion order of siblings: the invariant admits any order, and `ForKeys` picks the ascending one.
- Pointer-sized atomics: the machines are stated for the 32-bit forms; `fas`, `cas`, `load` and `store` on pointers have the same bodies.
- Signed overflow of `tmp+v`: undefined in C for the signed instance; the model adds modulo 2^32 as the processors do.
- AtomicBodies.AddBody: other threads write finitely often during a call; under endless interference the C loop need not end. `CasMachine.AttemptsAreBounded` bounds the attempts in whole runs.
- AtomicBodies.FasBody: the same limit on interference.
- AtomicBodies.StoreBody: the same, because it calls the fetch-and-store body.
- AtomicBodies.GccCas: `cmp` is a private variable of the caller, as in every body of the header; a `cmp` that aliases the shared word is not modelled.
- AtomicBodies.LockedCas: asks for `cmp` to be distinct from the shared word, for the same reason.
- Weak memory ordering, and the inline assembly of `include/atomic/x86-gcc.h`.
- The dummy (deliberately non-atomic) build modes, and `my_yield_processor`, which only waits.
- Bitmap.MyBitmap.SetTail: words are little-endian, as in the shipped configuration, and maps have at least one bit.
- The bitmap's mutex: the inline operations do not take it.
- Codec.MiIntStore: one member stands for seven macros that differ in width; `ulong` is taken with 32 bits, where the two-part stores matter. With 64 bits the same bytes are written.
- Codec.FastUintKorr: the byte-by-byte forms for 5 and 6 bytes are the portable ones; `long` has 32 bits.
- Floating-point stores and loads, `IO_CACHE` macros, one-byte forms, `my_count_bits_ushort`, error lists and Unicode tables.
