# Verified model of the Calmarius snippets core

This project is a Dafny model of the core of the C "macro template" snippet
collection. It covers four groups of code, and each group is proved against a
specification:

- **Multi-word unsigned arithmetic.**
  - The single-word add with carry and the double-width multiply.
  - Ripple-carry addition over equal-length and unequal-length little-endian
    word arrays.
  - Schoolbook multiplication into a 2n-word result.
  - The older `bigint.h` variant of the addition.
- **RSA key derivation** (`rsaMakeKeys`). It runs over the big-number
  operations MUL, SUB, LCM, XGCD and EQUAL, which are modelled as
  mathematical functions. The key relations are those of sections 3.1 and
  3.2 of RFC 8017: n = p q, lambda(n) = LCM(p - 1, q - 1), and
  e d = 1 (mod lambda(n)).
- **Pointer data structures.**
  - The doubly linked list with its in-place bottom-up merge sort.
  - Search-tree find, the two rotations, and the AVL `insertUnique`.
  - The LIFO free-list sub-allocator.
  - The first-fit, boundary-toggling allocator.
- **Bit tricks and hashes.** `ispower2`, `roundUpP2`, FNV-1a in its 32-bit
  and 64-bit forms, and the linear congruential generator `getRand`.

Each C source file maps to one Dafny module:

| module | file | models |
|---|---|---|
| `Words` | words.dfy | 32-bit words and the value of a word sequence (shared) |
| `BigInt` | bigint.dfy | arbitrary_precision/bigint.h |
| `LegacyBigint` | legacy_bigint.dfy | bigint.h |
| `Rsa` | rsa.dfy | crypto/pubkey/rsa.h |
| `LinkedList` | linkedlist.dfy | data_structures/linkedlist.h |
| `BinaryTree` | binarytree.dfy | the heap-level rotations of binarytree.h |
| `TreeRotate` | treerotate.dfy | treerotate.h |
| `SearchTree` | searchtree.dfy | find, rotations and insertUnique of binarytree.h and streefind.h, on tree values |
| `SubAllocator` | suballocator.dfy | suballocator.h |
| `BoundaryAllocator` | allocator.dfy | allocator.h, with the boundary store of allocator.c |
| `Fnv` | fnv.dfy | hash_fn/non-crypto/fnvhash.c |
| `Bits` | bits.dfy | ispower2.c and roundpower2.c |
| `Random` | random.dfy | prng/simplerandom.c and its copy simplerandom.c |

Representation choices:

- The word width is fixed at 32 bits. Word arrays are `array<Word>`, and a
  number is the little-endian value `Val` of its words.
- Code that updates objects in place is modelled as classes with fields:
  - list nodes and the list handle;
  - tree nodes;
  - the allocator contexts;
  - the generator state.
- Ghost sequences (the order of a list's nodes, the free list) state what
  the links mean.
- Addresses in the two allocators are natural numbers, with 0 as NULL.
- The machine resources the code asks for are parameters of the operations:
  - the page `GET_PAGE` returns;
  - the page `SYSTEM_ALLOC` returns.
- Whether the boundary store can allocate a tree node is state: the store
  holds a count of the nodes it can still allocate. An insertion uses one,
  and a removal gives one back.
- The bit tricks and hashes use Dafny bit-vectors (`bv32`, `bv64`, bytes as
  `bv8`). These wrap around as C's unsigned arithmetic does.
- `getRand` reduces modulo 2^32 explicitly, taking `unsigned` as 32 bits.

## Model

| member | source | states |
|---|---|---|
| BigInt.AddDigit | arbitrary_precision/bigint.h:85-89 | the stored word plus the carry times 2^32 is exactly a + b; the carry is 0 or 1, and it is 1 exactly when a + b >= 2^32 (the same code is bigint.h:42-46) |
| BigInt.AddDigitVector | arbitrary_precision/bigint.c:21-23 | 0xFFFFFFFF + 0xFFFFFFFF gives 0xFFFFFFFE with carry 1 |
| BigInt.MulDigit | arbitrary_precision/bigint.h:92-116 | high * 2^32 + low is exactly a * b: the half-word decomposition loses nothing (the same code is bigint.h:49-73) |
| BigInt.AddCrossTerms | arbitrary_precision/bigint.h:111-115 | adding the shifted cross terms into (high, low), with carries into high, keeps the exact two-word value when the total fits in two words |
| BigInt.MulDigitVector | arbitrary_precision/bigint.c:25-27 | the only two words whose value is 0xFFFFFFFF squared are high 0xFFFFFFFE and low 1, which pins down the test vector of MulDigit |
| BigInt.RippleAdd | arbitrary_precision/bigint.h:128-132 | the word written plus the carry out times 2^32 is a + b + carry-in; the carry out is 0 or 1 |
| BigInt.AddBigint | arbitrary_precision/bigint.h:119-135 | Val(result[0..n)) + carry * 2^(32n) == Val(a) + Val(b), over the inputs as they were on entry, so result may be either input; carry is 0 or 1; words from n on are untouched |
| BigInt.AddBigintEx | arbitrary_precision/bigint.h:138-164 | the shorter operand reads as zero-extended; exactly max(nA, nB) words are written, with the same value and carry equation; result may be an input at the same offset; all other words are untouched |
| BigInt.MulBigint | arbitrary_precision/bigint.h:166-188 | with result distinct from both inputs, result[0..2n) holds exactly Val(a) * Val(b), so no carry is lost; words from 2n on are untouched |
| BigInt.AddDigitProduct | arbitrary_precision/bigint.h:180-185 | one inner step adds aWords[j] * bWords[i] at weight 2^(32(i+j)) to the value of result[0..2n) |
| LegacyBigint.LegacyAdd | bigint.h:82-87 | the words and the carry the loop produces: n words, and a carry of 0 or 1 |
| LegacyBigint.AddBigint | bigint.h:76-90 | with result distinct from the inputs, the words written and the carry returned are those of LegacyAdd; words from n on are untouched |
| LegacyBigint.LegacyCarryOut | bigint.h:85 | the returned carry is 1 exactly when the top word pair overflows, whatever the incoming carry |
| LegacyBigint.LegacyAddValue | bigint.h:84-86 | value + carry * 2^(32n) + the dropped carries (each at its weight) == Val(a) + Val(b) |
| LegacyBigint.LostZero | bigint.h:84-86 | nothing is lost exactly when no position drops a carry |
| LegacyBigint.LegacyAddExact | bigint.h:76-90 | the legacy sum is exact if and only if no word pair that receives a carry sums to 2^32 - 1 |
| LegacyBigint.LegacyAddDropsCarry | bigint.h:84-86 | for a = [0xFFFFFFFF, 0] and b = [1, 0xFFFFFFFF] the legacy loop gives words [0, 0] and carry 0, while the true sum is 2^64 |
| LegacyBigint.LegacyAddVectors | bigint.c:28-49 | the two test sums come out as the tests expect, including the final carry |
| Rsa.XGcd | crypto/pubkey/rsa.h:28-31 | XGCD: a x + b y equals the result's gcd, and that is Euclid's gcd of a and b |
| Rsa.GcdDivides | crypto/pubkey/rsa.h:28-31 | the gcd divides both arguments |
| Rsa.GcdGreatest | crypto/pubkey/rsa.h:28-31 | every common divisor divides the gcd |
| Rsa.GcdPositive | crypto/pubkey/rsa.h:28-31 | the gcd is positive unless both arguments are 0 |
| Rsa.Lcm | crypto/pubkey/rsa.h:23-26 | LCM: a common multiple of both arguments whose product with the gcd is a b |
| Rsa.DividesCombination | crypto/pubkey/rsa.h:75-77 | a common divisor of x and y divides p x + q y |
| Rsa.Inverse | crypto/pubkey/rsa.h:75-77 | a Bezout identity e d + m k == 1 makes d an inverse of e modulo m |
| Rsa.RsaMakeKeys | crypto/pubkey/rsa.h:63-91 | returns 0 or -1; modulus == p1 p2; -1 exactly when gcd(e, LCM(p1-1, p2-1)) != 1; on success lambda divides e d - 1; released: totient, pM1, pM2 and k, plus both outputs on failure; gcd is never released |
| Rsa.RsaMakeKeysReleasingGcd | crypto/pubkey/rsa.h:85-90 | the same results, and every temporary is released exactly once; only the two outputs of a successful call survive |
| Rsa.TotientVector | crypto/pubkey/rsa.c:97-107 | p = 61, q = 53 give n = 3233 and lambda = 780 |
| Rsa.InverseVector | crypto/pubkey/rsa.c:99-110 | e = 17 is accepted for lambda = 780, and 413 is an inverse of 17 modulo 780 |
| LinkedList.InsertAfter | data_structures/linkedlist.h:124-140 | splices the element in after elem and repairs the prev link of elem's old successor; every other link is kept; with elem NULL both links of the element become NULL |
| LinkedList.Merge | data_structures/linkedlist.h:251-285 | the merge of two segments has the length of both together |
| LinkedList.MergePermutation | data_structures/linkedlist.h:251-285 | the merge is a permutation of the two segments |
| LinkedList.MergeSorted | data_structures/linkedlist.h:251-285 | merging two sorted segments gives a sorted segment |
| LinkedList.MergeTakesSecondOnTie | data_structures/linkedlist.h:253 | LESS is strict, so on equal payloads the second segment's element goes first and the sort is not stable |
| LinkedList.Pass | data_structures/linkedlist.h:215-287 | one pass keeps the length of the list |
| LinkedList.PassPermutation | data_structures/linkedlist.h:215-287 | one pass is a permutation of the list |
| LinkedList.PassRuns | data_structures/linkedlist.h:215-287 | a pass over sorted runs of w elements gives sorted runs of 2w |
| LinkedList.SingletonRuns | data_structures/linkedlist.h:194 | every list is made of sorted runs of one element |
| LinkedList.SortFromCorrect | data_structures/linkedlist.h:201-288 | the passes from run length w on give a sorted permutation |
| LinkedList.SortSpecCorrect | data_structures/linkedlist.h:192-294 | the order sort leaves the list in is sorted and a permutation of the original |
| LinkedList.CutSegment | data_structures/linkedlist.h:227-240 | walks segmentSize links from start, cuts the list after the segment, and returns the next element, or NULL at the end of the list |
| LinkedList.FindSegments | data_structures/linkedlist.h:221-243 | finds the starts of the next two segments and cuts them off, counting the segments it found |
| LinkedList.Append | data_structures/linkedlist.h:255-259 | moves the head of a segment to the end of the merged list |
| LinkedList.MergeWhileBoth | data_structures/linkedlist.h:251-269 | takes the LESS head while both segments have elements; what is merged plus the merge of the rests is the merge of both |
| LinkedList.Drain | data_structures/linkedlist.h:270-285 | appends what is left of a segment |
| LinkedList.MergeSegments | data_structures/linkedlist.h:246-286 | appends exactly Merge(A, B) to the merged list, with the links following the new order |
| LinkedList.MergePair | data_structures/linkedlist.h:242-286 | merges one pair of segments onto the list built so far |
| LinkedList.PassRound | data_structures/linkedlist.h:217-287 | one round of the while loop: the exit with one segment exactly when the first segment takes in the whole list, and otherwise the pass so far extended by one merged pair |
| LinkedList.RunPass | data_structures/linkedlist.h:209-288 | a pass ends sort exactly when the list fits in one segment; otherwise it relinks the list into Pass(list, segmentSize) |
| LinkedList.MergeSortPasses | data_structures/linkedlist.h:192-294 | relinks the list into SortSpec order, a sorted permutation, with the next and prev links consistent and head and tail at its ends |
| LinkedList.List.Init | data_structures/linkedlist.h:98-104 | head and tail are NULL; the list is empty |
| LinkedList.List.AddHead | data_structures/linkedlist.h:106-121 | the element becomes the head, linked to the old head with no predecessor; the old head's prev is the element; on an empty list it is the tail too |
| LinkedList.List.AddTail | data_structures/linkedlist.h:174-187 | the element becomes the tail, after the old tail with no successor; the old tail's next is the element; on an empty list it is the head too |
| LinkedList.List.InsertAfterElement | data_structures/linkedlist.h:124-140 | inserting after an element that is not the tail keeps the list valid, with the new element right after elem and head and tail unchanged |
| LinkedList.List.RemoveHead | data_structures/linkedlist.h:143-156 | the old head's successor becomes the head with no predecessor; an emptied list has no tail |
| LinkedList.List.RemoveTail | data_structures/linkedlist.h:160-169 | the old tail's predecessor becomes the tail with no successor; an emptied list has no head |
| LinkedList.List.Sort | data_structures/linkedlist.h:192-294 | on a non-empty list the nodes are relinked into SortSpec order: sorted by LESS and a permutation of the old nodes |
| BinaryTree.TreeNode.constructor | binarytree.h:155-163 | a new node has key k, height 1 and no links |
| BinaryTree.RotateRight | binarytree.h:115-128 | B becomes the root with A's old parent; A becomes B's right child with parent B; B's old right child D becomes A's left child and, when it exists, gets parent A; C, E, keys and heights are unchanged |
| BinaryTree.RotateLeft | binarytree.h:130-143 | the mirror image of RotateRight, also when D is NULL |
| BinaryTree.RotateRightThenLeft | binarytree.h:115-143 | rotateLeft after rotateRight restores every link of the subtree: the children and parent of A, of its left child B and of B's right child D, and the stored heights of all three |
| TreeRotate.RotateRight | treerotate.h:53-66 | reshapes A(B(C, D), E) into B(C, A(D, E)) with every parent link set; D must exist because its parent is set unconditionally |
| TreeRotate.RotateLeft | treerotate.h:69-82 | reshapes B(C, A(D, E)) into A(B(C, D), E); D must exist |
| TreeRotate.RotateRightThenLeft | treerotate.h:53-82 | rotateLeft after rotateRight restores every link |
| SearchTree.Recalc | binarytree.h:69-71 | recomputing the height keeps the node's children, key and in-order keys; the new height is above both children's and one more than one of them; a node with AVL children within one of each other's height becomes an AVL tree |
| SearchTree.Find | streefind.h:38-44 | a node that find returns holds the key and lies in the given subtree (binarytree.h:105-111 is the same code) |
| SearchTree.FindComplete | streefind.h:38-44 | on a search tree, find returns a node exactly when the key is in the tree, and NULL otherwise |
| SearchTree.RotateRight | binarytree.h:115-128 | the rotation keeps the in-order key sequence and the key set |
| SearchTree.RotateLeft | binarytree.h:130-143 | the rotation keeps the in-order key sequence and the key set |
| SearchTree.RotationsInverse | binarytree.h:115-143 | each rotation undoes the other |
| SearchTree.FixLeftHeavy | binarytree.h:192-205 | the LR or single right rotation keeps the in-order sequence |
| SearchTree.FixRightHeavy | binarytree.h:206-219 | the RL or single left rotation keeps the in-order sequence |
| SearchTree.Rebalance | binarytree.h:186-222 | the normalisation keeps the in-order sequence |
| SearchTree.RebalanceKeeps | binarytree.h:186-222 | the normalisation keeps the key set and the search-tree order |
| SearchTree.RebalanceBalanced | binarytree.h:186-222 | normalising a balanced node with exact heights changes nothing |
| SearchTree.RebalanceAvl | binarytree.h:186-222 | normalising a node whose children are AVL trees with heights at most 2 apart gives an AVL tree, at most one taller than its taller child |
| SearchTree.FixLeftHeavyAvl | binarytree.h:192-205 | the bf <= -2 branch restores balance and exact heights |
| SearchTree.FixRightHeavyAvl | binarytree.h:206-219 | the bf >= 2 branch restores balance and exact heights |
| SearchTree.Insert | binarytree.h:147-225 | insertUnique with a node available always gives a non-empty tree |
| SearchTree.InsertUnique | binarytree.h:147-165 | NULL exactly when the tree is empty and no node can be allocated; otherwise the key set becomes the old one plus k |
| SearchTree.InsertKeys | binarytree.h:153-184 | after the insertion the key set is the old one plus k |
| SearchTree.InsertOrdered | binarytree.h:167-184 | the insertion keeps the search-tree order |
| SearchTree.InsertAvl | binarytree.h:147-225 | the insertion keeps the AVL invariant (exact heights, balance in [-1, 1]) and grows the height by at most one |
| SearchTree.InsertPresent | binarytree.h:167 | inserting a key already present changes nothing |
| SearchTree.InsertFinds | binarytree.h:147-225 | after the insertion, find locates a node holding k |
| SubAllocator.PageCells | suballocator.h:64-68 | the cells of a page from element `from` on, in ascending address order |
| SubAllocator.AllocCtx.Init | suballocator.h:46-49 | the head is NULL and the free list is empty |
| SubAllocator.AllocCtx.Allocate | suballocator.h:52-81 | a non-empty list gives its head, and the head advances to the link stored there; an empty list with no page gives NULL and stays empty; an empty list with a page gives newPage + 0 and leaves newPage + 1 .. + 99 on the list in order; the result is not left on the list; every cell outside the new page keeps its link, and no cell outside it is added |
| SubAllocator.AllocCtx.ThreadPage | suballocator.h:64-70 | the refill loop threads the cells of the page in ascending address order; every cell outside the page keeps its link, and only cells of the page are added |
| SubAllocator.AllocCtx.Deallocate | suballocator.h:84-90 | elem becomes the head, and its cell links to the old head |
| SubAllocator.AllocCtx.DeallocateThenAllocate | suballocator.h:73-90 | the list is LIFO: allocating right after deallocating elem returns elem and restores the list |
| BoundaryAllocator.AlignDown | allocator.h:110 | the address rounded down to a multiple of the alignment, less than one alignment below it |
| BoundaryAllocator.AlignedSize | allocator.h:111 | a multiple of 16 greater than size and at most size + 16; in size_t it wraps to 0 for the last 16 sizes |
| BoundaryAllocator.PageSize | allocator.h:154 | a multiple of the granularity greater than alignedSize and at most one granularity above it; for alignedSize >= 2^64 - 2^16 it wraps to exactly 0 in size_t |
| BoundaryAllocator.InsertSorted | allocator.c:43-45 | inserting a border keeps the store ordered and adds exactly that border |
| BoundaryAllocator.Remove | allocator.c:36-40 | removing a border keeps the store ordered and removes exactly that border |
| BoundaryAllocator.SortedUnique | allocator.c:32-49 | two ordered stores with the same borders are equal |
| BoundaryAllocator.Toggle | allocator.c:32-49 | TOGGLE_BOUNDARY: the store becomes the symmetric difference with {x}; it fails (-1, store unchanged) exactly when x is absent and no node can be allocated |
| BoundaryAllocator.ToggleTwice | allocator.h:94-95 | toggling a border twice gives back the same store |
| BoundaryAllocator.ToggleBlockRemovesIt | allocator.h:94-95 | toggling both borders of a free block removes them both, which coalesces the block with its neighbours |
| BoundaryAllocator.FirstFitFrom | allocator.h:126-151 | a block the scan finds is a well-formed pair of borders, at an even position, at least alignedSize long |
| BoundaryAllocator.FirstFitSkips | allocator.h:126-151 | the scan is first fit: every block before the one found is too small; when none is found, the borders pair up into blocks that are all too small |
| BoundaryAllocator.FirstFitComplete | allocator.h:126-151 | on an ordered, paired store the scan never reports a broken store, and finds nothing exactly when every free block is too small |
| BoundaryAllocator.ToggleBlock | allocator.h:113-119 | the result is NULL or the block's address, and for a non-NULL address it is that address exactly when both toggles succeed; the store is the one the two toggles leave, and when both succeed on a non-empty block its members are the old ones with a and a + n toggled |
| BoundaryAllocator.AllocateFromPage | allocator.h:152-164 | when no block fits and the system gives a page whose borders are not in the store, allocation returns the page exactly when both border nodes can be allocated (NULL otherwise), and the store then gains exactly newPage + alignedSize and newPage + pageSize |
| BoundaryAllocator.AllocateInBlock | allocator.h:144-150 | allocation in a free block never fails; it returns the block's start, which leaves the store, and toggles the border after the new block |
| BoundaryAllocator.ExactFitCoalesces | allocator.h:94-95 | an allocation the exact size of its free block removes both of the block's borders |
| BoundaryAllocator.TogglePairTwice | allocator.h:113-119 | toggling the same two borders twice over gives back the store |
| BoundaryAllocator.ReleaseUndoesAllocate | allocator.h:94-97 | memToggle on the address an allocation returned, with the same size, restores every border and every free node |
| BoundaryAllocator.MemToggleSpec | allocator.h:108-166 | memToggle keeps the border store ordered |
| BoundaryAllocator.Allocator.ToggleBoundary | allocator.c:32-49 | returns 0 or -1, and the store becomes what Toggle says |
| BoundaryAllocator.Allocator.TogglePairAt | allocator.h:116-118 | two toggles; the result is given when both succeed, and NULL otherwise |
| BoundaryAllocator.Allocator.Scan | allocator.h:123-151 | the loop over the border pairs ends where FirstFit says |
| BoundaryAllocator.Allocator.Allocate | allocator.h:121-165 | the result and the new store are those of AllocateSpec |
| BoundaryAllocator.Allocator.MemToggle | allocator.h:108-166 | the result and the new store are those of MemToggleSpec |
| Fnv.HashFrom32Append | hash_fn/non-crypto/fnvhash.c:18-22 | the 32-bit hash of a + b is the hash of b continued from the state a leaves |
| Fnv.HashFrom64Append | hash_fn/non-crypto/fnvhash.c:33-37 | the 64-bit hash of a + b is the hash of b continued from the state a leaves |
| Fnv.Hash32Snoc | hash_fn/non-crypto/fnvhash.c:15-22 | the empty input hashes to 0x811c9dc5; appending a byte applies one XOR-and-multiply step: the hash is a left fold |
| Fnv.Hash64Snoc | hash_fn/non-crypto/fnvhash.c:30-37 | the empty input hashes to 0xcbf29ce484222325; appending a byte applies one step |
| Fnv.Fnv32 | hash_fn/non-crypto/fnvhash.c:13-25 | returns the 32-bit FNV-1a hash of exactly the first n bytes |
| Fnv.Fnv64 | hash_fn/non-crypto/fnvhash.c:28-40 | returns the 64-bit FNV-1a hash of exactly the first n bytes |
| Fnv.HelloWorld32 | hash_fn/non-crypto/fnvhash.c:54 | "Hello world!" hashes to 0x7a78f512 |
| Fnv.HelloWorld64 | hash_fn/non-crypto/fnvhash.c:55 | "Hello world!" hashes to 0x9e527e14572072d2 |
| Bits.IsPower2 | ispower2.c:6-19 | the result is 0 or 1, and 0 is not a power of two |
| Bits.Power2Exponent | ispower2.c:9-14 | a non-zero word sharing no bit with its predecessor is 2^k for some k < 32 |
| Bits.IsPower2Correct | ispower2.c:6-19 | the result is 1 exactly when x == 2^k for some k < 32 |
| Bits.IsPower2Vectors | ispower2.c:28-48 | the unit-test values, both true and false |
| Bits.Pow2 | ispower2.c:9-14 | 2^k shares no bit with its predecessor |
| Bits.Smear | roundpower2.c:16-21 | after the OR cascade every bit below the top set bit is set; the result is 0 only for 0 |
| Bits.RoundUpP2 | roundpower2.c:7-25 | roundUpP2(0) == 0, through the wrap-around of x-- and then x++ |
| Bits.NextPower | roundpower2.c:15-22 | one more than the smeared x - 1 is the least power of two at least x |
| Bits.RoundUpP2Smallest | roundpower2.c:7-25 | for 1 <= x <= 2^63 the result is a power of two, at least x, and its half is below x |
| Bits.RoundUpP2Least | roundpower2.c:7-25 | no power of two at least x lies below the result |
| Bits.PowersOrdered | roundpower2.c:7-25 | the least power of two at least x is at most every power of two at least x |
| Bits.RoundUpP2Fixed | roundpower2.c:9 | powers of two are fixed points |
| Bits.RoundUpP2Wraps | roundpower2.c:22 | above 2^63 the increment wraps and the result is 0 |
| Bits.RoundUpP2Idempotent | roundpower2.c:7-25 | rounding up twice is rounding up once, for every 64-bit input |
| Bits.RoundUpP2Vectors | roundpower2.c:31-38 | the unit-test values |
| Random.NextState | prng/simplerandom.c:5 | the new state is below 0x7FFFFFFF |
| Random.RandomState.GetRand | prng/simplerandom.c:3-7 | the state advances to ((1103515245 s + 12345) mod 2^32) mod 0x7FFFFFFF, and the return value is the new state (simplerandom.c:3-7 is the same code) |
| Random.Draws | prng/simplerandom.c:3-7 | n successive draws give n numbers |
| Random.DrawsBounded | prng/simplerandom.c:5 | every draw is below 0x7FFFFFFF |
| Random.DrawsResume | prng/simplerandom.c:3-7 | the generator is deterministic, and its only state is the last number: m + n draws are m draws followed by n draws seeded with the m-th |
| Random.DrawMany | prng/simplerandom.c:3-7 | n calls of getRand in a row return exactly Draws(seed, n) from the state before the first call, and leave the state at the last number |
| Random.SameSeedSameDraw | simplerandom.c:3-7 | two generators in the same state return the same number and stay in step |

## Left out

- Big-number number theory: the full suite is not part of this model.
  - This covers divMod, modPow, Miller-Rabin, subtraction, shifts, compare, `mulEx` and the undefined `subBigint`.
  - `rsaMakeKeys` uses MUL, SUB, LCM, XGCD and EQUAL, which are mathematical functions on integers here, with the contracts their macros document. BIGNUM_RELEASE is a multiset of released names.
- Word widths other than 32 bits are not modelled.
- The difference between `rsaMakeKeys`'s doc comment and its code: the comment says -1 means "privExponent divides the modulus", while the code returns -1 when gcd(e, lambda) != 1. The model follows the code.
- The RSA test program: its argument order and its allocation helpers are not modelled. Only the facts behind its 780 and 413 are proved. The modulus 3233 = 61 * 53 is proved by Rsa.TotientVector; the test itself does not check it.
- Rsa.RsaMakeKeys requires prime1 >= 1 and prime2 >= 1. This is because the callers supply primes, and SUB(p, ONE) is then a natural number.
- LinkedList.List.Sort requires a non-empty list. On an empty list the pass loop never takes the segCount == 1 exit, so it does not terminate.
- The tail pointer after `sort` is not modelled as written. The source copies an uninitialised loop-local `tail` on the first pass, which is undefined behaviour. The model keeps the list's tail for a list that is already one segment, and otherwise takes the tail of the last merge.
- The singly linked and tail-less instantiations of the list template are not modelled; only the fullest one is.
- LinkedList.List.RemoveHead and LinkedList.List.RemoveTail require a non-empty list, since the source dereferences the head or tail.
- LinkedList.List.InsertAfterElement covers only an element other than the tail, because insertAfter does not update the tail pointer.
- Parent links and node identity in `insertUnique`: the AVL insertion is modelled on tree values, so parent links and the root's NULL parent are not covered.
  - The node pointer returned is represented by InsertFinds (find then locates k).
  - The heap-level rotations in BinaryTree and TreeRotate cover the parent links of a rotation.
- Node allocation failure below the root of `insertUnique` is not modelled: the source dereferences NULL there. Only the top-level empty-tree failure is modelled.
- HEIGHT: the model subtracts heights as integers. The unsigned height field of the source gives the same balance factor through its conversion to int.
- Tree operations that are called but never defined (deleteByKey, clear, begin, next) are not part of this model.
  - The allocator's boundary store is an ordered sequence standing for the tree that allocator.c keeps.
  - FIRST_BOUNDARY and NEXT_BOUNDARY are its in-order iteration.
- Raw memory in the sub-allocator: the pointer stored in a free cell by memcpy is an entry of the `cells` map, and addresses count elements rather than bytes.
- SubAllocator.AllocCtx.Deallocate requires that elem is not already free. Freeing twice corrupts the list in the source.
- The sub-allocator's test program is not modelled: it calls a function that does not exist and expects allocation to stop after one page.
- Pointer arithmetic past 2^64 in the allocator: addresses are unbounded naturals, so `newPage + pageSize` does not wrap.
- BoundaryAllocator.Toggle: the number of tree nodes the store can allocate is the model's own. In allocator.c the node comes from `malloc`, and no removal frees a node for a later insertion. The model fails an insertion whenever that count is 0, and each removal increments it.
  - On a non-empty store the source does not return -1: `insertUnique` dereferences the NULL that a failed allocation gives. The model makes this a clean -1 with the store unchanged.
  - BoundaryAllocator.ReleaseUndoesAllocate requires `spare > 0`, a condition on this count alone. BoundaryAllocator.AllocateFromPage's "both border nodes can be allocated" (`spare >= 2`) is one too.
- memToggle does not roll back a first toggle when the second fails; the model keeps that state as the source does.
- The dynamic array template is unfinished and is not part of this model.
- Test programs, printing, timing and random seeding from the clock are not modelled.
- The linked-list test's shuffle loop is test code and is not modelled.

## Findings

| source | as written | input that shows it | evidently intended | confidence | as-written member | corrected member |
|---|---|---|---|---|---|---|
| bigint.h:84-86 | `result[i] = carry; ...; result[i] += r;` drops the carry out of the second addition, and the returned carry is that of the top word pair alone | a = [0xFFFFFFFF, 0], b = [1, 0xFFFFFFFF], n = 2: words [0, 0] and carry 0, while the sum is 2^64 | the ripple-carry sum Val(result) + carry 2^(32n) == Val(a) + Val(b), as the later arbitrary_precision/bigint.h:128-132 computes it | not executed | LegacyBigint.LegacyAddDropsCarry | BigInt.AddBigint |
| crypto/pubkey/rsa.h:85-90 | the cleanup releases totient, pM1, pM2 and k, but never the gcd that XGCD allocated | every call, for example p = 61, q = 53, e = 17 | gcd is released with the other temporaries | not executed | Rsa.RsaMakeKeys | Rsa.RsaMakeKeysReleasingGcd |
