# Verified models of redlib

redlib is a freestanding C library: an allocator, containers, compression, text formats and drawing,
all written over raw memory. This project models its algorithmic core in Dafny and proves what that
core is for. Code that changes things in place is modelled in place (heap nodes with child and parent
links, arrays, classes with fields), and each such method is tied to a function over plain values
about which the properties are then proved.

| files | what they model |
|---|---|
| `basics.dfy`, `bits.dfy`, `divisors.dfy` | shared notions: bytes, reversal, bit strings, powers of two, greatest common divisors |
| `p_queue.dfy`, `weight_trees.dfy`, `huff_nodes.dfy`, `huffman.dfy` | the priority queue and the greedy Huffman construction |
| `canonical_codes.dfy`, `decode_tree.dfy`, `bit_reader.dfy`, `inflate_block.dfy` | canonical codes, the decode tree, the bit reader and the block loop of DEFLATE (RFC 1951) |
| `bt_shapes.dfy`, `rb_shapes.dfy`, `bt_tree.dfy` | search trees with parent links; red-black insertion |
| `bt_walks.dfy`, `bt_traversal.dfy`, `bt_removal.dfy` | traversal by climbing, counting, searching and removal |
| `alloc_tiling.dfy`, `alloc_memory.dfy`, `alloc_page.dfy` | one 4 KiB page: free list, splitting, coalescing, growing in place |
| `alloc_chain.dfy`, `alloc_registry.dfy`, `alloc_heap.dfy`, `allocator.dfy` | chained pages, the index of large regions, and the heap as a map from pointers to payloads |
| `json_values.dfy`, `json_lexer.dfy`, `json_parser.dfy` | tokenizer and recursive-descent parser of JSON |
| `json_grammar.dfy`, `json_spelling.dfy`, `json_texts.dfy` | which texts spell which values, and that the parser accepts exactly these |
| `json_form.dfy`, `json_layout.dfy`, `json_printer.dfy`, `json_round_trip.dfy` | the printer, how its output is laid out, and printing followed by parsing |
| `decimal.dfy`, `number_bases.dfy` | printing and parsing of integers |
| `memory_words.dfy`, `memory_copy.dfy`, `memory_reverse.dfy`, `memory_search.dfy` | `memcpy`, `memmove`, `memreverse`, `memcmp` and `memmem`, word by word |
| `gc.dfy` | the tri-colour collector as a protocol of steps |
| `hash_capacity.dfy`, `hash_table.dfy`, `hash_map.dfy` | the chained hash map |
| `line.dfy`, `rects.dfy` | the line rasteriser and the list of dirty rectangles |

Pages from the operating system come from a source that may fail at any call and otherwise returns
fresh zeroed memory; the hash function of the hash map is a parameter. Integer widths are written out
wherever they can matter.

Some of the code does not do what it is meant to do for every input. In those places the model
follows the code, and the project states for which inputs the intended result holds, in both
directions, with an input for which it does not:

- Equal keys: a traversal skips a node whose key equals that of the ancestor it climbs to, so
  `bt_tree_next` and the count kept by `bt_tree_remove` are right under an exact condition on the tree
  (`VisitAll`, `Count`, `Remove`, `EqualKeysMiscounted`).
- Object keys that are empty, or that contain a NUL or a character the printer escapes, do not survive
  printing and parsing (`RoundTripIff`, `EmptyKeyLost`).
- A JSON number in base 16, 2 or 8 is read as zero, one with a hexadecimal E is refused, and an empty
  key goes on to the end of the text or to a NUL (`ParseIff`).
- A collection during which the program changes memory, or one restarted before it ended, can release
  objects in use (`SafeIff`, `RootReleasedIff` and the two witnesses); a word pointing one past an
  object is not followed, so the next block is released too (`NeighbourIsReleased`, `NextBlockIsLost`).
- `fb_draw_line` can leave the 32-bit range in its error term although both coordinate differences
  fit (`FitsIff`, `LongDiagonalDoesNotFit`).
- The smallest-item index of the priority queue can go stale while items of the greatest priority value
  wait; then one item is handed out twice and another is lost (`PQueue.Pop`, `StaleIndex`).
- Codes are kept in 16 bits, which is too few for some code lengths above 16 (`DecodeCodes`,
  `SeventeenIsNot`).
- Rectangles on both sides of coordinate 2^31 lose pixels when they are merged (`TryMerge`, `LostPixel`).
- `chm_next_pow2` yields 0 above 2^63 (`NextPow2IsLeast`).

## Model

| member | source | states |
|---|---|---|
| PQueues.PQueue.Insert | data/struct/p_queue.c:4-13 | an item is appended exactly when there is room; what becomes of the cached index, and exactly when it points at a stored item afterwards |
| PQueues.PQueue.Pop | data/struct/p_queue.c:27-40 | with a good index the item handed out is stored and has the least value, and the others keep their order; with a stale one the slot it points at is handed out and the last stored item is lost; and exactly when the index is good afterwards |
| PQueues.StaleIndex | data/struct/p_queue.c:27-40 | a run on which that happens: one item is handed out twice and the other never |
| WeightTrees.CostIsPathLength | compression/huffman.c:60-69 | the sum of all inner weights is the weighted path length, at any starting depth |
| WeightTrees.GreedyChoice | compression/huffman.c:85-110 | for any tree whatever, giving its two lightest leaves one common parent costs nothing: a tree over the merged leaves exists that is cheaper by at least their sum |
| Huffman.BuildTree | compression/huffman.c:85-110 | the leaves are exactly the bytes that occur with their counts, the root carries the total modulo 2^16, and for totals below 2^16 no binary tree over these leaves has a smaller weighted path length |
| Huffman.PresentIs | compression/huffman.c:88-99 | the leaves to begin with are one for each byte below 256 with a nonzero count, in ascending order, and no others |
| CanonicalCodes.KraftIsTaken | compression/deflate.c:32-40 | the next-code recurrence, which goes by code length, adds up to Kraft's sum, which goes by symbol |
| CanonicalCodes.CodesFitIffKraft | compression/deflate.c:21-48 | every assigned code fits in its length if and only if the lengths satisfy Kraft's inequality |
| CanonicalCodes.PrefixFree | compression/deflate.c:32-46 | under Kraft's inequality no assigned code word is a prefix of another |
| CanonicalCodes.CodeIsShare | compression/deflate.c:32-46 | what a code is, without the recurrence: read as a fraction of its length, it is the share of the code space taken by exactly the codes before it, those that are shorter, or as long and of an earlier symbol (section 3.2.2 of RFC 1951) |
| CanonicalCodes.CodesInOrder | compression/deflate.c:42-46 | among symbols of one length the codes ascend with the symbols, and those of neighbours differ by one |
| CanonicalCodes.CodeBitsAt | compression/huffman.c:27-28 | bit k of a code word, counted from its start, is the binary digit of weight 2^(length-1-k): the most significant one comes first |
| DecodeTree.Populate | compression/huffman.c:20-37 | the heap tree becomes the old one with the value planted at the end of the code's bits; it reports whether the place was vacant |
| DecodeTree.PlaceIsFree | compression/huffman.c:20-37 | when a symbol is inserted, its place holds neither a leaf nor an inner node |
| DecodeTree.DecodesNext | compression/huffman.c:20-37 | inserting one more symbol keeps every earlier code word leading to its own symbol |
| DecodeTree.BuiltIff | compression/deflate.c:35-46 | with codes kept in 16 bits, the tree planted symbol by symbol decodes if and only if no code needs more |
| DecodeTree.SixteenIsNarrow | compression/deflate.c:32-40 | no code needs more than 16 bits while the maximum length is at most 16 |
| DecodeTree.SeventeenIsNot | compression/deflate.c:32-40 | lengths 1 and 17 satisfy Kraft's inequality, and the second code is truncated |
| DecodeTree.DecodeCodes | compression/deflate.c:21-48 | for lengths satisfying Kraft's inequality, walking symbol i's code word from the root (CodeIsShare says which it is) reaches a leaf holding i, for all i, if and only if no code needs more than 16 bits; then nothing is ever overwritten |
| BitReader.FieldIsValue | compression/deflate.c:50-66 | the masked and shifted bytes of a field of up to 24 bits, at any bit offset, are the number its bits stand for, least significant first, and no byte past them is read |
| BitReader.StreamBit | compression/deflate.c:50-66 | bit 8 k + j of the stream is the binary digit of weight 2^j of byte k |
| InflateBlock.LengthTable | compression/deflate.c:68-76 | each table entry is the running sum of the ranges covered by the shorter length codes (section 3.2.5 of RFC 1951) |
| InflateBlock.DistTable | compression/deflate.c:78-93 | the same for distances |
| InflateBlock.MatchHasToken | compression/deflate.c:68-93 | the tables cover every match length from 3 to 258 and every distance up to 32768 |
| InflateBlock.LowBitsAt | compression/deflate.c:152-173 | extra bits come least significant first |
| InflateBlock.MatchRepeats | compression/deflate.c:157-176 | expanding a match keeps the output and appends length many bytes, each equal to the byte distance places before it |
| InflateBlock.ReadCtx.Block | compression/deflate.c:132-182 | on the encoding of any token sequence, at any bit offset, the loop succeeds, appends exactly the expansion of the tokens and stops just after the end-of-block code |
| InflateBlock.DecodeBody | compression/deflate.c:307-346 | from the two lists of code lengths: building both trees and running the block inverts the encoder |
| BtTrees.BtTree.LeftRotate | data/struct/rb_tree.c:11-24 | all links of the five nodes involved after a left rotation, for any memory layout without aliasing |
| BtTrees.BtTree.RightRotate | data/struct/rb_tree.c:26-39 | the mirror image |
| BtTrees.BtTree.Balance | data/struct/rb_tree.c:41-82 | from a tree whose one violation may be at the start node, climbing ends in a red-black tree; from any tree it ends with a black root and the same nodes and entries in the same order |
| BtTrees.BtTree.Insert | data/struct/bt_tree.c:41-82 | the entry goes after all keys not greater than it and before the greater ones; search order and parent links are kept for any colours, and the red-black rules if they held |
| RbShapes.HeightBound | data/struct/rb_tree.c:11-82 | height at most twice the logarithm of the node count plus one, for every red-black tree including one that is a single red node |
| BtRemovals.FindNode | data/struct/bt_tree.c:179-198 | finds a node with the key if and only if there is one, in at most as many steps as the tree is high, hence at most 2 log2(n+1) steps in a red-black tree |
| BtWalks.NoSkipIsLeftStrict | data/struct/bt_tree.c:222-248 | climbing forwards skips no node if and only if left keys are strictly smaller than their ancestor's |
| BtWalks.NoSkipIsRightStrict | data/struct/bt_tree.c:222-248 | the mirror image for climbing backwards |
| BtWalks.NoSkipIsDistinct | data/struct/bt_tree.c:222-248 | both directions skip nothing if and only if all keys are distinct |
| BtTraversals.Next | data/struct/bt_tree.c:222-248 | one step in either direction: which node comes next, and when the walk ends |
| BtTraversals.VisitAll | data/struct/bt_tree.c:222-248 | a whole walk in either direction returns exactly the in-order list of nodes (or its reverse) if and only if no node is skipped and the stored count is large enough, and then meets the keys in order |
| BtTraversals.DistinctVisitsAll | data/struct/bt_tree.c:222-248 | with distinct keys and a right count both directions visit every node |
| BtTraversals.Count | data/struct/bt_tree.c:250-262 | the walked count is never too large, and is right if and only if the forward walk visits everything |
| BtRemovals.Swap | data/struct/bt_tree.c:128-144 | exchanging a node with its successor exchanges just the two entries and keeps every link |
| BtRemovals.RemoveAt | data/struct/bt_tree.c:146-172 | the node is cut out through leaf, one-child and swap cases |
| BtRemovals.Remove | data/struct/bt_tree.c:146-172 | exactly one entry, the node's own, leaves the ordered sequence; search order and parent links are kept; the recomputed count is right if and only if the remaining tree, described from the tree before the call, is left-strict |
| BtRemovals.EqualKeysMiscounted | data/struct/bt_tree.c:250-262 | three entries under one key: the walked count is not 3 |
| AllocMemory.Balance | alloc/allocate.c:56-111 | live sizes and free sizes add up to the tiled part of the page, from any block boundary on |
| AllocMemory.UsedIsLive | alloc/allocate.c:86-99 | `used` is the sum of the sizes of the live blocks |
| AllocMemory.PayloadsApart | alloc/allocate.c:56-111 | two blocks never overlap and lie inside the page |
| AllocPage.Page.TryAllocate | alloc/allocate.c:56-102 | never reports corruption; fails exactly when neither a free block nor the tail is large enough; otherwise one new zeroed payload appears, in the lowest free block that is large enough or, without one, at the tail, and no other changes |
| AllocPage.Page.Surrender | alloc/allocate.c:177-245 | the block goes back through insertion and coalescing on both sides and at the tail: exactly its payload disappears, the page stays tiled with no two adjacent free blocks and none at the tail |
| AllocPage.Page.Grow | alloc/allocate.c:272-306 | growing in place succeeds exactly when the following free block or the tail has room; the payload gains zeroed cells and no other changes |
| AllocChain.PageChain.Allocate | alloc/allocate.c:56-112 | the walk over the pages ends and returns a new zeroed payload, unless no page could be obtained, in which case nothing changed |
| AllocRegistry.Registry.Register | alloc/page_index.c:5-25 | the table of large regions gains exactly this entry, over chained index pages |
| AllocRegistry.Registry.Unregister | alloc/page_index.c:27-50 | exactly this entry leaves the table, by moving the last entry of its index page |
| AllocRegistry.Registry.AllocSize | alloc/page_index.c:52-60 | the registered size, or 0 for a pointer that is not registered |
| Allocator.Heap.FallbackProxy | alloc/allocate.c:31-41 | a large request becomes a fresh region of whole pages, recorded if the index can take it |
| Allocator.Heap.Allocate | alloc/allocate.c:43-115 | the heap gains one payload, zeroed and disjoint from all live ones, or nothing changes |
| Allocator.Heap.Zalloc | alloc/allocate.c:119-122 | the same for a size in bytes, header and rounding included |
| Allocator.Heap.Release | alloc/allocate.c:124-246 | exactly the payload of this pointer leaves the heap, whatever kind of pointer it is |
| Allocator.Heap.Reallocate | alloc/allocate.c:248-321 | the old payload is kept as a prefix, in place or moved, new cells are zero, nothing is lost when memory runs out, and no other payload changes |
| Allocator.Heap.KeepsRequest | alloc/allocate.c:258-318 | what a move keeps of a payload holds every byte of the request it was obtained for |
| JsonLexer.Tokenizer.ReadString | data/format/tokenizer/tokenizer.c:213-260 | stops just behind the first quote that is not escaped; fails exactly for an unknown escape, a bad hexadecimal digit or a missing quote |
| JsonLexer.Tokenizer.ReadNumber | data/format/tokenizer/tokenizer.c:96-211 | succeeds and stops exactly where the grammar of numbers says: prefixed bases, or sign, digits, fraction, suffix and exponent |
| JsonLexer.Tokenizer.NextToken | data/format/tokenizer/tokenizer.c:422-487 | the next token and the place after it as a function of the text and the place; failure is sticky; ParseIff below says which four blanks are skipped |
| JsonParser.TokenStream.Peek | data/format/helpers/token_stream.c:8-15 | looks at the next token without moving the place |
| JsonParser.TokenStream.Take | data/format/helpers/token_stream.c:17-24 | returns the same token Peek would and moves past it |
| JsonParser.TokenStream.Expect | data/format/helpers/token_stream.c:35-41 | succeeds exactly when the next token has the wanted kind |
| JsonParser.ParseStringToken | data/format/json.c:12-57 | the unescaped text, or an error for a missing quote, an unknown escape or a bad hexadecimal digit |
| JsonParser.ParseArrayTokens | data/format/json.c:119-185 | agrees with the grammar of arrays, including where it stops |
| JsonParser.ParseObjectTokens | data/format/json.c:187-277 | agrees with the grammar of objects, including where it stops |
| JsonParser.ParseValueTokens | data/format/json.c:279-329 | agrees with the grammar of values, including where it stops |
| JsonParser.JsonParse | data/format/json.c:331-351 | succeeds exactly when the text spells some value, and returns the value it spells |
| JsonTexts.ParseIff | data/format/json.c:12-351 | the parser accepts a text as v if and only if the text spells v: a relation over positions in the text that knows neither tokens nor parsing functions. It says where each of the four blanks may stand, which escapes stand for what, what a key is (raw, its escapes checked only), which numerals are integers, wrapped into 64 bits, and which are doubles, and where commas, colons and brackets belong; nothing but blanks may follow |
| JsonTexts.OneValue | data/format/json.c:12-351 | no text spells two values |
| JsonPrinter.JsonSerialize | data/format/json.c:577-707 | the output is the text of the value at this indent, and it is laid out: behind every line break outside strings stand depth * indent blanks modulo 2^32, a closing bracket that follows counted as closed; lines break behind opening brackets of nonempty values, behind every comma and before their closing brackets, a blank follows every colon, and there are no other blanks; without indent there are no blanks or line breaks at all |
| JsonLayout.TextIsLaidOut | data/format/json.c:596-658 | the same of the text of any value, by a reader that knows only strings and bracket depth |
| JsonRoundTrip.RoundTrip | data/format/json.c:577-707 | printed text always parses, for every indent, whatever the keys are |
| JsonRoundTrip.RoundTripIff | data/format/json.c:577-707 | parsing printed text gives the same value if and only if no object key is empty, contains a NUL or needs escaping |
| JsonRoundTrip.PrintThenParse | data/format/json.c:331-351 | the same for the two methods run one after the other |
| JsonRoundTrip.EmptyKeyLost | data/format/json.c:223 | an object with an empty key comes back different |
| Decimal.U64ToDec | string/string.c:77-105 | writes the decimal form, in groups of nine digits, in at most 20 characters |
| Decimal.DecIsUnique | string/string.c:77-105 | a string is that form if and only if it is a digit string without a leading zero that has this value |
| Decimal.DigitValues | string/string.c:77-105 | which characters are digits, and the value of each |
| Decimal.ParseIntU64 | string/string.c:1150-1162 | the value of the leading digits modulo 2^64 |
| Decimal.ParseInt64 | string/string.c:1200-1212 | the signed value with two's complement wrap-around |
| Decimal.FormatInt64 | string/string.c:516-522 | the signed decimal form of every 64-bit value, the least one included |
| Decimal.U64RoundTrip | string/string.c:1150-1162 | parsing the decimal form gives the number back |
| Decimal.Int64RoundTrip | string/string.c:1200-1212 | the same for signed numbers, including the least one |
| NumberBases.U64ToBase | string/string.c:107-155 | the numeral in bases 2 to 16, through both the shifting and the dividing branch |
| NumberBases.NumeralStands | string/string.c:107-156 | for every base from 2 to 16 the numeral has only digits of that base, letters in the case asked for, stands for the number and has no leading zero |
| NumberBases.ParseHexU64 | string/string.c:1134-1148 | the value of the hexadecimal digits after an optional prefix, modulo 2^64 |
| NumberBases.ParsesDigits | string/string.c:1134-1148 | a text made of a prefix (none, `#`, or `x` behind `#` or any one hexadecimal digit), digits and a rest parses as the number of the digits modulo 2^64 |
| NumberBases.HexDigitValues | string/string.c:1141-1143 | which characters are hexadecimal digits, and the value of each |
| NumberBases.HexRoundTrip | string/string.c:1134-1148 | parsing a base-16 numeral, upper or lower case, with or without prefix, gives the number back |
| MemoryCopy.MemCpy | memory/memory.c:239-380 | for disjoint ranges of any alignment and length: the destination holds the source's bytes and nothing else changes |
| MemoryWords.MergedIsBetween | memory/memory.c:323-355 | shifting two neighbouring words together yields the unaligned word between them |
| MemoryCopy.MemMove | memory/memory.c:586-827 | the same for any overlap, in both directions, through byte, word and shift-and-merge paths |
| MemoryReverse.ByteSwapReverses | memory/memory.c:382-584 | swapping the bytes of a word reverses the bytes it was loaded from |
| MemoryReverse.MemReverse | memory/memory.c:382-584 | the range holds its bytes in reverse, nothing else changes, for every start and length |
| Basics.ReversedTwice | memory/memory.c:382-584 | reversing twice restores the bytes |
| MemorySearch.MemCmp | memory/memory.c:3-120 | zero if and only if the ranges are equal, otherwise the difference of the bytes at the first place where they differ, through all alignment branches |
| MemorySearch.DifferenceOrders | memory/memory.c:3-120 | that result is zero, negative or positive exactly as the ranges are equal or lexicographically ordered |
| MemorySearch.SkipPassesNone | memory/memory.c:864-892 | no occurrence lies inside a skip |
| MemorySearch.MemMem | memory/memory.c:829-895 | the first occurrence, or null exactly when there is none |
| TriColour.Collector.Register | alloc/gc.c:12-19 | a non-null object joins the front of the black list |
| TriColour.Collector.VisitNode | alloc/gc.c:21-43 | scanning one object moves exactly the white objects its words point to onto the gray list, once each, and the object onto the black one, with the order of all lists |
| TriColour.EdgeIsWord | alloc/gc.c:28-34 | one object points to another if and only if one of its words, from the pointer up to its size, is the other pointer, which is not null and not within or just past the object |
| TriColour.ScanPushes | alloc/gc.c:33-38 | scanning an object only pushes in front of the gray list and leaves the black one alone |
| TriColour.ScanShadesNext | alloc/gc.c:33-38 | the object the next word points to comes to the front of the gray list if it is still white |
| TriColour.FirstLeaves | alloc/gc.c:33-38 | only the first of equal pointers leaves a list |
| TriColour.Collector.Run | alloc/gc.c:45-53 | beginning a mark from any state |
| TriColour.BeginOrder | alloc/gc.c:50-52 | in which order the objects are listed white when a mark begins: the black ones but the root and then the gray ones, both reversed, in front of the white ones |
| TriColour.Collector.CollectCondemned | alloc/gc.c:55-61 | every white object is released, once for each time it is listed |
| TriColour.Collector.RunNext | alloc/gc.c:63-71 | one step, and whether there is more to do |
| TriColour.Collector.Collect | alloc/gc.c:45-71 | a whole collection leaves and releases what the finished mark says |
| TriColour.BeginMarks | alloc/gc.c:45-53 | every object stays on one list only if and only if the root is neither white nor gray; then the marking invariant holds |
| TriColour.StepMarks | alloc/gc.c:63-71 | each step keeps the colours disjoint and no black object pointing to a white one, and blackens one object |
| TriColour.CollectsGarbage | alloc/gc.c:21-71 | from any state of a mark the run ends and releases exactly the objects not reachable from the root |
| TriColour.CycleCollects | alloc/gc.c:45-71 | the same for a whole cycle, in at most as many steps as there are objects |
| TriColour.ReleasedIff | alloc/gc.c:21-71 | for any memory and any colours: an object is released if and only if it is white and no path from a gray object through white ones leads to it |
| TriColour.SafeIff | alloc/gc.c:21-71 | after any change of memory, nothing reachable is lost if and only if every white reachable object is reachable from gray through white |
| TriColour.MutationLosesObject | alloc/gc.c:21-71 | moving a pointer from an unscanned object to a scanned one loses a reachable block |
| TriColour.BeginReleases | alloc/gc.c:45-71 | what a mark begun in any state releases, in terms of the lists and the paths before it |
| TriColour.RootReleasedIff | alloc/gc.c:50-52 | a restarted mark releases its own root if and only if the root was white or gray and no path from it leads back to it |
| TriColour.RestartReleasesRoot | alloc/gc.c:50-52 | three blocks for which this happens |
| TriColour.NextBlockIsNotFollowed | alloc/gc.c:32 | a word pointing just past its object is no edge |
| TriColour.NeighbourIsReleased | alloc/gc.c:32 | so a block referred to only by its predecessor in memory is released |
| TriColour.NextBlockIsLost | alloc/gc.c:32 | two blocks for which this happens, although the root holds the pointer |
| HashCapacity.NextPow2IsLeast | data/struct/hashmap.c:40-50 | the least power of two not below the argument and at least 8, and 0 exactly above 2^63 |
| HashTables.RehashKeepsMap | data/struct/hashmap.c:120-142 | moving every entry to its new bucket keeps the entries, the invariant and the map |
| HashMaps.HashMap.constructor | data/struct/hashmap.c:56-80 | an empty map with a valid capacity |
| HashMaps.HashMap.SizeIsCount | data/struct/hashmap.c:52-54 | `size` is the number of keys and at most three quarters of the capacity |
| HashMaps.HashMap.Resize | data/struct/hashmap.c:120-142 | relinking all chains in place keeps the map; without memory nothing changes |
| HashMaps.HashMap.Put | data/struct/hashmap.c:144-182 | the map is updated at the key, or unchanged when -1 is returned, with the exact result for every combination of present key and failing allocation; the buckets double exactly when three of four are full and memory is granted |
| HashMaps.HashMap.HasKey | data/struct/hashmap.c:188-203 | true with the stored value if and only if the key is in the map |
| HashMaps.HashMap.Remove | data/struct/hashmap.c:209-235 | exactly this key leaves the map and its value is returned |
| Line.DrawLine | draw/draw.c:172-188 | from start to end in max(dx, dy) steps, inside the bounding box; in every round the pixel nearest to the line, at most half a pixel off, with ties decided; and every value the error term takes on the way fits 32 bits if and only if ErrorFits(dx, dy) |
| Line.OnePoint | draw/draw.c:180-187 | that condition leaves one pixel for each round |
| Line.FitsIff | draw/draw.c:180-187 | the exact condition on dx and dy, through their greatest common divisor |
| Line.LongDiagonalDoesNotFit | draw/draw.c:180-187 | the longest diagonal overflows although both differences fit |
| Line.ShortFits | draw/draw.c:180-187 | differences whose sum is at most 2^31 never overflow |
| DirtyRects.SignedOrder | draw/rects.c:16-17 | comparing stored coordinates as signed numbers is right if and only if both or neither are below 2^31 |
| DirtyRects.TryMerge | draw/rects.c:3-27 | joins exactly rectangles that share a pixel; the result is their bounding rectangle if and only if their coordinates are in the same half of the 32-bit range |
| DirtyRects.LostPixel | draw/rects.c:16-17 | two rectangles across the middle of that range whose union loses a pixel |
| DirtyRects.MergedHolds | draw/rects.c:16-24 | the merged rectangle is the least one enclosing both, and stays on the screen |
| DirtyRects.ClipFits | draw/rects.c:33-34 | the clipped extent stays on the screen if and only if the sum did not wrap |
| DirtyRects.DrawContext.Compact | draw/rects.c:55-65 | merging and removing in place, row by row, leaves what entering the rectangles one after another into an empty list leaves, each joining the first one it shares a pixel with |
| DirtyRects.EnteredAt | draw/rects.c:39-53 | a rectangle joins the first one it shares a pixel with, and is appended if there is none |
| DirtyRects.CompactedHolds | draw/rects.c:55-65 | compacting keeps every rectangle on the screen, and loses no coverage on a screen of at most 2^31 by 2^31 |
| DirtyRects.CompactedTight | draw/rects.c:55-65 | on such a screen every edge of a rectangle that is left is an edge of one of those it came from, so none is larger than it has to be |
| DirtyRects.CompactedIff | draw/rects.c:55-65 | the list gets shorter if and only if two of its rectangles share a pixel, and otherwise stays as it is |
| DirtyRects.PixelCount | draw/rects.c:69 | a rectangle has as many pixels as its width times its height |
| DirtyRects.AreaCounts | draw/rects.c:67-69 | the summed area is the number of pixels, each counted as often as it is covered, modulo 2^64 |
| DirtyRects.MostlyIff | draw/rects.c:67-72 | for rectangles of which no two share a pixel, and products within 64 bits: the threshold is met if and only if 100 times the number of covered pixels reaches 35 times that of the screen |
| DirtyRects.DrawContext.MostlyDirty | draw/rects.c:67-72 | whether 100 times the number of pixels of the stored rectangles, each counted as often as it is covered, reaches 35 times the number of pixels of the screen, with products taken in 64 bits |
| DirtyRects.DrawContext.MarkDirty | draw/rects.c:29-73 | over any run of calls at most 64 rectangles are stored, all on the screen; the clipped rectangle is entered and the list compacted, unless there is nothing to mark or no room; on a screen of at most 2^31 by 2^31 every on-screen pixel marked lies in a stored rectangle or a full redraw is set; and exactly when the full redraw becomes set |

## Left out

- BuildTree: no minimality when the total count reaches 65536, because node weights are 16 bits wide and wrap; a table without any entry, whose queue has no room, is not modelled; depth and index fields, which only diagnostics use.
- Block: matches whose distance is smaller than their length, which the restricting copy does not handle.
- Populate: the printed diagnostics, which become a result.
- DecodeCodes: lengths that break Kraft's inequality, for which CodesFitIffKraft shows a code too large for its length.
- DecodeBody: static blocks, stored blocks, the repeat codes of a dynamic header and the zlib framing.
- BtRemovals.Remove: red-black colours after a removal, because the library does not rebalance then.
- FindNode: searching with a caller's own query function.
- Insert: running out of memory for a node, and the data of a node, which is one number here.
- TryAllocate: pages are counted in cells of 16 bytes, the alignment of every block; sizes that overflow `size_t` when rounded are not modelled.
- Surrender: the loop that searches for a further block at the tail is proved to find none and kept as a search only; the fill pattern of released memory is not visible in any payload.
- FallbackProxy: a region whose index page cannot be obtained is returned but not recorded, as in the code, and such a region is not part of the heap afterwards.
- Release: pointers into a page that are not live, such as one released twice, and the branches for damaged headers.
- Reallocate: of a large region all but the last 16 bytes are copied; no request that the region served covers those.
- RoundTrip: object keys other than those of PlainKeys keep the text parseable but not the value; integers are of 64 bits.
- JsonSerialize: doubles, whose printed fraction is cut at nine digits; they are kept as their text and do not take part in the round trip.
- JsonParse: running out of memory, and the accessor, cloning and building functions.
- NextToken: the comment, newline and expected-kind options the JSON parser does not use; the scanner is merged into the tokenizer.
- U64ToBase: bases below 2 and above 16, for which the digit table has no digits.
- MemCpy: `memset` and `memset32`; manually unrolled statements are loops, and addresses are indices into one array.
- MemMove: memory is a whole number of 8-byte words, because the backward path reads whole aligned words.
- MemMem: a needle of 2^64 bytes or more cannot exist.
- VisitNode: the loop that would take the visited node off the gray list hands over the object where its list node is wanted; no list node is an object, so it changes nothing and is not modelled.
- Collect: the lists' own nodes, which the library takes from the same allocator; memory changes only between steps; for a large region the size word in front of it is not modelled.
- Put: the map must be able to double its capacity within 64 bits; changing the hash functions or the allocator of a map in use.
- HashMaps.HashMap.Remove: disposing of values that the caller does not take.
- HashMaps.HashMap.constructor: capacities above 2^60, whose bucket array does not fit 64 bits; failure to allocate the map itself; `hash_map_empty`, which frees entries but keeps the bucket heads.
- DrawLine: the bounds check of each pixel and the damage rectangle computed after the loop, whose marking is MarkDirty.
- MarkDirty: coverage on screens wider or higher than 2^31 pixels, because coordinates are stored as signed 32-bit numbers (see LostPixel), and extents that wrap around (see ClipFits).
- Text formatting with variable arguments, floating-point parsing, regular expressions, drawing other than lines, queues, ring buffers, chunk arrays and URL splitting.
- Everything that talks to the system: files, sockets, audio, shell, menus and fonts.
