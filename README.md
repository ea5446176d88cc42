# A verified model of five C exercises

This project models, in Dafny, five small C programs of a systems-programming
course repository and proves what they do.

- **The sorted hash table** (`hash_tables/100-sorted_hash_table.c`) is the main
  piece. It keeps one set of nodes threaded through two link systems:
  - singly-linked bucket chains hanging off a fixed array (`array[index]`, `next`);
  - a doubly-linked list in ascending `strcmp` order of the keys (`shead`/`stail`,
    `sprev`/`snext`).

  `shash_table_set` either updates a value in place or prepends a new node to its
  bucket and splices it into the ordered list (`insert_sorted`).
  `shash_table_get` searches the key's bucket. The print functions walk the
  ordered list forwards or backwards.
- **`add_dnodeint_end`** (`doubly_linked_lists/3-add_dnodeint_end.c`) appends a
  node to a NULL-terminated doubly-linked list of ints.
- **`_atoi`** (`pointers_arrays_strings/100-atoi.c`) parses an int. Every `-` it
  reads flips the sign, wherever it stands. Digits accumulate. Once a digit has
  been read, the first other character stops the scan.
- **`leet`** (`pointers_arrays_strings/7-leet.c`) rewrites a string in place:
  a/A becomes 4, e/E 3, o/O 0, t/T 7 and l/L 1.
- **The crackme check** (`pointers_arrays_strings/mock-101-crackme.c`) accepts a
  password whose character codes sum to 2772.

Layout:
- `string_order.dfy` (module `StringOrder`): the sign of `strcmp` and the strict
  order it induces on keys.
- `sorted_entries.dfy` (module `SortedEntries`): the abstract table.
  - It is the sequence of entries in sorted-list order.
  - It gives the effect of `set` on that sequence (`Put`: an `Update` for a known
    key, a `Splice` for a new one).
  - It gives the printed text (`Format`).
  - It proves the table laws over these.
- `sorted_hash_table.dfy` (module `SortedHashTable`): the C data structure.
  - Nodes live in an arena: parallel sequences `keys`, `values`, `next`, `sprev`
    and `snext`, indexed by node number.
  - A pointer is `Null` or `At(n)`. The bucket heads are an `array<Ptr>`.
  - Ghost sequences `chains` (per bucket) and `order` (the sorted list) name the
    nodes each link system visits.
  - `Table.Valid()` states both link systems and their agreement.
  - Every C function is a method proved against the abstract table.
- `dlist.dfy` (module `DoublyLinkedList`): heap nodes (`class DNode`), with a ghost
  sequence naming the list's nodes.
- `atoi.dfy`, `leet.dfy`, `crackme.dfy`: the three string routines. Each loop of
  the C source is a Dafny loop, proved against a specification function.

Three facts about the code that the model follows:
- `shash_table_create` does not reject a size of 0. The model requires a size of
  at least 1 (see Left out).
- Both print functions end their text with `"}\n"`, so the printed text of the
  model ends in a newline.
- The scan of `insert_sorted` stops at the first node whose key is not below the
  new key (line 26), and the new node goes in front of it.

## Model

| member | source | states |
|---|---|---|
| StringOrder.Strcmp | hash_tables/100-sorted_hash_table.c:26 | The sign of strcmp is -1, 0 or 1, and it is 0 exactly when the keys are equal |
| StringOrder.StrcmpAntisymmetric | hash_tables/100-sorted_hash_table.c:26 | Swapping the operands of strcmp negates its sign, so `strcmp(new, tmp) > 0` means tmp's key sorts before the new key |
| StringOrder.LessTotal | hash_tables/100-sorted_hash_table.c:26 | Two different keys are ordered one way or the other, never both |
| StringOrder.LessTransitive | hash_tables/100-sorted_hash_table.c:26 | The key order is transitive, which makes "ascending" a consistent notion |
| SortedEntries.Find | hash_tables/100-sorted_hash_table.c:156-163 | The lookup finds nothing exactly when no entry has the key; when it finds a value, an entry holds that key and value |
| SortedEntries.FindAt | hash_tables/100-sorted_hash_table.c:156-163 | In an ascending table every entry is what its own key finds |
| SortedEntries.Position | hash_tables/100-sorted_hash_table.c:25-28 | Where the scan of insert_sorted stops: every earlier key sorts before the new key and the key at the stop does not |
| SortedEntries.PositionUnique | hash_tables/100-sorted_hash_table.c:25-28 | The stopping point is the only index with those two properties |
| SortedEntries.Splice | hash_tables/100-sorted_hash_table.c:25-47 | The effect of insert_sorted on the entries: one entry more, the new entry at the scan's stopping point, and every entry before it with a key below the new key |
| SortedEntries.AfterPosition | hash_tables/100-sorted_hash_table.c:25-28 | For a key not in an ascending table, every key from the stop on sorts after it |
| SortedEntries.InsertAscending | hash_tables/100-sorted_hash_table.c:29-47 | Placing an entry between the keys below it and the keys above it keeps the order strictly ascending |
| SortedEntries.SpliceMultiset | hash_tables/100-sorted_hash_table.c:29-47 | A splice adds exactly the one new entry and keeps all the others |
| SortedEntries.SpliceAscending | hash_tables/100-sorted_hash_table.c:14-48 | Splicing a new key into an ascending table keeps it strictly ascending and adds exactly one entry |
| SortedEntries.FindSplice | hash_tables/100-sorted_hash_table.c:116-135 | After adding a new key, that key finds its value and every other key finds what it found before |
| SortedEntries.FindUpdate | hash_tables/100-sorted_hash_table.c:104-111 | Replacing the value of an existing key keeps the order, changes what that key finds, and changes nothing else |
| SortedEntries.Update | hash_tables/100-sorted_hash_table.c:104-111 | The effect of the in-place value store: same length, every key at its position, and the entry with the updated key holding the new value |
| SortedEntries.Put | hash_tables/100-sorted_hash_table.c:102-135 | The effect of a successful set on the entries (an update in place for a known key, a splice for a new one): the number of entries stays the same for a known key and grows by one for a new key |
| SortedEntries.PutSpec | hash_tables/100-sorted_hash_table.c:90-136 | A successful set keeps the table strictly ascending, grows it by one only for a new key, and afterwards the key finds the new value while every other key is unaffected |
| SortedEntries.PutExistingKeepsOrder | hash_tables/100-sorted_hash_table.c:104-111 | Setting an existing key leaves the number of entries and every key's position unchanged, and every other entry untouched |
| SortedEntries.FindConcat | hash_tables/100-sorted_hash_table.c:156-163 | Searching a concatenation searches the front part first |
| SortedEntries.Pair | hash_tables/100-sorted_hash_table.c:184 | One printed pair `'key': 'value'`: the key and the value with six characters of quotes, colon and blank around them |
| SortedEntries.Joined | hash_tables/100-sorted_hash_table.c:180-187 | The pairs in list order with ", " before every pair but the first; the text is empty exactly when there are no entries |
| SortedEntries.Format | hash_tables/100-sorted_hash_table.c:178-188 | The whole printed text, braces and final newline included; it is `{}` and a newline exactly when the table is empty |
| SortedEntries.ReplayFind | hash_tables/100-sorted_hash_table.c:90-164 | After any sequence of successful set calls, the order is ascending and get(k) gives the value of the latest set of k, or nothing if k was never set |
| SortedEntries.JoinedCons | hash_tables/100-sorted_hash_table.c:178-188 | Read from the front, the printed pairs are the first pair, a ", " separator, then the rest |
| SortedEntries.Reverse | hash_tables/100-sorted_hash_table.c:204-211 | The reversed sequence has the same length and holds the i-th entry from the end at position i |
| SortedEntries.ReverseDescending | hash_tables/100-sorted_hash_table.c:195-214 | Walking the ascending list from the tail gives strictly descending keys |
| SortedEntries.ReverseReverse | hash_tables/100-sorted_hash_table.c:195-214 | Reversing twice gives back the forward order |
| SortedEntries.ReplayAscending | hash_tables/100-sorted_hash_table.c:90-136 | set("a","1"), set("b","2"), set("c","3") on an empty table give the entries a, b, c in that order |
| SortedEntries.ReplayOverwrite | hash_tables/100-sorted_hash_table.c:102-112 | A further set("a","9") changes a's value in place and keeps the order |
| SortedEntries.JoinedThree | hash_tables/100-sorted_hash_table.c:178-188 | Three entries print as their three pairs separated by ", " |
| SortedEntries.PrintThree | hash_tables/100-sorted_hash_table.c:178-188 | The exact text printed for three one-character entries: braces, quotes, colons, separators and the final newline |
| SortedEntries.PrintScenario | hash_tables/100-sorted_hash_table.c:170-189 | After that run, print writes `{'a': '1', 'b': '2', 'c': '3'}` and a newline |
| SortedEntries.PrintRevScenario | hash_tables/100-sorted_hash_table.c:195-214 | After that run, print_rev writes `{'c': '3', 'b': '2', 'a': '1'}` and a newline |
| SortedEntries.OverwriteScenario | hash_tables/100-sorted_hash_table.c:102-164 | After the further set("a","9"), get("a") is "9", get("z") finds nothing, and print shows the new value in the old place |
| SortedHashTable.LinkedNoRepeat | hash_tables/100-sorted_hash_table.c:156-163 | A NULL-terminated chain never visits the same node twice |
| SortedHashTable.LinkedDistinct | hash_tables/100-sorted_hash_table.c:227-235 | Every node of a NULL-terminated list is visited once |
| SortedHashTable.KeyIndex | hash_tables/100-sorted_hash_table.c:99 | key_index always returns a bucket below the table size |
| SortedHashTable.Table.constructor | hash_tables/100-sorted_hash_table.c:65-77 | A new table has all buckets NULL, shead and stail NULL, no entries, and satisfies the table invariant |
| SortedHashTable.Table.FindNode | hash_tables/100-sorted_hash_table.c:156-163 | In a valid table, each node's key finds that node's value |
| SortedHashTable.Table.AbsentFromBucket | hash_tables/100-sorted_hash_table.c:102-116 | A key missing from the chain of its own bucket is in no node of the table |
| SortedHashTable.Table.KeysDistinct | hash_tables/100-sorted_hash_table.c:102-116 | No two nodes of a valid table share a key |
| SortedHashTable.Table.KeyUnique | hash_tables/100-sorted_hash_table.c:102-116 | The node found for a key is the only node holding it |
| SortedHashTable.Table.BackLinks | hash_tables/100-sorted_hash_table.c:29-47 | In a valid table, each node's snext points back to it through sprev and vice versa; shead has no sprev, stail has no snext, and both are NULL exactly when the table is empty |
| SortedHashTable.ThreadedBackLinks | hash_tables/100-sorted_hash_table.c:29-47 | Along the sorted list, each successor's sprev points back; the head has no predecessor and the tail no successor |
| SortedHashTable.LinkedExtend | hash_tables/100-sorted_hash_table.c:119-120 | Adding a node to the arena leaves every existing chain as it was |
| SortedHashTable.LinkedPrepend | hash_tables/100-sorted_hash_table.c:129-130 | A node whose next is the old head, made the new head, starts the old chain with itself in front |
| SortedHashTable.ThreadedExtend | hash_tables/100-sorted_hash_table.c:131-132 | Adding an unlinked node leaves the sorted list as it was |
| SortedHashTable.SpliceEmpty | hash_tables/100-sorted_hash_table.c:18-23 | A node linked into an empty list is both its head and its tail |
| SortedHashTable.SpliceHead | hash_tables/100-sorted_hash_table.c:29-34 | The new-head branch's three writes link the node in front of the old head, with all prev and next links consistent |
| SortedHashTable.SpliceTail | hash_tables/100-sorted_hash_table.c:35-40 | The new-tail branch's three writes link the node after the old tail, with all links consistent |
| SortedHashTable.SpliceMiddle | hash_tables/100-sorted_hash_table.c:41-47 | The middle branch's four writes put the node between tmp->sprev and tmp, with all links consistent |
| SortedHashTable.ViewInsert | hash_tables/100-sorted_hash_table.c:29-47 | Inserting a node into the list inserts its entry at the same place in the table's entries |
| SortedHashTable.InsertCovers | hash_tables/100-sorted_hash_table.c:14-48 | After the insertion, the list holds every node of the arena, the new one included |
| SortedHashTable.StoppedAtPosition | hash_tables/100-sorted_hash_table.c:25-28 | Where the scan stops is exactly where the abstract splice places the new entry |
| SortedHashTable.SplicedListOk | hash_tables/100-sorted_hash_table.c:14-48 | A splice at the stop point gives a strictly ascending list of all nodes, and its entries are the old entries with the new one spliced in |
| SortedHashTable.LinkEmpty | hash_tables/100-sorted_hash_table.c:18-23 | Inserting into an empty list makes the node both shead and stail, with the invariant restored |
| SortedHashTable.LinkHead | hash_tables/100-sorted_hash_table.c:29-34 | When the scan stops at shead, the node becomes the new shead; the list stays ascending and equals the abstract splice |
| SortedHashTable.LinkTail | hash_tables/100-sorted_hash_table.c:35-40 | When the scan runs off the end, the node becomes the new stail; the list stays ascending and equals the abstract splice |
| SortedHashTable.LinkMiddle | hash_tables/100-sorted_hash_table.c:41-47 | Otherwise tmp has a predecessor, and the node goes between them; the list stays ascending and equals the abstract splice |
| SortedHashTable.ScanSorted | hash_tables/100-sorted_hash_table.c:25-28 | The scan stops at the first node whose key the new key does not exceed, or at NULL, having passed only smaller keys |
| SortedHashTable.InsertSorted | hash_tables/100-sorted_hash_table.c:14-48 | insert_sorted links the new node in once, keeps the list strictly ascending with consistent links, touches neither keys, values nor buckets, and its entries become the old ones with the new entry spliced in |
| SortedHashTable.BucketsPrepend | hash_tables/100-sorted_hash_table.c:129-130 | Prepending the new node to its bucket keeps every chain NULL-terminated, every node in the chain of its own bucket, and the new node in exactly that chain |
| SortedHashTable.ListExtend | hash_tables/100-sorted_hash_table.c:116-132 | A new node with a fresh key and NULL sprev and snext, added to a well-formed list, is the state insert_sorted expects, and the entries are unchanged |
| SortedHashTable.ViewUpdate | hash_tables/100-sorted_hash_table.c:109-110 | Storing a new value in a key's only node updates the table's entries exactly as the abstract update does |
| SortedHashTable.ListUpdate | hash_tables/100-sorted_hash_table.c:109-110 | Replacing a node's value keeps the list ascending and well linked, and gives the abstract set |
| SortedHashTable.BucketLookup | hash_tables/100-sorted_hash_table.c:99-114 | The bucket walk returns the node holding the key, or NULL exactly when no node in the whole table holds it |
| SortedHashTable.Get | hash_tables/100-sorted_hash_table.c:145-164 | get is NULL for a NULL table or a NULL or empty key; otherwise it is the value the table holds for the key, or NULL if there is none |
| SortedHashTable.SetValue | hash_tables/100-sorted_hash_table.c:104-111 | Updating an existing key replaces that node's value only; keys, bucket chains and sorted list are unchanged, and the table becomes the abstract set |
| SortedHashTable.AddNode | hash_tables/100-sorted_hash_table.c:116-133 | A new key's node is prepended to its bucket and spliced into the list once; other buckets are untouched and the table stays valid |
| SortedHashTable.Set | hash_tables/100-sorted_hash_table.c:90-136 | set returns 0 or 1, and 1 exactly when table, key and value are present, the key is non-empty and allocation succeeds; on 0 nothing changes (a NULL table, a NULL or empty key, a NULL value, a failed allocation); on 1 the table is the abstract set of the key to the value |
| SortedHashTable.Create | hash_tables/100-sorted_hash_table.c:56-80 | create gives NULL exactly when allocation fails; otherwise it gives a fresh valid table of the given size with no entries |
| SortedHashTable.PrintStep | hash_tables/100-sorted_hash_table.c:180-187 | One pass of the print loop (a separator unless first, then the pair) extends the printed pairs by one entry |
| SortedHashTable.Print | hash_tables/100-sorted_hash_table.c:170-189 | print writes nothing for a NULL table; otherwise it writes the pairs from shead to stail, separated by ", ", in braces and followed by a newline (`{}` for an empty table) |
| SortedHashTable.PrintRev | hash_tables/100-sorted_hash_table.c:195-214 | print_rev writes the same pairs in exactly the reverse order, by following sprev from stail |
| SortedHashTable.Delete | hash_tables/100-sorted_hash_table.c:220-239 | delete frees every node of the table, each exactly once |
| DoublyLinkedList.DNode.constructor | doubly_linked_lists/3-add_dnodeint_end.c:15-21 | A new node holds n, and its prev and next are NULL |
| DoublyLinkedList.Values | doubly_linked_lists/3-add_dnodeint_end.c:19 | The list's values, one per node in list order |
| DoublyLinkedList.AddDNodeIntEnd | doubly_linked_lists/3-add_dnodeint_end.c:10-35 | On allocation failure it returns NULL and the list is unchanged. Otherwise the new node holds n and is the last node, the list's values become the old ones followed by n, and the prev/next links stay consistent. An empty list gets the node as its head, with prev and next NULL. A non-empty list keeps its head, and the old last node and the new one point at each other |
| Atoi.Digits | pointers_arrays_strings/100-atoi.c:20-24 | The digits read, all of them decimal digits |
| Atoi.ScanEnd | pointers_arrays_strings/100-atoi.c:16-28 | The scan stops at the terminator, or at a character that is neither a digit nor '-' |
| Atoi.ScanEndNoNul | pointers_arrays_strings/100-atoi.c:16 | The scan reads no terminator on its way |
| Atoi.Stop | pointers_arrays_strings/100-atoi.c:16-28 | Where _atoi stops reading: the end of the string, its terminator, or a character that is neither a digit nor '-' |
| Atoi.Scanned | pointers_arrays_strings/100-atoi.c:16-28 | The text _atoi reads: a prefix of the string holding no terminator |
| Atoi.AtoiValue | pointers_arrays_strings/100-atoi.c:18-30 | The value _atoi returns when it fits in an int: its magnitude is the decimal value of the digits read, and it is negative only when an odd number of '-' was read |
| Atoi.ReadStep | pointers_arrays_strings/100-atoi.c:18-24 | Reading one character adds it to the digits if it is a digit and to the '-' count if it is '-', and the accumulated value becomes num * 10 + digit |
| Atoi.DecimalValueGrows | pointers_arrays_strings/100-atoi.c:23 | The value of the digits read never decreases as the scan goes on, so the accumulator is bounded by the final value |
| Atoi.MinusStep | pointers_arrays_strings/100-atoi.c:18-19 | A '-' flips the sign and keeps the scan invariant |
| Atoi.DigitStep | pointers_arrays_strings/100-atoi.c:20-24 | A digit extends the value, which stays within INT_MAX when the final value does |
| Atoi.OtherStep | pointers_arrays_strings/100-atoi.c:25-27 | Any other character is skipped before the first digit and stops the scan after one |
| Atoi.Finish | pointers_arrays_strings/100-atoi.c:30 | At the stop, sign times num is the specified result |
| Atoi.Atoi | pointers_arrays_strings/100-atoi.c:9-31 | When the value read fits in an int, _atoi returns the decimal value of the digits read before the stop, negated when an odd number of '-' was read; the unsigned accumulator never wraps |
| Atoi.NoDigitsNoValue | pointers_arrays_strings/100-atoi.c:20-24 | Text without a digit contributes no digits |
| Atoi.NoDigitsZero | pointers_arrays_strings/100-atoi.c:16-30 | A string with no digit converts to 0 |
| Atoi.NegativeIff | pointers_arrays_strings/100-atoi.c:18-19 | The result is negative exactly when an odd number of '-' was read before the stop, including any between digits, and the digits are not all zero |
| Atoi.ScanEndPrefix | pointers_arrays_strings/100-atoi.c:25-26 | Where the scan stops depends only on the characters up to the one it stops at |
| Atoi.TailIgnored | pointers_arrays_strings/100-atoi.c:25-26 | Whatever follows the character that stopped the scan does not change the result |
| Atoi.ScanEndShift | pointers_arrays_strings/100-atoi.c:16-27 | One more leading character shifts the stop by one |
| Atoi.SkippedCons | pointers_arrays_strings/100-atoi.c:25-27 | A leading character that is neither a digit nor '-' adds no digit and no '-' |
| Atoi.LeadingIgnored | pointers_arrays_strings/100-atoi.c:16-27 | A leading character that is not a digit, '-' or the terminator (a '+', a blank, a letter) does not change the result |
| Atoi.ScanEndInsert | pointers_arrays_strings/100-atoi.c:16-27 | Behind one inserted character, the scan from the insertion point on stops one place later |
| Atoi.ScanEndSkip | pointers_arrays_strings/100-atoi.c:16-27 | Before any digit, the scan does not stop inside text without digits or terminator, and a skipped character inserted there moves the stop by one |
| Atoi.SkippedInsert | pointers_arrays_strings/100-atoi.c:18-24 | An inserted character that is neither a digit nor '-' adds no digit and no '-' to the text |
| Atoi.SkippedAnywhere | pointers_arrays_strings/100-atoi.c:16-27 | A character that is not a digit, '-' or the terminator, standing anywhere before the first digit (after '-' signs too), does not change the result |
| Atoi.SignThenPlus | pointers_arrays_strings/100-atoi.c:16-30 | "-+5" converts to the same value as "-5" |
| Leet.LeetChar | pointers_arrays_strings/7-leet.c:7-8 | The letter-to-digit rule for one character: none of a, A, e, E, o, O, t, T, l, L survives it, and exactly the other characters are kept |
| Leet.ApplyPairs | pointers_arrays_strings/7-leet.c:23-27 | What the inner loop has made of a character after the triples before index j: the character itself, or the digit of one of those triples |
| Leet.ApplyPairsComplete | pointers_arrays_strings/7-leet.c:17-27 | Walking the whole substitution table rewrites a character exactly as the letter-to-digit rule says: a/A to 4, e/E to 3, o/O to 0, t/T to 7, l/L to 1, anything else unchanged |
| Leet.CLen | pointers_arrays_strings/7-leet.c:19 | The string's length is the index of its first '\0'; no '\0' comes before it |
| Leet.LeetString | pointers_arrays_strings/7-leet.c:19-28 | The array's contents after leet: same length, terminator in place, and each character either kept or one of the ten letters that were rewritten |
| Leet.Leet | pointers_arrays_strings/7-leet.c:14-31 | leet rewrites the array in place and returns it; every character before the terminator is substituted by the rule, and the terminator and everything after it are unchanged |
| Leet.LeetKeepsLength | pointers_arrays_strings/7-leet.c:19 | The rewritten string has the same length, with its terminator where it was |
| Leet.CLenUnique | pointers_arrays_strings/7-leet.c:19 | The first '\0' determines the string length |
| Leet.LeetIdempotent | pointers_arrays_strings/7-leet.c:17-27 | Applying leet twice is the same as applying it once |
| Leet.NoLettersLeft | pointers_arrays_strings/7-leet.c:23-27 | After leet, the string contains none of a, A, e, E, o, O, t, T, l, L |
| Crackme.Verdict | pointers_arrays_strings/mock-101-crackme.c:16-32 | The program's decision: status 1 and the usage line exactly when argc is not 2, otherwise status 0 with "Congrats" exactly when the codes sum to 2772 |
| Crackme.Check | pointers_arrays_strings/mock-101-crackme.c:11-33 | The outcome is the verdict: exit status 1 and the usage message when argc is not 2; otherwise status 0, with "Congrats" exactly when the codes sum to 2772 and "Wrong password" otherwise |
| Crackme.CodeSumConcat | pointers_arrays_strings/mock-101-crackme.c:23-24 | The code sum of a concatenation is the sum of the parts' code sums |
| Crackme.CodeSumPermutation | pointers_arrays_strings/mock-101-crackme.c:23-24 | Rearranging a password's characters does not change its code sum |
| Crackme.PermutationAccepted | pointers_arrays_strings/mock-101-crackme.c:23-28 | Any rearrangement of an accepted password is accepted |
| Crackme.CodeSum | pointers_arrays_strings/mock-101-crackme.c:23-24 | The sum the loop computes is never negative for the modelled characters (codes 0 and up), and a 7-bit password sums to at most 127 times its length |
| Crackme.ShortRejected | pointers_arrays_strings/mock-101-crackme.c:23-30 | A password of fewer than 22 characters, the empty one included, is rejected with status 0 |

## Left out

- Keys and values of the hash table stand for the characters of a C string before its terminator. A Dafny string holding '\0' has no C counterpart, and on such a string the model's `Strcmp` and `Pair` would read past the '\0' where `strcmp` and `printf` stop.
- The body of `key_index` and of the hash function it uses are not part of this model. `key_index` is modelled as `hash(key) % size`, with `hash` a parameter of the table.
- Memory management is not modelled: `free` and the `malloc`/`strdup` results as addresses. Each C function that allocates takes a flag `allocOk` that says whether every allocation of the call succeeds. One flag stands for all allocations of a call, such as the table and its array in `shash_table_create`, or the node, key and value in `shash_table_set`.
- SortedHashTable.Delete: modelled as the order in which nodes are freed. What is freed is not modelled: the keys, values, node storage, bucket array and table.
- SortedHashTable.Create: a size of 0 is excluded by a precondition. The C code accepts it, but the modelled `key_index` would then take a remainder by zero.
- `printf` and standard output are not modelled. The print functions return the text they would write, and the crackme returns which message it writes. The program name in the usage line is not modelled.
- SortedHashTable.Get: returns a copy of the stored value. The C code returns a pointer into the node; the caller could mutate the stored value through it.
- The `shash_table_set` helpers `SetValue` and `AddNode` are parts of the same C function. They are split out here so that each proof stays small. Their behaviour is the code's.
- Atoi.Atoi: requires that the value read fits in an int (at most INT_MAX). Larger values make the C code wrap the unsigned accumulator and convert an out-of-range value to int, and `sign * (int)num` can overflow. Those values, "-2147483648" among them, are not modelled.
- Crackme.Check: requires every password character to have a code from 1 to 127. Whether `char` is signed is not modelled, and neither is an `int` overflow of the sum (which would need more than 16 million characters).
- DoublyLinkedList.DNode: a node's value `n` is a constant set by the constructor, because `add_dnodeint_end` never changes the value of an existing node.
- DoublyLinkedList.AddDNodeIntEnd: the caller's `*head` is passed in as a value, and its new value is returned as `newHead`. A ghost sequence names the list's nodes, so the model assumes a well-formed NULL-terminated list.
- Leet.Leet: requires a '\0' inside the array. The C code reads past the array otherwise.
