# Book-order processing core, modelled in Dafny

The program reads a customer database and a stream of book orders. A producer
routes each order to a bounded buffer for its category. One consumer per
category settles each order against the customer's balance. An affordable order
is charged and recorded in the *accepted* ledger. An unaffordable one is
recorded, uncharged, in the *rejected* ledger. Orders for unknown customers are
ignored.

Both ledgers are instances of a sorted linked list that allows duplicates.
Its nodes are deleted lazily and carry reference counts:
- A node that an iterator still points at is only marked invalid.
- A later removal sweeps an unreferenced invalid node ("garbage") that it finds ahead of its cursor. It does not sweep a node directly after one it has just swept. It sweeps a garbage head only when it finds no match. Insertion never sweeps.

This project models, as pure functions over immutable data:

- **`SortedList`** (`sorted_list.dfy`, from `sorted-list.c`):
  - the list is a sequence of nodes with stable ids, a payload, a validity flag and a reference count;
  - `SLCreate` and `SLInsert`, including the exact placement of ties;
  - `SLRemove`, including its incremental garbage collection;
  - the remove loop exactly as written, which can read past the end of the list (see Findings).
- **`SortedListIterator`** (`sorted_list_iterator.dfy`):
  - iterators are optional node ids;
  - `SLCreateIterator`, `SLNextItem` and `SLDestroyIterator`;
  - the invariant that each node's count equals the number of iterators on it, and its preservation by every list operation;
  - the total: the sum of all counts equals the number of live, positioned iterators.
- **`Order`** (`order.dfy`, from `order.c`):
  - order and sale records;
  - the sale comparator (customer id ascending, then remaining balance descending) and the proof that it is a total preorder.
- **`OrderBuffers`** (`order_buffer.dfy`): the circular buffer. It covers `init_order_buf`, the producer's store and the consumer's read. It proves FIFO order over any interleaving of stores and reads.
- **`HashMap`** (`hashmap.dfy`, from `hashmap.c`): the two registries as maps. The first record stored under a key wins and a duplicate returns 1. A lookup of an absent key gives NULL. It also covers the id comparator used to sort customers.
- **`Trim`** (`trim.dfy`): `trimExtras` as a method with the source's two scanning loops. It is proved equal to an independent reference definition, which is proved idempotent.
- **`Processing`** (`process.dfy`, from `pa5/thread.c`), with no threads:
  - the balance decision;
  - the routing of an order to its category's buffer, or dropping it when the category is unknown;
  - the ledger invariant that makes the accepted ledger list each customer's purchases in payment order.

Money is an integer number of cents. A NULL pointer is `Option.None`. C's
`int` fields that only count (`numPointers`, `front`, `rear`) are unbounded.

The sale comparator is fixed into the list, because the program only ever
builds lists with it. For the same reason, `SLCreate`'s check for missing
comparator or destructor functions does not arise.

**Where equal records go.** The insert places a new record in front of the
first node it is not greater than, so among records that compare equal the
newest comes first (sorted-list.c:68-77 and 86-96). There is one exception
(sorted-list.c:80-84). On a list of two or more nodes, the head is only
tested for being strictly greater. So a record that ties with the head goes
after it, before the first later node that is not less than it. The model
follows the code:
- `SortedList.TieOrderOfThreeEqualKeys` shows that inserting `a`, `b`, `c`
  with equal keys yields `[b, c, a]`.
- `Processing.ZeroPriceOrderSortsFirst` shows the newest-first rule putting
  a free book in front of an earlier purchase in the accepted ledger.

## Model

| member | source | states |
|---|---|---|
| `Order.InitNewOrder` | order.c:30-38 | the new order carries exactly the given customer id, title and price |
| `Order.CreateNewSale` | order.c:72-81 | the new sale record carries exactly the four given fields |
| `Order.CompareSales` | order.c:83-88 | result is -1, 0 or 1; negative exactly when the first id is smaller, or the ids are equal and the first remaining balance is larger; positive in the mirror case; zero exactly when id and remaining balance both agree |
| `Order.CompareSalesAntisymmetric` | order.c:87 | swapping the arguments negates the result |
| `Order.CompareSalesTransitive` | order.c:87 | "not after" and "strictly before" chain through a third record |
| `Order.SaleLeIsTotalPreorder` | order.c:83-88 | "compares at most 0" is reflexive, transitive and total |
| `Order.CompareSalesIgnoresTitleAndPrice` | order.c:87 | changing title or price never changes a comparison |
| `SortedList.SLCreate` | sorted-list.c:19-30 | a new list is empty, sorted and well formed |
| `SortedList.InsertPos` | sorted-list.c:65-103 | where a new record goes: on one node, in front exactly when the head is not less; on two or more, in front when the head is greater, otherwise after the head and the run of smaller nodes that follows it, before the first node not less |
| `SortedList.InsertKeepsSorted` | sorted-list.c:79-102 | inserting into a sorted list leaves it sorted |
| `SortedList.SLInsert` | sorted-list.c:51-106 | NULL list: returns 0 and stays NULL; otherwise returns 1, one node more, contents are the old multiset plus the new record, sortedness and distinct ids preserved |
| `SortedList.InsertNewNode` | sorted-list.c:59-63 | the inserted node is valid, unreferenced, carries the record under a fresh id, and removing it gives back the old node sequence |
| `SortedList.InsertTieOnSingleton` | sorted-list.c:68-77 | on a one-node list a tying record becomes the head |
| `SortedList.InsertTieOnLongerList` | sorted-list.c:79-98 | on a longer list with a tying head the record goes after the head, past smaller nodes, before the first node not less |
| `SortedList.TieOrderOfThreeEqualKeys` | sorted-list.c:65-98 | three equal-key inserts into an empty list read back as second, third, first |
| `SortedList.ScanIsRemoval` | sorted-list.c:144-176 | the remove loop only drops garbage or the unreferenced match, changes a node only by invalidating a referenced match, and returns 1 only when something matched |
| `SortedList.ScanKeepsSorted` | sorted-list.c:144-176 | the remove loop keeps a sorted list sorted |
| `SortedList.ScanKeepsDistinct` | sorted-list.c:144-176 | the remove loop keeps node identities distinct |
| `SortedList.SLRemove` | sorted-list.c:109-188 | NULL or empty list: returns 0 and changes nothing; otherwise returns 0 or 1, returns 1 only when a node matched, every change is a permitted removal, the surviving nodes keep their old order, sortedness and distinct ids preserved |
| `SortedList.RemoveFirstMatch` | sorted-list.c:121-170 | for the first matching node (no garbage before it): unreferenced, it alone is unlinked and 1 returned; referenced and valid, it is marked invalid in place and 1 returned; referenced and invalid, nothing changes and 0 returned |
| `SortedList.ScanKeepsOrder` | sorted-list.c:144-176 | the remove loop never reorders the nodes it keeps |
| `SortedList.RemoveFirstMatchPastGarbage` | sorted-list.c:121-170 | for the first matching node that is not garbage, when no node before it matches (garbage or not): every node before it that is not garbage stays and only garbage goes; the match is unlinked when unreferenced (1), marked invalid when referenced and valid (1), and left alone when referenced and already invalid (0); the nodes after it are untouched |
| `SortedList.RemoveAbsent` | sorted-list.c:144-187 | with no match: returns 0, keeps every non-garbage node, invents none, unlinks a garbage head, and changes nothing when there is no garbage |
| `SortedList.SLRemoveAsWritten` | sorted-list.c:144-154 | the loop as written either agrees with `SLRemove` or faults, and it faults only when the last node is garbage |
| `SortedList.ScanGuardAgrees` | sorted-list.c:147-154 | the unguarded loop agrees with the guarded one whenever it does not read past the end; it reads past the end only when the last node is garbage |
| `SortedListIterator.SLCreateIterator` | sorted-list.c:190-202 | NULL or empty list: no iterator, list unchanged; otherwise the iterator is on the head and only the head's count rises by one |
| `SortedListIterator.Advance` | sorted-list.c:219-238 | returns the data of the first valid node at or after the cursor, moves the cursor just past it, and moves one reference from the old node to the new one |
| `SortedListIterator.SLNextItem` | sorted-list.c:212-240 | NULL iterator or cursor: returns NULL and changes nothing; otherwise returns the first valid record at or after the cursor, leaves the cursor on the node after it, and moves one reference from the node at the cursor to the node after the record; validity flags, payloads and all other counts are unchanged |
| `SortedListIterator.SLDestroyIterator` | sorted-list.c:204-210 | the node under the iterator gives back one reference; nothing else changes |
| `SortedListIterator.CreateIteratorBalanced` | sorted-list.c:196-201 | creating an iterator keeps every count equal to the number of iterators on that node |
| `SortedListIterator.NextItemBalanced` | sorted-list.c:219-238 | advancing an iterator keeps the counts balanced |
| `SortedListIterator.DestroyIteratorBalanced` | sorted-list.c:204-210 | destroying an iterator keeps the counts balanced |
| `SortedListIterator.InsertBalanced` | sorted-list.c:59-63 | inserting keeps the counts balanced |
| `SortedListIterator.RemoveBalanced` | sorted-list.c:109-188 | removing keeps the counts balanced and every iterator on a node of the list |
| `SortedListIterator.RemoveKeepsIteratedNode` | sorted-list.c:147-169 | a node an iterator stands on is never unlinked, and its record is unchanged |
| `SortedListIterator.PointerTotal` | sorted-list.c:190-240 | with balanced counts, the sum of all counts equals the number of iterators standing on a node |
| `SortedListIterator.RemoveNullDerefReachable` | sorted-list.c:147-154 | a concrete session of balanced operations after which the remove loop as written reads past the end |
| `OrderBuffers.InitOrderBuf` | order.c:41-49 | a new buffer has the given size, zeroed slots and counters, and holds nothing |
| `OrderBuffers.Put` | pa5/thread.c:323-333 | with room, the order joins the back of the queue; size and front unchanged, count up by one |
| `OrderBuffers.Take` | pa5/thread.c:417-421 | with something waiting, the front order comes out; the rest stay in order, count down by one |
| `OrderBuffers.RunIsFifo` | pa5/thread.c:329-421 | over any non-blocking sequence of stores and reads, what waited plus what was stored equals what was read plus what still waits |
| `OrderBuffers.RunBlocksOnlyWhenWaiting` | pa5/thread.c:323-327 | a sequence stops exactly at a store into a full buffer or a read from an empty one |
| `OrderBuffers.FreshBufferCapacity` | pa5/thread.h:16 | a fresh buffer of capacity 10 takes ten orders and then blocks |
| `HashMap.AddCustomer` | hashmap.c:50-65 | returns 0 exactly for a new id, which then maps to the record; a duplicate returns 1 and changes nothing; other ids unaffected |
| `HashMap.GetCustomer` | hashmap.c:79-89 | the stored record for a known id, NULL for an unknown one |
| `HashMap.AddBuffer` | hashmap.c:33-47 | returns 0 exactly for a new category, which then maps to the buffer; a duplicate returns 1 and changes nothing; other categories unaffected |
| `HashMap.GetBuffer` | hashmap.c:67-77 | the stored buffer for a known category, NULL for an unknown one |
| `HashMap.AddThenGetCustomer` | hashmap.c:50-89 | after adding, a lookup finds the new record, or the earlier one when the id was taken |
| `HashMap.AddThenGetBuffer` | hashmap.c:33-77 | after adding, a lookup finds the new buffer, or the earlier one when the category was taken |
| `HashMap.AddCustomersFirstWins` | pa5/thread.c:145-168 | after loading a sequence of customers, each id maps to the record it already had or else to the first record in the load that carries it |
| `HashMap.SortCustomersById` | hashmap.c:91-93 | -1, 0 or 1 exactly as the first id is smaller, equal or larger |
| `HashMap.SortCustomersByIdAntisymmetric` | hashmap.c:91-93 | swapping the ids negates the result |
| `HashMap.AdjacentOrderIsAscending` | hashmap.c:91-97 | ids in order pairwise by the comparator are ascending throughout |
| `Trim.TrimExtras` | pa5/thread.c:470-488 | the result equals the reference trim, and starts and ends on characters that are not trimmed |
| `Trim.TrimmedIsCore` | pa5/thread.c:476-486 | the trimmed string is the original's stretch from its first to its last character that is not a space, newline or double quote |
| `Trim.TrimmedIdempotent` | pa5/thread.c:477-486 | trimming a trimmed string leaves it unchanged |
| `Processing.ProcessOrder` | pa5/thread.c:427-449 | accepted exactly when the customer exists and can afford the book: the balance drops by the price, stays non-negative, and an accepted record with the new balance is added; rejected exactly when the customer exists and cannot afford it: balances unchanged and a rejected record with the current balance is added; an unknown customer changes nothing; other customers never change; ledgers stay sorted and well formed |
| `Processing.ProcessOrderKeepsInvariants` | pa5/thread.c:431-444 | with a non-negative price, balances stay non-negative and every accepted record's remaining balance stays at least its customer's current balance |
| `Processing.AcceptedInPaymentOrder` | pa5/thread.c:431-437 | with a positive price, the new accepted record sorts after, and sits after, every earlier accepted record of the same customer |
| `Processing.ProcessAllKeepsBalances` | pa5/thread.c:417-453 | over any sequence of orders with non-negative prices, both invariants hold throughout |
| `Processing.ZeroPriceOrderSortsFirst` | pa5/thread.c:431-437 | a free book after a 600-cent one leaves the same balance, and its record is placed in front of the earlier purchase in the accepted ledger |
| `Processing.SecondOrderRejected` | pa5/thread.c:431-444 | 1000 cents and two 600-cent orders: the first is accepted leaving 400, and the second is rejected with 400 recorded |
| `Processing.OnlyOneOfTwoAccepted` | pa5/thread.c:427-449 | when the balance covers either of two books but not both, the first order is accepted, the second rejected, and the balance is charged once |
| `Processing.AddNewOrder` | pa5/thread.c:309-336 | after trimming title and category: an unknown category drops the order; a full buffer makes the producer wait; otherwise the order joins the back of its buffer and no other buffer changes |
| `Processing.UnknownCategoryDropped` | pa5/thread.c:313-317 | a category that the lookup does not find drops the order |

## Left out

- Threads, mutexes, condition variables, the producer's shutdown signalling and the consumers' exit protocol exist only for concurrency. The buffer and the decision are modelled as sequential steps, and a wait is a blocked step.
- File reading, tokenising, `main`, `setup` and `writeReport` are input and output. The tokenizer's implementation is not part of this model.
- The uthash macros and `HASH_SORT` are a foreign library. The registries are maps, and the sort is reduced to the comparator and what "sorted by it" means.
- Freeing memory is left out, along with the destructor callbacks and the leaked allocation in `SLNextItem`. This covers `SLDestroy`, `destroySales`, `killCustomer`, `kill_order_buf`, `free_order`, `clearCustomerHash` and `clearBufferHash`.
- Money is `float` in the source. Here it is integer cents, so float rounding and NaN comparisons are not captured.
- The debug printers are left out.
- `front`, `rear` and `numPointers` are unbounded integers. Overflow of the C `int` counters is not modelled.
- OrderBuffers.InitOrderBuf: takes a natural size. A negative size, which would make the allocation fail, is not modelled, and the program always passes 10.
- OrderBuffers.Put: requires a free slot. The source waits until there is one, and `Run` and `Processing.AddNewOrder` report that wait as a blocked step.
- OrderBuffers.Take: requires a waiting order. The source waits until there is one.
- Trim.TrimExtras: requires a string with at least one character that is not trimmed. On an empty or all-trim string the source reads before the start of its copy.
- Processing.AddNewOrder: requires trimmable title and category for the same reason.
- Processing.AcceptedInPaymentOrder: requires a positive price. The price comes from `atof` and is never checked, and the balance test accepts a price of 0. A free book leaves the balance unchanged, so its record ties with the customer's previous one and goes in front of it (`Processing.ZeroPriceOrderSortsFirst`). A negative price raises the balance, so its record sorts before the earlier ones. In both cases the ledger is not in payment order.
- Processing.ProcessOrderKeepsInvariants: requires a non-negative price. A negative price raises the balance above what earlier accepted records show, which breaks "balances only go down". Malformed input can produce one, but well-formed input never does.
- Processing.ProcessAllKeepsBalances: requires non-negative prices, for the same reason.
- SortedList.RemoveFirstMatchPastGarbage: does not cover a matching garbage node before the first live match. A garbage node directly after one just swept is compared without being collected (sorted-list.c:147-154), and if it matches it is unlinked with code 1 (156-160). That case, like every other, is covered only by the general contract of `SortedList.SLRemove` (`RemovalOf` and `KeepsOrder`).
- SortedListIterator.SLNextItem and SortedListIterator.SLDestroyIterator: require the iterator's node to still be in the list. `RemoveKeepsIteratedNode` shows that removal never unlinks such a node.

## Findings

| source | as written | input that shows it | evidently intended | confidence | as-written member | corrected member |
|---|---|---|---|---|---|---|
| sorted-list.c:147-154 | after unlinking a garbage node, the loop compares the node that followed it without checking that one exists, so unlinking the last node reads through NULL | insert A and B; create an iterator and step it onto B; remove B, which only marks it invalid; destroy the iterator; remove C, which matches nothing and reaches the last node as garbage | the loop should end, as at the end of the list, when the unlinked node was the last one | not executed | `SortedList.SLRemoveAsWritten`, `SortedListIterator.RemoveNullDerefReachable` | `SortedList.SLRemove` |
