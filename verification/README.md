# Sorted list and card strategies of a No Thanks! simulation

This project models the core of a small Java card-game simulation:

- `SortedList<E>`, a doubly-linked list with `head`, `tail` and a `size`
  counter that keeps its elements in ascending order;
- two of the deterministic players that decide whether to take an offered
  card: `BasicStrategyPlayer` and `AlwaysRejectPlayer`.

## How the list is modelled

Java's object references become indices into an arena, a sequence of nodes
that only grows (module `SortedLists`, file `sorted_list.dfy`).
A link is `Null` or `Ref(i)`.
`new Node` appends a node to the arena.
A node that `remove` unlinks or `clear` drops stays in the arena, unreachable.

The list is tied to a plain sequence by following its links:

- `Spine(l)` is the sequence of arena indices met walking `next` from `head`;
- `Elements(l)` is the sequence of values stored in those nodes;
- `BackwardElements(l)` is the sequence of values met walking `prev` from
  `tail`.

`Valid(l)` is the class invariant:

- the nodes of the spine link to their neighbours both ways;
- `head.prev` and `tail.next` are null;
- `head` and `tail` are the ends of the spine;
- `size` counts the spine;
- the elements are non-decreasing.

Every operation keeps `Valid`.
Each one is proved against a pointer-free reference function in module
`Sequences`:

- `InsertSorted` puts the item before the first element that is not
  smaller;
- `RemoveFirst` drops the first element equal to the item;
- `Reverse` lists a sequence last-first.

The element type `E` is `int`, which is the game's `Integer`.
For `int`, `equals` (used by `contains`) and `compareTo == 0` (used by
`remove`) coincide.

All operations except `get` are pure functions.
`add`, `remove` and `clear` return the new list.
`contains`, `size`, `_getEnd` and `_move` return a boolean, the counter or a link.
`get` is a method running the Java loop.
The proofs that the link surgery is correct are in `sorted_list_proofs.dfy`
(module `SortedListProofs`).

The players (module `Players`, `players.dfy`) are pure functions.
Their inputs are the offered card, the chips on it, the hands as a sequence
of lists, the player's own index and its own chips.
`playersHands.get(myPlayerNum)` throws for an index outside the list.
That exception is modelled as the `NoSuchPlayer` failure.

## Model

| member | source | states |
|---|---|---|
| `SortedLists.Empty` | src/main/java/io/github/nopeless/sortedlist/SortedList.java:14-18 | A new list is valid and has no elements. It has size 0 and neither a head nor a tail. |
| `SortedLists.Size` | src/main/java/io/github/nopeless/sortedlist/SortedList.java:23-25 | On a valid list, the counter equals the number of elements reachable from the head. |
| `SortedLists.Clear` | src/main/java/io/github/nopeless/sortedlist/SortedList.java:59-63 | After `clear`, the list is valid and empty, with size 0 and no head or tail, whatever it held before. |
| `SortedLists.GetEnd` | src/main/java/io/github/nopeless/sortedlist/SortedList.java:147-151 | `_getEnd` fails for any direction other than 1 or -1. On a valid list it gives the first node of the forward chain for 1 and the last for -1. |
| `SortedLists.Move` | src/main/java/io/github/nopeless/sortedlist/SortedList.java:203-207 | `_move` succeeds exactly when delta is 1 or -1. |
| `SortedLists.MoveAlongChain` | src/main/java/io/github/nopeless/sortedlist/SortedList.java:203-207 | On a valid chain, `_move(delta)` from the k-th node reaches the (k+delta)-th node, or null past either end. |
| `SortedLists.Get` | src/main/java/io/github/nopeless/sortedlist/SortedList.java:33-54 | Fails with the index and size exactly when the index is outside [0, size). This includes every index of an empty list. Otherwise it returns the element at that index of the forward sequence. |
| `SortedLists.Fetch` | src/main/java/io/github/nopeless/sortedlist/SortedList.java:37-53 | For an index in range it returns the value of the index-th node of the chain. The contract holds whichever end the body's walk starts from: the head below (size+1)/2, otherwise the tail with the flipped index size-index-1. |
| `SortedLists.Advance` | src/main/java/io/github/nopeless/sortedlist/SortedList.java:49-51 | `steps` moves in direction delta, starting from the node at position p, reach the node at position p + steps*delta. |
| `SortedLists.ContainsFrom` | src/main/java/io/github/nopeless/sortedlist/SortedList.java:120-121 | The scan from a node answers true exactly when the item is among the values walked from that node. |
| `SortedLists.Contains` | src/main/java/io/github/nopeless/sortedlist/SortedList.java:119-122 | `contains(item)` is true exactly when the item is one of the elements. |
| `SortedLists.Find` | src/main/java/io/github/nopeless/sortedlist/SortedList.java:129-130 | The scan loop of `remove` (and of `add`) stops at the first node whose value the test accepts. It gives null when no node is accepted. |
| `SortedLists.FoundOnChain` | src/main/java/io/github/nopeless/sortedlist/SortedList.java:95-96 | On a valid list, the scan from the head stops at the spine node that holds the first element the test accepts. |
| `SortedLists.BackwardIsReverse` | src/main/java/io/github/nopeless/sortedlist/SortedList.java:156-172 | On a valid list, the backward listing of `toInternalString` is the forward listing reversed. |
| `SortedLists.Add` | src/main/java/io/github/nopeless/sortedlist/SortedList.java:71-114 | `add` allocates exactly one new node and raises the counter by one on every path. The element-level promise is `SortedListProofs.AddCorrect`. |
| `SortedLists.Remove` | src/main/java/io/github/nopeless/sortedlist/SortedList.java:128-145 | `remove` allocates nothing; it either leaves the list unchanged or lowers the counter by one. The element-level promise is `SortedListProofs.RemoveCorrect`. |
| `SortedListProofs.AddToEmptyLinks` | src/main/java/io/github/nopeless/sortedlist/SortedList.java:76-80 | Adding to an empty list makes the new node both head and tail, and it is the only element. |
| `SortedListProofs.AddAtTailLinks` | src/main/java/io/github/nopeless/sortedlist/SortedList.java:86-93 | An item not smaller than the tail's value is linked after the tail. The chain is the old chain plus the new node, and the elements gain the item at the end. |
| `SortedListProofs.AddScanCase` | src/main/java/io/github/nopeless/sortedlist/SortedList.java:95-113 | Below the tail's value, the scan always finds a node, so `add` always inserts. It splices before the node of the first element that is not smaller than the item. |
| `SortedListProofs.InsertArena` | src/main/java/io/github/nopeless/sortedlist/SortedList.java:97-109 | The splice before the k-th node links the new node to both neighbours, and both neighbours link back to it. It makes the node the head exactly when k is 0 and leaves every other node untouched. |
| `SortedListProofs.SplicedChain` | src/main/java/io/github/nopeless/sortedlist/SortedList.java:88-109 | After either splice of `add`, the links are again symmetric, with head.prev and tail.next null. The chain is the old one with the new node at position k. |
| `SortedListProofs.AddBefore` | src/main/java/io/github/nopeless/sortedlist/SortedList.java:95-113 | On the scan path the new node lands at the first position whose element is not smaller than the item. The list stays valid, and its elements are the reference insertion. |
| `SortedListProofs.AddCorrect` | src/main/java/io/github/nopeless/sortedlist/SortedList.java:71-114 | `add` keeps the invariant. Its elements are the old ones with the item inserted before the first element not smaller, so exactly one copy is gained. Size grows by one. |
| `SortedListProofs.AddAtEnd` | src/main/java/io/github/nopeless/sortedlist/SortedList.java:86-93 | An item not smaller than any element becomes the new tail and is appended to the elements. |
| `SortedListProofs.AddAtFront` | src/main/java/io/github/nopeless/sortedlist/SortedList.java:95-106 | An item not larger than the head's value, and smaller than the tail's, becomes the new head and is prepended. This also holds on an empty list. |
| `SortedListProofs.UnlinkChain` | src/main/java/io/github/nopeless/sortedlist/SortedList.java:131-140 | Unlinking the k-th node joins its neighbours. Head or tail moves past it at an end, and the chain is the old one without position k. |
| `SortedListProofs.RemoveCorrect` | src/main/java/io/github/nopeless/sortedlist/SortedList.java:128-145 | `remove` keeps the invariant and drops exactly the first element equal to the item, so one copy fewer. Size drops by one when the item was present. Without a match the list is unchanged. |
| `SortedListProofs.RemoveAfterAdd` | src/main/java/io/github/nopeless/sortedlist/SortedList.java:71-145 | `add(x)` followed by `remove(x)` gives back the same elements and size, present or not before. |
| `SortedListProofs.ContainsAfterAdd` | src/main/java/io/github/nopeless/sortedlist/SortedList.java:119-122 | After `add(x)`, `contains(x)` holds. After a following `remove(x)`, `contains(x)` is what it was before the add. |
| `SortedListProofs.ScenarioAdds` | src/main/java/io/github/nopeless/sortedlist/SortedList.java:71-114 | Adding 5, 1 and 3 to a new list gives a valid list holding 1, 3, 5. |
| `SortedListProofs.ScenarioRemove` | src/main/java/io/github/nopeless/sortedlist/SortedList.java:128-145 | Removing 1 from that list leaves 3, 5. |
| `SortedListProofs.Scenario` | src/main/java/io/github/nopeless/sortedlist/SortedList.java:33-145 | In the worked run, the three adds give 1, 3, 5 with size 3, `get(1)` is 3, and the remove leaves 3, 5 with size 2. `contains(3)` holds and `contains(99)` does not. `get(5)` fails with index 5 and size 2. |
| `Sequences.FirstHit` | src/main/java/io/github/nopeless/sortedlist/SortedList.java:95-96 | The scans' reference position: no element before it passes the test, and the element there does, unless it is the end. |
| `Sequences.Reverse` | src/main/java/io/github/nopeless/sortedlist/SortedList.java:159-166 | The reference backward listing: the i-th element is the (|s|-1-i)-th of the forward one. |
| `Sequences.InsertSortedSplit` | src/main/java/io/github/nopeless/sortedlist/SortedList.java:95-106 | Reference insertion puts the item exactly at the first position whose element is not smaller. |
| `Sequences.InsertSortedCounts` | src/main/java/io/github/nopeless/sortedlist/SortedList.java:71-114 | Insertion adds exactly one occurrence of the item and changes nothing else in the multiset. |
| `Sequences.InsertSortedKeepsOrder` | src/main/java/io/github/nopeless/sortedlist/SortedList.java:95-113 | Insertion keeps a non-decreasing sequence non-decreasing. |
| `Sequences.InsertSortedAtEnd` | src/main/java/io/github/nopeless/sortedlist/SortedList.java:86-93 | On a sorted sequence, an item not smaller than the last element goes at the end. |
| `Sequences.RemoveFirstSplit` | src/main/java/io/github/nopeless/sortedlist/SortedList.java:129-143 | Reference removal deletes exactly the element at the first position equal to the item. It deletes nothing if there is none. |
| `Sequences.RemoveFirstCounts` | src/main/java/io/github/nopeless/sortedlist/SortedList.java:124-128 | Removal takes away one occurrence of the item, and only one. |
| `Sequences.RemoveFirstKeepsOrder` | src/main/java/io/github/nopeless/sortedlist/SortedList.java:128-145 | Removal keeps a non-decreasing sequence non-decreasing. |
| `Sequences.RemoveAfterInsert` | src/main/java/io/github/nopeless/sortedlist/SortedList.java:71-145 | Removing an item right after inserting it restores the sequence. |
| `Players.AlwaysReject` | src/main/java/io/github/nopeless/player/AlwaysRejectPlayer.java:14-18 | Fails exactly for a player index outside the hands. Otherwise it takes the card exactly when the own hand holds card+1 or card-1, whatever the chips. |
| `Players.AlwaysRejectReadsOwnHand` | src/main/java/io/github/nopeless/player/AlwaysRejectPlayer.java:14-18 | The decision depends only on the contents of the own hand. Other hands, the chips on the card and the own chips do not change it. |
| `Players.BasicStrategy` | src/main/java/io/github/nopeless/player/BasicStrategyPlayer.java:8-32 | Fails exactly for a player index outside the hands. Otherwise the rules apply in order: (1) a neighbouring card in hand takes; (2) a card from 33 up is refused; (3) a card worth no more than its chips is taken; (4) fewer than 3 cards left of 24 refuses; (5) a hand under 3 cards takes exactly when chips > 6 and card - chips/2 < 20, with Java's division; (6) otherwise it takes exactly when out of chips. |
| `Players.JavaHalf` | src/main/java/io/github/nopeless/player/BasicStrategyPlayer.java:27 | Java's `chipsOnCard / 2`: the quotient truncated toward zero, for negative chips too. |
| `Players.SizeSumCounts` | src/main/java/io/github/nopeless/player/BasicStrategyPlayer.java:22 | On valid hands, the summed `size()` counters equal the number of cards the hands hold. |
| `Players.BasicReadsOwnHandAndCount` | src/main/java/io/github/nopeless/player/BasicStrategyPlayer.java:8-32 | The basic strategy sees other hands only through the total card count: same own hand and same total give the same decision. |
| `Players.RejectTakesOnlyWhatBasicTakes` | src/main/java/io/github/nopeless/player/BasicStrategyPlayer.java:11-13 | Every card AlwaysReject takes, the basic strategy takes too. |
| `Players.HighCardsAreRejected` | src/main/java/io/github/nopeless/player/BasicStrategyPlayer.java:11-15 | From card 33 up, the basic strategy decides as AlwaysReject does, because only a neighbour can make it take. |

## Left out

- The text of `toString` and `toInternalString`: the joining and number formatting are left out. Only the forward and backward element sequences they walk are modelled.
- `RandomPlayer` is left out because it decides by `Math.random()`. `AlwaysTakePlayer` is left out because it always answers true. The `Player` interface and the game loop, dealing and scoring are also left out.
- Java `int` overflow is not modelled: `size`, `cardNumber ± 1`, `24 - sum` and `cardNumber - chipsOnCard` are mathematical integers.
- The generic `Comparable` element type is not modelled: elements are `int`.
- Objects, heap mutation and garbage collection are not modelled. The list is a value whose arena keeps every node ever allocated. Unlinked or cleared nodes stay in it, unreachable.
- The walks follow links for at most `|arena|` steps. A well-formed list never needs more, but the fuel is part of the model and not of the source.
- `Players.AlwaysReject` and `Players.BasicStrategy` require every hand to satisfy the list invariant. Every public operation keeps it, as `Empty`, `Clear`, `AddCorrect` and `RemoveCorrect` prove.
- `SortedListProofs.AddAtFront` requires the item to be smaller than the tail's value as well as not larger than the head's. One might expect an item not larger than the head to become the new head. When it equals every element, the code's `>= tail` fast path appends it as the new tail instead. The model follows the code.
- The rule that callers never add a value already present is not enforced. With duplicates, the scan path puts the new node before the first equal element, while the fast path links an item equal to the tail's value after the tail, so after every equal element. The element sequence is the same either way, and every contract above still holds.
- SortedLists.Add: its own contract states only the counter and the one new node; where the item goes and that the list stays valid is stated by `SortedListProofs.AddCorrect`, which keeps the function's contract cheap for its many callers.
- SortedLists.Remove: its own contract states only that the list is unchanged or one shorter; which element goes and that the list stays valid is stated by `SortedListProofs.RemoveCorrect`.
- `get` throws `IllegalArgumentException` with a message; the model returns `OutOfRange(index, size)`, carrying the two numbers the message reports.
