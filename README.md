# Collections core of typescriptcollectionsframework, modelled in Dafny

This project models the core data structures of the TypeScript collections
library and proves what each operation does.

- **`NavigableHashImpl`**: a skip list of height 3 whose per-level forward
  and backward pointers are rewritten in place by `put`, `hookUpNodePointers`,
  `removeElement` and `clear`, and walked by the navigation queries.
- **Facades and iterators**: the `NavigableHashMap` and `NavigableHashSet`
  facades over the skip list, with the key-set and entry-set iterators in
  both styles. Java-style iterators have `hasNext`/`next`. TypeScript-style
  iterators have `next` returning `{done, value}`.
- **`LinkedList`**: a doubly linked list that supports list, queue and deque
  operations.
- **`ArrayList`**: a growable array.
- **`LinkedHashSet`**: a circular ring of entries behind a sentinel header,
  which records insertion order.
- **`AllFieldCollectable.equals`**: null- and undefined-aware equality.

## How the structures are represented

**The skip list.**
- Nodes live in an arena (`nodes: seq<Node<V>>`). Pointers are
  `Option<nat>` arena indices, and `None` is the source's `null`.
- The ghost field `Live` lists the stored nodes in ascending key order.
- `Valid` is the skip-list invariant. The source's commented-out `validate`
  routine checks only part of it: head slots whose keys do not decrease from
  one level to the next, the level-0 backward links, and the count. `Valid`
  strengthens that to:
  - keys strictly increase along `Live`;
  - every level `h` is the doubly linked chain of the live nodes taller than
    `h`, entered through `head[h]`;
  - `numberElements` is the number of live nodes.
- The abstract value of the map is `Entries()`, the stored (key, value) pairs
  in ascending key order.
- Every query is proved against a reference function on that sequence:
  - `FloorIndex`, `LowerIndex`, `CeilingIndex` and `HigherIndex`, in module
    `Keys`;
  - `Lookup`, `Put` and `Delete`, in module `SortedEntries`.
- The predicates `IsFloor`, `IsCeiling`, `IsHigher`, `IsLower`, `IsLeast` and
  `IsGreatest` state each navigation answer as "the greatest key at most k",
  and so on. `AnswersAreUnique` shows that each of them determines its
  answer, so every facade contract stated with them is complete.

**The lists.**
- `LinkedList` and `LinkedHashSet` use real node objects. A ghost sequence of
  nodes and a ghost sequence of contents define the abstract value.
- `ArrayList` keeps its backing array as a `seq` field that the methods
  reassign.

**Keys.** Keys are `JsValue<int>` (Undefined | Null | Present(n)), ordered
by the library's number comparator: undefined below null, and null below
every number.

## Model

| member | source | states |
|---|---|---|
| AllFieldCollectable.Equals | src/AllFieldCollectable.ts:24-46 | undefined equals only undefined; null only null; a present value never equals an absent one; two present values are equal exactly when their serialisations are |
| AllFieldCollectable.AbsentValuesAreDistinct | src/AllFieldCollectable.ts:25-41 | when either side is null or undefined, equals is plain identity of the two values |
| AllFieldCollectable.EqualsIsEquivalence | src/AllFieldCollectable.ts:24-46 | equals is reflexive, symmetric and transitive |
| AllFieldCollectable.InjectiveSerialiserGivesIdentity | src/AllFieldCollectable.ts:43-45 | with an injective serialiser, equals is exactly value equality |
| ArrayLists.ArrayList.constructor | src/ArrayList.ts:14-16 | a new list is empty |
| ArrayLists.ArrayList.Add | src/ArrayList.ts:23-30 | appends t, keeps the earlier elements, returns true |
| ArrayLists.ArrayList.AddElement | src/ArrayList.ts:37-43 | inserts t where `splice` starts: at the index, counted back from the end when negative (at the front when it reaches past it), at the end when the index is past it; later elements shift right and the count stays consistent |
| ArrayLists.SpliceStart | src/ArrayList.ts:41 | where `splice(index, ...)` starts on an array of a given length: the index when in range, the length plus a negative index (at least 0), the length for an index past the end |
| ArrayLists.ArrayList.Remove | src/ArrayList.ts:50-58 | returns the element read at the index (none outside the array), removes the element where `splice` starts if there is one, and always decrements the count; the count stays consistent exactly when something was removed; for a valid index returns that element and closes the gap |
| ArrayLists.ArrayList.Clear | src/ArrayList.ts:64-67 | the list becomes empty |
| ArrayLists.ArrayList.Get | src/ArrayList.ts:74-76 | the element at the index, and none exactly when the index is out of range |
| ArrayLists.ArrayList.Set | src/ArrayList.ts:144-148 | returns the old element and changes only that slot |
| ArrayLists.ArrayList.IndexOf | src/ArrayList.ts:83-96 | the least index of an equal element, -1 when there is none (the loop is proved against `Sequences.FirstIndex`) |
| ArrayLists.ArrayList.Contains | src/ArrayList.ts:103-107 | true exactly when an equal element is stored |
| ArrayLists.ArrayList.RemoveElement | src/ArrayList.ts:114-125 | removes the first equal element; true exactly when there was one, no change otherwise |
| ArrayLists.ArrayList.IsEmpty | src/ArrayList.ts:131-136 | true exactly when there is no element |
| ArrayLists.ArrayList.Size | src/ArrayList.ts:155-157 | the number of elements |
| ArrayLists.ArrayListJIterator.constructor | src/ArrayList.ts:182-184 | starts before the first element |
| ArrayLists.ArrayListJIterator.HasNext | src/ArrayList.ts:186-190 | true exactly while elements remain |
| ArrayLists.ArrayListJIterator.Next | src/ArrayList.ts:192-194 | yields the elements in index order, then none |
| ArrayLists.ArrayListIterator.constructor | src/ArrayList.ts:202-204 | starts before the first element |
| ArrayLists.ArrayListIterator.Next | src/ArrayList.ts:206-212 | yields (false, element) in index order, then (true, none) |
| Sequences.FirstIndex | src/ArrayList.ts:83-96 | -1 exactly when absent; otherwise an equal element with no equal one before it |
| Sequences.LastIndex | src/LinkedList.ts:443-462 | -1 exactly when absent; otherwise an equal element with no equal one after it |
| Sequences.RemoveFirst | src/LinkedList.ts:271-301 | unchanged when absent, one shorter when present |
| Sequences.RemoveFirstAt | src/LinkedList.ts:271-301 | removing the first equal element cuts the sequence at its first index |
| Sequences.RemoveFirstMultiset | src/ArrayList.ts:114-125 | the removal takes exactly one occurrence of t out of the multiset of elements |
| LinkedLists.LinkedListNode.constructor | src/LinkedList.ts:744-748 | a node holding t with both pointers null |
| LinkedLists.LinkedList.constructor | src/LinkedList.ts:36-48 | a new list holds the initial elements in order (none when there are none), each appended by `add` |
| LinkedLists.LinkedList.Add | src/LinkedList.ts:63-78 | appends t, keeps the rest, returns true |
| LinkedLists.LinkedList.LinkBetween | src/LinkedList.ts:63-101 | the pointer writes that link a fresh node between two neighbours or at an end |
| LinkedLists.LinkedList.AddFirst | src/LinkedList.ts:86-101 | prepends t, keeps the rest, returns true |
| LinkedLists.LinkedList.AddIndex | src/LinkedList.ts:149-190 | inserts t at the index, appends at or past the end, changes nothing for a negative index; both ends are kept right on an empty list |
| LinkedLists.LinkedList.LinkFirst | src/LinkedList.ts:150-157 | the index-0 case: t becomes the first element |
| LinkedLists.LinkedList.LinkLast | src/LinkedList.ts:159-167 | the at-or-past-the-end case: t becomes the last element |
| LinkedLists.LinkedList.InsertAt | src/LinkedList.ts:168-189 | the walk to the index, then t inserted there |
| LinkedLists.LinkedList.InsertBefore | src/LinkedList.ts:173-182 | t linked in between the nodes at positions k-1 and k |
| LinkedLists.LinkedList.AddIndexAsWritten | src/LinkedList.ts:149-167 | on an empty list the count becomes 1 while one end pointer stays null |
| LinkedLists.LinkedList.IsEmpty | src/LinkedList.ts:197-203 | true exactly when there is no element |
| LinkedLists.LinkedList.Clear | src/LinkedList.ts:209-213 | the list becomes empty |
| LinkedLists.LinkedList.ForEach | src/LinkedList.ts:223-228 | hands every element to the consumer, first to last |
| LinkedLists.LinkedList.Size | src/LinkedList.ts:234-236 | the number of elements |
| LinkedLists.LinkedList.GetNode | src/LinkedList.ts:251-261 | the node of the first equal element, null when there is none |
| LinkedLists.LinkedList.Contains | src/LinkedList.ts:244-249 | true exactly when an equal element is stored |
| LinkedLists.LinkedList.GetFirst | src/LinkedList.ts:469-473 | the first element, none when empty |
| LinkedLists.LinkedList.GetLast | src/LinkedList.ts:487-491 | the last element, none when empty |
| LinkedLists.LinkedList.Join | src/LinkedList.ts:279-290 | the pointer writes that join a node's two neighbours, or move an end past it |
| LinkedLists.LinkedList.Bypass | src/LinkedList.ts:279-290 | the node at position k leaves the chain; the others keep their order |
| LinkedLists.LinkedList.Unlink | src/LinkedList.ts:279-293 | bypasses the node at position k and clears its pointers |
| LinkedLists.LinkedList.Remove | src/LinkedList.ts:271-301 | removes only the first equal element; true exactly when there was one |
| LinkedLists.LinkedList.IndexOf | src/LinkedList.ts:359-378 | the first index of an equal element, or -1 |
| LinkedLists.LinkedList.LastIndexOf | src/LinkedList.ts:443-462 | the last index of an equal element, or -1 |
| LinkedLists.LinkedList.RemoveIndex | src/LinkedList.ts:388-434 | in range: removes and returns the element at the index; out of range: none and no change |
| LinkedLists.LinkedList.UnlinkFirst | src/LinkedList.ts:396-407 | the index-0 case: the first element goes |
| LinkedLists.LinkedList.UnlinkLast | src/LinkedList.ts:409-415 | the last-index case: the last element goes |
| LinkedLists.LinkedList.Get | src/LinkedList.ts:498-524 | the element at the index, none when out of range |
| LinkedLists.LinkedList.Set | src/LinkedList.ts:533-547 | in range: returns the old element and changes only that position; out of range: none and no change |
| LinkedLists.LinkedList.Poll | src/LinkedList.ts:555-566 | removes and returns the first element; none and no change when empty |
| LinkedLists.LinkedList.PollLast | src/LinkedList.ts:580-591 | removes and returns the last element; none and no change when empty |
| LinkedLists.LinkedList.Peek | src/LinkedList.ts:647-656 | the first element without removing it, none when empty |
| LinkedLists.LinkedList.PeekLast | src/LinkedList.ts:670-679 | the last element without removing it, none when empty |
| LinkedLists.LinkedListJIterator.constructor | src/LinkedList.ts:756-758 | starts at the first node |
| LinkedLists.LinkedListJIterator.HasNext | src/LinkedList.ts:760-765 | true exactly while elements remain |
| LinkedLists.LinkedListJIterator.Next | src/LinkedList.ts:767-771 | yields the elements first to last |
| LinkedLists.LinkedListIterator.constructor | src/LinkedList.ts:779-781 | starts at the first node |
| LinkedLists.LinkedListIterator.Next | src/LinkedList.ts:784-792 | yields (false, element) first to last, then (true, none) |
| LinkedHashSets.AddAllProperties | src/LinkedHashSet.ts:55-76 | repeated adds keep the elements distinct, keep the earlier order as a prefix, and hold exactly the old and new elements |
| LinkedHashSets.RemoveAtProperties | src/LinkedHashSet.ts:82-96 | removing one entry keeps the order of the rest and takes exactly that element out |
| LinkedHashSets.LinkedEntry.constructor | src/LinkedHashSet.ts:132-134 | an unlinked entry holding the value |
| LinkedHashSets.LinkedEntry.Remove | src/LinkedHashSet.ts:139-142 | the entry's neighbours point at each other; their outer links are unchanged |
| LinkedHashSets.LinkedEntry.GetValue | src/LinkedHashSet.ts:144-146 | the stored value |
| LinkedHashSets.LinkedEntry.AddBefore | src/LinkedHashSet.ts:152-157 | the entry sits between the existing entry's old predecessor and the existing entry, and both point back to it |
| LinkedHashSets.LinkedEntry.Equals | src/LinkedHashSet.ts:159-166 | true exactly when the argument is present and equals the stored value |
| LinkedHashSets.LinkedHashSet.constructor | src/LinkedHashSet.ts:36-49 | the ring starts as the header's self-loop and then holds the initial elements in first-added order |
| LinkedHashSets.LinkedHashSet.InitializeElements | src/LinkedHashSet.ts:55-63 | adds each element in turn |
| LinkedHashSets.LinkedHashSet.Add | src/LinkedHashSet.ts:70-76 | true exactly when the value was absent; a new value goes to the tail, a present one changes nothing |
| LinkedHashSets.LinkedHashSet.CreateEntry | src/LinkedHashSet.ts:98-102 | links a fresh entry just before the header, that is, last |
| LinkedHashSets.LinkedHashSet.Remove | src/LinkedHashSet.ts:82-96 | true exactly when the value was present; then exactly its entry leaves the ring; otherwise nothing changes |
| LinkedHashSets.LinkedHashSet.UnlinkValue | src/LinkedHashSet.ts:86-95 | the ring walk finds the entry holding the value and unlinks it |
| LinkedHashSets.LinkedHashSet.Detach | src/LinkedHashSet.ts:139-142 | after the entry's removal the ring is consistent without it |
| LinkedHashSets.LinkedHashSet.Unlink | src/LinkedHashSet.ts:90-92 | the entry at position k leaves the ring and the set |
| LinkedHashSets.LinkedHashSet.Clear | src/LinkedHashSet.ts:104-107 | the set becomes empty and the ring the header's self-loop |
| LinkedHashSets.LinkedHashSet.Iterator | src/LinkedHashSet.ts:112-115 | a fresh iterator at the first entry |
| LinkedHashSets.LinkedHashSet.GetHeader | src/LinkedHashSet.ts:117-119 | the sentinel, which holds no value and is not an element entry |
| LinkedHashSets.LinkedIterator.constructor | src/LinkedHashSet.ts:175-179 | starts at the entry after the header |
| LinkedHashSets.LinkedIterator.HasNext | src/LinkedHashSet.ts:189-191 | false exactly when the walk is back at the header |
| LinkedHashSets.LinkedIterator.Next | src/LinkedHashSet.ts:181-183 | yields the entries in insertion order, then null |
| LinkedHashSets.LinkedIterator.NextValue | src/LinkedHashSet.ts:185-187 | the value of the next entry in insertion order |
| LinkedHashSets.LinkedIterator.NextEntry | src/LinkedHashSet.ts:193-199 | advances to the next entry, null once exhausted |
| LinkedHashSets.LinkedIterator.Check | src/LinkedHashSet.ts:201-205 | true exactly while entries remain |
| Keys.Compare | spec/TestCollections.spec.ts:93-133 | 0 exactly on equal keys, and always -1, 0 or 1 |
| Keys.CompareOrdersAbsentFirst | spec/TestCollections.spec.ts:101-133 | undefined before null before every number; numbers in numeric order |
| Keys.CompareIsTotalOrder | src/NavigableHash.ts:729-740 | the key order is antisymmetric, irreflexive, transitive and total |
| Keys.InsertKeepsSorted | src/NavigableHash.ts:290-323 | inserting a key between its neighbours keeps the keys strictly sorted |
| Keys.FloorIndex | src/NavigableHash.ts:505-565 | the last position whose key is at most k, -1 when none |
| Keys.LowerIndex | src/NavigableHash.ts:450-498 | the last position whose key is below k, -1 when none |
| Keys.CeilingIndex | src/NavigableHash.ts:382-398 | the first position whose key is at least k, the length when none |
| Keys.HigherIndex | src/NavigableHash.ts:405-417 | the first position whose key is above k, the length when none |
| Keys.FloorIsGreatestAtMost | src/NavigableHash.ts:505-565 | on sorted keys every position up to the floor is at most k and every position at most k is up to the floor |
| Keys.CeilingFromFloor | src/NavigableHash.ts:382-398 | the ceiling is the floor when that is k itself, and the position after the floor otherwise |
| Keys.HigherFromFloor | src/NavigableHash.ts:405-417 | the higher position is the one after the floor |
| Keys.FoundAtFloor | src/NavigableHash.ts:605-663 | k is stored exactly when the floor position holds k |
| Keys.FloorAt | src/NavigableHash.ts:505-565 | a position with a key at most k followed by one above k is the floor |
| Keys.LowerAt | src/NavigableHash.ts:450-498 | a position with a key below k followed by one not below k is the lower position |
| Keys.KeyAt | src/NavigableHash.ts:1312-1318 | the key at a position, none exactly when the position is out of range |
| Keys.FloorIndexIsFloor | src/NavigableHash.ts:505-565 | the key at the floor position is the greatest stored key at most k, none when there is none |
| Keys.LowerIndexIsLower | src/NavigableHash.ts:450-498 | the key at the lower position is the greatest stored key below k |
| Keys.CeilingIndexIsCeiling | src/NavigableHash.ts:382-398 | the key at the ceiling position is the least stored key at least k |
| Keys.HigherIndexIsHigher | src/NavigableHash.ts:405-417 | the key at the higher position is the least stored key above k |
| Keys.EndsAreExtremes | src/NavigableHash.ts:370-375 | the first key is the least and the last the greatest, none when empty |
| Keys.AnswersAreUnique | src/NavigableHash.ts:382-565 | each navigation characterisation admits one answer only |
| Keys.Hundreds | spec/TestNavigableSet.spec.ts:260-311 | the keys 100, 200, ..., 1000 |
| Keys.NavigationExamples | spec/TestNavigableSet.spec.ts:260-311 | over 100..1000: floor(456) is 400, ceiling(456) is 500, floor(1) and ceiling(99999) are none |
| SortedEntries.KeysOfEntries | src/NavigableHash.ts:667-689 | the keys of the entries, position by position |
| SortedEntries.LookupFloor | src/NavigableHash.ts:605-663 | lookup finds the value at the floor position exactly when that key is k |
| SortedEntries.PutOrdered | src/NavigableHash.ts:290-323 | putting keeps the entries in strictly increasing key order |
| SortedEntries.PutLookup | src/NavigableHash.ts:290-323 | after a put, k maps to the new value and every other key as before |
| SortedEntries.DeleteOrdered | src/NavigableHash.ts:200-207 | deleting keeps the entries ordered |
| SortedEntries.DeleteLookup | src/NavigableHash.ts:200-207 | after a delete, k is absent and every other key maps as before |
| SortedEntries.LookupMember | src/NavigableHash.ts:806-825 | lookup succeeds exactly for stored keys, and finds the stored entry |
| SortedEntries.PutAllLookup | src/NavigableHash.ts:757-768 | after putting a sequence of entries each key maps to its last value in the sequence, or as before when the sequence lacks it |
| SkipLevels.NewNode | src/NavigableHash.ts:668-677 | a node of the given height with every forward and backward slot null |
| NavigableHash.EntriesOf | src/NavigableHash.ts:667-689 | one entry per live node, keys in live order |
| NavigableHash.NodeCompare | src/NavigableHash.ts:729-740 | the same argument twice compares 0; otherwise an absent first node sorts first, an absent second node last, and two nodes compare by key |
| NavigableHash.NodeCompareAbsentBothFirst | src/NavigableHash.ts:729-740 | null and undefined each compare below the other, as written |
| NavigableHash.NodeCompareFollowsOrder | src/NavigableHash.ts:729-740 | on live nodes the comparator follows their ascending order |
| NavigableHash.NodeEquals | src/NavigableHash.ts:697-719 | absent arguments are equal only to the same absence; nodes are equal exactly when their keys are |
| NavigableHash.NodeEqualsIsIdentity | src/NavigableHash.ts:697-719 | on live nodes node equality is identity |
| NavigableHash.HeadsAtMost | src/NavigableHash.ts:505-531 | the head scan of floorEntry: the highest head at most the key, or none when every key is above it |
| NavigableHash.HeadsBelow | src/NavigableHash.ts:450-470 | the head scan of lowerEntry: a head below the key, or none when no key is below it |
| NavigableHash.FloorScan | src/NavigableHash.ts:539-556 | one step of floorEntry's walk: a later node still at most the key, or proof that the next key is above it |
| NavigableHash.FloorNode | src/NavigableHash.ts:505-565 | floorEntry's walk ends on the node at the floor position |
| NavigableHash.LowerScan | src/NavigableHash.ts:485-495 | one step of lowerEntry's walk: a later node still below the key |
| NavigableHash.LowerNode | src/NavigableHash.ts:450-498 | lowerEntry's walk ends on the node at the lower position |
| NavigableHash.FindScan | src/NavigableHash.ts:647-660 | one step of getEntry's walk: a later node below or at the key |
| NavigableHash.FindNode | src/NavigableHash.ts:605-663 | getEntry's walk ends on the node holding the key, or none when it is absent |
| NavigableHash.LastNode | src/NavigableHash.ts:571-598 | lastEntry's walk ends on the last live node |
| NavigableHash.NavigableHashImpl.Entries | src/NavigableHash.ts:142-193 | the abstract map is strictly ordered by key, one entry per live node |
| NavigableHash.NavigableHashImpl.constructor | src/NavigableHash.ts:39-52 | an empty map with every head slot null |
| NavigableHash.NavigableHashImpl.Clear | src/NavigableHash.ts:238-244 | the map becomes empty with every head slot null |
| NavigableHash.NavigableHashImpl.Size | src/NavigableHash.ts:258-260 | the number of entries |
| NavigableHash.NavigableHashImpl.IsEmpty | src/NavigableHash.ts:266-272 | true exactly when there is no entry |
| NavigableHash.NavigableHashImpl.NewNodeSize | src/NavigableHash.ts:274-282 | a height in 1..3: one more than the first null head slot, or any of 1..2 once every slot is taken |
| NavigableHash.NavigableHashImpl.FirstEntry | src/NavigableHash.ts:370-375 | the least node, none when empty |
| NavigableHash.NavigableHashImpl.NextHigherNode | src/NavigableHash.ts:424-443 | the next live node in key order; none at the end, on an empty map or for a null node |
| NavigableHash.NavigableHashImpl.FloorEntry | src/NavigableHash.ts:505-565 | the node at the floor position |
| NavigableHash.NavigableHashImpl.LowerEntry | src/NavigableHash.ts:450-498 | the node at the lower position |
| NavigableHash.NavigableHashImpl.GetEntry | src/NavigableHash.ts:605-663 | the node holding the key, none when absent |
| NavigableHash.NavigableHashImpl.LastEntry | src/NavigableHash.ts:571-598 | the greatest node, none when empty |
| NavigableHash.NavigableHashImpl.CeilingEntry | src/NavigableHash.ts:382-398 | the node at the ceiling position |
| NavigableHash.NavigableHashImpl.HigherEntry | src/NavigableHash.ts:405-417 | the node at the higher position |
| NavigableHash.NavigableHashImpl.SpliceIn | src/NavigableHash.ts:336-344 | the splice of the new node after a node on one level |
| NavigableHash.NavigableHashImpl.LinkBefore | src/NavigableHash.ts:356-361 | the new node in front of the displaced head on one level, with the displaced head's back link set |
| NavigableHash.NavigableHashImpl.WalkAndSplice | src/NavigableHash.ts:332-350 | the backward walk to the last earlier node tall enough for the level, and the splice after it |
| NavigableHash.NavigableHashImpl.HookUpLevel | src/NavigableHash.ts:330-362 | the new node is linked into one more level, behind the walk's node or at the head |
| NavigableHash.NavigableHashImpl.HookUpNodePointers | src/NavigableHash.ts:325-364 | the new node is linked into every level after its floor node; the skip-list invariant holds with it inserted after position f |
| NavigableHash.NavigableHashImpl.HookUpLevels | src/NavigableHash.ts:330-362 | the per-level loop links every level of the new node |
| NavigableHash.NavigableHashImpl.LinkFrontLevel | src/NavigableHash.ts:300-307 | a new least node is put in front of one level and becomes its head |
| NavigableHash.NavigableHashImpl.LinkFrontLevels | src/NavigableHash.ts:300-308 | the loop over every level of a new least node |
| NavigableHash.NavigableHashImpl.LinkAtFront | src/NavigableHash.ts:298-309 | the invariant holds with the new least node in front |
| NavigableHash.NavigableHashImpl.Allocate | src/NavigableHash.ts:299-299 | a fresh node with every slot null is added to the arena |
| NavigableHash.NavigableHashImpl.InsertFirst | src/NavigableHash.ts:297-309 | a key below every stored key becomes the first entry |
| NavigableHash.NavigableHashImpl.InsertAfter | src/NavigableHash.ts:315-320 | a new key goes in directly after its floor entry |
| NavigableHash.NavigableHashImpl.PutIntoEmpty | src/NavigableHash.ts:291-295 | on an empty map the single entry is the new one |
| NavigableHash.NavigableHashImpl.ReplaceValue | src/NavigableHash.ts:311-314 | an existing key's value is replaced in place |
| NavigableHash.NavigableHashImpl.Put | src/NavigableHash.ts:290-323 | the map becomes put(old, key, value) and the result is the previous value, none when the key was new |
| NavigableHash.NavigableHashImpl.JoinNeighbours | src/NavigableHash.ts:221-226 | the node's two neighbours on one level point at each other |
| NavigableHash.NavigableHashImpl.UnlinkLevel | src/NavigableHash.ts:217-231 | the node leaves one more level, and a head on it moves to its successor |
| NavigableHash.NavigableHashImpl.RemoveElement | src/NavigableHash.ts:213-233 | the node leaves every level; the others stay in order |
| NavigableHash.NavigableHashImpl.Remove | src/NavigableHash.ts:200-207 | the map becomes delete(old, key) and the result is the old value, none and no change when absent |
| NavigableHashMaps.KeyOf | src/NavigableHash.ts:904-922 | the key of an entry, none for none |
| NavigableHashMaps.EntryOf | src/NavigableHash.ts:667-677 | the entry of a node: its key and value |
| NavigableHashMaps.FoundEntry | src/NavigableHash.ts:916-1050 | a node found at a position yields the entry and key stored there |
| NavigableHashMaps.NavigableHashMap.Entries | src/NavigableHash.ts:754-1059 | the map's entries are strictly ordered by key |
| NavigableHashMaps.NavigableHashMap.constructor | src/NavigableHash.ts:757-768 | a new map holding the initial entries, later ones winning |
| NavigableHashMaps.NavigableHashMap.GetNextHigherKey | src/NavigableHash.ts:781-791 | none for an absent key; for a stored key, the least stored key above it |
| NavigableHashMaps.NavigableHashMap.Size | src/NavigableHash.ts:797-799 | the number of entries |
| NavigableHashMaps.NavigableHashMap.Get | src/NavigableHash.ts:806-812 | the value stored under the key, none exactly when it is absent |
| NavigableHashMaps.NavigableHashMap.ContainsKey | src/NavigableHash.ts:819-825 | true exactly when the key is stored |
| NavigableHashMaps.NavigableHashMap.IsEmpty | src/NavigableHash.ts:831-833 | true exactly when there is no entry |
| NavigableHashMaps.NavigableHashMap.EntrySet | src/NavigableHash.ts:855-857 | a fresh view over the same skip list |
| NavigableHashMaps.NavigableHashMap.Put | src/NavigableHash.ts:865-867 | the entries become put(old, key, value); returns the previous value |
| NavigableHashMaps.NavigableHashMap.Remove | src/NavigableHash.ts:874-876 | the entries become delete(old, key); returns the old value |
| NavigableHashMaps.NavigableHashMap.Clear | src/NavigableHash.ts:881-883 | the map becomes empty |
| NavigableHashMaps.NavigableHashMap.FirstKey | src/NavigableHash.ts:904-910 | the least key, none when empty |
| NavigableHashMaps.NavigableHashMap.FirstEntry | src/NavigableHash.ts:916-922 | the stored entry with the least key, none when empty |
| NavigableHashMaps.NavigableHashMap.CeilingEntry | src/NavigableHash.ts:929-935 | the stored entry with the least key at least k |
| NavigableHashMaps.NavigableHashMap.CeilingKey | src/NavigableHash.ts:942-948 | the least key at least k |
| NavigableHashMaps.NavigableHashMap.HigherKey | src/NavigableHash.ts:955-961 | the least key above k |
| NavigableHashMaps.NavigableHashMap.HigherEntry | src/NavigableHash.ts:968-974 | the stored entry with the least key above k |
| NavigableHashMaps.NavigableHashMap.LowerKey | src/NavigableHash.ts:981-987 | the greatest key below k |
| NavigableHashMaps.NavigableHashMap.LowerEntry | src/NavigableHash.ts:994-1000 | the stored entry with the greatest key below k |
| NavigableHashMaps.NavigableHashMap.FloorKey | src/NavigableHash.ts:1007-1013 | the greatest key at most k |
| NavigableHashMaps.NavigableHashMap.FloorEntry | src/NavigableHash.ts:1020-1026 | the stored entry with the greatest key at most k |
| NavigableHashMaps.NavigableHashMap.LastKey | src/NavigableHash.ts:1032-1038 | the greatest key, none when empty |
| NavigableHashMaps.NavigableHashMap.LastEntry | src/NavigableHash.ts:1044-1050 | the stored entry with the greatest key, none when empty |
| NavigableHashMaps.ImmutableEntrySet.constructor | src/NavigableHash.ts:1150-1152 | a view over the given skip list |
| NavigableHashMaps.ImmutableEntrySet.Size | src/NavigableHash.ts:1154-1154 | the number of entries |
| NavigableHashMaps.ImmutableEntrySet.IsEmpty | src/NavigableHash.ts:1156-1156 | true exactly when there is no entry |
| NavigableHashMaps.ImmutableEntrySet.Contains | src/NavigableHash.ts:1158-1165 | true exactly when the item is present and its key is stored |
| NavigableHashMaps.ImmutableEntrySet.ForEach | src/NavigableHash.ts:1171-1176 | hands every entry to the consumer in ascending key order |
| NavigableHashMaps.KeySetJIterator.constructor | src/NavigableHash.ts:1095-1097 | starts before the first key |
| NavigableHashMaps.KeySetJIterator.HasNext | src/NavigableHash.ts:1099-1109 | true exactly while keys remain |
| NavigableHashMaps.KeySetJIterator.Next | src/NavigableHash.ts:1111-1123 | yields every stored key once, ascending, then none |
| NavigableHashMaps.KeySetIterator.constructor | src/NavigableHash.ts:1131-1134 | starts at the first node |
| NavigableHashMaps.KeySetIterator.Next | src/NavigableHash.ts:1137-1144 | yields (false, key) for every stored key once, ascending, then (true, none) |
| NavigableHashMaps.EntrySetJIterator.constructor | src/NavigableHash.ts:1185-1187 | starts before the first entry |
| NavigableHashMaps.EntrySetJIterator.HasNext | src/NavigableHash.ts:1189-1200 | true exactly while entries remain |
| NavigableHashMaps.EntrySetJIterator.Next | src/NavigableHash.ts:1202-1215 | yields every stored entry once in ascending key order, then none |
| NavigableHashMaps.EntrySetIterator.constructor | src/NavigableHash.ts:1223-1226 | starts at the first node |
| NavigableHashMaps.EntrySetIterator.Next | src/NavigableHash.ts:1229-1236 | yields (false, entry) for every stored entry once, ascending, then (true, none) |
| NavigableHashSets.PutKeepsMarked | src/NavigableHash.ts:1270-1276 | adding stores the marker value 1, so every value stays the marker |
| NavigableHashSets.DeleteKeepsMarked | src/NavigableHash.ts:1399-1406 | removing keeps every value the marker |
| NavigableHashSets.PutKeys | src/NavigableHash.ts:290-323 | the keys after a put are the old keys and the new one |
| NavigableHashSets.DeleteKeys | src/NavigableHash.ts:200-207 | the keys after a delete are the old keys without the removed one |
| NavigableHashSets.NavigableHashSet.Elements | src/NavigableHash.ts:1249-1495 | the elements are strictly ascending |
| NavigableHashSets.NavigableHashSet.constructor | src/NavigableHash.ts:1252-1260 | a new set holding exactly the initial elements |
| NavigableHashSets.NavigableHashSet.Add | src/NavigableHash.ts:1270-1276 | the element is stored with the marker; true exactly when it was absent |
| NavigableHashSets.NavigableHashSet.Size | src/NavigableHash.ts:1282-1284 | the number of elements |
| NavigableHashSets.NavigableHashSet.IsEmpty | src/NavigableHash.ts:1290-1292 | true exactly when there is no element |
| NavigableHashSets.NavigableHashSet.Contains | src/NavigableHash.ts:1299-1305 | true exactly when the element is stored |
| NavigableHashSets.NavigableHashSet.Floor | src/NavigableHash.ts:1312-1318 | the greatest element at most k |
| NavigableHashSets.NavigableHashSet.Ceiling | src/NavigableHash.ts:1325-1331 | the least element at least k |
| NavigableHashSets.NavigableHashSet.Higher | src/NavigableHash.ts:1338-1344 | the least element above k |
| NavigableHashSets.NavigableHashSet.ForEach | src/NavigableHash.ts:1350-1355 | hands every element to the consumer, ascending |
| NavigableHashSets.NavigableHashSet.First | src/NavigableHash.ts:1361-1367 | the least element, none when empty |
| NavigableHashSets.NavigableHashSet.Lower | src/NavigableHash.ts:1374-1380 | the greatest element below k |
| NavigableHashSets.NavigableHashSet.Last | src/NavigableHash.ts:1386-1392 | the greatest element, none when empty |
| NavigableHashSets.NavigableHashSet.Remove | src/NavigableHash.ts:1399-1406 | the element is no longer stored; true exactly when it was |
| NavigableHashSets.NavigableHashSet.Clear | src/NavigableHash.ts:1411-1413 | the set becomes empty |
| NavigableHashSets.NavigableHashSet.PollFirst | src/NavigableHash.ts:1419-1428 | removes and returns the least element; none and no change when empty |
| NavigableHashSets.NavigableHashSet.PollLast | src/NavigableHash.ts:1434-1443 | removes and returns the greatest element; none and no change when empty |
| NavigableHashSets.NavigableHashSet.Unlink | src/NavigableHash.ts:1426-1426 | the removeElement call of the polls takes out exactly that element |
| NavigableHashSets.NavigableHashSet.GetNextHigherKey | src/NavigableHash.ts:1450-1456 | the least element above the key |
| HookUpAsWritten.NewNodeSize | src/NavigableHash.ts:274-282 | one more than the lowest null head slot at or above the start, so that slot is null and every slot below it (from the start) is taken; the random pick once every slot is taken |
| HookUpAsWritten.HeadScan | src/NavigableHash.ts:512-526 | the head scan from the top level down: a match holds the key, and a node it settles on holds a smaller key |
| HookUpAsWritten.FloorSlots | src/NavigableHash.ts:536-555 | floorEntry's scan of a node's forward slots from the top down: a match holds the key, and a node to move on to holds a smaller key |
| HookUpAsWritten.FloorWalk | src/NavigableHash.ts:532-564 | floorEntry's forward walk: any node it reaches other than the one it starts from holds a key at or below the sought key |
| HookUpAsWritten.FloorEntry | src/NavigableHash.ts:505-565 | floorEntry as written never answers a node whose key is above the sought key; none on an empty map |
| HookUpAsWritten.EntrySlots | src/NavigableHash.ts:644-661 | getEntry's scan of a node's forward slots from the top down: a match holds the key, and a node to move on to holds a smaller key |
| HookUpAsWritten.EntryWalk | src/NavigableHash.ts:629-662 | getEntry's forward walk only answers a node holding the sought key |
| HookUpAsWritten.GetEntry | src/NavigableHash.ts:605-663 | getEntry as written only answers a node holding the sought key; none on an empty map |
| HookUpAsWritten.WalkLevel | src/NavigableHash.ts:330-351 | the walk and splice on one level only rewires pointers: keys, values, slot counts, heads and the count are unchanged |
| HookUpAsWritten.HeadLevel | src/NavigableHash.ts:352-362 | the head update of one level: the head becomes the new node when it was null or held a larger key, and stays otherwise; it never writes a backward slot, so a displaced head keeps a null one |
| HookUpAsWritten.HookUp | src/NavigableHash.ts:325-364 | hookUpNodePointers as written only rewires pointers: keys, values, slot counts and the count are unchanged |
| HookUpAsWritten.LinkFront | src/NavigableHash.ts:298-307 | linking a new least node only rewires pointers; every head slot it occupies points at it and the other head slots are unchanged |
| HookUpAsWritten.Put | src/NavigableHash.ts:290-323 | put as written keeps every existing node's key; on an empty map it stores one node at head 0 with count 1; when floorEntry finds the key it replaces that value and keeps the count; otherwise it adds one node holding the key and increments the count |
| HookUpAsWritten.Unlink | src/NavigableHash.ts:213-233 | removeElement's loop as written only rewires pointers: keys, values, slot counts and the count are unchanged |
| HookUpAsWritten.Remove | src/NavigableHash.ts:200-207 | remove as written changes nothing when getEntry finds no node; otherwise it only rewires pointers and decrements the count |
| HookUpAsWritten.HookUpSixty | src/NavigableHash.ts:325-364 | as written, hooking up 60 after 50 splices it in on level 0 and makes it the head of level 1 |
| HookUpAsWritten.HookUpFiftyFiveLevelZero | src/NavigableHash.ts:330-351 | as written, level 0 of hooking up 55 splices it between 50 and 60 |
| HookUpAsWritten.HookUpFiftyFiveUpper | src/NavigableHash.ts:352-362 | as written, on level 1 55 displaces 60 as head and 60's backward slot there stays null; on level 2 it takes the empty head slot |
| HookUpAsWritten.HookUpFiftyFive | src/NavigableHash.ts:325-364 | as written, hooking up 55 gives the state with 60's backward slot on level 1 null |
| HookUpAsWritten.PutFifty | src/NavigableHash.ts:290-296 | as written, put 50 into an empty map gives one node at head 0 |
| HookUpAsWritten.PutSixty | src/NavigableHash.ts:317-364 | as written, put 60 gives a two-level node that takes head 1 |
| HookUpAsWritten.PutFiftyFive | src/NavigableHash.ts:317-364 | as written, put 55 displaces 60 at head 1 and leaves 60's backward slot on level 1 null |
| HookUpAsWritten.RemoveSixty | src/NavigableHash.ts:200-233 | as written, remove 60 leaves 55's forward slot on level 1 pointing at the removed node |
| HookUpAsWritten.QueriesAfterRemove | src/NavigableHash.ts:505-663 | as written, getEntry(60) then finds nothing while floorEntry(100) returns the removed node |
| HookUpAsWritten.RemovedNodeFound | src/NavigableHash.ts:356-361 | as written, put 50, 60, 55, remove 60, then floorEntry(100) answers the removed key 60 |

## Left out

- `Math.random` in `newNodeSize`: once every head slot is taken, the level
  is a nondeterministic choice in 1..2.
- The `hashData`, `iInitialCapacity` and `iLoadFactor` fields: no operation
  uses them.
- `containsValue` and `toJSON`: they call into the `Collections` module,
  which is not part of this model. `toJSON`'s order is that of the iterators,
  which are modelled.
- `JSON.stringify` in `AllFieldCollectable.equals`: it is a parameter
  (`stringify`) of unknown behaviour.
- The key comparator: the model fixes the library's number comparator.
  `Collections.collectableFromComparator` is not part of this model. Keys
  are integers (or null or undefined), so fractional keys and `NaN`, which
  the number comparator does not order totally, are outside the model.
- The `HashSet` base class of `LinkedHashSet`: it is not part of this model.
  It appears as a plain set field, `hashed`, with `add`/`remove` meaning
  insert and delete.
- `ImmutableKeySetForNavigableHashMap`:
  - `size`, `isEmpty` and `contains` call themselves and never terminate.
  - Its iterators are the key-set iterators, which are modelled.
  - Its `forEach` is the same loop as `NavigableHashSet.ForEach`.
- `NavigableHashMap[Symbol.iterator]`: it indexes the method `entrySet`
  instead of calling it, so it has no behaviour to model.
- `NavigableHashSetJIterator` and `NavigableHashSetIterator`: they behave
  exactly like the map's key-set iterators with the value type `number`.
  `KeySetJIterator` and `KeySetIterator` stand for them.
- `iterator()`, `[Symbol.iterator]()`, `keySet`, `immutableMap`,
  `immutableCollection`, `immutableSet` and `immutableList`: each only
  constructs an iterator or view, or returns `this`.
- The `forEach` consumers: each `ForEach` returns the sequence of values it
  would hand over.
- `validate` and `validateDisplay`: they are commented out. Their intended
  invariant is `NavigableHashImpl.Valid`.
- `LinkedList.addLast`, `offer`, `offerLast`: they call `add`.
  `offerFirst` calls `addFirst`.
- `LinkedList` queue aliases:
  - `pollFirst`, `removeQueue` and `removeFirst` behave as `poll`.
  - `removeLast` behaves as `pollLast`.
  - `peekFirst` and `element` behave as `peek`.
  - Their null/undefined distinctions collapse into `Option`.
- `LinkedList.removeAll` and `addAll`: they iterate over another collection
  and call `remove`/`add`, which are modelled.
- `LinkedList.getCollectable`, `getFirstNode`, the `comparator` accessor,
  and the node accessors: they are plain field reads.
- Null and undefined arguments and results of the facades collapse into
  `Option`. `AllFieldCollectable` keeps the distinction.
- Element equality of the lists and the ring is Dafny equality. It stands
  for the collection's `Collectable`, and for the `JSON.stringify`
  comparison in `LinkedEntry.equals`.
- ArrayLists.ArrayList.Set: requires an index inside the array. The source
  assigns `elements[index]` directly: past the end this grows the array,
  leaving holes, while `sizeValue` stays the same; a negative index writes a
  property that is not an array element.
- ArrayLists.ArrayList.constructor: the source starts with a `null` backing
  array, which `add` and `addElement` replace with an empty one. Until then
  `get` and `set` throw, and `remove` returns `undefined` without
  decrementing the count. The model starts with an empty array.
- After a `Remove` past the end the count no longer matches the array (see
  `ArrayLists.ArrayList.Remove`). The other list operations are modelled
  only while the two agree (`Valid`).
- Indices are integers: the source's fractional indices are not modelled.
- LinkedLists.LinkedListJIterator.Next: requires an element to remain. Past
  the end the source reads `payload` of a null node and throws a TypeError.
- LinkedHashSets.LinkedIterator.NextValue: requires an element to remain.
  Past the end `next()` returns null and the source throws a TypeError
  calling `getValue` on it.
- NavigableHash.NavigableHashImpl.HookUpLevel: models the corrected code. It
  also sets the displaced head's backward slot (see Findings). The code as
  written is modelled separately by `HookUpAsWritten`.
- LinkedLists.LinkedList.AddIndex: models the corrected code. On an empty
  list it sets both ends (see Findings).
- `HookUpAsWritten`: the as-written functions read null through indices
  that do not exist and write nothing there. Their pointer walks take a fuel
  bound: once it runs out a walk stops, and a search answers null. About
  them the model proves the framing facts in their contracts and the
  counterexample, not the invariants of the corrected code.

## Findings

| source | as written | input that shows it | evidently intended | confidence | as-written member | corrected member |
|---|---|---|---|---|---|---|
| src/NavigableHash.ts:356-361 | when the new node displaces the head of a level, only the new node's forward slot is set; the displaced node's backward slot on that level stays null, so a later `removeElement` of that node cannot reach the forward pointer to it | put 50, 60, 55 (60 has two levels, 55 three), remove 60, then floorEntry(100): getEntry(60) finds nothing, but floorEntry returns the removed node 60 | the displaced head's backward slot points at the new node, so every level stays doubly linked and removal unlinks the node everywhere | not executed | HookUpAsWritten.RemovedNodeFound | NavigableHash.NavigableHashImpl.HookUpNodePointers |
| src/LinkedList.ts:149-167 | `addIndex` on an empty list sets only one end: index 0 sets `firstNode` but leaves `lastNode` null, and an index above 0 sets `lastNode` but leaves `firstNode` null, while the count becomes 1 | addIndex(0, t) on a new list: size 1, but `peekLast` and `pollLast` see no last node | both ends point at the single new node | not executed | LinkedLists.LinkedList.AddIndexAsWritten | LinkedLists.LinkedList.AddIndex |
