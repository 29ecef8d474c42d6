# Collection manager of the product registry server

This is a Dafny model of `CollectionManager`, the server-side registry of a multi-user product
catalogue. The manager holds:

- an ordered set of `Product` records (a `TreeSet`);
- a per-host display colour, the "tag" map `usersColors`;
- a bounded history of command names (`DefaultQueue(11)`);
- a `hasChanges` flag that the save scheduler polls.

The server calls the write operations on it: `add`, `addIfMax`, `addIfMin`, `clear`,
`removeById` and `updateId`.

- `clear`, `removeById` and `updateId` take the caller's login.
- `clear` and `removeById` remove only products whose `host` equals the login.
- `updateId` checks only the host of the product it replaces. It then adds the new product
  whatever that product's `host` is, so a user can put into the set a product that names
  another host.
- `add` asks the persistence layer for an id. `addIfMax` and `addIfMin` ask only after the price
  test passes.
- None of the three adding operations takes a user or compares a host.

The server also calls the read operations: `show`, `filterByUnitOfMeasure`,
`printUniquePartNumber`, `printFieldDescendingOwner`, `info` and `history`. In the Java code
most of each operation runs under a read/write lock, with the exceptions listed under
"## Left out". Here each operation is a single sequential step.

Layout:

- `elements.dfy`: the record types (`Elements`).
- `wrappers.dfy`: `Option`.
- `seqs.dfy`: order-preserving filtering, the shape of the stream filters.
- `product_set.dfy`: the `TreeSet` as a strictly ascending sequence. Covers `add`, `addAll`,
  `contains` and `remove`.
- `queries.dfy`: the stream computations. Covers `isIdBusy`, `findMax`, `findMin`, the filters,
  the projections and the set of distinct part numbers.
- `history.dfy`: the bounded command log.
- `user_colors.dfy`: tag assignment.
- `text.dfy`: the report texts and decimal printing.
- `collection_manager.dfy`: the class `CollectionManager`, with its fields and one method per
  operation. It also holds the module-level loops the operations run: loading, `clear`'s two
  passes and the id search.

How the model stands in for what it cannot see:

- **Set order.** `Product.compareTo` is not part of this model. The class takes the set's order
  as a constant `rank: Product -> int`. It ranks a product with its display colour removed,
  because the colour is set after insertion and must not move the element. As in a `TreeSet`,
  two products of equal rank are the same element. Adding one is a no-op; removing one removes
  the other.
- **Persistence (`DBManager`).** It is not part of this model.
  - `createProduct`'s answer is the input `createdId`, with `-1` meaning failure.
  - `readAllProducts` is the constructor's `loaded` list.
  - `deleteProduct` and `updateProduct` return nothing the manager reads, so they are not
    modelled.
- **Randomness.** `Math.random` colours are inputs: `drawn` on each add, and `draw(host)` when
  the stored set is loaded.
- **Clock.** `LocalDateTime.now()` is the constructor's `creationDate` text.
- **History.** `DefaultQueue`'s code is not part of this model. Its capacity, 11, comes from
  `new DefaultQueue(11)`. It is assumed to drop its oldest entry when full. That is what keeping
  "the last 11 commands", as the help text promises, implies.

## Model

| member | source | states |
|---|---|---|
| Collection.CollectionManager.constructor | src/main/project/src/logic/CollectionManager.java:50-61 | the set is `addAll` of the loaded products, each element recoloured with its host's tag; every tag is `draw(host)` for a host that owns a product; history is empty and nothing is changed |
| Collection.PaintAll | src/main/project/src/logic/CollectionManager.java:112-119 | every product gets its host's tag and keeps all other fields; a host is tagged once, with `draw(host)`, and only hosts of loaded products are tagged |
| Collection.CollectionManager.DefineUserColors | src/main/project/src/logic/CollectionManager.java:121-126 | the tag map becomes `AssignTag(old, host, drawn)` and the product comes back carrying its host's tag |
| Collection.CollectionManager.Add | src/main/project/src/logic/CollectionManager.java:128-144 | "add" is logged either way; on `-1` the set, tags and flag are unchanged and the failure text is returned; otherwise the product takes the returned id and its host's tag, is added to the set, the flag is raised and the success text is returned |
| Collection.CollectionManager.AddIfMax | src/main/project/src/logic/CollectionManager.java:151-171 | on a non-empty set: "add_if_max" is logged; a price not strictly above the maximum gives the not-max text and no change; a failed create gives the failure text and no change; otherwise the product is added without taking the returned id |
| Collection.CollectionManager.AddIfMin | src/main/project/src/logic/CollectionManager.java:177-196 | the same three outcomes below the minimum price, with "add_if_min" logged |
| Collection.CollectionManager.Clear | src/main/project/src/logic/CollectionManager.java:202-224 | the set becomes exactly the products of other hosts, in order; the flag is raised, "clear" is logged and the cleared text is returned even when nothing matched |
| Collection.CollectionManager.ExecuteScript | src/main/project/src/logic/CollectionManager.java:230-235 | only logs "execute_script" and returns the script text |
| Collection.CollectionManager.FilterByUnitOfMeasure | src/main/project/src/logic/CollectionManager.java:241-259 | the header, then the names of the products of that unit, one per line in set order; logs the command |
| Collection.CollectionManager.History | src/main/project/src/logic/CollectionManager.java:290-299 | lists the log as it was before the call, one command per line, and then logs "history" |
| Collection.CollectionManager.Info | src/main/project/src/logic/CollectionManager.java:305-322 | logs "info"; a non-empty set gives the type, creation date and decimal size; an empty one gives the "Type can not be defined" text with size 0 |
| Collection.CollectionManager.PrintFieldDescendingOwner | src/main/project/src/logic/CollectionManager.java:328-347 | the owners' names in set order, not sorted, because the sorted copy is discarded; logs the command |
| Collection.CollectionManager.RemoveById | src/main/project/src/logic/CollectionManager.java:353-376 | "remove_by_id" is logged; with no product of that id the set is unchanged and not-found is returned; if the first match belongs to another host the set is unchanged and permission is denied; otherwise exactly that element is removed and the flag raised |
| Collection.FindById | src/main/project/src/logic/CollectionManager.java:359-360 | the search loop stops at the first product with the id, or reports that there is none |
| Collection.CollectionManager.Show | src/main/project/src/logic/CollectionManager.java:382-392 | null exactly when the set is empty, otherwise the whole set in its ascending order |
| Collection.CollectionManager.PrintUniquePartNumber | src/main/project/src/logic/CollectionManager.java:398-414 | prints the `HashSet`'s iteration order, given as an input that lists each part number of the set exactly once; one per line; logs the command |
| Collection.CollectionManager.UpdateId | src/main/project/src/logic/CollectionManager.java:420-443 | "update_id" is logged; with no product of that id the set is unchanged and "This id is busy." is returned; another host's product gives permission denied; otherwise the first match is removed and the new product is added to what remains, whatever its host; every product of another host stays in the set |
| Collection.CollectionManager.IsChanged | src/main/project/src/logic/CollectionManager.java:445-447 | reports the flag |
| Collection.CollectionManager.HandleChanges | src/main/project/src/logic/CollectionManager.java:449-451 | clears the flag |
| Collection.CollectOwned | src/main/project/src/logic/CollectionManager.java:205-211 | `clear`'s first pass collects exactly the user's products, in set order |
| Collection.RemoveAll | src/main/project/src/logic/CollectionManager.java:213-218 | `clear`'s second pass leaves the set without any element comparing equal to a collected product |
| Queries.DropOwnedKeys | src/main/project/src/logic/CollectionManager.java:205-218 | in an ordered set, removing every element that compares equal to one of the user's products leaves exactly the other hosts' products |
| Queries.DropKeysRemoveStep | src/main/project/src/logic/CollectionManager.java:213-218 | one `contains`/`remove` step of the second pass extends the removed keys by the next collected product's key |
| Queries.OwnedBy | src/main/project/src/logic/CollectionManager.java:205-211 | a product is collected exactly when it is in the set and its host is the login |
| Queries.NotOwnedBy | src/main/project/src/logic/CollectionManager.java:202-224 | what `clear` leaves has no product of the user, and keeps every product of another host |
| Queries.NotOwnedBySorted | src/main/project/src/logic/CollectionManager.java:202-224 | what `clear` leaves is still an ordered set |
| Queries.FirstWithId | src/main/project/src/logic/CollectionManager.java:359-360 | the position of the first product with the id, with no earlier one; none only when no product has it |
| Queries.IsIdBusy | src/main/project/src/logic/CollectionManager.java:78-84 | true exactly when some product of the set has the id, false for the empty set |
| Queries.MaxPrice | src/main/project/src/logic/CollectionManager.java:86-92 | for a non-empty set, a price some element has and no element exceeds |
| Queries.MinPrice | src/main/project/src/logic/CollectionManager.java:99-106 | for a non-empty set, a price some element has and no element undercuts |
| Queries.InsertAboveMax | src/main/project/src/logic/CollectionManager.java:155-158 | a new product priced above the maximum is the set's maximum once added |
| Queries.InsertBelowMin | src/main/project/src/logic/CollectionManager.java:181-184 | a new product priced below the minimum is the set's minimum once added |
| Queries.WithUnit | src/main/project/src/logic/CollectionManager.java:246-248 | a product passes the filter exactly when it is in the set and its unit's text equals the argument |
| Queries.Names | src/main/project/src/logic/CollectionManager.java:250-252 | the name of each filtered product, position by position |
| Queries.Owners | src/main/project/src/logic/CollectionManager.java:333-335 | the owner of each product, position by position |
| Queries.PersonNames | src/main/project/src/logic/CollectionManager.java:341-342 | the name of each owner, position by position |
| Queries.PartNumbers | src/main/project/src/logic/CollectionManager.java:402-404 | the part number of each product, position by position |
| Collection.ReplaceAt | src/main/project/src/logic/CollectionManager.java:429-430 | `remove(p)` of the product at a position, then `add(product)`: the result is the new product added to the set without that position; it is ordered and keeps every other element |
| Collection.FirstOccurrenceIsIteration | src/main/project/src/logic/CollectionManager.java:405-411 | the distinct part numbers in first-occurrence order list each value once, so they meet `printUniquePartNumber`'s input condition |
| Queries.Distinct | src/main/project/src/logic/CollectionManager.java:405 | exactly the values of the list, none twice: one valid iteration order of the `HashSet` |
| ProductSet.Insert | src/main/project/src/logic/CollectionManager.java:135 | `TreeSet.add` adds nothing but `x`; afterwards `x` is present unless an element comparing equal already was |
| ProductSet.HasKey | src/main/project/src/logic/CollectionManager.java:214 | `TreeSet.contains`: some element compares equal, exactly when the key is among the set's keys |
| ProductSet.RemoveKey | src/main/project/src/logic/CollectionManager.java:215 | `TreeSet.remove` keeps exactly the elements that do not compare equal to the removed product, and never grows the set |
| ProductSet.RemoveAtKeeps | src/main/project/src/logic/CollectionManager.java:429 | removing the replaced product keeps every other element, so `updateId` leaves other hosts' products in place |
| ProductSet.InsertKeys | src/main/project/src/logic/CollectionManager.java:135 | after `add`, the set's keys are the old keys plus the key of `x` |
| ProductSet.InsertSorted | src/main/project/src/logic/CollectionManager.java:135 | `add` keeps the set strictly ordered |
| ProductSet.InsertNew | src/main/project/src/logic/CollectionManager.java:135 | `add` of a product comparing equal to no element adds exactly that product |
| ProductSet.InsertPresent | src/main/project/src/logic/CollectionManager.java:430 | `add` of a product comparing equal to an element leaves the set unchanged |
| ProductSet.InsertKeeps | src/main/project/src/logic/CollectionManager.java:430 | `add` never loses an element, so `updateId` leaves the rest of the set in place |
| ProductSet.InsertAll | src/main/project/src/logic/CollectionManager.java:58 | `addAll` yields only old elements and loaded products |
| ProductSet.InsertAllSpec | src/main/project/src/logic/CollectionManager.java:58 | after `addAll` the set is ordered and has exactly the keys of the old set and of the loaded products |
| ProductSet.RemoveAt | src/main/project/src/logic/CollectionManager.java:362 | one element fewer, and exactly the element at that position is gone |
| ProductSet.RemoveKeyAt | src/main/project/src/logic/CollectionManager.java:362 | in an ordered set, `remove(p)` for the `p` at a position removes exactly that position |
| ProductSet.RemoveKeyAbsent | src/main/project/src/logic/CollectionManager.java:214-215 | `remove` of a product comparing equal to no element changes nothing |
| ProductSet.FilterSorted | src/main/project/src/logic/CollectionManager.java:362 | removing elements keeps the set ordered |
| ProductSet.SortedKeyDetermines | src/main/project/src/logic/CollectionManager.java:29 | in the set, an element is determined by its key |
| ProductSet.RecoloredSorted | src/main/project/src/logic/CollectionManager.java:112-119 | recolouring the elements in place keeps the set ordered |
| CommandHistory.Record | src/main/project/src/logic/CollectionManager.java:68-71 | the command becomes the newest entry; below 11 it is appended, at 11 the oldest entry is dropped |
| CommandHistory.RecordAll | src/main/project/src/logic/CollectionManager.java:55 | the log never exceeds 11 entries |
| CommandHistory.RecordAllKeepsLast | src/main/project/src/logic/CollectionManager.java:55 | after any sequence of commands the log is exactly the last 11 of them, oldest first |
| CommandHistory.ElementAt | src/main/project/src/logic/CollectionManager.java:280 | after at least 11 commands, the log holds 11 entries and entry `i` is command number `k - 11 + i` |
| UserColors.AssignTag | src/main/project/src/logic/CollectionManager.java:121-124 | the host joins the map; an existing tag is never overwritten and other hosts keep theirs; a new host gets the drawn colour |
| UserColors.AssignTagIdempotent | src/main/project/src/logic/CollectionManager.java:122-124 | assigning again for the same host changes nothing, whatever the second draw |
| UserColors.Painted | src/main/project/src/logic/CollectionManager.java:125 | the product carries its host's tag and is otherwise unchanged |
| Text.AppendLines | src/main/project/src/logic/CollectionManager.java:250-252 | the report loop's result is the header followed by each string and a newline |
| Text.DecimalString | src/main/project/src/logic/CollectionManager.java:313 | the size is printed as decimal digits with no leading zero |
| Text.DecimalRoundTrip | src/main/project/src/logic/CollectionManager.java:313 | reading the printed size back gives the size |
| Seqs.Filter | src/main/project/src/logic/CollectionManager.java:246-248 | a stream filter keeps exactly the elements that pass, in order, and never more than there were |
| Seqs.FilterFilter | src/main/project/src/logic/CollectionManager.java:213-218 | filtering twice is filtering once by both conditions |

## Left out

- Some history and flag writes happen outside the exclusive lock. A model with one step per
  operation does not show the races this allows. The lock is not exclusive in these places:
  - `isChanged`, `handleChanges` and `help` take no lock
    (src/main/project/src/logic/CollectionManager.java:445-451, :265-284).
  - `history` and `printFieldDescendingOwner` write the history after unlocking (:296-297,
    :344-345).
  - `filterByUnitOfMeasure`, `info` and `printUniquePartNumber` write the history while holding
    only the shared read lock (:254-256, :306-307, :399-407).
  - `add` and `addIfMax` raise `hasChanges` after unlocking (:137-138, :160-161).
- The read/write lock is left out: it is concurrency. That includes `filterByUnitOfMeasure`
  taking the read lock twice and never releasing it
  (src/main/project/src/logic/CollectionManager.java:242, :254).
- `help()` is left out. It only logs "help" and returns a fixed text.
- The slf4j logger and the `Scanner(System.in)` field are left out. Neither takes part in any
  result.
- `Input.java` (line-reading I/O) and `ProductDAO.java` (JDBC and SQL) are left out. `DBManager`
  is not part of this model. The manager sees persistence only through the `createProduct`
  answer, which is a parameter.
- `Math.random()` colour generation is left out; the colour is a parameter. `Channel` keeps the
  range 0..254 that `(int) (Math.random() * 255)` yields.
- `LocalDateTime.now()` and its text form are left out; the creation date is a constructor
  string.
- Collection.CollectionManager.Info: the reflection that yields the type name is replaced by the
  text that it yields. The `NoSuchFieldException` branch is left out, because the field it
  looks up always exists.
- Collection.CollectionManager.AddIfMax: a `.get()` on an empty stream throws in the Java code.
  The model states this as the precondition `|products| > 0` and does not model the exception.
- Collection.CollectionManager.AddIfMin: the same empty-set precondition.
- `HashSet` iteration order is left out: Java does not specify it. `printUniquePartNumber`
  takes the order as an input listing the set's contents, each value once.
- Collection.CollectionManager.Show: the Java method returns a fresh `ArrayList` copy. The model
  returns the sequence value, so aliasing is not modelled.
- Float and double coordinates are carried as uninterpreted bit patterns. No arithmetic is
  modelled on them.
- Product.compareTo and DefaultQueue are not part of this model. The order is the `rank`
  parameter.
- The queue's capacity of 11 comes from `new DefaultQueue(11)`. That it drops its oldest entry
  when full is an assumption, implied by the help text's promise of "the last 11 commands".
- Java's iteration during `products.remove` inside `for (Product p : products)` is not modelled
  as an iterator. The loops return right after removing, so no concurrent-modification case
  arises. `clear` removes after the collecting pass, as its code does.
- Collection.CollectionManager.AddIfMax and AddIfMin keep the caller's id, because the id from
  persistence is never assigned. Two products can therefore share an id in the model just as in
  the source.
