/**
 * The collection manager: the ordered set of products, the per-host display tags, the command
 * history and the unsaved-changes flag, with the operations the server runs on them. The Java
 * code guards most of each operation with a read/write lock; here each operation is one
 * sequential step. The persistence layer's `createProduct` answer is an input (`createdId`,
 * -1 on failure); its delete and update calls return nothing the manager looks at and are not
 * modelled. A freshly drawn random colour is an input too.
 */
module Collection {
  import opened Elements
  import opened Wrappers
  import opened Seqs
  import opened ProductSet
  import opened Queries
  import opened CommandHistory
  import opened UserColors
  import opened Text

  const AddedMessage := "Product was successfully added to the collection.\n"
  const AddFailedMessage := "There are some problems with adding a product to collection.\n"
  const NotMaxMessage := "You are trying to add the product which isn't a max!\n"
  const NotMinMessage := "You are trying to add the product which isn't a min!\n"
  const ClearedMessage := "The collection was cleared.\n"
  const ScriptMessage := "A new script was started to execute\n"
  const FilterHeader := "The result of filtering by unit of measure:\n"
  const HistoryHeader := "The history of your last used commands:\n"
  const OwnersHeader := "The owners:\n"
  const RemovedMessage := "Element was successfully removed.\n"
  const PermissionDeniedMessage := "You don't have a permission to change this element!\n"
  const NotFoundMessage := "The element with this id wasn't found.\n"
  const UpdatedMessage := "The element's id was successfully updated!\n"
  const IdBusyMessage := "This id is busy.\n"

  /** What `info` reads by reflection: the set's class name around the field's generic type. */
  const TypeLabel := "java.util.TreeSet<java.util.TreeSet<src.elements.Product>>"

  /** The answer of `createProduct` that reports a failure. */
  const CreateFailed: int := -1

  /**
   * `defineUserColors()` over the loaded set: each product gets its host's tag, a host being
   * tagged with `draw(host)` the first time it is met.
   */
  method PaintAll(base: seq<Product>, draw: string -> Color) returns (painted: seq<Product>, tags: map<string, Color>)
    ensures |painted| == |base|
    ensures forall j :: 0 <= j < |base| ==> base[j].host in tags && painted[j] == Painted(base[j], tags)
    ensures forall h :: h in tags ==> tags[h] == draw(h) && exists j :: 0 <= j < |base| && base[j].host == h
    ensures forall j :: 0 <= j < |base| ==> painted[j].(color := None) == base[j].(color := None)
  {
    tags := map[];
    painted := base;
    var i := 0;
    while i < |base|
      invariant 0 <= i <= |base| && |painted| == |base|
      invariant forall j :: 0 <= j < i ==> base[j].host in tags && painted[j] == Painted(base[j], tags)
      invariant forall j :: i <= j < |base| ==> painted[j] == base[j]
      invariant forall h :: h in tags ==> tags[h] == draw(h) && exists j :: 0 <= j < i && base[j].host == h
    {
      var p := base[i];
      if p.host !in tags {
        tags := tags[p.host := draw(p.host)];
      }
      painted := painted[i := Painted(p, tags)];
      i := i + 1;
    }
    forall j | 0 <= j < |base| ensures painted[j].(color := None) == base[j].(color := None) {
      assert painted[j] == base[j].(color := painted[j].color);
    }
  }

  /** `clear`'s first loop: the products whose host is `login`, in set order. */
  method CollectOwned(items: seq<Product>, login: string) returns (toRemove: seq<Product>)
    ensures toRemove == OwnedBy(items, login)
  {
    toRemove := [];
    var i := 0;
    while i < |items|
      invariant 0 <= i <= |items|
      invariant toRemove == OwnedBy(items[..i], login)
    {
      OwnedBySnoc(items[..i], items[i], login);
      assert items[..i + 1] == items[..i] + [items[i]];
      if items[i].host == login {
        toRemove := toRemove + [items[i]];
      }
      i := i + 1;
    }
    assert items[..i] == items;
  }

  /**
   * `clear`'s second loop: for each collected product still in the set, `products.remove(p)`
   * (and `dbManager.deleteProduct`, whose result is ignored).
   */
  method RemoveAll(rank: Rank, start: seq<Product>, toRemove: seq<Product>) returns (remaining: seq<Product>)
    ensures remaining == DropKeys(rank, start, Keys(rank, toRemove))
  {
    remaining := start;
    DropNoKeys(rank, start);
    ghost var done: seq<Product> := [];
    var j := 0;
    while j < |toRemove|
      invariant 0 <= j <= |toRemove| && done == toRemove[..j]
      invariant remaining == DropKeys(rank, start, Keys(rank, done))
    {
      var p := toRemove[j];
      DropKeysRemoveStep(rank, start, remaining, toRemove, j);
      if HasKey(rank, remaining, Key(rank, p)) {
        remaining := RemoveKey(rank, remaining, Key(rank, p));
      }
      done := toRemove[..j + 1];
      j := j + 1;
    }
    assert done == toRemove;
  }

  /** The search loop of `removeById` and `updateId`: the position of the first product with `id`. */
  method FindById(items: seq<Product>, id: int) returns (found: Option<nat>)
    ensures found == FirstWithId(items, id)
  {
    var i := 0;
    while i < |items|
      invariant 0 <= i <= |items|
      invariant forall j :: 0 <= j < i ==> items[j].id != id
    {
      if items[i].id == id {
        return Some(i);
      }
      i := i + 1;
    }
    return None;
  }

  /**
   * `updateId`'s success path: `products.remove(p)` for the product `p` at `k`, then
   * `products.add(product)`. The set stays ordered and keeps every element other than `p`.
   */
  method ReplaceAt(rank: Rank, s: seq<Product>, k: int, product: Product) returns (r: seq<Product>)
    requires Sorted(rank, s) && 0 <= k < |s|
    ensures r == Insert(rank, RemoveAt(s, k), product)
    ensures Sorted(rank, r)
    ensures forall e :: e in s && e != s[k] ==> e in r
  {
    RemoveKeyAt(rank, s, k);
    FilterSorted(rank, s, e => Key(rank, e) != Key(rank, s[k]));
    RemoveAtKeeps(s, k);
    var rest := RemoveKey(rank, s, Key(rank, s[k]));
    InsertKeeps(rank, rest, product);
    InsertSorted(rank, rest, product);
    r := Insert(rank, rest, product);
  }

  /** First-occurrence order is one iteration order that `printUniquePartNumber` accepts. */
  lemma FirstOccurrenceIsIteration(s: seq<Product>)
    ensures var order := Distinct(PartNumbers(s));
      && (forall x :: x in order <==> x in PartNumbers(s))
      && (forall i, j :: 0 <= i < j < |order| ==> order[i] != order[j])
  {
  }

  class CollectionManager {
    /** The set's order (Product.compareTo). */
    const rank: Rank
    /** `LocalDateTime.now()` at construction, as `info` prints it. */
    const creationDate: string

    var products: seq<Product>
    var usersColors: map<string, Color>
    var history: seq<string>
    var hasChanges: bool

    ghost predicate Valid()
      reads this
    {
      Sorted(rank, products) && |history| <= Capacity
    }

    /**
     * Loads `loaded` (what `readAllProducts` returns) into the set and tags every host, where
     * `draw(h)` is the colour generated when host `h` is first met.
     */
    constructor (rank: Rank, creationDate: string, loaded: seq<Product>, draw: string -> Color)
      ensures Valid()
      ensures this.rank == rank && this.creationDate == creationDate
      ensures |products| == |InsertAll(rank, [], loaded)|
      ensures forall i :: 0 <= i < |products| ==>
        InsertAll(rank, [], loaded)[i].host in usersColors &&
        products[i] == Painted(InsertAll(rank, [], loaded)[i], usersColors)
      ensures forall h :: h in usersColors ==>
        usersColors[h] == draw(h) && exists i :: 0 <= i < |products| && products[i].host == h
      ensures history == [] && !hasChanges
    {
      var base := InsertAll(rank, [], loaded);
      InsertAllSpec(rank, [], loaded);
      var painted, tags := PaintAll(base, draw);
      RecoloredSorted(rank, base, painted);
      this.rank := rank;
      this.creationDate := creationDate;
      products := painted;
      usersColors := tags;
      history := [];
      hasChanges := false;
    }

    /** `defineUserColors(product)`: tags a new host, and gives the product its host's tag. */
    method DefineUserColors(product: Product, drawn: Color) returns (painted: Product)
      modifies this`usersColors
      ensures usersColors == AssignTag(old(usersColors), product.host, drawn)
      ensures painted == Painted(product, usersColors)
    {
      if product.host !in usersColors {
        usersColors := usersColors[product.host := drawn];
      }
      painted := Painted(product, usersColors);
    }

    /**
     * `add`: "add" is logged first; when the persistence layer assigns an id the product takes
     * it, gets its host's tag and joins the set.
     */
    method Add(product: Product, createdId: Int32, drawn: Color) returns (msg: string)
      requires Valid()
      modifies this
      ensures Valid()
      ensures history == Record(old(history), "add")
      ensures createdId == CreateFailed ==>
        products == old(products) && usersColors == old(usersColors) &&
        hasChanges == old(hasChanges) && msg == AddFailedMessage
      ensures createdId != CreateFailed ==>
        && usersColors == AssignTag(old(usersColors), product.host, drawn)
        && products == Insert(rank, old(products), Painted(product.(id := createdId), usersColors))
        && hasChanges && msg == AddedMessage
    {
      history := Record(history, "add");
      if createdId != CreateFailed {
        // The Java code adds first and colours the stored object afterwards; the colour takes
        // no part in the order, so adding the coloured value places it identically.
        var painted := DefineUserColors(product.(id := createdId), drawn);
        InsertSorted(rank, products, painted);
        products := Insert(rank, products, painted);
        hasChanges := true;
        msg := AddedMessage;
      } else {
        msg := AddFailedMessage;
      }
    }

    /**
     * `addIfMax`: adds only a product priced above every element, and only if persistence
     * succeeds. The id the persistence layer returns is NOT given to the product.
     */
    method AddIfMax(product: Product, createdId: Int32, drawn: Color) returns (msg: string)
      requires Valid() && |products| > 0
      modifies this
      ensures Valid()
      ensures history == Record(old(history), "add_if_max")
      ensures product.price <= MaxPrice(old(products)) ==>
        products == old(products) && usersColors == old(usersColors) &&
        hasChanges == old(hasChanges) && msg == NotMaxMessage
      ensures product.price > MaxPrice(old(products)) && createdId == CreateFailed ==>
        products == old(products) && usersColors == old(usersColors) &&
        hasChanges == old(hasChanges) && msg == AddFailedMessage
      ensures product.price > MaxPrice(old(products)) && createdId != CreateFailed ==>
        && usersColors == AssignTag(old(usersColors), product.host, drawn)
        && products == Insert(rank, old(products), Painted(product, usersColors))
        && hasChanges && msg == AddedMessage
    {
      history := Record(history, "add_if_max");
      if product.price > MaxPrice(products) {
        if createdId != CreateFailed {
          var painted := DefineUserColors(product, drawn);
          InsertSorted(rank, products, painted);
          products := Insert(rank, products, painted);
          hasChanges := true;
          msg := AddedMessage;
        } else {
          msg := AddFailedMessage;
        }
      } else {
        msg := NotMaxMessage;
      }
    }

    /**
     * `addIfMin`: adds only a product priced below every element, and only if persistence
     * succeeds. The id the persistence layer returns is NOT given to the product.
     */
    method AddIfMin(product: Product, createdId: Int32, drawn: Color) returns (msg: string)
      requires Valid() && |products| > 0
      modifies this
      ensures Valid()
      ensures history == Record(old(history), "add_if_min")
      ensures product.price >= MinPrice(old(products)) ==>
        products == old(products) && usersColors == old(usersColors) &&
        hasChanges == old(hasChanges) && msg == NotMinMessage
      ensures product.price < MinPrice(old(products)) && createdId == CreateFailed ==>
        products == old(products) && usersColors == old(usersColors) &&
        hasChanges == old(hasChanges) && msg == AddFailedMessage
      ensures product.price < MinPrice(old(products)) && createdId != CreateFailed ==>
        && usersColors == AssignTag(old(usersColors), product.host, drawn)
        && products == Insert(rank, old(products), Painted(product, usersColors))
        && hasChanges && msg == AddedMessage
    {
      history := Record(history, "add_if_min");
      if product.price < MinPrice(products) {
        if createdId != CreateFailed {
          var painted := DefineUserColors(product, drawn);
          InsertSorted(rank, products, painted);
          products := Insert(rank, products, painted);
          hasChanges := true;
          msg := AddedMessage;
        } else {
          msg := AddFailedMessage;
        }
      } else {
        msg := NotMinMessage;
      }
    }

    /**
     * `clear(user)`: collects the products whose host is the user's login, removes each, marks
     * the collection changed and logs "clear", whether or not anything matched.
     */
    method Clear(login: string) returns (msg: string)
      requires Valid()
      modifies this
      ensures Valid()
      ensures products == NotOwnedBy(old(products), login)
      ensures unchanged(this`usersColors) && hasChanges
      ensures history == Record(old(history), "clear")
      ensures msg == ClearedMessage
    {
      var toRemove := CollectOwned(products, login);
      var remaining := RemoveAll(rank, products, toRemove);
      DropOwnedKeys(rank, products, login);
      NotOwnedBySorted(rank, products, login);
      products := remaining;
      hasChanges := true;
      history := Record(history, "clear");
      msg := ClearedMessage;
    }

    /** `executeScript`: only logs the command. */
    method ExecuteScript() returns (msg: string)
      requires Valid()
      modifies this`history
      ensures Valid()
      ensures history == Record(old(history), "execute_script")
      ensures msg == ScriptMessage
    {
      history := Record(history, "execute_script");
      msg := ScriptMessage;
    }

    /** `filterByUnitOfMeasure`: the names of the products of that unit, one per line, in set order. */
    method FilterByUnitOfMeasure(unit: string) returns (msg: string)
      requires Valid()
      modifies this`history
      ensures Valid()
      ensures msg == FilterHeader + Lines(Names(WithUnit(products, unit)))
      ensures history == Record(old(history), "filter_by_unit_of_measure")
    {
      var res := WithUnit(products, unit);
      msg := AppendLines(FilterHeader, Names(res));
      history := Record(history, "filter_by_unit_of_measure");
    }

    /** `history`: the log as it was before this call, then "history" is logged. */
    method History() returns (msg: string)
      requires Valid()
      modifies this`history
      ensures Valid()
      ensures msg == HistoryHeader + Lines(old(history))
      ensures history == Record(old(history), "history")
    {
      msg := AppendLines(HistoryHeader, history);
      history := Record(history, "history");
    }

    /** `info`: the set's type, the creation date and the size; the type only when non-empty. */
    method Info() returns (msg: string)
      requires Valid()
      modifies this`history
      ensures Valid()
      ensures history == Record(old(history), "info")
      ensures |products| > 0 ==> (msg ==
        "Тип: " + TypeLabel + "\nДата Создания" + creationDate + "\nРазмер: " + DecimalString(|products|) + "\n")
      ensures |products| == 0 ==> (msg ==
        "Type can not be defined because collection is empty! " + "\nCreation Date" + creationDate + "\nSize: " + DecimalString(0) + "\n")
    {
      history := Record(history, "info");
      if |products| > 0 {
        msg := "Тип: " + TypeLabel + "\nДата Создания" + creationDate + "\nРазмер: " + DecimalString(|products|) + "\n";
      } else {
        msg := "Type can not be defined because collection is empty! " + "\nCreation Date" + creationDate + "\nSize: " + DecimalString(|products|) + "\n";
      }
    }

    /**
     * `printFieldDescendingOwner`: the owners' names, one per line. The Java code sorts a copy
     * and then prints the unsorted list, so the names come in set order.
     */
    method PrintFieldDescendingOwner() returns (msg: string)
      requires Valid()
      modifies this`history
      ensures Valid()
      ensures msg == OwnersHeader + Lines(PersonNames(Owners(products)))
      ensures history == Record(old(history), "print_field_descending_owner")
    {
      var items := products;
      var ownersList: seq<Person> := [];
      var i := 0;
      while i < |items|
        invariant 0 <= i <= |items|
        invariant ownersList == Owners(items[..i])
      {
        assert items[..i + 1] == items[..i] + [items[i]];
        ownersList := ownersList + [items[i].owner];
        i := i + 1;
      }
      assert items[..i] == items;
      // The descending copy (`answ`) is never read.
      msg := AppendLines(OwnersHeader, PersonNames(ownersList));
      history := Record(history, "print_field_descending_owner");
    }

    /** `removeById`: removes the first product with the id, if the caller owns it. */
    method RemoveById(login: string, id: Int32) returns (msg: string)
      requires Valid()
      modifies this
      ensures Valid()
      ensures history == Record(old(history), "remove_by_id")
      ensures unchanged(this`usersColors)
      ensures FirstWithId(old(products), id).None? ==>
        products == old(products) && hasChanges == old(hasChanges) && msg == NotFoundMessage
      ensures FirstWithId(old(products), id).Some? ==>
        var k := FirstWithId(old(products), id).value;
        if old(products)[k].host == login then
          products == RemoveAt(old(products), k) && hasChanges && msg == RemovedMessage
        else
          products == old(products) && hasChanges == old(hasChanges) && msg == PermissionDeniedMessage
    {
      history := Record(history, "remove_by_id");
      var found := FindById(products, id);
      if found.None? {
        msg := NotFoundMessage;
      } else if products[found.value].host != login {
        msg := PermissionDeniedMessage;
      } else {
        var p := products[found.value];
        RemoveKeyAt(rank, products, found.value);
        FilterSorted(rank, products, e => Key(rank, e) != Key(rank, p));
        products := RemoveKey(rank, products, Key(rank, p));
        // dbManager.deleteProduct(id): its result is ignored.
        hasChanges := true;
        msg := RemovedMessage;
      }
    }

    /** `show`: null for an empty set, otherwise a copy of the set in its order. */
    method Show() returns (r: Option<seq<Product>>)
      requires Valid()
      ensures r.None? <==> |products| == 0
      ensures r.Some? ==> r.value == products && Sorted(rank, r.value)
    {
      if |products| > 0 {
        r := Some(products);
      } else {
        r := None;
      }
    }

    /**
     * `printUniquePartNumber`: each distinct part number once, one per line, in the iteration
     * order of the `HashSet` built from them. That order is not specified by Java; it is the
     * input `iteration`, which enumerates the set's contents, each value once.
     */
    method PrintUniquePartNumber(iteration: seq<string>) returns (msg: string)
      requires Valid()
      requires forall x :: x in iteration <==> x in PartNumbers(products)
      requires forall i, j :: 0 <= i < j < |iteration| ==> iteration[i] != iteration[j]
      modifies this`history
      ensures Valid()
      ensures msg == Lines(iteration)
      ensures history == Record(old(history), "print_unique_part_number")
    {
      var items := products;
      var partNumbers: seq<string> := [];
      var i := 0;
      while i < |items|
        invariant 0 <= i <= |items|
        invariant partNumbers == PartNumbers(items[..i])
      {
        assert items[..i + 1] == items[..i] + [items[i]];
        partNumbers := partNumbers + [items[i].partNumber];
        i := i + 1;
      }
      assert items[..i] == items;
      ghost var uniqueNumbers := set x | x in partNumbers;
      assert forall x :: x in iteration <==> x in uniqueNumbers;
      history := Record(history, "print_unique_part_number");
      msg := AppendLines("", iteration);
      assert "" + Lines(iteration) == Lines(iteration);
    }

    /**
     * `updateId`: replaces the first product with the new product's id by the new product, if the
     * caller owns the old one. The not-found answer reads "This id is busy."
     */
    method UpdateId(login: string, product: Product) returns (msg: string)
      requires Valid()
      modifies this
      ensures Valid()
      ensures history == Record(old(history), "update_id")
      ensures unchanged(this`usersColors)
      ensures FirstWithId(old(products), product.id).None? ==>
        products == old(products) && hasChanges == old(hasChanges) && msg == IdBusyMessage
      ensures FirstWithId(old(products), product.id).Some? ==>
        var k := FirstWithId(old(products), product.id).value;
        if old(products)[k].host == login then
          products == Insert(rank, RemoveAt(old(products), k), product) && hasChanges && msg == UpdatedMessage
        else
          products == old(products) && hasChanges == old(hasChanges) && msg == PermissionDeniedMessage
      ensures forall e :: e in old(products) && e.host != login ==> e in products
    {
      history := Record(history, "update_id");
      var found := FindById(products, product.id);
      if found.None? {
        msg := IdBusyMessage;
      } else if products[found.value].host != login {
        msg := PermissionDeniedMessage;
      } else {
        products := ReplaceAt(rank, products, found.value, product);
        // dbManager.updateProduct(product): its result is ignored.
        hasChanges := true;
        msg := UpdatedMessage;
      }
    }

    /** `isChanged`: whether anything changed since the last `handleChanges`. */
    method IsChanged() returns (changed: bool)
      ensures changed == hasChanges
    {
      changed := hasChanges;
    }

    /** `handleChanges`: the save scheduler acknowledges the changes. */
    method HandleChanges()
      modifies this`hasChanges
      ensures !hasChanges
    {
      hasChanges := false;
    }
  }
}
