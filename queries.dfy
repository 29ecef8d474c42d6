/**
 * The stream expressions and scans of the collection manager, as functions over the set's
 * sequence in set order, with the facts the manager's operations rely on.
 */
module Queries {
  import opened Elements
  import opened Wrappers
  import opened Seqs
  import opened ProductSet

  /** The position of the first product, in set order, whose id is `id`: what the scans of removal and update find. */
  function FirstWithId(s: seq<Product>, id: int): (r: Option<nat>)
    ensures r.Some? ==> r.value < |s| && s[r.value].id == id
    ensures r.Some? ==> forall j :: 0 <= j < r.value ==> s[j].id != id
    ensures r.None? ==> forall j :: 0 <= j < |s| ==> s[j].id != id
  {
    if s == [] then None
    else if s[0].id == id then Some(0)
    else match FirstWithId(s[1..], id)
      case None => None
      case Some(k) => Some(k + 1)
  }

  /** Whether some product has identity `id` (the manager's private `isIdBusy`). */
  function IsIdBusy(s: seq<Product>, id: int): (b: bool)
    ensures b <==> FirstWithId(s, id).Some?
  {
    if |s| > 0 then exists p :: p in s && p.id == id else false
  }

  /** The largest price in a non-empty set (`findMax`). */
  function MaxPrice(s: seq<Product>): (m: Int64)
    requires |s| > 0
    ensures exists i :: 0 <= i < |s| && s[i].price == m
    ensures forall i :: 0 <= i < |s| ==> s[i].price <= m
  {
    if |s| == 1 then s[0].price
    else
      var rest := MaxPrice(s[1..]);
      assert forall i :: 1 <= i < |s| ==> s[i] == s[1..][i - 1];
      if s[0].price >= rest then s[0].price else rest
  }

  /** The smallest price in a non-empty set (`findMin`). */
  function MinPrice(s: seq<Product>): (m: Int64)
    requires |s| > 0
    ensures exists i :: 0 <= i < |s| && s[i].price == m
    ensures forall i :: 0 <= i < |s| ==> m <= s[i].price
  {
    if |s| == 1 then s[0].price
    else
      var rest := MinPrice(s[1..]);
      assert forall i :: 1 <= i < |s| ==> s[i] == s[1..][i - 1];
      if s[0].price <= rest then s[0].price else rest
  }

  /** A product priced above every element becomes the set's maximum once added. */
  lemma InsertAboveMax(rank: Rank, s: seq<Product>, x: Product)
    requires |s| > 0 && x.price > MaxPrice(s)
    requires !HasKey(rank, s, Key(rank, x))
    ensures MaxPrice(Insert(rank, s, x)) == x.price
  {
    var r := Insert(rank, s, x);
    var k :| 0 <= k < |r| && r[k] == x;
    var i :| 0 <= i < |r| && r[i].price == MaxPrice(r);
    assert r[i] in r;
    if r[i] != x {
      var j :| 0 <= j < |s| && s[j] == r[i];
      assert r[i].price <= MaxPrice(s);
    }
  }

  /** A product priced below every element becomes the set's minimum once added. */
  lemma InsertBelowMin(rank: Rank, s: seq<Product>, x: Product)
    requires |s| > 0 && x.price < MinPrice(s)
    requires !HasKey(rank, s, Key(rank, x))
    ensures MinPrice(Insert(rank, s, x)) == x.price
  {
    var r := Insert(rank, s, x);
    var k :| 0 <= k < |r| && r[k] == x;
    var i :| 0 <= i < |r| && r[i].price == MinPrice(r);
    assert r[i] in r;
    if r[i] != x {
      var j :| 0 <= j < |s| && s[j] == r[i];
      assert r[i].price >= MinPrice(s);
    }
  }

  /** The products owned by `login`, in set order (`clear`'s `productsToRemove`). */
  function OwnedBy(s: seq<Product>, login: string): (r: seq<Product>)
    ensures forall p :: p in r <==> p in s && p.host == login
  {
    Filter(s, (p: Product) => p.host == login)
  }

  lemma OwnedBySnoc(s: seq<Product>, x: Product, login: string)
    ensures OwnedBy(s + [x], login) == OwnedBy(s, login) + (if x.host == login then [x] else [])
  {
    FilterSnoc(s, x, (p: Product) => p.host == login);
  }

  /** The products owned by someone other than `login`, in set order. */
  function NotOwnedBy(s: seq<Product>, login: string): (r: seq<Product>)
    ensures forall p :: p in r ==> p.host != login
    ensures forall p :: p in s && p.host != login ==> p in r
  {
    Filter(s, (p: Product) => p.host != login)
  }

  /** What `clear` leaves is still ordered. */
  lemma NotOwnedBySorted(rank: Rank, s: seq<Product>, login: string)
    requires Sorted(rank, s)
    ensures Sorted(rank, NotOwnedBy(s, login))
  {
    FilterSorted(rank, s, (p: Product) => p.host != login);
  }

  /** The set with every element whose key is in `ks` removed. */
  function DropKeys(rank: Rank, s: seq<Product>, ks: set<int>): (r: seq<Product>)
  {
    Filter(s, p => Key(rank, p) !in ks)
  }

  lemma DropNoKeys(rank: Rank, s: seq<Product>)
    ensures DropKeys(rank, s, Keys(rank, [])) == s
  {
    FilterAll(s, p => Key(rank, p) !in Keys(rank, []));
  }

  /** Removing one more key from a thinned set is thinning by one more key. */
  lemma DropKeysStep(rank: Rank, s: seq<Product>, ks: set<int>, k: int)
    ensures RemoveKey(rank, DropKeys(rank, s, ks), k) == DropKeys(rank, s, ks + {k})
  {
    FilterFilter(s, p => Key(rank, p) !in ks, p => Key(rank, p) != k, p => Key(rank, p) !in ks + {k});
  }

  /**
   * One step of `clear`'s removal loop: removing (if present) the element comparing equal to
   * the next collected product `done[j]` extends the removed keys by its key.
   */
  lemma DropKeysRemoveStep(rank: Rank, s: seq<Product>, cur: seq<Product>, done: seq<Product>, j: nat)
    requires j < |done|
    requires cur == DropKeys(rank, s, Keys(rank, done[..j]))
    ensures (if HasKey(rank, cur, Key(rank, done[j])) then RemoveKey(rank, cur, Key(rank, done[j])) else cur)
        == DropKeys(rank, s, Keys(rank, done[..j + 1]))
  {
    var k := Key(rank, done[j]);
    DropKeysStep(rank, s, Keys(rank, done[..j]), k);
    assert done[..j + 1] == done[..j] + [done[j]];
    KeysSnoc(rank, done[..j], done[j]);
    if !HasKey(rank, cur, k) {
      RemoveKeyAbsent(rank, cur, k);
    }
  }

  lemma KeysSnoc(rank: Rank, s: seq<Product>, x: Product)
    ensures Keys(rank, s + [x]) == Keys(rank, s) + {Key(rank, x)}
  {
    assert forall e :: e in s + [x] <==> e in s || e == x;
  }

  /**
   * Removing, from a set, every element comparing equal to one of the products owned by
   * `login` leaves exactly the products owned by others.
   */
  lemma DropOwnedKeys(rank: Rank, s: seq<Product>, login: string)
    requires Sorted(rank, s)
    ensures DropKeys(rank, s, Keys(rank, OwnedBy(s, login))) == NotOwnedBy(s, login)
  {
    var ks := Keys(rank, OwnedBy(s, login));
    forall e | e in s ensures (Key(rank, e) !in ks) == (e.host != login) {
      if Key(rank, e) in ks {
        var o :| o in OwnedBy(s, login) && Key(rank, o) == Key(rank, e);
        var i :| 0 <= i < |s| && s[i] == e;
        var j :| 0 <= j < |s| && s[j] == o;
        SortedKeyDetermines(rank, s, i, j);
      }
    }
    FilterCongruent(s, p => Key(rank, p) !in ks, (p: Product) => p.host != login);
  }

  /** The products whose unit of measure reads `unit`, in set order. */
  function WithUnit(s: seq<Product>, unit: string): (r: seq<Product>)
    ensures forall p :: p in r <==> p in s && p.unitOfMeasure.unit == unit
  {
    Filter(s, (p: Product) => p.unitOfMeasure.unit == unit)
  }

  function Names(s: seq<Product>): (r: seq<string>)
    ensures |r| == |s| && forall i :: 0 <= i < |s| ==> r[i] == s[i].name
  {
    seq(|s|, i requires 0 <= i < |s| => s[i].name)
  }

  /** The owners of the products, in set order. */
  function Owners(s: seq<Product>): (r: seq<Person>)
    ensures |r| == |s| && forall i :: 0 <= i < |s| ==> r[i] == s[i].owner
  {
    seq(|s|, i requires 0 <= i < |s| => s[i].owner)
  }

  function PersonNames(s: seq<Person>): (r: seq<string>)
    ensures |r| == |s| && forall i :: 0 <= i < |s| ==> r[i] == s[i].name
  {
    seq(|s|, i requires 0 <= i < |s| => s[i].name)
  }

  function PartNumbers(s: seq<Product>): (r: seq<string>)
    ensures |r| == |s| && forall i :: 0 <= i < |s| ==> r[i] == s[i].partNumber
  {
    seq(|s|, i requires 0 <= i < |s| => s[i].partNumber)
  }

  /**
   * The distinct values of `xs`, each once, in order of first occurrence: one order in which
   * a `HashSet` of part numbers can be iterated, so `printUniquePartNumber` can always be called.
   */
  function Distinct(xs: seq<string>): (r: seq<string>)
    ensures forall x :: x in r <==> x in xs
    ensures forall i, j :: 0 <= i < j < |r| ==> r[i] != r[j]
  {
    if xs == [] then []
    else
      var rest := Distinct(xs[..|xs| - 1]);
      var last := xs[|xs| - 1];
      assert xs == xs[..|xs| - 1] + [last];
      if last in rest then rest else rest + [last]
  }
}
