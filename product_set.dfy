/**
 * The manager's `TreeSet<Product>` as a sequence kept strictly ascending by the set's order.
 * Product.compareTo is not part of this model; the order is given by an integer rank of the
 * product with its transient colour stripped, and two products of equal rank are, as for a
 * TreeSet whose compareTo returns 0, the same element.
 */
module ProductSet {
  import opened Elements
  import opened Wrappers
  import opened Seqs

  /** The set's order, standing for Product.compareTo. */
  type Rank = Product -> int

  /** The position of a product in the order; the display colour never takes part. */
  function Key(rank: Rank, p: Product): int
  {
    rank(p.(color := None))
  }

  /** The TreeSet invariant: strictly ascending, so no two elements compare equal. */
  ghost predicate Sorted(rank: Rank, s: seq<Product>)
  {
    forall i, j :: 0 <= i < j < |s| ==> Key(rank, s[i]) < Key(rank, s[j])
  }

  /** Recolouring elements keeps the set ordered. */
  lemma RecoloredSorted(rank: Rank, s: seq<Product>, t: seq<Product>)
    requires Sorted(rank, s) && |t| == |s|
    requires forall i :: 0 <= i < |s| ==> t[i].(color := None) == s[i].(color := None)
    ensures Sorted(rank, t)
  {
  }

  /** `TreeSet.contains`: some element compares equal to a product of key `k`. */
  predicate HasKey(rank: Rank, s: seq<Product>, k: int): (b: bool)
    ensures b <==> k in Keys(rank, s)
  {
    exists i :: 0 <= i < |s| && Key(rank, s[i]) == k
  }

  /** In a sorted set an element is determined by its key. */
  lemma SortedKeyDetermines(rank: Rank, s: seq<Product>, i: int, j: int)
    requires Sorted(rank, s) && 0 <= i < |s| && 0 <= j < |s|
    requires Key(rank, s[i]) == Key(rank, s[j])
    ensures i == j
  {
  }

  /** The keys of the elements of `s`: what a TreeSet's membership test sees. */
  function Keys(rank: Rank, s: seq<Product>): set<int>
  {
    set e | e in s :: Key(rank, e)
  }

  /**
   * `TreeSet.add`: places `x` before the first larger element, and leaves a set that already
   * holds an element comparing equal to `x` as it is.
   */
  function Insert(rank: Rank, s: seq<Product>, x: Product): (r: seq<Product>)
    ensures forall e :: e in r ==> e in s || e == x
    ensures x in r || HasKey(rank, s, Key(rank, x))
  {
    if s == [] then [x]
    else if Key(rank, x) < Key(rank, s[0]) then [x] + s
    else if Key(rank, x) == Key(rank, s[0]) then s
    else [s[0]] + Insert(rank, s[1..], x)
  }

  /** After `add`, the set's keys are the old ones and the key of `x`. */
  lemma {:induction false} InsertKeys(rank: Rank, s: seq<Product>, x: Product)
    ensures Keys(rank, Insert(rank, s, x)) == Keys(rank, s) + {Key(rank, x)}
  {
    if s != [] && Key(rank, x) > Key(rank, s[0]) {
      InsertKeys(rank, s[1..], x);
      assert s == [s[0]] + s[1..];
      assert Keys(rank, s) == {Key(rank, s[0])} + Keys(rank, s[1..]);
      var r := Insert(rank, s[1..], x);
      assert Keys(rank, [s[0]] + r) == {Key(rank, s[0])} + Keys(rank, r);
    } else if s != [] && Key(rank, x) < Key(rank, s[0]) {
      assert Keys(rank, [x] + s) == {Key(rank, x)} + Keys(rank, s);
    } else if s != [] {
      assert Key(rank, x) in Keys(rank, s) by { assert s[0] in s; }
    }
  }

  /** `add` keeps the set ordered. */
  lemma {:induction false} InsertSorted(rank: Rank, s: seq<Product>, x: Product)
    requires Sorted(rank, s)
    ensures Sorted(rank, Insert(rank, s, x))
  {
    if s != [] && Key(rank, x) > Key(rank, s[0]) {
      InsertSorted(rank, s[1..], x);
      var r := Insert(rank, s[1..], x);
      forall j | 0 <= j < |r| ensures Key(rank, s[0]) < Key(rank, r[j]) {
        assert r[j] in r;
        if r[j] != x {
          var i :| 0 <= i < |s[1..]| && s[1..][i] == r[j];
          assert s[i + 1] == r[j];
        }
      }
    }
  }

  /** `add` of a product that compares equal to no element adds exactly that product. */
  lemma {:induction false} InsertNew(rank: Rank, s: seq<Product>, x: Product)
    requires !HasKey(rank, s, Key(rank, x))
    ensures multiset(Insert(rank, s, x)) == multiset(s) + multiset{x}
  {
    if s != [] && Key(rank, x) > Key(rank, s[0]) {
      assert !HasKey(rank, s[1..], Key(rank, x));
      InsertNew(rank, s[1..], x);
      assert s == [s[0]] + s[1..];
    } else if s != [] {
      assert Key(rank, x) != Key(rank, s[0]);
    }
  }

  /** `add` of a product comparing equal to an element leaves the set unchanged. */
  lemma {:induction false} InsertPresent(rank: Rank, s: seq<Product>, x: Product)
    requires Sorted(rank, s) && HasKey(rank, s, Key(rank, x))
    ensures Insert(rank, s, x) == s
  {
    var i :| 0 <= i < |s| && Key(rank, s[i]) == Key(rank, x);
    if i > 0 {
      var t := s[1..];
      assert Key(rank, s[0]) < Key(rank, x);
      InsertPastHead(rank, s, x);
      SortedTail(rank, s);
      assert t[i - 1] == s[i];
      InsertPresent(rank, t, x);
    }
  }

  /** `add` of a product above the first element keeps the first element first. */
  lemma InsertPastHead(rank: Rank, s: seq<Product>, x: Product)
    requires s != [] && Key(rank, s[0]) < Key(rank, x)
    ensures Insert(rank, s, x) == [s[0]] + Insert(rank, s[1..], x)
    ensures [s[0]] + s[1..] == s
  {
  }

  lemma SortedTail(rank: Rank, s: seq<Product>)
    requires Sorted(rank, s) && s != []
    ensures Sorted(rank, s[1..])
  {
    var t := s[1..];
    forall a, b | 0 <= a < b < |t| ensures Key(rank, t[a]) < Key(rank, t[b]) {
      assert t[a] == s[a + 1] && t[b] == s[b + 1];
    }
  }

  /** `add` never loses an element. */
  lemma {:induction false} InsertKeeps(rank: Rank, s: seq<Product>, x: Product)
    ensures forall e :: e in s ==> e in Insert(rank, s, x)
  {
    if s != [] && Key(rank, x) > Key(rank, s[0]) {
      InsertKeeps(rank, s[1..], x);
      forall e | e in s ensures e in Insert(rank, s, x) {
        if e != s[0] {
          var i :| 0 <= i < |s| && s[i] == e;
          assert s[1..][i - 1] == e;
        }
      }
    }
  }

  /** `TreeSet.addAll`: the elements of `xs`, in their order, added one by one. */
  function InsertAll(rank: Rank, s: seq<Product>, xs: seq<Product>): (r: seq<Product>)
    decreases |xs|
    ensures forall e :: e in r ==> e in s || e in xs
  {
    if xs == [] then s else InsertAll(rank, Insert(rank, s, xs[0]), xs[1..])
  }

  /** After `addAll` the set is ordered and has exactly the keys of the old set and of `xs`. */
  lemma {:induction false} InsertAllSpec(rank: Rank, s: seq<Product>, xs: seq<Product>)
    requires Sorted(rank, s)
    decreases |xs|
    ensures Sorted(rank, InsertAll(rank, s, xs))
    ensures Keys(rank, InsertAll(rank, s, xs)) == Keys(rank, s) + Keys(rank, xs)
  {
    if xs != [] {
      var x, rest := xs[0], xs[1..];
      var t := Insert(rank, s, x);
      InsertSorted(rank, s, x);
      InsertKeys(rank, s, x);
      InsertAllSpec(rank, t, rest);
      assert InsertAll(rank, s, xs) == InsertAll(rank, t, rest);
      assert xs == [x] + rest;
      assert Keys(rank, xs) == {Key(rank, x)} + Keys(rank, rest);
    }
  }

  /** `TreeSet.remove`: drops the element comparing equal to a product of key `k`. */
  function RemoveKey(rank: Rank, s: seq<Product>, k: int): (r: seq<Product>)
    ensures |r| <= |s|
    ensures forall e :: e in r <==> e in s && Key(rank, e) != k
  {
    Filter(s, e => Key(rank, e) != k)
  }

  /** Removing the element at position `k`, as `products.remove(p)` does for the `p` found there. */
  function RemoveAt(s: seq<Product>, k: int): (r: seq<Product>)
    requires 0 <= k < |s|
    ensures |r| == |s| - 1
    ensures multiset(r) == multiset(s) - multiset{s[k]}
  {
    assert s == s[..k] + [s[k]] + s[k + 1..];
    s[..k] + s[k + 1..]
  }

  /** Removing one position keeps every element that is not the one there. */
  lemma RemoveAtKeeps(s: seq<Product>, k: int)
    requires 0 <= k < |s|
    ensures forall e :: e in s && e != s[k] ==> e in RemoveAt(s, k)
  {
    forall e | e in s && e != s[k] ensures e in RemoveAt(s, k) {
      var j :| 0 <= j < |s| && s[j] == e;
      if j < k {
        assert s[..k][j] == e;
      } else {
        assert s[k + 1..][j - k - 1] == e;
      }
    }
  }

  /** A filtered sorted set is still sorted. */
  lemma {:induction false} FilterSorted(rank: Rank, s: seq<Product>, keep: Product -> bool)
    requires Sorted(rank, s)
    ensures Sorted(rank, Filter(s, keep))
  {
    if s != [] {
      var init, last := s[..|s| - 1], s[|s| - 1];
      FilterSorted(rank, init, keep);
      var r := Filter(init, keep);
      forall e | e in r ensures Key(rank, e) < Key(rank, last) {
        var i :| 0 <= i < |init| && init[i] == e;
      }
    }
  }

  /** `TreeSet.remove` over one more element: the element stays exactly when its key differs. */
  lemma RemoveKeySnoc(rank: Rank, s: seq<Product>, x: Product, k: int)
    ensures RemoveKey(rank, s + [x], k) == RemoveKey(rank, s, k) + (if Key(rank, x) != k then [x] else [])
  {
    FilterSnoc(s, x, e => Key(rank, e) != k);
  }

  /** Removing a position before the last commutes with appending. */
  lemma RemoveAtSnoc(s: seq<Product>, x: Product, k: int)
    requires 0 <= k < |s|
    ensures RemoveAt(s, k) + [x] == RemoveAt(s + [x], k)
  {
    var t := s + [x];
    assert t[..k] == s[..k];
    assert t[k + 1..] == s[k + 1..] + [x];
  }

  lemma SortedInit(rank: Rank, s: seq<Product>)
    requires Sorted(rank, s) && s != []
    ensures Sorted(rank, s[..|s| - 1])
  {
    var init := s[..|s| - 1];
    forall a, b | 0 <= a < b < |init| ensures Key(rank, init[a]) < Key(rank, init[b]) {
      assert init[a] == s[a] && init[b] == s[b];
    }
  }

  /** Removing the largest element of a sorted set leaves the elements before it. */
  lemma RemoveKeyLast(rank: Rank, s: seq<Product>)
    requires Sorted(rank, s) && s != []
    ensures RemoveKey(rank, s, Key(rank, s[|s| - 1])) == s[..|s| - 1]
  {
    var init, last := s[..|s| - 1], s[|s| - 1];
    var kk := Key(rank, last);
    assert s == init + [last];
    RemoveKeySnoc(rank, init, last, kk);
    assert !HasKey(rank, init, kk) by {
      forall i | 0 <= i < |init| ensures Key(rank, init[i]) != kk {
        assert init[i] == s[i];
      }
    }
    RemoveKeyAbsent(rank, init, kk);
  }

  /** `TreeSet.remove` of an element that is in the set removes exactly that element. */
  lemma {:induction false} RemoveKeyAt(rank: Rank, s: seq<Product>, k: int)
    requires Sorted(rank, s) && 0 <= k < |s|
    ensures RemoveKey(rank, s, Key(rank, s[k])) == RemoveAt(s, k)
  {
    if k == |s| - 1 {
      RemoveKeyLast(rank, s);
      assert RemoveAt(s, k) == s[..|s| - 1];
    } else {
      var kk := Key(rank, s[k]);
      var init, last := s[..|s| - 1], s[|s| - 1];
      assert s == init + [last];
      RemoveKeySnoc(rank, init, last, kk);
      assert Key(rank, last) != kk;
      SortedInit(rank, s);
      assert init[k] == s[k];
      RemoveKeyAt(rank, init, k);
      RemoveAtSnoc(init, last, k);
    }
  }

  /** When nothing compares equal, `TreeSet.remove` changes nothing. */
  lemma RemoveKeyAbsent(rank: Rank, s: seq<Product>, k: int)
    requires !HasKey(rank, s, k)
    ensures RemoveKey(rank, s, k) == s
  {
    forall e | e in s ensures Key(rank, e) != k {
      var i :| 0 <= i < |s| && s[i] == e;
    }
    FilterAll(s, e => Key(rank, e) != k);
  }
}
