/** Order-preserving filtering of sequences, the shape of the manager's stream filters and loops. */
module Seqs {

  /** The elements of `s` that satisfy `keep`, in their order in `s`. */
  function Filter<T(!new)>(s: seq<T>, keep: T -> bool): (r: seq<T>)
    ensures |r| <= |s|
    ensures forall e :: e in r <==> e in s && keep(e)
  {
    if s == [] then []
    else Filter(s[..|s| - 1], keep) + (if keep(s[|s| - 1]) then [s[|s| - 1]] else [])
  }

  /** Filtering one more element appends it exactly when it is kept. */
  lemma FilterSnoc<T(!new)>(s: seq<T>, x: T, keep: T -> bool)
    ensures Filter(s + [x], keep) == Filter(s, keep) + (if keep(x) then [x] else [])
  {
    assert (s + [x])[..|s + [x]| - 1] == s;
  }

  /** Filtering keeps everything when every element is kept. */
  lemma {:induction false} FilterAll<T(!new)>(s: seq<T>, keep: T -> bool)
    requires forall e :: e in s ==> keep(e)
    ensures Filter(s, keep) == s
  {
    if s != [] {
      var init, last := s[..|s| - 1], s[|s| - 1];
      assert s == init + [last];
      forall e | e in init ensures keep(e) {
        assert e in s;
      }
      FilterAll(init, keep);
      assert keep(last) by { assert last in s; }
      assert Filter(s, keep) == Filter(init, keep) + [last];
    }
  }

  /** Two filters that agree on the elements of `s` select the same subsequence. */
  lemma {:induction false} FilterCongruent<T(!new)>(s: seq<T>, f: T -> bool, g: T -> bool)
    requires forall e :: e in s ==> f(e) == g(e)
    ensures Filter(s, f) == Filter(s, g)
  {
    if s != [] {
      FilterCongruent(s[..|s| - 1], f, g);
    }
  }

  /** Filtering twice is filtering once by the conjunction. */
  lemma {:induction false} FilterFilter<T(!new)>(s: seq<T>, f: T -> bool, g: T -> bool, both: T -> bool)
    requires forall e :: e in s ==> both(e) == (f(e) && g(e))
    ensures Filter(Filter(s, f), g) == Filter(s, both)
  {
    if s != [] {
      var init, last := s[..|s| - 1], s[|s| - 1];
      assert s == init + [last];
      assert last in s;
      FilterFilter(init, f, g, both);
      FilterSnoc(init, last, f);
      FilterSnoc(init, last, both);
      if f(last) {
        FilterSnoc(Filter(init, f), last, g);
      } else {
        assert Filter(s, f) == Filter(init, f);
        assert !both(last);
        assert Filter(s, both) == Filter(init, both);
      }
    }
  }
}
