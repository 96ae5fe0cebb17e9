/** Sequence helpers shared by the normalizer and the session store. */
module Seqs {

  /** No element occurs twice in `s`. */
  predicate NoDup<T(==)>(s: seq<T>) {
    forall i, j :: 0 <= i < j < |s| ==> s[i] != s[j]
  }

  /**
   * Python's `list(set(xs))`: the distinct elements of `xs`. Python leaves
   * their order to the set's iteration; this model keeps first occurrences.
   */
  function Dedup<T(==)>(s: seq<T>): (r: seq<T>)
    ensures NoDup(r)
    ensures forall i :: 0 <= i < |s| ==> s[i] in r
    ensures forall i :: 0 <= i < |r| ==> r[i] in s
    ensures |r| <= |s|
    ensures s != [] ==> r != []
  {
    if s == [] then []
    else
      var rest := Dedup(s[..|s| - 1]);
      if s[|s| - 1] in rest then rest else rest + [s[|s| - 1]]
  }

  /** Dedup keeps exactly the elements of its input. */
  lemma DedupMembers<T>(s: seq<T>, x: T)
    ensures x in Dedup(s) <==> x in s
  {
    if x in s {
      var j :| 0 <= j < |s| && s[j] == x;
    }
    if x in Dedup(s) {
      var i :| 0 <= i < |Dedup(s)| && Dedup(s)[i] == x;
    }
  }

  /**
   * Deduplicating a sequence without duplicates keeps every element exactly
   * once: the result is a permutation of the input. Python's `list(set(xs))`
   * promises no more, since the order it yields depends on hashing.
   */
  lemma {:induction false} DedupOfNoDup<T>(s: seq<T>)
    requires NoDup(s)
    ensures multiset(Dedup(s)) == multiset(s)
  {
    if s != [] {
      var init, last := s[..|s| - 1], s[|s| - 1];
      assert NoDup(init);
      DedupOfNoDup(init);
      assert last !in init;
      DedupMembers(init, last);
      assert init + [last] == s;
    }
  }

  /** One value, once or twice, deduplicates to that value once. */
  lemma DedupOneValue<T>(x: T)
    ensures Dedup([x]) == [x] && Dedup([x, x]) == [x]
  {
    assert [x][..0] == [] && [x, x][..1] == [x];
  }

  /** In a duplicate-free sequence each element occurs once in the multiset view. */
  lemma {:induction false} NoDupMultiplicity<T>(s: seq<T>, x: T)
    requires NoDup(s)
    ensures multiset(s)[x] <= 1
  {
    if s != [] {
      var init := s[..|s| - 1];
      assert s == init + [s[|s| - 1]];
      assert NoDup(init);
      NoDupMultiplicity(init, x);
      if x == s[|s| - 1] {
        assert x !in init;
      }
    }
  }

  /** A permutation of a duplicate-free sequence is duplicate-free. */
  lemma PermutationKeepsNoDup<T>(s: seq<T>, r: seq<T>)
    requires NoDup(s)
    requires multiset(r) == multiset(s)
    ensures NoDup(r)
  {
    forall i, j | 0 <= i < j < |r|
      ensures r[i] != r[j]
    {
      if r[i] == r[j] {
        assert r == r[..j] + r[j..];
        assert r[i] in multiset(r[..j]);
        assert r[j] in multiset(r[j..]);
        assert multiset(r)[r[i]] == multiset(r[..j])[r[i]] + multiset(r[j..])[r[i]];
        NoDupMultiplicity(s, r[i]);
        assert false;
      }
    }
  }
}
