/**
 * The per-session accumulator of jppy/tokenizer.py: `SessionData` and the
 * merge step that `tokenize` runs once per morpheme. The functions here are
 * the specification the store's methods are proved against; the lemmas state
 * what the accumulator promises across any number of merges.
 */
module Merge {
  import opened Seqs
  import opened Normalizer

  /**
   * `SessionData`: the identity keys to exclude and the accumulated tokens by
   * identity key. Python dictionaries remember insertion order, which decides
   * how ties come out of finalize, so `order` lists the keys of `items` in the
   * order they were first inserted.
   */
  datatype SessionData = SessionData(
    exclude: seq<string>,
    items: map<string, Token>,
    order: seq<string>)

  /**
   * What every live session satisfies: the exclusion list has no duplicates,
   * `order` lists each key of `items` once, no excluded key has an entry,
   * every entry is stored under its own identity key, and an entry holds one
   * reading per counted occurrence, at least one.
   */
  ghost predicate Valid(d: SessionData) {
    NoDup(d.exclude) && NoDup(d.order)
    && (forall k :: k in d.order <==> k in d.items)
    && (forall k :: k in d.items ==>
          k !in d.exclude && TokenId(d.items[k]) == k
          && d.items[k].count >= 1 && |d.items[k].reading| == d.items[k].count)
  }

  /** The identity keys of a list of tokens, in list order. */
  function Ids(tokens: seq<Token>): seq<string>
  {
    seq(|tokens|, i requires 0 <= i < |tokens| => TokenId(tokens[i]))
  }

  /** `list(set(map(token_to_id, exclude)))`: each exclusion key once. */
  function ExcludeKeys(tokens: seq<Token>): (keys: seq<string>)
    ensures NoDup(keys)
    ensures forall t :: t in tokens ==> TokenId(t) in keys
    ensures forall k :: k in keys ==> exists t :: t in tokens && TokenId(t) == k
  {
    var ids := Ids(tokens);
    assert forall i :: 0 <= i < |tokens| ==> ids[i] == TokenId(tokens[i]);
    Dedup(ids)
  }

  /** The session `create` stores: the exclusion keys and no items yet. */
  function NewSession(tokens: seq<Token>): (d: SessionData)
    ensures Valid(d)
    ensures d.items == map[] && d.order == []
    ensures forall k :: k in d.exclude <==> exists t :: t in tokens && TokenId(t) == k
  {
    SessionData(ExcludeKeys(tokens), map[], [])
  }

  /**
   * One iteration of the loop in `tokenize`: an excluded morpheme is skipped;
   * otherwise an existing entry gets the reading appended and its count
   * raised by one, and an absent key gets the morpheme's fresh token.
   */
  function MergeOne(d: SessionData, m: Morpheme): (r: SessionData)
    ensures r.exclude == d.exclude
    ensures MorphemeKey(m) in d.exclude ==> r == d
    ensures MorphemeKey(m) !in d.exclude ==> MorphemeKey(m) in r.items
    ensures forall k :: k != MorphemeKey(m) ==>
              (k in r.items <==> k in d.items) && (k in d.items ==> r.items[k] == d.items[k])
    ensures r.order == if MorphemeKey(m) !in d.exclude && MorphemeKey(m) !in d.items
                       then d.order + [MorphemeKey(m)] else d.order
  {
    var t := MorphemeToToken(m);
    var id := TokenId(t);
    if id in d.exclude then d
    else if id in d.items then
      var v := d.items[id];
      d.(items := d.items[id := v.(reading := v.reading + [t.reading[0]], count := v.count + 1)])
    else
      d.(items := d.items[id := t], order := d.order + [id])
  }

  /** The loop of `tokenize` over a whole sequence of morphemes, in order. */
  function MergeAll(d: SessionData, ms: seq<Morpheme>): (r: SessionData)
    ensures r.exclude == d.exclude
    ensures forall k :: k in d.items ==> k in r.items
  {
    if ms == [] then d
    else MergeOne(MergeAll(d, ms[..|ms| - 1]), ms[|ms| - 1])
  }

  /** Submitting a single morpheme is one merge step. */
  lemma MergeAllSingle(d: SessionData, m: Morpheme)
    ensures MergeAll(d, [m]) == MergeOne(d, m)
  {
    assert [m][..0] == [];
  }

  /** `fk` extended by the key of `m` when that key is neither excluded nor held by `d`. */
  function WithFreshKey(d: SessionData, fk: seq<string>, m: Morpheme): seq<string>
  {
    var k := MorphemeKey(m);
    fk + (if k in d.exclude || k in d.items then [] else [k])
  }

  /**
   * The keys of the morphemes in `ms`, in order and with repeats, that are
   * neither excluded nor already held by `d`.
   */
  function FreshKeys(d: SessionData, ms: seq<Morpheme>): (ks: seq<string>)
    ensures forall i :: 0 <= i < |ks| ==> ks[i] !in d.exclude && ks[i] !in d.items
  {
    if ms == [] then []
    else WithFreshKey(d, FreshKeys(d, ms[..|ms| - 1]), ms[|ms| - 1])
  }

  /**
   * `r` holds the keys of `d` followed by the fresh keys `fk`: its order is
   * the old order followed by each fresh key once, in order of first
   * occurrence in `fk`.
   */
  ghost predicate OrderAfter(d: SessionData, r: SessionData, fk: seq<string>) {
    r.order == d.order + Dedup(fk)
    && forall k :: k in r.items <==> k in d.items || k in fk
  }

  /** One merge step adds its key to the held keys exactly when it is not excluded. */
  lemma KeysStep(d: SessionData, prev: SessionData, fk: seq<string>, m: Morpheme)
    requires forall x :: x in prev.items <==> x in d.items || x in fk
    requires prev.exclude == d.exclude
    ensures var fk' := WithFreshKey(d, fk, m);
            forall x :: x in MergeOne(prev, m).items <==> x in d.items || x in fk'
  {
    var k := MorphemeKey(m);
    var fk' := WithFreshKey(d, fk, m);
    if k !in d.exclude && k !in d.items {
      assert forall x :: x in fk' <==> x in fk || x == k;
    } else {
      assert fk' == fk;
    }
  }

  /** One merge step extends the order by its key exactly when the key is new. */
  lemma OrderStep(d: SessionData, prev: SessionData, fk: seq<string>, m: Morpheme)
    requires OrderAfter(d, prev, fk) && prev.exclude == d.exclude
    ensures MergeOne(prev, m).order == d.order + Dedup(WithFreshKey(d, fk, m))
  {
    var k := MorphemeKey(m);
    var fk' := WithFreshKey(d, fk, m);
    if k !in d.exclude && k !in d.items {
      assert fk'[..|fk'| - 1] == fk && fk'[|fk'| - 1] == k;
      DedupMembers(fk, k);
      assert k in prev.items <==> k in Dedup(fk);
    } else {
      assert fk' == fk;
    }
  }

  /**
   * Insertion order after a submission: the keys held before, in their old
   * order, followed by each new key once, in the order it was first
   * accepted; and the keys held afterwards are the old ones and the new ones.
   */
  lemma {:induction false} MergeAllOrder(d: SessionData, ms: seq<Morpheme>)
    ensures OrderAfter(d, MergeAll(d, ms), FreshKeys(d, ms))
  {
    if ms == [] {
      assert d.order + [] == d.order;
    } else {
      var init, last := ms[..|ms| - 1], ms[|ms| - 1];
      MergeAllOrder(d, init);
      KeysStep(d, MergeAll(d, init), FreshKeys(d, init), last);
      OrderStep(d, MergeAll(d, init), FreshKeys(d, init), last);
    }
  }

  /** Merging one morpheme keeps a session valid. */
  lemma MergeOneValid(d: SessionData, m: Morpheme)
    requires Valid(d)
    ensures Valid(MergeOne(d, m))
  {
    var r := MergeOne(d, m);
    var id := MorphemeKey(m);
    if id !in d.exclude && id !in d.items {
      forall i, j | 0 <= i < j < |r.order| ensures r.order[i] != r.order[j] {
        if j == |d.order| {
          assert r.order[i] in d.order;
        }
      }
    }
  }

  /** Merging any sequence of morphemes keeps a session valid. */
  lemma {:induction false} MergeAllValid(d: SessionData, ms: seq<Morpheme>)
    requires Valid(d)
    ensures Valid(MergeAll(d, ms))
  {
    if ms != [] {
      MergeAllValid(d, ms[..|ms| - 1]);
      MergeOneValid(MergeAll(d, ms[..|ms| - 1]), ms[|ms| - 1]);
    }
  }

  /** Submitting `s1` and then `s2` leaves the same session as submitting `s1 + s2`. */
  lemma {:induction false} MergeSplit(d: SessionData, s1: seq<Morpheme>, s2: seq<Morpheme>)
    ensures MergeAll(MergeAll(d, s1), s2) == MergeAll(d, s1 + s2)
  {
    if s2 == [] {
      assert s1 + s2 == s1;
    } else {
      var s, init, last := s1 + s2, s2[..|s2| - 1], s2[|s2| - 1];
      assert s[..|s| - 1] == s1 + init;
      assert s[|s| - 1] == last;
      MergeSplit(d, s1, init);
      assert MergeAll(MergeAll(d, s1), s2) == MergeOne(MergeAll(d, s1 + init), last);
      assert MergeAll(d, s) == MergeOne(MergeAll(d, s1 + init), last);
    }
  }

  /** The morphemes of `ms`, in order, that a session excluding `exclude` records under `k`. */
  function Accepted(exclude: seq<string>, ms: seq<Morpheme>, k: string): (acc: seq<Morpheme>)
    ensures |acc| <= |ms|
    ensures k in exclude ==> acc == []
  {
    if ms == [] || k in exclude then []
    else
      var last := ms[|ms| - 1];
      Accepted(exclude, ms[..|ms| - 1], k) + (if MorphemeKey(last) == k then [last] else [])
  }

  /** Splitting a submission splits the accepted morphemes the same way. */
  lemma {:induction false} AcceptedAppend(exclude: seq<string>, a: seq<Morpheme>, b: seq<Morpheme>, k: string)
    ensures Accepted(exclude, a + b, k) == Accepted(exclude, a, k) + Accepted(exclude, b, k)
  {
    if b == [] {
      assert a + b == a;
    } else if k !in exclude {
      var s, init, last := a + b, b[..|b| - 1], b[|b| - 1];
      assert s[..|s| - 1] == a + init;
      assert s[|s| - 1] == last;
      var tail := if MorphemeKey(last) == k then [last] else [];
      assert Accepted(exclude, s, k) == Accepted(exclude, a + init, k) + tail;
      assert Accepted(exclude, b, k) == Accepted(exclude, init, k) + tail;
      AcceptedAppend(exclude, a, init, k);
    }
  }

  /** The readings of a sequence of morphemes, in order. */
  function Readings(ms: seq<Morpheme>): (rs: seq<string>)
    ensures |rs| == |ms|
    ensures forall i :: 0 <= i < |ms| ==> rs[i] == ms[i].reading
  {
    if ms == [] then [] else Readings(ms[..|ms| - 1]) + [ms[|ms| - 1].reading]
  }

  /**
   * The entry under `k` in `r` is what `d` had under `k` after accepting the
   * morphemes `acc`: one more count and one more reading per morpheme, or,
   * when `d` had no entry, the first morpheme's token with all their counts
   * and readings.
   */
  ghost predicate EntryAfter(d: SessionData, r: SessionData, acc: seq<Morpheme>, k: string) {
    (k in r.items <==> k in d.items || acc != [])
    && (k in d.items ==>
          k in r.items
          && r.items[k] == d.items[k].(count := d.items[k].count + |acc|,
                                       reading := d.items[k].reading + Readings(acc)))
    && (k !in d.items && acc != [] ==>
          k in r.items
          && r.items[k] == MorphemeToToken(acc[0]).(count := |acc|, reading := Readings(acc)))
  }

  /** A merge step that accepts a morpheme under `k` extends the entry by it. */
  lemma EntryStepAccept(d: SessionData, prev: SessionData, acc: seq<Morpheme>, m: Morpheme, k: string)
    requires EntryAfter(d, prev, acc, k)
    requires MorphemeKey(m) == k && k !in prev.exclude
    ensures EntryAfter(d, MergeOne(prev, m), acc + [m], k)
  {
    var r := MergeOne(prev, m);
    var acc' := acc + [m];
    assert Readings(acc') == Readings(acc) + [m.reading];
    if k in d.items {
      var e := d.items[k];
      assert r.items[k] == prev.items[k].(count := prev.items[k].count + 1,
                                          reading := prev.items[k].reading + [m.reading]);
      assert e.reading + Readings(acc) + [m.reading] == e.reading + Readings(acc');
    } else if acc != [] {
      assert acc'[0] == acc[0];
    } else {
      assert acc' == [m];
      assert r.items[k] == MorphemeToToken(m);
    }
  }

  /** A merge step that accepts nothing under `k` leaves the entry alone. */
  lemma EntryStepSkip(d: SessionData, prev: SessionData, acc: seq<Morpheme>, m: Morpheme, k: string)
    requires EntryAfter(d, prev, acc, k)
    requires MorphemeKey(m) != k || k in prev.exclude
    ensures EntryAfter(d, MergeOne(prev, m), acc, k)
  {
  }

  /**
   * What a run of merges does to the entry under key `k`: it exists afterwards
   * exactly when it existed before or some morpheme was accepted under `k`;
   * an existing entry gains one count and one reading per accepted morpheme,
   * and a new entry is the first accepted morpheme's token, counted once per
   * accepted morpheme and holding all their readings in order.
   */
  lemma {:induction false} MergeAllEntry(d: SessionData, ms: seq<Morpheme>, k: string)
    ensures EntryAfter(d, MergeAll(d, ms), Accepted(d.exclude, ms, k), k)
  {
    if ms == [] {
      assert Accepted(d.exclude, ms, k) == [];
    } else {
      var init, last := ms[..|ms| - 1], ms[|ms| - 1];
      var prev := MergeAll(d, init);
      var accPrev := Accepted(d.exclude, init, k);
      MergeAllEntry(d, init, k);
      if MorphemeKey(last) == k && k !in d.exclude {
        assert Accepted(d.exclude, ms, k) == accPrev + [last];
        EntryStepAccept(d, prev, accPrev, last, k);
      } else {
        assert Accepted(d.exclude, ms, k) == accPrev;
        EntryStepSkip(d, prev, accPrev, last, k);
      }
    }
  }

  /**
   * In a session created empty, an entry exists exactly for the keys that
   * accepted some morpheme, its count is the number of accepted morphemes
   * under its key and its readings are theirs, one per occurrence.
   */
  lemma CountIsAcceptedOccurrences(d: SessionData, ms: seq<Morpheme>, k: string)
    requires d.items == map[]
    ensures var r := MergeAll(d, ms);
            var acc := Accepted(d.exclude, ms, k);
            (k in r.items <==> k !in d.exclude && acc != [])
            && (k in r.items ==> r.items[k].count == |acc| && r.items[k].reading == Readings(acc))
  {
    MergeAllEntry(d, ms, k);
  }

  /**
   * An excluded key gets no entry from a merge and an entry that is already
   * there stays untouched; in a valid session it never has an entry at all.
   */
  lemma ExcludedNeverRecorded(d: SessionData, ms: seq<Morpheme>, k: string)
    requires k in d.exclude
    ensures k in MergeAll(d, ms).items <==> k in d.items
    ensures k in d.items ==> MergeAll(d, ms).items[k] == d.items[k]
    ensures Valid(d) ==> k !in MergeAll(d, ms).items
  {
    MergeAllEntry(d, ms, k);
  }

  /** The morphemes of `ms` that the exclusion list lets through, in order. */
  function NotExcluded(exclude: seq<string>, ms: seq<Morpheme>): (r: seq<Morpheme>)
    ensures |r| <= |ms|
  {
    if ms == [] then []
    else
      var last := ms[|ms| - 1];
      NotExcluded(exclude, ms[..|ms| - 1]) + (if MorphemeKey(last) in exclude then [] else [last])
  }

  /**
   * Excluded morphemes have no effect at all: merging a submission leaves the
   * same session as merging it with every excluded morpheme removed.
   */
  lemma {:induction false} ExcludedHaveNoEffect(d: SessionData, ms: seq<Morpheme>)
    ensures MergeAll(d, ms) == MergeAll(d, NotExcluded(d.exclude, ms))
  {
    if ms != [] {
      var init, last := ms[..|ms| - 1], ms[|ms| - 1];
      var kept := NotExcluded(d.exclude, init);
      ExcludedHaveNoEffect(d, init);
      var prev := MergeAll(d, init);
      assert MergeAll(d, ms) == MergeOne(prev, last);
      if MorphemeKey(last) in d.exclude {
        assert NotExcluded(d.exclude, ms) == kept;
        assert MergeOne(prev, last) == prev;
      } else {
        var both := kept + [last];
        assert NotExcluded(d.exclude, ms) == both;
        assert both[..|both| - 1] == kept && both[|both| - 1] == last;
        assert MergeAll(d, both) == MergeOne(MergeAll(d, kept), last);
      }
    }
  }

  /**
   * Two submissions that accept the same number of morphemes under `k`, with
   * the same readings up to order, leave entries under `k` that agree on
   * existence, count and readings up to order.
   */
  lemma SameAcceptedSameEntry(d: SessionData, s1: seq<Morpheme>, s2: seq<Morpheme>, k: string)
    requires |Accepted(d.exclude, s1, k)| == |Accepted(d.exclude, s2, k)|
    requires multiset(Readings(Accepted(d.exclude, s1, k))) == multiset(Readings(Accepted(d.exclude, s2, k)))
    ensures var r1, r2 := MergeAll(d, s1), MergeAll(d, s2);
            (k in r1.items <==> k in r2.items)
            && (k in r1.items ==>
                  r1.items[k].count == r2.items[k].count
                  && multiset(r1.items[k].reading) == multiset(r2.items[k].reading))
  {
    MergeAllEntry(d, s1, k);
    MergeAllEntry(d, s2, k);
  }

  /**
   * Submitting `a` then `b` or `b` then `a` leads to the same keys, the same
   * counts and the same readings up to order.
   */
  lemma MergeOrderIrrelevantForCounts(d: SessionData, a: seq<Morpheme>, b: seq<Morpheme>, k: string)
    ensures var ab := MergeAll(MergeAll(d, a), b);
            var ba := MergeAll(MergeAll(d, b), a);
            (k in ab.items <==> k in ba.items)
            && (k in ab.items ==>
                  ab.items[k].count == ba.items[k].count
                  && multiset(ab.items[k].reading) == multiset(ba.items[k].reading))
  {
    MergeSplit(d, a, b);
    MergeSplit(d, b, a);
    var accA, accB := Accepted(d.exclude, a, k), Accepted(d.exclude, b, k);
    AcceptedAppend(d.exclude, a, b, k);
    AcceptedAppend(d.exclude, b, a, k);
    ReadingsAppend(accA, accB);
    ReadingsAppend(accB, accA);
    SameAcceptedSameEntry(d, a + b, b + a, k);
  }

  lemma {:induction false} ReadingsAppend(a: seq<Morpheme>, b: seq<Morpheme>)
    ensures Readings(a + b) == Readings(a) + Readings(b)
  {
    var s := a + b;
    assert |Readings(s)| == |Readings(a) + Readings(b)|;
    forall i | 0 <= i < |s| ensures Readings(s)[i] == (Readings(a) + Readings(b))[i] {
      if i >= |a| { assert s[i] == b[i - |a|]; }
    }
  }
}
