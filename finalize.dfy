/**
 * What `finalize` in jppy/tokenizer.py returns for a session: every
 * accumulated token once, with its readings deduplicated, ordered by count
 * from highest to lowest. Python's `list.sort` is stable, so tokens with equal
 * counts keep the order in which their keys were first inserted.
 */
module Finalize {
  import opened Seqs
  import opened Normalizer
  import opened Merge

  /** `list(items.values())`: the tokens in key insertion order. */
  function Values(d: SessionData): seq<Token>
    requires forall k :: k in d.order ==> k in d.items
  {
    seq(|d.order|, i requires 0 <= i < |d.order| => d.items[d.order[i]])
  }

  /** The side effect of `sorter`: the token's readings with duplicates removed. */
  function DedupReadings(t: Token): (r: Token)
    ensures NoDup(r.reading)
    ensures forall x :: x in r.reading <==> x in t.reading
    ensures r.dictionary == t.dictionary && r.normalized == t.normalized
    ensures r.partOfSpeech == t.partOfSpeech && r.count == t.count
  {
    t.(reading := Dedup(t.reading))
  }

  /** The session's tokens in insertion order, each with its readings deduplicated. */
  function DedupedValues(d: SessionData): seq<Token>
    requires forall k :: k in d.order ==> k in d.items
  {
    var vs := Values(d);
    seq(|vs|, i requires 0 <= i < |vs| => DedupReadings(vs[i]))
  }

  /** Counts never increase from left to right (sort key `-count`, ascending). */
  predicate NonIncreasing(s: seq<Token>) {
    forall i, j :: 0 <= i < j < |s| ==> s[i].count >= s[j].count
  }

  /**
   * Inserts `x` in front of the first token whose count is not larger, that
   * is after every token with a larger count and before those with an equal
   * one: the step of a stable sort that meets `x` before them.
   */
  function InsertByCount(x: Token, s: seq<Token>): (r: seq<Token>)
    ensures multiset(r) == multiset(s) + multiset{x}
  {
    if s == [] || x.count >= s[0].count then [x] + s
    else
      assert s == [s[0]] + s[1..];
      [s[0]] + InsertByCount(x, s[1..])
  }

  /** Inserting into a list sorted by count keeps it sorted. */
  lemma {:induction false} InsertSorted(x: Token, s: seq<Token>)
    requires NonIncreasing(s)
    ensures NonIncreasing(InsertByCount(x, s))
  {
    if s != [] && x.count < s[0].count {
      var tail := s[1..];
      var rest := InsertByCount(x, tail);
      InsertSorted(x, tail);
      forall k | 0 <= k < |rest| ensures rest[k].count <= s[0].count {
        assert rest[k] in multiset(tail) + multiset{x};
        if rest[k] != x {
          var j :| 0 <= j < |tail| && tail[j] == rest[k];
          assert tail[j] == s[j + 1];
        }
      }
      ConsNonIncreasing(s[0], rest);
    }
  }

  /** A token in front of a sorted list keeps it sorted when no later count exceeds its own. */
  lemma ConsNonIncreasing(y: Token, rest: seq<Token>)
    requires NonIncreasing(rest)
    requires forall k :: 0 <= k < |rest| ==> rest[k].count <= y.count
    ensures NonIncreasing([y] + rest)
  {
    var r := [y] + rest;
    forall i, j | 0 <= i < j < |r| ensures r[i].count >= r[j].count {
      assert r[j] == rest[j - 1];
      if i > 0 {
        assert r[i] == rest[i - 1];
      }
    }
  }

  /** `sort(key=lambda v: -v.count)`: a stable sort by count, highest first. */
  function SortByCount(s: seq<Token>): (r: seq<Token>)
    ensures multiset(r) == multiset(s)
    ensures NonIncreasing(r)
  {
    if s == [] then []
    else
      assert s == [s[0]] + s[1..];
      var sorted := SortByCount(s[1..]);
      InsertSorted(s[0], sorted);
      InsertByCount(s[0], sorted)
  }

  /** The tokens of `s` whose count is `c`, in order. */
  function WithCount(s: seq<Token>, c: int): seq<Token>
  {
    if s == [] then []
    else (if s[0].count == c then [s[0]] else []) + WithCount(s[1..], c)
  }

  lemma {:induction false} InsertKeepsTies(x: Token, s: seq<Token>, c: int)
    ensures WithCount(InsertByCount(x, s), c) == WithCount([x] + s, c)
  {
    assert ([x] + s)[1..] == s;
    if s != [] && x.count < s[0].count {
      var rest := InsertByCount(x, s[1..]);
      assert ([s[0]] + rest)[1..] == rest;
      assert ([x] + s[1..])[1..] == s[1..];
      InsertKeepsTies(x, s[1..], c);
    }
  }

  /** Stability: among tokens of equal count the sorted order is the input order. */
  lemma {:induction false} SortKeepsTies(s: seq<Token>, c: int)
    ensures WithCount(SortByCount(s), c) == WithCount(s, c)
  {
    if s != [] {
      var sorted := SortByCount(s[1..]);
      SortKeepsTies(s[1..], c);
      InsertKeepsTies(s[0], sorted, c);
      assert ([s[0]] + sorted)[1..] == sorted;
    }
  }

  /**
   * The list `finalize` is evidently meant to return (the source assigns the
   * `None` that `list.sort` returns, see FinalizeAsWritten): the deduplicated
   * tokens sorted by count.
   */
  function FinalizeResult(d: SessionData): seq<Token>
    requires forall k :: k in d.order ==> k in d.items
  {
    SortByCount(DedupedValues(d))
  }

  /** Distinct keys in `order` give distinct tokens. */
  lemma DedupedValuesNoDup(d: SessionData)
    requires Valid(d)
    ensures NoDup(DedupedValues(d))
  {
    var vs := DedupedValues(d);
    forall i, j | 0 <= i < j < |vs| ensures vs[i] != vs[j] {
      assert TokenId(vs[i]) == d.order[i];
      assert TokenId(vs[j]) == d.order[j];
    }
  }

  /** Every token of the result is an accumulated token, readings deduplicated, and vice versa. */
  lemma FinalizeElements(d: SessionData)
    requires Valid(d)
    ensures var r := FinalizeResult(d);
            (forall i :: 0 <= i < |r| ==>
               TokenId(r[i]) in d.items && r[i] == DedupReadings(d.items[TokenId(r[i])]))
            && (forall k :: k in d.items ==> DedupReadings(d.items[k]) in r)
  {
    var vs := DedupedValues(d);
    var r := FinalizeResult(d);
    forall i | 0 <= i < |r|
      ensures TokenId(r[i]) in d.items && r[i] == DedupReadings(d.items[TokenId(r[i])])
    {
      assert r[i] in multiset(vs);
      var j :| 0 <= j < |vs| && vs[j] == r[i];
      assert TokenId(vs[j]) == d.order[j];
    }
    forall k | k in d.items ensures DedupReadings(d.items[k]) in r {
      var j :| 0 <= j < |d.order| && d.order[j] == k;
      assert vs[j] in multiset(r);
    }
  }

  /**
   * Each accumulated key occurs exactly once in the result: as many tokens
   * as keys, and no two with the same identity key.
   */
  lemma FinalizeDistinct(d: SessionData)
    requires Valid(d)
    ensures var r := FinalizeResult(d);
            |r| == |d.order|
            && forall i, j :: 0 <= i < j < |r| ==> TokenId(r[i]) != TokenId(r[j])
  {
    var vs := DedupedValues(d);
    var r := FinalizeResult(d);
    assert |r| == |vs| by {
      assert |multiset(r)| == |multiset(vs)|;
    }
    DedupedValuesNoDup(d);
    PermutationKeepsNoDup(vs, r);
    FinalizeElements(d);
    forall i, j | 0 <= i < j < |r| ensures TokenId(r[i]) != TokenId(r[j]) {
      assert r[i] != r[j];
    }
  }

  /**
   * The result is ordered by non-increasing count, its readings hold no
   * duplicates, and tokens of equal count appear in the order their keys
   * were first inserted.
   */
  lemma FinalizeOrder(d: SessionData)
    requires forall k :: k in d.order ==> k in d.items
    ensures var r := FinalizeResult(d);
            NonIncreasing(r)
            && (forall i :: 0 <= i < |r| ==> NoDup(r[i].reading))
            && (forall c :: WithCount(r, c) == WithCount(DedupedValues(d), c))
  {
    var vs := DedupedValues(d);
    var r := FinalizeResult(d);
    forall i | 0 <= i < |r| ensures NoDup(r[i].reading) {
      assert r[i] in multiset(vs);
    }
    forall c ensures WithCount(r, c) == WithCount(vs, c) {
      SortKeepsTies(vs, c);
    }
  }

  /** What the source's `list.sort(...)` evaluates to: Python's sort returns `None`. */
  datatype SortReturn = NoneReturned

  /** The outcome of building `OutputResponse(result=...)`. */
  datatype Response = Output(result: seq<Token>) | ValidationFailure

  function ListSortReturn(values: seq<Token>): SortReturn
  {
    NoneReturned
  }

  /** `OutputResponse(result=None)` fails validation: `result` must be a list. */
  function OutputResponseOfSortReturn(x: SortReturn): Response
  {
    ValidationFailure
  }

  /**
   * finalize as written: `result` is bound to what `list.sort` returns, so the
   * response cannot be built, and that only happens after the session has
   * already been deleted.
   */
  function FinalizeAsWritten(d: SessionData): (r: Response)
    requires forall k :: k in d.order ==> k in d.items
    ensures r == ValidationFailure
  {
    OutputResponseOfSortReturn(ListSortReturn(Values(d)))
  }

  /**
   * The discrepancy on a concrete session holding one token: the intended
   * result is that token, but the response as written cannot be built.
   */
  lemma FinalizeAsWrittenLosesTokens()
    ensures var t := Token("猫", "猫", ["ネコ"], "名詞・普通名詞・一般", 1);
            var d := SessionData([], map[TokenId(t) := t], [TokenId(t)]);
            Valid(d)
            && FinalizeResult(d) == [t]
            && FinalizeAsWritten(d) == ValidationFailure
  {
    var t := Token("猫", "猫", ["ネコ"], "名詞・普通名詞・一般", 1);
    var d := SessionData([], map[TokenId(t) := t], [TokenId(t)]);
    assert Values(d) == [t];
    assert Dedup(t.reading) == t.reading;
    assert DedupedValues(d) == [t];
  }

  /** The morphemes of the 猫 and 犬 scenario: nouns whose second sub-tag is the placeholder. */
  const Cat := Morpheme("猫", "猫", "ねこ", ["名詞", "*"])
  const Dog := Morpheme("犬", "犬", "いぬ", ["名詞", "*"])

  /** Both morphemes normalize to nouns with one reading, under distinct keys. */
  lemma CatsAndDogTokens()
    ensures MorphemeToToken(Cat) == Token("猫", "猫", ["ねこ"], "名詞", 1)
    ensures MorphemeToToken(Dog) == Token("犬", "犬", ["いぬ"], "名詞", 1)
    ensures MorphemeKey(Cat) == "猫\t名詞" && MorphemeKey(Dog) == "犬\t名詞"
  {
    assert DropPlaceholders(["*"]) == [];
    assert DropPlaceholders(["名詞", "*"]) == ["名詞"];
  }

  /** The first 猫 opens an entry with count 1. */
  lemma CatsAndDogFirst()
    ensures MergeAll(NewSession([]), [Cat])
            == SessionData([], map["猫\t名詞" := Token("猫", "猫", ["ねこ"], "名詞", 1)], ["猫\t名詞"])
  {
    CatsAndDogTokens();
    assert NewSession([]) == SessionData([], map[], []) by {
      assert Ids([]) == [];
    }
    MergeAllSingle(NewSession([]), Cat);
  }

  /** The second 猫 raises the count to 2 and appends its reading. */
  lemma CatsAndDogSecond()
    ensures var d := SessionData([], map["猫\t名詞" := Token("猫", "猫", ["ねこ"], "名詞", 1)], ["猫\t名詞"]);
            MergeAll(d, [Cat])
            == SessionData([], map["猫\t名詞" := Token("猫", "猫", ["ねこ", "ねこ"], "名詞", 2)], ["猫\t名詞"])
  {
    var c1 := Token("猫", "猫", ["ねこ"], "名詞", 1);
    var c2 := Token("猫", "猫", ["ねこ", "ねこ"], "名詞", 2);
    var d := SessionData([], map["猫\t名詞" := c1], ["猫\t名詞"]);
    CatsAndDogTokens();
    MergeAllSingle(d, Cat);
    assert c1.reading + [c1.reading[0]] == c2.reading;
    assert map["猫\t名詞" := c1]["猫\t名詞" := c2] == map["猫\t名詞" := c2];
  }

  /** 犬 opens a second entry, after 猫 in insertion order. */
  lemma CatsAndDogThird()
    ensures var d := SessionData([], map["猫\t名詞" := Token("猫", "猫", ["ねこ", "ねこ"], "名詞", 2)], ["猫\t名詞"]);
            MergeAll(d, [Dog])
            == SessionData([], map["猫\t名詞" := Token("猫", "猫", ["ねこ", "ねこ"], "名詞", 2),
                                   "犬\t名詞" := Token("犬", "犬", ["いぬ"], "名詞", 1)],
                           ["猫\t名詞", "犬\t名詞"])
  {
    var d := SessionData([], map["猫\t名詞" := Token("猫", "猫", ["ねこ", "ねこ"], "名詞", 2)], ["猫\t名詞"]);
    CatsAndDogTokens();
    MergeAllSingle(d, Dog);
  }

  /** The session that two submissions of 猫 and one of 犬 build. */
  lemma CatsAndDogSession()
    ensures MergeAll(MergeAll(MergeAll(NewSession([]), [Cat]), [Cat]), [Dog])
            == SessionData([], map["猫\t名詞" := Token("猫", "猫", ["ねこ", "ねこ"], "名詞", 2),
                                   "犬\t名詞" := Token("犬", "犬", ["いぬ"], "名詞", 1)],
                           ["猫\t名詞", "犬\t名詞"])
  {
    CatsAndDogFirst();
    CatsAndDogSecond();
    CatsAndDogThird();
  }

  /** The session's tokens with their readings deduplicated, in insertion order. */
  lemma CatsAndDogDeduped()
    ensures var d := SessionData([], map["猫\t名詞" := Token("猫", "猫", ["ねこ", "ねこ"], "名詞", 2),
                                         "犬\t名詞" := Token("犬", "犬", ["いぬ"], "名詞", 1)],
                                 ["猫\t名詞", "犬\t名詞"]);
            DedupedValues(d) == [Token("猫", "猫", ["ねこ"], "名詞", 2), Token("犬", "犬", ["いぬ"], "名詞", 1)]
  {
    var c2 := Token("猫", "猫", ["ねこ", "ねこ"], "名詞", 2);
    var g1 := Token("犬", "犬", ["いぬ"], "名詞", 1);
    var d := SessionData([], map["猫\t名詞" := c2, "犬\t名詞" := g1], ["猫\t名詞", "犬\t名詞"]);
    var vs := [c2.(reading := ["ねこ"]), g1.(reading := ["いぬ"])];
    assert Values(d) == [c2, g1];
    DedupOneValue("ねこ");
    DedupOneValue("いぬ");
    assert DedupReadings(c2) == vs[0] && DedupReadings(g1) == vs[1];
    assert |DedupedValues(d)| == 2;
    assert DedupedValues(d)[0] == vs[0] && DedupedValues(d)[1] == vs[1];
  }

  /**
   * Finalizing that session gives 猫 with count 2 ahead of 犬 with count 1,
   * each with its one reading.
   */
  lemma CatsAndDogFinalize()
    ensures var d := SessionData([], map["猫\t名詞" := Token("猫", "猫", ["ねこ", "ねこ"], "名詞", 2),
                                         "犬\t名詞" := Token("犬", "犬", ["いぬ"], "名詞", 1)],
                                 ["猫\t名詞", "犬\t名詞"]);
            FinalizeResult(d) == [Token("猫", "猫", ["ねこ"], "名詞", 2), Token("犬", "犬", ["いぬ"], "名詞", 1)]
  {
    var vs := [Token("猫", "猫", ["ねこ"], "名詞", 2), Token("犬", "犬", ["いぬ"], "名詞", 1)];
    CatsAndDogDeduped();
    assert vs[1..] == [vs[1]] && [vs[1]][1..] == [];
    assert SortByCount([vs[1]]) == [vs[1]];
    assert SortByCount(vs) == InsertByCount(vs[0], [vs[1]]);
  }

  /**
   * Two submissions of 猫 and one of 犬 into a session with nothing excluded
   * finalize to 猫 with count 2 ahead of 犬 with count 1.
   */
  lemma CatsAndDogScenario()
    ensures var d := MergeAll(MergeAll(MergeAll(NewSession([]), [Cat]), [Cat]), [Dog]);
            Valid(d)
            && FinalizeResult(d) == [Token("猫", "猫", ["ねこ"], "名詞", 2), Token("犬", "犬", ["いぬ"], "名詞", 1)]
  {
    var d0 := NewSession([]);
    MergeAllValid(d0, [Cat]);
    MergeAllValid(MergeAll(d0, [Cat]), [Cat]);
    MergeAllValid(MergeAll(MergeAll(d0, [Cat]), [Cat]), [Dog]);
    CatsAndDogSession();
    CatsAndDogFinalize();
  }
}
