/**
 * The token normalizer of jppy/tokenizer.py: a segmenter morpheme becomes a
 * token record with count 1 and a single reading, and a token's identity key
 * is its normalized form and its part of speech joined by a tab.
 */
module Normalizer {

  /** Placeholder that the segmenter puts in unused part-of-speech slots. */
  const Placeholder: string := "*"

  /** Separator between the kept part-of-speech sub-tags (katakana middle dot). */
  const PosSeparator: char := '・'

  /** Separator between the two halves of an identity key. */
  const IdSeparator: char := '\t'

  /**
   * What the segmenter yields for one morpheme, as far as the normalizer uses
   * it: dictionary form, normalized form, reading form and the sub-tags of
   * its part of speech.
   */
  datatype Morpheme = Morpheme(
    dictionary: string,
    normalized: string,
    reading: string,
    partOfSpeech: seq<string>)

  /**
   * One token as the API returns it. `reading` is a list: the merge step
   * appends one reading per occurrence, duplicates included.
   */
  datatype Token = Token(
    dictionary: string,
    normalized: string,
    reading: seq<string>,
    partOfSpeech: string,
    count: int)

  /** The sub-tags that are not the placeholder, in their original order. */
  function DropPlaceholders(tags: seq<string>): (r: seq<string>)
    ensures forall x :: x in r <==> x in tags && x != Placeholder
    ensures |r| + multiset(tags)[Placeholder] == |tags|
  {
    if tags == [] then []
    else
      assert tags == [tags[0]] + tags[1..];
      if tags[0] == Placeholder then DropPlaceholders(tags[1..])
      else [tags[0]] + DropPlaceholders(tags[1..])
  }

  /** Filtering placeholders commutes with concatenation, so order is kept. */
  lemma {:induction false} DropPlaceholdersAppend(a: seq<string>, b: seq<string>)
    ensures DropPlaceholders(a + b) == DropPlaceholders(a) + DropPlaceholders(b)
  {
    if a == [] {
      assert a + b == b;
    } else {
      assert (a + b)[0] == a[0] && (a + b)[1..] == a[1..] + b;
      DropPlaceholdersAppend(a[1..], b);
      if a[0] != Placeholder {
        assert DropPlaceholders(a + b) == [a[0]] + DropPlaceholders(a[1..] + b);
        assert DropPlaceholders(a) == [a[0]] + DropPlaceholders(a[1..]);
      }
    }
  }

  /** Python's `sep.join(parts)` for a one-character separator. */
  function Join(sep: char, parts: seq<string>): string
  {
    if |parts| == 0 then ""
    else if |parts| == 1 then parts[0]
    else parts[0] + [sep] + Join(sep, parts[1..])
  }

  /** Python's `s.split(sep)`: the inverse of Join on separator-free parts. */
  function Split(sep: char, s: string): (r: seq<string>)
    ensures |r| >= 1
  {
    if s == [] then [""]
    else
      var rest := Split(sep, s[1..]);
      if s[0] == sep then [""] + rest
      else [[s[0]] + rest[0]] + rest[1..]
  }

  lemma {:induction false} SplitWithoutSeparator(sep: char, a: string)
    requires sep !in a
    ensures Split(sep, a) == [a]
  {
    if a != [] {
      SplitWithoutSeparator(sep, a[1..]);
      assert [a[0]] + a[1..] == a;
    }
  }

  lemma {:induction false} SplitAtSeparator(sep: char, a: string, b: string)
    requires sep !in a
    ensures Split(sep, a + [sep] + b) == [a] + Split(sep, b)
  {
    if a == [] {
      assert (a + [sep] + b)[1..] == b;
    } else {
      assert (a + [sep] + b)[1..] == a[1..] + [sep] + b;
      SplitAtSeparator(sep, a[1..], b);
      assert [a[0]] + a[1..] == a;
    }
  }

  /** Splitting a joined, non-empty list of separator-free parts gives the parts back. */
  lemma {:induction false} SplitJoin(sep: char, parts: seq<string>)
    requires parts != []
    requires forall p :: p in parts ==> sep !in p
    ensures Split(sep, Join(sep, parts)) == parts
  {
    if |parts| == 1 {
      SplitWithoutSeparator(sep, parts[0]);
    } else {
      SplitAtSeparator(sep, parts[0], Join(sep, parts[1..]));
      SplitJoin(sep, parts[1..]);
    }
  }

  /** `morphome_to_pos`: the non-placeholder sub-tags joined by the middle dot. */
  function MorphemeToPos(m: Morpheme): string
  {
    Join(PosSeparator, DropPlaceholders(m.partOfSpeech))
  }

  /**
   * The part-of-speech string lists exactly the non-placeholder sub-tags, in
   * order: splitting it at the middle dot gives them back, provided there is
   * one and none of them holds the separator itself.
   */
  lemma MorphemeToPosRoundTrip(m: Morpheme)
    requires exists t :: t in m.partOfSpeech && t != Placeholder
    requires forall t :: t in m.partOfSpeech ==> PosSeparator !in t
    ensures Split(PosSeparator, MorphemeToPos(m)) == DropPlaceholders(m.partOfSpeech)
    ensures Placeholder !in Split(PosSeparator, MorphemeToPos(m))
  {
    var kept := DropPlaceholders(m.partOfSpeech);
    var t :| t in m.partOfSpeech && t != Placeholder;
    assert t in kept;
    SplitJoin(PosSeparator, kept);
  }

  /**
   * With non-empty sub-tags (as the segmenter gives them), the part of speech
   * is empty exactly when every sub-tag is the placeholder.
   */
  lemma MorphemeToPosEmpty(m: Morpheme)
    requires forall t :: t in m.partOfSpeech ==> t != ""
    ensures MorphemeToPos(m) == "" <==> forall t :: t in m.partOfSpeech ==> t == Placeholder
  {
    var kept := DropPlaceholders(m.partOfSpeech);
    if kept != [] {
      assert kept[0] in kept;
      assert |Join(PosSeparator, kept)| >= |kept[0]| > 0;
    }
  }

  /** `morpheme_to_token`: a fresh token with one reading and count 1. */
  function MorphemeToToken(m: Morpheme): (t: Token)
    ensures t.count == 1
    ensures t.reading == [m.reading]
    ensures t.dictionary == m.dictionary && t.normalized == m.normalized
    ensures t.partOfSpeech == MorphemeToPos(m)
  {
    Token(m.dictionary, m.normalized, [m.reading], MorphemeToPos(m), 1)
  }

  /** `token_to_id`: the identity key, normalized form and part of speech joined by a tab. */
  function TokenId(t: Token): string
  {
    t.normalized + [IdSeparator] + t.partOfSpeech
  }

  /** The identity key of the token a morpheme becomes. */
  function MorphemeKey(m: Morpheme): string
  {
    TokenId(MorphemeToToken(m))
  }

  /** Readings, dictionary form and count play no part in the identity key. */
  lemma TokenIdIgnoresReading(a: Token, b: Token)
    requires a.normalized == b.normalized && a.partOfSpeech == b.partOfSpeech
    ensures TokenId(a) == TokenId(b)
  {
  }

  /** Position of the first `c` in `s`, or `|s|` when there is none. */
  function FirstIndex(c: char, s: string): (i: nat)
    ensures i <= |s|
  {
    if s == [] || s[0] == c then 0 else 1 + FirstIndex(c, s[1..])
  }

  lemma {:induction false} FirstIndexAfter(c: char, x: string, y: string)
    requires c !in x
    ensures FirstIndex(c, x + [c] + y) == |x|
  {
    if x != [] {
      assert (x + [c] + y)[1..] == x[1..] + [c] + y;
      FirstIndexAfter(c, x[1..], y);
    }
  }

  /**
   * When normalized forms hold no tab, two tokens share an identity key
   * exactly when they agree on normalized form and part of speech.
   */
  lemma TokenIdInjective(a: Token, b: Token)
    requires IdSeparator !in a.normalized && IdSeparator !in b.normalized
    ensures TokenId(a) == TokenId(b) <==>
            a.normalized == b.normalized && a.partOfSpeech == b.partOfSpeech
  {
    if TokenId(a) == TokenId(b) {
      var s := TokenId(a);
      var na := |a.normalized|;
      FirstIndexAfter(IdSeparator, a.normalized, a.partOfSpeech);
      FirstIndexAfter(IdSeparator, b.normalized, b.partOfSpeech);
      assert na == |b.normalized|;
      assert a.normalized == s[..na] == b.normalized;
      assert a.partOfSpeech == s[na + 1..] == b.partOfSpeech;
    }
  }

  /** Splitting an identity key at the tab recovers both halves when neither holds a tab. */
  lemma TokenIdSplit(t: Token)
    requires IdSeparator !in t.normalized && IdSeparator !in t.partOfSpeech
    ensures Split(IdSeparator, TokenId(t)) == [t.normalized, t.partOfSpeech]
  {
    var parts := [t.normalized, t.partOfSpeech];
    assert parts[1..] == [t.partOfSpeech];
    assert Join(IdSeparator, parts) == TokenId(t);
    SplitJoin(IdSeparator, parts);
  }
}
