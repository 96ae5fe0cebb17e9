# Tokenizer session store

This is a Dafny model of the tokenizer core in `jppy/tokenizer.py`. A client
opens a session and supplies tokens it already knows. Those tokens become the
session's exclusion keys. The client then submits Japanese text any number of
times. The segmenter turns each submission into morphemes, and each morpheme
becomes a token. Tokens are accumulated by identity key: repeated occurrences
raise the count and append their reading. At the end the client finalizes the
session. It gets every accumulated token back, with readings deduplicated and
the list ordered by count from highest to lowest, and the session is deleted.
The client can also destroy the session without asking for the result.

The project has five modules:

- `Seqs` (`seqs.dfy`): sequence helpers. These are duplicate-freedom and
  `Dedup`, which stands for Python's `list(set(...))`.
- `Normalizer` (`normalizer.dfy`): morphemes, tokens, the part-of-speech
  string and the identity key. It is pure.
- `Merge` (`merge.dfy`): the session data and the merge step that
  `tokenize` runs once per morpheme. These are specification functions, and
  the lemmas state what merging promises across any number of submissions.
- `Finalize` (`finalize.dfy`): the result of `finalize`. It is a stable
  insertion sort by count over the tokens in key insertion order, with each
  token's readings deduplicated.
- `Store` (`store.dfy`): the in-memory backend as a class `SessionStore`
  whose `sessions` map the endpoint methods update in place. `Tokenize` runs
  the source's loop, and its invariant ties the loop's local items to
  `MergeAll` on the prefix already merged.

Python dictionaries remember insertion order. That order decides how tokens
with equal counts come out of the stable sort in `finalize`, so the session
data carries `order`, the keys of `items` in first-insertion order, next to
the `items` map.

What the program does, in points that are easy to get wrong:

- Tokens with equal counts keep the order in which their keys were first
  inserted. The code sorts by count alone, and Python's sort is stable
  (`Finalize.FinalizeOrder`, with `Merge.MergeAllOrder` for how that
  insertion order arises).
- While a session is open, a token's readings are a list with one reading
  per occurrence, duplicates included, so an entry holds exactly `count`
  readings (`Merge.Valid`). Only `finalize` removes duplicates.
- Submitting the same morphemes in another order gives the same keys, counts
  and reading multisets (`Merge.MergeOrderIrrelevantForCounts`). The output
  can still differ: the order of readings, the order of tied tokens and the
  dictionary form all come from the first occurrence.
- An unknown session in `tokenize` or `finalize` is refused by the session
  verifier with HTTP 403. In `destroy`, the backend's delete raises instead.
  Both are modelled as `Err(SessionNotFound)`.

## Model

| member | source | states |
|---|---|---|
| Normalizer.DropPlaceholders | jppy/tokenizer.py:55 | the kept sub-tags are exactly the tags other than `*`, and their number is the tag count minus the placeholders |
| Normalizer.DropPlaceholdersAppend | jppy/tokenizer.py:55 | filtering placeholders commutes with concatenation, so the kept sub-tags keep their original order |
| Normalizer.SplitJoin | jppy/tokenizer.py:55 | splitting a join of a non-empty list of separator-free parts at the separator gives the parts back |
| Normalizer.MorphemeToPosRoundTrip | jppy/tokenizer.py:54-55 | the part-of-speech string splits at `・` back into exactly the non-placeholder sub-tags, in order, and no `*` survives, when some tag is kept and no tag holds `・` |
| Normalizer.MorphemeToPosEmpty | jppy/tokenizer.py:54-55 | with non-empty sub-tags, the part of speech is empty exactly when every sub-tag is `*` |
| Normalizer.MorphemeToToken | jppy/tokenizer.py:58-64 | a fresh token has count 1 (the field default), one reading (the morpheme's), the morpheme's dictionary and normalized forms, and the filtered part of speech |
| Normalizer.TokenIdIgnoresReading | jppy/tokenizer.py:67-68 | two tokens that agree on normalized form and part of speech share an identity key, whatever their readings, dictionary forms and counts |
| Normalizer.TokenIdInjective | jppy/tokenizer.py:67-68 | when normalized forms hold no tab, two tokens share an identity key if and only if they agree on normalized form and part of speech |
| Normalizer.TokenIdSplit | jppy/tokenizer.py:67-68 | splitting an identity key at the tab gives the normalized form and the part of speech back when neither holds a tab |
| Seqs.Dedup | jppy/tokenizer.py:145 | `list(set(xs))` has no duplicates and holds exactly the elements of `xs` |
| Seqs.DedupMembers | jppy/tokenizer.py:145 | a value is in the deduplicated list exactly when it is in the input |
| Seqs.DedupOfNoDup | jppy/tokenizer.py:188 | deduplicating a list without duplicates yields a permutation of it, each element once |
| Seqs.DedupOneValue | jppy/tokenizer.py:188 | one value, listed once or twice, deduplicates to that value once |
| Merge.ExcludeKeys | jppy/tokenizer.py:145 | the exclusion keys hold each supplied token's identity key once and nothing else |
| Merge.NewSession | jppy/tokenizer.py:144-146 | a new session is valid, has no items, and excludes a key exactly when some supplied token has it |
| Merge.MergeOne | jppy/tokenizer.py:160-172 | one loop step leaves the exclusion list alone, leaves the session unchanged for an excluded key, records a non-excluded key, touches no other key, and appends the key to the insertion order exactly when it is neither excluded nor already held |
| Merge.MergeAll | jppy/tokenizer.py:159-174 | merging a whole submission keeps the exclusion list and never loses a key |
| Merge.FreshKeys | jppy/tokenizer.py:159-172 | the keys of a submission that are neither excluded nor already held, in submission order |
| Merge.KeysStep | jppy/tokenizer.py:162-172 | after one step the held keys are the old ones plus the step's key when it is not excluded |
| Merge.OrderStep | jppy/tokenizer.py:165-172 | after one step the insertion order is the old order followed by each fresh key once, in order of first occurrence |
| Merge.MergeAllOrder | jppy/tokenizer.py:159-174 | after a submission the insertion order is the old order followed by each new key once, in the order it was first accepted, and the held keys are the old ones plus the new ones |
| Merge.MergeAllSingle | jppy/tokenizer.py:159-172 | submitting one morpheme is exactly one loop step |
| Merge.MergeOneValid | jppy/tokenizer.py:160-172 | a loop step keeps the session invariant: each key listed once in order, no excluded key recorded, each entry under its own key with count at least 1 and one reading per count |
| Merge.MergeAllValid | jppy/tokenizer.py:154-176 | any submission keeps the session invariant |
| Merge.MergeSplit | jppy/tokenizer.py:154-176 | submitting a text in two parts leaves the same session as submitting it whole |
| Merge.AcceptedAppend | jppy/tokenizer.py:161-163 | the morphemes accepted under a key from a concatenation are those from each part, in order |
| Merge.ReadingsAppend | jppy/tokenizer.py:167 | the readings collected from a concatenation are those of each part, in order |
| Merge.EntryStepAccept | jppy/tokenizer.py:165-172 | a step that accepts a morpheme under its key adds one count and that reading to an existing entry, or inserts the morpheme's fresh token |
| Merge.EntryStepSkip | jppy/tokenizer.py:162-163 | a step that accepts nothing under a key leaves that key's entry as it was |
| Merge.MergeAllEntry | jppy/tokenizer.py:159-172 | after a submission a key has an entry iff it had one or accepted some morpheme; an old entry gains the accepted count and readings; a new entry is the first accepted morpheme's token with the accepted count and all accepted readings |
| Merge.CountIsAcceptedOccurrences | jppy/tokenizer.py:159-172 | from an empty session, a key has an entry iff it is not excluded and occurred, and then its count is the number of occurrences and its readings are theirs, one per occurrence |
| Merge.ExcludedNeverRecorded | jppy/tokenizer.py:156-163 | an excluded key never gains an entry, an existing entry under it stays untouched, and a valid session holds none |
| Merge.ExcludedHaveNoEffect | jppy/tokenizer.py:162-163 | dropping the excluded morphemes from a submission beforehand leaves the same session |
| Merge.SameAcceptedSameEntry | jppy/tokenizer.py:159-172 | two submissions that accept as many morphemes under a key, with the same readings up to order, agree on that key's presence, count and reading multiset |
| Merge.MergeOrderIrrelevantForCounts | jppy/tokenizer.py:154-176 | submitting `a` then `b` or `b` then `a` gives the same keys, counts and reading multisets |
| Finalize.DedupReadings | jppy/tokenizer.py:187-188 | the token returned has duplicate-free readings, exactly the same reading values, and every other field unchanged |
| Finalize.InsertByCount | jppy/tokenizer.py:191 | one insertion step of the sort adds exactly the inserted token |
| Finalize.InsertSorted | jppy/tokenizer.py:191 | an insertion step keeps a list ordered by non-increasing count |
| Finalize.ConsNonIncreasing | jppy/tokenizer.py:191 | putting a token in front of a sorted list keeps it sorted when no later count exceeds its own |
| Finalize.SortByCount | jppy/tokenizer.py:187-191 | the sort by `-count` returns a permutation of its input, ordered by non-increasing count |
| Finalize.InsertKeepsTies | jppy/tokenizer.py:191 | an insertion step keeps the relative order of tokens with equal counts |
| Finalize.SortKeepsTies | jppy/tokenizer.py:191 | the sort is stable: among tokens of any one count, the output order is the input order |
| Finalize.DedupedValuesNoDup | jppy/tokenizer.py:191 | the session's values, listed in key order, hold no token twice |
| Finalize.FinalizeElements | jppy/tokenizer.py:187-191 | every returned token is an accumulated entry, stored under its own key, with readings deduplicated, and every entry is returned |
| Finalize.FinalizeDistinct | jppy/tokenizer.py:191 | as many tokens are returned as the session has keys, and no two share an identity key |
| Finalize.FinalizeOrder | jppy/tokenizer.py:187-191 | the result is ordered by non-increasing count, every token's readings are duplicate-free, and tokens of equal count come in key insertion order |
| Finalize.FinalizeAsWritten | jppy/tokenizer.py:191-196 | as written, the response for any session fails validation, because `result` is the `None` that `list.sort` returns |
| Finalize.FinalizeAsWrittenLosesTokens | jppy/tokenizer.py:191-196 | on a valid one-token session, the intended result is that token but the response as written fails |
| Finalize.CatsAndDogTokens | jppy/tokenizer.py:54-68 | 猫 and 犬, nouns with a placeholder sub-tag, become count-1 tokens with part of speech 名詞 under distinct keys |
| Finalize.CatsAndDogFirst | jppy/tokenizer.py:159-172 | the first 猫 opens an entry with count 1 and one reading |
| Finalize.CatsAndDogSecond | jppy/tokenizer.py:165-168 | the second 猫 raises the count to 2 and appends its reading |
| Finalize.CatsAndDogThird | jppy/tokenizer.py:169-172 | 犬 opens a second entry, after 猫 in insertion order |
| Finalize.CatsAndDogSession | jppy/tokenizer.py:141-176 | two submissions of 猫 and one of 犬 into an empty session build 猫 with count 2 and two readings, then 犬 with count 1 |
| Finalize.CatsAndDogDeduped | jppy/tokenizer.py:187-191 | deduplicating that session's readings leaves 猫 with one reading, then 犬 |
| Finalize.CatsAndDogFinalize | jppy/tokenizer.py:187-191 | that session finalizes to 猫 with count 2, then 犬 with count 1 |
| Finalize.CatsAndDogScenario | jppy/tokenizer.py:141-196 | the whole scenario: the session stays valid, and finalize returns 猫 (2) ahead of 犬 (1) |
| Store.SessionStore.constructor | jppy/tokenizer.py:90 | the backend starts with no sessions |
| Store.SessionStore.Create | jppy/tokenizer.py:141-151 | stores the new session under a fresh id and answers success; an id already held is refused and nothing changes |
| Store.SessionStore.Tokenize | jppy/tokenizer.py:154-176 | the session becomes `MergeAll` of its old data and the morphemes, and every session stays valid; an unknown id is refused and nothing changes |
| Store.SessionStore.Finalize | jppy/tokenizer.py:179-196 | returns the sorted, deduplicated tokens of the session and deletes exactly that session; an unknown id is refused and nothing changes |
| Store.SessionStore.FinalizeEndpointAsWritten | jppy/tokenizer.py:179-196 | as written, the session is deleted and the endpoint fails because the response cannot be built; an unknown id is refused and nothing changes |
| Store.SessionStore.Destroy | jppy/tokenizer.py:199-203 | deletes exactly that session and answers success; an unknown id is refused and nothing changes |

## Left out

- HTTP routing, cookies and their signing, and the `SuccessResponse` and `OutputResponse` envelopes are left out. An endpoint's success is `Ok(...)`, and the 403 or server error is `Err(...)`.
- The sudachipy segmenter is outside the model. `Tokenize` takes the morphemes it would yield, in order, instead of text.
- `uuid4` randomness is left out. `Create` takes the session id as a parameter and refuses an id already in use, as the in-memory backend does.
- `is_ja` and `re_ja` are not modelled. They are defined but the endpoints never use them.
- `async`, and concurrent requests on one session, are not modelled. Each endpoint is one atomic step.
- Seqs.Dedup: `list(set(...))` leaves the order of the distinct elements unspecified, because it depends on string hashing. The model keeps first occurrences. That choice fixes the order of each returned token's readings in `Finalize.FinalizeElements` (`r[i] == DedupReadings(...)`), in `Finalize.FinalizeResult`, and so in `Store.SessionStore.Finalize` (`r == Ok(FinalizeResult(...))`). Python makes no such promise, so only the reading values and their lack of duplicates (`Finalize.DedupReadings`, `Seqs.DedupOfNoDup`) describe the program. Callers must not rely on the reading order.
- Store.SessionStore.Tokenize: the source mutates the stored token objects in place and the verifier hands the endpoint the session data. Whether the backend returns its own object or a copy is decided by the session library, which is not part of this model. The model writes the merged items back to the session, as the assignment on line 174 evidently intends.
- Store.SessionStore.Finalize: this models the corrected behaviour (see Findings). The source also deduplicates the stored tokens' readings in place through `sorter` just before it deletes the session. That makes no observable difference, so it is not modelled.
- `main.py` (the application wiring) and `scripts/` are not part of this model.

## Findings

| source | as written | input that shows it | evidently intended | confidence | as-written member | corrected member |
|---|---|---|---|---|---|---|
| jppy/tokenizer.py:191 | `result` is bound to the value of `list(...).sort(key=sorter)`, which is `None`. `OutputResponse(result=None)` then fails validation, after the session has already been deleted on line 193, so the client loses the tokens and the session. | any live session, e.g. one holding the single token 猫 (`Finalize.FinalizeAsWrittenLosesTokens`) | return the session's tokens sorted by descending count, as `sorted(..., key=sorter)` would | high; not executed | Store.SessionStore.FinalizeEndpointAsWritten | Store.SessionStore.Finalize |
