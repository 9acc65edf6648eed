# Similarity-search backend: vector stores and the recommendation endpoint

This project models the core of a small product-recommendation backend and
proves properties of that model:

- **The persistent vector store** (`faiss_client.py`, module `FaissClient`).
  - It holds a matrix of normalised embedding rows, a position → id list
    (`_index_map`) naming each row, an id → metadata table, and the files
    the store saves.
  - `init_index` binds the dimension and reloads the saved state.
  - `upsert_items` keeps the items of the right width and normalises them.
    It appends rows and ids in input order, writes metadata, and saves.
  - `query_vector` answers through the FAISS index when the library is
    present. Otherwise it takes a dot product against every row and an
    argsort.
  - The state is a value `Store`, each operation a function on it
    (`InitSpec`, `UpsertSpec`, `QuerySpec`). The class `VectorStore` has the
    same fields; its methods implement the loops of upsert and query, and
    each method is proved equal to its function.
- **The in-memory store** (`pinecone_client.py`, module `PineconeClient`): a
  dict from id to embedding and metadata, with replace-on-upsert. It is
  queried by a "safe" cosine, a stable descending sort and a top-k cut. The
  class `LocalStore` implements it.
- **The description generator** (`genai.py`, module `GenAi`): a sentence
  built from title, brand and price. Each optional clause appears exactly
  when its field is truthy.
- **The endpoint** (`recommend.py`, module `Recommend`). It covers:
  - prompt validation;
  - `max(20, 3k)` candidates fetched from the store;
  - the keep-the-best-score-per-id dedupe loop;
  - a stable sort by score and the cut to `k`;
  - `_safe_float` price parsing and the price display string;
  - the enriched record and the description with "nan" scrubbed;
  - the recursive `_sanitize`.

  `RecommendSpec` gives the whole endpoint as a function. `RecommendCall` is
  the same endpoint as a method over a `VectorStore`.

Support modules model the parts of Python and numpy the core relies on:

- `Numbers`: floats as `Finite(real) | NaN | PosInf | NegInf` with IEEE
  rules, plus norm, safe normalisation and dot product.
- `PyValues`: JSON-like values, truthiness, `x or y`, `str()`.
- `Dicts`: insertion-ordered dicts as association lists.
- `PyText`: `strip`, `replace`, `in` and integer printing.
- `PyFloat`: `float(text)`, `str(float)` and half-even `round`.
- `Sorting`: a stable insertion sort and Python's `s[:k]`, `s[-k:]` and
  `s[::-1]`.

Dicts are association lists rather than maps because their key order is
observable. `_load_metadata` derives the index map from
`list(_metadata.keys())`, and the dedupe's `best_by_id.values()` gives ties
their order.

The library that computes embeddings and the FAISS search are not modelled.
Each becomes a parameter:

- the embedding of the prompt is `embedding: Option<seq<Num>>`, where `None`
  means no embedding;
- the `(score, index)` pairs the FAISS index returns are `hits`, described
  by `FaissContract`.

File contents are the component `files` of the state.

## Model

| member | source | states |
|---|---|---|
| Numbers.Norm | backend/app/utils/faiss_client.py:87 | `np.linalg.norm` is NaN exactly when a component is NaN and finite exactly when all components are; a finite norm is non-negative and zero exactly for the zero vector |
| Numbers.Normalize | backend/app/utils/faiss_client.py:86-91 | the stored row has the input's length; it is all zeros exactly when the input has a non-finite component or is zero; otherwise each component is the input's divided by the positive norm |
| Numbers.Sqrt | backend/app/utils/faiss_client.py:87 | the square root used by the norm is non-negative, zero exactly at zero, and exact at one |
| Numbers.DotFinite | backend/app/utils/pinecone_client.py:27 | on finite vectors the IEEE `np.dot` equals the real dot product |
| Numbers.DotRZero | backend/app/utils/faiss_client.py:158 | a zero query vector has dot product 0 with every row |
| PyText.Strip | backend/app/api/recommend.py:35 | `strip()` removes exactly the leading and trailing whitespace: the result is empty or starts and ends with a non-space |
| PyText.StripEmptyIff | backend/app/api/recommend.py:35-36 | a stripped prompt is empty exactly when the prompt is all whitespace |
| PyText.StripIdempotent | backend/app/api/recommend.py:26 | stripping twice is stripping once |
| PyText.ReplaceAbsent | backend/app/api/recommend.py:26 | `replace` of a pattern that does not occur returns the text unchanged |
| PyText.RemoveCommasNone | backend/app/api/recommend.py:26 | after `replace(",", "")` no comma is left |
| PyText.ReplaceNanGone | backend/app/api/recommend.py:83-84 | after `replace("nan", "N/A")` the text contains no "nan" |
| PyText.NatText | backend/app/api/recommend.py:76 | `str(n)` of a natural number is a non-empty run of digits with no leading zero |
| PyText.NatTextRoundTrip | backend/app/api/recommend.py:76 | the digits of `str(n)` have the value n |
| PyFloat.ParseFloat | backend/app/api/recommend.py:26 | `float(text)` of blank text fails |
| PyFloat.ParseSpecialWords | backend/app/api/recommend.py:26-28 | `float("nan")`, `float("inf")` and `float("-inf")` give NaN, +inf and -inf |
| PyFloat.ParseNatText | backend/app/api/recommend.py:26 | `float("n.0")` is n for every natural n |
| PyFloat.ParseDigitsPointZero | backend/app/api/recommend.py:26 | a run of digits followed by ".0" parses to the digits' value |
| PyFloat.ParseMinus | backend/app/api/recommend.py:26 | a minus sign in front of a stripped unsigned text negates what it parses to (and swaps the infinities) |
| PyFloat.NegWholeText | backend/app/api/recommend.py:26 | a negative whole number prints as "-" before its magnitude's text, which meets `ParseMinus`'s conditions |
| PyFloat.FloatTextRoundTrip | backend/app/api/recommend.py:26 | `float(str(x)) == x` for NaN, the infinities and non-negative whole numbers |
| PyFloat.RoundHalfEven | backend/app/api/recommend.py:76 | rounding to an integer moves the value by at most 0.5, and exact halves go to the even neighbour |
| PyFloat.RoundHalfEvenMonotone | backend/app/api/recommend.py:90 | rounding keeps order |
| PyFloat.Round2 | backend/app/api/recommend.py:76 | `round(x, 2)` is within 0.005 of x |
| PyFloat.Round2Idempotent | backend/app/api/recommend.py:76 | rounding to two places twice is rounding once |
| PyFloat.Round6 | backend/app/api/recommend.py:90 | `round(x, 6)` is within 0.0000005 of x |
| PyFloat.Round6Idempotent | backend/app/api/recommend.py:90 | rounding to six places twice is rounding once |
| PyFloat.Round6Monotone | backend/app/api/recommend.py:90 | rounding scores to six places keeps their order |
| PyValues.OrFacts | backend/app/api/genai.py:5-7 | `x or d` is falsy only when both x and d are, so `or "Product"` always gives a truthy title; a second `or d` changes nothing |
| Dicts.Get | backend/app/utils/faiss_client.py:155 | `dict.get` is None exactly when the key is absent, else the value of the key's entry |
| Dicts.Set | backend/app/utils/faiss_client.py:94 | `d[k] = v` keeps the length and key order for a present key, and appends `(k, v)` for a new key |
| Dicts.GetSetSame | backend/app/utils/pinecone_client.py:9 | reading a key just written gives the written value |
| Dicts.GetSetOther | backend/app/utils/pinecone_client.py:9 | writing one key leaves every other key's value unchanged |
| Dicts.SetDistinct | backend/app/utils/faiss_client.py:94 | writing a key keeps the keys distinct |
| Dicts.GetAt | backend/app/api/recommend.py:60 | in a dict with distinct keys, looking up an entry's key gives that entry's value |
| Sorting.SortByPermutation | backend/app/api/recommend.py:64 | the sort returns a permutation of its input |
| Sorting.SortBySorted | backend/app/api/recommend.py:64 | the sort's result is ordered by the key |
| Sorting.SortByStable | backend/app/api/recommend.py:64 | the elements with any one key value keep their input order |
| Sorting.SortDescFacts | backend/app/utils/pinecone_client.py:37 | `sort(key, reverse=True)` is a permutation, non-increasing by the key, and stable |
| Sorting.PyPrefix | backend/app/api/recommend.py:64 | `s[:k]` is a prefix of s with length min(k, n) for k >= 0 and n + k (at least 0) for k < 0 |
| Sorting.PyTail | backend/app/utils/faiss_client.py:159 | `s[-k:]` is a suffix of s with length min(k, n) for k > 0, and for k == 0 it is the whole of s |
| Sorting.ReverseFacts | backend/app/utils/faiss_client.py:159 | `s[::-1]` reversed again is s, and reversing only reorders: the multiset of elements is kept |
| Sorting.TailReversedDesc | backend/app/utils/faiss_client.py:159 | the reversed tail of an ascending list is descending |
| Sorting.TailReversedBest | backend/app/utils/faiss_client.py:159 | an element left out of the reversed tail has a key no greater than any element kept |
| Sorting.PrefixBest | backend/app/utils/pinecone_client.py:39 | an element left out of the first k of a descending list has a key no greater than any element kept |
| Sorting.DistinctUnderPermutation | backend/app/api/recommend.py:64 | a permutation of a list with distinct keys has distinct keys |
| FaissClient.InitSpec | backend/app/utils/faiss_client.py:44-68 | the model of `init_index`: the dimension, the reloaded metadata and index map, and the rows the files provide; its properties are the InitValid, PersistRoundTrip and InitWithoutIndexFileMisaligns rows |
| FaissClient.InitWithoutIndexFileMisaligns | backend/app/utils/faiss_client.py:37-61 | files saved without FAISS and read with FAISS give no rows but the saved index map, so ids name rows that are not there |
| FaissClient.InitValid | backend/app/utils/faiss_client.py:44-67 | initialising from absent files or from a saved snapshot gives a store with the new dimension in which rows and index map have equal length and the metadata keys are distinct |
| FaissClient.VectorStore.constructor | backend/app/utils/faiss_client.py:20-24 | at import the store has no dimension, no rows, no ids and no metadata |
| FaissClient.VectorStore.LoadMetadata | backend/app/utils/faiss_client.py:30-42 | the metadata and index map become the saved ones, empty if absent; with no saved index map it is the metadata keys in order |
| FaissClient.VectorStore.Init | backend/app/utils/faiss_client.py:44-68 | the new state is `InitSpec`: the dimension, the reloaded metadata, and the saved rows (with FAISS only when the index file exists too) or none |
| FaissClient.Accepted | backend/app/utils/faiss_client.py:82-85 | the accepted items are exactly the input items whose embedding has the store's dimension |
| FaissClient.AcceptedAppend | backend/app/utils/faiss_client.py:80-85 | the filter keeps order and multiplicity: the accepted items of `a + b` are those of a followed by those of b |
| FaissClient.AcceptedOne | backend/app/utils/faiss_client.py:83-85 | a single item is kept exactly when its embedding has the store's dimension |
| FaissClient.MetaAfterAppend | backend/app/utils/faiss_client.py:80-94 | the metadata writes of `a + b` are those of a followed by those of b |
| FaissClient.SameBatch | backend/app/utils/faiss_client.py:78-118 | two batches with the same accepted items and the same metadata writes have the same upsert outcome and new state |
| FaissClient.NewRowsFacts | backend/app/utils/faiss_client.py:86-92 | one new row per accepted item, the j-th being the j-th accepted embedding normalised |
| FaissClient.NewRowsWidth | backend/app/utils/faiss_client.py:83-92 | every new row has the store's dimension |
| FaissClient.NewIdsFacts | backend/app/utils/faiss_client.py:80-93 | one new id per accepted item, the j-th being `str` of the j-th accepted item's id |
| FaissClient.MetaAfterDistinct | backend/app/utils/faiss_client.py:94 | the metadata writes keep the table's keys distinct |
| FaissClient.MetaAfterNoneAccepted | backend/app/utils/faiss_client.py:94-97 | with no item accepted, no metadata is written |
| FaissClient.UpsertSpec | backend/app/utils/faiss_client.py:70-118 | the model of `upsert_items`: its outcome and new state; its properties are the rows from UpsertBeforeInit to PersistRoundTrip |
| FaissClient.UpsertBeforeInit | backend/app/utils/faiss_client.py:75-76 | upserting before `init_index` fails with `NotInitialized` and leaves the whole state as it was |
| FaissClient.SkippedItem | backend/app/utils/faiss_client.py:83-94 | an item of the wrong width, anywhere in the batch, changes neither the outcome nor the state: no row, no id, no metadata write |
| FaissClient.UpsertNothingAccepted | backend/app/utils/faiss_client.py:94-97 | a batch with nothing accepted returns early and leaves rows, ids, metadata and files unchanged |
| FaissClient.UpsertAppends | backend/app/utils/faiss_client.py:99-111 | a successful upsert keeps the old rows and ids as a prefix and appends exactly one row and one id per accepted item, in input order; each row is its item's normalised embedding |
| FaissClient.AppendedRows | backend/app/utils/faiss_client.py:105-111 | appending puts the normalised rows and the ids of the accepted items after the old ones |
| FaissClient.UpsertPreservesValid | backend/app/utils/faiss_client.py:99-118 | every upsert outcome keeps the invariant: rows of one width, one index-map entry per row, distinct metadata keys, and a consistent saved snapshot |
| FaissClient.ReupsertKeepsBoth | backend/app/utils/faiss_client.py:94-111 | upserting an id already indexed adds a second row and index-map entry for it, keeps the old entry, and overwrites its metadata |
| FaissClient.PersistRoundTrip | backend/app/utils/faiss_client.py:113-118 | after an upsert that saves, reloading the saved files with `init_index` restores the in-memory rows, index map and metadata |
| FaissClient.AppendRowsAgree | backend/app/utils/faiss_client.py:105-108 | the branch on `_embeddings.size == 0` agrees with plain stacking unless the store holds rows of width zero |
| FaissClient.AppendRowsAsWritten | backend/app/utils/faiss_client.py:105-108 | the model of the stacking as written, replacing the matrix whenever `_embeddings.size == 0`; its properties are the AppendRowsAgree and AppendRowsAsWrittenMisaligns rows |
| FaissClient.AppendRowsAsWrittenMisaligns | backend/app/utils/faiss_client.py:105-108 | with dimension 0, a second upsert as written leaves one row but two index-map entries |
| FaissClient.CollectBatch | backend/app/utils/faiss_client.py:78-94 | the upsert loop collects exactly `NewRows` and `NewIds` of the accepted items and performs exactly the metadata writes `MetaAfter` describes |
| FaissClient.VectorStore.Upsert | backend/app/utils/faiss_client.py:70-118 | the new state and the outcome are `UpsertSpec` of the old state |
| FaissClient.FaissHits | backend/app/utils/faiss_client.py:144-155 | the model of the FAISS result loop; its properties are the rows from FaissHitsShape to CollectFaissHits |
| FaissClient.FaissHitsShape | backend/app/utils/faiss_client.py:144-155 | the FAISS branch emits one record per pair with a non-negative index, in FAISS's order, carrying that pair's cleaned score |
| FaissClient.FaissHitsDescending | backend/app/utils/faiss_client.py:122-155 | when the index returns its scores best first, the FAISS branch's records come out by descending score, each score being one the index returned for a row |
| FaissClient.HitIndicesDistinct | backend/app/utils/faiss_client.py:144-146 | under the index's contract the kept indices are distinct row positions |
| FaissClient.FaissHitsBound | backend/app/utils/faiss_client.py:138-155 | the FAISS branch returns at most `top_k` records and at most one per row |
| FaissClient.FaissHitsFromIndexMap | backend/app/utils/faiss_client.py:144-155 | each FAISS record's id is `_index_map[idx]` for a returned index, its score that pair's cleaned score, and its metadata `_metadata.get(id, {})` |
| FaissClient.CollectFaissHits | backend/app/utils/faiss_client.py:144-155 | the FAISS result loop computes `FaissHits` |
| FaissClient.ArgsortFacts | backend/app/utils/faiss_client.py:159 | the argsort is a permutation of the row positions, ascending by similarity |
| FaissClient.FallbackOrder | backend/app/utils/faiss_client.py:159 | the model of `np.argsort(sims)[-top_k:][::-1]`; its properties are the rows from ArgsortFacts to FallbackBest |
| FaissClient.FallbackHits | backend/app/utils/faiss_client.py:158-170 | the model of the fallback branch's records; its properties are the rows from FallbackCount to CollectFallbackHits |
| FaissClient.FallbackCount | backend/app/utils/faiss_client.py:159 | the fallback returns min(top_k, n) records for top_k >= 1, and all n records for top_k == 0 (the `[-0:]` slice) |
| FaissClient.FallbackDescending | backend/app/utils/faiss_client.py:159-170 | fallback records come in non-increasing score order |
| FaissClient.FallbackBest | backend/app/utils/faiss_client.py:159 | a row left out of the fallback answer scores no higher than any row returned |
| FaissClient.FallbackRecordFields | backend/app/utils/faiss_client.py:162-170 | each fallback record pairs a row's id with that row's similarity and with `_metadata.get(id, {})` |
| FaissClient.CollectFallbackHits | backend/app/utils/faiss_client.py:162-170 | the fallback result loop computes `FallbackHits` |
| FaissClient.QuerySpec | backend/app/utils/faiss_client.py:120-171 | the model of `query_vector`: the records of the FAISS or the fallback branch and the state after the reload; its properties are the rows from FaissHitsShape to QueryKeepsValidState |
| FaissClient.DegenerateQueryScoresZero | backend/app/utils/faiss_client.py:130-132 | a query that is zero or not finite is zeroed, so every row scores 0.0 |
| FaissClient.QueryEmptyStore | backend/app/utils/faiss_client.py:126-127 | a store of size 0 (no rows, or rows of width zero) answers `[]` and changes nothing |
| FaissClient.QueryKeepsValidState | backend/app/utils/faiss_client.py:141-143 | a query on a valid non-empty store reloads nothing and leaves the state unchanged |
| FaissClient.VectorStore.Query | backend/app/utils/faiss_client.py:120-171 | the new state and the records are `QuerySpec` of the old state |
| PineconeClient.UpsertLocalSpec | backend/app/utils/pinecone_client.py:6-12 | the model of `upsert_items_local`: the new entries and the outcome; its properties are the UpsertLocalOutcome, UpsertLocalLastWins and UpsertLocalDistinct rows |
| PineconeClient.UpsertLocalOutcome | backend/app/utils/pinecone_client.py:8-12 | the local upsert fails exactly when some item has no metadata, and then the items before the first such item are stored |
| PineconeClient.UpsertLocalLastWins | backend/app/utils/pinecone_client.py:8-12 | after the upsert each id holds what the last item with that id wrote, and every other id keeps its entry |
| PineconeClient.UpsertLocalDistinct | backend/app/utils/pinecone_client.py:8-12 | the store never holds an id twice |
| PineconeClient.LocalStore.constructor | backend/app/utils/pinecone_client.py:4 | the store starts empty |
| PineconeClient.LocalStore.UpsertLocal | backend/app/utils/pinecone_client.py:6-12 | the new entries and the outcome are `UpsertLocalSpec` of the old entries |
| PineconeClient.SafeCosine | backend/app/utils/pinecone_client.py:22-30 | vectors of one length always get a score; the only failure is vectors of different lengths |
| PineconeClient.SafeCosineZero | backend/app/utils/pinecone_client.py:24-26 | a zero vector scores 0.0 against any finite vector, whatever the lengths |
| PineconeClient.SafeCosineMismatch | backend/app/utils/pinecone_client.py:27 | finite non-zero vectors of different lengths make `np.dot` fail |
| PineconeClient.SafeCosineIsCosine | backend/app/utils/pinecone_client.py:22-30 | for finite non-zero vectors of one length the score is their dot product over the product of their norms |
| PineconeClient.SafeCosineSymmetric | backend/app/utils/pinecone_client.py:22-30 | the score does not depend on the order of its arguments |
| PineconeClient.ScoreAll | backend/app/utils/pinecone_client.py:32-34 | scoring yields one triple per entry in store order, or fails exactly when some entry's score fails |
| PineconeClient.ScoreEntries | backend/app/utils/pinecone_client.py:32-34 | the scoring loop computes `ScoreAll` |
| PineconeClient.BuildHits | backend/app/utils/pinecone_client.py:38-42 | the loop builds one record per scored triple, in order, with the triple's id, score and metadata |
| PineconeClient.QueryLocalSpec | backend/app/utils/pinecone_client.py:14-44 | the model of `query_vector_local`: score every entry, sort by descending score, keep the first `top_k`; its properties are the rows from QueryLocalEmpty to QueryLocalTiesInStoreOrder |
| PineconeClient.QueryLocalEmpty | backend/app/utils/pinecone_client.py:16-17 | an empty store answers `[]` |
| PineconeClient.QueryLocalSameLength | backend/app/utils/pinecone_client.py:27-34 | a query of the stored length never fails |
| PineconeClient.QueryLocalResults | backend/app/utils/pinecone_client.py:32-44 | a local query returns min(top_k, n) records for top_k >= 0, in non-increasing score order, each a stored id with its metadata and its cosine score |
| PineconeClient.QueryLocalBest | backend/app/utils/pinecone_client.py:37-39 | an entry left out scores no higher than any record returned |
| PineconeClient.QueryLocalIdsDistinct | backend/app/utils/pinecone_client.py:32-42 | the returned ids are distinct |
| PineconeClient.QueryLocalTiesInStoreOrder | backend/app/utils/pinecone_client.py:37 | entries with equal scores keep the store's insertion order |
| PineconeClient.LocalStore.QueryLocal | backend/app/utils/pinecone_client.py:14-44 | the method returns `QueryLocalSpec` of the entries and changes nothing |
| GenAi.GenerateDescription | backend/app/api/genai.py:2-16 | the model of `generate_description`; its properties are the rows from FallbackQuotesPrompt to EndsWithPrompt |
| GenAi.FallbackQuotesPrompt | backend/app/api/genai.py:14-16 | metadata without `.get` gives the fixed fallback sentence, which quotes the prompt |
| GenAi.TitleOpens | backend/app/api/genai.py:5-8 | the sentence opens with the title when it is truthy, else with "Product" |
| GenAi.BrandClauseIff | backend/app/api/genai.py:6-10 | `" by "` follows the title exactly when the brand is truthy, and then the brand follows |
| GenAi.PriceClauseIff | backend/app/api/genai.py:7-12 | the price clause follows exactly when the price is truthy, so a price of 0 or "" is omitted |
| GenAi.EndsWithPrompt | backend/app/api/genai.py:13 | on the normal path the sentence ends with ". Great choice when you want {prompt}." |
| Recommend.SafeFloat | backend/app/api/recommend.py:15-31 | the model of `_safe_float`; its properties are the rows from SafeFloatAgreesWithText to SafeFloatReadsWholeNumbers |
| Recommend.SafeFloatAgreesWithText | backend/app/api/recommend.py:15-31 | reading a float and reading its printed text agree: NaN and the infinities give None either way, and a whole number keeps its value |
| Recommend.SafeFloatPlain | backend/app/api/recommend.py:26 | text with no commas and no surrounding whitespace is parsed as it stands |
| Recommend.SafeFloatIgnoresCommas | backend/app/api/recommend.py:26 | removing the commas first makes no difference ("1,299" reads as "1299") |
| Recommend.SafeFloatBlank | backend/app/api/recommend.py:26-31 | blank text gives None |
| Recommend.SafeFloatRejectsSpecials | backend/app/api/recommend.py:26-28 | the texts "nan", "inf" and "-inf" give None |
| Recommend.SafeFloatReadsWholeNumbers | backend/app/api/recommend.py:26-29 | the text Python prints for a non-negative whole float reads back as that number |
| Recommend.DedupeSpec | backend/app/api/recommend.py:52-61 | the model of the dedupe loop's `best_by_id`; its properties are the rows from DedupeKeys to DedupeBest |
| Recommend.DedupeKeys | backend/app/api/recommend.py:52-61 | `best_by_id` has one key per raw id, in first-seen order |
| Recommend.DedupeValues | backend/app/api/recommend.py:61 | each kept record is a raw record filed under its own id |
| Recommend.DedupeStep | backend/app/api/recommend.py:60-61 | one loop step replaces an id's record only when the id is new or the new score is strictly greater |
| Recommend.DedupeKeepsFirstBest | backend/app/api/recommend.py:52-61 | each id keeps a record with the highest score among its raw records, the earliest such one on ties |
| Recommend.DedupeNoneWhenAbsent | backend/app/api/recommend.py:52-61 | an id absent from the raw records has no entry |
| Recommend.DedupeBest | backend/app/api/recommend.py:52-61 | the dedupe loop computes `DedupeSpec` |
| Recommend.Rank | backend/app/api/recommend.py:64 | the model of sorting `best_by_id.values()` by score and cutting to k; its properties are the RankFacts and RankTiesInFirstSeenOrder rows |
| Recommend.RankFacts | backend/app/api/recommend.py:64 | the ranked list has min(k, ids) records for k >= 0, in non-increasing score order, one per id, each its id's first best record |
| Recommend.RankTiesInFirstSeenOrder | backend/app/api/recommend.py:64 | records with equal scores keep the order their ids were first seen |
| Recommend.Trunc | backend/app/api/recommend.py:76 | `int(x)` is the integer nearest x on the side of zero: within 1 of x, not above a non-negative x and not below a negative one |
| Recommend.TruncIntegral | backend/app/api/recommend.py:76 | `x == int(x)` exactly when x is a whole number |
| Recommend.PriceDisplay | backend/app/api/recommend.py:76 | the model of the price string; its properties are the rows from PriceNAIff to PriceFractionShown |
| Recommend.PriceNAIff | backend/app/api/recommend.py:76 | the display is "N/A" exactly when there is no price |
| Recommend.PriceIntegralShown | backend/app/api/recommend.py:76 | a whole price is shown as ₹ and its digits with no decimals, and the digits give the price |
| Recommend.DisplayDigits | backend/app/api/recommend.py:76 | the digits after ₹ (and a minus sign) read back as the number's magnitude |
| Recommend.PriceFractionShown | backend/app/api/recommend.py:76 | any other price is shown as ₹ and a value rounded to two places that is within half a cent of the price |
| Recommend.Sanitize | backend/app/api/recommend.py:98-107 | the model of `_sanitize`; its properties are the rows from SanitizeShape to SanitizeIdempotent |
| Recommend.SanitizeShape | backend/app/api/recommend.py:98-107 | sanitizing keeps the kind of value, the dict keys in order and the list length, replaces a non-finite float by 0.0, and leaves other leaves untouched |
| Recommend.SanitizeClean | backend/app/api/recommend.py:98-107 | the sanitized value holds no NaN or infinite float |
| Recommend.SanitizeKeepsClean | backend/app/api/recommend.py:98-107 | a value with no NaN or infinite float is returned unchanged |
| Recommend.SanitizeIdempotent | backend/app/api/recommend.py:98-107 | sanitizing twice is sanitizing once |
| Recommend.EnrichSpec | backend/app/api/recommend.py:68-74 | enriching a record fails with status 500 exactly when its metadata (after `or {}`) is not a dict |
| Recommend.DescriptionHasNoNan | backend/app/api/recommend.py:81-84 | the stored description contains no "nan" |
| Recommend.EnrichFacts | backend/app/api/recommend.py:66-95 | an enriched record carries the id, the score rounded to 6 places, the metadata (or `{}`), the price `_safe_float` reads from the metadata's "price", the display string `PriceDisplay` gives for it (None exactly when the display is "N/A"), and the generated description with "nan" replaced, which contains no "nan" |
| Recommend.CollectOk | backend/app/api/recommend.py:66-95 | a loop that stops at its first failure succeeds exactly when every step does, and then yields the steps' values in order |
| Recommend.CollectFirstErr | backend/app/api/recommend.py:66-95 | when it fails, it fails with the first failing step's error |
| Recommend.EnrichAll | backend/app/api/recommend.py:66-95 | the model of the enrichment loop, stopping at the first record whose metadata is not a dict; its properties are the CollectOk, CollectFirstErr and EnrichAllFacts rows |
| Recommend.EnrichAllFacts | backend/app/api/recommend.py:66-95 | enrichment fails, with status 500, exactly when some ranked record's metadata is not a dict; otherwise it yields one record per ranked hit, in order |
| Recommend.EnrichLoop | backend/app/api/recommend.py:66-95 | the enrichment loop computes `EnrichAll` |
| Recommend.FetchCount | backend/app/api/recommend.py:47 | the fetch count is 20 or 3k, and at least both: `max(20, 3k)` |
| Recommend.ResultsBody | backend/app/api/recommend.py:63-109 | building the results body can fail only with status 500 |
| Recommend.Reply | backend/app/api/recommend.py:47-49 | the reply after the query can fail only with status 500 |
| Recommend.Answer | backend/app/api/recommend.py:45-49 | everything after the embedding can fail only with status 500 |
| Recommend.BlankPromptIff | backend/app/api/recommend.py:35-37 | a request is rejected with status 400 exactly when the prompt is blank |
| Recommend.EmptyIndexMessage | backend/app/api/recommend.py:45-49 | when the store is empty after `init_index`, the reply is `results: []` with the "No items indexed yet" message, not an error |
| Recommend.ReplyClean | backend/app/api/recommend.py:97-109 | a successful reply is a dict led by "results", a list of at most k records, with no NaN or infinite float anywhere |
| Recommend.ReplyIsClean | backend/app/api/recommend.py:33-109 | the same holds of every successful reply of the endpoint |
| Recommend.RecommendSpec | backend/app/api/recommend.py:34-109 | the model of the endpoint: the reply and the store after it; its properties are the rows from BlankPromptIff to ReplyIsClean |
| Recommend.RecommendCall | backend/app/api/recommend.py:34-109 | the endpoint run against the store gives `RecommendSpec`'s reply and new store state |

## Left out

- Computing embeddings (`backend/app/utils/embeddings.py` is not part of this model): the prompt's embedding is the parameter `embedding`, and `None` is the failure the endpoint reports.
- FAISS itself: `IndexFlatIP.add` and `search` are not modelled. The pairs a search returns are the parameter `hits`. `FaissContract` says what an exact index promises (at most `top_k` pairs, indices -1 or row positions, no row twice, and finite scores best first for the pairs that name a row), and the lemmas depend on it. It is not proved of any index.
- FaissClient.VectorStore.Upsert: like `UpsertSpec`, it stacks the new rows under the old ones, which is the intent the Findings row names, not the `_embeddings.size == 0` test of faiss_client.py:105-108 as written. Two inputs differ. With dimension 0, a second upsert keeps both rows in the model, while the code replaces them. With saved rows of width 0 and `init_index(d)` for d > 0 without FAISS, the model reports `ShapeMismatch`, while the code silently replaces the matrix. `AppendRowsAsWritten` models the code as written, and `AppendRowsAgree` proves the two agree on every other store.
- FaissClient.InitValid: stated for absent files and for snapshots whose FAISS index file exists whenever FAISS reads them. Files saved without FAISS and then read with FAISS load the saved index map but no rows (faiss_client.py:37-39, 51-61). `InitWithoutIndexFileMisaligns` shows this case, and no invariant is claimed for it.
- File I/O: the saved files are the value `files`. A read that raises (`faiss.read_index` failing) is not modelled, and neither is the JSON encoding of metadata.
- Floating point: finite floats are exact reals. float32 rounding, overflow to infinity and the `astype` casts are not modelled.
- Numbers.Sqrt: approximates the square root with six Newton steps. It is exact only at 0 and 1, so normalised rows are not claimed to have length one. Fallback similarities are computed with this approximate norm, so for rows of different norms the fallback scores, and hence its ranking, can differ from numpy's.
- PineconeClient.SafeCosineIsCosine: the score is the dot product over the product of the model's `Norm`, which uses the same six-step `Sqrt`. The scores of `query_vector_local` (pinecone_client.py:22-44), and hence its order, can therefore differ from numpy's cosine; `QueryLocalResults` and `QueryLocalBest` speak of these approximate scores.
- FaissClient.ArgsortFacts: `np.argsort` defaults to an unstable quicksort. The model uses a stable ascending sort, so equal similarities may come out in another order in numpy.
- FaissClient.FaissHitsDescending: holds when the index returns finite scores best first, as `FaissContract` requires. The zeroing of a NaN or infinite score (faiss_client.py:152-154) is in the model, but outside the contract it can break the order.
- FaissClient.FaissHitsBound: stated under `FaissContract`. With `top_k <= 0` FAISS itself may raise, and that case is not modelled.
- Embeddings are flat `seq<Num>`: `reshape(-1)` of nested input and the ValueError for non-numeric components are not modelled. Items always have an `id` and an `embedding`, so the KeyError for a missing one is not modelled either.
- The score coercion in the dedupe (`float(score)` failing gives 0.0, recommend.py:55-59) and the None/NaN score check (recommend.py:69-71) are not modelled. The store's records always carry a finite real score, so those branches cannot be reached from `query_vector`.
- The `except` branch of the description (recommend.py:85-86) is not modelled. `generate_description` cannot raise on the dict metadata that reaches it, because a non-dict has already raised at line 74.
- HTTP: FastAPI routing and request validation are not modelled. An exception inside the handler becomes `HttpError(500, "Internal Server Error")`. The status 500 is the one the application's global handler gives; its `{"detail": str(exc)}` body is abstracted to that fixed text, because the exception messages come from numpy and Python.
- PineconeClient.LocalStore.QueryLocal: the in-place `results.sort` is modelled by applying the stable sort function to the list value.
- Ids in the local store are strings; other hashable keys are not modelled.
- PyFloat.FloatText: prints every whole float as `N.0`, where Python switches to exponent notation from 1e16. Other values print as their decimal expansion up to 17 places, where Python prints the shortest repr.
- PyFloat.ParseFloat: does not accept underscores between digits or non-ASCII digits, which Python's `float()` accepts.
- PyFloat.FloatTextRoundTrip: stated for the special values and non-negative whole numbers. Negative whole numbers follow from `NegWholeText` with `ParseMinus`, not as one lemma.
- Recommend.SafeFloatReadsWholeNumbers: stated for non-negative whole numbers, for the same reason.
- Recommend.SafeFloatAgreesWithText: stated for the special values and non-negative whole numbers, for the same reason.
- PyValues.Repr: quotes inside strings are not escaped.
- Concurrency: the code has none, and the model adds none.

## Findings

| source | as written | input that shows it | evidently intended | confidence | as-written member | corrected member |
|---|---|---|---|---|---|---|
| backend/app/utils/faiss_client.py:105-108 | the test `_embeddings.size == 0` is also true for a matrix of n rows of width zero, so those rows are replaced instead of kept | `init_index(0)`, then `upsert_items([{"id": "a", "embedding": []}])` and `upsert_items([{"id": "b", "embedding": []}])`: one stored row, two index-map entries | append whenever the store has rows, keeping one index-map entry per row | low impact (dimension 0 only); not executed | FaissClient.AppendRowsAsWrittenMisaligns | FaissClient.UpsertPreservesValid |
