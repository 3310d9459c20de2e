# Resume similarity store — a Dafny model

This project models the core of a small resume search service. Resumes are
uploaded as text. Each one is turned into a 384-number embedding and kept in a
flat nearest-neighbour index. A parallel metadata list holds one
`{id, filename, text}` record per vector. A recruiter's job description is
embedded the same way and matched against the index.

The model covers three parts:

- **Text preparation** (`text.dfy`, module `Text`): `clean_text`,
  `truncate_text` and `preprocess`. This covers lower-casing, blanking
  everything but letters and whitespace, collapsing whitespace runs, stripping,
  and Python's `str.split()` / `" ".join`, including the semantics of the
  `words[:max_words]` slice.
- **The store** (`store.dfy`, module `VectorStore`):
  - `add_resume`;
  - `search_resumes`, meaning overfetch `min(top_k*5, N)`, score each candidate
    with `round(1/(1+d), 4)`, keep scores at or above the threshold, stop at
    `top_k`, then sort by descending score;
  - `get_all_resumes`;
  - `delete_resume`, meaning filter out the file name, renumber the ids and
    rebuild the index by re-embedding the stored text;
  - `clear_all`.

  Two helper modules support it:
  - `flat_index.dfy` (module `FlatIndex`) has the index's squared-L2 distance
    and the contract of its exact k-nearest search, together with a selection
    search that meets that contract.
  - `score.dfy` (module `Scoring`) turns a distance into a score. Python's
    `round(x, 4)` is modelled as round-half-to-even on exact reals.
- **The session copy** (`session.dfy`, module `Session`): the single-page
  application keeps its own store in the user session.
  - `_init_store` creates the store lazily on first use.
  - Search always uses the threshold `MIN_SCORE` = 0.4.
  - Text is prepared with the default cap of 512 words.
  - The upload path refuses a file name that is already in the pool, and a
    file with no text.

A store is an immutable value: `Store(index, meta)`. Every mutating operation
returns a new one, so "the stored metadata is not modified by a search" holds
by construction. The store invariant is `Valid`: there are as many records as
vectors, and record `i` carries id `i`.

Three external pieces are passed in as arguments:

- **The embedding model** is a function `string -> Embedding`, where an
  Embedding is a sequence of 384 reals.
- **The index's own k-nearest search** is passed as its answer. `Search`
  receives the candidates and requires `CandidatesFor`: when the index is
  asked, the candidates are a valid k-nearest answer (`IsKNearest`).
- **The chosen upload**, with its extracted text, is an `Option<Upload>`.

Where the code handles a case, the model does too:

- A vector of the wrong length is refused by the index. This gives
  `Err(DimensionMismatch)`.
- A non-positive `top_k` on a non-empty index makes the index refuse the
  request. This gives `Err(NonPositiveCount)`.
- The order of the checks follows the code:
  - an empty index answers `[]` before anything else;
  - then the query length is checked;
  - then the count.

The store itself accepts a second resume with a file name it already holds:
`add_resume` appends without looking, so `VectorStore.Add` does too. Only the
application's upload path (`Session.Submit`, app.py:148-151) refuses a name
already in the pool, and `Session.SubmitKeepsNamesUnique` proves that this
guard keeps names unique. `delete_resume` removes every record carrying the
name, duplicates included.

Deletion rebuilds each surviving vector from the record's stored 1000-character
preview of the original text. Upload embeds the prepared (cleaned, truncated)
full text instead. The model states which text each vector comes from:
`Session.Submit` gives `embed(PrepareText(text))` and `VectorStore.Delete`
gives `embed(record.text)`. The embedder is uninterpreted, so the model does not
claim that the two give the same vector.

## Model

| member | source | states |
|---|---|---|
| Text.IsSpace | helpers.py:5-7 | no contract of its own: the whitespace set shared by `\s`, `split()` and `strip()` restricted to ASCII (tab, line feed, vertical tab, form feed, carriage return, the separators 28-31 and the space); its consequences are stated in `Text.TrimStart`, `Text.TrimEnd`, `Text.Collapse` and `Text.Words` |
| Text.ToLower | helpers.py:4 | ASCII lower-casing: an upper-case letter becomes the lower-case letter at the same place in the alphabet (`A` to `a`, ..., `Z` to `z`); every other character is unchanged |
| Text.LowerAll | helpers.py:4 | `text.lower()` keeps the length and lower-cases each character on its own, as `Text.ToLower` states |
| Text.BlankNonLetters | helpers.py:5 | the result holds only lower-case letters and whitespace; a position is kept exactly when it was already a lower-case letter or whitespace, and every other position becomes a plain space |
| Text.Collapse | helpers.py:6 | `re.sub(r"\s+", " ")`: the words of `split()` are exactly those of the input, so no word is glued to another, split, dropped or added; the output is empty only for empty input, starts and ends with a space exactly when the input starts and ends with whitespace, never has two spaces in a row and has no whitespace other than the plain space |
| Text.CollapseKeepsNonSpace | helpers.py:6 | collapsing whitespace leaves the sequence of non-whitespace characters untouched |
| Text.CollapseFixesSingleSpaced | helpers.py:6 | a string of letters and single spaces is a fixed point of the whitespace collapse |
| Text.TrimStart | helpers.py:7 | `lstrip`: the result is a suffix of the input, everything dropped is whitespace, and the result does not start with whitespace |
| Text.TrimEnd | helpers.py:7 | `rstrip`: the result is a prefix of the input, everything dropped is whitespace, and the result does not end with whitespace |
| Text.Strip | helpers.py:7 | the stripped string neither starts nor ends with whitespace, and it is empty exactly when the input is all whitespace |
| Text.StripIsSlice | helpers.py:7 | `strip` keeps the middle of the input unchanged: the result is `s[a..a+len]` where `a` is the first non-whitespace position, and everything before and after it is whitespace |
| Text.StripKeepsWords | helpers.py:7 | stripping keeps the words of `split()` exactly |
| Text.StripKeepsShape | helpers.py:7 | stripping a string of letters and single spaces gives the canonical clean shape |
| Text.CleanText | helpers.py:3-7 | no contract of its own: the four steps in order; its properties are stated in `Text.CleanTextIsCanonical`, `Text.CleanTextKeepsLetters`, `Text.CleanTextWords`, `Text.CleanTextFixesCanonical` and `Text.CleanTextIdempotent` |
| Text.CleanTextIsCanonical | helpers.py:3-7 | `clean_text` output holds only `a`-`z` and spaces, with no leading, trailing or doubled space |
| Text.CleanTextKeepsLetters | helpers.py:3-7 | the non-space characters of `clean_text` output are exactly the input's ASCII letters, lower-cased, in order |
| Text.CleanTextFixesCanonical | helpers.py:3-7 | `clean_text` returns an already clean string unchanged |
| Text.CleanTextIdempotent | helpers.py:3-7 | `clean_text(clean_text(t)) == clean_text(t)` for every input |
| Text.CleanTextWords | helpers.py:3-7 | the words of `clean_text(t)` are exactly the words of `t` lower-cased with every character other than `a`-`z` and whitespace turned into a space |
| Text.TakeWord | helpers.py:10 | the first word of `split()` is the longest whitespace-free prefix |
| Text.Words | helpers.py:10 | `str.split()` yields non-empty words with no whitespace in them |
| Text.WordsOfLowerOrSpace | helpers.py:10 | splitting text made of lower-case letters and whitespace yields words of lower-case letters |
| Text.Join | helpers.py:12 | no contract of its own: `" ".join(words)`; its properties are stated in `Text.WordsOfJoin`, `Text.JoinOfWords`, `Text.JoinIsSingleSpaced` and `Text.JoinIsCanonical` |
| Text.WordsOfJoin | helpers.py:10-12 | splitting `" ".join(words)` gives the words back, for any list of words |
| Text.JoinOfWords | helpers.py:10-12 | the other direction of the round trip: for clean text, `" ".join(text.split())` is the text itself |
| Text.JoinIsSingleSpaced | helpers.py:12 | `" ".join` of words has no whitespace but single plain spaces between words, and none at either end |
| Text.JoinIsCanonical | helpers.py:12 | joining lower-case words with single spaces gives a clean string |
| Text.SliceEnd | helpers.py:12 | how many items Python's `words[:max_words]` keeps: `min(max_words, n)` for a non-negative cap, and `n + max_words` floored at 0 for a negative one, never more than `n` |
| Text.Truncate | helpers.py:9-13 | input with at most `max_words` words is returned unchanged; otherwise the result's words are the first `max_words` words (exactly `max_words` of them when that is non-negative), separated by single plain spaces with none at either end |
| Text.TruncateKeepsCanonical | helpers.py:9-13 | truncating a clean string leaves it clean |
| Text.TruncateKeepsWordPrefix | helpers.py:9-13 | truncation keeps a prefix of the words and never more than `max_words` |
| Text.TruncateKeepsSlicedWords | helpers.py:9-13 | on both sides of the cap the result's words are exactly `words[:max_words]` of the input |
| Text.Preprocess | helpers.py:15-16 | `preprocess` output is clean and its words are exactly `words[:max_words]` of the cleaned text, so at most `max_words` of them; when the cap is not reached its letters are the input's letters, lower-cased, in order |
| Scoring.RawScore | vector_store.py:76 | `1/(1+d)` lies in (0, 1] and equals 1 exactly at distance 0 |
| Scoring.RawScoreAntitone | vector_store.py:76 | the raw score never rises as distance grows, and strictly falls when distance strictly grows |
| Scoring.RoundHalfEven | vector_store.py:76 | rounding lands within one half of its argument and picks the even neighbour on an exact tie |
| Scoring.RoundHalfEvenMonotone | vector_store.py:76 | rounding to an integer is monotone |
| Scoring.Round4 | vector_store.py:76 | `round(x, 4)` lies within 0.00005, half a unit in the fourth decimal, of `x` |
| Scoring.Round4Decimals | vector_store.py:76 | `round(x, 4)` has at most four decimal places |
| Scoring.Round4Monotone | vector_store.py:76 | `round(x, 4)` is monotone |
| Scoring.Score | vector_store.py:76 | the rounded score lies in [0, 1], is 1.0 at distance 0, and is within 0.00005 (half a unit in the fourth decimal) of `1/(1+d)` |
| Scoring.ScoreAntitone | vector_store.py:76 | the rounded score never rises as distance grows, so candidates in ascending distance order come in descending score order |
| FlatIndex.SqDist | vector_store.py:71 | the squared Euclidean distance that an `IndexFlatL2` reports; never negative |
| FlatIndex.IsKNearest | vector_store.py:71 | no contract of its own: what `index.search(vec, k)` returns, namely `k` distinct in-range positions carrying their true distances, nearest first, with no position left out nearer than any returned; ties in any order |
| FlatIndex.SqDistSelf | vector_store.py:71 | every vector is at squared distance 0 from itself |
| FlatIndex.NearestOf | vector_store.py:71 | picks a remaining position whose distance is minimal, the first such one when several tie |
| FlatIndex.FlatSearch | vector_store.py:71 | an exact search returns `k` distinct in-range positions with true distances, nearest first, and no left-out position is nearer |
| VectorStore.Preview | vector_store.py:46 | `text[:1000]` is the prefix of length `min(len(text), 1000)` |
| VectorStore.Add | vector_store.py:37-49 | a vector of the wrong length is refused; otherwise index and metadata each grow by one, earlier entries are unchanged, and the new record has id `ntotal - 1` (the old count), the file name and the 1000-character preview; the store invariant is kept |
| VectorStore.CandidatesFor | vector_store.py:65-71 | no contract of its own: the index is consulted only when it is non-empty, the query has the index's length and `min(top_k*5, N)` is positive, and then its answer is a valid k-nearest answer for `k = min(top_k*5, N)` |
| VectorStore.FetchCount | vector_store.py:70 | `min(top_k*5, N)` never exceeds the index size or five times `top_k` |
| VectorStore.HitFor | vector_store.py:76-81 | no contract of its own: the row for one candidate, a copy of the stored record at its position with the rounded score of its distance; `VectorStore.HitsAreTrue` states what the returned rows are |
| VectorStore.Qualifying | vector_store.py:74-82 | reference filter: every candidate's row whose score reaches the threshold, in candidate order |
| VectorStore.Collect | vector_store.py:73-86 | the search loop returns at most `top_k` rows, extends what it already had, and keeps only rows at or above the threshold |
| VectorStore.CollectIsCappedFilter | vector_store.py:73-86 | the loop with early exit equals "filter by threshold, then keep the first `top_k`" |
| VectorStore.InsertByScore | vector_store.py:88 | inserting into a list sorted by descending score keeps it sorted and adds exactly that row |
| VectorStore.SortByScore | vector_store.py:88 | the final sort returns a permutation of its input in descending score order |
| VectorStore.SortFixesSorted | vector_store.py:88 | the final sort leaves a list already in descending score order unchanged, which is the only kind of list the search hands it (`QualifyingSorted`) |
| VectorStore.QualifyingSorted | vector_store.py:74-82 | candidates nearest first give kept rows in descending score order |
| VectorStore.Rows | vector_store.py:73-88 | no contract of its own: the collect loop followed by the sort; `VectorStore.SortKeepsCollected` states that it equals the first `top_k` qualifying rows |
| VectorStore.SortKeepsCollected | vector_store.py:73-88 | the search's rows are exactly the first `top_k` qualifying candidates in candidate order: sorted, above threshold, capped |
| VectorStore.Search | vector_store.py:51-89 | an empty index gives `[]`; a wrong-length query or a non-positive `top_k` is refused by the index; otherwise the rows are exactly the first `top_k` fetched candidates whose score reaches the threshold, in candidate order: at most `top_k`, all at or above the threshold, in descending score order; each row is an unchanged copy of the stored record whose score is that of its own vector's distance to the query |
| VectorStore.HitsAreTrue | vector_store.py:80-82 | every returned row is the stored record at its id, with the score of that vector's distance to the query |
| VectorStore.SearchMissesNothingBelowCap | vector_store.py:79-86 | when fewer than `top_k` rows come back, every fetched candidate scoring at or above the threshold is among them |
| VectorStore.AddThenSearchOwnVector | vector_store.py:37-89 | a resume added to an empty store is the only result of a search with its own vector, at score 1.0 |
| VectorStore.AllRecords | vector_store.py:91-92 | the listed records number one per vector and carry their positions as ids |
| VectorStore.Without | vector_store.py:97 | the filter keeps only records with another file name, all taken from the original list |
| VectorStore.WithoutLength | vector_store.py:97-100 | the filter drops exactly the records carrying the name, so the length is unchanged exactly when none carries it |
| VectorStore.WithoutDistributes | vector_store.py:97 | filtering a concatenation filters each part, so survivors keep their order |
| VectorStore.Renumber | vector_store.py:109 | the survivors keep their order and length, and each gets its new position as id |
| VectorStore.Reembed | vector_store.py:106-108 | the rebuilt index holds one vector per survivor, the embedding of that survivor's stored text |
| VectorStore.Delete | vector_store.py:94-114 | the answer is true exactly when some record has the name; if false the store is unchanged; if true the invariant holds, no record has the name, every duplicate is gone, and each vector is the embedding of its record's stored text |
| VectorStore.DeleteKeepsOrder | vector_store.py:97-110 | survivors keep their relative order and reappear renumbered by their new positions |
| VectorStore.DeleteKeepsSurvivor | vector_store.py:97-110 | every record with another file name is still there after a deletion, renumbered by its new position |
| VectorStore.DeleteKeepsOnlySurvivors | vector_store.py:97-110 | every record after a deletion is an earlier record with another file name, renumbered by its new position |
| VectorStore.WithoutAbsent | vector_store.py:97-98 | when no record carries the name, the filter keeps the metadata list exactly as it is |
| VectorStore.AddThenDeleteRestoresRecords | vector_store.py:94-110 | adding a resume under a name not yet in the store and then deleting that name reports a deletion and gives back the original metadata list |
| VectorStore.DeletedStoreScoresSelfAsOne | vector_store.py:106-108 | after a deletion each survivor is at distance 0, score 1.0, from the embedding of its own stored text |
| VectorStore.Clear | vector_store.py:116-119 | `clear_all` leaves an empty index and empty metadata that satisfy the invariant |
| Session.InitStore | app.py:53-57 | `_init_store` creates an empty store only when the session has none and leaves an existing one alone |
| Session.PrepareText | app.py:26-37 | the application's `preprocess` gives clean text whose words are exactly the first 512 of the cleaned text's words (all of them when there are fewer) |
| Session.SessionAdd | app.py:59-68 | the session add appends the given vector to the index and a record with id `ntotal - 1`, the file name and the 1000-character preview to the metadata, earlier entries unchanged |
| Session.SessionSearch | app.py:70-94 | an empty index gives `[]`; otherwise the rows are exactly the first `top_k` fetched candidates reaching `MIN_SCORE`, at most `top_k`, in descending score order, each the stored record with its true score |
| Session.SessionRecords | app.py:96-98 | listing a fresh session gives no records; listed records carry their positions as ids |
| Session.SessionDelete | app.py:100-118 | the answer is true exactly when the name is present; if false the store is unchanged; if true the name is gone, the invariant holds, the count drops by the number of records carrying the name, and each new vector is the embedding of its record's stored text |
| Session.SessionDeleteKeepsOrder | app.py:104-114 | survivors of a session delete keep their relative order and reappear renumbered by their new positions |
| Session.SessionDeleteKeepsSurvivor | app.py:104-114 | every record with another file name is still in the session store after a delete, renumbered by its new position |
| Session.SessionDeleteKeepsOnlySurvivors | app.py:104-114 | every record in the session store after a delete is an earlier record with another file name, renumbered by its new position |
| Session.SessionClear | app.py:120-123 | clearing leaves an empty, valid store |
| Session.Submit | app.py:144-166 | no file (and only then): nothing happens; a name already in the pool, or text that strips to empty, is refused with the store as `_init_store` left it; otherwise the store gains the record (original text's preview) and the embedding of the prepared text |
| Session.FileNames | app.py:149 | the list of existing names has one entry per record, the record's file name at the same position |
| Session.AppendKeepsNamesUnique | app.py:150-165 | appending a record whose name is not in the pool keeps names unique |
| Session.SubmitKeepsNamesUnique | app.py:149-151 | the duplicate guard keeps file names unique across every upload |
| Session.WithoutKeepsNamesUnique | app.py:104 | filtering by file name keeps names unique |
| Session.DeleteKeepsNamesUnique | app.py:100-118 | deleting keeps file names unique |
| Session.ClearKeepsNamesUnique | app.py:120-123 | a cleared pool has unique names |

## Left out

- Persistence is not modelled. This covers reading and writing the index and
  metadata files, lazy loading, and `_get_meta` reloading from disk whenever
  the in-memory list is empty. A store here lives only in memory.
- Arithmetic is not floating point. Distances and scores are exact reals,
  vectors are sequences of reals, and no 32-bit float rounding is modelled.
  Python's `round(x, 4)` is rounding half-to-even of the exact real value.
- The index's internals are not modelled. Its search is an argument
  constrained by `IsKNearest`, and the order among equal distances is left
  open. `FlatIndex.FlatSearch` shows the contract can be met.
- The embedding model is not modelled. It is an uninterpreted function
  argument, and nothing is claimed about which vectors it produces.
- PDF and TXT text extraction is not modelled. The extracted text is an
  argument.
- The web routes, the page layout, the recruiter form and the CSV export are
  not modelled. They are transport and display glue. Only the upload button's
  duplicate guard is modelled.
- Concurrency is not modelled. Both copies of the store are single-threaded.
- Unicode is handled only as far as ASCII. Non-ASCII case mapping, such as the
  Kelvin sign or dotted capital I, is not modelled, and neither is non-ASCII
  whitespace. Non-ASCII characters are treated as non-letters, which
  `clean_text` blanks.
- The `idx < len(meta)` guard in the search loop is not modelled. The index
  never returns an out-of-range position when `k <= N`, so the model states
  in-range candidates as a precondition instead.
- The order of effects inside `delete_resume` is not modelled. The file
  version replaces the global index before re-embedding, and the session
  version swaps in the new store at the end. When at least one record
  survives and the embedder returns, both end in the state `VectorStore.Delete`
  states.
- Deleting the last remaining resume(s) in the file version is not modelled as
  the code behaves. vector_store.py:104 empties `_meta`; `_save_meta` then opens
  the metadata file for writing, which truncates it, and calls `_get_meta`,
  which sees an empty list and re-reads the now-empty file (vector_store.py:25-27),
  so the JSON reader fails and `delete_resume` raises instead of returning
  `True`, leaving the file empty so that later loads fail too until
  `clear_all`. This is a persistence effect; `VectorStore.Delete` gives the
  in-memory result, an empty valid store, which is what the session copy
  (app.py:100-118) produces.
- The default `top_k=10` of both search functions (vector_store.py:51,
  app.py:70) is not modelled: every caller here passes `top_k` explicitly, as
  the recruiter page does with its slider value (app.py:178-190).
- FlatIndex.SqDistSelf: proves only that distance zero holds between a vector
  and itself, not the converse, so the model does not claim that only an
  identical vector scores 1.0. It cannot: rounding to four decimals maps small
  non-zero distances to 1.0 as well.
