# Verified model of the deterministic core of `local_app.py`

`local_app.py` is a Streamlit app that turns a natural-language request into
HTTP middleware code with a language model. It also keeps a SQLite history of
past runs and retrieves similar past cases to enrich new requests. Almost all
of it is model calls and UI. The part modelled here is the deterministic
logic around those calls:

- **`EmbeddingManager._create_chunks`** (module `Embedding`). A word-boundary
  chunker. It splits the text on whitespace and charges `len(word) + 1` per
  word. It closes a chunk once the running size reaches `chunk_size`, and it
  emits any leftover words as a last chunk. `CreateChunks` keeps the
  source's loop: a `chunks` list, a `current` word list and a `currentSize`
  accumulator, reset inside the loop. It is proved equal to `Chunks`, a
  recursive specification built from `Groups` ("take the shortest prefix
  that reaches the threshold, then chunk the rest"). The lemmas then show:
  - the chunks' words, in order, are exactly `text.split()`;
  - every chunk obeys the size rule;
  - a blank text gives no chunks.
- **`RetrievalManager.retrieve_similar_cases`** (module `Retrieval`). A scan
  of the history that keeps each case whose lower-cased `input_text`
  contains any token of `query.lower().split()`. It stops after `top_k`
  matches. The bound is checked only after a case is appended, so a `top_k`
  of 0 or less still returns one match. The result is proved to be the
  first `max(top_k, 1)` matching cases, in scan order.
- **`MiddlewareDatabase`** (module `Store`). The `middleware_history` table
  as a class whose `rows` sequence `SaveResults` appends to. The row that
  `save_results` assembles is `BuildRow`, with the `.get(key, default)`
  defaults. `IsHistoryOrder` states the order `get_all_history` promises.
- **The agents' deterministic parts** (module `Agents`):
  - the `{}` fallback of `ParsingAgent.parse_natural_language`;
  - the five-category empty analysis of `MiddlewareAgent._analyze_feedback`;
  - the `"true" in answer.lower()` test of `MiddlewareAgent.verify_improvements`;
  - the 18-keyword filter of `SampleRequestAgent.generate_sample_requests`;
  - the error and default dictionaries of
    `RetrievalManager.generate_enhanced_requirements`.

Supporting modules:

- `Text`: Python's `str.lower()`, `str.split()`, `' '.join`, `in` on
  strings and `strip()` emptiness, restricted to ASCII, and the order SQLite's `ORDER BY timestamp DESC` sorts the TEXT timestamps by (BINARY collation).
- `Sequences`: order-preserving filter, prefix and sublist.
- `JsonValue`: the values `json.loads` yields.
- `Wrappers`: `Option`.

Calls the model cannot see become parameters:

- the model's reply: its text, or the outcome of `json.loads` on it (`None` for a `JSONDecodeError`);
- the current time: the `now` string;
- `json.dumps`/`json.loads`: the parameters `encode`/`decode`, with `RoundTrips` as the assumption that they invert each other.

Behaviour of the code worth noting:

- `verify_improvements` reads an answer as a yes only when it contains
  `"true"`. So "Yes, it satisfies all requirements." is a no
  (`Agents.AgreementInWordsIsNo`), and "That is not true." is a yes
  (`Agents.NegatedTrueIsYes`).
- When the reply does not parse, `parse_natural_language` returns `{}`, an
  object with no keys.
- Retrieval lower-cases the query before it splits it into tokens.

## Model

| member | source | states |
|---|---|---|
| Embedding.CreateChunks | local_app.py:494-511 | The loop's chunks equal the specified chunks; their words, in order, are `text.split()`; they obey the size rule; there are none exactly when the text is blank |
| Embedding.ChunksFacts | local_app.py:494-511 | The specified chunks, split again, give back the words of the text in order, obey the size rule, and are empty iff the text is blank |
| Embedding.Chunks | local_app.py:494-511 | Defines the chunks `_create_chunks` returns: `' '.join` of each word group; `Embedding.CreateChunks` and `Embedding.ChunksFacts` state its properties |
| Embedding.Groups | local_app.py:498-509 | Defines the word groups: a first group of `FirstChunkLength` words, then the groups of the rest; `Embedding.GroupsPartition` and `Embedding.GroupsSizes` state its properties |
| Embedding.GroupsPartition | local_app.py:498-509 | The word groups, concatenated in order, are exactly the words: nothing lost, duplicated or reordered |
| Embedding.GroupsSizes | local_app.py:500-509 | Every group is non-empty; every proper non-empty prefix of a group is under `chunk_size`; every group but the last reaches it |
| Embedding.GroupsAreWords | local_app.py:495 | Every member of every group is a whitespace-free, non-empty word when the input words are |
| Embedding.SplitEachJoinEach | local_app.py:504 | Splitting each `' '.join` of a word group gives the group back |
| Embedding.FirstChunkLength | local_app.py:500-506 | The first chunk takes at least one word and at most all of them |
| Embedding.FirstChunkLengthRule | local_app.py:502-506 | The first chunk's words reach `chunk_size` unless they are all the words, and each shorter run from the start stays under it |
| Embedding.FirstChunkLengthIs | local_app.py:502-506 | The first chunk is determined by the size rule: the unique length whose shorter prefixes are under the threshold and which reaches it or takes every word |
| Embedding.NextWord | local_app.py:500-506 | Appending the next word, and closing the chunk when its size reaches `chunk_size`, keeps the loop's state: pending words, their size, and closed chunks followed by the chunks of the rest equal all the chunks |
| Embedding.LastChunk | local_app.py:508-509 | After the loop the pending words, when there are any, are exactly the last chunk |
| Embedding.CloseChunkAt | local_app.py:503-506 | Closing the run of words that first reaches the threshold leaves the chunks of the remaining words to follow |
| Embedding.CloseChunk | local_app.py:503-506 | A first group chosen by the size rule is followed by the chunks of the remaining words |
| Embedding.PrefixesUnder | local_app.py:501-503 | Running sizes only grow as words are added, so every shorter prefix of an under-threshold run is under the threshold |
| Embedding.SizeAppend | local_app.py:502 | The accumulated size `Σ(len(w)+1)` adds up over concatenation |
| Embedding.Size | local_app.py:502 | Defines the size the chunker accumulates, `len(word) + 1` per word; `Embedding.SizeAppend` states that it adds up over concatenation |
| Text.Split | local_app.py:495 | Every element of `s.split()` is a non-empty, whitespace-free word |
| Text.SplitEmptyIffBlank | local_app.py:495 | `s.split()` is empty exactly when `s` is empty or whitespace only |
| Text.SplitJoin | local_app.py:504 | `' '.join(ws).split() == ws` for every list of words |
| Text.SplitWordThen | local_app.py:495 | A word followed by whitespace or the end of the text is the first element of the split |
| Text.WordLength | local_app.py:495 | The first word runs up to the first whitespace character |
| Text.ContainsIff | local_app.py:549-550 | The substring test `needle in hay` holds exactly when the needle occurs at some position of `hay` |
| Text.Lower | local_app.py:549 | `s.lower()` keeps the length of `s` |
| Text.Join | local_app.py:504 | Defines `' '.join(words)`; `Text.SplitJoin` states that splitting undoes it |
| Text.IsBlank | local_app.py:583 | Defines `not s.strip()`: every character is whitespace; `Text.SplitEmptyIffBlank` ties it to an empty split |
| Text.Contains | local_app.py:549 | Defines the substring test `keyword in text`; `Text.ContainsIff` states what it means |
| Text.ContainsAny | local_app.py:166 | Defines `any(keyword in text for keyword in keywords)`; `Agents.GenerateSampleRequests` and `Retrieval.RetrieveSimilarCases` use it through their match tests |
| Text.LexLe | local_app.py:70 | Defines the BINARY-collation order SQLite sorts the TEXT timestamps by; `Text.LexLeAntisymmetric` states that it is antisymmetric |
| Text.LexLeAntisymmetric | local_app.py:68-71 | Two timestamps that are each `<=` the other are equal |
| Sequences.FilterAppend | local_app.py:164-167 | Filtering a concatenation is the concatenation of the filters |
| Sequences.FilterMembers | local_app.py:164-167 | An element is kept exactly when it is in the input and passes the test |
| Sequences.FilterAllSatisfy | local_app.py:549-551 | Every kept element passes the test |
| Sequences.FilterIsSubsequence | local_app.py:548-551 | The kept elements are a sublist of the input in its order |
| Sequences.SubsequencePrefix | local_app.py:552-553 | Stopping early keeps a sublist |
| Sequences.SubsequenceMembers | local_app.py:548-551 | Every element of a sublist is an element of the whole |
| Sequences.Filter | local_app.py:163-167 | Defines the order-keeping filter the `for ... if ...: append` loops build; `Sequences.FilterAppend`, `Sequences.FilterMembers` and `Sequences.FilterIsSubsequence` state its properties |
| Sequences.Take | local_app.py:552-553 | Defines stopping after the first `n` kept elements; `Retrieval.RetrievalLimit` states its effect on the scan |
| Retrieval.RetrieveSimilarCases | local_app.py:543-555 | The result is the first `max(top_k, 1)` matching cases of the history; it is a sublist of the history in order; every case in it matches; it has at most `max(top_k, 1)` cases; it is newest first when the history is. `topK` has no default; the app calls the source with its default `top_k` of 3 |
| Retrieval.QueryTokens | local_app.py:550 | Defines the query's tokens, `query.lower().split()`; `Retrieval.NothingToRetrieve` and `Retrieval.LowerKeepsBlank` state when there are none |
| Retrieval.Matches | local_app.py:549-550 | Defines the scan's test: some query token occurs in the case's lower-cased `input_text`; `Retrieval.RetrieveSimilarCases` states that every case it returns passes it |
| Retrieval.MatchingCases | local_app.py:548-551 | Defines the cases the scan keeps when there is no bound: those whose lower-cased `input_text` contains a query token, in history order; `Retrieval.RetrievalFacts` states its properties |
| Retrieval.Limit | local_app.py:551-553 | Defines the largest number of cases the scan keeps: `top_k`, or 1 when `top_k` is below 1, since the bound is checked after an append; `Retrieval.RetrievalLimit` states its effect |
| Retrieval.ResultAtPrefix | local_app.py:551-553 | When the matches of the scanned prefix reach the limit, they are the first matches of the whole history, so breaking out there is right |
| Retrieval.RetrievalFacts | local_app.py:546-555 | The first `limit` matches are an ordered sublist of the history, all match, and keep the newest-first order |
| Retrieval.SubsequenceNewestFirst | local_app.py:68-71 | A sublist of a newest-first history is newest first |
| Retrieval.RetrievalLimit | local_app.py:551-555 | Fewer matches than the limit are returned unpadded; with `top_k <= 0` the first match alone is returned |
| Retrieval.NothingToRetrieve | local_app.py:545-550 | An empty history, or a query with no tokens, retrieves nothing |
| Retrieval.LowerKeepsBlank | local_app.py:550 | Lower-casing turns no character into or out of whitespace, so a query is tokenless iff its lower-cased form is |
| Store.BuildRowDefaults | local_app.py:49-58 | Each column is the given value, or `''` when the key is missing; the requirements column is `json.dumps` of the given requirements, or of `{}` when they are missing; the improved columns are the improved result's `improved_code` and `improved_documentation` (each `''` when missing), and both are `''` without an improved result |
| Store.BuildRow | local_app.py:49-58 | Defines the row `save_results` inserts; `Store.BuildRowDefaults` and `Store.StoredRequirementsRoundTrip` state its columns |
| Store.StoredRequirementsRoundTrip | local_app.py:52 | With a round-tripping codec, the stored requirements decode to those given, or to `{}` when none were |
| Store.LatestSavedComesFirst | local_app.py:50 | A case saved with a later timestamp than every stored row is the first row of every newest-first history |
| Store.IsHistoryOrder | local_app.py:63-74 | Defines the answers `get_all_history` may give: every row of the table once, ordered by timestamp, newest first; `Store.LatestSavedComesFirst` uses it, and `Retrieval.SubsequenceNewestFirst` uses its order half, `Store.NewestFirst` |
| Store.NewestFirst | local_app.py:68-71 | Defines newest first: no row has a later timestamp than a row before it; `Retrieval.SubsequenceNewestFirst` states that sublists keep it |
| Store.MiddlewareDatabase.constructor | local_app.py:19-38 | A new table is empty, and its first id is 1 |
| Store.MiddlewareDatabase.Valid | local_app.py:27 | Defines the `id INTEGER PRIMARY KEY AUTOINCREMENT` invariant: ids start at 1, strictly increase in insertion order and stay below the next id; the constructor and `SaveResults` keep it |
| Store.MiddlewareDatabase.SaveResults | local_app.py:40-61 | Exactly one row, built from the results with the next id, is appended; existing rows are unchanged; ids stay strictly increasing |
| Agents.ParseNaturalLanguage | local_app.py:109-114 | The parsed reply is returned as is; a reply that is not JSON gives `{}` |
| Agents.AnalyzeFeedback | local_app.py:318-327 | The parsed reply is returned as is; a reply that is not JSON gives exactly the five categories, each an empty list |
| Agents.EmptyAnalysisShape | local_app.py:321-327 | The fallback analysis has exactly the five category keys and an empty list under each |
| Agents.VerifyImprovements | local_app.py:353 | Defines the yes/no reading `"true" in answer.lower()`; `Agents.VerifyImprovementsIff` states what it means |
| Agents.VerifyImprovementsIff | local_app.py:353 | The answer is a yes exactly when "true", in any letter case, occurs in it |
| Agents.VerifyImprovementsExtends | local_app.py:353 | Any text around a yes keeps it a yes |
| Agents.VerifyImprovementsCaseBlind | local_app.py:353 | Lower-casing the answer first changes nothing |
| Agents.AgreementInWordsIsNo | local_app.py:353 | "Yes, it satisfies all requirements." is read as a no |
| Agents.FalseIsNo | local_app.py:353 | "False" is read as a no |
| Agents.NegatedTrueIsYes | local_app.py:353 | "That is not true." and "TRUE" are read as a yes |
| Agents.ShortAnswerIsNo | local_app.py:353 | An answer of fewer than four characters, the empty answer included, is a no |
| Agents.GenerateSampleRequests | local_app.py:157-174 | A reply that is not JSON gives `[]`. Otherwise the result is the filter of the samples by the 18 keywords: an ordered sublist holding exactly the samples whose lower-cased text contains a keyword |
| Agents.IsHttpRelated | local_app.py:162-166 | Defines the keyword test: some of the 18 keywords occurs in the lower-cased sample; `Agents.HttpRelatedCaseBlind` and `Agents.GenerateSampleRequests` state its use |
| Agents.HttpRelatedCaseBlind | local_app.py:165-166 | The keyword test ignores letter case |
| Agents.GenerateEnhancedRequirements | local_app.py:574-600 | Defines the result of `generate_enhanced_requirements` from the call's outcome; `Agents.EnhancedRequirementsOutcomes` states all four outcomes |
| Agents.ErrorObject | local_app.py:584 | Defines the `{"error": message}` report; `Agents.EnhancedRequirementsOutcomes` states which message each failure gives |
| Agents.EnhancedRequirementsOutcomes | local_app.py:583-600 | A failed call is reported as `{"error": "Failed to generate requirements: " + message}` and an empty or blank reply as `{"error": "Empty response received"}`; a reply that is not JSON gives intent "unknown", empty entities, requirements and constraints, and empty parameters; any other reply is returned as parsed |
| Agents.EnhancedRequirementsIsObject | local_app.py:583-600 | The result is always a dictionary, provided the replies that parse are dictionaries |
| Agents.EnhancedRequirementsRoundTrip | local_app.py:587-588 | With a round-tripping codec, a reply that is the encoding of `j` yields `j` |

## Left out

- Every `messages.create` call, and the prompts. The reply's text or its parse outcome is a parameter.
- `json.loads` and `json.dumps`. They are the parameters `decode` and `encode`, or a given `Option<Json>`. No JSON text is parsed or printed. JSON numbers are integers only.
- `datetime.now().isoformat()`. The timestamp is the parameter `now`. That timestamps increase is an assumption of `Store.LatestSavedComesFirst`, not a modelled clock.
- SQLite. The connection, commit and close plumbing and the SQL text are not modelled. The table is the in-memory `rows` sequence of `MiddlewareDatabase`, and `AUTOINCREMENT` is the `nextId` counter. The table lasts for the life of the object, not across runs.
- `get_all_history`: its `ORDER BY timestamp DESC` sort is done by SQLite and is not modelled as code. `Store.IsHistoryOrder` states what it returns: the same rows, newest first. Retrieval takes the history it scans as a parameter.
- `Store.BuildRowDefaults`: a text key (`input_text`, `code`, `documentation`, `validation`, `improved_code`, `improved_documentation`) that is present but holds `None` is treated like a missing key. The source would store NULL instead of `''`. Text values are assumed to be strings. A `requirements` value of `None` is modelled exactly, as `Some(JNull)`, which stores `encode(JNull)`, the text `null`.
- `Agents.GenerateSampleRequests`: the parsed reply is taken to be a list of strings. Other parsed values are not modelled. A JSON string is walked one character at a time, and no single character contains a keyword, so the source returns `[]`. A number, a boolean or `null` raises `TypeError`. A list with an element that is not a string raises `AttributeError`. An object has its keys filtered.
- The diagnostics shown after a parse error: the `st.error` message and the `st.write` of the raw reply in `parse_natural_language` and `generate_sample_requests`. They are display only. The model keeps only the value returned.
- `Agents.GenerateEnhancedRequirements`: the message of a caught exception is the given `message` text. Only the exceptions of the call itself are modelled.
- `SearchManager.semantic_search`. It uses a `vector_distance` SQL function and an `embeddings` table that the program never creates.
- `EmbeddingManager.create_embeddings`. It calls an undefined `_get_embedding`. Only `_create_chunks` is modelled.
- `NLPMiddlewareGenerator.generate_with_rag`. It calls the undefined `_prepare_context` and `_generate_with_context`.
- The first `DocumentationAgent`. It is shadowed by the second definition of the class, so its response normalisation is dead code.
- `generate_changes_summary` and `generate_api_documentation`. They only format model output, and they read `.text` on the response's content list.
- The Streamlit tabs, buttons, session state and the history tab's date grouping. These are presentation.
- Python's full Unicode `str.lower()` and `str.split()`. Letters are lower-cased in the ASCII range only. Whitespace is the ASCII set Python splits on: space, `\t` to `\r`, and `\x1c` to `\x1f`. `strip()` emptiness uses the same set.
