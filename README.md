# Legal AI backend: text-analysis engine, in Dafny

This project models the analysis core of a small legal-document backend and proves properties of that model. The core has three parts:

- the clause classifier and heuristic what-if analyser of `app/services/whatif.py`;
- the extractive summarizer of `app/services/summarizer.py`;
- the in-memory document store and two pieces of route logic in `app/main.py`.

Modules, one per concern:

- `Wrappers`: `Option` and `Result`.
- `Strings`: the Python `str` operations the core uses.
  - `strip()` over Python's `isspace` code points, and `lstrip(chars)`.
  - ASCII `lower()`.
  - Substring search (`p in s`), `sep.join(parts)` and `s.split(sep)`.
  - Lemmas that relate these operations to each other.
- `Summarizer`: covers `sentence_split` over the tokenizer's pieces, `STOPWORDS`, `normalize` (the `[A-Za-z']+` tokenizer plus its filter), the `Counter` frequency table and the per-sentence score. It also holds `extractive_summary` as a method, and its specification function `Summary` with the lemmas about it.
- `Ranking`: the two stable `sorted` calls of `extractive_summary`.
  - They are modelled as stable insertion sorts over `(score, idx, sentence)` entries.
  - Top-k selection and the re-ordering by index are proved from them.
- `WhatIf`: the six clause buckets and their patterns, and `extract_clauses` as a nested loop filling a map of lists.
  - The first-match keyword ladder of `heuristic_whatif`, and the two analysis templates.
  - `heuristic_whatif` itself as a loop.
- `Reply`: the tail of `whatif_llm`. It splits the reply on `"\n- "`, cleans each block with `strip().lstrip("- ").strip()`, drops empty blocks and falls back to the whole reply.
- `SampleAgreement`: a worked three-sentence agreement run through the clause buckets of `extract_clauses`.
- `App`:
  - `DocumentStore` is a class with a `map<string, Record>` field.
  - Text resolution for `/summarize` and `/whatif`.
  - The `/whatif` merge of reply items with the request's hypotheticals.
  - The `/whatif` route as a function of the reply.

The loops of the source are methods proved against specification functions:

- `ExtractClauses` and `AppendMatching` against `BucketSentences`;
- `HeuristicWhatIf` against `HeuristicItems`;
- `CountWords` and `Update` against the multiset of all normalized words;
- `ScoreSentences` against `Scores`;
- `ExtractiveSummary` against `Summary`;
- `CollectBlocks` and `ParseReply` against `ParsedItems`.

The properties of the source are proved about those functions.

One behaviour of the code is worth noting. A reply block can still begin with `-` after cleaning. `lstrip("- ")` stops at the first character outside `{'-', ' '}`, and the final `strip()` can then expose another dash. `Reply.CleanBlockCanStartWithDash` shows this for the block `"-\t-x"`, which cleans to `"-x"`. The model follows the code. What it proves is only that a kept block is non-empty and has no whitespace at either end (`Reply.ParsedItemsShape`).

## Model

| member | source | states |
|---|---|---|
| Strings.StripEmptyIff | app/services/summarizer.py:18 | `s.strip()` is empty exactly when every character of `s` is whitespace, so the filter drops exactly the blank pieces |
| Strings.StripIdempotent | app/services/summarizer.py:18 | stripping a stripped string changes nothing |
| Strings.Strip | app/services/summarizer.py:18 | `strip()` returns a string with no whitespace at either end, no longer than its input |
| Strings.StripOffset | app/services/summarizer.py:18 | `strip()` returns the slice of its input that only whitespace precedes and only whitespace follows, so nothing inside it is removed |
| Strings.LStripChars | app/services/whatif.py:75 | `lstrip(chars)` drops a prefix made only of characters in `chars` and returns the rest, which is empty or starts with a character outside `chars` |
| Strings.Lower | app/services/whatif.py:28 | `lower()` keeps the length and lower-cases each character on its own: an upper-case ASCII letter becomes the letter 32 code points above it, any other character is kept |
| Strings.Split | app/services/whatif.py:74 | `split(sep)` gives at least one piece, and no piece contains the separator |
| Strings.JoinSplit | app/services/whatif.py:74 | joining the pieces of `split(sep)` with `sep` gives back the original string |
| Strings.ContainsIff | app/services/whatif.py:30 | `k in lower` holds exactly when `k` occurs at some position of `lower` |
| Strings.Contains | app/services/whatif.py:30 | a string contained in another is no longer than it, and the empty string is contained in every string |
| Strings.Join | app/services/summarizer.py:50 | `" ".join` of no parts is `""`, of one part is that part, and is never shorter than its first part |
| Strings.LowerJoin | app/services/whatif.py:20 | lower-casing the words one by one and joining them with spaces gives the lower-cased sentence |
| Strings.WordsMiss | app/services/whatif.py:20 | a space-free alternative that every word fails to hold, by being shorter or by lacking one of two of its characters, does not occur in the words joined by spaces |
| Strings.FirstWordAbsent | app/services/whatif.py:20 | the same holds when the first word fails only by not containing the alternative |
| Summarizer.SentenceSplit | app/services/summarizer.py:16-19 | no more sentences than tokenizer pieces; every sentence is non-empty and has no whitespace at either end |
| Summarizer.SentenceSplitMembers | app/services/summarizer.py:18 | a string is a sentence exactly when it is non-empty and is the stripped form of some piece |
| Summarizer.SentenceSplitIdempotent | app/services/summarizer.py:16-19 | splitting the output of `sentence_split` again changes nothing |
| Summarizer.SentenceSplitConcat | app/services/summarizer.py:18 | the comprehension keeps the pieces' order: the sentences of two runs of pieces are those of the first run, then those of the second |
| Summarizer.Tokens | app/services/summarizer.py:24 | every token found is a non-empty run of `[A-Za-z']` |
| Summarizer.TokensOfWord | app/services/summarizer.py:24 | a word followed by the end or by a non-word character is found as one token, and the search then goes on after it |
| Summarizer.TokensOfNonWord | app/services/summarizer.py:24 | a string without word characters has no tokens |
| Summarizer.TokensSplit | app/services/summarizer.py:24 | a non-word character separates the tokens: those left of it, then those right of it |
| Summarizer.KeepContent | app/services/summarizer.py:25 | the comprehension keeps no more tokens than it is given, and each kept token is one of them, longer than 2 and not a stopword |
| Summarizer.KeepContentConcat | app/services/summarizer.py:25 | the comprehension keeps order and repeats: filtering two runs of tokens gives the kept tokens of the first run, then those of the second |
| Summarizer.KeepContentSingle | app/services/summarizer.py:25 | a single token is kept exactly when it is longer than 2 and not a stopword |
| Summarizer.KeepContentMembers | app/services/summarizer.py:25 | a token survives the comprehension exactly when it is among the tokens, is longer than 2 and is not a stopword |
| Summarizer.Normalize | app/services/summarizer.py:23-25 | every output word is longer than 2, is not in `STOPWORDS`, and has only lower-case letters and apostrophes |
| Summarizer.NormalizeMembers | app/services/summarizer.py:23-25 | a word is in `normalize(text)` exactly when it is a token of `text.lower()`, longer than 2 and not a stopword |
| Summarizer.NormalizeSplit | app/services/summarizer.py:23-25 | a character outside `[A-Za-z']` splits `normalize`: the content words before it, in order and with repeats, then those after it |
| Summarizer.NormalizeWord | app/services/summarizer.py:23-25 | a single word normalizes to its lower-cased form when that is kept, and to nothing otherwise |
| Summarizer.TokensOfJoin | app/services/summarizer.py:24 | tokenizing non-empty words joined by single spaces gives back the words |
| Summarizer.NormalizeIdempotent | app/services/summarizer.py:23-25 | normalizing the space-joined output of `normalize` reproduces that output |
| Summarizer.Frequencies | app/services/summarizer.py:32-34 | the table holds every normalized word of every sentence with its number of occurrences, and no other key |
| Summarizer.CountsUnique | app/services/summarizer.py:32-34 | two tables that count the same multiset are equal |
| Summarizer.FrequenciesEmpty | app/services/summarizer.py:36 | the table is empty exactly when no sentence has a content word |
| Summarizer.Update | app/services/summarizer.py:34 | `Counter.update(words)` adds one to a word's count for each of its occurrences |
| Summarizer.CountWords | app/services/summarizer.py:32-34 | the loop builds the table of all normalized words of all sentences |
| Summarizer.Score | app/services/summarizer.py:43-45 | a sentence none of whose words has a count scores 0; when the `math.exp` term of the position bonus is non-negative, so is the score |
| Summarizer.Scores | app/services/summarizer.py:40-46 | one entry per sentence, in document order; entry `i` carries index `i` and sentence `i` |
| Summarizer.ScoreSentences | app/services/summarizer.py:40-46 | the `enumerate` loop builds exactly the `scores` list |
| Summarizer.Summary | app/services/summarizer.py:27-50 | the summary is `""` exactly when the text has no sentence or `k` is 0 |
| Summarizer.ExtractiveSummary | app/services/summarizer.py:27-50 | the method returns the summary that `Summary` specifies |
| Summarizer.SummaryOfNoSentences | app/services/summarizer.py:28-30 | no sentences give the empty summary |
| Summarizer.SummaryWithoutContentWords | app/services/summarizer.py:36-37 | when no sentence has a content word, the summary is the first `k` sentences joined by single spaces |
| Summarizer.SummaryWithContentWords | app/services/summarizer.py:39-50 | when some sentence has a content word, the summary joins the sentences of the top `k` entries re-sorted by index |
| Summarizer.EmittedSentences | app/services/summarizer.py:49 | the emitted sentences are the sentences at the selected indices |
| Summarizer.EmittedJoinsTopSentences | app/services/summarizer.py:48-50 | emitting the top entries joins `min(k, n)` sentences at strictly increasing indices; each scores at least as much as every sentence left out, and ties keep the earlier sentence |
| Summarizer.SummarySelectsTopSentences | app/services/summarizer.py:40-50 | with content words, `extractive_summary` joins `min(k, n)` distinct sentences in document order that outrank every sentence left out, ties going to the lower index |
| Summarizer.SummaryOfShortDocument | app/services/summarizer.py:48-50 | a document of at most `k` sentences summarizes to all of its sentences, in order |
| Ranking.InsertByScore | app/services/summarizer.py:48 | insertion adds exactly the new entry: one longer, and a permutation of the old list plus the entry |
| Ranking.SortByScore | app/services/summarizer.py:48 | the descending sort is a permutation of its input |
| Ranking.InsertByIdx | app/services/summarizer.py:49 | insertion by index adds exactly the new entry: one longer, and a permutation of the old list plus the entry |
| Ranking.SortByIdx | app/services/summarizer.py:49 | the ascending sort by index is a permutation of its input |
| Ranking.InsertByScoreRanked | app/services/summarizer.py:48 | inserting an entry with a larger index than all others after every entry scoring at least as much keeps the list ranked |
| Ranking.SortByScoreRanked | app/services/summarizer.py:48 | the stable descending sort of an index-ordered list orders by score, then by earlier index on equal scores |
| Ranking.InsertByIdxIncreasing | app/services/summarizer.py:49 | inserting an entry with a new index into an index-increasing list keeps indices strictly increasing |
| Ranking.SortByIdxIncreasing | app/services/summarizer.py:49 | sorting entries with distinct indices by index makes indices strictly increase |
| Ranking.Top | app/services/summarizer.py:48 | `[:max_sentences]` keeps `min(k, n)` entries of the descending sort |
| Ranking.Emitted | app/services/summarizer.py:48-49 | re-sorting the top entries by index emits `min(k, n)` entries |
| Ranking.TopDistinct | app/services/summarizer.py:48 | the top `k` entries carry distinct indices |
| Ranking.EmittedFromTop | app/services/summarizer.py:48-49 | every emitted entry is one of the first `min(k, n)` entries of the descending sort |
| Ranking.TopIsEmitted | app/services/summarizer.py:48-49 | every one of the first `min(k, n)` entries of the descending sort is emitted |
| Ranking.EmittedAreOriginal | app/services/summarizer.py:49 | each emitted entry is the entry of the original list at its own index |
| Ranking.EmittedIncreasing | app/services/summarizer.py:49 | emitted entries come in strictly increasing index order |
| Ranking.EmittedOutranks | app/services/summarizer.py:48 | each emitted entry outranks every entry that is not emitted |
| Ranking.SelectionShape | app/services/summarizer.py:48-49 | exactly `min(k, n)` entries are emitted; they are entries of the list at strictly increasing indices |
| Ranking.SelectionProperties | app/services/summarizer.py:40-49 | the shape above, plus: every selected entry scores at least as much as every unselected one, and on equal scores the selected index is lower |
| Ranking.AllSelectedWhenFew | app/services/summarizer.py:48-49 | when `n <= k` the selection is `0..n-1` and the emitted list is the whole list |
| WhatIf.Bucket.Name | app/services/whatif.py:6-13 | every bucket is reported under one of the six keys of `CLAUSE_HINTS` |
| WhatIf.Hints | app/services/whatif.py:6-13 | every pattern has at least one alternative, and every alternative is at least three characters long |
| WhatIf.Matches | app/services/whatif.py:20 | a sentence shorter than three characters matches no pattern |
| WhatIf.NamesDistinct | app/services/whatif.py:6-13 | distinct buckets have distinct keys |
| WhatIf.BucketSentences | app/services/whatif.py:18-21 | a bucket never holds more sentences than the document has |
| WhatIf.MatchIndicesPickBucket | app/services/whatif.py:18-21 | bucket entry `j` is the sentence at listed position `j`; listed positions are in range and strictly increase |
| WhatIf.MatchIndicesComplete | app/services/whatif.py:18-21 | a position is listed exactly when its sentence matches the bucket's pattern |
| WhatIf.BucketIsMatchingSubsequence | app/services/whatif.py:18-21 | each bucket is the in-order subsequence of exactly the matching sentences, each sentence taken at most once |
| WhatIf.BucketMembers | app/services/whatif.py:18-21 | a sentence is in a bucket exactly when it is in the document and matches; buckets overlap freely |
| WhatIf.BucketEmptyIff | app/services/whatif.py:17-21 | a bucket is empty exactly when no sentence of the document matches its pattern |
| WhatIf.CoffeeMatchesPayment | app/services/whatif.py:20 | matching is by substring: a sentence mentioning "coffee" is a payment clause |
| WhatIf.ThreeClauseDocument | app/services/whatif.py:9-12 | sentences mentioning "terminate", "Confidential" and "Governing law" land in the termination, confidentiality and jurisdiction buckets |
| WhatIf.AppendStep | app/services/whatif.py:19-21 | one step of the inner loop appends `s` to the next bucket exactly when it is hit, and leaves the other buckets alone |
| WhatIf.AppendMatching | app/services/whatif.py:19-21 | the inner loop appends the sentence to every bucket it matches and to no other |
| WhatIf.ExtractClauses | app/services/whatif.py:15-22 | all six buckets are present, even for an empty text, and each holds exactly its bucket's sentences |
| WhatIf.FirstMatch | app/services/whatif.py:30-41 | no bucket is chosen exactly when no rule fires; otherwise the chosen bucket is that of the first rule that fires |
| WhatIf.ChosenBucket | app/services/whatif.py:30-41 | no bucket is chosen exactly when none of the six keyword groups fires |
| WhatIf.ChosenBucketIsLadder | app/services/whatif.py:30-41 | the choice is the `if`/`elif` ladder: payment, termination, liability, confidentiality, jurisdiction, ip, else none |
| WhatIf.Relevant | app/services/whatif.py:29-41 | there are never more relevant sentences than the document has |
| WhatIf.RelevantSentences | app/services/whatif.py:29-41 | with no keyword group firing nothing is relevant; otherwise a sentence is relevant exactly when it is in the document and matches the chosen bucket |
| WhatIf.Analysis | app/services/whatif.py:43-46 | with relevant clauses the analysis quotes the hypothetical |
| WhatIf.HeuristicItems | app/services/whatif.py:26-48 | one answer per hypothetical, in input order |
| WhatIf.HeuristicItemsSnoc | app/services/whatif.py:27-47 | one more hypothetical appends exactly its answer to the results |
| WhatIf.RelevantClauses | app/services/whatif.py:29-41 | the ladder over the clause table yields the chosen bucket's sentences, or nothing |
| WhatIf.AnalyzeOne | app/services/whatif.py:28-47 | the loop body builds the answer for one hypothetical |
| WhatIf.HeuristicWhatIf | app/services/whatif.py:24-48 | exactly one item per hypothetical, in order, each carrying its hypothetical verbatim and its answer |
| WhatIf.AnalysisIsFallbackIff | app/services/whatif.py:43-46 | the analysis is the fallback text exactly when nothing is relevant |
| WhatIf.TemplateQuotes | app/services/whatif.py:46 | the snippet template contains the hypothetical and everything the snippet contains |
| WhatIf.AnalysisQuotes | app/services/whatif.py:45-46 | a non-fallback analysis contains the hypothetical and each of the first five relevant sentences |
| WhatIf.HeuristicAnswerShape | app/services/whatif.py:43-47 | each answer keeps its hypothetical; it is the fallback iff nothing is relevant; otherwise it quotes the hypothetical and the first relevant sentence |
| WhatIf.WordMatches | app/services/whatif.py:20 | a sentence containing a word whose lower case contains one of a bucket's alternatives matches that bucket, wherever the word sits |
| WhatIf.PaymentQuestionPicksPayment | app/services/whatif.py:30-31 | a hypothetical mentioning "payment" selects the payment bucket |
| WhatIf.FeeSentenceMatchesPayment | app/services/whatif.py:7 | a sentence mentioning "Fees" matches the payment pattern, case-insensitively |
| WhatIf.PaymentQuestionQuotesFeeSentence | app/services/whatif.py:24-47 | a payment question asked of a one-sentence document about fees selects that sentence and quotes it in the analysis |
| WhatIf.PaymentMissed | app/services/whatif.py:7 | words that each fail two-character tests for the payment alternatives, the first of them lacking "fee", form a sentence in which no payment alternative occurs |
| WhatIf.LiabilityMissed | app/services/whatif.py:8 | the same for liability; "hold harmless" and "limitation of liability" are ruled out through their first words |
| WhatIf.IpMissed | app/services/whatif.py:11 | the same for ip, the first word lacking "licence" |
| SampleAgreement.SampleAgreementBuckets | app/services/whatif.py:15-22 | the agreement "This Agreement shall terminate upon 30 days written notice. Confidential information must not be disclosed. Governing law is the State of Delaware." files its sentences under termination, confidentiality and jurisdiction, and leaves payment, liability and ip empty |
| SampleAgreement.BucketsFromMatches | app/services/whatif.py:15-22 | any three sentences matching termination, confidentiality and jurisdiction respectively and none of payment, liability and ip are filed that way |
| SampleAgreement.EmptyBucketOfThree | app/services/whatif.py:17-21 | a bucket that none of three sentences matches stays empty |
| SampleAgreement.SampleTerminationMatches | app/services/whatif.py:9 | the first sample sentence matches the termination pattern, through "terminate" |
| SampleAgreement.SampleConfidentialityMatches | app/services/whatif.py:10 | the second sample sentence matches the confidentiality pattern, whatever the case of "Confidential" |
| SampleAgreement.SampleJurisdictionMatches | app/services/whatif.py:12 | the third sample sentence matches the jurisdiction pattern, through "Governing law" |
| SampleAgreement.SampleTerminationMisses | app/services/whatif.py:7-11 | the first sample sentence matches none of the payment, liability and ip patterns |
| SampleAgreement.SampleConfidentialityMisses | app/services/whatif.py:7-11 | the second sample sentence matches none of the payment, liability and ip patterns |
| SampleAgreement.SampleJurisdictionMisses | app/services/whatif.py:7-11 | the third sample sentence matches none of the payment, liability and ip patterns |
| SampleAgreement.ConfidentialLacksFee | app/services/whatif.py:7 | "confidential" does not contain "fee", although it holds each of its letters |
| Reply.CleanBlock | app/services/whatif.py:75 | a cleaned block has no whitespace at either end |
| Reply.CleanBlockIsInfix | app/services/whatif.py:75 | a cleaned block is a piece of the raw block |
| Reply.CleanBlockCanStartWithDash | app/services/whatif.py:75 | cleaning `"-\t-x"` gives `"-x"`: a cleaned block can still start with a dash |
| Reply.NonEmpty | app/services/whatif.py:76-77 | the filter keeps no more blocks than it is given, all of them non-empty |
| Reply.NonEmptyMembers | app/services/whatif.py:76-77 | a block is kept exactly when it is non-empty and present |
| Reply.KeptBlocks | app/services/whatif.py:74-77 | no more blocks are kept than there are, and every kept block is non-empty with no whitespace at either end |
| Reply.BlockItems | app/services/whatif.py:78 | one item per kept block, in order, with an empty hypothetical |
| Reply.CleanedBlockIsPieceOfReply | app/services/whatif.py:74-75 | every cleaned block is a substring of the reply and contains no separator |
| Reply.KeptBlockIsPieceOfReply | app/services/whatif.py:74-77 | every kept block is non-empty, has no whitespace at either end, is a substring of the reply and contains no separator |
| Reply.ParsedItemsShape | app/services/whatif.py:73-83 | when no block survives, each hypothetical gets the whole reply, in order; when some block survives, there is at least one item, and every item has an empty hypothetical and a non-empty, trimmed analysis that is a substring of the reply without a separator |
| Reply.ParsedItems | app/services/whatif.py:73-83 | with at least one hypothetical the parse yields at least one item |
| Reply.KeptBlocksStep | app/services/whatif.py:74-78 | cleaning one more block extends the kept blocks by it unless it is empty |
| Reply.CollectBlocks | app/services/whatif.py:73-79 | the loop over the blocks produces the items of the kept blocks |
| Reply.ParseReply | app/services/whatif.py:73-83 | the method returns the items `ParsedItems` specifies, including the fallback |
| App.MakeRecord | app/main.py:25-30 | a stored record keeps the filename, the content type and the text, and its character count is the text's length |
| App.Lookup | app/main.py:33-37 | lookup succeeds exactly for a stored id and then returns its record; otherwise it reports not-found |
| App.LookupAfterStore | app/main.py:25 | after storing under an id, that id finds the record and every other id finds what it found before |
| App.StoreKeepsCounts | app/main.py:29 | storing a made record keeps every record's character count equal to its text length |
| App.DocumentStore.constructor | app/main.py:20-21 | a new store is empty |
| App.DocumentStore.Add | app/main.py:23-31 | `add` stores the record under the given id, leaves every other entry unchanged and returns the id |
| App.DocumentStore.Get | app/main.py:33-37 | `get` returns the record of a stored id, whose character count is its text's length, and not-found for any other id |
| App.ResolveText | app/main.py:99-106 | the request's text wins when given; otherwise a known id with non-empty stored text gives that text; 404 exactly for an unknown id; 400 exactly when there is neither text nor id, or the stored text is empty |
| App.ResolveStoredDocument | app/main.py:99-106 | a document stored with non-empty text is what a request giving its id and no text, or an empty one, works on |
| App.Align | app/main.py:131-134 | one item per hypothetical, in order: the analysis of reply item `i`, or of the last reply item when there are fewer; no merge exactly when there are hypotheticals but no reply items |
| App.AlignParsedReply | app/main.py:128-134 | a parsed reply always merges; when no block survives the merge is the fallback itself |
| App.WhatIfRoute | app/main.py:115-141 | either one item per hypothetical, each carrying its hypothetical, or one of the three HTTP errors; a failed text resolution is the route's error; the missing-hypotheticals error comes exactly when text resolves and the list is empty |
| App.WhatIfRouteSource | app/main.py:128-141 | with a reply the route answers with the merged reply; without one, with `heuristic_whatif` |

## Left out

- NLTK's `sent_tokenize` and the `nltk.data.path` setup are not modelled. The tokenizer's output is the parameter `pieces`, or the function `tokenize` of the `/whatif` route. `sentence_split` is modelled only from the point where it strips and filters.
- The language-model client, the prompt and the awaited `chat` call are not modelled. The reply is a parameter. In the `/whatif` route `None` stands for every case where no reply reaches the parsing: client not configured, call failed, or an exception raised.
- `abstractive_summary_llm` and the abstractive branch of `/summarize` are not modelled, because they only call the remote model. Of `/summarize`, only the text resolution is modelled.
- Summarizer.Score: scores are exact reals, not IEEE doubles, and `math.exp` is the parameter `exp`. The selection lemmas hold for any scores, so they do not depend on this. What is not captured is how rounding could turn a near-tie into a tie, or the reverse.
- Strings.Lower: only ASCII letters are lower-cased. Python's `str.lower()` and `re.I` also fold non-ASCII letters, and this model does not.
- Regex matching is not modelled as a regex engine. Every pattern of `CLAUSE_HINTS` is a plain alternation of literals. It is modelled as "some alternative is a substring of the lower-cased sentence".
- WhatIf.ExtractClauses: the result is a `map` keyed by bucket. The insertion order of the Python dict's keys is not modelled. Each bucket's list order is modelled.
- App.DocumentStore.Add: `uuid4` is not modelled. The fresh id is a parameter, and its freshness is not required. Storing under an existing id replaces the record, as the dict assignment does.
- App.Lookup: `get` raises when the stored value is falsy. A stored record is a four-key dict and is never falsy, so only a missing id leads to not-found.
- Summarizer.Summary: `k` is a natural number. The request schema's bound of 3 to 20 is not required, since the code handles every `k >= 0`. Python's slicing of a negative `k` is not modelled.
- FastAPI routing, CORS, uploads and temp files are not modelled, nor is the `/clauses` route. They are framework and I/O glue.
- `app/services/parser.py` and `app/core/config.py` are not part of this model. They wrap file-format libraries and environment variables.
