# StockMatcher in Dafny

A model of `StockMatcher`, the class that resolves a free-text company or
ticker query against a catalog of NSE listings. Construction prepares every
catalog row into a record (stripped symbol and name, normalised name, ticker
with the `.NS` suffix) and files the records in four lookup tables: name and
symbol prefixes, name words, padded name trigrams and phonetic codes.
`match_stock` then tries a fixed cascade and returns the results of the first
tier that has any candidate, cut to `max_results`:

1. exact: the symbol equals the upper-cased raw query, or the normalised name
   equals or contains the normalised query (score 100, catalog order);
2. prefix, 3. word, 4. trigram and 5. phonetic index lookups, whose candidates
   are scored by name and symbol similarity, kept from 30 up and sorted by
   descending score;
6. a fuzzy fallback over every name, kept from 60 up, best first.

Modules, one per file:

- `Text` (`text.dfy`): character classes, `str.lower`/`upper`/`split`/`strip`,
  the normaliser `_clean_text`, trigrams and prefixes.
- `Externals` (`externals.dfy`): the ranges of the foreign scorers and the
  "lists a set once" relation.
- `Catalog` (`catalog.dfy`): records, `_prepare_data` and both constructor
  branches.
- `Indices` (`indices.dfy`): `_build_indices` and what each table holds.
- `Ranking` (`ranking.dfy`): the score, `_rank_matches` (stable descending
  sort) and `_fuzzy_fallback`.
- `Tiers` (`tiers.dfy`): the five candidate tiers, each characterised directly
  on the records.
- `Matcher` (`matcher.dfy`): the constructor, the cascade and what
  `match_stock` returns.

The foreign pieces are parameters, bundled in `Matcher.Collaborators`:

- NFKD decomposition is a function assumed to leave ASCII text unchanged.
- `SequenceMatcher.ratio` is any function into [0, 1].
- `rapidfuzz.fuzz.ratio` is any function into [0, 100].
- `jellyfish.metaphone` is any string function.
- The order in which `list(set(...))` and the trigram tally's `items()` hand
  candidates to the ranker is a function. It is only constrained to list
  every member of the set exactly once.

Every property below holds for every choice of these parameters.

Where the code and its design description disagree, the model follows the
code:

- Short-circuit before the floor. The cascade stops at the first tier whose
  candidate list is non-empty, before the score floor of 30 is applied. A tier
  whose candidates all score below 30 therefore returns `[]`, and no later
  tier is tried (`Matcher.ShortCircuitBeforeFloor`).
- Tie order. Ranked entries of equal score keep the order in which the
  candidate set was listed, not catalog order (`Ranking.Rank`, through
  `WithScore`).
- Blank names are kept, if they hold whitespace. `read_csv` reads an empty
  cell as NaN, and `dropna` removes that row. A name cell of spaces only is
  not NaN, so its row stays and loads as a record with an empty name and an
  empty normalised name (`Catalog.BlankRowKept`). In the mapping branch a
  blank key, empty or not, is stripped like any other name and also loads as
  an empty name (`Catalog.BlankItemKept`).
- A record's own symbol is answered by the exact tier, but not necessarily
  first. Exact hits come in catalog order, so an earlier record whose
  normalised name contains the normalised symbol is listed before it
  (`Matcher.OwnSymbolFound`). The symbol must already be upper case, since
  it is compared with the upper-cased query. The same holds for a record's
  own company name: an earlier record whose normalised name contains this
  record's normalised name is listed first (`Matcher.OwnNameFound`).
- Trigram overlap counts repeats. The trigram tally counts a record once per
  occurrence of each query trigram among its padded trigrams, not once per
  distinct shared trigram (`Tiers.TrigramTierMember`).
- The 0.7/0.3 weighting never decides a score.
  `max(0.7·n + 0.3·s, n, s)` is always `max(n, s)`
  (`Ranking.FinalScoreIsBestSimilarity`).
- The 3- and 4-character prefix lookups never add a candidate beyond those
  filed under the 2-character prefix (`Tiers.PrefixTierMember`).

## Model

| member | source | states |
|---|---|---|
| Text.Words | stock_matcher.py:76-76 | `str.split()` yields only non-empty words |
| Text.WordsAreScan | stock_matcher.py:55-55 | `str.split()` agrees with a left-to-right scan that closes a word at each whitespace character and drops empty words |
| Text.WordsAreRuns | stock_matcher.py:55-55 | every split word is non-empty and holds no whitespace |
| Text.WordsOfJoin | stock_matcher.py:55-55 | joining non-empty whitespace-free words with single spaces and splitting again gives the same words |
| Text.CleanKeepsWords | stock_matcher.py:51-56 | the normalised text has exactly the words, in order, of the lower-cased text with punctuation replaced by spaces |
| Text.WordsChars | stock_matcher.py:55-55 | every character of a split word comes from the input and is not whitespace |
| Text.Clean | stock_matcher.py:51-56 | `_clean_text`: NFKD, lower case, punctuation to spaces, then single-space join of the words; its contract is carried by Text.CleanIsClean, Text.CleanKeepsWords, Text.CleanFixedPoints and Text.CleanIdempotent |
| Text.CleanIsClean | stock_matcher.py:51-56 | the normaliser's output has no leading, trailing or doubled space, and every other character is a lower-case ASCII letter, digit or underscore |
| Text.JoinWordsOfClean | stock_matcher.py:55-55 | splitting a normalised string and joining with single spaces gives it back |
| Text.CleanIsAscii | stock_matcher.py:51-56 | a normalised string is pure ASCII |
| Text.CleanFixedPoints | stock_matcher.py:51-56 | the normaliser leaves a string unchanged exactly when it has the normalised shape |
| Text.CleanIdempotent | stock_matcher.py:51-56 | normalising twice is normalising once |
| Text.Strip | stock_matcher.py:40-41 | the stripped string is a contiguous slice of the input with no whitespace at either end, everything cut off before and after it is whitespace, and an already-stripped string is unchanged |
| Catalog.DropExchangeSuffix | stock_matcher.py:25-25 | `replace('.NS', '')` in one left-to-right pass; its contract is carried by Catalog.DropExchangeSuffixInverts and Catalog.NameMapTickerRoundTrip |
| Catalog.DropExchangeSuffixInverts | stock_matcher.py:25-25 | deleting every `.NS` from `symbol + ".NS"` gives the symbol back when the symbol has no `.NS` of its own |
| Text.RemoveSpaces | stock_matcher.py:85-85 | the space-free text has no space and holds every other character of the input as often as the input does |
| Text.RemoveSpacesUnit | stock_matcher.py:85-85 | a single character is kept exactly when it is not a space |
| Text.RemoveSpacesConcat | stock_matcher.py:85-85 | removing spaces from a concatenation is removing them from each part, in order, so the kept characters keep their order |
| Text.Trigrams | stock_matcher.py:89-92 | a text of length n gives n+1 windows of length 3, so even the empty text gives one |
| Text.PrefixesChar | stock_matcher.py:70-73 | a key is among the listed prefixes exactly when it is a prefix of length 2 to 4 |
| Catalog.Prepare | stock_matcher.py:36-49 | a prepared record has `ticker == symbol + ".NS"`, stripped symbol and name, and `clean_name` the normalised name in normalised shape |
| Catalog.KeptPositions | stock_matcher.py:22-22 | the positions `dropna` keeps are strictly increasing, each of a row with both cells present, and every such row's position is among them |
| Catalog.CompleteRows | stock_matcher.py:22-22 | `dropna` keeps, in table order, the row at each kept position and nothing else |
| Catalog.FromTable | stock_matcher.py:20-23 | the table branch yields one well-formed record per complete row, in table order: record j is the prepared row at the j-th kept position, and every complete row is prepared into some record |
| Catalog.FromNameMap | stock_matcher.py:24-26 | the mapping branch yields one record per item, in order: the stripped key as name, the value without `.NS` as symbol |
| Catalog.Load | stock_matcher.py:15-31 | any other source is rejected, and every loaded record is well formed |
| Catalog.NameMapTickerRoundTrip | stock_matcher.py:25-47 | a mapping whose values are `symbol + ".NS"` loads back to those symbols and those tickers |
| Catalog.BlankNamePrepared | stock_matcher.py:41-45 | a name of whitespace only is prepared into an empty name and an empty normalised name |
| Catalog.BlankRowKept | stock_matcher.py:21-41 | a table row with both cells present and a whitespace-only name is kept, at its place in table order, as a record with empty name and empty normalised name |
| Catalog.BlankItemKept | stock_matcher.py:25-41 | a mapping item whose key is empty or whitespace only loads as a record with empty name and empty normalised name |
| Indices.Append | stock_matcher.py:71-71 | `append` extends the list under one key and leaves every other key alone |
| Indices.AddKeysLookup | stock_matcher.py:70-78 | filing a key list adds the position under each key once per mention |
| Indices.BuildIndices | stock_matcher.py:58-87 | `_build_indices`: the four tables built from the records; its contract is carried by Indices.IndicesInRange, Indices.PrefixIndexMember, Indices.WordIndexMember, Indices.TrigramIndexCount, Indices.PhoneticIndexMember and Indices.PhoneticListsStrict |
| Indices.BuildCount | stock_matcher.py:65-87 | each position is filed under a key as often as its key list names the key |
| Indices.BuildMember | stock_matcher.py:65-87 | a position is filed under a key exactly when its key list names it |
| Indices.BuildShape | stock_matcher.py:65-87 | every filed position is a record position, and every list is in catalog order |
| Indices.IndicesInRange | stock_matcher.py:58-87 | every position in every table is less than the catalog size, and lists are ascending |
| Indices.PrefixIndexMember | stock_matcher.py:69-73 | position i is under key k exactly when k is a 2..4 prefix of record i's normalised name or lower-cased symbol |
| Indices.LongWordsMember | stock_matcher.py:76-77 | a word is a word key exactly when it is one of the name's words and has at least two characters |
| Indices.WordIndexMember | stock_matcher.py:75-78 | position i is under w exactly when w is a word of at least two characters of record i's name |
| Indices.TrigramIndexCount | stock_matcher.py:80-82 | position i is under trigram t once per occurrence of t among record i's padded trigrams |
| Indices.PhoneticIndexMember | stock_matcher.py:84-87 | position i is under code c exactly when c is record i's non-empty phonetic code |
| Indices.PhoneticListsStrict | stock_matcher.py:84-87 | each phonetic list is strictly ascending, with no repeats |
| Tiers.ExactMatch | stock_matcher.py:120-134 | every exact result is an exact hit, scored 100, tagged exact, in strictly ascending catalog order |
| Tiers.ExactMatchMember | stock_matcher.py:125-128 | a record is in the exact tier if and only if its symbol equals the upper-cased query or its normalised name equals or contains the normalised query |
| Tiers.ExactEmptyQuery | stock_matcher.py:128-128 | a query that normalises to nothing makes the exact tier the whole catalog, in order |
| Tiers.ExactFindsOwnName | stock_matcher.py:126-128 | a record's own company name finds it in the exact tier |
| Tiers.ExactFindsOwnSymbol | stock_matcher.py:123-126 | a record's own symbol, when already upper case, finds it in the exact tier |
| Tiers.PrefixCandidates | stock_matcher.py:136-142 | `_prefix_match`: the positions filed under the query's 2- to 4-character prefixes; its contract is carried by Tiers.PrefixTierMember |
| Tiers.PrefixTierMember | stock_matcher.py:136-142 | a record is a prefix candidate if and only if its normalised name or lower-cased symbol starts with the query's first two characters |
| Tiers.WordCandidates | stock_matcher.py:144-149 | `_word_match`: the positions filed under the query's words of at least two characters; its contract is carried by Tiers.WordTierMember |
| Tiers.WordTierMember | stock_matcher.py:144-149 | a record is a word candidate if and only if it shares a word of at least two characters with the query |
| Tiers.TrigramCandidates | stock_matcher.py:151-159 | `_trigram_match`: the tallied positions that meet the overlap threshold; its contract is carried by Tiers.TallyTrigramsCount, Tiers.TrigramThresholdExact and Tiers.TrigramTierMember |
| Tiers.Dedup | stock_matcher.py:152-152 | `set(...)` of the trigrams has the same members and no repeats |
| Tiers.TallyTrigramsCount | stock_matcher.py:153-157 | the tally of a position is the number of times it is filed under the query's distinct trigrams |
| Tiers.TrigramThresholdExact | stock_matcher.py:158-159 | the integer test `s >= 1 && 10s >= 3n` is `s >= max(1, 0.3n)` in exact arithmetic |
| Tiers.TrigramTierMember | stock_matcher.py:151-159 | a record is a trigram candidate if and only if its overlap with the query's distinct trigrams meets the threshold |
| Tiers.PhoneticCandidates | stock_matcher.py:161-165 | `_phonetic_match`: the list filed under the query's non-empty phonetic code; its contract is carried by Tiers.PhoneticTierMember |
| Tiers.PhoneticTierMember | stock_matcher.py:161-165 | the phonetic tier lists, strictly ascending, exactly the records whose code is the query's non-empty code |
| Ranking.FinalScore | stock_matcher.py:171-174 | `max(0.7·n + 0.3·s, n, s) · 100`; its contract is carried by Ranking.FinalScoreIsBestSimilarity |
| Ranking.FinalScoreIsBestSimilarity | stock_matcher.py:171-174 | the final score is 100 times the larger of the name and symbol similarities, in [0, 100] |
| Ranking.Survivors | stock_matcher.py:168-180 | the kept candidates are tagged similarity, score their final score, and are exactly the candidates from 30 up |
| Ranking.SurvivorsUnit | stock_matcher.py:168-180 | a single candidate survives, scored and tagged similarity, exactly when its final score is from 30 up |
| Ranking.SurvivorsConcat | stock_matcher.py:168-180 | the survivors of two candidate lists in a row are the survivors of the first followed by those of the second, so survivors keep candidate order |
| Ranking.SortDesc | stock_matcher.py:181-181 | `sorted(..., key=score, reverse=True)` as a stable insertion sort; its contract is carried by Ranking.SortDescSorted, Ranking.SortDescPermutes and Ranking.SortDescStable |
| Ranking.SortDescSorted | stock_matcher.py:181-181 | the sort's output is in non-increasing score order |
| Ranking.SortDescPermutes | stock_matcher.py:181-181 | the sort's output is a permutation of its input |
| Ranking.SortDescStable | stock_matcher.py:181-181 | the entries of one score keep their input order |
| Ranking.Rank | stock_matcher.py:167-181 | ranked entries are given candidates scoring from 30 up at their best similarity, in non-increasing order; every candidate from 30 up is kept; no repeats when the input had none; ties keep candidate order |
| Ranking.TakeRankComplete | stock_matcher.py:104-104 | a candidate from 30 up missing after the cut means the cut is full of entries scoring at least as much |
| Ranking.Take | stock_matcher.py:100-100 | `s[:k]` is the first min(k, len) elements |
| Ranking.FuzzyHits | stock_matcher.py:186-192 | the fuzzy hits scoring from 60 up, in catalog order, each tagged fuzzy with its score |
| Ranking.FuzzyHitsComplete | stock_matcher.py:186-192 | every name scoring from 60 up is a fuzzy hit |
| Ranking.FuzzyFallback | stock_matcher.py:183-200 | at most `max_results` fuzzy entries scored from 60 up, best first with ties by catalog position and no repeats; a qualifying name left out means the list is full of names that outrank it, each scoring more or as much from an earlier catalog position |
| Matcher.New | stock_matcher.py:15-34 | construction fails exactly for an unsupported source; otherwise the matcher holds the loaded records, each well formed |
| Matcher.Candidates | stock_matcher.py:136-165 | an indexed tier's candidate list holds record positions only, each once |
| Matcher.CandidatesMember | stock_matcher.py:136-165 | a record is in an indexed tier's candidate list if and only if it answers that tier's criterion |
| Matcher.ExactNonEmpty | stock_matcher.py:98-99 | the exact tier is non-empty if and only if some record is an exact hit |
| Matcher.CandidatesNonEmpty | stock_matcher.py:102-116 | an indexed tier's candidate list is non-empty if and only if some record answers that tier's criterion |
| Matcher.ChosenTier | stock_matcher.py:96-118 | the tier of the if-chain that answers; its contract is carried by Matcher.CascadeOrder, Matcher.ExactNonEmpty and Matcher.CandidatesNonEmpty |
| Matcher.CascadeOrder | stock_matcher.py:94-118 | the tier `match_stock` answers from is the first tier some record answers, or the fallback when none does |
| Matcher.MatchStock | stock_matcher.py:94-118 | at most `max_results` entries, of record positions, without repeats: exact hits scored 100, ranked entries from 30 up in order, or fuzzy entries from 60 up in order |
| Matcher.ShortCircuitBeforeFloor | stock_matcher.py:102-104 | when every record the chosen indexed tier answers scores below 30, the result is empty |
| Matcher.IndexedComplete | stock_matcher.py:102-116 | every record the chosen indexed tier answers that scores from 30 up is returned, unless the list is full of entries scoring at least as much |
| Matcher.EmptyQueryListsCatalog | stock_matcher.py:96-100 | a query that normalises to nothing returns the first `max_results` records in catalog order |
| Matcher.OwnNameFound | stock_matcher.py:96-100 | a record's own name is answered by the exact tier and returns the record when `max_results` exceeds its position |
| Matcher.OwnSymbolFound | stock_matcher.py:96-126 | a record's own upper-case symbol is answered by the exact tier and returns the record when `max_results` exceeds its position |
| Matcher.FuzzyTierComplete | stock_matcher.py:118-118 | when the fallback runs, every name scoring from 60 up is returned unless the list is full of names that outrank it, each scoring more or as much from an earlier catalog position |

## Left out

- CSV reading (`pd.read_csv`). The table branch starts from the rows already
  read, reduced to the two columns used, with a missing cell standing for NaN.
  `str()` of a non-string cell is not modelled. A present cell holding the
  empty string, which `read_csv` never produces, is read like any other
  text.
- Unicode. NFKD is a parameter that leaves ASCII unchanged. `\w`,
  `str.lower` and `str.upper` are exact on ASCII only, and any other
  character is treated as a non-word character. Whitespace follows
  `str.isspace`.
- `SequenceMatcher.ratio`, `fuzz.ratio` and `jellyfish.metaphone` are
  parameters with their ranges only. `process.extract` is modelled by what it
  returns for a list of choices: scores from the cutoff up, best first, ties
  by position, cut to the limit.
- Floating-point rounding. Scores are exact reals. The trigram threshold is
  compared in integers, which matches the float test for fewer than 200000
  distinct query trigrams.
- The order of `list(set(...))` and of the tally's `items()`. It is a
  parameter listing each candidate once, so tie order among ranked entries is
  stated relative to it.
- `max_results` is a natural number. A negative count, which would slice from
  the end, is not modelled. Its default of 5 is not modelled either: every
  call gives the count.
- A matcher stores only its records. Its indices never change after
  construction, so every tier reads them as the tables built from those
  records.
- The index build is one pass over the catalog filling four tables. The model
  fills each table in its own pass in the same record order. Each table only
  receives its own keys, so the tables are the same.
- `self.df` and the dictionaries returned to the caller are not modelled. A
  result is a catalog position, a score and a match kind.
- `Ranking.Rank`: the order among entries of equal score is stated only
  relative to the candidate order, because that order comes from the
  interpreter's set iteration.
