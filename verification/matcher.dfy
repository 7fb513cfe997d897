/** `StockMatcher` as a whole: construction from a source and the cascade of
    `match_stock`, which returns the results of the first tier that has any
    candidate, cut to the requested count. */
module Matcher {
  import opened Text
  import opened Externals
  import opened Catalog
  import opened Indices
  import opened Ranking
  import opened Tiers

  /** The strategies of the cascade, in the order they are tried. */
  datatype Tier = ExactTier | PrefixTier | WordTier | TrigramTier | PhoneticTier | FuzzyTier {
    /** The tiers whose candidates come from an index and are ranked. */
    predicate Indexed() {
      !ExactTier? && !FuzzyTier?
    }
  }

  /** The order in which a tier's candidate set is handed to the ranker.
      `list(set(...))` and the `items()` order of the trigram tally depend on
      the interpreter's hashing and on insertion history, not on anything the
      matcher controls; the model fixes only that every candidate is listed
      once. */
  type Enumerator = f: (Tier, string, set<nat>) -> seq<nat> | forall t, q, s :: Lists(f(t, q, s), s)
    ghost witness (t: Tier, q: string, s: set<nat>) => SomeListing(s)

  /** The collaborators one matcher is built and queried with:
      - `nfkd`: `unicodedata.normalize('NFKD', ·)`;
      - `ratio`: `SequenceMatcher(None, a, b).ratio()`;
      - `fuzzRatio`: `rapidfuzz.fuzz.ratio(a, b)`;
      - `metaphone`: `jellyfish.metaphone(·)`;
      - `listing`: the order of a candidate set, per tier and normalised
        query. */
  datatype Collaborators = Collaborators(
    nfkd: Nfkd,
    ratio: Ratio,
    fuzzRatio: FuzzRatio,
    metaphone: string -> string,
    listing: Enumerator)

  /** A constructed matcher: the prepared catalog. Its indices are always
      the ones `_build_indices` derives from the catalog, so the model reads
      them as `BuildIndices(env.metaphone, records)`. */
  datatype Matcher = Matcher(records: seq<Record>)

  /** The constructor's outcome: a matcher, or the `ValueError` for a source
      that is neither a table nor a mapping. */
  datatype Built = Ready(matcher: Matcher) | Rejected

  /** `StockMatcher.__init__`: load and prepare the catalog. */
  function New(env: Collaborators, src: Source): (b: Built)
    ensures b.Rejected? <==> src.Unsupported?
    ensures b.Ready? ==> b.matcher.records == Load(env.nfkd, src).records
    ensures b.Ready? ==> forall j :: 0 <= j < |b.matcher.records| ==> WellFormed(env.nfkd, b.matcher.records[j])
  {
    match Load(env.nfkd, src)
    case InvalidSource => Rejected
    case Loaded(recs) => Ready(Matcher(recs))
  }

  /** The candidate set of an indexed tier, before listing. */
  function CandidateSet(env: Collaborators, m: Matcher, q: string, t: Tier): set<nat>
    requires t.PrefixTier? || t.WordTier? || t.TrigramTier?
  {
    match t
    case PrefixTier => PrefixCandidates(BuildIndices(env.metaphone, m.records).prefix, q)
    case WordTier => WordCandidates(BuildIndices(env.metaphone, m.records).word, q)
    case TrigramTier => TrigramCandidates(BuildIndices(env.metaphone, m.records).trigram, q)
  }

  /** Every member of a tier's candidate set is a catalog position. */
  lemma CandidateSetInRange(env: Collaborators, m: Matcher, q: string, t: Tier, i: nat)
    requires t.PrefixTier? || t.WordTier? || t.TrigramTier?
    requires i in CandidateSet(env, m, q, t)
    ensures i < |m.records|
  {
    match t
    case PrefixTier => PrefixTierMember(env.metaphone, m.records, q, i);
    case WordTier => WordTierMember(env.metaphone, m.records, q, i);
    case TrigramTier => TrigramTierMember(env.metaphone, m.records, q, i);
  }

  /** A listing of a set of catalog positions holds catalog positions only,
      once each. */
  lemma ListingInRange(env: Collaborators, t: Tier, q: string, s: set<nat>, n: nat)
    requires forall i :: i in s ==> i < n
    ensures forall j :: 0 <= j < |env.listing(t, q, s)| ==> env.listing(t, q, s)[j] < n
    ensures NoDuplicates(env.listing(t, q, s))
  {
    var c := env.listing(t, q, s);
    assert Lists(c, s);
    forall j | 0 <= j < |c| ensures c[j] < n {
      assert c[j] in s;
    }
  }

  /** A listed candidate set holds catalog positions only, once each. */
  lemma ListedInRange(env: Collaborators, m: Matcher, q: string, t: Tier)
    requires t.PrefixTier? || t.WordTier? || t.TrigramTier?
    ensures forall j :: 0 <= j < |env.listing(t, q, CandidateSet(env, m, q, t))| ==>
      env.listing(t, q, CandidateSet(env, m, q, t))[j] < |m.records|
    ensures NoDuplicates(env.listing(t, q, CandidateSet(env, m, q, t)))
  {
    var s := CandidateSet(env, m, q, t);
    forall i | i in s ensures i < |m.records| {
      CandidateSetInRange(env, m, q, t, i);
    }
    ListingInRange(env, t, q, s, |m.records|);
  }

  /** The phonetic list holds catalog positions only, once each. */
  lemma PhoneticInRange(env: Collaborators, m: Matcher, q: string)
    ensures forall j :: 0 <= j < |PhoneticCandidates(BuildIndices(env.metaphone, m.records).phonetic, env.metaphone, q)| ==>
      PhoneticCandidates(BuildIndices(env.metaphone, m.records).phonetic, env.metaphone, q)[j] < |m.records|
    ensures NoDuplicates(PhoneticCandidates(BuildIndices(env.metaphone, m.records).phonetic, env.metaphone, q))
  {
    var c := PhoneticCandidates(BuildIndices(env.metaphone, m.records).phonetic, env.metaphone, q);
    PhoneticTierMember(env.metaphone, m.records, q);
    forall j | 0 <= j < |c| ensures c[j] < |m.records| {
      assert c[j] in c;
    }
  }

  /** The candidate list an indexed tier hands to the ranker. */
  function Candidates(env: Collaborators, m: Matcher, q: string, t: Tier): (c: seq<nat>)
    requires t.Indexed()
    ensures forall j :: 0 <= j < |c| ==> c[j] < |m.records|
    ensures NoDuplicates(c)
  {
    if t.PhoneticTier? then
      PhoneticInRange(env, m, q);
      PhoneticCandidates(BuildIndices(env.metaphone, m.records).phonetic, env.metaphone, q)
    else
      ListedInRange(env, m, q, t);
      env.listing(t, q, CandidateSet(env, m, q, t))
  }

  /** The tier whose results `match_stock` returns: the first with a
      non-empty candidate list, or the fuzzy fallback. */
  function ChosenTier(env: Collaborators, m: Matcher, query: string): Tier
  {
    var q := Clean(env.nfkd, query);
    if ExactMatch(m.records, query, q) != [] then ExactTier
    else if Candidates(env, m, q, PrefixTier) != [] then PrefixTier
    else if Candidates(env, m, q, WordTier) != [] then WordTier
    else if Candidates(env, m, q, TrigramTier) != [] then TrigramTier
    else if Candidates(env, m, q, PhoneticTier) != [] then PhoneticTier
    else FuzzyTier
  }

  /** A prefix of a descending list is descending. */
  lemma TakeSorted(ms: seq<MatchResult>, k: nat)
    requires SortedDesc(ms)
    ensures SortedDesc(Take(ms, k))
  {
  }

  /** The exact tier's results, cut to `k`. */
  function ExactResults(recs: seq<Record>, query: string, q: string, k: nat): (r: seq<MatchResult>)
    ensures |r| <= k
    ensures NoDuplicates(Positions(r))
    ensures forall j :: 0 <= j < |r| ==>
      r[j].pos < |recs| && r[j].kind == Exact && r[j].score == 100.0
      && ExactHit(recs[r[j].pos], Upper(query), q)
  {
    var ms := ExactMatch(recs, query, q);
    AscendingDistinct(ms);
    TakeDistinct(ms, k);
    Take(ms, k)
  }

  /** An indexed tier's ranked results, cut to `k`. */
  function RankedResults(env: Collaborators, m: Matcher, q: string, t: Tier, k: nat): (r: seq<MatchResult>)
    requires t.Indexed()
    ensures |r| <= k
    ensures NoDuplicates(Positions(r))
    ensures SortedDesc(r)
    ensures forall j :: 0 <= j < |r| ==> RankedEntry(env.ratio, m.records, Candidates(env, m, q, t), q, r[j])
  {
    var ms := Rank(env.ratio, m.records, Candidates(env, m, q, t), q);
    TakeDistinct(ms, k);
    TakeSorted(ms, k);
    Take(ms, k)
  }

  /** `match_stock(query, max_results)`: the results of the chosen tier, cut
      to `max_results`. */
  function MatchStock(env: Collaborators, m: Matcher, query: string, maxResults: nat): (r: seq<MatchResult>)
    ensures |r| <= maxResults
    ensures forall j :: 0 <= j < |r| ==> r[j].pos < |m.records|
    ensures NoDuplicates(Positions(r))
    ensures ChosenTier(env, m, query).ExactTier? ==> forall j :: 0 <= j < |r| ==>
      r[j].kind == Exact && r[j].score == 100.0
      && ExactHit(m.records[r[j].pos], Upper(query), Clean(env.nfkd, query))
    ensures ChosenTier(env, m, query).Indexed() ==> SortedDesc(r) && forall j :: 0 <= j < |r| ==>
      RankedEntry(env.ratio, m.records, Candidates(env, m, Clean(env.nfkd, query), ChosenTier(env, m, query)),
        Clean(env.nfkd, query), r[j])
    ensures ChosenTier(env, m, query).FuzzyTier? ==> SortedDesc(r) && forall j :: 0 <= j < |r| ==>
      r[j].kind == Fuzzy && r[j].score >= FuzzyCutoff
      && r[j].score == env.fuzzRatio(Clean(env.nfkd, query), m.records[r[j].pos].cleanName)
  {
    var q := Clean(env.nfkd, query);
    var t := ChosenTier(env, m, query);
    if t.ExactTier? then ExactResults(m.records, query, q, maxResults)
    else if t.FuzzyTier? then FuzzyFallback(env.fuzzRatio, m.records, q, maxResults)
    else RankedResults(env, m, q, t, maxResults)
  }

  /* ---------------------------------------------- the cascade, by criterion */

  /** The prefix criterion: the normalised name or the lower-cased symbol
      starts with the query's first two characters. */
  predicate PrefixAnswer(r: Record, q: string) {
    SharesStart(r.cleanName, q) || SharesStart(Lower(r.symbol), q)
  }

  /** The word criterion: a query word of two or more characters is a word
      of the normalised name. */
  predicate WordAnswer(r: Record, q: string) {
    SharesWord(r.cleanName, q)
  }

  /** The trigram criterion: enough of the query's distinct trigrams occur
      in the padded normalised name. */
  predicate TrigramAnswer(r: Record, q: string) {
    MeetsTrigramThreshold(TrigramScore(r, q), |QueryTrigrams(q)|)
  }

  /** The phonetic criterion: the query has a phonetic code and the
      normalised name has the same one. */
  predicate PhoneticAnswer(metaphone: string -> string, r: Record, q: string) {
    PhoneticCode(metaphone, q) != "" && PhoneticCode(metaphone, r.cleanName) == PhoneticCode(metaphone, q)
  }

  /** Whether a record answers a query under a tier's own criterion, stated
      on the record itself rather than through the indices. */
  predicate Answers(env: Collaborators, t: Tier, r: Record, query: string)
    requires !t.FuzzyTier?
  {
    var q := Clean(env.nfkd, query);
    match t
    case ExactTier => ExactHit(r, Upper(query), q)
    case PrefixTier => PrefixAnswer(r, q)
    case WordTier => WordAnswer(r, q)
    case TrigramTier => TrigramAnswer(r, q)
    case PhoneticTier => PhoneticAnswer(env.metaphone, r, q)
  }

  predicate AnyAnswers(env: Collaborators, t: Tier, recs: seq<Record>, query: string)
    requires !t.FuzzyTier?
  {
    exists i :: 0 <= i < |recs| && Answers(env, t, recs[i], query)
  }

  /** The cascade by its definition: the first tier that some record
      answers, or the fuzzy fallback when none does. */
  function FirstAnswering(env: Collaborators, recs: seq<Record>, query: string): Tier {
    if AnyAnswers(env, ExactTier, recs, query) then ExactTier
    else if AnyAnswers(env, PrefixTier, recs, query) then PrefixTier
    else if AnyAnswers(env, WordTier, recs, query) then WordTier
    else if AnyAnswers(env, TrigramTier, recs, query) then TrigramTier
    else if AnyAnswers(env, PhoneticTier, recs, query) then PhoneticTier
    else FuzzyTier
  }

  /** The exact tier is non-empty exactly when some record is an exact hit. */
  lemma ExactNonEmpty(env: Collaborators, recs: seq<Record>, query: string)
    ensures ExactMatch(recs, query, Clean(env.nfkd, query)) != [] <==> AnyAnswers(env, ExactTier, recs, query)
  {
    var q := Clean(env.nfkd, query);
    var ms := ExactMatch(recs, query, q);
    if ms != [] {
      assert Answers(env, ExactTier, recs[ms[0].pos], query);
    }
    if AnyAnswers(env, ExactTier, recs, query) {
      var i :| 0 <= i < |recs| && Answers(env, ExactTier, recs[i], query);
      ExactMatchMember(recs, query, q, i);
    }
  }

  /** A listing is empty exactly when the set it lists is. */
  lemma ListingEmpty(env: Collaborators, t: Tier, q: string, s: set<nat>)
    ensures env.listing(t, q, s) == [] <==> s == {}
  {
    var l := env.listing(t, q, s);
    assert Lists(l, s);
    if l != [] {
      assert l[0] in l;
    }
    if s != {} {
      var x :| x in s;
      assert x in l;
    }
  }

  /** The prefix, word and trigram candidate sets hold exactly the records
      that answer under the tier's criterion. */
  lemma PrefixCandidatesMember(env: Collaborators, m: Matcher, q: string, i: nat)
    ensures i in CandidateSet(env, m, q, PrefixTier) <==> i < |m.records| && PrefixAnswer(m.records[i], q)
  {
    var ix := BuildIndices(env.metaphone, m.records).prefix;
    assert i in CandidateSet(env, m, q, PrefixTier) <==> i in PrefixCandidates(ix, q);
    assert i in PrefixCandidates(ix, q) <==> i < |m.records| && PrefixAnswer(m.records[i], q) by {
      PrefixTierMember(env.metaphone, m.records, q, i);
    }
  }

  lemma WordCandidatesMember(env: Collaborators, m: Matcher, q: string, i: nat)
    ensures i in CandidateSet(env, m, q, WordTier) <==> i < |m.records| && WordAnswer(m.records[i], q)
  {
    var ix := BuildIndices(env.metaphone, m.records).word;
    assert i in CandidateSet(env, m, q, WordTier) <==> i in WordCandidates(ix, q);
    assert i in WordCandidates(ix, q) <==> i < |m.records| && WordAnswer(m.records[i], q) by {
      WordTierMember(env.metaphone, m.records, q, i);
    }
  }

  lemma TrigramCandidatesMember(env: Collaborators, m: Matcher, q: string, i: nat)
    ensures i in CandidateSet(env, m, q, TrigramTier) <==> i < |m.records| && TrigramAnswer(m.records[i], q)
  {
    var ix := BuildIndices(env.metaphone, m.records).trigram;
    assert i in CandidateSet(env, m, q, TrigramTier) <==> i in TrigramCandidates(ix, q);
    assert i in TrigramCandidates(ix, q) <==> i < |m.records| && TrigramAnswer(m.records[i], q) by {
      TrigramTierMember(env.metaphone, m.records, q, i);
    }
  }

  /** An indexed tier's candidate list holds exactly the records that answer
      under that tier's criterion. */
  lemma CandidatesMember(env: Collaborators, m: Matcher, query: string, t: Tier, i: nat)
    requires t.Indexed()
    ensures i in Candidates(env, m, Clean(env.nfkd, query), t) <==>
      i < |m.records| && Answers(env, t, m.records[i], query)
  {
    var q := Clean(env.nfkd, query);
    if t.PhoneticTier? {
      PhoneticTierMember(env.metaphone, m.records, q);
    } else {
      var s := CandidateSet(env, m, q, t);
      assert Lists(env.listing(t, q, s), s);
      match t
      case PrefixTier => PrefixCandidatesMember(env, m, q, i);
      case WordTier => WordCandidatesMember(env, m, q, i);
      case TrigramTier => TrigramCandidatesMember(env, m, q, i);
    }
  }

  /** An indexed tier's candidate list is non-empty exactly when some record
      answers under that tier's criterion. */
  lemma CandidatesNonEmpty(env: Collaborators, m: Matcher, query: string, t: Tier)
    requires t.Indexed()
    ensures Candidates(env, m, Clean(env.nfkd, query), t) != [] <==> AnyAnswers(env, t, m.records, query)
  {
    if Candidates(env, m, Clean(env.nfkd, query), t) != [] {
      SomeCandidateAnswers(env, m, query, t);
    }
    if AnyAnswers(env, t, m.records, query) {
      SomeAnswerIsCandidate(env, m, query, t);
    }
  }

  lemma SomeCandidateAnswers(env: Collaborators, m: Matcher, query: string, t: Tier)
    requires t.Indexed()
    requires Candidates(env, m, Clean(env.nfkd, query), t) != []
    ensures AnyAnswers(env, t, m.records, query)
  {
    var c := Candidates(env, m, Clean(env.nfkd, query), t);
    CandidatesMember(env, m, query, t, c[0]);
  }

  lemma SomeAnswerIsCandidate(env: Collaborators, m: Matcher, query: string, t: Tier)
    requires t.Indexed()
    requires AnyAnswers(env, t, m.records, query)
    ensures Candidates(env, m, Clean(env.nfkd, query), t) != []
  {
    var i :| 0 <= i < |m.records| && Answers(env, t, m.records[i], query);
    CandidatesMember(env, m, query, t, i);
  }

  /** `match_stock` tries the tiers in order and stops at the first whose
      candidate list is non-empty: that is the first tier some record
      answers. */
  lemma CascadeOrder(env: Collaborators, m: Matcher, query: string)
    ensures ChosenTier(env, m, query) == FirstAnswering(env, m.records, query)
  {
    ExactNonEmpty(env, m.records, query);
    CandidatesNonEmpty(env, m, query, PrefixTier);
    CandidatesNonEmpty(env, m, query, WordTier);
    CandidatesNonEmpty(env, m, query, TrigramTier);
    CandidatesNonEmpty(env, m, query, PhoneticTier);
  }

  /* ------------------------------------------------- what match_stock returns */

  /** The cascade stops at the first tier with candidates before the score
      floor is applied: when every record the chosen indexed tier answers
      scores below the floor, the result is empty and no later tier is
      tried. */
  lemma ShortCircuitBeforeFloor(env: Collaborators, m: Matcher, query: string, maxResults: nat)
    requires ChosenTier(env, m, query).Indexed()
    requires forall i :: 0 <= i < |m.records| && Answers(env, ChosenTier(env, m, query), m.records[i], query) ==>
      FinalScore(env.ratio, m.records[i], Clean(env.nfkd, query)) < ScoreFloor
    ensures MatchStock(env, m, query, maxResults) == []
  {
    var r := MatchStock(env, m, query, maxResults);
    var t := ChosenTier(env, m, query);
    var q := Clean(env.nfkd, query);
    if r != [] {
      var i := r[0].pos;
      CandidatesMember(env, m, query, t, i);
      FinalScoreIsBestSimilarity(env.ratio, m.records[i], q);
      assert false;
    }
  }

  /** An indexed tier's results: the ranked candidate list cut to the
      requested count. */
  lemma IndexedResults(env: Collaborators, m: Matcher, query: string, maxResults: nat)
    requires ChosenTier(env, m, query).Indexed()
    ensures MatchStock(env, m, query, maxResults) ==
      Take(Rank(env.ratio, m.records, Candidates(env, m, Clean(env.nfkd, query), ChosenTier(env, m, query)),
        Clean(env.nfkd, query)), maxResults)
  {
  }

  /** Every record the chosen indexed tier answers whose score reaches the
      floor is returned, unless the list is already full of entries that
      score at least as much. */
  lemma IndexedComplete(env: Collaborators, m: Matcher, query: string, maxResults: nat, i: nat)
    requires ChosenTier(env, m, query).Indexed()
    requires i < |m.records| && Answers(env, ChosenTier(env, m, query), m.records[i], query)
    requires FinalScore(env.ratio, m.records[i], Clean(env.nfkd, query)) >= ScoreFloor
    ensures var r := MatchStock(env, m, query, maxResults);
      i in Positions(r) || (|r| == maxResults && forall j :: 0 <= j < |r| ==>
        r[j].score >= FinalScore(env.ratio, m.records[i], Clean(env.nfkd, query)))
  {
    var t := ChosenTier(env, m, query);
    var q := Clean(env.nfkd, query);
    IndexedResults(env, m, query, maxResults);
    CandidatesMember(env, m, query, t, i);
    TakeRankComplete(env.ratio, m.records, Candidates(env, m, q, t), q, maxResults, i);
  }

  /** The exact tier's results: the exact matches cut to the requested
      count. */
  lemma ExactResultsAre(env: Collaborators, m: Matcher, query: string, maxResults: nat)
    requires ChosenTier(env, m, query).ExactTier?
    ensures MatchStock(env, m, query, maxResults) ==
      Take(ExactMatch(m.records, query, Clean(env.nfkd, query)), maxResults)
  {
  }

  /** A query with an exact match is answered by the exact tier. */
  lemma ExactChosen(env: Collaborators, m: Matcher, query: string)
    requires ExactMatch(m.records, query, Clean(env.nfkd, query)) != []
    ensures ChosenTier(env, m, query) == ExactTier
  {
  }

  /** A query that normalises to nothing is contained in every name: every
      record is an exact match, so the result is the first `max_results`
      records in catalog order. */
  lemma EmptyQueryListsCatalog(env: Collaborators, m: Matcher, query: string, maxResults: nat)
    requires Clean(env.nfkd, query) == ""
    ensures |m.records| > 0 ==> ChosenTier(env, m, query) == ExactTier
    ensures Positions(MatchStock(env, m, query, maxResults)) == Take(Range(|m.records|), maxResults)
  {
    var n := |m.records|;
    var ms := ExactMatch(m.records, query, "");
    ExactEmptyQuery(m.records, Upper(query), n);
    assert Positions(ms) == Range(n);
    if n > 0 {
      assert ms != [];
      ExactChosen(env, m, query);
      ExactResultsAre(env, m, query, maxResults);
      PositionsTake(ms, maxResults);
    } else {
      assert MatchStock(env, m, query, maxResults) == [];
    }
  }

  /** Querying a record's own company name chooses the exact tier and
      returns that record whenever `max_results` exceeds its catalog
      position. */
  lemma OwnNameFound(env: Collaborators, m: Matcher, i: nat, maxResults: nat)
    requires i < |m.records| && WellFormed(env.nfkd, m.records[i])
    ensures ChosenTier(env, m, m.records[i].name) == ExactTier
    ensures i < maxResults ==> i in Positions(MatchStock(env, m, m.records[i].name, maxResults))
  {
    var query := m.records[i].name;
    var ms := ExactMatch(m.records, query, Clean(env.nfkd, query));
    ExactFindsOwnName(env.nfkd, m.records, i);
    ExactChosen(env, m, query);
    if i < maxResults {
      ExactResultsAre(env, m, query, maxResults);
      TakeKeepsLow(ms, maxResults, i);
    }
  }

  /** Querying a record's own symbol, when the symbol is already upper
      case, chooses the exact tier and returns that record whenever
      `max_results` exceeds its catalog position. */
  lemma OwnSymbolFound(env: Collaborators, m: Matcher, i: nat, maxResults: nat)
    requires i < |m.records| && Upper(m.records[i].symbol) == m.records[i].symbol
    ensures ChosenTier(env, m, m.records[i].symbol) == ExactTier
    ensures i < maxResults ==> i in Positions(MatchStock(env, m, m.records[i].symbol, maxResults))
  {
    var query := m.records[i].symbol;
    var ms := ExactMatch(m.records, query, Clean(env.nfkd, query));
    ExactFindsOwnSymbol(env.nfkd, m.records, i);
    ExactChosen(env, m, query);
    if i < maxResults {
      ExactResultsAre(env, m, query, maxResults);
      TakeKeepsLow(ms, maxResults, i);
    }
  }

  /** The fallback's results when no tier has candidates. */
  lemma FuzzyResultsAre(env: Collaborators, m: Matcher, query: string, maxResults: nat)
    requires ChosenTier(env, m, query).FuzzyTier?
    ensures MatchStock(env, m, query, maxResults) ==
      FuzzyFallback(env.fuzzRatio, m.records, Clean(env.nfkd, query), maxResults)
  {
  }

  /** When the fallback runs, every name scoring at least the cutoff is
      returned unless the list is full of names that outrank it: each scores
      more, or as much from an earlier catalog position. */
  lemma FuzzyTierComplete(env: Collaborators, m: Matcher, query: string, maxResults: nat, i: nat)
    requires ChosenTier(env, m, query).FuzzyTier?
    requires i < |m.records| && env.fuzzRatio(Clean(env.nfkd, query), m.records[i].cleanName) >= FuzzyCutoff
    ensures var r := MatchStock(env, m, query, maxResults);
      i in Positions(r) || (|r| == maxResults && forall j :: 0 <= j < |r| ==>
        Outranks(r[j], env.fuzzRatio(Clean(env.nfkd, query), m.records[i].cleanName), i))
  {
    FuzzyResultsAre(env, m, query, maxResults);
  }
}
