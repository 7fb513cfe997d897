/** The five candidate tiers of `match_stock`: the exact scan of the catalog
    and the four index lookups (prefix, word, trigram, phonetic). Each tier
    is stated over the tables it reads and then characterised, by a lemma,
    directly in terms of the catalog records the tables were built from. */
module Tiers {
  import opened Text
  import opened Externals
  import opened Catalog
  import opened Indices
  import opened Ranking

  /* ---------------------------------------------------------------- exact */

  /** `_exact_match`'s test for one record: the symbol equals the upper-cased
      raw query, or the normalised name equals or contains the normalised
      query. */
  predicate ExactHit(r: Record, queryUpper: string, q: string) {
    r.symbol == queryUpper || r.cleanName == q || Contains(r.cleanName, q)
  }

  /** The exact hits among the first `n` records, in catalog order. */
  function ExactUpTo(recs: seq<Record>, queryUpper: string, q: string, n: nat): (ms: seq<MatchResult>)
    requires n <= |recs|
    ensures forall j :: 0 <= j < |ms| ==>
      ms[j].pos < n && ms[j].score == 100.0 && ms[j].kind == Exact
      && ExactHit(recs[ms[j].pos], queryUpper, q)
    ensures forall a, b :: 0 <= a < b < |ms| ==> ms[a].pos < ms[b].pos
    decreases n
  {
    if n == 0 then []
    else
      var prev := ExactUpTo(recs, queryUpper, q, n - 1);
      if ExactHit(recs[n - 1], queryUpper, q) then prev + [MatchResult(n - 1, 100.0, Exact)] else prev
  }

  /** `_exact_match(query, query_clean)`: every record that is an exact hit,
      in catalog order, scored 100 and tagged `exact`. */
  function ExactMatch(recs: seq<Record>, query: string, q: string): (ms: seq<MatchResult>)
    ensures forall j :: 0 <= j < |ms| ==>
      ms[j].pos < |recs| && ms[j].score == 100.0 && ms[j].kind == Exact
      && ExactHit(recs[ms[j].pos], Upper(query), q)
    ensures forall a, b :: 0 <= a < b < |ms| ==> ms[a].pos < ms[b].pos
  {
    ExactUpTo(recs, Upper(query), q, |recs|)
  }

  lemma {:induction false} ExactUpToComplete(recs: seq<Record>, queryUpper: string, q: string, n: nat, i: nat)
    requires n <= |recs| && i < n && ExactHit(recs[i], queryUpper, q)
    ensures i in Positions(ExactUpTo(recs, queryUpper, q, n))
    decreases n
  {
    var prev := ExactUpTo(recs, queryUpper, q, n - 1);
    var x := MatchResult(n - 1, 100.0, Exact);
    if i < n - 1 {
      ExactUpToComplete(recs, queryUpper, q, n - 1, i);
      if ExactHit(recs[n - 1], queryUpper, q) {
        PositionsConcat(prev, [x]);
      }
    } else {
      PositionsConcat(prev, [x]);
      assert Positions(prev + [x])[|prev|] == i;
    }
  }

  /** A record is in the exact tier exactly when it is an exact hit. */
  lemma ExactMatchMember(recs: seq<Record>, query: string, q: string, i: nat)
    ensures i in Positions(ExactMatch(recs, query, q)) <==>
      i < |recs| && ExactHit(recs[i], Upper(query), q)
  {
    if i < |recs| && ExactHit(recs[i], Upper(query), q) {
      ExactUpToComplete(recs, Upper(query), q, |recs|, i);
    }
  }

  lemma ContainsEmpty(s: string)
    ensures Contains(s, "")
  {
    assert s[..0] == "";
  }

  /** The positions `0 .. n-1`, in order. */
  function Range(n: nat): (r: seq<nat>)
    ensures |r| == n
    ensures forall j :: 0 <= j < n ==> r[j] == j
  {
    seq(n, j => j)
  }

  /** An empty normalised query is contained in every name, so every record
      is an exact hit and the exact tier is the whole catalog in order. */
  lemma {:induction false} ExactEmptyQuery(recs: seq<Record>, queryUpper: string, n: nat)
    requires n <= |recs|
    ensures Positions(ExactUpTo(recs, queryUpper, "", n)) == Range(n)
    decreases n
  {
    if n > 0 {
      var prev := ExactUpTo(recs, queryUpper, "", n - 1);
      var x := MatchResult(n - 1, 100.0, Exact);
      assert ExactUpTo(recs, queryUpper, "", n) == prev + [x] by {
        ContainsEmpty(recs[n - 1].cleanName);
      }
      ExactEmptyQuery(recs, queryUpper, n - 1);
      PositionsConcat(prev, [x]);
      assert Range(n) == Range(n - 1) + [n - 1];
    }
  }

  /** Querying a record's own company name finds it in the exact tier: the
      normalised query is the record's normalised name. */
  lemma ExactFindsOwnName(nfkd: Nfkd, recs: seq<Record>, i: nat)
    requires i < |recs| && WellFormed(nfkd, recs[i])
    ensures i in Positions(ExactMatch(recs, recs[i].name, Clean(nfkd, recs[i].name)))
  {
    ExactMatchMember(recs, recs[i].name, Clean(nfkd, recs[i].name), i);
  }

  /** A symbol already in upper case is an exact hit for its own record. */
  lemma ExactFindsOwnSymbol(nfkd: Nfkd, recs: seq<Record>, i: nat)
    requires i < |recs| && Upper(recs[i].symbol) == recs[i].symbol
    ensures i in Positions(ExactMatch(recs, recs[i].symbol, Clean(nfkd, recs[i].symbol)))
  {
    ExactMatchMember(recs, recs[i].symbol, Clean(nfkd, recs[i].symbol), i);
  }

  /* --------------------------------------------------------------- prefix */

  /** `_prefix_match`: the union of the positions filed under the query's
      prefixes of length 2 up to 4. */
  function PrefixCandidates(ix: Index, q: string): set<nat> {
    set p, i | p in Prefixes(q) && i in Lookup(ix, p) :: i
  }

  /** The first two characters of `a` and `q` agree. */
  predicate SharesStart(a: string, q: string) {
    |a| >= 2 && |q| >= 2 && a[..2] == q[..2]
  }

  lemma PrefixTierSound(metaphone: string -> string, recs: seq<Record>, q: string, i: nat)
    requires i in PrefixCandidates(BuildIndices(metaphone, recs).prefix, q)
    ensures i < |recs| && (SharesStart(recs[i].cleanName, q) || SharesStart(Lower(recs[i].symbol), q))
  {
    var ix := BuildIndices(metaphone, recs).prefix;
    var p :| p in Prefixes(q) && i in Lookup(ix, p);
    PrefixesChar(q, p);
    PrefixIndexMember(metaphone, recs, p, i);
    SliceOfSlice(q, |p|, 2);
    if |p| <= |recs[i].cleanName| && recs[i].cleanName[..|p|] == p {
      SliceOfSlice(recs[i].cleanName, |p|, 2);
    } else {
      SliceOfSlice(Lower(recs[i].symbol), |p|, 2);
    }
  }

  lemma SliceOfSlice(s: string, m: nat, n: nat)
    requires n <= m <= |s|
    ensures s[..m][..n] == s[..n]
  {
  }

  lemma PrefixTierComplete(metaphone: string -> string, recs: seq<Record>, q: string, i: nat)
    requires i < |recs| && (SharesStart(recs[i].cleanName, q) || SharesStart(Lower(recs[i].symbol), q))
    ensures i in PrefixCandidates(BuildIndices(metaphone, recs).prefix, q)
  {
    var p := q[..2];
    PrefixesChar(q, p);
    PrefixIndexMember(metaphone, recs, p, i);
  }

  /** The prefix tier holds exactly the records whose normalised name or
      lower-cased symbol starts with the query's first two characters: the
      lookups under the longer prefixes never add a candidate. */
  lemma PrefixTierMember(metaphone: string -> string, recs: seq<Record>, q: string, i: nat)
    ensures i in PrefixCandidates(BuildIndices(metaphone, recs).prefix, q) <==>
      i < |recs| && (SharesStart(recs[i].cleanName, q) || SharesStart(Lower(recs[i].symbol), q))
  {
    if i in PrefixCandidates(BuildIndices(metaphone, recs).prefix, q) {
      PrefixTierSound(metaphone, recs, q, i);
    }
    if i < |recs| && (SharesStart(recs[i].cleanName, q) || SharesStart(Lower(recs[i].symbol), q)) {
      PrefixTierComplete(metaphone, recs, q, i);
    }
  }

  /* ----------------------------------------------------------------- word */

  /** `_word_match`: the union of the positions filed under the query's
      words of at least two characters. */
  function WordCandidates(ix: Index, q: string): set<nat> {
    set w, i | w in Words(q) && |w| >= 2 && i in Lookup(ix, w) :: i
  }

  /** A word of at least two characters of the query is a word of `name`. */
  predicate SharesWord(name: string, q: string) {
    exists w :: w in Words(q) && |w| >= 2 && w in Words(name)
  }

  /** The word tier holds exactly the records whose normalised name shares a
      word of at least two characters with the query. */
  lemma WordTierMember(metaphone: string -> string, recs: seq<Record>, q: string, i: nat)
    ensures i in WordCandidates(BuildIndices(metaphone, recs).word, q) <==>
      i < |recs| && SharesWord(recs[i].cleanName, q)
  {
    var ix := BuildIndices(metaphone, recs).word;
    if i in WordCandidates(ix, q) {
      var w :| w in Words(q) && |w| >= 2 && i in Lookup(ix, w);
      WordIndexMember(metaphone, recs, w, i);
    }
    if i < |recs| && SharesWord(recs[i].cleanName, q) {
      var w :| w in Words(q) && |w| >= 2 && w in Words(recs[i].cleanName);
      WordIndexMember(metaphone, recs, w, i);
    }
  }

  /* -------------------------------------------------------------- trigram */

  /** `set(l)` listed without repeats. */
  function Dedup(l: seq<string>): (r: seq<string>)
    ensures NoDuplicates(r)
    ensures forall x :: x in r <==> x in l
  {
    if l == [] then []
    else if l[0] in l[1..] then Dedup(l[1..])
    else [l[0]] + Dedup(l[1..])
  }

  /** `defaultdict(int)` from catalog position to score. */
  type Tally = map<nat, nat>

  function Count(m: Tally, i: nat): nat {
    if i in m then m[i] else 0
  }

  /** `for idx in l: scores[idx] += 1` */
  function TallyList(m: Tally, l: seq<nat>): Tally
    decreases |l|
  {
    if l == [] then m else TallyList(m[l[0] := Count(m, l[0]) + 1], l[1..])
  }

  /** The trigram loop of `_trigram_match` over the query's distinct
      trigrams `ts`. A trigram missing from the table contributes nothing,
      as the `in` test skips it. */
  function TallyTrigrams(ix: Index, ts: seq<string>): Tally
    decreases |ts|
  {
    if ts == [] then map[]
    else TallyList(TallyTrigrams(ix, ts[..|ts| - 1]), Lookup(ix, ts[|ts| - 1]))
  }

  /** Total number of times position `i` is filed under the keys `ts`. */
  function Filed(ix: Index, ts: seq<string>, i: nat): nat
    decreases |ts|
  {
    if ts == [] then 0 else Filed(ix, ts[..|ts| - 1], i) + Occurrences(Lookup(ix, ts[|ts| - 1]), i)
  }

  /** Only positive scores are stored. */
  predicate AllPositive(m: Tally) {
    forall i :: i in m ==> m[i] > 0
  }

  lemma {:induction false} TallyListCount(m: Tally, l: seq<nat>, i: nat)
    requires AllPositive(m)
    ensures AllPositive(TallyList(m, l))
    ensures Count(TallyList(m, l), i) == Count(m, i) + Occurrences(l, i)
    decreases |l|
  {
    if l != [] {
      var m1 := m[l[0] := Count(m, l[0]) + 1];
      TallyListCount(m1, l[1..], i);
    }
  }

  /** The tally scores each position by the number of times it is filed
      under the query's trigrams, and holds exactly the positions so filed. */
  lemma {:induction false} TallyTrigramsCount(ix: Index, ts: seq<string>, i: nat)
    ensures AllPositive(TallyTrigrams(ix, ts))
    ensures Count(TallyTrigrams(ix, ts), i) == Filed(ix, ts, i)
    ensures i in TallyTrigrams(ix, ts) <==> Filed(ix, ts, i) > 0
    decreases |ts|
  {
    if ts != [] {
      var n := |ts| - 1;
      TallyTrigramsCount(ix, ts[..n], i);
      TallyListCount(TallyTrigrams(ix, ts[..n]), Lookup(ix, ts[n]), i);
    }
  }

  /** `score >= max(1, len(query_trigrams) * 0.3)`, in integers. */
  predicate MeetsTrigramThreshold(score: nat, distinct: nat) {
    score >= 1 && 10 * score >= 3 * distinct
  }

  /** The integer form agrees with the source's threshold in exact
      arithmetic. */
  lemma TrigramThresholdExact(score: nat, distinct: nat)
    ensures MeetsTrigramThreshold(score, distinct) <==>
      score as real >= Max(1.0, distinct as real * 0.3)
  {
  }

  /** The query's distinct padded trigrams. */
  function QueryTrigrams(q: string): seq<string> {
    Dedup(Trigrams(q))
  }

  /** `_trigram_match`: the positions whose tally reaches the threshold. */
  function TrigramCandidates(ix: Index, q: string): set<nat> {
    var ts := QueryTrigrams(q);
    var tally := TallyTrigrams(ix, ts);
    set i | i in tally && MeetsTrigramThreshold(tally[i], |ts|)
  }

  /** How many of the trigrams `l` (repeats counted) are among `ts`. */
  function CountIn(l: seq<string>, ts: seq<string>): nat {
    if l == [] then 0 else (if l[0] in ts then 1 else 0) + CountIn(l[1..], ts)
  }

  /** Summing a list's occurrences over keys without repeats counts the
      list's members that are keys. */
  function SumOccurrences(l: seq<string>, ts: seq<string>): nat
    decreases |ts|
  {
    if ts == [] then 0
    else SumOccurrences(l, ts[..|ts| - 1]) + Occurrences(l, ts[|ts| - 1])
  }

  lemma {:induction false} SumOccurrencesCons(a: string, l: seq<string>, ts: seq<string>)
    ensures SumOccurrences([a] + l, ts) == Occurrences(ts, a) + SumOccurrences(l, ts)
    decreases |ts|
  {
    if ts != [] {
      var n := |ts| - 1;
      SumOccurrencesCons(a, l, ts[..n]);
      assert ts == ts[..n] + [ts[n]];
      OccurrencesConcat(ts[..n], [ts[n]], a);
      assert ([a] + l)[1..] == l;
    }
  }

  lemma {:induction false} OccurrencesOnce(ts: seq<string>, a: string)
    requires NoDuplicates(ts)
    ensures Occurrences(ts, a) == if a in ts then 1 else 0
    decreases |ts|
  {
    if ts != [] {
      assert NoDuplicates(ts[1..]) by {
        forall x, y | 0 <= x < y < |ts[1..]| ensures ts[1..][x] != ts[1..][y] {
          assert ts[1..][x] == ts[x + 1] && ts[1..][y] == ts[y + 1];
        }
      }
      OccurrencesOnce(ts[1..], a);
      if ts[0] == a {
        assert a !in ts[1..];
      } else {
        assert a in ts <==> a in ts[1..] by { assert ts == [ts[0]] + ts[1..]; }
      }
    }
  }

  lemma {:induction false} SumOccurrencesIsCountIn(l: seq<string>, ts: seq<string>)
    requires NoDuplicates(ts)
    ensures SumOccurrences(l, ts) == CountIn(l, ts)
    decreases |l|
  {
    if l == [] {
      SumOccurrencesNil(ts);
    } else {
      SumOccurrencesIsCountIn(l[1..], ts);
      assert l == [l[0]] + l[1..];
      SumOccurrencesCons(l[0], l[1..], ts);
      OccurrencesOnce(ts, l[0]);
    }
  }

  lemma {:induction false} SumOccurrencesNil(ts: seq<string>)
    ensures SumOccurrences([], ts) == 0
    decreases |ts|
  {
    if ts != [] {
      SumOccurrencesNil(ts[..|ts| - 1]);
    }
  }

  /** Over the built trigram table, the filing count of a record is the sum
      of its occurrences under each query trigram. */
  lemma {:induction false} FiledTrigrams(metaphone: string -> string, recs: seq<Record>, ts: seq<string>, i: nat)
    requires i < |recs|
    ensures Filed(BuildIndices(metaphone, recs).trigram, ts, i)
      == SumOccurrences(Trigrams(recs[i].cleanName), ts)
    decreases |ts|
  {
    if ts != [] {
      var n := |ts| - 1;
      FiledTrigrams(metaphone, recs, ts[..n], i);
      TrigramIndexCount(metaphone, recs, ts[n], i);
    }
  }

  /** Positions outside the catalog are never filed. */
  lemma {:induction false} FiledOutside(metaphone: string -> string, recs: seq<Record>, ts: seq<string>, i: nat)
    requires i >= |recs|
    ensures Filed(BuildIndices(metaphone, recs).trigram, ts, i) == 0
    decreases |ts|
  {
    if ts != [] {
      var n := |ts| - 1;
      var l := Lookup(BuildIndices(metaphone, recs).trigram, ts[n]);
      FiledOutside(metaphone, recs, ts[..n], i);
      IndicesInRange(metaphone, recs, ts[n]);
      OccurrencesPositive(l, i);
    }
  }

  /** The score of a record in the trigram tier: how many of its name's
      padded trigrams, repeats counted, are trigrams of the query. */
  function TrigramScore(r: Record, q: string): nat {
    CountIn(Trigrams(r.cleanName), QueryTrigrams(q))
  }

  /** The trigram tier holds exactly the records whose trigram score is at
      least one and at least three tenths of the query's distinct trigram
      count. */
  lemma TrigramTierMember(metaphone: string -> string, recs: seq<Record>, q: string, i: nat)
    ensures i in TrigramCandidates(BuildIndices(metaphone, recs).trigram, q) <==>
      i < |recs| && MeetsTrigramThreshold(TrigramScore(recs[i], q), |QueryTrigrams(q)|)
  {
    var ix := BuildIndices(metaphone, recs).trigram;
    var ts := QueryTrigrams(q);
    TallyTrigramsCount(ix, ts, i);
    if i < |recs| {
      FiledTrigrams(metaphone, recs, ts, i);
      SumOccurrencesIsCountIn(Trigrams(recs[i].cleanName), ts);
    } else {
      FiledOutside(metaphone, recs, ts, i);
    }
  }

  /* ------------------------------------------------------------- phonetic */

  /** `_phonetic_match`: the list filed under the query's phonetic code, or
      nothing when the code is empty or unknown. */
  function PhoneticCandidates(ix: Index, metaphone: string -> string, q: string): seq<nat> {
    var code := PhoneticCode(metaphone, q);
    if code != "" then Lookup(ix, code) else []
  }

  /** The phonetic tier lists, in catalog order and without repeats, exactly
      the records whose phonetic code is the query's non-empty code. */
  lemma PhoneticTierMember(metaphone: string -> string, recs: seq<Record>, q: string)
    ensures var l := PhoneticCandidates(BuildIndices(metaphone, recs).phonetic, metaphone, q);
      && (forall i: nat :: i in l <==>
            i < |recs| && PhoneticCode(metaphone, q) != ""
            && PhoneticCode(metaphone, recs[i].cleanName) == PhoneticCode(metaphone, q))
      && (forall a, b :: 0 <= a < b < |l| ==> l[a] < l[b])
  {
    var code := PhoneticCode(metaphone, q);
    var ix := BuildIndices(metaphone, recs).phonetic;
    PhoneticListsStrict(metaphone, recs, code);
    forall i: nat
      ensures i in PhoneticCandidates(ix, metaphone, q) <==>
        i < |recs| && code != "" && PhoneticCode(metaphone, recs[i].cleanName) == code
    {
      PhoneticIndexMember(metaphone, recs, code, i);
    }
  }
}
