/** Scoring and ordering of candidates: `_rank_matches` for the indexed tiers
    and `_fuzzy_fallback` for the last resort. */
module Ranking {
  import opened Text
  import opened Externals
  import opened Catalog

  datatype MatchKind = Exact | Similarity | Fuzzy

  /** One entry of a result list: the catalog position of the stock, its
      score and the tag naming how it was found. */
  datatype MatchResult = MatchResult(pos: nat, score: real, kind: MatchKind)

  /** Ranked candidates scoring below this are discarded. */
  const ScoreFloor: real := 30.0

  /** Fuzzy-fallback candidates scoring below this are discarded. */
  const FuzzyCutoff: real := 60.0

  function Max(a: real, b: real): real {
    if a >= b then a else b
  }

  /** Similarity of the query to a record's normalised name. */
  function NameSimilarity(ratio: Ratio, r: Record, q: string): Unit {
    ratio(q, r.cleanName)
  }

  /** Similarity of the query to a record's lower-cased symbol. */
  function SymbolSimilarity(ratio: Ratio, r: Record, q: string): Unit {
    ratio(q, Lower(r.symbol))
  }

  /** `max(name * 0.7 + symbol * 0.3, name, symbol) * 100` */
  function FinalScore(ratio: Ratio, r: Record, q: string): real {
    var n := NameSimilarity(ratio, r, q);
    var s := SymbolSimilarity(ratio, r, q);
    Max(Max(n * 0.7 + s * 0.3, n), s) * 100.0
  }

  /** The weighted blend never exceeds the larger of its two parts, so the
      final score is always the better of the two similarities, scaled to
      0..100; the 0.7/0.3 weighting never decides a score. */
  lemma FinalScoreIsBestSimilarity(ratio: Ratio, r: Record, q: string)
    ensures FinalScore(ratio, r, q)
      == 100.0 * Max(NameSimilarity(ratio, r, q), SymbolSimilarity(ratio, r, q))
    ensures 0.0 <= FinalScore(ratio, r, q) <= 100.0
  {
  }

  /** The catalog positions of a result list, in order. */
  function Positions(ms: seq<MatchResult>): (ps: seq<nat>)
    ensures |ps| == |ms|
    ensures forall j :: 0 <= j < |ms| ==> ps[j] == ms[j].pos
  {
    seq(|ms|, j requires 0 <= j < |ms| => ms[j].pos)
  }

  lemma PositionsConcat(a: seq<MatchResult>, b: seq<MatchResult>)
    ensures Positions(a + b) == Positions(a) + Positions(b)
  {
  }

  predicate SortedDesc(ms: seq<MatchResult>) {
    forall a, b :: 0 <= a < b < |ms| ==> ms[a].score >= ms[b].score
  }

  /** The entries of `ms` scoring exactly `v`, in their order in `ms`. */
  function WithScore(ms: seq<MatchResult>, v: real): seq<MatchResult> {
    if ms == [] then []
    else (if ms[0].score == v then [ms[0]] else []) + WithScore(ms[1..], v)
  }

  lemma {:induction false} WithScoreConcat(a: seq<MatchResult>, b: seq<MatchResult>, v: real)
    ensures WithScore(a + b, v) == WithScore(a, v) + WithScore(b, v)
    decreases |a|
  {
    if a == [] {
      assert a + b == b;
    } else {
      var h := if a[0].score == v then [a[0]] else [];
      assert (a + b)[0] == a[0];
      assert (a + b)[1..] == a[1..] + b;
      assert WithScore(a + b, v) == h + WithScore(a[1..] + b, v);
      WithScoreConcat(a[1..], b, v);
      assert WithScore(a, v) == h + WithScore(a[1..], v);
    }
  }

  lemma {:induction false} WithScoreNone(ms: seq<MatchResult>, v: real)
    requires forall j :: 0 <= j < |ms| ==> ms[j].score < v
    ensures WithScore(ms, v) == []
    decreases |ms|
  {
    if ms != [] {
      WithScoreNone(ms[1..], v);
    }
  }

  /** Where a stable descending insertion puts `x`: after every entry of `l`
      scoring at least as much, before the first that scores less. */
  function InsertionPoint(l: seq<MatchResult>, x: MatchResult): (p: nat)
    ensures p <= |l|
    ensures forall j :: 0 <= j < p ==> l[j].score >= x.score
    ensures p < |l| ==> l[p].score < x.score
  {
    if l == [] || l[0].score < x.score then 0 else 1 + InsertionPoint(l[1..], x)
  }

  function Insert(l: seq<MatchResult>, x: MatchResult): seq<MatchResult> {
    var p := InsertionPoint(l, x);
    l[..p] + [x] + l[p..]
  }

  lemma InsertPermutes(l: seq<MatchResult>, x: MatchResult)
    ensures multiset(Insert(l, x)) == multiset(l) + multiset{x}
    ensures multiset(Positions(Insert(l, x))) == multiset(Positions(l)) + multiset{x.pos}
  {
    InsertEntries(l, x);
    InsertPositions(l, x);
  }

  lemma InsertEntries(l: seq<MatchResult>, x: MatchResult)
    ensures multiset(Insert(l, x)) == multiset(l) + multiset{x}
  {
    var p := InsertionPoint(l, x);
    var a, b := l[..p], l[p..];
    assert l == a + b;
    assert Insert(l, x) == a + [x] + b;
    assert multiset(a + [x] + b) == multiset(a) + multiset{x} + multiset(b);
  }

  lemma InsertPositions(l: seq<MatchResult>, x: MatchResult)
    ensures multiset(Positions(Insert(l, x))) == multiset(Positions(l)) + multiset{x.pos}
  {
    var p := InsertionPoint(l, x);
    var a, b := l[..p], l[p..];
    var pa, pb := Positions(a), Positions(b);
    assert Positions(Insert(l, x)) == pa + [x.pos] + pb by {
      assert Insert(l, x) == a + [x] + b;
      PositionsConcat(a + [x], b);
      PositionsConcat(a, [x]);
    }
    assert Positions(l) == pa + pb by {
      assert l == a + b;
      PositionsConcat(a, b);
    }
    assert multiset(pa + [x.pos] + pb) == multiset(pa) + multiset{x.pos} + multiset(pb);
  }

  lemma InsertSorted(l: seq<MatchResult>, x: MatchResult)
    requires SortedDesc(l)
    ensures SortedDesc(Insert(l, x))
  {
    var p := InsertionPoint(l, x);
    var r := Insert(l, x);
    forall a, b | 0 <= a < b < |r| ensures r[a].score >= r[b].score {
      if b < p {
        assert r[a] == l[a] && r[b] == l[b];
      } else if b == p {
        assert r[a] == l[a];
      } else if a < p {
        assert r[a] == l[a] && r[b] == l[b - 1];
      } else if a == p {
        assert r[b] == l[b - 1];
      } else {
        assert r[a] == l[a - 1] && r[b] == l[b - 1];
      }
    }
  }

  /** Insertion is stable: among the entries scoring `v`, `x` comes last. */
  lemma InsertWithScore(l: seq<MatchResult>, x: MatchResult, v: real)
    requires SortedDesc(l)
    ensures WithScore(Insert(l, x), v) == WithScore(l, v) + WithScore([x], v)
  {
    var p := InsertionPoint(l, x);
    var a, b := l[..p], l[p..];
    assert l == a + b;
    assert Insert(l, x) == (a + [x]) + b;
    WithScoreConcat(a + [x], b, v);
    WithScoreConcat(a, [x], v);
    WithScoreConcat(a, b, v);
    if x.score == v {
      assert forall j :: 0 <= j < |b| ==> b[j].score < v by {
        forall j | 0 <= j < |b| ensures b[j].score < v {
          assert b[j] == l[p + j] && l[p].score >= l[p + j].score;
        }
      }
      WithScoreNone(b, v);
    } else {
      assert WithScore([x], v) == [];
    }
  }

  /** `sorted(ms, key=score, reverse=True)`, built by stable insertion; a
      stable sort's result is unique, so this is the list Python returns. */
  function SortDesc(ms: seq<MatchResult>): seq<MatchResult>
    decreases |ms|
  {
    if ms == [] then [] else Insert(SortDesc(ms[..|ms| - 1]), ms[|ms| - 1])
  }

  lemma {:induction false} SortDescSorted(ms: seq<MatchResult>)
    ensures SortedDesc(SortDesc(ms))
    decreases |ms|
  {
    if ms != [] {
      SortDescSorted(ms[..|ms| - 1]);
      InsertSorted(SortDesc(ms[..|ms| - 1]), ms[|ms| - 1]);
    }
  }

  lemma {:induction false} SortDescPermutes(ms: seq<MatchResult>)
    ensures multiset(SortDesc(ms)) == multiset(ms)
    decreases |ms|
  {
    if ms != [] {
      var n := |ms| - 1;
      var l := SortDesc(ms[..n]);
      SortDescPermutes(ms[..n]);
      InsertPermutes(l, ms[n]);
      SplitLast(ms);
      assert SortDesc(ms) == Insert(l, ms[n]);
    }
  }

  lemma SplitLast<T>(s: seq<T>)
    requires s != []
    ensures multiset(s) == multiset(s[..|s| - 1]) + multiset{s[|s| - 1]}
  {
    assert s == s[..|s| - 1] + [s[|s| - 1]];
  }

  lemma PositionsSnoc(ms: seq<MatchResult>)
    requires ms != []
    ensures multiset(Positions(ms)) == multiset(Positions(ms[..|ms| - 1])) + multiset{ms[|ms| - 1].pos}
  {
    var n := |ms| - 1;
    assert ms == ms[..n] + [ms[n]];
    PositionsConcat(ms[..n], [ms[n]]);
  }

  lemma {:induction false} SortDescPermutesPositions(ms: seq<MatchResult>)
    ensures multiset(Positions(SortDesc(ms))) == multiset(Positions(ms))
    decreases |ms|
  {
    if ms != [] {
      var n := |ms| - 1;
      var l := SortDesc(ms[..n]);
      SortDescPermutesPositions(ms[..n]);
      InsertPermutes(l, ms[n]);
      PositionsSnoc(ms);
      assert SortDesc(ms) == Insert(l, ms[n]);
    }
  }

  /** The sort is stable: the entries of any one score appear in the order
      they had before sorting. */
  lemma {:induction false} SortDescStable(ms: seq<MatchResult>, v: real)
    ensures WithScore(SortDesc(ms), v) == WithScore(ms, v)
    decreases |ms|
  {
    if ms != [] {
      var n := |ms| - 1;
      SortDescStable(ms[..n], v);
      SortDescSorted(ms[..n]);
      InsertWithScore(SortDesc(ms[..n]), ms[n], v);
      assert ms == ms[..n] + [ms[n]];
      WithScoreConcat(ms[..n], [ms[n]], v);
    }
  }

  /** The candidates whose final score reaches the floor, in candidate order,
      each tagged `similarity`. */
  function Survivors(ratio: Ratio, recs: seq<Record>, q: string, cands: seq<nat>): (ms: seq<MatchResult>)
    requires forall j :: 0 <= j < |cands| ==> cands[j] < |recs|
    ensures forall j :: 0 <= j < |ms| ==>
      ms[j].kind == Similarity && ms[j].pos < |recs| && ms[j].pos in cands
      && ms[j].score == FinalScore(ratio, recs[ms[j].pos], q) && ms[j].score >= ScoreFloor
    ensures forall i :: i in cands && FinalScore(ratio, recs[i], q) >= ScoreFloor ==> i in Positions(ms)
    ensures |ms| <= |cands|
  {
    if cands == [] then []
    else
      var i := cands[0];
      var rest := Survivors(ratio, recs, q, cands[1..]);
      assert cands == [i] + cands[1..];
      var s := FinalScore(ratio, recs[i], q);
      if s >= ScoreFloor then
        var m := MatchResult(i, s, Similarity);
        PositionsCons(m, rest);
        [m] + rest
      else
        rest
  }

  /** A single candidate survives, scored and tagged, exactly when its final
      score reaches the floor. */
  lemma SurvivorsUnit(ratio: Ratio, recs: seq<Record>, q: string, i: nat)
    requires i < |recs|
    ensures var s := FinalScore(ratio, recs[i], q);
      Survivors(ratio, recs, q, [i]) == if s >= ScoreFloor then [MatchResult(i, s, Similarity)] else []
  {
    assert [i][1..] == [];
  }

  /** The survivors of two candidate lists in a row are the survivors of the
      first followed by those of the second: filtering keeps candidate order. */
  lemma SurvivorsConcat(ratio: Ratio, recs: seq<Record>, q: string, a: seq<nat>, b: seq<nat>)
    requires forall j :: 0 <= j < |a| ==> a[j] < |recs|
    requires forall j :: 0 <= j < |b| ==> b[j] < |recs|
    ensures forall j :: 0 <= j < |a + b| ==> (a + b)[j] < |recs|
    ensures Survivors(ratio, recs, q, a + b) == Survivors(ratio, recs, q, a) + Survivors(ratio, recs, q, b)
  {
    InRangeConcat(a, b, |recs|);
    KeptConcat(ratio, recs, q, a, b);
    SurvivorsAreKept(ratio, recs, q, a);
    SurvivorsAreKept(ratio, recs, q, b);
    SurvivorsAreKept(ratio, recs, q, a + b);
  }

  lemma InRangeConcat(a: seq<nat>, b: seq<nat>, n: nat)
    requires forall j :: 0 <= j < |a| ==> a[j] < n
    requires forall j :: 0 <= j < |b| ==> b[j] < n
    ensures forall j :: 0 <= j < |a + b| ==> (a + b)[j] < n
  {
    forall j | 0 <= j < |a + b| ensures (a + b)[j] < n {
      if j >= |a| {
        assert (a + b)[j] == b[j - |a|];
      }
    }
  }

  /** The recursion of `Survivors` without its postconditions, which keeps
      the proof of `SurvivorsConcat` small; a position outside the catalog is
      dropped. */
  function Kept(ratio: Ratio, recs: seq<Record>, q: string, cands: seq<nat>): seq<MatchResult>
    decreases |cands|
  {
    if cands == [] then []
    else
      var i := cands[0];
      var rest := Kept(ratio, recs, q, cands[1..]);
      if i < |recs| && FinalScore(ratio, recs[i], q) >= ScoreFloor then
        [MatchResult(i, FinalScore(ratio, recs[i], q), Similarity)] + rest
      else
        rest
  }

  lemma {:induction false} KeptConcat(ratio: Ratio, recs: seq<Record>, q: string, a: seq<nat>, b: seq<nat>)
    ensures Kept(ratio, recs, q, a + b) == Kept(ratio, recs, q, a) + Kept(ratio, recs, q, b)
    decreases |a|
  {
    if a == [] {
      assert a + b == b;
    } else {
      assert (a + b)[0] == a[0];
      assert (a + b)[1..] == a[1..] + b;
      KeptConcat(ratio, recs, q, a[1..], b);
    }
  }

  lemma {:induction false} SurvivorsAreKept(ratio: Ratio, recs: seq<Record>, q: string, cands: seq<nat>)
    requires forall j :: 0 <= j < |cands| ==> cands[j] < |recs|
    ensures Survivors(ratio, recs, q, cands) == Kept(ratio, recs, q, cands)
    decreases |cands|
  {
    if cands != [] {
      SurvivorsAreKept(ratio, recs, q, cands[1..]);
    }
  }

  lemma PositionsCons(m: MatchResult, ms: seq<MatchResult>)
    ensures Positions([m] + ms) == [m.pos] + Positions(ms)
  {
  }

  lemma NoDuplicatesTail(l: seq<nat>)
    requires l != [] && NoDuplicates(l)
    ensures NoDuplicates(l[1..]) && l[0] !in l[1..]
  {
    forall a, b | 0 <= a < b < |l[1..]| ensures l[1..][a] != l[1..][b] {
      assert l[1..][a] == l[a + 1] && l[1..][b] == l[b + 1];
    }
  }

  /** Filtering keeps a repeat-free candidate list repeat-free. */
  lemma {:induction false} SurvivorsDistinct(ratio: Ratio, recs: seq<Record>, q: string, cands: seq<nat>)
    requires forall j :: 0 <= j < |cands| ==> cands[j] < |recs|
    requires NoDuplicates(cands)
    ensures NoDuplicates(Positions(Survivors(ratio, recs, q, cands)))
    decreases |cands|
  {
    if cands != [] {
      NoDuplicatesTail(cands);
      SurvivorsDistinct(ratio, recs, q, cands[1..]);
      var rest := Survivors(ratio, recs, q, cands[1..]);
      assert cands[0] !in Positions(rest);
    }
  }

  /** A list without repeats has each element at most once in its multiset. */
  lemma {:induction false} NoDuplicatesCounts(l: seq<nat>)
    ensures NoDuplicates(l) <==> forall x :: multiset(l)[x] <= 1
    decreases |l|
  {
    if l != [] {
      NoDuplicatesCounts(l[1..]);
      assert l == [l[0]] + l[1..];
      if NoDuplicates(l) {
        NoDuplicatesTail(l);
      } else {
        var a, b :| 0 <= a < b < |l| && l[a] == l[b];
        if a == 0 {
          assert l[b] == l[1..][b - 1];
          assert multiset(l[1..])[l[0]] >= 1;
          assert multiset(l)[l[0]] >= 2;
        } else {
          assert !NoDuplicates(l[1..]) by { assert l[1..][a - 1] == l[1..][b - 1]; }
          var x :| multiset(l[1..])[x] > 1;
          assert multiset(l)[x] > 1;
        }
      }
    }
  }

  /** Reordering a list without repeats leaves it without repeats. */
  lemma PermutationKeepsDistinct(a: seq<nat>, b: seq<nat>)
    requires multiset(a) == multiset(b) && NoDuplicates(a)
    ensures NoDuplicates(b)
  {
    NoDuplicatesCounts(a);
    NoDuplicatesCounts(b);
  }

  /** Sorting neither adds nor loses entries. */
  lemma SortDescMembers(ms: seq<MatchResult>)
    ensures |SortDesc(ms)| == |ms|
    ensures forall j :: 0 <= j < |SortDesc(ms)| ==> SortDesc(ms)[j] in ms
    ensures forall j :: 0 <= j < |ms| ==> ms[j] in SortDesc(ms)
  {
    var r := SortDesc(ms);
    SortDescPermutes(ms);
    assert |r| == |multiset(r)| == |multiset(ms)| == |ms|;
    forall j | 0 <= j < |r| ensures r[j] in ms {
      assert r[j] in multiset(r);
    }
    forall j | 0 <= j < |ms| ensures ms[j] in r {
      assert ms[j] in multiset(ms);
    }
  }

  /** Sorting keeps the set of positions, and keeps it free of repeats. */
  lemma SortDescPositions(ms: seq<MatchResult>)
    ensures forall i :: i in Positions(ms) ==> i in Positions(SortDesc(ms))
    ensures NoDuplicates(Positions(ms)) ==> NoDuplicates(Positions(SortDesc(ms)))
  {
    SortDescPermutesPositions(ms);
    forall i | i in Positions(ms) ensures i in Positions(SortDesc(ms)) {
      assert i in multiset(Positions(ms));
    }
    if NoDuplicates(Positions(ms)) {
      PermutationKeepsDistinct(Positions(ms), Positions(SortDesc(ms)));
    }
  }

  /** What every ranked entry satisfies. */
  predicate RankedEntry(ratio: Ratio, recs: seq<Record>, cands: seq<nat>, q: string, m: MatchResult) {
    && m.kind == Similarity
    && m.pos in cands
    && m.pos < |recs|
    && m.score >= ScoreFloor
    && m.score == 100.0 * Max(NameSimilarity(ratio, recs[m.pos], q), SymbolSimilarity(ratio, recs[m.pos], q))
  }

  lemma RankEntries(ratio: Ratio, recs: seq<Record>, cands: seq<nat>, q: string)
    requires forall j :: 0 <= j < |cands| ==> cands[j] < |recs|
    ensures forall j :: 0 <= j < |SortDesc(Survivors(ratio, recs, q, cands))| ==>
      RankedEntry(ratio, recs, cands, q, SortDesc(Survivors(ratio, recs, q, cands))[j])
  {
    var ms := Survivors(ratio, recs, q, cands);
    var r := SortDesc(ms);
    SortDescMembers(ms);
    forall j | 0 <= j < |r| ensures RankedEntry(ratio, recs, cands, q, r[j]) {
      assert r[j] in ms;
      var k :| 0 <= k < |ms| && ms[k] == r[j];
      FinalScoreIsBestSimilarity(ratio, recs[ms[k].pos], q);
    }
  }

  lemma RankStable(ms: seq<MatchResult>)
    ensures forall v :: WithScore(SortDesc(ms), v) == WithScore(ms, v)
  {
    forall v ensures WithScore(SortDesc(ms), v) == WithScore(ms, v) {
      SortDescStable(ms, v);
    }
  }

  /** `_rank_matches`: score every candidate, drop those below the floor and
      order the rest by descending score; equal scores keep the candidates'
      order. */
  function Rank(ratio: Ratio, recs: seq<Record>, cands: seq<nat>, q: string): (r: seq<MatchResult>)
    requires forall j :: 0 <= j < |cands| ==> cands[j] < |recs|
    ensures forall j :: 0 <= j < |r| ==> RankedEntry(ratio, recs, cands, q, r[j])
    ensures SortedDesc(r)
    ensures forall i :: i in cands && FinalScore(ratio, recs[i], q) >= ScoreFloor ==> i in Positions(r)
    ensures NoDuplicates(cands) ==> NoDuplicates(Positions(r))
    ensures forall v :: WithScore(r, v) == WithScore(Survivors(ratio, recs, q, cands), v)
  {
    var ms := Survivors(ratio, recs, q, cands);
    SortDescSorted(ms);
    SortDescPositions(ms);
    assert NoDuplicates(cands) ==> NoDuplicates(Positions(ms)) by {
      if NoDuplicates(cands) {
        SurvivorsDistinct(ratio, recs, q, cands);
      }
    }
    RankEntries(ratio, recs, cands, q);
    RankStable(ms);
    SortDesc(ms)
  }

  /** A list sorted by descending score in which entries of equal score are
      in ascending catalog position. */
  predicate TiesAscending(ms: seq<MatchResult>) {
    forall a, b :: 0 <= a < b < |ms| && ms[a].score == ms[b].score ==> ms[a].pos < ms[b].pos
  }

  /** `m` comes before an entry of score `score` at position `pos` in an
      order by descending score, ties by ascending position. */
  predicate Outranks(m: MatchResult, score: real, pos: nat) {
    m.score > score || (m.score == score && m.pos < pos)
  }

  /** Every fuzzy score of the catalog at or above the cutoff, in catalog
      order. */
  function FuzzyHits(fuzz: FuzzRatio, recs: seq<Record>, q: string, n: nat): (ms: seq<MatchResult>)
    requires n <= |recs|
    ensures forall j :: 0 <= j < |ms| ==>
      ms[j].kind == Fuzzy && ms[j].pos < n
      && ms[j].score == fuzz(q, recs[ms[j].pos].cleanName) && ms[j].score >= FuzzyCutoff
    ensures forall a, b :: 0 <= a < b < |ms| ==> ms[a].pos < ms[b].pos
    decreases n
  {
    if n == 0 then []
    else
      var prev := FuzzyHits(fuzz, recs, q, n - 1);
      var s := fuzz(q, recs[n - 1].cleanName);
      if s >= FuzzyCutoff then prev + [MatchResult(n - 1, s, Fuzzy)] else prev
  }

  /** Every catalog position whose fuzzy score reaches the cutoff is a hit. */
  lemma {:induction false} FuzzyHitsComplete(fuzz: FuzzRatio, recs: seq<Record>, q: string, n: nat, i: nat)
    requires n <= |recs| && i < n && fuzz(q, recs[i].cleanName) >= FuzzyCutoff
    ensures i in Positions(FuzzyHits(fuzz, recs, q, n))
    decreases n
  {
    var prev := FuzzyHits(fuzz, recs, q, n - 1);
    var x := MatchResult(n - 1, fuzz(q, recs[n - 1].cleanName), Fuzzy);
    if i < n - 1 {
      FuzzyHitsComplete(fuzz, recs, q, n - 1, i);
      if x.score >= FuzzyCutoff {
        PositionsConcat(prev, [x]);
      }
    } else {
      PositionsConcat(prev, [x]);
      assert Positions(prev + [x])[|prev|] == i;
    }
  }

  /** Insertion keeps equal scores in ascending position when the new entry
      comes after every entry already placed. */
  lemma InsertTiesAscending(l: seq<MatchResult>, x: MatchResult)
    requires SortedDesc(l) && TiesAscending(l)
    requires forall j :: 0 <= j < |l| ==> l[j].pos < x.pos
    ensures TiesAscending(Insert(l, x))
  {
    var p := InsertionPoint(l, x);
    var r := Insert(l, x);
    forall a, b | 0 <= a < b < |r| && r[a].score == r[b].score ensures r[a].pos < r[b].pos {
      InsertAt(l, x, a);
      InsertAt(l, x, b);
      if p < b {
        BelowInsertionPoint(l, x, b - 1);
      }
    }
  }

  /** In a descending list every entry from the insertion point on scores
      less than the inserted one. */
  lemma BelowInsertionPoint(l: seq<MatchResult>, x: MatchResult, j: nat)
    requires SortedDesc(l) && InsertionPoint(l, x) <= j < |l|
    ensures l[j].score < x.score
  {
    var p := InsertionPoint(l, x);
    assert l[j].score <= l[p].score;
  }

  /** The entry at each index of an insertion. */
  lemma InsertAt(l: seq<MatchResult>, x: MatchResult, j: nat)
    requires j <= |l|
    ensures var p := InsertionPoint(l, x);
      Insert(l, x)[j] == if j < p then l[j] else if j == p then x else l[j - 1]
  {
  }

  /** Sorting a list with ascending positions leaves ties in ascending
      position. */
  lemma {:induction false} SortDescTiesAscending(ms: seq<MatchResult>)
    requires forall a, b :: 0 <= a < b < |ms| ==> ms[a].pos < ms[b].pos
    ensures TiesAscending(SortDesc(ms))
    decreases |ms|
  {
    if ms != [] {
      var n := |ms| - 1;
      SortDescTiesAscending(ms[..n]);
      var l := SortDesc(ms[..n]);
      SortDescSorted(ms[..n]);
      SortDescPermutes(ms[..n]);
      forall j | 0 <= j < |l| ensures l[j].pos < ms[n].pos {
        assert l[j] in multiset(ms[..n]);
      }
      InsertTiesAscending(l, ms[n]);
    }
  }

  /** A list with strictly ascending positions has no repeated position. */
  lemma AscendingDistinct(ms: seq<MatchResult>)
    requires forall a, b :: 0 <= a < b < |ms| ==> ms[a].pos < ms[b].pos
    ensures NoDuplicates(Positions(ms))
  {
  }

  /** `s[:k]` */
  function Take<T>(s: seq<T>, k: nat): (r: seq<T>)
    ensures |r| <= k && |r| <= |s|
    ensures |s| <= k ==> r == s
    ensures |s| > k ==> |r| == k
    ensures forall j :: 0 <= j < |r| ==> r[j] == s[j]
  {
    if |s| <= k then s else s[..k]
  }

  /** An entry of a descending list left out of its first `limit` entries
      scores no more than any entry kept. */
  lemma TopEntries(sorted: seq<MatchResult>, limit: nat, c: nat)
    requires SortedDesc(sorted)
    requires c < |sorted|
    requires sorted[c].pos !in Positions(Take(sorted, limit))
    ensures |sorted| > limit && c >= limit
    ensures forall j :: 0 <= j < limit ==> sorted[j].score >= sorted[c].score
  {
  }

  /** In a list sorted by score with ties by position, an entry left out of
      the first `limit` entries is outranked by every entry kept. */
  lemma TopEntriesOutrank(sorted: seq<MatchResult>, limit: nat, c: nat)
    requires SortedDesc(sorted) && TiesAscending(sorted)
    requires c < |sorted|
    requires sorted[c].pos !in Positions(Take(sorted, limit))
    ensures |sorted| > limit
    ensures forall j :: 0 <= j < limit ==> Outranks(sorted[j], sorted[c].score, sorted[c].pos)
  {
    TopEntries(sorted, limit, c);
  }

  /** A candidate whose score reaches the floor is kept by the ranking cut
      to `limit`, unless the cut list is full of entries that score at least
      as much. */
  lemma TakeRankComplete(ratio: Ratio, recs: seq<Record>, cands: seq<nat>, q: string, limit: nat, i: nat)
    requires forall j :: 0 <= j < |cands| ==> cands[j] < |recs|
    requires i in cands && FinalScore(ratio, recs[i], q) >= ScoreFloor
    ensures var r := Take(Rank(ratio, recs, cands, q), limit);
      i in Positions(r) || (|r| == limit && forall j :: 0 <= j < |r| ==> r[j].score >= FinalScore(ratio, recs[i], q))
  {
    var sorted := Rank(ratio, recs, cands, q);
    var r := Take(sorted, limit);
    assert i in Positions(sorted);
    if i !in Positions(r) {
      var c :| 0 <= c < |sorted| && sorted[c].pos == i;
      FinalScoreIsBestSimilarity(ratio, recs[i], q);
      assert RankedEntry(ratio, recs, cands, q, sorted[c]);
      TopEntries(sorted, limit, c);
    }
  }

  /** In a list of strictly ascending positions, the entry at index `c` has
      position at least `c`. */
  lemma {:induction false} AscendingAtLeastIndex(ms: seq<MatchResult>, c: nat)
    requires forall a, b :: 0 <= a < b < |ms| ==> ms[a].pos < ms[b].pos
    requires c < |ms|
    ensures ms[c].pos >= c
  {
    if c > 0 {
      AscendingAtLeastIndex(ms, c - 1);
    }
  }

  /** Cutting a list of strictly ascending positions to `k` keeps every
      position below `k`. */
  lemma TakeKeepsLow(ms: seq<MatchResult>, k: nat, i: nat)
    requires forall a, b :: 0 <= a < b < |ms| ==> ms[a].pos < ms[b].pos
    requires i in Positions(ms) && i < k
    ensures i in Positions(Take(ms, k))
  {
    var c :| 0 <= c < |ms| && Positions(ms)[c] == i;
    AscendingAtLeastIndex(ms, c);
    assert Positions(Take(ms, k))[c] == i;
  }

  /** The positions of a cut list are the cut list of positions. */
  lemma PositionsTake(ms: seq<MatchResult>, k: nat)
    ensures Positions(Take(ms, k)) == Take(Positions(ms), k)
  {
  }

  /** Sorting a list with ascending positions by descending score gives a
      list sorted by score, ties by position, with no repeated position. */
  lemma FallbackOrder(hits: seq<MatchResult>)
    requires forall a, b :: 0 <= a < b < |hits| ==> hits[a].pos < hits[b].pos
    ensures var sorted := SortDesc(hits);
      SortedDesc(sorted) && TiesAscending(sorted) && NoDuplicates(Positions(sorted))
  {
    SortDescSorted(hits);
    SortDescPermutesPositions(hits);
    SortDescTiesAscending(hits);
    AscendingDistinct(hits);
    PermutationKeepsDistinct(Positions(hits), Positions(SortDesc(hits)));
  }

  /** A hit that does not make the cut is outranked by every hit that does,
      and the cut is full. */
  lemma FallbackCut(hits: seq<MatchResult>, limit: nat, c: nat)
    requires SortedDesc(SortDesc(hits)) && TiesAscending(SortDesc(hits))
    requires c < |hits| && hits[c].pos !in Positions(Take(SortDesc(hits), limit))
    ensures |Take(SortDesc(hits), limit)| == limit
    ensures forall j :: 0 <= j < limit ==> Outranks(Take(SortDesc(hits), limit)[j], hits[c].score, hits[c].pos)
  {
    var sorted := SortDesc(hits);
    SortDescPermutes(hits);
    assert hits[c] in multiset(sorted);
    var d :| 0 <= d < |sorted| && sorted[d] == hits[c];
    TopEntriesOutrank(sorted, limit, d);
  }

  /** The cut list keeps only hits. */
  lemma FallbackMembers(hits: seq<MatchResult>, limit: nat)
    ensures forall j :: 0 <= j < |Take(SortDesc(hits), limit)| ==> Take(SortDesc(hits), limit)[j] in hits
  {
    SortDescMembers(hits);
  }

  /** A prefix of a list without repeated positions has none either. */
  lemma TakeDistinct(ms: seq<MatchResult>, limit: nat)
    requires NoDuplicates(Positions(ms))
    ensures NoDuplicates(Positions(Take(ms, limit)))
  {
    assert forall j :: 0 <= j < |Take(ms, limit)| ==> Positions(Take(ms, limit))[j] == Positions(ms)[j];
  }

  /** `_fuzzy_fallback`: every catalog name scored against the query, those
      at or above the cutoff sorted by descending score (ties by position)
      and cut to `limit`. */
  function FuzzyFallback(fuzz: FuzzRatio, recs: seq<Record>, q: string, limit: nat): (r: seq<MatchResult>)
    ensures |r| <= limit
    ensures forall j :: 0 <= j < |r| ==>
      r[j].kind == Fuzzy && r[j].pos < |recs|
      && r[j].score == fuzz(q, recs[r[j].pos].cleanName) && r[j].score >= FuzzyCutoff
    ensures SortedDesc(r) && TiesAscending(r)
    ensures NoDuplicates(Positions(r))
    ensures forall i :: (0 <= i < |recs| && fuzz(q, recs[i].cleanName) >= FuzzyCutoff
      && i !in Positions(r)) ==>
      |r| == limit && forall j :: 0 <= j < |r| ==> Outranks(r[j], fuzz(q, recs[i].cleanName), i)
  {
    var hits := FuzzyHits(fuzz, recs, q, |recs|);
    FallbackOrder(hits);
    TakeDistinct(SortDesc(hits), limit);
    FallbackMembers(hits, limit);
    FallbackComplete(fuzz, recs, q, limit);
    Take(SortDesc(hits), limit)
  }

  /** A qualifying name left out of the fallback is outranked by every name
      kept, and the list is full. */
  lemma FallbackComplete(fuzz: FuzzRatio, recs: seq<Record>, q: string, limit: nat)
    ensures var r := Take(SortDesc(FuzzyHits(fuzz, recs, q, |recs|)), limit);
      forall i :: (0 <= i < |recs| && fuzz(q, recs[i].cleanName) >= FuzzyCutoff
        && i !in Positions(r)) ==>
        |r| == limit && forall j :: 0 <= j < |r| ==> Outranks(r[j], fuzz(q, recs[i].cleanName), i)
  {
    var r := Take(SortDesc(FuzzyHits(fuzz, recs, q, |recs|)), limit);
    forall i | 0 <= i < |recs| && fuzz(q, recs[i].cleanName) >= FuzzyCutoff && i !in Positions(r)
      ensures |r| == limit && forall j :: 0 <= j < |r| ==> Outranks(r[j], fuzz(q, recs[i].cleanName), i)
    {
      FallbackLeftOut(fuzz, recs, q, limit, i);
    }
  }

  lemma FallbackLeftOut(fuzz: FuzzRatio, recs: seq<Record>, q: string, limit: nat, i: nat)
    requires i < |recs| && fuzz(q, recs[i].cleanName) >= FuzzyCutoff
    requires i !in Positions(Take(SortDesc(FuzzyHits(fuzz, recs, q, |recs|)), limit))
    ensures var r := Take(SortDesc(FuzzyHits(fuzz, recs, q, |recs|)), limit);
      |r| == limit && forall j :: 0 <= j < |r| ==> Outranks(r[j], fuzz(q, recs[i].cleanName), i)
  {
    var hits := FuzzyHits(fuzz, recs, q, |recs|);
    assert exists c :: 0 <= c < |hits| && hits[c].pos == i by {
      FuzzyHitsComplete(fuzz, recs, q, |recs|, i);
      assert i in Positions(hits);
    }
    var c :| 0 <= c < |hits| && hits[c].pos == i;
    assert SortedDesc(SortDesc(hits)) && TiesAscending(SortDesc(hits)) by {
      FallbackOrder(hits);
    }
    FallbackCut(hits, limit, c);
  }
}
