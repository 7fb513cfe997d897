/** The four lookup tables `_build_indices` derives from the catalog. Each maps
    a text key to the catalog positions filed under it, in the order they
    were appended. */
module Indices {
  import opened Text
  import opened Catalog

  /** A `defaultdict(list)` from key to catalog positions. */
  type Index = map<string, seq<nat>>

  datatype Indices = Indices(prefix: Index, word: Index, trigram: Index, phonetic: Index)

  /** The positions filed under `k`; a key never appended to reads as empty. */
  function Lookup(m: Index, k: string): seq<nat> {
    if k in m then m[k] else []
  }

  /** `m[k].append(i)` */
  function Append(m: Index, k: string, i: nat): (m': Index)
    ensures Lookup(m', k) == Lookup(m, k) + [i]
    ensures forall k' :: k' != k ==> Lookup(m', k') == Lookup(m, k')
  {
    m[k := Lookup(m, k) + [i]]
  }

  function Occurrences<T(==)>(s: seq<T>, x: T): nat {
    if s == [] then 0 else (if s[0] == x then 1 else 0) + Occurrences(s[1..], x)
  }

  lemma OccurrencesPositive<T>(s: seq<T>, x: T)
    ensures Occurrences(s, x) > 0 <==> x in s
  {
  }

  lemma {:induction false} OccurrencesConcat<T>(a: seq<T>, b: seq<T>, x: T)
    ensures Occurrences(a + b, x) == Occurrences(a, x) + Occurrences(b, x)
    decreases |a|
  {
    if a == [] {
      assert a + b == b;
    } else {
      assert (a + b)[0] == a[0];
      assert (a + b)[1..] == a[1..] + b;
      OccurrencesConcat(a[1..], b, x);
    }
  }

  function Repeat(i: nat, n: nat): (r: seq<nat>)
    ensures |r| == n
    ensures forall j :: 0 <= j < n ==> r[j] == i
  {
    seq(n, _ => i)
  }

  lemma RepeatCount(i: nat, n: nat, x: nat)
    ensures Occurrences(Repeat(i, n), x) == if x == i then n else 0
    decreases n
  {
    if n > 0 {
      assert Repeat(i, n)[1..] == Repeat(i, n - 1);
      RepeatCount(i, n - 1, x);
    }
  }

  /** `for k in keys: m[k].append(i)` */
  function AddKeys(m: Index, keys: seq<string>, i: nat): Index
    decreases |keys|
  {
    if keys == [] then m else AddKeys(Append(m, keys[0], i), keys[1..], i)
  }

  /** Filing one key list appends `i` under each key once per mention. */
  lemma {:induction false} AddKeysLookup(m: Index, keys: seq<string>, i: nat, k: string)
    ensures Lookup(AddKeys(m, keys, i), k) == Lookup(m, k) + Repeat(i, Occurrences(keys, k))
    decreases |keys|
  {
    if keys != [] {
      var m1 := Append(m, keys[0], i);
      AddKeysLookup(m1, keys[1..], i, k);
      var n := Occurrences(keys[1..], k);
      if k == keys[0] {
        assert Repeat(i, n + 1) == [i] + Repeat(i, n);
      }
    }
  }

  /** `for i, keys in enumerate(keyLists): for k in keys: index[k].append(i)` */
  function Build(keyLists: seq<seq<string>>): Index
    decreases |keyLists|
  {
    if keyLists == [] then map[]
    else
      var n := |keyLists| - 1;
      AddKeys(Build(keyLists[..n]), keyLists[n], n)
  }

  predicate Ascending(l: seq<nat>) {
    forall a, b :: 0 <= a < b < |l| ==> l[a] <= l[b]
  }

  /** Filing the last key list appends its position to every key it names,
      once per mention. */
  lemma BuildStep(keyLists: seq<seq<string>>, k: string)
    requires keyLists != []
    ensures var n := |keyLists| - 1;
      Lookup(Build(keyLists), k) == Lookup(Build(keyLists[..n]), k) + Repeat(n, Occurrences(keyLists[n], k))
  {
    var n := |keyLists| - 1;
    AddKeysLookup(Build(keyLists[..n]), keyLists[n], n, k);
  }

  /** Every position filed under a key is a position of the key lists, and
      the list under each key is in ascending order. */
  lemma {:induction false} BuildShape(keyLists: seq<seq<string>>, k: string)
    ensures forall x :: x in Lookup(Build(keyLists), k) ==> x < |keyLists|
    ensures Ascending(Lookup(Build(keyLists), k))
    decreases |keyLists|
  {
    if keyLists != [] {
      var n := |keyLists| - 1;
      BuildShape(keyLists[..n], k);
      BuildStep(keyLists, k);
      var before := Lookup(Build(keyLists[..n]), k);
      var added := Repeat(n, Occurrences(keyLists[n], k));
      var after := before + added;
      forall a, b | 0 <= a < b < |after| ensures after[a] <= after[b] {
        if b >= |before| { assert after[b] == n; }
        if a < |before| { assert after[a] == before[a] && before[a] in before; }
      }
      forall x | x in after ensures x < |keyLists| {
        var j :| 0 <= j < |after| && after[j] == x;
        if j < |before| { assert before[j] in before; }
      }
    }
  }

  /** Each position is filed under a key as many times as its key list
      names that key. */
  lemma {:induction false} BuildCount(keyLists: seq<seq<string>>, k: string, i: nat)
    ensures Occurrences(Lookup(Build(keyLists), k), i)
      == if i < |keyLists| then Occurrences(keyLists[i], k) else 0
    decreases |keyLists|
  {
    if keyLists == [] {
    } else {
      var n := |keyLists| - 1;
      BuildCount(keyLists[..n], k, i);
      BuildStep(keyLists, k);
      var before := Lookup(Build(keyLists[..n]), k);
      var added := Repeat(n, Occurrences(keyLists[n], k));
      RepeatCount(n, Occurrences(keyLists[n], k), i);
      OccurrencesConcat(before, added, i);
      if i < n { assert keyLists[..n][i] == keyLists[i]; }
      if i == n {
        BuildShape(keyLists[..n], k);
        OccurrencesPositive(before, i);
      }
    }
  }

  /** Membership form of `BuildCount`. */
  lemma BuildMember(keyLists: seq<seq<string>>, k: string, i: nat)
    ensures i in Lookup(Build(keyLists), k) <==> i < |keyLists| && k in keyLists[i]
  {
    BuildCount(keyLists, k, i);
    OccurrencesPositive(Lookup(Build(keyLists), k), i);
    if i < |keyLists| {
      OccurrencesPositive(keyLists[i], k);
    }
  }

  /** Keys a record is filed under in the prefix index: the 2..4-character
      prefixes of its normalised name, then those of its lower-cased symbol. */
  function PrefixKeys(r: Record): seq<string> {
    Prefixes(r.cleanName) + Prefixes(Lower(r.symbol))
  }

  /** Keys in the word index: the words of the normalised name of length at
      least two, repeats included. */
  function WordKeys(r: Record): seq<string> {
    LongWords(Words(r.cleanName))
  }

  /** The words of length at least two, in order. */
  function LongWords(ws: seq<string>): (r: seq<string>)
  {
    if ws == [] then []
    else if |ws[0]| >= 2 then [ws[0]] + LongWords(ws[1..])
    else LongWords(ws[1..])
  }

  /** `LongWords` keeps exactly the words of length at least two. */
  lemma {:induction false} LongWordsMember(ws: seq<string>, w: string)
    ensures w in LongWords(ws) <==> w in ws && |w| >= 2
  {
    if ws != [] {
      LongWordsMember(ws[1..], w);
      assert ws == [ws[0]] + ws[1..];
    }
  }

  /** Keys in the trigram index: every padded trigram of the normalised name,
      repeats included. */
  function TrigramKeys(r: Record): seq<string> {
    Trigrams(r.cleanName)
  }

  /** The phonetic key of a normalised text: the code of the text with its
      spaces deleted. */
  function PhoneticCode(metaphone: string -> string, t: string): string {
    metaphone(RemoveSpaces(t))
  }

  /** Keys in the phonetic index: the record's code, unless it is empty. */
  function PhoneticKeys(metaphone: string -> string, r: Record): seq<string> {
    var code := PhoneticCode(metaphone, r.cleanName);
    if code != "" then [code] else []
  }

  /** The four tables of the index. */
  datatype Table = PrefixTable | WordTable | TrigramTable | PhoneticTable

  /** The keys a record is filed under in one table. */
  function Keys(t: Table, metaphone: string -> string, r: Record): seq<string> {
    match t
    case PrefixTable => PrefixKeys(r)
    case WordTable => WordKeys(r)
    case TrigramTable => TrigramKeys(r)
    case PhoneticTable => PhoneticKeys(metaphone, r)
  }

  /** The key list of every record for one table, in catalog order. */
  function KeyLists(t: Table, metaphone: string -> string, recs: seq<Record>): (kl: seq<seq<string>>)
    ensures |kl| == |recs|
    ensures forall i :: 0 <= i < |recs| ==> kl[i] == Keys(t, metaphone, recs[i])
  {
    seq(|recs|, i requires 0 <= i < |recs| => Keys(t, metaphone, recs[i]))
  }

  /** One table, filled over the whole catalog. */
  function TableOf(t: Table, metaphone: string -> string, recs: seq<Record>): Index {
    Build(KeyLists(t, metaphone, recs))
  }

  /** `_build_indices`. The source fills the four tables in one pass over the
      catalog; each table only ever receives its own keys, so filling them in
      four separate passes in the same record order gives the same tables. */
  function BuildIndices(metaphone: string -> string, recs: seq<Record>): Indices {
    Indices(
      TableOf(PrefixTable, metaphone, recs),
      TableOf(WordTable, metaphone, recs),
      TableOf(TrigramTable, metaphone, recs),
      TableOf(PhoneticTable, metaphone, recs))
  }

  /** Every position in every table is a catalog position, and every list is
      in catalog order. */
  lemma IndicesInRange(metaphone: string -> string, recs: seq<Record>, k: string)
    ensures var ix := BuildIndices(metaphone, recs);
      && (forall x :: x in Lookup(ix.prefix, k) ==> x < |recs|)
      && (forall x :: x in Lookup(ix.word, k) ==> x < |recs|)
      && (forall x :: x in Lookup(ix.trigram, k) ==> x < |recs|)
      && (forall x :: x in Lookup(ix.phonetic, k) ==> x < |recs|)
      && Ascending(Lookup(ix.prefix, k)) && Ascending(Lookup(ix.word, k))
      && Ascending(Lookup(ix.trigram, k)) && Ascending(Lookup(ix.phonetic, k))
  {
    BuildShape(KeyLists(PrefixTable, metaphone, recs), k);
    BuildShape(KeyLists(WordTable, metaphone, recs), k);
    BuildShape(KeyLists(TrigramTable, metaphone, recs), k);
    BuildShape(KeyLists(PhoneticTable, metaphone, recs), k);
  }

  /** Prefix-index soundness and completeness: position `i` is filed under
      `k` exactly when `k` is a 2..4-character prefix of record `i`'s
      normalised name or lower-cased symbol. */
  lemma PrefixIndexMember(metaphone: string -> string, recs: seq<Record>, k: string, i: nat)
    ensures i in Lookup(BuildIndices(metaphone, recs).prefix, k) <==>
      i < |recs| && 2 <= |k| <= 4 &&
      ((|k| <= |recs[i].cleanName| && recs[i].cleanName[..|k|] == k) ||
       (|k| <= |recs[i].symbol| && Lower(recs[i].symbol)[..|k|] == k))
  {
    BuildMember(KeyLists(PrefixTable, metaphone, recs), k, i);
    if i < |recs| {
      PrefixesChar(recs[i].cleanName, k);
      PrefixesChar(Lower(recs[i].symbol), k);
    }
  }

  /** Position `i` is filed under word `w` exactly when `w` is a word of at
      least two characters of record `i`'s normalised name. */
  lemma WordIndexMember(metaphone: string -> string, recs: seq<Record>, w: string, i: nat)
    ensures i in Lookup(BuildIndices(metaphone, recs).word, w) <==>
      i < |recs| && |w| >= 2 && w in Words(recs[i].cleanName)
  {
    BuildMember(KeyLists(WordTable, metaphone, recs), w, i);
    if i < |recs| {
      LongWordsMember(Words(recs[i].cleanName), w);
    }
  }

  /** Position `i` appears under trigram `t` once per occurrence of `t` among
      record `i`'s padded trigrams. */
  lemma TrigramIndexCount(metaphone: string -> string, recs: seq<Record>, t: string, i: nat)
    requires i < |recs|
    ensures Occurrences(Lookup(BuildIndices(metaphone, recs).trigram, t), i)
      == Occurrences(Trigrams(recs[i].cleanName), t)
  {
    BuildCount(KeyLists(TrigramTable, metaphone, recs), t, i);
  }

  /** Position `i` is filed under code `c` exactly when `c` is record `i`'s
      non-empty phonetic code; a record with an empty code is not filed. */
  lemma PhoneticIndexMember(metaphone: string -> string, recs: seq<Record>, c: string, i: nat)
    ensures i in Lookup(BuildIndices(metaphone, recs).phonetic, c) <==>
      i < |recs| && c != "" && PhoneticCode(metaphone, recs[i].cleanName) == c
  {
    var kl := KeyLists(PhoneticTable, metaphone, recs);
    BuildMember(kl, c, i);
    if i < |recs| {
      PhoneticKeyMember(metaphone, recs[i], c);
    }
  }

  lemma PhoneticKeyMember(metaphone: string -> string, r: Record, c: string)
    ensures c in Keys(PhoneticTable, metaphone, r) <==> c != "" && PhoneticCode(metaphone, r.cleanName) == c
  {
  }

  /** A record is filed at most once under a phonetic code, so each list of
      the phonetic index is strictly ascending. */
  lemma PhoneticListsStrict(metaphone: string -> string, recs: seq<Record>, c: string)
    ensures var l := Lookup(BuildIndices(metaphone, recs).phonetic, c);
      forall a, b :: 0 <= a < b < |l| ==> l[a] < l[b]
  {
    var kl := KeyLists(PhoneticTable, metaphone, recs);
    BuildShape(kl, c);
    var l := Lookup(Build(kl), c);
    forall a, b | 0 <= a < b < |l| ensures l[a] < l[b] {
      BuildCount(kl, c, l[a]);
      assert l[a] in l;
      PhoneticKeyOnce(metaphone, recs[l[a]], c);
      DistinctWhenOnce(l, a, b);
    }
  }

  lemma PhoneticKeyOnce(metaphone: string -> string, r: Record, c: string)
    ensures Occurrences(Keys(PhoneticTable, metaphone, r), c) <= 1
  {
  }

  /** An element that occurs at most once differs from every later one. */
  lemma {:induction false} DistinctWhenOnce(l: seq<nat>, a: nat, b: nat)
    requires a < b < |l|
    requires Occurrences(l, l[a]) <= 1
    ensures l[a] != l[b]
    decreases a
  {
    if a == 0 {
      OccurrencesPositive(l[1..], l[0]);
      assert l[b] == l[1..][b - 1];
    } else {
      assert l[a] == l[1..][a - 1] && l[b] == l[1..][b - 1];
      DistinctWhenOnce(l[1..], a - 1, b - 1);
    }
  }
}
