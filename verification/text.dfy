/** Text primitives of the stock matcher: Python's character classes, case
    mapping, `str.strip`, `str.split`, `' '.join`, and the normaliser
    `_clean_text` built from them, together with the padded trigrams and the
    prefixes the indices are keyed by.

    Character classes follow Python 3 exactly on ASCII. A character outside
    ASCII is never a word character here (Python's `\w` also accepts
    non-ASCII letters and digits); whitespace follows `str.isspace`. */
module Text {

  /** Compatibility decomposition (Unicode Standard Annex #15, form NFKD).
      Its algorithm is not modelled; the one fact used is that it leaves a
      string of ASCII characters unchanged. */
  type Nfkd = f: string -> string | forall s :: IsAscii(s) ==> f(s) == s
    witness (s: string) => s

  predicate IsAscii(s: string) {
    forall i :: 0 <= i < |s| ==> s[i] as int < 128
  }

  /** `str.isspace()`, which is also what `\s` and `str.split()` use. */
  predicate IsSpace(c: char) {
    var n := c as int;
    (9 <= n <= 13) || (28 <= n <= 32) || n == 133 || n == 160 || n == 5760
    || (8192 <= n <= 8202) || n == 8232 || n == 8233 || n == 8239 || n == 8287
    || n == 12288
  }

  predicate IsUpperAscii(c: char) { 'A' <= c <= 'Z' }
  predicate IsLowerAscii(c: char) { 'a' <= c <= 'z' }
  predicate IsDigit(c: char) { '0' <= c <= '9' }

  /** `\w` on ASCII: letters, digits and the underscore. */
  predicate IsWordChar(c: char) {
    IsUpperAscii(c) || IsLowerAscii(c) || IsDigit(c) || c == '_'
  }

  /** A character that may appear inside a normalised word. */
  predicate IsCleanWordChar(c: char) {
    IsLowerAscii(c) || IsDigit(c) || c == '_'
  }

  function LowerChar(c: char): char {
    if IsUpperAscii(c) then (c as int + 32) as char else c
  }

  function UpperChar(c: char): char {
    if IsLowerAscii(c) then (c as int - 32) as char else c
  }

  /** `str.lower()` */
  function Lower(s: string): (r: string)
    ensures |r| == |s|
    ensures forall i :: 0 <= i < |s| ==> r[i] == LowerChar(s[i])
  {
    seq(|s|, i requires 0 <= i < |s| => LowerChar(s[i]))
  }

  /** `str.upper()` */
  function Upper(s: string): (r: string)
    ensures |r| == |s|
    ensures forall i :: 0 <= i < |s| ==> r[i] == UpperChar(s[i])
  {
    seq(|s|, i requires 0 <= i < |s| => UpperChar(s[i]))
  }

  /** `re.sub(r'[^\w\s]', ' ', s)`: every character that is neither a word
      character nor whitespace becomes a space. */
  function Substitute(s: string): (r: string)
    ensures |r| == |s|
    ensures forall i :: 0 <= i < |s| ==>
      r[i] == (if IsWordChar(s[i]) || IsSpace(s[i]) then s[i] else ' ')
  {
    seq(|s|, i requires 0 <= i < |s| =>
      if IsWordChar(s[i]) || IsSpace(s[i]) then s[i] else ' ')
  }

  /** Length of the longest prefix of `s` free of whitespace. */
  function WordLen(s: string): (n: nat)
    ensures n <= |s|
    ensures n < |s| ==> IsSpace(s[n])
  {
    if s == [] || IsSpace(s[0]) then 0 else 1 + WordLen(s[1..])
  }

  /** No character before `WordLen(s)` is whitespace. */
  lemma {:induction false} WordLenNoSpace(s: string, i: nat)
    requires i < WordLen(s)
    ensures !IsSpace(s[i])
    decreases |s|
  {
    if i > 0 {
      WordLenNoSpace(s[1..], i - 1);
    }
  }

  /** `str.split()` with no separator: the maximal runs of non-whitespace
      characters, left to right. */
  function Words(s: string): (ws: seq<string>)
    ensures forall k :: 0 <= k < |ws| ==> |ws[k]| > 0
    decreases |s|
  {
    if s == [] then []
    else if IsSpace(s[0]) then Words(s[1..])
    else
      var n := WordLen(s);
      [s[..n]] + Words(s[n..])
  }

  /** Every character of a word comes from the split string and is not
      whitespace. */
  lemma {:induction false} WordsChars(s: string, k: nat, c: char)
    requires k < |Words(s)| && c in Words(s)[k]
    ensures c in s && !IsSpace(c)
    decreases |s|
  {
    if s != [] {
      if IsSpace(s[0]) {
        WordsChars(s[1..], k, c);
      } else {
        var n := WordLen(s);
        if k == 0 {
          assert Words(s)[0] == s[..n];
          var j :| 0 <= j < n && s[j] == c;
          WordLenNoSpace(s, j);
        } else {
          assert Words(s)[k] == Words(s[n..])[k - 1];
          WordsChars(s[n..], k - 1, c);
        }
      }
    }
  }

  /** `w` holds no whitespace. */
  predicate NoSpace(w: string) {
    forall i :: 0 <= i < |w| ==> !IsSpace(w[i])
  }

  /** A reference definition of `str.split()` as a left-to-right scan: `cur`
      is the word being read and `acc` the words already finished; a
      whitespace character ends the current word, any other extends it. */
  function Scan(s: string, cur: string, acc: seq<string>): seq<string>
    decreases |s|
  {
    if s == [] then (if cur == [] then acc else acc + [cur])
    else if IsSpace(s[0]) then Scan(s[1..], [], if cur == [] then acc else acc + [cur])
    else Scan(s[1..], cur + [s[0]], acc)
  }

  /** A whitespace-free run in front adds its length to the first word. */
  lemma {:induction false} WordLenAfterRun(w: string, t: string)
    requires NoSpace(w)
    ensures WordLen(w + t) == |w| + WordLen(t)
    decreases |w|
  {
    if w == [] {
      assert w + t == t;
    } else {
      assert (w + t)[0] == w[0];
      assert (w + t)[1..] == w[1..] + t;
      WordLenAfterRun(w[1..], t);
    }
  }

  /** A whitespace-free run followed by whitespace or by nothing is one word. */
  lemma WordsAfterRun(w: string, s: string)
    requires w != [] && NoSpace(w) && (s == [] || IsSpace(s[0]))
    ensures Words(w + s) == [w] + Words(s)
  {
    var t := w + s;
    assert t[0] == w[0];
    WordLenAfterRun(w, s);
    WordsFirst(t);
    assert t[..|w|] == w && t[|w|..] == s;
  }

  lemma NoSpaceSnoc(w: string, c: char)
    requires NoSpace(w) && !IsSpace(c)
    ensures NoSpace(w + [c])
  {
    assert forall i :: 0 <= i < |w| ==> (w + [c])[i] == w[i];
  }

  /** Whitespace after a partial word closes it. */
  lemma WordsAtSpace(cur: string, s: string)
    requires NoSpace(cur) && s != [] && IsSpace(s[0])
    ensures Words(cur + s) == (if cur == [] then [] else [cur]) + Words(s[1..])
  {
    WordsSkipSpace(s);
    if cur == [] {
      assert cur + s == s;
    } else {
      WordsAfterRun(cur, s);
    }
  }

  /** The scan, started with a partial word `cur`, finishes with the words of
      `cur` followed by the rest of the input. */
  lemma {:induction false} ScanWords(s: string, cur: string, acc: seq<string>)
    requires NoSpace(cur)
    ensures Scan(s, cur, acc) == acc + Words(cur + s)
    decreases |s|
  {
    if s == [] {
      ScanEnd(cur, acc);
    } else if IsSpace(s[0]) {
      ScanWords(s[1..], [], if cur == [] then acc else acc + [cur]);
      ScanAtSpace(s, cur, acc);
    } else {
      NoSpaceSnoc(cur, s[0]);
      ScanWords(s[1..], cur + [s[0]], acc);
      assert (cur + [s[0]]) + s[1..] == cur + s;
    }
  }

  /** One whitespace step of the scan, given the scan of the rest. */
  lemma ScanAtSpace(s: string, cur: string, acc: seq<string>)
    requires NoSpace(cur) && s != [] && IsSpace(s[0])
    requires var acc' := if cur == [] then acc else acc + [cur];
      Scan(s[1..], [], acc') == acc' + Words([] + s[1..])
    ensures Scan(s, cur, acc) == acc + Words(cur + s)
  {
    var close := if cur == [] then [] else [cur];
    var acc' := if cur == [] then acc else acc + [cur];
    calc {
      Scan(s, cur, acc);
      Scan(s[1..], [], acc');
    == { assert [] + s[1..] == s[1..]; }
      acc' + Words(s[1..]);
    == { assert acc' == acc + close; }
      acc + (close + Words(s[1..]));
    == { WordsAtSpace(cur, s); }
      acc + Words(cur + s);
    }
  }

  lemma ScanEnd(cur: string, acc: seq<string>)
    requires NoSpace(cur)
    ensures Scan([], cur, acc) == acc + Words(cur)
  {
    if cur != [] {
      WordsAfterRun(cur, []);
      assert cur + [] == cur;
    }
  }

  /** `Words` is `str.split()`: it agrees with the scan on every input. */
  lemma WordsAreScan(s: string)
    ensures Words(s) == Scan(s, [], [])
  {
    ScanWords(s, [], []);
    assert [] + s == s;
  }

  /** Each word of a split is non-empty and free of whitespace. */
  lemma WordsAreRuns(s: string, k: nat)
    requires k < |Words(s)|
    ensures Words(s)[k] != [] && NoSpace(Words(s)[k])
  {
    forall i | 0 <= i < |Words(s)[k]| ensures !IsSpace(Words(s)[k][i]) {
      WordsChars(s, k, Words(s)[k][i]);
    }
  }

  /** Joining whitespace-free words with single spaces and splitting again
      gives the words back. */
  lemma {:induction false} WordsOfJoin(ws: seq<string>)
    requires forall k :: 0 <= k < |ws| ==> ws[k] != [] && NoSpace(ws[k])
    ensures Words(Join(ws)) == ws
  {
    if |ws| == 1 {
      WordsAfterRun(ws[0], []);
      assert ws[0] + [] == ws[0];
      assert ws == [ws[0]];
    } else if |ws| > 1 {
      var rest := Join(ws[1..]);
      WordsOfJoin(ws[1..]);
      assert Join(ws) == ws[0] + (" " + rest);
      WordsAfterRun(ws[0], " " + rest);
      WordsSkipSpace(" " + rest);
      assert (" " + rest)[1..] == rest;
      assert ws == [ws[0]] + ws[1..];
    }
  }

  /** `_clean_text` keeps exactly the words of the lower-cased, substituted
      text, in order: splitting the normalised text gives them back. */
  lemma CleanKeepsWords(nfkd: Nfkd, s: string)
    ensures Words(Clean(nfkd, s)) == Words(Substitute(Lower(nfkd(s))))
  {
    var t := Substitute(Lower(nfkd(s)));
    forall k | 0 <= k < |Words(t)| ensures Words(t)[k] != [] && NoSpace(Words(t)[k]) {
      WordsAreRuns(t, k);
    }
    WordsOfJoin(Words(t));
  }

  /** `' '.join(ws)` */
  function Join(ws: seq<string>): string {
    if ws == [] then ""
    else if |ws| == 1 then ws[0]
    else ws[0] + " " + Join(ws[1..])
  }

  /** `_clean_text`: decompose, lower-case, blank out punctuation, then
      collapse whitespace runs to single spaces and trim. */
  function Clean(nfkd: Nfkd, s: string): string {
    Join(Words(Substitute(Lower(nfkd(s)))))
  }

  /** The shape of a normalised string: only lower-case word characters and
      single interior spaces. */
  predicate IsClean(t: string) {
    && (forall i :: 0 <= i < |t| ==> t[i] == ' ' || IsCleanWordChar(t[i]))
    && (|t| > 0 ==> t[0] != ' ' && t[|t| - 1] != ' ')
    && (forall i :: 0 <= i < |t| - 1 ==> t[i] == ' ' ==> t[i + 1] != ' ')
  }

  lemma {:induction false} JoinIsClean(ws: seq<string>)
    requires forall k :: 0 <= k < |ws| ==> |ws[k]| > 0
    requires forall k, c :: 0 <= k < |ws| && c in ws[k] ==> IsCleanWordChar(c)
    ensures IsClean(Join(ws))
  {
    if ws != [] {
      assert forall i :: 0 <= i < |ws[0]| ==> IsCleanWordChar(ws[0][i]) by {
        forall i | 0 <= i < |ws[0]| ensures IsCleanWordChar(ws[0][i]) {
          assert ws[0][i] in ws[0];
        }
      }
    }
    if |ws| > 1 {
      JoinIsClean(ws[1..]);
      var w, rest := ws[0], Join(ws[1..]);
      var t := w + " " + rest;
      assert Join(ws) == t;
      assert |rest| > 0 by { JoinNonEmpty(ws[1..]); }
      assert t[0] == w[0];
      assert t[|t| - 1] == rest[|rest| - 1];
      forall i | 0 <= i < |t|
        ensures t[i] == ' ' || IsCleanWordChar(t[i])
      {
        if i < |w| { assert t[i] == w[i]; }
        else if i > |w| { assert t[i] == rest[i - |w| - 1]; }
      }
      forall i | 0 <= i < |t| - 1 && t[i] == ' '
        ensures t[i + 1] != ' '
      {
        if i == |w| { assert t[i + 1] == rest[0]; }
        else if i > |w| { assert t[i] == rest[i - |w| - 1]; assert t[i + 1] == rest[i - |w|]; }
      }
    } else if |ws| == 1 {
      assert Join(ws) == ws[0];
    }
  }

  lemma {:induction false} JoinNonEmpty(ws: seq<string>)
    requires |ws| > 0 && |ws[0]| > 0
    ensures |Join(ws)| > 0
  {
  }

  /** Every character that survives lower-casing and substitution is either
      whitespace or a lower-case word character. */
  lemma SubstitutedLowerChars(s: string, c: char)
    requires c in Substitute(Lower(s))
    ensures IsSpace(c) || IsCleanWordChar(c)
  {
    var u := Substitute(Lower(s));
    var i :| 0 <= i < |u| && u[i] == c;
    assert Lower(s)[i] == LowerChar(s[i]);
  }

  /** The normaliser's output has the clean shape: no leading, trailing or
      doubled space, and nothing but lower-case word characters otherwise. */
  lemma CleanIsClean(nfkd: Nfkd, s: string)
    ensures IsClean(Clean(nfkd, s))
  {
    var u := Substitute(Lower(nfkd(s)));
    var ws := Words(u);
    forall k, c | 0 <= k < |ws| && c in ws[k]
      ensures IsCleanWordChar(c)
    {
      WordsChars(u, k, c);
      SubstitutedLowerChars(nfkd(s), c);
    }
    JoinIsClean(ws);
  }

  /** A non-empty clean string starts with a word that either fills it or is
      followed by one space and a clean remainder. */
  lemma CleanSplit(t: string)
    requires IsClean(t) && t != []
    ensures WordLen(t) > 0
    ensures WordLen(t) < |t| ==>
      WordLen(t) + 1 < |t| && t[WordLen(t)] == ' ' && IsClean(t[WordLen(t) + 1..])
  {
    assert !IsSpace(t[0]) by { assert t[0] == ' ' || IsCleanWordChar(t[0]); }
    var n := WordLen(t);
    if n < |t| {
      assert t[n] == ' ' by { assert t[n] == ' ' || IsCleanWordChar(t[n]); }
      CleanAfterSpace(t, n);
    }
  }

  /** What follows a space of a clean string is non-empty and clean. */
  lemma CleanAfterSpace(t: string, n: nat)
    requires IsClean(t) && n < |t| && t[n] == ' '
    ensures n + 1 < |t| && IsClean(t[n + 1..])
  {
    assert n + 1 < |t| by { assert t[|t| - 1] != ' '; }
    var rest := t[n + 1..];
    assert rest[0] != ' ' by { assert rest[0] == t[n + 1]; }
    forall i | 0 <= i < |rest| ensures rest[i] == ' ' || IsCleanWordChar(rest[i]) {
      assert rest[i] == t[n + 1 + i];
    }
    forall i | 0 <= i < |rest| - 1 && rest[i] == ' ' ensures rest[i + 1] != ' ' {
      assert rest[i] == t[n + 1 + i] && rest[i + 1] == t[n + 2 + i];
    }
    assert rest[|rest| - 1] != ' ' by { assert rest[|rest| - 1] == t[|t| - 1]; }
  }

  lemma WordsSkipSpaceAt(t: string, n: nat)
    requires n < |t| && IsSpace(t[n])
    ensures Words(t[n..]) == Words(t[n + 1..])
  {
    WordsSkipSpace(t[n..]);
    DropOneMore(t, n);
  }

  lemma DropOneMore(t: string, n: nat)
    requires n < |t|
    ensures t[n..][1..] == t[n + 1..]
  {
  }

  lemma WordsFirst(t: string)
    requires t != [] && !IsSpace(t[0])
    ensures Words(t) == [t[..WordLen(t)]] + Words(t[WordLen(t)..])
  {
  }

  lemma WordsSkipSpace(s: string)
    requires s != [] && IsSpace(s[0])
    ensures Words(s) == Words(s[1..])
  {
  }

  lemma JoinCons(w: string, ws: seq<string>)
    requires ws != []
    ensures Join([w] + ws) == w + " " + Join(ws)
  {
    assert ([w] + ws)[1..] == ws;
  }

  /** A non-empty string that does not start with whitespace splits into at
      least one word. */
  lemma WordsNonEmpty(t: string)
    requires t != [] && !IsSpace(t[0])
    ensures Words(t) != []
  {
  }

  lemma SplitAround(t: string, n: nat)
    requires n < |t|
    ensures t == t[..n] + [t[n]] + t[n + 1..]
  {
  }

  /** Splitting a clean string and joining the words again gives it back. */
  lemma {:induction false} JoinWordsOfClean(t: string)
    requires IsClean(t)
    ensures Join(Words(t)) == t
    decreases |t|
  {
    if t != [] {
      CleanSplit(t);
      var n := WordLen(t);
      if n == |t| {
        assert Words(t) == [t[..n]] + Words([]);
      } else {
        var rest := t[n + 1..];
        WordsFirst(t);
        WordsSkipSpaceAt(t, n);
        JoinWordsOfClean(rest);
        CleanSplit(rest);
        WordsNonEmpty(rest);
        JoinCons(t[..n], Words(rest));
        SplitAround(t, n);
      }
    }
  }

  /** A clean string contains only ASCII characters. */
  lemma CleanIsAscii(t: string)
    requires IsClean(t)
    ensures IsAscii(t)
  {
  }

  /** The clean strings are exactly the fixed points of the normaliser. */
  lemma CleanFixedPoints(nfkd: Nfkd, t: string)
    ensures Clean(nfkd, t) == t <==> IsClean(t)
  {
    if IsClean(t) {
      CleanIsAscii(t);
      assert nfkd(t) == t;
      assert Lower(t) == t;
      assert Substitute(t) == t;
      JoinWordsOfClean(t);
    } else {
      CleanIsClean(nfkd, t);
    }
  }

  /** Normalisation is idempotent. */
  lemma CleanIdempotent(nfkd: Nfkd, s: string)
    ensures Clean(nfkd, Clean(nfkd, s)) == Clean(nfkd, s)
  {
    CleanIsClean(nfkd, s);
    CleanFixedPoints(nfkd, Clean(nfkd, s));
  }

  /** Number of leading whitespace characters. */
  function LeadingSpaces(s: string): (n: nat)
    ensures n <= |s|
    ensures forall i :: 0 <= i < n ==> IsSpace(s[i])
    ensures n < |s| ==> !IsSpace(s[n])
  {
    if s == [] || !IsSpace(s[0]) then 0 else 1 + LeadingSpaces(s[1..])
  }

  /** Number of trailing whitespace characters. */
  function TrailingSpaces(s: string): (n: nat)
    ensures n <= |s|
    ensures forall i :: |s| - n <= i < |s| ==> IsSpace(s[i])
    ensures n < |s| ==> !IsSpace(s[|s| - n - 1])
  {
    if s == [] || !IsSpace(s[|s| - 1]) then 0 else 1 + TrailingSpaces(s[..|s| - 1])
  }

  /** `str.strip()`: the string without its leading and trailing whitespace. */
  function Strip(s: string): (r: string)
    ensures r != [] ==> !IsSpace(r[0]) && !IsSpace(r[|r| - 1])
    ensures exists a, b :: (0 <= a <= b <= |s| && r == s[a..b]
      && (forall i :: 0 <= i < a ==> IsSpace(s[i]))
      && (forall i :: b <= i < |s| ==> IsSpace(s[i])))
    ensures (s == [] || (!IsSpace(s[0]) && !IsSpace(s[|s| - 1]))) ==> r == s
  {
    var a := LeadingSpaces(s);
    if a == |s| then
      assert s[|s|..|s|] == [];
      []
    else
      var b := |s| - TrailingSpaces(s);
      assert s[b - 1] == s[a..b][b - a - 1];
      assert s == s[0..|s|];
      s[a..b]
  }

  /** `p in s` on strings: `p` occurs in `s` as a contiguous block. */
  predicate Contains(s: string, p: string)
    decreases |s|
  {
    (|p| <= |s| && s[..|p|] == p) || (s != [] && Contains(s[1..], p))
  }

  /** `s.replace(' ', '')` */
  function RemoveSpaces(s: string): (r: string)
    ensures ' ' !in r
    ensures multiset(r) == multiset(s)[' ' := 0]
    ensures |r| <= |s|
  {
    if s == [] then []
    else
      assert s == [s[0]] + s[1..];
      if s[0] == ' ' then RemoveSpaces(s[1..])
      else [s[0]] + RemoveSpaces(s[1..])
  }

  /** Removing spaces works piecewise: on a single character it keeps
      everything but a space, and on a concatenation it keeps the kept
      characters of each part in their order. */
  lemma RemoveSpacesUnit(c: char)
    ensures RemoveSpaces([c]) == if c == ' ' then [] else [c]
  {
    assert [c][1..] == [];
  }

  lemma {:induction false} RemoveSpacesConcat(a: string, b: string)
    ensures RemoveSpaces(a + b) == RemoveSpaces(a) + RemoveSpaces(b)
    decreases |a|
  {
    if a == [] {
      assert a + b == b;
    } else {
      assert (a + b)[0] == a[0];
      assert (a + b)[1..] == a[1..] + b;
      RemoveSpacesConcat(a[1..], b);
    }
  }

  /** `_get_trigrams`: the three-character windows of the text padded with
      two spaces in front and one behind. */
  function Trigrams(t: string): (r: seq<string>)
    ensures |r| == |t| + 1
    ensures forall i :: 0 <= i < |r| ==> |r[i]| == 3
    ensures forall i :: 0 <= i < |r| ==> r[i] == ("  " + t + " ")[i..i + 3]
  {
    var p := "  " + t + " ";
    seq(|p| - 2, i requires 0 <= i < |p| - 2 => p[i..i + 3])
  }

  /** The prefixes of lengths 2 up to 4 (as far as the text reaches), shortest
      first: `[t[:n] for n in range(2, min(len(t) + 1, 5))]`. */
  function Prefixes(t: string): (r: seq<string>)
    ensures |r| == if |t| < 2 then 0 else if |t| < 4 then |t| - 1 else 3
    ensures forall i :: 0 <= i < |r| ==> r[i] == t[..i + 2]
  {
    var n := if |t| < 4 then |t| else 4;
    if n < 2 then [] else seq(n - 1, i requires 0 <= i < n - 1 => t[..i + 2])
  }

  /** A key is listed by `Prefixes` exactly when it is a prefix of length 2
      to 4 of the text. */
  lemma PrefixesChar(t: string, k: string)
    ensures k in Prefixes(t) <==> 2 <= |k| <= 4 && |k| <= |t| && t[..|k|] == k
  {
    var r := Prefixes(t);
    if 2 <= |k| <= 4 && |k| <= |t| && t[..|k|] == k {
      assert r[|k| - 2] == k;
    }
  }
}
