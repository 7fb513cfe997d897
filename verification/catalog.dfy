/** The catalog: the prepared records the matcher searches, built either from
    the rows of the NSE listing table or from a name -> ticker mapping
    (`StockMatcher.__init__` and `_prepare_data`). */
module Catalog {
  import opened Text

  /** The market suffix every ticker carries. */
  const ExchangeSuffix: string := ".NS"

  /** `s.replace('.NS', '')`: a single left-to-right pass deleting every
      non-overlapping occurrence of the exchange suffix. */
  function DropExchangeSuffix(s: string): string
    decreases |s|
  {
    var k := |ExchangeSuffix|;
    if |s| < k then s
    else if s[..k] == ExchangeSuffix then DropExchangeSuffix(s[k..])
    else [s[0]] + DropExchangeSuffix(s[1..])
  }

  /** The exchange suffix occurs in `s` starting at index `i`. */
  predicate SuffixAt(s: string, i: nat) {
    i + |ExchangeSuffix| <= |s| && s[i..i + |ExchangeSuffix|] == ExchangeSuffix
  }

  /** The exchange suffix occurs nowhere in `s`. */
  predicate HasNoExchangeSuffix(s: string) {
    forall i: nat :: i < |s| ==> !SuffixAt(s, i)
  }

  /** No proper suffix of the exchange suffix is also a prefix of it, so an
      occurrence cannot start inside the suffix just appended. */
  lemma SuffixUnbordered(d: nat)
    requires 0 < d < |ExchangeSuffix|
    ensures ExchangeSuffix[d..] != ExchangeSuffix[..|ExchangeSuffix| - d]
  {
    assert ExchangeSuffix[d..][0] != ExchangeSuffix[..|ExchangeSuffix| - d][0];
  }

  /** Deleting the suffix inverts appending it, for a symbol that does not
      already contain it. */
  lemma {:induction false} DropExchangeSuffixInverts(s: string)
    requires HasNoExchangeSuffix(s)
    ensures DropExchangeSuffix(s + ExchangeSuffix) == s
    decreases |s|
  {
    var k := |ExchangeSuffix|;
    var t := s + ExchangeSuffix;
    if s == [] {
      assert t[..k] == ExchangeSuffix;
      assert t[k..] == [];
    } else {
      NoSuffixAtStart(s);
      NoSuffixInTail(s);
      DropExchangeSuffixInverts(s[1..]);
      assert t[1..] == s[1..] + ExchangeSuffix;
    }
  }

  /** Appending the suffix to a non-empty suffix-free string creates no
      occurrence at its start. */
  lemma NoSuffixAtStart(s: string)
    requires s != [] && HasNoExchangeSuffix(s)
    ensures (s + ExchangeSuffix)[..|ExchangeSuffix|] != ExchangeSuffix
  {
    var k := |ExchangeSuffix|;
    var t := s + ExchangeSuffix;
    if |s| >= k {
      assert !SuffixAt(s, 0);
      assert t[..k] == s[0..k];
    } else {
      assert t[..k][|s|..] == ExchangeSuffix[..k - |s|];
      SuffixUnbordered(|s|);
    }
  }

  /** A suffix-free string stays suffix-free without its first character. */
  lemma NoSuffixInTail(s: string)
    requires s != [] && HasNoExchangeSuffix(s)
    ensures HasNoExchangeSuffix(s[1..])
  {
    var k := |ExchangeSuffix|;
    forall i: nat | i < |s[1..]| ensures !SuffixAt(s[1..], i) {
      assert !SuffixAt(s, i + 1);
      if i + k <= |s[1..]| {
        assert s[1..][i..i + k] == s[i + 1..i + 1 + k];
      }
    }
  }

  /** One prepared catalog entry; its position in the catalog sequence is the
      integer the indices refer to. */
  datatype Record = Record(symbol: string, name: string, cleanName: string, ticker: string)

  /** A table cell: `Missing` is pandas' NaN. */
  datatype Cell = Missing | Present(text: string)

  /** One row of the listing table, reduced to the two columns the matcher
      reads: `SYMBOL` and `NAME OF COMPANY`. */
  datatype Row = Row(symbol: Cell, name: Cell)

  /** What the constructor accepts: the table read from a CSV file, a mapping
      from company name to ticker given as its (name, ticker) items in
      insertion order, or anything else. */
  datatype Source = Table(rows: seq<Row>) | NameMap(items: seq<(string, string)>) | Unsupported

  /** The constructor's outcome: a catalog, or the `ValueError` raised for an
      unsupported source. */
  datatype Loaded = Loaded(records: seq<Record>) | InvalidSource

  /** What `_prepare_data` guarantees of every record it makes. */
  predicate WellFormed(nfkd: Nfkd, r: Record) {
    && r.ticker == r.symbol + ExchangeSuffix
    && Strip(r.symbol) == r.symbol
    && Strip(r.name) == r.name
    && r.cleanName == Clean(nfkd, r.name)
    && IsClean(r.cleanName)
  }

  /** `_prepare_data` for one row: strip both cells, normalise the name and
      derive the ticker. */
  function Prepare(nfkd: Nfkd, symbol: string, name: string): (r: Record)
    ensures WellFormed(nfkd, r)
    ensures r.symbol == Strip(symbol) && r.name == Strip(name)
  {
    var s := Strip(symbol);
    var n := Strip(name);
    CleanIsClean(nfkd, n);
    Record(s, n, Clean(nfkd, n), s + ExchangeSuffix)
  }

  predicate IsComplete(row: Row) {
    row.symbol.Present? && row.name.Present?
  }

  /** `dropna`'s mask: the indices of the rows with both cells present, in
      table order. */
  function KeptPositions(rows: seq<Row>): (idx: seq<nat>)
    ensures forall j :: 0 <= j < |idx| ==> idx[j] < |rows| && IsComplete(rows[idx[j]])
    ensures forall a, b :: 0 <= a < b < |idx| ==> idx[a] < idx[b]
    ensures forall i :: 0 <= i < |rows| && IsComplete(rows[i]) ==> i in idx
    decreases |rows|
  {
    if rows == [] then []
    else
      var n := |rows| - 1;
      var prev := KeptPositions(rows[..n]);
      assert forall j :: 0 <= j < |prev| ==> rows[prev[j]] == rows[..n][prev[j]];
      if IsComplete(rows[n]) then prev + [n] else prev
  }

  /** The rows `dropna` keeps: the complete rows, in table order. */
  function CompleteRows(rows: seq<Row>): (r: seq<Row>)
    ensures |r| == |KeptPositions(rows)|
    ensures forall j :: 0 <= j < |r| ==> r[j] == rows[KeptPositions(rows)[j]]
    decreases |rows|
  {
    if rows == [] then []
    else
      var n := |rows| - 1;
      var prev := CompleteRows(rows[..n]);
      CompleteRowsStep(rows, prev);
      if IsComplete(rows[n]) then prev + [rows[n]] else prev
  }

  /** The step of `CompleteRows`: the rows kept from all but the last row,
      read back in the whole table. */
  lemma CompleteRowsStep(rows: seq<Row>, prev: seq<Row>)
    requires rows != []
    requires |prev| == |KeptPositions(rows[..|rows| - 1])|
    requires forall j :: 0 <= j < |prev| ==> prev[j] == rows[..|rows| - 1][KeptPositions(rows[..|rows| - 1])[j]]
    ensures var idx := KeptPositions(rows);
      |idx| == |prev| + (if IsComplete(rows[|rows| - 1]) then 1 else 0)
      && forall j :: 0 <= j < |prev| ==> idx[j] < |rows| - 1 && prev[j] == rows[idx[j]]
  {
    var n := |rows| - 1;
    var before := KeptPositions(rows[..n]);
    assert KeptPositions(rows) == if IsComplete(rows[n]) then before + [n] else before;
    forall j | 0 <= j < |prev| ensures KeptPositions(rows)[j] == before[j] && before[j] < n && prev[j] == rows[before[j]] {
      assert rows[..n][before[j]] == rows[before[j]];
    }
  }

  /** `_prepare_data` applied to one complete row. */
  function PrepareRow(nfkd: Nfkd, row: Row): Record
    requires IsComplete(row)
  {
    Prepare(nfkd, row.symbol.text, row.name.text)
  }

  /** The table branch: `dropna` on the two columns, then `_prepare_data`. A
      row whose cells are present but blank is kept. Record `j` is the
      prepared `j`-th complete row, so catalog positions follow table order. */
  function FromTable(nfkd: Nfkd, rows: seq<Row>): (recs: seq<Record>)
    ensures |recs| == |KeptPositions(rows)| <= |rows|
    ensures forall j :: 0 <= j < |recs| ==> recs[j] == PrepareRow(nfkd, rows[KeptPositions(rows)[j]])
    ensures forall j :: 0 <= j < |recs| ==> WellFormed(nfkd, recs[j])
    ensures forall i :: 0 <= i < |rows| && IsComplete(rows[i]) ==> PrepareRow(nfkd, rows[i]) in recs
  {
    var kept := CompleteRows(rows);
    var recs := seq(|kept|, j requires 0 <= j < |kept| => PrepareRow(nfkd, kept[j]));
    KeptPositionsBound(rows);
    PrepareCompleteRows(nfkd, rows, recs);
    recs
  }

  /** The mask keeps at most every row. */
  lemma {:induction false} KeptPositionsBound(rows: seq<Row>)
    ensures |KeptPositions(rows)| <= |rows|
    decreases |rows|
  {
    if rows != [] {
      KeptPositionsBound(rows[..|rows| - 1]);
    }
  }

  /** Every complete row of the table is prepared into the table's records. */
  lemma PrepareCompleteRows(nfkd: Nfkd, rows: seq<Row>, recs: seq<Record>)
    requires |recs| == |KeptPositions(rows)|
    requires forall j :: 0 <= j < |recs| ==> recs[j] == PrepareRow(nfkd, rows[KeptPositions(rows)[j]])
    ensures forall i :: 0 <= i < |rows| && IsComplete(rows[i]) ==> PrepareRow(nfkd, rows[i]) in recs
  {
    var idx := KeptPositions(rows);
    forall i | 0 <= i < |rows| && IsComplete(rows[i]) ensures PrepareRow(nfkd, rows[i]) in recs {
      var j :| 0 <= j < |idx| && idx[j] == i;
      assert recs[j] == PrepareRow(nfkd, rows[i]);
    }
  }

  /** The mapping branch: each (name, ticker) item becomes a row whose symbol
      is the ticker with every `.NS` deleted, in the mapping's order. */
  function FromNameMap(nfkd: Nfkd, items: seq<(string, string)>): (recs: seq<Record>)
    ensures |recs| == |items|
    ensures forall j :: 0 <= j < |recs| ==> WellFormed(nfkd, recs[j])
    ensures forall j :: 0 <= j < |recs| ==>
      recs[j].name == Strip(items[j].0) && recs[j].symbol == Strip(DropExchangeSuffix(items[j].1))
  {
    seq(|items|, j requires 0 <= j < |items| =>
      Prepare(nfkd, DropExchangeSuffix(items[j].1), items[j].0))
  }

  /** `StockMatcher.__init__` up to the index build. */
  function Load(nfkd: Nfkd, src: Source): (r: Loaded)
    ensures r.InvalidSource? <==> src.Unsupported?
    ensures r.Loaded? ==> forall j :: 0 <= j < |r.records| ==> WellFormed(nfkd, r.records[j])
  {
    match src
    case Table(rows) => Loaded(FromTable(nfkd, rows))
    case NameMap(items) => Loaded(FromNameMap(nfkd, items))
    case Unsupported => InvalidSource
  }

  /** A mapping whose tickers are a clean symbol plus the suffix loads back
      to exactly those symbols and tickers: the mapping branch inverts the
      ticker derivation. */
  lemma NameMapTickerRoundTrip(nfkd: Nfkd, items: seq<(string, string)>, symbols: seq<string>)
    requires |symbols| == |items|
    requires forall j :: 0 <= j < |items| ==>
      items[j].1 == symbols[j] + ExchangeSuffix && HasNoExchangeSuffix(symbols[j])
      && Strip(symbols[j]) == symbols[j]
    ensures forall j :: 0 <= j < |items| ==>
      FromNameMap(nfkd, items)[j].symbol == symbols[j]
      && FromNameMap(nfkd, items)[j].ticker == items[j].1
  {
    forall j | 0 <= j < |items|
      ensures FromNameMap(nfkd, items)[j].symbol == symbols[j]
    {
      DropExchangeSuffixInverts(symbols[j]);
    }
  }

  /** A name made of whitespace only, the empty name included. */
  predicate IsBlank(s: string) {
    forall i :: 0 <= i < |s| ==> IsSpace(s[i])
  }

  /** Stripping a blank string leaves nothing. */
  lemma StripBlank(s: string)
    requires IsBlank(s)
    ensures Strip(s) == ""
  {
  }

  /** Preparing a blank name gives an empty name and an empty normalised
      name; nothing in `_prepare_data` rejects it. */
  lemma BlankNamePrepared(nfkd: Nfkd, symbol: string, name: string)
    requires IsBlank(name)
    ensures Prepare(nfkd, symbol, name).name == ""
    ensures Prepare(nfkd, symbol, name).cleanName == ""
  {
    StripBlank(name);
    CleanFixedPoints(nfkd, "");
  }

  /** The table branch keeps a complete row whose name is blank, at its place
      among the complete rows, as a record with empty name and normalised
      name. */
  lemma BlankRowKept(nfkd: Nfkd, rows: seq<Row>, k: nat)
    requires k < |rows| && IsComplete(rows[k]) && IsBlank(rows[k].name.text)
    ensures exists j :: (0 <= j < |FromTable(nfkd, rows)| && KeptPositions(rows)[j] == k
      && FromTable(nfkd, rows)[j].name == "" && FromTable(nfkd, rows)[j].cleanName == "")
  {
    var idx := KeptPositions(rows);
    var j :| 0 <= j < |idx| && idx[j] == k;
    BlankNamePrepared(nfkd, rows[k].symbol.text, rows[k].name.text);
    assert FromTable(nfkd, rows)[j] == PrepareRow(nfkd, rows[k]);
  }

  /** The mapping branch keeps an item whose name is blank, at its own
      position, as a record with empty name and normalised name. */
  lemma BlankItemKept(nfkd: Nfkd, items: seq<(string, string)>, k: nat)
    requires k < |items| && IsBlank(items[k].0)
    ensures FromNameMap(nfkd, items)[k].name == ""
    ensures FromNameMap(nfkd, items)[k].cleanName == ""
  {
    BlankNamePrepared(nfkd, DropExchangeSuffix(items[k].1), items[k].0);
  }
}
