/** The extraction rule of `fetchExchangeRates` (server.js): every table under
    `#organizTable` is one published date; a table yields an entry with its
    header date and the USD and EUR rate texts unless the date is a Saturday
    or a Sunday or one of the two rates is missing.

    The page arrives already parsed: a table is its header text (the text of
    `thead th`) and its body rows as rows of cell texts, in document order. */
module Scraper {
  import opened Wrappers
  import opened Text
  import Calendar

  /** One `#organizTable > table`: header text and body rows of cell texts. */
  datatype Table = Table(header: string, rows: seq<seq<string>>)

  /** The result of fetching and loading the page: the tables it holds, or a
      failure anywhere in the fetch or the HTML load. */
  datatype Page = Loaded(tables: seq<Table>) | Failed

  /** A scraped date: the header text and the two rates as the decimal text
      handed to `parseFloat` (first comma turned into a point). */
  datatype Entry = Entry(date: string, usd: string, eur: string)

  datatype CivilDate = CivilDate(year: int, month: int, day: int)

  /** The date `new Date(`${year}-${month}-${day}`)` denotes, where
      `[day, month, year]` are the first three pieces of `dateText.split('-')`.
      The string is only a date in the ISO date-only form, four-digit year and
      two-digit month and day, month 01 to 12 and day 01 to 31; anything else
      (a missing piece reads `undefined`) is an Invalid Date: None. */
  function HeaderDate(dateText: string): (r: Option<CivilDate>)
    ensures r.Some? ==> 1 <= r.value.month <= 12 && 1 <= r.value.day <= 31
    ensures r.Some? ==> 0 <= r.value.year <= 9999
  {
    var parts := Split(dateText, '-');
    if |parts| < 3 then None
    else
      var day, month, year := parts[0], parts[1], parts[2];
      if |year| == 4 && |month| == 2 && |day| == 2 &&
         AllDigits(year) && AllDigits(month) && AllDigits(day)
      then
        var y, m, d := DigitsValue(year), DigitsValue(month), DigitsValue(day);
        assert Pow10(4) == 10000;
        if 1 <= m <= 12 && 1 <= d <= 31 then Some(CivilDate(y, m, d)) else None
      else None
  }

  /** A `DD-MM-YYYY` header of digits with month 01 to 12 and day 01 to 31
      denotes that day. */
  lemma HeaderDateOfParts(dd: string, mm: string, yyyy: string)
    requires |dd| == 2 && |mm| == 2 && |yyyy| == 4
    requires AllDigits(dd) && AllDigits(mm) && AllDigits(yyyy)
    requires 1 <= DigitsValue(mm) <= 12 && 1 <= DigitsValue(dd) <= 31
    ensures HeaderDate(dd + "-" + mm + "-" + yyyy) ==
            Some(CivilDate(DigitsValue(yyyy), DigitsValue(mm), DigitsValue(dd)))
  {
    assert '-' !in dd by {
      forall k | 0 <= k < |dd| ensures dd[k] != '-' { assert IsDigit(dd[k]); }
    }
    assert '-' !in mm by {
      forall k | 0 <= k < |mm| ensures mm[k] != '-' { assert IsDigit(mm[k]); }
    }
    assert '-' !in yyyy by {
      forall k | 0 <= k < |yyyy| ensures yyyy[k] != '-' { assert IsDigit(yyyy[k]); }
    }
    assert dd + "-" + mm + "-" + yyyy == dd + ['-'] + (mm + ['-'] + yyyy);
    SplitAfterPiece(dd, '-', mm + ['-'] + yyyy);
    SplitAfterPiece(mm, '-', yyyy);
    SplitNoSeparator(yyyy, '-');
  }

  /** Conversely, a header that parses is two digits, `-`, two digits,
      `-`, four digits, possibly followed by more `-`-separated text, which
      is ignored; the date is the one those digits denote. */
  lemma HeaderDateShape(dateText: string) returns (dd: string, mm: string, yyyy: string, tail: string)
    requires HeaderDate(dateText).Some?
    ensures dateText == dd + "-" + mm + "-" + yyyy + tail
    ensures |dd| == 2 && |mm| == 2 && |yyyy| == 4
    ensures AllDigits(dd) && AllDigits(mm) && AllDigits(yyyy)
    ensures tail == [] || tail[0] == '-'
    ensures HeaderDate(dateText) == Some(CivilDate(DigitsValue(yyyy), DigitsValue(mm), DigitsValue(dd)))
  {
    var parts := Split(dateText, '-');
    JoinSplit(dateText, '-');
    dd, mm, yyyy := parts[0], parts[1], parts[2];
    tail := if |parts| == 3 then [] else ['-'] + Join(parts[3..], '-');
    assert parts[1..][1..] == parts[2..];
    assert parts[2..][1..] == parts[3..];
    assert Join(parts[2..], '-') == yyyy + tail;
    assert Join(parts[1..], '-') == mm + ['-'] + (yyyy + tail);
    assert Join(parts, '-') == dd + ['-'] + (mm + ['-'] + (yyyy + tail));
  }

  /** `date.getDay()` in UTC; None stands for the NaN of an Invalid Date. */
  function DayOfWeek(dateText: string): (r: Option<int>)
    ensures r.Some? ==> 0 <= r.value < 7
    ensures r.Some? <==> HeaderDate(dateText).Some?
  {
    match HeaderDate(dateText)
    case None => None
    case Some(c) => Some(Calendar.WeekDay(Calendar.DaysFromCivil(c.year, c.month, c.day)))
  }

  /** `dayOfWeek === 6 || dayOfWeek === 0`; NaN equals neither. */
  predicate IsWeekend(dateText: string) {
    DayOfWeek(dateText) == Some(0) || DayOfWeek(dateText) == Some(6)
  }

  /** A header that is not a date is not a weekend: such a table is kept or
      dropped on its rates alone. */
  lemma InvalidDateNotSkipped(t: Table)
    requires HeaderDate(Trim(t.header)) == None
    ensures TableEntry(t).Some? <==> RateText(t.rows, 0) != [] && RateText(t.rows, 1) != []
  {
    assert DayOfWeek(Trim(t.header)) == None;
    assert !IsWeekend(Trim(t.header));
  }

  /** The text of `tbody > tr:nth-child(row+1) > td:nth-child(col+1)`: empty
      when the row or the cell is not there. */
  function Cell(rows: seq<seq<string>>, row: nat, col: nat): string {
    if row < |rows| && col < |rows[row]| then rows[row][col] else ""
  }

  /** The rate read from body row `row`: the second cell, trimmed; if that is
      empty after trimming, the first cell, trimmed. */
  function RateText(rows: seq<seq<string>>, row: nat): (s: string)
    ensures !AllSpace(Cell(rows, row, 1)) ==> s == Trim(Cell(rows, row, 1)) && s != []
    ensures AllSpace(Cell(rows, row, 1)) ==> s == Trim(Cell(rows, row, 0))
    ensures s == [] <==> AllSpace(Cell(rows, row, 1)) && AllSpace(Cell(rows, row, 0))
  {
    var second := Trim(Cell(rows, row, 1));
    if second != [] then second else Trim(Cell(rows, row, 0))
  }

  /** `usdRate.replace(',', '.')`: the text `parseFloat` reads. */
  function DecimalText(rate: string): (r: string)
    ensures |r| == |rate|
    ensures ',' !in rate ==> r == rate
  {
    ReplaceFirst(rate, ',', '.')
  }

  /** What one table contributes: nothing on a weekend or when a rate is
      missing, otherwise the trimmed header date with both rates. USD is
      body row 1 and EUR body row 2, by position. */
  function TableEntry(t: Table): (r: Option<Entry>)
    ensures IsWeekend(Trim(t.header)) ==> r == None
    ensures AllSpace(Cell(t.rows, 0, 1)) && AllSpace(Cell(t.rows, 0, 0)) ==> r == None
    ensures AllSpace(Cell(t.rows, 1, 1)) && AllSpace(Cell(t.rows, 1, 0)) ==> r == None
    ensures !IsWeekend(Trim(t.header)) && RateText(t.rows, 0) != [] && RateText(t.rows, 1) != [] ==>
              r == Some(Entry(Trim(t.header), DecimalText(RateText(t.rows, 0)), DecimalText(RateText(t.rows, 1))))
  {
    var dateText := Trim(t.header);
    if IsWeekend(dateText) then None
    else
      var usdRate := RateText(t.rows, 0);
      var eurRate := RateText(t.rows, 1);
      if usdRate != [] && eurRate != [] then
        Some(Entry(dateText, DecimalText(usdRate), DecimalText(eurRate)))
      else None
  }

  /** The values among a run of optional results, in order: the `rates`
      array that `push` builds. */
  function Present<T>(outcomes: seq<Option<T>>): (values: seq<T>)
    ensures |values| <= |outcomes|
  {
    if outcomes == [] then []
    else
      var before := Present(outcomes[..|outcomes| - 1]);
      match outcomes[|outcomes| - 1]
      case None => before
      case Some(v) => before + [v]
  }

  /** Where each value comes from: the positions of the `Some` outcomes;
      value `k` is the content of outcome `Sources(outcomes)[k]`. */
  ghost function Sources<T>(outcomes: seq<Option<T>>): (idx: seq<int>)
    ensures |idx| == |Present(outcomes)|
    ensures forall k :: 0 <= k < |idx| ==>
              0 <= idx[k] < |outcomes| && outcomes[idx[k]] == Some(Present(outcomes)[k])
  {
    if outcomes == [] then []
    else
      var n := |outcomes| - 1;
      var before := Sources(outcomes[..n]);
      if outcomes[n].Some? then before + [n] else before
  }

  /** Values come out in the order of the outcomes they come from. */
  lemma {:induction false} SourcesIncreasing<T>(outcomes: seq<Option<T>>)
    ensures forall k, l :: 0 <= k < l < |Sources(outcomes)| ==> Sources(outcomes)[k] < Sources(outcomes)[l]
  {
    if outcomes != [] {
      var n := |outcomes| - 1;
      var before := Sources(outcomes[..n]);
      SourcesIncreasing(outcomes[..n]);
      var idx := Sources(outcomes);
      assert idx == before || idx == before + [n];
      forall k, l | 0 <= k < l < |idx| ensures idx[k] < idx[l] {
        if l < |before| {
          assert idx[k] == before[k] && idx[l] == before[l];
        } else {
          assert idx[l] == n && idx[k] == before[k];
        }
      }
    }
  }

  /** No `Some` outcome is lost. */
  lemma {:induction false} SourcesComplete<T>(outcomes: seq<Option<T>>, i: int)
    requires 0 <= i < |outcomes| && outcomes[i].Some?
    ensures i in Sources(outcomes)
  {
    var n := |outcomes| - 1;
    var before := Sources(outcomes[..n]);
    if i < n {
      assert outcomes[..n][i] == outcomes[i];
      SourcesComplete(outcomes[..n], i);
      assert Sources(outcomes) == before || Sources(outcomes) == before + [n];
    }
  }

  lemma PresentSnoc<T>(outcomes: seq<Option<T>>, last: Option<T>)
    ensures Present(outcomes + [last]) == Present(outcomes) + (if last.Some? then [last.value] else [])
  {
    assert (outcomes + [last])[..|outcomes|] == outcomes;
  }

  /** `Present` distributes over concatenation. */
  lemma {:induction false} PresentAppend<T>(prefix: seq<Option<T>>, suffix: seq<Option<T>>)
    ensures Present(prefix + suffix) == Present(prefix) + Present(suffix)
    decreases |suffix|
  {
    if suffix == [] {
      assert prefix + suffix == prefix;
    } else {
      var n := |suffix| - 1;
      assert (prefix + suffix)[..|prefix + suffix| - 1] == prefix + suffix[..n];
      assert (prefix + suffix)[|prefix + suffix| - 1] == suffix[n];
      PresentAppend(prefix, suffix[..n]);
    }
  }

  /** `f` applied to each element, in order. */
  function MapSeq<A, B>(f: A -> B, xs: seq<A>): (ys: seq<B>)
    ensures |ys| == |xs|
  {
    if xs == [] then [] else MapSeq(f, xs[..|xs| - 1]) + [f(xs[|xs| - 1])]
  }

  lemma {:induction false} MapAt<A, B>(f: A -> B, xs: seq<A>, i: int)
    requires 0 <= i < |xs|
    ensures MapSeq(f, xs)[i] == f(xs[i])
    decreases |xs|
  {
    var n := |xs| - 1;
    if i < n {
      MapAt(f, xs[..n], i);
      assert xs[..n][i] == xs[i];
    }
  }

  lemma MapSnoc<A, B>(f: A -> B, xs: seq<A>, i: int)
    requires 0 <= i < |xs|
    ensures MapSeq(f, xs[..i + 1]) == MapSeq(f, xs[..i]) + [f(xs[i])]
  {
    assert xs[..i + 1][..i] == xs[..i];
  }

  lemma {:induction false} MapAppend<A, B>(f: A -> B, prefix: seq<A>, suffix: seq<A>)
    ensures MapSeq(f, prefix + suffix) == MapSeq(f, prefix) + MapSeq(f, suffix)
    decreases |suffix|
  {
    if suffix == [] {
      assert prefix + suffix == prefix;
    } else {
      var n := |suffix| - 1;
      assert (prefix + suffix)[..|prefix + suffix| - 1] == prefix + suffix[..n];
      assert (prefix + suffix)[|prefix + suffix| - 1] == suffix[n];
      MapAppend(f, prefix, suffix[..n]);
    }
  }

  /** The entries scraped from a run of tables, in table order. */
  function ExtractAll(tables: seq<Table>): (entries: seq<Entry>)
  {
    Present(MapSeq(TableEntry, tables))
  }

  /** Every scraped entry is what some table yields: a weekday (or
      unparsable) date that is that table's trimmed header, with two
      non-empty rates. */
  lemma ExtractedEntries(tables: seq<Table>, k: int)
    requires 0 <= k < |ExtractAll(tables)|
    ensures exists i :: 0 <= i < |tables| && TableEntry(tables[i]) == Some(ExtractAll(tables)[k])
    ensures !IsWeekend(ExtractAll(tables)[k].date)
    ensures ExtractAll(tables)[k].usd != [] && ExtractAll(tables)[k].eur != []
  {
    var outcomes := MapSeq(TableEntry, tables);
    var i := Sources(outcomes)[k];
    MapAt(TableEntry, tables, i);
  }

  /** Entries keep the order of the tables they come from, and every table
      that yields an entry contributes it. */
  lemma ExtractionOrder(tables: seq<Table>)
    ensures var idx := Sources(MapSeq(TableEntry, tables));
            (forall k :: 0 <= k < |idx| ==>
               0 <= idx[k] < |tables| && TableEntry(tables[idx[k]]) == Some(ExtractAll(tables)[k])) &&
            (forall k, l :: 0 <= k < l < |idx| ==> idx[k] < idx[l]) &&
            (forall i :: 0 <= i < |tables| && TableEntry(tables[i]).Some? ==> i in idx)
  {
    var outcomes := MapSeq(TableEntry, tables);
    var idx := Sources(outcomes);
    SourcesIncreasing(outcomes);
    forall k | 0 <= k < |idx| ensures TableEntry(tables[idx[k]]) == Some(ExtractAll(tables)[k]) {
      MapAt(TableEntry, tables, idx[k]);
    }
    forall i | 0 <= i < |tables| && TableEntry(tables[i]).Some? ensures i in idx {
      MapAt(TableEntry, tables, i);
      SourcesComplete(outcomes, i);
    }
  }

  /** One more table adds its entry, if it yields one, at the end. */
  lemma ExtractAllSnoc(tables: seq<Table>, i: nat)
    requires i < |tables|
    ensures TableEntry(tables[i]) == None ==> ExtractAll(tables[..i + 1]) == ExtractAll(tables[..i])
    ensures TableEntry(tables[i]).Some? ==>
              ExtractAll(tables[..i + 1]) == ExtractAll(tables[..i]) + [TableEntry(tables[i]).value]
  {
    MapSnoc(TableEntry, tables, i);
    PresentSnoc(MapSeq(TableEntry, tables[..i]), TableEntry(tables[i]));
  }

  /** Scraping a page whose tables are `prefix + suffix` gives the entries of
      `prefix` followed by those of `suffix`. */
  lemma ExtractAllAppend(prefix: seq<Table>, suffix: seq<Table>)
    ensures ExtractAll(prefix + suffix) == ExtractAll(prefix) + ExtractAll(suffix)
  {
    MapAppend(TableEntry, prefix, suffix);
    PresentAppend(MapSeq(TableEntry, prefix), MapSeq(TableEntry, suffix));
  }

  lemma TwoDigits(s: string)
    requires |s| == 2 && AllDigits(s)
    ensures DigitsValue(s) == 10 * (s[0] as int - '0' as int) + (s[1] as int - '0' as int)
  {
    assert s[..1][..0] == [];
    assert s[..1] == [s[0]];
  }

  lemma FourDigits(s: string)
    requires |s| == 4 && AllDigits(s)
    ensures DigitsValue(s) == DigitsValue(s[..2]) * 100 + DigitsValue(s[2..])
  {
    assert s[..3][..2] == s[..2];
    assert s[2..] == [s[2], s[3]];
    TwoDigits(s[2..]);
  }

  /** The weekday of a `DD-MM-YYYY` header of digits in range is that of
      the day it denotes. */
  lemma HeaderWeekDay(dd: string, mm: string, yyyy: string)
    requires |dd| == 2 && |mm| == 2 && |yyyy| == 4
    requires AllDigits(dd) && AllDigits(mm) && AllDigits(yyyy)
    requires 1 <= DigitsValue(mm) <= 12 && 1 <= DigitsValue(dd) <= 31
    ensures DayOfWeek(dd + "-" + mm + "-" + yyyy) ==
            Some(Calendar.WeekDay(Calendar.DaysFromCivil(DigitsValue(yyyy), DigitsValue(mm), DigitsValue(dd))))
  {
    HeaderDateOfParts(dd, mm, yyyy);
  }

  /** The digit values the sample headers below need. */
  lemma SampleDigits()
    ensures AllDigits("12") && AllDigits("20") && AllDigits("23") && AllDigits("2023")
    ensures DigitsValue("12") == 12 && DigitsValue("20") == 20 && DigitsValue("23") == 23
    ensures DigitsValue("2023") == 2023
  {
    TwoDigits("12");
    TwoDigits("20");
    TwoDigits("23");
    FourDigits("2023");
    assert "2023"[..2] == "20" && "2023"[2..] == "23";
  }

  /** The day numbers the sample headers below need. */
  lemma SampleDays()
    ensures Calendar.DaysFromCivil(2023, 12, 20) == 19711
    ensures Calendar.DaysFromCivil(2023, 12, 23) == 19714
  {
  }

  lemma SaturdayHeader()
    ensures DayOfWeek("23-12-2023") == Some(6)
  {
    SampleDigits();
    HeaderWeekDay("23", "12", "2023");
    assert "23-12-2023" == "23" + "-" + "12" + "-" + "2023";
    SampleDays();
  }

  /** Wednesday 20 December 2023 is a weekday: its table is not skipped for
      its date. */
  lemma WednesdayHeader()
    ensures DayOfWeek("20-12-2023") == Some(3) && !IsWeekend("20-12-2023")
  {
    SampleDigits();
    HeaderWeekDay("20", "12", "2023");
    assert "20-12-2023" == "20" + "-" + "12" + "-" + "2023";
    SampleDays();
  }

  lemma TrimKeeps(s: string)
    requires s != [] && !IsJsSpace(s[0]) && !IsJsSpace(s[|s| - 1])
    ensures Trim(s) == s
  {
    assert TrimStart(s) == s;
  }

  /** Saturday 23 December 2023 is skipped whatever its rates. */
  lemma SaturdaySkipped(rows: seq<seq<string>>)
    ensures TableEntry(Table("23-12-2023", rows)) == None
  {
    TrimKeeps("23-12-2023");
    SaturdayHeader();
  }

  /** `fetchExchangeRates`: the empty list when fetching or loading failed,
      otherwise one entry per table that passes the rule, pushed in order. */
  method FetchExchangeRates(page: Page) returns (rates: seq<Entry>)
    ensures page.Failed? ==> rates == []
    ensures page.Loaded? ==> rates == ExtractAll(page.tables)
  {
    if page.Failed? {
      return [];
    }
    var tables := page.tables;
    rates := [];
    for i := 0 to |tables|
      invariant rates == ExtractAll(tables[..i])
    {
      var table := tables[i];
      ExtractAllSnoc(tables, i);
      var dateText := Trim(table.header);
      if IsWeekend(dateText) {
        assert TableEntry(table) == None;
        continue;
      }
      var usdRate := Trim(Cell(table.rows, 0, 1));
      var eurRate := Trim(Cell(table.rows, 1, 1));
      if usdRate == [] {
        usdRate := Trim(Cell(table.rows, 0, 0));
      }
      if eurRate == [] {
        eurRate := Trim(Cell(table.rows, 1, 0));
      }
      assert usdRate == RateText(table.rows, 0) && eurRate == RateText(table.rows, 1);
      if usdRate != [] && eurRate != [] {
        rates := rates + [Entry(dateText, DecimalText(usdRate), DecimalText(eurRate))];
      } else {
        assert TableEntry(table) == None;
      }
    }
    assert tables[..|tables|] == tables;
  }
}
