/** The `exchange_rate` table of database.js, held in memory: rows are only
    ever appended, each with a fresh AUTOINCREMENT id, and read back either by
    a (date, currency) lookup or as the whole table ordered by `date DESC`. */
module Store {
  import opened Wrappers
  import opened Text

  /** One row: `id INTEGER PRIMARY KEY AUTOINCREMENT, currency TEXT, rate
      REAL, date TEXT`. The rate is kept as the decimal text it is parsed
      from. */
  datatype Row = Row(id: nat, currency: string, rate: string, date: string)

  /** A row without its id: what the application writes. */
  datatype Record = Record(currency: string, rate: string, date: string)

  /** The ways the SQLite engine can fail a statement: a rejected read
      (`db.get`, `db.all`) or a rejected write (`db.run`). */
  datatype DbError = ReadError | WriteError

  datatype Result<+T> = Ok(value: T) | Err(error: DbError)

  /** What the database holds, ids left out. */
  function RecordsOf(rows: seq<Row>): seq<Record> {
    seq(|rows|, i requires 0 <= i < |rows| => Record(rows[i].currency, rows[i].rate, rows[i].date))
  }

  /** Some record has exactly this date and exactly this currency. */
  predicate Has(recs: seq<Record>, date: string, currency: string) {
    exists i :: 0 <= i < |recs| && recs[i].date == date && recs[i].currency == currency
  }

  /** Ids strictly increase along the table and all lie below the next id
      AUTOINCREMENT will hand out; ids start at 1. */
  predicate IdsFresh(rows: seq<Row>, nextId: nat) {
    1 <= nextId &&
    (forall i :: 0 <= i < |rows| ==> 1 <= rows[i].id < nextId) &&
    (forall i, j :: 0 <= i < j < |rows| ==> rows[i].id < rows[j].id)
  }

  /** Whether `parseFloat` finds a number at the start of the text: it
      skips leading whitespace, then reads an optional sign and needs a
      digit, a point followed by a digit, or `Infinity`. Otherwise it gives
      NaN, which SQLite binds as NULL, so that `rate REAL NOT NULL` rejects
      the row. */
  predicate HasNumericPrefix(rate: string)
    decreases |rate|
  {
    if rate != [] && IsJsSpace(rate[0]) then HasNumericPrefix(rate[1..])
    else if rate != [] && (rate[0] == '+' || rate[0] == '-') then UnsignedStart(rate[1..])
    else UnsignedStart(rate)
  }

  /** `parseFloat` skips leading whitespace: a text reads as a number
      exactly when its `trimStart` does, and a text with no leading
      whitespace reads as a number exactly when it starts, after an
      optional sign, with a digit, a point and a digit, or `Infinity`. */
  lemma {:induction false} NumericPrefixAfterTrim(rate: string)
    ensures HasNumericPrefix(rate) == HasNumericPrefix(TrimStart(rate))
    ensures var t := TrimStart(rate);
            HasNumericPrefix(rate) <==>
              (t != [] && (t[0] == '+' || t[0] == '-') && UnsignedStart(t[1..])) ||
              (!(t != [] && (t[0] == '+' || t[0] == '-')) && UnsignedStart(t))
    decreases |rate|
  {
    if rate != [] && IsJsSpace(rate[0]) {
      NumericPrefixAfterTrim(rate[1..]);
    }
  }

  predicate UnsignedStart(u: string) {
    (u != [] && IsDigit(u[0])) ||
    (|u| >= 2 && u[0] == '.' && IsDigit(u[1])) ||
    (|u| >= 8 && u[0] == 'I' && u[1] == 'n' && u[2] == 'f' && u[3] == 'i' && u[4] == 'n' && u[5] == 'i' && u[6] == 't' && u[7] == 'y')
  }

  /** Texts the bank may publish in place of a rate read as NaN; a rate
      with leading whitespace or a sign still reads as a number. */
  lemma NumericPrefixExamples()
    ensures !HasNumericPrefix("-") && !HasNumericPrefix("N/D") && !HasNumericPrefix("")
    ensures HasNumericPrefix(" 134.5") && HasNumericPrefix("-0.5") && HasNumericPrefix(".5")
  {
  }

  /** Whether the engine accepts an insert of `rate` with write budget
      `budget`: None accepts every insert, Some(n) the next n inserts. */
  predicate AcceptsWrite(budget: Option<nat>, rate: string) {
    budget != Some(0) && HasNumericPrefix(rate)
  }

  /** The write budget after `k` more accepted inserts. */
  function SpendN(budget: Option<nat>, k: nat): Option<nat> {
    match budget
    case None => None
    case Some(n) => Some(if k <= n then n - k else 0)
  }

  /** How many writes from the front of `writes` have a rate `parseFloat`
      reads as a number: the ones before the first NaN. */
  function NumericRun(writes: seq<Record>): (n: nat)
    ensures n <= |writes|
  {
    if writes == [] || !HasNumericPrefix(writes[0].rate) then 0
    else 1 + NumericRun(writes[1..])
  }

  /** The writes of a numeric run all read as numbers, and the write after
      the run, if any, is NaN. */
  lemma {:induction false} NumericRunStops(writes: seq<Record>)
    ensures forall j :: 0 <= j < NumericRun(writes) ==> HasNumericPrefix(writes[j].rate)
    ensures NumericRun(writes) < |writes| ==> !HasNumericPrefix(writes[NumericRun(writes)].rate)
    decreases |writes|
  {
    if writes != [] && HasNumericPrefix(writes[0].rate) {
      var rest := NumericRun(writes[1..]);
      NumericRunStops(writes[1..]);
      forall j | 1 <= j < 1 + rest ensures HasNumericPrefix(writes[j].rate) {
        assert writes[j] == writes[1..][j - 1];
      }
      if 1 + rest < |writes| {
        assert writes[1 + rest] == writes[1..][rest];
      }
    }
  }

  /** The numeric run of `a + c` stops inside `a` when `a`'s does, and
      otherwise runs on into `c`. */
  lemma {:induction false} NumericRunAppend(a: seq<Record>, c: seq<Record>)
    ensures NumericRun(a) < |a| ==> NumericRun(a + c) == NumericRun(a)
    ensures NumericRun(a) == |a| ==> NumericRun(a + c) == |a| + NumericRun(c)
    decreases |a|
  {
    if a == [] {
      assert a + c == c;
    } else {
      assert (a + c)[0] == a[0];
      assert (a + c)[1..] == a[1..] + c;
      if HasNumericPrefix(a[0].rate) {
        NumericRunAppend(a[1..], c);
      }
    }
  }

  /** How many of `writes`, issued in order, are committed before the first
      one the engine rejects: the numeric run, cut at the budget. */
  function Committed(writes: seq<Record>, budget: Option<nat>): (k: nat)
    ensures k <= |writes|
    ensures budget.Some? ==> k <= budget.value
  {
    match budget
    case None => NumericRun(writes)
    case Some(n) => if NumericRun(writes) <= n then NumericRun(writes) else n
  }

  /** The committed writes all had a rate `parseFloat` reads, and the write
      after them, if any, is the one the engine rejects. */
  lemma CommittedStops(writes: seq<Record>, budget: Option<nat>)
    ensures var k := Committed(writes, budget);
            (forall j :: 0 <= j < k ==> HasNumericPrefix(writes[j].rate)) &&
            (k < |writes| ==> !AcceptsWrite(SpendN(budget, k), writes[k].rate))
  {
    NumericRunStops(writes);
  }

  lemma SpendNAdd(budget: Option<nat>, m: nat, k: nat)
    ensures SpendN(SpendN(budget, m), k) == SpendN(budget, m + k)
  {
  }

  /** Issuing `a` then `c`: if `a` is cut short, so is the whole run, at the
      same place; otherwise `c` runs on with what `a` left of the budget. */
  lemma CommittedAppend(a: seq<Record>, c: seq<Record>, budget: Option<nat>)
    ensures Committed(a, budget) < |a| ==> Committed(a + c, budget) == Committed(a, budget)
    ensures Committed(a, budget) == |a| ==>
              Committed(a + c, budget) == |a| + Committed(c, SpendN(budget, |a|))
  {
    NumericRunAppend(a, c);
  }

  /** Issuing `a` then `c`, when a write of `a` is rejected: the whole run
      ends there, and a table holding `start` keeps the same prefix. */
  lemma CommitFirstRejected(start: seq<Record>, a: seq<Record>, c: seq<Record>, budget: Option<nat>)
    requires Committed(a, budget) < |a|
    ensures Committed(a + c, budget) == Committed(a, budget) < |a + c|
    ensures start + a[..Committed(a, budget)] == start + (a + c)[..Committed(a + c, budget)]
  {
    CommittedAppend(a, c, budget);
    assert (a + c)[..Committed(a, budget)] == a[..Committed(a, budget)];
  }

  /** Issuing `a` then `c`, when all of `a` commits: `c` commits as it
      would on its own against the budget `a` left. */
  lemma CommitFirstAccepted(a: seq<Record>, c: seq<Record>, budget: Option<nat>)
    requires Committed(a, budget) == |a|
    ensures Committed(a + c, budget) == |a| + Committed(c, SpendN(budget, |a|))
    ensures SpendN(SpendN(budget, |a|), Committed(c, SpendN(budget, |a|))) == SpendN(budget, |a| + Committed(c, SpendN(budget, |a|)))
  {
    CommittedAppend(a, c, budget);
    SpendNAdd(budget, |a|, Committed(c, SpendN(budget, |a|)));
  }

  /** A table holding `start` then `done` that gains the first `k` of
      `next` holds `start` then the first `|done| + k` of `done + next`. */
  lemma PrefixOfAppend<T>(start: seq<T>, done: seq<T>, next: seq<T>, k: nat)
    requires k <= |next|
    ensures (start + done) + next[..k] == start + (done + next)[..|done| + k]
    ensures k == |next| ==> (start + done) + next[..k] == start + (done + next)
  {
    assert (done + next)[..|done| + k] == done + next[..k];
    assert next[..|next|] == next;
  }

  /** Rows in the order of `ORDER BY date DESC`: no row's date is
      (text-)smaller than that of a row after it. */
  predicate SortedByDateDesc(rows: seq<Row>) {
    forall i, j :: 0 <= i < j < |rows| ==> LexLe(rows[j].date, rows[i].date)
  }

  /** A row no smaller than the first of a sorted listing may go in front. */
  lemma SortedCons(row: Row, sorted: seq<Row>)
    requires SortedByDateDesc(sorted)
    requires sorted != [] ==> LexLe(sorted[0].date, row.date)
    ensures SortedByDateDesc([row] + sorted)
  {
    var r := [row] + sorted;
    forall i, j | 0 <= i < j < |r| ensures LexLe(r[j].date, r[i].date) {
      if i == 0 && j > 1 {
        LexLeTransitive(sorted[j - 1].date, sorted[0].date, row.date);
      }
    }
  }

  /** Places `row` in a listing sorted by date descending, before the first
      row whose date is not greater than its own. */
  function InsertByDate(row: Row, sorted: seq<Row>): (r: seq<Row>)
    requires SortedByDateDesc(sorted)
    ensures SortedByDateDesc(r)
    ensures multiset(r) == multiset(sorted) + multiset{row}
    ensures r[0] == row || (sorted != [] && r[0] == sorted[0])
  {
    if sorted == [] then [row]
    else if LexLe(sorted[0].date, row.date) then
      SortedCons(row, sorted);
      [row] + sorted
    else
      var rest := InsertByDate(row, sorted[1..]);
      LexLeTotal(sorted[0].date, row.date);
      SortedCons(sorted[0], rest);
      assert sorted == [sorted[0]] + sorted[1..];
      [sorted[0]] + rest
  }

  /** The rows as `SELECT * FROM exchange_rate ORDER BY date DESC` lists
      them (one of the orders SQLite may pick among equal dates). */
  function SortByDateDesc(rows: seq<Row>): (r: seq<Row>)
    ensures SortedByDateDesc(r)
    ensures multiset(r) == multiset(rows)
  {
    if rows == [] then []
    else
      assert rows == [rows[0]] + rows[1..];
      InsertByDate(rows[0], SortByDateDesc(rows[1..]))
  }

  /** The listing orders dates as text, not as days: "20-12-2023" comes
      before "05-01-2024" although it is the earlier day. */
  lemma ListingNotChronological(listing: seq<Row>, i: int, j: int)
    requires SortedByDateDesc(listing)
    requires 0 <= i < |listing| && 0 <= j < |listing|
    requires listing[i].date == "05-01-2024" && listing[j].date == "20-12-2023"
    ensures j < i
  {
    assert !LexLe("20-12-2023", "05-01-2024");
  }

  /** The `exchange_rate` table of one database file. */
  class ExchangeRateTable {
    var rows: seq<Row>
    /** The next id AUTOINCREMENT hands out: one more than the largest id
        ever used. */
    var nextId: nat
    /** Whether the engine rejects reads on this database. */
    const readFault: bool
    /** How many more inserts the engine accepts: None for no limit, Some(n)
        for n more, after which it rejects every insert. */
    var writeBudget: Option<nat>

    ghost predicate Valid()
      reads this
    {
      IdsFresh(rows, nextId)
    }

    /** The rows without their ids. */
    function Records(): (recs: seq<Record>)
      reads this
      ensures |recs| == |rows|
    {
      RecordsOf(rows)
    }

    /** `CREATE TABLE IF NOT EXISTS exchange_rate` on a new database file:
        the table starts empty. */
    constructor (readFault: bool, writeBudget: Option<nat>)
      ensures Valid()
      ensures rows == [] && nextId == 1
      ensures this.readFault == readFault && this.writeBudget == writeBudget
    {
      rows := [];
      nextId := 1;
      this.readFault := readFault;
      this.writeBudget := writeBudget;
    }

    /** `rateExists(date, currency)`: whether a row has exactly this date and
        exactly this currency; a rejected query is an error. */
    method RateExists(date: string, currency: string) returns (r: Result<bool>)
      ensures readFault ==> r == Err(ReadError)
      ensures !readFault ==>
                r.Ok? && (r.value <==> exists i :: 0 <= i < |rows| && rows[i].date == date && rows[i].currency == currency)
      ensures r.Ok? ==> (r.value <==> Has(Records(), date, currency))
    {
      if readFault {
        return Err(ReadError);
      }
      var found := exists i | 0 <= i < |rows| :: rows[i].date == date && rows[i].currency == currency;
      assert found ==> Has(Records(), date, currency) by {
        if found {
          var i :| 0 <= i < |rows| && rows[i].date == date && rows[i].currency == currency;
          assert Records()[i].date == date && Records()[i].currency == currency;
        }
      }
      return Ok(found);
    }

    /** `saveExchangeRate(currency, rate, date)`: appends one row under a
        fresh id; the rows already there are untouched. A rejected insert
        (budget spent, or a rate that is NaN to `parseFloat`) changes
        nothing. */
    method SaveExchangeRate(currency: string, rate: string, date: string) returns (r: Result<()>)
      requires Valid()
      modifies this
      ensures Valid()
      ensures !AcceptsWrite(old(writeBudget), rate) ==>
                r == Err(WriteError) && rows == old(rows) && nextId == old(nextId) && writeBudget == old(writeBudget)
      ensures AcceptsWrite(old(writeBudget), rate) ==>
                r == Ok(()) && rows == old(rows) + [Row(old(nextId), currency, rate, date)] &&
                nextId == old(nextId) + 1 && writeBudget == SpendN(old(writeBudget), 1)
      ensures r.Ok? ==> forall i :: 0 <= i < |old(rows)| ==> old(rows)[i].id < rows[|rows| - 1].id
      ensures r.Ok? ==> Records() == old(Records()) + [Record(currency, rate, date)]
    {
      if !AcceptsWrite(writeBudget, rate) {
        return Err(WriteError);
      }
      rows := rows + [Row(nextId, currency, rate, date)];
      nextId := nextId + 1;
      writeBudget := SpendN(writeBudget, 1);
      assert Records() == old(Records()) + [Record(currency, rate, date)];
      return Ok(());
    }

    /** `getExchangeRates()`: every row, each once, ordered by date text
        descending; a rejected query is an error. */
    method GetExchangeRates() returns (r: Result<seq<Row>>)
      ensures readFault ==> r == Err(ReadError)
      ensures !readFault ==> r.Ok? && SortedByDateDesc(r.value) && multiset(r.value) == multiset(rows)
    {
      if readFault {
        return Err(ReadError);
      }
      return Ok(SortByDateDesc(rows));
    }
  }
}
