/** The `/api/rates` route of server.js: scrape the page, store each date's
    USD and EUR rate unless a row for that (date, currency) is already there,
    then answer with the whole table ordered by date. `doesRateExist` wraps
    the lookup so that a failed query reads as "not there". */
module RatesRoute {
  import opened Scraper
  import opened Store
  import opened Wrappers

  const USD: string := "USD"
  const EUR: string := "EUR"

  /** The answer of the route: the stored listing (status 200) or the error
      that aborted the request (status 500). */
  datatype Response = Listing(rows: seq<Row>) | ServerError(error: DbError)

  /** `doesRateExist(date, currency)`: the lookup's answer, or false when the
      lookup itself failed. */
  method DoesRateExist(db: ExchangeRateTable, date: string, currency: string) returns (found: bool)
    ensures found <==> Found(db.Records(), date, currency, db.readFault)
    ensures db.readFault ==> !found
  {
    var r := db.RateExists(date, currency);
    match r
    case Ok(b) => found := b;
    case Err(_) => found := false;
  }

  /** What the existence check reports against the records `recs`. */
  predicate Found(recs: seq<Record>, date: string, currency: string, readFault: bool) {
    !readFault && Has(recs, date, currency)
  }

  /** What `fetchExchangeRates` returns for the page. */
  function Scraped(page: Page): seq<Entry> {
    match page
    case Failed => []
    case Loaded(tables) => ExtractAll(tables)
  }

  /** The records one loop iteration writes: both checks run first against
      the records as they were, then USD is saved if its check came back
      false, then EUR likewise. */
  function EntrySaves(recs: seq<Record>, e: Entry, readFault: bool): seq<Record> {
    (if Found(recs, e.date, USD, readFault) then [] else [Record(USD, e.usd, e.date)]) +
    (if Found(recs, e.date, EUR, readFault) then [] else [Record(EUR, e.eur, e.date)])
  }

  /** The records the loop over `entries` writes, in order, starting from the
      stored records `recs`, when every write succeeds. */
  function Saves(recs: seq<Record>, entries: seq<Entry>, readFault: bool): seq<Record>
    decreases |entries|
  {
    if entries == [] then []
    else
      var before := Saves(recs, entries[..|entries| - 1], readFault);
      before + EntrySaves(recs + before, entries[|entries| - 1], readFault)
  }

  /** The writes of a prefix of the entries are a prefix of the writes of
      all of them. */
  lemma {:induction false} SavesPrefix(recs: seq<Record>, entries: seq<Entry>, k: nat, readFault: bool)
    requires k <= |entries|
    ensures Saves(recs, entries[..k], readFault) <= Saves(recs, entries, readFault)
    decreases |entries|
  {
    if k < |entries| {
      var n := |entries| - 1;
      assert entries[..n][..k] == entries[..k];
      SavesPrefix(recs, entries[..n], k, readFault);
    } else {
      assert entries[..k] == entries;
    }
  }

  /** Stored records stay stored when more are appended. */
  lemma HasAppend(recs: seq<Record>, more: seq<Record>, date: string, currency: string)
    requires Has(recs, date, currency)
    ensures Has(recs + more, date, currency)
  {
    var i :| 0 <= i < |recs| && recs[i].date == date && recs[i].currency == currency;
    assert (recs + more)[i] == recs[i];
  }

  /** After one iteration both currencies of its date are stored, if lookups
      work. */
  lemma EntrySavesPresent(recs: seq<Record>, e: Entry)
    ensures Has(recs + EntrySaves(recs, e, false), e.date, USD)
    ensures Has(recs + EntrySaves(recs, e, false), e.date, EUR)
  {
    var saved := EntrySaves(recs, e, false);
    var after := recs + saved;
    if Has(recs, e.date, USD) {
      HasAppend(recs, saved, e.date, USD);
    } else {
      assert after[|recs|] == Record(USD, e.usd, e.date);
    }
    if Has(recs, e.date, EUR) {
      HasAppend(recs, saved, e.date, EUR);
    } else {
      assert after[|after| - 1] == Record(EUR, e.eur, e.date);
    }
  }

  /** After the loop every scraped (date, USD) and (date, EUR) pair is
      stored, if lookups work. */
  lemma {:induction false} SavesPresent(recs: seq<Record>, entries: seq<Entry>)
    ensures forall k :: 0 <= k < |entries| ==>
              Has(recs + Saves(recs, entries, false), entries[k].date, USD) &&
              Has(recs + Saves(recs, entries, false), entries[k].date, EUR)
    decreases |entries|
  {
    if entries != [] {
      var n := |entries| - 1;
      var before := Saves(recs, entries[..n], false);
      var mid := recs + before;
      var last := EntrySaves(mid, entries[n], false);
      SavesPresent(recs, entries[..n]);
      assert recs + Saves(recs, entries, false) == mid + last;
      forall k | 0 <= k < |entries|
        ensures Has(mid + last, entries[k].date, USD) && Has(mid + last, entries[k].date, EUR)
      {
        if k < n {
          assert entries[..n][k] == entries[k];
          HasAppend(mid, last, entries[k].date, USD);
          HasAppend(mid, last, entries[k].date, EUR);
        } else {
          EntrySavesPresent(mid, entries[n]);
        }
      }
    }
  }

  /** When every pair is already stored and lookups work, the loop writes
      nothing. */
  lemma {:induction false} SavesNothingWhenPresent(recs: seq<Record>, entries: seq<Entry>)
    requires forall k :: 0 <= k < |entries| ==> Has(recs, entries[k].date, USD) && Has(recs, entries[k].date, EUR)
    ensures Saves(recs, entries, false) == []
    decreases |entries|
  {
    if entries != [] {
      var n := |entries| - 1;
      assert forall k :: 0 <= k < n ==> entries[..n][k] == entries[k];
      SavesNothingWhenPresent(recs, entries[..n]);
      assert recs + [] == recs;
    }
  }

  /** Running the loop a second time over the same entries writes nothing. */
  lemma SavesIdempotent(recs: seq<Record>, entries: seq<Entry>)
    ensures Saves(recs + Saves(recs, entries, false), entries, false) == []
  {
    SavesPresent(recs, entries);
    SavesNothingWhenPresent(recs + Saves(recs, entries, false), entries);
  }

  /** No two records share a date and a currency. */
  predicate UniquePairs(recs: seq<Record>) {
    forall i, j :: 0 <= i < j < |recs| ==> recs[i].date != recs[j].date || recs[i].currency != recs[j].currency
  }

  lemma AppendUnique(recs: seq<Record>, r: Record)
    requires UniquePairs(recs) && !Has(recs, r.date, r.currency)
    ensures UniquePairs(recs + [r])
  {
    var after := recs + [r];
    forall i, j | 0 <= i < j < |after|
      ensures after[i].date != after[j].date || after[i].currency != after[j].currency
    {
      if j == |recs| {
        assert after[i] == recs[i];
      }
    }
  }

  /** With working lookups the loop never stores a (date, currency) pair
      twice: at most one record per pair, as the check-then-insert intends. */
  lemma {:induction false} SavesKeepUnique(recs: seq<Record>, entries: seq<Entry>)
    requires UniquePairs(recs)
    ensures UniquePairs(recs + Saves(recs, entries, false))
    decreases |entries|
  {
    if entries != [] {
      var n := |entries| - 1;
      var e := entries[n];
      var mid := recs + Saves(recs, entries[..n], false);
      SavesKeepUnique(recs, entries[..n]);
      var usd := if Has(mid, e.date, USD) then [] else [Record(USD, e.usd, e.date)];
      var eur := if Has(mid, e.date, EUR) then [] else [Record(EUR, e.eur, e.date)];
      assert recs + Saves(recs, entries, false) == mid + usd + eur;
      if usd != [] {
        AppendUnique(mid, usd[0]);
      }
      assert UniquePairs(mid + usd);
      if eur != [] {
        assert !Has(mid + usd, e.date, EUR) by {
          forall i | 0 <= i < |mid + usd|
            ensures (mid + usd)[i].date != e.date || (mid + usd)[i].currency != EUR
          {
            if i < |mid| {
              assert (mid + usd)[i] == mid[i];
            } else {
              assert (mid + usd)[i].currency == USD;
              assert USD[0] != EUR[0];
            }
          }
        }
        AppendUnique(mid + usd, eur[0]);
      }
    }
  }

  /** Every record the loop writes is one of the scraped rates. */
  lemma {:induction false} SavesAreScraped(recs: seq<Record>, entries: seq<Entry>, readFault: bool)
    ensures forall r :: r in Saves(recs, entries, readFault) ==>
              exists k :: 0 <= k < |entries| &&
                (r == Record(USD, entries[k].usd, entries[k].date) || r == Record(EUR, entries[k].eur, entries[k].date))
    decreases |entries|
  {
    if entries != [] {
      var n := |entries| - 1;
      var before := Saves(recs, entries[..n], readFault);
      SavesAreScraped(recs, entries[..n], readFault);
      forall r | r in Saves(recs, entries, readFault)
        ensures exists k :: 0 <= k < |entries| &&
                  (r == Record(USD, entries[k].usd, entries[k].date) || r == Record(EUR, entries[k].eur, entries[k].date))
      {
        if r in before {
          var k :| 0 <= k < n &&
            (r == Record(USD, entries[..n][k].usd, entries[..n][k].date) ||
             r == Record(EUR, entries[..n][k].eur, entries[..n][k].date));
          assert entries[..n][k] == entries[k];
        } else {
          assert r in EntrySaves(recs + before, entries[n], readFault);
        }
      }
    }
  }

  /** When every lookup fails, each entry is written again in full: two
      records per entry, whatever is stored already. */
  lemma {:induction false} SavesOnReadFault(recs: seq<Record>, entries: seq<Entry>)
    ensures |Saves(recs, entries, true)| == 2 * |entries|
    ensures forall k :: 0 <= k < |entries| ==>
              Saves(recs, entries, true)[2 * k] == Record(USD, entries[k].usd, entries[k].date) &&
              Saves(recs, entries, true)[2 * k + 1] == Record(EUR, entries[k].eur, entries[k].date)
    decreases |entries|
  {
    if entries != [] {
      var n := |entries| - 1;
      SavesOnReadFault(recs, entries[..n]);
      forall k | 0 <= k < n ensures entries[..n][k] == entries[k] {}
    }
  }

  /** A single entry whose date has neither pair stored writes its USD
      record, then its EUR record. */
  lemma OneNewEntry(recs: seq<Record>, e: Entry)
    requires !Has(recs, e.date, USD) && !Has(recs, e.date, EUR)
    ensures Saves(recs, [e], false) == [Record(USD, e.usd, e.date), Record(EUR, e.eur, e.date)]
  {
    assert [e][..0] == [];
  }

  /** With room for one more insert, a new entry keeps its USD row although
      the EUR insert is rejected: the loop has no transaction to roll back. */
  lemma UsdKeptWhenEurRejected(recs: seq<Record>, e: Entry)
    requires !Has(recs, e.date, USD) && !Has(recs, e.date, EUR)
    requires HasNumericPrefix(e.usd)
    ensures var writes := Saves(recs, [e], false);
            var k := Committed(writes, Some(1));
            k == 1 && k < |writes| && recs + writes[..k] == recs + [Record(USD, e.usd, e.date)]
  {
    OneNewEntry(recs, e);
    var writes := Saves(recs, [e], false);
    assert writes[1..] == [Record(EUR, e.eur, e.date)];
    assert Committed(writes[1..], Some(0)) == 0;
  }

  /** A missing USD pair whose rate `parseFloat` reads as NaN is rejected
      by the NOT NULL constraint before anything is written, whatever the
      budget. */
  lemma NanRateRejected(recs: seq<Record>, e: Entry, budget: Option<nat>)
    requires !Has(recs, e.date, USD) && !HasNumericPrefix(e.usd)
    ensures var writes := Saves(recs, [e], false);
            Committed(writes, budget) == 0 && 0 < |writes| && writes[0] == Record(USD, e.usd, e.date)
  {
    assert [e][..0] == [];
  }

  /** One iteration of the handler's loop: check USD, check EUR, then save
      each currency whose check came back false. A rejected save ends the
      iteration with its error; what was saved before it stays saved. */
  method SaveEntry(db: ExchangeRateTable, rate: Entry) returns (r: Result<()>)
    requires db.Valid()
    modifies db
    ensures db.Valid()
    ensures old(db.rows) <= db.rows
    ensures var writes := EntrySaves(old(db.Records()), rate, db.readFault);
            var k := Committed(writes, old(db.writeBudget));
            db.Records() == old(db.Records()) + writes[..k] &&
            db.writeBudget == SpendN(old(db.writeBudget), k) &&
            (r.Err? <==> k < |writes|)
    ensures r.Err? ==> r.error == WriteError
  {
    ghost var start := db.Records();
    ghost var budget := db.writeBudget;
    var usdExists := DoesRateExist(db, rate.date, USD);
    var eurExists := DoesRateExist(db, rate.date, EUR);
    ghost var usdSaves := if usdExists then [] else [Record(USD, rate.usd, rate.date)];
    ghost var eurSaves := if eurExists then [] else [Record(EUR, rate.eur, rate.date)];
    assert EntrySaves(start, rate, db.readFault) == usdSaves + eurSaves;
    if Committed(usdSaves, budget) < |usdSaves| {
      CommitFirstRejected(start, usdSaves, eurSaves, budget);
    } else {
      CommitFirstAccepted(usdSaves, eurSaves, budget);
      PrefixOfAppend(start, usdSaves, eurSaves, Committed(eurSaves, SpendN(budget, |usdSaves|)));
    }
    if !usdExists {
      var saved := db.SaveExchangeRate(USD, rate.usd, rate.date);
      if saved.Err? {
        return Err(saved.error);
      }
    }
    assert start + usdSaves[..|usdSaves|] == start + usdSaves;
    if !eurExists {
      var saved := db.SaveExchangeRate(EUR, rate.eur, rate.date);
      if saved.Err? {
        return Err(saved.error);
      }
    }
    return Ok(());
  }

  /** The loop of the `/api/rates` handler over the scraped entries, one
      check-then-save iteration per entry. The first rejected save ends the
      loop with its error; every save before it stays committed, as there is
      no transaction around the loop. */
  method SaveRates(db: ExchangeRateTable, rates: seq<Entry>) returns (r: Result<()>)
    requires db.Valid()
    modifies db
    ensures db.Valid()
    ensures old(db.rows) <= db.rows
    ensures var writes := Saves(old(db.Records()), rates, db.readFault);
            var k := Committed(writes, old(db.writeBudget));
            db.Records() == old(db.Records()) + writes[..k] &&
            db.writeBudget == SpendN(old(db.writeBudget), k) &&
            (r.Err? <==> k < |writes|)
    ensures r.Err? ==> r.error == WriteError
  {
    ghost var start := db.Records();
    ghost var budget := db.writeBudget;
    SavesNone(start, rates, db.readFault, budget);
    for i := 0 to |rates|
      invariant db.Valid()
      invariant old(db.rows) <= db.rows
      invariant db.Records() == start + Saves(start, rates[..i], db.readFault)
      invariant Committed(Saves(start, rates[..i], db.readFault), budget) == |Saves(start, rates[..i], db.readFault)|
      invariant db.writeBudget == SpendN(budget, |Saves(start, rates[..i], db.readFault)|)
    {
      SavesStep(start, rates, i, db.readFault, budget);
      SavesAbort(start, rates, i, db.readFault, budget);
      var saved := SaveEntry(db, rates[i]);
      if saved.Err? {
        return saved;
      }
    }
    SavesAll(start, rates, db.readFault, budget);
    return Ok(());
  }

  /** Before the loop nothing is written and nothing is spent. */
  lemma SavesNone(start: seq<Record>, rates: seq<Entry>, readFault: bool, budget: Option<nat>)
    ensures Saves(start, rates[..0], readFault) == []
    ensures start + Saves(start, rates[..0], readFault) == start
    ensures Committed(Saves(start, rates[..0], readFault), budget) == 0
    ensures SpendN(budget, 0) == budget
  {
    assert rates[..0] == [];
  }

  /** One iteration of the loop, after every earlier write committed: the
      writes up to this entry are the earlier ones followed by this entry's,
      and this entry's commit as they would on their own. */
  lemma SavesStep(start: seq<Record>, rates: seq<Entry>, i: nat, readFault: bool, budget: Option<nat>)
    requires i < |rates|
    requires Committed(Saves(start, rates[..i], readFault), budget) == |Saves(start, rates[..i], readFault)|
    ensures var done := Saves(start, rates[..i], readFault);
            var next := EntrySaves(start + done, rates[i], readFault);
            var k := Committed(next, SpendN(budget, |done|));
            var upTo := Saves(start, rates[..i + 1], readFault);
            Committed(upTo, budget) == |done| + k &&
            (start + done) + next[..k] == start + upTo[..|done| + k] &&
            SpendN(SpendN(budget, |done|), k) == SpendN(budget, |done| + k) &&
            (k < |next| <==> |done| + k < |upTo|) &&
            (k == |next| ==> (start + done) + next[..k] == start + upTo)
  {
    var done := Saves(start, rates[..i], readFault);
    var next := EntrySaves(start + done, rates[i], readFault);
    SavesSnoc(start, rates, i, readFault);
    CommitFirstAccepted(done, next, budget);
    PrefixOfAppend(start, done, next, Committed(next, SpendN(budget, |done|)));
  }

  /** A rejected write before the end of the writes up to entry `i` is
      where the whole loop's writes stop too. */
  lemma SavesAbort(start: seq<Record>, rates: seq<Entry>, i: nat, readFault: bool, budget: Option<nat>)
    requires i < |rates|
    ensures var upTo := Saves(start, rates[..i + 1], readFault);
            var c := Committed(upTo, budget);
            var writes := Saves(start, rates, readFault);
            c < |upTo| ==> c < |writes| && Committed(writes, budget) == c && writes[..c] == upTo[..c]
  {
    var upTo := Saves(start, rates[..i + 1], readFault);
    var writes := Saves(start, rates, readFault);
    SavesPrefix(start, rates, i + 1, readFault);
    PrefixSplit(upTo, writes);
    CommittedAppend(upTo, writes[|upTo|..], budget);
  }

  /** A sequence is its prefix followed by the rest. */
  lemma PrefixSplit<T>(a: seq<T>, b: seq<T>)
    requires a <= b
    ensures b == a + b[|a|..]
  {
  }

  /** After the whole loop every write committed. */
  lemma SavesAll(start: seq<Record>, rates: seq<Entry>, readFault: bool, budget: Option<nat>)
    requires Committed(Saves(start, rates[..|rates|], readFault), budget) == |Saves(start, rates[..|rates|], readFault)|
    ensures var writes := Saves(start, rates, readFault);
            Committed(writes, budget) == |writes| &&
            start + Saves(start, rates[..|rates|], readFault) == start + writes[..|writes|]
  {
    assert rates[..|rates|] == rates;
  }

  /** One more entry adds the writes of one more iteration. */
  lemma SavesSnoc(recs: seq<Record>, entries: seq<Entry>, i: nat, readFault: bool)
    requires i < |entries|
    ensures Saves(recs, entries[..i + 1], readFault) ==
            Saves(recs, entries[..i], readFault) + EntrySaves(recs + Saves(recs, entries[..i], readFault), entries[i], readFault)
    ensures recs + Saves(recs, entries[..i + 1], readFault) ==
            (recs + Saves(recs, entries[..i], readFault)) + EntrySaves(recs + Saves(recs, entries[..i], readFault), entries[i], readFault)
  {
    assert entries[..i + 1][..i] == entries[..i];
  }

  /** No scraped entries: the loop would write nothing and spend nothing. */
  lemma NothingScraped(recs: seq<Record>, rates: seq<Entry>, readFault: bool, budget: Option<nat>)
    requires |rates| == 0
    ensures var writes := Saves(recs, rates, readFault);
            writes == [] && Committed(writes, budget) == 0 &&
            recs + writes[..0] == recs && SpendN(budget, 0) == budget
  {
  }

  /** The `/api/rates` handler: scrape the page, store the rates unless the
      page gave none, then answer with the full listing. A rejected save
      answers with its error without reading the listing, keeping the saves
      made before it. */
  method HandleRatesRequest(db: ExchangeRateTable, page: Page) returns (resp: Response)
    requires db.Valid()
    modifies db
    ensures db.Valid()
    ensures old(db.rows) <= db.rows
    ensures var writes := Saves(old(db.Records()), Scraped(page), db.readFault);
            var k := Committed(writes, old(db.writeBudget));
            db.Records() == old(db.Records()) + writes[..k] &&
            db.writeBudget == SpendN(old(db.writeBudget), k) &&
            (resp == ServerError(WriteError) <==> k < |writes|) &&
            (resp.Listing? <==> !db.readFault && k == |writes|)
    ensures Scraped(page) == [] ==> db.rows == old(db.rows)
    ensures resp.Listing? ==> SortedByDateDesc(resp.rows) && multiset(resp.rows) == multiset(db.rows)
  {
    var rates := FetchExchangeRates(page);
    assert rates == Scraped(page);
    if |rates| > 0 {
      var stored := SaveRates(db, rates);
      if stored.Err? {
        return ServerError(stored.error);
      }
    } else {
      NothingScraped(old(db.Records()), rates, db.readFault, db.writeBudget);
    }
    var all := db.GetExchangeRates();
    match all
    case Ok(rows) => resp := Listing(rows);
    case Err(e) => resp := ServerError(e);
  }
}
