/** Point-in-time exchange rates: the latest rate on or before a date. */
module Rates {
  import opened Prelude
  import opened Ledger
  import opened Fx

  const BASE_CURRENCY := "USD"

  datatype Currency = Currency(id: Uuid, code: string)

  datatype ExchangeRate = ExchangeRate(from: Uuid, to: Uuid, rate: Rate, date: Date)

  datatype SaveError = RateAlreadyExists

  datatype ResolveError = UnknownCurrency | BaseCurrencyMissing | NoRateOnOrBefore

  predicate SameKey(x: ExchangeRate, y: ExchangeRate) {
    x.from == y.from && x.to == y.to && x.date == y.date
  }

  /** The constraint uq_exchange_rate_pair_date, and the NUMERIC(18,8) column type. */
  predicate IsRateTable(table: seq<ExchangeRate>) {
    && (forall i, j | 0 <= i < j < |table| :: !SameKey(table[i], table[j]))
    && (forall i | 0 <= i < |table| :: table[i].rate.scale == 8 && IsRate(table[i].rate))
  }

  function SaveExchangeRate(table: seq<ExchangeRate>, r: ExchangeRate): Result<seq<ExchangeRate>, SaveError> {
    if exists i | 0 <= i < |table| :: SameKey(table[i], r) then Err(RateAlreadyExists) else Ok(table + [r])
  }

  predicate Matches(r: ExchangeRate, from: Uuid, to: Uuid, date: Date) {
    r.from == from && r.to == to && r.date <= date
  }

  /** The best match so far against one more row, in descending date order. */
  function Later(best: Option<ExchangeRate>, r: ExchangeRate, from: Uuid, to: Uuid, date: Date): Option<ExchangeRate> {
    if Matches(r, from, to, date) && (best.None? || best.value.date < r.date) then Some(r) else best
  }

  predicate IsLatest(table: seq<ExchangeRate>, from: Uuid, to: Uuid, date: Date, r: ExchangeRate) {
    && r in table
    && Matches(r, from, to, date)
    && forall i | 0 <= i < |table| :: Matches(table[i], from, to, date) ==> table[i].date <= r.date
  }

  /** WHERE from, to, effective_date <= date ORDER BY effective_date DESC LIMIT 1. */
  function FindExchangeRate(table: seq<ExchangeRate>, from: Uuid, to: Uuid, date: Date): (found: Option<ExchangeRate>)
    ensures found.Some? ==> IsLatest(table, from, to, date, found.value)
    ensures found.None? ==> forall i | 0 <= i < |table| :: !Matches(table[i], from, to, date)
  {
    if table == [] then None
    else
      var rest := table[..|table| - 1];
      assert forall i | 0 <= i < |rest| :: table[i] == rest[i];
      Later(FindExchangeRate(rest, from, to, date), table[|table| - 1], from, to, date)
  }

  /** The row with the code, if there is one. */
  function FindByCode(currencies: seq<Currency>, code: string): (found: Option<Currency>)
    ensures found.Some? ==> found.value in currencies && found.value.code == code
    ensures found.None? ==> forall i | 0 <= i < |currencies| :: currencies[i].code != code
  {
    if currencies == [] then None
    else if currencies[0].code == code then Some(currencies[0])
    else FindByCode(currencies[1..], code)
  }

  function ResolveUsdRate(currencies: seq<Currency>, rates: seq<ExchangeRate>, code: string, date: Date)
    : Result<Rate, ResolveError>
  {
    if code == BASE_CURRENCY then Ok(Rate(1, 0))
    else
      var from := FindByCode(currencies, code);
      if from.None? then Err(UnknownCurrency)
      else
        var to := FindByCode(currencies, BASE_CURRENCY);
        if to.None? then Err(BaseCurrencyMissing)
        else
          var found := FindExchangeRate(rates, from.value.id, to.value.id, date);
          if found.None? then Err(NoRateOnOrBefore) else Ok(found.value.rate)
  }

  /******* Properties *******/

  /** Under the uniqueness constraint the resolved row is the one latest row, whatever the table's order. */
  lemma {:induction false} ResolvedRowIsTheLatest(table: seq<ExchangeRate>, from: Uuid, to: Uuid, date: Date,
                                                  r: ExchangeRate)
    requires IsRateTable(table)
    ensures FindExchangeRate(table, from, to, date) == Some(r) <==> IsLatest(table, from, to, date, r)
  {
    var found := FindExchangeRate(table, from, to, date);
    if IsLatest(table, from, to, date, r) {
      var i :| 0 <= i < |table| && table[i] == r;
      var j :| 0 <= j < |table| && table[j] == found.value;
      assert i == j;
    }
  }

  lemma {:induction false} SaveKeepsTable(table: seq<ExchangeRate>, r: ExchangeRate)
    requires IsRateTable(table) && r.rate.scale == 8 && IsRate(r.rate)
    ensures var saved := SaveExchangeRate(table, r); saved.Ok? ==> IsRateTable(saved.value)
  {
  }

  /** A rate is refused exactly when the table has one of the same pair and date, and else it is added. */
  lemma {:induction false} SaveRefusesDuplicates(table: seq<ExchangeRate>, r: ExchangeRate)
    ensures SaveExchangeRate(table, r)
         == if exists row :: row in table && row.from == r.from && row.to == r.to && row.date == r.date
            then Err(RateAlreadyExists) else Ok(table + [r])
  {
    if row :| row in table && row.from == r.from && row.to == r.to && row.date == r.date {
      var i :| 0 <= i < |table| && table[i] == row;
      assert SameKey(table[i], r);
    }
  }

  /** Inserting a rate changes what a date resolves to exactly when it is a match later than the current one. */
  lemma {:induction false} InsertChangesResolution(table: seq<ExchangeRate>, r: ExchangeRate, from: Uuid, to: Uuid,
                                                   date: Date)
    requires SaveExchangeRate(table, r).Ok?
    ensures var before := FindExchangeRate(table, from, to, date);
            var after := FindExchangeRate(SaveExchangeRate(table, r).value, from, to, date);
            && (before != after <==> Matches(r, from, to, date) && (before.None? || before.value.date < r.date))
            && (before != after ==> after == Some(r))
  {
    assert (table + [r])[..|table|] == table;
  }

  /** Rates saved one after the other; a rejected one leaves the table as it was. */
  function SaveAll(table: seq<ExchangeRate>, rs: seq<ExchangeRate>): seq<ExchangeRate> {
    if rs == [] then table
    else
      var earlier := SaveAll(table, rs[..|rs| - 1]);
      var saved := SaveExchangeRate(earlier, rs[|rs| - 1]);
      if saved.Ok? then saved.value else earlier
  }

  /** No sequence of rates dated after a day changes what that day resolves to. */
  lemma {:induction false} LaterRatesLeavePast(table: seq<ExchangeRate>, rs: seq<ExchangeRate>, from: Uuid, to: Uuid,
                                               date: Date)
    requires forall i | 0 <= i < |rs| :: date < rs[i].date
    ensures FindExchangeRate(SaveAll(table, rs), from, to, date) == FindExchangeRate(table, from, to, date)
  {
    if rs != [] {
      var last := |rs| - 1;
      LaterRatesLeavePast(table, rs[..last], from, to, date);
      if SaveExchangeRate(SaveAll(table, rs[..last]), rs[last]).Ok? {
        InsertChangesResolution(SaveAll(table, rs[..last]), rs[last], from, to, date);
      }
    }
  }

  lemma {:induction false} ResolvedIsRate(currencies: seq<Currency>, rates: seq<ExchangeRate>, code: string, date: Date)
    requires IsRateTable(rates)
    ensures var r := ResolveUsdRate(currencies, rates, code, date); r.Ok? ==> IsRate(r.value)
  {
  }

  /** No row has the code. */
  predicate IsUnknown(currencies: seq<Currency>, code: string) {
    forall i | 0 <= i < |currencies| :: currencies[i].code != code
  }

  /** The constraint on currencies.code. */
  predicate HasUniqueCodes(currencies: seq<Currency>) {
    forall i, j | 0 <= i < j < |currencies| :: currencies[i].code != currencies[j].code
  }

  lemma {:induction false} CodeHasOneRow(currencies: seq<Currency>, c: Currency)
    requires HasUniqueCodes(currencies) && c in currencies
    ensures FindByCode(currencies, c.code) == Some(c)
  {
    var found := FindByCode(currencies, c.code).value;
    var i :| 0 <= i < |currencies| && currencies[i] == c;
    var j :| 0 <= j < |currencies| && currencies[j] == found;
    assert !(i < j) && !(j < i);
  }

  /** row is the pair's latest one on or before the date. */
  predicate IsRateOf(rates: seq<ExchangeRate>, from: Currency, to: Currency, date: Date, row: ExchangeRate) {
    && row in rates && row.from == from.id && row.to == to.id && row.date <= date
    && forall i | 0 <= i < |rates| && rates[i].from == from.id && rates[i].to == to.id && rates[i].date <= date ::
         rates[i].date <= row.date
  }

  /** x is the latest rate, on or before the date, from a currency with the code to one with the base's. */
  ghost predicate ResolvesTo(currencies: seq<Currency>, rates: seq<ExchangeRate>, code: string, date: Date, x: Rate) {
    exists from, to, row: ExchangeRate ::
      && from in currencies && from.code == code && to in currencies && to.code == "USD"
      && IsRateOf(rates, from, to, date, row) && row.rate == x
  }

  /**
   * A currency other than the base resolves to x exactly if x is the rate of the latest row, on or before the
   * date, from the currency with that code to the one with the base's. Only the converse needs codes to be
   * unique.
   */
  lemma {:induction false} ResolvedExactly(currencies: seq<Currency>, rates: seq<ExchangeRate>, code: string,
                                           date: Date, x: Rate)
    requires IsRateTable(rates) && code != "USD"
    ensures ResolveUsdRate(currencies, rates, code, date) == Ok(x) ==> ResolvesTo(currencies, rates, code, date, x)
    ensures HasUniqueCodes(currencies) ==>
              (ResolvesTo(currencies, rates, code, date, x) ==> ResolveUsdRate(currencies, rates, code, date) == Ok(x))
  {
    if HasUniqueCodes(currencies) && ResolvesTo(currencies, rates, code, date, x) {
      var from, to, row :| && from in currencies && from.code == code && to in currencies && to.code == "USD"
                           && IsRateOf(rates, from, to, date, row) && row.rate == x;
      CodeHasOneRow(currencies, from);
      CodeHasOneRow(currencies, to);
      ResolvedRowIsTheLatest(rates, from.id, to.id, date, row);
    }
    if ResolveUsdRate(currencies, rates, code, date) == Ok(x) {
      var from, to := FindByCode(currencies, code).value, FindByCode(currencies, "USD").value;
      assert IsRateOf(rates, from, to, date, FindExchangeRate(rates, from.id, to.id, date).value);
    }
  }

  /** The base currency resolves to one without a row; any other lookup fails with the first thing missing. */
  lemma {:induction false} UnresolvedExactly(currencies: seq<Currency>, rates: seq<ExchangeRate>, code: string,
                                             date: Date)
    requires HasUniqueCodes(currencies)
    ensures var r := ResolveUsdRate(currencies, rates, code, date);
            && (code == "USD" ==> r == Ok(Rate(1, 0)))
            && (r == Err(UnknownCurrency) <==> code != "USD" && IsUnknown(currencies, code))
            && (r == Err(BaseCurrencyMissing)
                <==> code != "USD" && !IsUnknown(currencies, code) && IsUnknown(currencies, "USD"))
            && (r == Err(NoRateOnOrBefore)
                <==> code != "USD" && exists from, to ::
                       && from in currencies && from.code == code && to in currencies && to.code == "USD"
                       && forall i | 0 <= i < |rates| :: !(rates[i].from == from.id && rates[i].to == to.id
                                                           && rates[i].date <= date))
  {
    forall c | c in currencies ensures FindByCode(currencies, c.code) == Some(c) {
      CodeHasOneRow(currencies, c);
    }
  }

  /******* Three statements as one *******/

  /** The lookup as its three statements see the tables: each one may see rows that the one before it did not. */
  function ResolveInSteps(first: seq<Currency>, second: seq<Currency>, rates: seq<ExchangeRate>, code: string,
                          date: Date): Result<Rate, ResolveError>
  {
    if code == BASE_CURRENCY then Ok(Rate(1, 0))
    else
      var from := FindByCode(first, code);
      if from.None? then Err(UnknownCurrency)
      else
        var to := FindByCode(second, BASE_CURRENCY);
        if to.None? then Err(BaseCurrencyMissing)
        else
          var found := FindExchangeRate(rates, from.value.id, to.value.id, date);
          if found.None? then Err(NoRateOnOrBefore) else Ok(found.value.rate)
  }

  lemma {:induction false} FoundCurrencyStays(currencies: seq<Currency>, more: seq<Currency>, code: string)
    requires FindByCode(currencies, code).Some?
    ensures FindByCode(currencies + more, code) == FindByCode(currencies, code)
  {
    assert (currencies + more)[0] == currencies[0];
    if currencies[0].code != code {
      assert (currencies + more)[1..] == currencies[1..] + more;
      FoundCurrencyStays(currencies[1..], more, code);
    }
  }

  /** Currencies are only added, so the three statements resolve what one snapshot at one of them would. */
  lemma {:induction false} StepsSeeOneSnapshot(first: seq<Currency>, added: seq<Currency>, more: seq<Currency>,
                                               rates: seq<ExchangeRate>, rates': seq<ExchangeRate>,
                                               rates'': seq<ExchangeRate>, code: string, date: Date)
    ensures var second, third := first + added, first + added + more;
            var r := ResolveInSteps(first, second, rates'', code, date);
            || r == ResolveUsdRate(first, rates, code, date)
            || r == ResolveUsdRate(second, rates', code, date)
            || r == ResolveUsdRate(third, rates'', code, date)
  {
    var second, third := first + added, first + added + more;
    if FindByCode(first, code).Some? {
      FoundCurrencyStays(first, added, code);
      FoundCurrencyStays(second, more, code);
      if FindByCode(second, BASE_CURRENCY).Some? {
        FoundCurrencyStays(second, more, BASE_CURRENCY);
      }
    }
  }
}
