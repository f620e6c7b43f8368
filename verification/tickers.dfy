/**
 The ticker store that each of the two Kraken connector services declares.

 Both services declare the same `TickerData` record, the same global map
 `tickerInfo` from symbol to its latest quote, the same writer
 `updateTickerData`, and the same error-check/apply step at the end of
 `fetchKrakenData`. They are modelled once here. The global map becomes the
 field of a `TickerStore` object. The clock and the float parser are inputs.
 */
module Tickers {

  /** A price, as `strconv.ParseFloat` would return it (float64 is not modelled). */
  type Price = real

  /** A reading of the wall clock. */
  type Time = int

  /** The internal record kept per symbol. */
  datatype TickerData = TickerData(symbol: string, bid: Price, ask: Price, lastUpdate: Time)

  /** One decoded entry of Kraken's ticker reply: the `a` (ask) and `b` (bid) string arrays. */
  datatype TickerResultData = TickerResultData(ask: seq<string>, bid: seq<string>)

  /** A decoded Kraken ticker reply: its error list and its result entries by pair name. */
  datatype TickerResponse = TickerResponse(error: seq<string>, result: map<string, TickerResultData>)

  /** How the apply step of a polling cycle ended. */
  datatype ApplyOutcome =
    | Applied     // the error list was empty and every entry was written
    | ApiError    // the reply carried errors; nothing was written
    | IndexPanic  // an entry had an empty ask or bid array; indexing element 0 panics

  /** The writer indexes element 0 of both arrays unguarded. */
  predicate HasQuotes(d: TickerResultData)
  {
    |d.ask| > 0 && |d.bid| > 0
  }

  /** The record the writer stores for `symbol`: element 0 of each array, parsed, stamped `now`. */
  function ToTickerData(symbol: string, d: TickerResultData, parseFloat: string -> Price, now: Time): (t: TickerData)
    requires HasQuotes(d)
  {
    TickerData(symbol, parseFloat(d.bid[0]), parseFloat(d.ask[0]), now)
  }

  /**
   `after` is `before` with the entries of `result` named in `keys` written
   over it: exactly those keys are added, each holds the record made from its
   entry, and every other record is as it was.
   */
  ghost predicate WrittenOver(before: map<string, TickerData>, after: map<string, TickerData>,
                              result: map<string, TickerResultData>, keys: set<string>,
                              parseFloat: string -> Price, clock: string -> Time)
  {
    && keys <= result.Keys
    && (forall k :: k in keys ==> HasQuotes(result[k]))
    && after.Keys == before.Keys + keys
    && (forall k :: k in keys ==> after[k] == ToTickerData(k, result[k], parseFloat, clock(k)))
    && (forall k :: k in before && k !in keys ==> after[k] == before[k])
  }

  /**
   Given the clock reading of each entry, only one map satisfies
   `WrittenOver`: apart from the `lastUpdate` stamps, which are taken as
   given per key, the outcome does not depend on the order of the writes.
   */
  lemma WrittenOverUnique(before: map<string, TickerData>, after1: map<string, TickerData>,
                          after2: map<string, TickerData>, result: map<string, TickerResultData>,
                          keys: set<string>, parseFloat: string -> Price, clock: string -> Time)
    requires WrittenOver(before, after1, result, keys, parseFloat, clock)
    requires WrittenOver(before, after2, result, keys, parseFloat, clock)
    ensures after1 == after2
  {
    forall k | k in after1 ensures after1[k] == after2[k] {
      if k !in keys {
        assert k in before;
      }
    }
  }

  /**
   Whatever the clock readings (and so whatever the order of the writes), two
   results of writing the same entries over the same store hold the same keys
   and agree on every record's symbol, bid and ask.
   */
  lemma WrittenOverClockFree(before: map<string, TickerData>, after1: map<string, TickerData>,
                             after2: map<string, TickerData>, result: map<string, TickerResultData>,
                             keys: set<string>, parseFloat: string -> Price,
                             clock1: string -> Time, clock2: string -> Time)
    requires WrittenOver(before, after1, result, keys, parseFloat, clock1)
    requires WrittenOver(before, after2, result, keys, parseFloat, clock2)
    ensures after1.Keys == after2.Keys
    ensures forall k :: k in after1 ==>
      after1[k].symbol == after2[k].symbol && after1[k].bid == after2[k].bid && after1[k].ask == after2[k].ask
    ensures forall k :: k in after1 && k !in keys ==> after1[k] == after2[k]
  {
    forall k | k in after1
      ensures after1[k].symbol == after2[k].symbol && after1[k].bid == after2[k].bid && after1[k].ask == after2[k].ask
    {
      if k !in keys {
        assert k in before;
      }
    }
  }

  class TickerStore {
    /** The latest record per symbol. */
    var tickerInfo: map<string, TickerData>

    /** Every record is filed under its own symbol. */
    ghost predicate Valid()
      reads this
    {
      forall k :: k in tickerInfo ==> tickerInfo[k].symbol == k
    }

    /** The store starts empty. */
    constructor ()
      ensures Valid()
      ensures tickerInfo == map[]
    {
      tickerInfo := map[];
    }

    /** Replaces the record of `symbol`; the parse error is discarded, only the value is kept. */
    method UpdateTickerData(symbol: string, d: TickerResultData, parseFloat: string -> Price, now: Time)
      requires Valid()
      requires HasQuotes(d)
      modifies this
      ensures Valid()
      ensures tickerInfo == old(tickerInfo)[symbol := ToTickerData(symbol, d, parseFloat, now)]
      ensures tickerInfo.Keys == old(tickerInfo).Keys + {symbol}
      ensures tickerInfo[symbol].symbol == symbol
      ensures tickerInfo[symbol].ask == parseFloat(d.ask[0])
      ensures tickerInfo[symbol].bid == parseFloat(d.bid[0])
      ensures tickerInfo[symbol].lastUpdate == now
      ensures forall k :: k in old(tickerInfo) && k != symbol ==> tickerInfo[k] == old(tickerInfo)[k]
    {
      var ask := parseFloat(d.ask[0]);
      var bid := parseFloat(d.bid[0]);
      tickerInfo := tickerInfo[symbol := TickerData(symbol, bid, ask, now)];
    }

    /**
     The step of a polling cycle after the reply is decoded: give up if the
     reply carries errors, otherwise write every result entry, in whatever
     order the map is walked. `clock(k)` is the clock reading taken while the
     entry `k` is written. `written` is the set of entries written before the
     step ended.
     */
    method ApplyResponse(resp: TickerResponse, parseFloat: string -> Price, clock: string -> Time)
      returns (outcome: ApplyOutcome, ghost written: set<string>)
      requires Valid()
      modifies this
      ensures Valid()
      ensures outcome == ApiError <==> |resp.error| > 0
      ensures outcome == Applied <==> |resp.error| == 0 && forall k :: k in resp.result ==> HasQuotes(resp.result[k])
      ensures outcome == ApiError ==> tickerInfo == old(tickerInfo) && written == {}
      ensures outcome == Applied ==> written == resp.result.Keys
      ensures outcome == IndexPanic ==>
        written < resp.result.Keys && exists k :: k in resp.result && k !in written && !HasQuotes(resp.result[k])
      ensures WrittenOver(old(tickerInfo), tickerInfo, resp.result, written, parseFloat, clock)
    {
      written := {};
      if |resp.error| > 0 {
        return ApiError, written;
      }
      var remaining := resp.result.Keys;
      while remaining != {}
        invariant Valid()
        invariant remaining !! written && remaining + written == resp.result.Keys
        invariant WrittenOver(old(tickerInfo), tickerInfo, resp.result, written, parseFloat, clock)
        decreases remaining
      {
        var symbol :| symbol in remaining;
        var d := resp.result[symbol];
        if !HasQuotes(d) {
          assert symbol in resp.result && symbol !in written;
          return IndexPanic, written;
        }
        UpdateTickerData(symbol, d, parseFloat, clock(symbol));
        written := written + {symbol};
        remaining := remaining - {symbol};
      }
      outcome := Applied;
    }
  }
}
