# Kraken connectors: symbol translation and ticker store

This project models the logic of the two Kraken connector services of a
crypto arbitrage-signal system. Each service polls Kraken's public ticker
endpoint for a configured list of trading pairs. It keeps the latest bid and
ask per symbol in an in-memory map, and serves that map over HTTP.

- `kraken-connecter` turns configured pairs such as `BTC/USDT` into Kraken
  symbols through a fixed two-entry table. Pairs missing from the table are
  dropped.
- `kraken-connector` turns the pair list `BTC/USD,ETH/USD` into
  `["BTCUSD", "ETHUSD"]`. It splits at commas and removes every slash.
- Both services declare an identical ticker store, each in its own process;
  it is modelled once. `updateTickerData` replaces the
  record of one symbol, taking element 0 of the reply's ask and bid arrays,
  parsed as floats, and stamping it with the current time. At the end of a
  polling cycle, a decoded reply is written into the store entry by entry,
  but only when its error list is empty.

Files:

- `tickers.dfy`, module `Tickers`: the ticker records, the decoded reply, and
  the class `TickerStore`. Its field `tickerInfo` is the services' global
  map. `UpdateTickerData` writes one key. `ApplyResponse` is the
  error-check/apply loop of `fetchKrakenData`. Both services' copies of
  these are identical apart from field order, so they are modelled once.
- `kraken_connecter.dfy`, module `KrakenConnecter`: the lookup table, the
  specification function `KrakenSymbols`, the loop `MapToKrakenSymbols`, and
  lemmas about them.
- `kraken_connector.dfy`, module `KrakenConnector`: `Split` (Go's
  `strings.Split` with separator `","`), `StripSlashes` (Go's
  `strings.ReplaceAll(s, "/", "")`), the specification function
  `FormattedSymbols`, the indexed loop `FormatSymbols`, and lemmas about
  them.

Inputs that the Go code takes from the environment are parameters here:

- `parseFloat: string -> Price` is the value that `strconv.ParseFloat`
  returns. The code discards its error, and so does the model.
- `now: Time` is the reading of `time.Now()` in `UpdateTickerData`. In
  `ApplyResponse`, `clock(k)` is the reading taken while entry `k` is written.

Facts about the code that shape the model:

- A price string that does not parse is stored as whatever
  `strconv.ParseFloat` returned; the error is discarded.
- `arbitrage-scanner/main.go` declares only a record type; there is no
  threshold scan to model.
- The only reader of `tickerInfo` is the `/latest-price` handler, which
  marshals the whole map.

## Model

| member | source | states |
|---|---|---|
| `KrakenConnecter.MapToKrakenSymbols` | kraken-connecter/main.go:78-90 | The append loop returns exactly `KrakenSymbols(pairs)`, the order-preserving translation of the known pairs. |
| `KrakenConnecter.KrakenSymbols` | kraken-connecter/main.go:83-89 | The output is never longer than the input. |
| `KrakenConnecter.KrakenSymbolsSelects` | kraken-connecter/main.go:83-89 | There is a strictly increasing list of input positions. It holds exactly the positions of pairs in the table. Output element `j` is the table value of the pair at the `j`-th position: an order-preserving filter-map. |
| `KrakenConnecter.KrakenSymbolsMember` | kraken-connecter/main.go:84-88 | A symbol is in the output if and only if some input pair is in the table and maps to it. |
| `KrakenConnecter.KrakenSymbolsAppend` | kraken-connecter/main.go:84-88 | Each element is mapped independently: translating `a + b` gives the translation of `a` followed by that of `b`. |
| `KrakenConnecter.KrakenSymbolsCount` | kraken-connecter/main.go:84-88 | For a pair in the table, its symbol occurs in the output exactly as often as the pair occurs in the input, so duplicate pairs give duplicate symbols. |
| `KrakenConnecter.KrakenSymbolsEmpty` | kraken-connecter/main.go:85-87 | The output is empty if and only if no input pair is in the table. Unknown pairs are dropped, not reported. |
| `KrakenConnecter.KrakenSymbolsAllKnown` | kraken-connecter/main.go:85-87 | The output is as long as the input if and only if every pair is in the table. |
| `KrakenConnecter.MappingsInjective` | kraken-connecter/main.go:79-82 | Distinct table keys have distinct Kraken symbols. |
| `KrakenConnecter.KrakenSymbolsExamples` | kraken-connecter/main.go:79-82 | `["BTC/USDT"]` gives `["XXBTZUSD"]`, `["ETH/USDT"]` gives `["XETHZUSD"]`, and an unknown pair gives `[]`. A list with a repeated pair gives the repeated symbol. |
| `KrakenConnector.FormatSymbols` | kraken-connector/main.go:80-87 | Filling a buffer of one slot per piece, by index, returns exactly `FormattedSymbols(pairs)`. |
| `KrakenConnector.FormattedSymbolsShape` | kraken-connector/main.go:81-85 | There is one symbol per comma plus one. Symbol `i` is piece `i` with its slashes removed. No symbol contains a slash or a comma. |
| `KrakenConnector.FormattedSymbolsStable` | kraken-connector/main.go:84 | Removing slashes from a formatted symbol again leaves it unchanged. |
| `KrakenConnector.FormattedTwoPairs` | kraken-connector/main.go:80-87 | `b1/q1,b2/q2`, with no slash or comma in the four parts, gives `[b1q1, b2q2]`. |
| `KrakenConnector.FormattedSymbolsExample` | kraken-connector/main.go:79 | `"BTC/USD,ETH/USD"` gives `["BTCUSD", "ETHUSD"]`. |
| `KrakenConnector.SplitExample` | kraken-connector/main.go:60 | The configured `"BTC/USD,ETH/USD"` splits into `["BTC/USD", "ETH/USD"]`. |
| `KrakenConnector.StripSlashesExamples` | kraken-connector/main.go:84 | `"BTC/USD"` becomes `"BTCUSD"` and `"ETH/USD"` becomes `"ETHUSD"`. |
| `KrakenConnector.Split` | kraken-connector/main.go:81 | Splitting at commas always yields at least one piece. |
| `KrakenConnector.SplitPieces` | kraken-connector/main.go:81 | There is one more piece than the input has commas, and no piece contains a comma. |
| `KrakenConnector.JoinSplit` | kraken-connector/main.go:81 | Joining the pieces with commas gives back the input, so splitting loses nothing. |
| `KrakenConnector.SplitJoin` | kraken-connector/main.go:81 | Splitting the comma-join of comma-free pieces gives back those pieces. |
| `KrakenConnector.SplitComma` | kraken-connector/main.go:81 | A leading comma yields an empty first piece, followed by the pieces of the rest. |
| `KrakenConnector.SplitPrefix` | kraken-connector/main.go:81 | A comma-free prefix extends the first piece and leaves the other pieces alone. |
| `KrakenConnector.SplitTwo` | kraken-connector/main.go:81 | Two comma-free pieces joined by one comma split back into exactly those two. |
| `KrakenConnector.StripSlashes` | kraken-connector/main.go:84 | The result contains no slash. |
| `KrakenConnector.StripSlashesKeeps` | kraken-connector/main.go:84 | Every character other than a slash keeps its number of occurrences. The result is shorter by the number of slashes. |
| `KrakenConnector.StripSlashesAppend` | kraken-connector/main.go:84 | Removal works piecewise on concatenations, so the kept characters stay in input order. |
| `KrakenConnector.StripSlashesFixed` | kraken-connector/main.go:84 | A string is unchanged if and only if it contains no slash. |
| `KrakenConnector.StripSlashesIdempotent` | kraken-connector/main.go:84 | Removing slashes twice equals removing them once. |
| `KrakenConnector.SlashSeparated` | kraken-connector/main.go:84 | `base/quote` with slash-free parts becomes `basequote`. |
| `Tickers.TickerStore.constructor` | kraken-connecter/main.go:36-39 | The store starts as the empty map and satisfies its invariant (every record is filed under its own symbol). |
| `Tickers.TickerStore.UpdateTickerData` | kraken-connecter/main.go:132-146 | After the write, `tickerInfo[symbol]` has `symbol`, `ask == parseFloat(ask[0])`, `bid == parseFloat(bid[0])` and `lastUpdate == now`. The key set gains at most `symbol`. Every other record is unchanged. Non-empty arrays are required because element 0 is indexed unguarded. The same holds for kraken-connector/main.go:126-140. |
| `Tickers.TickerStore.ApplyResponse` | kraken-connecter/main.go:119-128 | A reply with a non-empty error list leaves the store untouched. Otherwise the outcome is `Applied` exactly when every entry has quotes. In that case every result key `k` is written with the record made from its entry, stamped `clock(k)`, and no other key changes, whatever order the map is walked in. An entry with an empty array ends the step as the panic it causes. The entries written before it are already stored. The same holds for kraken-connector/main.go:114-122. |
| `Tickers.WrittenOverUnique` | kraken-connecter/main.go:126-128 | Given the clock reading taken for each key, only one store results from writing a given set of entries over a given store. Apart from the `lastUpdate` stamps, which the model takes as given per key, the result does not depend on the order of Go's map iteration. |
| `Tickers.WrittenOverClockFree` | kraken-connecter/main.go:126-128 | Under any two sets of clock readings (so under any two iteration orders), the results hold the same keys, agree on every record's symbol, bid and ask, and agree fully on the keys not written. |

## Left out

- HTTP transport: the request to Kraken, the status check, JSON decoding of the reply and the `/latest-price` handler with its marshalling. These are I/O and library calls. `ApplyResponse` starts from an already decoded reply.
- The `sync.RWMutex` and the polling goroutine with its `time.Sleep` loop. The store is modelled sequentially, one write at a time.
- `strconv.ParseFloat` and float64 arithmetic. Prices are `real`, and the parser is the parameter `parseFloat`.
- `time.Now()` is an input. The model does not require later writes to carry later readings.
- Tickers.TickerStore.ApplyResponse: models the index-out-of-range panic on an entry with an empty `a` or `b` array as the outcome `IndexPanic`. In Go the panic is not recovered and ends the process.
- The `main` functions: reading `PAIRS` and `POLL_INTERVAL` from the environment, the fatal exit on an empty `PAIRS`, and the default interval. The unused `KRAKEN_API_KEY` and `KRAKEN_API_SECRET` are also left out. All of this is startup I/O.
- The request URL, built with `strings.Join(symbols, ",")`. It is part of the HTTP plumbing.
- Go's distinction between a nil slice and an empty slice: `KrakenSymbols` returns `[]` in both cases.
- The telegram notifier and the Postgres client in `db.go`: network and database clients with no logic of their own.
- The binance connector: its files are record declarations, an empty `main` and `formatSymbol`. `formatSymbol` calls `stripSlash`, which is not part of this model. It also passes one argument to a two-verb format string.
- The threshold scan: `arbitrage-scanner/main.go` declares only a record, and there is no scan to model.
