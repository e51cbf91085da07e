# Bot dashboard: connection registry, order-book split, symbol parsing

A Dafny model of the data logic embedded in three view components of an
operator dashboard for grid-trading bots:

- **Connection manager** (`connections.dfy`, module `Connections`): the
  saved list of bot endpoints (`BotConnection`: id, name, URL), the two
  input fields of the "add" form, and the add and delete handlers. The
  component is a class whose fields are the component's state
  (`connections`, `newBotName`, `newBotUrl`); the ghost field `effects`
  records, in call order, every list handed to `saveConnections` (`Save`)
  and to `onConnectionsChange` (`Notify`). The list computations are pure functions
  (`WithoutId` is the `filter` of the delete handler) with lemmas about
  order, idempotence and id uniqueness.
- **Order book** (`order_book.dfy`, module `OrderBook`): the memoised split
  of the grid snapshot's zones into asks and bids. `SplitSides` reads the
  zone array without a `modifies` clause, so the snapshot is provably left
  as it was; it sorts a copy by `sell_price` (highest first), pushes each
  zone onto the ask side (`order_side` exactly `"Sell"`) or the bid side in
  a loop, and reverses the asks in place on an array. The result is tied to
  the specification functions `AsksOf`/`BidsOf`, about which the lemmas
  prove permutation, side membership, ordering, and the meaning of the
  best ask, best bid and spread. A zone row's display/next price pair is
  `RowPrices`.
- **Metrics bar** (`metrics_bar.dfy`, module `MetricsBar`): JavaScript's
  one-character `split` (`Split`, with its inverse `Join`), the base/quote
  asset parsing of the trading symbol, and the `??` precision defaults.
  `wrappers.dfy` holds the `Option` type that stands for `null`/`undefined`.

Prices are exact `real`s; only their order and, for the spread, their
arithmetic matter. The random id of a new connection is a parameter of
`HandleAdd` that differs from every id in the list.

A zone is an ask exactly when its `order_side` is the string `Sell`; every
other value, not only `Buy`, puts it on the bid side. The delete handler
signals no session switch. An add with an empty field returns without
producing an error value.

## Model

| member | source | states |
|---|---|---|
| `Connections.ConnectionManager.constructor` | src/components/ConnectionManager.tsx:11-18 | on mount both inputs are empty and the list is the stored list; no save or notification has happened yet |
| `Connections.ConnectionManager.SetNewBotName` | src/components/ConnectionManager.tsx:138 | the name input holds the typed value; nothing else changes |
| `Connections.ConnectionManager.SetNewBotUrl` | src/components/ConnectionManager.tsx:154 | the URL input holds the typed value; nothing else changes |
| `Connections.ConnectionManager.HandleAdd` | src/components/ConnectionManager.tsx:20-33 | with an empty name or URL nothing changes (list, inputs, recorded calls); otherwise the list is the old list plus one entry at the end carrying the fresh id and the entered name and URL, both inputs are cleared, and the new list is saved and then passed to the change callback, in that order; the ids grow by exactly the fresh id and distinct ids stay distinct |
| `Connections.ConnectionManager.HandleDelete` | src/components/ConnectionManager.tsx:35-40 | the list becomes the old list without the entries carrying that id, and that list is saved and then passed to the change callback, in that order; an absent id leaves the list as it was; distinct ids stay distinct |
| `Connections.CanAdd` | src/components/ConnectionManager.tsx:21 | adding is allowed if and only if both the name and the URL are non-empty; the same guard disables the add button at src/components/ConnectionManager.tsx:169 |
| `Connections.WithoutId` | src/components/ConnectionManager.tsx:36 | the surviving ids are the old ids minus the deleted one, and the list shrinks by exactly the number of entries carrying that id |
| `Connections.WithoutIdMembers` | src/components/ConnectionManager.tsx:36 | an entry survives the delete if and only if it was in the list and carries another id |
| `Connections.WithoutIdAppend` | src/components/ConnectionManager.tsx:36 | filtering distributes over concatenation, so survivors keep their relative order |
| `Connections.WithoutIdSingle` | src/components/ConnectionManager.tsx:36 | a single entry is kept exactly when its id differs from the deleted one |
| `Connections.WithoutIdAbsent` | src/components/ConnectionManager.tsx:36 | deleting an id that no entry carries returns the list unchanged |
| `Connections.WithoutIdIdempotent` | src/components/ConnectionManager.tsx:36 | deleting the same id twice equals deleting it once |
| `Connections.WithoutIdKeepsUnique` | src/components/ConnectionManager.tsx:36 | if ids were pairwise distinct they still are after a delete |
| `Connections.UniqueCountAtMostOne` | src/components/ConnectionManager.tsx:36 | with distinct ids a delete removes one entry when the id is present and none otherwise |
| `Connections.AppendFreshKeepsUnique` | src/components/ConnectionManager.tsx:22-27 | appending an entry with a fresh id keeps ids pairwise distinct |
| `OrderBook.SortByPriceDescending` | src/components/OrderBook.tsx:16 | the sorted copy is a permutation of the zones, ordered by sell price highest first |
| `OrderBook.SidesPartition` | src/components/OrderBook.tsx:21-27 | the two sides together are a permutation of the sequence walked; the ask side holds only `Sell` zones and the bid side only others |
| `OrderBook.SidesKeepOrder` | src/components/OrderBook.tsx:21-27 | pushing zones of a descending sequence onto either side keeps each side descending |
| `OrderBook.ReversedFlips` | src/components/OrderBook.tsx:30 | reversal keeps the zones and turns a descending side into an ascending one |
| `OrderBook.ReverseInPlace` | src/components/OrderBook.tsx:30 | the array afterwards holds its old contents back to front |
| `OrderBook.IsAsk` | src/components/OrderBook.tsx:22 | the side rule `order_side === 'Sell'`; what it means for the split is stated by `SplitIsPartition` |
| `OrderBook.PriceMissing` | src/components/OrderBook.tsx:13 | `!lastPrice`: no price or a zero price; its effect (both sides empty) is stated by `SplitSides` |
| `OrderBook.SellSide` | src/components/OrderBook.tsx:21-27 | the zones pushed onto the ask side are all `Sell` zones; `SidesPartition` and `SidesKeepOrder` give the rest of its meaning |
| `OrderBook.BuySide` | src/components/OrderBook.tsx:21-27 | the zones pushed onto the bid side are all non-`Sell` zones; `SidesPartition` and `SidesKeepOrder` give the rest of its meaning |
| `OrderBook.Reversed` | src/components/OrderBook.tsx:30 | `asks.reverse()` keeps the length; `ReversedAt` gives each position and `ReversedFlips` the contents and order |
| `OrderBook.AsksOf` | src/components/OrderBook.tsx:12-33 | the shown ask side holds only `Sell` zones, ordered by sell price non-decreasing, so the zone nearest the price is first |
| `OrderBook.BidsOf` | src/components/OrderBook.tsx:12-33 | the shown bid side holds only non-`Sell` zones, ordered by sell price non-increasing, so the zone nearest the price is first |
| `OrderBook.BestOf` | src/components/OrderBook.tsx:54-55 | a side has a best zone if and only if it is non-empty, and then it is its first zone; `BestAskIsLowest` and `BestBidIsHighest` say which zone that is |
| `OrderBook.SplitSides` | src/components/OrderBook.tsx:12-33 | with no snapshot or a missing or zero last price both sides are empty; otherwise asks and bids are those of the specification (`AsksOf`, `BidsOf`); the snapshot array is not modified |
| `OrderBook.SplitIsPartition` | src/components/OrderBook.tsx:16-27 | asks followed by bids is a permutation of the snapshot's zones, so their lengths add up; a zone is an ask if and only if its side is `Sell`, and a bid if and only if it is not |
| `OrderBook.BestAskIsLowest` | src/components/OrderBook.tsx:53-54 | the best ask exists exactly when there is a `Sell` zone, and it is the `Sell` zone with the lowest sell price |
| `OrderBook.BestBidIsHighest` | src/components/OrderBook.tsx:53-55 | the best bid exists exactly when there is a non-`Sell` zone, and it is the one with the highest sell price |
| `OrderBook.SpreadPercent` | src/components/OrderBook.tsx:56-58 | a spread is produced if and only if both sides are non-empty |
| `OrderBook.SpreadShownIffBothSides` | src/components/OrderBook.tsx:53-58 | for the split of a snapshot, a spread is shown exactly when it has both a `Sell` zone and another zone |
| `OrderBook.RowPrices` | src/components/OrderBook.tsx:333-334 | an ask row shows the sell price with the buy price next; a bid row the reverse |
| `OrderBook.RowPricesMirror` | src/components/OrderBook.tsx:333-334 | the two row kinds show the same two prices of the zone, swapped |
| `MetricsBar.Split` | src/components/MetricsBar.tsx:70 | splitting gives at least one piece, no piece contains the separator, and joining the pieces with the separator gives back the string |
| `MetricsBar.SplitJoin` | src/components/MetricsBar.tsx:70 | splitting a join of separator-free pieces gives back those pieces, so the pieces are uniquely determined |
| `MetricsBar.SplitFields` | src/components/MetricsBar.tsx:70-72 | the first piece is the text before the first separator, the second the text between the first and second; a second piece exists if and only if the separator occurs |
| `MetricsBar.SeparatorOf` | src/components/MetricsBar.tsx:70 | the symbol is split on `/` if and only if it contains `/`, and on `_` otherwise |
| `MetricsBar.SymbolParts` | src/components/MetricsBar.tsx:70 | the parts contain no separator and join back into the symbol with `/` when it contains `/`, with `_` otherwise |
| `MetricsBar.BaseAsset` | src/components/MetricsBar.tsx:70-71 | the base is the text before the first separator (`/` if present, else `_`), or the whole symbol when that text is empty; it is empty exactly when the symbol is |
| `MetricsBar.QuoteAsset` | src/components/MetricsBar.tsx:70-72 | the quote is never empty; it is the text between the first and second separator when that text exists and is non-empty, and `USD` otherwise |
| `MetricsBar.NoSeparatorSymbol` | src/components/MetricsBar.tsx:70-72 | a symbol with neither separator is its own base and is quoted in `USD` |
| `MetricsBar.PairRoundTrip` | src/components/MetricsBar.tsx:69-72 | a symbol written base, separator, quote (both non-empty and free of the separator, and free of `/` when the separator is `_`) parses back into exactly that base and quote |
| `MetricsBar.SlashedSymbol` | src/components/MetricsBar.tsx:69-72 | `LIT/USDC` gives base `LIT` and quote `USDC` |
| `MetricsBar.UnderscoredSymbol` | src/components/MetricsBar.tsx:69-72 | `LIT_USDC` gives base `LIT` and quote `USDC` |
| `MetricsBar.SlashTakesPrecedence` | src/components/MetricsBar.tsx:70-72 | `A_B/C` gives base `A_B` and quote `C`, since `/` takes precedence over `_` |
| `MetricsBar.EmptySymbol` | src/components/MetricsBar.tsx:70-72 | the empty symbol gives an empty base and the quote `USD` |
| `MetricsBar.SizeDecimals` | src/components/MetricsBar.tsx:14 | without a configuration or configured value the size precision is 4; a configured value, 0 included, is used as it is |
| `MetricsBar.PriceDecimals` | src/components/MetricsBar.tsx:15 | without a configuration or configured value the price precision is 2; a configured value, 0 included, is used as it is |

The same two precision defaults are repeated at
src/components/OrderBook.tsx:9-10 and src/components/ActivityLog.tsx:7-8;
`SizeDecimals` and `PriceDecimals` model all three.

## Left out

- The WebSocket store (sessions, reconnection, message normalisation, order history) is not part of this model: its module is not among the files modelled.
- `getStoredConnections` and `saveConnections` are storage I/O: the stored list is the constructor's parameter and each save is recorded as a `Save` entry of the ghost field `effects`; a failing save is not modelled.
- `crypto.randomUUID()` is a foreign call: its value is the `freshId` parameter of `HandleAdd`, assumed different from every id in the list.
- `onConnectionsChange` is a callback into the parent: only the list handed to it is recorded, as a `Notify` entry of `effects`.
- React's batching of state updates is not modelled: each handler's setters take effect together at the end of the handler.
- Floating point: prices are exact reals, `!lastPrice` treats only a missing price and zero as falsy (NaN is not modelled), and the spread is exact real arithmetic; `toFixed`/`toLocaleString` formatting, the distance percentage and the row opacity are not modelled.
- SortByPriceDescending: the sort is stable by construction (a zone is inserted ahead of equal-priced ones that came after it), but stability is not stated as a lemma.
- `strategy_type`, `isPerp`, hover flags, colours and labels are presentation and are not modelled.
- The other components (summary card, configuration panel, activity log, layout) hold formatting and presentation only and are not modelled.
