# Trading core: signal generation, position book and statistics

A Dafny model of the decision-and-bookkeeping core of a sideways-range trading bot: the
`TradingService` in `src/modules/trading/trading.service.ts` and the record types of
`src/interfaces/trading.interface.ts`.

- **Signal generation.** A detected sideways pattern becomes a LONG or SHORT signal. First come
  the guards: the strategy must be enabled and the per-symbol position limit not reached. Then an
  opposite open position may be closed by reversal. The signal gets trend and order-book
  confirmation flags and take-profit / stop-loss levels.
- **Position book.** Open positions are keyed by id. The closed history is append-only. Each
  position moves OPEN → CLOSED_TP or CLOSED_SL on price ticks, or OPEN → CLOSED_SL on a reversal.
- **Statistics.** Trade counters, total, best and worst PnL, win rate and average PnL are kept
  incrementally on every open and close.

Files and modules:

| file | module | what it holds |
|---|---|---|
| `trading_interface.dfy` | `TradingInterface` | the record types as datatypes, the default configuration, open/closed record shapes |
| `trading_rules.dfy` | `TradingRules` | pure formulas: direction mapping, levels, PnL, threshold tests, confirmation |
| `stats_aggregator.dfy` | `StatsAggregator` | incremental updates (`RecordOpen`, `RecordClose`) and the reference definition `StatsFrom` recomputed from the history |
| `position_book.dfy` | `PositionBook` | the `Book` value, per-position and book transitions, the book invariant `BookValid` |
| `signal_generator.dfy` | `SignalGenerator` | `Decide`, `ReversalVictim`, `AfterPattern` and their lemmas |
| `trading_service.dfy` | `Service` | class `TradingService`, whose fields the methods update in place |

Every mutating method of `TradingService` requires and ensures `Valid()`. Its `ensures` ties the
new state (`Model()`) to a pure transition of the old state: `Opened`, `Archived`, `TickOne`,
`TickAll` or `AfterPattern`. The lemmas of `PositionBook`, `StatsAggregator` and
`SignalGenerator` prove what the source promises about those transitions.

Modelling decisions:
- The service's `Map<string, TradingPosition>` becomes a `seq` in insertion order with distinct
  ids. JavaScript maps iterate in insertion order, and `getPositionBySymbol` returns the first
  match, so the order matters. `Map.set` is only ever called with a fresh uuid, so it becomes an
  append. `Map.delete` is `RemoveId`.
- Positions are values. `updatePosition` assigns fields of the object the map already holds. The
  model builds the updated value the same way and writes it back at the same id (`Replace`).
- `uuidv4()` becomes the counter `nextId`. `Date.now()` becomes a `now` parameter; one tick
  passes the same `now` to every close it causes.
- The BTC-trend oracle's answer for the mapped direction is the input `btcAllowed`.
- The order-book input `orderBook: Option<bool>` is what `orderBookConfirmed` holds when the
  `try` block ends:
  - `Some(answer)` once the support test has returned and been assigned, even if building the
    log text afterwards throws;
  - `None` when fetching the analysis or the support test throws first, which leaves it `false`.
- The configuration is a `TradingConfig` value; `DEFAULT_CONFIG` holds the defaults
  (enabled, 2 %, 2 %, 1, 10). `SignalGenerator.DefaultConfigNeverReverses` states what they
  imply for processSidewaysPattern.
- The service writes and reads a `confirmation` field that the interface's `TradingSignal` and
  `TradingPosition` do not declare. The datatypes here carry it as
  `Confirmation(btcTrend, volumeProfile, overall)`.
- The trigger reason and close reason texts become structured values. `SignalReason` holds the
  start, middle and current prices and each filter's outcome. `CloseReason` is take-profit,
  stop-loss, or a reversal `from → to`.
- Prices and percentages are exact `real`s. The source divides by a position's stored entry
  price when it recomputes the PnL, in updatePosition (lines 220-222) and in
  closePositionByReversal (lines 382-384). The model therefore requires `entryPrice > 0` in
  `PnlPercent`, keeps it as part of `BookValid`, and requires it of the signal that
  `OpenPosition` stores.

Behaviour of the code that a reader might expect otherwise:
- **Limit before reversal.** The per-symbol limit is checked before the reversal step, on the
  book as it was before any reversal close. Reversal is not attempted first. Under the default
  limit of one position per symbol, an opposite open position therefore blocks the new signal
  and is never reversal-closed (`SignalGenerator.LimitBlocksReversal`,
  `SignalGenerator.DefaultConfigNeverReverses`). With a limit of two or
  more it is closed (`SignalGenerator.ReversalWithTwoSlots`).
- **Tie-break.** If both thresholds hold in one tick, the stop-loss assignment runs second and
  wins (`TradingRules.StopLossOverwritesTakeProfit`). Take-profit does not take precedence.
  Both can hold at once only for levels that do not bracket the entry. Levels that
  `processSidewaysPattern` builds from configured percentages with tp% + sl% > 0 never do
  (`TradingRules.TickStatusByPnl`). `openPosition` accepts any signal, so a signal built
  elsewhere can still hit the tie.
- **Confirmation policy.** Signals are always emitted, tagged with their confirmations. No
  switch rejects a signal when the filters disagree.
- **Win rate guard.** The threshold close computes the win rate without a zero guard; the
  reversal close uses one. The closed-trade count is at least 1 right after its increment, so
  the two agree. `RecordClose` and `ClosedStats` use the guarded form for both.

## Model

| member | source | states |
|---|---|---|
| `TradingRules.DirectionOf` | src/modules/trading/trading.service.ts:76-82 | the low→high→low pattern trades LONG, the other SHORT (specified through `SignalShape`) |
| `TradingRules.TakeProfitPrice` | src/modules/trading/trading.service.ts:132-134 | the take-profit level, tp% above the entry for LONG and below it for SHORT (properties in `LevelsBracketEntry`, `PnlAtLevels`) |
| `TradingRules.StopLossPrice` | src/modules/trading/trading.service.ts:136-138 | the stop-loss level, sl% below the entry for LONG and above it for SHORT (properties in `LevelsBracketEntry`, `PnlAtLevels`) |
| `TradingRules.PnlPercent` | src/modules/trading/trading.service.ts:219-223 | the PnL percentage is positive iff the price moved in the trade's favour, and zero iff the price equals the entry |
| `TradingRules.TakeProfitHit` | src/modules/trading/trading.service.ts:229-238 | the inclusive take-profit test (characterised by `ThresholdsArePnlThresholds`) |
| `TradingRules.StopLossHit` | src/modules/trading/trading.service.ts:240-249 | the inclusive stop-loss test (characterised by `ThresholdsArePnlThresholds`) |
| `TradingRules.StatusAfterTick` | src/modules/trading/trading.service.ts:229-249 | take-profit check then overwriting stop-loss check (characterised by `TickStatusByPnl`, `StopLossOverwritesTakeProfit`) |
| `TradingRules.CloseReasonFor` | src/modules/trading/trading.service.ts:229-249 | the close reason matching the status the tick set |
| `TradingRules.OrderBookConfirmed` | src/modules/trading/trading.service.ts:114-127 | the order book confirms only on an answer of yes; a failure counts as not confirmed |
| `TradingRules.ConfirmationOf` | src/modules/trading/trading.service.ts:95-129 | the volume flag is always set; the trend flag is the oracle's answer; overall holds iff the trend oracle allowed and the order book answered yes, so a failed order book never confirms |
| `TradingRules.LevelsBracketEntry` | src/modules/trading/trading.service.ts:132-138 | with a positive entry and positive percentages: LONG has sl < entry < tp, SHORT has tp < entry < sl |
| `TradingRules.SymmetricLevels` | src/interfaces/trading.interface.ts:60-61 | with equal percentages, as the configuration convention asks, take-profit and stop-loss are the same distance from the entry |
| `TradingRules.PercentOfEntry` | src/modules/trading/trading.service.ts:219-223 | proof step: comparing a percentage of a positive entry price with a bound equals comparing the price difference with that bound scaled by the entry |
| `TradingRules.ThresholdsArePnlThresholds` | src/modules/trading/trading.service.ts:229-249 | at levels computed from percentages, the inclusive take-profit price test holds iff PnL ≥ tp%, and the stop-loss test iff PnL ≤ −sl% |
| `TradingRules.PnlAtLevels` | src/modules/trading/trading.service.ts:132-138 | closing exactly at the take-profit level realizes +tp%; exactly at the stop-loss level, −sl% |
| `TradingRules.TickStatusByPnl` | src/modules/trading/trading.service.ts:229-249 | when tp% + sl% > 0, both thresholds never hold together; the tick gives ClosedTP iff PnL ≥ tp%, ClosedSL iff PnL ≤ −sl%, Open iff strictly between |
| `TradingRules.StopLossOverwritesTakeProfit` | src/modules/trading/trading.service.ts:240-249 | when both thresholds hold, the later stop-loss assignment decides: ClosedSL |
| `StatsAggregator.StatsFrom` | src/interfaces/trading.interface.ts:42-56 | the reference statistics recomputed from the open count and the realized PnLs of the history (the incremental updates are proved equal to it) |
| `StatsAggregator.RecordOpen` | src/modules/trading/trading.service.ts:182-183 | the incremental update on open (partner: `RecordOpenMatchesHistory`) |
| `StatsAggregator.RecordClose` | src/modules/trading/trading.service.ts:273-290 | the incremental update on close (partner: `RecordCloseMatchesHistory`, `RecordCloseEffect`) |
| `StatsAggregator.InitialStatsEmpty` | src/modules/trading/trading.service.ts:27-38 | the all-zero initial statistics are exactly the statistics of an empty book |
| `StatsAggregator.RecordOpenMatchesHistory` | src/modules/trading/trading.service.ts:182-183 | incrementing total and open trades on open equals recomputing with one more open position |
| `StatsAggregator.RecordCloseMatchesHistory` | src/modules/trading/trading.service.ts:273-290 | the incremental close update equals recomputing from the history extended by the closed PnL, with one fewer open position |
| `StatsAggregator.WinsPlusLosses` | src/modules/trading/trading.service.ts:276-286 | every closed trade is counted exactly once, as a win (PnL > 0) or a loss (PnL ≤ 0) |
| `StatsAggregator.MaxWinIsMaximum` | src/modules/trading/trading.service.ts:278-280 | maxWin is the largest of 0 and all realized PnLs |
| `StatsAggregator.MaxLossIsMinimum` | src/modules/trading/trading.service.ts:283-285 | maxLoss is the smallest of 0 and all realized PnLs |
| `StatsAggregator.WinsBounded` | src/modules/trading/trading.service.ts:276-277 | wins never exceed the number of closed trades |
| `StatsAggregator.StatsInvariants` | src/interfaces/trading.interface.ts:42-56 | total = open + closed, wins + losses = closed, 0 ≤ winRate ≤ 100, average × closed = total PnL, maxWin ≥ 0 ≥ maxLoss |
| `StatsAggregator.Percentage` | src/interfaces/trading.interface.ts:49 | proof step of `StatsInvariants`: a part of a positive whole, as a percentage, lies in [0, 100] |
| `StatsAggregator.AverageTimesCount` | src/interfaces/trading.interface.ts:51-52 | proof step of `StatsInvariants`: dividing by a positive count and multiplying back gives the total |
| `StatsAggregator.RecordCloseEffect` | src/modules/trading/trading.service.ts:273-290 | a close moves one trade from open to closed and raises exactly one of wins or losses (zero PnL is a loss); the total grows by the PnL; maxWin never falls and maxLoss never rises |
| `StatsAggregator.WinRateExample` | src/modules/trading/trading.service.ts:288-290 | three wins and two losses give winRate 60, five closed trades, total 3.5 and average 0.7 |
| `PositionBook.ForSymbol` | src/modules/trading/trading.service.ts:367-369 | exactly the open positions of the symbol, no more than the book holds |
| `PositionBook.ForSymbolAppend` | src/modules/trading/trading.service.ts:367-369 | the filter distributes over concatenation and keeps a single entry iff it has the symbol, so it keeps the matching entries in book order and nothing else |
| `PositionBook.CountForSymbol` | src/modules/trading/trading.service.ts:315-316 | the number of book entries with the symbol |
| `PositionBook.ForSymbolCount` | src/modules/trading/trading.service.ts:315-316 | the filter has exactly one entry per index holding the symbol |
| `PositionBook.CountForSymbolSnoc` | src/modules/trading/trading.service.ts:315-316 | proof step: one more entry at the end adds one to the count iff it has the symbol |
| `PositionBook.ActiveForSymbol` | src/modules/trading/trading.service.ts:203-204 | the tick snapshot holds exactly the positions of the symbol whose status is Open |
| `PositionBook.ActiveIsForSymbol` | src/modules/trading/trading.service.ts:203-204 | in a book of open records the snapshot is exactly the symbol's positions in book order |
| `PositionBook.FirstForSymbol` | src/modules/trading/trading.service.ts:359-362 | a found position is open and has the symbol; nothing is found iff no open position has the symbol |
| `PositionBook.CanOpen` | src/modules/trading/trading.service.ts:314-319 | fewer positions of the symbol than the per-symbol limit (count pinned by `ForSymbolCount`) |
| `PositionBook.Replace` | src/modules/trading/trading.service.ts:214-223 | writing a position back keeps every id in place, keeps every position with another id, and the written value is in the result whenever its id was |
| `PositionBook.RemoveId` | src/modules/trading/trading.service.ts:294 | deleting an id keeps exactly the positions with other ids |
| `PositionBook.ConsDistinct` | src/modules/trading/trading.service.ts:21 | the head of a distinct-id sequence followed by entries from its tail keeps ids distinct |
| `PositionBook.RemoveIdDistinct` | src/modules/trading/trading.service.ts:294 | deleting keeps ids unique |
| `PositionBook.ActiveForSymbolDistinct` | src/modules/trading/trading.service.ts:203-204 | the tick snapshot has unique ids |
| `PositionBook.RemoveIdLength` | src/modules/trading/trading.service.ts:294 | deleting a present id removes exactly one entry; deleting an absent id changes nothing |
| `PositionBook.RemoveIdSplit` | src/modules/trading/trading.service.ts:294 | deleting the id at index k of a distinct-id book leaves the entries before k and after k, in their insertion order |
| `PositionBook.RemoveIdAt` | src/modules/trading/trading.service.ts:294 | deleting an id the book holds removes the one entry carrying it, the others keep their order |
| `PositionBook.RemoveIdSplitCons` | src/modules/trading/trading.service.ts:294 | inductive step of `RemoveIdSplit`: the head stays in front when a later entry is deleted |
| `PositionBook.RemoveIdKeepsHead` | src/modules/trading/trading.service.ts:294 | deleting an id the first entry does not carry keeps that entry first |
| `PositionBook.TailDistinct` | src/modules/trading/trading.service.ts:294 | the entries after the first of a distinct-id book have distinct ids, none the first's |
| `PositionBook.NewPosition` | src/modules/trading/trading.service.ts:166-179 | the position built from a signal (properties in `NewPositionIsOpen`) |
| `PositionBook.Ticked` | src/modules/trading/trading.service.ts:215-249 | a position after a tick: new price, recomputed PnL, the status the thresholds give (properties in `TickOneEffect`, `ThresholdCloseOutcome`) |
| `PositionBook.Closed` | src/modules/trading/trading.service.ts:267-270 | the threshold close record (properties in `CloseRecordsPnlAtClosePrice`) |
| `PositionBook.ReversalClosed` | src/modules/trading/trading.service.ts:375-386 | the reversal close record (properties in `CloseRecordsPnlAtClosePrice`) |
| `PositionBook.Opened` | src/modules/trading/trading.service.ts:165-183 | the book after openPosition (properties in `OpenedValid`) |
| `PositionBook.Archived` | src/modules/trading/trading.service.ts:273-294 | the book after either close path (properties in `ArchivedValid`) |
| `PositionBook.TickOne` | src/modules/trading/trading.service.ts:214-261 | the book after updatePosition (properties in `TickOneValid`, `TickOneEffect`) |
| `PositionBook.TickAll` | src/modules/trading/trading.service.ts:202-209 | the book after updatePositions over a snapshot (properties in `TickAllEffect`, `TickAllTicksEach`, `UpdateSymbolEffect`) |
| `PositionBook.TickClosures` | src/modules/trading/trading.service.ts:202-209 | the closed records a tick over a snapshot appends, one per entry it closes, in snapshot order |
| `PositionBook.BookValid` | src/modules/trading/trading.service.ts:21-38 | the service invariant: distinct ids, open records with positive entry below the next id, closed records in the history, statistics equal to `StatsFrom` |
| `PositionBook.RealizedPnls` | src/modules/trading/trading.service.ts:24 | one realized PnL per history entry |
| `PositionBook.RealizedPnlsAppend` | src/modules/trading/trading.service.ts:293 | appending to the history appends its realized PnL |
| `PositionBook.EmptyBookValid` | src/modules/trading/trading.service.ts:21-38 | the freshly constructed book satisfies the invariant |
| `PositionBook.ValidBookStats` | src/modules/trading/trading.service.ts:27-38 | in a valid book: total = open + closed, openTrades = number of open positions, closedTrades = history length, wins + losses = closed, totalPnl = sum of realized PnLs, winRate in [0, 100], maxWin ≥ 0 ≥ maxLoss |
| `PositionBook.NewPositionIsOpen` | src/modules/trading/trading.service.ts:166-179 | a new position is an open record with zero PnL and current price = entry, and carries the signal's levels and confirmation |
| `PositionBook.OpenedValid` | src/modules/trading/trading.service.ts:165-183 | opening keeps the invariant, uses an id not in the book, leaves the history unchanged, and raises totalTrades and openTrades by one with no other stat change |
| `PositionBook.ArchivedValid` | src/modules/trading/trading.service.ts:266-294 | moving an open position's closed record to the history keeps the invariant, removes exactly that id with the other open positions kept in their order, and appends the record |
| `PositionBook.TickOneValid` | src/modules/trading/trading.service.ts:214-261 | one tick keeps the invariant, keeps every other open position, and only appends to the history |
| `PositionBook.TickOneEffect` | src/modules/trading/trading.service.ts:214-261 | a tick that leaves the position open writes back its new price and PnL, with history and stats untouched; a tick that closes it removes its id, appends its closed record and counts the close; no other position appears |
| `PositionBook.TickOneNoNewIds` | src/modules/trading/trading.service.ts:214-261 | proof step: ticking one position brings back no other id |
| `PositionBook.TickAllStep` | src/modules/trading/trading.service.ts:206-208 | the loop over the snapshot ticks the next entry on the book the earlier entries left |
| `PositionBook.TickAllValid` | src/modules/trading/trading.service.ts:202-209 | a tick of one symbol keeps the invariant and only appends to the history; every appended entry is a closed record of that symbol |
| `PositionBook.TickAllKeepsOtherSymbols` | src/modules/trading/trading.service.ts:202-209 | a tick of one symbol leaves every open position of another symbol in the book unchanged |
| `PositionBook.TickAllEffect` | src/modules/trading/trading.service.ts:202-209 | over a snapshot of distinct open positions: the invariant holds, the history grows by exactly the closures of the snapshot in snapshot order, and positions outside the snapshot stay (nothing else: `TickAllFrame`) |
| `PositionBook.OutsidersStay` | src/modules/trading/trading.service.ts:206-208 | inductive step of `TickAllEffect`: a position outside the snapshot survives one more tick |
| `PositionBook.NotInPrefix` | src/modules/trading/trading.service.ts:202-209 | proof step: an id absent from a snapshot is absent from its prefixes |
| `PositionBook.SnocDistinct` | src/modules/trading/trading.service.ts:202-209 | proof step: the snapshot's last entry has an id no earlier entry has |
| `PositionBook.TickAllFrame` | src/modules/trading/trading.service.ts:202-209 | nothing else happens in a tick: every open entry afterwards is an untouched position outside the snapshot or a ticked snapshot entry, the open entries that remain keep their insertion order, open plus history keeps its size, and the trade count does not change |
| `PositionBook.TickAllKeepsOrder` | src/modules/trading/trading.service.ts:202-209 | after updatePositions over a snapshot, the open positions that remain keep their insertion order |
| `PositionBook.TickOneKeepsOrder` | src/modules/trading/trading.service.ts:214-294 | updatePosition keeps the insertion order of the remaining open positions: the write-back keeps every id in place and the close only deletes |
| `PositionBook.OrderKeptReplace` | src/modules/trading/trading.service.ts:214-223 | updating the stored object in place keeps every entry's position in the book |
| `PositionBook.OrderKeptDrop` | src/modules/trading/trading.service.ts:294 | deleting one entry keeps the order of the others |
| `PositionBook.OrderKeptTrans` | src/modules/trading/trading.service.ts:206-208 | order kept over one tick and over the earlier ticks is kept over both |
| `PositionBook.OrderKeptRefl` | src/modules/trading/trading.service.ts:202-209 | a book keeps its own order, the case of an empty snapshot |
| `PositionBook.TickAllCount` | src/modules/trading/trading.service.ts:202-209 | each close moves exactly one position from the open ones to the history |
| `PositionBook.TickAllNoStrangers` | src/modules/trading/trading.service.ts:202-209 | after a tick every open entry is an untouched position outside the snapshot or a ticked snapshot entry |
| `PositionBook.NoStrangersSnoc` | src/modules/trading/trading.service.ts:206-208 | inductive step of `TickAllNoStrangers`: one more tick that writes back or removes only its own entry keeps the claim |
| `PositionBook.TickAllTicksEach` | src/modules/trading/trading.service.ts:202-209 | every snapshot entry is ticked: one left open is in the book with its new price and PnL, one closed is gone from the open positions |
| `PositionBook.UpdateSymbolEffect` | src/modules/trading/trading.service.ts:202-209 | updatePositions on a valid book: the snapshot is the symbol's positions in book order; each is written back ticked or closed; the history grows by their closures in book order; other symbols stay; every open entry afterwards is another symbol's untouched position or a ticked one of the symbol, in the old insertion order; open plus history keeps its size and the trade count is unchanged |
| `PositionBook.UpdateSymbolTicks` | src/modules/trading/trading.service.ts:202-209 | each position of the symbol is ticked once, in book order, written back or closed; other symbols stay |
| `PositionBook.UpdateSymbolFrame` | src/modules/trading/trading.service.ts:202-209 | nothing else enters the book in updatePositions for one symbol; the remaining open positions keep their insertion order; open plus history keeps its size; the trade count is unchanged |
| `PositionBook.CloseRecordsPnlAtClosePrice` | src/modules/trading/trading.service.ts:374-387 | both close paths fill every closing field and record as realized PnL the PnL at the close price. The reversal close also forces ClosedSL and sets unrealized = realized |
| `PositionBook.ThresholdCloseOutcome` | src/modules/trading/trading.service.ts:229-249 | at levels from positive percentages: a take-profit close is a win of at least tp%, a stop-loss close a loss of at least sl%, and an open position's PnL lies strictly between |
| `PositionBook.LevelsAndTicksExample` | src/modules/trading/trading.service.ts:132-138 | entry 100 at 2 %: LONG levels 102/98, SHORT levels 98/102. A LONG ticked at 102 closes ClosedTP with PnL 2; at 98, ClosedSL with −2; a gap to 150 gives ClosedTP |
| `PositionBook.FirstForSymbolIsEarliest` | src/modules/trading/trading.service.ts:359-362 | the position found for a symbol is the earliest of that symbol in insertion order |
| `PositionBook.SingleSlotLimit` | src/modules/trading/trading.service.ts:314-319 | with a limit of one per symbol, a position can be opened iff no open position of the symbol exists |
| `SignalGenerator.SignalFor` | src/modules/trading/trading.service.ts:140-150 | the signal built once the guards pass (properties in `SignalShape`) |
| `SignalGenerator.Decide` | src/modules/trading/trading.service.ts:61-159 | the answer of processSidewaysPattern (properties in `DecideGuards`, `SignalShape`, `MaxTotalIgnored`) |
| `SignalGenerator.ReversalVictim` | src/modules/trading/trading.service.ts:84-87 | the position the reversal step closes (characterised by `ReversalStep`) |
| `SignalGenerator.AfterPattern` | src/modules/trading/trading.service.ts:84-92 | the book after processSidewaysPattern (properties in `AfterPatternValid`) |
| `SignalGenerator.DecideGuards` | src/modules/trading/trading.service.ts:61-70 | no signal iff the strategy is disabled or the symbol already has maxPositionsPerSymbol open positions |
| `SignalGenerator.SignalShape` | src/modules/trading/trading.service.ts:72-159 | an emitted signal is LONG iff the orientation is low→high→low and enters at the current price. Volume is always confirmed; overall iff trend and order book both confirm. Its levels bracket the entry on the correct sides |
| `SignalGenerator.ReversalStep` | src/modules/trading/trading.service.ts:84-92 | a position is reversal-closed iff a signal is emitted and the earliest open position of the symbol has the opposite direction; it is then that position |
| `SignalGenerator.ReversalWithTwoSlots` | src/modules/trading/trading.service.ts:66-92 | with two slots per symbol, an open LONG is closed by a SHORT pattern: the open positions become empty and its ClosedSL record is appended |
| `SignalGenerator.ReversalOnlyOpposite` | src/modules/trading/trading.service.ts:84-92 | a reversal close happens only when a signal is emitted, and closes the earliest open position of the symbol, which has the opposite direction |
| `SignalGenerator.DefaultConfigNeverReverses` | src/modules/trading/trading.service.ts:66-92 | under the default configuration no reversal close ever happens, the book is unchanged, and a signal is emitted iff the symbol has no open position |
| `SignalGenerator.LimitBlocksReversal` | src/modules/trading/trading.service.ts:66-92 | with a limit of at most one per symbol, an existing open position of the symbol blocks the signal, and the book is left unchanged |
| `SignalGenerator.AfterPatternValid` | src/modules/trading/trading.service.ts:374-411 | processing a pattern keeps the invariant. A reversal moves exactly the victim to the end of the history as ClosedSL, with realized PnL at the current price, counted like any close |
| `SignalGenerator.MaxTotalIgnored` | src/modules/trading/trading.service.ts:314-319 | the total-positions limit never changes the decision or the reversal |
| `Service.TradingService.constructor` | src/modules/trading/trading.service.ts:21-52 | a new service holds an empty, valid book with zeroed statistics and the given configuration |
| `Service.TradingService.ProcessSidewaysPattern` | src/modules/trading/trading.service.ts:61-160 | returns exactly `Decide` on the book before the call, and leaves exactly the `AfterPattern` book, keeping the invariant |
| `Service.TradingService.OpenPosition` | src/modules/trading/trading.service.ts:165-197 | returns the new open position under a fresh id and leaves exactly the `Opened` book |
| `Service.TradingService.UpdatePositions` | src/modules/trading/trading.service.ts:202-209 | ticks the Open positions of the symbol in the snapshot taken first, in book order, leaving exactly the `TickAll` book (what that does: `UpdateSymbolEffect`) |
| `Service.TradingService.UpdatePosition` | src/modules/trading/trading.service.ts:214-261 | sets price and PnL, runs the take-profit check then the stop-loss check, then closes or writes back; leaves exactly the `TickOne` book (what that does: `TickOneEffect`) |
| `Service.TradingService.ClosePosition` | src/modules/trading/trading.service.ts:266-294 | fills the closing fields (realized = unrealized PnL) and moves the position to the history with the stats update |
| `Service.TradingService.ClosePositionByReversal` | src/modules/trading/trading.service.ts:374-411 | forces ClosedSL, recomputes the PnL from entry and close price, and moves the position to the history with the stats update |
| `Service.TradingService.MoveToHistory` | src/modules/trading/trading.service.ts:273-294 | applies the stats update, then appends to the history and deletes from the open book: exactly the `Archived` book |
| `Service.TradingService.ClosedStats` | src/modules/trading/trading.service.ts:273-290 | the field-by-field statistics update equals `RecordClose`: one more closed and one fewer open trade, one more win or loss, total grown by the PnL |
| `Service.TradingService.CanOpenPosition` | src/modules/trading/trading.service.ts:314-320 | true iff the number of open positions with the symbol is below maxPositionsPerSymbol. With a limit of one: iff none is |
| `Service.TradingService.GetTradingStats` | src/modules/trading/trading.service.ts:325-327 | returns the statistics, equal to those recomputed from the book, with total = open + closed, wins + losses = closed, totalPnl = sum of realized PnLs |
| `Service.TradingService.GetOpenPositions` | src/modules/trading/trading.service.ts:345-347 | the open positions in insertion order, each an open record |
| `Service.TradingService.GetClosedPositions` | src/modules/trading/trading.service.ts:352-354 | the closed history in closing order, each a closed record |
| `Service.TradingService.GetPositionBySymbol` | src/modules/trading/trading.service.ts:359-362 | the earliest open position of the symbol, or none iff no open position has the symbol |
| `Service.TradingService.GetPositionsBySymbol` | src/modules/trading/trading.service.ts:367-369 | exactly the open positions of the symbol, one per matching entry, and for every split of the book those of the earlier part first: book order |

## Left out

- `saveSignalToGoogleSheets` and `updateSignalResultInGoogleSheets`: fire-and-forget writes to an external spreadsheet. Their failures are only logged and never touch the book. The spreadsheet client and the signal repository wrapper are not part of this model either.
- Logging: all logger output, the text of the reason strings (`toFixed(6)`, icons), `formatPrice`, and `logTradingStats`, called every fifth close. These are display only.
- Rounding of the levels to 8 decimals (`Number(x.toFixed(8))`): levels are exact reals. With rounding, `ThresholdsArePnlThresholds` and `TickStatusByPnl` hold only up to that rounding.
- Floating point: all arithmetic is exact rational arithmetic. Division by a zero entry price is excluded by `entryPrice > 0` rather than modelled as `Infinity`/`NaN`.
- The BTC trend service and the order-book service: their answers are inputs. The trend name shown in the reason text is not modelled.
- A throw from the BTC trend service: `getBTCTrendAnalysis` and `isDirectionAllowed` are called outside any `try`. If one throws, `processSidewaysPattern` rejects after a reversal close has already been committed. The model treats the trend answer as always available.
- Asynchrony: `processSidewaysPattern` awaits the order-book oracle after the reversal close, so other calls could interleave. The model runs each operation atomically.
- Aliasing: `getOpenPositions`, `getPositionBySymbol` and `getPositionsBySymbol` return the live position objects. `getClosedPositions` copies only the array, so its entries are the history's own objects. A caller could mutate the book through any of them; the model returns values.
- Closing an id that is not open: `closePosition` and `closePositionByReversal` do not check for it. The model's close methods require the id to be open, which every caller in the service guarantees.
- NestJS dependency injection and `ConfigService`: the configuration is a constructor argument.
- `uuidv4` and `Date.now()`: replaced by a counter and a parameter.
