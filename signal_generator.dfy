/** Signal generation from a detected sideways pattern: the guards (strategy enabled, per-symbol
    limit), the reversal close of an opposite open position, the confirmation record and the
    take-profit / stop-loss levels. The trend oracle's answer for the mapped direction is
    btcAllowed; the order-book oracle's answer is orderBook, None when it failed. */
module SignalGenerator {
  import opened TradingInterface
  import opened TradingRules
  import opened StatsAggregator
  import opened PositionBook

  /** The signal built once the guards have passed. */
  function SignalFor(config: TradingConfig, pattern: SidewaysPattern, price: real, now: int,
                     btcAllowed: bool, orderBook: Option<bool>): TradingSignal
  {
    var d := DirectionOf(pattern.orientation);
    TradingSignal(
      symbol := pattern.symbol,
      direction := d,
      entryPrice := price,
      timestamp := now,
      reason := SignalReason(pattern.orientation, pattern.startPrice, pattern.middlePrice, price, btcAllowed, orderBook),
      takeProfitPrice := TakeProfitPrice(d, price, config.takeProfitPercent),
      stopLossPrice := StopLossPrice(d, price, config.stopLossPercent),
      sidewaysPattern := pattern,
      confirmation := ConfirmationOf(btcAllowed, orderBook))
  }

  /** The answer of processSidewaysPattern: no signal when disabled or at the per-symbol
      limit (counted on the book before any reversal close), otherwise always a signal. */
  function Decide(config: TradingConfig, open: seq<TradingPosition>, pattern: SidewaysPattern, price: real,
                  now: int, btcAllowed: bool, orderBook: Option<bool>): Option<TradingSignal>
  {
    if !config.enabled then None
    else if !CanOpen(config, open, pattern.symbol) then None
    else Some(SignalFor(config, pattern, price, now, btcAllowed, orderBook))
  }

  /** The position the reversal step closes: past the guards, the first open position of the
      symbol, when its direction is opposite to the new one. */
  function ReversalVictim(config: TradingConfig, open: seq<TradingPosition>, pattern: SidewaysPattern): Option<TradingPosition>
  {
    if !config.enabled || !CanOpen(config, open, pattern.symbol) then None
    else
      match FirstForSymbol(open, pattern.symbol)
      case Some(p) => if p.direction != DirectionOf(pattern.orientation) then Some(p) else None
      case None => None
  }

  /** The book after processSidewaysPattern: unchanged, or with the reversal victim closed at
      the current price and moved to the history. */
  function AfterPattern(b: Book, config: TradingConfig, pattern: SidewaysPattern, price: real, now: int): Book
    requires BookValid(b)
  {
    match ReversalVictim(config, b.open, pattern)
    case None => b
    case Some(p) =>
      Archived(b, ReversalClosed(p, price, now, TrendReversal(p.direction, DirectionOf(pattern.orientation))))
  }

  /** No signal exactly when the strategy is disabled or the symbol already has
      maxPositionsPerSymbol open positions. */
  lemma DecideGuards(config: TradingConfig, open: seq<TradingPosition>, pattern: SidewaysPattern, price: real,
                     now: int, btcAllowed: bool, orderBook: Option<bool>)
    ensures Decide(config, open, pattern, price, now, btcAllowed, orderBook).None?
            <==> !config.enabled || |ForSymbol(open, pattern.symbol)| >= config.maxPositionsPerSymbol
  {
  }

  /** Every emitted signal: the orientation decides the direction, entry at the current price,
      volume always confirmed, overall confirmation iff the trend oracle allowed and the order
      book confirmed (a failed order book never confirms, never rejects); with a positive price
      and positive percentages its levels bracket the entry on the correct sides. */
  lemma SignalShape(config: TradingConfig, open: seq<TradingPosition>, pattern: SidewaysPattern,
                                       price: real, now: int, btcAllowed: bool, orderBook: Option<bool>)
    requires Decide(config, open, pattern, price, now, btcAllowed, orderBook).Some?
    ensures var s := Decide(config, open, pattern, price, now, btcAllowed, orderBook).value;
            && s.symbol == pattern.symbol
            && (s.direction == Long <==> pattern.orientation == LowToHighToLow)
            && s.entryPrice == price && s.timestamp == now
            && s.confirmation.volumeProfile
            && s.confirmation.btcTrend == btcAllowed
            && (s.confirmation.overall <==> btcAllowed && orderBook == Some(true))
            && (price > 0.0 && config.takeProfitPercent > 0.0 && config.stopLossPercent > 0.0 ==>
                  if s.direction == Long then s.stopLossPrice < s.entryPrice < s.takeProfitPrice
                  else s.takeProfitPrice < s.entryPrice < s.stopLossPrice)
  {
    var s := Decide(config, open, pattern, price, now, btcAllowed, orderBook).value;
    if price > 0.0 && config.takeProfitPercent > 0.0 && config.stopLossPercent > 0.0 {
      LevelsBracketEntry(s.direction, price, config.takeProfitPercent, config.stopLossPercent);
    }
  }

  /** A reversal close happens only alongside an emitted signal, and closes the earliest open
      position of the symbol, whose direction is opposite to the new signal's. */
  lemma ReversalOnlyOpposite(config: TradingConfig, open: seq<TradingPosition>, pattern: SidewaysPattern,
                                                price: real, now: int, btcAllowed: bool, orderBook: Option<bool>)
    requires ReversalVictim(config, open, pattern).Some?
    ensures var p := ReversalVictim(config, open, pattern).value;
            && p in open && p.symbol == pattern.symbol
            && Decide(config, open, pattern, price, now, btcAllowed, orderBook).Some?
            && p.direction != Decide(config, open, pattern, price, now, btcAllowed, orderBook).value.direction
            && exists i :: 0 <= i < |open| && open[i] == p && forall j :: 0 <= j < i ==> open[j].symbol != pattern.symbol
  {
    FirstForSymbolIsEarliest(open, pattern.symbol);
  }

  /** The reversal step in both directions: a position is reversal-closed exactly when a
      signal is emitted and the earliest open position of the symbol has the direction opposite
      to the new one, and then it is that earliest position. */
  lemma ReversalStep(config: TradingConfig, open: seq<TradingPosition>, pattern: SidewaysPattern, price: real,
                     now: int, btcAllowed: bool, orderBook: Option<bool>)
    ensures ReversalVictim(config, open, pattern).Some?
            <==> && Decide(config, open, pattern, price, now, btcAllowed, orderBook).Some?
                 && FirstForSymbol(open, pattern.symbol).Some?
                 && FirstForSymbol(open, pattern.symbol).value.direction != DirectionOf(pattern.orientation)
    ensures ReversalVictim(config, open, pattern).Some? ==> ReversalVictim(config, open, pattern) == FirstForSymbol(open, pattern.symbol)
  {
  }

  /** With room for two positions per symbol, an open LONG of the symbol is closed by a
      SHORT pattern: the open positions become empty and the history gains its ClosedSL record. */
  lemma ReversalWithTwoSlots(b: Book, config: TradingConfig, pattern: SidewaysPattern, p: TradingPosition, price: real, now: int)
    requires BookValid(b) && config.enabled && config.maxPositionsPerSymbol == 2
    requires b.open == [p] && p.symbol == pattern.symbol && p.direction == Long
    requires pattern.orientation == HighToLowToHigh
    ensures ReversalVictim(config, b.open, pattern) == Some(p)
    ensures var a := AfterPattern(b, config, pattern, price, now);
            && a.open == []
            && a.closed == b.closed + [ReversalClosed(p, price, now, TrendReversal(Long, Short))]
            && a.closed[|b.closed|].status == ClosedSL
  {
    assert [p][1..] == [];
    assert ForSymbol(b.open, pattern.symbol) == [p];
    assert RemoveId([p], p.id) == RemoveId([], p.id) == [];
  }

  /** The limit runs before the reversal step: with at most one position per symbol (the
      default), an opposite open position blocks the new signal and is never reversal-closed. */
  lemma LimitBlocksReversal(config: TradingConfig, b: Book, pattern: SidewaysPattern, price: real,
                                               now: int, btcAllowed: bool, orderBook: Option<bool>)
    requires BookValid(b) && config.maxPositionsPerSymbol <= 1
    requires exists p :: p in b.open && p.symbol == pattern.symbol
    ensures ReversalVictim(config, b.open, pattern).None?
    ensures AfterPattern(b, config, pattern, price, now) == b
    ensures Decide(config, b.open, pattern, price, now, btcAllowed, orderBook).None?
  {
    var p :| p in b.open && p.symbol == pattern.symbol;
    assert p in ForSymbol(b.open, pattern.symbol);
  }

  /** Under the default configuration the reversal step never fires, and a signal is emitted
      exactly when the symbol has no open position. */
  lemma DefaultConfigNeverReverses(b: Book, pattern: SidewaysPattern, price: real, now: int,
                                   btcAllowed: bool, orderBook: Option<bool>)
    requires BookValid(b)
    ensures ReversalVictim(DEFAULT_CONFIG, b.open, pattern).None?
    ensures AfterPattern(b, DEFAULT_CONFIG, pattern, price, now) == b
    ensures Decide(DEFAULT_CONFIG, b.open, pattern, price, now, btcAllowed, orderBook).Some?
            <==> forall p :: p in b.open ==> p.symbol != pattern.symbol
  {
    DecideGuards(DEFAULT_CONFIG, b.open, pattern, price, now, btcAllowed, orderBook);
    SingleSlotLimit(DEFAULT_CONFIG, b.open, pattern.symbol);
    if exists p :: p in b.open && p.symbol == pattern.symbol {
      LimitBlocksReversal(DEFAULT_CONFIG, b, pattern, price, now, btcAllowed, orderBook);
    } else {
      ReversalStep(DEFAULT_CONFIG, b.open, pattern, price, now, btcAllowed, orderBook);
    }
  }

  /** Processing a pattern keeps the book valid; a reversal close moves exactly the victim,
      as a ClosedSL record whose realized PnL is the PnL at the current price, to the end of
      the history and counts it like any other close. */
  lemma AfterPatternValid(b: Book, config: TradingConfig, pattern: SidewaysPattern, price: real, now: int)
    requires BookValid(b)
    ensures var a := AfterPattern(b, config, pattern, price, now);
            && BookValid(a)
            && (ReversalVictim(config, b.open, pattern).None? ==> a == b)
            && (ReversalVictim(config, b.open, pattern).Some? ==>
                  var p := ReversalVictim(config, b.open, pattern).value;
                  && |a.open| == |b.open| - 1 && !HasId(a.open, p.id)
                  && |a.closed| == |b.closed| + 1 && b.closed <= a.closed
                  && a.closed[|b.closed|].id == p.id
                  && a.closed[|b.closed|].status == ClosedSL
                  && RealizedOf(a.closed[|b.closed|]) == PnlPercent(p.direction, p.entryPrice, price)
                  && a.stats == RecordClose(b.stats, PnlPercent(p.direction, p.entryPrice, price)))
  {
    match ReversalVictim(config, b.open, pattern)
    case None =>
    case Some(p) =>
      assert p in b.open;
      var i :| 0 <= i < |b.open| && b.open[i] == p;
      assert HasId(b.open, p.id);
      var c := ReversalClosed(p, price, now, TrendReversal(p.direction, DirectionOf(pattern.orientation)));
      ArchivedValid(b, c);
  }

  /** The total-positions limit is never consulted. */
  lemma MaxTotalIgnored(config: TradingConfig, open: seq<TradingPosition>, pattern: SidewaysPattern, price: real,
                        now: int, btcAllowed: bool, orderBook: Option<bool>, limit: int)
    ensures Decide(config.(maxTotalPositions := limit), open, pattern, price, now, btcAllowed, orderBook)
            == Decide(config, open, pattern, price, now, btcAllowed, orderBook)
    ensures ReversalVictim(config.(maxTotalPositions := limit), open, pattern) == ReversalVictim(config, open, pattern)
  {
  }
}
