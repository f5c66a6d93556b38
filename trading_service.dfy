/** The trading service: one object owning the open positions (in insertion order, unique ids),
    the closed history and the statistics, updated in place by its methods. Every mutating
    method keeps Valid() and leaves exactly the book that the matching transition of
    PositionBook / SignalGenerator computes from the old one. */
module Service {
  import opened TradingInterface
  import opened TradingRules
  import opened StatsAggregator
  import opened PositionBook
  import opened SignalGenerator

  class TradingService {
    const config: TradingConfig
    var openPositions: seq<TradingPosition>
    var closedPositions: seq<TradingPosition>
    var stats: TradingStats
    /** Source of fresh position ids. */
    var nextId: nat

    /** The service's state as a value. */
    function Model(): Book
      reads this
    {
      Book(openPositions, closedPositions, stats, nextId)
    }

    ghost predicate Valid()
      reads this
    {
      BookValid(Model())
    }

    constructor (config: TradingConfig)
      ensures Valid() && this.config == config
      ensures Model() == EMPTY_BOOK
    {
      this.config := config;
      openPositions := [];
      closedPositions := [];
      stats := TradingStats(
        totalTrades := 0, openTrades := 0, closedTrades := 0, winTrades := 0, lossTrades := 0,
        winRate := 0.0, totalPnl := 0.0, averagePnl := 0.0, maxWin := 0.0, maxLoss := 0.0);
      nextId := 0;
      new;
      EmptyBookValid();
    }

    /** Turns a detected pattern into a signal (or none), closing an opposite open position of
        the symbol first when the guards pass. */
    method ProcessSidewaysPattern(pattern: SidewaysPattern, currentPrice: real, now: int,
                                  btcAllowed: bool, orderBook: Option<bool>)
      returns (signal: Option<TradingSignal>)
      requires Valid()
      modifies this
      ensures Valid()
      ensures signal == Decide(config, old(openPositions), pattern, currentPrice, now, btcAllowed, orderBook)
      ensures Model() == AfterPattern(old(Model()), config, pattern, currentPrice, now)
    {
      if !config.enabled {
        return None;
      }
      var canOpen := CanOpenPosition(pattern.symbol);
      if !canOpen {
        return None;
      }

      var direction := if pattern.orientation == LowToHighToLow then Long else Short;

      var existing := GetPositionBySymbol(pattern.symbol);
      assert direction == DirectionOf(pattern.orientation);
      assert existing == FirstForSymbol(old(openPositions), pattern.symbol);
      if existing.Some? && existing.value.direction != direction {
        assert ReversalVictim(config, old(openPositions), pattern) == existing;
        ClosePositionByReversal(existing.value, currentPrice, now, TrendReversal(existing.value.direction, direction));
      } else {
        assert ReversalVictim(config, old(openPositions), pattern).None?;
      }
      assert Model() == AfterPattern(old(Model()), config, pattern, currentPrice, now);

      var confirmation := Confirmation(btcTrend := false, volumeProfile := true, overall := false);
      if btcAllowed {
        confirmation := confirmation.(btcTrend := true);
      } else {
        confirmation := confirmation.(btcTrend := false);
      }
      var orderBookConfirmed := false;
      match orderBook {
        case Some(supported) => orderBookConfirmed := supported;
        case None =>
      }
      confirmation := confirmation.(overall := confirmation.btcTrend && confirmation.volumeProfile && orderBookConfirmed);

      var takeProfitPrice := if direction == Long
        then currentPrice * (1.0 + config.takeProfitPercent / 100.0)
        else currentPrice * (1.0 - config.takeProfitPercent / 100.0);
      var stopLossPrice := if direction == Long
        then currentPrice * (1.0 - config.stopLossPercent / 100.0)
        else currentPrice * (1.0 + config.stopLossPercent / 100.0);

      assert confirmation == ConfirmationOf(btcAllowed, orderBook);
      assert takeProfitPrice == TakeProfitPrice(direction, currentPrice, config.takeProfitPercent);
      assert stopLossPrice == StopLossPrice(direction, currentPrice, config.stopLossPercent);
      signal := Some(TradingSignal(
        symbol := pattern.symbol,
        direction := direction,
        entryPrice := currentPrice,
        timestamp := now,
        reason := SignalReason(pattern.orientation, pattern.startPrice, pattern.middlePrice, currentPrice, btcAllowed, orderBook),
        takeProfitPrice := takeProfitPrice,
        stopLossPrice := stopLossPrice,
        sidewaysPattern := pattern,
        confirmation := confirmation));
    }

    /** Opens a position from a signal under a fresh id. */
    method OpenPosition(signal: TradingSignal) returns (position: TradingPosition)
      requires Valid() && signal.entryPrice > 0.0
      modifies this
      ensures Valid()
      ensures position == NewPosition(signal, old(nextId)) && !HasId(old(openPositions), position.id)
      ensures Model() == Opened(old(Model()), signal)
    {
      OpenedValid(Model(), signal);
      position := TradingPosition(
        id := nextId,
        symbol := signal.symbol,
        direction := signal.direction,
        entryPrice := signal.entryPrice,
        entryTime := signal.timestamp,
        currentPrice := signal.entryPrice,
        takeProfitPrice := signal.takeProfitPrice,
        stopLossPrice := signal.stopLossPrice,
        status := Open,
        closedPrice := None,
        closedTime := None,
        unrealizedPnl := 0.0,
        realizedPnl := None,
        triggerReason := signal.reason,
        closeReason := None,
        confirmation := signal.confirmation);
      nextId := nextId + 1;
      openPositions := openPositions + [position];
      stats := stats.(totalTrades := stats.totalTrades + 1);
      stats := stats.(openTrades := stats.openTrades + 1);
    }

    /** Feeds a price tick to every open position of the symbol, over a snapshot taken first. */
    method UpdatePositions(symbol: string, currentPrice: real, now: int)
      requires Valid()
      modifies this
      ensures Valid()
      ensures forall p :: p in ActiveForSymbol(old(openPositions), symbol) ==> p.entryPrice > 0.0
      ensures Model() == TickAll(old(Model()), ActiveForSymbol(old(openPositions), symbol), currentPrice, now)
    {
      var symbolPositions := ActiveForSymbol(openPositions, symbol);
      ghost var start := Model();
      ActiveForSymbolDistinct(openPositions, symbol);
      assert forall p :: p in symbolPositions ==> p in start.open && p.entryPrice > 0.0;
      for i := 0 to |symbolPositions|
        invariant forall p :: p in symbolPositions[..i] ==> p.entryPrice > 0.0
        invariant Valid()
        invariant Model() == TickAll(start, symbolPositions[..i], currentPrice, now)
        invariant forall k :: i <= k < |symbolPositions| ==> symbolPositions[k] in openPositions
      {
        var position := symbolPositions[i];
        ghost var before := Model();
        TickAllStep(start, symbolPositions, i, currentPrice, now);
        TickOneValid(before, position, currentPrice, now);
        UpdatePosition(position, currentPrice, now);
        forall k | i + 1 <= k < |symbolPositions|
          ensures symbolPositions[k] in openPositions
        {
          assert symbolPositions[k].id != position.id;
        }
      }
      assert symbolPositions[..|symbolPositions|] == symbolPositions;
    }

    /** One tick on one open position: price and PnL, then the take-profit check, then the
        stop-loss check (which overwrites), then close or keep. */
    method UpdatePosition(position: TradingPosition, currentPrice: real, now: int)
      requires Valid() && position in openPositions
      modifies this
      ensures Valid()
      ensures Model() == TickOne(old(Model()), position, currentPrice, now)
    {
      var p := position.(currentPrice := currentPrice);
      if p.direction == Long {
        p := p.(unrealizedPnl := (currentPrice - p.entryPrice) / p.entryPrice * 100.0);
      } else {
        p := p.(unrealizedPnl := (p.entryPrice - currentPrice) / p.entryPrice * 100.0);
      }

      var shouldClose := false;
      var closeReason: Option<CloseReason> := None;

      if p.direction == Long && currentPrice >= p.takeProfitPrice {
        shouldClose := true;
        closeReason := Some(TakeProfitReached);
        p := p.(status := ClosedTP);
      } else if p.direction == Short && currentPrice <= p.takeProfitPrice {
        shouldClose := true;
        closeReason := Some(TakeProfitReached);
        p := p.(status := ClosedTP);
      }

      if p.direction == Long && currentPrice <= p.stopLossPrice {
        shouldClose := true;
        closeReason := Some(StopLossTriggered);
        p := p.(status := ClosedSL);
      } else if p.direction == Short && currentPrice >= p.stopLossPrice {
        shouldClose := true;
        closeReason := Some(StopLossTriggered);
        p := p.(status := ClosedSL);
      }

      assert p == Ticked(position, currentPrice);
      assert shouldClose <==> closeReason.Some? && p.status != Open;
      if shouldClose {
        assert HasId(openPositions, p.id);
        ClosePosition(p, currentPrice, now, closeReason.value);
      } else {
        openPositions := Replace(openPositions, p);
        TickOneValid(old(Model()), position, currentPrice, now);
      }
    }

    /** Threshold close of an open position whose status the tick has already set. */
    method ClosePosition(position: TradingPosition, closePrice: real, now: int, reason: CloseReason)
      requires Valid() && HasId(openPositions, position.id) && position.status != Open
      modifies this
      ensures Valid()
      ensures Model() == Archived(old(Model()), Closed(position, closePrice, now, reason))
    {
      var closed := position.(closedPrice := Some(closePrice), closedTime := Some(now), closeReason := Some(reason));
      closed := closed.(realizedPnl := Some(closed.unrealizedPnl));
      MoveToHistory(closed);
    }

    /** Close forced by a signal in the opposite direction: status ClosedSL, PnL recomputed
        from the entry and close prices. */
    method ClosePositionByReversal(position: TradingPosition, closePrice: real, now: int, reason: CloseReason)
      requires Valid() && position in openPositions
      modifies this
      ensures Valid()
      ensures Model() == Archived(old(Model()), ReversalClosed(position, closePrice, now, reason))
    {
      var closed := position.(closedPrice := Some(closePrice), closedTime := Some(now), closeReason := Some(reason));
      closed := closed.(status := ClosedSL);
      var pnl: real;
      if closed.direction == Long {
        pnl := (closePrice - closed.entryPrice) / closed.entryPrice * 100.0;
      } else {
        pnl := (closed.entryPrice - closePrice) / closed.entryPrice * 100.0;
      }
      closed := closed.(realizedPnl := Some(pnl));
      closed := closed.(unrealizedPnl := pnl);
      assert HasId(openPositions, position.id) by {
        var i :| 0 <= i < |openPositions| && openPositions[i] == position;
      }
      MoveToHistory(closed);
    }

    /** The statistics update and history move shared by both close paths. */
    method MoveToHistory(closed: TradingPosition)
      requires Valid() && HasId(openPositions, closed.id) && IsClosedRecord(closed)
      modifies this
      ensures Valid()
      ensures Model() == Archived(old(Model()), closed)
    {
      ArchivedValid(Model(), closed);
      stats := ClosedStats(stats, closed.realizedPnl.value);
      closedPositions := closedPositions + [closed];
      openPositions := RemoveId(openPositions, closed.id);
    }

    /** The statistics after a close with realized PnL pnl, updated field by field: one
        fewer open trade, one more closed trade, a win (PnL > 0, possibly a new best) or a loss
        (possibly a new worst), the total, then win rate and average from the new counters. */
    method ClosedStats(s: TradingStats, pnl: real) returns (t: TradingStats)
      ensures t == RecordClose(s, pnl)
      ensures t.closedTrades == s.closedTrades + 1 && t.openTrades == s.openTrades - 1
      ensures t.winTrades + t.lossTrades == s.winTrades + s.lossTrades + 1
      ensures t.totalPnl == s.totalPnl + pnl
    {
      t := s;
      t := t.(openTrades := t.openTrades - 1);
      t := t.(closedTrades := t.closedTrades + 1);
      if pnl > 0.0 {
        t := t.(winTrades := t.winTrades + 1);
        if pnl > t.maxWin {
          t := t.(maxWin := pnl);
        }
      } else {
        t := t.(lossTrades := t.lossTrades + 1);
        if pnl < t.maxLoss {
          t := t.(maxLoss := pnl);
        }
      }
      t := t.(totalPnl := t.totalPnl + pnl);
      t := t.(winRate := if t.closedTrades > 0 then t.winTrades as real / t.closedTrades as real * 100.0 else 0.0);
      t := t.(averagePnl := if t.closedTrades > 0 then t.totalPnl / t.closedTrades as real else 0.0);
    }

    /** The per-symbol limit check. */
    method CanOpenPosition(symbol: string) returns (ok: bool)
      ensures ok == CanOpen(config, openPositions, symbol)
      ensures ok <==> |set i | 0 <= i < |openPositions| && openPositions[i].symbol == symbol| < config.maxPositionsPerSymbol
      ensures config.maxPositionsPerSymbol == 1 ==> (ok <==> forall p :: p in openPositions ==> p.symbol != symbol)
    {
      var symbolPositions := |ForSymbol(openPositions, symbol)|;
      ForSymbolCount(openPositions, symbol);
      ok := symbolPositions < config.maxPositionsPerSymbol;
      if config.maxPositionsPerSymbol == 1 {
        SingleSlotLimit(config, openPositions, symbol);
      }
    }

    /** A snapshot of the statistics, with the invariants they satisfy. */
    method GetTradingStats() returns (s: TradingStats)
      requires Valid()
      ensures s == StatsFrom(|openPositions|, RealizedPnls(closedPositions))
      ensures s.totalTrades == s.openTrades + s.closedTrades
      ensures s.openTrades == |openPositions| && s.closedTrades == |closedPositions|
      ensures s.winTrades + s.lossTrades == s.closedTrades
      ensures s.totalPnl == Sum(RealizedPnls(closedPositions))
    {
      ValidBookStats(Model());
      s := stats;
    }

    /** The open positions, as values, in book order. */
    method GetOpenPositions() returns (r: seq<TradingPosition>)
      requires Valid()
      ensures r == openPositions
      ensures forall p :: p in r ==> IsOpenRecord(p)
    {
      r := openPositions;
    }

    /** The closed history, oldest first. */
    method GetClosedPositions() returns (r: seq<TradingPosition>)
      requires Valid()
      ensures r == closedPositions
      ensures forall c :: c in r ==> IsClosedRecord(c)
    {
      r := closedPositions;
    }

    /** The earliest open position of the symbol, if any. */
    method GetPositionBySymbol(symbol: string) returns (r: Option<TradingPosition>)
      ensures r == FirstForSymbol(openPositions, symbol)
      ensures r.Some? ==> r.value in openPositions && r.value.symbol == symbol
      ensures r.None? <==> forall p :: p in openPositions ==> p.symbol != symbol
    {
      var positions := ForSymbol(openPositions, symbol);
      r := if |positions| > 0 then Some(positions[0]) else None;
    }

    /** All open positions of the symbol, in book order. */
    method GetPositionsBySymbol(symbol: string) returns (r: seq<TradingPosition>)
      ensures r == ForSymbol(openPositions, symbol)
      ensures forall p :: p in r <==> p in openPositions && p.symbol == symbol
      ensures |r| == |set i | 0 <= i < |openPositions| && openPositions[i].symbol == symbol|
      ensures forall k :: 0 <= k <= |openPositions| ==>
                r == ForSymbol(openPositions[..k], symbol) + ForSymbol(openPositions[k..], symbol)
    {
      r := ForSymbol(openPositions, symbol);
      ForSymbolCount(openPositions, symbol);
      forall k | 0 <= k <= |openPositions|
        ensures r == ForSymbol(openPositions[..k], symbol) + ForSymbol(openPositions[k..], symbol)
      {
        assert openPositions == openPositions[..k] + openPositions[k..];
        ForSymbolAppend(openPositions[..k], openPositions[k..], symbol);
      }
    }
  }
}
