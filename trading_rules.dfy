/** The pure formulas of the trading service: direction mapping, take-profit and stop-loss
    levels, percentage PnL, the threshold tests run on every price tick, and the confirmation
    record built from the two oracles' answers. */
module TradingRules {
  import opened TradingInterface

  /** A range that returned to its low is traded LONG; every other orientation SHORT. */
  function DirectionOf(o: Orientation): Direction {
    if o == LowToHighToLow then Long else Short
  }

  function TakeProfitPrice(d: Direction, entry: real, pct: real): real {
    if d == Long then entry * (1.0 + pct / 100.0) else entry * (1.0 - pct / 100.0)
  }

  function StopLossPrice(d: Direction, entry: real, pct: real): real {
    if d == Long then entry * (1.0 - pct / 100.0) else entry * (1.0 + pct / 100.0)
  }

  /** Signed percentage move from the entry price, in the trade's favour. */
  function PnlPercent(d: Direction, entry: real, price: real): (r: real)
    requires entry > 0.0
    ensures r > 0.0 <==> (if d == Long then price > entry else price < entry)
    ensures r == 0.0 <==> price == entry
  {
    if d == Long then (price - entry) / entry * 100.0 else (entry - price) / entry * 100.0
  }

  /** Inclusive take-profit test. */
  predicate TakeProfitHit(d: Direction, price: real, takeProfit: real) {
    if d == Long then price >= takeProfit else price <= takeProfit
  }

  /** Inclusive stop-loss test. */
  predicate StopLossHit(d: Direction, price: real, stopLoss: real) {
    if d == Long then price <= stopLoss else price >= stopLoss
  }

  /** Status after a tick: the take-profit check runs first, the stop-loss check second,
      and a stop-loss hit overwrites the status the first check set. */
  function StatusAfterTick(d: Direction, price: real, takeProfit: real, stopLoss: real): Status {
    var afterTakeProfit := if TakeProfitHit(d, price, takeProfit) then ClosedTP else Open;
    if StopLossHit(d, price, stopLoss) then ClosedSL else afterTakeProfit
  }

  /** The reason recorded for a threshold close. */
  function CloseReasonFor(s: Status): CloseReason
    requires s != Open
  {
    if s == ClosedSL then StopLossTriggered else TakeProfitReached
  }

  /** An order-book oracle that failed (None) counts as "not confirmed". */
  function OrderBookConfirmed(orderBook: Option<bool>): bool {
    match orderBook
    case Some(b) => b
    case None => false
  }

  /** The confirmation record: the range pattern always confirms volume, and the overall flag
      holds only when the trend oracle allowed the direction and the order book answered yes. */
  function ConfirmationOf(btcAllowed: bool, orderBook: Option<bool>): (c: Confirmation)
    ensures c.btcTrend == btcAllowed && c.volumeProfile
    ensures c.overall <==> btcAllowed && orderBook == Some(true)
  {
    var volumeProfile := true;
    Confirmation(btcAllowed, volumeProfile, btcAllowed && volumeProfile && OrderBookConfirmed(orderBook))
  }

  /** With positive percentages and a positive entry price the levels bracket the entry:
      stop-loss below and take-profit above it for LONG, the reverse for SHORT. */
  lemma LevelsBracketEntry(d: Direction, entry: real, tpPct: real, slPct: real)
    requires entry > 0.0 && tpPct > 0.0 && slPct > 0.0
    ensures d == Long ==> StopLossPrice(d, entry, slPct) < entry < TakeProfitPrice(d, entry, tpPct)
    ensures d == Short ==> TakeProfitPrice(d, entry, tpPct) < entry < StopLossPrice(d, entry, slPct)
  {
    assert entry * (tpPct / 100.0) > 0.0;
    assert entry * (slPct / 100.0) > 0.0;
  }

  /** Equal take-profit and stop-loss percentages put the two levels at the same distance
      from the entry price. */
  lemma SymmetricLevels(d: Direction, entry: real, pct: real)
    ensures TakeProfitPrice(d, entry, pct) - entry == -(StopLossPrice(d, entry, pct) - entry)
  {
  }

  /** For x / entry * 100 compared with a percentage: multiply through by the positive entry. */
  lemma PercentOfEntry(entry: real, x: real, pct: real)
    requires entry > 0.0
    ensures x / entry * 100.0 >= pct <==> x >= entry * (pct / 100.0)
    ensures x / entry * 100.0 <= -pct <==> -x >= entry * (pct / 100.0)
  {
    var q := x / entry;
    assert x == q * entry;
    assert entry * (pct / 100.0) == entry * pct / 100.0;
    if q * 100.0 >= pct {
      assert q * entry * 100.0 >= pct * entry;
    }
    if x >= entry * (pct / 100.0) {
      assert q * entry >= entry * pct / 100.0;
      assert q * 100.0 >= pct;
    }
    if q * 100.0 <= -pct {
      assert q * entry * 100.0 <= -pct * entry;
    }
    if -x >= entry * (pct / 100.0) {
      assert -q * entry >= entry * pct / 100.0;
      assert q * 100.0 <= -pct;
    }
  }

  /** The price thresholds are exactly PnL thresholds: at levels computed from percentages,
      the take-profit test holds iff the PnL has reached the take-profit percentage, and the
      stop-loss test holds iff the PnL has fallen to minus the stop-loss percentage. */
  lemma ThresholdsArePnlThresholds(d: Direction, entry: real, price: real, tpPct: real, slPct: real)
    requires entry > 0.0
    ensures TakeProfitHit(d, price, TakeProfitPrice(d, entry, tpPct)) <==> PnlPercent(d, entry, price) >= tpPct
    ensures StopLossHit(d, price, StopLossPrice(d, entry, slPct)) <==> PnlPercent(d, entry, price) <= -slPct
  {
    assert entry * (1.0 + tpPct / 100.0) == entry + entry * (tpPct / 100.0);
    assert entry * (1.0 - tpPct / 100.0) == entry - entry * (tpPct / 100.0);
    assert entry * (1.0 + slPct / 100.0) == entry + entry * (slPct / 100.0);
    assert entry * (1.0 - slPct / 100.0) == entry - entry * (slPct / 100.0);
    if d == Long {
      PercentOfEntry(entry, price - entry, tpPct);
      PercentOfEntry(entry, price - entry, slPct);
    } else {
      PercentOfEntry(entry, entry - price, tpPct);
      PercentOfEntry(entry, entry - price, slPct);
    }
  }

  /** A position closed exactly at its take-profit level realizes the take-profit percentage,
      and one closed exactly at its stop-loss level loses the stop-loss percentage. */
  lemma PnlAtLevels(d: Direction, entry: real, tpPct: real, slPct: real)
    requires entry > 0.0
    ensures PnlPercent(d, entry, TakeProfitPrice(d, entry, tpPct)) == tpPct
    ensures PnlPercent(d, entry, StopLossPrice(d, entry, slPct)) == -slPct
  {
    var tp := TakeProfitPrice(d, entry, tpPct);
    var sl := StopLossPrice(d, entry, slPct);
    if d == Long {
      assert tp - entry == entry * (tpPct / 100.0);
      assert sl - entry == -(entry * (slPct / 100.0));
    } else {
      assert entry - tp == entry * (tpPct / 100.0);
      assert entry - sl == -(entry * (slPct / 100.0));
    }
  }

  /** Classification of a tick against levels computed from percentages whose sum is positive:
      the two thresholds never hold together, so the stop-loss overwrite never decides, and the
      status is ClosedTP, ClosedSL or Open exactly as the PnL is at or above the take-profit
      percentage, at or below minus the stop-loss percentage, or strictly between. */
  lemma TickStatusByPnl(d: Direction, entry: real, price: real, tpPct: real, slPct: real)
    requires entry > 0.0 && tpPct + slPct > 0.0
    ensures !(TakeProfitHit(d, price, TakeProfitPrice(d, entry, tpPct)) && StopLossHit(d, price, StopLossPrice(d, entry, slPct)))
    ensures var s := StatusAfterTick(d, price, TakeProfitPrice(d, entry, tpPct), StopLossPrice(d, entry, slPct));
            var pnl := PnlPercent(d, entry, price);
            && (s == ClosedTP <==> pnl >= tpPct)
            && (s == ClosedSL <==> pnl <= -slPct)
            && (s == Open <==> -slPct < pnl < tpPct)
  {
    ThresholdsArePnlThresholds(d, entry, price, tpPct, slPct);
  }

  /** As written, when both thresholds hold in one tick (possible only for levels that do not
      bracket the entry) the later stop-loss check decides. */
  lemma StopLossOverwritesTakeProfit(d: Direction, price: real, takeProfit: real, stopLoss: real)
    requires TakeProfitHit(d, price, takeProfit) && StopLossHit(d, price, stopLoss)
    ensures StatusAfterTick(d, price, takeProfit, stopLoss) == ClosedSL
  {
  }
}
