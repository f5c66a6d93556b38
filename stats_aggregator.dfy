/** Trade statistics. The service keeps them incrementally (RecordOpen, RecordClose); StatsFrom
    recomputes them from the number of open positions and the realized PnLs of the closed
    history, and the lemmas show the two always agree. */
module StatsAggregator {
  import opened TradingInterface

  /** All counters start at zero. */
  const INITIAL_STATS := TradingStats(0, 0, 0, 0, 0, 0.0, 0.0, 0.0, 0.0, 0.0)

  /** Sum of the realized PnLs, oldest first. */
  function Sum(pnls: seq<real>): real {
    if pnls == [] then 0.0 else Sum(pnls[..|pnls| - 1]) + pnls[|pnls| - 1]
  }

  /** Number of winning trades: realized PnL strictly positive. */
  function Wins(pnls: seq<real>): nat {
    if pnls == [] then 0 else Wins(pnls[..|pnls| - 1]) + (if pnls[|pnls| - 1] > 0.0 then 1 else 0)
  }

  /** Number of losing trades: realized PnL zero or negative. */
  function Losses(pnls: seq<real>): nat {
    if pnls == [] then 0 else Losses(pnls[..|pnls| - 1]) + (if pnls[|pnls| - 1] <= 0.0 then 1 else 0)
  }

  /** Best win, kept as a running maximum that starts at 0 and only sees winning trades. */
  function MaxWin(pnls: seq<real>): real {
    if pnls == [] then 0.0
    else
      var last := pnls[|pnls| - 1];
      var before := MaxWin(pnls[..|pnls| - 1]);
      if last > 0.0 && last > before then last else before
  }

  /** Worst loss, kept as a running minimum that starts at 0 and only sees losing trades. */
  function MaxLoss(pnls: seq<real>): real {
    if pnls == [] then 0.0
    else
      var last := pnls[|pnls| - 1];
      var before := MaxLoss(pnls[..|pnls| - 1]);
      if !(last > 0.0) && last < before then last else before
  }

  /** Statistics recomputed from scratch: openCount open positions and the realized PnLs of
      the closed history. Win rate and average PnL are 0 while nothing has closed. */
  function StatsFrom(openCount: nat, pnls: seq<real>): TradingStats {
    var closed := |pnls|;
    TradingStats(
      totalTrades := openCount + closed,
      openTrades := openCount,
      closedTrades := closed,
      winTrades := Wins(pnls),
      lossTrades := Losses(pnls),
      winRate := if closed > 0 then Wins(pnls) as real / closed as real * 100.0 else 0.0,
      totalPnl := Sum(pnls),
      averagePnl := if closed > 0 then Sum(pnls) / closed as real else 0.0,
      maxWin := MaxWin(pnls),
      maxLoss := MaxLoss(pnls))
  }

  /** Incremental update on open: one more trade, one more open trade. */
  function RecordOpen(s: TradingStats): TradingStats {
    s.(totalTrades := s.totalTrades + 1, openTrades := s.openTrades + 1)
  }

  /** Incremental update on close with realized PnL pnl: zero counts as a loss; win rate and
      average are recomputed from the updated counters (guarded against an empty history). */
  function RecordClose(s: TradingStats, pnl: real): TradingStats {
    var closed := s.closedTrades + 1;
    var wins := if pnl > 0.0 then s.winTrades + 1 else s.winTrades;
    var losses := if pnl > 0.0 then s.lossTrades else s.lossTrades + 1;
    var maxWin := if pnl > 0.0 && pnl > s.maxWin then pnl else s.maxWin;
    var maxLoss := if !(pnl > 0.0) && pnl < s.maxLoss then pnl else s.maxLoss;
    var total := s.totalPnl + pnl;
    s.(openTrades := s.openTrades - 1,
       closedTrades := closed,
       winTrades := wins,
       lossTrades := losses,
       maxWin := maxWin,
       maxLoss := maxLoss,
       totalPnl := total,
       winRate := if closed > 0 then wins as real / closed as real * 100.0 else 0.0,
       averagePnl := if closed > 0 then total / closed as real else 0.0)
  }

  /** The initial counters are the statistics of an empty book. */
  lemma InitialStatsEmpty()
    ensures StatsFrom(0, []) == INITIAL_STATS
  {
  }

  /** Opening a position keeps the incremental statistics equal to the recomputed ones. */
  lemma RecordOpenMatchesHistory(openCount: nat, pnls: seq<real>)
    ensures RecordOpen(StatsFrom(openCount, pnls)) == StatsFrom(openCount + 1, pnls)
  {
  }

  /** Closing one of openCount open positions with realized PnL pnl and appending it to the
      history keeps the incremental statistics equal to the recomputed ones. */
  lemma RecordCloseMatchesHistory(openCount: nat, pnls: seq<real>, pnl: real)
    requires openCount >= 1
    ensures RecordClose(StatsFrom(openCount, pnls), pnl) == StatsFrom(openCount - 1, pnls + [pnl])
  {
    var after := pnls + [pnl];
    assert after[..|after| - 1] == pnls;
    assert after[|after| - 1] == pnl;
  }

  /** Every closed trade is counted exactly once, as a win or as a loss. */
  lemma {:induction false} WinsPlusLosses(pnls: seq<real>)
    ensures Wins(pnls) + Losses(pnls) == |pnls|
  {
    if pnls != [] {
      WinsPlusLosses(pnls[..|pnls| - 1]);
    }
  }

  /** MaxWin is the largest of 0 and all realized PnLs. */
  lemma {:induction false} MaxWinIsMaximum(pnls: seq<real>)
    ensures MaxWin(pnls) >= 0.0
    ensures forall i :: 0 <= i < |pnls| ==> pnls[i] <= MaxWin(pnls)
    ensures MaxWin(pnls) == 0.0 || MaxWin(pnls) in pnls
  {
    if pnls != [] {
      var init := pnls[..|pnls| - 1];
      MaxWinIsMaximum(init);
      forall i | 0 <= i < |pnls| - 1
        ensures pnls[i] <= MaxWin(pnls)
      {
        assert pnls[i] == init[i];
      }
      if MaxWin(init) != 0.0 && MaxWin(pnls) == MaxWin(init) {
        var k :| 0 <= k < |init| && init[k] == MaxWin(init);
        assert pnls[k] == init[k];
      }
    }
  }

  /** MaxLoss is the smallest of 0 and all realized PnLs. */
  lemma {:induction false} MaxLossIsMinimum(pnls: seq<real>)
    ensures MaxLoss(pnls) <= 0.0
    ensures forall i :: 0 <= i < |pnls| ==> MaxLoss(pnls) <= pnls[i]
    ensures MaxLoss(pnls) == 0.0 || MaxLoss(pnls) in pnls
  {
    if pnls != [] {
      var init := pnls[..|pnls| - 1];
      MaxLossIsMinimum(init);
      forall i | 0 <= i < |pnls| - 1
        ensures MaxLoss(pnls) <= pnls[i]
      {
        assert pnls[i] == init[i];
      }
      if MaxLoss(init) != 0.0 && MaxLoss(pnls) == MaxLoss(init) {
        var k :| 0 <= k < |init| && init[k] == MaxLoss(init);
        assert pnls[k] == init[k];
      }
    }
  }

  /** Wins never exceed the number of closed trades. */
  lemma {:induction false} WinsBounded(pnls: seq<real>)
    ensures Wins(pnls) <= |pnls|
  {
    if pnls != [] {
      WinsBounded(pnls[..|pnls| - 1]);
    }
  }

  /** The invariants of the recomputed statistics: total = open + closed, wins + losses =
      closed, the win rate is a percentage, the average times the count is the total, the best
      win is non-negative and the worst loss non-positive. */
  lemma StatsInvariants(openCount: nat, pnls: seq<real>)
    ensures var s := StatsFrom(openCount, pnls);
            && s.totalTrades == s.openTrades + s.closedTrades
            && s.winTrades + s.lossTrades == s.closedTrades
            && 0.0 <= s.winRate <= 100.0
            && s.averagePnl * s.closedTrades as real == s.totalPnl
            && s.maxWin >= 0.0 && s.maxLoss <= 0.0
  {
    WinsPlusLosses(pnls);
    WinsBounded(pnls);
    MaxWinIsMaximum(pnls);
    MaxLossIsMinimum(pnls);
    if |pnls| > 0 {
      Percentage(Wins(pnls) as real, |pnls| as real);
      AverageTimesCount(Sum(pnls), |pnls| as real);
    }
  }

  /** A part w of a whole n, as a percentage, lies between 0 and 100. */
  lemma Percentage(w: real, n: real)
    requires 0.0 <= w <= n && n > 0.0
    ensures 0.0 <= w / n * 100.0 <= 100.0
  {
    var q := w / n;
    assert q * n == w;
    assert q <= 1.0;
  }

  lemma AverageTimesCount(total: real, n: real)
    requires n > 0.0
    ensures total / n * n == total
  {
  }

  /** One close moves exactly one counter from open to closed, raises exactly one of wins and
      losses (zero PnL is a loss), adds the PnL to the total, and never lowers the best win nor
      raises the worst loss. */
  lemma RecordCloseEffect(s: TradingStats, pnl: real)
    ensures var t := RecordClose(s, pnl);
            && t.totalTrades == s.totalTrades
            && t.openTrades == s.openTrades - 1 && t.closedTrades == s.closedTrades + 1
            && (pnl > 0.0 ==> t.winTrades == s.winTrades + 1 && t.lossTrades == s.lossTrades)
            && (pnl <= 0.0 ==> t.lossTrades == s.lossTrades + 1 && t.winTrades == s.winTrades)
            && t.totalPnl == s.totalPnl + pnl
            && t.maxWin >= s.maxWin && t.maxLoss <= s.maxLoss
  {
  }

  /** Three wins and two losses give a 60% win rate and an average equal to the total over 5. */
  lemma WinRateExample()
    ensures var s := StatsFrom(0, [2.0, 1.5, 3.0, -2.0, -1.0]);
            s.winRate == 60.0 && s.closedTrades == 5 && s.totalPnl == 3.5 && s.averagePnl == 0.7
  {
    var p := [2.0, 1.5, 3.0, -2.0, -1.0];
    var p4, p3, p2, p1 := [2.0, 1.5, 3.0, -2.0], [2.0, 1.5, 3.0], [2.0, 1.5], [2.0];
    assert p[..4] == p4 && p4[..3] == p3 && p3[..2] == p2 && p2[..1] == p1 && p1[..0] == [];
    assert Wins(p1) == 1 && Sum(p1) == 2.0;
    assert Wins(p2) == 2 && Sum(p2) == 3.5;
    assert Wins(p3) == 3 && Sum(p3) == 6.5;
    assert Wins(p4) == 3 && Sum(p4) == 4.5;
    assert Wins(p) == 3 && Sum(p) == 3.5;
  }
}
