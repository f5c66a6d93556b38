/** Record types of the trading core: configuration, signals, positions and statistics.
    Prices and percentages are exact reals; every percentage is relative to the entry price. */
module TradingInterface {

  datatype Option<T> = None | Some(value: T)

  /** Side of a trade. */
  datatype Direction = Long | Short

  /** Lifecycle of a position: Open is the only initial state, both closed states are terminal. */
  datatype Status = Open | ClosedTP | ClosedSL

  /** Which edge of a sideways range the price returned to before the pattern fired. */
  datatype Orientation = LowToHighToLow | HighToLowToHigh

  datatype SidewaysPattern = SidewaysPattern(
    symbol: string,
    orientation: Orientation,
    startPrice: real,
    middlePrice: real)

  /** Confirmation flags attached to every signal and copied onto the position it opens. */
  datatype Confirmation = Confirmation(btcTrend: bool, volumeProfile: bool, overall: bool)

  /** The facts the human-readable trigger reason reports: the range's start, turning and current
      price, and each filter's outcome (None: the order-book oracle failed). */
  datatype SignalReason = SignalReason(
    orientation: Orientation,
    startPrice: real,
    middlePrice: real,
    currentPrice: real,
    btcTrend: bool,
    orderBook: Option<bool>)

  datatype CloseReason = TakeProfitReached | StopLossTriggered | TrendReversal(from: Direction, to: Direction)

  datatype TradingSignal = TradingSignal(
    symbol: string,
    direction: Direction,
    entryPrice: real,
    timestamp: int,
    reason: SignalReason,
    takeProfitPrice: real,
    stopLossPrice: real,
    sidewaysPattern: SidewaysPattern,
    confirmation: Confirmation)

  datatype TradingPosition = TradingPosition(
    id: nat,
    symbol: string,
    direction: Direction,
    entryPrice: real,
    entryTime: int,
    currentPrice: real,
    takeProfitPrice: real,
    stopLossPrice: real,
    status: Status,
    closedPrice: Option<real>,
    closedTime: Option<int>,
    unrealizedPnl: real,
    realizedPnl: Option<real>,
    triggerReason: SignalReason,
    closeReason: Option<CloseReason>,
    confirmation: Confirmation)

  datatype TradingStats = TradingStats(
    totalTrades: int,
    openTrades: int,
    closedTrades: int,
    winTrades: int,
    lossTrades: int,
    winRate: real,
    totalPnl: real,
    averagePnl: real,
    maxWin: real,
    maxLoss: real)

  datatype TradingConfig = TradingConfig(
    enabled: bool,
    takeProfitPercent: real,
    stopLossPercent: real,
    maxPositionsPerSymbol: int,
    maxTotalPositions: int)

  /** The values used when the configuration leaves a key unset. */
  const DEFAULT_CONFIG := TradingConfig(true, 2.0, 2.0, 1, 10)

  /** An open position: none of the optional closing fields is present. */
  predicate IsOpenRecord(p: TradingPosition) {
    && p.status == Open
    && p.closedPrice.None?
    && p.closedTime.None?
    && p.realizedPnl.None?
    && p.closeReason.None?
  }

  /** A closed position: a terminal status and every closing field present. */
  predicate IsClosedRecord(p: TradingPosition) {
    && p.status != Open
    && p.closedPrice.Some?
    && p.closedTime.Some?
    && p.realizedPnl.Some?
    && p.closeReason.Some?
  }

  /** The realized PnL of a closed position (0 for one that has none). */
  function RealizedOf(p: TradingPosition): real {
    match p.realizedPnl
    case Some(r) => r
    case None => 0.0
  }
}
