/** The position book: the open positions in insertion order (the service's id-keyed map, whose
    iteration order is insertion order), the append-only closed history and the statistics.
    Per-position transitions, book transitions and the invariant they preserve. */
module PositionBook {
  import opened TradingInterface
  import opened TradingRules
  import opened StatsAggregator

  datatype Book = Book(
    open: seq<TradingPosition>,
    closed: seq<TradingPosition>,
    stats: TradingStats,
    nextId: nat)

  /** The book of a freshly constructed service. */
  const EMPTY_BOOK := Book([], [], INITIAL_STATS, 0)

  // ----- Queries over the open positions -----

  predicate DistinctIds(s: seq<TradingPosition>) {
    forall i, j :: 0 <= i < j < |s| ==> s[i].id != s[j].id
  }

  predicate HasId(s: seq<TradingPosition>, id: nat) {
    exists i :: 0 <= i < |s| && s[i].id == id
  }

  /** The entry with id x comes before the entry with id y in s. */
  predicate Precedes(s: seq<TradingPosition>, x: nat, y: nat) {
    exists i, j :: 0 <= i < j < |s| && s[i].id == x && s[j].id == y
  }

  /** Every pair of entries of r appears in the same order in s: r keeps s's insertion order. */
  predicate OrderKept(s: seq<TradingPosition>, r: seq<TradingPosition>) {
    forall i, j :: 0 <= i < j < |r| ==> Precedes(s, r[i].id, r[j].id)
  }

  /** The positions of one symbol, in book order. */
  function ForSymbol(s: seq<TradingPosition>, symbol: string): (r: seq<TradingPosition>)
    ensures forall p :: p in r <==> p in s && p.symbol == symbol
    ensures |r| <= |s|
  {
    if s == [] then []
    else
      var rest := ForSymbol(s[1..], symbol);
      assert forall p :: p in s[1..] ==> p in s;
      if s[0].symbol == symbol then [s[0]] + rest else rest
  }

  /** The positions of one symbol whose status is still Open, in book order. */
  function ActiveForSymbol(s: seq<TradingPosition>, symbol: string): (r: seq<TradingPosition>)
    ensures forall p :: p in r <==> p in s && p.symbol == symbol && p.status == Open
  {
    if s == [] then []
    else
      var rest := ActiveForSymbol(s[1..], symbol);
      assert forall p :: p in s[1..] ==> p in s;
      if s[0].symbol == symbol && s[0].status == Open then [s[0]] + rest else rest
  }

  /** The number of entries of s that have the symbol: how many entries ForSymbol keeps. */
  function CountForSymbol(s: seq<TradingPosition>, symbol: string): nat {
    |set i | 0 <= i < |s| && s[i].symbol == symbol|
  }

  /** Filtering distributes over concatenation: the positions of the symbol in an earlier part
      of the book come before those of a later part, so the result keeps book order. */
  lemma {:induction false} ForSymbolAppend(a: seq<TradingPosition>, b: seq<TradingPosition>, symbol: string)
    ensures ForSymbol(a + b, symbol) == ForSymbol(a, symbol) + ForSymbol(b, symbol)
    ensures ForSymbol([], symbol) == []
    ensures forall p :: ForSymbol([p], symbol) == if p.symbol == symbol then [p] else []
  {
    assert forall p: TradingPosition :: [p][1..] == [];
    if a != [] {
      assert (a + b)[1..] == a[1..] + b;
      ForSymbolAppend(a[1..], b, symbol);
    } else {
      assert a + b == b;
    }
  }

  /** The filter keeps exactly one entry per index holding the symbol. */
  lemma {:induction false} ForSymbolCount(s: seq<TradingPosition>, symbol: string)
    ensures |ForSymbol(s, symbol)| == CountForSymbol(s, symbol)
  {
    if s != [] {
      var n := |s| - 1;
      assert s == s[..n] + [s[n]];
      ForSymbolAppend(s[..n], [s[n]], symbol);
      ForSymbolCount(s[..n], symbol);
      CountForSymbolSnoc(s, symbol);
    }
  }

  /** Counting the symbol one more entry at the end. */
  lemma CountForSymbolSnoc(s: seq<TradingPosition>, symbol: string)
    requires s != []
    ensures CountForSymbol(s, symbol)
            == CountForSymbol(s[..|s| - 1], symbol) + (if s[|s| - 1].symbol == symbol then 1 else 0)
  {
    var n := |s| - 1;
    var init := s[..n];
    var before := set i | 0 <= i < |init| && init[i].symbol == symbol;
    var after := set i | 0 <= i < |s| && s[i].symbol == symbol;
    var last: set<int> := if s[n].symbol == symbol then {n} else {};
    forall i | 0 <= i < n
      ensures init[i] == s[i]
    {
    }
    assert after == before + last;
    assert before !! last;
  }

  /** The first open position of a symbol, if any. */
  function FirstForSymbol(s: seq<TradingPosition>, symbol: string): (r: Option<TradingPosition>)
    ensures r.Some? ==> r.value in s && r.value.symbol == symbol
    ensures r.None? <==> forall p :: p in s ==> p.symbol != symbol
  {
    var matches := ForSymbol(s, symbol);
    if |matches| > 0 then Some(matches[0]) else None
  }

  /** The per-symbol limit: fewer than maxPositionsPerSymbol open positions of the symbol.
      The total-positions limit of the configuration is not consulted. */
  predicate CanOpen(config: TradingConfig, s: seq<TradingPosition>, symbol: string) {
    |ForSymbol(s, symbol)| < config.maxPositionsPerSymbol
  }

  // ----- Updates of the open sequence (the map's set and delete) -----

  /** Overwrite the position with u's id by u. */
  function Replace(s: seq<TradingPosition>, u: TradingPosition): (r: seq<TradingPosition>)
    ensures |r| == |s|
    ensures forall i :: 0 <= i < |s| ==> r[i].id == s[i].id
    ensures forall p :: p in r ==> p == u || p in s
    ensures forall p :: p in s && p.id != u.id ==> p in r
    ensures HasId(s, u.id) ==> u in r
    ensures forall p :: p in r && p.id == u.id ==> p == u
  {
    seq(|s|, i requires 0 <= i < |s| => if s[i].id == u.id then u else s[i])
  }

  /** Delete every position with the given id. */
  function RemoveId(s: seq<TradingPosition>, id: nat): (r: seq<TradingPosition>)
    ensures forall p :: p in r <==> p in s && p.id != id
  {
    if s == [] then []
    else
      var rest := RemoveId(s[1..], id);
      assert forall p :: p in s[1..] ==> p in s;
      if s[0].id == id then rest else [s[0]] + rest
  }

  /** Putting the head of a distinct-id sequence in front of entries drawn from its tail
      keeps ids distinct. */
  lemma ConsDistinct(s: seq<TradingPosition>, rest: seq<TradingPosition>)
    requires s != [] && DistinctIds(s) && DistinctIds(rest)
    requires forall p :: p in rest ==> p in s[1..]
    ensures DistinctIds([s[0]] + rest)
  {
    forall k | 0 <= k < |rest|
      ensures rest[k].id != s[0].id
    {
      assert rest[k] in rest;
      var j :| 0 <= j < |s[1..]| && s[1..][j] == rest[k];
      assert s[j + 1] == rest[k];
    }
    forall i, j | 0 <= i < j < |[s[0]] + rest|
      ensures ([s[0]] + rest)[i].id != ([s[0]] + rest)[j].id
    {
      if i > 0 {
        assert ([s[0]] + rest)[i] == rest[i - 1];
      }
    }
  }

  /** Deleting keeps ids distinct. */
  lemma {:induction false} RemoveIdDistinct(s: seq<TradingPosition>, id: nat)
    requires DistinctIds(s)
    ensures DistinctIds(RemoveId(s, id))
  {
    if s != [] {
      assert forall i :: 0 <= i < |s| - 1 ==> s[1..][i] == s[i + 1];
      RemoveIdDistinct(s[1..], id);
      if s[0].id != id {
        ConsDistinct(s, RemoveId(s[1..], id));
      }
    }
  }

  /** The tick snapshot of a distinct-id sequence has distinct ids. */
  lemma {:induction false} ActiveForSymbolDistinct(s: seq<TradingPosition>, symbol: string)
    requires DistinctIds(s)
    ensures DistinctIds(ActiveForSymbol(s, symbol))
  {
    if s != [] {
      assert forall i :: 0 <= i < |s| - 1 ==> s[1..][i] == s[i + 1];
      ActiveForSymbolDistinct(s[1..], symbol);
      if s[0].symbol == symbol && s[0].status == Open {
        ConsDistinct(s, ActiveForSymbol(s[1..], symbol));
      }
    }
  }

  /** Deleting an id of a distinct-id sequence that holds it removes exactly one entry;
      deleting an id it does not hold changes nothing. */
  lemma {:induction false} RemoveIdLength(s: seq<TradingPosition>, id: nat)
    requires DistinctIds(s)
    ensures HasId(s, id) ==> |RemoveId(s, id)| == |s| - 1
    ensures !HasId(s, id) ==> RemoveId(s, id) == s
  {
    if s != [] {
      assert forall i :: 0 <= i < |s| - 1 ==> s[1..][i] == s[i + 1];
      assert DistinctIds(s[1..]);
      RemoveIdLength(s[1..], id);
      if s[0].id == id {
        assert !HasId(s[1..], id);
      }
    }
  }

  /** Deleting the id at index k of a distinct-id sequence removes exactly that entry and
      keeps all others in their insertion order. */
  lemma {:induction false} RemoveIdSplit(s: seq<TradingPosition>, k: nat)
    requires DistinctIds(s) && k < |s|
    ensures RemoveId(s, s[k].id) == s[..k] + s[k + 1..]
  {
    TailDistinct(s);
    if k == 0 {
      RemoveIdLength(s[1..], s[0].id);
      assert s[..0] + s[1..] == s[1..];
    } else {
      assert s[1..][k - 1] == s[k];
      RemoveIdSplit(s[1..], k - 1);
      RemoveIdSplitCons(s, k);
    }
  }

  /** Deleting an id that a distinct-id sequence holds removes the one entry carrying it and
      keeps the others in order. */
  lemma RemoveIdAt(s: seq<TradingPosition>, id: nat)
    requires DistinctIds(s) && HasId(s, id)
    ensures exists k :: 0 <= k < |s| && s[k].id == id && RemoveId(s, id) == s[..k] + s[k + 1..]
  {
    var k :| 0 <= k < |s| && s[k].id == id;
    RemoveIdSplit(s, k);
  }

  /** One step of RemoveIdSplit: an entry at index k > 0 keeps the head in front. */
  lemma RemoveIdSplitCons(s: seq<TradingPosition>, k: nat)
    requires 0 < k < |s| && s[0].id != s[k].id
    requires RemoveId(s[1..], s[k].id) == s[1..][..k - 1] + s[1..][k..]
    ensures RemoveId(s, s[k].id) == s[..k] + s[k + 1..]
  {
    RemoveIdKeepsHead(s, s[k].id);
    DropAtCons(s, k);
  }

  /** Deleting an id the head does not carry keeps the head in front. */
  lemma RemoveIdKeepsHead(s: seq<TradingPosition>, id: nat)
    requires s != [] && s[0].id != id
    ensures RemoveId(s, id) == [s[0]] + RemoveId(s[1..], id)
  {
  }

  /** Dropping index k > 0 of s is the head followed by dropping index k - 1 of the tail. */
  lemma DropAtCons<T>(s: seq<T>, k: nat)
    requires 0 < k < |s|
    ensures s[..k] + s[k + 1..] == [s[0]] + (s[1..][..k - 1] + s[1..][k..])
  {
    assert s[..k] == [s[0]] + s[1..][..k - 1];
    assert s[k + 1..] == s[1..][k..];
  }

  /** The tail of a distinct-id sequence has distinct ids, none of them the head's. */
  lemma TailDistinct(s: seq<TradingPosition>)
    requires DistinctIds(s) && s != []
    ensures DistinctIds(s[1..]) && !HasId(s[1..], s[0].id)
  {
    assert forall i :: 0 <= i < |s| - 1 ==> s[1..][i] == s[i + 1];
  }

  // ----- Per-position transitions -----

  /** The position opened by a signal: Open, no closing fields, zero PnL, priced at entry. */
  function NewPosition(signal: TradingSignal, id: nat): TradingPosition {
    TradingPosition(
      id := id,
      symbol := signal.symbol,
      direction := signal.direction,
      entryPrice := signal.entryPrice,
      entryTime := signal.timestamp,
      currentPrice := signal.entryPrice,
      takeProfitPrice := signal.takeProfitPrice,
      stopLossPrice := signal.stopLossPrice,
      status := Open,
      closedPrice := None,
      closedTime := None,
      unrealizedPnl := 0.0,
      realizedPnl := None,
      triggerReason := signal.reason,
      closeReason := None,
      confirmation := signal.confirmation)
  }

  /** A tick at price: new current price, recomputed PnL, and the status the thresholds give. */
  function Ticked(p: TradingPosition, price: real): TradingPosition
    requires p.entryPrice > 0.0
  {
    p.(currentPrice := price,
       unrealizedPnl := PnlPercent(p.direction, p.entryPrice, price),
       status := StatusAfterTick(p.direction, price, p.takeProfitPrice, p.stopLossPrice))
  }

  /** Threshold close: fill the closing fields; the realized PnL is the last unrealized PnL. */
  function Closed(p: TradingPosition, price: real, now: int, reason: CloseReason): TradingPosition {
    p.(closedPrice := Some(price),
       closedTime := Some(now),
       closeReason := Some(reason),
       realizedPnl := Some(p.unrealizedPnl))
  }

  /** Reversal close: status ClosedSL whatever the PnL's sign, and the PnL recomputed from the
      entry and close prices. */
  function ReversalClosed(p: TradingPosition, price: real, now: int, reason: CloseReason): TradingPosition
    requires p.entryPrice > 0.0
  {
    var pnl := PnlPercent(p.direction, p.entryPrice, price);
    p.(closedPrice := Some(price),
       closedTime := Some(now),
       closeReason := Some(reason),
       status := ClosedSL,
       realizedPnl := Some(pnl),
       unrealizedPnl := pnl)
  }

  // ----- Book transitions -----

  /** openPosition: append the new position under the next id and count one more open trade. */
  function Opened(b: Book, signal: TradingSignal): Book {
    Book(b.open + [NewPosition(signal, b.nextId)], b.closed, RecordOpen(b.stats), b.nextId + 1)
  }

  /** The shared tail of both close paths: statistics, append to history, delete from open. */
  function Archived(b: Book, c: TradingPosition): Book {
    Book(RemoveId(b.open, c.id), b.closed + [c], RecordClose(b.stats, RealizedOf(c)), b.nextId)
  }

  /** updatePosition on one open position. */
  function TickOne(b: Book, p: TradingPosition, price: real, now: int): Book
    requires p.entryPrice > 0.0
  {
    var u := Ticked(p, price);
    if u.status == Open then b.(open := Replace(b.open, u))
    else Archived(b, Closed(u, price, now, CloseReasonFor(u.status)))
  }

  /** updatePositions over a snapshot, in snapshot order; a snapshot entry no longer open is
      skipped (in the service every entry is still open when its turn comes). */
  function TickAll(b: Book, snapshot: seq<TradingPosition>, price: real, now: int): Book
    requires forall p :: p in snapshot ==> p.entryPrice > 0.0
  {
    if snapshot == [] then b
    else
      var last := snapshot[|snapshot| - 1];
      var before := TickAll(b, snapshot[..|snapshot| - 1], price, now);
      if last in before.open then TickOne(before, last, price, now) else before
  }

  // ----- The book invariant -----

  /** Ids are unique and below the next id; open entries are open records with a positive
      entry price; closed entries are closed records; the statistics equal those recomputed
      from the open count and the history. */
  predicate BookValid(b: Book) {
    && DistinctIds(b.open)
    && (forall p :: p in b.open ==> IsOpenRecord(p) && p.entryPrice > 0.0 && p.id < b.nextId)
    && (forall c :: c in b.closed ==> IsClosedRecord(c))
    && b.stats == StatsFrom(|b.open|, RealizedPnls(b.closed))
  }

  /** The realized PnLs of a history, oldest first. */
  function RealizedPnls(h: seq<TradingPosition>): (r: seq<real>)
    ensures |r| == |h|
  {
    seq(|h|, i requires 0 <= i < |h| => RealizedOf(h[i]))
  }

  lemma RealizedPnlsAppend(h: seq<TradingPosition>, c: TradingPosition)
    ensures RealizedPnls(h + [c]) == RealizedPnls(h) + [RealizedOf(c)]
  {
    assert forall i :: 0 <= i < |h| ==> (h + [c])[i] == h[i];
  }

  // ----- Lemmas -----

  lemma EmptyBookValid()
    ensures BookValid(EMPTY_BOOK)
  {
    InitialStatsEmpty();
  }

  /** The statistics of a valid book: total = open + closed, open = number of open positions,
      closed = length of the history, wins + losses = closed, total PnL = sum of realized PnLs. */
  lemma ValidBookStats(b: Book)
    requires BookValid(b)
    ensures b.stats.totalTrades == b.stats.openTrades + b.stats.closedTrades
    ensures b.stats.openTrades == |b.open| && b.stats.closedTrades == |b.closed|
    ensures b.stats.winTrades + b.stats.lossTrades == b.stats.closedTrades
    ensures b.stats.totalPnl == Sum(RealizedPnls(b.closed))
    ensures 0.0 <= b.stats.winRate <= 100.0
    ensures b.stats.maxWin >= 0.0 && b.stats.maxLoss <= 0.0
  {
    StatsInvariants(|b.open|, RealizedPnls(b.closed));
  }

  /** A new position is an open record priced at its entry, with zero PnL and the signal's
      levels and metadata. */
  lemma NewPositionIsOpen(signal: TradingSignal, id: nat)
    ensures var p := NewPosition(signal, id);
            && IsOpenRecord(p) && p.unrealizedPnl == 0.0 && p.currentPrice == p.entryPrice
            && p.takeProfitPrice == signal.takeProfitPrice && p.stopLossPrice == signal.stopLossPrice
            && p.confirmation == signal.confirmation
  {
  }

  /** Opening keeps the book valid, adds exactly the new position under a fresh id, leaves the
      history alone, and raises total and open trades by one and nothing else. */
  lemma OpenedValid(b: Book, signal: TradingSignal)
    requires BookValid(b) && signal.entryPrice > 0.0
    ensures var a := Opened(b, signal);
            && BookValid(a)
            && !HasId(b.open, b.nextId)
            && a.closed == b.closed
            && a.stats == RecordOpen(b.stats)
            && a.stats.totalTrades == b.stats.totalTrades + 1
            && a.stats.openTrades == b.stats.openTrades + 1
  {
    var a := Opened(b, signal);
    var p := NewPosition(signal, b.nextId);
    assert forall q :: q in a.open ==> q in b.open || q == p;
    forall i, j | 0 <= i < j < |a.open|
      ensures a.open[i].id != a.open[j].id
    {
      if j == |b.open| {
        assert a.open[i] in b.open;
      }
    }
    assert forall i :: 0 <= i < |b.open| ==> b.open[i] in b.open;
    RecordOpenMatchesHistory(|b.open|, RealizedPnls(b.closed));
  }

  /** Moving an open position's closed record to the history keeps the book valid, removes
      exactly that id from the open positions and appends the record to the history. */
  lemma ArchivedValid(b: Book, c: TradingPosition)
    requires BookValid(b) && HasId(b.open, c.id) && IsClosedRecord(c)
    ensures var a := Archived(b, c);
            && BookValid(a)
            && |a.open| == |b.open| - 1
            && !HasId(a.open, c.id)
            && (exists k :: 0 <= k < |b.open| && b.open[k].id == c.id && a.open == b.open[..k] + b.open[k + 1..])
            && a.closed == b.closed + [c]
  {
    var a := Archived(b, c);
    RemoveIdAt(b.open, c.id);
    RemoveIdDistinct(b.open, c.id);
    RemoveIdLength(b.open, c.id);
    RealizedPnlsAppend(b.closed, c);
    RecordCloseMatchesHistory(|b.open|, RealizedPnls(b.closed), RealizedOf(c));
    assert forall i :: 0 <= i < |a.open| ==> a.open[i] in a.open;
  }

  /** One tick keeps the book valid and keeps every other open position in place. */
  lemma TickOneValid(b: Book, p: TradingPosition, price: real, now: int)
    requires BookValid(b) && p in b.open
    ensures BookValid(TickOne(b, p, price, now))
    ensures forall q :: q in b.open && q.id != p.id ==> q in TickOne(b, p, price, now).open
    ensures b.closed <= TickOne(b, p, price, now).closed
  {
    var u := Ticked(p, price);
    var i :| 0 <= i < |b.open| && b.open[i] == p;
    assert HasId(b.open, p.id);
    if u.status == Open {
      var a := b.(open := Replace(b.open, u));
      forall j, k | 0 <= j < k < |a.open|
        ensures a.open[j].id != a.open[k].id
      {
        assert a.open[j].id == b.open[j].id && a.open[k].id == b.open[k].id;
      }
    } else {
      ArchivedValid(b, Closed(u, price, now, CloseReasonFor(u.status)));
    }
  }

  /** One more snapshot entry: TickAll over the first i + 1 entries ticks entry i on the book
      left by the first i (when that entry is still open). */
  lemma TickAllStep(b: Book, snapshot: seq<TradingPosition>, i: nat, price: real, now: int)
    requires forall p :: p in snapshot ==> p.entryPrice > 0.0
    requires i < |snapshot|
    ensures forall p :: p in snapshot[..i] ==> p.entryPrice > 0.0
    ensures forall p :: p in snapshot[..i + 1] ==> p.entryPrice > 0.0
    ensures var before := TickAll(b, snapshot[..i], price, now);
            TickAll(b, snapshot[..i + 1], price, now)
            == if snapshot[i] in before.open then TickOne(before, snapshot[i], price, now) else before
  {
    assert snapshot[..i + 1][..i] == snapshot[..i];
    assert forall p :: p in snapshot[..i + 1] ==> p in snapshot;
    assert forall p :: p in snapshot[..i] ==> p in snapshot;
  }

  /** A whole tick over a snapshot keeps the book valid and only appends to the history,
      each new entry a closed record of the ticked symbol. */
  lemma {:induction false} TickAllValid(b: Book, snapshot: seq<TradingPosition>, symbol: string, price: real, now: int)
    requires BookValid(b)
    requires forall p :: p in snapshot ==> p.entryPrice > 0.0 && p.symbol == symbol
    ensures var a := TickAll(b, snapshot, price, now);
            && BookValid(a)
            && b.closed <= a.closed
            && (forall k :: |b.closed| <= k < |a.closed| ==> a.closed[k].symbol == symbol)
  {
    if snapshot != [] {
      var last := snapshot[|snapshot| - 1];
      var init := snapshot[..|snapshot| - 1];
      assert forall p :: p in init ==> p in snapshot;
      var before := TickAll(b, init, price, now);
      TickAllValid(b, init, symbol, price, now);
      if last in before.open {
        var a := TickOne(before, last, price, now);
        assert TickAll(b, snapshot, price, now) == a;
        TickOneValid(before, last, price, now);
        TickOneEffect(before, last, price, now);
        assert |before.closed| <= |a.closed| <= |before.closed| + 1;
        assert before.closed <= a.closed;
        assert forall k :: |b.closed| <= k < |before.closed| ==> a.closed[k] == before.closed[k];
        assert |a.closed| == |before.closed| + 1 ==> a.closed[|before.closed|].symbol == last.symbol;
      }
    }
  }

  /** A tick over a snapshot of one symbol never touches an open position of another symbol. */
  lemma {:induction false} TickAllKeepsOtherSymbols(b: Book, snapshot: seq<TradingPosition>, symbol: string, price: real, now: int)
    requires BookValid(b)
    requires forall p :: p in snapshot ==> p.entryPrice > 0.0 && p.symbol == symbol
    ensures forall q :: q in b.open && q.symbol != symbol ==> q in TickAll(b, snapshot, price, now).open
  {
    if snapshot != [] {
      var last := snapshot[|snapshot| - 1];
      var init := snapshot[..|snapshot| - 1];
      assert forall p :: p in init ==> p in snapshot;
      var before := TickAll(b, init, price, now);
      TickAllValid(b, init, symbol, price, now);
      TickAllKeepsOtherSymbols(b, init, symbol, price, now);
      if last in before.open {
        TickOneValid(before, last, price, now);
      }
    }
  }

  /** The closed records a tick over a snapshot appends to the history, in snapshot order:
      one per entry that the tick closes. */
  function TickClosures(snapshot: seq<TradingPosition>, price: real, now: int): seq<TradingPosition>
    requires forall p :: p in snapshot ==> p.entryPrice > 0.0
  {
    if snapshot == [] then []
    else
      var last := snapshot[|snapshot| - 1];
      var init := snapshot[..|snapshot| - 1];
      assert forall p :: p in init ==> p in snapshot;
      var u := Ticked(last, price);
      TickClosures(init, price, now) + (if u.status == Open then [] else [Closed(u, price, now, CloseReasonFor(u.status))])
  }

  /** What one tick does: a position the thresholds leave open is written back with its new
      price and PnL, history and statistics untouched; a position they close leaves the open
      positions and its closed record is appended to the history and counted. No other id
      appears or disappears. */
  lemma TickOneEffect(b: Book, p: TradingPosition, price: real, now: int)
    requires BookValid(b) && p in b.open
    ensures var u := Ticked(p, price);
            var a := TickOne(b, p, price, now);
            && (u.status == Open ==>
                  u in a.open && |a.open| == |b.open| && a.closed == b.closed && a.stats == b.stats)
            && (u.status != Open ==>
                  && !HasId(a.open, p.id) && |a.open| == |b.open| - 1
                  && a.closed == b.closed + [Closed(u, price, now, CloseReasonFor(u.status))]
                  && a.stats == RecordClose(b.stats, u.unrealizedPnl))
            && (forall q :: q in a.open ==> (q in b.open && q.id != p.id) || q == u)
  {
    var u := Ticked(p, price);
    var i :| 0 <= i < |b.open| && b.open[i] == p;
    assert HasId(b.open, p.id);
    if u.status != Open {
      ArchivedValid(b, Closed(u, price, now, CloseReasonFor(u.status)));
    }
  }

  /** No id outside a position's own appears in a book after ticking that position. */
  lemma TickOneNoNewIds(b: Book, p: TradingPosition, price: real, now: int, id: nat)
    requires BookValid(b) && p in b.open && id != p.id && !HasId(b.open, id)
    ensures !HasId(TickOne(b, p, price, now).open, id)
  {
    var a := TickOne(b, p, price, now);
    TickOneEffect(b, p, price, now);
    forall k | 0 <= k < |a.open|
      ensures a.open[k].id != id
    {
      assert a.open[k] in a.open;
      if a.open[k] in b.open {
        var j :| 0 <= j < |b.open| && b.open[j] == a.open[k];
      }
    }
  }

  /** A tick over a snapshot of distinct open positions keeps the book valid, grows the history
      by exactly the closed records of the snapshot entries it closes, in snapshot order, and
      leaves every position outside the snapshot in place. */
  lemma {:induction false} TickAllEffect(b: Book, snapshot: seq<TradingPosition>, price: real, now: int)
    requires BookValid(b) && DistinctIds(snapshot)
    requires forall p :: p in snapshot ==> p in b.open
    ensures var a := TickAll(b, snapshot, price, now);
            && BookValid(a)
            && a.closed == b.closed + TickClosures(snapshot, price, now)
            && (forall q :: q in b.open && !HasId(snapshot, q.id) ==> q in a.open)
  {
    if snapshot != [] {
      var n := |snapshot| - 1;
      var last := snapshot[n];
      var init := snapshot[..n];
      SnocDistinct(snapshot);
      TickAllEffect(b, init, price, now);
      var before := TickAll(b, init, price, now);
      assert last in before.open;
      var a := TickOne(before, last, price, now);
      assert TickAll(b, snapshot, price, now) == a;
      var u := Ticked(last, price);
      assert TickClosures(snapshot, price, now)
             == TickClosures(init, price, now) + (if u.status == Open then [] else [Closed(u, price, now, CloseReasonFor(u.status))]);
      TickOneEffect(before, last, price, now);
      TickOneValid(before, last, price, now);
      OutsidersStay(b.open, snapshot, before.open, a.open, last.id);
    }
  }

  /** The inductive step of TickAllEffect on plain sequences: positions outside the snapshot
      that survived the earlier ticks survive a tick that keeps every id but the last entry's. */
  lemma OutsidersStay(open: seq<TradingPosition>, snapshot: seq<TradingPosition>, mid: seq<TradingPosition>,
                      after: seq<TradingPosition>, lastId: nat)
    requires snapshot != [] && snapshot[|snapshot| - 1].id == lastId
    requires forall q :: q in open && !HasId(snapshot[..|snapshot| - 1], q.id) ==> q in mid
    requires forall q :: q in mid && q.id != lastId ==> q in after
    ensures forall q :: q in open && !HasId(snapshot, q.id) ==> q in after
  {
    forall q | q in open && !HasId(snapshot, q.id)
      ensures q in after
    {
      NotInPrefix(snapshot, |snapshot| - 1, q.id);
    }
  }

  /** An id absent from a sequence is absent from each of its prefixes. */
  lemma NotInPrefix(s: seq<TradingPosition>, n: nat, id: nat)
    requires n <= |s| && !HasId(s, id)
    ensures !HasId(s[..n], id)
  {
    forall i | 0 <= i < n
      ensures s[..n][i].id != id
    {
      assert s[..n][i] == s[i];
    }
  }

  /** Dropping the last entry of a distinct-id sequence keeps ids distinct, and the dropped
      entry's id is not among the rest. */
  lemma SnocDistinct(s: seq<TradingPosition>)
    requires s != [] && DistinctIds(s)
    ensures DistinctIds(s[..|s| - 1]) && !HasId(s[..|s| - 1], s[|s| - 1].id)
    ensures forall p :: p in s[..|s| - 1] ==> p in s && p.id != s[|s| - 1].id
  {
    var init := s[..|s| - 1];
    assert forall i :: 0 <= i < |init| ==> init[i] == s[i];
    forall p | p in init
      ensures p.id != s[|s| - 1].id
    {
      var i :| 0 <= i < |init| && init[i] == p;
    }
  }

  /** A tick over a snapshot of distinct open positions ticks every entry: one the thresholds
      leave open is in the book with its new price and PnL, one they close is gone from the open
      positions. */
  lemma {:induction false} TickAllTicksEach(b: Book, snapshot: seq<TradingPosition>, price: real, now: int)
    requires BookValid(b) && DistinctIds(snapshot)
    requires forall p :: p in snapshot ==> p in b.open
    ensures var a := TickAll(b, snapshot, price, now);
            && (forall p :: p in snapshot && Ticked(p, price).status == Open ==> Ticked(p, price) in a.open)
            && (forall p :: p in snapshot && Ticked(p, price).status != Open ==> !HasId(a.open, p.id))
  {
    if snapshot != [] {
      var n := |snapshot| - 1;
      var last := snapshot[n];
      var init := snapshot[..n];
      SnocDistinct(snapshot);
      TickAllEffect(b, init, price, now);
      TickAllTicksEach(b, init, price, now);
      var before := TickAll(b, init, price, now);
      assert last in before.open;
      var a := TickOne(before, last, price, now);
      assert TickAll(b, snapshot, price, now) == a;
      TickOneEffect(before, last, price, now);
      TickOneValid(before, last, price, now);
      forall p | p in snapshot && Ticked(p, price).status == Open
        ensures Ticked(p, price) in a.open
      {
        if p != last {
          assert p in init;
        }
      }
      forall p | p in snapshot && Ticked(p, price).status != Open
        ensures !HasId(a.open, p.id)
      {
        if p != last {
          assert p in init;
          TickOneNoNewIds(before, last, price, now, p.id);
        }
      }
    }
  }

  /** Nothing else happens in a tick over a snapshot of distinct open positions: every open
      entry afterwards is an untouched position outside the snapshot or a ticked snapshot entry,
      the entries that remain keep their insertion order, each close moves exactly one position
      from the open ones to the history, and the total trade count does not change. */
  lemma TickAllFrame(b: Book, snapshot: seq<TradingPosition>, price: real, now: int)
    requires BookValid(b) && DistinctIds(snapshot)
    requires forall p :: p in snapshot ==> p in b.open
    ensures var a := TickAll(b, snapshot, price, now);
            && |a.open| + |a.closed| == |b.open| + |b.closed|
            && a.stats.totalTrades == b.stats.totalTrades
            && (forall q :: q in a.open ==>
                  (q in b.open && !HasId(snapshot, q.id)) || exists p :: p in snapshot && q == Ticked(p, price))
            && OrderKept(b.open, a.open)
  {
    TickAllEffect(b, snapshot, price, now);
    TickAllCount(b, snapshot, price, now);
    TickAllKeepsOrder(b, snapshot, price, now);
    TickAllNoStrangers(b, snapshot, price, now);
    ValidBookStats(b);
    ValidBookStats(TickAll(b, snapshot, price, now));
  }

  /** Each close in a tick moves one position from the open ones to the history. */
  lemma {:induction false} TickAllCount(b: Book, snapshot: seq<TradingPosition>, price: real, now: int)
    requires BookValid(b) && DistinctIds(snapshot)
    requires forall p :: p in snapshot ==> p in b.open
    ensures var a := TickAll(b, snapshot, price, now);
            |a.open| + |a.closed| == |b.open| + |b.closed|
  {
    if snapshot != [] {
      var n := |snapshot| - 1;
      var last := snapshot[n];
      var init := snapshot[..n];
      SnocDistinct(snapshot);
      TickAllEffect(b, init, price, now);
      TickAllCount(b, init, price, now);
      var before := TickAll(b, init, price, now);
      assert last in before.open;
      assert TickAll(b, snapshot, price, now) == TickOne(before, last, price, now);
      TickOneEffect(before, last, price, now);
    }
  }

  /** After a tick every open entry is an untouched position outside the snapshot or a ticked
      snapshot entry. */
  lemma {:induction false} TickAllNoStrangers(b: Book, snapshot: seq<TradingPosition>, price: real, now: int)
    requires BookValid(b) && DistinctIds(snapshot)
    requires forall p :: p in snapshot ==> p in b.open
    ensures forall q :: q in TickAll(b, snapshot, price, now).open ==>
              (q in b.open && !HasId(snapshot, q.id)) || exists p :: p in snapshot && q == Ticked(p, price)
  {
    if snapshot != [] {
      var a := TickAll(b, snapshot, price, now);
      var n := |snapshot| - 1;
      var last := snapshot[n];
      var init := snapshot[..n];
      SnocDistinct(snapshot);
      TickAllEffect(b, init, price, now);
      TickAllNoStrangers(b, init, price, now);
      var before := TickAll(b, init, price, now);
      assert last in before.open;
      assert a == TickOne(before, last, price, now);
      TickOneEffect(before, last, price, now);
      NoStrangersSnoc(b.open, snapshot, before.open, a.open, price);
    }
  }

  /** The inductive step of TickAllNoStrangers on plain sequences: if the last tick only wrote
      back `last` or removed it, the snapshot's claim extends from init to init + [last]. */
  lemma NoStrangersSnoc(open: seq<TradingPosition>, snapshot: seq<TradingPosition>,
                        mid: seq<TradingPosition>, after: seq<TradingPosition>, price: real)
    requires snapshot != [] && forall p :: p in snapshot ==> p.entryPrice > 0.0
    requires forall q :: q in mid ==>
               (q in open && !HasId(snapshot[..|snapshot| - 1], q.id))
               || exists p :: p in snapshot[..|snapshot| - 1] && q == Ticked(p, price)
    requires forall q :: q in after ==>
               (q in mid && q.id != snapshot[|snapshot| - 1].id) || q == Ticked(snapshot[|snapshot| - 1], price)
    ensures forall q :: q in after ==>
              (q in open && !HasId(snapshot, q.id)) || exists p :: p in snapshot && q == Ticked(p, price)
  {
    var init, last := snapshot[..|snapshot| - 1], snapshot[|snapshot| - 1];
    forall q | q in after
      ensures (q in open && !HasId(snapshot, q.id)) || exists p :: p in snapshot && q == Ticked(p, price)
    {
      if q == Ticked(last, price) {
        assert last in snapshot;
      } else if q in open && !HasId(init, q.id) {
        forall i | 0 <= i < |snapshot|
          ensures snapshot[i].id != q.id
        {
          if i < |init| {
            assert init[i] == snapshot[i];
          }
        }
      } else {
        var p :| p in init && q == Ticked(p, price);
        var j :| 0 <= j < |init| && init[j] == p;
        assert snapshot[j] == p;
      }
    }
  }

  // ----- Insertion order across a tick -----

  /** The ids at two indexes of s, in index order, are in order. */
  lemma PrecedesAt(s: seq<TradingPosition>, i: nat, j: nat)
    requires i < j < |s|
    ensures Precedes(s, s[i].id, s[j].id)
  {
  }

  /** A sequence keeps its own order. */
  lemma OrderKeptRefl(s: seq<TradingPosition>)
    ensures OrderKept(s, s)
  {
    forall i, j | 0 <= i < j < |s|
      ensures Precedes(s, s[i].id, s[j].id)
    {
      PrecedesAt(s, i, j);
    }
  }

  /** Keeping order composes: r keeps the order of m, which keeps the order of s. */
  lemma OrderKeptTrans(s: seq<TradingPosition>, m: seq<TradingPosition>, r: seq<TradingPosition>)
    requires OrderKept(s, m) && OrderKept(m, r)
    ensures OrderKept(s, r)
  {
    forall i, j | 0 <= i < j < |r|
      ensures Precedes(s, r[i].id, r[j].id)
    {
      assert Precedes(m, r[i].id, r[j].id);
      var i', j' :| 0 <= i' < j' < |m| && m[i'].id == r[i].id && m[j'].id == r[j].id;
      assert Precedes(s, m[i'].id, m[j'].id);
    }
  }

  /** Dropping one entry keeps the order of the others. */
  lemma OrderKeptDrop(s: seq<TradingPosition>, k: nat)
    requires k < |s|
    ensures OrderKept(s, s[..k] + s[k + 1..])
  {
    var r := s[..k] + s[k + 1..];
    forall i, j | 0 <= i < j < |r|
      ensures Precedes(s, r[i].id, r[j].id)
    {
      var i' := if i < k then i else i + 1;
      var j' := if j < k then j else j + 1;
      assert r[i] == s[i'] && r[j] == s[j'];
      PrecedesAt(s, i', j');
    }
  }

  /** Writing back an entry with the same id keeps the order. */
  lemma OrderKeptReplace(s: seq<TradingPosition>, u: TradingPosition)
    ensures OrderKept(s, Replace(s, u))
  {
    var r := Replace(s, u);
    forall i, j | 0 <= i < j < |r|
      ensures Precedes(s, r[i].id, r[j].id)
    {
      PrecedesAt(s, i, j);
    }
  }

  /** updatePosition keeps the insertion order of the open positions that remain. */
  lemma TickOneKeepsOrder(b: Book, p: TradingPosition, price: real, now: int)
    requires BookValid(b) && p in b.open
    ensures OrderKept(b.open, TickOne(b, p, price, now).open)
  {
    var u := Ticked(p, price);
    if u.status == Open {
      OrderKeptReplace(b.open, u);
    } else {
      var c := Closed(u, price, now, CloseReasonFor(u.status));
      assert HasId(b.open, c.id) by {
        var i :| 0 <= i < |b.open| && b.open[i] == p;
      }
      ArchivedValid(b, c);
      var k :| 0 <= k < |b.open| && b.open[k].id == c.id && Archived(b, c).open == b.open[..k] + b.open[k + 1..];
      OrderKeptDrop(b.open, k);
    }
  }

  /** updatePositions over a snapshot keeps the insertion order of the open positions that
      remain: ticked write-backs stay where they were and closes only delete. */
  lemma {:induction false} TickAllKeepsOrder(b: Book, snapshot: seq<TradingPosition>, price: real, now: int)
    requires BookValid(b) && DistinctIds(snapshot)
    requires forall p :: p in snapshot ==> p in b.open
    ensures OrderKept(b.open, TickAll(b, snapshot, price, now).open)
  {
    if snapshot == [] {
      OrderKeptRefl(b.open);
    } else {
      var n := |snapshot| - 1;
      var last := snapshot[n];
      var init := snapshot[..n];
      SnocDistinct(snapshot);
      TickAllEffect(b, init, price, now);
      TickAllKeepsOrder(b, init, price, now);
      var before := TickAll(b, init, price, now);
      if last in before.open {
        TickOneKeepsOrder(before, last, price, now);
        OrderKeptTrans(b.open, before.open, TickOne(before, last, price, now).open);
      }
    }
  }

  /** updatePositions for one symbol in a valid book: every open position of the symbol is
      ticked exactly once, in book order (the history grows by the closures of the symbol's
      positions in book order), each one either written back with its new price and PnL or
      closed; positions of other symbols are untouched, nothing else enters the book, and the
      open positions that remain keep their insertion order. */
  lemma UpdateSymbolEffect(b: Book, symbol: string, price: real, now: int)
    requires BookValid(b)
    ensures forall p :: p in ForSymbol(b.open, symbol) ==> p.entryPrice > 0.0
    ensures ActiveForSymbol(b.open, symbol) == ForSymbol(b.open, symbol)
    ensures var a := TickAll(b, ForSymbol(b.open, symbol), price, now);
            && BookValid(a)
            && a.closed == b.closed + TickClosures(ForSymbol(b.open, symbol), price, now)
            && (forall p :: p in b.open && p.symbol == symbol && Ticked(p, price).status == Open ==> Ticked(p, price) in a.open)
            && (forall p :: p in b.open && p.symbol == symbol && Ticked(p, price).status != Open ==> !HasId(a.open, p.id))
            && (forall q :: q in b.open && q.symbol != symbol ==> q in a.open)
            && |a.open| + |a.closed| == |b.open| + |b.closed|
            && a.stats.totalTrades == b.stats.totalTrades
            && (forall q :: q in a.open ==>
                  (q in b.open && q.symbol != symbol) || exists p :: p in b.open && p.symbol == symbol && q == Ticked(p, price))
            && OrderKept(b.open, a.open)
  {
    ActiveIsForSymbol(b.open, symbol);
    UpdateSymbolTicks(b, symbol, price, now);
    UpdateSymbolFrame(b, symbol, price, now);
  }

  /** The symbol's positions are each ticked once, in book order; other symbols stay. */
  lemma UpdateSymbolTicks(b: Book, symbol: string, price: real, now: int)
    requires BookValid(b)
    ensures forall p :: p in ForSymbol(b.open, symbol) ==> p.entryPrice > 0.0
    ensures var a := TickAll(b, ForSymbol(b.open, symbol), price, now);
            && BookValid(a)
            && a.closed == b.closed + TickClosures(ForSymbol(b.open, symbol), price, now)
            && (forall p :: p in b.open && p.symbol == symbol && Ticked(p, price).status == Open ==> Ticked(p, price) in a.open)
            && (forall p :: p in b.open && p.symbol == symbol && Ticked(p, price).status != Open ==> !HasId(a.open, p.id))
            && (forall q :: q in b.open && q.symbol != symbol ==> q in a.open)
  {
    ActiveIsForSymbol(b.open, symbol);
    ActiveForSymbolDistinct(b.open, symbol);
    var snap := ForSymbol(b.open, symbol);
    TickAllEffect(b, snap, price, now);
    TickAllTicksEach(b, snap, price, now);
    forall q | q in b.open && q.symbol != symbol
      ensures !HasId(snap, q.id)
    {
      forall k | 0 <= k < |snap|
        ensures snap[k].id != q.id
      {
        assert snap[k] in snap;
        var i :| 0 <= i < |b.open| && b.open[i] == snap[k];
        var j :| 0 <= j < |b.open| && b.open[j] == q;
      }
    }
  }

  /** Nothing else happens in updatePositions for one symbol: every open entry afterwards is a
      position of another symbol or a ticked position of the symbol, in the old insertion order,
      each close moves one position to the history, and the total trade count does not change. */
  lemma UpdateSymbolFrame(b: Book, symbol: string, price: real, now: int)
    requires BookValid(b)
    ensures forall p :: p in ForSymbol(b.open, symbol) ==> p.entryPrice > 0.0
    ensures var a := TickAll(b, ForSymbol(b.open, symbol), price, now);
            && |a.open| + |a.closed| == |b.open| + |b.closed|
            && a.stats.totalTrades == b.stats.totalTrades
            && (forall q :: q in a.open ==>
                  (q in b.open && q.symbol != symbol) || exists p :: p in b.open && p.symbol == symbol && q == Ticked(p, price))
            && OrderKept(b.open, a.open)
  {
    ActiveForSymbolDistinct(b.open, symbol);
    ActiveIsForSymbol(b.open, symbol);
    TickAllFrame(b, ForSymbol(b.open, symbol), price, now);
  }

  /** In a sequence of open records, the Open positions of a symbol are all its positions. */
  lemma {:induction false} ActiveIsForSymbol(s: seq<TradingPosition>, symbol: string)
    requires forall p :: p in s ==> p.status == Open
    ensures ActiveForSymbol(s, symbol) == ForSymbol(s, symbol)
  {
    if s != [] {
      assert forall p :: p in s[1..] ==> p in s;
      ActiveIsForSymbol(s[1..], symbol);
    }
  }

  /** Both close paths record as realized PnL the PnL at the closing price, fill every closing
      field, and keep the position's identity, entry and levels. */
  lemma CloseRecordsPnlAtClosePrice(p: TradingPosition, price: real, now: int, reason: CloseReason)
    requires IsOpenRecord(p) && p.entryPrice > 0.0
    ensures var u := Ticked(p, price);
            u.status != Open ==>
              var c := Closed(u, price, now, CloseReasonFor(u.status));
              && IsClosedRecord(c)
              && RealizedOf(c) == PnlPercent(p.direction, p.entryPrice, price)
              && c.closedPrice == Some(price)
              && c.id == p.id && c.entryPrice == p.entryPrice
              && c.takeProfitPrice == p.takeProfitPrice && c.stopLossPrice == p.stopLossPrice
    ensures var c := ReversalClosed(p, price, now, reason);
            && IsClosedRecord(c) && c.status == ClosedSL
            && RealizedOf(c) == PnlPercent(p.direction, p.entryPrice, price)
            && c.unrealizedPnl == RealizedOf(c)
            && c.id == p.id && c.entryPrice == p.entryPrice
  {
  }

  /** For a position opened at levels computed from positive percentages, a take-profit close
      is always a win of at least the take-profit percentage, and a stop-loss close always a
      loss of at least the stop-loss percentage. */
  lemma ThresholdCloseOutcome(p: TradingPosition, price: real, tpPct: real, slPct: real)
    requires p.entryPrice > 0.0 && tpPct > 0.0 && slPct > 0.0
    requires p.takeProfitPrice == TakeProfitPrice(p.direction, p.entryPrice, tpPct)
    requires p.stopLossPrice == StopLossPrice(p.direction, p.entryPrice, slPct)
    ensures var u := Ticked(p, price);
            && (u.status == ClosedTP ==> u.unrealizedPnl >= tpPct > 0.0)
            && (u.status == ClosedSL ==> u.unrealizedPnl <= -slPct < 0.0)
            && (u.status == Open ==> -slPct < u.unrealizedPnl < tpPct)
  {
    TickStatusByPnl(p.direction, p.entryPrice, price, tpPct, slPct);
  }

  /** Entry 100 with 2% levels: LONG gets take-profit 102 and stop-loss 98, SHORT the reverse;
      a LONG ticked at 102 closes ClosedTP with PnL 2, at 98 ClosedSL with PnL -2, and a gap
      to 150 still closes ClosedTP. */
  lemma LevelsAndTicksExample(p: TradingPosition)
    requires p.direction == Long && p.entryPrice == 100.0
    requires p.takeProfitPrice == TakeProfitPrice(Long, 100.0, 2.0)
    requires p.stopLossPrice == StopLossPrice(Long, 100.0, 2.0)
    ensures p.takeProfitPrice == 102.0 && p.stopLossPrice == 98.0
    ensures TakeProfitPrice(Short, 100.0, 2.0) == 98.0 && StopLossPrice(Short, 100.0, 2.0) == 102.0
    ensures Ticked(p, 102.0).status == ClosedTP && Ticked(p, 102.0).unrealizedPnl == 2.0
    ensures Ticked(p, 98.0).status == ClosedSL && Ticked(p, 98.0).unrealizedPnl == -2.0
    ensures Ticked(p, 150.0).status == ClosedTP
  {
  }

  /** The first open position of a symbol is the earliest in book order. */
  lemma {:induction false} FirstForSymbolIsEarliest(s: seq<TradingPosition>, symbol: string)
    requires FirstForSymbol(s, symbol).Some?
    ensures exists i :: 0 <= i < |s| && s[i] == FirstForSymbol(s, symbol).value
                        && forall j :: 0 <= j < i ==> s[j].symbol != symbol
  {
    if s[0].symbol != symbol {
      assert ForSymbol(s, symbol) == ForSymbol(s[1..], symbol);
      assert FirstForSymbol(s[1..], symbol).Some?;
      FirstForSymbolIsEarliest(s[1..], symbol);
      var i :| 0 <= i < |s[1..]| && s[1..][i] == FirstForSymbol(s[1..], symbol).value
               && forall j :: 0 <= j < i ==> s[1..][j].symbol != symbol;
      assert s[i + 1] == FirstForSymbol(s, symbol).value;
      forall j | 0 <= j < i + 1
        ensures s[j].symbol != symbol
      {
        if j > 0 {
          assert s[j] == s[1..][j - 1];
        }
      }
    } else {
      assert s[0] == FirstForSymbol(s, symbol).value;
    }
  }

  /** With a limit of one position per symbol, a symbol can be opened iff no open position of
      that symbol exists. */
  lemma SingleSlotLimit(config: TradingConfig, s: seq<TradingPosition>, symbol: string)
    requires config.maxPositionsPerSymbol == 1
    ensures CanOpen(config, s, symbol) <==> forall p :: p in s ==> p.symbol != symbol
  {
    var r := ForSymbol(s, symbol);
    if r != [] {
      assert r[0] in r;
    }
  }
}
