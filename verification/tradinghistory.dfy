/** The bars of one equity in date order, with the date range and a single
    forward cursor (tradinghistory.cpp).

    The source keeps the bars in a `std::list` and the cursor as a list
    iterator. Here the bars are a sequence and the cursor an index; an
    insert at or before the cursor moves the index up by one, so the cursor
    keeps designating the same bar, as the list iterator does. */
module TradingHistories {
  import opened Outcomes
  import opened Dates
  import opened TradingDays

  datatype TradingHistory = TradingHistory(
    loaded: bool,
    bars: seq<TradingDay>,
    cursorValid: bool,
    cursor: nat,
    firstDate: Date,
    lastDate: Date)

  /** The constructor: no bars, not loaded, no valid cursor, and the date
      range the catalog announced. */
  function NewHistory(first: Date, last: Date): (h: TradingHistory)
    ensures h.bars == [] && !h.loaded && !h.cursorValid
    ensures h.firstDate == first && h.lastDate == last
  {
    TradingHistory(false, [], false, 0, first, last)
  }

  /** `days()`. */
  function Days(h: TradingHistory): nat {
    |h.bars|
  }

  /** The `loaded` setter. */
  function SetLoaded(h: TradingHistory, isLoaded: bool): (r: TradingHistory)
    ensures r.loaded == isLoaded
    ensures r.(loaded := h.loaded) == h
  {
    h.(loaded := isLoaded)
  }

  /** Bars strictly ascending by date, dates compared through `asEpoch`. */
  ghost predicate Sorted(asEpoch: EpochFn, bars: seq<TradingDay>) {
    forall i, j :: 0 <= i < j < |bars| ==> Less(asEpoch, bars[i].date, bars[j].date)
  }

  /** A bar with the same date as `d` is present. */
  ghost predicate HasDate(asEpoch: EpochFn, bars: seq<TradingDay>, d: Date) {
    exists i :: 0 <= i < |bars| && Same(asEpoch, bars[i].date, d)
  }

  /** The date range matches the head and tail bars whenever there are any. */
  ghost predicate BoundsMatch(h: TradingHistory) {
    |h.bars| > 0 ==> h.firstDate == h.bars[0].date && h.lastDate == h.bars[|h.bars| - 1].date
  }

  /** A valid cursor designates a bar. */
  ghost predicate CursorInRange(h: TradingHistory) {
    h.cursorValid ==> h.cursor < |h.bars|
  }

  /** The backward scan of the insert: it skips the bars at the end that are
      later than `d`, and stops just after the last bar that is not. The
      result is the number of bars left in front of the stopping point. */
  function ScanBack(asEpoch: EpochFn, bars: seq<TradingDay>, d: Date): (k: nat)
    ensures k <= |bars|
    ensures forall i :: k <= i < |bars| ==> Greater(asEpoch, bars[i].date, d)
    ensures k > 0 ==> !Greater(asEpoch, bars[k - 1].date, d)
  {
    if |bars| == 0 then 0
    else if Greater(asEpoch, bars[|bars| - 1].date, d) then ScanBack(asEpoch, bars[..|bars| - 1], d)
    else |bars|
  }

  /** `addTradingDayData`. An empty history takes the bar and both bounds
      from it. Otherwise the scan finds the insertion point: before every bar
      it becomes the new head and sets the first date; next to a bar with
      the same date the insert is refused and nothing changes; at the end
      it becomes the new tail and sets the last date; anywhere else it is
      inserted in the middle and the bounds stay. */
  function AddTradingDayData(asEpoch: EpochFn, h: TradingHistory, day: TradingDay): (r: (bool, TradingHistory))
    ensures r.1.loaded == h.loaded && r.1.cursorValid == h.cursorValid
  {
    if |h.bars| == 0 then
      (true, h.(firstDate := day.date, lastDate := day.date, bars := [day]))
    else
      var k := ScanBack(asEpoch, h.bars, day.date);
      var cursor := if k <= h.cursor then h.cursor + 1 else h.cursor;
      if k == 0 then
        (true, h.(firstDate := day.date, bars := [day] + h.bars, cursor := cursor))
      else if Same(asEpoch, h.bars[k - 1].date, day.date) then
        (false, h)
      else if k == |h.bars| then
        (true, h.(lastDate := day.date, bars := h.bars + [day], cursor := cursor))
      else
        (true, h.(bars := h.bars[..k] + [day] + h.bars[k..], cursor := cursor))
  }

  /** A successful insert places the new bar after every bar with an
      earlier date and before every bar with a later one, and adds nothing
      else; a refused insert changes nothing. */
  lemma AddInsertsInPlace(asEpoch: EpochFn, h: TradingHistory, day: TradingDay)
    requires Sorted(asEpoch, h.bars)
    ensures var (ok, h') := AddTradingDayData(asEpoch, h, day);
      && (!ok ==> h' == h)
      && (ok ==> exists k :: 0 <= k <= |h.bars|
                   && h'.bars == h.bars[..k] + [day] + h.bars[k..]
                   && (forall i :: 0 <= i < k ==> Less(asEpoch, h.bars[i].date, day.date))
                   && (forall i :: k <= i < |h.bars| ==> Greater(asEpoch, h.bars[i].date, day.date)))
  {
    var (ok, h') := AddTradingDayData(asEpoch, h, day);
    if ok && |h.bars| > 0 {
      var k := ScanBack(asEpoch, h.bars, day.date);
      assert h'.bars == h.bars[..k] + [day] + h.bars[k..];
      forall i | 0 <= i < k
        ensures Less(asEpoch, h.bars[i].date, day.date)
      {
        assert i < k - 1 ==> Less(asEpoch, h.bars[i].date, h.bars[k - 1].date);
      }
    } else if ok {
      assert h'.bars == h.bars[..0] + [day] + h.bars[0..];
    }
  }

  /** Whatever the order of the bars, an insert either places the bar
      between two parts of the old bars, or is refused, changes nothing,
      and a bar with the same date is there. */
  lemma AddSplicesOrRefuses(asEpoch: EpochFn, h: TradingHistory, day: TradingDay)
    ensures var (ok, h') := AddTradingDayData(asEpoch, h, day);
      && (!ok ==> h' == h && HasDate(asEpoch, h.bars, day.date))
      && (ok ==> exists k :: 0 <= k <= |h.bars| && h'.bars == h.bars[..k] + [day] + h.bars[k..])
  {
    var (ok, h') := AddTradingDayData(asEpoch, h, day);
    if |h.bars| > 0 {
      var k := ScanBack(asEpoch, h.bars, day.date);
      if !ok {
        assert Same(asEpoch, h.bars[k - 1].date, day.date);
      } else {
        assert h'.bars == h.bars[..k] + [day] + h.bars[k..];
      }
    } else {
      assert h'.bars == h.bars[..0] + [day] + h.bars[0..];
    }
  }

  /** An insert is refused exactly when a bar with the same date is already
      present. */
  lemma AddRefusesOnlyDuplicates(asEpoch: EpochFn, h: TradingHistory, day: TradingDay)
    requires Sorted(asEpoch, h.bars)
    ensures !AddTradingDayData(asEpoch, h, day).0 <==> HasDate(asEpoch, h.bars, day.date)
  {
    if |h.bars| > 0 {
      var k := ScanBack(asEpoch, h.bars, day.date);
      if HasDate(asEpoch, h.bars, day.date) {
        var i :| 0 <= i < |h.bars| && Same(asEpoch, h.bars[i].date, day.date);
        assert i < k;
        assert i < k - 1 ==> Less(asEpoch, h.bars[i].date, h.bars[k - 1].date);
      }
    }
  }

  lemma SortedInsert(asEpoch: EpochFn, bars: seq<TradingDay>, k: nat, day: TradingDay)
    requires Sorted(asEpoch, bars) && k <= |bars|
    requires forall i :: 0 <= i < k ==> Less(asEpoch, bars[i].date, day.date)
    requires forall i :: k <= i < |bars| ==> Greater(asEpoch, bars[i].date, day.date)
    ensures Sorted(asEpoch, bars[..k] + [day] + bars[k..])
  {
    var s := bars[..k] + [day] + bars[k..];
    assert forall i :: 0 <= i < k ==> s[i] == bars[i];
    assert s[k] == day;
    assert forall i :: k < i < |s| ==> s[i] == bars[i - 1];
  }

  /** Inserting keeps the bars strictly ascending, so no two bars ever share
      a date. */
  lemma AddKeepsSorted(asEpoch: EpochFn, h: TradingHistory, day: TradingDay)
    requires Sorted(asEpoch, h.bars)
    ensures Sorted(asEpoch, AddTradingDayData(asEpoch, h, day).1.bars)
  {
    var (ok, h') := AddTradingDayData(asEpoch, h, day);
    if ok && |h.bars| > 0 {
      var k := ScanBack(asEpoch, h.bars, day.date);
      forall i | 0 <= i < k
        ensures Less(asEpoch, h.bars[i].date, day.date)
      {
        assert i < k - 1 ==> Less(asEpoch, h.bars[i].date, h.bars[k - 1].date);
      }
      SortedInsert(asEpoch, h.bars, k, day);
      assert h'.bars == h.bars[..k] + [day] + h.bars[k..];
    }
  }

  /** A successful insert adds one bar; the first insert into an empty
      history replaces both catalog bounds with the bar's date; and once the
      bounds match the head and tail they keep matching. */
  lemma AddMaintainsBounds(asEpoch: EpochFn, h: TradingHistory, day: TradingDay)
    requires BoundsMatch(h)
    ensures var (ok, h') := AddTradingDayData(asEpoch, h, day);
      && BoundsMatch(h')
      && (ok ==> |h'.bars| == |h.bars| + 1)
      && (|h.bars| == 0 ==> ok && h'.firstDate == day.date && h'.lastDate == day.date)
  {
  }

  /** An insert leaves a valid cursor on the bar it designated. */
  lemma AddKeepsCursorOnBar(asEpoch: EpochFn, h: TradingHistory, day: TradingDay)
    requires CursorInRange(h)
    ensures var (ok, h') := AddTradingDayData(asEpoch, h, day);
      && CursorInRange(h')
      && (h.cursorValid ==> h'.bars[h'.cursor] == h.bars[h.cursor])
  {
  }

  /** `getFirstTradingDayData`: the head bar, with the cursor reset to it;
      nothing on an empty history. */
  function GetFirst(h: TradingHistory): (r: (Option<TradingDay>, TradingHistory))
    ensures r.0.None? <==> |h.bars| == 0
    ensures r.0.Some? ==> r.0.value == h.bars[0] && r.1.cursorValid && r.1.cursor == 0
    ensures r.1.bars == h.bars
    ensures r.1 == h.(cursor := r.1.cursor, cursorValid := r.1.cursorValid)
  {
    if |h.bars| == 0 then (None, h)
    else (Some(h.bars[0]), h.(cursor := 0, cursorValid := true))
  }

  /** `getNextTradingDayData`: fails on an invalid cursor; otherwise
      advances, and at the end invalidates the cursor and fails. */
  function GetNext(h: TradingHistory): (r: (Option<TradingDay>, TradingHistory))
    ensures !h.cursorValid ==> r == (None, h)
    ensures h.cursorValid && h.cursor + 1 < |h.bars| ==> r == (Some(h.bars[h.cursor + 1]), h.(cursor := h.cursor + 1))
    ensures h.cursorValid && h.cursor + 1 >= |h.bars| ==> r.0.None? && !r.1.cursorValid
    ensures r.1.bars == h.bars
    ensures r.1 == h.(cursor := r.1.cursor, cursorValid := r.1.cursorValid)
  {
    if !h.cursorValid then (None, h)
    else if h.cursor + 1 >= |h.bars| then (None, h.(cursorValid := false, cursor := |h.bars|))
    else (Some(h.bars[h.cursor + 1]), h.(cursor := h.cursor + 1))
  }

  /** Everything repeated calls of `GetNext` deliver, up to the first
      failure. */
  function Remaining(h: TradingHistory): seq<TradingDay>
    decreases if h.cursorValid && h.cursor < |h.bars| then |h.bars| - h.cursor else 0
  {
    var (next, h') := GetNext(h);
    match next
    case None => []
    case Some(day) => [day] + Remaining(h')
  }

  /** Everything a traversal delivers: `GetFirst`, then `GetNext` until it
      fails. */
  function Traverse(h: TradingHistory): seq<TradingDay> {
    var (first, h') := GetFirst(h);
    match first
    case None => []
    case Some(day) => [day] + Remaining(h')
  }

  lemma {:induction false} RemainingIsSuffix(h: TradingHistory)
    requires h.cursorValid && h.cursor < |h.bars|
    ensures Remaining(h) == h.bars[h.cursor + 1..]
    decreases |h.bars| - h.cursor
  {
    var (next, h') := GetNext(h);
    if next.Some? {
      RemainingIsSuffix(h');
    }
  }

  /** A traversal with no insert in between delivers every bar exactly once,
      in list order. */
  lemma TraverseDeliversAllBars(h: TradingHistory)
    ensures Traverse(h) == h.bars
  {
    if |h.bars| > 0 {
      RemainingIsSuffix(GetFirst(h).1);
    }
  }
}
