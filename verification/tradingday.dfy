/** One bar of trading data (tradingday.cpp). Prices, time and open
    interest are `float`s kept as their bit patterns; volume is an
    `unsigned long`. The class has no mutators, so a datatype value is an
    exact model: the constructor stores each argument in the field of the
    same name, in the parameter order date, time, open, close, high, low,
    volume, open interest, and each getter is the field selector. */
module TradingDays {
  import opened Bytes
  import opened Dates

  datatype TradingDay = TradingDay(
    date: Date,
    time: Bits32,
    open: Bits32,
    close: Bits32,
    high: Bits32,
    low: Bits32,
    volume: uint64,
    openInterest: Bits32)

  /** `TradingDay()`: the zero date and zero in every numeric field. */
  const DefaultDay: TradingDay :=
    TradingDay(ZeroDate, FloatZero, FloatZero, FloatZero, FloatZero, FloatZero, 0, FloatZero)
}
