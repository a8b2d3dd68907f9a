/** Shared data model of the trading dashboard: timeframes, candles and signals. */
module Types {

  datatype Option<+T> = None | Some(value: T)

  /** The six bar resolutions the dashboard knows ("1m", "5m", "15m", "1h", "4h", "1d"). */
  datatype Timeframe = M1 | M5 | M15 | H1 | H4 | D1

  /** One OHLCV bar; `time` is the bar-open timestamp. */
  datatype Candle = Candle(time: int, open: real, high: real, low: real, close: real, volume: real)

  datatype SignalType = Buy | Sell

  /** A generated trade signal; the generator itself is not part of this model. */
  datatype Signal = Signal(time: int, timeframe: Timeframe, kind: SignalType, confidence: real, reasons: seq<string>)
}
