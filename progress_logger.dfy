/**
 * The console progress logger for file transfers: three lines (current file, file count,
 * total bytes), each a name column clamped to 16..42 characters, a 42-dash bar and a unit,
 * redrawn at most once per update interval. Time is an injected clock in milliseconds.
 */
module ProgressLogging {

  import opened Wrappers
  import Text
  import Arith

  const RowNameLength := 42
  const MinRowNameLength := 16
  const ProgressBarLength := 42
  const CurrentFileLookback := 3
  const TotalFileLookback := 10
  /** UpdateInterval's default, two seconds. */
  const DefaultUpdateInterval := 2000

  const DivideByZero := "DivideByZeroException"
  const NullReference := "NullReferenceException"
  const ArgumentOutOfRange := "ArgumentOutOfRangeException"

  // ------------------------------------------------------------------ AddLine

  /** A name longer than the column keeps its last 39 characters behind "...". */
  function RowName(name: string): (r: string)
    ensures |r| <= RowNameLength
  {
    if |name| > RowNameLength then "..." + name[|name| - RowNameLength + 3..] else name
  }

  lemma RowNameTail(name: string)
    ensures |name| <= RowNameLength ==> RowName(name) == name
    ensures |name| > RowNameLength ==> |RowName(name)| == RowNameLength && RowName(name)[..3] == "..."
    ensures |name| > RowNameLength ==> name[|name| - 39..] == RowName(name)[3..]
  {
  }

  /** The name column's width: the given length clamped to [16, 42]. */
  function RowNameWidth(length: int): (w: int)
    ensures MinRowNameLength <= w <= RowNameLength
    ensures MinRowNameLength <= length <= RowNameLength ==> w == length
  {
    var clipped := if length > RowNameLength then RowNameLength else length;
    if clipped < MinRowNameLength then MinRowNameLength else clipped
  }

  function Min(a: int, b: int): int
  {
    if a < b then a else b
  }

  /**
   * The completed part of the bar, (int)(42.0 * Min(progress, total) / total).
   * The cast rounds toward zero; a zero total gives NaN, which converts to 0, or minus
   * infinity when progress is negative; a negative count makes `new string` throw.
   */
  function CompleteDashes(progress: int, total: int): (r: Result<int, string>)
    ensures r.Failure? ==> progress < 0 && r.error == ArgumentOutOfRange
  {
    if total == 0 then
      (if progress < 0 then Failure(ArgumentOutOfRange) else Success(0))
    else
      var c := Arith.TruncDiv(ProgressBarLength * Min(progress, total), total);
      if c < 0 then Failure(ArgumentOutOfRange)
      else Success(c)
  }

  /** For a positive total the bar holds floor(42 * min(progress, total) / total) dashes, all 42 exactly when done. */
  lemma BarSplit(progress: int, total: int)
    requires total > 0 && progress >= 0
    ensures CompleteDashes(progress, total).Success?
    ensures var c := CompleteDashes(progress, total).value;
      0 <= c <= ProgressBarLength
      && c * total <= ProgressBarLength * Min(progress, total) < (c + 1) * total
      && (c == ProgressBarLength <==> progress >= total)
  {
    var m := Min(progress, total);
    var c := CompleteDashes(progress, total).value;
    Arith.TruncDivBounds(ProgressBarLength * m, total);
    assert c == (ProgressBarLength * m) / total;
    Arith.DivMulLe(ProgressBarLength * m, total);
    Arith.MulComm(c, total);
    Arith.MulSucc(c, total);
    if c > ProgressBarLength {
      Arith.MulMonotone(ProgressBarLength + 1, c, total);
      Arith.MulMonotone(m, total, ProgressBarLength);
    }
    if progress >= total {
      assert m == total;
      Arith.DivUnique(ProgressBarLength * total, total, ProgressBarLength, 0);
    } else if c == ProgressBarLength {
      Arith.MulMonotone(progress + 1, total, ProgressBarLength);
    }
  }

  /** The numeric column's scale and unit. */
  datatype Scale = Scale(factor: int, units: string)

  /** B, KiB, MiB, GiB or TiB by the size of the total; the count line (no elapsed time) has none. */
  function Units(total: int, hasElapsed: bool): (s: Scale)
    ensures s.factor >= 1
    ensures !hasElapsed ==> s == Scale(1, "")
  {
    if !hasElapsed then Scale(1, "")
    else if total < 1024 then Scale(1, "B")
    else if total < 1048576 then Scale(1024, "KiB")
    else if total < 1073741824 then Scale(1048576, "MiB")
    else if total < 1099511627776 then Scale(1073741824, "GiB")
    else Scale(1099511627776, "TiB")
  }

  /** The binary unit is the largest power of 1024 (up to 2^40) not above the total, so the scaled total is below 1024 unless in TiB. */
  lemma UnitsBracket(total: int)
    requires total >= 0
    ensures var s := Units(total, true);
      (total < 1024 || s.factor <= total)
      && (total < 1024 * s.factor || s.units == "TiB")
      && (s.units == "B" <==> total < 1024)
  {
  }

  /** What AddLine is given. */
  datatype Line = Line(name: string, nameLength: int, progress: int, total: int, elapsed: Option<int>, rate: Option<int>)

  /** The modelled columns of a printed line: padded name, the two dash runs, the unit, the trailing blanks. */
  datatype Layout = Layout(name: string, complete: int, incomplete: int, scale: Scale, trailing: int)

  function AddLine(line: Line): (r: Result<Layout, string>)
    ensures r.Success? ==> r.value.complete + r.value.incomplete == ProgressBarLength || r.value.complete > ProgressBarLength
    ensures r.Success? ==> MinRowNameLength <= |r.value.name| && r.value.trailing >= 0
    ensures r.Failure? <==> CompleteDashes(line.progress, line.total).Failure?
  {
    var name := RowName(line.name);
    var width := RowNameWidth(line.nameLength);
    match CompleteDashes(line.progress, line.total)
    case Failure(e) => Failure(e)
    case Success(c) =>
      Success(Layout(Text.PadLeft(name, width), c, if c < ProgressBarLength then ProgressBarLength - c else 0,
        Units(line.total, line.elapsed.Some?), RowNameLength - |name|))
  }

  // ------------------------------------------------------------------ rates

  /** One entry of a history queue: when, and how many bytes by then. */
  datatype Sample = Sample(at: int, bytes: int)

  /** Bytes per second since a sample: whole seconds by truncation, then C# long division. */
  function RateSince(bytes: int, ago: Sample, now: int): (r: Result<int, string>)
  {
    var seconds := Arith.TruncDiv(now - ago.at, 1000);
    if seconds == 0 then Failure(DivideByZero) else Success(Arith.TruncDiv(bytes - ago.bytes, seconds))
  }

  /** The division fails exactly when less than a whole second separates the sample from now. */
  lemma RateFailsWithinASecond(bytes: int, ago: Sample, now: int)
    ensures RateSince(bytes, ago, now).Failure? <==> -1000 < now - ago.at < 1000
  {
    Arith.TruncDivBounds(now - ago.at, 1000);
  }

  /** A rate from the oldest sample once the queue holds `window` of them, otherwise none. */
  function WindowRate(history: seq<Sample>, window: nat, bytes: int, now: int): (r: Result<Option<int>, string>)
    ensures |history| < window ==> r == Success(None)
  {
    if |history| >= window && |history| > 0 then
      match RateSince(bytes, history[0], now)
      case Failure(e) => Failure(e)
      case Success(v) => Success(Some(v))
    else Success(None)
  }

  /** The queue after the rate is taken: the oldest sample is dropped once `window` are held. */
  function Lookback(history: seq<Sample>, window: nat): (r: seq<Sample>)
    ensures |history| >= window && |history| > 0 ==> r == history[1..]
    ensures |history| < window ==> r == history
  {
    if |history| >= window && |history| > 0 then history[1..] else history
  }

  /** A non-final update keeps a queue held at or under its window at or under it, once its new sample is added. */
  lemma LookbackBounded(history: seq<Sample>, window: nat, s: Sample)
    requires window > 0 && |history| <= window
    ensures |Lookback(history, window) + [s]| <= window
  {
  }

  /** The final update's total rate as written: totalFileBytes / (long)Elapsed.TotalSeconds, unguarded. */
  function FinalRateAsWritten(totalBytes: int, elapsed: int): (r: Result<int, string>)
    ensures r.Failure? <==> -1000 < elapsed < 1000
  {
    Arith.TruncDivBounds(elapsed, 1000);
    var seconds := Arith.TruncDiv(elapsed, 1000);
    if seconds == 0 then Failure(DivideByZero) else Success(Arith.TruncDiv(totalBytes, seconds))
  }

  /** MarkComplete less than a second after construction throws instead of printing the final lines. */
  lemma FinalUpdateWithinASecondThrows()
    ensures FinalRateAsWritten(1000, 500) == Failure(DivideByZero)
  {
  }

  /** The final rate with the guard the other rates have in effect: no rate under a second. */
  function FinalRate(totalBytes: int, elapsed: int): (r: Option<int>)
    ensures r.Some? <==> FinalRateAsWritten(totalBytes, elapsed).Success?
    ensures r.Some? ==> r.value == FinalRateAsWritten(totalBytes, elapsed).value
  {
    var seconds := Arith.TruncDiv(elapsed, 1000);
    if seconds == 0 then None else Some(Arith.TruncDiv(totalBytes, seconds))
  }

  /** The result of one UpdateConsole call. */
  datatype Outcome = Skipped | Rendered(lines: seq<Line>) | Threw(exception: string)

  const TotalFileCountName := "Total file count"
  const TotalFileBytesName := "Total file bytes"

  /** ConsoleFileProgressLogger: the counters, the two history queues and the update stopwatch. */
  class ConsoleFileProgressLogger {
    /** UpdateInterval, in milliseconds. */
    var updateInterval: int

    var currentFileName: Option<string>
    var currentFileExpectedLength: int
    /** When the current file's stopwatch was last restarted. */
    var currentFileStart: int
    var currentFileHistory: seq<Sample>

    var currentFileBytes: int
    var currentFileNumber: int
    var totalFileBytes: int

    const totalFileCount: int
    const totalFileExpectedLength: int
    const totalFileStart: int
    var totalFileHistory: seq<Sample>

    /** When the update stopwatch was last restarted. */
    var lastUpdate: int

    ghost predicate Valid()
      reads this
    {
      |currentFileHistory| <= CurrentFileLookback
    }

    constructor(currentFileName: Option<string>, currentFileExpectedLength: int, totalFileCount: int, totalFileExpectedLength: int, now: int)
      ensures Valid()
      ensures this.currentFileName == currentFileName && this.currentFileExpectedLength == currentFileExpectedLength
      ensures this.totalFileCount == totalFileCount && this.totalFileExpectedLength == totalFileExpectedLength
      ensures currentFileBytes == 0 && currentFileNumber == 0 && totalFileBytes == 0
      ensures currentFileHistory == [] && totalFileHistory == []
      ensures currentFileStart == now && totalFileStart == now && lastUpdate == now
      ensures updateInterval == DefaultUpdateInterval
    {
      this.updateInterval := DefaultUpdateInterval;
      this.currentFileName := currentFileName;
      this.currentFileExpectedLength := currentFileExpectedLength;
      this.currentFileStart := now;
      this.currentFileHistory := [];
      this.currentFileBytes := 0;
      this.currentFileNumber := 0;
      this.totalFileBytes := 0;
      this.totalFileCount := totalFileCount;
      this.totalFileExpectedLength := totalFileExpectedLength;
      this.totalFileStart := now;
      this.totalFileHistory := [];
      this.lastUpdate := now;
    }

    /** AddProgress: both byte counters grow by value, then the console may be updated. */
    method AddProgress(value: int, now: int) returns (outcome: Outcome)
      requires Valid()
      modifies this
      ensures Valid()
      ensures currentFileBytes == old(currentFileBytes) + value && totalFileBytes == old(totalFileBytes) + value
      ensures currentFileNumber == old(currentFileNumber) && currentFileName == old(currentFileName)
      ensures currentFileExpectedLength == old(currentFileExpectedLength)
      ensures outcome.Skipped? <==> now - old(lastUpdate) < updateInterval
    {
      currentFileBytes := currentFileBytes + value;
      totalFileBytes := totalFileBytes + value;
      outcome := UpdateConsole(false, now);
    }

    /** ResetCurrentFile: the file number moves on only past a named file; the current counters restart; the totals stay. */
    method ResetCurrentFile(newFileName: Option<string>, newExpectedBytesLength: int, now: int)
      modifies this
      ensures Valid()
      ensures currentFileNumber == if old(currentFileName).Some? then old(currentFileNumber) + 1 else old(currentFileNumber)
      ensures currentFileName == newFileName && currentFileBytes == 0
      ensures currentFileExpectedLength == newExpectedBytesLength
      ensures currentFileStart == now && currentFileHistory == []
      ensures totalFileBytes == old(totalFileBytes) && totalFileHistory == old(totalFileHistory)
      ensures lastUpdate == old(lastUpdate) && updateInterval == old(updateInterval)
    {
      if currentFileName.Some? {
        currentFileNumber := currentFileNumber + 1;
      }
      currentFileName := newFileName;
      currentFileBytes := 0;
      currentFileExpectedLength := newExpectedBytesLength;
      currentFileStart := now;
      currentFileHistory := [];
    }

    /** MarkComplete: every counter is set to its expected value, then the final update is drawn. */
    method MarkComplete(now: int) returns (outcome: Outcome)
      requires Valid()
      modifies this
      ensures Valid()
      ensures currentFileBytes == currentFileExpectedLength == old(currentFileExpectedLength)
      ensures totalFileBytes == totalFileExpectedLength && currentFileNumber == totalFileCount
      ensures totalFileCount >= 0 && totalFileExpectedLength >= 0 ==> outcome.Rendered? && |outcome.lines| == 2
    {
      currentFileBytes := currentFileExpectedLength;
      totalFileBytes := totalFileExpectedLength;
      currentFileNumber := totalFileCount;
      outcome := UpdateConsole(true, now);
    }

    /** The current-file line a non-final update prints. */
    function FileLine(rate: Option<int>, now: int): Line
      reads this
      requires currentFileName.Some?
    {
      Line(currentFileName.value, |currentFileName.value|, currentFileBytes, currentFileExpectedLength, Some(now - currentFileStart), rate)
    }

    /** The two total lines, with the name column as wide as the current name (0 on the final update). */
    function TotalLines(width: int, rate: Option<int>, now: int): seq<Line>
      reads this
    {
      [Line(TotalFileCountName, width, currentFileNumber, totalFileCount, None, None),
       Line(TotalFileBytesName, width, totalFileBytes, totalFileExpectedLength, Some(now - totalFileStart), rate)]
    }

    /**
     * UpdateConsole: skipped when not final and the interval has not passed; otherwise the
     * lines are computed, each history queue drops its oldest sample once full and takes a
     * new one, and the update stopwatch restarts. An exception leaves the stopwatch alone.
     */
    method UpdateConsole(isFinalUpdate: bool, now: int) returns (outcome: Outcome)
      requires Valid()
      modifies this`currentFileHistory, this`totalFileHistory, this`lastUpdate
      ensures Valid()
      ensures outcome.Skipped? <==> !isFinalUpdate && now - old(lastUpdate) < updateInterval
      ensures outcome.Skipped? ==> unchanged(this)
      ensures isFinalUpdate ==> currentFileHistory == old(currentFileHistory)
      ensures !isFinalUpdate && |old(totalFileHistory)| <= TotalFileLookback ==> |totalFileHistory| <= TotalFileLookback
      ensures outcome.Threw? ==> lastUpdate == old(lastUpdate)
      ensures isFinalUpdate && currentFileNumber >= 0 && totalFileBytes >= 0 ==> outcome.Rendered?
      ensures outcome.Rendered? ==> lastUpdate == now
      ensures outcome.Rendered? && isFinalUpdate ==>
        outcome.lines == TotalLines(0, FinalRate(totalFileBytes, now - totalFileStart), now)
        && totalFileHistory == old(totalFileHistory) + [Sample(now, totalFileBytes)]
      ensures outcome.Rendered? && !isFinalUpdate ==>
        currentFileName.Some?
        && WindowRate(old(currentFileHistory), CurrentFileLookback, currentFileBytes, now).Success?
        && WindowRate(old(totalFileHistory), TotalFileLookback, totalFileBytes, now).Success?
        && outcome.lines == [FileLine(WindowRate(old(currentFileHistory), CurrentFileLookback, currentFileBytes, now).value, now)]
          + TotalLines(|currentFileName.value|, WindowRate(old(totalFileHistory), TotalFileLookback, totalFileBytes, now).value, now)
        && currentFileHistory == Lookback(old(currentFileHistory), CurrentFileLookback) + [Sample(now, currentFileBytes)]
        && totalFileHistory == Lookback(old(totalFileHistory), TotalFileLookback) + [Sample(now, totalFileBytes)]
    {
      if !isFinalUpdate && now - lastUpdate < updateInterval {
        return Skipped;
      }
      var lines: seq<Line> := [];
      var width := 0;
      if !isFinalUpdate {
        var line := DrawFileLine(now);
        if line.Failure? {
          return Threw(line.error);
        }
        lines := [line.value];
        width := |currentFileName.value|;
      }
      var totals := DrawTotals(isFinalUpdate, width, now);
      if totals.Failure? {
        return Threw(totals.error);
      }
      lines := lines + totals.value;
      lastUpdate := now;
      return Rendered(lines);
    }

    /** The current-file line of a non-final update: the rate from the oldest sample of a full queue, the line, the new sample. */
    method DrawFileLine(now: int) returns (r: Result<Line, string>)
      requires Valid()
      modifies this`currentFileHistory
      ensures Valid()
      ensures r.Success? ==>
        currentFileName.Some?
        && WindowRate(old(currentFileHistory), CurrentFileLookback, currentFileBytes, now).Success?
        && r.value == FileLine(WindowRate(old(currentFileHistory), CurrentFileLookback, currentFileBytes, now).value, now)
        && currentFileHistory == Lookback(old(currentFileHistory), CurrentFileLookback) + [Sample(now, currentFileBytes)]
    {
      var rate := WindowRate(currentFileHistory, CurrentFileLookback, currentFileBytes, now);
      currentFileHistory := Lookback(currentFileHistory, CurrentFileLookback);
      if rate.Failure? {
        return Failure(rate.error);
      }
      if currentFileName.None? {
        return Failure(NullReference);
      }
      var line := FileLine(rate.value, now);
      var drawn := AddLine(line);
      if drawn.Failure? {
        return Failure(drawn.error);
      }
      currentFileHistory := currentFileHistory + [Sample(now, currentFileBytes)];
      return Success(line);
    }

    /** The rate on the total-bytes line: over the whole run on the final update, else from the queue. */
    function TotalRate(history: seq<Sample>, isFinalUpdate: bool, now: int): Result<Option<int>, string>
      reads this
    {
      if isFinalUpdate then Success(FinalRate(totalFileBytes, now - totalFileStart))
      else WindowRate(history, TotalFileLookback, totalFileBytes, now)
    }

    /** The file-count line, then the total-bytes line with its rate, then the new sample of the total queue. */
    method DrawTotals(isFinalUpdate: bool, width: int, now: int) returns (r: Result<seq<Line>, string>)
      modifies this`totalFileHistory
      ensures !isFinalUpdate && |old(totalFileHistory)| <= TotalFileLookback ==> |totalFileHistory| <= TotalFileLookback
      ensures isFinalUpdate && currentFileNumber >= 0 && totalFileBytes >= 0 ==> r.Success?
      ensures r.Success? ==>
        TotalRate(old(totalFileHistory), isFinalUpdate, now).Success?
        && r.value == TotalLines(width, TotalRate(old(totalFileHistory), isFinalUpdate, now).value, now)
        && totalFileHistory == (if isFinalUpdate then old(totalFileHistory) else Lookback(old(totalFileHistory), TotalFileLookback))
          + [Sample(now, totalFileBytes)]
    {
      var countLine := Line(TotalFileCountName, width, currentFileNumber, totalFileCount, None, None);
      var countDrawn := AddLine(countLine);
      if countDrawn.Failure? {
        return Failure(countDrawn.error);
      }
      var rate := TotalRate(totalFileHistory, isFinalUpdate, now);
      if !isFinalUpdate {
        totalFileHistory := Lookback(totalFileHistory, TotalFileLookback);
      }
      if rate.Failure? {
        return Failure(rate.error);
      }
      var lines := TotalLines(width, rate.value, now);
      var bytesDrawn := AddLine(lines[1]);
      if bytesDrawn.Failure? {
        return Failure(bytesDrawn.error);
      }
      totalFileHistory := totalFileHistory + [Sample(now, totalFileBytes)];
      return Success(lines);
    }
  }
}
