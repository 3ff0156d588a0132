/**
 * A stream wrapper that limits the bytes per second moved through it by sleeping
 * before a read or write that would exceed the limit. The tick counter it reads
 * (Environment.TickCount) and the time after a sleep are parameters.
 */
module Throttling {

  import opened Wrappers

  /** No limit. */
  const Infinite := 0
  const ArgumentOutOfRange := "ArgumentOutOfRangeException"
  const ArgumentNull := "ArgumentNullException"
  const SeekBeforeBegin := "IOException"

  type byte = bv8

  /** The cast (int) of a long: the low 32 bits, read as a signed value. */
  function ToInt32(v: int): (r: int)
    ensures -0x8000_0000 <= r < 0x8000_0000
    ensures -0x8000_0000 <= v < 0x8000_0000 ==> r == v
  {
    (v + 0x8000_0000) % 0x1_0000_0000 - 0x8000_0000
  }

  // ------------------------------------------------------------------ the base stream

  datatype SeekOrigin = Begin | Current | End

  /** `data` with `bytes` written at `pos`: a gap before it is zero-filled, later bytes are kept. */
  function Overwrite(data: seq<byte>, pos: nat, bytes: seq<byte>): (r: seq<byte>)
    ensures |r| == if pos + |bytes| > |data| then pos + |bytes| else |data|
    ensures r[pos..pos + |bytes|] == bytes
  {
    var front := if pos <= |data| then data[..pos] else data + seq(pos - |data|, _ => 0);
    var back := if pos + |bytes| < |data| then data[pos + |bytes|..] else [];
    assert (front + bytes + back)[pos..pos + |bytes|] == bytes;
    front + bytes + back
  }

  /** Writing keeps every byte outside the written range. */
  lemma OverwriteKeeps(data: seq<byte>, pos: nat, bytes: seq<byte>, k: int)
    requires 0 <= k < |data| && (k < pos || k >= pos + |bytes|)
    ensures Overwrite(data, pos, bytes)[k] == data[k]
  {
  }

  /** The stream a ThrottledStream wraps, as an in-memory byte stream. */
  class ByteStream {
    var data: seq<byte>
    var position: nat

    constructor(data: seq<byte>)
      ensures this.data == data && position == 0
    {
      this.data := data;
      position := 0;
    }

    function Length(): int
      reads this
    {
      |data|
    }

    /** The number of bytes a read of `count` at the position returns. */
    function Available(count: int): (n: nat)
      reads this
      ensures n <= |data| && (count >= 0 ==> n <= count)
      ensures position + n <= |data| || n == 0
    {
      if position >= |data| || count <= 0 then 0
      else if count < |data| - position then count
      else |data| - position
    }

    method Read(buffer: array<byte>, offset: int, count: int) returns (n: int)
      requires 0 <= offset && 0 <= count && offset + count <= buffer.Length
      modifies this`position, buffer
      ensures n == old(Available(count)) && position == old(position) + n
      ensures n > 0 ==> buffer[offset..offset + n] == data[old(position)..old(position) + n]
      ensures buffer[..offset] == old(buffer[..offset]) && buffer[offset + n..] == old(buffer[offset + n..])
    {
      n := Available(count);
      forall i | 0 <= i < n {
        buffer[offset + i] := data[position + i];
      }
      assert n > 0 ==> buffer[offset..offset + n] == data[position..position + n];
      position := position + n;
    }

    method Write(buffer: array<byte>, offset: int, count: int)
      requires 0 <= offset && 0 <= count && offset + count <= buffer.Length
      modifies this
      ensures data == Overwrite(old(data), old(position), buffer[offset..offset + count])
      ensures position == old(position) + count
    {
      data := Overwrite(data, position, buffer[offset..offset + count]);
      position := position + count;
    }

    /** Seek: a target before the start is an IOException and moves nothing. */
    method Seek(offset: int, origin: SeekOrigin) returns (r: Result<int, string>)
      modifies this`position
      ensures var target := offset + (match origin case Begin => 0 case Current => old(position) case End => |data|);
        (target < 0 ==> r == Failure(SeekBeforeBegin) && position == old(position))
        && (target >= 0 ==> r == Success(target) && position == target)
    {
      var target := offset + (match origin case Begin => 0 case Current => position case End => |data|);
      if target < 0 {
        return Failure(SeekBeforeBegin);
      }
      position := target;
      return Success(target);
    }

    /** The Position setter: a negative value is an ArgumentOutOfRangeException. */
    method SetPosition(value: int) returns (r: Result<(), string>)
      modifies this`position
      ensures value < 0 ==> r == Failure(ArgumentOutOfRange) && position == old(position)
      ensures value >= 0 ==> r == Success(()) && position == value
    {
      if value < 0 {
        return Failure(ArgumentOutOfRange);
      }
      position := value;
      return Success(());
    }
  }

  // ------------------------------------------------------------------ throttling

  /**
   * The time, counted from the start of the window, by which `byteCount` bytes are due at
   * `limit` bytes per second: the largest whole millisecond count at which no more than
   * byteCount bytes would have moved.
   */
  function WakeElapsed(byteCount: nat, limit: int): int
    requires limit > 0
  {
    byteCount * 1000 / limit
  }

  lemma WakeElapsedIsDueTime(byteCount: nat, limit: int)
    requires limit > 0
    ensures WakeElapsed(byteCount, limit) * limit <= byteCount * 1000 < (WakeElapsed(byteCount, limit) + 1) * limit
  {
    var w := WakeElapsed(byteCount, limit);
    assert byteCount * 1000 == w * limit + byteCount * 1000 % limit;
  }

  /**
   * What Throttle does for a request, as a number of milliseconds to sleep (0 for none):
   * nothing without a positive limit and a positive size; otherwise, when time has passed
   * and the rate so far exceeds the limit, the distance to the due time, if over 1 ms.
   */
  function SleepFor(limit: int, byteCount: nat, start: int, size: int, now: int): (ms: int)
    ensures ms == 0 || ms > 1
  {
    if limit <= 0 || size <= 0 then 0
    else
      var count := byteCount + size;
      var elapsed := now - start;
      if elapsed > 0 && count * 1000 / elapsed > limit then
        var toSleep := ToInt32(WakeElapsed(count, limit) - elapsed);
        if toSleep > 1 then toSleep else 0
      else 0
  }

  /** A sleep happens only past the limit, and then lasts until the due time of the bytes so far. */
  lemma SleepOnlyOverLimit(limit: int, byteCount: nat, start: int, size: int, now: int)
    requires SleepFor(limit, byteCount, start, size, now) > 0
    ensures limit > 0 && size > 0 && now - start > 0
    ensures (byteCount + size) * 1000 / (now - start) > limit
    ensures WakeElapsed(byteCount + size, limit) - (now - start) < 0x8000_0000 ==>
      now - start + SleepFor(limit, byteCount, start, size, now) == WakeElapsed(byteCount + size, limit)
  {
    var count := byteCount + size;
    var d := WakeElapsed(count, limit) - (now - start);
    if d < 0x8000_0000 {
      assert d > 1;
    }
  }

  /** Read or write throttles on the requested count before it goes to the base stream. */
  class ThrottledStream {
    const baseStream: ByteStream
    var maximumBytesPerSecond: int
    /** Bytes moved since the window started. */
    var byteCount: nat
    /** Tick count at which the window started. */
    var start: int

    constructor(baseStream: ByteStream, maximumBytesPerSecond: int, now: int)
      requires maximumBytesPerSecond >= 0
      ensures this.baseStream == baseStream && this.maximumBytesPerSecond == maximumBytesPerSecond
      ensures byteCount == 0 && start == now
    {
      this.baseStream := baseStream;
      this.maximumBytesPerSecond := maximumBytesPerSecond;
      this.start := now;
      this.byteCount := 0;
    }

    /** new ThrottledStream(baseStream, limit): a negative limit, then a null stream, are rejected. */
    static method Create(baseStream: ByteStream?, maximumBytesPerSecond: int, now: int) returns (r: Result<ThrottledStream, string>)
      ensures maximumBytesPerSecond < 0 ==> r == Failure(ArgumentOutOfRange)
      ensures maximumBytesPerSecond >= 0 && baseStream == null ==> r == Failure(ArgumentNull)
      ensures maximumBytesPerSecond >= 0 && baseStream != null ==>
        r.Success? && fresh(r.value) && r.value.baseStream == baseStream
        && r.value.maximumBytesPerSecond == maximumBytesPerSecond && r.value.byteCount == 0 && r.value.start == now
    {
      if maximumBytesPerSecond < 0 {
        return Failure(ArgumentOutOfRange);
      }
      if baseStream == null {
        return Failure(ArgumentNull);
      }
      var s := new ThrottledStream(baseStream, maximumBytesPerSecond, now);
      return Success(s);
    }

    /** Reset: the window restarts only when more than a second of it has passed. */
    method Reset(now: int)
      modifies this`byteCount, this`start
      ensures now - old(start) > 1000 ==> byteCount == 0 && start == now
      ensures now - old(start) <= 1000 ==> byteCount == old(byteCount) && start == old(start)
    {
      var difference := now - start;
      if difference > 1000 {
        byteCount := 0;
        start := now;
      }
    }

    /** The MaximumBytesPerSecond setter: a new value is stored and the window reset; the same value changes nothing. */
    method SetMaximumBytesPerSecond(value: int, now: int)
      modifies this`maximumBytesPerSecond, this`byteCount, this`start
      ensures maximumBytesPerSecond == value
      ensures value == old(maximumBytesPerSecond) ==> byteCount == old(byteCount) && start == old(start)
      ensures value != old(maximumBytesPerSecond) && now - old(start) > 1000 ==> byteCount == 0 && start == now
      ensures value != old(maximumBytesPerSecond) && now - old(start) <= 1000 ==> byteCount == old(byteCount) && start == old(start)
    {
      if maximumBytesPerSecond != value {
        maximumBytesPerSecond := value;
        Reset(now);
      }
    }

    /**
     * Throttle(size) at tick `now`; `afterSleep` is the tick the reset reads once the
     * sleep is over. It returns the requested sleep, 0 when there is none.
     */
    method Throttle(size: int, now: int, afterSleep: int) returns (sleep: int)
      modifies this`byteCount, this`start
      ensures sleep == SleepFor(maximumBytesPerSecond, old(byteCount), old(start), size, now)
      ensures maximumBytesPerSecond <= 0 || size <= 0 ==> byteCount == old(byteCount) && start == old(start)
      ensures maximumBytesPerSecond > 0 && size > 0 && (sleep == 0 || afterSleep - old(start) <= 1000) ==>
        byteCount == old(byteCount) + size && start == old(start)
      ensures sleep > 0 && afterSleep - old(start) > 1000 ==> byteCount == 0 && start == afterSleep
    {
      sleep := 0;
      if maximumBytesPerSecond <= 0 || size <= 0 {
        return;
      }
      byteCount := byteCount + size;
      var elapsedMilliseconds := now - start;
      if elapsedMilliseconds > 0 {
        var bps := byteCount * 1000 / elapsedMilliseconds;
        if bps > maximumBytesPerSecond {
          var wakeElapsed := byteCount * 1000 / maximumBytesPerSecond;
          var toSleep := ToInt32(wakeElapsed - elapsedMilliseconds);
          if toSleep > 1 {
            sleep := toSleep;
            Reset(afterSleep);
          }
        }
      }
    }

    /** Read: throttled on `count`, then handed to the base stream unchanged. */
    method Read(buffer: array<byte>, offset: int, count: int, now: int, afterSleep: int) returns (n: int, sleep: int)
      requires 0 <= offset && 0 <= count && offset + count <= buffer.Length
      modifies this`byteCount, this`start, baseStream`position, buffer
      ensures sleep == SleepFor(maximumBytesPerSecond, old(byteCount), old(start), count, now)
      ensures n == old(baseStream.Available(count)) && baseStream.position == old(baseStream.position) + n
      ensures n > 0 ==> buffer[offset..offset + n] == baseStream.data[old(baseStream.position)..old(baseStream.position) + n]
      ensures buffer[..offset] == old(buffer[..offset]) && buffer[offset + n..] == old(buffer[offset + n..])
    {
      sleep := Throttle(count, now, afterSleep);
      n := baseStream.Read(buffer, offset, count);
    }

    /** Write: throttled on `count`, then handed to the base stream unchanged. */
    method Write(buffer: array<byte>, offset: int, count: int, now: int, afterSleep: int) returns (sleep: int)
      requires 0 <= offset && 0 <= count && offset + count <= buffer.Length
      modifies this`byteCount, this`start, baseStream
      ensures sleep == SleepFor(maximumBytesPerSecond, old(byteCount), old(start), count, now)
      ensures baseStream.data == Overwrite(old(baseStream.data), old(baseStream.position), buffer[offset..offset + count])
      ensures baseStream.position == old(baseStream.position) + count
    {
      sleep := Throttle(count, now, afterSleep);
      baseStream.Write(buffer, offset, count);
    }

    /** Length passes through. */
    function Length(): int
      reads this, baseStream
    {
      baseStream.Length()
    }

    /** The Position getter passes through. */
    function Position(): int
      reads this, baseStream
    {
      baseStream.position
    }

    /** Seek passes through and does not throttle. */
    method Seek(offset: int, origin: SeekOrigin) returns (r: Result<int, string>)
      modifies baseStream`position
      ensures var target := offset + (match origin case Begin => 0 case Current => old(baseStream.position) case End => |baseStream.data|);
        (target < 0 ==> r == Failure(SeekBeforeBegin) && baseStream.position == old(baseStream.position))
        && (target >= 0 ==> r == Success(target) && baseStream.position == target)
    {
      r := baseStream.Seek(offset, origin);
    }

    /** The Position setter passes through. */
    method SetPosition(value: int) returns (r: Result<(), string>)
      modifies baseStream`position
      ensures value < 0 ==> r == Failure(ArgumentOutOfRange) && baseStream.position == old(baseStream.position)
      ensures value >= 0 ==> r == Success(()) && baseStream.position == value
    {
      r := baseStream.SetPosition(value);
    }
  }
}
