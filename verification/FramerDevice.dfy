/** The framer as the firmware holds it: two fixed buffers and a handful of flags updated in place. */
module FramerDevice {
  import opened Bytes
  import opened RtuFramer

  class Framer {
    const rxBuffer: array<byte>
    const completedBuffer: array<byte>
    const config: Config
    var receiving: bool
    var rxLen: nat
    var frameReady: bool
    var completedLen: nat
    var msTick: micros
    var lastByte: micros
    var armed: bool

    ghost predicate Valid()
      reads this, rxBuffer, completedBuffer
    {
      && config.Valid() && rxBuffer != completedBuffer
      && rxBuffer.Length == config.size && completedBuffer.Length == config.size
      && rxLen <= config.size && completedLen <= config.size
      && View().Valid(config)
    }

    ghost function View(): State
      requires rxLen <= rxBuffer.Length && completedLen <= completedBuffer.Length
      reads this, rxBuffer, completedBuffer
    {
      State(receiving, rxBuffer[..rxLen], frameReady, completedBuffer[..completedLen], armed, lastByte)
    }

    constructor (size: nat, baud: nat)
      requires 1 <= size
      ensures Valid() && View() == IDLE
      ensures config.size == Min(size, MAX_FRAME) && (config.t15 as int, config.t35 as int) == Timeouts(baud)
      ensures fresh(rxBuffer) && fresh(completedBuffer)
    {
      TimeoutsOrdered(baud);
      var (t15, t35) := Timeouts(baud);
      var limit := Min(size, MAX_FRAME);
      config := Config(limit, t15, t35);
      rxBuffer := new byte[limit](_ => 0);
      completedBuffer := new byte[limit](_ => 0);
      receiving, rxLen, frameReady, completedLen := false, 0, false, 0;
      msTick, lastByte, armed := 0, 0, false;
    }

    method TryCompleteFrame(now: micros)
      requires Valid()
      modifies this, completedBuffer
      ensures Valid() && View() == TryComplete(config, old(View()), now) && msTick == old(msTick)
    {
      if !armed {
        return;
      }
      if armed && receiving && Elapsed(now, lastByte) >= config.t35 {
        var len := rxLen;
        armed := false;
        rxLen := 0;
        receiving := false;
        if len > 0 {
          if frameReady {
          } else {
            if len > config.size {
              len := config.size;
            }
            for i := 0 to len
              modifies completedBuffer
              invariant completedBuffer[..i] == rxBuffer[..i]
            {
              completedBuffer[i] := rxBuffer[i];
            }
            completedLen := len;
            frameReady := true;
          }
        }
      }
    }

    method OnSysTick(now: micros)
      requires Valid()
      modifies this, completedBuffer
      ensures Valid() && View() == TryComplete(config, old(View()), now) && msTick == (old(msTick) + 1) % CLOCK
    {
      msTick := (msTick + 1) % CLOCK;
      TryCompleteFrame(now);
    }

    method OnByte(now: micros, b: byte)
      requires Valid()
      modifies this, rxBuffer
      ensures Valid() && View() == RtuFramer.OnByte(config, old(View()), now, b)
    {
      if frameReady && !receiving {
        return;
      } else if !receiving {
        rxBuffer[0] := b;
        rxLen := 1;
        receiving := true;
        StartTimer(now);
      } else if Elapsed(now, lastByte) > config.t15 {
        if frameReady {
          receiving := false;
          rxLen := 0;
          armed := false;
        } else {
          rxBuffer[0] := b;
          rxLen := 1;
          StartTimer(now);
        }
      } else {
        if rxLen < config.size {
          rxBuffer[rxLen] := b;
          rxLen := rxLen + 1;
        }
        StartTimer(now);
      }
    }

    method StartTimer(now: micros)
      modifies `lastByte, `armed
      ensures lastByte == now && armed
    {
      lastByte := now;
      armed := true;
    }

    /** Copies the completed frame out, if there is one, and frees the slot. */
    method Take(max: nat) returns (frame: seq<byte>)
      requires Valid()
      modifies `frameReady, `completedLen
      ensures Valid() && View() == Collect(old(View())).0
      ensures var whole := Collect(old(View())).1; frame == whole[..Min(|whole|, max)]
    {
      frame := [];
      if frameReady && completedLen > 0 {
        var count := completedLen;
        if count > max {
          count := max;
        }
        for i := 0 to count
          invariant frame == completedBuffer[..i]
        {
          frame := frame + [completedBuffer[i]];
        }
        frameReady := false;
        completedLen := 0;
      }
    }

    /** `rtu_framer_process` with a callback; the frame handed to it comes back, [] for none. */
    method Process(now: micros) returns (frame: seq<byte>)
      requires Valid()
      modifies this, completedBuffer
      ensures Valid() && (View(), frame) == RtuFramer.Process(config, old(View()), now)
    {
      TryCompleteFrame(now);
      ghost var held := View();
      frame := Take(MAX_FRAME);
      assert |held.completed| <= MAX_FRAME;
      ghost var whole := Collect(held).1;
      assert whole[..Min(|whole|, MAX_FRAME)] == whole;
    }

    method Read(max: nat) returns (buffer: seq<byte>)
      requires Valid()
      modifies this
      ensures Valid() && (View(), buffer) == RtuFramer.Read(old(View()), max)
    {
      if max == 0 {
        return [];
      }
      buffer := Take(max);
    }

    method Flush()
      requires Valid()
      modifies this
      ensures Valid() && View() == RtuFramer.Flush(old(View()))
    {
      armed := false;
      rxLen := 0;
      receiving := false;
      frameReady := false;
      completedLen := 0;
    }

    method TxBegin()
      requires Valid()
      modifies this
      ensures Valid() && View() == RtuFramer.TxBegin(old(View()))
    {
      armed := false;
      rxLen := 0;
      receiving := false;
      frameReady := false;
    }

    /** `rtu_framer_delay_t35` on the clock readings of its busy loop: it ends at the first one T3.5 after the start. */
    method DelayT35(start: micros, readings: seq<micros>) returns (turns: nat)
      requires Valid()
      modifies `armed
      ensures Valid() && View() == RtuFramer.DelayT35(old(View()))
      ensures turns <= |readings|
      ensures forall k | 0 <= k < turns :: Elapsed(readings[k], start) < config.t35
      ensures turns < |readings| ==> Elapsed(readings[turns], start) >= config.t35
    {
      armed := false;
      turns := 0;
      while turns < |readings| && Elapsed(readings[turns], start) < config.t35
        invariant turns <= |readings|
        invariant forall k | 0 <= k < turns :: Elapsed(readings[k], start) < config.t35
      {
        turns := turns + 1;
      }
    }

    /** `rtu_framer_bytes_available`. */
    method BytesAvailable() returns (n: nat)
      requires Valid()
      ensures n == |View().rx|
    {
      n := if receiving then rxLen else 0;
    }
  }
}
