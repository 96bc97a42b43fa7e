/** modbus_event.c and modbus_diag.c as they run: a shifted log and a set of counters, updated in place. */
module CommDevice {
  import opened Bytes
  import opened SlaveTables
  import Pdu
  import Comm

  class EventLog {
    var counter: word
    const log: array<byte>
    var count: nat

    ghost predicate Valid()
      reads this
    {
      log.Length == Comm.LOG_SIZE && count <= Comm.LOG_SIZE
    }

    ghost function View(): (e: Comm.Events)
      requires Valid()
      reads this, log
      ensures |e.log| <= Comm.LOG_SIZE
    {
      Comm.Events(counter, log[..count])
    }

    constructor ()
      ensures Valid() && View() == Comm.FRESH.events && fresh(log)
    {
      log := new byte[Comm.LOG_SIZE](_ => 0);
      counter := 0;
      count := 0;
      new;
      Push(Comm.RESTART_EVENT);
    }

    /** Shifts the log up by one, dropping the oldest entry of a full one, and puts the event in front. */
    method Push(event: byte)
      requires Valid()
      modifies `count, log
      ensures Valid() && View() == Comm.Push(old(View()), event)
    {
      var n := if count >= Comm.LOG_SIZE then Comm.LOG_SIZE - 1 else count;
      for i := n downto 0
        modifies log
        invariant forall k | 0 <= k <= i :: log[k] == old(log[k])
        invariant forall k | i < k <= n :: log[k] == old(log[k - 1])
      {
        log[i + 1] := log[i];
      }
      log[0] := event;
      if count < Comm.LOG_SIZE {
        count := count + 1;
      }
      ghost var goal := Comm.Newest([event] + old(log[..count]));
      assert forall k | 0 <= k < count :: log[k] == goal[k];
      assert log[..count] == goal;
    }

    method NoteRestart(clearLog: bool)
      requires Valid()
      modifies this, log
      ensures Valid() && View() == Comm.NoteRestart(old(View()), clearLog)
    {
      counter := 0;
      if clearLog {
        count := 0;
        for i := 0 to Comm.LOG_SIZE
          modifies log
        {
          log[i] := 0;
        }
      }
      Push(Comm.RESTART_EVENT);
    }

    method NoteSuccess()
      requires Valid()
      modifies `counter
      ensures Valid() && View() == old(View()).(counter := Inc16(old(View()).counter))
    {
      counter := (counter + 1) % 65536;
    }

    method NoteTx(exception: byte)
      requires Valid()
      modifies `count, log
      ensures Valid() && View() == Comm.Push(old(View()), Comm.SendEvent(exception))
    {
      var event: byte := 0x40;
      match exception {
        case 0 =>
        case 1 | 2 | 3 => event := event + 0x01;
        case 4 => event := event + 0x02;
        case 5 | 6 => event := event + 0x04;
        case 7 => event := event + 0x08;
        case _ =>
      }
      Push(event);
    }

    /** The log entries, copied out one by one. */
    method Entries() returns (entries: seq<byte>)
      requires Valid()
      ensures entries == View().log
    {
      entries := [];
      for i := 0 to count
        invariant entries == log[..i]
      {
        entries := entries + [log[i]];
      }
    }

    /** `modbus_event_process`, given the slave message count. */
    method Process(req: seq<byte>, broadcast: bool, messages: word) returns (reply: Pdu.Reply)
      requires Valid() && |req| >= 1
      ensures forall d: Comm.Diag | d.slaveMessages == messages ::
                reply == Comm.EventProcess(Comm.State(d, View()), req, broadcast)
    {
      if broadcast {
        return Comm.SILENCE;
      }
      if |req| != 1 {
        return Pdu.Reply(Exception(req[0], ILLEGAL_VALUE), true);
      }
      if req[0] == Comm.EVENT_COUNTER {
        return Pdu.Reply([req[0], 0, 0, Hi(counter), Lo(counter)], true);
      }
      var bytes: byte := 6 + count;
      var entries := Entries();
      var head := [req[0], bytes, 0, 0, Hi(counter), Lo(counter), Hi(messages), Lo(messages)];
      reply := Pdu.Reply(head + entries, true);
    }
  }

  class Diagnostics {
    var bus: word
    var commErrors: word
    var exceptions: word
    var slaveMessages: word
    var noResponses: word
    var overruns: word
    var register: word
    var listenOnly: bool
    const events: EventLog

    ghost predicate Valid()
      reads this, events
    {
      events.Valid()
    }

    ghost function View(): (c: Comm.State)
      requires Valid()
      reads this, events, events.log
      ensures c.Valid()
    {
      Comm.State(Comm.Diag(bus, commErrors, exceptions, slaveMessages, noResponses, overruns, register, listenOnly),
                 events.View())
    }

    constructor ()
      ensures Valid() && View() == Comm.FRESH && fresh(events) && fresh(events.log)
    {
      bus, commErrors, exceptions, slaveMessages, noResponses, overruns, register := 0, 0, 0, 0, 0, 0, 0;
      listenOnly := false;
      events := new EventLog();
    }

    method ClearCounters()
      requires Valid()
      modifies this
      ensures Valid() && View() == old(View()).(diag := Comm.ClearCounters(old(View()).diag))
    {
      bus, commErrors, exceptions, slaveMessages := 0, 0, 0, 0;
      noResponses, overruns, register := 0, 0, 0;
    }

    method NoteBusMessage()
      requires Valid()
      modifies `bus
      ensures Valid() && View() == old(View()).(diag := old(View()).diag.(bus := Inc16(old(bus))))
    {
      bus := (bus + 1) % 65536;
    }

    method NoteSlaveMessage()
      requires Valid()
      modifies `slaveMessages
      ensures Valid()
      ensures View() == old(View()).(diag := old(View()).diag.(slaveMessages := Inc16(old(slaveMessages))))
    {
      slaveMessages := (slaveMessages + 1) % 65536;
    }

    method NoteCommError()
      requires Valid()
      modifies this, events, events.log
      ensures Valid() && View() == Comm.NoteCommError(old(View()))
    {
      commErrors := (commErrors + 1) % 65536;
      events.Push(if listenOnly then 0x80 + 0x02 + 0x20 else 0x80 + 0x02);
    }

    method NoteOverrun()
      requires Valid()
      modifies this, events, events.log
      ensures Valid() && View() == Comm.NoteOverrun(old(View()))
    {
      overruns := (overruns + 1) % 65536;
      commErrors := (commErrors + 1) % 65536;
      events.Push(if listenOnly then 0x80 + 0x02 + 0x10 + 0x20 else 0x80 + 0x02 + 0x10);
    }

    method NoteResult(responded: bool, exception: bool)
      requires Valid()
      modifies this
      ensures Valid() && View() == old(View()).(diag := Comm.NoteResult(old(View()).diag, responded, exception))
    {
      if exception {
        exceptions := (exceptions + 1) % 65536;
      } else if !responded {
        noResponses := (noResponses + 1) % 65536;
      }
    }

    /** `modbus_diag_counter_read`. */
    method CounterRead(sub: word) returns (value: word)
      requires Valid()
      ensures value == Comm.Counter(View().diag, sub)
    {
      match sub
      case 0x0B => value := bus;
      case 0x0C => value := commErrors;
      case 0x0D => value := exceptions;
      case 0x0E => value := slaveMessages;
      case 0x0F => value := noResponses;
      case 0x12 => value := overruns;
      case _ => value := 0;
    }

    /** `modbus_diag_process`. */
    method Process(req: seq<byte>, broadcast: bool) returns (reply: Pdu.Reply)
      requires Valid() && |req| >= 1 && req[0] == Comm.DIAGNOSTICS
      modifies this, events, events.log
      ensures Valid() && (View(), reply) == Comm.DiagProcess(old(View()), req, broadcast)
    {
      hide Comm.Push, Be16;
      if |req| < 5 {
        return if listenOnly then Comm.SILENCE else Comm.DiagFault(ILLEGAL_VALUE);
      }
      var sub, data := Be16(req[1], req[2]), Be16(req[3], req[4]);
      if listenOnly && sub != Comm.RESTART {
        return Comm.SILENCE;
      }
      if broadcast && !Comm.DiagBroadcastable(sub) {
        return Comm.SILENCE;
      }
      var echo := Pdu.Reply(req[..5], true);
      match sub
      case 0x00 | 0x03 => reply := echo;
      case 0x01 =>
        if data != 0 && data != 0xFF00 {
          return Comm.DiagFault(ILLEGAL_VALUE);
        }
        ClearCounters();
        events.NoteRestart(data == 0xFF00);
        if listenOnly {
          listenOnly := false;
          return Comm.SILENCE;
        }
        reply := if broadcast then Comm.SILENCE else echo;
      case 0x02 =>
        reply := if data != 0 then Comm.DiagFault(ILLEGAL_VALUE) else Comm.DiagWord(req, register);
      case 0x04 =>
        if data != 0 {
          return Comm.DiagFault(ILLEGAL_VALUE);
        }
        listenOnly := true;
        events.Push(Comm.LISTEN_EVENT);
        reply := Comm.SILENCE;
      case 0x0A =>
        if data != 0 {
          return Comm.DiagFault(ILLEGAL_VALUE);
        }
        ClearCounters();
        events.counter := 0;
        reply := if broadcast then Comm.SILENCE else echo;
      case 0x0B | 0x0C | 0x0D | 0x0E | 0x0F | 0x10 | 0x11 | 0x12 =>
        if data != 0 {
          return Comm.DiagFault(ILLEGAL_VALUE);
        }
        var value := CounterRead(sub);
        reply := Comm.DiagWord(req, value);
      case 0x14 =>
        if data != 0 {
          return Comm.DiagFault(ILLEGAL_VALUE);
        }
        overruns := 0;
        reply := echo;
      case _ => reply := Comm.DiagFault(ILLEGAL_FUNCTION);
    }
  }
}
