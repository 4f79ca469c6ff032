/** FingerprintManager as the program holds it: the ready flag, the serial line with its unread
    bytes, the commands it has sent, and the loops that poll and retry. */
module FingerprintManager {
  import opened Options
  import opened SensorPackets
  import opened Enrolment
  import opened SensorLine
  import opened EnrolmentOnLine
  import opened EnrolmentSteps

  class Manager {
    const b: Behaviour
    var sensorReady: bool
    var line: Line
    var log: seq<Event>
    ghost var start: Line

    ghost function W(): World
      reads this`start
    {
      OnLine(b, start)
    }

    /** The line is what the commands of this enrolment have left of it. */
    ghost predicate Settled()
      reads this
    {
      line == Replay(b, start, log)
    }

    /** The line is ready for the next command to be written. */
    ghost predicate ReadyFor(cmd: byte)
      reads this
    {
      line == AtWrite(b, Replay(b, start, log), |log|, cmd)
    }

    constructor (b: Behaviour, ready: bool, line: Line)
      ensures this.b == b && sensorReady == ready && this.line == line && log == []
    {
      this.b, this.sensorReady, this.line, this.log, this.start := b, ready, line, [], line;
    }

    /** Uart_ReadFlush: what has arrived and was not read is lost. */
    method ReadFlush()
      modifies this`line
      ensures line == Flush(old(line), b.atFlush(|log|))
    {
      line := Line([], line.flight[Min(b.atFlush(|log|), |line.flight|)..]);
    }

    /** sendCommand: false when the write fails. */
    method SendCommand(cmd: byte, data: seq<byte>) returns (sent: bool)
      requires |data| <= 244
      modifies this`line, this`log
      ensures sent == b.writes(old(|log|))
      ensures log == old(log) + [Event(cmd, data, if sent then Silence else SendFailed)]
      ensures line == if sent then Write(b, old(line), old(|log|)) else old(line)
    {
      var packet, length := BuildPacket(cmd, data);
      sent := b.writes(|log|);
      if sent {
        line := Line(line.buffer, line.flight + Tagged(b.answer(|log|), |log|));
      }
      log := log + [Event(cmd, data, if sent then Silence else SendFailed)];
    }

    /** receiveResponse: one read of at most 16 bytes of whatever has arrived; the rest stays. */
    method ReceiveResponse() returns (ok: bool, response: array<byte>, bytesReceived: nat)
      requires log != [] && Last(log).reply == Silence
      modifies this`line, this`log
      ensures fresh(response) && response.Length == RESPONSE_SIZE
      ensures line == AfterRead(b, old(line), old(|log|) - 1)
      ensures var r := Read(b, old(line), old(|log|) - 1);
              log == old(log)[old(|log|) - 1 := old(Last(log)).(reply := if r == [] then Silence else Bytes(Values(r)))]
      ensures ok == Received(Last(log).reply).Some?
      ensures ok ==> bytesReceived == |Received(Last(log).reply).value| <= RESPONSE_SIZE
                     && response[..bytesReceived] == Received(Last(log).reply).value
    {
      response := new byte[RESPONSE_SIZE](_ => 0);
      bytesReceived := 0;
      var i := |log| - 1;
      var n := ReadSize(b, line, i);
      var bytes := Values(Read(b, line, i));
      line := AfterRead(b, line, i);
      if n == 0 {
        assert log == log[i := Last(log).(reply := Silence)];
        return false, response, bytesReceived;
      }
      CopyInto(response, 0, bytes);
      assert response[..n] == bytes;
      log := log[i := Last(log).(reply := Bytes(bytes))];
      ok, bytesReceived := ParseResponse(response, n);
    }

    /** A command and the read that goes with it. */
    method Exchange(cmd: byte, data: seq<byte>) returns (ok: bool, response: array<byte>, bytesReceived: nat)
      requires |data| <= 244 && Reads(cmd) && ReadyFor(cmd)
      modifies this`line, this`log
      ensures Settled() && log == Ask(W(), old(log), cmd, data)
      ensures fresh(response) && response.Length == RESPONSE_SIZE
      ensures ok == Received(Last(log).reply).Some?
      ensures ok ==> bytesReceived == |Received(Last(log).reply).value| <= RESPONSE_SIZE
                     && response[..bytesReceived] == Received(Last(log).reply).value
                     && response[0] == Received(Last(log).reply).value[0]
    {
      hide Flush, AfterRead, Read, Received;
      ghost var before := log;
      var sent := SendCommand(cmd, data);
      assert log[..|before|] == before;
      if !sent {
        response := new byte[RESPONSE_SIZE](_ => 0);
        NothingReceived();
        return false, response, 0;
      }
      ok, response, bytesReceived := ReceiveResponse();
      assert log == Ask(W(), before, cmd, data);
      assert log[..|before|] == before;
      if ok {
        assert response[..bytesReceived][0] == response[0];
      }
    }

    static lemma NothingReceived()
      ensures Received(SendFailed).None? && Received(Silence).None?
    {}

    /** One command that is to be confirmed with code 0. */
    method Confirm(cmd: byte, data: seq<byte>) returns (ok: bool)
      requires |data| <= 244 && Reads(cmd) && !Flushes(cmd) && Settled()
      modifies this`line, this`log
      ensures Settled() && Outcome(ok, log) == Confirmed(W(), old(log), cmd, data)
    {
      var received, response, n := Exchange(cmd, data);
      return received && response[0] == 0;
    }

    method DetectFinger() returns (ok: bool)
      requires Settled()
      modifies this`line, this`log
      ensures Settled() && Outcome(ok, log) == Detect(W(), old(log), MAX_DETECT_ATTEMPTS)
    {
      hide Replay, ReplyTo;
      var attempt := 0;
      while attempt < MAX_DETECT_ATTEMPTS
        invariant attempt <= MAX_DETECT_ATTEMPTS && Settled()
        invariant Detect(W(), log, MAX_DETECT_ATTEMPTS - attempt) == Detect(W(), old(log), MAX_DETECT_ATTEMPTS)
      {
        ReadFlush();
        var received, response, n := Exchange(GET_IMAGE, []);
        if Last(log).reply.SendFailed? {
          return false;
        }
        if received && response[0] == 0 {
          return true;
        }
        attempt := attempt + 1;
      }
      return false;
    }

    method CaptureAndGenerateChar(buffer: byte) returns (ok: bool)
      requires Settled()
      modifies this`line, this`log
      ensures Settled() && Outcome(ok, log) == CaptureAndGenerate(W(), old(log), buffer)
    {
      ok := Confirm(CAPTURE, []);
      if ok {
        ok := Confirm(GEN_CHAR, [buffer]);
      }
    }

    method CaptureAndGenerateCharWithRetry(buffer: byte, maxRetries: nat) returns (ok: bool)
      requires Settled()
      modifies this`line, this`log
      ensures Settled() && Outcome(ok, log) == CaptureWithRetry(W(), old(log), buffer, maxRetries)
    {
      hide Replay, ReplyTo, Received;
      var attempt := 0;
      while attempt < maxRetries
        invariant attempt <= maxRetries && Settled()
        invariant CaptureWithRetry(W(), log, buffer, maxRetries - attempt)
               == CaptureWithRetry(W(), old(log), buffer, maxRetries)
      {
        var captured := Confirm(CAPTURE, []);
        if !captured {
          attempt := attempt + 1;
          continue;
        }
        var received, response, n := Exchange(GEN_CHAR, [buffer]);
        if !received {
          attempt := attempt + 1;
          continue;
        }
        if response[0] == 0 {
          return true;
        } else if response[0] == 1 {
          attempt := attempt + 1;
        } else {
          return false;
        }
      }
      return false;
    }

    method CheckForDuplicates(buffer: byte) returns (ok: bool)
      requires Settled()
      modifies this`line, this`log
      ensures Outcome(ok, log) == CheckDuplicates(W(), old(log), buffer)
      ensures ok ==> Settled()
    {
      hide Replay, ReplyTo;
      var received, response, n := Exchange(TEMPLATE_NUM, []);
      if received {
        assert response[..n][0] == response[0] && response[..n][1] == response[1] && response[..n][2] == response[2];
        if response[0] == 0 && response[1] == 0 && response[2] == 0 {
          return true;
        }
      }
      ReadFlush();
      if !b.open(|log|) {
        return false;
      }
      received, response, n := Exchange(SEARCH, [buffer, 0, 0, 0, 0x64]);
      return received && response[0] == 9;
    }

    /** storeToFlash: the answer to REG_MODEL is left on the line. */
    method Store(fingerId: nat) returns (ok: bool)
      requires fingerId < 0x1_0000 && Settled()
      modifies this`line, this`log
      ensures Outcome(ok, log) == StoreToFlash(W(), old(log), fingerId) && Settled()
    {
      ghost var before := log;
      var sent := SendCommand(REG_MODEL, []);
      assert log[..|before|] == before;
      assert log == Ask(W(), before, REG_MODEL, []) && Settled();
      if !sent {
        return false;
      }
      hide Replay, ReplyTo;
      ok := Confirm(STORE_CHAR, [1, fingerId / 256, fingerId % 256]);
    }

    method Sample(buffer: byte) returns (ok: bool)
      requires Settled()
      modifies this`line, this`log
      ensures Outcome(ok, log) == Stage(W(), old(log), buffer)
      ensures ok ==> Settled()
    {
      hide Detect, CaptureAndGenerate, CaptureWithRetry, CheckDuplicates, Replay, ReplyTo;
      ok := DetectFinger();
      if !ok {
        return;
      }
      if buffer == 3 {
        ok := CaptureAndGenerateCharWithRetry(buffer, THIRD_SAMPLE_RETRIES);
      } else {
        ok := CaptureAndGenerateChar(buffer);
      }
      if ok {
        ok := CheckForDuplicates(buffer);
      }
    }

    /** startEnrollment: it flushes first, and the log starts again with each enrolment.  arrived
        is how much of what was still on its way has arrived by then. */
    method StartEnrollment(fingerId: nat, arrived: nat) returns (ok: bool)
      requires fingerId < 0x1_0000
      modifies this`line, this`log, this`start
      ensures start == Retagged(Flush(old(line), arrived)) && OlderLine(start, 0)
      ensures Outcome(ok, log) == Enrol(W(), sensorReady, fingerId)
      ensures |log| <= MAX_COMMANDS && (log == [] <==> !sensorReady)
      ensures sensorReady ==> Protocol(W(), log, fingerId) && (Last(log).cmd == STORE_CHAR || Stopped(W(), log))
      ensures forall i :: 0 <= i < |log| && log[i].cmd == STORE_CHAR ==>
                i == |log| - 1 && StoredAfterThreeSamples(log, fingerId)
    {
      line := Retagged(Flush(line, arrived));
      log := [];
      start := line;
      EnrolmentIsSafe(W(), sensorReady, fingerId);
      EnrolmentFollowsProtocol(W(), fingerId);
      assert Settled();
      hide Protocol, Stopped, Stage, StoreToFlash, StoredAfterThreeSamples, Replay, ReplyTo;
      if !sensorReady {
        return false;
      }
      ok := Sample(1);
      if !ok {
        return;
      }
      ok := Sample(2);
      if !ok {
        return;
      }
      ok := Sample(3);
      if ok {
        ok := Store(fingerId);
      }
    }
  }
}
