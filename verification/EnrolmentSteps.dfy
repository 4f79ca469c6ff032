/** The protocol of an enrolment, read off its log: which command follows which answer, and why an
    enrolment stops. */
module EnrolmentSteps {
  import opened Options
  import opened SensorPackets
  import opened Enrolment

  /** The duplicate check of a sample ends with this event, and passes. */
  predicate CheckPassed(e: Event) {
    (e.cmd == TEMPLATE_NUM && CountsZero(e)) || (e.cmd == SEARCH && Answered(e, 9))
  }

  /** How many samples are complete. */
  function Passed(l: seq<Event>): nat {
    if l == [] then 0 else Passed(l[..|l| - 1]) + if CheckPassed(Last(l)) then 1 else 0
  }

  /** How many polls in a row the log ends with. */
  function Polls(l: seq<Event>): nat {
    if l == [] || Last(l).cmd != GET_IMAGE then 0 else 1 + Polls(l[..|l| - 1])
  }

  /** How many captures there were since the last poll. */
  function Tries(l: seq<Event>): nat {
    if l == [] || Last(l).cmd == GET_IMAGE then 0
    else Tries(l[..|l| - 1]) + if Last(l).cmd == CAPTURE then 1 else 0
  }

  /** What is sent next when a sample is complete. */
  predicate AfterSample(next: Event, passed: nat) {
    next.data == [] && next.cmd == if passed < 3 then GET_IMAGE else REG_MODEL
  }

  /** Whether next may come after e, with so many samples complete. */
  predicate Follows(e: Event, next: Event, passed: nat, fingerId: nat)
    requires fingerId < 0x1_0000
  {
    var sample := passed + 1;
    if e.cmd == GET_IMAGE then
      !e.reply.SendFailed? && next.data == [] && next.cmd == if Answered(e, 0) then CAPTURE else GET_IMAGE
    else if e.cmd == CAPTURE then
      if Answered(e, 0) then next.cmd == GEN_CHAR && next.data == [sample] else sample == 3 && next.cmd == CAPTURE && next.data == []
    else if e.cmd == GEN_CHAR then
      if Answered(e, 0) then next.cmd == TEMPLATE_NUM && next.data == []
      else sample == 3 && next.cmd == CAPTURE && next.data == [] && (Received(e.reply).None? || Answered(e, 1))
    else if e.cmd == TEMPLATE_NUM then
      if CountsZero(e) then AfterSample(next, passed)
      else next.cmd == SEARCH && next.data == [sample, 0, 0, 0, 0x64]
    else if e.cmd == SEARCH then Answered(e, 9) && AfterSample(next, passed)
    else
      && e.cmd == REG_MODEL && !e.reply.SendFailed?
      && next.cmd == STORE_CHAR && next.data == [1, fingerId / 256, fingerId % 256]
  }

  /** Each command is the one that the events before it call for; the first is a poll. */
  predicate Ordered(l: seq<Event>, fingerId: nat)
    requires fingerId < 0x1_0000
    decreases |l|
  {
    l == []
    || (&& Ordered(l[..|l| - 1], fingerId)
        && if |l| == 1 then l[0].cmd == GET_IMAGE && l[0].data == []
           else Follows(l[|l| - 2], Last(l), Passed(l[..|l| - 1]), fingerId))
  }

  /** Nowhere more than 100 polls in a row or three captures behind them, and no search with the
      port closed. */
  predicate Bounded(w: World, l: seq<Event>)
    decreases |l|
  {
    l == []
    || (&& Bounded(w, l[..|l| - 1]) && Polls(l) <= 100 && Tries(l) <= 3
        && (Last(l).cmd == SEARCH ==> w.open(|l| - 1)))
  }

  /** The log follows the protocol. */
  predicate Protocol(w: World, l: seq<Event>, fingerId: nat)
    requires fingerId < 0x1_0000
  {
    Ordered(l, fingerId) && Bounded(w, l)
  }

  /** Why nothing more is sent after l. */
  ghost predicate Stopped(w: World, l: seq<Event>) {
    l != [] &&
    var e := Last(l);
    || (e.cmd == GET_IMAGE && (e.reply.SendFailed? || (Polls(l) == 100 && !Answered(e, 0))))
    || (e.cmd == CAPTURE && !Answered(e, 0) && (Passed(l) < 2 || Tries(l) == 3))
    || (e.cmd == GEN_CHAR && !Answered(e, 0)
        && (Passed(l) < 2 || Tries(l) == 3 || (Received(e.reply).Some? && !Answered(e, 1))))
    || (e.cmd == TEMPLATE_NUM && !CountsZero(e) && !w.open(|l|))
    || (e.cmd == SEARCH && !Answered(e, 9))
    || (e.cmd == REG_MODEL && e.reply.SendFailed?)
  }

  /** How an answer is read: behind any noise without a header, the code stands nine bytes behind
      EF 01, and the two bytes after it are the count; only the first 16 bytes are seen. */
  lemma AnswerBytes(e: Event, noise: seq<byte>, packet: seq<byte>, code: byte)
    requires e.reply == Bytes(noise + packet) && |noise + packet| <= 16 && |packet| >= 12
    requires packet[0] == 0xEF && packet[1] == 0x01
    requires forall j {:trigger (noise + packet)[j..j + 2]} :: 0 <= j < |noise| ==> (noise + packet)[j..j + 2] != [0xEF, 0x01]
    ensures Answered(e, code) <==> packet[9] == code
    ensures CountsZero(e) <==> packet[9] == 0 && packet[10] == 0 && packet[11] == 0
  {
    NoiseIsSkipped(noise, packet);
    hide Payload;
  }

  lemma SilenceAnswersNothing(e: Event, code: byte)
    requires !e.reply.Bytes? || |e.reply.raw| < 12
    ensures !Answered(e, code) && !CountsZero(e)
  {
    if e.reply.Bytes? {
      PayloadExact(e.reply.raw, |e.reply.raw|);
    }
  }

  // ----- One more command -------------------------------------------------------------------

  lemma CountsGrow(l: seq<Event>, e: Event)
    ensures Passed(l + [e]) == Passed(l) + (if CheckPassed(e) then 1 else 0)
    ensures Polls(l + [e]) == (if e.cmd == GET_IMAGE then Polls(l) + 1 else 0)
    ensures Tries(l + [e]) == (if e.cmd == GET_IMAGE then 0 else Tries(l) + if e.cmd == CAPTURE then 1 else 0)
  {
    hide CheckPassed;
    assert (l + [e])[..|l|] == l;
  }

  lemma ProtocolGrows(w: World, l: seq<Event>, cmd: byte, data: seq<byte>, fingerId: nat)
    requires fingerId < 0x1_0000 && Protocol(w, l, fingerId)
    requires var e := Event(cmd, data, w.reply(l, cmd));
             if l == [] then cmd == GET_IMAGE && data == [] else Follows(Last(l), e, Passed(l), fingerId)
    requires cmd == SEARCH ==> w.open(|l|)
    requires cmd == GET_IMAGE ==> Polls(l) < 100
    requires cmd == CAPTURE ==> Tries(l) < 3
    ensures var m := Ask(w, l, cmd, data);
            && Protocol(w, m, fingerId)
            && Passed(m) == Passed(l) + (if CheckPassed(Last(m)) then 1 else 0)
            && Polls(m) == (if cmd == GET_IMAGE then Polls(l) + 1 else 0)
            && Tries(m) == if cmd == GET_IMAGE then 0 else Tries(l) + if cmd == CAPTURE then 1 else 0
  {
    var m := Ask(w, l, cmd, data);
    CountsGrow(l, Last(m));
    hide Follows, CheckPassed, Passed, Polls, Tries;
    assert m[..|m| - 1] == l;
    assert Last(m) == Event(cmd, data, w.reply(l, cmd));
    assert l != [] ==> m[|m| - 2] == Last(l);
    assert l == [] ==> m[0] == Last(m);
  }

  // ----- The steps --------------------------------------------------------------------------

  /** A poll may be sent: the first of a sample, or one after a poll that saw no finger. */
  predicate MayPoll(l: seq<Event>) {
    || l == []
    || (CheckPassed(Last(l)) && Passed(l) < 3)
    || (Last(l).cmd == GET_IMAGE && !Last(l).reply.SendFailed? && !Answered(Last(l), 0))
  }

  lemma {:induction false} DetectSteps(w: World, l: seq<Event>, n: nat, fingerId: nat)
    requires fingerId < 0x1_0000 && Protocol(w, l, fingerId)
    requires MayPoll(l) && Polls(l) + n == 100 && (n == 0 ==> l != [] && Last(l).cmd == GET_IMAGE && !Answered(Last(l), 0))
    ensures var d := Detect(w, l, n);
            && Protocol(w, d.log, fingerId) && Passed(d.log) == Passed(l)
            && if d.ok then d.log != [] && Last(d.log).cmd == GET_IMAGE && Answered(Last(d.log), 0)
                            && !Last(d.log).reply.SendFailed? && Tries(d.log) == 0
               else Stopped(w, d.log)
    decreases n
  {
    hide Protocol;
    if n == 0 {
    } else {
      var m := Ask(w, l, GET_IMAGE, []);
      ProtocolGrows(w, l, GET_IMAGE, [], fingerId);
      assert Last(m).reply.SendFailed? ==> !Answered(Last(m), 0);
      if !Last(m).reply.SendFailed? && !Answered(Last(m), 0) {
        DetectSteps(w, m, n - 1, fingerId);
      }
    }
  }

  /** A finger was seen and not captured yet. */
  predicate Seen(l: seq<Event>) {
    l != [] && Last(l).cmd == GET_IMAGE && Answered(Last(l), 0) && !Last(l).reply.SendFailed? && Tries(l) == 0
  }

  /** An attempt at the third sample has failed in a way that lets it be repeated. */
  predicate MayRetry(l: seq<Event>) {
    && l != [] && Passed(l) == 2 && !Answered(Last(l), 0)
    && (|| Last(l).cmd == CAPTURE
        || (Last(l).cmd == GEN_CHAR && (Received(Last(l).reply).None? || Answered(Last(l), 1))))
  }

  /** One capture and, if it is accepted, one GEN_CHAR. */
  lemma TrySteps(w: World, l: seq<Event>, buffer: byte, fingerId: nat)
    requires fingerId < 0x1_0000 && Protocol(w, l, fingerId)
    requires buffer == Passed(l) + 1 && Tries(l) < 3 && (Seen(l) || MayRetry(l))
    ensures var c := Confirmed(w, l, CAPTURE, []);
            var g := Confirmed(w, c.log, GEN_CHAR, [buffer]);
            && Protocol(w, c.log, fingerId) && Last(c.log).cmd == CAPTURE
            && Passed(c.log) == Passed(l) && Tries(c.log) == Tries(l) + 1
            && (c.ok ==> Protocol(w, g.log, fingerId) && Last(g.log).cmd == GEN_CHAR
                         && Passed(g.log) == Passed(l) && Tries(g.log) == Tries(l) + 1)
  {
    hide Protocol, Answered, Passed, Tries, Polls;
    var c := Confirmed(w, l, CAPTURE, []);
    ProtocolGrows(w, l, CAPTURE, [], fingerId);
    if c.ok {
      ProtocolGrows(w, c.log, GEN_CHAR, [buffer], fingerId);
    }
  }

  lemma {:induction false} RetrySteps(w: World, l: seq<Event>, n: nat, fingerId: nat)
    requires fingerId < 0x1_0000 && Protocol(w, l, fingerId) && Passed(l) == 2 && Tries(l) + n == 3
    requires Seen(l) || MayRetry(l)
    ensures var c := CaptureWithRetry(w, l, 3, n);
            && Protocol(w, c.log, fingerId) && Passed(c.log) == 2
            && c.log != []
            && if c.ok then Last(c.log).cmd == GEN_CHAR && Answered(Last(c.log), 0) else Stopped(w, c.log)
    decreases n
  {
    hide Protocol, Answered, Passed, Tries, Polls;
    if n == 0 {
    } else {
      var c := Confirmed(w, l, CAPTURE, []);
      TrySteps(w, l, 3, fingerId);
      if !c.ok {
        RetrySteps(w, c.log, n - 1, fingerId);
      } else {
        var g := Confirmed(w, c.log, GEN_CHAR, [3]);
        if !g.ok && (Received(Last(g.log).reply).None? || Answered(Last(g.log), 1)) {
          RetrySteps(w, g.log, n - 1, fingerId);
        }
      }
    }
  }

  lemma CheckSteps(w: World, l: seq<Event>, buffer: byte, fingerId: nat)
    requires fingerId < 0x1_0000 && Protocol(w, l, fingerId) && buffer == Passed(l) + 1
    requires l != [] && Last(l).cmd == GEN_CHAR && Answered(Last(l), 0)
    ensures var c := CheckDuplicates(w, l, buffer);
            && Protocol(w, c.log, fingerId) && c.log != []
            && if c.ok then CheckPassed(Last(c.log)) && Passed(c.log) == Passed(l) + 1 && Polls(c.log) == 0
               else Stopped(w, c.log)
  {
    hide Protocol, Answered, CountsZero, Passed, Tries, Polls;
    var m := Ask(w, l, TEMPLATE_NUM, []);
    ProtocolGrows(w, l, TEMPLATE_NUM, [], fingerId);
    if !CountsZero(Last(m)) && w.open(|m|) {
      ProtocolGrows(w, m, SEARCH, [buffer, 0, 0, 0, 0x64], fingerId);
    }
  }

  /** A sample may begin. */
  predicate MayBegin(l: seq<Event>) {
    Passed(l) < 3 && Polls(l) == 0 && (l == [] || CheckPassed(Last(l)))
  }

  lemma StageSteps(w: World, l: seq<Event>, buffer: byte, fingerId: nat)
    requires fingerId < 0x1_0000 && Protocol(w, l, fingerId) && MayBegin(l) && buffer == Passed(l) + 1
    ensures var s := Stage(w, l, buffer);
            && Protocol(w, s.log, fingerId)
            && s.log != []
            && if s.ok then CheckPassed(Last(s.log)) && Passed(s.log) == Passed(l) + 1 && Polls(s.log) == 0
               else Stopped(w, s.log)
  {
    hide Protocol, Detect, CaptureWithRetry, CheckDuplicates, Answered, Passed, Tries, Polls;
    var d := Detect(w, l, MAX_DETECT_ATTEMPTS);
    DetectSteps(w, l, MAX_DETECT_ATTEMPTS, fingerId);
    if d.ok {
      if buffer == 3 {
        RetrySteps(w, d.log, THIRD_SAMPLE_RETRIES, fingerId);
      } else {
        TrySteps(w, d.log, buffer, fingerId);
      }
      var c := if buffer == 3 then CaptureWithRetry(w, d.log, buffer, THIRD_SAMPLE_RETRIES)
               else CaptureAndGenerate(w, d.log, buffer);
      if c.ok {
        CheckSteps(w, c.log, buffer, fingerId);
      }
    }
  }

  lemma StoreSteps(w: World, l: seq<Event>, fingerId: nat)
    requires fingerId < 0x1_0000 && Protocol(w, l, fingerId) && Passed(l) == 3 && l != [] && CheckPassed(Last(l))
    ensures var r := StoreToFlash(w, l, fingerId);
            Protocol(w, r.log, fingerId) && r.log != [] && (Last(r.log).cmd == STORE_CHAR || Stopped(w, r.log))
  {
    hide Protocol, Answered, CountsZero, Passed, Tries, Polls;
    var m := Ask(w, l, REG_MODEL, []);
    ProtocolGrows(w, l, REG_MODEL, [], fingerId);
    if !Last(m).reply.SendFailed? {
      ProtocolGrows(w, m, STORE_CHAR, [1, fingerId / 256, fingerId % 256], fingerId);
    }
  }

  lemma NothingSent(w: World, fingerId: nat)
    requires fingerId < 0x1_0000
    ensures Protocol(w, [], fingerId) && MayBegin([]) && Passed([]) == 0
  {}

  // ----- Main results -----------------------------------------------------------------------

  /** An enrolment goes through the protocol step by step, and ends either with a STORE or where
      the protocol stops. */
  lemma EnrolmentFollowsProtocol(w: World, fingerId: nat)
    requires fingerId < 0x1_0000
    ensures var l := Enrol(w, true, fingerId).log;
            Protocol(w, l, fingerId) && l != [] && (Last(l).cmd == STORE_CHAR || Stopped(w, l))
  {
    hide Protocol, Stage, StoreToFlash, Stopped, CheckPassed;
    NothingSent(w, fingerId);
    var one := Stage(w, [], 1);
    StageSteps(w, [], 1, fingerId);
    if one.ok {
      var two := Stage(w, one.log, 2);
      StageSteps(w, one.log, 2, fingerId);
      if two.ok {
        var three := Stage(w, two.log, 3);
        StageSteps(w, two.log, 3, fingerId);
        if three.ok {
          StoreSteps(w, three.log, fingerId);
        }
      }
    }
  }

  /** Against any sensor, an enrolment sends STORE exactly unless it stops: because a write failed,
      no finger was seen in 100 polls, a capture or a GEN_CHAR was refused (for the third sample
      three times, or once with a code other than 0 and 1), the port was closed, the search did
      not say "not found", or REG_MODEL could not be sent. */
  lemma StoreUnlessStopped(w: World, fingerId: nat)
    requires fingerId < 0x1_0000
    ensures var l := Enrol(w, true, fingerId).log;
            (exists i :: 0 <= i < |l| && l[i].cmd == STORE_CHAR) <==> !Stopped(w, l)
  {
    hide Enrol, Protocol, StoredAfterThreeSamples;
    var l := Enrol(w, true, fingerId).log;
    EnrolmentFollowsProtocol(w, fingerId);
    EnrolmentIsSafe(w, true, fingerId);
    assert Last(l) == l[|l| - 1];
  }
}
