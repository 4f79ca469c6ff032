/** The serial line between the program and the sensor as a stream of bytes.  A read takes what
    has arrived, whatever command it answers; only ReadFlush throws bytes away.  So an answer that
    is not read, or not read to its end, is read after the next command. */
module SensorLine {
  import opened SensorPackets
  import opened Enrolment

  /** A byte of the sensor, and the command it answers (-1: one before the enrolment). */
  datatype Sent = Sent(value: byte, owner: int)

  /** What the sensor has sent: arrived and not yet read, and still on its way. */
  datatype Line = Line(buffer: seq<Sent>, flight: seq<Sent>)

  /** How sensor and line behave.  For the i-th command: whether it is written, the bytes the
      sensor answers, how many bytes arrive before the flush and before the read that go with it,
      and how many the read takes (none: it times out or fails). */
  datatype Behaviour = Behaviour(
    writes: nat -> bool, answer: nat -> seq<byte>, atFlush: nat -> nat, atRead: nat -> nat, takes: nat -> nat,
    open: nat -> bool)

  const RESPONSE_SIZE := 16

  function Min(a: nat, b: nat): nat {
    if a < b then a else b
  }

  function Tagged(bytes: seq<byte>, owner: int): (s: seq<Sent>)
    ensures |s| == |bytes| && forall k :: 0 <= k < |s| ==> s[k] == Sent(bytes[k], owner)
  {
    seq(|bytes|, k requires 0 <= k < |bytes| => Sent(bytes[k], owner))
  }

  function Values(s: seq<Sent>): (bytes: seq<byte>)
    ensures |bytes| == |s| && forall k :: 0 <= k < |s| ==> bytes[k] == s[k].value
  {
    seq(|s|, k requires 0 <= k < |s| => s[k].value)
  }

  // ----- One command ------------------------------------------------------------------------

  function Arrive(l: Line, n: nat): Line {
    var k := Min(n, |l.flight|);
    Line(l.buffer + l.flight[..k], l.flight[k..])
  }

  /** Uart_ReadFlush. */
  function Flush(l: Line, n: nat): Line {
    Line([], Arrive(l, n).flight)
  }

  /** The polls and the search are preceded by a flush; the answer to REG_MODEL is not read. */
  predicate Flushes(cmd: byte) {
    cmd == GET_IMAGE || cmd == SEARCH
  }

  predicate Reads(cmd: byte) {
    cmd != REG_MODEL
  }

  /** The line when the i-th command is written. */
  function AtWrite(b: Behaviour, l: Line, i: nat, cmd: byte): Line {
    if Flushes(cmd) then Flush(l, b.atFlush(i)) else l
  }

  function Write(b: Behaviour, l: Line, i: nat): Line {
    l.(flight := l.flight + Tagged(b.answer(i), i))
  }

  /** How many bytes the read that goes with the i-th command takes. */
  function ReadSize(b: Behaviour, l: Line, i: nat): (n: nat)
    ensures n <= RESPONSE_SIZE && n <= |Arrive(l, b.atRead(i)).buffer|
  {
    Min(b.takes(i), Min(RESPONSE_SIZE, |Arrive(l, b.atRead(i)).buffer|))
  }

  function Read(b: Behaviour, l: Line, i: nat): seq<Sent> {
    Arrive(l, b.atRead(i)).buffer[..ReadSize(b, l, i)]
  }

  function AfterRead(b: Behaviour, l: Line, i: nat): Line {
    var a := Arrive(l, b.atRead(i));
    a.(buffer := a.buffer[ReadSize(b, l, i)..])
  }

  /** The bytes that are read after the i-th command. */
  function ReadBy(b: Behaviour, l: Line, i: nat, cmd: byte): seq<Sent> {
    if b.writes(i) && Reads(cmd) then Read(b, Write(b, AtWrite(b, l, i, cmd), i), i) else []
  }

  function LineAfter(b: Behaviour, l: Line, i: nat, cmd: byte): Line {
    var f := AtWrite(b, l, i, cmd);
    if !b.writes(i) then f
    else if Reads(cmd) then AfterRead(b, Write(b, f, i), i)
    else Write(b, f, i)
  }

  function ReplyTo(b: Behaviour, l: Line, i: nat, cmd: byte): Reply {
    var r := ReadBy(b, l, i, cmd);
    if !b.writes(i) then SendFailed else if r == [] then Silence else Bytes(Values(r))
  }

  /** The line after the commands of h. */
  function Replay(b: Behaviour, start: Line, h: seq<Event>): Line {
    if h == [] then start else
    var n := |h| - 1;
    LineAfter(b, Replay(b, start, h[..n]), n, h[n].cmd)
  }

  /** Sensor and line as a world for an enrolment. */
  function OnLine(b: Behaviour, start: Line): World {
    World((h: seq<Event>, cmd: byte) => ReplyTo(b, Replay(b, start, h), |h|, cmd), b.open)
  }

  // ----- Whose answer is read -------------------------------------------------------------

  /** Everything on the line is older than command i. */
  ghost predicate Older(s: seq<Sent>, i: int) {
    forall k :: 0 <= k < |s| ==> s[k].owner < i
  }

  ghost predicate OlderLine(l: Line, i: int) {
    Older(l.buffer, i) && Older(l.flight, i)
  }

  lemma {:induction false} ReplayOlder(b: Behaviour, start: Line, h: seq<Event>)
    requires OlderLine(start, 0)
    ensures OlderLine(Replay(b, start, h), |h|)
  {
    if h == [] {
    } else {
      ReplayOlder(b, start, h[..|h| - 1]);
      StepOlder(b, Replay(b, start, h[..|h| - 1]), |h| - 1, h[|h| - 1].cmd);
    }
  }

  lemma StepOlder(b: Behaviour, l: Line, i: nat, cmd: byte)
    requires OlderLine(l, i)
    ensures OlderLine(LineAfter(b, l, i, cmd), i + 1)
  {
    var f := AtWrite(b, l, i, cmd);
    assert OlderLine(f, i);
    assert OlderLine(Write(b, f, i), i + 1);
  }

  /** What is still unread, or still on its way, when the command is written. */
  function Backlog(b: Behaviour, l: Line, i: nat, cmd: byte): seq<Sent> {
    var f := AtWrite(b, l, i, cmd);
    f.buffer + f.flight
  }

  /** A read that gives anything belongs to its own command, from the first byte to the last,
      exactly when the line was empty at the write; otherwise its first byte is an older one. */
  lemma OwnExact(b: Behaviour, l: Line, i: nat, cmd: byte)
    requires OlderLine(l, i) && ReadBy(b, l, i, cmd) != []
    ensures var r := ReadBy(b, l, i, cmd);
            && (r[0].owner == i <==> Backlog(b, l, i, cmd) == [])
            && (Backlog(b, l, i, cmd) == [] ==> forall k :: 0 <= k < |r| ==> r[k].owner == i)
  {
    var f := AtWrite(b, l, i, cmd);
    var w := Write(b, f, i);
    var a := Arrive(w, b.atRead(i));
    var r := ReadBy(b, l, i, cmd);
    assert r == a.buffer[..ReadSize(b, w, i)];
    var own := Tagged(b.answer(i), i);
    var n := Min(b.atRead(i), |w.flight|);
    assert w.flight == w.flight[..n] + w.flight[n..];
    assert a.buffer + a.flight == w.buffer + (w.flight[..n] + w.flight[n..]);
    assert w.buffer + w.flight == f.buffer + (f.flight + own) == f.buffer + f.flight + own;
    forall k | 0 <= k < |r|
      ensures r[k] == (f.buffer + f.flight + own)[k]
    {
      assert r[k] == (a.buffer + a.flight)[k];
    }
    hide ReadBy, ReadSize, Arrive, Write, AtWrite;
    assert f.buffer + f.flight != [] ==> (f.buffer + f.flight + own)[0] == (f.buffer + f.flight)[0];
  }

  /** Behind a flush the backlog is exactly what had not arrived by then: late answers of earlier
      commands, and nothing that arrived in time. */
  lemma BehindFlush(b: Behaviour, l: Line, i: nat, cmd: byte)
    requires cmd == GET_IMAGE || cmd == SEARCH
    ensures Backlog(b, l, i, cmd) == l.flight[Min(b.atFlush(i), |l.flight|)..]
    ensures b.atFlush(i) >= |l.flight| <==> Backlog(b, l, i, cmd) == []
  {
  }

  /** Without a flush, an older packet of 12 bytes on the line is what a read of 12 bytes gives;
      the command's own answer stays behind for the next one.  So once an answer came late, each
      command is answered by the one before, until a flush. */
  lemma Shifted(b: Behaviour, l: Line, i: nat, cmd: byte, late: seq<byte>, owner: int)
    requires cmd != GET_IMAGE && cmd != SEARCH && cmd != REG_MODEL && b.writes(i)
    requires |late| == 12 && l.buffer + l.flight == Tagged(late, owner)
    requires ReadSize(b, Write(b, l, i), i) == 12
    ensures ReadBy(b, l, i, cmd) == Tagged(late, owner)
    ensures var m := LineAfter(b, l, i, cmd); m.buffer + m.flight == Tagged(b.answer(i), i)
  {
    var w := Write(b, l, i);
    var a := Arrive(w, b.atRead(i));
    var own := Tagged(b.answer(i), i);
    assert a.buffer + a.flight == w.buffer + w.flight == Tagged(late, owner) + own;
    assert a.buffer[..12] == (a.buffer + a.flight)[..12] == Tagged(late, owner);
    assert a.buffer[12..] + a.flight == (a.buffer + a.flight)[12..] == own;
  }

  /** Twelve bytes are read when just the late ones are there, however many the read would take,
      and when the read takes no more. */
  lemma TwelveAreRead(b: Behaviour, l: Line, i: nat)
    requires |l.buffer| + |l.flight| == 12 && b.atRead(i) >= |l.flight|
    requires b.takes(i) == 12 || (b.takes(i) >= 12 && b.atRead(i) == |l.flight|)
    ensures ReadSize(b, Write(b, l, i), i) == 12
  {
    hide Tagged;
  }

  /** In the retry loop of the third sample: if the answer to a capture arrives only after its
      read has given up, then the capture of the next attempt is accepted by that answer, and
      GEN_CHAR by the answer to the second capture, whatever the sensor says of GEN_CHAR.  All it
      takes is that each read finds twelve bytes. */
  lemma LateCapturePassesAsGenChar(b: Behaviour, l: Line, i: nat, first: seq<byte>, second: seq<byte>)
    requires b.writes(i) && b.writes(i + 1) && b.answer(i) == second && i >= 1
    requires |first| == 12 && l == Line([], Tagged(first, i - 1)) && |second| == 12
    requires b.atRead(i) >= 12 && (b.takes(i) == 12 || (b.takes(i) >= 12 && b.atRead(i) == 12))
    requires var m := LineAfter(b, l, i, CAPTURE);
             b.atRead(i + 1) >= |m.flight|
             && (b.takes(i + 1) == 12 || (b.takes(i + 1) >= 12 && b.atRead(i + 1) == |m.flight|))
    ensures var m := LineAfter(b, l, i, CAPTURE);
            && ReplyTo(b, l, i, CAPTURE) == Bytes(first)
            && ReplyTo(b, m, i + 1, GEN_CHAR) == Bytes(second)
  {
    TwelveAreRead(b, l, i);
    Shifted(b, l, i, CAPTURE, first, i - 1);
    var m := LineAfter(b, l, i, CAPTURE);
    assert |m.buffer| + |m.flight| == |m.buffer + m.flight|;
    TwelveAreRead(b, m, i + 1);
    Shifted(b, m, i + 1, GEN_CHAR, second, i);
    assert Values(Tagged(first, i - 1)) == first && Values(Tagged(second, i)) == second;
  }

  /** The line at the start of an enrolment: what is left on it answers none of its commands. */
  function Retagged(l: Line): Line {
    Line(Tagged(Values(l.buffer), -1), Tagged(Values(l.flight), -1))
  }
}

/** Enrolment on the byte stream. */
module EnrolmentOnLine {
  import opened Options
  import opened SensorPackets
  import opened Enrolment
  import opened SensorLine

  /** A sensor in good order: no answer is longer than a read takes; before a read everything has
      arrived that the command, and the one before it, are answered with, and the read takes all
      it can; and what was on its way when the enrolment began has arrived at the first flush. */
  ghost predicate Prompt(b: Behaviour, start: Line) {
    && start.buffer == [] && b.atFlush(0) >= |start.flight|
    && forall i: nat :: PromptAt(b, i)
  }

  predicate PromptAt(b: Behaviour, i: nat) {
    && |b.answer(i)| <= RESPONSE_SIZE && b.takes(i) >= RESPONSE_SIZE
    && b.atRead(i) >= |b.answer(i)| + if i > 0 then |b.answer(i - 1)| else 0
  }

  /** What the sensor answers to the i-th command itself. */
  function OwnReply(b: Behaviour, i: nat): Reply {
    if !b.writes(i) then SendFailed else if b.answer(i) == [] then Silence else Bytes(b.answer(i))
  }

  const NOTHING := Line([], [])

  /** One command on an empty line, or behind a flush that empties it. */
  lemma PromptStep(b: Behaviour, start: Line, l: Line, i: nat, cmd: byte)
    requires Prompt(b, start) && AtWrite(b, l, i, cmd) == NOTHING
    ensures Reads(cmd) ==> ReplyTo(b, l, i, cmd) == OwnReply(b, i) && LineAfter(b, l, i, cmd) == NOTHING
    ensures !Reads(cmd) ==> LineAfter(b, l, i, cmd) == if b.writes(i) then Line([], Tagged(b.answer(i), i)) else NOTHING
  {
    assert PromptAt(b, i);
    var w := Write(b, NOTHING, i);
    assert w == Line([], Tagged(b.answer(i), i));
    var t := Tagged(b.answer(i), i);
    assert b.atRead(i) >= |t| && t[..|t|] == t && t[|t|..] == [];
    assert Arrive(w, b.atRead(i)) == Line(t, []);
    if b.writes(i) && Reads(cmd) {
      assert ReadSize(b, w, i) == |b.answer(i)|;
      assert Read(b, w, i) == Tagged(b.answer(i), i);
      assert Values(Tagged(b.answer(i), i)) == b.answer(i);
      assert AfterRead(b, w, i) == NOTHING;
    }
  }

  /** A log as an enrolment leaves it. */
  ghost predicate EnrolmentShape(l: seq<Event>) {
    && (l != [] ==> l[0].cmd == GET_IMAGE)
    && (forall i :: 0 <= i < |l| && l[i].cmd == REG_MODEL ==> i + 2 >= |l|)
    && (forall i :: 0 <= i < |l| - 1 && l[i].cmd == REG_MODEL ==> l[i + 1].cmd == STORE_CHAR)
    && (forall i :: 0 <= i < |l| && l[i].cmd == STORE_CHAR ==> i == |l| - 1 && i > 0 && l[i - 1].cmd == REG_MODEL)
  }

  /** With a prompt sensor the line is empty after every command that is read. */
  lemma {:induction false} EmptyInBetween(b: Behaviour, start: Line, l: seq<Event>, n: nat)
    requires Prompt(b, start) && EnrolmentShape(l) && 0 < n <= |l|
    requires forall i :: 0 <= i < n ==> Reads(l[i].cmd)
    ensures Replay(b, start, l[..n]) == NOTHING
    ensures ReplyTo(b, Replay(b, start, l[..n - 1]), n - 1, l[n - 1].cmd) == OwnReply(b, n - 1)
  {
    hide Prompt, ReplyTo, OwnReply, LineAfter, Replay, AtWrite;
    ReplayNext(b, start, l, n);
    if n > 1 {
      EmptyInBetween(b, start, l, n - 1);
      EmptyAtWrite(b, n - 1, l[n - 1].cmd);
    } else {
      FirstFlush(b, start, l);
    }
    PromptStep(b, start, Replay(b, start, l[..n - 1]), n - 1, l[n - 1].cmd);
  }

  lemma ReplayNext(b: Behaviour, start: Line, l: seq<Event>, n: nat)
    requires 0 < n <= |l|
    ensures Replay(b, start, l[..n]) == LineAfter(b, Replay(b, start, l[..n - 1]), n - 1, l[n - 1].cmd)
  {
    hide LineAfter;
    assert l[..n][..n - 1] == l[..n - 1];
  }

  lemma EmptyAtWrite(b: Behaviour, i: nat, cmd: byte)
    ensures AtWrite(b, NOTHING, i, cmd) == NOTHING
  {}

  lemma FirstFlush(b: Behaviour, start: Line, l: seq<Event>)
    requires Prompt(b, start) && l != [] && l[0].cmd == GET_IMAGE
    ensures AtWrite(b, Replay(b, start, l[..0]), 0, l[0].cmd) == NOTHING
  {}

  /** The read after STORE: the answer to REG_MODEL comes first. */
  lemma StoreReads(b: Behaviour, start: Line, i: nat)
    requires Prompt(b, start) && b.writes(i + 1)
    ensures var both := b.answer(i) + b.answer(i + 1);
            var l := Line([], Tagged(b.answer(i), i));
            ReplyTo(b, l, i + 1, STORE_CHAR)
            == if both == [] then Silence else Bytes(both[..Min(|both|, RESPONSE_SIZE)])
  {
    assert PromptAt(b, i) && PromptAt(b, i + 1);
    var both := b.answer(i) + b.answer(i + 1);
    var l := Line([], Tagged(b.answer(i), i));
    var w := Write(b, l, i + 1);
    assert w.flight == Tagged(b.answer(i), i) + Tagged(b.answer(i + 1), i + 1);
    assert Values(w.flight) == both;
    var a := Arrive(w, b.atRead(i + 1));
    assert a.buffer == w.flight;
    var n := Min(|both|, RESPONSE_SIZE);
    assert ReadSize(b, w, i + 1) == n;
    assert Values(w.flight[..n]) == both[..n];
  }

  /** The bytes that decide over an enrolment: those of REG_MODEL, then those of STORE. */
  function Verdict(b: Behaviour, i: nat): seq<byte> {
    var both := b.answer(i) + b.answer(i + 1);
    both[..Min(|both|, RESPONSE_SIZE)]
  }

  /** On any line at all: what a command of a log is judged by begins with its own answer exactly
      when nothing older was on the line; for a poll and for the search, which flush, when every
      earlier answer had arrived by the flush.  By EnrolmentLog the log of an enrolment is one of
      these. */
  lemma JudgedByOwn(b: Behaviour, start: Line, l: seq<Event>, i: nat)
    requires OlderLine(start, 0) && Given(OnLine(b, start), l, 0)
    requires i < |l| && l[i].reply.Bytes?
    ensures var line := Replay(b, start, l[..i]);
            var r := ReadBy(b, line, i, l[i].cmd);
            && r != [] && l[i].reply == Bytes(Values(r))
            && (r[0].owner == i <==> Backlog(b, line, i, l[i].cmd) == [])
            && (l[i].cmd == GET_IMAGE || l[i].cmd == SEARCH ==> (r[0].owner == i <==> b.atFlush(i) >= |line.flight|))
  {
    hide Replay, ReadBy, Backlog;
    var line := Replay(b, start, l[..i]);
    ReplayOlder(b, start, l[..i]);
    OwnExact(b, line, i, l[i].cmd);
    if l[i].cmd == GET_IMAGE || l[i].cmd == SEARCH {
      BehindFlush(b, line, i, l[i].cmd);
    }
  }

  /** With a prompt sensor every command of an enrolment before STORE is judged by its own answer,
      the whole of it.  The enrolment succeeds exactly when STORE is written and the answers to
      REG_MODEL and STORE, read as one, begin with an acceptance. */
  lemma EnrolmentJudges(b: Behaviour, start: Line, ready: bool, fingerId: nat)
    requires fingerId < 0x1_0000 && Prompt(b, start)
    ensures var r := Enrol(OnLine(b, start), ready, fingerId);
            var l := r.log;
            && (forall i :: 0 <= i < |l| && l[i].cmd != REG_MODEL && l[i].cmd != STORE_CHAR ==> l[i].reply == OwnReply(b, i))
            && (r.ok <==> |l| >= 2 && Last(l).cmd == STORE_CHAR && b.writes(|l| - 1)
                          && var p := Payload(Verdict(b, |l| - 2)); p.Some? && p.value[0] == 0)
  {
    hide Enrol, Prompt, ReplyTo, Payload, OwnReply, Verdict;
    var w := OnLine(b, start);
    var r := Enrol(w, ready, fingerId);
    EnrolmentLog(w, ready, fingerId);
    EnrolmentIsSafe(w, ready, fingerId);
    var l := r.log;
    forall i | 0 <= i < |l| && Reads(l[i].cmd) && l[i].cmd != STORE_CHAR
      ensures l[i].reply == OwnReply(b, i)
    {
      OwnBeforeStore(b, start, l, i);
    }
    if |l| >= 2 && Last(l).cmd == STORE_CHAR {
      StoreJudged(b, start, l);
    }
  }

  lemma OwnBeforeStore(b: Behaviour, start: Line, l: seq<Event>, i: nat)
    requires Prompt(b, start) && EnrolmentShape(l) && Given(OnLine(b, start), l, 0)
    requires i < |l| && Reads(l[i].cmd) && l[i].cmd != STORE_CHAR
    ensures l[i].reply == OwnReply(b, i)
  {
    hide ReplyTo, OwnReply, Replay, Prompt;
    forall k | 0 <= k < i + 1
      ensures Reads(l[k].cmd)
    {
      assert l[k].cmd == REG_MODEL && k < i ==> i == k + 1;
    }
    EmptyInBetween(b, start, l, i + 1);
    assert Replay(b, start, l[..i]) == Replay(b, start, l[..i + 1 - 1]);
  }

  /** STORE was sent, after a REG_MODEL that was written. */
  lemma StoreJudged(b: Behaviour, start: Line, l: seq<Event>)
    requires Prompt(b, start) && EnrolmentShape(l) && Given(OnLine(b, start), l, 0)
    requires |l| >= 2 && Last(l).cmd == STORE_CHAR && !l[|l| - 2].reply.SendFailed?
    ensures Answered(Last(l), 0) <==>
            b.writes(|l| - 1) && var p := Payload(Verdict(b, |l| - 2)); p.Some? && p.value[0] == 0
  {
    hide Replay, Prompt, Payload, Given;
    var n := |l| - 2;
    StoreLine(b, start, l);
    assert Last(l).reply == ReplyTo(b, Line([], Tagged(b.answer(n), n)), n + 1, STORE_CHAR);
    if b.writes(n + 1) {
      StoreReads(b, start, n);
    }
    hide ReplyTo;
    NothingRead();
  }

  lemma NothingRead()
    ensures Payload([]) == None
  {}

  /** What is on the line when STORE goes out: the unread answer to REG_MODEL. */
  lemma StoreLine(b: Behaviour, start: Line, l: seq<Event>)
    requires Prompt(b, start) && EnrolmentShape(l) && Given(OnLine(b, start), l, 0)
    requires |l| >= 2 && Last(l).cmd == STORE_CHAR && !l[|l| - 2].reply.SendFailed?
    ensures Last(l).reply == ReplyTo(b, Line([], Tagged(b.answer(|l| - 2), |l| - 2)), |l| - 1, STORE_CHAR)
  {
    hide Prompt;
    var n := |l| - 2;
    assert l[n].cmd == REG_MODEL && l[n].reply == OnLine(b, start).reply(l[..n], REG_MODEL);
    assert b.writes(n);
    assert n > 0;
    EmptyInBetween(b, start, l, n);
    PromptStep(b, start, NOTHING, n, REG_MODEL);
    assert l[..n + 1][..n] == l[..n];
    assert Replay(b, start, l[..n + 1]) == LineAfter(b, NOTHING, n, REG_MODEL);
  }

  /** The confirmation code of a packet. */
  predicate HasCode(packet: seq<byte>, code: byte) {
    |packet| > 9 && packet[9] == code
  }

  lemma PromptEverywhere(b: Behaviour, start: Line, i: nat)
    requires Prompt(b, start)
    ensures |b.answer(i)| <= RESPONSE_SIZE
  {
    assert PromptAt(b, i);
  }

  lemma FirstPacketCounts(b: Behaviour, i: nat)
    requires HeaderAt(b.answer(i), 0) && |b.answer(i)| <= RESPONSE_SIZE
    ensures var p := Payload(Verdict(b, i)); p.Some? && (p.value[0] == 0 <==> HasCode(b.answer(i), 0))
  {
    var v := Verdict(b, i);
    assert forall k :: 0 <= k < |b.answer(i)| ==> v[k] == b.answer(i)[k];
    assert HeaderAt(v, 0);
  }

  /** So with a sensor that acknowledges REG_MODEL the outcome of an enrolment that gets as far as
      STORE is that of REG_MODEL, whatever the sensor answers to STORE: a refused STORE is reported
      as success, an accepted one as failure. */
  lemma StoreIsNotHeard(b: Behaviour, start: Line, ready: bool, fingerId: nat, r: Outcome, i: nat)
    requires HeaderAt(b.answer(i), 0) && b.writes(i + 1)
    requires |r.log| == i + 2 && Last(r.log).cmd == STORE_CHAR
    requires fingerId < 0x1_0000 && Prompt(b, start) && r == Enrol(OnLine(b, start), ready, fingerId)
    ensures r.ok <==> HasCode(b.answer(i), 0)
  {
    PromptEverywhere(b, start, i);
    hide *;
    EnrolmentJudges(b, start, ready, fingerId);
    FirstPacketCounts(b, i);
  }

  /** Only a sensor that is silent on REG_MODEL lets STORE speak for itself. */
  lemma StoreIsHeard(b: Behaviour, i: nat)
    requires b.answer(i) == [] && |b.answer(i + 1)| <= RESPONSE_SIZE
    ensures Verdict(b, i) == b.answer(i + 1)
  {
    assert [] + b.answer(i + 1) == b.answer(i + 1);
  }

  // ----- A refused STORE reported as success --------------------------------------------------

  /** An acknowledgement packet with the code. */
  function Ack(code: byte): (packet: seq<byte>)
    ensures |packet| == 12
  {
    [0xEF, 0x01, 0, 0, 0, 0, 0x07, 0, 0x03, code, 0, 0]
  }

  /** A sensor that answers every command at once and with an acceptance, an empty database among
      them, but refuses the fourteenth. */
  const REFUSES := Behaviour(_ => true, RefusesAtStore, _ => 32, _ => 32, _ => 16, _ => true)

  function RefusesAtStore(i: nat): seq<byte> {
    Ack(if i == 13 then 0x18 else 0)
  }

  lemma RefusesIsPrompt()
    ensures Prompt(REFUSES, NOTHING)
  {
    forall i: nat
      ensures PromptAt(REFUSES, i)
    {
      assert REFUSES.answer(i) == RefusesAtStore(i);
      assert i > 0 ==> REFUSES.answer(i - 1) == RefusesAtStore(i - 1);
    }
  }

  ghost predicate AllRead(h: seq<Event>) {
    forall i :: 0 <= i < |h| ==> Reads(h[i].cmd)
  }

  /** As long as everything was read, the line is empty and a command gets its own answer. */
  lemma {:induction false} QuietLine(h: seq<Event>)
    requires AllRead(h)
    ensures Replay(REFUSES, NOTHING, h) == NOTHING
  {
    hide Prompt, LineAfter;
    if h == [] {
    } else {
      QuietLine(h[..|h| - 1]);
      RefusesIsPrompt();
      EmptyAtWrite(REFUSES, |h| - 1, h[|h| - 1].cmd);
      PromptStep(REFUSES, NOTHING, NOTHING, |h| - 1, h[|h| - 1].cmd);
    }
  }

  function Accepted(cmd: byte, data: seq<byte>): Event {
    Event(cmd, data, Bytes(Ack(0)))
  }

  lemma AcceptedAt(h: seq<Event>, cmd: byte, data: seq<byte>)
    requires AllRead(h) && |h| < 13 && Reads(cmd)
    ensures Ask(OnLine(REFUSES, NOTHING), h, cmd, data) == h + [Accepted(cmd, data)]
    ensures AllRead(h + [Accepted(cmd, data)])
  {
    QuietLine(h);
    RefusesIsPrompt();
    hide Prompt, Replay, ReplyTo, LineAfter;
    EmptyAtWrite(REFUSES, |h|, cmd);
    PromptStep(REFUSES, NOTHING, NOTHING, |h|, cmd);
  }

  lemma AcceptedCode(cmd: byte, data: seq<byte>)
    ensures Answered(Accepted(cmd, data), 0) && CountsZero(Accepted(cmd, data))
  {
    assert HeaderAt(Ack(0), 0);
    assert FirstHeader(Ack(0), 0) == 0;
    assert Payload(Ack(0)) == Some([0, 0, 0]);
  }

  /** A stage is four accepted commands. */
  lemma AcceptedStage(h: seq<Event>, buffer: byte)
    requires AllRead(h) && |h| <= 8
    ensures var s := Stage(OnLine(REFUSES, NOTHING), h, buffer);
            s.ok && |s.log| == |h| + 4 && AllRead(s.log)
  {
    var w := OnLine(REFUSES, NOTHING);
    var a := h + [Accepted(GET_IMAGE, [])];
    var c := a + [Accepted(CAPTURE, [])];
    var g := c + [Accepted(GEN_CHAR, [buffer])];
    var n := g + [Accepted(TEMPLATE_NUM, [])];
    AcceptedAt(h, GET_IMAGE, []);
    AcceptedAt(a, CAPTURE, []);
    AcceptedAt(c, GEN_CHAR, [buffer]);
    AcceptedAt(g, TEMPLATE_NUM, []);
    AcceptedCode(GET_IMAGE, []);
    AcceptedCode(CAPTURE, []);
    AcceptedCode(GEN_CHAR, [buffer]);
    AcceptedCode(TEMPLATE_NUM, []);
    hide Ask, OnLine, Answered, CountsZero, AllRead;
    assert Detect(w, h, MAX_DETECT_ATTEMPTS) == Outcome(true, a);
    assert CaptureAndGenerate(w, a, buffer) == Outcome(true, g);
    assert CaptureWithRetry(w, a, buffer, THIRD_SAMPLE_RETRIES) == Outcome(true, g);
    assert CheckDuplicates(w, g, buffer) == Outcome(true, n);
  }

  /** Three stages, and then REG_MODEL and STORE. */
  lemma ReachesStore(fingerId: nat) returns (h: seq<Event>, r: Outcome)
    requires fingerId < 0x1_0000
    ensures |h| == 12 && r == StoreToFlash(OnLine(REFUSES, NOTHING), h, fingerId)
    ensures r == Enrol(OnLine(REFUSES, NOTHING), true, fingerId)
  {
    hide Stage, OnLine, StoreToFlash, AllRead;
    var w := OnLine(REFUSES, NOTHING);
    assert AllRead([]) by { NoneUnread(); }
    var one := Stage(w, [], 1);
    AcceptedStage([], 1);
    var two := Stage(w, one.log, 2);
    AcceptedStage(one.log, 2);
    var three := Stage(w, two.log, 3);
    AcceptedStage(two.log, 3);
    h := three.log;
    r := StoreToFlash(w, h, fingerId);
  }

  lemma NoneUnread()
    ensures AllRead([])
  {}

  lemma StoreSent(h: seq<Event>, fingerId: nat)
    requires fingerId < 0x1_0000
    ensures var l := StoreToFlash(OnLine(REFUSES, NOTHING), h, fingerId).log;
            |l| == |h| + 2 && Last(l).cmd == STORE_CHAR
  {
    hide Replay, Answered;
    assert !Last(Ask(OnLine(REFUSES, NOTHING), h, REG_MODEL, [])).reply.SendFailed?;
  }

  lemma RefusesAnswers()
    ensures HeaderAt(REFUSES.answer(12), 0) && HasCode(REFUSES.answer(12), 0)
    ensures REFUSES.writes(13) && REFUSES.answer(13) == Ack(0x18)
  {
    assert REFUSES.answer(12) == RefusesAtStore(12) && REFUSES.answer(13) == RefusesAtStore(13);
  }

  /** With this sensor an enrolment sends fourteen commands and reports success, although the last
      one, STORE, was refused with code 0x18. */
  lemma RefusedStoreIsReported(fingerId: nat) returns (r: Outcome)
    requires fingerId < 0x1_0000
    ensures r.ok && |r.log| == 14 && Last(r.log).cmd == STORE_CHAR && REFUSES.answer(13) == Ack(0x18)
    ensures r == Enrol(OnLine(REFUSES, NOTHING), true, fingerId)
  {
    hide *;
    var h;
    h, r := ReachesStore(fingerId);
    StoreSent(h, fingerId);
    RefusesIsPrompt();
    RefusesAnswers();
    StoreIsNotHeard(REFUSES, NOTHING, true, fingerId, r, 12);
  }
}
