/** Enrolment of a finger in three samples, against a sensor that may do anything. */
module Enrolment {
  import opened Options
  import opened SensorPackets

  const GET_IMAGE: byte := 0x01
  const GEN_CHAR: byte := 0x02
  const SEARCH: byte := 0x04
  const REG_MODEL: byte := 0x05
  const STORE_CHAR: byte := 0x06
  const TEMPLATE_NUM: byte := 0x1D
  const CAPTURE: byte := 0x29

  const MAX_DETECT_ATTEMPTS := 100
  const THIRD_SAMPLE_RETRIES := 3

  /** What becomes of a command: the write fails, nothing comes back in time, or these bytes
      are there to be read. */
  datatype Reply = SendFailed | Silence | Bytes(raw: seq<byte>)

  datatype Event = Event(cmd: byte, data: seq<byte>, reply: Reply)

  /** The sensor and the line: what is read after a command, which may depend on everything that
      went over the line before, and whether the port is open when the i-th command is about to
      be sent. */
  datatype World = World(reply: (seq<Event>, byte) -> Reply, open: nat -> bool)

  /** What receiveResponse gives: it reads at most 16 bytes and needs a header in them. */
  function Received(r: Reply): (p: Option<seq<byte>>)
    ensures p.Some? ==> |p.value| >= 3
  {
    if r.Bytes? then Payload(if |r.raw| <= 16 then r.raw else r.raw[..16]) else None
  }

  predicate Answered(e: Event, code: byte) {
    Received(e.reply).Some? && Received(e.reply).value[0] == code
  }

  function Ask(w: World, log: seq<Event>, cmd: byte, data: seq<byte>): seq<Event> {
    log + [Event(cmd, data, w.reply(log, cmd))]
  }

  function Last(log: seq<Event>): Event
    requires log != []
  {
    log[|log| - 1]
  }

  datatype Outcome = Outcome(ok: bool, log: seq<Event>)

  // ----- The steps ---------------------------------------------------------------------

  /** detectFinger with n attempts left. */
  function Detect(w: World, log: seq<Event>, n: nat): Outcome
    decreases n
  {
    if n == 0 then Outcome(false, log) else
    var l := Ask(w, log, GET_IMAGE, []);
    if Last(l).reply.SendFailed? then Outcome(false, l)
    else if Answered(Last(l), 0) then Outcome(true, l)
    else Detect(w, l, n - 1)
  }

  /** A command whose confirmation code has to be 0. */
  function Confirmed(w: World, log: seq<Event>, cmd: byte, data: seq<byte>): Outcome {
    var l := Ask(w, log, cmd, data);
    Outcome(Answered(Last(l), 0), l)
  }

  /** captureAndGenerateChar. */
  function CaptureAndGenerate(w: World, log: seq<Event>, buffer: byte): Outcome {
    var c := Confirmed(w, log, CAPTURE, []);
    if !c.ok then c else Confirmed(w, c.log, GEN_CHAR, [buffer])
  }

  /** captureAndGenerateCharWithRetry with n attempts left: a refused capture, a failed write, no
      answer and a poor image (code 0x01) are tried again, any other code is final. */
  function CaptureWithRetry(w: World, log: seq<Event>, buffer: byte, n: nat): Outcome
    decreases n
  {
    if n == 0 then Outcome(false, log) else
    var c := Confirmed(w, log, CAPTURE, []);
    if !c.ok then CaptureWithRetry(w, c.log, buffer, n - 1) else
    var g := Confirmed(w, c.log, GEN_CHAR, [buffer]);
    if g.ok then g
    else if Received(Last(g.log).reply).None? || Answered(Last(g.log), 1) then CaptureWithRetry(w, g.log, buffer, n - 1)
    else g
  }

  predicate CountsZero(e: Event) {
    Answered(e, 0) && Received(e.reply).value[1] == 0 && Received(e.reply).value[2] == 0
  }

  /** checkDuplicates: an empty database is enough; otherwise the search must say "not found". */
  function CheckDuplicates(w: World, log: seq<Event>, buffer: byte): Outcome {
    var l := Ask(w, log, TEMPLATE_NUM, []);
    if CountsZero(Last(l)) then Outcome(true, l)
    else if !w.open(|l|) then Outcome(false, l)
    else
      var s := Ask(w, l, SEARCH, [buffer, 0, 0, 0, 0x64]);
      Outcome(Answered(Last(s), 9), s)
  }

  /** storeToFlash: the vendor check is sent without waiting for an answer. */
  function StoreToFlash(w: World, log: seq<Event>, fingerId: nat): Outcome
    requires fingerId < 0x1_0000
  {
    var l := Ask(w, log, REG_MODEL, []);
    if Last(l).reply.SendFailed? then Outcome(false, l)
    else Confirmed(w, l, STORE_CHAR, [1, fingerId / 256, fingerId % 256])
  }

  /** One sample into the buffer; only the third is captured with retries. */
  function Stage(w: World, log: seq<Event>, buffer: byte): Outcome {
    var d := Detect(w, log, MAX_DETECT_ATTEMPTS);
    if !d.ok then d else
    var c := if buffer == 3 then CaptureWithRetry(w, d.log, buffer, THIRD_SAMPLE_RETRIES)
             else CaptureAndGenerate(w, d.log, buffer);
    if !c.ok then c else CheckDuplicates(w, c.log, buffer)
  }

  /** startEnrollment. */
  function Enrol(w: World, ready: bool, fingerId: nat): Outcome
    requires fingerId < 0x1_0000
  {
    if !ready then Outcome(false, []) else
    var one := Stage(w, [], 1);
    if !one.ok then one else
    var two := Stage(w, one.log, 2);
    if !two.ok then two else
    var three := Stage(w, two.log, 3);
    if !three.ok then three else StoreToFlash(w, three.log, fingerId)
  }

  // ----- What a passed sample looks like on the line --------------------------------------

  predicate NoStore(l: seq<Event>) {
    forall i :: 0 <= i < |l| ==> l[i].cmd != STORE_CHAR && l[i].cmd != REG_MODEL
  }

  predicate DuplicateCheckPassed(e: Event, buffer: byte) {
    || (e.cmd == TEMPLATE_NUM && CountsZero(e))
    || (e.cmd == SEARCH && e.data == [buffer, 0, 0, 0, 0x64] && Answered(e, 9))
  }

  /** In this order: a finger was seen, an image captured, its features put into the buffer
      right afterwards, and, last of all, no duplicate found. */
  predicate Sampled(l: seq<Event>, buffer: byte) {
    exists i, k ::
      && 0 <= i < k < |l| - 2
      && l[i].cmd == GET_IMAGE && Answered(l[i], 0)
      && l[k].cmd == CAPTURE && Answered(l[k], 0)
      && l[k + 1].cmd == GEN_CHAR && l[k + 1].data == [buffer] && Answered(l[k + 1], 0)
      && DuplicateCheckPassed(Last(l), buffer)
  }

  /** Each reply from position i on is what the world gave at that point. */
  ghost predicate Given(w: World, log: seq<Event>, i: nat) {
    forall k :: i <= k < |log| ==> log[k].reply == w.reply(log[..k], log[k].cmd)
  }

  /** What a step appends: replies of the world to at most so many commands, with neither a
      REG_MODEL nor a STORE among them. */
  ghost predicate Extends(w: World, after: seq<Event>, before: seq<Event>, most: nat) {
    && |before| <= |after| <= |before| + most && after[..|before|] == before
    && NoStore(after[|before|..]) && Given(w, after, |before|)
  }

  lemma ExtendsTrans(w: World, c: seq<Event>, b: seq<Event>, a: seq<Event>, m: nat, n: nat)
    requires Extends(w, b, a, m) && Extends(w, c, b, n)
    ensures Extends(w, c, a, m + n)
  {
    assert c[..|a|] == c[..|b|][..|a|];
    forall i | 0 <= i < |c[|a|..]|
      ensures c[|a|..][i].cmd != STORE_CHAR && c[|a|..][i].cmd != REG_MODEL
    {
      if |a| + i < |b| {
        assert c[|a| + i] == c[..|b|][|a| + i] == b[|a|..][i];
      } else {
        assert c[|a| + i] == c[|b|..][|a| + i - |b|];
      }
    }
    forall k | |a| <= k < |c|
      ensures c[k].reply == w.reply(c[..k], c[k].cmd)
    {
      if k < |b| {
        assert c[k] == c[..|b|][k] == b[k] && c[..k] == c[..|b|][..k] == b[..k];
      }
    }
  }

  lemma AskExtends(w: World, log: seq<Event>, cmd: byte, data: seq<byte>)
    requires cmd != STORE_CHAR && cmd != REG_MODEL
    ensures Extends(w, Ask(w, log, cmd, data), log, 1)
  {
    assert Ask(w, log, cmd, data)[..|log|] == log;
  }

  lemma {:induction false} DetectExtends(w: World, log: seq<Event>, n: nat)
    ensures var d := Detect(w, log, n);
            Extends(w, d.log, log, n)
            && (d.ok ==> |d.log| > |log| && Last(d.log).cmd == GET_IMAGE && Answered(Last(d.log), 0))
            && (n > 0 ==> |d.log| > |log| && d.log[|log|].cmd == GET_IMAGE)
    decreases n
  {
    if n == 0 {
    } else {
      var l := Ask(w, log, GET_IMAGE, []);
      AskExtends(w, log, GET_IMAGE, []);
      DetectExtends(w, l, n - 1);
      ExtendsTrans(w, Detect(w, l, n - 1).log, l, log, 1, n - 1);
      assert Extends(w, l, log, n);
    }
  }

  /** The last two events of a successful capture. */
  predicate CapturedLast(l: seq<Event>, from: nat, buffer: byte) {
    && |l| >= from + 2
    && l[|l| - 2].cmd == CAPTURE && Answered(l[|l| - 2], 0)
    && Last(l).cmd == GEN_CHAR && Last(l).data == [buffer] && Answered(Last(l), 0)
  }

  lemma ExtendsMore(w: World, b: seq<Event>, a: seq<Event>, m: nat, n: nat)
    requires Extends(w, b, a, m) && m <= n
    ensures Extends(w, b, a, n)
  {}

  /** One capture: two commands, and on success they are the last two. */
  lemma CaptureOnceExtends(w: World, log: seq<Event>, buffer: byte)
    ensures var c := Confirmed(w, log, CAPTURE, []);
            var g := Confirmed(w, c.log, GEN_CHAR, [buffer]);
            && Extends(w, c.log, log, 1) && Extends(w, g.log, log, 2)
            && (c.ok && g.ok ==> CapturedLast(g.log, |log|, buffer))
  {
    hide Extends, Answered;
    var c := Confirmed(w, log, CAPTURE, []);
    AskExtends(w, log, CAPTURE, []);
    AskExtends(w, c.log, GEN_CHAR, [buffer]);
    ExtendsTrans(w, Confirmed(w, c.log, GEN_CHAR, [buffer]).log, c.log, log, 1, 1);
  }

  lemma {:induction false} CaptureExtends(w: World, log: seq<Event>, buffer: byte, n: nat)
    ensures var c := CaptureWithRetry(w, log, buffer, n);
            Extends(w, c.log, log, 2 * n) && (c.ok ==> CapturedLast(c.log, |log|, buffer))
    decreases n, 1
  {
    if n == 0 {
      return;
    }
    var r := CaptureWithRetry(w, log, buffer, n);
    var c := Confirmed(w, log, CAPTURE, []);
    var g := Confirmed(w, c.log, GEN_CHAR, [buffer]);
    CaptureOnceExtends(w, log, buffer);
    if r == CaptureWithRetry(w, c.log, buffer, n - 1) {
      CaptureRetried(w, log, c.log, r, buffer, n, 1);
    } else if r == CaptureWithRetry(w, g.log, buffer, n - 1) {
      CaptureRetried(w, log, g.log, r, buffer, n, 2);
    } else {
      assert r == g && (g.ok ==> c.ok);
      ExtendsMore(w, g.log, log, 2, 2 * n);
    }
  }

  lemma {:induction false} CaptureRetried(w: World, log: seq<Event>, l: seq<Event>, r: Outcome, buffer: byte, n: nat, used: nat)
    requires n > 0 && used <= 2 && Extends(w, l, log, used)
    requires r == CaptureWithRetry(w, l, buffer, n - 1)
    ensures Extends(w, r.log, log, 2 * n) && (r.ok ==> CapturedLast(r.log, |log|, buffer))
    decreases n, 0
  {
    hide CaptureWithRetry, Answered, NoStore;
    CaptureExtends(w, l, buffer, n - 1);
    ExtendsTrans(w, r.log, l, log, used, 2 * n - 2);
    ExtendsMore(w, r.log, log, used + 2 * n - 2, 2 * n);
  }

  lemma CheckExtends(w: World, log: seq<Event>, buffer: byte)
    ensures var c := CheckDuplicates(w, log, buffer);
            Extends(w, c.log, log, 2) && |c.log| > |log| && (c.ok ==> DuplicateCheckPassed(Last(c.log), buffer))
  {
    var l := Ask(w, log, TEMPLATE_NUM, []);
    AskExtends(w, log, TEMPLATE_NUM, []);
    AskExtends(w, l, SEARCH, [buffer, 0, 0, 0, 0x64]);
    ExtendsTrans(w, Ask(w, l, SEARCH, [buffer, 0, 0, 0, 0x64]), l, log, 1, 1);
  }

  function StageBound(buffer: byte): nat {
    MAX_DETECT_ATTEMPTS + (if buffer == 3 then 2 * THIRD_SAMPLE_RETRIES else 2) + 2
  }

  lemma CaptureStageExtends(w: World, log: seq<Event>, buffer: byte)
    ensures var most := if buffer == 3 then 2 * THIRD_SAMPLE_RETRIES else 2;
            var c := if buffer == 3 then CaptureWithRetry(w, log, buffer, THIRD_SAMPLE_RETRIES)
                     else CaptureAndGenerate(w, log, buffer);
            Extends(w, c.log, log, most) && (c.ok ==> CapturedLast(c.log, |log|, buffer))
  {
    hide CaptureWithRetry, Extends, Answered;
    if buffer == 3 {
      CaptureExtends(w, log, buffer, THIRD_SAMPLE_RETRIES);
    } else {
      CaptureOnceExtends(w, log, buffer);
      ExtendsMore(w, Confirmed(w, log, CAPTURE, []).log, log, 1, 2);
    }
  }

  /** A stage sends no STORE and a bounded number of commands; if it succeeds, what it sent is a
      passed sample. */
  lemma StageExtends(w: World, log: seq<Event>, buffer: byte)
    ensures var s := Stage(w, log, buffer);
            Extends(w, s.log, log, StageBound(buffer)) && (s.ok ==> Sampled(s.log[|log|..], buffer))
  {
    hide Detect, CaptureWithRetry, CaptureAndGenerate, CheckDuplicates, Answered, DuplicateCheckPassed, NoStore, Sampled;
    var d := Detect(w, log, MAX_DETECT_ATTEMPTS);
    DetectExtends(w, log, MAX_DETECT_ATTEMPTS);
    if d.ok {
      var most := if buffer == 3 then 2 * THIRD_SAMPLE_RETRIES else 2;
      var c := if buffer == 3 then CaptureWithRetry(w, d.log, buffer, THIRD_SAMPLE_RETRIES)
               else CaptureAndGenerate(w, d.log, buffer);
      CaptureStageExtends(w, d.log, buffer);
      ExtendsTrans(w, c.log, d.log, log, MAX_DETECT_ATTEMPTS, most);
      if c.ok {
        var e := CheckDuplicates(w, c.log, buffer);
        CheckExtends(w, c.log, buffer);
        ExtendsTrans(w, e.log, c.log, log, MAX_DETECT_ATTEMPTS + most, 2);
        if e.ok {
          SampledBy(w, e.log, c.log, d.log, log, buffer, MAX_DETECT_ATTEMPTS, most);
        }
      }
    }
  }

  lemma SampledBy(w: World, e: seq<Event>, c: seq<Event>, d: seq<Event>, log: seq<Event>, buffer: byte, m: nat, n: nat)
    requires Extends(w, d, log, m) && Extends(w, c, d, n) && Extends(w, e, c, 2)
    requires |d| > |log| && Last(d).cmd == GET_IMAGE && Answered(Last(d), 0)
    requires CapturedLast(c, |d|, buffer)
    requires |e| > |c| && DuplicateCheckPassed(Last(e), buffer)
    ensures Sampled(e[|log|..], buffer)
  {
    var l := e[|log|..];
    var i, k := |d| - 1 - |log|, |c| - 2 - |log|;
    assert e[|d| - 1] == e[..|c|][|d| - 1] == c[..|d|][|d| - 1] == Last(d);
    assert e[|c| - 2] == e[..|c|][|c| - 2] && e[|c| - 1] == e[..|c|][|c| - 1];
    assert l[i] == e[|d| - 1] && l[k] == e[|c| - 2] && l[k + 1] == e[|c| - 1] && Last(l) == Last(e);
  }

  // ----- Main result -------------------------------------------------------------------------

  /** The whole log of an enrolment that got as far as STORE. */
  ghost predicate StoredAfterThreeSamples(log: seq<Event>, fingerId: nat)
    requires fingerId < 0x1_0000
  {
    exists a, b, c ::
      && 0 <= a <= b <= c == |log| - 2
      && Sampled(log[..a], 1) && Sampled(log[a..b], 2) && Sampled(log[b..c], 3)
      && log[c].cmd == REG_MODEL && !log[c].reply.SendFailed?
      && log[c + 1].cmd == STORE_CHAR && log[c + 1].data == [1, fingerId / 256, fingerId % 256]
  }

  const MAX_COMMANDS := 318

  /** Enrolment is safe against any sensor: a STORE is the last command of the run if there is
      one, and then buffers 1, 2 and 3 were filled in this order, each from an accepted image and
      capture and after a passed duplicate check; the run succeeds exactly when what is read after
      STORE is an acceptance, and no run sends more than 318 commands. */
  lemma EnrolmentIsSafe(w: World, ready: bool, fingerId: nat)
    requires fingerId < 0x1_0000
    ensures var r := Enrol(w, ready, fingerId);
            && |r.log| <= MAX_COMMANDS && (r.log == [] <==> !ready)
            && (forall i :: 0 <= i < |r.log| && r.log[i].cmd == STORE_CHAR ==>
                  i == |r.log| - 1 && StoredAfterThreeSamples(r.log, fingerId))
            && (r.ok <==> r.log != [] && Last(r.log).cmd == STORE_CHAR && Answered(Last(r.log), 0))
  {
    hide Stage, Sampled, Answered;
    if ready {
      StageStarts(w, [], 1);
      var one := Stage(w, [], 1);
      StageExtends(w, [], 1);
      assert one.log[0..] == one.log;
      if one.ok {
        var two := Stage(w, one.log, 2);
        StageExtends(w, one.log, 2);
        ExtendsTrans(w, two.log, one.log, [], StageBound(1), StageBound(2));
        assert two.log[0..] == two.log;
        if two.ok {
          var three := Stage(w, two.log, 3);
          StageExtends(w, two.log, 3);
          ExtendsTrans(w, three.log, two.log, [], StageBound(1) + StageBound(2), StageBound(3));
          assert three.log[0..] == three.log;
          if three.ok {
            StoreCompletes(w, one.log, two.log, three.log, fingerId);
          }
        }
      }
    }
  }

  lemma StoreCompletes(w: World, one: seq<Event>, two: seq<Event>, three: seq<Event>, fingerId: nat)
    requires fingerId < 0x1_0000
    requires Extends(w, one, [], StageBound(1)) && Extends(w, two, one, StageBound(2)) && Extends(w, three, two, StageBound(3))
    requires NoStore(three) && |three| <= MAX_COMMANDS - 2
    requires Sampled(one, 1) && Sampled(two[|one|..], 2) && Sampled(three[|two|..], 3)
    ensures var r := StoreToFlash(w, three, fingerId);
            && |r.log| <= MAX_COMMANDS
            && (forall i :: 0 <= i < |r.log| && r.log[i].cmd == STORE_CHAR ==>
                  i == |r.log| - 1 && StoredAfterThreeSamples(r.log, fingerId))
            && (r.ok <==> r.log != [] && Last(r.log).cmd == STORE_CHAR && Answered(Last(r.log), 0))
  {
    hide Sampled, Answered;
    var r := StoreToFlash(w, three, fingerId);
    if Last(r.log).cmd == STORE_CHAR {
      var a, b, c := |one|, |two|, |three|;
      assert r.log[..a] == three[..a] == three[..b][..a] == one;
      assert r.log[a..b] == three[..b][a..] == two[a..];
      assert r.log[b..c] == three[b..];
    }
  }

  // ----- The shape of the log -------------------------------------------------------------

  lemma StageStarts(w: World, log: seq<Event>, buffer: byte)
    ensures var s := Stage(w, log, buffer); |s.log| > |log| && s.log[|log|].cmd == GET_IMAGE
  {
    hide Detect, CaptureWithRetry, CaptureAndGenerate, CheckDuplicates, NoStore, Given;
    var d := Detect(w, log, MAX_DETECT_ATTEMPTS);
    DetectExtends(w, log, MAX_DETECT_ATTEMPTS);
    if d.ok {
      var c := if buffer == 3 then CaptureWithRetry(w, d.log, buffer, THIRD_SAMPLE_RETRIES)
               else CaptureAndGenerate(w, d.log, buffer);
      CaptureStageExtends(w, d.log, buffer);
      CheckExtends(w, c.log, buffer);
      assert c.log[|log|] == c.log[..|d.log|][|log|];
      if c.ok {
        var e := CheckDuplicates(w, c.log, buffer);
        assert e.log[|log|] == e.log[..|c.log|][|log|];
      }
    }
  }

  /** An enrolment is three stages, which send neither REG_MODEL nor STORE, and then the two. */
  lemma EnrolParts(w: World, fingerId: nat) returns (l: seq<Event>)
    requires fingerId < 0x1_0000
    ensures Extends(w, l, [], MAX_COMMANDS - 2) && l != [] && l[0].cmd == GET_IMAGE
    ensures var r := Enrol(w, true, fingerId); r == Outcome(false, l) || r == StoreToFlash(w, l, fingerId)
  {
    hide Stage, StoreToFlash, NoStore, Given;
    var one := Stage(w, [], 1);
    StageExtends(w, [], 1);
    StageStarts(w, [], 1);
    l := one.log;
    if one.ok {
      var two := Stage(w, one.log, 2);
      StageExtends(w, one.log, 2);
      ExtendsTrans(w, two.log, one.log, [], StageBound(1), StageBound(2));
      assert two.log[0] == two.log[..|one.log|][0];
      l := two.log;
      if two.ok {
        var three := Stage(w, two.log, 3);
        StageExtends(w, two.log, 3);
        ExtendsTrans(w, three.log, two.log, [], StageBound(1) + StageBound(2), StageBound(3));
        assert three.log[0] == three.log[..|two.log|][0];
        l := three.log;
      }
    }
    ExtendsMore(w, l, [], |l|, MAX_COMMANDS - 2);
  }

  /** The first command asks for an image; REG_MODEL is sent once, if at all, and only STORE
      follows it; and each reply is what the world gave at that point. */
  lemma EnrolmentLog(w: World, ready: bool, fingerId: nat)
    requires fingerId < 0x1_0000
    ensures var l := Enrol(w, ready, fingerId).log;
            && Given(w, l, 0) && (l != [] ==> l[0].cmd == GET_IMAGE)
            && (forall i :: 0 <= i < |l| && l[i].cmd == REG_MODEL ==> i + 2 >= |l|)
            && (forall i :: 0 <= i < |l| - 1 && l[i].cmd == REG_MODEL ==> l[i + 1].cmd == STORE_CHAR)
            && (forall i :: 0 <= i < |l| && l[i].cmd == STORE_CHAR ==> i == |l| - 1 && i > 0 && l[i - 1].cmd == REG_MODEL)
  {
    if ready {
      var l := EnrolParts(w, fingerId);
      var r := Enrol(w, true, fingerId);
      hide Enrol, Stage;
      assert l[0..] == l;
      if r == StoreToFlash(w, l, fingerId) {
        var m := Ask(w, l, REG_MODEL, []);
        assert m[..|l|] == l;
        forall k | 0 <= k < |r.log|
          ensures r.log[k].reply == w.reply(r.log[..k], r.log[k].cmd)
        {
          assert k < |l| ==> r.log[..k] == l[..k] && r.log[k] == l[k];
          assert k == |l| ==> r.log[..k] == l;
          assert k == |l| + 1 ==> r.log[..k] == m;
        }
      }
    }
  }
}
