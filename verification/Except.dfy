/** The exception macros of except.h: TRY, EXCEPT, ELSE, FINALLY, END_TRY, RAISE.
    A client program is a Stmt.  Eval gives it the meaning a structured exception
    construct has; Expand gives the C statements the macros turn it into; and a
    machine with Except_stack, saved continuations and longjmp executes those. */
module Except {
  import opened Options

  /** The address of an Except_t. */
  type Exc = nat

  /** __FILE__ and __LINE__ of the RAISE. */
  datatype Site = Site(file: string, line: int)

  // ----- Client programs ---------------------------------------------------------

  /** Branches and loops take their decisions from a tape of booleans, so that a
      program together with a tape stands for one terminating run of any C code. */
  datatype Stmt =
    | Nop
    | Emit(event: int)
    | Then(first: Stmt, second: Stmt)
    | If(yes: Stmt, no: Stmt)
    | While(body: Stmt)
    | Raise(exc: Exc, site: Site)
    | Try(block: Stmt, handlers: Handlers, cleanup: Cleanup)

  /** The EXCEPT clauses in order, the last of which may be an ELSE. */
  datatype Handlers = NoHandler | Else(handler: Stmt) | On(exc: Exc, handler: Stmt, rest: Handlers)

  datatype Cleanup = NoFinally | Finally(action: Stmt)

  datatype Outcome = Normal | Raised(exc: Exc, site: Site)

  datatype Result = Result(out: Outcome, trace: seq<int>, tape: seq<bool>)

  /** The result r, preceded by the events of trace. */
  function After(trace: seq<int>, r: Result): Result {
    r.(trace := trace + r.trace)
  }

  /** Structured meaning.  An exception raised by a handler or by a FINALLY action goes
      outward at once: a handler that raises skips the FINALLY of its own block. */
  function Eval(s: Stmt, tape: seq<bool>): (r: Result)
    ensures |r.tape| <= |tape|
    decreases |tape|, s
  {
    match s
    case Nop => Result(Normal, [], tape)
    case Emit(event) => Result(Normal, [event], tape)
    case Then(first, second) =>
      var r := Eval(first, tape);
      if r.out.Raised? then r else After(r.trace, Eval(second, r.tape))
    case If(yes, no) =>
      if tape == [] then Eval(no, tape)
      else if tape[0] then Eval(yes, tape[1..])
      else Eval(no, tape[1..])
    case While(body) =>
      if tape == [] then Result(Normal, [], tape)
      else if !tape[0] then Result(Normal, [], tape[1..])
      else
        var r := Eval(body, tape[1..]);
        if r.out.Raised? then r else After(r.trace, Eval(s, r.tape))
    case Raise(exc, site) => Result(Raised(exc, site), [], tape)
    case Try(block, handlers, cleanup) =>
      var r := Eval(block, tape);
      match r.out
      case Normal => After(r.trace, EvalCleanup(cleanup, r.tape))
      case Raised(exc, site) =>
        match EvalHandlers(handlers, exc, r.tape)
        case Some(h) =>
          if h.out.Raised? then After(r.trace, h)
          else After(r.trace + h.trace, EvalCleanup(cleanup, h.tape))
        case None =>
          var f := EvalCleanup(cleanup, r.tape);
          After(r.trace, if f.out.Raised? then f else f.(out := r.out))
  }

  /** The run of the clause that handles exc, if there is one. */
  function EvalHandlers(hs: Handlers, exc: Exc, tape: seq<bool>): (r: Option<Result>)
    ensures r.Some? ==> |r.value.tape| <= |tape|
    decreases |tape|, hs
  {
    match hs
    case NoHandler => None
    case Else(handler) => Some(Eval(handler, tape))
    case On(e, handler, rest) =>
      if e == exc then Some(Eval(handler, tape)) else EvalHandlers(rest, exc, tape)
  }

  function EvalCleanup(c: Cleanup, tape: seq<bool>): (r: Result)
    ensures |r.tape| <= |tape|
    decreases |tape|, c
  {
    match c
    case NoFinally => Result(Normal, [], tape)
    case Finally(action) => Eval(action, tape)
  }

  // ----- What the macros expand to ---------------------------------------------------

  /** Values of Except_flag. */
  datatype Flag = Entered | RaisedFlag | Handled | Finalized

  /** The place in a block where a guarded pop of Except_stack stands.  Execution does
      not look at it; it only names the place for the frame-stack invariant. */
  datatype Region = BodyEnd | HandlerEnd | FinallyEnd

  datatype Code =
    | CNop
    | CEmit(event: int)
    | CSeq(first: Code, second: Code)
    | CIf(yes: Code, no: Code)
    | CWhile(body: Code)
    | CRaise(exc: Exc, site: Site)                // Except_raise(&e, file, line)
    | CBlock(inner: Code)                         // do { locals; push frame; setjmp; inner } while (0)
    | CIfFlag(flag: Flag, yes: Code, no: Code)    // if (Except_flag == flag) yes else no
    | CIfExc(exc: Exc, yes: Code, no: Code)       // if (Except_frame.exception == &e) yes else no
    | CSetFlag(flag: Flag)                        // Except_flag = flag
    | CPopIfEntered(region: Region)               // if (Except_flag == Except_entered) Except_stack = Except_stack->prev
    | CReraise                                    // RERAISE

  function Expand(s: Stmt): Code {
    match s
    case Nop => CNop
    case Emit(event) => CEmit(event)
    case Then(first, second) => CSeq(Expand(first), Expand(second))
    case If(yes, no) => CIf(Expand(yes), Expand(no))
    case While(body) => CWhile(Expand(body))
    case Raise(exc, site) => CRaise(exc, site)
    case Try(block, handlers, cleanup) =>
      CBlock(TryCode(Expand(block), ExpandHandlers(handlers), ExpandCleanup(cleanup)))
  }

  /** What stands behind the setjmp of a TRY block. */
  function TryCode(block: Code, handlers: Code, cleanup: Code): Code {
    CSeq(CIfFlag(Entered, CSeq(block, CPopIfEntered(BodyEnd)), handlers), Epilogue(cleanup))
  }

  function Epilogue(cleanup: Code): Code {
    CSeq(cleanup, CIfFlag(RaisedFlag, CReraise, CNop))
  }

  function HandlerCode(handler: Code): Code {
    CSeq(CSetFlag(Handled), CSeq(handler, CPopIfEntered(HandlerEnd)))
  }

  function ExpandHandlers(hs: Handlers): Code {
    match hs
    case NoHandler => CNop
    case Else(handler) => HandlerCode(Expand(handler))
    case On(exc, handler, rest) => CIfExc(exc, HandlerCode(Expand(handler)), ExpandHandlers(rest))
  }

  function ExpandCleanup(c: Cleanup): Code {
    match c
    case NoFinally => CNop
    case Finally(action) =>
      CSeq(CIfFlag(Entered, CSetFlag(Finalized), CNop),
           CSeq(Expand(action), CPopIfEntered(FinallyEnd)))
  }

  // ----- The machine -------------------------------------------------------------------

  /** Code still to execute, each piece in the scope of the TRY block whose Except_flag and
      Except_frame it names (None outside every block). */
  datatype Kont = Done | More(code: Code, scope: Option<nat>, rest: Kont)

  /** The locals of one TRY block: Except_flag and Except_frame. */
  datatype Locals = Locals(prev: Option<nat>, env: Kont, flag: Flag, thrown: Option<(Exc, Site)>)

  datatype Config =
    | Running(kont: Kont, mem: seq<Locals>, stack: Option<nat>, tape: seq<bool>, trace: seq<int>)
    | Aborted(exc: Exc, site: Site, tape: seq<bool>, trace: seq<int>)  // uncaught: message, then abort()
    | Undefined                                                       // a null or unset pointer was followed

  /** Except_raise. */
  function Throw(mem: seq<Locals>, stack: Option<nat>, tape: seq<bool>, trace: seq<int>,
                 exc: Exc, site: Site): Config
  {
    match stack
    case None => Aborted(exc, site, tape, trace)
    case Some(p) =>
      if p >= |mem| then Undefined
      else Running(mem[p].env, mem[p := mem[p].(flag := RaisedFlag, thrown := Some((exc, site)))],
                   mem[p].prev, tape, trace)
  }

  /** Statements that read or write the locals of the block b. */
  function StepLocal(c: Config, code: Code, b: nat, rest: Kont): Config
    requires c.Running?
  {
    if b >= |c.mem| then Undefined else
    var l := c.mem[b];
    match code
    case CIfFlag(flag, yes, no) =>
      c.(kont := More(if l.flag == flag then yes else no, Some(b), rest))
    case CIfExc(exc, yes, no) =>
      if l.thrown.None? then Undefined
      else c.(kont := More(if l.thrown.value.0 == exc then yes else no, Some(b), rest))
    case CSetFlag(flag) =>
      c.(kont := rest, mem := c.mem[b := l.(flag := flag)])
    case CPopIfEntered(_) =>
      if l.flag != Entered then c.(kont := rest)
      else if c.stack.None? || c.stack.value >= |c.mem| then Undefined
      else c.(kont := rest, stack := c.mem[c.stack.value].prev)
    case CReraise =>
      if l.thrown.None? then Undefined
      else Throw(c.mem, c.stack, c.tape, c.trace, l.thrown.value.0, l.thrown.value.1)
    case _ => Undefined
  }

  /** One statement.  A block allocates its locals, links the new frame into Except_stack
      and lets setjmp save the continuation that starts with the code behind it. */
  function Step(c: Config): Config {
    if !c.Running? || c.kont.Done? then c else
    var k := c.kont.rest;
    var scope := c.kont.scope;
    match c.kont.code
    case CNop => c.(kont := k)
    case CEmit(event) => c.(kont := k, trace := c.trace + [event])
    case CSeq(first, second) => c.(kont := More(first, scope, More(second, scope, k)))
    case CIf(yes, no) =>
      if c.tape == [] then c.(kont := More(no, scope, k))
      else c.(kont := More(if c.tape[0] then yes else no, scope, k), tape := c.tape[1..])
    case CWhile(body) =>
      if c.tape == [] then c.(kont := k)
      else if !c.tape[0] then c.(kont := k, tape := c.tape[1..])
      else c.(kont := More(body, scope, More(c.kont.code, scope, k)), tape := c.tape[1..])
    case CRaise(exc, site) => Throw(c.mem, c.stack, c.tape, c.trace, exc, site)
    case CBlock(inner) =>
      var b := |c.mem|;
      c.(kont := More(inner, Some(b), k),
         mem := c.mem + [Locals(c.stack, More(inner, Some(b), k), Entered, None)],
         stack := Some(b))
    case _ => if scope.None? then Undefined else StepLocal(c, c.kont.code, scope.value, k)
  }

  function Steps(c: Config, n: nat): Config
    decreases n
  {
    if n == 0 then c else Steps(Step(c), n - 1)
  }

  function Init(s: Stmt, tape: seq<bool>): Config {
    Running(More(Expand(s), None, Done), [], None, tape, [])
  }

  predicate Halted(c: Config) {
    !c.Running? || c.kont.Done?
  }

  // ----- Reachability ------------------------------------------------------------------

  ghost predicate Reaches(c: Config, d: Config) {
    exists n: nat :: Steps(c, n) == d
  }

  lemma {:induction false} StepsAdd(c: Config, m: nat, n: nat)
    ensures Steps(c, m + n) == Steps(Steps(c, m), n)
    decreases m
  {
    if m == 0 {
    } else {
      StepsAdd(Step(c), m - 1, n);
    }
  }

  lemma ReachesTrans(c: Config, d: Config, e: Config)
    requires Reaches(c, d) && Reaches(d, e)
    ensures Reaches(c, e)
  {
    var m: nat :| Steps(c, m) == d;
    var n: nat :| Steps(d, n) == e;
    StepsAdd(c, m, n);
  }

  lemma ReachesRefl(c: Config)
    ensures Reaches(c, c)
  {
    assert Steps(c, 0) == c;
  }

  /** If c reaches d, it reaches what d becomes in one step. */
  lemma ReachesStep(c: Config, d: Config)
    requires Reaches(c, d)
    ensures Reaches(c, Step(d))
  {
    assert Steps(d, 1) == Steps(Step(d), 0) == Step(d);
    ReachesTrans(c, d, Step(d));
  }

  lemma ReachesStep2(c: Config, d: Config)
    requires Reaches(c, d)
    ensures Reaches(c, Step(Step(d)))
  {
    ReachesStep(c, d);
    ReachesStep(c, Step(d));
  }

  lemma ReachesStep3(c: Config, d: Config)
    requires Reaches(c, d)
    ensures Reaches(c, Step(Step(Step(d))))
  {
    ReachesStep2(c, d);
    ReachesStep(c, Step(Step(d)));
  }

  // ----- The expansion preserves meaning ----------------------------------------------

  /** The configuration after code with result r has run in front of k: control is at k with
      the frame stack as it was on entry, or Except_raise has been called on that stack. */
  function Outcomes(r: Result, k: Kont, mem: seq<Locals>, stack: Option<nat>, trace: seq<int>): Config {
    match r.out
    case Normal => Running(k, mem, stack, r.tape, trace + r.trace)
    case Raised(exc, site) => Throw(mem, stack, r.tape, trace + r.trace, exc, site)
  }

  lemma ThroughAfter(r: Result, k: Kont, mem: seq<Locals>, stack: Option<nat>, trace: seq<int>, before: seq<int>)
    ensures Outcomes(After(before, r), k, mem, stack, trace) == Outcomes(r, k, mem, stack, trace + before)
  {
    assert trace + (before + r.trace) == trace + before + r.trace;
  }

  /** Simulation: from any continuation, memory and frame stack, the expansion of s gives the
      outcome of Eval, and leaves the locals of every older block as they were. */
  lemma {:induction false} Simulates(s: Stmt, scope: Option<nat>, k: Kont, mem: seq<Locals>,
                                     stack: Option<nat>, tape: seq<bool>, trace: seq<int>)
      returns (mem': seq<Locals>)
    requires stack.Some? ==> stack.value < |mem|
    ensures mem <= mem'
    ensures Reaches(Running(More(Expand(s), scope, k), mem, stack, tape, trace),
                    Outcomes(Eval(s, tape), k, mem', stack, trace))
    decreases |tape|, s, 2
  {
    mem' := mem;
    var c := Running(More(Expand(s), scope, k), mem, stack, tape, trace);
    ReachesRefl(c);
    ReachesStep(c, c);
    match s
    case Nop => assert trace + [] == trace;
    case Emit(event) =>
    case Raise(exc, site) => assert trace + [] == trace;
    case Then(first, second) =>
      var r := Eval(first, tape);
      var mem1 := Simulates(first, scope, More(Expand(second), scope, k), mem, stack, tape, trace);
      ReachesTrans(c, Step(c), Outcomes(r, More(Expand(second), scope, k), mem1, stack, trace));
      mem' := mem1;
      if r.out.Normal? {
        mem' := Simulates(second, scope, k, mem1, stack, r.tape, trace + r.trace);
        ThroughAfter(Eval(second, r.tape), k, mem', stack, trace, r.trace);
        ReachesTrans(c, Running(More(Expand(second), scope, k), mem1, stack, r.tape, trace + r.trace),
                     Outcomes(Eval(s, tape), k, mem', stack, trace));
      }
    case If(yes, no) =>
      var branch := if tape == [] || !tape[0] then no else yes;
      var tape' := if tape == [] then tape else tape[1..];
      mem' := Simulates(branch, scope, k, mem, stack, tape', trace);
      ReachesTrans(c, Step(c), Outcomes(Eval(s, tape), k, mem', stack, trace));
    case While(body) =>
      if tape == [] || !tape[0] {
        assert trace + [] == trace;
      } else {
        var again := More(Expand(s), scope, k);
        var r := Eval(body, tape[1..]);
        var mem1 := Simulates(body, scope, again, mem, stack, tape[1..], trace);
        ReachesTrans(c, Step(c), Outcomes(r, again, mem1, stack, trace));
        mem' := mem1;
        if r.out.Normal? {
          mem' := Simulates(s, scope, k, mem1, stack, r.tape, trace + r.trace);
          ThroughAfter(Eval(s, r.tape), k, mem', stack, trace, r.trace);
          ReachesTrans(c, Running(again, mem1, stack, r.tape, trace + r.trace),
                       Outcomes(Eval(s, tape), k, mem', stack, trace));
        }
      }
    case Try(_, _, _) =>
      mem' := SimulatesTry(s, scope, k, mem, stack, tape, trace);
  }

  lemma {:induction false} SimulatesTry(s: Stmt, scope: Option<nat>, k: Kont, mem: seq<Locals>,
                                        stack: Option<nat>, tape: seq<bool>, trace: seq<int>)
      returns (mem': seq<Locals>)
    requires s.Try?
    requires stack.Some? ==> stack.value < |mem|
    ensures mem <= mem'
    ensures Reaches(Running(More(Expand(s), scope, k), mem, stack, tape, trace),
                    Outcomes(Eval(s, tape), k, mem', stack, trace))
    decreases |tape|, s, 1
  {
    var b := |mem|;
    var after := More(Epilogue(ExpandCleanup(s.cleanup)), Some(b), k);
    var popped := More(CPopIfEntered(BodyEnd), Some(b), after);
    var c := Running(More(Expand(s), scope, k), mem, stack, tape, trace);
    var l := Locals(stack, More(Expand(s).inner, Some(b), k), Entered, None);
    var mem1 := mem + [l];

    var start := Running(More(Expand(s.block), Some(b), popped), mem1, Some(b), tape, trace);
    EntersBody(s, scope, k, mem, stack, tape, trace);
    var r := Eval(s.block, tape);
    var mem2 := Simulates(s.block, Some(b), popped, mem1, Some(b), tape, trace);
    var ended := Outcomes(r, popped, mem2, Some(b), trace);
    ReachesTrans(c, start, ended);
    assert mem2[b] == l;

    if r.out.Normal? {
      // the body ended: pop the frame, then the cleanup
      ReachesStep(c, ended);
      mem' := SimulatesEpilogue(s.cleanup, b, k, mem2, stack, r.tape, trace + r.trace);
      ThroughAfter(EvalCleanup(s.cleanup, r.tape), k, mem', stack, trace, r.trace);
      ReachesTrans(c, Step(ended), Outcomes(Eval(s, tape), k, mem', stack, trace));
    } else {
      // longjmp: back to the setjmp of this block, its frame off the stack
      mem' := SimulatesCatch(s, k, mem2, stack, tape, trace, mem);
      ReachesTrans(c, ended, Outcomes(Eval(s, tape), k, mem', stack, trace));
    }
  }

  lemma EntersBody(s: Stmt, scope: Option<nat>, k: Kont, mem: seq<Locals>,
                   stack: Option<nat>, tape: seq<bool>, trace: seq<int>)
    requires s.Try?
    ensures var b := |mem|;
            var after := More(Epilogue(ExpandCleanup(s.cleanup)), Some(b), k);
            Reaches(Running(More(Expand(s), scope, k), mem, stack, tape, trace),
                    Running(More(Expand(s.block), Some(b), More(CPopIfEntered(BodyEnd), Some(b), after)),
                            mem + [Locals(stack, More(Expand(s).inner, Some(b), k), Entered, None)],
                            Some(b), tape, trace))
  {
    var c := Running(More(Expand(s), scope, k), mem, stack, tape, trace);
    ReachesRefl(c);
    ReachesStep(c, c);
    ReachesStep3(c, Step(c));
  }

  /** From the moment a raise in the body of s longjmps to its frame. */
  lemma {:induction false} SimulatesCatch(s: Stmt, k: Kont, mem: seq<Locals>, stack: Option<nat>,
                                          tape: seq<bool>, trace: seq<int>, mem0: seq<Locals>)
      returns (mem': seq<Locals>)
    requires s.Try? && Eval(s.block, tape).out.Raised?
    requires mem0 < mem && (stack.Some? ==> stack.value < |mem0|)
    requires mem[|mem0|] == Locals(stack, More(Expand(s).inner, Some(|mem0|), k), Entered, None)
    ensures mem0 <= mem'
    ensures var r := Eval(s.block, tape);
            Reaches(Throw(mem, Some(|mem0|), r.tape, trace + r.trace, r.out.exc, r.out.site),
                    Outcomes(Eval(s, tape), k, mem', stack, trace))
    decreases |tape|, s, 0
  {
    var b := |mem0|;
    var r := Eval(s.block, tape);
    var after := More(Epilogue(ExpandCleanup(s.cleanup)), Some(b), k);
    var c := Throw(mem, Some(b), r.tape, trace + r.trace, r.out.exc, r.out.site);
    var mem1 := mem[b := mem[b].(flag := RaisedFlag, thrown := Some((r.out.exc, r.out.site)))];
    var caught := Running(More(ExpandHandlers(s.handlers), Some(b), after), mem1, stack, r.tape, trace + r.trace);
    assert Reaches(c, caught) by {
      ReachesRefl(c);
      ReachesStep2(c, c);
    }
    var mem2 := SimulatesHandlers(s.handlers, b, after, mem1, stack, r.tape, trace + r.trace);
    assert mem2[..b] == mem1[..b] == mem0;
    mem' := mem2;
    match EvalHandlers(s.handlers, r.out.exc, r.tape)
    case Some(h) =>
      ReachesTrans(c, caught, Outcomes(h, after, mem2, stack, trace + r.trace));
      ThroughAfter(h, k, mem2, stack, trace, r.trace);
      if h.out.Normal? {
        var f := EvalCleanup(s.cleanup, h.tape);
        mem' := SimulatesEpilogue(s.cleanup, b, k, mem2, stack, h.tape, trace + r.trace + h.trace);
        ThroughAfter(f, k, mem', stack, trace, r.trace + h.trace);
        assert trace + (r.trace + h.trace) == trace + r.trace + h.trace;
        ReachesTrans(c, Running(after, mem2, stack, h.tape, trace + r.trace + h.trace),
                     Outcomes(Eval(s, tape), k, mem', stack, trace));
      }
    case None =>
      ReachesTrans(c, caught, Running(after, mem2, stack, r.tape, trace + r.trace));
      var f := EvalCleanup(s.cleanup, r.tape);
      mem' := SimulatesEpilogue(s.cleanup, b, k, mem2, stack, r.tape, trace + r.trace);
      ThroughAfter(if f.out.Raised? then f else f.(out := r.out), k, mem', stack, trace, r.trace);
      ReachesTrans(c, Running(after, mem2, stack, r.tape, trace + r.trace),
                   Outcomes(Eval(s, tape), k, mem', stack, trace));
  }

  /** The chain of handler tests, entered with the flag raised. */
  lemma {:induction false} SimulatesHandlers(hs: Handlers, b: nat, after: Kont, mem: seq<Locals>,
                                             stack: Option<nat>, tape: seq<bool>, trace: seq<int>)
      returns (mem': seq<Locals>)
    requires b < |mem| && mem[b].flag == RaisedFlag && mem[b].thrown.Some?
    requires stack.Some? ==> stack.value < b
    ensures |mem| <= |mem'| && mem[..b] == mem'[..b]
    ensures var c := Running(More(ExpandHandlers(hs), Some(b), after), mem, stack, tape, trace);
            match EvalHandlers(hs, mem[b].thrown.value.0, tape)
            case None => mem' == mem && Reaches(c, Running(after, mem, stack, tape, trace))
            case Some(h) => mem'[b].flag == Handled && Reaches(c, Outcomes(h, after, mem', stack, trace))
    decreases |tape|, hs, 0
  {
    mem' := mem;
    var c := Running(More(ExpandHandlers(hs), Some(b), after), mem, stack, tape, trace);
    ReachesRefl(c);
    ReachesStep(c, c);
    match hs
    case NoHandler =>
    case Else(handler) =>
      mem' := SimulatesHandler(handler, b, after, mem, stack, tape, trace);
    case On(exc, handler, rest) =>
      if exc == mem[b].thrown.value.0 {
        mem' := SimulatesHandler(handler, b, after, mem, stack, tape, trace);
        ReachesTrans(c, Step(c), Outcomes(Eval(handler, tape), after, mem', stack, trace));
      } else {
        mem' := SimulatesHandlers(rest, b, after, mem, stack, tape, trace);
        match EvalHandlers(rest, mem[b].thrown.value.0, tape)
        case None => ReachesTrans(c, Step(c), Running(after, mem, stack, tape, trace));
        case Some(h) => ReachesTrans(c, Step(c), Outcomes(h, after, mem', stack, trace));
      }
  }

  lemma {:induction false} SimulatesHandler(handler: Stmt, b: nat, after: Kont, mem: seq<Locals>,
                                            stack: Option<nat>, tape: seq<bool>, trace: seq<int>)
      returns (mem': seq<Locals>)
    requires b < |mem|
    requires stack.Some? ==> stack.value < b
    ensures |mem| <= |mem'| && mem[..b] == mem'[..b] && mem'[b].flag == Handled
    ensures Reaches(Running(More(HandlerCode(Expand(handler)), Some(b), after), mem, stack, tape, trace),
                    Outcomes(Eval(handler, tape), after, mem', stack, trace))
    decreases |tape|, handler, 3
  {
    var c := Running(More(HandlerCode(Expand(handler)), Some(b), after), mem, stack, tape, trace);
    var mem1 := mem[b := mem[b].(flag := Handled)];
    var ending := More(CPopIfEntered(HandlerEnd), Some(b), after);
    var start := Running(More(Expand(handler), Some(b), ending), mem1, stack, tape, trace);
    assert Reaches(c, start) by {
      ReachesRefl(c);
      ReachesStep3(c, c);
    }
    mem' := Simulates(handler, Some(b), ending, mem1, stack, tape, trace);
    var ended := Outcomes(Eval(handler, tape), ending, mem', stack, trace);
    ReachesTrans(c, start, ended);
    assert mem'[b] == mem1[b];
    assert mem'[..b] == mem1[..b] == mem[..b];
    if Eval(handler, tape).out.Normal? {
      ReachesStep(c, ended);
    }
  }

  /** END_TRY behind the cleanup with result f: a flag still raised means RERAISE. */
  function AfterCleanup(f: Result, l: Locals): Result
    requires l.flag == RaisedFlag ==> l.thrown.Some?
  {
    if f.out.Normal? && l.flag == RaisedFlag
    then f.(out := Raised(l.thrown.value.0, l.thrown.value.1)) else f
  }

  lemma SimulatesEndTry(b: nat, k: Kont, mem: seq<Locals>, stack: Option<nat>, tape: seq<bool>, trace: seq<int>)
    requires b < |mem| && (mem[b].flag == RaisedFlag ==> mem[b].thrown.Some?)
    ensures Reaches(Running(More(CIfFlag(RaisedFlag, CReraise, CNop), Some(b), k), mem, stack, tape, trace),
                    Outcomes(AfterCleanup(Result(Normal, [], tape), mem[b]), k, mem, stack, trace))
  {
    var c := Running(More(CIfFlag(RaisedFlag, CReraise, CNop), Some(b), k), mem, stack, tape, trace);
    assert trace + [] == trace;
    ReachesRefl(c);
    ReachesStep2(c, c);
  }

  /** From the FINALLY macro to the start of its action. */
  lemma EntersFinally(action: Code, b: nat, k: Kont, mem: seq<Locals>, stack: Option<nat>,
                      tape: seq<bool>, trace: seq<int>)
    requires b < |mem|
    ensures var flag := if mem[b].flag == Entered then Finalized else mem[b].flag;
            Reaches(Running(More(CSeq(CIfFlag(Entered, CSetFlag(Finalized), CNop),
                                      CSeq(action, CPopIfEntered(FinallyEnd))), Some(b), k),
                            mem, stack, tape, trace),
                    Running(More(action, Some(b), More(CPopIfEntered(FinallyEnd), Some(b), k)),
                            mem[b := mem[b].(flag := flag)], stack, tape, trace))
  {
    var test, body := CIfFlag(Entered, CSetFlag(Finalized), CNop), CSeq(action, CPopIfEntered(FinallyEnd));
    var c := Running(More(CSeq(test, body), Some(b), k), mem, stack, tape, trace);
    assert mem[b := mem[b]] == mem;
    ReachesRefl(c);
    ReachesStep3(c, c);
    ReachesStep(c, Step(Step(Step(c))));
  }

  /** FINALLY and END_TRY, entered with the frame off the stack. */
  lemma {:induction false} SimulatesEpilogue(cleanup: Cleanup, b: nat, k: Kont, mem: seq<Locals>,
                                             stack: Option<nat>, tape: seq<bool>, trace: seq<int>)
      returns (mem': seq<Locals>)
    requires b < |mem|
    requires stack.Some? ==> stack.value < b
    requires mem[b].flag == RaisedFlag ==> mem[b].thrown.Some?
    ensures |mem| <= |mem'| && mem[..b] == mem'[..b]
    ensures Reaches(Running(More(Epilogue(ExpandCleanup(cleanup)), Some(b), k), mem, stack, tape, trace),
                    Outcomes(AfterCleanup(EvalCleanup(cleanup, tape), mem[b]), k, mem', stack, trace))
    decreases |tape|, cleanup, 0
  {
    var c := Running(More(Epilogue(ExpandCleanup(cleanup)), Some(b), k), mem, stack, tape, trace);
    var tail := More(CIfFlag(RaisedFlag, CReraise, CNop), Some(b), k);
    ReachesRefl(c);
    ReachesStep(c, c);
    match cleanup
    case NoFinally =>
      mem' := mem;
      ReachesStep(c, Step(c));
      SimulatesEndTry(b, k, mem, stack, tape, trace);
      ReachesTrans(c, Step(Step(c)), Outcomes(AfterCleanup(Result(Normal, [], tape), mem[b]), k, mem', stack, trace));
    case Finally(action) =>
      var flag := if mem[b].flag == Entered then Finalized else mem[b].flag;
      var mem1 := mem[b := mem[b].(flag := flag)];
      var ending := More(CPopIfEntered(FinallyEnd), Some(b), tail);
      var start := Running(More(Expand(action), Some(b), ending), mem1, stack, tape, trace);
      EntersFinally(Expand(action), b, tail, mem, stack, tape, trace);
      ReachesTrans(c, Step(c), start);
      var f := Eval(action, tape);
      mem' := Simulates(action, Some(b), ending, mem1, stack, tape, trace);
      var ended := Outcomes(f, ending, mem', stack, trace);
      ReachesTrans(c, start, ended);
      assert mem'[b] == mem1[b];
      assert mem'[..b] == mem1[..b] == mem[..b];
      if f.out.Normal? {
        ReachesStep(c, ended);
        SimulatesEndTry(b, k, mem', stack, f.tape, trace + f.trace);
        assert trace + f.trace + [] == trace + f.trace;
        ReachesTrans(c, Step(ended), Outcomes(AfterCleanup(f, mem[b]), k, mem', stack, trace));
      }
  }

  /** Macro expansion preserves meaning: the machine halts, without ever following a bad
      pointer, with the trace of Eval; it ends normally with an empty frame stack when Eval
      does, and aborts with the exception and the original raise site when Eval raises. */
  lemma ExpansionPreservesMeaning(s: Stmt, tape: seq<bool>) returns (n: nat)
    ensures Halted(Steps(Init(s, tape), n))
    ensures var r := Eval(s, tape);
            var c := Steps(Init(s, tape), n);
            match r.out
            case Normal => c.Running? && c.kont.Done? && c.stack.None? && c.trace == r.trace && c.tape == r.tape
            case Raised(exc, site) => c == Aborted(exc, site, r.tape, r.trace)
  {
    var mem := Simulates(s, None, Done, [], None, tape, []);
    var r := Eval(s, tape);
    assert [] + r.trace == r.trace;
    n :| Steps(Init(s, tape), n) == Outcomes(r, Done, mem, None, []);
  }

  // ----- FINALLY ------------------------------------------------------------------------

  predicate Emits(s: Stmt, m: int)
    decreases s
  {
    match s
    case Emit(event) => event == m
    case Then(first, second) => Emits(first, m) || Emits(second, m)
    case If(yes, no) => Emits(yes, m) || Emits(no, m)
    case While(body) => Emits(body, m)
    case Try(block, handlers, cleanup) =>
      Emits(block, m) || HandlersEmit(handlers, m) || (cleanup.Finally? && Emits(cleanup.action, m))
    case _ => false
  }

  predicate HandlersEmit(hs: Handlers, m: int)
    decreases hs
  {
    match hs
    case NoHandler => false
    case Else(handler) => Emits(handler, m)
    case On(_, handler, rest) => Emits(handler, m) || HandlersEmit(rest, m)
  }

  lemma {:induction false} EmitsNothing(s: Stmt, tape: seq<bool>, m: int)
    requires !Emits(s, m)
    ensures m !in Eval(s, tape).trace
    decreases |tape|, s
  {
    match s
    case Then(first, second) =>
      EmitsNothing(first, tape, m);
      EmitsNothing(second, Eval(first, tape).tape, m);
    case If(yes, no) =>
      EmitsNothing(yes, if tape == [] then tape else tape[1..], m);
      EmitsNothing(no, if tape == [] then tape else tape[1..], m);
    case While(body) =>
      if tape != [] {
        EmitsNothing(body, tape[1..], m);
        EmitsNothing(s, Eval(body, tape[1..]).tape, m);
      }
    case Try(block, handlers, cleanup) =>
      var r := Eval(block, tape);
      EmitsNothing(block, tape, m);
      if cleanup.Finally? {
        EmitsNothing(cleanup.action, r.tape, m);
      }
      if r.out.Raised? {
        HandlersEmitNothing(handlers, r.out.exc, r.tape, m);
        var h := EvalHandlers(handlers, r.out.exc, r.tape);
        if h.Some? && cleanup.Finally? {
          EmitsNothing(cleanup.action, h.value.tape, m);
        }
      }
    case _ =>
  }

  lemma {:induction false} HandlersEmitNothing(hs: Handlers, exc: Exc, tape: seq<bool>, m: int)
    requires !HandlersEmit(hs, m)
    ensures var h := EvalHandlers(hs, exc, tape); h.Some? ==> m !in h.value.trace
    decreases |tape|, hs
  {
    match hs
    case NoHandler =>
    case Else(handler) => EmitsNothing(handler, tape, m);
    case On(_, handler, rest) => EmitsNothing(handler, tape, m); HandlersEmitNothing(rest, exc, tape, m);
  }

  /** The mark m stands in the trace once, behind what came before. */
  predicate MarkedOnce(trace: seq<int>, before: seq<int>, m: int) {
    && m !in before && |before| < |trace|
    && trace[..|before|] == before && trace[|before|] == m && m !in trace[|before| + 1..]
  }

  lemma MarkedAction(action: Stmt, tape: seq<bool>, before: seq<int>, m: int)
    requires !Emits(action, m) && m !in before
    ensures var f := EvalCleanup(Finally(Then(Emit(m), action)), tape);
            MarkedOnce(before + f.trace, before, m)
  {
    EmitsNothing(action, tape, m);
    var f := Eval(Then(Emit(m), action), tape);
    var a := Eval(action, tape).trace;
    assert Eval(Emit(m), tape) == Result(Normal, [m], tape);
    assert f.trace == [m] + a;
    assert (before + f.trace)[|before| + 1..] == a;
  }

  /** What the structured meaning does with a marked FINALLY action. */
  lemma FinallyInEval(block: Stmt, handlers: Handlers, action: Stmt, m: int, tape: seq<bool>)
    requires !Emits(block, m) && !HandlersEmit(handlers, m) && !Emits(action, m)
    ensures var trace := Eval(Try(block, handlers, Finally(Then(Emit(m), action))), tape).trace;
            var r := Eval(block, tape);
            var h := if r.out.Raised? then EvalHandlers(handlers, r.out.exc, r.tape) else None;
            if h.Some? && h.value.out.Raised? then m !in trace
            else MarkedOnce(trace, r.trace + if h.Some? then h.value.trace else [], m)
  {
    hide MarkedOnce;
    var r := Eval(block, tape);
    EmitsNothing(block, tape, m);
    if r.out.Normal? {
      assert r.trace + [] == r.trace;
      MarkedAction(action, r.tape, r.trace, m);
    } else {
      HandlersEmitNothing(handlers, r.out.exc, r.tape, m);
      match EvalHandlers(handlers, r.out.exc, r.tape)
      case Some(h) =>
        if h.out.Normal? {
          MarkedAction(action, h.tape, r.trace + h.trace, m);
        }
      case None =>
        assert r.trace + [] == r.trace;
        MarkedAction(action, r.tape, r.trace, m);
    }
  }

  /** Wherever the block stands, whatever is on the stack and whatever follows: the machine gets
      through a block with such an action with the trace of its meaning. */
  lemma FinallyRunsOnceAnywhere(block: Stmt, handlers: Handlers, action: Stmt, m: int, scope: Option<nat>, k: Kont,
                                mem: seq<Locals>, stack: Option<nat>, tape: seq<bool>, trace: seq<int>)
      returns (mem': seq<Locals>)
    requires !Emits(block, m) && !HandlersEmit(handlers, m) && !Emits(action, m)
    requires stack.Some? ==> stack.value < |mem|
    ensures mem <= mem'
    ensures var s := Try(block, handlers, Finally(Then(Emit(m), action)));
            var all, r := Eval(s, tape), Eval(block, tape);
            var h := if r.out.Raised? then EvalHandlers(handlers, r.out.exc, r.tape) else None;
            && Reaches(Running(More(Expand(s), scope, k), mem, stack, tape, trace), Outcomes(all, k, mem', stack, trace))
            && if h.Some? && h.value.out.Raised? then m !in all.trace
               else MarkedOnce(all.trace, r.trace + if h.Some? then h.value.trace else [], m)
  {
    hide Eval, EvalHandlers, MarkedOnce, Expand;
    FinallyInEval(block, handlers, action, m, tape);
    mem' := Simulates(Try(block, handlers, Finally(Then(Emit(m), action))), scope, k, mem, stack, tape, trace);
  }

  /** On the machine, a FINALLY action that begins with a mark runs exactly once, right after the
      block and the handler, whether the block ends normally, is handled or is not, and whether
      or not the action itself raises; when a handler of its own block raises it does not run. */
  lemma FinallyRunsOnce(block: Stmt, handlers: Handlers, action: Stmt, m: int, tape: seq<bool>) returns (n: nat)
    requires !Emits(block, m) && !HandlersEmit(handlers, m) && !Emits(action, m)
    ensures var c := Steps(Init(Try(block, handlers, Finally(Then(Emit(m), action))), tape), n);
            var r := Eval(block, tape);
            var h := if r.out.Raised? then EvalHandlers(handlers, r.out.exc, r.tape) else None;
            && Halted(c) && !c.Undefined?
            && if h.Some? && h.value.out.Raised? then m !in c.trace
               else MarkedOnce(c.trace, r.trace + if h.Some? then h.value.trace else [], m)
  {
    hide Eval, EvalHandlers, MarkedOnce;
    FinallyInEval(block, handlers, action, m, tape);
    n := ExpansionPreservesMeaning(Try(block, handlers, Finally(Then(Emit(m), action))), tape);
  }

  // ----- One block ------------------------------------------------------------------------

  /** The clauses of a block in order; an ELSE names no exception. */
  function Clauses(hs: Handlers): seq<(Option<Exc>, Stmt)> {
    match hs
    case NoHandler => []
    case Else(handler) => [(None, handler)]
    case On(exc, handler, rest) => [(Some(exc), handler)] + Clauses(rest)
  }

  /** The clause that runs is the first one that names the exception or is an ELSE. */
  lemma {:induction false} FirstClauseRuns(hs: Handlers, exc: Exc, tape: seq<bool>, i: nat)
    requires i <= |Clauses(hs)|
    requires forall j :: 0 <= j < i ==> Clauses(hs)[j].0.Some? && Clauses(hs)[j].0.value != exc
    requires i < |Clauses(hs)| ==> Clauses(hs)[i].0.None? || Clauses(hs)[i].0.value == exc
    ensures EvalHandlers(hs, exc, tape) == if i < |Clauses(hs)| then Some(Eval(Clauses(hs)[i].1, tape)) else None
  {
    hide Eval;
    match hs
    case NoHandler =>
    case Else(handler) => assert Clauses(hs)[0].0.None?;
    case On(e, handler, rest) =>
      if i > 0 {
        forall j | 0 <= j < |Clauses(rest)|
          ensures Clauses(rest)[j] == Clauses(hs)[j + 1]
        {}
        assert Clauses(hs)[0].0.value != exc;
        FirstClauseRuns(rest, exc, tape, i - 1);
      }
  }

  /** How a block alone ends on the machine: with the exception of a handler that raises, else with
      one that the FINALLY action raises, else with that of the body and its original site if no
      clause took it, and else normally; events in the order body, handler, action. */
  lemma BlockOutcome(block: Stmt, handlers: Handlers, cleanup: Cleanup, tape: seq<bool>) returns (n: nat)
    ensures var c := Steps(Init(Try(block, handlers, cleanup), tape), n);
            var r := Eval(block, tape);
            var h := if r.out.Raised? then EvalHandlers(handlers, r.out.exc, r.tape) else None;
            var before := r.trace + if h.Some? then h.value.trace else [];
            var f := EvalCleanup(cleanup, if h.Some? then h.value.tape else r.tape);
            if h.Some? && h.value.out.Raised? then
              c == Aborted(h.value.out.exc, h.value.out.site, h.value.tape, before)
            else if f.out.Raised? then
              c == Aborted(f.out.exc, f.out.site, f.tape, before + f.trace)
            else if r.out.Raised? && h.None? then
              c == Aborted(r.out.exc, r.out.site, f.tape, before + f.trace)
            else
              c.Running? && c.kont.Done? && c.stack.None? && c.tape == f.tape && c.trace == before + f.trace
  {
    n := ExpansionPreservesMeaning(Try(block, handlers, cleanup), tape);
    assert Eval(block, tape).trace + [] == Eval(block, tape).trace;
    hide Steps, EvalHandlers, EvalCleanup;
  }
}
