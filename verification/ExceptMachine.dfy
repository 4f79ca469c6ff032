/** The run-time state of except.h as the program holds it: the global Except_stack, the
    locals of the blocks, and the statements that assign to them. */
module ExceptMachine {
  import opened Options
  import opened Except
  import opened ExceptFrames

  class Machine {
    var kont: Kont
    var mem: seq<Locals>
    var exceptStack: Option<nat>
    var aborted: Option<(Exc, Site)>
    var tape: seq<bool>
    var trace: seq<int>

    function Current(): Config
      reads this
    {
      if aborted.Some? then Aborted(aborted.value.0, aborted.value.1, tape, trace)
      else Running(kont, mem, exceptStack, tape, trace)
    }

    constructor (program: Code, tape: seq<bool>)
      ensures Current() == Running(More(program, None, Done), [], None, tape, [])
    {
      this.kont := More(program, None, Done);
      this.mem := [];
      this.exceptStack := None;
      this.aborted := None;
      this.tape := tape;
      this.trace := [];
    }

    /** Except_raise: fill the frame on top of Except_stack, unlink it, and longjmp to it. */
    method ExceptRaise(exc: Exc, site: Site)
      requires aborted.None? && (exceptStack.Some? ==> exceptStack.value < |mem|)
      modifies this
      ensures Current() == Throw(old(mem), old(exceptStack), old(tape), old(trace), exc, site)
    {
      if exceptStack.None? {
        aborted := Some((exc, site));
        return;
      }
      var p := exceptStack.value;
      mem := mem[p := mem[p].(thrown := Some((exc, site)))];
      exceptStack := mem[p].prev;
      mem := mem[p := mem[p].(flag := RaisedFlag)];  // the value setjmp returns
      kont := mem[p].env;
    }

    /** The opening of TRY: declare the locals, link the frame, setjmp. */
    method EnterTry(inner: Code, rest: Kont)
      requires aborted.None?
      modifies this
      ensures aborted.None? && tape == old(tape) && trace == old(trace)
      ensures kont == More(inner, Some(old(|mem|)), rest) && exceptStack == Some(old(|mem|))
      ensures mem == old(mem) + [Locals(old(exceptStack), kont, Entered, None)]
    {
      var b := |mem|;
      var prev := exceptStack;
      exceptStack := Some(b);
      kont := More(inner, Some(b), rest);
      mem := mem + [Locals(prev, kont, Entered, None)];
    }

    /** One statement that reads or assigns Except_flag or Except_frame. */
    method StepLocals(code: Code, b: nat, rest: Kont)
      requires aborted.None? && b < |mem| && (exceptStack.Some? ==> exceptStack.value < |mem|)
      requires code.CIfFlag? || code.CIfExc? || code.CSetFlag? || code.CPopIfEntered? || code.CReraise?
      requires !StepLocal(Current(), code, b, rest).Undefined?
      modifies this
      ensures Current() == StepLocal(old(Current()), code, b, rest)
    {
      kont := rest;
      match code {
        case CIfFlag(flag, yes, no) =>
          kont := More(if mem[b].flag == flag then yes else no, Some(b), rest);
        case CIfExc(exc, yes, no) =>
          kont := More(if mem[b].thrown.value.0 == exc then yes else no, Some(b), rest);
        case CSetFlag(flag) =>
          mem := mem[b := mem[b].(flag := flag)];
        case CPopIfEntered(_) =>
          if mem[b].flag == Entered {
            exceptStack := mem[exceptStack.value].prev;
          }
        case CReraise =>
          ExceptRaise(mem[b].thrown.value.0, mem[b].thrown.value.1);
      }
    }

    method StepOnce()
      requires Inv(Current()) && !Halted(Current())
      modifies this
      ensures Current() == Step(old(Current()))
    {
      StackBelow(kont, mem, exceptStack);
      StepKeepsInv(Current());
      var code, scope, rest := kont.code, kont.scope, kont.rest;
      match code {
        case CNop => kont := rest;
        case CEmit(event) => kont, trace := rest, trace + [event];
        case CSeq(first, second) => kont := More(first, scope, More(second, scope, rest));
        case CIf(yes, no) =>
          if tape == [] {
            kont := More(no, scope, rest);
          } else {
            kont, tape := More(if tape[0] then yes else no, scope, rest), tape[1..];
          }
        case CWhile(body) =>
          if tape == [] {
            kont := rest;
          } else {
            kont, tape := if tape[0] then More(body, scope, kont) else rest, tape[1..];
          }
        case CRaise(exc, site) => ExceptRaise(exc, site);
        case CBlock(inner) => EnterTry(inner, rest);
        case _ => StepLocals(code, scope.value, rest);
      }
    }
  }

  /** Running the expanded program statement by statement gives what the structured reading
      of the source text promises: the same events, and either a normal end or the message
      about the uncaught exception with the place where it was first raised. */
  method RunProgram(s: Stmt, tape: seq<bool>) returns (out: Outcome, trace: seq<int>)
    ensures out == Eval(s, tape).out && trace == Eval(s, tape).trace
  {
    ghost var n := ExpansionPreservesMeaning(s, tape);
    var m := new Machine(Expand(s), tape);
    InitInv(s, tape);
    ghost var i := 0;
    while m.aborted.None? && m.kont.More?
      invariant i <= n && m.Current() == Steps(Init(s, tape), i) && Inv(m.Current())
      decreases n - i
    {
      if i == n {
        assert false;
      }
      StepKeepsInv(m.Current());
      StepsAdd(Init(s, tape), i, 1);
      assert Steps(m.Current(), 1) == Steps(Step(m.Current()), 0);
      m.StepOnce();
      i := i + 1;
    }
    StaysHalted(m.Current(), n - i);
    StepsAdd(Init(s, tape), i, n - i);
    trace := m.trace;
    out := if m.aborted.Some? then Raised(m.aborted.value.0, m.aborted.value.1) else Normal;
  }

  lemma {:induction false} StaysHalted(c: Config, n: nat)
    requires Halted(c)
    ensures Steps(c, n) == c
    decreases n
  {
    if n == 0 {
    } else {
      StaysHalted(c, n - 1);
    }
  }
}
