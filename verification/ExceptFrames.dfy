/** The frame-stack invariant of except.h: in every state a client program can reach,
    Except_stack is the chain of exactly those TRY blocks whose bodies are still running. */
module ExceptFrames {
  import opened Options
  import opened Except

  // ----- Code that the macros can produce ------------------------------------------

  /** Client code: it does not touch the locals of the block it stands in. */
  predicate UserCode(c: Code)
    decreases c, 0
  {
    match c
    case CNop => true
    case CEmit(_) => true
    case CRaise(_, _) => true
    case CSeq(first, second) => UserCode(first) && UserCode(second)
    case CIf(yes, no) => UserCode(yes) && UserCode(no)
    case CWhile(body) => UserCode(body)
    case CBlock(inner) => IsTryCode(inner)
    case _ => false
  }

  predicate IsTryCode(c: Code)
    decreases c, 0
  {
    && c.CSeq? && c.first.CIfFlag? && c.first.flag == Entered
    && c.first.yes.CSeq? && UserCode(c.first.yes.first) && c.first.yes.second == CPopIfEntered(BodyEnd)
    && IsHandlers(c.first.no)
    && c.second.CSeq? && IsCleanup(c.second.first) && c.second == Epilogue(c.second.first)
  }

  predicate IsHandlerCode(c: Code)
    decreases c, 0
  {
    && c.CSeq? && c.first == CSetFlag(Handled)
    && c.second.CSeq? && UserCode(c.second.first) && c.second.second == CPopIfEntered(HandlerEnd)
  }

  predicate IsHandlers(c: Code)
    decreases c, 1
  {
    c.CNop? || IsHandlerCode(c) || (c.CIfExc? && IsHandlerCode(c.yes) && IsHandlers(c.no))
  }

  predicate IsCleanup(c: Code)
    decreases c, 0
  {
    || c.CNop?
    || (&& c.CSeq? && c.first == CIfFlag(Entered, CSetFlag(Finalized), CNop)
        && c.second.CSeq? && UserCode(c.second.first) && c.second.second == CPopIfEntered(FinallyEnd))
  }

  lemma {:induction false} ExpandsToUserCode(s: Stmt)
    ensures UserCode(Expand(s))
    decreases s, 1
  {
    match s
    case Then(first, second) => ExpandsToUserCode(first); ExpandsToUserCode(second);
    case If(yes, no) => ExpandsToUserCode(yes); ExpandsToUserCode(no);
    case While(body) => ExpandsToUserCode(body);
    case Try(block, handlers, cleanup) =>
      ExpandsToUserCode(block);
      ExpandsToHandlers(handlers);
      if cleanup.Finally? {
        ExpandsToUserCode(cleanup.action);
      }
    case _ =>
  }

  lemma {:induction false} ExpandsToHandlers(hs: Handlers)
    ensures IsHandlers(ExpandHandlers(hs))
    decreases hs, 0
  {
    match hs
    case NoHandler =>
    case Else(handler) => ExpandsToUserCode(handler);
    case On(_, handler, rest) => ExpandsToUserCode(handler); ExpandsToHandlers(rest);
  }

  // ----- Which bodies are running -----------------------------------------------------

  /** What code does to the locals of its own block when it is executed to its end, and
      whether control leaves the body of the block (passes its BodyEnd) on the way.
      ok: the guarded pop fires at the end of the body and nowhere else. */
  datatype Effect = Effect(ok: bool, locals: Locals, leaves: bool)

  function Local(c: Code, l: Locals): Effect {
    match c
    case CPopIfEntered(region) =>
      if region.BodyEnd? then Effect(l.flag == Entered, l, true) else Effect(l.flag != Entered, l, false)
    case CSetFlag(flag) => Effect(flag != RaisedFlag, l.(flag := flag), false)
    case CIfFlag(flag, yes, no) => if l.flag == flag then Local(yes, l) else Local(no, l)
    case CIfExc(exc, yes, no) =>
      if l.thrown.None? then Effect(false, l, false)
      else if l.thrown.value.0 == exc then Local(yes, l) else Local(no, l)
    case CReraise => Effect(l.thrown.Some?, l, false)
    case CSeq(first, second) =>
      var e := Local(first, l);
      var f := Local(second, e.locals);
      Effect(e.ok && f.ok && !(e.leaves && f.leaves), f.locals, e.leaves || f.leaves)
    case _ => Effect(UserCode(c), l, false)
  }

  lemma {:induction false} LocalOfUserCode(c: Code, l: Locals)
    requires UserCode(c)
    ensures Local(c, l) == Effect(true, l, false)
  {
    if !c.CSeq? {
    } else {
      LocalOfUserCode(c.first, l);
      LocalOfUserCode(c.second, l);
    }
  }

  /** longjmp left an exception in the frame. */
  predicate Caught(l: Locals) {
    l.flag == RaisedFlag ==> l.thrown.Some?
  }

  lemma {:induction false} LocalKeepsFrame(c: Code, l: Locals)
    ensures var m := Local(c, l).locals; m == l.(flag := m.flag)
    ensures Local(c, l).ok && Caught(l) ==> Caught(Local(c, l).locals)
  {
    match c
    case CIfFlag(_, yes, no) => LocalKeepsFrame(yes, l); LocalKeepsFrame(no, l);
    case CIfExc(_, yes, no) => LocalKeepsFrame(yes, l); LocalKeepsFrame(no, l);
    case CSeq(first, second) => LocalKeepsFrame(first, l); LocalKeepsFrame(second, Local(first, l).locals);
    case _ =>
  }

  lemma LocalOfHandlerCode(c: Code, l: Locals)
    requires IsHandlerCode(c)
    ensures Local(c, l) == Effect(true, l.(flag := Handled), false)
  {
    LocalOfUserCode(c.second.first, l.(flag := Handled));
    assert Local(c.second, l.(flag := Handled)) == Effect(true, l.(flag := Handled), false);
  }

  lemma {:induction false} LocalOfHandlers(c: Code, l: Locals)
    requires IsHandlers(c) && l.thrown.Some?
    ensures Local(c, l) == Effect(true, l, false) || Local(c, l) == Effect(true, l.(flag := Handled), false)
  {
    if IsHandlerCode(c) {
      LocalOfHandlerCode(c, l);
    } else if c.CIfExc? {
      LocalOfHandlerCode(c.yes, l);
      LocalOfHandlers(c.no, l);
    }
  }

  lemma LocalOfEpilogue(c: Code, l: Locals)
    requires IsCleanup(c) && Caught(l)
    ensures Local(Epilogue(c), l).ok && !Local(Epilogue(c), l).leaves
  {
    var m := if c.CSeq? && l.flag == Entered then l.(flag := Finalized) else l;
    if c.CSeq? {
      LocalOfUserCode(c.second.first, m);
      assert Local(c.first, l) == Effect(true, m, false);
      assert Local(c.second, m) == Effect(true, m, false);
    }
    assert Local(c, l) == Effect(true, m, false);
    assert Local(Epilogue(c).second, m) == Effect(true, m, false);
  }

  /** The code behind setjmp leaves the body when setjmp returns Except_entered, and
      never passes through it when longjmp returns there. */
  lemma LocalOfTryCode(c: Code, l: Locals)
    requires IsTryCode(c)
    requires l.flag == Entered || (l.flag == RaisedFlag && l.thrown.Some?)
    ensures var e := Local(c, l); e.ok && e.leaves == (l.flag == Entered)
  {
    LocalOfUserCode(c.first.yes.first, l);
    if l.flag == RaisedFlag {
      LocalOfHandlers(c.first.no, l);
    } else {
      assert Local(c.first.yes, l) == Effect(true, l, true);
    }
    LocalOfEpilogue(c.second.first, Local(c.first, l).locals);
  }

  /** The blocks whose body is still running, innermost first: those whose BodyEnd lies ahead
      of control, following the assignments to the flags that it meets on the way. */
  function RunningBodies(k: Kont, mem: seq<Locals>): seq<nat> {
    match k
    case Done => []
    case More(c, scope, rest) =>
      if scope.None? || scope.value >= |mem| then RunningBodies(rest, mem)
      else
        var e := Local(c, mem[scope.value]);
        (if e.leaves then [scope.value] else []) + RunningBodies(rest, mem[scope.value := e.locals])
  }

  predicate PrevDecreases(mem: seq<Locals>) {
    forall p :: 0 <= p < |mem| && mem[p].prev.Some? ==> mem[p].prev.value < p
  }

  /** Except_stack and the prev links behind it. */
  function Chain(stack: Option<nat>, mem: seq<Locals>): seq<nat>
    requires PrevDecreases(mem)
    decreases if stack.Some? then stack.value + 1 else 0
  {
    if stack.None? || stack.value >= |mem| then []
    else [stack.value] + Chain(mem[stack.value].prev, mem)
  }

  // ----- The invariant ------------------------------------------------------------------

  /** All scopes in k are blocks older than b. */
  predicate Below(k: Kont, b: nat) {
    match k
    case Done => true
    case More(_, scope, rest) => (scope.Some? ==> scope.value < b) && Below(rest, b)
  }

  /** Scopes do not get younger from front to back. */
  predicate Nested(k: Kont) {
    match k
    case Done => true
    case More(_, scope, rest) => Below(rest, if scope.Some? then scope.value + 1 else 0) && Nested(rest)
  }

  function DropScope(k: Kont, b: nat): Kont {
    if k.More? && k.scope == Some(b) then DropScope(k.rest, b) else k
  }

  /** Running k to its end pops Except_stack once for each block that is still in its body,
      each time finding the frame of that block on top, whose saved continuation restarts
      the block in front of what k does after it. */
  predicate Good(k: Kont, mem: seq<Locals>, stack: Option<nat>)
    decreases k
  {
    match k
    case Done => stack.None?
    case More(c, None, rest) => UserCode(c) && Good(rest, mem, stack)
    case More(c, Some(b), rest) =>
      && b < |mem|
      && var e := Local(c, mem[b]);
      && e.ok
      && (e.leaves ==> stack == Some(b) && FrameOk(mem[b], b, rest))
      && Caught(mem[b])
      && Good(rest, mem[b := e.locals], if e.leaves then mem[b].prev else stack)
  }

  predicate FrameOk(l: Locals, b: nat, rest: Kont) {
    && l.env.More? && IsTryCode(l.env.code)
    && l.env == More(l.env.code, Some(b), DropScope(rest, b))
  }

  predicate Inv(c: Config) {
    match c
    case Running(k, mem, stack, _, _) => PrevDecreases(mem) && Nested(k) && Below(k, |mem|) && Good(k, mem, stack)
    case Aborted(_, _, _, _) => true
    case Undefined => false
  }

  /** Good does not look at blocks that k does not mention. */
  lemma {:induction false} GoodFrame(k: Kont, m: seq<Locals>, n: seq<Locals>, stack: Option<nat>, b: nat)
    requires Below(k, b) && b <= |m| && b <= |n| && m[..b] == n[..b]
    ensures Good(k, m, stack) == Good(k, n, stack)
    decreases k
  {
    if k.Done? {
    } else {
      if k.scope.None? {
        GoodFrame(k.rest, m, n, stack, b);
      } else {
        var a := k.scope.value;
        assert m[a] == m[..b][a] == n[..b][a] == n[a];
        var e := Local(k.code, m[a]);
        var m', n' := m[a := e.locals], n[a := e.locals];
        assert m'[..b] == m[..b][a := e.locals] == n'[..b];
        GoodFrame(k.rest, m', n', if e.leaves then m[a].prev else stack, b);
      }
    }
  }

  lemma {:induction false} BelowWeakens(k: Kont, a: nat, b: nat)
    requires Below(k, a) && a <= b
    ensures Below(k, b)
    decreases k
  {
    if k.Done? {
    } else {
      BelowWeakens(k.rest, a, b);
    }
  }

  /** Behind the code of block b come only older blocks. */
  lemma {:induction false} DropScopeBelow(k: Kont, b: nat)
    requires Nested(k) && Below(k, b + 1)
    ensures Nested(DropScope(k, b)) && Below(DropScope(k, b), b)
    decreases k
  {
    if k.Done? {
    } else {
      if k.scope == Some(b) {
        DropScopeBelow(k.rest, b);
      } else {
        BelowWeakens(k.rest, if k.scope.Some? then k.scope.value + 1 else 0, b);
      }
    }
  }

  /** Once block b is off the stack, the rest of its code needs nothing of the stack. */
  lemma {:induction false} GoodDrop(k: Kont, mem: seq<Locals>, stack: Option<nat>, b: nat)
    requires Good(k, mem, stack) && Nested(k) && Below(k, b + 1)
    requires stack.Some? ==> stack.value < b
    requires b < |mem|
    ensures Good(DropScope(k, b), mem, stack)
    decreases k
  {
    if k.Done? || k.scope != Some(b) {
    } else {
      var mem' := mem[b := Local(k.code, mem[b]).locals];
      GoodDrop(k.rest, mem', stack, b);
      DropScopeBelow(k.rest, b);
      assert mem'[..b] == mem[..b];
      GoodFrame(DropScope(k.rest, b), mem', mem, stack, b);
    }
  }

  /** The frame on top of the stack is live: its saved continuation restarts a TRY block
      of the current continuation, and the stack below it fits what follows that block. */
  lemma {:induction false} TopFrame(k: Kont, mem: seq<Locals>, p: nat)
    requires PrevDecreases(mem) && Nested(k) && Below(k, |mem|) && Good(k, mem, Some(p))
    ensures p < |mem| && !Below(k, p) && mem[p].env.More? && IsTryCode(mem[p].env.code)
    ensures mem[p].env.scope == Some(p) && Nested(mem[p].env) && Below(mem[p].env.rest, p)
    ensures Good(mem[p].env.rest, mem, mem[p].prev)
    decreases k
  {
    if k.scope.None? {
      TopFrame(k.rest, mem, p);
    } else {
      var b := k.scope.value;
      var e := Local(k.code, mem[b]);
      LocalKeepsFrame(k.code, mem[b]);
      var mem' := mem[b := e.locals];
      if e.leaves {
        var kp := mem[p].env.rest;
        GoodDrop(k.rest, mem', mem[p].prev, p);
        DropScopeBelow(k.rest, p);
        assert mem'[..p] == mem[..p];
        GoodFrame(kp, mem', mem, mem[p].prev, p);
        BelowWeakens(kp, p, p + 1);
      } else {
        BelowWeakens(k.rest, b + 1, |mem|);
        TopFrame(k.rest, mem', p);
        if b < p {
          BelowWeakens(k.rest, b + 1, p);
        }
        assert mem'[..p] == mem[..p];
        GoodFrame(mem[p].env.rest, mem', mem, mem[p].prev, p);
      }
    }
  }

  lemma ThrowKeepsInv(c: Config, exc: Exc, site: Site)
    requires Inv(c) && c.Running?
    ensures Inv(Throw(c.mem, c.stack, c.tape, c.trace, exc, site))
  {
    if c.stack.Some? {
      var p := c.stack.value;
      TopFrame(c.kont, c.mem, p);
      var l := c.mem[p].(flag := RaisedFlag, thrown := Some((exc, site)));
      var env := c.mem[p].env;
      LocalOfTryCode(env.code, l);
      var mem1 := c.mem[p := l];
      var mem2 := mem1[p := Local(env.code, l).locals];
      assert mem2[..p] == c.mem[..p];
      GoodFrame(env.rest, c.mem, mem2, c.mem[p].prev, p);
      BelowWeakens(env.rest, p, |c.mem|);
    }
  }

  lemma EnterKeepsInv(c: Config)
    requires Inv(c) && c.Running? && c.kont.More? && c.kont.code.CBlock?
    ensures Inv(Step(c))
  {
    var d, b := Step(c), |c.mem|;
    var inner, rest := c.kont.code.inner, c.kont.rest;
    if c.kont.scope.Some? {
      assert c.mem[c.kont.scope.value := c.mem[c.kont.scope.value]] == c.mem;
    }
    assert IsTryCode(inner) && Good(rest, c.mem, c.stack);
    BelowWeakens(rest, |c.mem|, b + 1);
    assert DropScope(rest, b) == rest;
    LocalOfTryCode(inner, d.mem[b]);
    LocalKeepsFrame(inner, d.mem[b]);
    var mem2 := d.mem[b := Local(inner, d.mem[b]).locals];
    assert mem2[..b] == c.mem[..b];
    GoodFrame(rest, c.mem, mem2, c.stack, b);
    StackBelow(c.kont, c.mem, c.stack);
  }

  lemma {:induction false} StackBelow(k: Kont, mem: seq<Locals>, stack: Option<nat>)
    requires PrevDecreases(mem) && Nested(k) && Below(k, |mem|) && Good(k, mem, stack)
    ensures stack.Some? ==> stack.value < |mem|
  {
    if stack.Some? {
      TopFrame(k, mem, stack.value);
    }
  }

  lemma SeqKeepsInv(c: Config)
    requires Inv(c) && c.Running? && c.kont.More? && c.kont.code.CSeq?
    ensures Inv(Step(c))
  {
    if c.kont.scope.Some? {
      var b := c.kont.scope.value;
      var l := c.mem[b];
      LocalKeepsFrame(c.kont.code.first, l);
      LocalKeepsFrame(c.kont.code.second, Local(c.kont.code.first, l).locals);
      var e1 := Local(c.kont.code.first, l);
      var e2 := Local(c.kont.code.second, e1.locals);
      var mem1 := c.mem[b := e1.locals];
      assert mem1[b := e2.locals] == c.mem[b := e2.locals];
      BelowWeakens(c.kont.rest, b + 1, b + 1);
      var second := More(c.kont.code.second, c.kont.scope, c.kont.rest);
      assert Good(second, mem1, if e1.leaves then l.prev else c.stack);
    }
  }

  lemma BranchKeepsInv(c: Config)
    requires Inv(c) && c.Running? && c.kont.More? && (c.kont.code.CIf? || c.kont.code.CWhile?)
    ensures Inv(Step(c))
  {
    if c.kont.scope.Some? {
      var b := c.kont.scope.value;
      var l := c.mem[b];
      assert c.mem[b := l] == c.mem;
      match c.kont.code {
        case CIf(yes, no) => LocalOfUserCode(yes, l); LocalOfUserCode(no, l);
        case CWhile(body) => LocalOfUserCode(body, l);
      }
    }
  }

  lemma StepKeepsInv(c: Config)
    requires Inv(c)
    ensures Inv(Step(c))
  {
    if c.Running? && c.kont.More? {
      if c.kont.scope.Some? {
        var b := c.kont.scope.value;
        assert c.mem[b := c.mem[b]] == c.mem;
      }
      match c.kont.code
      case CSeq(_, _) => SeqKeepsInv(c);
      case CIf(_, _) => BranchKeepsInv(c);
      case CWhile(_) => BranchKeepsInv(c);
      case CBlock(_) => EnterKeepsInv(c);
      case CRaise(exc, site) => ThrowKeepsInv(c, exc, site);
      case CReraise =>
        var l := c.mem[c.kont.scope.value];
        ThrowKeepsInv(c, l.thrown.value.0, l.thrown.value.1);
      case _ =>
    }
  }

  lemma {:induction false} StepsKeepInv(c: Config, n: nat)
    requires Inv(c)
    ensures Inv(Steps(c, n))
    decreases n
  {
    if n == 0 {
    } else {
      StepKeepsInv(c);
      StepsKeepInv(Step(c), n - 1);
    }
  }

  lemma InitInv(s: Stmt, tape: seq<bool>)
    ensures Inv(Init(s, tape))
  {
    ExpandsToUserCode(s);
  }

  lemma {:induction false} GoodChain(k: Kont, mem: seq<Locals>, stack: Option<nat>)
    requires PrevDecreases(mem) && Good(k, mem, stack)
    ensures Chain(stack, mem) == RunningBodies(k, mem)
    decreases k
  {
    if k.Done? {
    } else {
      if k.scope.None? {
        GoodChain(k.rest, mem, stack);
      } else {
        var b := k.scope.value;
        var e := Local(k.code, mem[b]);
        LocalKeepsFrame(k.code, mem[b]);
        var mem' := mem[b := e.locals];
        GoodChain(k.rest, mem', if e.leaves then mem[b].prev else stack);
        SameChain(if e.leaves then mem[b].prev else stack, mem, mem');
      }
    }
  }

  /** Chain only looks at the prev links. */
  lemma {:induction false} SameChain(stack: Option<nat>, m: seq<Locals>, n: seq<Locals>)
    requires PrevDecreases(m) && PrevDecreases(n) && |m| == |n|
    requires forall p :: 0 <= p < |m| ==> m[p].prev == n[p].prev
    ensures Chain(stack, m) == Chain(stack, n)
    decreases if stack.Some? then stack.value + 1 else 0
  {
    if stack.None? || stack.value >= |m| {
    } else {
      SameChain(m[stack.value].prev, m, n);
    }
  }

  // ----- Main results -------------------------------------------------------------------

  /** In every reachable state Except_stack is exactly the chain of the TRY blocks whose
      bodies are still running, innermost first. */
  lemma FrameStackIsRunningBodies(s: Stmt, tape: seq<bool>, n: nat)
    ensures var c := Steps(Init(s, tape), n);
            && !c.Undefined?
            && (c.Running? ==> PrevDecreases(c.mem) && Chain(c.stack, c.mem) == RunningBodies(c.kont, c.mem))
  {
    InitInv(s, tape);
    StepsKeepInv(Init(s, tape), n);
    var c := Steps(Init(s, tape), n);
    if c.Running? {
      GoodChain(c.kont, c.mem, c.stack);
    }
  }

  /** The exception, and the site of its first raise, that a RAISE or the RERAISE of an END_TRY
      hands to Except_raise. */
  function RaisedBy(c: Config): Option<(Exc, Site)>
    requires c.Running? && c.kont.More?
  {
    match c.kont.code
    case CRaise(exc, site) => Some((exc, site))
    case CReraise =>
      if c.kont.scope.Some? && c.kont.scope.value < |c.mem| then c.mem[c.kont.scope.value].thrown else None
    case _ => None
  }

  /** In every reachable state a raise, or the raise that END_TRY repeats, aborts when no body is
      running, and otherwise restarts the innermost block whose body is running, behind its setjmp
      and with the raised flag; what remains on the stack are the other running bodies. */
  lemma RaiseReachesNearest(s: Stmt, tape: seq<bool>, n: nat)
    requires var c := Steps(Init(s, tape), n); c.Running? && c.kont.More? && (c.kont.code.CRaise? || c.kont.code.CReraise?)
    ensures var c := Steps(Init(s, tape), n);
            var bodies := RunningBodies(c.kont, c.mem);
            var d := Step(c);
            RaisedBy(c).Some? &&
            if bodies == [] then d == Aborted(RaisedBy(c).value.0, RaisedBy(c).value.1, c.tape, c.trace)
            else
              && d.Running? && d.kont.More? && d.kont.scope == Some(bodies[0]) && bodies[0] < |d.mem|
              && IsTryCode(d.kont.code)
              && d.mem[bodies[0]].flag == RaisedFlag && d.mem[bodies[0]].thrown == RaisedBy(c)
              && RunningBodies(d.kont, d.mem) == bodies[1..]
  {
    var c := Steps(Init(s, tape), n);
    InitInv(s, tape);
    StepsKeepInv(Init(s, tape), n);
    GoodChain(c.kont, c.mem, c.stack);
    if c.stack.Some? {
      var p := c.stack.value;
      TopFrame(c.kont, c.mem, p);
      StepKeepsInv(c);
      var d := Step(c);
      GoodChain(d.kont, d.mem, d.stack);
      SameChain(c.mem[p].prev, c.mem, d.mem);
    }
  }
}
