/**
 The handshake that interrupts a blocking operation. The suspend flags are
 atomic, so the lock macros expand to nothing: a step is a single atomic access
 to the flags by one thread, and the threads interleave freely. `T` names the
 interrupting threads.
 */
module BlockingOp {
  import opened Machine

  datatype Flag = TERMINATE | SUSPEND | BREAKPOINT | EXIT | BLOCKING

  /** Where the target thread is. */
  datatype TargetPc =
    | Idle          // not inside begin or end
    | BeginAssert   // begin: about to assert that BLOCKING is clear
    | BeginSet      // begin: about to set BLOCKING
    | BeginCheck    // begin: about to test TERMINATE
    | BeginUndo     // begin: about to clear BLOCKING and return false
    | InOp          // begin has returned true; the blocking operation is under way
    | EndAssert     // end: about to assert that BLOCKING is set
    | EndClear      // end: about to clear BLOCKING

  /** Where an interrupting thread is. */
  datatype InterrupterPc =
    | SetTerminate  // about to set TERMINATE
    | TestBlocking  // about to test BLOCKING
    | Relax         // has seen BLOCKING: wakes the target up and sleeps
    | Returned      // `wasm_runtime_interrupt_blocking_op` has returned

  datatype Event<T> =
    | Quiet
    | BeginReturned(ok: bool)
    | InterruptReturned(t: T)

  datatype State<!T> = State(flags: set<Flag>, target: TargetPc, interrupters: map<T, InterrupterPc>)

  datatype Op<T> =
    | TargetStep
    | StartBegin
    | StartEnd
    | StartInterrupt(t: T)
    | InterrupterStep(t: T)
    | OtherFlags(sets: set<Flag>, clears: set<Flag>)  // other parts of the runtime
    | ClearTerminate                                  // the thread manager withdraws a cancellation

  predicate Enabled<T>(s: State<T>, op: Op<T>) {
    match op
    case TargetStep => s.target != Idle && s.target != InOp
    case StartBegin => s.target == Idle
    case StartEnd => s.target == InOp
    case StartInterrupt(t) => t !in s.interrupters || s.interrupters[t] == Returned
    case InterrupterStep(t) => t in s.interrupters && s.interrupters[t] != Returned
    case OtherFlags(sets, clears) => BLOCKING !in sets + clears && TERMINATE !in clears
    case ClearTerminate => true
  }

  function TargetMoves(flags: set<Flag>, pc: TargetPc): (set<Flag>, TargetPc) {
    match pc
    case BeginAssert => (flags, BeginSet)
    case BeginSet => (flags + {BLOCKING}, BeginCheck)
    case BeginCheck => (flags, if TERMINATE in flags then BeginUndo else InOp)
    case BeginUndo => (flags - {BLOCKING}, Idle)
    case EndAssert => (flags, EndClear)
    case EndClear => (flags - {BLOCKING}, Idle)
    case _ => (flags, pc)
  }

  function InterrupterMoves(flags: set<Flag>, pc: InterrupterPc): (set<Flag>, InterrupterPc) {
    match pc
    case SetTerminate => (flags + {TERMINATE}, TestBlocking)
    case TestBlocking => (flags, if BLOCKING in flags then Relax else Returned)
    case Relax => (flags, TestBlocking)
    case Returned => (flags, Returned)
  }

  function Step<T>(s: State<T>, op: Op<T>): (r: State<T>)
    requires Enabled(s, op)
  {
    match op
    case TargetStep =>
      var (flags, pc) := TargetMoves(s.flags, s.target);
      s.(flags := flags, target := pc)
    case StartBegin => s.(target := BeginAssert)
    case StartEnd => s.(target := EndAssert)
    case StartInterrupt(t) => s.(interrupters := s.interrupters[t := SetTerminate])
    case InterrupterStep(t) =>
      var (flags, pc) := InterrupterMoves(s.flags, s.interrupters[t]);
      s.(flags := flags, interrupters := s.interrupters[t := pc])
    case OtherFlags(sets, clears) => s.(flags := s.flags - clears + sets)
    case ClearTerminate => s.(flags := s.flags - {TERMINATE})
  }

  /** What a step returns to a caller. A successful begin is decided at its TERMINATE test. */
  function Observe<T>(s: State<T>, op: Op<T>): Event<T>
    requires Enabled(s, op)
  {
    match op
    case TargetStep =>
      if s.target == BeginUndo then BeginReturned(false)
      else if s.target == BeginCheck && TERMINATE !in s.flags then BeginReturned(true)
      else Quiet
    case InterrupterStep(t) =>
      if s.interrupters[t] == TestBlocking && BLOCKING !in s.flags then InterruptReturned(t) else Quiet
    case _ => Quiet
  }

  /** The target is between a successful begin and the end that completes it. */
  predicate BetweenBeginAndEnd(pc: TargetPc) {
    pc == InOp || pc == EndAssert || pc == EndClear
  }

  /** BLOCKING says where the target is. */
  ghost predicate Inv<T>(s: State<T>) {
    BLOCKING in s.flags <==> BetweenBeginAndEnd(s.target) || s.target == BeginCheck || s.target == BeginUndo
  }

  ghost predicate RunEnabled<T>(s: State<T>, ops: seq<Op<T>>)
    decreases |ops|
  {
    ops == [] || (Enabled(s, ops[0]) && RunEnabled(Step(s, ops[0]), ops[1..]))
  }

  ghost function Run<T>(s: State<T>, ops: seq<Op<T>>): (r: State<T>)
    requires RunEnabled(s, ops)
    decreases |ops|
  {
    if ops == [] then s else Run(Step(s, ops[0]), ops[1..])
  }

  /** The events of a run, in order. */
  ghost function Trace<T>(s: State<T>, ops: seq<Op<T>>): (r: seq<Event<T>>)
    requires RunEnabled(s, ops)
    ensures |r| == |ops|
    decreases |ops|
  {
    if ops == [] then [] else [Observe(s, ops[0])] + Trace(Step(s, ops[0]), ops[1..])
  }

  lemma {:induction false} RunKeepsInv<T>(s: State<T>, ops: seq<Op<T>>)
    requires Inv(s) && RunEnabled(s, ops)
    ensures Inv(Run(s, ops))
    decreases |ops|
  {
    if ops != [] {
      RunKeepsInv(Step(s, ops[0]), ops[1..]);
    }
  }

  /** Neither BLOCKING assertion of begin and end can fail, in any interleaving. */
  lemma {:induction false} AssertionsHold<T>(s: State<T>, ops: seq<Op<T>>)
    requires Inv(s) && RunEnabled(s, ops)
    ensures Run(s, ops).target == BeginAssert ==> BLOCKING !in Run(s, ops).flags
    ensures Run(s, ops).target == EndAssert ==> BLOCKING in Run(s, ops).flags
  {
    RunKeepsInv(s, ops);
  }

  /**
   At the moment an interrupt returns, the target is not between a successful
   begin and its end. This needs nothing of the other threads: it holds even if
   the cancellation was withdrawn meanwhile.
   */
  lemma {:induction false} InterruptReturnsOutsideOp<T>(s: State<T>, ops: seq<Op<T>>, t: T)
    requires Inv(s) && RunEnabled(s, ops) && Enabled(Run(s, ops), InterrupterStep(t))
    requires Observe(Run(s, ops), InterrupterStep(t)) == InterruptReturned(t)
    ensures !BetweenBeginAndEnd(Step(Run(s, ops), InterrupterStep(t)).target)
  {
    RunKeepsInv(s, ops);
  }

  /** Interrupted for good: TERMINATE is set and the target is outside the operation. */
  ghost predicate Stopped<T>(s: State<T>) {
    Inv(s) && TERMINATE in s.flags && !BetweenBeginAndEnd(s.target)
  }

  /** As long as the cancellation stands, a stopped target stays stopped and every begin returns false. */
  lemma {:induction false} StoppedForever<T>(s: State<T>, ops: seq<Op<T>>)
    requires Stopped(s) && RunEnabled(s, ops) && ClearTerminate !in ops
    ensures Stopped(Run(s, ops))
    ensures BeginReturned(true) !in Trace(s, ops)
    decreases |ops|
  {
    if ops != [] {
      assert ops[0] in ops;
      StoppedForever(Step(s, ops[0]), ops[1..]);
    }
  }

  /** An interrupter past its first step, with the cancellation still standing, has TERMINATE set. */
  lemma {:induction false} TerminateStands<T>(s: State<T>, ops: seq<Op<T>>)
    requires RunEnabled(s, ops) && ClearTerminate !in ops && TERMINATE in s.flags
    ensures TERMINATE in Run(s, ops).flags
    decreases |ops|
  {
    if ops != [] {
      assert ops[0] in ops;
      TerminateStands(Step(s, ops[0]), ops[1..]);
    }
  }

  /**
   The guarantee of `wasm_runtime_interrupt_blocking_op`: take any run in which
   interrupter `t` sets TERMINATE, later returns, and the cancellation is not
   withdrawn. From its return on, the target is never inside a blocking operation
   and every begin returns false.
   */
  lemma {:induction false} InterruptGuarantee<T>(s: State<T>, during: seq<Op<T>>, after: seq<Op<T>>, t: T)
    requires Inv(s) && Enabled(s, InterrupterStep(t)) && s.interrupters[t] == SetTerminate
    requires RunEnabled(Step(s, InterrupterStep(t)), during) && ClearTerminate !in during
    requires var s1 := Run(Step(s, InterrupterStep(t)), during);
             && Enabled(s1, InterrupterStep(t)) && Observe(s1, InterrupterStep(t)) == InterruptReturned(t)
             && RunEnabled(Step(s1, InterrupterStep(t)), after)
    requires ClearTerminate !in after
    ensures var s2 := Step(Run(Step(s, InterrupterStep(t)), during), InterrupterStep(t));
            && !BetweenBeginAndEnd(Run(s2, after).target)
            && BeginReturned(true) !in Trace(s2, after)
  {
    var s0 := Step(s, InterrupterStep(t));
    var s1 := Run(s0, during);
    RunKeepsInv(s0, during);
    TerminateStands(s0, during);
    StoppedForever(Step(s1, InterrupterStep(t)), after);
  }

  /** What a step writes to TERMINATE: the interrupter's first step and other parts of the runtime set it. */
  function WriteOf<T>(s: State<T>, op: Op<T>): Option<bool>
    requires Enabled(s, op)
  {
    match op
    case InterrupterStep(t) => if s.interrupters[t] == SetTerminate then Some(true) else None
    case OtherFlags(sets, _) => if TERMINATE in sets then Some(true) else None
    case ClearTerminate => Some(false)
    case _ => None
  }

  ghost function Writes<T>(s: State<T>, ops: seq<Op<T>>): (r: seq<Option<bool>>)
    requires RunEnabled(s, ops)
    ensures |r| == |ops|
    decreases |ops|
  {
    if ops == [] then [] else [WriteOf(s, ops[0])] + Writes(Step(s, ops[0]), ops[1..])
  }

  /** A write set the flag and no later one cleared it. */
  ghost predicate SetLast(ws: seq<Option<bool>>) {
    exists j :: 0 <= j < |ws| && ws[j] == Some(true) && Some(false) !in ws[j..]
  }

  /** The cancellation stands at the end of a run: set last, or set before and never withdrawn. */
  ghost predicate Cancelled<T>(s: State<T>, ops: seq<Op<T>>)
    requires RunEnabled(s, ops)
  {
    SetLast(Writes(s, ops)) || (TERMINATE in s.flags && Some(false) !in Writes(s, ops))
  }

  lemma SetLastFirst(w: Option<bool>, ws: seq<Option<bool>>)
    ensures SetLast([w] + ws) <==> SetLast(ws) || (w == Some(true) && Some(false) !in ws)
  {
    var all := [w] + ws;
    if SetLast(all) {
      var j :| 0 <= j < |all| && all[j] == Some(true) && Some(false) !in all[j..];
      if j > 0 {
        assert ws[j - 1] == Some(true) && ws[j - 1..] == all[j..];
      } else {
        assert all == [w] + ws && forall x | x in ws :: x in all[0..];
      }
    }
    if SetLast(ws) {
      var j :| 0 <= j < |ws| && ws[j] == Some(true) && Some(false) !in ws[j..];
      assert all[j + 1] == Some(true) && all[j + 1..] == ws[j..];
    }
    if w == Some(true) && Some(false) !in ws {
      assert all[0] == Some(true) && all[0..] == all;
    }
  }

  /** In every interleaving TERMINATE is set exactly while the cancellation stands. */
  lemma {:induction false} TerminateIffCancelled<T>(s: State<T>, ops: seq<Op<T>>)
    requires RunEnabled(s, ops)
    ensures TERMINATE in Run(s, ops).flags <==> Cancelled(s, ops)
    decreases |ops|
  {
    if ops == [] {
      assert Writes(s, ops) == [];
    } else {
      var s1 := Step(s, ops[0]);
      TerminateIffCancelled(s1, ops[1..]);
      SetLastFirst(WriteOf(s, ops[0]), Writes(s1, ops[1..]));
      assert TERMINATE in s1.flags
             <==> WriteOf(s, ops[0]) == Some(true) || (WriteOf(s, ops[0]).None? && TERMINATE in s.flags);
    }
  }

  /**
   A begin that has reached its test is refused if and only if the last write to
   TERMINATE in the whole run before it, by any thread, was a set. Refused, it
   returns false with BLOCKING clear; otherwise the operation starts.
   */
  lemma {:induction false} BeginRefusedIffCancelled<T>(s: State<T>, ops: seq<Op<T>>)
    requires Inv(s) && RunEnabled(s, ops) && Run(s, ops).target == BeginCheck
    ensures var s1 := Run(s, ops);
            && (Observe(s1, TargetStep) == BeginReturned(true) <==> !Cancelled(s, ops))
            && (Cancelled(s, ops) ==>
                  && Enabled(Step(s1, TargetStep), TargetStep)
                  && Observe(Step(s1, TargetStep), TargetStep) == BeginReturned(false)
                  && BLOCKING !in Step(Step(s1, TargetStep), TargetStep).flags
                  && Step(Step(s1, TargetStep), TargetStep).target == Idle)
  {
    TerminateIffCancelled(s, ops);
  }

  /** The target is at a point from which a begin has not yet set BLOCKING, or not in an operation at all. */
  predicate OutsideOp(pc: TargetPc) {
    pc == Idle || pc == BeginAssert || pc == BeginSet
  }

  /**
   In every interleaving the loop of an interrupter ends at exactly those of its
   tests that find the target outside an operation: it has then returned and may
   be called again. Otherwise it goes on to wake the target up and tests again.
   */
  lemma {:induction false} InterruptReturnsIff<T>(s: State<T>, ops: seq<Op<T>>, t: T)
    requires Inv(s) && RunEnabled(s, ops)
    requires t in Run(s, ops).interrupters && Run(s, ops).interrupters[t] == TestBlocking
    ensures var (s1, op) := (Run(s, ops), InterrupterStep(t));
            var s2 := Step(s1, op);
            && s2.flags == s1.flags && s2.target == s1.target
            && (OutsideOp(s1.target) <==> s2.interrupters[t] == Returned)
            && (OutsideOp(s1.target) <==> Observe(s1, op) == InterruptReturned(t))
            && (OutsideOp(s1.target) <==> Enabled(s2, StartInterrupt(t)))
            && (!OutsideOp(s1.target) ==> Enabled(s2, op) && Step(s2, op) == s1)
  {
    RunKeepsInv(s, ops);
    var s1 := Run(s, ops);
    assert s1.interrupters[t := Relax][t := TestBlocking] == s1.interrupters;
  }

  function Times<T>(op: Op<T>, n: nat): seq<Op<T>> {
    seq(n, _ => op)
  }

  lemma {:induction false} TimesRun<T>(s: State<T>, op: Op<T>, n: nat)
    requires n > 0 && Enabled(s, op) && RunEnabled(Step(s, op), Times(op, n - 1))
    ensures RunEnabled(s, Times(op, n)) && Run(s, Times(op, n)) == Run(Step(s, op), Times(op, n - 1))
  {
    assert Times(op, n)[1..] == Times(op, n - 1);
  }

  /** Outside an operation an interrupter returns after at most two steps of its own, with TERMINATE set by it. */
  lemma {:induction false} InterrupterFinishes<T>(s: State<T>, t: T, n: nat)
    requires Inv(s) && OutsideOp(s.target) && t in s.interrupters && s.interrupters[t] != Returned
    requires n == if s.interrupters[t] == TestBlocking then 1 else 2
    ensures var ops := Times(InterrupterStep(t), n);
            && RunEnabled(s, ops) && t in Run(s, ops).interrupters && Run(s, ops).interrupters[t] == Returned
            && Run(s, ops).flags == s.flags + if s.interrupters[t] == SetTerminate then {TERMINATE} else {}
  {
    var op := InterrupterStep(t);
    var s1 := Step(s, op);
    TimesRun(if n == 1 then s else s1, op, 1);
    assert Times(op, 0) == [];
    if n == 2 {
      TimesRun(s, op, 2);
    }
  }

  /** In every interleaving the end of an operation takes two steps, clears BLOCKING and nothing else. */
  lemma {:induction false} EndReturns<T>(s: State<T>, ops: seq<Op<T>>)
    requires Inv(s) && RunEnabled(s, ops) && Run(s, ops).target == InOp
    ensures var (s1, end) := (Run(s, ops), [StartEnd, TargetStep, TargetStep]);
            && BLOCKING in s1.flags && RunEnabled(s1, end)
            && Run(s1, end) == s1.(flags := s1.flags - {BLOCKING}, target := Idle)
  {
    RunKeepsInv(s, ops);
    var s1 := Run(s, ops);
    var end: seq<Op<T>> := [StartEnd, TargetStep, TargetStep];
    assert end[1..] == [TargetStep, TargetStep] && end[1..][1..] == [TargetStep] && end[1..][1..][1..] == [];
  }

  /** And it does succeed then: from every stopped idle state, withdrawing the cancellation lets a begin through. */
  lemma WithdrawnCancellation<T>(s: State<T>)
    requires Stopped(s) && s.target == Idle
    ensures var s1 := Step(Step(Step(Step(s, ClearTerminate), StartBegin), TargetStep), TargetStep);
            Enabled(s1, TargetStep) && Observe(s1, TargetStep) == BeginReturned(true)
            && BetweenBeginAndEnd(Step(s1, TargetStep).target)
  {}
}
