/** Whole runs of the wait/notify protocol: who is woken, by whom, and how often. */
module WaitNotifyTheorems {
  import opened Machine
  import opened Arithmetic
  import opened WaitNotifySpec

  ghost predicate RunEnabled<N>(s: State<N>, ops: seq<Op<N>>)
    requires Inv(s)
    decreases |ops|
  {
    if ops == [] then true
    else if !Enabled(s, ops[0]) then false
    else StepKeepsInv(s, ops[0]); RunEnabled(Step(s, ops[0]), ops[1..])
  }

  ghost function Run<N>(s: State<N>, ops: seq<Op<N>>): (r: State<N>)
    requires Inv(s) && RunEnabled(s, ops)
    decreases |ops|
  {
    if ops == [] then s else StepKeepsInv(s, ops[0]); Run(Step(s, ops[0]), ops[1..])
  }

  /** The state after one step, which is again a reachable one. */
  ghost function After<N>(s: State<N>, op: Op<N>): (r: State<N>)
    requires Inv(s) && Enabled(s, op)
    ensures Inv(r)
  {
    StepKeepsInv(s, op);
    Step(s, op)
  }

  /** In every reachable state each sleeping waiter is queued where the notifier will look for it. */
  lemma {:induction false} RunKeepsInv<N>(s: State<N>, ops: seq<Op<N>>)
    requires Inv(s) && RunEnabled(s, ops)
    ensures Inv(Run(s, ops))
    decreases |ops|
  {
    if ops != [] {
      StepKeepsInv(s, ops[0]);
      RunKeepsInv(Step(s, ops[0]), ops[1..]);
    }
  }

  // ---------------------------------------------------------------------------
  // The value check
  // ---------------------------------------------------------------------------

  /** The `n` bytes from `a` on. */
  function BytesAt(mem: map<nat, byte>, a: nat, n: nat): (r: seq<byte>)
    ensures |r| == n
  {
    seq(n, i requires 0 <= i < n => if a + i in mem then mem[a + i] else 0)
  }

  lemma {:induction false} Load32Is(mem: map<nat, byte>, a: nat)
    ensures Load32(mem, a) == FromBytes(BytesAt(mem, a, 4))
  {
    var b0 := BytesAt(mem, a, 4);
    var b1, b2, b3 := b0[1..], b0[2..], b0[3..];
    assert b1[1..] == b2 && b2[1..] == b3 && b3[1..] == [];
    assert FromBytes(b3) == b3[0] && FromBytes(b2) == b2[0] + 256 * FromBytes(b3);
    assert FromBytes(b1) == b1[0] + 256 * FromBytes(b2) && FromBytes(b0) == b0[0] + 256 * FromBytes(b1);
  }

  lemma {:induction false} Load64Is(mem: map<nat, byte>, a: nat)
    ensures Load64(mem, a) == FromBytes(BytesAt(mem, a, 8))
  {
    Load32Is(mem, a);
    Load32Is(mem, a + 4);
    assert BytesAt(mem, a, 8) == BytesAt(mem, a, 4) + BytesAt(mem, a + 4, 4);
    FromBytesConcat(BytesAt(mem, a, 4), BytesAt(mem, a + 4, 4));
    assert Pow256(2) == 0x1_0000 && Pow256(4) == 0x1_0000_0000;
  }

  /** The stores that put `bytes` at `a`, one byte after the other. */
  function StoreOps<N>(a: nat, bytes: seq<byte>): (ops: seq<Op<N>>)
    ensures |ops| == |bytes|
  {
    if bytes == [] then [] else StoreOps(a, bytes[..|bytes| - 1]) + [Store(a + |bytes| - 1, bytes[|bytes| - 1])]
  }

  /** Stores touch nothing but memory, and leave the bytes there. */
  lemma {:induction false} StoredBytes<N>(s: State<N>, a: nat, bytes: seq<byte>)
    requires Inv(s)
    ensures RunEnabled(s, StoreOps(a, bytes))
    ensures var s' := Run(s, StoreOps(a, bytes));
            Inv(s') && s'.nodes == s.nodes && s'.queues == s.queues && BytesAt(s'.mem, a, |bytes|) == bytes
    decreases |bytes|
  {
    if bytes != [] {
      hide Inv;
      var front, last := bytes[..|bytes| - 1], bytes[|bytes| - 1];
      StoredBytes(s, a, front);
      var s1 := Run(s, StoreOps(a, front));
      RunLast(s, StoreOps(a, front), Store(a + |front|, last));
      StepKeepsInv(s1, Store(a + |front|, last));
      assert bytes == front + [last];
      NextByte(s1.mem, a, front, last);
    }
  }

  lemma {:induction false} NextByte(mem: map<nat, byte>, a: nat, front: seq<byte>, last: byte)
    requires BytesAt(mem, a, |front|) == front
    ensures BytesAt(mem[a + |front| := last], a, |front| + 1) == front + [last]
  {
    var bytes := BytesAt(mem[a + |front| := last], a, |front| + 1);
    forall i | 0 <= i < |front| ensures bytes[i] == front[i] {
      assert BytesAt(mem, a, |front|)[i] == front[i];
    }
  }

  /** One more step at the end of a run. */
  lemma {:induction false} RunLast<N>(s: State<N>, ops: seq<Op<N>>, op: Op<N>)
    requires Inv(s) && RunEnabled(s, ops) && Enabled(Run(s, ops), op)
    ensures Inv(Run(s, ops)) && RunEnabled(s, ops + [op]) && Run(s, ops + [op]) == Step(Run(s, ops), op)
    decreases |ops|
  {
    RunKeepsInv(s, ops);
    if ops == [] {
      assert ops + [op] == [op] && [op][1..] == [];
    } else {
      StepKeepsInv(s, ops[0]);
      RunLast(Step(s, ops[0]), ops[1..], op);
      assert (ops + [op])[1..] == ops[1..] + [op];
    }
  }

  /** A node that has just started to wait, with all of its time left. */
  predicate FreshNode(n: Node, a: nat, timeout: Option<nat>) {
    && n.addr == a && n.status == Waiting && n.timeout == timeout && n.waited == 0
    && (timeout.Some? ==> n.left == timeout.value)
  }

  /**
   The value check, over steps: after any 32-bit value has been stored, byte by
   byte and least significant first, a wait on the address is queued if and only
   if it expects that value and its node was granted; a 64-bit wait likewise.
   */
  lemma {:induction false} WaitQueuesIff<N>(s: State<N>, a: nat, v: nat, wait: Op<N>)
    requires Inv(s) && wait.Enter? && wait.addr == a && wait.id !in s.nodes
    requires if wait.wait64 then v < 0x1_0000_0000_0000_0000 else v < 0x1_0000_0000
    ensures RunEnabled(s, StoreOps(a, ToBytes(v, if wait.wait64 then 8 else 4)))
    ensures var s1 := Run(s, StoreOps(a, ToBytes(v, if wait.wait64 then 8 else 4)));
            && Inv(s1) && Enabled(s1, wait)
            && (wait.id in Step(s1, wait).nodes
                <==> wait.granted && v == if wait.wait64 then wait.expected else wait.expected % 0x1_0000_0000)
            && (wait.id in Step(s1, wait).nodes ==>
                  && Queue(Step(s1, wait).queues, a) == [wait.id] + Queue(s.queues, a)
                  && FreshNode(Step(s1, wait).nodes[wait.id], a, wait.timeout))
            && (wait.id !in Step(s1, wait).nodes ==> Step(s1, wait) == s1)
  {
    hide Inv;
    var n := if wait.wait64 then 8 else 4;
    StoredBytes(s, a, ToBytes(v, n));
    var s1 := Run(s, StoreOps(a, ToBytes(v, n)));
    assert Pow256(2) == 0x1_0000 && Pow256(4) == 0x1_0000_0000 && Pow256(6) == 0x1_0000_0000_0000;
    FromToBytes(v, n);
    Load32Is(s1.mem, a);
    Load64Is(s1.mem, a);
  }

  // ---------------------------------------------------------------------------
  // Who is woken
  // ---------------------------------------------------------------------------

  /** This step is a notify that picks node `id`. */
  ghost predicate Selects<N>(s: State<N>, op: Op<N>, id: N) {
    op.Notify? && id in Selected(s.queues, op.addr, op.count)
  }

  ghost predicate SelectedDuring<N>(s: State<N>, ops: seq<Op<N>>, id: N)
    requires Inv(s) && RunEnabled(s, ops)
    decreases |ops|
  {
    if ops == [] then false
    else StepKeepsInv(s, ops[0]); Selects(s, ops[0], id) || SelectedDuring(Step(s, ops[0]), ops[1..], id)
  }

  /** The wait call of `id` neither starts nor starts again during `ops`. */
  ghost predicate NotEntered<N>(ops: seq<Op<N>>, id: N) {
    forall op | op in ops :: op.Enter? ==> op.id != id
  }

  /** A notify only picks nodes that wait on its own address. */
  lemma SelectsOwnAddress<N>(s: State<N>, op: Op<N>, id: N)
    requires Inv(s) && Selects(s, op, id)
    ensures id in s.nodes && s.nodes[id].addr == op.addr
  {
    assert id in Queue(s.queues, op.addr);
  }

  /** One step of the same. */
  lemma {:induction false} StepMarksSelected<N>(s: State<N>, op: Op<N>, id: N)
    requires Inv(s) && Enabled(s, op) && (op.Enter? ==> op.id != id) && id in Step(s, op).nodes
    ensures id in s.nodes && Step(s, op).nodes[id].addr == s.nodes[id].addr
    ensures Step(s, op).nodes[id].status.Notified? <==> s.nodes[id].status.Notified? || Selects(s, op, id)
  {}

  /** A queued node is marked exactly by the notifies that pick it, and never unmarked. */
  lemma {:induction false} NotifiedIffSelected<N>(s: State<N>, ops: seq<Op<N>>, id: N)
    requires Inv(s) && RunEnabled(s, ops) && NotEntered(ops, id)
    requires id in Run(s, ops).nodes
    ensures id in s.nodes && Run(s, ops).nodes[id].addr == s.nodes[id].addr
    ensures Run(s, ops).nodes[id].status.Notified?
            <==> s.nodes[id].status.Notified? || SelectedDuring(s, ops, id)
    decreases |ops|
  {
    if ops != [] {
      StepKeepsInv(s, ops[0]);
      NotifiedIffSelected(Step(s, ops[0]), ops[1..], id);
      StepMarksSelected(s, ops[0], id);
      assert ops[0] in ops;
    }
  }

  /**
   The whole life of a wait that was queued: it returns 0 exactly when a notify
   on its own address picked it between its enqueue and its dequeue, and 2
   exactly when none did.
   */
  lemma {:induction false} WaitReturnsZeroIffSelected<N>(s: State<N>, enter: Op<N>, ops: seq<Op<N>>, terminated: bool)
    requires Inv(s) && enter.Enter? && Enabled(s, enter) && enter.granted
    requires Matches(s.mem, enter.addr, enter.expected, enter.wait64)
    requires RunEnabled(After(s, enter), ops) && NotEntered(ops, enter.id)
    requires enter.id in Run(After(s, enter), ops).nodes
    requires Leaves(Run(After(s, enter), ops).nodes[enter.id], terminated)
    ensures var n := Run(After(s, enter), ops).nodes[enter.id];
            && n.addr == enter.addr
            && (WaitCode(n) == 0 <==> SelectedDuring(After(s, enter), ops, enter.id))
            && (WaitCode(n) == 2 <==> !SelectedDuring(After(s, enter), ops, enter.id))
  {
    NotifiedIffSelected(After(s, enter), ops, enter.id);
  }

  /** A notify returns min(count, queue length) and marks exactly that prefix of the list; all else stays. */
  lemma NotifyMarksPrefix<N>(s: State<N>, a: nat, count: nat, i: nat)
    requires Inv(s) && i < |Queue(s.queues, a)|
    ensures |Selected(s.queues, a, count)| == Min(count, |Queue(s.queues, a)|)
    ensures Queue(s.queues, a)[i] in s.nodes
    ensures var (id, s') := (Queue(s.queues, a)[i], Step(s, Notify(a, count)));
            && s'.nodes[id] == (if i < count then s.nodes[id].(status := Notified) else s.nodes[id])
            && s'.mem == s.mem && s'.queues == s.queues && s'.nodes.Keys == s.nodes.Keys
            && forall x | x in s.nodes && x !in Queue(s.queues, a) :: s'.nodes[x] == s.nodes[x]
  {
    var q := Queue(s.queues, a);
    forall x | x in s.nodes && x !in q ensures x !in Selected(s.queues, a, count) {}
    assert q[i] in s.queues[a];
    if i >= count {
      assert q[i] !in q[..Min(count, |q|)];
    } else {
      assert q[..Min(count, |q|)][i] == q[i];
    }
  }

  /**
   No wake-up is lost: once a notify has asked for at least as many waiters as
   are queued, every wait on that address that had passed its value check leaves
   at its next wake-up and returns 0, whatever happens in between.
   */
  lemma {:induction false} NoLostWakeup<N>(s: State<N>, a: nat, count: nat, ops: seq<Op<N>>, id: N, terminated: bool)
    requires Inv(s) && |Queue(s.queues, a)| <= count && id in s.nodes && s.nodes[id].addr == a
    requires RunEnabled(After(s, Notify(a, count)), ops) && NotEntered(ops, id)
    requires id in Run(After(s, Notify(a, count)), ops).nodes
    ensures var n := Run(After(s, Notify(a, count)), ops).nodes[id];
            Leaves(n, terminated) && WaitCode(n) == 0
  {
    var q := Queue(s.queues, a);
    assert q[..Min(count, |q|)] == q;
    NotifiedIffSelected(After(s, Notify(a, count)), ops, id);
  }

  /**
   A wake-up ends the wait if and only if the node was notified, its thread is
   terminated, or the next second would use up the timeout; the node is then gone
   from its list, and otherwise still in it. The memory, the other nodes and the
   other lists stay as they are.
   */
  lemma {:induction false} WakeLeavesIff<N>(s: State<N>, id: N, terminated: bool)
    requires Inv(s) && id in s.nodes
    ensures var n, s' := s.nodes[id], Step(s, Wake(id, terminated));
            && (id !in s'.nodes <==> || n.status == Notified || terminated
                                     || (n.timeout.Some? && n.timeout.value <= n.waited + 1_000_000))
            && (id in s'.nodes <==> id in Queue(s'.queues, n.addr))
            && s'.mem == s.mem
            && (forall x | x in s.nodes && x != id :: x in s'.nodes && s'.nodes[x] == s.nodes[x])
            && (forall b | b != n.addr :: Queue(s'.queues, b) == Queue(s.queues, b))
  {
    var a := s.nodes[id].addr;
    var s' := Step(s, Wake(id, terminated));
    StepKeepsInv(s, Wake(id, terminated));
    assert Timed(s.nodes[id]);
    if Leaves(s.nodes[id], terminated) {
      WithoutMember(s.queues[a], id, id);
    }
  }

  /**
   A wait that ends without being notified or terminated has asked for exactly
   its timeout, in sleeps of a second and a remainder; a wait without a timeout
   never ends that way.
   */
  lemma TimeoutIsExact(n: Node)
    requires Timed(n) && Leaves(n, false) && n.status.Waiting?
    ensures n.timeout.Some? && n.waited + NextSleep(n) == n.timeout.value
  {}

  // ---------------------------------------------------------------------------
  // How many are woken
  // ---------------------------------------------------------------------------

  ghost function NotifiedIn<N>(nodes: map<N, Node>): set<N> {
    set x | x in nodes && nodes[x].status.Notified?
  }

  ghost function NotifiedNodes<N>(s: State<N>): set<N> {
    NotifiedIn(s.nodes)
  }

  /** What a notify step returns; 0 for the other steps. */
  ghost function NotifyResult<N>(s: State<N>, op: Op<N>): nat {
    if op.Notify? then |Selected(s.queues, op.addr, op.count)| else 0
  }

  /** 1 if the step is a wait that returns 0. */
  ghost function ZeroReturn<N>(s: State<N>, op: Op<N>): nat
    requires Enabled(s, op)
  {
    if op.Wake? && Leaves(s.nodes[op.id], op.terminated) && WaitCode(s.nodes[op.id]) == 0 then 1 else 0
  }

  /** How many nodes the step notifies that had been notified before. */
  ghost function NotifiedAgain<N>(s: State<N>, op: Op<N>): nat {
    if op.Notify? then |Elements(Selected(s.queues, op.addr, op.count)) * NotifiedNodes(s)| else 0
  }

  ghost function Elements<N>(q: seq<N>): set<N> {
    set x | x in q
  }

  ghost function SumResults<N>(s: State<N>, ops: seq<Op<N>>): nat
    requires Inv(s) && RunEnabled(s, ops)
    decreases |ops|
  {
    if ops == [] then 0
    else StepKeepsInv(s, ops[0]); NotifyResult(s, ops[0]) + SumResults(Step(s, ops[0]), ops[1..])
  }

  ghost function SumZeroReturns<N>(s: State<N>, ops: seq<Op<N>>): nat
    requires Inv(s) && RunEnabled(s, ops)
    decreases |ops|
  {
    if ops == [] then 0
    else StepKeepsInv(s, ops[0]); ZeroReturn(s, ops[0]) + SumZeroReturns(Step(s, ops[0]), ops[1..])
  }

  ghost function SumAgain<N>(s: State<N>, ops: seq<Op<N>>): nat
    requires Inv(s) && RunEnabled(s, ops)
    decreases |ops|
  {
    if ops == [] then 0
    else StepKeepsInv(s, ops[0]); NotifiedAgain(s, ops[0]) + SumAgain(Step(s, ops[0]), ops[1..])
  }

  lemma {:induction false} ElementsOfDistinct<N>(q: seq<N>)
    requires Distinct(q)
    ensures |Elements(q)| == |q|
    decreases |q|
  {
    if q != [] {
      ElementsOfDistinct(q[1..]);
      assert q[0] !in q[1..];
      assert Elements(q) == Elements(q[1..]) + {q[0]};
    }
  }

  lemma NotifyAccount<N>(s: State<N>, a: nat, count: nat)
    requires Inv(s)
    ensures |NotifiedNodes(s)| + NotifyResult(s, Notify(a, count))
            == |NotifiedNodes(Step(s, Notify(a, count)))| + NotifiedAgain(s, Notify(a, count))
  {
    var sel := Selected(s.queues, a, count);
    assert Distinct(sel);
    ElementsOfDistinct(sel);
    NotifyAddsSelected(s, a, count);
    UnionCount(NotifiedNodes(s), Elements(sel));
  }

  lemma NotifyAddsSelected<N>(s: State<N>, a: nat, count: nat)
    requires Inv(s)
    ensures NotifiedNodes(Step(s, Notify(a, count))) == NotifiedNodes(s) + Elements(Selected(s.queues, a, count))
  {
    var sel := Selected(s.queues, a, count);
    forall x | x in sel ensures x in s.nodes {
      assert x in Queue(s.queues, a);
    }
  }

  lemma UnionCount<N>(a: set<N>, b: set<N>)
    ensures |a| + |b| == |a + b| + |b * a|
  {
    assert a + b == a + (b - a);
    assert b == (b - a) + (b * a);
  }

  lemma StepAccount<N>(s: State<N>, op: Op<N>)
    requires Inv(s) && Enabled(s, op)
    ensures |NotifiedNodes(s)| + NotifyResult(s, op)
            == ZeroReturn(s, op) + |NotifiedNodes(Step(s, op))| + NotifiedAgain(s, op)
  {
    match op
    case Notify(a, count) => NotifyAccount(s, a, count);
    case Wake(id, terminated) => WakeAccount(s, id, terminated);
    case _ => assert NotifiedNodes(Step(s, op)) == NotifiedNodes(s);
  }

  lemma WakeAccount<N>(s: State<N>, id: N, terminated: bool)
    requires Inv(s) && id in s.nodes
    ensures |NotifiedNodes(s)| == ZeroReturn(s, Wake(id, terminated)) + |NotifiedNodes(Step(s, Wake(id, terminated)))|
  {
    if Leaves(s.nodes[id], terminated) {
      RemovalAccount(s.nodes, id);
    } else {
      assert NotifiedIn(s.nodes[id := SleepAgain(s.nodes[id])]) == NotifiedIn(s.nodes);
    }
  }

  lemma RemovalAccount<N>(nodes: map<N, Node>, id: N)
    requires id in nodes
    ensures |NotifiedIn(nodes)| == (if nodes[id].status.Notified? then 1 else 0) + |NotifiedIn(nodes - {id})|
  {
    assert NotifiedIn(nodes - {id}) == NotifiedIn(nodes) - {id};
  }

  /**
   Conservation over every run: each unit of a notify result is a wait that
   returned 0, a node still on its way out, or a node notified more than once.
   */
  lemma {:induction false} NotifyConservation<N>(s: State<N>, ops: seq<Op<N>>)
    requires Inv(s) && RunEnabled(s, ops)
    ensures |NotifiedNodes(s)| + SumResults(s, ops)
            == SumZeroReturns(s, ops) + |NotifiedNodes(Run(s, ops))| + SumAgain(s, ops)
    decreases |ops|
  {
    if ops != [] {
      StepKeepsInv(s, ops[0]);
      StepAccount(s, ops[0]);
      NotifyConservation(Step(s, ops[0]), ops[1..]);
    }
  }

  /** Starting with nobody notified, waits that return 0 never outnumber the notify results. */
  lemma {:induction false} ZeroReturnsBounded<N>(s: State<N>, ops: seq<Op<N>>)
    requires Inv(s) && RunEnabled(s, ops) && NotifiedNodes(s) == {}
    ensures SumZeroReturns(s, ops) <= SumResults(s, ops)
    ensures SumZeroReturns(s, ops) == SumResults(s, ops)
            <==> NotifiedNodes(Run(s, ops)) == {} && SumAgain(s, ops) == 0
  {
    NotifyConservation(s, ops);
  }

  // ---------------------------------------------------------------------------
  // Who is picked, in terms of arrival
  // ---------------------------------------------------------------------------

  ghost function EnteredIds<N>(ops: seq<Op<N>>): set<N> {
    set op | op in ops && op.Enter? :: op.id
  }

  /** The nodes before `id` in its list are the ones that came later. */
  ghost predicate Ordered<N>(q: seq<N>, id: N, later: set<N>) {
    && id in q
    && forall i, j | 0 <= i < |q| && 0 <= j < |q| && q[i] == id && i != j :: j < i <==> q[j] in later
  }

  /** Where `x` occurs first in `q`; its length if nowhere. */
  lemma {:induction false} FirstAt<N>(q: seq<N>, x: N) returns (k: nat)
    ensures k <= |q| && x !in q[..k] && (k < |q| ==> q[k] == x)
  {
    k := 0;
    while k < |q| && q[k] != x
      invariant k <= |q| && x !in q[..k]
    {
      assert q[..k + 1] == q[..k] + [q[k]];
      k := k + 1;
    }
  }

  /** A node leaving does not change the order of the others. */
  lemma {:induction false} WithoutOrdered<N>(q: seq<N>, x: N, id: N, later: set<N>)
    requires Ordered(q, id, later) && x != id
    ensures Ordered(Without(q, x), id, later)
  {
    var k := FirstAt(q, x);
    if k < |q| {
      WithoutAt(q, x, k);
      TakenOutOrdered(q, k, Without(q, x), id, later);
    } else {
      assert q[..k] == q;
      WithoutAbsent(q, x);
    }
  }

  lemma {:induction false} TakenOutOrdered<N>(q: seq<N>, k: nat, rest: seq<N>, id: N, later: set<N>)
    requires k < |q| && Ordered(q, id, later) && q[k] != id && rest == q[..k] + q[k + 1..]
    ensures Ordered(rest, id, later)
  {
    assert forall i | 0 <= i < |rest| :: rest[i] == q[if i < k then i else i + 1];
    var at :| 0 <= at < |q| && q[at] == id;
    assert rest[if at < k then at else at - 1] == id;
    forall i, j | 0 <= i < |rest| && 0 <= j < |rest| && rest[i] == id && i != j
      ensures j < i <==> rest[j] in later
    {
      var i', j' := if i < k then i else i + 1, if j < k then j else j + 1;
      assert q[i'] == id && q[j'] == rest[j];
    }
  }

  /** A node arriving goes in front of all others. */
  lemma {:induction false} ArrivalOrdered<N>(q: seq<N>, y: N, id: N, later: set<N>)
    requires Ordered(q, id, later) && y !in q
    ensures Ordered([y] + q, id, later + {y}) && Ordered(q, id, later + {y})
  {
    var q' := [y] + q;
    assert forall i | 0 < i < |q'| :: q'[i] == q[i - 1] && q'[i] in q;
    assert id in q';
  }

  lemma {:induction false} StepOrdered<N>(s: State<N>, op: Op<N>, id: N, later: set<N>)
    requires Inv(s) && Enabled(s, op) && (op.Enter? ==> op.id != id) && id in s.nodes && id in Step(s, op).nodes
    requires Ordered(Queue(s.queues, s.nodes[id].addr), id, later)
    ensures Step(s, op).nodes[id].addr == s.nodes[id].addr
    ensures Ordered(Queue(Step(s, op).queues, s.nodes[id].addr), id, if op.Enter? then later + {op.id} else later)
  {
    var a := s.nodes[id].addr;
    var q := Queue(s.queues, a);
    match op
    case Enter(y, _, _, _, _, _) =>
      assert forall x | x in q :: x in s.queues[a];
      ArrivalOrdered(q, y, id, later);
    case Wake(x, terminated) =>
      if Leaves(s.nodes[x], terminated) {
        WithoutOrdered(q, x, id, later);
      }
    case _ =>
  }

  lemma {:induction false} EnteredFirst<N>(ops: seq<Op<N>>)
    requires ops != []
    ensures EnteredIds(ops) == (if ops[0].Enter? then {ops[0].id} else {}) + EnteredIds(ops[1..])
  {
    assert ops == [ops[0]] + ops[1..];
    assert forall op :: op in ops <==> op == ops[0] || op in ops[1..];
  }

  lemma {:induction false} RunOrdered<N>(s: State<N>, ops: seq<Op<N>>, id: N, later: set<N>)
    requires Inv(s) && RunEnabled(s, ops) && NotEntered(ops, id) && id in s.nodes && id in Run(s, ops).nodes
    requires Ordered(Queue(s.queues, s.nodes[id].addr), id, later)
    ensures Run(s, ops).nodes[id].addr == s.nodes[id].addr
    ensures Ordered(Queue(Run(s, ops).queues, s.nodes[id].addr), id, later + EnteredIds(ops))
    decreases |ops|
  {
    if ops == [] {
      assert later + EnteredIds(ops) == later;
    } else {
      var s1, rest := After(s, ops[0]), ops[1..];
      assert ops[0] in ops && forall op | op in rest :: op in ops;
      NotifiedIffSelected(s1, rest, id);
      StepOrdered(s, ops[0], id, later);
      var later1 := if ops[0].Enter? then later + {ops[0].id} else later;
      RunOrdered(s1, rest, id, later1);
      EnteredFirst(ops);
      assert later1 + EnteredIds(rest) == later + EnteredIds(ops);
    }
  }

  /** The waiters on `a` that arrived during `ops` and are still queued. */
  ghost function LaterQueued<N>(s: State<N>, ops: seq<Op<N>>, a: nat): set<N> {
    set y | y in s.nodes && s.nodes[y].addr == a && y in EnteredIds(ops)
  }

  lemma {:induction false} RankIs<N>(q: seq<N>, id: N, later: set<N>) returns (rank: nat)
    requires Distinct(q) && Ordered(q, id, later) && id !in later
    ensures rank < |q| && q[rank] == id && |set y | y in q && y in later| == rank
  {
    rank :| 0 <= rank < |q| && q[rank] == id;
    ElementsOfDistinct(q[..rank]);
    assert (set y | y in q && y in later) == Elements(q[..rank]) by {
      forall y | y in q && y in later ensures y in q[..rank] {
        var j :| 0 <= j < |q| && q[j] == y;
      }
      forall y | y in q[..rank] ensures y in q && y in later {
        var j :| 0 <= j < rank && q[j] == y;
      }
    }
  }

  /**
   The last to come is the first to be picked: after every run in which a wait is
   still queued, a notify on its address picks it if and only if fewer than
   `count` waiters that came later are still queued there.
   */
  lemma {:induction false} PickedIffFewCameLater<N>(s: State<N>, enter: Op<N>, ops: seq<Op<N>>, count: nat)
    requires Inv(s) && enter.Enter? && Enabled(s, enter) && enter.granted
    requires Matches(s.mem, enter.addr, enter.expected, enter.wait64)
    requires RunEnabled(After(s, enter), ops) && NotEntered(ops, enter.id)
    requires enter.id in Run(After(s, enter), ops).nodes
    ensures var s' := Run(After(s, enter), ops);
            enter.id in Selected(s'.queues, enter.addr, count)
            <==> |LaterQueued(s', ops, enter.addr)| < count
  {
    var s1, a, id := After(s, enter), enter.addr, enter.id;
    JustEntered(s, enter);
    RunOrdered(s1, ops, id, {});
    RunKeepsInv(s1, ops);
    assert {} + EnteredIds(ops) == EnteredIds(ops);
    PickedIffRank(Run(s1, ops), ops, a, id, count);
  }

  lemma {:induction false} JustEntered<N>(s: State<N>, enter: Op<N>)
    requires Inv(s) && enter.Enter? && Enabled(s, enter) && enter.granted
    requires Matches(s.mem, enter.addr, enter.expected, enter.wait64)
    ensures enter.id in Step(s, enter).nodes && Step(s, enter).nodes[enter.id].addr == enter.addr
    ensures Ordered(Queue(Step(s, enter).queues, enter.addr), enter.id, {})
  {
    StepKeepsInv(s, enter);
    var q := Queue(Step(s, enter).queues, enter.addr);
    assert q[0] == enter.id && Distinct(q);
  }

  lemma {:induction false} PickedIffRank<N>(s: State<N>, ops: seq<Op<N>>, a: nat, id: N, count: nat)
    requires Inv(s) && NotEntered(ops, id) && Ordered(Queue(s.queues, a), id, EnteredIds(ops))
    ensures id in Selected(s.queues, a, count) <==> |LaterQueued(s, ops, a)| < count
  {
    var q := Queue(s.queues, a);
    assert id !in EnteredIds(ops);
    var rank := RankIs(q, id, EnteredIds(ops));
    assert LaterQueued(s, ops, a) == set y | y in q && y in EnteredIds(ops);
    var selected := Selected(s.queues, a, count);
    if rank < count {
      assert selected[rank] == id;
    } else {
      assert forall i | 0 <= i < |selected| :: selected[i] == q[i] && q[i] != q[rank];
    }
  }

  // ---------------------------------------------------------------------------
  // Results are not a count of woken waiters
  // ---------------------------------------------------------------------------

  function NoWaiters(): State<nat> {
    State(map[], map[], map[])
  }

  function NewNode(): Node {
    Node(64, Waiting, None, 0, 0)
  }

  function OneWaiter(): State<nat> {
    State(map[], map[64 := [0]], map[0 := NewNode()])
  }

  function TwoWaiters(first: Status): State<nat> {
    State(map[], map[64 := [1, 0]], map[0 := NewNode(), 1 := NewNode().(status := first)])
  }

  /** Wait on address 64, which holds 0, without a timeout. */
  function WaitOn64(id: nat): Op<nat> {
    Enter(id, 64, 0, false, None, true)
  }

  lemma {:induction false} FirstWaits()
    ensures Inv(NoWaiters()) && Enabled(NoWaiters(), WaitOn64(0)) && Step(NoWaiters(), WaitOn64(0)) == OneWaiter()
    ensures NotifyResult(NoWaiters(), WaitOn64(0)) == 0
  {
    assert [0] + [] == [0];
  }

  lemma {:induction false} SecondWaits()
    ensures Inv(OneWaiter()) && Enabled(OneWaiter(), WaitOn64(1))
    ensures Step(OneWaiter(), WaitOn64(1)) == TwoWaiters(Waiting)
    ensures NotifyResult(OneWaiter(), WaitOn64(1)) == 0 && Inv(TwoWaiters(Waiting))
  {
    hide Inv;
    FirstWaits();
    StepKeepsInv(NoWaiters(), WaitOn64(0));
    StepKeepsInv(OneWaiter(), WaitOn64(1));
    assert [1] + [0] == [1, 0];
  }

  /** A notify of one waiter picks the newest, whether it was picked before or not. */
  lemma {:induction false} NotifiesNewest(first: Status)
    requires Inv(TwoWaiters(first))
    ensures NotifyResult(TwoWaiters(first), Notify(64, 1)) == 1
    ensures Step(TwoWaiters(first), Notify(64, 1)) == TwoWaiters(Notified) && Inv(TwoWaiters(Notified))
  {
    hide Inv;
    StepKeepsInv(TwoWaiters(first), Notify(64, 1));
    var s := TwoWaiters(first);
    assert Selected(s.queues, 64, 1) == [1];
    assert Marked(s.nodes, [1]) == TwoWaiters(Notified).nodes;
  }

  /** The run from `s` ends in `s'`, and its notify results add up to `sum`. */
  ghost predicate Takes<N>(s: State<N>, ops: seq<Op<N>>, sum: nat, s': State<N>) {
    Inv(s) && RunEnabled(s, ops) && SumResults(s, ops) == sum && Run(s, ops) == s'
  }

  /** One more step in front of a run. */
  lemma {:induction false} TakesFirst<N>(s: State<N>, op: Op<N>, mid: State<N>, ops: seq<Op<N>>, sum: nat,
                                         s': State<N>)
    requires Inv(s) && Enabled(s, op) && Step(s, op) == mid && Takes(mid, ops, sum, s')
    ensures Takes(s, [op] + ops, NotifyResult(s, op) + sum, s')
  {
    assert ([op] + ops)[1..] == ops;
  }

  lemma {:induction false} NotifiedTwice()
    ensures Takes(TwoWaiters(Waiting), [Notify(64, 1)] + ([Notify(64, 1)] + []), 2, TwoWaiters(Notified))
  {
    hide Inv;
    SecondWaits();
    NotifiesNewest(Waiting);
    NotifiesNewest(Notified);
    var notify: Op<nat>, s := Notify(64, 1), TwoWaiters(Notified);
    assert Takes(s, [], 0, s);
    hide Inv, Step, Takes, TwoWaiters;
    TakesFirst(s, notify, s, [], 0, s);
    TakesFirst(TwoWaiters(Waiting), notify, s, [notify] + [], 1, s);
  }

  /**
   Two threads wait, and two notifies of one waiter each follow before anybody
   has left: the results add up to 2, and only one waiter has been woken.
   */
  lemma {:induction false} NotifyCountsTwice() returns (ops: seq<Op<nat>>)
    ensures ops == [WaitOn64(0), WaitOn64(1), Notify(64, 1), Notify(64, 1)]
    ensures Takes(NoWaiters(), ops, 2, TwoWaiters(Notified)) && NotifiedNodes(TwoWaiters(Notified)) == {1}
  {
    var twice: seq<Op<nat>> := [Notify(64, 1)] + ([Notify(64, 1)] + []);
    BothWait(twice);
    ops := [WaitOn64(0)] + ([WaitOn64(1)] + twice);
    assert NotifiedNodes(TwoWaiters(Notified)) == {1};
    hide Takes, TwoWaiters, WaitOn64, NotifiedNodes;
    assert ops == [WaitOn64(0), WaitOn64(1), Notify(64, 1), Notify(64, 1)];
  }

  lemma {:induction false} BothWait(twice: seq<Op<nat>>)
    requires twice == [Notify(64, 1)] + ([Notify(64, 1)] + [])
    ensures Takes(NoWaiters(), [WaitOn64(0)] + ([WaitOn64(1)] + twice), 2, TwoWaiters(Notified))
  {
    hide *;
    FirstWaits();
    SecondWaits();
    NotifiedTwice();
    TakesFirst(OneWaiter(), WaitOn64(1), TwoWaiters(Waiting), twice, 2, TwoWaiters(Notified));
    TakesFirst(NoWaiters(), WaitOn64(0), OneWaiter(), [WaitOn64(1)] + twice, 2, TwoWaiters(Notified));
  }
}
