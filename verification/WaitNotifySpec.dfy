/**
 The wait/notify protocol as a transition system. Every region that holds the
 shared-memory lock is one step: entering a wait (value check and enqueue), the
 moment after a wake-up (leave or sleep again), and a notify. `N` identifies
 wait nodes; a node stands for one waiting call.
 */
module WaitNotifySpec {
  import opened Machine

  const ONE_SECOND: nat := 1_000_000

  datatype Status = Waiting | Notified

  /** A wait node and the locals of the call that owns it; times in microseconds. */
  datatype Node = Node(addr: nat, status: Status, timeout: Option<nat>, left: nat, waited: nat)

  /** `queues` is the wait map: wait lists by address, the newest node first. */
  datatype State<!N> = State(mem: map<nat, byte>, queues: map<nat, seq<N>>, nodes: map<N, Node>)

  datatype Op<N> =
    | Store(at: nat, value: byte)
    | Enter(id: N, addr: nat, expected: nat, wait64: bool, timeout: Option<nat>, granted: bool)
    | Wake(id: N, terminated: bool)
    | Notify(addr: nat, count: nat)

  // ---------------------------------------------------------------------------
  // Steps
  // ---------------------------------------------------------------------------

  function Byte(mem: map<nat, byte>, a: nat): nat {
    if a in mem then mem[a] else 0
  }

  function Load32(mem: map<nat, byte>, a: nat): nat {
    Byte(mem, a) + 0x100 * Byte(mem, a + 1) + 0x1_0000 * Byte(mem, a + 2) + 0x100_0000 * Byte(mem, a + 3)
  }

  function Load64(mem: map<nat, byte>, a: nat): nat {
    Load32(mem, a) + 0x1_0000_0000 * Load32(mem, a + 4)
  }

  /** The value check of a wait. */
  predicate Matches(mem: map<nat, byte>, a: nat, expected: nat, wait64: bool) {
    if wait64 then Load64(mem, a) == expected else Load32(mem, a) == expected % 0x1_0000_0000
  }

  function Queue<N>(queues: map<nat, seq<N>>, a: nat): seq<N> {
    if a in queues then queues[a] else []
  }

  /** How long the next sleep of a node is asked to last. */
  function NextSleep(n: Node): nat {
    if n.timeout.None? then ONE_SECOND else Min(n.left, ONE_SECOND)
  }

  /** After a wake-up: does the waiting call leave its loop? */
  predicate Leaves(n: Node, terminated: bool) {
    n.status.Notified? || terminated || (n.timeout.Some? && n.left <= NextSleep(n))
  }

  /** Otherwise it sleeps again, with the time it asked for deducted. */
  function SleepAgain(n: Node): Node
    requires n.timeout.Some? ==> NextSleep(n) <= n.left
  {
    n.(left := if n.timeout.None? then n.left else n.left - NextSleep(n), waited := n.waited + NextSleep(n))
  }

  /** `q` without `x`. */
  function Without<N(==)>(q: seq<N>, x: N): seq<N> {
    if q == [] then [] else if q[0] == x then q[1..] else [q[0]] + Without(q[1..], x)
  }

  /** The nodes one notify selects: a prefix of the wait list. */
  function Selected<N>(queues: map<nat, seq<N>>, a: nat, count: nat): seq<N> {
    var q := Queue(queues, a);
    q[..Min(count, |q|)]
  }

  function Marked<N>(nodes: map<N, Node>, ids: seq<N>): map<N, Node> {
    map x | x in nodes :: if x in ids then nodes[x].(status := Notified) else nodes[x]
  }

  function Enqueued<N>(s: State<N>, id: N, n: Node): State<N> {
    s.(queues := s.queues[n.addr := [id] + Queue(s.queues, n.addr)], nodes := s.nodes[id := n])
  }

  /** Removing a node, and the wait info with it when the list is empty. */
  function Removed<N(==)>(s: State<N>, id: N): State<N>
    requires id in s.nodes
  {
    var a := s.nodes[id].addr;
    var rest := Without(Queue(s.queues, a), id);
    s.(queues := if rest == [] then s.queues - {a} else s.queues[a := rest], nodes := s.nodes - {id})
  }

  /** The code a leaving wait returns: 0 when notified, 2 otherwise. */
  function WaitCode(n: Node): nat {
    if n.status.Notified? then 0 else 2
  }

  predicate Enabled<N>(s: State<N>, op: Op<N>) {
    match op
    case Store(_, _) => true
    case Enter(id, _, _, _, _, _) => id !in s.nodes
    case Wake(id, _) => id in s.nodes
    case Notify(_, _) => true
  }

  function Step<N>(s: State<N>, op: Op<N>): (r: State<N>)
    requires Enabled(s, op) && Inv(s)
  {
    match op
    case Store(at, value) => s.(mem := s.mem[at := value])
    case Enter(id, addr, expected, wait64, timeout, granted) =>
      if Matches(s.mem, addr, expected, wait64) && granted then
        Enqueued(s, id, Node(addr, Waiting, timeout, if timeout.Some? then timeout.value else 0, 0))
      else s
    case Wake(id, terminated) =>
      if Leaves(s.nodes[id], terminated) then Removed(s, id)
      else s.(nodes := s.nodes[id := SleepAgain(s.nodes[id])])
    case Notify(addr, count) => s.(nodes := Marked(s.nodes, Selected(s.queues, addr, count)))
  }

  // ---------------------------------------------------------------------------
  // The invariant
  // ---------------------------------------------------------------------------

  /**
   Every live node is in exactly one list, that of its own address, exactly once;
   the map has an entry exactly for the addresses somebody waits on; the time
   asked for so far and the time left add up to the timeout.
   */
  ghost predicate Inv<N>(s: State<N>) {
    && (forall a | a in s.queues :: s.queues[a] != [] && Distinct(s.queues[a]))
    && (forall a, x | a in s.queues && x in s.queues[a] :: x in s.nodes && s.nodes[x].addr == a)
    && (forall x | x in s.nodes :: s.nodes[x].addr in s.queues && x in s.queues[s.nodes[x].addr])
    && (forall x | x in s.nodes :: Timed(s.nodes[x]))
  }

  ghost predicate Timed(n: Node) {
    n.timeout.Some? ==> n.left + n.waited == n.timeout.value && n.waited % 1_000_000 == 0
  }

  lemma {:induction false} WithoutMember<N>(q: seq<N>, x: N, y: N)
    requires Distinct(q)
    ensures y in Without(q, x) <==> y in q && y != x
    decreases |q|
  {
    if q != [] {
      assert y in q <==> y == q[0] || y in q[1..];
      assert q[0] !in q[1..];
      if q[0] != x {
        WithoutMember(q[1..], x, y);
        assert y in Without(q, x) <==> y == q[0] || y in Without(q[1..], x);
      }
    }
  }

  lemma {:induction false} WithoutSpec<N>(q: seq<N>, x: N)
    requires Distinct(q)
    ensures Distinct(Without(q, x))
    ensures x in q ==> |Without(q, x)| == |q| - 1
    decreases |q|
  {
    if q != [] && q[0] != x {
      WithoutSpec(q[1..], x);
      var r := Without(q[1..], x);
      forall i, j | 0 <= i < j < |[q[0]] + r| ensures ([q[0]] + r)[i] != ([q[0]] + r)[j] {
        if i == 0 {
          WithoutMember(q[1..], x, r[j - 1]);
          assert r[j - 1] in q[1..];
        }
      }
    }
  }

  lemma {:induction false} WithoutAt<N>(q: seq<N>, x: N, i: nat)
    requires i < |q| && q[i] == x && x !in q[..i]
    ensures Without(q, x) == q[..i] + q[i + 1..]
    decreases i
  {
    if i > 0 {
      assert q[0] == q[..i][0];
      assert q[1..][..i - 1] == q[..i][1..];
      WithoutAt(q[1..], x, i - 1);
      assert [q[0]] + (q[1..][..i - 1] + q[1..][i..]) == q[..i] + q[i + 1..];
    }
  }

  lemma {:induction false} WithoutAbsent<N>(q: seq<N>, x: N)
    requires x !in q
    ensures Without(q, x) == q
    decreases |q|
  {
    if q != [] {
      WithoutAbsent(q[1..], x);
    }
  }

  lemma EnterKeepsInv<N>(s: State<N>, id: N, n: Node)
    requires Inv(s) && id !in s.nodes && n.waited == 0 && (n.timeout.Some? ==> n.left == n.timeout.value)
    ensures Inv(Enqueued(s, id, n))
  {
    var q := Queue(s.queues, n.addr);
    var s' := Enqueued(s, id, n);
    assert id !in q;
    assert Distinct([id] + q) by {
      forall i, j | 0 <= i < j < |[id] + q| ensures ([id] + q)[i] != ([id] + q)[j] {
        assert q[j - 1] in q;
      }
    }
    assert forall y :: y in [id] + q <==> y == id || y in q;
    assert s'.queues[n.addr] == [id] + q;
  }

  lemma RemoveKeepsInv<N>(s: State<N>, id: N)
    requires Inv(s) && id in s.nodes
    ensures Inv(Removed(s, id))
  {
    var a := s.nodes[id].addr;
    var q := s.queues[a];
    var rest := Without(q, id);
    WithoutSpec(q, id);
    var s' := Removed(s, id);
    forall x | x in s'.nodes ensures s'.nodes[x].addr in s'.queues && x in s'.queues[s'.nodes[x].addr] {
      WithoutMember(q, id, x);
    }
    forall b | b in s'.queues
      ensures s'.queues[b] != [] && Distinct(s'.queues[b])
      ensures forall x | x in s'.queues[b] :: x in s'.nodes && s'.nodes[x].addr == b
    {
      forall x | x in s'.queues[b] ensures x in s'.nodes && s'.nodes[x].addr == b {
        WithoutMember(q, id, x);
        assert x in s.queues[b];
      }
    }
  }

  /** Every step keeps the invariant. */
  lemma StepKeepsInv<N>(s: State<N>, op: Op<N>)
    requires Inv(s) && Enabled(s, op)
    ensures Inv(Step(s, op))
  {
    assert op.Wake? ==> Timed(s.nodes[op.id]);
    assert op.Notify? ==> forall x | x in s.nodes :: Timed(s.nodes[x]);
    assert op.Store? ==> Inv(Step(s, op));
    hide Inv;
    match op
    case Enter(id, addr, expected, wait64, timeout, granted) =>
      EnterKeepsInv(s, id, Node(addr, Waiting, timeout, if timeout.Some? then timeout.value else 0, 0));
    case Wake(id, terminated) =>
      if Leaves(s.nodes[id], terminated) {
        RemoveKeepsInv(s, id);
      } else {
        SleepKeepsTimed(s.nodes[id], terminated);
        NodeChangeKeepsInv(s, s.nodes[id := SleepAgain(s.nodes[id])]);
      }
    case Notify(addr, count) => NodeChangeKeepsInv(s, Marked(s.nodes, Selected(s.queues, addr, count)));
    case _ =>
  }

  /** Nodes may change in place as long as they keep their address and their time account. */
  lemma NodeChangeKeepsInv<N>(s: State<N>, nodes': map<N, Node>)
    requires Inv(s) && nodes'.Keys == s.nodes.Keys
    requires forall x | x in s.nodes :: nodes'[x].addr == s.nodes[x].addr && Timed(nodes'[x])
    ensures Inv(s.(nodes := nodes'))
  {}

  lemma SleepKeepsTimed(n: Node, terminated: bool)
    requires Timed(n) && !Leaves(n, terminated)
    ensures Timed(SleepAgain(n))
    ensures n.timeout.Some? ==> SleepAgain(n).waited == n.waited + ONE_SECOND && SleepAgain(n).left < n.left
  {
    assert n.timeout.Some? ==> NextSleep(n) == 1_000_000;
  }
}
