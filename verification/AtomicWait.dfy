/**
 Wait and notify on objects: wait nodes whose status a notifier overwrites, and
 the wait map that waiting calls add to and clean up. Each method is one region
 under the shared-memory lock and is proved to be one step of the protocol.
 */
module AtomicWait {
  import opened Machine
  import opened Arithmetic
  import opened WaitNotifySpec
  import opened WaitNotifyTheorems

  /** A wait node, together with the locals of the waiting call that owns it. */
  class WaitNode {
    var address: nat
    var timeout: Option<nat>
    var status: Status
    var timeoutLeft: nat
    ghost var waited: nat

    /** The fields a new node gets, in the storage the allocator handed out. */
    method Init(address: nat, timeout: Option<nat>)
      modifies this
      ensures View() == Node(address, Waiting, timeout, if timeout.Some? then timeout.value else 0, 0)
    {
      this.address := address;
      this.timeout := timeout;
      this.status := Waiting;
      this.timeoutLeft := if timeout.Some? then timeout.value else 0;
      this.waited := 0;
    }

    ghost function View(): (n: Node)
      reads this
    {
      Node(address, status, timeout, timeoutLeft, waited)
    }
  }

  /** The timeout argument in microseconds; a negative one means to wait forever. */
  function Micros(timeoutNs: int): (r: Option<nat>)
    ensures r.None? <==> timeoutNs < 0
    ensures r.Some? ==> 1000 * r.value <= timeoutNs < 1000 * (r.value + 1)
  {
    if timeoutNs < 0 then None else Some(timeoutNs / 1000)
  }

  class WaitTable {
    var mem: map<nat, byte>
    var waitMap: map<nat, seq<WaitNode>>
    ghost var live: set<WaitNode>

    ghost function View(): (s: State<WaitNode>)
      reads this, live
    {
      State(mem, waitMap, map x | x in live :: x.View())
    }

    constructor ()
      ensures waitMap == map[] && live == {} && Inv(View())
    {
      mem := map[];
      waitMap := map[];
      live := {};
    }

    /** A store to the shared memory. */
    method StoreByte(at: nat, value: byte)
      modifies this`mem
      ensures View() == old(View()).(mem := old(mem)[at := value])
    {
      mem := mem[at := value];
    }

    /**
     The first region of `wasm_runtime_atomic_wait`: check the value, then queue a
     node. `storage` is what the allocator returned for the node, null when it had
     no room. Returns 1 on a mismatch and -1 without a node; with 0 the caller goes
     to sleep on the node.
     */
    method EnterWait(storage: WaitNode?, address: nat, expected: nat, wait64: bool, timeoutNs: int)
      returns (code: int)
      requires Inv(View()) && (storage != null ==> storage !in live)
      modifies this, if storage == null then {} else {storage}
      ensures code == if !Matches(old(mem), address, expected, wait64) then 1 else if storage == null then -1 else 0
      ensures code == 1 <==> FromBytes(BytesAt(old(mem), address, if wait64 then 8 else 4))
                             != if wait64 then expected else expected % 0x1_0000_0000
      ensures live == if code == 0 && storage != null then old(live) + {storage} else old(live)
      ensures code != 0 ==> View() == old(View())
      ensures storage != null ==>
                View() == Step(old(View()), Enter(storage, address, expected, wait64, Micros(timeoutNs), true))
    {
      Load32Is(mem, address);
      Load64Is(mem, address);
      if !wait64 && Load32(mem, address) != expected % 0x1_0000_0000 {
        return 1;
      }
      if wait64 && Load64(mem, address) != expected {
        return 1;
      }
      if storage == null {
        return -1;
      }
      storage.Init(address, Micros(timeoutNs));
      assert View() == old(View());
      Acquire(address, storage);
      return 0;
    }

    /** `acquire_wait_info` with a node: the list is created on demand, the node goes to its head. */
    method Acquire(address: nat, node: WaitNode)
      requires node.address == address && node !in live
      modifies this
      ensures mem == old(mem) && live == old(live) + {node}
      ensures View() == Enqueued(old(View()), node, node.View())
    {
      if address !in waitMap {
        waitMap := waitMap[address := []];
      }
      waitMap := waitMap[address := [node] + waitMap[address]];
      live := live + {node};
      assert waitMap == old(View()).queues[address := [node] + Queue(old(waitMap), address)];
    }

    /**
     The region after `os_cond_reltimedwait` returned. Either the wait is over and
     the node leaves its list, or the remaining time is reduced for another sleep.
     */
    method WakeUp(node: WaitNode, terminated: bool) returns (code: Option<nat>)
      requires Inv(View()) && node in live
      modifies this, node
      ensures View() == Step(old(View()), Wake(node, terminated))
      ensures code == if old(Leaves(node.View(), terminated)) then Some(WaitCode(old(node.View()))) else None
    {
      var sleep := ONE_SECOND;
      if node.timeout.Some? && node.timeoutLeft < ONE_SECOND {
        sleep := node.timeoutLeft;
      }
      if node.status.Notified? || terminated || (node.timeout.Some? && node.timeoutLeft <= sleep) {
        var isTimeout := node.status.Waiting?;
        Release(node);
        return Some(if isTimeout then 2 else 0);
      }
      Resleep(node, sleep);
      return None;
    }

    /** Another round: the time slept is taken off what is left. */
    method Resleep(node: WaitNode, sleep: nat)
      requires node in live && sleep == NextSleep(node.View()) && (node.timeout.Some? ==> sleep <= node.timeoutLeft)
      modifies node`waited, node`timeoutLeft
      ensures View() == old(View()).(nodes := old(View()).nodes[node := SleepAgain(old(node.View()))])
    {
      node.waited := node.waited + sleep;
      if node.timeout.Some? {
        node.timeoutLeft := node.timeoutLeft - sleep;
      }
      assert node.View() == SleepAgain(old(node.View()));
    }

    /** Take the node out of its list; drop the wait info when the list is empty. */
    method Release(node: WaitNode)
      requires Inv(View()) && node in live
      modifies this
      ensures View() == Removed(old(View()), node)
    {
      ghost var s := View();
      var address := node.address;
      assert s.nodes[node].addr == address;
      var present := IsWaitNodeExists(waitMap[address], node);
      assert present;
      var rest := RemoveFromList(waitMap[address], node);
      if |rest| > 0 {
        waitMap := waitMap[address := rest];
      } else {
        waitMap := waitMap - {address};
      }
      live := live - {node};
    }

    /** `wasm_runtime_atomic_notify` under the lock. */
    method Notify(address: nat, count: nat) returns (result: nat)
      requires Inv(View())
      modifies live
      ensures View() == Step(old(View()), WaitNotifySpec.Notify(address, count))
      ensures result == |Selected(old(waitMap), address, count)| == Min(count, |Queue(old(waitMap), address)|)
    {
      if address !in waitMap {
        assert Selected(waitMap, address, count) == [];
        assert Marked(View().nodes, []) == View().nodes;
        return 0;
      }
      ghost var s := View();
      var list := waitMap[address];
      forall x | x in list ensures x in live {
        assert x in s.queues[address];
        assert x in s.nodes;
      }
      result := NotifyWaitList(list, count);
      assert Selected(s.queues, address, count) == list[..result];
    }

    // -------------------------------------------------------------------------
    // Whole runs
    // -------------------------------------------------------------------------

    method PerformEnter(op: Op<WaitNode>)
      requires Inv(View()) && Enabled(View(), op) && op.Enter?
      modifies this, op.id
      ensures forall x | x in live :: x in old(live) || x == op.id
      ensures View() == Step(old(View()), op)
    {
      assert op.id !in live;
      var timeoutNs := if op.timeout.None? then -1 else 1000 * op.timeout.value;
      assert Micros(timeoutNs) == op.timeout;
      var code := EnterWait(if op.granted then op.id else null, op.addr, op.expected, op.wait64, timeoutNs);
    }

    /** Any region under the lock. A wait names the storage its node gets. */
    method Perform(op: Op<WaitNode>)
      requires Inv(View()) && Enabled(View(), op)
      modifies this, live, NewNodes([op])
      ensures forall x | x in live :: x in old(live) || x in NewNodes([op])
      ensures View() == Step(old(View()), op)
    {
      assert op in [op];
      match op {
        case Store(at, value) => StoreByte(at, value);
        case Enter(_, _, _, _, _, _) => PerformEnter(op);
        case Wake(id, terminated) =>
          var code := WakeUp(id, terminated);
          assert live == View().nodes.Keys && old(live) == old(View()).nodes.Keys;
        case Notify(address, count) => var result := Notify(address, count);
      }
    }

    /** A whole run of waits, wake-ups, notifies and stores on the objects is a run of the protocol. */
    method PerformAll(ops: seq<Op<WaitNode>>)
      requires Inv(View()) && RunEnabled(View(), ops)
      modifies this, live, NewNodes(ops)
      ensures View() == Run(old(View()), ops) && Inv(View())
    {
      var at := 0;
      while at < |ops|
        invariant at <= |ops|
        invariant forall x | x in live :: x in old(live) || x in NewNodes(ops)
        invariant Inv(View()) && RunEnabled(View(), ops[at..])
        invariant Run(View(), ops[at..]) == Run(old(View()), ops)
      {
        assert ops[at..][0] == ops[at] && ops[at..][1..] == ops[at + 1..];
        StepKeepsInv(View(), ops[at]);
        assert ops[at] in ops;
        Perform(ops[at]);
        at := at + 1;
      }
    }
  }

  /** The storage of the nodes that a run creates. */
  ghost function NewNodes(ops: seq<Op<WaitNode>>): set<WaitNode> {
    set op | op in ops && op.Enter? :: op.id
  }

  /** `notify_wait_list`. */
  method NotifyWaitList(list: seq<WaitNode>, count: nat) returns (notifyCount: nat)
    requires Distinct(list)
    modifies list
    ensures notifyCount == Min(count, |list|)
    ensures forall x | x in list[..notifyCount] :: x.View() == old(x.View()).(status := Notified)
    ensures forall x | x in list && x !in list[..notifyCount] :: x.View() == old(x.View())
  {
    notifyCount := if count > |list| then |list| else count;
    for i := 0 to notifyCount
      invariant forall x | x in list[..i] :: x.View() == old(x.View()).(status := Notified)
      invariant forall x | x in list && x !in list[..i] :: x.View() == old(x.View())
    {
      assert list[..i + 1] == list[..i] + [list[i]];
      list[i].status := Notified;
    }
  }

  /** `is_wait_node_exists`. */
  method IsWaitNodeExists(list: seq<WaitNode>, node: WaitNode) returns (found: bool)
    ensures found <==> node in list
  {
    for i := 0 to |list|
      invariant node !in list[..i]
    {
      if list[i] == node {
        return true;
      }
      assert list[..i + 1] == list[..i] + [list[i]];
    }
    assert list[..|list|] == list;
    return false;
  }

  /** `bh_list_remove`. */
  method RemoveFromList(list: seq<WaitNode>, node: WaitNode) returns (rest: seq<WaitNode>)
    ensures rest == Without(list, node)
  {
    for i := 0 to |list|
      invariant node !in list[..i]
    {
      if list[i] == node {
        WithoutAt(list, node, i);
        return list[..i] + list[i + 1..];
      }
      assert list[..i + 1] == list[..i] + [list[i]];
    }
    assert list[..|list|] == list;
    WithoutAbsent(list, node);
    return list;
  }
}
