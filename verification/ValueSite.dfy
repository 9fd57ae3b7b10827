/**
 The value profile of one instrumented site: a bounded list of (value, count)
 nodes, updated by `instrumentTargetValueImpl` on every observation.
 */
module ValueSite {
  import opened Machine

  datatype Node = Node(value: nat, count: nat)

  // ---------------------------------------------------------------------------
  // One observation
  // ---------------------------------------------------------------------------

  /** The first node for `v`, or the length of the list. */
  function Find(nodes: seq<Node>, v: nat): (i: nat)
    ensures i <= |nodes|
    ensures i < |nodes| ==> nodes[i].value == v
    ensures forall k | 0 <= k < i :: nodes[k].value != v
    decreases |nodes|
  {
    if nodes == [] || nodes[0].value == v then 0
    else
      assert forall k | 0 < k < |nodes| :: nodes[k] == nodes[1..][k - 1];
      1 + Find(nodes[1..], v)
  }

  /** The node a full list gives up first: the first of those with the lowest count. */
  predicate Lowest(nodes: seq<Node>, i: nat) {
    && i < |nodes|
    && (forall k | 0 <= k < |nodes| :: nodes[i].count <= nodes[k].count)
    && (forall k | 0 <= k < i :: nodes[i].count < nodes[k].count)
  }

  /** The list after observing `v` with weight `step`; `granted` is the allocator's answer. */
  ghost predicate Observed(nodes: seq<Node>, v: nat, step: nat, limit: nat, granted: bool, after: seq<Node>) {
    var i := Find(nodes, v);
    if i < |nodes| then after == nodes[i := Node(v, nodes[i].count + step)]
    else if |nodes| >= limit then
      exists m | 0 <= m < |nodes| :: Lowest(nodes, m) && after == Displaced(nodes, v, step, m)
    else after == (if granted then nodes + [Node(v, step)] else nodes)
  }

  function Displaced(nodes: seq<Node>, v: nat, step: nat, m: nat): seq<Node>
    requires m < |nodes|
  {
    if nodes[m].count <= step then nodes[m := Node(v, step)]
    else nodes[m := Node(nodes[m].value, nodes[m].count - step)]
  }

  // ---------------------------------------------------------------------------
  // Runs
  // ---------------------------------------------------------------------------

  function Occurrences(obs: seq<nat>, v: nat): nat {
    if obs == [] then 0
    else Occurrences(obs[..|obs| - 1], v) + if obs[|obs| - 1] == v then 1 else 0
  }

  ghost function Seen(obs: seq<nat>): set<nat> {
    set v | v in obs
  }

  ghost function Values(nodes: seq<Node>): set<nat> {
    set k | 0 <= k < |nodes| :: nodes[k].value
  }

  ghost predicate DistinctValues(nodes: seq<Node>) {
    forall i, j | 0 <= i < j < |nodes| :: nodes[i].value != nodes[j].value
  }

  /**
   What holds of the list after every observation sequence: distinct values that
   were all observed, counts between 1 and the true number of observations, and
   at most `limit` nodes, so the uint8 counter of the list walk never wraps.
   */
  ghost predicate Sound(nodes: seq<Node>, obs: seq<nat>, limit: nat) {
    && DistinctValues(nodes) && |nodes| <= limit
    && (forall k | 0 <= k < |nodes| :: 1 <= nodes[k].count <= Occurrences(obs, nodes[k].value))
  }

  /**
   What holds besides when no allocation failed: up to `limit` different values
   all are recorded with their exact counts, and the list is as long as it can be.
   */
  ghost predicate Complete(nodes: seq<Node>, obs: seq<nat>, limit: nat) {
    && |nodes| == Min(limit, |Seen(obs)|)
    && (|Seen(obs)| <= limit ==>
          Values(nodes) == Seen(obs)
          && forall k | 0 <= k < |nodes| :: nodes[k].count == Occurrences(obs, nodes[k].value))
  }

  lemma {:induction false} OccursIff(obs: seq<nat>, v: nat)
    ensures Occurrences(obs, v) > 0 <==> v in obs
  {
    if obs != [] {
      OccursIff(obs[..|obs| - 1], v);
      assert obs == obs[..|obs| - 1] + [obs[|obs| - 1]];
    }
  }

  lemma {:induction false} OccursNext(obs: seq<nat>, v: nat, w: nat)
    ensures Occurrences(obs + [v], w) == Occurrences(obs, w) + if v == w then 1 else 0
  {
    assert (obs + [v])[..|obs|] == obs;
  }

  lemma SeenNext(obs: seq<nat>, v: nat)
    ensures Seen(obs + [v]) == Seen(obs) + {v}
  {}

  lemma ValuesAppend(nodes: seq<Node>, x: Node)
    ensures Values(nodes + [x]) == Values(nodes) + {x.value}
  {
    var after := nodes + [x];
    assert after[|nodes|] == x;
    forall k | 0 <= k < |nodes| ensures nodes[k].value in Values(after) {
      assert after[k] == nodes[k];
    }
  }

  lemma ValuesSame(nodes: seq<Node>, i: nat, c: nat)
    requires i < |nodes|
    ensures Values(nodes[i := Node(nodes[i].value, c)]) == Values(nodes)
  {
    var after := nodes[i := Node(nodes[i].value, c)];
    forall k | 0 <= k < |nodes| ensures nodes[k].value in Values(after) && after[k].value in Values(nodes) {
      assert after[k].value == nodes[k].value;
    }
  }

  // A value that is recorded already.

  lemma FoundSound(nodes: seq<Node>, obs: seq<nat>, limit: nat, v: nat, i: nat)
    requires Sound(nodes, obs, limit) && i < |nodes| && nodes[i].value == v
    ensures Sound(nodes[i := Node(v, nodes[i].count + 1)], obs + [v], limit)
  {
    forall k | 0 <= k < |nodes| ensures Occurrences(obs + [v], nodes[k].value)
                                        == Occurrences(obs, nodes[k].value) + if v == nodes[k].value then 1 else 0 {
      OccursNext(obs, v, nodes[k].value);
    }
  }

  lemma FoundComplete(nodes: seq<Node>, obs: seq<nat>, limit: nat, v: nat, i: nat)
    requires Sound(nodes, obs, limit) && Complete(nodes, obs, limit) && i < |nodes| && nodes[i].value == v
    ensures Complete(nodes[i := Node(v, nodes[i].count + 1)], obs + [v], limit)
  {
    var after := nodes[i := Node(v, nodes[i].count + 1)];
    ValuesSame(nodes, i, nodes[i].count + 1);
    OccursIff(obs, v);
    SeenNext(obs, v);
    assert Seen(obs + [v]) == Seen(obs);
    forall k | 0 <= k < |nodes| ensures Occurrences(obs + [v], after[k].value)
                                        == Occurrences(obs, nodes[k].value) + if k == i then 1 else 0 {
      OccursNext(obs, v, nodes[k].value);
      assert k != i ==> nodes[k].value != nodes[i].value;
    }
  }

  // A new value in a list with room.

  ghost predicate Fresh(nodes: seq<Node>, v: nat) {
    forall k | 0 <= k < |nodes| :: nodes[k].value != v
  }

  lemma AppendSound(nodes: seq<Node>, obs: seq<nat>, limit: nat, v: nat)
    requires Sound(nodes, obs, limit) && |nodes| < limit && Fresh(nodes, v)
    ensures Sound(nodes + [Node(v, 1)], obs + [v], limit)
  {
    OccursNext(obs, v, v);
    forall k | 0 <= k < |nodes| ensures Occurrences(obs + [v], nodes[k].value) == Occurrences(obs, nodes[k].value) {
      OccursNext(obs, v, nodes[k].value);
    }
  }

  lemma AppendComplete(nodes: seq<Node>, obs: seq<nat>, limit: nat, v: nat)
    requires Sound(nodes, obs, limit) && Complete(nodes, obs, limit) && |nodes| < limit && Fresh(nodes, v)
    ensures Complete(nodes + [Node(v, 1)], obs + [v], limit)
  {
    assert v !in Values(nodes);
    OccursIff(obs, v);
    OccursNext(obs, v, v);
    SeenNext(obs, v);
    ValuesAppend(nodes, Node(v, 1));
    forall k | 0 <= k < |nodes| ensures Occurrences(obs + [v], nodes[k].value) == Occurrences(obs, nodes[k].value) {
      OccursNext(obs, v, nodes[k].value);
    }
  }

  // A new value and a full list.

  lemma DisplaceSound(nodes: seq<Node>, obs: seq<nat>, limit: nat, v: nat, m: nat)
    requires Sound(nodes, obs, limit) && Fresh(nodes, v) && m < |nodes|
    ensures Sound(Displaced(nodes, v, 1, m), obs + [v], limit)
  {
    OccursNext(obs, v, v);
    forall k | 0 <= k < |nodes| ensures Occurrences(obs + [v], nodes[k].value) == Occurrences(obs, nodes[k].value) {
      OccursNext(obs, v, nodes[k].value);
    }
  }

  lemma DisplaceComplete(nodes: seq<Node>, obs: seq<nat>, limit: nat, v: nat, m: nat)
    requires Sound(nodes, obs, limit) && Complete(nodes, obs, limit) && Fresh(nodes, v)
    requires |nodes| == limit && m < |nodes|
    ensures Complete(Displaced(nodes, v, 1, m), obs + [v], limit)
  {
    assert v !in Values(nodes);
    SeenNext(obs, v);
    if |Seen(obs)| <= limit {
      assert |Seen(obs) + {v}| == |Seen(obs)| + 1;
    } else {
      SubsetSize(Seen(obs), Seen(obs) + {v});
    }
  }

  lemma {:induction false} SubsetSize(a: set<nat>, b: set<nat>)
    requires a <= b
    ensures |a| <= |b|
    decreases |a|
  {
    if a != {} {
      var x :| x in a;
      SubsetSize(a - {x}, b - {x});
    }
  }

  /** Every observation with step 1 keeps both; completeness as long as allocation succeeds. */
  lemma ObserveKeeps(nodes: seq<Node>, obs: seq<nat>, limit: nat, v: nat, granted: bool, after: seq<Node>)
    requires 0 < limit && Sound(nodes, obs, limit) && Observed(nodes, v, 1, limit, granted, after)
    ensures Sound(after, obs + [v], limit)
    ensures granted && Complete(nodes, obs, limit) ==> Complete(after, obs + [v], limit)
  {
    var i := Find(nodes, v);
    if i < |nodes| {
      FoundSound(nodes, obs, limit, v, i);
      if Complete(nodes, obs, limit) { FoundComplete(nodes, obs, limit, v, i); }
    } else if |nodes| >= limit {
      var m :| 0 <= m < |nodes| && Lowest(nodes, m) && after == Displaced(nodes, v, 1, m);
      DisplaceSound(nodes, obs, limit, v, m);
      if Complete(nodes, obs, limit) { DisplaceComplete(nodes, obs, limit, v, m); }
    } else if granted {
      AppendSound(nodes, obs, limit, v);
      if Complete(nodes, obs, limit) { AppendComplete(nodes, obs, limit, v); }
    } else {
      SkipSound(nodes, obs, limit, v);
    }
  }

  /** A full list gives up only its lowest count: a node with more than the lowest stays as it is. */
  lemma OnlyLowestGivesWay(nodes: seq<Node>, v: nat, step: nat, limit: nat, granted: bool, after: seq<Node>,
                           low: nat, k: nat)
    requires Observed(nodes, v, step, limit, granted, after)
    requires low < |nodes| && k < |nodes| && nodes[low].count < nodes[k].count && nodes[k].value != v
    ensures k < |after| && after[k] == nodes[k]
  {
    if Find(nodes, v) == |nodes| && |nodes| >= limit {
      var m :| 0 <= m < |nodes| && Lowest(nodes, m) && after == Displaced(nodes, v, step, m);
      assert nodes[m].count <= nodes[low].count;
    }
  }

  /** An observation adds its weight to the value's own node, or to a new one at the end, and to nothing else. */
  lemma {:induction false} WeightIsAdded(nodes: seq<Node>, v: nat, step: nat, limit: nat, granted: bool,
                                         after: seq<Node>, i: nat)
    requires Observed(nodes, v, step, limit, granted, after)
    requires i <= |nodes| && forall k | 0 <= k < i :: nodes[k].value != v
    ensures i < |nodes| && nodes[i].value == v ==>
              && |after| == |nodes| && after[i].value == v && after[i].count == nodes[i].count + step
              && forall k | 0 <= k < |nodes| && k != i :: after[k] == nodes[k]
    ensures i == |nodes| < limit && granted ==>
              && |after| == |nodes| + 1 && after[..i] == nodes && after[i].value == v && after[i].count == step
    ensures i == |nodes| < limit && !granted ==> after == nodes
  {
    if i == |nodes| || nodes[i].value == v {
      FindIs(nodes, v, i);
    }
  }

  /**
   A new value always changes a full list, in one node: the first of those with
   the lowest count loses the step, or is replaced when it has no more than that.
   */
  lemma {:induction false} FullListChanges(nodes: seq<Node>, v: nat, step: nat, limit: nat, granted: bool,
                                           after: seq<Node>, m: nat)
    requires 0 < step && 0 < limit <= |nodes| && Fresh(nodes, v) && Observed(nodes, v, step, limit, granted, after)
    requires m < |nodes| && forall k | 0 <= k < |nodes| :: nodes[m].count <= nodes[k].count
    requires forall k | 0 <= k < m :: nodes[m].count < nodes[k].count
    ensures after != nodes && |after| == |nodes| && forall k | 0 <= k < |nodes| && k != m :: after[k] == nodes[k]
    ensures nodes[m].count <= step ==> after[m].value == v && after[m].count == step
    ensures nodes[m].count > step ==> after[m].value == nodes[m].value && after[m].count + step == nodes[m].count
  {
    var i := Find(nodes, v);
    forall low | 0 <= low < |nodes| && Lowest(nodes, low) ensures low == m {
      assert nodes[low].count == nodes[m].count;
    }
  }

  /**
   A value that keeps coming wins a place: seen on a full list as often as the
   lowest count, it takes that node over, and is counted from then on.
   */
  lemma {:induction false} TakesOver(states: seq<seq<Node>>, v: nat, limit: nat, granted: seq<bool>, m: nat, n: nat)
    requires |states| == |granted| + 1 && n <= |granted|
    requires forall i | 0 <= i < |granted| :: Observed(states[i], v, 1, limit, granted[i], states[i + 1])
    requires 0 < limit <= |states[0]| && Fresh(states[0], v) && Lowest(states[0], m) && states[0][m].count > 0
    ensures var (old0, c) := (states[0], states[0][m].count);
            states[n] == if n < c then old0[m := Node(old0[m].value, c - n)] else old0[m := Node(v, n - c + 1)]
    decreases n
  {
    var (old0, c) := (states[0], states[0][m].count);
    if n > 0 {
      TakesOver(states, v, limit, granted, m, n - 1);
      var before := states[n - 1];
      assert Observed(before, v, 1, limit, granted[n - 1], states[n]);
      if n - 1 < c {
        assert Fresh(before, v) && Lowest(before, m);
        FullListChanges(before, v, 1, limit, granted[n - 1], states[n], m);
        assert states[n] == old0[m := states[n][m]];
      } else {
        FindIs(before, v, m);
        assert states[n] == before[m := Node(v, n - c + 1)];
      }
    }
  }

  lemma SkipSound(nodes: seq<Node>, obs: seq<nat>, limit: nat, v: nat)
    requires Sound(nodes, obs, limit)
    ensures Sound(nodes, obs + [v], limit)
  {
    forall k | 0 <= k < |nodes| ensures Occurrences(obs + [v], nodes[k].value) >= Occurrences(obs, nodes[k].value) {
      OccursNext(obs, v, nodes[k].value);
    }
  }

  ghost predicate AllGranted(granted: seq<bool>) {
    forall i | 0 <= i < |granted| :: granted[i]
  }

  /** A run: the list after each observation. */
  ghost predicate IsRun(states: seq<seq<Node>>, obs: seq<nat>, granted: seq<bool>, limit: nat) {
    && |states| == |obs| + 1 && |granted| == |obs| && states[0] == []
    && forall i | 0 <= i < |obs| :: Observed(states[i], obs[i], 1, limit, granted[i], states[i + 1])
  }

  /** Every run keeps the list sound at every point, and complete while no allocation fails. */
  lemma {:induction false} RunKeeps(states: seq<seq<Node>>, obs: seq<nat>, granted: seq<bool>, limit: nat, n: nat)
    requires 0 < limit && IsRun(states, obs, granted, limit) && n <= |obs|
    ensures Sound(states[n], obs[..n], limit)
    ensures (forall i | 0 <= i < n :: granted[i]) ==> Complete(states[n], obs[..n], limit)
    decreases n
  {
    if n == 0 {
      assert Seen(obs[..0]) == {} && Values([]) == {};
    } else {
      RunKeeps(states, obs, granted, limit, n - 1);
      assert Observed(states[n - 1], obs[n - 1], 1, limit, granted[n - 1], states[n]);
      ObserveKeeps(states[n - 1], obs[..n - 1], limit, obs[n - 1], granted[n - 1], states[n]);
      assert obs[..n] == obs[..n - 1] + [obs[n - 1]];
    }
  }

  // ---------------------------------------------------------------------------
  // The length the dump expects
  // ---------------------------------------------------------------------------

  const INSTR_PROF_MAX_NUM_VAL_PER_SITE: nat := 255

  /**
   The profile dump asserts that every list has fewer than 255 nodes. With the
   limit of 255 and no allocation failure that holds exactly for the sites that
   saw fewer than 255 different values.
   */
  lemma DumpAssertionIff(states: seq<seq<Node>>, obs: seq<nat>, granted: seq<bool>)
    requires IsRun(states, obs, granted, INSTR_PROF_MAX_NUM_VAL_PER_SITE) && AllGranted(granted)
    ensures |states[|obs|]| < 255 <==> |Seen(obs)| < 255
  {
    RunKeeps(states, obs, granted, INSTR_PROF_MAX_NUM_VAL_PER_SITE, |obs|);
    assert obs[..|obs|] == obs;
  }

  function UpTo(n: nat): seq<nat> {
    seq(n, i requires 0 <= i => i)
  }

  function OnceEach(n: nat): seq<Node> {
    seq(n, i requires 0 <= i => Node(i, 1))
  }

  /** The site sees a value for the first time and has room for it. */
  lemma NextOnce(n: nat, limit: nat)
    requires n < limit
    ensures Observed(OnceEach(n), n, 1, limit, true, OnceEach(n + 1))
  {
    assert Find(OnceEach(n), n) == n;
    assert OnceEach(n + 1) == OnceEach(n) + [Node(n, 1)];
  }

  /** The site that sees the values 0 to 254, once each, is a run, and it ends with the assertion violated. */
  lemma DumpAssertionFails() returns (states: seq<seq<Node>>, obs: seq<nat>, granted: seq<bool>)
    ensures obs == UpTo(255) && IsRun(states, obs, granted, INSTR_PROF_MAX_NUM_VAL_PER_SITE) && AllGranted(granted)
    ensures !(|states[|obs|]| < 255)
  {
    obs, granted := UpTo(255), seq(255, _ => true);
    states := seq(256, i requires 0 <= i => OnceEach(i));
    forall i | 0 <= i < |obs|
      ensures Observed(states[i], obs[i], 1, INSTR_PROF_MAX_NUM_VAL_PER_SITE, granted[i], states[i + 1])
    {
      NextOnce(i, INSTR_PROF_MAX_NUM_VAL_PER_SITE);
    }
    assert states[0] == [];
  }

  // ---------------------------------------------------------------------------
  // The code
  // ---------------------------------------------------------------------------

  class Site {
    var nodes: seq<Node>

    constructor ()
      ensures nodes == []
    {
      nodes := [];
    }

    /** `instrumentTargetValueImpl` on an allocated site, single-threaded. */
    method InstrumentTargetValue(target: nat, step: nat, limit: nat, granted: bool)
      requires 0 < limit <= INSTR_PROF_MAX_NUM_VAL_PER_SITE && |nodes| <= limit
      requires forall k | 0 <= k < |nodes| :: nodes[k].count + step < UINT64_MAX
      modifies this
      ensures step == 0 ==> nodes == old(nodes)
      ensures step > 0 ==> Observed(old(nodes), target, step, limit, granted, nodes)
    {
      if step == 0 {
        return;
      }
      var minCount, minNode, cur, dataCount := UINT64_MAX, 0, 0, 0;
      while cur < |nodes|
        invariant 0 <= cur <= |nodes| && dataCount == cur && nodes == old(nodes)
        invariant forall k | 0 <= k < cur :: nodes[k].value != target
        invariant cur == 0 ==> minCount == UINT64_MAX
        invariant cur > 0 ==> 0 <= minNode < cur && minCount == nodes[minNode].count
        invariant forall k | 0 <= k < cur :: minCount <= nodes[k].count
        invariant cur > 0 ==> forall k | 0 <= k < minNode :: minCount < nodes[k].count
      {
        if nodes[cur].value == target {
          FindIs(nodes, target, cur);
          nodes := nodes[cur := Node(target, nodes[cur].count + step)];
          return;
        }
        if nodes[cur].count < minCount {
          minCount, minNode := nodes[cur].count, cur;
        }
        cur := cur + 1;
        dataCount := (dataCount + 1) % 256;
      }
      FindIs(nodes, target, cur);
      if dataCount >= limit {
        assert Lowest(nodes, minNode);
        if nodes[minNode].count <= step {
          nodes := nodes[minNode := Node(target, step)];
        } else {
          nodes := nodes[minNode := Node(nodes[minNode].value, nodes[minNode].count - step)];
        }
        assert nodes == Displaced(old(nodes), target, step, minNode);
        return;
      }
      if granted {
        nodes := nodes + [Node(target, step)];
      }
    }

    /** Any sequence of observations with step 1, the allocator answering as it likes. */
    method InstrumentAll(obs: seq<nat>, limit: nat, granted: seq<bool>)
      requires nodes == [] && 0 < limit <= INSTR_PROF_MAX_NUM_VAL_PER_SITE
      requires |granted| == |obs| && |obs| + 1 < UINT64_MAX
      modifies this
      ensures Sound(nodes, obs, limit)
      ensures AllGranted(granted) ==> Complete(nodes, obs, limit)
    {
      assert Seen(obs[..0]) == {} && Values([]) == {};
      for i := 0 to |obs|
        invariant Sound(nodes, obs[..i], limit)
        invariant AllGranted(granted) ==> Complete(nodes, obs[..i], limit)
      {
        ghost var before := nodes;
        forall k | 0 <= k < |nodes| ensures nodes[k].count <= i {
          OccursBound(obs[..i], nodes[k].value);
        }
        InstrumentTargetValue(obs[i], 1, limit, granted[i]);
        ObserveKeeps(before, obs[..i], limit, obs[i], granted[i], nodes);
        assert obs[..i + 1] == obs[..i] + [obs[i]];
      }
      assert obs[..|obs|] == obs;
    }
  }

  lemma {:induction false} FindIs(nodes: seq<Node>, v: nat, i: nat)
    requires i <= |nodes| && (i < |nodes| ==> nodes[i].value == v)
    requires forall k | 0 <= k < i :: nodes[k].value != v
    ensures Find(nodes, v) == i
  {
    var f := Find(nodes, v);
    assert f < |nodes| ==> nodes[f].value == v;
  }

  lemma {:induction false} OccursBound(obs: seq<nat>, v: nat)
    ensures Occurrences(obs, v) <= |obs|
  {
    if obs != [] {
      OccursBound(obs[..|obs| - 1], v);
    }
  }
}
