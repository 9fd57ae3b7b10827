/**
 The auxiliary call stack of AOT code. Tiny frames are an array growing from the
 stack bottom, standard frames a list linked through `prev_frame`; both stand for
 the same abstract stack of (function index, instruction offset) pairs.
 */
module CallFrames {
  import opened Machine

  /** One entry of the abstract stack; stacks are sequences, the oldest frame first. */
  datatype Frame = Frame(funcIndex: nat, ipOffset: nat)

  // ---------------------------------------------------------------------------
  // The abstract stack
  // ---------------------------------------------------------------------------

  function TopFirst(s: seq<Frame>): (r: seq<Frame>)
    ensures |r| == |s| && forall i | 0 <= i < |s| :: r[i] == s[|s| - 1 - i]
  {
    seq(|s|, i requires 0 <= i < |s| => s[|s| - 1 - i])
  }

  /** How many frames a copy with the given window promises. */
  function Promised(depth: nat, length: nat, skip: nat): nat {
    Min(length, Max(0, depth - skip))
  }

  /** How many frames are copied when `skip + length` is a uint32 sum. */
  function CopiedCount(depth: nat, length: nat, skip: nat): nat {
    var visited := Min(depth, Add32(skip, length));
    if visited >= skip then visited - skip else 0
  }

  /** The copy keeps its promise exactly when the sum does not wrap or there is nothing to copy. */
  lemma CopiedIffNoWrap(depth: nat, length: nat, skip: nat)
    requires length < UINT32_TOP && skip < UINT32_TOP
    ensures CopiedCount(depth, length, skip) == Promised(depth, length, skip)
            <==> skip + length < UINT32_TOP || depth <= skip
  {}

  /** A call that asks for everything after the first frame gets nothing. */
  lemma CopyWraps()
    ensures CopiedCount(3, UINT32_MAX, 1) == 0 && Promised(3, UINT32_MAX, 1) == 2
  {}

  // ---------------------------------------------------------------------------
  // The execution environment
  // ---------------------------------------------------------------------------

  const NULL: nat := 0

  /** A frame in memory; `prev` is used by standard frames only. */
  datatype Record = Record(funcIndex: nat, ipOffset: nat, prev: nat)

  /** What compiled code may do to the stack while it runs. */
  datatype StackOp = Push(funcIndex: nat) | Pop | CommitIp(ipOffset: nat)

  /** Where the k-th oldest frame lies: a tiny frame takes 8 bytes, a standard frame 56. */
  function FrameAddr(tiny: bool, bottom: nat, k: nat): nat {
    if tiny then bottom + 8 * k else bottom + 56 * k
  }

  function FrameAt(mem: map<nat, Record>, p: nat): Frame {
    if p in mem then Frame(mem[p].funcIndex, mem[p].ipOffset) else Frame(0, 0)
  }

  /** The abstract stack of the first `n` frames in memory. */
  function Stack(mem: map<nat, Record>, tiny: bool, bottom: nat, n: nat): (s: seq<Frame>)
    ensures |s| == n
  {
    if n == 0 then []
    else Stack(mem, tiny, bottom, n - 1) + [FrameAt(mem, FrameAddr(tiny, bottom, n - 1))]
  }

  lemma {:induction false} StackAt(mem: map<nat, Record>, tiny: bool, bottom: nat, n: nat, k: nat)
    requires k < n
    ensures Stack(mem, tiny, bottom, n)[k] == FrameAt(mem, FrameAddr(tiny, bottom, k))
    ensures Stack(mem, tiny, bottom, n)[..k] == Stack(mem, tiny, bottom, k)
  {
    if k < n - 1 {
      StackAt(mem, tiny, bottom, n - 1, k);
      assert Stack(mem, tiny, bottom, n)[..k] == Stack(mem, tiny, bottom, n - 1)[..k];
    } else {
      assert Stack(mem, tiny, bottom, n)[..k] == Stack(mem, tiny, bottom, n - 1);
    }
  }

  /** Writing at or above a frame does not touch the frames below it. */
  lemma {:induction false} StackBelow(mem: map<nat, Record>, tiny: bool, bottom: nat, n: nat, k: nat, r: Record)
    requires n <= k
    ensures Stack(mem[FrameAddr(tiny, bottom, k) := r], tiny, bottom, n) == Stack(mem, tiny, bottom, n)
  {
    if n > 0 {
      StackBelow(mem, tiny, bottom, n - 1, k, r);
    }
  }

  /** The pointer to the top frame of a stack of `n` frames. */
  function FramePtr(tiny: bool, bottom: nat, n: nat): nat {
    if n == 0 then NULL else FrameAddr(tiny, bottom, n - 1)
  }

  /** Frame `k` is in memory and, if standard, points to the frame below it. */
  predicate Linked(mem: map<nat, Record>, tiny: bool, bottom: nat, k: nat) {
    var p := FrameAddr(tiny, bottom, k);
    p in mem && (!tiny ==> mem[p].prev == FramePtr(tiny, bottom, k))
  }

  ghost predicate AllLinked(mem: map<nat, Record>, tiny: bool, bottom: nat, n: nat) {
    forall k | 0 <= k < n :: Linked(mem, tiny, bottom, k)
  }

  /** Writing a linked frame on top: one more link, one more entry of the abstract stack. */
  lemma PushRecord(mem: map<nat, Record>, tiny: bool, bottom: nat, n: nat, r: Record)
    requires AllLinked(mem, tiny, bottom, n) && (!tiny ==> r.prev == FramePtr(tiny, bottom, n))
    ensures var mem' := mem[FrameAddr(tiny, bottom, n) := r];
            && AllLinked(mem', tiny, bottom, n + 1)
            && Stack(mem', tiny, bottom, n + 1) == Stack(mem, tiny, bottom, n) + [Frame(r.funcIndex, r.ipOffset)]
  {
    StackBelow(mem, tiny, bottom, n, n, r);
    var mem' := mem[FrameAddr(tiny, bottom, n) := r];
    forall k | 0 <= k < n + 1 ensures Linked(mem', tiny, bottom, k) {
      if k < n {
        assert Linked(mem, tiny, bottom, k);
      }
    }
  }

  class ExecEnv {
    const tiny: bool
    const bottom: nat
    const topBoundary: nat
    var top: nat
    var curFrame: nat
    var mem: map<nat, Record>
    ghost var depth: nat

    constructor (tiny: bool, bottom: nat, topBoundary: nat)
      requires 64 <= bottom <= topBoundary
      ensures Valid() && depth == 0 && this.tiny == tiny
    {
      this.tiny, this.bottom, this.topBoundary := tiny, bottom, topBoundary;
      top, curFrame, mem, depth := bottom, NULL, map[], 0;
    }

    function Addr(k: nat): nat {
      FrameAddr(tiny, bottom, k)
    }

    function Ptr(n: nat): nat {
      FramePtr(tiny, bottom, n)
    }

    ghost predicate Valid()
      reads this
    {
      && 64 <= bottom <= topBoundary
      && AllLinked(mem, tiny, bottom, depth)
      && Addr(depth) <= topBoundary
      && (if tiny then top == Addr(depth) else curFrame == Ptr(depth))
    }

    /** The abstract stack. */
    ghost function Frames(): (s: seq<Frame>)
      reads this
    {
      Stack(mem, tiny, bottom, depth)
    }

    /** `get_top_frame`. */
    function GetTopFrame(): (p: nat)
      requires Valid()
      reads this
      ensures p == Ptr(depth)
    {
      if tiny then if top > bottom then top - 8 else NULL
      else curFrame
    }

    /** `get_prev_frame`. */
    function GetPrevFrame(p: nat, ghost n: nat): (q: nat)
      requires Valid() && 1 <= n <= depth && p == Ptr(n)
      reads this
      ensures q == Ptr(n - 1)
    {
      assert Linked(mem, tiny, bottom, n - 1);
      if tiny then if p == bottom then NULL else p - 8
      else mem[p].prev
    }

    /** Memory at a new frame keeps whatever instruction offset it held. */
    function StaleIp(p: nat): nat
      reads this
    {
      if p in mem then mem[p].ipOffset else 0
    }

    /** `aot_alloc_tiny_frame`: push, or refuse when the frame would pass the boundary. */
    method AllocTinyFrame(funcIndex: nat) returns (ok: bool, ghost ip: nat)
      requires Valid() && tiny
      modifies this
      ensures Valid()
      ensures ok <==> bottom + 8 * (old(depth) + 1) <= topBoundary
      ensures Frames() == if ok then old(Frames()) + [Frame(funcIndex, ip)] else old(Frames())
    {
      var newFrame := top;
      if newFrame + 8 > topBoundary {
        return false, 0;
      }
      ip := StaleIp(newFrame);
      var r := Record(funcIndex, StaleIp(newFrame), NULL);
      PushRecord(mem, tiny, bottom, depth, r);
      mem := mem[newFrame := r];
      top := top + 8;
      depth := depth + 1;
      ok := true;
    }

    /** `aot_alloc_standard_frame` without GC. */
    method AllocStandardFrame(funcIndex: nat) returns (ok: bool, ghost ip: nat)
      requires Valid() && !tiny
      modifies this
      ensures Valid()
      ensures ok <==> bottom + 56 * (old(depth) + 1) <= topBoundary
      ensures Frames() == if ok then old(Frames()) + [Frame(funcIndex, ip)] else old(Frames())
    {
      var frame;
      if curFrame == NULL {
        frame := bottom;
      } else {
        frame := curFrame + 56;
      }
      if frame + 56 > topBoundary {
        return false, 0;
      }
      ip := StaleIp(frame);
      var r := Record(funcIndex, StaleIp(frame), curFrame);
      PushRecord(mem, tiny, bottom, depth, r);
      mem := mem[frame := r];
      curFrame := frame;
      depth := depth + 1;
      ok := true;
    }

    /** `aot_alloc_frame`: with a frame per function, the callee itself allocates for defined functions. */
    method AllocFrame(funcIndex: nat, framePerFunction: bool, importCount: nat) returns (ok: bool, ghost ip: nat)
      requires Valid()
      modifies this
      ensures Valid()
      ensures var pushes := !(framePerFunction && funcIndex >= importCount);
              && (ok <==> (pushes ==> bottom + (if tiny then 8 else 56) * (old(depth) + 1) <= topBoundary))
              && Frames() == (if pushes && ok then old(Frames()) + [Frame(funcIndex, ip)] else old(Frames()))
    {
      if framePerFunction && funcIndex >= importCount {
        return true, 0;
      }
      if tiny {
        ok, ip := AllocTinyFrame(funcIndex);
      } else {
        ok, ip := AllocStandardFrame(funcIndex);
      }
    }

    /** `aot_free_frame`: pop. */
    method FreeFrame()
      requires Valid() && depth > 0
      modifies this
      ensures Valid() && depth == old(depth) - 1 && Frames() == old(Frames())[..depth] && mem == old(mem)
    {
      assert Linked(mem, tiny, bottom, depth - 1);
      StackAt(mem, tiny, bottom, depth, depth - 1);
      if tiny {
        top := top - 8;
      } else {
        curFrame := mem[curFrame].prev;
      }
      depth := depth - 1;
    }

    /** Compiled code commits the instruction offset of its own frame. */
    method CommitTopIp(ip: nat)
      requires Valid() && depth > 0
      modifies this`mem
      ensures Valid() && Frames() == old(Frames())[..depth - 1] + [Frame(old(Frames())[depth - 1].funcIndex, ip)]
    {
      ghost var n := depth - 1;
      assert Linked(mem, tiny, bottom, n);
      StackAt(mem, tiny, bottom, depth, n);
      var p := GetTopFrame();
      var r := mem[p].(ipOffset := ip);
      PushRecord(mem, tiny, bottom, n, r);
      mem := mem[p := r];
    }

    /** Any run of stack operations by the callee that leaves the caller's `base` frames alone. */
    method RunCallee(ops: seq<StackOp>, ghost base: nat, prev: nat)
      requires Valid() && base <= depth && prev == Ptr(base)
      modifies this
      ensures Valid() && base <= depth && Frames()[..base] == old(Frames())[..base]
    {
      for i := 0 to |ops|
        invariant Valid() && base <= depth && |Frames()| == depth && Frames()[..base] == old(Frames())[..base]
      {
        match ops[i] {
          case Push(f) =>
            ghost var before := Frames();
            var ok, _ := AllocFrame(f, false, 0);
            assert Frames()[..base] == before[..base];
          case Pop =>
            PtrDistinct(base, depth);
            if GetTopFrame() != prev {
              ghost var before := Frames();
              FreeFrame();
              assert Frames()[..base] == before[..base];
            }
          case CommitIp(ip) =>
            PtrDistinct(base, depth);
            if GetTopFrame() != prev {
              ghost var before := Frames();
              CommitTopIp(ip);
              assert Frames()[..base] == before[..base];
            }
        }
      }
    }

    lemma PtrDistinct(m: nat, n: nat)
      requires 64 <= bottom
      ensures Ptr(m) == Ptr(n) <==> m == n
    {}

    /** The unwinding loop: frees whatever is left above the frame the caller had on top. */
    method Unwind(prev: nat, ghost base: nat)
      requires Valid() && base <= depth && prev == Ptr(base)
      modifies this
      ensures Valid() && depth == base && Frames() == old(Frames())[..base]
    {
      assert Frames()[..depth] == Frames();
      PtrDistinct(base, depth);
      while GetTopFrame() != prev
        invariant Valid() && base <= depth <= old(depth) && Frames() == old(Frames())[..depth]
        invariant Ptr(base) == Ptr(depth) <==> base == depth
        decreases depth
      {
        ghost var before := Frames();
        FreeFrame();
        assert Frames() == old(Frames())[..depth];
        PtrDistinct(base, depth);
      }
    }

    /**
     The frame handling of `aot_call_function`: whatever frames the callee pushes
     and leaves behind, the caller's stack is restored.
     */
    method CallFunction(funcIndex: nat, framePerFunction: bool, ops: seq<StackOp>) returns (ok: bool)
      requires Valid()
      modifies this
      ensures Valid() && Frames() == old(Frames())
      ensures !ok <==> !framePerFunction && bottom + (if tiny then 8 else 56) * (old(depth) + 1) > topBoundary
    {
      var prev := GetTopFrame();
      ghost var base := depth;
      if !framePerFunction {
        ghost var ip;
        ok, ip := AllocFrame(funcIndex, false, 0);
        if !ok {
          return;
        }
        assert Frames()[..base] == old(Frames());
      } else {
        assert Frames()[..base] == old(Frames());
      }
      RunCallee(ops, base, prev);
      Unwind(prev, base);
      ok := true;
    }

    // -------------------------------------------------------------------------
    // Reading the stack
    // -------------------------------------------------------------------------

    /** `count` frames have been visited and those after the first `skip` are in the buffer. */
    ghost predicate CopiedSoFar(buffer: array<Frame>, was: seq<Frame>, count: nat, skip: nat)
      reads this, buffer
    {
      var n := if count >= skip then count - skip else 0;
      && count <= depth && |was| == buffer.Length && n <= buffer.Length
      && (forall i | 0 <= i < n :: buffer[i] == Frames()[depth - 1 - skip - i])
      && (forall i | n <= i < buffer.Length :: buffer[i] == was[i])
    }

    /** One visited frame. */
    method Visit(buffer: array<Frame>, ghost was: seq<Frame>, count: nat, skip: nat, limit: nat, frame: nat)
      requires Valid() && count < depth && frame == Addr(depth - 1 - count)
      requires CopiedSoFar(buffer, was, count, skip) && count < limit && limit <= skip + buffer.Length
      modifies buffer
      ensures CopiedSoFar(buffer, was, count + 1, skip)
    {
      if count >= skip {
        assert Linked(mem, tiny, bottom, depth - 1 - count);
        StackAt(mem, tiny, bottom, depth, depth - 1 - count);
        buffer[count - skip] := Frame(mem[frame].funcIndex, mem[frame].ipOffset);
      }
    }

    /** `aot_copy_callstack_tiny_frame`. */
    method CopyTiny(buffer: array<Frame>, length: nat, skip: nat) returns (n: nat)
      requires Valid() && tiny && length <= buffer.Length && length < UINT32_TOP && skip < UINT32_TOP
      modifies buffer
      ensures n == CopiedCount(depth, length, skip)
      ensures forall i | 0 <= i < n :: buffer[i] == Frames()[depth - 1 - skip - i]
      ensures forall i | n <= i < buffer.Length :: buffer[i] == old(buffer[i])
    {
      ghost var was := buffer[..];
      var inRange := topBoundary >= top && top >= bottom + 8;
      if !inRange || (top - bottom) % 8 != 0 {
        return 0;
      }
      var frame, count: nat, limit := top - 8, 0, Add32(skip, length);
      while frame >= bottom && count < limit
        invariant count <= limit && frame == bottom + 8 * (depth - 1 - count)
        invariant CopiedSoFar(buffer, was, count, skip)
        decreases depth - count
      {
        Visit(buffer, was, count, skip, limit, frame);
        frame := frame - 8;
        count := count + 1;
      }
      n := if count >= skip then count - skip else 0;
    }

    /** `aot_copy_callstack_standard_frame` without GC. */
    method CopyStandard(buffer: array<Frame>, length: nat, skip: nat) returns (n: nat)
      requires Valid() && !tiny && length <= buffer.Length && length < UINT32_TOP && skip < UINT32_TOP
      modifies buffer
      ensures n == CopiedCount(depth, length, skip)
      ensures forall i | 0 <= i < n :: buffer[i] == Frames()[depth - 1 - skip - i]
      ensures forall i | n <= i < buffer.Length :: buffer[i] == old(buffer[i])
    {
      ghost var was := buffer[..];
      var frame, count: nat, limit := curFrame, 0, Add32(skip, length);
      while frame != NULL && frame >= bottom && frame + 56 <= topBoundary && count < limit
        invariant count <= limit && count <= depth && frame == Ptr(depth - count)
        invariant CopiedSoFar(buffer, was, count, skip)
        decreases depth - count
      {
        Visit(buffer, was, count, skip, limit, frame);
        frame := GetPrevFrame(frame, depth - count);
        count := count + 1;
      }
      n := if count >= skip then count - skip else 0;
    }

    /** `aot_copy_callstack`: both representations answer alike. */
    method CopyCallStack(buffer: array<Frame>, length: nat, skip: nat) returns (n: nat)
      requires Valid() && length <= buffer.Length && length < UINT32_TOP && skip < UINT32_TOP
      modifies buffer
      ensures n == CopiedCount(depth, length, skip)
      ensures buffer[..n] == TopFirst(Frames())[if n == 0 then 0 else skip..][..n]
      ensures forall i | n <= i < buffer.Length :: buffer[i] == old(buffer[i])
    {
      if tiny {
        n := CopyTiny(buffer, length, skip);
      } else {
        n := CopyStandard(buffer, length, skip);
      }
    }

    /** `aot_create_call_stack`: counts the frames, then records each of them, the newest first. */
    method CreateCallStack() returns (frames: seq<Frame>)
      requires Valid()
      ensures frames == TopFirst(Frames())
    {
      var n, topFrame := 0, GetTopFrame();
      while topFrame != NULL
        invariant 0 <= n <= depth && topFrame == Ptr(depth - n)
        decreases depth - n
      {
        topFrame := GetPrevFrame(topFrame, depth - n);
        n := n + 1;
      }
      topFrame, frames := GetTopFrame(), [];
      while n > 0
        invariant 0 <= n <= depth && topFrame == Ptr(n)
        invariant frames == TopFirst(Frames())[..depth - n]
        decreases n
      {
        assert Linked(mem, tiny, bottom, n - 1);
        StackAt(mem, tiny, bottom, depth, n - 1);
        frames := frames + [Frame(mem[topFrame].funcIndex, mem[topFrame].ipOffset)];
        topFrame := GetPrevFrame(topFrame, n);
        n := n - 1;
      }
    }
  }
}
