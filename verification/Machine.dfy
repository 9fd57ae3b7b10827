/** Machine-level constants and the small value types shared by all modules. */
module Machine {
  const UINT32_TOP: nat := 0x1_0000_0000
  const UINT64_TOP: nat := 0x1_0000_0000_0000_0000
  const UINT32_MAX: nat := UINT32_TOP - 1
  const UINT64_MAX: nat := UINT64_TOP - 1
  const KB: nat := 1024

  const MAX_LINEAR_MEMORY_SIZE: nat := 0x1_0000_0000
  const APP_HEAP_SIZE_MAX: nat := 0x4000_0000

  datatype Option<+T> = None | Some(value: T)

  type byte = x: nat | x < 256

  function Zeros(n: nat): (r: seq<byte>)
    ensures |r| == n
  {
    seq(n, _ => 0)
  }

  ghost predicate Distinct<T>(q: seq<T>) {
    forall i, j | 0 <= i < j < |q| :: q[i] != q[j]
  }

  function Lengths<T>(lists: seq<seq<T>>): (r: seq<nat>)
    ensures |r| == |lists|
  {
    seq(|lists|, i requires 0 <= i < |lists| => |lists[i]|)
  }

  function Sum(ns: seq<nat>): nat {
    if ns == [] then 0 else Sum(ns[..|ns| - 1]) + ns[|ns| - 1]
  }

  /**
   Sum and difference of two unsigned values of the given width, wrapping around.
   One conditional correction is all the wrapping two in-range operands can need.
   */
  function Add32(a: nat, b: nat): (r: nat) {
    if a + b < 0x1_0000_0000 then a + b else a + b - 0x1_0000_0000
  }

  function Sub32(a: nat, b: nat): (r: nat)
    requires b <= 0x1_0000_0000
  {
    if a >= b then a - b else a + 0x1_0000_0000 - b
  }

  function Add64(a: nat, b: nat): (r: nat) {
    if a + b < 0x1_0000_0000_0000_0000 then a + b else a + b - 0x1_0000_0000_0000_0000
  }

  function Sub64(a: nat, b: nat): (r: nat)
    requires b <= 0x1_0000_0000_0000_0000
  {
    if a >= b then a - b else a + 0x1_0000_0000_0000_0000 - b
  }

  function Min(a: int, b: int): (m: int) {
    if a <= b then a else b
  }

  function Max(a: int, b: int): (m: int) {
    if a <= b then b else a
  }
}
