/**
 The writer that appends an AOT file to a wasm module as a custom section whose
 content starts at an aligned offset. Integers are unsigned LEB128 as in section
 5.2.2 of the WebAssembly Core Specification, sections as in section 5.5.3.
 */
module CustomSection {
  import opened Machine
  import opened Arithmetic

  type Bytes = seq<byte>

  // ---------------------------------------------------------------------------
  // LEB128
  // ---------------------------------------------------------------------------

  /** The bytes of a number, least significant group first; nothing at all for 0. */
  function Leb(value: nat): (r: Bytes) {
    if value == 0 then []
    else if value / 128 != 0 then [128 + value % 128] + Leb(value / 128)
    else [value % 128]
  }

  /** Bytes consumed and value: up to the first byte without the continuation bit. */
  function Unleb(binary: Bytes): (r: (nat, nat))
    requires binary != []
    ensures 1 <= r.0 <= |binary|
  {
    if binary[0] < 128 || |binary| == 1 then (1, binary[0] % 128)
    else
      var (n, v) := Unleb(binary[1..]);
      (n + 1, binary[0] % 128 + 128 * v)
  }

  function Pow128(k: nat): nat {
    if k == 0 then 1 else 128 * Pow128(k - 1)
  }

  /**
   Decoding undoes encoding, and reads no further than the number, for every
   number but 0, which the encoder turns into no bytes at all.
   */
  lemma {:induction false} UnlebOfLeb(value: nat, tail: Bytes)
    ensures value > 0 <==> Leb(value) + tail != [] && Unleb(Leb(value) + tail) == (|Leb(value)|, value)
  {
    if value > 0 {
      UnlebOfPositive(value, tail);
    }
  }

  /** A byte with the continuation bit in front of a number. */
  lemma {:induction false} UnlebCons(first: byte, rest: Bytes, tail: Bytes)
    requires first >= 128 && rest != []
    ensures var (n, v) := Unleb(rest + tail);
            Unleb(([first] + rest) + tail) == (n + 1, first % 128 + 128 * v)
  {
    assert (([first] + rest) + tail)[1..] == rest + tail;
  }

  lemma {:induction false} UnlebOfPositive(value: nat, tail: Bytes)
    requires value > 0
    ensures Leb(value) != [] && Unleb(Leb(value) + tail) == (|Leb(value)|, value)
    decreases value
  {
    if value / 128 != 0 {
      var high := value / 128;
      UnlebOfPositive(high, tail);
      UnlebCons(128 + value % 128, Leb(high), tail);
    }
  }

  /** `leb128_encode_uint`. */
  method Leb128EncodeUint(input: nat) returns (binary: Bytes)
    ensures binary == Leb(input)
  {
    var value := input;
    binary := [];
    while value != 0
      invariant binary + Leb(value) == Leb(input)
    {
      var lower7Bits := value % 128;
      ghost var rest := Leb(value / 128);
      assert Leb(value) == [if value / 128 != 0 then 128 + lower7Bits else lower7Bits] + rest;
      value := value / 128;
      var currentByte := if value != 0 then 128 + lower7Bits else lower7Bits;
      assert binary + ([currentByte] + rest) == (binary + [currentByte]) + rest;
      binary := binary + [currentByte];
    }
  }

  /** `leb128_decode_uint`; the empty input, on which the original raises, yields None. */
  method Leb128DecodeUint(binary: Bytes) returns (r: Option<(nat, nat)>)
    ensures binary == [] <==> r.None?
    ensures binary != [] ==> r == Some(Unleb(binary))
  {
    if binary == [] {
      return None;
    }
    var result, groups, i := 0, 0, 0;
    assert binary[0..] == binary;
    while true
      invariant 0 <= i < |binary| && 0 <= groups
      invariant Unleb(binary).0 == i + Unleb(binary[i..]).0
      invariant Unleb(binary).1 == result + Shifted(Unleb(binary[i..]).1, groups)
      decreases |binary| - i
    {
      var b := binary[i];
      var lower7Bits := b % 128;
      result := result + Shifted(lower7Bits, groups);
      UnlebStep(binary, i);
      if b < 128 || i + 1 == |binary| {
        return Some((i + 1, result));
      }
      ShiftedSum(lower7Bits, Unleb(binary[i + 1..]).1, groups);
      groups := groups + 1;
      i := i + 1;
    }
  }

  /** `v << (7 * groups)`. */
  function Shifted(v: nat, groups: nat): nat
    decreases groups
  {
    if groups == 0 then v else 128 * Shifted(v, groups - 1)
  }

  lemma {:induction false} ShiftedSum(low: nat, high: nat, groups: nat)
    ensures Shifted(low + 128 * high, groups) == Shifted(low, groups) + Shifted(high, groups + 1)
  {
    if groups > 0 {
      ShiftedSum(low, high, groups - 1);
    }
  }

  lemma UnlebStep(binary: Bytes, i: nat)
    requires i < |binary|
    ensures binary[i] < 128 || i + 1 == |binary| ==> Unleb(binary[i..]) == (1, binary[i] % 128)
    ensures !(binary[i] < 128 || i + 1 == |binary|) ==>
              Unleb(binary[i..]) == (Unleb(binary[i + 1..]).0 + 1, binary[i] % 128 + 128 * Unleb(binary[i + 1..]).1)
  {
    assert binary[i..][1..] == binary[i + 1..];
  }

  // ---------------------------------------------------------------------------
  // How long a number is
  // ---------------------------------------------------------------------------

  lemma {:induction false} LebMonotone(v: nat, w: nat)
    requires v <= w
    ensures |Leb(v)| <= |Leb(w)|
    decreases w
  {
    if v > 0 && w >= 128 {
      LebMonotone(v / 128, w / 128);
    }
  }

  /** Within a window of 256 the length grows at most once. */
  lemma {:induction false} LebGrowsOnce(v: nat, w: nat, u: nat)
    requires 0 < v < w <= u <= v + 256 && |Leb(v)| < |Leb(w)|
    ensures |Leb(u)| == |Leb(w)|
    decreases v
  {
    assert w < 128 ==> |Leb(w)| == 1 && |Leb(v)| == 1;
    if v < 128 {
      assert 1 <= w / 128 <= u / 128 < 3;
      assert |Leb(w / 128)| == 1 && |Leb(u / 128)| == 1;
    } else {
      LebGrowsOnce(v / 128, w / 128, u / 128);
    }
  }

  /**
   The format: byte `i` holds the `i`-th group of seven bits, with the top bit set
   in all bytes but the last. `high` is the number without its first `i` groups.
   */
  lemma {:induction false} LebGroups(value: nat, i: nat, high: nat)
    requires i < |Leb(value)| && Pow128(i) * high <= value < Pow128(i) * (high + 1)
    ensures Leb(value)[i] == high % 128 + if i < |Leb(value)| - 1 then 128 else 0
    ensures i == |Leb(value)| - 1 <==> 0 < high < 128
    decreases i
  {
    if i == 0 {
      assert Pow128(0) == 1;
    } else {
      GroupBelow(value, Pow128(i - 1), high);
      LebGroups(value / 128, i - 1, high);
    }
  }

  lemma {:induction false} GroupBelow(value: nat, p: nat, high: nat)
    requires (128 * p) * high <= value < (128 * p) * (high + 1)
    ensures p * high <= value / 128 < p * (high + 1)
  {
    assert (128 * p) * high == 128 * (p * high) && (128 * p) * (high + 1) == 128 * (p * (high + 1));
  }

  lemma {:induction false} LebLength(v: nat, k: nat)
    requires 0 < k && Pow128(k - 1) <= v < Pow128(k)
    ensures |Leb(v)| == k
    decreases k
  {
    if k > 1 {
      assert Pow128(k - 1) == 128 * Pow128(k - 2) && Pow128(k) == 128 * Pow128(k - 1);
      LebLength(v / 128, k - 1);
    } else {
      assert Pow128(0) == 1 && Pow128(1) == 128;
    }
  }

  // ---------------------------------------------------------------------------
  // The padding search
  // ---------------------------------------------------------------------------

  ghost predicate PowerOfTwo(n: nat) {
    n == 1 || (n > 1 && n % 2 == 0 && PowerOfTwo(n / 2))
  }

  /** `is_aligned`: for a power of two the bit mask test is divisibility. */
  predicate IsAligned(n: nat, alignment: nat)
    requires 0 < alignment
  {
    n % alignment == 0
  }

  /** `present_as_vector`: length, then content. */
  function Vector(content: Bytes): (r: Bytes) {
    (if content == [] then [0] else Leb(|content|)) + content
  }

  /** How long the padding vector for `padding` zero bytes is. */
  function PaddingLength(padding: nat): (r: nat) {
    padding + if padding == 0 then 1 else |Leb(padding)|
  }

  function SectionLength(nameLen: nat, contentLen: nat, padding: nat): (r: nat) {
    nameLen + PaddingLength(padding) + contentLen
  }

  /** Where the content starts when `padding` zero bytes are inserted. */
  function ContentPos(start: nat, nameLen: nat, contentLen: nat, padding: nat): (r: nat) {
    start + 1 + |Leb(SectionLength(nameLen, contentLen, padding))| + nameLen + PaddingLength(padding)
  }

  ghost predicate Fits(alignment: nat, start: nat, nameLen: nat, contentLen: nat, padding: nat)
    requires 0 < alignment
  {
    IsAligned(ContentPos(start, nameLen, contentLen, padding), alignment)
  }

  lemma PaddingLengthIs(padding: nat)
    ensures PaddingLength(padding) == |Vector(Zeros(padding))|
  {
    assert Zeros(padding) == [] <==> padding == 0;
  }

  /** Any `m` consecutive numbers contain a multiple of `m`. */
  lemma MultipleInWindow(base: nat, m: nat) returns (d: nat)
    requires 0 < m
    ensures d < m && (base + d) % m == 0
  {
    var q, r := base / m, base % m;
    d := if r == 0 then 0 else m - r;
    var q' := if r == 0 then q else q + 1;
    assert base + d == m * q' + 0;
    UniqueMod(base + d, m, q', 0);
  }

  // ---------------------------------------------------------------------------
  // The search succeeds exactly for alignments up to 128
  // ---------------------------------------------------------------------------

  /** While neither length field grows, the content moves one byte per padding byte. */
  lemma HalfWindow(alignment: nat, start: nat, nameLen: nat, contentLen: nat, lo: nat) returns (padding: nat)
    requires 0 < alignment
    requires forall p | lo <= p < lo + alignment :: PaddingLength(p) - p == PaddingLength(lo) - lo
    requires |Leb(SectionLength(nameLen, contentLen, lo))|
             == |Leb(SectionLength(nameLen, contentLen, lo + alignment - 1))|
    ensures lo <= padding < lo + alignment && Fits(alignment, start, nameLen, contentLen, padding)
  {
    var d := MultipleInWindow(ContentPos(start, nameLen, contentLen, lo), alignment);
    padding := lo + d;
    assert PaddingLength(padding) == PaddingLength(lo) + d;
    var last := lo + alignment - 1;
    assert PaddingLength(last) == PaddingLength(lo) + alignment - 1;
    LebMonotone(SectionLength(nameLen, contentLen, lo), SectionLength(nameLen, contentLen, padding));
    LebMonotone(SectionLength(nameLen, contentLen, padding), SectionLength(nameLen, contentLen, last));
    assert ContentPos(start, nameLen, contentLen, padding) == ContentPos(start, nameLen, contentLen, lo) + d;
  }

  lemma SmallPaddingLength(p: nat)
    requires p < 256
    ensures PaddingLength(p) == if p < 128 then p + 1 else p + 2
  {
    if p >= 128 {
      assert p / 128 == 1 && |Leb(1)| == 1;
    }
  }

  /**
   Up to alignment 128 the search always finds a padding: the section length
   field can grow at most once in the search window, so it is constant on the
   first or on the second half, and either half meets every residue.
   */
  lemma PaddingExists(alignment: nat, start: nat, nameLen: nat, contentLen: nat) returns (padding: nat)
    requires PowerOfTwo(alignment) && alignment <= 128
    ensures padding < 2 * alignment && Fits(alignment, start, nameLen, contentLen, padding)
  {
    forall p | 0 <= p < 2 * alignment ensures PaddingLength(p) == if p < 128 then p + 1 else p + 2 {
      SmallPaddingLength(p);
    }
    var first := SectionLength(nameLen, contentLen, 0);
    var mid := SectionLength(nameLen, contentLen, alignment - 1);
    if |Leb(first)| == |Leb(mid)| {
      padding := HalfWindow(alignment, start, nameLen, contentLen, 0);
    } else {
      LebMonotone(first, mid);
      LebGrowsOnce(first, mid, SectionLength(nameLen, contentLen, alignment));
      LebGrowsOnce(first, mid, SectionLength(nameLen, contentLen, 2 * alignment - 1));
      SecondHalf(alignment);
      padding := HalfWindow(alignment, start, nameLen, contentLen, alignment);
    }
  }

  /** The padding's own length field has one length on the whole second half. */
  lemma {:induction false} SecondHalf(alignment: nat)
    requires PowerOfTwo(alignment) && alignment <= 128
    ensures forall p | alignment <= p < 2 * alignment :: PaddingLength(p) - p == PaddingLength(alignment) - alignment
  {
    assert alignment <= 64 || alignment == 128 by { PowerOfTwoGap(alignment, 64); }
    forall p | alignment <= p < 2 * alignment
      ensures PaddingLength(p) - p == PaddingLength(alignment) - alignment
    {
      SmallPaddingLength(p);
      SmallPaddingLength(alignment);
    }
  }

  /** There is no power of two strictly between a power of two and its double. */
  lemma {:induction false} PowerOfTwoGap(n: nat, m: nat)
    requires PowerOfTwo(n) && PowerOfTwo(m)
    ensures n <= m || 2 * m <= n
    decreases m
  {
    if m > 1 && n > 1 {
      PowerOfTwoGap(n / 2, m / 2);
    }
  }

  /** `calc_padding`. */
  method CalcPadding(alignment: nat, nameBinLen: nat, contentLen: nat, startPos: nat)
    returns (r: Option<Bytes>, ghost zeros: nat)
    requires PowerOfTwo(alignment)
    ensures r.Some? ==> zeros < 2 * alignment && r.value == Vector(Zeros(zeros))
                        && Fits(alignment, startPos, nameBinLen, contentLen, zeros)
    ensures r.Some? ==> Least(alignment, startPos, nameBinLen, contentLen, zeros)
    ensures r.Some? <==> Found(alignment, startPos, nameBinLen, contentLen)
    ensures alignment <= 128 ==> r.Some?
  {
    for padding := 0 to alignment * 2
      invariant forall p: nat | p < padding :: !Fits(alignment, startPos, nameBinLen, contentLen, p)
    {
      var paddingBin := Vector(Zeros(padding));
      PaddingLengthIs(padding);
      var sectionLength := nameBinLen + |paddingBin| + contentLen;
      var sectionLengthBin := Leb128EncodeUint(sectionLength);
      var pos := startPos + 1 + |sectionLengthBin| + nameBinLen + |paddingBin|;
      if IsAligned(pos, alignment) {
        assert Fits(alignment, startPos, nameBinLen, contentLen, padding);
        return Some(paddingBin), padding;
      }
    }
    if alignment <= 128 {
      ghost var p := PaddingExists(alignment, startPos, nameBinLen, contentLen);
      assert false;
    }
    return None, 0;
  }

  /** A power of two and the numbers below its double have the same length. */
  lemma {:induction false} LebWithinOctave(n: nat, x: nat)
    requires PowerOfTwo(n) && n <= x < 2 * n
    ensures |Leb(x)| == |Leb(n)|
    decreases n
  {
    PowerOfTwoGap(n, 64);
    if n >= 128 {
      PowerOfTwoDiv128(n);
      LebWithinOctave(n / 128, x / 128);
    }
  }

  lemma {:induction false} PowerOfTwoDiv128(n: nat)
    requires PowerOfTwo(n) && n >= 128
    ensures n % 128 == 0 && PowerOfTwo(n / 128)
  {
    var n1 := n / 2;
    var n2 := n1 / 2;
    var n3 := n2 / 2;
    var n4 := n3 / 2;
    var n5 := n4 / 2;
    var n6 := n5 / 2;
    assert PowerOfTwo(n1) && PowerOfTwo(n2) && PowerOfTwo(n3) && PowerOfTwo(n4) && PowerOfTwo(n5) && PowerOfTwo(n6);
    assert n6 / 2 == n / 128;
  }

  lemma {:induction false} PaddingLengthIncreases(p: nat, q: nat)
    requires p < q
    ensures PaddingLength(p) < PaddingLength(q)
  {
    LebMonotone(p, q);
  }

  /**
   For every larger power of two there is an input on which the search comes back
   empty, with a content of a few hundred times the alignment at most: the
   padding's own length field jumps over the aligned position once, and the
   section length field jumps over the next one.
   */
  lemma PaddingMayNotExist(alignment: nat) returns (start: nat, nameLen: nat, contentLen: nat)
    requires PowerOfTwo(alignment) && 128 < alignment < UINT64_TOP
    ensures nameLen == |Vector([])| && start < alignment && contentLen < 512 * alignment
    ensures forall p: nat | p < 2 * alignment :: !Fits(alignment, start, nameLen, contentLen, p)
  {
    PowerOfTwoGap(alignment, 128);
    var k := LengthOf4(alignment);
    var jump := Jump(alignment);
    start, nameLen, contentLen := alignment - 131 - k, 1, Pow128(k) - (alignment + 130);
    forall p: nat | p < 2 * alignment ensures !Fits(alignment, start, nameLen, contentLen, p) {
      MissesEverywhere(alignment, p, jump, k);
    }
  }

  /** The padding from which on the padding vector is 129 bytes longer than the alignment. */
  lemma Jump(alignment: nat) returns (jump: nat)
    requires PowerOfTwo(alignment) && 256 <= alignment < UINT64_TOP
    ensures 0 < jump && PaddingLength(jump) == alignment + 129 && PaddingLength(jump - 1) == alignment + 128
  {
    PaddingLengthGap(alignment);
    jump := alignment + 129 - |Leb(alignment)|;
    LebWithinOctave(alignment, jump);
    LebWithinOctave(alignment, jump - 1);
  }

  /** The number of groups of the first power of 128 that reaches four times the alignment. */
  lemma LengthOf4(alignment: nat) returns (k: nat)
    requires 256 <= alignment < UINT64_TOP
    ensures 2 <= k <= 10 && 4 * alignment <= Pow128(k) < 512 * alignment
    ensures Pow128(k) == 128 * Pow128(k - 1) && Pow128(k + 1) == 128 * Pow128(k)
  {
    Pow128Of10();
    k := 1;
    while Pow128(k) < 4 * alignment
      invariant 1 <= k <= 10 && Pow128(k - 1) < 4 * alignment
      decreases 10 - k
    {
      k := k + 1;
    }
    assert Pow128(1) == 128;
  }

  lemma Pow128Of10()
    ensures Pow128(9) == 0x8000_0000_0000_0000 && Pow128(10) == 0x40_0000_0000_0000_0000
    ensures Pow128(11) == 0x2000_0000_0000_0000_0000
  {
    assert Pow128(3) == 0x20_0000 && Pow128(6) == 0x400_0000_0000;
  }

  /** No padding vector is 129 bytes long, and ten bytes are enough for any length field here. */
  lemma PaddingLengthGap(p: nat)
    requires p < 2 * UINT64_TOP
    ensures PaddingLength(p) != 129 && 0 < PaddingLength(p) <= p + 10
  {
    Pow128Of10();
    SmallPaddingLength(127);
    SmallPaddingLength(128);
    if p < 127 { PaddingLengthIncreases(p, 127); }
    if p > 128 { PaddingLengthIncreases(128, p); }
    LebMonotone(p, Pow128(10) - 1);
    LebLength(Pow128(10) - 1, 10);
  }

  lemma MissesEverywhere(alignment: nat, p: nat, jump: nat, k: nat)
    requires 256 <= alignment < UINT64_TOP && p < 2 * alignment
    requires 0 < jump && PaddingLength(jump) == alignment + 129 && PaddingLength(jump - 1) == alignment + 128
    requires 2 <= k <= 10 && 4 * alignment <= Pow128(k)
    requires Pow128(k) == 128 * Pow128(k - 1) && Pow128(k + 1) == 128 * Pow128(k)
    ensures !Fits(alignment, alignment - 131 - k, 1, Pow128(k) - (alignment + 130), p)
  {
    PaddingLengthGap(p);
    var contentLen := Pow128(k) - (alignment + 130);
    var len := PaddingLength(p);
    // the section length field is k bytes before the jump and one more from it on
    var section := SectionLength(1, contentLen, p);
    var pos := ContentPos(alignment - 131 - k, 1, contentLen, p);
    if p < jump {
      if p < jump - 1 { PaddingLengthIncreases(p, jump - 1); }
      LebLength(section, k);
      assert pos == alignment - 129 + len;
    } else {
      if p > jump { PaddingLengthIncreases(jump, p); }
      LebLength(section, k + 1);
      assert pos == alignment - 128 + len;
    }
    assert pos != alignment && pos != 2 * alignment && 0 < pos < 3 * alignment;
    NotMultiple(pos, alignment);
  }

  lemma NotMultiple(x: nat, m: nat)
    requires 0 < m && 0 < x < 3 * m && x != m && x != 2 * m
    ensures x % m != 0
  {
    if x < m {
      UniqueMod(x, m, 0, x);
    } else if x < 2 * m {
      UniqueMod(x, m, 1, x - m);
    } else {
      UniqueMod(x, m, 2, x - 2 * m);
    }
  }

  /** No shorter padding would do. */
  ghost predicate Least(alignment: nat, start: nat, nameLen: nat, contentLen: nat, padding: nat)
    requires 0 < alignment
  {
    forall p: nat | p < padding :: !Fits(alignment, start, nameLen, contentLen, p)
  }

  /** Is there a padding in the search window? */
  ghost predicate Found(alignment: nat, start: nat, nameLen: nat, contentLen: nat)
    requires 0 < alignment
  {
    exists p: nat :: p < 2 * alignment && Fits(alignment, start, nameLen, contentLen, p)
  }

  /** The search succeeds on every section and start position exactly for alignments up to 128. */
  lemma {:induction false} AlwaysFoundIff(alignment: nat)
    requires PowerOfTwo(alignment) && 0 < alignment < UINT64_TOP
    ensures alignment <= 128 <==>
            forall start: nat, nameLen: nat, contentLen: nat | 0 < nameLen ::
              Found(alignment, start, nameLen, contentLen)
  {
    if alignment <= 128 {
      forall start: nat, nameLen: nat, contentLen: nat | 0 < nameLen
        ensures Found(alignment, start, nameLen, contentLen)
      {
        var p := PaddingExists(alignment, start, nameLen, contentLen);
      }
    } else {
      var start, nameLen, contentLen := PaddingMayNotExist(alignment);
      assert !Found(alignment, start, nameLen, contentLen);
    }
  }

  // ---------------------------------------------------------------------------
  // Writing and reading a section
  // ---------------------------------------------------------------------------

  /** A section as a reader sees it; `offset` is where its content starts. */
  datatype Section = Section(id: byte, length: nat, name: Bytes, padding: Bytes, content: Bytes, offset: nat)

  /** A vector off the front: its content and what follows. */
  function ReadVector(input: Bytes): (r: Option<(Bytes, Bytes)>) {
    if input == [] then None
    else
      var (n, len) := Unleb(input);
      if n + len > |input| then None else Some((input[n..n + len], input[n + len..]))
  }

  /** Name, padding and content of a section's body. */
  function ReadBody(body: Bytes): (r: Option<(Bytes, Bytes, Bytes)>) {
    var name := ReadVector(body);
    if name.None? then None
    else
      var padding := ReadVector(name.value.1);
      if padding.None? then None else Some((name.value.0, padding.value.0, padding.value.1))
  }

  /** A section off the front, and what follows it: id, then the body as a vector. */
  function ReadSection(input: Bytes): (r: Option<(Section, Bytes)>) {
    if input == [] then None
    else
      var vec := ReadVector(input[1..]);
      if vec.None? then None
      else
        var (body, rest) := vec.value;
        var parts := ReadBody(body);
        if parts.None? then None
        else
          var (name, padding, content) := parts.value;
          Some((Section(input[0], |body|, name, padding, content, |input| - |rest| - |content|), rest))
  }

  /** Whatever the length field looks like, as long as it reads back. */
  lemma {:induction false} ReadVectorOf(size: Bytes, content: Bytes, tail: Bytes)
    requires size != [] && Unleb(size + (content + tail)) == (|size|, |content|)
    ensures ReadVector((size + content) + tail) == Some((content, tail))
  {
    var input := (size + content) + tail;
    assert input == size + (content + tail);
    assert input[|size|..|size| + |content|] == content;
    assert input[|size| + |content|..] == tail;
  }

  lemma ReadVectorOfVector(content: Bytes, tail: Bytes)
    ensures ReadVector(Vector(content) + tail) == Some((content, tail))
    ensures Vector(content) != []
  {
    if content != [] {
      UnlebOfPositive(|content|, content + tail);
      ReadVectorOf(Leb(|content|), content, tail);
    } else {
      ReadVectorOf([0], content, tail);
    }
  }

  function Body(name: Bytes, padding: Bytes, content: Bytes): (r: Bytes) {
    Vector(name) + (Vector(padding) + content)
  }

  /** Id 0, the length of the body, and the body. */
  function Framed(body: Bytes): (r: Bytes) {
    [0] + Leb(|body|) + body
  }

  function Written(name: Bytes, padding: Bytes, content: Bytes): (r: Bytes) {
    Framed(Body(name, padding, content))
  }

  lemma ReadBodyOfBody(name: Bytes, padding: Bytes, content: Bytes)
    ensures ReadBody(Body(name, padding, content)) == Some((name, padding, content))
    ensures Body(name, padding, content) != []
  {
    ReadVectorOfVector(name, Vector(padding) + content);
    ReadVectorOfVector(padding, content);
  }

  /** Whatever the length field looks like, as long as it reads back. */
  lemma ReadSectionOfFrame(size: Bytes, body: Bytes, tail: Bytes, name: Bytes, padding: Bytes, content: Bytes)
    requires ReadVector((size + body) + tail) == Some((body, tail))
    requires ReadBody(body) == Some((name, padding, content))
    ensures ReadSection(([0] + size + body) + tail)
            == Some((Section(0, |body|, name, padding, content, 1 + |size| + |body| - |content|), tail))
  {
    assert (([0] + size + body) + tail)[1..] == (size + body) + tail;
  }

  lemma ReadSectionOfBody(body: Bytes, tail: Bytes, name: Bytes, padding: Bytes, content: Bytes)
    returns (framed: Bytes)
    requires body != [] && ReadBody(body) == Some((name, padding, content))
    ensures framed == Framed(body)
    ensures ReadSection(framed + tail)
            == Some((Section(0, |body|, name, padding, content, |framed| - |content|), tail))
  {
    framed := Framed(body);
    UnlebOfPositive(|body|, body + tail);
    ReadVectorOf(Leb(|body|), body, tail);
    ReadSectionOfFrame(Leb(|body|), body, tail, name, padding, content);
  }

  /** The written content starts where the padding search computed. */
  lemma WrittenPos(start: nat, name: Bytes, content: Bytes, p: nat)
    ensures start + |Written(name, Zeros(p), content)| - |content|
            == ContentPos(start, |Vector(name)|, |content|, p)
    ensures |Body(name, Zeros(p), content)| == |Vector(name)| + |Vector(Zeros(p))| + |content|
  {
    PaddingLengthIs(p);
  }

  /** What a reader of a section with these parts should see. */
  function Parts(written: Bytes, name: Bytes, padding: Bytes, content: Bytes): Section
    requires |content| <= |written|
  {
    Section(0, |Vector(name)| + |Vector(padding)| + |content|, name, padding, content, |written| - |content|)
  }

  predicate Reads(written: Bytes, section: Section, tail: Bytes) {
    ReadSection(written + tail) == Some((section, tail))
  }

  /**
   `written` is the section of these parts: whatever follows it, it reads back
   with id 0, its exact length, the name, the padding and the content, which lies
   at an aligned offset of the file.
   */
  ghost predicate ReadsBack(written: Bytes, startPos: nat, name: Bytes, padding: Bytes, content: Bytes, alignment: nat)
    requires 0 < alignment
  {
    && |content| <= |written|
    && IsAligned(startPos + Parts(written, name, padding, content).offset, alignment)
    && forall tail: Bytes :: Reads(written, Parts(written, name, padding, content), tail)
  }

  /** A framed body reads back, whatever follows it. */
  lemma FramedReads(body: Bytes, name: Bytes, padding: Bytes, content: Bytes, written: Bytes, tail: Bytes)
    requires body != [] && ReadBody(body) == Some((name, padding, content)) && written == Framed(body)
    requires |body| == |Vector(name)| + |Vector(padding)| + |content|
    ensures Reads(written, Parts(written, name, padding, content), tail)
  {
    hide ReadSection, ReadBody, Framed, Vector;
    var framed := ReadSectionOfBody(body, tail, name, padding, content);
  }

  lemma WrittenReadsBack(startPos: nat, name: Bytes, content: Bytes, alignment: nat, p: nat, written: Bytes)
    requires 0 < alignment && Fits(alignment, startPos, |Vector(name)|, |content|, p)
    requires written == Written(name, Zeros(p), content)
    ensures ReadsBack(written, startPos, name, Zeros(p), content, alignment)
  {
    WrittenPos(startPos, name, content, p);
    var body := Body(name, Zeros(p), content);
    ReadBodyOfBody(name, Zeros(p), content);
    forall tail: Bytes ensures Reads(written, Parts(written, name, Zeros(p), content), tail) {
      FramedReads(body, name, Zeros(p), content, written, tail);
    }
  }

  lemma Assembled(size: Bytes, name: Bytes, padding: Bytes, content: Bytes)
    ensures [] + [0] + size + name + padding + content == [0] + size + (name + (padding + content))
  {}

  /**
   `create_custom_section_aligned`. The result is None where the original fails
   because no padding was found.
   */
  method CreateCustomSectionAligned(startPos: nat, name: Bytes, content: Bytes, alignment: nat)
    returns (r: Option<Bytes>)
    requires PowerOfTwo(alignment)
    ensures r.Some? ==> exists p: nat :: p < 2 * alignment
                                         && ReadsBack(r.value, startPos, name, Zeros(p), content, alignment)
                                         && Least(alignment, startPos, |Vector(name)|, |content|, p)
    ensures r.Some? <==> Found(alignment, startPos, |Vector(name)|, |content|)
    ensures alignment <= 128 ==> r.Some?
  {
    var nameBin := Vector(name);
    var found;
    ghost var p;
    found, p := CalcPadding(alignment, |nameBin|, |content|, startPos);
    if found.None? {
      return None;
    }
    var paddingBin := found.value;
    PaddingLengthIs(p);
    WrittenPos(startPos, name, content, p);
    var pos, fullContentBin := startPos, [];
    pos, fullContentBin := pos + 1, fullContentBin + [0];
    var sectionLengthBin := Leb128EncodeUint(|nameBin| + |paddingBin| + |content|);
    pos, fullContentBin := pos + |sectionLengthBin|, fullContentBin + sectionLengthBin;
    pos, fullContentBin := pos + |nameBin|, fullContentBin + nameBin;
    pos, fullContentBin := pos + |paddingBin|, fullContentBin + paddingBin;
    assert IsAligned(pos, alignment);
    r := Some(fullContentBin + content);
    Assembled(sectionLengthBin, nameBin, paddingBin, content);
    WrittenReadsBack(startPos, name, content, alignment, p, r.value);
  }
}
