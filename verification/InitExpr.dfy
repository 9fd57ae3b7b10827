/**
 Initializer expressions of AOT globals: the prefix-coded reader of the loader
 and the evaluation at instantiation, with extended constant expressions and
 reference types on and GC off.
 */
module InitExpr {
  import opened Machine
  import opened Arithmetic

  /** `init_expr_type` values. */
  const NONE: byte := 0x00
  const GET_GLOBAL: byte := 0x23
  const I32_CONST: byte := 0x41
  const I64_CONST: byte := 0x42
  const F32_CONST: byte := 0x43
  const F64_CONST: byte := 0x44
  const I32_ADD: byte := 0x6A
  const I32_SUB: byte := 0x6B
  const I32_MUL: byte := 0x6C
  const I64_ADD: byte := 0x7C
  const I64_SUB: byte := 0x7D
  const I64_MUL: byte := 0x7E
  const REFNULL_CONST: byte := 0xD0
  const FUNCREF_CONST: byte := 0xD2
  const V128_CONST: byte := 0xFD

  /** An expression; `operand` holds the little-endian bytes of a constant or index. */
  datatype Expr =
    | Unary(tag: byte, operand: seq<byte>)
    | Binary(tag: byte, l: Expr, r: Expr)

  // ---------------------------------------------------------------------------
  // Format
  // ---------------------------------------------------------------------------

  predicate IsUnary(tag: byte) {
    || tag == NONE || tag == GET_GLOBAL || I32_CONST <= tag <= F64_CONST
    || tag == REFNULL_CONST || tag == FUNCREF_CONST || tag == V128_CONST
  }

  predicate IsBinary(tag: byte) {
    I32_ADD <= tag <= I32_MUL || I64_ADD <= tag <= I64_MUL
  }

  /** Operand size in 32-bit words. */
  function OperandWords(tag: byte): (n: nat)
    ensures n <= 4
  {
    if tag == NONE then 0
    else if tag == I64_CONST || tag == F64_CONST then 2
    else if tag == V128_CONST then 4
    else 1
  }

  /** The expressions of the format, by the opcodes of the WebAssembly binary format and the bytes they carry. */
  predicate Encodable(e: Expr) {
    match e
    case Unary(tag, operand) =>
      || (|operand| == 0 && tag == 0x00)
      || (|operand| == 4 && tag in {0x23, 0x41, 0x43, 0xD0, 0xD2})
      || (|operand| == 8 && tag in {0x42, 0x44})
      || (|operand| == 16 && tag == 0xFD)
    case Binary(tag, l, r) => tag in {0x6A, 0x6B, 0x6C, 0x7C, 0x7D, 0x7E} && Encodable(l) && Encodable(r)
  }

  /** A tag is stored as a little-endian word. */
  function Tag(tag: byte): (s: seq<byte>)
    ensures |s| == 4
  {
    [tag, 0, 0, 0]
  }

  /** The tag a stored word stands for; words of 256 and more are no tag. */
  function TagOf(word: seq<byte>): Option<byte>
    requires |word| == 4
  {
    if word[1] == 0 && word[2] == 0 && word[3] == 0 then Some(word[0]) else None
  }

  /** Comparing the bytes is comparing the 32-bit number with the tag. */
  lemma {:induction false} TagValue(word: seq<byte>, tag: byte)
    requires |word| == 4
    ensures TagOf(word) == Some(tag) <==> FromBytes(word) == tag
    ensures TagOf(word) == Some(tag) <==> word == Tag(tag)
  {
    var (s1, s2, s3) := (word[1..], word[2..], word[3..]);
    assert s1[1..] == s2 && s2[1..] == s3 && s3[1..] == [];
    assert FromBytes(word) == word[0] + 256 * FromBytes(s1);
    assert FromBytes(s1) == word[1] + 256 * FromBytes(s2);
    assert FromBytes(s2) == word[2] + 256 * FromBytes(s3);
    assert FromBytes(s3) == word[3];
  }

  /** Size of an encoding in bytes. */
  function Size(e: Expr): (n: nat)
    ensures n >= 4
  {
    match e
    case Unary(_, operand) => 4 + |operand|
    case Binary(_, l, r) => 4 + Size(l) + Size(r)
  }

  /** Prefix code: tag, then operand or operands. */
  function Encode(e: Expr): (s: seq<byte>)
    ensures |s| == Size(e)
  {
    match e
    case Unary(tag, operand) => Tag(tag) + operand
    case Binary(tag, l, r) => Tag(tag) + Encode(l) + Encode(r)
  }

  // ---------------------------------------------------------------------------
  // The reader
  // ---------------------------------------------------------------------------

  /** The file buffer: `bytes` lie at address `base`, not at the very top of the address space. */
  datatype Buffer = Buffer(base: nat, bytes: seq<byte>) {
    predicate Mapped() {
      base + |bytes| + 32 <= UINT64_TOP
    }

    /** The cursor position after `align_ptr(.., 4)`. */
    function Aligned(pos: nat): (r: nat)
      ensures pos <= r < pos + 4 && (base + r) % 4 == 0
    {
      (base + pos + 3) / 4 * 4 - base
    }

    /** `check_buf`, with its wrap-around test. */
    predicate Check(pos: nat, length: nat)
      requires Mapped() && pos <= |bytes| + 4 && length <= 16
      ensures Check(pos, length) <==> pos + length <= |bytes|
    {
      !(Add64(base + pos, length) < base + pos) && Add64(base + pos, length) <= base + |bytes|
    }

    /** The rest of `TEMPLATE_READ`: the bytes, when the check passes. */
    function Read(p: nat, size: nat): (r: Option<seq<byte>>)
      ensures r.Some? ==> |r.value| == size && p + size <= |bytes|
    {
      if p + size <= |bytes| then Some(bytes[p..p + size]) else None
    }

    function ReadTag(p: nat): (r: Option<byte>)
      ensures r.Some? ==> p + 4 <= |bytes|
    {
      var word := Read(p, 4);
      if word.None? then None else TagOf(word.value)
    }

    /** `s` lies at `pos`. */
    predicate Holds(pos: nat, s: seq<byte>)
      decreases |s|
    {
      s == [] || (pos < |bytes| && bytes[pos] == s[0] && Holds(pos + 1, s[1..]))
    }
  }

  /**
   What the reader returns at the aligned cursor `p`: the expression and the
   cursor behind it. Every field is a whole number of words, so the cursor needs
   no further alignment.
   */
  function Load(b: Buffer, p: nat): (r: Option<(Expr, nat)>)
    ensures r.Some? ==> p + 4 <= r.value.1 <= |b.bytes|
    decreases |b.bytes| - p
  {
    if b.ReadTag(p).None? then None
    else
      var tag := b.ReadTag(p).value;
      if IsUnary(tag) then
        var operand := b.Read(p + 4, 4 * OperandWords(tag));
        if operand.None? then None else Some((Unary(tag, operand.value), p + 4 + 4 * OperandWords(tag)))
      else if IsBinary(tag) then
        var l := Load(b, p + 4);
        if l.None? then None
        else
          var r := Load(b, l.value.1);
          if r.None? then None else Some((Binary(tag, l.value.0, r.value.0), r.value.1))
      else None
  }

  /** Once aligned, the cursor stays aligned from word to word. */
  lemma AlignedStays(b: Buffer, p: nat, n: nat)
    requires b.Aligned(p) == p
    ensures b.Aligned(p + 4 * n) == p + 4 * n
  {}

  lemma {:induction false} LoadStaysAligned(b: Buffer, p: nat)
    requires b.Aligned(p) == p && Load(b, p).Some?
    ensures b.Aligned(Load(b, p).value.1) == Load(b, p).value.1
    decreases |b.bytes| - p
  {
    var tag := b.ReadTag(p).value;
    AlignedStays(b, p, 1);
    if IsUnary(tag) {
      AlignedStays(b, p, 1 + OperandWords(tag));
    } else {
      LoadStaysAligned(b, p + 4);
      LoadStaysAligned(b, Load(b, p + 4).value.1);
    }
  }

  /** What the reader returns for the two operands of a binary expression at `p`. */
  function LoadOperands(b: Buffer, p: nat): (r: Option<(Expr, Expr, nat)>)
  {
    var l := Load(b, p);
    if l.None? then None
    else
      var r := Load(b, l.value.1);
      if r.None? then None else Some((l.value.0, r.value.0, r.value.1))
  }

  /**
   `load_init_expr`: aligns before every field, reads only below the end of the
   buffer, and moves the caller's cursor only on success.
   */
  method LoadInitExpr(b: Buffer, pBuf: nat) returns (ok: bool, expr: Expr, next: nat)
    requires b.Mapped() && pBuf <= |b.bytes|
    ensures ok <==> Load(b, b.Aligned(pBuf)).Some?
    ensures ok ==> Load(b, b.Aligned(pBuf)) == Some((expr, next))
    ensures !ok ==> next == pBuf
    decreases |b.bytes| - pBuf, 1
  {
    ok, expr, next := false, Unary(NONE, []), pBuf;
    var buf := b.Aligned(pBuf);
    ghost var p := buf;
    if !b.Check(buf, 4) {
      return;
    }
    var word := b.bytes[buf..buf + 4];
    buf := buf + 4;
    if TagOf(word).None? {
      return;
    }
    var tag := TagOf(word).value;
    AlignedStays(b, p, 1);
    if IsUnary(tag) {
      var width := 4 * OperandWords(tag);
      buf := b.Aligned(buf);
      if !b.Check(buf, width) {
        return;
      }
      expr := Unary(tag, b.bytes[buf..buf + width]);
      buf := buf + width;
    } else if IsBinary(tag) {
      var both := LoadBothOperands(b, buf);
      if both.None? {
        return;
      }
      expr, buf := Binary(tag, both.value.0, both.value.1), both.value.2;
    } else {
      return;
    }
    ok, next := true, buf;
  }

  /** The binary branch: left operand, then right operand. */
  method LoadBothOperands(b: Buffer, pBuf: nat) returns (r: Option<(Expr, Expr, nat)>)
    requires b.Mapped() && pBuf <= |b.bytes| && b.Aligned(pBuf) == pBuf
    ensures r == LoadOperands(b, pBuf)
    decreases |b.bytes| - pBuf, 2
  {
    var okL, l, bufL := LoadInitExpr(b, pBuf);
    if !okL {
      return None;
    }
    LoadStaysAligned(b, pBuf);
    var okR, r', bufR := LoadInitExpr(b, bufL);
    if !okR {
      return None;
    }
    return Some((l, r', bufR));
  }

  // ---------------------------------------------------------------------------
  // Reading undoes encoding
  // ---------------------------------------------------------------------------

  lemma {:induction false} HoldsSlice(b: Buffer, p: nat, s: seq<byte>)
    requires p <= |b.bytes|
    ensures b.Holds(p, s) <==> p + |s| <= |b.bytes| && b.bytes[p..p + |s|] == s
    decreases |s|
  {
    if s != [] && p < |b.bytes| {
      HoldsSlice(b, p + 1, s[1..]);
      if p + |s| <= |b.bytes| {
        assert b.bytes[p..p + |s|] == [b.bytes[p]] + b.bytes[p + 1..p + |s|];
        assert s == [s[0]] + s[1..];
      }
    }
  }

  lemma {:induction false} ReadHeld(b: Buffer, p: nat, s: seq<byte>)
    requires p <= |b.bytes|
    ensures b.Holds(p, s) <==> b.Read(p, |s|) == Some(s)
  {
    HoldsSlice(b, p, s);
  }

  lemma {:induction false} HoldsConcat(b: Buffer, pos: nat, s: seq<byte>, t: seq<byte>)
    ensures b.Holds(pos, s + t) <==> b.Holds(pos, s) && b.Holds(pos + |s|, t)
    decreases |s|
  {
    if s == [] {
      assert s + t == t;
    } else {
      assert (s + t)[1..] == s[1..] + t;
      HoldsConcat(b, pos + 1, s[1..], t);
    }
  }

  lemma {:induction false} TagRead(b: Buffer, p: nat, tag: byte)
    requires p <= |b.bytes|
    ensures b.Holds(p, Tag(tag)) <==> b.ReadTag(p) == Some(tag)
  {
    ReadHeld(b, p, Tag(tag));
    if b.Read(p, 4).Some? {
      TagValue(b.Read(p, 4).value, tag);
    }
  }

  /** The fields of `e` are read at `p`, one after the other. */
  predicate FieldsAt(b: Buffer, p: nat, e: Expr)
    decreases e
  {
    && b.ReadTag(p) == Some(e.tag)
    && match e
       case Unary(_, operand) => b.Read(p + 4, |operand|) == Some(operand)
       case Binary(_, l, r) => FieldsAt(b, p + 4, l) && FieldsAt(b, p + 4 + Size(l), r)
  }

  lemma {:induction false} FieldsInside(b: Buffer, p: nat, e: Expr)
    requires FieldsAt(b, p, e)
    ensures p + Size(e) <= |b.bytes|
    decreases e
  {
    if e.Binary? {
      FieldsInside(b, p + 4, e.l);
      FieldsInside(b, p + 4 + Size(e.l), e.r);
    }
  }

  lemma {:induction false} HoldsUnary(b: Buffer, p: nat, tag: byte, operand: seq<byte>)
    requires p <= |b.bytes|
    ensures b.Holds(p, Tag(tag) + operand) <==> b.ReadTag(p) == Some(tag) && b.Read(p + 4, |operand|) == Some(operand)
  {
    TagRead(b, p, tag);
    HoldsConcat(b, p, Tag(tag), operand);
    if p + 4 <= |b.bytes| {
      ReadHeld(b, p + 4, operand);
    }
  }

  lemma {:induction false} HoldsBinary(b: Buffer, p: nat, tag: byte, l: seq<byte>, r: seq<byte>)
    requires p <= |b.bytes|
    ensures b.Holds(p, Tag(tag) + l + r)
            <==> b.ReadTag(p) == Some(tag) && b.Holds(p + 4, l) && b.Holds(p + 4 + |l|, r)
  {
    TagRead(b, p, tag);
    HoldsConcat(b, p, Tag(tag) + l, r);
    HoldsConcat(b, p, Tag(tag), l);
  }

  lemma {:induction false} HoldsBinaryEncode(b: Buffer, p: nat, tag: byte, l: Expr, r: Expr)
    requires p <= |b.bytes|
    requires p + 4 <= |b.bytes| ==> (b.Holds(p + 4, Encode(l)) <==> FieldsAt(b, p + 4, l))
    requires p + 4 <= |b.bytes| && FieldsAt(b, p + 4, l) ==>
               (b.Holds(p + 4 + Size(l), Encode(r)) <==> FieldsAt(b, p + 4 + Size(l), r))
    ensures b.Holds(p, Encode(Binary(tag, l, r))) <==> FieldsAt(b, p, Binary(tag, l, r))
  {
    HoldsBinary(b, p, tag, Encode(l), Encode(r));
  }

  /** That is, the encoding lies there. */
  lemma {:induction false} HoldsEncode(b: Buffer, p: nat, e: Expr)
    requires p <= |b.bytes|
    ensures b.Holds(p, Encode(e)) <==> FieldsAt(b, p, e)
    decreases e
  {
    match e
    case Unary(tag, operand) => HoldsUnary(b, p, tag, operand);
    case Binary(tag, l, r) =>
      if p + 4 <= |b.bytes| {
        HoldsEncode(b, p + 4, l);
        if FieldsAt(b, p + 4, l) {
          FieldsInside(b, p + 4, l);
          HoldsEncode(b, p + 4 + Size(l), r);
        }
      }
      HoldsBinaryEncode(b, p, tag, l, r);
  }

  /** How the reader composes. */
  predicate Loads(b: Buffer, p: nat, e: Expr, next: nat) {
    Load(b, p) == Some((e, next))
  }

  lemma LoadBinary(b: Buffer, p: nat, tag: byte, l: Expr, q: nat, r: Expr, next: nat)
    requires IsBinary(tag) && b.ReadTag(p) == Some(tag) && Loads(b, p + 4, l, q) && Loads(b, q, r, next)
    ensures Loads(b, p, Binary(tag, l, r), next)
  {}

  lemma LoadUnary(b: Buffer, p: nat, tag: byte, operand: seq<byte>)
    requires IsUnary(tag) && b.ReadTag(p) == Some(tag) && |operand| == 4 * OperandWords(tag)
    requires b.Read(p + 4, |operand|) == Some(operand)
    ensures Loads(b, p, Unary(tag, operand), p + 4 + |operand|)
  {}

  lemma {:induction false} LoadFields(b: Buffer, p: nat, e: Expr, next: nat)
    requires Encodable(e) && FieldsAt(b, p, e) && next == p + Size(e)
    ensures Loads(b, p, e, next)
    decreases e
  {
    match e
    case Unary(tag, operand) => LoadUnary(b, p, tag, operand);
    case Binary(tag, l, r) =>
      var q := p + 4 + Size(l);
      LoadFields(b, p + 4, l, q);
      LoadFields(b, q, r, next);
      LoadBinary(b, p, tag, l, q, r, next);
  }

  /** And how a result decomposes. */
  lemma LoadedUnary(b: Buffer, p: nat, tag: byte, operand: seq<byte>, next: nat)
    requires Loads(b, p, Unary(tag, operand), next)
    ensures IsUnary(tag) && |operand| == 4 * OperandWords(tag) && next == p + 4 + |operand|
    ensures b.ReadTag(p) == Some(tag) && b.Read(p + 4, |operand|) == Some(operand)
  {}

  lemma LoadedBinary(b: Buffer, p: nat, tag: byte, l: Expr, r: Expr, next: nat) returns (q: nat)
    requires Loads(b, p, Binary(tag, l, r), next)
    ensures IsBinary(tag) && b.ReadTag(p) == Some(tag) && Loads(b, p + 4, l, q) && Loads(b, q, r, next)
  {
    q := Load(b, p + 4).value.1;
  }

  lemma {:induction false} FieldsLoaded(b: Buffer, p: nat, e: Expr, next: nat)
    requires Loads(b, p, e, next)
    ensures Encodable(e) && FieldsAt(b, p, e) && next == p + Size(e)
    decreases e
  {
    match e
    case Unary(tag, operand) => LoadedUnary(b, p, tag, operand, next);
    case Binary(tag, l, r) =>
      var q := LoadedBinary(b, p, tag, l, r, next);
      FieldsLoaded(b, p + 4, l, q);
      FieldsLoaded(b, q, r, next);
  }

  /**
   For every expression: the reader returns it, with the cursor right behind it,
   exactly where its encoding lies, whatever comes before or after.
   */
  lemma {:induction false} LoadIff(b: Buffer, p: nat, e: Expr, next: nat)
    requires p <= |b.bytes|
    ensures Load(b, p) == Some((e, next)) <==> Encodable(e) && b.Holds(p, Encode(e)) && next == p + |Encode(e)|
  {
    HoldsEncode(b, p, e);
    if Loads(b, p, e, next) {
      FieldsLoaded(b, p, e, next);
    }
    if Encodable(e) && FieldsAt(b, p, e) {
      LoadFields(b, p, e, p + Size(e));
    }
  }

  // ---------------------------------------------------------------------------
  // Evaluation
  // ---------------------------------------------------------------------------

  /** An imported global; `linked` is its value as an unsigned number of `width` bytes. */
  datatype ImportGlobal = ImportGlobal(width: nat, isMutable: bool, linked: nat)

  function Modulus(wide: bool): nat {
    if wide then 0x1_0000_0000_0000_0000 else 0x1_0000_0000
  }

  predicate IsWide(tag: byte) {
    tag == I64_CONST || I64_ADD <= tag <= I64_MUL
  }

  /** `check_global_init_expr` without GC: only immutable imports may be read. */
  predicate GlobalOk(imports: seq<ImportGlobal>, index: nat) {
    index < |imports| && !imports[index].isMutable
  }

  /** The operator of a binary tag on integers. */
  function Combine(tag: byte, a: int, b: int): int {
    if tag == I32_ADD || tag == I64_ADD then a + b
    else if tag == I32_SUB || tag == I64_SUB then a - b
    else a * b
  }

  /** One operator on the low 32 or 64 bits of its operands, wrapping around. */
  function Apply(tag: byte, l: nat, r: nat, m: nat): (v: nat)
    requires 0 < m
  {
    Combine(tag, l % m, r % m) % m
  }

  /** `get_init_value_recursive`. */
  function Eval(imports: seq<ImportGlobal>, e: Expr): (r: Option<nat>) {
    match e
    case Unary(tag, operand) =>
      if tag == GET_GLOBAL then
        if GlobalOk(imports, FromBytes(operand)) then Some(imports[FromBytes(operand)].linked) else None
      else if tag == I32_CONST || tag == I64_CONST then Some(FromBytes(operand))
      else None
    case Binary(tag, l, r) =>
      var lv := Eval(imports, l);
      if lv.None? then None
      else
        var rv := Eval(imports, r);
        if rv.None? then None else Some(Apply(tag, lv.value, rv.value, Modulus(IsWide(tag))))
  }

  /**
   The integer an expression denotes before any wrapping, by the opcodes of the
   WebAssembly binary format: global.get, i32 and i64 add, sub and mul, constants.
   */
  function Exact(imports: seq<ImportGlobal>, e: Expr): int {
    match e
    case Unary(tag, operand) =>
      var n := FromBytes(operand);
      if tag == 0x23 then if n < |imports| then imports[n].linked else 0 else n
    case Binary(tag, l, r) =>
      var (a, b) := (Exact(imports, l), Exact(imports, r));
      if tag == 0x6A || tag == 0x7C then a + b
      else if tag == 0x6B || tag == 0x7D then a - b
      else if tag == 0x6C || tag == 0x7E then a * b
      else 0
  }

  /** A type-correct 32-bit or 64-bit integer expression, by the same opcodes. */
  predicate WellTyped(imports: seq<ImportGlobal>, e: Expr, wide: bool) {
    match e
    case Unary(tag, operand) =>
      if tag == 0x23 then
        FromBytes(operand) < |imports| ==>
          var g := imports[FromBytes(operand)];
          if wide then g.width == 8 && g.linked < 0x1_0000_0000_0000_0000 else g.width == 4 && g.linked < 0x1_0000_0000
      else tag == if wide then 0x42 else 0x41
    case Binary(tag, l, r) =>
      && (if wide then 0x7C <= tag <= 0x7E else 0x6A <= tag <= 0x6C)
      && WellTyped(imports, l, wide) && WellTyped(imports, r, wide)
  }

  function Leaves(e: Expr): seq<Expr> {
    if e.Unary? then [e] else Leaves(e.l) + Leaves(e.r)
  }

  predicate LeafOk(imports: seq<ImportGlobal>, leaf: Expr) {
    && leaf.Unary?
    && (leaf.tag == 0x41 || leaf.tag == 0x42
        || (leaf.tag == 0x23 && FromBytes(leaf.operand) < |imports| && !imports[FromBytes(leaf.operand)].isMutable))
  }

  /** Evaluation fails exactly on a leaf that is neither a constant nor an immutable import. */
  lemma {:induction false} EvalDefinedIff(imports: seq<ImportGlobal>, e: Expr)
    ensures Eval(imports, e).Some? <==> forall leaf | leaf in Leaves(e) :: LeafOk(imports, leaf)
    decreases e
  {
    match e
    case Unary(_, _) =>
      assert e in Leaves(e);
    case Binary(_, l, r) =>
      EvalDefinedIff(imports, l);
      EvalDefinedIff(imports, r);
      assert forall leaf :: leaf in Leaves(e) <==> leaf in Leaves(l) || leaf in Leaves(r);
  }

  lemma ApplyIsExact(tag: byte, a: int, b: int, m: nat)
    requires 0 < m
    ensures tag == 0x6A || tag == 0x7C ==> Apply(tag, a % m, b % m, m) == (a + b) % m
    ensures tag == 0x6B || tag == 0x7D ==> Apply(tag, a % m, b % m, m) == (a - b) % m
    ensures tag == 0x6C || tag == 0x7E ==> Apply(tag, a % m, b % m, m) == (a * b) % m
  {
    ModSmall(a % m, m);
    ModSmall(b % m, m);
    if tag == I32_ADD || tag == I64_ADD {
      ModAdd(a, b, m);
    } else if tag == I32_SUB || tag == I64_SUB {
      ModSub(a, b, m);
    } else {
      ModMul(a, b, m);
    }
  }

  lemma ModSmall(x: nat, m: nat)
    requires x < m
    ensures x % m == x
  {}

  lemma {:induction false} ConstIsExact(imports: seq<ImportGlobal>, tag: byte, operand: seq<byte>, wide: bool)
    requires WellTyped(imports, Unary(tag, operand), wide) && Encodable(Unary(tag, operand))
    requires Eval(imports, Unary(tag, operand)).Some?
    ensures Eval(imports, Unary(tag, operand)).value < Modulus(wide)
    ensures Eval(imports, Unary(tag, operand)).value == Exact(imports, Unary(tag, operand))
  {
    Pow256Values();
    FromBytesBound(operand);
  }

  /** Wrapping after every operator gives the exact value wrapped once. */
  lemma {:induction false} EvalIsExact(imports: seq<ImportGlobal>, e: Expr, wide: bool, m: nat)
    requires WellTyped(imports, e, wide) && Encodable(e) && Eval(imports, e).Some? && m == Modulus(wide)
    ensures Eval(imports, e) == Some(Exact(imports, e) % m)
    decreases e
  {
    match e
    case Unary(tag, operand) =>
      ConstIsExact(imports, tag, operand, wide);
      ModSmall(Exact(imports, e), m);
    case Binary(tag, l, r) =>
      EvalIsExact(imports, l, wide, m);
      EvalIsExact(imports, r, wide, m);
      ApplyIsExact(tag, Exact(imports, l), Exact(imports, r), m);
  }

  lemma Pow256Values()
    ensures Pow256(4) == 0x1_0000_0000 && Pow256(8) == 0x1_0000_0000_0000_0000
  {
    assert Pow256(2) == 0x1_0000 && Pow256(6) == 0x1_0000_0000_0000;
  }

  /** End to end: from the stored encoding to the wrap-around meaning of the tree. */
  lemma StoredExprMeaning(b: Buffer, p: nat, e: Expr, imports: seq<ImportGlobal>, wide: bool)
    returns (loaded: Expr, next: nat)
    requires p <= |b.bytes| && Encodable(e) && b.Holds(p, Encode(e))
    requires WellTyped(imports, e, wide) && (forall leaf | leaf in Leaves(e) :: LeafOk(imports, leaf))
    ensures Load(b, p) == Some((loaded, next)) && next == p + |Encode(e)|
    ensures Eval(imports, loaded) == Some(Exact(imports, e) % Modulus(wide))
  {
    loaded, next := e, p + |Encode(e)|;
    LoadIff(b, p, e, next);
    EvalDefinedIff(imports, e);
    EvalIsExact(imports, e, wide, Modulus(wide));
  }

  /** The constant 1 of either width. */
  function One(wide: bool): Expr {
    if wide then Unary(I64_CONST, [1, 0, 0, 0, 0, 0, 0, 0]) else Unary(I32_CONST, [1, 0, 0, 0])
  }

  lemma {:induction false} OneIs(imports: seq<ImportGlobal>, wide: bool)
    ensures WellTyped(imports, One(wide), wide) && Encodable(One(wide)) && Exact(imports, One(wide)) == 1
  {
    var z: seq<byte> := if wide then [0, 0, 0, 0, 0, 0, 0] else [0, 0, 0];
    ZerosAre(z);
    assert One(wide).operand[1..] == z;
  }

  lemma {:induction false} ZerosAre(z: seq<byte>)
    requires forall i | 0 <= i < |z| :: z[i] == 0
    ensures FromBytes(z) == 0
    decreases |z|
  {
    if z != [] {
      ZerosAre(z[1..]);
    }
  }

  /** Subtraction undoes addition, in wrapping arithmetic and for every pair of trees that have a value. */
  lemma {:induction false} SubUndoesAdd(imports: seq<ImportGlobal>, l: Expr, r: Expr, wide: bool)
    requires WellTyped(imports, l, wide) && WellTyped(imports, r, wide) && Encodable(l) && Encodable(r)
    requires Eval(imports, l).Some? && Eval(imports, r).Some?
    ensures var (add, sub) := if wide then (I64_ADD, I64_SUB) else (I32_ADD, I32_SUB);
            Eval(imports, Binary(sub, Binary(add, l, r), r)) == Eval(imports, l)
  {
    var (add, sub) := if wide then (I64_ADD, I64_SUB) else (I32_ADD, I32_SUB);
    var e := Binary(sub, Binary(add, l, r), r);
    EvalIsExact(imports, l, wide, Modulus(wide));
    EvalIsExact(imports, e, wide, Modulus(wide));
    assert Exact(imports, e) == Exact(imports, l);
  }

  /** Multiplying by 1 changes nothing. */
  lemma {:induction false} MulByOne(imports: seq<ImportGlobal>, l: Expr, wide: bool)
    requires WellTyped(imports, l, wide) && Encodable(l) && Eval(imports, l).Some?
    ensures Eval(imports, Binary(if wide then I64_MUL else I32_MUL, l, One(wide))) == Eval(imports, l)
  {
    var e := Binary(if wide then I64_MUL else I32_MUL, l, One(wide));
    OneIs(imports, wide);
    EvalIsExact(imports, l, wide, Modulus(wide));
    EvalIsExact(imports, e, wide, Modulus(wide));
    assert Exact(imports, e) == Exact(imports, l) * 1;
  }
}
