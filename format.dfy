/**
 * The expression-match node format of extensions/xt_expr.h: opcodes, the two
 * immediate flags that are OR-ed onto an opcode, the register ids a
 * non-immediate operand slot may name, the operand width and the layout of
 * one micro-expression and of the match-info record.
 */
module Format {
  import opened BitOps

  // Opcodes, in declaration order.
  const OP_NONE: nat := 0
  const OP_ADD: nat := 1
  const OP_SUB: nat := 2
  const OP_MUL: nat := 3
  const OP_DIV: nat := 4
  const OP_MOD: nat := 5
  const OP_NEG: nat := 6
  const OP_LT: nat := 7
  const OP_LE: nat := 8
  const OP_EQ: nat := 9
  const OP_NE: nat := 10
  const OP_GT: nat := 11
  const OP_GE: nat := 12
  const OP_LNOT: nat := 13
  const OP_LAND: nat := 14
  const OP_LOR: nat := 15
  const OP_SHL: nat := 16
  const OP_SHR: nat := 17
  const OP_NOT: nat := 18
  const OP_AND: nat := 19
  const OP_OR: nat := 20
  const OP_XOR: nat := 21
  const OP_ASG: nat := 22
  const OP_OFS: nat := 23
  const OP_DEREF: nat := 24
  const OP_IF: nat := 25
  const OP_CASE: nat := 26

  /** The mask the evaluator applies to `op` before dispatching on it. */
  const OPMASK: nat := 0xFF
  /** Flag: the LH slot holds an immediate value (`1 << 6`). */
  const LHIMM: nat := 0x40
  /** Flag: the RH slot holds an immediate value (`1 << 7`). */
  const RHIMM: nat := 0x80

  // Register ids a non-immediate operand slot may hold.
  const TYPE_NONE: nat := 0
  /** Not a register: the operand is the next not-yet-consumed subexpression. */
  const TYPE_SUB: nat := 1
  const TYPE_THIS: nat := 2
  const TYPE_NFMARK: nat := 3
  const TYPE_CTMARK: nat := 4
  const TYPE_SECMARK: nat := 5
  const TYPE_L2PROTO: nat := 6
  const TYPE_L3PROTO: nat := 7
  const TYPE_L4PROTO: nat := 8
  const TYPE_L4OFFSET: nat := 9

  /** The build-time choice of `uintxp_t`: 32 bits, or 64 bits when BIG_BALLS is defined. */
  datatype Width = W32 | W64

  function WidthBits(w: Width): (n: nat)
    ensures n == 32 || n == 64
  {
    if w == W32 then 32 else 64
  }

  /** 2^W: every operand and every result is below it. */
  function Modulus(w: Width): (m: nat)
    ensures m >= 0x1_0000_0000
  {
    if w == W32 then 0x1_0000_0000 else 0x1_0000_0000_0000_0000
  }

  /** The modulus is 2 to the power of the width. */
  lemma ModulusIsPow2(w: Width)
    ensures Modulus(w) == Pow2(WidthBits(w))
  {
    Pow2Widths();
  }

  lemma Pow2Widths()
    ensures Pow2(32) == 0x1_0000_0000 && Pow2(64) == 0x1_0000_0000_0000_0000
  {
    var p8 := Pow2(8);
    assert p8 == 0x100;
    Pow2Add(8, 8);
    var p16 := Pow2(16);
    assert p16 == p8 * p8 == 0x1_0000;
    Pow2Add(16, 16);
    var p32 := Pow2(32);
    assert p32 == p16 * p16 == 0x1_0000_0000;
    Pow2Add(32, 32);
    assert Pow2(64) == p32 * p32;
  }

  /** The `__u8 op` field. */
  type Byte = x: nat | x < 0x100

  /** `struct xt_expr_micro`: an op byte and two `uintxp_t` operand slots. */
  datatype Node = Node(op: Byte, lh: nat, rh: nat)

  /** The operand slots of n are `uintxp_t` values of width w. */
  predicate NodeFits(w: Width, n: Node)
  {
    n.lh < Modulus(w) && n.rh < Modulus(w)
  }

  predicate BlockFits(w: Width, blk: seq<Node>)
  {
    forall k :: 0 <= k < |blk| ==> NodeFits(w, blk[k])
  }

  /** `struct xt_expr_mtinfo`: the `__u32` node count and the node array. */
  datatype MatchInfo = MatchInfo(items: nat, blk: seq<Node>)

  /**
   * The one-bit flag `flag` is set in op: the bit that the power of two
   * flag selects is 1. For LHIMM and RHIMM this is C's `op & flag` being
   * nonzero (FlagBits).
   */
  predicate HasFlag(op: Byte, flag: nat)
    requires flag > 0
  {
    (op / flag) % 2 == 1
  }

  /** The LH slot names a subexpression: no immediate flag and the value TYPE_SUB. */
  predicate LhIsSub(n: Node)
  {
    !HasFlag(n.op, LHIMM) && n.lh == TYPE_SUB
  }

  /** The RH slot names a subexpression: no immediate flag and the value TYPE_SUB. */
  predicate RhIsSub(n: Node)
  {
    !HasFlag(n.op, RHIMM) && n.rh == TYPE_SUB
  }

  /** The op byte that `opcode | LHIMM | RHIMM` builds (with the flags chosen by l and r). */
  function MakeOp(opcode: nat, l: bool, r: bool): (op: Byte)
    requires opcode < LHIMM
    ensures op % LHIMM == opcode
  {
    opcode + (if l then LHIMM else 0) + (if r then RHIMM else 0)
  }

  /** The opcodes are the consecutive values 0 .. 26 in declaration order. */
  lemma OpcodesConsecutive()
    ensures [OP_NONE, OP_ADD, OP_SUB, OP_MUL, OP_DIV, OP_MOD, OP_NEG, OP_LT, OP_LE,
             OP_EQ, OP_NE, OP_GT, OP_GE, OP_LNOT, OP_LAND, OP_LOR, OP_SHL, OP_SHR,
             OP_NOT, OP_AND, OP_OR, OP_XOR, OP_ASG, OP_OFS, OP_DEREF, OP_IF, OP_CASE]
            == seq(27, k => k)
  {
  }

  /**
   * The flags are the single bits 6 and 7, they differ, and every declared
   * opcode lies below both, so opcode and flags share the op byte.
   */
  lemma FlagLayout()
    ensures LHIMM == Pow2(6) && RHIMM == Pow2(7) && LHIMM != RHIMM
    ensures OP_CASE < LHIMM && LHIMM + RHIMM + (LHIMM - 1) < 0x100
  {
    assert Pow2(7) == 2 * Pow2(6);
  }

  /** OPMASK keeps the whole op byte, the immediate flags included. */
  lemma MaskKeepsOp(op: Byte)
    ensures Bitwise(And, op, OPMASK) == op
  {
    var m := Pow2(8);
    assert m == OPMASK + 1;
    AndLowMask(op, 8);
    assert op % m == op by {
      DivModUnique(op, m, 0, op);
    }
  }

  /** Masking with the six low bits leaves the opcode part of the op byte. */
  lemma LowBitsMask(op: Byte)
    ensures Bitwise(And, op, LHIMM - 1) == op % LHIMM
  {
    assert Pow2(6) == LHIMM;
    AndLowMask(op, 6);
  }

  /** The flag tests are C's `op & LHIMM` and `op & RHIMM`; RHIMM is the top bit of the byte. */
  lemma {:induction false} FlagBits(op: Byte)
    ensures HasFlag(op, LHIMM) <==> Bitwise(And, op, LHIMM) != 0
    ensures HasFlag(op, RHIMM) <==> Bitwise(And, op, RHIMM) != 0
    ensures HasFlag(op, RHIMM) <==> op >= RHIMM
  {
    assert Pow2(6) == LHIMM && Pow2(7) == RHIMM;
    AndSingleBit(op, 6);
    BitIsDigit(op, 6);
    AndSingleBit(op, 7);
    BitIsDigit(op, 7);
  }

  /** Building an op byte with MakeOp is what C's `opcode | LHIMM | RHIMM` does. */
  lemma MakeOpIsOr(opcode: nat, l: bool, r: bool)
    requires opcode < LHIMM
    ensures MakeOp(opcode, l, r)
            == Bitwise(Or, Bitwise(Or, opcode, if l then LHIMM else 0), if r then RHIMM else 0)
  {
    assert Pow2(6) == LHIMM && Pow2(7) == RHIMM;
    OrFlag(opcode, 6, l);
    OrFlag(opcode + (if l then LHIMM else 0), 7, r);
  }

  /** Setting (or not) bit k above a value below 2^k adds that bit. */
  lemma OrFlag(x: nat, k: nat, on: bool)
    requires x < Pow2(k)
    ensures Bitwise(Or, x, if on then Pow2(k) else 0) == x + (if on then Pow2(k) else 0)
  {
    OrDisjoint(x, if on then Pow2(k) else 0, k);
  }

  /** The flag tests and the low six bits give back the opcode and flags an op byte was built from. */
  lemma MakeOpRoundTrip(opcode: nat, l: bool, r: bool)
    requires opcode < LHIMM
    ensures HasFlag(MakeOp(opcode, l, r), LHIMM) == l
    ensures HasFlag(MakeOp(opcode, l, r), RHIMM) == r
    ensures Bitwise(And, MakeOp(opcode, l, r), LHIMM - 1) == opcode
  {
    var op := MakeOp(opcode, l, r);
    DivModUnique(op, LHIMM, (if l then 1 else 0) + (if r then 2 else 0), opcode);
    DivModUnique(op, RHIMM, if r then 1 else 0, opcode + (if l then LHIMM else 0));
    LowBitsMask(op);
  }

  /** Every op byte is some opcode below 64 with some choice of the two flags. */
  lemma OpDecomposes(op: Byte)
    ensures op == MakeOp(op % LHIMM, HasFlag(op, LHIMM), HasFlag(op, RHIMM))
  {
  }
}
