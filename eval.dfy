/**
 * The evaluator of extensions/xt_expr.c: the register resolver
 * (`xt_expr_rvalue`), the operator switch, the recursive preorder walk
 * (`xt_expr_descend`) and the match decision (`xt_expr_mt`).
 *
 * The evaluator is modelled as written in two places where it departs from
 * its own documentation, and the documented behaviour is kept beside it as a
 * second Variant:
 *   - it dispatches on `op & 0xFF`, which keeps the immediate flags, so every
 *     node that carries LHIMM or RHIMM falls to the default case and yields 0
 *     (Intended masks with 0x3F instead);
 *   - a non-immediate, non-subexpression LH reads the register named by the
 *     RH slot (Intended reads the LH slot).
 * A third departure, in `xt_expr_mt`, hands the evaluator the match-info
 * record instead of its node array: Match evaluates the node array and
 * MatchAsWritten the record.
 */
module Eval {
  import opened Wrappers
  import opened BitOps
  import opened Format

  type U32 = x: nat | x < 0x1_0000_0000

  /** The connection-tracking entry of a packet: only its mark is read. */
  datatype Conntrack = Conntrack(mark: U32)

  /** What the resolver reads from a packet; l3proto is taken after byte-order conversion. */
  datatype Packet = Packet(mark: U32, conntrack: Option<Conntrack>, l3proto: U32)

  /** Why an evaluation has no value. */
  datatype Fault =
    | Overrun       // a subexpression operand points past the end of the block
    | DivideByZero  // DIV or MOD with a zero RH: undefined in C
    | ShiftTooWide  // SHL or SHR by W or more: undefined in C

  /** The result of evaluating one expression block: its value and the cursor just past it. */
  datatype Outcome = Done(value: nat, next: nat) | Fail(fault: Fault)

  /** The evaluator as written, or as its documentation describes it. */
  datatype Variant = AsWritten | Intended

  /** Mask that removes the two flag bits from an op byte (what the documentation assumes). */
  const OPCODE_BITS: nat := 0x3F

  /**
   * `xt_expr_rvalue`: the packet mark, the connection mark (0 without a
   * conntrack entry), the layer-3 protocol, and 0 for every other register.
   */
  function RValue(pkt: Packet, reg: U32): (r: U32)
    ensures r != 0 ==> reg == TYPE_NFMARK || reg == TYPE_CTMARK || reg == TYPE_L3PROTO
    ensures reg == TYPE_CTMARK && pkt.conntrack.None? ==> r == 0
  {
    if reg == TYPE_NFMARK then pkt.mark
    else if reg == TYPE_CTMARK then
      (match pkt.conntrack
       case Some(ct) => ct.mark
       case None => 0)
    else if reg == TYPE_L3PROTO then pkt.l3proto
    else 0
  }

  /** The resolver takes its register as an `unsigned int`: a 64-bit slot is truncated to 32 bits. */
  function RegisterArg(slot: nat): (reg: U32)
    ensures slot < 0x1_0000_0000 ==> reg == slot
  {
    slot % 0x1_0000_0000
  }

  /** The mask the switch applies to the op byte. */
  function OpMask(v: Variant): (m: nat)
  {
    if v == AsWritten then OPMASK else OPCODE_BITS
  }

  /**
   * The value the switch dispatches on, `op & mask`. Both masks are runs of
   * low one bits, so the `&` keeps the remainder modulo mask + 1
   * (OpcodeIsAnd proves it equal to the bitwise and).
   */
  function Opcode(v: Variant, op: Byte): (opcode: nat)
  {
    op % (OpMask(v) + 1)
  }

  /** The slot whose register a non-immediate, non-subexpression LH reads. */
  function LhRegisterSlot(v: Variant, mx: Node): (slot: nat)
  {
    if v == AsWritten then mx.rh else mx.lh
  }

  /** The operations whose C meaning is undefined for some RH values. */
  predicate Traps(w: Width, opcode: nat, rh: nat)
  {
    || ((opcode == OP_DIV || opcode == OP_MOD) && rh == 0)
    || ((opcode == OP_SHL || opcode == OP_SHR) && rh >= WidthBits(w))
  }

  /**
   * The operator switch on `uintxp_t` operands: wrap-around arithmetic,
   * 0/1 comparisons and logic, bit operations, and 0 for every other opcode.
   * The cases C leaves undefined are failures.
   */
  function Apply(w: Width, opcode: nat, lh: nat, rh: nat): (r: Result<nat, Fault>)
    requires lh < Modulus(w) && rh < Modulus(w)
    ensures r.Success? ==> r.value < Modulus(w)
    ensures r.Failure? <==> Traps(w, opcode, rh)
  {
    if opcode <= OP_NEG then Arithmetic(w, opcode, lh, rh)
    else if opcode <= OP_LOR then Success(Logical(opcode, lh, rh))
    else if opcode <= OP_XOR then BitLevel(w, opcode, lh, rh)
    else Success(0)
  }

  /** Reduction of a mathematical result to `uintxp_t`, as C's unsigned arithmetic does. */
  function Wrap(w: Width, x: int): (r: nat)
    ensures r < Modulus(w)
  {
    x % Modulus(w)
  }

  /** NONE, ADD, SUB, MUL, DIV, MOD and NEG. */
  function Arithmetic(w: Width, opcode: nat, lh: nat, rh: nat): (r: Result<nat, Fault>)
    requires opcode <= OP_NEG
    requires lh < Modulus(w) && rh < Modulus(w)
    ensures r.Success? ==> r.value < Modulus(w)
    ensures r.Failure? <==> Traps(w, opcode, rh)
  {
    if opcode == OP_NONE then Success(lh)
    else if opcode == OP_ADD then Success(Wrap(w, lh + rh))
    else if opcode == OP_SUB then Success(Wrap(w, lh - rh))
    else if opcode == OP_MUL then Success(Wrap(w, lh * rh))
    else if opcode == OP_DIV then (if rh == 0 then Failure(DivideByZero) else Success(Quotient(lh, rh)))
    else if opcode == OP_MOD then (if rh == 0 then Failure(DivideByZero) else Success(lh % rh))
    else Success(Wrap(w, 0 - lh))
  }

  /** LT, LE, EQ, NE, GT, GE, LNOT, LAND and LOR. */
  function Logical(opcode: nat, lh: nat, rh: nat): (r: nat)
    requires OP_LT <= opcode <= OP_LOR
    ensures r <= 1
  {
    if opcode == OP_LT then (if lh < rh then 1 else 0)
    else if opcode == OP_LE then (if lh <= rh then 1 else 0)
    else if opcode == OP_EQ then (if lh == rh then 1 else 0)
    else if opcode == OP_NE then (if lh != rh then 1 else 0)
    else if opcode == OP_GT then (if lh > rh then 1 else 0)
    else if opcode == OP_GE then (if lh >= rh then 1 else 0)
    else if opcode == OP_LNOT then (if lh == 0 then 1 else 0)
    else if opcode == OP_LAND then (if lh != 0 && rh != 0 then 1 else 0)
    else if lh != 0 || rh != 0 then 1 else 0
  }

  /** SHL, SHR, NOT, AND, OR and XOR. */
  function BitLevel(w: Width, opcode: nat, lh: nat, rh: nat): (r: Result<nat, Fault>)
    requires OP_SHL <= opcode <= OP_XOR
    requires lh < Modulus(w) && rh < Modulus(w)
    ensures r.Success? ==> r.value < Modulus(w)
    ensures r.Failure? <==> Traps(w, opcode, rh)
  {
    if opcode <= OP_SHR then Shift(w, opcode == OP_SHL, lh, rh)
    else if opcode == OP_NOT then Success(Not(w, lh))
    else
      var c := if opcode == OP_AND then And else if opcode == OP_OR then Or else Xor;
      Success(Logic(w, c, lh, rh))
  }

  /** SHL (left) and SHR: a shift by the operand width or more is undefined in C. */
  function Shift(w: Width, left: bool, lh: nat, rh: nat): (r: Result<nat, Fault>)
    requires lh < Modulus(w)
    ensures r.Success? ==> r.value < Modulus(w)
    ensures r.Failure? <==> rh >= WidthBits(w)
  {
    if rh >= WidthBits(w) then Failure(ShiftTooWide)
    else if left then Success(Wrap(w, lh * Pow2(rh)))
    else Success(Quotient(lh, Pow2(rh)))
  }

  /** Unsigned division, which never exceeds the dividend. */
  function Quotient(x: nat, d: nat): (r: nat)
    requires d >= 1
    ensures r <= x
  {
    DivBelow(x, d);
    x / d
  }

  /** NOT: the complement within the operand width. */
  function Not(w: Width, lh: nat): (r: nat)
    requires lh < Modulus(w)
    ensures r < Modulus(w)
  {
    ModulusIsPow2(w);
    ComplementValue(WidthBits(w), lh);
    Complement(WidthBits(w), lh)
  }

  /** AND, OR and XOR of two operands of the width. */
  function Logic(w: Width, c: Connective, lh: nat, rh: nat): (r: nat)
    requires lh < Modulus(w) && rh < Modulus(w)
    ensures r < Modulus(w)
  {
    ModulusIsPow2(w);
    BitwiseBound(c, lh, rh, WidthBits(w));
    Bitwise(c, lh, rh)
  }

  /** Opcode computes C's `op & OPMASK` and `op & 0x3F`. */
  lemma OpcodeIsAnd(op: Byte)
    ensures Opcode(AsWritten, op) == Bitwise(And, op, OPMASK)
    ensures Opcode(Intended, op) == Bitwise(And, op, OPCODE_BITS)
  {
    OpcodeOfByte(op);
    MaskKeepsOp(op);
    LowBitsMask(op);
  }

  /**
   * The opcode the switch sees: the whole byte as written, the low six bits
   * as intended; as written, a byte with either flag is beyond every case.
   */
  lemma OpcodeOfByte(op: Byte)
    ensures Opcode(AsWritten, op) == op
    ensures Opcode(Intended, op) == op % LHIMM
    ensures HasFlag(op, LHIMM) || HasFlag(op, RHIMM) ==> Opcode(AsWritten, op) > OP_XOR
  {
  }

  /** Comparisons and logical operators yield exactly 0 or 1, whatever the operands. */
  lemma ComparisonsYieldZeroOrOne(w: Width, opcode: nat, lh: nat, rh: nat)
    requires OP_LT <= opcode <= OP_LOR
    requires lh < Modulus(w) && rh < Modulus(w)
    ensures Apply(w, opcode, lh, rh) == Success(0) || Apply(w, opcode, lh, rh) == Success(1)
  {
  }

  /**
   * NE serves as logical exclusive or (the header defines no LXOR) for
   * operands that are truth values, but not for arbitrary ones.
   */
  lemma NeIsLogicalXor(w: Width, lh: nat, rh: nat)
    requires lh <= 1 && rh <= 1
    ensures Apply(w, OP_NE, lh, rh) == Success(if (lh != 0) != (rh != 0) then 1 else 0)
    ensures Apply(w, OP_NE, 2, 1) == Success(1) && (2 != 0) == (1 != 0)
  {
  }

  /** ADD is the sum, less 2^W when the sum does not fit. */
  lemma AddWraps(w: Width, lh: nat, rh: nat)
    requires lh < Modulus(w) && rh < Modulus(w)
    ensures Apply(w, OP_ADD, lh, rh) == Success(if lh + rh < Modulus(w) then lh + rh else lh + rh - Modulus(w))
  {
    WrapNear(w, lh + rh);
  }

  /** SUB is the difference, plus 2^W when it is negative. */
  lemma SubWraps(w: Width, lh: nat, rh: nat)
    requires lh < Modulus(w) && rh < Modulus(w)
    ensures Apply(w, OP_SUB, lh, rh) == Success(if rh <= lh then lh - rh else lh - rh + Modulus(w))
  {
    WrapNear(w, lh - rh);
  }

  /** NEG is 2^W - x, except that 0 stays 0. */
  lemma NegWraps(w: Width, lh: nat, rh: nat)
    requires lh < Modulus(w) && rh < Modulus(w)
    ensures Apply(w, OP_NEG, lh, rh) == Success(if lh == 0 then 0 else Modulus(w) - lh)
  {
    WrapNear(w, 0 - lh);
  }

  /** MUL is the product when it fits, and otherwise the product reduced modulo 2^W. */
  lemma MulWraps(w: Width, lh: nat, rh: nat)
    requires lh < Modulus(w) && rh < Modulus(w)
    ensures Apply(w, OP_MUL, lh, rh).Success?
    ensures lh * rh < Modulus(w) ==> Apply(w, OP_MUL, lh, rh) == Success(lh * rh)
  {
    if lh * rh < Modulus(w) {
      WrapNear(w, lh * rh);
    }
  }

  /** Reducing a value less than one modulus away from [0, 2^W) moves it by at most one modulus. */
  lemma WrapNear(w: Width, x: int)
    requires 0 <= x + Modulus(w) && x < 2 * Modulus(w)
    ensures Wrap(w, x) == x || Wrap(w, x) == x - Modulus(w) || Wrap(w, x) == x + Modulus(w)
    ensures 0 <= x < Modulus(w) ==> Wrap(w, x) == x
  {
    var m := Modulus(w);
    if x < 0 {
      assert x == m * (-1) + (x + m);
    } else if x < m {
      DivModUnique(x, m, 0, x);
    } else {
      DivModUnique(x, m, 1, x - m);
    }
  }

  /** Bitwise NOT is 2^W - 1 - x. */
  lemma NotIsComplement(w: Width, lh: nat, rh: nat)
    requires lh < Modulus(w) && rh < Modulus(w)
    ensures Apply(w, OP_NOT, lh, rh) == Success(Modulus(w) - 1 - lh)
  {
    ModulusIsPow2(w);
    ComplementValue(WidthBits(w), lh);
  }

  /** NONE, NEG, LNOT and NOT ignore RH; NONE passes LH through. */
  lemma UnaryIgnoresRh(w: Width, opcode: nat, lh: nat, rh: nat, rh': nat)
    requires opcode == OP_NONE || opcode == OP_NEG || opcode == OP_LNOT || opcode == OP_NOT
    requires lh < Modulus(w) && rh < Modulus(w) && rh' < Modulus(w)
    ensures Apply(w, opcode, lh, rh) == Apply(w, opcode, lh, rh')
    ensures opcode == OP_NONE ==> Apply(w, opcode, lh, rh) == Success(lh)
  {
  }

  /** Every opcode after XOR (ASG, OFS, DEREF, IF, CASE and anything larger) yields 0. */
  lemma UnknownOpcodeYieldsZero(w: Width, opcode: nat, lh: nat, rh: nat)
    requires opcode > OP_XOR
    requires lh < Modulus(w) && rh < Modulus(w)
    ensures Apply(w, opcode, lh, rh) == Success(0)
  {
  }

  lemma DivBelow(x: nat, d: nat)
    requires d >= 1
    ensures 0 <= x / d <= x
  {
  }

  /**
   * `xt_expr_descend`: evaluate the expression block that starts at index i.
   * LH is resolved first and then RH, continuing from wherever LH left the
   * cursor; then the operator is applied. The result carries the cursor just
   * past the consumed block.
   */
  function Descend(v: Variant, w: Width, pkt: Packet, blk: seq<Node>, i: nat): (r: Outcome)
    requires BlockFits(w, blk)
    ensures r.Done? ==> i < r.next <= |blk| && r.value < Modulus(w)
    decreases |blk| - i, 1
  {
    if |blk| <= i then Fail(Overrun)
    else
      var left := ResolveLeft(v, w, pkt, blk, i);
      if left.Fail? then left
      else
        var right := ResolveRight(v, w, pkt, blk, i, left.next);
        if right.Fail? then right
        else Finish(w, Opcode(v, blk[i].op), left.value, right.value, right.next)
  }

  /**
   * The LH of the node at i. With LHIMM set it is the slot itself; else a
   * slot equal to TYPE_SUB is the subexpression that starts right after the
   * node; else it is the register the variant reads.
   */
  function ResolveLeft(v: Variant, w: Width, pkt: Packet, blk: seq<Node>, i: nat): (r: Outcome)
    requires BlockFits(w, blk) && i < |blk|
    ensures r.Done? ==> i < r.next <= |blk| && r.value < Modulus(w)
    ensures !LhIsSub(blk[i]) ==> r.Done? && r.next == i + 1
    decreases |blk| - i, 0
  {
    var mx := blk[i];
    assert NodeFits(w, mx);
    if HasFlag(mx.op, LHIMM) then Done(mx.lh, i + 1)
    else if mx.lh == TYPE_SUB then Descend(v, w, pkt, blk, i + 1)
    else Done(RValue(pkt, RegisterArg(LhRegisterSlot(v, mx))), i + 1)
  }

  /**
   * The RH of the node at i, with the cursor at mid (just past the LH): the
   * immediate, the subexpression that starts at mid, or the register named
   * by the RH slot.
   */
  function ResolveRight(v: Variant, w: Width, pkt: Packet, blk: seq<Node>, i: nat, mid: nat): (r: Outcome)
    requires BlockFits(w, blk) && i < mid <= |blk|
    ensures r.Done? ==> mid <= r.next <= |blk| && r.value < Modulus(w)
    ensures !RhIsSub(blk[i]) ==> r.Done? && r.next == mid
    decreases |blk| - i, 0
  {
    var mx := blk[i];
    assert NodeFits(w, mx);
    if HasFlag(mx.op, RHIMM) then Done(mx.rh, mid)
    else if mx.rh == TYPE_SUB then Descend(v, w, pkt, blk, mid)
    else Done(RValue(pkt, RegisterArg(mx.rh)), mid)
  }

  /** Apply the operator to the resolved operands; the cursor stays where RH left it. */
  function Finish(w: Width, opcode: nat, lh: nat, rh: nat, next: nat): (r: Outcome)
    requires lh < Modulus(w) && rh < Modulus(w)
    ensures r.Done? ==> r.next == next && r.value < Modulus(w)
    ensures r.Fail? <==> Traps(w, opcode, rh)
    ensures r.Fail? ==> r.fault != Overrun
  {
    match Apply(w, opcode, lh, rh)
    case Failure(f) => Fail(f)
    case Success(x) => Done(x, next)
  }

  /**
   * The cursor movement of Descend without the values: the index just past
   * the expression block that starts at i, or None when it runs off the end.
   */
  function Walk(blk: seq<Node>, i: nat): (r: Option<nat>)
    ensures r.Some? ==> i < r.value <= |blk|
    decreases |blk| - i
  {
    if |blk| <= i then None
    else
      var mx := blk[i];
      var afterLeft := if LhIsSub(mx) then Walk(blk, i + 1) else Some(i + 1);
      if afterLeft.None? then None
      else if RhIsSub(mx) then Walk(blk, afterLeft.value)
      else afterLeft
  }

  /** The block is exactly one expression tree: the walk from 0 ends at its end. */
  predicate WellFormed(blk: seq<Node>)
  {
    Walk(blk, 0) == Some(|blk|)
  }

  predicate TrapOpcode(opcode: nat)
  {
    opcode == OP_DIV || opcode == OP_MOD || opcode == OP_SHL || opcode == OP_SHR
  }

  /** No node of the block dispatches to an operator with undefined cases. */
  predicate NoTrap(v: Variant, blk: seq<Node>)
  {
    forall k :: 0 <= k < |blk| ==> !TrapOpcode(Opcode(v, blk[k].op))
  }

  /**
   * The evaluator consumes exactly what the value-free walk consumes: where
   * it succeeds it stops where the walk stops, it can only overrun where the
   * walk overruns, and without trapping operators it succeeds wherever the
   * walk does. So the cursor never depends on the opcodes or the values.
   */
  lemma {:induction false} WalkAgrees(v: Variant, w: Width, pkt: Packet, blk: seq<Node>, i: nat)
    requires BlockFits(w, blk)
    ensures Walk(blk, i).None? ==> Descend(v, w, pkt, blk, i).Fail?
    ensures Descend(v, w, pkt, blk, i).Done? ==> Walk(blk, i) == Some(Descend(v, w, pkt, blk, i).next)
    ensures Descend(v, w, pkt, blk, i) == Fail(Overrun) ==> Walk(blk, i).None?
    ensures NoTrap(v, blk) && Walk(blk, i).Some? ==> Descend(v, w, pkt, blk, i).Done?
    decreases |blk| - i
  {
    if i < |blk| {
      var mx := blk[i];
      if LhIsSub(mx) {
        WalkAgrees(v, w, pkt, blk, i + 1);
      }
      var left := ResolveLeft(v, w, pkt, blk, i);
      if left.Done? {
        if RhIsSub(mx) {
          WalkAgrees(v, w, pkt, blk, left.next);
        }
        var right := ResolveRight(v, w, pkt, blk, i, left.next);
        assert right.Done? ==> Walk(blk, i) == Some(right.next);
      }
    }
  }

  /**
   * `xt_expr_mt` on the node array it evidently means to evaluate: the
   * packet matches when the block evaluates to a nonzero value. The node
   * count of the match info is not consulted. None stands for the
   * evaluations whose C behaviour is undefined. The call as written hands
   * the evaluator the match-info record instead (MatchAsWritten).
   */
  function Match(v: Variant, w: Width, pkt: Packet, info: MatchInfo): (r: Option<bool>)
    requires BlockFits(w, info.blk)
    ensures r.Some? ==> Walk(info.blk, 0).Some?
    ensures WellFormed(info.blk) && NoTrap(v, info.blk) ==> r.Some?
  {
    WalkAgrees(v, w, pkt, info.blk, 0);
    match Descend(v, w, pkt, info.blk, 0)
    case Done(x, _) => Some(x != 0)
    case Fail(_) => None
  }

  /**
   * The node the evaluator finds at the address of the match-info record,
   * with 32-bit slots on a little-endian machine: the op byte is the low
   * byte of `items`, the LH slot is the four padding bytes before the
   * 8-aligned `blk` pointer, and the RH slot is the low word of `blk`.
   */
  function HeaderNode(items: nat, pad: U32, blkLow: U32): (mx: Node)
  {
    Node(items % 0x100, pad, blkLow)
  }

  /**
   * `xt_expr_mt` as written: it passes `par->matchinfo`, the record itself,
   * so the evaluator reads the record as a one-node block. The memory after
   * the record is modelled as the end of the block, and the node array
   * `info.blk` is never read.
   */
  function MatchAsWritten(pkt: Packet, info: MatchInfo, pad: U32, blkLow: U32): (r: Option<bool>)
  {
    var header := [HeaderNode(info.items, pad, blkLow)];
    assert NodeFits(W32, header[0]);
    Match(AsWritten, W32, pkt, MatchInfo(info.items, header))
  }

  /**
   * With zero padding and an 8-aligned node array, the verdict as written
   * depends only on the low byte of the node count: every rule of 4 nodes
   * (a DIV of two zero registers) fails on every packet, and every rule of
   * 9 nodes (EQ of the same register) matches every packet, whatever its
   * nodes hold.
   */
  lemma MatchReadsHeader(pkt: Packet, info: MatchInfo, info': MatchInfo, blkLow: U32)
    requires blkLow % 8 == 0
    ensures info.items == info'.items ==> MatchAsWritten(pkt, info, 0, blkLow) == MatchAsWritten(pkt, info', 0, blkLow)
    ensures info.items % 0x100 == OP_DIV ==> MatchAsWritten(pkt, info, 0, blkLow) == None
    ensures info.items % 0x100 == OP_EQ ==> MatchAsWritten(pkt, info, 0, blkLow) == Some(true)
  {
    var mx := HeaderNode(info.items, 0, blkLow);
    var header := [mx];
    assert NodeFits(W32, mx);
    assert RValue(pkt, RegisterArg(blkLow)) == 0;
    if mx.op == OP_DIV || mx.op == OP_EQ {
      assert !HasFlag(mx.op, LHIMM) && !HasFlag(mx.op, RHIMM);
      assert Opcode(AsWritten, mx.op) == mx.op;
      assert ResolveLeft(AsWritten, W32, pkt, header, 0) == Done(0, 1);
      assert ResolveRight(AsWritten, W32, pkt, header, 0, 1) == Done(0, 1);
    }
  }

  /**
   * As written, a node carrying an immediate flag dispatches to the default
   * case: whatever its operands, its value is 0, and with both flags set it
   * consumes only itself.
   */
  lemma FlaggedNodeYieldsZero(w: Width, pkt: Packet, blk: seq<Node>, i: nat)
    requires BlockFits(w, blk) && i < |blk|
    requires HasFlag(blk[i].op, LHIMM) || HasFlag(blk[i].op, RHIMM)
    ensures Descend(AsWritten, w, pkt, blk, i).Done? ==> Descend(AsWritten, w, pkt, blk, i).value == 0
    ensures HasFlag(blk[i].op, LHIMM) && HasFlag(blk[i].op, RHIMM) ==>
              Descend(AsWritten, w, pkt, blk, i) == Done(0, i + 1)
  {
    OpcodeOfByte(blk[i].op);
  }

  /**
   * As written, a register LH reads the register named by the RH slot, so
   * comparing two different registers for equality always yields 1.
   */
  lemma LeftRegisterReadsRightSlot(w: Width, pkt: Packet, blk: seq<Node>, i: nat)
    requires BlockFits(w, blk) && i < |blk|
    requires blk[i].op == OP_EQ && blk[i].lh != TYPE_SUB && blk[i].rh != TYPE_SUB
    ensures Descend(AsWritten, w, pkt, blk, i) == Done(1, i + 1)
  {
    var op := blk[i].op;
    assert !HasFlag(op, LHIMM) && !HasFlag(op, RHIMM) by {
      FlagBits(op);
    }
    OpcodeOfByte(op);
  }

  /** The node reads the same operands in both variants. */
  predicate Unaffected(n: Node)
  {
    n.op < LHIMM && (n.lh == TYPE_SUB || RegisterArg(n.lh) == RegisterArg(n.rh))
  }

  /**
   * Where no node carries a flag and no register LH differs from its RH
   * slot, the evaluator as written computes what the intended one does.
   */
  lemma {:induction false} VariantsAgree(w: Width, pkt: Packet, blk: seq<Node>, i: nat)
    requires BlockFits(w, blk)
    requires forall k :: 0 <= k < |blk| ==> Unaffected(blk[k])
    ensures Descend(AsWritten, w, pkt, blk, i) == Descend(Intended, w, pkt, blk, i)
    decreases |blk| - i
  {
    if i < |blk| {
      var mx := blk[i];
      assert Unaffected(mx) && NodeFits(w, mx);
      assert Opcode(AsWritten, mx.op) == Opcode(Intended, mx.op) == mx.op;
      if LhIsSub(mx) {
        VariantsAgree(w, pkt, blk, i + 1);
      }
      assert ResolveLeft(AsWritten, w, pkt, blk, i) == ResolveLeft(Intended, w, pkt, blk, i);
      var left := ResolveLeft(Intended, w, pkt, blk, i);
      if RhIsSub(mx) && left.Done? {
        VariantsAgree(w, pkt, blk, left.next);
      }
    }
  }

  /**
   * A node whose two operands are subexpressions is followed by its LH
   * block, which is followed by its RH block, which ends where the node's
   * block ends.
   */
  lemma SubtreeLayout(blk: seq<Node>, i: nat)
    requires i < |blk| && LhIsSub(blk[i]) && RhIsSub(blk[i]) && Walk(blk, i).Some?
    ensures Walk(blk, i + 1).Some?
    ensures Walk(blk, Walk(blk, i + 1).value) == Walk(blk, i)
  {
  }
}
