/**
 * The worked examples of the commentary at the top of extensions/xt_expr.c,
 * evaluated by the model: each as written and as documented.
 */
module Examples {
  import opened Wrappers
  import opened Format
  import opened Eval
  import opened Tree

  /** `{ADD | LHIMM | RHIMM, 4, 2}`, the documented encoding of "4+2". */
  const SUM: Node := Node(OP_ADD + LHIMM + RHIMM, 4, 2)

  /** `{ADD | LHIMM, 1, NFMARK}`, the documented "packet mark plus one". */
  const MARK_PLUS_ONE: Node := Node(OP_ADD + LHIMM, 1, TYPE_NFMARK)

  /**
   * "4+2": the documentation's value is 6, and the encoder produces exactly
   * the documented node; the evaluator as written yields 0 for it.
   */
  lemma DocumentedSum(w: Width, pkt: Packet)
    ensures Encode(w, Micro(OP_ADD, Imm(4), Imm(2))) == [SUM]
    ensures BlockFits(w, [SUM])
    ensures Descend(Intended, w, pkt, [SUM], 0) == Done(6, 1)
    ensures Descend(AsWritten, w, pkt, [SUM], 0) == Done(0, 1)
  {
    assert NodeFits(w, SUM);
    FlaggedNodeYieldsZero(w, pkt, [SUM], 0);
  }

  /**
   * "mark + 1": documented as the packet mark plus one (wrapping at 2^W),
   * as written 0 for every packet.
   */
  lemma DocumentedMarkPlusOne(w: Width, pkt: Packet)
    ensures BlockFits(w, [MARK_PLUS_ONE])
    ensures Descend(Intended, w, pkt, [MARK_PLUS_ONE], 0) == Done((pkt.mark + 1) % Modulus(w), 1)
    ensures w == W64 ==> Descend(Intended, w, pkt, [MARK_PLUS_ONE], 0) == Done(pkt.mark + 1, 1)
    ensures Descend(AsWritten, w, pkt, [MARK_PLUS_ONE], 0) == Done(0, 1)
  {
    assert NodeFits(w, MARK_PLUS_ONE);
  }

  /**
   * "mark == ctmark" with two register operands and no flags: as written the
   * LH reads the RH register too, so the comparison always holds.
   */
  lemma MarkEqualsCtMark(w: Width, pkt: Packet)
    ensures BlockFits(w, [Node(OP_EQ, TYPE_NFMARK, TYPE_CTMARK)])
    ensures Descend(Intended, w, pkt, [Node(OP_EQ, TYPE_NFMARK, TYPE_CTMARK)], 0)
            == Done(if pkt.mark == RValue(pkt, TYPE_CTMARK) then 1 else 0, 1)
    ensures Descend(AsWritten, w, pkt, [Node(OP_EQ, TYPE_NFMARK, TYPE_CTMARK)], 0) == Done(1, 1)
  {
    var blk := [Node(OP_EQ, TYPE_NFMARK, TYPE_CTMARK)];
    assert NodeFits(w, blk[0]);
    LeftRegisterReadsRightSlot(w, pkt, blk, 0);
    assert !HasFlag(blk[0].op, LHIMM) && !HasFlag(blk[0].op, RHIMM);
    assert ResolveLeft(Intended, w, pkt, blk, 0) == Done(pkt.mark, 1);
    assert ResolveRight(Intended, w, pkt, blk, 0, 1) == Done(RValue(pkt, TYPE_CTMARK), 1);
  }

  /** "(1+2)+(3+4)" in preorder: the root has two subexpression operands and the two leaves follow it. */
  const NESTED: seq<Node> :=
    [Node(OP_ADD, TYPE_SUB, TYPE_SUB), Node(OP_ADD + LHIMM + RHIMM, 1, 2), Node(OP_ADD + LHIMM + RHIMM, 3, 4)]

  /** The preorder block is what the encoder produces for the tree, and it is one well-formed expression. */
  lemma NestedSumLayout(w: Width)
    ensures Encode(w, Micro(OP_ADD, Sub(Micro(OP_ADD, Imm(1), Imm(2))), Sub(Micro(OP_ADD, Imm(3), Imm(4))))) == NESTED
    ensures WellFormed(NESTED) && BlockFits(w, NESTED)
  {
    assert NodeFits(w, NESTED[0]) && NodeFits(w, NESTED[1]) && NodeFits(w, NESTED[2]);
    assert Walk(NESTED, 1) == Some(2) && Walk(NESTED, 2) == Some(3);
  }

  /** As documented the block evaluates to 10, consuming all three nodes. */
  lemma NestedSumIntended(w: Width, pkt: Packet)
    ensures BlockFits(w, NESTED)
    ensures Descend(Intended, w, pkt, NESTED, 0) == Done(10, 3)
  {
    NestedSumLayout(w);
    assert Descend(Intended, w, pkt, NESTED, 1) == Done(3, 2);
    assert Descend(Intended, w, pkt, NESTED, 2) == Done(7, 3);
  }

  /** As written both flagged leaves yield 0, and so does their sum. */
  lemma NestedSumAsWritten(w: Width, pkt: Packet)
    ensures BlockFits(w, NESTED)
    ensures Descend(AsWritten, w, pkt, NESTED, 0) == Done(0, 3)
  {
    NestedSumLayout(w);
    FlaggedNodeYieldsZero(w, pkt, NESTED, 1);
    FlaggedNodeYieldsZero(w, pkt, NESTED, 2);
  }

  /**
   * LAND evaluates both operands: a zero LH does not keep a division by zero
   * in the RH subexpression from happening.
   */
  lemma LogicalAndEvaluatesBoth(v: Variant, w: Width, pkt: Packet)
    ensures var blk := [Node(OP_LAND, TYPE_NONE, TYPE_SUB), Node(OP_DIV, TYPE_NONE, TYPE_NONE)];
            && BlockFits(w, blk) && WellFormed(blk)
            && Descend(v, w, pkt, blk, 0) == Fail(DivideByZero)
  {
    var blk := [Node(OP_LAND, TYPE_NONE, TYPE_SUB), Node(OP_DIV, TYPE_NONE, TYPE_NONE)];
    assert NodeFits(w, blk[0]) && NodeFits(w, blk[1]);
    assert Walk(blk, 1) == Some(2);
    assert ResolveLeft(v, w, pkt, blk, 0) == Done(0, 1);
    assert Descend(v, w, pkt, blk, 1) == Fail(DivideByZero);
  }

  /**
   * A block that ends inside a subexpression has no walk, and the evaluator
   * overruns it; a block with a node after its expression is not well formed
   * (the trailing node is never read).
   */
  lemma TruncatedAndTrailing(v: Variant, w: Width, pkt: Packet)
    ensures var cut := [Node(OP_ADD, TYPE_SUB, TYPE_SUB), Node(OP_NONE + LHIMM, 7, 0)];
            && BlockFits(w, cut) && Walk(cut, 0).None?
            && Descend(v, w, pkt, cut, 0) == Fail(Overrun)
    ensures var extra := [Node(OP_NONE + LHIMM, 7, 0), Node(OP_DIV, TYPE_NONE, TYPE_NONE)];
            && BlockFits(w, extra) && !WellFormed(extra) && Walk(extra, 0) == Some(1)
            && Descend(v, w, pkt, extra, 0).Done?
  {
    var cut := [Node(OP_ADD, TYPE_SUB, TYPE_SUB), Node(OP_NONE + LHIMM, 7, 0)];
    assert NodeFits(w, cut[0]) && NodeFits(w, cut[1]);
    assert Walk(cut, 1) == Some(2) && Walk(cut, 2).None?;
    assert Descend(v, w, pkt, cut, 1).Done? && Descend(v, w, pkt, cut, 1).next == 2;
    assert ResolveLeft(v, w, pkt, cut, 0).next == 2;
    assert ResolveRight(v, w, pkt, cut, 0, 2) == Fail(Overrun);
    var extra := [Node(OP_NONE + LHIMM, 7, 0), Node(OP_DIV, TYPE_NONE, TYPE_NONE)];
    assert NodeFits(w, extra[0]) && NodeFits(w, extra[1]);
  }
}
