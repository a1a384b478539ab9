/**
 * The expression tree that an expression block serializes in preorder
 * (node, then LH subtree, then RH subtree), with the meaning the
 * documentation of extensions/xt_expr.c gives it: an immediate is itself, a
 * register is read from the packet, a subexpression is evaluated, and the
 * opcode is the op byte without its flag bits.
 *
 * Encode serializes a tree the way the documented examples do, Decode
 * recovers the tree from a block by the evaluator's own walk, and the two
 * are inverse. The intended evaluator computes the tree's meaning on every
 * block that encodes a tree; this is the reference the as-written evaluator
 * is compared with.
 */
module Tree {
  import opened Wrappers
  import opened Format
  import opened Eval

  /** An operand slot together with its immediate flag, as a tagged value. */
  datatype Operand = Imm(value: nat) | Register(reg: nat) | Sub(e: Expr)

  /** One micro-expression: a six-bit opcode and two operands. */
  datatype Expr = Micro(opcode: nat, lh: Operand, rh: Operand)

  /** The tree can be serialized at width w: opcodes below the flag bits, slots that fit. */
  predicate ValidExpr(w: Width, e: Expr)
    decreases e, 1
  {
    e.opcode < LHIMM && ValidOperand(w, e.lh) && ValidOperand(w, e.rh)
  }

  predicate ValidOperand(w: Width, o: Operand)
    decreases o, 0
  {
    match o
    case Imm(x) => x < Modulus(w)
    case Register(reg) => reg != TYPE_SUB && reg < Modulus(w)
    case Sub(e) => ValidExpr(w, e)
  }

  /** The value an operand stores in its slot. */
  function Slot(o: Operand): (slot: nat)
  {
    match o
    case Imm(x) => x
    case Register(reg) => reg
    case Sub(_) => TYPE_SUB
  }

  /** The node a tree is serialized to: its opcode with the operands' immediate flags, and their slots. */
  function Root(e: Expr): (mx: Node)
    requires e.opcode < LHIMM
  {
    Node(MakeOp(e.opcode, e.lh.Imm?, e.rh.Imm?), Slot(e.lh), Slot(e.rh))
  }

  /** The nodes an operand appends after its parent: its subtree, if it has one. */
  function Children(w: Width, o: Operand): (nodes: seq<Node>)
    requires ValidOperand(w, o)
    decreases o, 0
  {
    match o
    case Sub(e) => Encode(w, e)
    case _ => []
  }

  /** Preorder serialization: the node, the LH subtree, the RH subtree. */
  function Encode(w: Width, e: Expr): (blk: seq<Node>)
    requires ValidExpr(w, e)
    decreases e, 1
  {
    [Root(e)] + Children(w, e.lh) + Children(w, e.rh)
  }

  /** The number of nodes an operand appends after its parent. */
  function OperandNodes(o: Operand): (n: nat)
    decreases o, 0
  {
    match o
    case Sub(e) => NodeCount(e)
    case _ => 0
  }

  /** The number of nodes of a tree. */
  function NodeCount(e: Expr): (n: nat)
    decreases e, 1
  {
    1 + OperandNodes(e.lh) + OperandNodes(e.rh)
  }

  /**
   * The encoding of e sits in blk at index i, stated node by node: the
   * root at i, the LH subtree right after it, the RH subtree after that.
   */
  predicate Placed(w: Width, e: Expr, blk: seq<Node>, i: nat)
    decreases e, 1
  {
    && ValidExpr(w, e)
    && i + NodeCount(e) <= |blk|
    && blk[i] == Root(e)
    && OperandPlaced(w, e.lh, blk, i + 1)
    && OperandPlaced(w, e.rh, blk, i + 1 + OperandNodes(e.lh))
  }

  predicate OperandPlaced(w: Width, o: Operand, blk: seq<Node>, j: nat)
    decreases o, 0
  {
    match o
    case Sub(e) => Placed(w, e, blk, j)
    case _ => true
  }

  /** The intended meaning of an operand. */
  function EvalOperand(w: Width, pkt: Packet, o: Operand): (r: Result<nat, Fault>)
    requires ValidOperand(w, o)
    ensures r.Success? ==> r.value < Modulus(w)
    decreases o, 0
  {
    match o
    case Imm(x) => Success(x)
    case Register(reg) => Success(RValue(pkt, RegisterArg(reg)))
    case Sub(e) => EvalExpr(w, pkt, e)
  }

  /** The intended meaning of a tree: LH, then RH, then the operator; the first failure wins. */
  function EvalExpr(w: Width, pkt: Packet, e: Expr): (r: Result<nat, Fault>)
    requires ValidExpr(w, e)
    ensures r.Success? ==> r.value < Modulus(w)
    ensures r.Failure? ==> r.error != Overrun
    decreases e, 1
  {
    Combined(w, e.opcode, EvalOperand(w, pkt, e.lh), EvalOperand(w, pkt, e.rh))
  }

  /** The operator applied to two operand meanings; a failing operand, LH first, wins. */
  function Combined(w: Width, opcode: nat, left: Result<nat, Fault>, right: Result<nat, Fault>): (r: Result<nat, Fault>)
    requires Below(w, left) && Below(w, right)
    ensures r.Success? ==> r.value < Modulus(w)
    ensures r.Failure? ==> r.error != Overrun || left == Failure(Overrun) || right == Failure(Overrun)
  {
    match left
    case Failure(f) => Failure(f)
    case Success(l) =>
      match right
      case Failure(f) => Failure(f)
      case Success(x) => Apply(w, opcode, l, x)
  }

  /** A meaning that is a value fits the width. */
  predicate Below(w: Width, res: Result<nat, Fault>)
  {
    res.Success? ==> res.value < Modulus(w)
  }

  /** The outcome the evaluator should report for a tree occupying [start, end). */
  function Expected(res: Result<nat, Fault>, end: nat): (r: Outcome)
  {
    match res
    case Success(x) => Done(x, end)
    case Failure(f) => Fail(f)
  }

  /** The operand a non-subexpression slot denotes. */
  function Leaf(slot: nat, imm: bool): (o: Operand)
  {
    if imm then Imm(slot) else Register(slot)
  }

  /**
   * Recover the tree serialized at index i, following the evaluator's
   * walk, together with the index just past it.
   */
  function Decode(blk: seq<Node>, i: nat): (r: Option<(Expr, nat)>)
    ensures r.Some? ==> i < r.value.1 <= |blk|
    decreases |blk| - i, 1
  {
    if |blk| <= i then None
    else
      match DecodeLeft(blk, i)
      case None => None
      case Some((l, mid)) =>
        match DecodeRight(blk, i, mid)
        case None => None
        case Some((r, end)) => Some((Micro(blk[i].op % LHIMM, l, r), end))
  }

  /** The LH operand of the node at i: a leaf, or the tree serialized right after the node. */
  function DecodeLeft(blk: seq<Node>, i: nat): (r: Option<(Operand, nat)>)
    requires i < |blk|
    ensures r.Some? ==> i < r.value.1 <= |blk|
    ensures !LhIsSub(blk[i]) ==> r == Some((Leaf(blk[i].lh, HasFlag(blk[i].op, LHIMM)), i + 1))
    decreases |blk| - i, 0
  {
    var mx := blk[i];
    if LhIsSub(mx) then
      match Decode(blk, i + 1)
      case None => None
      case Some((e, n)) => Some((Sub(e), n))
    else Some((Leaf(mx.lh, HasFlag(mx.op, LHIMM)), i + 1))
  }

  /** The RH operand of the node at i, with the cursor at mid: a leaf, or the tree serialized at mid. */
  function DecodeRight(blk: seq<Node>, i: nat, mid: nat): (r: Option<(Operand, nat)>)
    requires i < mid <= |blk|
    ensures r.Some? ==> mid <= r.value.1 <= |blk|
    ensures !RhIsSub(blk[i]) ==> r == Some((Leaf(blk[i].rh, HasFlag(blk[i].op, RHIMM)), mid))
    decreases |blk| - i, 0
  {
    var mx := blk[i];
    if RhIsSub(mx) then
      match Decode(blk, mid)
      case None => None
      case Some((e, n)) => Some((Sub(e), n))
    else Some((Leaf(mx.rh, HasFlag(mx.op, RHIMM)), mid))
  }

  /** The root node reports the opcode and the operands' kinds through its op byte and slots. */
  lemma RootNode(w: Width, e: Expr)
    requires ValidExpr(w, e)
    ensures var mx := Root(e);
      && mx.op % LHIMM == e.opcode
      && HasFlag(mx.op, LHIMM) == e.lh.Imm? && HasFlag(mx.op, RHIMM) == e.rh.Imm?
      && LhIsSub(mx) == e.lh.Sub? && RhIsSub(mx) == e.rh.Sub?
      && NodeFits(w, mx)
  {
    MakeOpRoundTrip(e.opcode, e.lh.Imm?, e.rh.Imm?);
  }

  /** An encoding is as long as the tree has nodes. */
  lemma {:induction false} EncodeLength(w: Width, e: Expr)
    requires ValidExpr(w, e)
    ensures |Encode(w, e)| == NodeCount(e)
    ensures |Children(w, e.lh)| == OperandNodes(e.lh) && |Children(w, e.rh)| == OperandNodes(e.rh)
    decreases e
  {
    match e.lh {
      case Sub(l) => EncodeLength(w, l);
      case _ =>
    }
    match e.rh {
      case Sub(r) => EncodeLength(w, r);
      case _ =>
    }
  }

  /** The nodes s occur in blk starting at index i. */
  predicate At(blk: seq<Node>, i: nat, s: seq<Node>)
  {
    i + |s| <= |blk| && forall k :: 0 <= k < |s| ==> blk[i + k] == s[k]
  }

  /** An encoding sitting at i: its root at i, its LH subtree after it, then its RH subtree. */
  lemma EncodeParts(w: Width, e: Expr, blk: seq<Node>, i: nat)
    requires ValidExpr(w, e) && At(blk, i, Encode(w, e))
    ensures i < |blk| && blk[i] == Root(e)
    ensures At(blk, i + 1, Children(w, e.lh))
    ensures At(blk, i + 1 + |Children(w, e.lh)|, Children(w, e.rh))
  {
    var enc := Encode(w, e);
    var cl, cr := Children(w, e.lh), Children(w, e.rh);
    assert enc == [Root(e)] + cl + cr;
    assert blk[i + 0] == enc[0];
    forall k | 0 <= k < |cl|
      ensures blk[i + 1 + k] == cl[k]
    {
      assert blk[i + (1 + k)] == enc[1 + k];
    }
    forall k | 0 <= k < |cr|
      ensures blk[i + 1 + |cl| + k] == cr[k]
    {
      assert blk[i + (1 + |cl| + k)] == enc[1 + |cl| + k];
    }
  }

  /** Three runs side by side in a block make their concatenation. */
  lemma AtConcat(blk: seq<Node>, i: nat, x: Node, a: seq<Node>, b: seq<Node>)
    requires i < |blk| && blk[i] == x && At(blk, i + 1, a) && At(blk, i + 1 + |a|, b)
    ensures At(blk, i, [x] + a + b)
  {
    var s := [x] + a + b;
    forall k | 0 <= k < |s|
      ensures blk[i + k] == s[k]
    {
      if k > |a| {
        assert blk[i + 1 + |a| + (k - 1 - |a|)] == b[k - 1 - |a|];
      } else if k > 0 {
        assert blk[i + 1 + (k - 1)] == a[k - 1];
      }
    }
  }

  /** An encoding found in a block as a run of nodes is placed there node by node. */
  lemma {:induction false} AtIsPlaced(w: Width, e: Expr, blk: seq<Node>, i: nat)
    requires ValidExpr(w, e) && At(blk, i, Encode(w, e))
    ensures Placed(w, e, blk, i)
    decreases e
  {
    EncodeParts(w, e, blk, i);
    EncodeLength(w, e);
    match e.lh {
      case Sub(l) => AtIsPlaced(w, l, blk, i + 1);
      case _ =>
    }
    match e.rh {
      case Sub(r) => AtIsPlaced(w, r, blk, i + 1 + OperandNodes(e.lh));
      case _ =>
    }
  }

  /** A tree placed node by node in a block occurs there as a run equal to its encoding. */
  lemma {:induction false} PlacedIsAt(w: Width, e: Expr, blk: seq<Node>, i: nat)
    requires Placed(w, e, blk, i)
    ensures At(blk, i, Encode(w, e))
    decreases e
  {
    EncodeLength(w, e);
    var mid := i + 1 + OperandNodes(e.lh);
    match e.lh {
      case Sub(l) => PlacedIsAt(w, l, blk, i + 1);
      case _ =>
    }
    match e.rh {
      case Sub(r) => PlacedIsAt(w, r, blk, mid);
      case _ =>
    }
    AtConcat(blk, i, Root(e), Children(w, e.lh), Children(w, e.rh));
  }

  /** Wherever a tree is placed in a block, the walk from its root ends just past it. */
  lemma {:induction false} PlacedWalk(w: Width, e: Expr, blk: seq<Node>, i: nat)
    requires Placed(w, e, blk, i)
    ensures Walk(blk, i) == Some(i + NodeCount(e))
    decreases e
  {
    RootNode(w, e);
    match e.lh {
      case Sub(l) => PlacedWalk(w, l, blk, i + 1);
      case _ =>
    }
    match e.rh {
      case Sub(r) => PlacedWalk(w, r, blk, i + 1 + OperandNodes(e.lh));
      case _ =>
    }
  }

  /** The slots of an encoding fit the width. */
  lemma {:induction false} EncodeFits(w: Width, e: Expr)
    requires ValidExpr(w, e)
    ensures BlockFits(w, Encode(w, e))
    decreases e
  {
    RootNode(w, e);
    match e.lh {
      case Sub(l) => EncodeFits(w, l);
      case _ =>
    }
    match e.rh {
      case Sub(r) => EncodeFits(w, r);
      case _ =>
    }
    var enc := Encode(w, e);
    var cl, cr := Children(w, e.lh), Children(w, e.rh);
    assert enc == [enc[0]] + cl + cr;
    forall k | 0 <= k < |enc|
      ensures NodeFits(w, enc[k])
    {
      if k > |cl| {
        assert enc[k] == cr[k - 1 - |cl|];
      } else if k > 0 {
        assert enc[k] == cl[k - 1];
      }
    }
  }

  /** Every encoding is a well-formed block whose slots fit the width. */
  lemma EncodeWellFormed(w: Width, e: Expr)
    requires ValidExpr(w, e)
    ensures WellFormed(Encode(w, e))
    ensures BlockFits(w, Encode(w, e))
  {
    var enc := Encode(w, e);
    assert At(enc, 0, enc);
    AtIsPlaced(w, e, enc, 0);
    PlacedWalk(w, e, enc, 0);
    EncodeLength(w, e);
    EncodeFits(w, e);
  }

  /**
   * One node of the intended evaluator in terms of the tree's operands:
   * when LH resolves to the LH operand's meaning and ends at mid, and RH
   * resolves from mid to the RH operand's meaning and ends at end, the node
   * evaluates to the tree's meaning and ends at end.
   */
  lemma StepExpected(w: Width, pkt: Packet, e: Expr, blk: seq<Node>, i: nat, mid: nat, end: nat)
    requires ValidExpr(w, e) && BlockFits(w, blk) && i < mid <= |blk|
    requires Opcode(Intended, blk[i].op) == e.opcode
    requires ResolveLeft(Intended, w, pkt, blk, i) == Expected(EvalOperand(w, pkt, e.lh), mid)
    requires ResolveRight(Intended, w, pkt, blk, i, mid) == Expected(EvalOperand(w, pkt, e.rh), end)
    ensures Descend(Intended, w, pkt, blk, i) == Expected(EvalExpr(w, pkt, e), end)
  {
  }

  /**
   * The intended evaluator, started at a tree placed anywhere in a block,
   * reports the tree's meaning and the index just past the tree.
   */
  lemma {:induction false} PlacedCorrect(w: Width, pkt: Packet, e: Expr, blk: seq<Node>, i: nat)
    requires Placed(w, e, blk, i) && BlockFits(w, blk)
    ensures Descend(Intended, w, pkt, blk, i) == Expected(EvalExpr(w, pkt, e), i + NodeCount(e))
    decreases e, 1
  {
    LeftCorrect(w, pkt, e, blk, i);
    RightCorrect(w, pkt, e, blk, i);
    StepExpected(w, pkt, e, blk, i, i + 1 + OperandNodes(e.lh), i + NodeCount(e));
  }

  /** The LH the evaluator resolves at a placed tree is the meaning of the tree's LH operand. */
  lemma {:induction false} LeftCorrect(w: Width, pkt: Packet, e: Expr, blk: seq<Node>, i: nat)
    requires Placed(w, e, blk, i) && BlockFits(w, blk)
    ensures i < |blk| && Opcode(Intended, blk[i].op) == e.opcode
    ensures ResolveLeft(Intended, w, pkt, blk, i) == Expected(EvalOperand(w, pkt, e.lh), i + 1 + OperandNodes(e.lh))
    decreases e, 0
  {
    RootNode(w, e);
    match e.lh
    case Sub(l) => PlacedCorrect(w, pkt, l, blk, i + 1);
    case Imm(_) =>
    case Register(_) =>
  }

  /** The RH the evaluator resolves after the LH subtree is the meaning of the tree's RH operand. */
  lemma {:induction false} RightCorrect(w: Width, pkt: Packet, e: Expr, blk: seq<Node>, i: nat)
    requires Placed(w, e, blk, i) && BlockFits(w, blk)
    ensures i < i + 1 + OperandNodes(e.lh) <= |blk|
    ensures ResolveRight(Intended, w, pkt, blk, i, i + 1 + OperandNodes(e.lh))
            == Expected(EvalOperand(w, pkt, e.rh), i + NodeCount(e))
    decreases e, 0
  {
    RootNode(w, e);
    match e.rh
    case Sub(r) => PlacedCorrect(w, pkt, r, blk, i + 1 + OperandNodes(e.lh));
    case Imm(_) =>
    case Register(_) =>
  }

  /**
   * The intended evaluator, started at an encoding anywhere in a block,
   * reports the tree's meaning and the index just past the encoding.
   */
  lemma EncodeCorrect(w: Width, pkt: Packet, e: Expr, blk: seq<Node>, i: nat)
    requires ValidExpr(w, e) && At(blk, i, Encode(w, e)) && BlockFits(w, blk)
    ensures Descend(Intended, w, pkt, blk, i) == Expected(EvalExpr(w, pkt, e), i + |Encode(w, e)|)
  {
    AtIsPlaced(w, e, blk, i);
    EncodeLength(w, e);
    PlacedCorrect(w, pkt, e, blk, i);
  }

  /** Decoding follows the walk: it succeeds exactly where the walk does and stops where it stops. */
  lemma {:induction false} DecodeFollowsWalk(blk: seq<Node>, i: nat)
    ensures Decode(blk, i).Some? <==> Walk(blk, i).Some?
    ensures Decode(blk, i).Some? ==> Walk(blk, i) == Some(Decode(blk, i).value.1)
    decreases |blk| - i
  {
    if i < |blk| {
      var mx := blk[i];
      if LhIsSub(mx) {
        DecodeFollowsWalk(blk, i + 1);
      }
      var afterLeft := if LhIsSub(mx) then Walk(blk, i + 1) else Some(i + 1);
      if afterLeft.Some? && RhIsSub(mx) {
        DecodeFollowsWalk(blk, afterLeft.value);
      }
    }
  }

  /** Decoding a tree placed anywhere in a block gives back the tree and the index just past it. */
  lemma {:induction false} DecodePlaced(w: Width, e: Expr, blk: seq<Node>, i: nat)
    requires Placed(w, e, blk, i)
    ensures Decode(blk, i) == Some((e, i + NodeCount(e)))
    decreases e, 1
  {
    DecodeLeftPlaced(w, e, blk, i);
    DecodeRightPlaced(w, e, blk, i);
  }

  /** The LH operand decoded at a placed tree is the tree's LH operand. */
  lemma {:induction false} DecodeLeftPlaced(w: Width, e: Expr, blk: seq<Node>, i: nat)
    requires Placed(w, e, blk, i)
    ensures i < |blk| && blk[i].op % LHIMM == e.opcode
    ensures DecodeLeft(blk, i) == Some((e.lh, i + 1 + OperandNodes(e.lh)))
    decreases e, 0
  {
    RootNode(w, e);
    match e.lh
    case Sub(l) => DecodePlaced(w, l, blk, i + 1);
    case Imm(_) =>
    case Register(_) =>
  }

  /** The RH operand decoded after the LH subtree is the tree's RH operand. */
  lemma {:induction false} DecodeRightPlaced(w: Width, e: Expr, blk: seq<Node>, i: nat)
    requires Placed(w, e, blk, i)
    ensures i < i + 1 + OperandNodes(e.lh) <= |blk|
    ensures DecodeRight(blk, i, i + 1 + OperandNodes(e.lh)) == Some((e.rh, i + NodeCount(e)))
    decreases e, 0
  {
    RootNode(w, e);
    match e.rh
    case Sub(r) => DecodePlaced(w, r, blk, i + 1 + OperandNodes(e.lh));
    case Imm(_) =>
    case Register(_) =>
  }

  /** Decoding an encoding, wherever it sits in a block, gives back the tree. */
  lemma DecodeEncode(w: Width, e: Expr, blk: seq<Node>, i: nat)
    requires ValidExpr(w, e) && At(blk, i, Encode(w, e))
    ensures Decode(blk, i) == Some((e, i + |Encode(w, e)|))
  {
    AtIsPlaced(w, e, blk, i);
    EncodeLength(w, e);
    DecodePlaced(w, e, blk, i);
  }

  /** What decoding finds is a valid tree placed where it was found, ending where decoding stopped. */
  lemma {:induction false} DecodedIsPlaced(w: Width, blk: seq<Node>, i: nat)
    requires BlockFits(w, blk) && Decode(blk, i).Some?
    ensures Placed(w, Decode(blk, i).value.0, blk, i)
    ensures Decode(blk, i).value.1 == i + NodeCount(Decode(blk, i).value.0)
    decreases |blk| - i
  {
    var mx := blk[i];
    assert NodeFits(w, mx);
    OpDecomposes(mx.op);
    var (l, mid) := DecodeLeft(blk, i).value;
    if LhIsSub(mx) {
      DecodedIsPlaced(w, blk, i + 1);
    }
    assert ValidOperand(w, l) && OperandPlaced(w, l, blk, i + 1) && mid == i + 1 + OperandNodes(l);
    var (r, end) := DecodeRight(blk, i, mid).value;
    if RhIsSub(mx) {
      DecodedIsPlaced(w, blk, mid);
    }
    assert ValidOperand(w, r) && OperandPlaced(w, r, blk, mid) && end == mid + OperandNodes(r);
    assert Root(Micro(mx.op % LHIMM, l, r)) == mx;
  }

  /**
   * Encoding a decoded tree gives back exactly the nodes it was decoded
   * from: every block that walks completely is the encoding of a tree.
   */
  lemma EncodeDecode(w: Width, blk: seq<Node>, i: nat)
    requires BlockFits(w, blk) && Decode(blk, i).Some?
    ensures ValidExpr(w, Decode(blk, i).value.0)
    ensures Encode(w, Decode(blk, i).value.0) == blk[i..Decode(blk, i).value.1]
  {
    var e := Decode(blk, i).value.0;
    DecodedIsPlaced(w, blk, i);
    PlacedIsAt(w, e, blk, i);
    EncodeLength(w, e);
    var enc := Encode(w, e);
    forall k | 0 <= k < |enc|
      ensures blk[i..i + |enc|][k] == enc[k]
    {
      assert blk[i + k] == enc[k];
    }
    assert blk[i..i + |enc|] == enc;
  }

  /**
   * On a well-formed block the intended evaluator computes the meaning of
   * the tree the block encodes, and consumes the whole block.
   */
  lemma EvaluatesDecodedTree(w: Width, pkt: Packet, blk: seq<Node>)
    requires BlockFits(w, blk) && WellFormed(blk)
    ensures Decode(blk, 0).Some? && Decode(blk, 0).value.1 == |blk|
    ensures ValidExpr(w, Decode(blk, 0).value.0)
    ensures Descend(Intended, w, pkt, blk, 0) == Expected(EvalExpr(w, pkt, Decode(blk, 0).value.0), |blk|)
  {
    DecodeFollowsWalk(blk, 0);
    DecodedIsPlaced(w, blk, 0);
    PlacedCorrect(w, pkt, Decode(blk, 0).value.0, blk, 0);
  }

  /** The intended match on an encoded tree: nonzero meaning matches, failures give no verdict. */
  lemma MatchEncoded(w: Width, pkt: Packet, e: Expr)
    requires ValidExpr(w, e)
    ensures BlockFits(w, Encode(w, e))
    ensures Match(Intended, w, pkt, MatchInfo(|Encode(w, e)|, Encode(w, e)))
            == match EvalExpr(w, pkt, e)
               case Success(x) => Some(x != 0)
               case Failure(_) => None
  {
    EncodeWellFormed(w, e);
    var enc := Encode(w, e);
    assert At(enc, 0, enc);
    EncodeCorrect(w, pkt, e, enc, 0);
  }
}
