# xt_expr: the expression-match evaluator, modelled in Dafny

The `expr` match of xtables-addons tests each packet against an arithmetic
expression. The expression is an array of *micro-expressions*
(`struct xt_expr_micro`): an op byte and two operand slots. The op byte holds
an opcode in its low six bits and two flags, LHIMM (bit 6) and RHIMM (bit 7).
A flagged slot is an immediate value. An unflagged slot holding `TYPE_SUB` is
a subexpression: the next unconsumed node in the block. Any other unflagged
slot names a register read from the packet (packet mark, connection mark,
layer-3 protocol; 0 for the rest).

Trees are serialized in preorder: node, then its LH block, then its RH block.
`xt_expr_descend` evaluates the block recursively with a single forward
cursor, and `xt_expr_mt` matches when the value is nonzero. The operand
slots are `uint32_t`, or `uint64_t` when `BIG_BALLS` is defined.

The project is a pure functional model, because the evaluator has no loops
and no mutable state. It has six modules:

- `Wrappers` (wrappers.dfy): `Option` and `Result`.
- `BitOps` (bits.dfy): powers of two, and the bitwise `&`, `|`, `^`, `~` on
  unbounded naturals defined bit by bit, with their arithmetic
  characterisations.
- `Format` (format.dfy): the header `extensions/xt_expr.h`. It covers the slot
  width, opcodes, flags, register types, the node and match-info records, and
  the op-byte layout (`MakeOp` and its inverse).
- `Eval` (eval.dfy): `extensions/xt_expr.c`. It covers the register resolver,
  the operator switch, `xt_expr_descend` (`Descend`, `ResolveLeft`,
  `ResolveRight`, `Finish`), a value-free walk of the same cursor (`Walk`,
  `WellFormed`) and `xt_expr_mt` (`Match`).
- `Tree` (tree.dfy): the expression tree that the commentary at the top of
  `xt_expr.c` describes. It has its meaning `EvalExpr`, a preorder encoder
  `Encode` and a decoder `Decode` that follows the evaluator's walk. These
  are proved inverse, and the documented evaluator is proved to compute
  `EvalExpr` on every encoded tree.
- `Examples` (examples.dfy): the worked examples of that commentary
  ("4+2", "mark plus one", "(1+2)+(3+4)") and a few edge cases.

Failures are modelled as `Fail` outcomes, not as preconditions. These are
the cases C leaves undefined: division or remainder by zero, a shift by the
width or more, and a subexpression that runs past the end of the block.

The evaluator departs from its own documentation in two places inside
`xt_expr_descend`, both modelled as written. `Variant.AsWritten` is the code.
`Variant.Intended` is the documented behaviour, and it is the one the tree
semantics is proved against. A third defect, in `xt_expr_mt`, is recorded
under "## Findings" and modelled by `MatchAsWritten`.

Where the code departs from the commentary at the top of `xt_expr.c`, the
model follows the code:

- A non-immediate LH reads the register named by the RH slot (xt_expr.c:122).
- The switch masks with `0xFF`, which keeps the flag bits (xt_expr.c:131).

An opcode outside 0..21 yields 0 (xt_expr.c:154).

The code never validates the walk: `xt_expr_mtcheck` only copies the block.
`WellFormed` is the model's own condition that the walk from 0 ends at the
block's end.

## Model

| member | source | states |
|---|---|---|
| Format.WidthBits | extensions/xt_expr.h:5-11 | the slot type has 32 bits, or 64 with BIG_BALLS |
| Format.Modulus | extensions/xt_expr.h:5-11 | slot values range below 2^32 or 2^64, at least 2^32 |
| Format.ModulusIsPow2 | extensions/xt_expr.h:5-11 | the modulus is 2 to the slot width |
| Format.Pow2Widths | extensions/xt_expr.h:5-11 | 2^32 and 2^64 have their literal values |
| Format.OpcodesConsecutive | extensions/xt_expr.h:13-49 | the opcodes are the enumeration 0..26 in declaration order |
| Format.FlagLayout | extensions/xt_expr.h:53-54 | LHIMM is bit 6 and RHIMM bit 7; every opcode fits below them and an op byte with both flags fits in `__u8` |
| Format.MaskKeepsOp | extensions/xt_expr.h:51 | `op & 0xFF` is the whole op byte, flags included |
| Format.LowBitsMask | extensions/xt_expr.h:53 | masking with LHIMM-1 keeps the opcode bits, i.e. op mod 64 |
| Format.FlagBits | extensions/xt_expr.h:53-54 | HasFlag agrees with C's `op & LHIMM` / `op & RHIMM` being nonzero, and RHIMM is set iff op >= 128 |
| Format.MakeOp | extensions/xt_expr.h:73 | an op byte built from an opcode and two flags keeps the opcode in its low six bits |
| Format.MakeOpIsOr | extensions/xt_expr.c:31-33 | adding the flags to an opcode is the documented bitwise or of opcode, LHIMM and RHIMM |
| Format.MakeOpRoundTrip | extensions/xt_expr.c:31-33 | the flags and the opcode are recovered from the composed op byte |
| Format.OpDecomposes | extensions/xt_expr.h:73 | every op byte is its opcode bits composed with its two flags |
| BitOps.BitwiseBit | extensions/xt_expr.c:150-153 | bit k of a bitwise and, or or xor is the connective applied to bit k of each operand |
| BitOps.BitwiseBound | extensions/xt_expr.c:151-153 | a bitwise result of k-bit operands has k bits |
| BitOps.ComplementValue | extensions/xt_expr.c:150 | the k-bit complement of x is 2^k-1-x |
| BitOps.AndLowMask | extensions/xt_expr.c:131 | and with 2^k-1 is the remainder modulo 2^k |
| BitOps.OrDisjoint | extensions/xt_expr.c:31-33 | or of operands with no common bits is their sum |
| BitOps.AndSingleBit | extensions/xt_expr.c:117 | `x & 2^k` is nonzero iff bit k of x is set |
| Eval.RValue | extensions/xt_expr.c:84-100 | only the packet mark, connection mark and layer-3 protocol registers are nonzero; no conntrack entry reads 0 |
| Eval.RegisterArg | extensions/xt_expr.c:84 | a slot passed as `unsigned int` keeps its value when it fits 32 bits |
| Eval.Apply | extensions/xt_expr.c:131-155 | the switch yields a slot-width value, and has no value exactly for division/remainder by zero and over-wide shifts |
| Eval.Wrap | extensions/xt_expr.c:133-138 | unsigned arithmetic reduces into the slot width |
| Eval.Arithmetic | extensions/xt_expr.c:132-138 | NONE..NEG yield slot-width values and fail exactly on a zero divisor |
| Eval.Logical | extensions/xt_expr.c:139-147 | comparisons and logical operators yield 0 or 1 |
| Eval.BitLevel | extensions/xt_expr.c:148-153 | shifts and bitwise operators yield slot-width values and fail exactly on over-wide shifts |
| Eval.Shift | extensions/xt_expr.c:148-149 | a shift fails iff its count is at least the width, else fits the width |
| Eval.Quotient | extensions/xt_expr.c:136 | unsigned division never exceeds the dividend |
| Eval.Not | extensions/xt_expr.c:150 | `~lh` is a slot-width value |
| Eval.Logic | extensions/xt_expr.c:151-153 | bitwise and, or and xor of slot-width values are slot-width values |
| Eval.OpcodeIsAnd | extensions/xt_expr.c:131 | the dispatched opcode is `op & 0xFF` as written and `op & 0x3F` as documented |
| Eval.OpcodeOfByte | extensions/xt_expr.c:131 | as written the whole byte is dispatched, so a flagged byte lands above XOR; as documented the flags are stripped |
| Eval.ComparisonsYieldZeroOrOne | extensions/xt_expr.c:139-147 | every comparison or logical operator yields 0 or 1 |
| Eval.NeIsLogicalXor | extensions/xt_expr.h:36 | NE on 0/1 operands is logical xor, but not on other nonzero values (2 != 1 though both are true) |
| Eval.AddWraps | extensions/xt_expr.c:133 | ADD is the sum, less the modulus on overflow |
| Eval.SubWraps | extensions/xt_expr.c:134 | SUB is the difference, plus the modulus on underflow |
| Eval.NegWraps | extensions/xt_expr.c:138 | NEG is modulus minus lh, and 0 for 0 |
| Eval.MulWraps | extensions/xt_expr.c:135 | MUL never fails and is the exact product when it fits |
| Eval.WrapNear | extensions/xt_expr.c:133-134 | reducing a value within one modulus of the range adds or subtracts at most one modulus |
| Eval.NotIsComplement | extensions/xt_expr.c:150 | NOT is modulus-1-lh |
| Eval.UnaryIgnoresRh | extensions/xt_expr.c:132-150 | NONE, NEG, LNOT and NOT do not depend on rh; NONE is the identity |
| Eval.UnknownOpcodeYieldsZero | extensions/xt_expr.c:154 | an opcode beyond XOR yields 0 |
| Eval.DivBelow | extensions/xt_expr.c:136 | a quotient lies between 0 and the dividend |
| Eval.Descend | extensions/xt_expr.c:111-158 | a successful evaluation consumes at least its own node, stays inside the block and yields a slot-width value |
| Eval.ResolveLeft | extensions/xt_expr.c:117-122 | a non-subexpression LH consumes nothing beyond the node; a subexpression LH starts right after it |
| Eval.ResolveRight | extensions/xt_expr.c:124-129 | a non-subexpression RH leaves the cursor where LH left it |
| Eval.Finish | extensions/xt_expr.c:131-157 | the node's value is the switch's, the cursor is the one after RH, and it fails only by trapping |
| Eval.Walk | extensions/xt_expr.c:114-129 | the value-free cursor movement moves strictly forward inside the block |
| Eval.WalkAgrees | extensions/xt_expr.c:111-158 | evaluation ends where the walk ends, overruns only where the walk does, and succeeds wherever the walk does when no node traps |
| Eval.Match | extensions/xt_expr.c:160-166 | a verdict implies the walk succeeds; a well-formed block without trapping operators always gets one |
| Eval.MatchReadsHeader | extensions/xt_expr.c:160-166 | as written the match evaluates the match-info record as a node: the verdict never depends on the node array, and with zero padding and an 8-aligned array a rule of 4 nodes (mod 256) always fails by division by zero and one of 9 nodes always matches |
| Eval.FlaggedNodeYieldsZero | extensions/xt_expr.c:117-131 | as written a node carrying a flag evaluates to 0, and with both flags consumes only itself |
| Eval.LeftRegisterReadsRightSlot | extensions/xt_expr.c:122 | as written EQ of two register operands is always 1 |
| Eval.VariantsAgree | extensions/xt_expr.c:117-131 | without flags and with no register LH differing from its RH slot, as-written and documented evaluation coincide |
| Eval.SubtreeLayout | extensions/xt_expr.c:57-66 | the LH block follows its parent, and the RH block follows it and ends where the parent's block ends |
| Tree.EvalOperand | extensions/xt_expr.c:15-55 | an operand's meaning fits the slot width |
| Tree.EvalExpr | extensions/xt_expr.c:24-34 | a tree's meaning fits the width and never fails by overrun |
| Tree.Combined | extensions/xt_expr.c:62 | a combined value fits the width, and an overrun arises only from an operand's overrun |
| Tree.Decode | extensions/xt_expr.c:57-61 | a decoded tree occupies a nonempty range inside the block |
| Tree.DecodeLeft | extensions/xt_expr.c:117-122 | a leaf LH decodes from the node's own slot and flag |
| Tree.DecodeRight | extensions/xt_expr.c:124-129 | a leaf RH decodes from the node's own slot and flag |
| Tree.RootNode | extensions/xt_expr.c:31-55 | the root node carries the opcode, the immediate flags and the TYPE_SUB slots of the tree's operands |
| Tree.EncodeLength | extensions/xt_expr.c:64-66 | an encoding has one node per tree node |
| Tree.EncodeParts | extensions/xt_expr.c:57-59 | an encoding is the root followed by the LH block and then the RH block |
| Tree.AtIsPlaced | extensions/xt_expr.c:57-66 | a block holding an encoding holds the tree in preorder |
| Tree.PlacedIsAt | extensions/xt_expr.c:57-66 | a tree held in preorder is its encoding |
| Tree.PlacedWalk | extensions/xt_expr.c:57-66 | the walk over a tree held in preorder consumes exactly its nodes |
| Tree.EncodeFits | extensions/xt_expr.h:77-80 | every node of an encoding fits the slot width |
| Tree.EncodeWellFormed | extensions/xt_expr.c:64-66 | an encoding is one well-formed expression block |
| Tree.StepExpected | extensions/xt_expr.c:111-158 | a node whose operands resolve to their meanings evaluates to the tree's meaning |
| Tree.PlacedCorrect | extensions/xt_expr.c:111-158 | documented evaluation of a tree held in preorder yields its meaning and stops after its last node |
| Tree.LeftCorrect | extensions/xt_expr.c:117-122 | the LH of a tree held in preorder resolves to the LH meaning |
| Tree.RightCorrect | extensions/xt_expr.c:124-129 | the RH of a tree held in preorder resolves to the RH meaning |
| Tree.EncodeCorrect | extensions/xt_expr.c:57-66 | documented evaluation of any encoded tree, wherever it sits in a block, is the tree's meaning |
| Tree.DecodeFollowsWalk | extensions/xt_expr.c:57-61 | decoding succeeds exactly where the walk does and stops where it stops |
| Tree.DecodePlaced | extensions/xt_expr.c:57-61 | decoding a tree held in preorder recovers it |
| Tree.DecodeLeftPlaced | extensions/xt_expr.c:117-122 | the LH of a tree held in preorder decodes to its LH operand |
| Tree.DecodeRightPlaced | extensions/xt_expr.c:124-129 | the RH decodes to its RH operand |
| Tree.DecodeEncode | extensions/xt_expr.c:57-61 | decoding an encoding recovers the tree |
| Tree.DecodedIsPlaced | extensions/xt_expr.c:57-61 | a decoded tree is held in preorder where it was decoded |
| Tree.EncodeDecode | extensions/xt_expr.c:57-61 | re-encoding a decoded tree gives back the exact nodes decoded |
| Tree.EvaluatesDecodedTree | extensions/xt_expr.c:111-158 | every well-formed block is a tree, and documented evaluation yields that tree's meaning |
| Tree.MatchEncoded | extensions/xt_expr.c:160-166 | the documented match on an encoded tree is "its meaning is nonzero", and no verdict on failure |
| Examples.DocumentedSum | extensions/xt_expr.c:40-43 | "4+2" encodes as the documented node; it yields 6 as documented and 0 as written |
| Examples.DocumentedMarkPlusOne | extensions/xt_expr.c:45-48 | "mark plus one" yields the mark plus one (wrapping) as documented and 0 as written |
| Examples.MarkEqualsCtMark | extensions/xt_expr.c:119-122 | "mark == ctmark" compares the two marks as documented and is always 1 as written |
| Examples.NestedSumLayout | extensions/xt_expr.c:68-71 | the documented three-node block is the encoding of (1+2)+(3+4) and is well formed |
| Examples.NestedSumIntended | extensions/xt_expr.c:68-71 | as documented it evaluates to 10 and consumes all three nodes |
| Examples.NestedSumAsWritten | extensions/xt_expr.c:68-71 | as written it evaluates to 0 |
| Examples.LogicalAndEvaluatesBoth | extensions/xt_expr.c:146 | LAND evaluates its RH subexpression even when LH is 0, so a division by zero there fails the whole match |
| Examples.TruncatedAndTrailing | extensions/xt_expr.c:114-129 | a block that ends inside a subexpression overruns; a trailing node is never read and makes the block ill-formed |

## Left out

- `xt_expr_mtcheck` (xt_expr.c:168-183): it copies the block from user
  memory, and `xt_expr_mtdestroy` frees it. Memory allocation and the user
  copy are not modelled. `xt_expr_mtcheck` reads the node count `items`
  to size that copy (xt_expr.c:171); `xt_expr_descend` and `xt_expr_mt`
  ignore it, and the model does not tie `items` to the length of the block.
- Registration with x_tables (xt_expr.c:192-221) is not modelled.
- Eval.Match: evaluates `info.blk`, the node array `xt_expr_mt` evidently
  means. The call as written (xt_expr.c:164) is `MatchAsWritten`, which
  assumes 32-bit slots, a little-endian machine and the record layout
  `items`, four padding bytes, 8-aligned `blk` pointer. The 64-bit layout
  and the memory after the record (modelled as the end of the block) are
  not modelled.
- Eval.RValue: the `sk_buff` and conntrack lookup become the `Packet` value.
  The layer-3 protocol is taken after `ntohl`, so byte order is not modelled.
- Eval.Descend: no recursion depth bound. The kernel stack it uses is not
  modelled.
- Undefined behaviour in C is modelled as a `Fail` outcome. This covers
  division or remainder by zero, a shift of at least the width, and reading
  past the block. What the kernel would actually do in those cases is not
  modelled.
- The ternary encoding `{IF, cond, SUB}{ELSE, …}` (xt_expr.c:73-81) has no
  case in the switch. It falls to the default and yields 0, which
  UnknownOpcodeYieldsZero covers. No ELSE opcode exists in the header.
- The user-space encoder (libxt_expr.c) and xt_ECHO.c are not part of this
  model.

## Findings

| source | as written | input that shows it | evidently intended | confidence | as-written member | corrected member |
|---|---|---|---|---|---|---|
| extensions/xt_expr.h:51, extensions/xt_expr.c:131 | the switch dispatches on `op & 0xFF`, which keeps LHIMM and RHIMM, so every flagged node hits `default` and yields 0 | the documented 4+2 node, ADD with both flags and slots 4 and 2, evaluates to 0 | mask with 0x3F, so the node evaluates to 6 as the commentary says | high, not executed | Eval.FlaggedNodeYieldsZero | Tree.EncodeCorrect |
| extensions/xt_expr.c:122 | a register LH is read from `mx->rh` | `{EQ, NFMARK, CTMARK}` is 1 for every packet | read `mx->lh`, comparing the packet mark with the connection mark | high, not executed | Eval.LeftRegisterReadsRightSlot | Tree.EvaluatesDecodedTree |
| extensions/xt_expr.c:164 | `xt_expr_mt` hands `par->matchinfo`, the address of the `xt_expr_mtinfo` record itself, to `xt_expr_descend`, so the user's node array is never read (modelled for 32-bit slots on a little-endian machine) | a rule of 9 nodes with zero padding and an 8-aligned array matches every packet; one of 4 nodes fails by division by zero | pass `xi->blk`, the node array, so the match evaluates the user's expression | high, not executed | Eval.MatchReadsHeader | Eval.Match, Tree.MatchEncoded |
