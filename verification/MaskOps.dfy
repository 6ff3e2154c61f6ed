/**
 * The binary operators on masks of one source. `Combine` follows the source's
 * scan over the key bits with one row iterator per operand; it is related to
 * the pointwise operation on (key, pulse) pairs.
 */
module MaskOps {
  import opened MaskAlgebra

  function OpBit(op: BitOp, x: bool, y: bool): bool {
    match op
    case And => x && y
    case Or => x || y
    case Xor => x != y
    case AndNot => x && !y
  }

  function ZipRow(op: BitOp, a: seq<bool>, b: seq<bool>): (r: seq<bool>)
    requires |a| == |b|
    ensures |r| == |a|
  {
    seq(|a|, i requires 0 <= i < |a| => OpBit(op, a[i], b[i]))
  }

  function ZipRows(op: BitOp, a: seq<seq<bool>>, b: seq<seq<bool>>, lens: seq<nat>): (r: seq<seq<bool>>)
    requires Shaped(a, lens) && Shaped(b, lens)
    ensures Shaped(r, lens)
  {
    seq(|a|, i requires 0 <= i < |a| => ZipRow(op, a[i], b[i]))
  }

  /** The row one step of the scan computes; a key that is off in both operands gets a dummy byte. */
  function StepRow(op: BitOp, a: Mask, b: Mask): seq<bool>
    requires a.keys != [] && b.keys != []
    requires a.keys[0] ==> a.elems != []
    requires b.keys[0] ==> b.elems != []
    requires a.keys[0] && b.keys[0] ==> |a.elems[0]| == |b.elems[0]|
  {
    if !(a.keys[0] || b.keys[0]) then ZipRow(op, Zeros(8), Zeros(8))
    else if a.keys[0] && b.keys[0] then ZipRow(op, a.elems[0], b.elems[0])
    else if a.keys[0] then ZipRow(op, a.elems[0], Zeros(|a.elems[0]|))
    else ZipRow(op, Zeros(|b.elems[0]|), b.elems[0])
  }

  function Combine(op: BitOp, a: Mask, b: Mask, lens: seq<nat>): Mask
    requires Fits(a, lens) && Fits(b, lens)
    decreases |lens|
  {
    if lens == [] then Mask([], [])
    else
      var row := StepRow(op, a, b);
      Cons(Any(row), row, Combine(op, Tail(a), Tail(b), lens[1..]))
  }

  /** One step emits the pointwise row, or nothing when that row is empty. */
  lemma StepRowPairs(op: BitOp, a: Mask, b: Mask, len: nat)
    requires a.keys != [] && b.keys != []
    requires a.keys[0] ==> a.elems != [] && |a.elems[0]| == len
    requires b.keys[0] ==> b.elems != [] && |b.elems[0]| == len
    ensures var z := ZipRow(op, Head(a, len), Head(b, len));
            Any(StepRow(op, a, b)) == Any(z) && (Any(z) ==> StepRow(op, a, b) == z)
  {
    var row, z := StepRow(op, a, b), ZipRow(op, Head(a, len), Head(b, len));
    if !(a.keys[0] || b.keys[0]) {
      AnyZeros(row);
      AnyZeros(z);
    } else {
      assert row == z;
    }
  }

  lemma ZipRowsTail(op: BitOp, a: seq<seq<bool>>, b: seq<seq<bool>>, lens: seq<nat>)
    requires Shaped(a, lens) && Shaped(b, lens) && lens != []
    ensures Shaped(a[1..], lens[1..]) && Shaped(b[1..], lens[1..])
    ensures ZipRows(op, a, b, lens)[0] == ZipRow(op, a[0], b[0])
    ensures ZipRows(op, a, b, lens)[1..] == ZipRows(op, a[1..], b[1..], lens[1..])
  {
  }

  lemma {:induction false} CombineCompress(op: BitOp, a: Mask, b: Mask, lens: seq<nat>)
    requires Fits(a, lens) && Fits(b, lens)
    ensures Combine(op, a, b, lens) == Compress(ZipRows(op, Dense(a, lens), Dense(b, lens), lens))
    decreases |lens|
  {
    if lens != [] {
      var da, db := Dense(a, lens), Dense(b, lens);
      assert da[1..] == Dense(Tail(a), lens[1..]) && db[1..] == Dense(Tail(b), lens[1..]);
      ZipRowsTail(op, da, db, lens);
      StepRowPairs(op, a, b, lens[0]);
      CombineCompress(op, Tail(a), Tail(b), lens[1..]);
    }
  }

  /** The scan computes the operation pairwise, and its result is canonical. */
  lemma CombinePairs(op: BitOp, a: Mask, b: Mask, lens: seq<nat>)
    requires Fits(a, lens) && Fits(b, lens)
    ensures Fits(Combine(op, a, b, lens), lens) && Canonical(Combine(op, a, b, lens))
    ensures Dense(Combine(op, a, b, lens), lens) == ZipRows(op, Dense(a, lens), Dense(b, lens), lens)
  {
    CombineCompress(op, a, b, lens);
    CompressDense(ZipRows(op, Dense(a, lens), Dense(b, lens), lens), lens);
  }

  lemma ZipSelf(rows: seq<seq<bool>>, lens: seq<nat>)
    requires Shaped(rows, lens)
    ensures ZipRows(And, rows, rows, lens) == rows
  {
    forall i | 0 <= i < |rows| ensures ZipRow(And, rows[i], rows[i]) == rows[i] {}
  }

  /** A mask combined with itself by AND is unchanged exactly when it is canonical. */
  lemma AndSelf(a: Mask, lens: seq<nat>)
    requires Fits(a, lens)
    ensures Combine(And, a, a, lens) == Compress(Dense(a, lens))
    ensures Combine(And, a, a, lens) == a <==> Canonical(a)
  {
    CombineCompress(And, a, a, lens);
    ZipSelf(Dense(a, lens), lens);
    DenseCompress(a, lens);
  }

  /** An expression over three masks. */
  datatype Expr = A | B | C | Op(op: BitOp, l: Expr, r: Expr)

  function EvalBit(e: Expr, a: bool, b: bool, c: bool): bool {
    match e
    case A => a
    case B => b
    case C => c
    case Op(op, l, r) => OpBit(op, EvalBit(l, a, b, c), EvalBit(r, a, b, c))
  }

  function Eval(e: Expr, a: Mask, b: Mask, c: Mask, lens: seq<nat>): (m: Mask)
    requires Fits(a, lens) && Fits(b, lens) && Fits(c, lens)
    ensures Fits(m, lens)
  {
    match e
    case A => a
    case B => b
    case C => c
    case Op(op, l, r) =>
      var x, y := Eval(l, a, b, c, lens), Eval(r, a, b, c, lens);
      CombinePairs(op, x, y, lens);
      Combine(op, x, y, lens)
  }

  /** What an expression over masks selects is decided pair by pair. */
  lemma {:induction false} EvalPairs(e: Expr, a: Mask, b: Mask, c: Mask, lens: seq<nat>, i: nat, j: nat)
    requires Fits(a, lens) && Fits(b, lens) && Fits(c, lens)
    requires i < |lens| && j < lens[i]
    ensures Dense(Eval(e, a, b, c, lens), lens)[i][j] ==
            EvalBit(e, Dense(a, lens)[i][j], Dense(b, lens)[i][j], Dense(c, lens)[i][j])
  {
    match e
    case A =>
    case B =>
    case C =>
    case Op(op, l, r) =>
      EvalPairs(l, a, b, c, lens, i, j);
      EvalPairs(r, a, b, c, lens, i, j);
      CombinePairs(op, Eval(l, a, b, c, lens), Eval(r, a, b, c, lens), lens);
  }

  /** An expression whose value is always canonical: an operator was applied last. */
  lemma EvalCanonical(e: Expr, a: Mask, b: Mask, c: Mask, lens: seq<nat>)
    requires Fits(a, lens) && Fits(b, lens) && Fits(c, lens)
    requires e.Op? || (Canonical(a) && Canonical(b) && Canonical(c))
    ensures Canonical(Eval(e, a, b, c, lens))
  {
    if e.Op? {
      CombinePairs(e.op, Eval(e.l, a, b, c, lens), Eval(e.r, a, b, c, lens), lens);
    }
  }

  /**
   * Every Boolean law is a law of masks under `operator==`: two operator
   * expressions that agree on all bits agree, bit for bit of their
   * representation, on all masks of one source.
   */
  lemma BooleanLaw(e: Expr, f: Expr, a: Mask, b: Mask, c: Mask, lens: seq<nat>)
    requires Fits(a, lens) && Fits(b, lens) && Fits(c, lens)
    requires (e.Op? && f.Op?) || (Canonical(a) && Canonical(b) && Canonical(c))
    requires forall x, y, z :: EvalBit(e, x, y, z) == EvalBit(f, x, y, z)
    ensures Eval(e, a, b, c, lens) == Eval(f, a, b, c, lens)
  {
    var me, mf := Eval(e, a, b, c, lens), Eval(f, a, b, c, lens);
    var de, df := Dense(me, lens), Dense(mf, lens);
    forall i | 0 <= i < |lens| ensures de[i] == df[i] {
      forall j | 0 <= j < lens[i] ensures de[i][j] == df[i][j] {
        EvalPairs(e, a, b, c, lens, i, j);
        EvalPairs(f, a, b, c, lens, i, j);
      }
    }
    assert de == df;
    EvalCanonical(e, a, b, c, lens);
    EvalCanonical(f, a, b, c, lens);
    CanonicalUnique(me, mf, lens);
  }

  // ----- counting -----

  /** `GetSum`: the number of bits set in the rows. */
  function Sum(rows: seq<seq<bool>>): nat {
    if rows == [] then 0 else Count(rows[0]) + Sum(rows[1..])
  }

  /** The rows hold as many set bits as the mask selects pairs. */
  lemma {:induction false} SumDense(m: Mask, lens: seq<nat>)
    requires Fits(m, lens)
    ensures Sum(m.elems) == Sum(Dense(m, lens))
    decreases |lens|
  {
    if lens != [] {
      SumDense(Tail(m), lens[1..]);
      CountZero(Zeros(lens[0]));
      AnyZeros(Zeros(lens[0]));
      assert Dense(m, lens)[1..] == Dense(Tail(m), lens[1..]);
    }
  }

  lemma {:induction false} RowBalance(a: seq<bool>, b: seq<bool>)
    requires |a| == |b|
    ensures Count(ZipRow(Or, a, b)) + Count(ZipRow(And, a, b)) == Count(a) + Count(b)
    ensures Count(ZipRow(AndNot, a, b)) + Count(ZipRow(And, a, b)) == Count(a)
    ensures Count(ZipRow(Xor, a, b)) + Count(ZipRow(And, a, b)) == Count(ZipRow(Or, a, b))
  {
    if a != [] {
      RowBalance(a[1..], b[1..]);
      forall op: BitOp ensures ZipRow(op, a, b)[1..] == ZipRow(op, a[1..], b[1..]) {}
    }
  }

  lemma {:induction false} RowsBalance(a: seq<seq<bool>>, b: seq<seq<bool>>, lens: seq<nat>)
    requires Shaped(a, lens) && Shaped(b, lens)
    ensures Sum(ZipRows(Or, a, b, lens)) + Sum(ZipRows(And, a, b, lens)) == Sum(a) + Sum(b)
    ensures Sum(ZipRows(AndNot, a, b, lens)) + Sum(ZipRows(And, a, b, lens)) == Sum(a)
    ensures Sum(ZipRows(Xor, a, b, lens)) + Sum(ZipRows(And, a, b, lens)) == Sum(ZipRows(Or, a, b, lens))
    decreases |lens|
  {
    if a != [] {
      RowsBalance(a[1..], b[1..], lens[1..]);
      RowBalance(a[0], b[0]);
      forall op: BitOp ensures ZipRows(op, a, b, lens)[1..] == ZipRows(op, a[1..], b[1..], lens[1..]) {}
    }
  }

  /** Conservation: OR and AND share out the pulses of both operands, Remove and AND those of the left one. */
  lemma SumBalance(a: Mask, b: Mask, lens: seq<nat>)
    requires Fits(a, lens) && Fits(b, lens)
    ensures Sum(Combine(Or, a, b, lens).elems) + Sum(Combine(And, a, b, lens).elems) == Sum(a.elems) + Sum(b.elems)
    ensures Sum(Combine(AndNot, a, b, lens).elems) + Sum(Combine(And, a, b, lens).elems) == Sum(a.elems)
    ensures Sum(Combine(Xor, a, b, lens).elems) + Sum(Combine(And, a, b, lens).elems) ==
            Sum(Combine(Or, a, b, lens).elems)
  {
    RowsBalance(Dense(a, lens), Dense(b, lens), lens);
    SumDense(a, lens);
    SumDense(b, lens);
    forall op: BitOp ensures Sum(Combine(op, a, b, lens).elems) ==
                             Sum(ZipRows(op, Dense(a, lens), Dense(b, lens), lens)) {
      CombinePairs(op, a, b, lens);
      SumDense(Combine(op, a, b, lens), lens);
    }
  }
}
