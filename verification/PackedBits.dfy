/**
 * Bits packed into bytes, and the bitmask that owns such a buffer. The unused
 * top bits of the last byte, the padding, are kept at zero, so that two
 * bitmasks hold the same bits exactly when their bytes are equal.
 */
module PackedBits {
  import opened MaskAlgebra
  import opened MaskOps

  // ----- one byte -----

  /** `1 << j` */
  function Bit(j: nat): bv8
    requires j < 8
  {
    match j case 0 => 1 case 1 => 2 case 2 => 4 case 3 => 8 case 4 => 16 case 5 => 32 case 6 => 64 case _ => 128
  }

  /** `0xff >> p` */
  function Low(p: nat): bv8
    requires p <= 8
  {
    match p case 0 => 255 case 1 => 127 case 2 => 63 case 3 => 31 case 4 => 15 case 5 => 7 case 6 => 3 case 7 => 1
            case _ => 0
  }

  predicate Test(b: bv8, j: nat)
    requires j < 8
  {
    b & Bit(j) != 0
  }

  function OpByte(op: BitOp, x: bv8, y: bv8): bv8 {
    match op
    case And => x & y
    case Or => x | y
    case Xor => x ^ y
    case AndNot => x & !y
  }

  /** A byte with exactly one bit set. */
  predicate OneBit(m: bv8) {
    m == 1 || m == 2 || m == 4 || m == 8 || m == 16 || m == 32 || m == 64 || m == 128
  }

  lemma MaskOr(x: bv8, y: bv8, m: bv8)
    ensures ((x | y) & m != 0) == (x & m != 0 || y & m != 0)
  {
  }

  lemma MaskAnd(x: bv8, y: bv8, m: bv8)
    requires OneBit(m)
    ensures ((x & y) & m != 0) == (x & m != 0 && y & m != 0)
    ensures ((x & !y) & m != 0) == (x & m != 0 && y & m == 0)
  {
  }

  lemma MaskXor(x: bv8, y: bv8, m: bv8)
    requires OneBit(m)
    ensures ((x ^ y) & m != 0) == ((x & m != 0) != (y & m != 0))
  {
  }

  lemma TestOp(op: BitOp, x: bv8, y: bv8, j: nat)
    requires j < 8
    ensures Test(OpByte(op, x, y), j) == OpBit(op, Test(x, j), Test(y, j))
  {
    MaskOr(x, y, Bit(j));
    MaskAnd(x, y, Bit(j));
    MaskXor(x, y, Bit(j));
  }

  /** `b |= 1 << j` or `b &= ~(1 << j)` */
  function ByteSet(b: bv8, j: nat, v: bool): bv8
    requires j < 8
  {
    if v then b | Bit(j) else b & !Bit(j)
  }

  lemma TestSet(b: bv8, j: nat, v: bool, k: nat)
    requires j < 8 && k < 8
    ensures Test(ByteSet(b, j, v), k) == if j == k then v else Test(b, k)
  {
  }

  lemma TestLow(p: nat, j: nat)
    requires p <= 8 && j < 8
    ensures Test(Low(p), j) == (j < 8 - p)
  {
  }

  lemma TestZero(j: nat)
    requires j < 8
    ensures !Test(0, j)
  {
  }

  /** A byte is its eight bits. */
  lemma ByteUnique(x: bv8, y: bv8)
    requires forall j :: 0 <= j < 8 ==> Test(x, j) == Test(y, j)
    ensures x == y
  {
    assert Test(x, 0) == Test(y, 0) && Test(x, 1) == Test(y, 1) && Test(x, 2) == Test(y, 2) && Test(x, 3) == Test(y, 3);
    assert Test(x, 4) == Test(y, 4) && Test(x, 5) == Test(y, 5) && Test(x, 6) == Test(y, 6) && Test(x, 7) == Test(y, 7);
  }

  // ----- a buffer -----

  predicate BitAt(mask: seq<bv8>, i: nat)
    requires i < 8 * |mask|
  {
    Test(mask[i / 8], i % 8)
  }

  function Unpack(mask: seq<bv8>, n: nat): (bits: seq<bool>)
    requires n <= 8 * |mask|
    ensures |bits| == n
  {
    seq(n, i requires 0 <= i < n => BitAt(mask, i))
  }

  ghost predicate PaddingClear(mask: seq<bv8>, n: nat) {
    forall i :: n <= i < 8 * |mask| ==> !BitAt(mask, i)
  }

  /** With the padding clear, equal bits mean equal bytes. */
  lemma PackedUnique(a: seq<bv8>, b: seq<bv8>, n: nat)
    requires |a| == |b| && n <= 8 * |a| && PaddingClear(a, n) && PaddingClear(b, n)
    ensures Unpack(a, n) == Unpack(b, n) <==> a == b
  {
    if Unpack(a, n) == Unpack(b, n) {
      forall k | 0 <= k < |a| ensures a[k] == b[k] {
        forall j | 0 <= j < 8 ensures Test(a[k], j) == Test(b[k], j) {
          var i := 8 * k + j;
          assert i / 8 == k && i % 8 == j;
          assert BitAt(a, i) == BitAt(b, i) by {
            if i < n { assert Unpack(a, n)[i] == Unpack(b, n)[i]; }
          }
        }
        ByteUnique(a[k], b[k]);
      }
    }
  }

  lemma UnpackStep(mask: seq<bv8>, n: nat)
    requires n < 8 * |mask|
    ensures Unpack(mask, n + 1) == Unpack(mask, n) + [BitAt(mask, n)]
    ensures Count(Unpack(mask, n + 1)) == Count(Unpack(mask, n)) + (if BitAt(mask, n) then 1 else 0)
  {
    CountConcat(Unpack(mask, n), [BitAt(mask, n)]);
  }

  /** Bits beyond `n` do not count when the padding is clear. */
  lemma {:induction false} CountPadding(mask: seq<bv8>, n: nat, k: nat)
    requires n <= k <= 8 * |mask| && PaddingClear(mask, n)
    ensures Count(Unpack(mask, k)) == Count(Unpack(mask, n))
    decreases k
  {
    if n < k {
      CountPadding(mask, n, k - 1);
      UnpackStep(mask, k - 1);
    }
  }

  lemma ZeroByte(b: bv8)
    ensures b == 0 <==> forall j :: 0 <= j < 8 ==> !Test(b, j)
  {
    if forall j :: 0 <= j < 8 ==> !Test(b, j) {
      forall j | 0 <= j < 8 ensures Test(b, j) == Test(0, j) { TestZero(j); }
      ByteUnique(b, 0);
    }
  }

  /** Some bit is on exactly when some byte is not zero. */
  lemma AnyByte(mask: seq<bv8>, n: nat)
    requires n <= 8 * |mask| && PaddingClear(mask, n)
    ensures Any(Unpack(mask, n)) <==> exists k :: 0 <= k < |mask| && mask[k] != 0
  {
    var bits := Unpack(mask, n);
    if k :| 0 <= k < |mask| && mask[k] != 0 {
      ZeroByte(mask[k]);
      var j :| 0 <= j < 8 && Test(mask[k], j);
      var i := 8 * k + j;
      assert i / 8 == k && i % 8 == j;
      assert BitAt(mask, i);
      assert i < n;
      assert bits[i] in bits;
    }
    if Any(bits) {
      var i :| 0 <= i < n && bits[i];
      ZeroByte(mask[i / 8]);
      assert mask[i / 8] != 0;
    }
  }

  /** The buffer `set_all` leaves: every byte full, the last one short by the padding. */
  ghost predicate Full(mask: seq<bv8>, padding: nat)
    requires padding <= 8
  {
    |mask| > 0 && (forall k :: 0 <= k < |mask| - 1 ==> mask[k] == Low(0)) && mask[|mask| - 1] == Low(padding)
  }

  lemma FullBits(mask: seq<bv8>, padding: nat)
    requires padding <= 8 && Full(mask, padding)
    ensures Unpack(mask, 8 * |mask| - padding) == Ones(8 * |mask| - padding)
    ensures PaddingClear(mask, 8 * |mask| - padding)
  {
    var n := 8 * |mask| - padding;
    forall i | 0 <= i < 8 * |mask| ensures BitAt(mask, i) == (i < n) {
      TestLow(if i / 8 == |mask| - 1 then padding else 0, i % 8);
    }
  }

  lemma ZeroBits(mask: seq<bv8>, n: nat)
    requires n <= 8 * |mask| && forall k :: 0 <= k < |mask| ==> mask[k] == 0
    ensures Unpack(mask, n) == Zeros(n) && PaddingClear(mask, n)
  {
    forall i | 0 <= i < 8 * |mask| ensures !BitAt(mask, i) { TestZero(i % 8); }
  }

  /** Changing one bit of one byte changes that bit of the buffer only. */
  lemma SetBits(before: seq<bv8>, mask: seq<bv8>, n: nat, idx: nat, b: bool)
    requires |mask| == |before| && idx < n <= 8 * |mask| && PaddingClear(before, n)
    requires mask == before[idx / 8 := ByteSet(before[idx / 8], idx % 8, b)]
    ensures Unpack(mask, n) == Unpack(before, n)[idx := b] && PaddingClear(mask, n)
  {
    forall i | 0 <= i < 8 * |mask| ensures BitAt(mask, i) == if i == idx then b else BitAt(before, i) {
      TestSet(before[i / 8], idx % 8, b, i % 8);
    }
  }

  lemma OpBits(op: BitOp, x: seq<bv8>, y: seq<bv8>, mask: seq<bv8>, n: nat)
    requires |mask| == |x| == |y| && n <= 8 * |mask| && PaddingClear(x, n) && PaddingClear(y, n)
    requires forall k :: 0 <= k < |mask| ==> mask[k] == OpByte(op, x[k], y[k])
    ensures Unpack(mask, n) == ZipRow(op, Unpack(x, n), Unpack(y, n)) && PaddingClear(mask, n)
  {
    forall i | 0 <= i < 8 * |mask| ensures BitAt(mask, i) == OpBit(op, BitAt(x, i), BitAt(y, i)) {
      TestOp(op, x[i / 8], y[i / 8], i % 8);
    }
  }
}
