/** The bitmask: a heap buffer of bytes with a size in bytes and a count of padding bits. */
module Bitmasks {
  import opened MaskAlgebra
  import opened MaskOps
  import opened PackedBits

  /** The size in bytes is stored in 16 bits, so this many bits fit. */
  const MAX_BITS := 8 * 0xFFFF

  class Bitmask {
    var size: nat
    var padding: nat
    var mask: array<bv8>

    /** The number of bits, `size()` in the source. */
    function Length(): int
      reads this
    {
      8 * size - padding
    }

    ghost predicate Valid()
      reads this, mask
    {
      && mask.Length == size <= 0xFFFF
      && padding <= 8 && padding <= 8 * size && (padding == 8 ==> size == 1)
      && PaddingClear(mask[..], Length())
    }

    /** The bits this mask stands for. */
    ghost function Bits(): (bits: seq<bool>)
      requires Valid()
      reads this, mask
      ensures |bits| == Length()
    {
      Unpack(mask[..], Length())
    }

    /** The default constructor: no buffer at all. */
    constructor Default()
      ensures Valid() && fresh(mask) && size == 0 && Bits() == []
    {
      size, padding := 0, 0;
      mask := new bv8[0];
    }

    constructor (length: nat, setIt: bool)
      requires length <= MAX_BITS
      ensures Valid() && fresh(mask) && size >= 1
      ensures Bits() == if setIt then Ones(length) else Zeros(length)
    {
      var bytes := if length != 0 then (length - 1) / 8 + 1 else 1;
      size, padding := bytes, 8 * bytes - length;
      mask := new bv8[bytes](_ => 0);
      new;
      ZeroBits(mask[..], length);
      if setIt {
        SetAll();
      } else {
        UnsetAll();
      }
    }

    /** A buffer of a given size with nothing set, as the reader of a record allocates it. */
    constructor Sized(bytes: nat, unused: nat)
      requires bytes <= 0xFFFF && unused <= 8 && unused <= 8 * bytes && (unused == 8 ==> bytes == 1)
      ensures Valid() && fresh(mask) && size == bytes && padding == unused && Bits() == Zeros(8 * bytes - unused)
    {
      size, padding := bytes, unused;
      mask := new bv8[bytes](_ => 0);
      new;
      ZeroBits(mask[..], 8 * bytes - unused);
    }

    /** The copy constructor duplicates the buffer. */
    constructor Copy(other: Bitmask)
      requires other.Valid()
      ensures Valid() && fresh(mask)
      ensures size == other.size && padding == other.padding && Bits() == other.Bits()
    {
      size, padding := other.size, other.padding;
      var buffer := new bv8[other.mask.Length];
      mask := buffer;
      new;
      var i := 0;
      while i < size
        invariant unchanged(other) && unchanged(other.mask)
        invariant mask == buffer && size == other.size && padding == other.padding
        invariant 0 <= i <= size && mask[..i] == other.mask[..i]
      {
        mask[i] := other.mask[i];
        i := i + 1;
      }
      assert mask[..] == other.mask[..];
    }

    method SetAll()
      requires Valid() && size > 0
      modifies mask
      ensures Valid() && Bits() == Ones(Length())
    {
      var i := 0;
      while i < size - 1
        invariant 0 <= i <= size - 1
        invariant forall k :: 0 <= k < i ==> mask[k] == Low(0)
      {
        mask[i] := 0xFF;
        i := i + 1;
      }
      mask[size - 1] := Low(padding);
      FullBits(mask[..], padding);
    }

    method UnsetAll()
      requires Valid()
      modifies mask
      ensures Valid() && Bits() == Zeros(Length())
    {
      var i := 0;
      while i < size
        invariant 0 <= i <= size
        invariant forall k :: 0 <= k < i ==> mask[k] == 0
      {
        mask[i] := 0;
        i := i + 1;
      }
      ZeroBits(mask[..], Length());
    }

    method Any() returns (r: bool)
      requires Valid()
      ensures r <==> MaskAlgebra.Any(Bits())
    {
      var test: bv8 := 0;
      var i := 0;
      while i < size
        invariant 0 <= i <= size
        invariant test != 0 <==> exists k :: 0 <= k < i && mask[k] != 0
      {
        OrZero(test, mask[i]);
        test := test | mask[i];
        i := i + 1;
      }
      AnyByte(mask[..], Length());
      r := test != 0;
    }

    method All() returns (r: bool)
      requires Valid() && size > 0
      ensures r <==> Bits() == Ones(Length())
    {
      var test := true;
      var i := 0;
      while i < size - 1
        invariant 0 <= i <= size - 1
        invariant test <==> forall k :: 0 <= k < i ==> mask[k] == Low(0)
      {
        test := test && mask[i] == 0xFF;
        i := i + 1;
      }
      r := test && mask[size - 1] == Low(padding);
      OnlyFull(mask[..], padding);
    }

    method Set(idx: nat, b: bool)
      requires Valid() && idx < Length()
      modifies mask
      ensures Valid() && Bits() == old(Bits())[idx := b]
    {
      ghost var before := mask[..];
      var k := idx / 8;
      mask[k] := ByteSet(mask[k], idx % 8, b);
      assert mask[..] == before[k := ByteSet(before[k], idx % 8, b)];
      SetBits(before, mask[..], Length(), idx, b);
    }

    method Get(idx: nat) returns (b: bool)
      requires Valid() && idx < Length()
      ensures b == Bits()[idx]
    {
      b := mask[idx / 8] & Bit(idx % 8) != 0;
    }

    method Sum() returns (sum: nat)
      requires Valid()
      ensures sum == Count(Bits())
    {
      hide Count, Unpack, PaddingClear;
      sum := 0;
      ghost var bytes := mask[..];
      CountNone(bytes);
      var i := 0;
      while i < size
        invariant 0 <= i <= size
        invariant sum == Count(Unpack(bytes, 8 * i))
      {
        var j := 0;
        while j < 8
          invariant 0 <= j <= 8
          invariant sum == Count(Unpack(bytes, 8 * i + j))
        {
          UnpackStep(bytes, 8 * i + j);
          BitAtIs(bytes, i, j);
          if mask[i] & Bit(j) != 0 {
            sum := sum + 1;
          }
          j := j + 1;
        }
        i := i + 1;
      }
      CountPadding(bytes, Length(), 8 * size);
    }

    /** The byte loop of the binary operators: `lhs.mask_[i] = op(lhs.mask_[i], rhs.mask_[i])`. */
    method Combine(op: BitOp, rhs: Bitmask)
      requires Valid() && rhs.Valid() && Length() == rhs.Length() && size > 0 && rhs.size > 0
      requires mask != rhs.mask
      modifies mask
      ensures Valid() && Bits() == ZipRow(op, old(Bits()), rhs.Bits())
    {
      ghost var before := mask[..];
      assert size == rhs.size && padding == rhs.padding;
      var i := 0;
      while i < size
        invariant 0 <= i <= size
        invariant forall k :: 0 <= k < i ==> mask[k] == OpByte(op, before[k], rhs.mask[k])
        invariant forall k :: i <= k < size ==> mask[k] == before[k]
      {
        mask[i] := OpByte(op, mask[i], rhs.mask[i]);
        i := i + 1;
      }
      OpBits(op, before, rhs.mask[..], mask[..], Length());
    }

    /** `operator==` compares sizes, paddings and bytes: with clear padding, that is comparing the bits. */
    method Equals(other: Bitmask) returns (r: bool)
      requires Valid() && other.Valid()
      ensures r <==> size == other.size && padding == other.padding && Bits() == other.Bits()
    {
      if size != other.size || padding != other.padding {
        return false;
      }
      var i := 0;
      while i < size && mask[i] == other.mask[i]
        invariant 0 <= i <= size
        invariant mask[..i] == other.mask[..i]
      {
        i := i + 1;
      }
      r := i == size;
      PackedUnique(mask[..], other.mask[..], Length());
    }
  }

  lemma CountNone(mask: seq<bv8>)
    ensures Count(Unpack(mask, 0)) == 0
  {
  }

  lemma BitAtIs(mask: seq<bv8>, i: nat, j: nat)
    requires i < |mask| && j < 8
    ensures BitAt(mask, 8 * i + j) == (mask[i] & Bit(j) != 0)
  {
    assert (8 * i + j) / 8 == i && (8 * i + j) % 8 == j;
  }

  lemma OrZero(x: bv8, y: bv8)
    ensures x | y != 0 <==> x != 0 || y != 0
  {
  }

  /** Only the full buffer has all its bits on. */
  lemma OnlyFull(mask: seq<bv8>, padding: nat)
    requires |mask| > 0 && padding <= 8 && PaddingClear(mask, 8 * |mask| - padding)
    ensures Full(mask, padding) <==> Unpack(mask, 8 * |mask| - padding) == Ones(8 * |mask| - padding)
  {
    var n := 8 * |mask| - padding;
    if Full(mask, padding) {
      FullBits(mask, padding);
    } else {
      var full := seq(|mask|, k => if k == |mask| - 1 then Low(padding) else Low(0));
      FullBits(full, padding);
      PackedUnique(mask, full, n);
      assert Full(full, padding);
    }
  }
}
