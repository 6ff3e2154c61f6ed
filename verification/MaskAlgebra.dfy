/**
 * Two-level masks as values. A mask has one bit per key of its source map and,
 * only for the keys whose bit is on, one row of bits with one bit per pulse.
 * The dense form, one row per key, is the set of (key, pulse) pairs a mask
 * stands for; every operation on masks is related to it.
 */
module MaskAlgebra {
  datatype Mask = Mask(keys: seq<bool>, elems: seq<seq<bool>>)

  datatype BitOp = And | Or | Xor | AndNot

  function Ones(n: nat): (r: seq<bool>)
    ensures |r| == n
  {
    seq(n, _ => true)
  }

  function Zeros(n: nat): (r: seq<bool>)
    ensures |r| == n
  {
    seq(n, _ => false)
  }

  predicate Any(b: seq<bool>) { true in b }

  function Count(b: seq<bool>): (n: nat)
    ensures n <= |b|
  {
    if b == [] then 0 else (if b[0] then 1 else 0) + Count(b[1..])
  }

  lemma {:induction false} CountZero(b: seq<bool>)
    ensures Count(b) == 0 <==> !Any(b)
  {
    if b != [] {
      CountZero(b[1..]);
      assert b == [b[0]] + b[1..];
    }
  }

  lemma {:induction false} CountConcat(a: seq<bool>, b: seq<bool>)
    ensures Count(a + b) == Count(a) + Count(b)
  {
    if a == [] {
      assert a + b == b;
    } else {
      CountConcat(a[1..], b);
      assert (a + b)[1..] == a[1..] + b;
    }
  }

  // ----- the alignment between key bits and rows -----

  /** The mask of the keys after the first one. */
  function Tail(m: Mask): Mask
    requires m.keys != [] && (m.keys[0] ==> m.elems != [])
  {
    Mask(m.keys[1..], if m.keys[0] then m.elems[1..] else m.elems)
  }

  function Cons(on: bool, row: seq<bool>, m: Mask): Mask {
    Mask([on] + m.keys, if on then [row] + m.elems else m.elems)
  }

  /** One row per key bit that is on, in key order. */
  predicate Aligned(m: Mask) {
    |m.elems| == Count(m.keys)
  }

  /** Aligned, one key bit per length, and each row as long as its key's vector. */
  predicate Fits(m: Mask, lens: seq<nat>)
    decreases |lens|
  {
    && |m.keys| == |lens|
    && if lens == [] then m.elems == []
       else
         && (m.keys[0] ==> m.elems != [] && |m.elems[0]| == lens[0])
         && Fits(Tail(m), lens[1..])
  }

  /** The number of on bits before key `i`: the position of key `i`'s row. */
  function Rank(keys: seq<bool>, i: nat): (r: nat)
    requires i <= |keys|
    ensures r <= i
  {
    Count(keys[..i])
  }

  lemma {:induction false} RankStep(keys: seq<bool>, i: nat)
    requires i < |keys|
    ensures Rank(keys, i + 1) == Rank(keys, i) + (if keys[i] then 1 else 0)
    ensures Rank(keys, i) + (if keys[i] then 1 else 0) <= Count(keys)
  {
    assert keys[..i + 1] == keys[..i] + [keys[i]];
    CountConcat(keys[..i], [keys[i]]);
    assert keys == keys[..i + 1] + keys[i + 1..];
    CountConcat(keys[..i + 1], keys[i + 1..]);
  }

  lemma RankZero(keys: seq<bool>)
    ensures Rank(keys, 0) == 0
  {
  }

  lemma RankTail(m: Mask, i: nat)
    requires 0 < i <= |m.keys| && (m.keys[0] ==> m.elems != [])
    ensures Rank(m.keys, i) == (if m.keys[0] then 1 else 0) + Rank(Tail(m).keys, i - 1)
  {
    assert m.keys[..i] == [m.keys[0]] + m.keys[1..][..i - 1];
    CountConcat([m.keys[0]], m.keys[1..][..i - 1]);
  }

  lemma TailAligned(m: Mask)
    requires m.keys != [] && (m.keys[0] ==> m.elems != [])
    ensures Aligned(m) <==> Aligned(Tail(m))
  {
  }

  /** The same alignment, read key by key through the rank. */
  ghost predicate ByRank(m: Mask, lens: seq<nat>) {
    && |m.keys| == |lens|
    && Aligned(m)
    && forall i :: 0 <= i < |lens| && m.keys[i] ==>
         Rank(m.keys, i) < |m.elems| && |m.elems[Rank(m.keys, i)]| == lens[i]
  }

  lemma FitsByRank(m: Mask, lens: seq<nat>)
    ensures Fits(m, lens) <==> ByRank(m, lens)
  {
    if |m.keys| == |lens| { FitsRankStep(m, lens); }
  }

  lemma {:induction false} FitsRankStep(m: Mask, lens: seq<nat>)
    requires |m.keys| == |lens|
    ensures Fits(m, lens) <==> ByRank(m, lens)
    decreases |lens|
  {
    if lens != [] {
      if m.keys[0] && m.elems == [] {
        CountZero(m.keys);
      } else {
        TailRanks(m, lens);
        FitsRankStep(Tail(m), lens[1..]);
      }
    }
  }

  lemma TailRanks(m: Mask, lens: seq<nat>)
    requires |m.keys| == |lens| > 0 && (m.keys[0] ==> m.elems != [])
    ensures ByRank(m, lens) <==> (m.keys[0] ==> |m.elems[0]| == lens[0]) && ByRank(Tail(m), lens[1..])
  {
    hide Rank, Aligned;
    var t := Tail(m);
    TailAligned(m);
    RankZero(m.keys);
    if ByRank(m, lens) {
      forall i | 0 <= i < |t.keys| && t.keys[i]
        ensures Rank(t.keys, i) < |t.elems| && |t.elems[Rank(t.keys, i)]| == lens[1..][i]
      {
        RankTail(m, i + 1);
        assert m.keys[i + 1];
      }
    }
    if (m.keys[0] ==> |m.elems[0]| == lens[0]) && ByRank(t, lens[1..]) {
      forall i | 0 <= i < |lens| && m.keys[i]
        ensures Rank(m.keys, i) < |m.elems| && |m.elems[Rank(m.keys, i)]| == lens[i]
      {
        if i > 0 {
          RankTail(m, i);
          assert t.keys[i - 1];
        }
      }
    }
  }

  // ----- the dense form -----

  /** The row of the first key, all zero when its bit is off. */
  function Head(m: Mask, len: nat): seq<bool>
    requires m.keys != [] && (m.keys[0] ==> m.elems != [])
  {
    if m.keys[0] then m.elems[0] else Zeros(len)
  }

  predicate Shaped(rows: seq<seq<bool>>, lens: seq<nat>) {
    |rows| == |lens| && forall i :: 0 <= i < |rows| ==> |rows[i]| == lens[i]
  }

  /** Row i, bit j: is pulse j of key i selected? */
  function Dense(m: Mask, lens: seq<nat>): (rows: seq<seq<bool>>)
    requires Fits(m, lens)
    ensures Shaped(rows, lens)
    decreases |lens|
  {
    if lens == [] then [] else [Head(m, lens[0])] + Dense(Tail(m), lens[1..])
  }

  /** Reading one row of the dense form through the rank. */
  lemma {:induction false} DenseByRank(m: Mask, lens: seq<nat>, i: nat)
    requires Fits(m, lens) && i < |lens|
    ensures m.keys[i] ==> Rank(m.keys, i) < |m.elems|
    ensures Dense(m, lens)[i] == if m.keys[i] then m.elems[Rank(m.keys, i)] else Zeros(lens[i])
    decreases |lens|
  {
    hide Rank;
    if i == 0 {
      RankZero(m.keys);
    } else {
      DenseByRank(Tail(m), lens[1..], i - 1);
      RankTail(m, i);
      assert m.keys[i] == Tail(m).keys[i - 1];
      assert Dense(m, lens)[i] == Dense(Tail(m), lens[1..])[i - 1];
    }
  }

  /** The dense form, read key by key through the rank. */
  ghost function RowsByRank(m: Mask, lens: seq<nat>): (rows: seq<seq<bool>>)
    requires ByRank(m, lens)
    ensures |rows| == |lens|
  {
    seq(|lens|, i requires 0 <= i < |lens| => if m.keys[i] then m.elems[Rank(m.keys, i)] else Zeros(lens[i]))
  }

  lemma RowsAreDense(m: Mask, lens: seq<nat>)
    requires ByRank(m, lens)
    ensures Fits(m, lens) && RowsByRank(m, lens) == Dense(m, lens)
  {
    FitsByRank(m, lens);
    forall i | 0 <= i < |lens| ensures RowsByRank(m, lens)[i] == Dense(m, lens)[i] {
      DenseByRank(m, lens, i);
    }
  }

  /** No key bit is on without a pulse bit being on. */
  predicate Canonical(m: Mask) {
    forall r :: 0 <= r < |m.elems| ==> Any(m.elems[r])
  }

  /** The mask of a dense form that keeps only the rows with a bit on. */
  function Compress(rows: seq<seq<bool>>): Mask {
    if rows == [] then Mask([], []) else Cons(Any(rows[0]), rows[0], Compress(rows[1..]))
  }

  lemma ConsTail(on: bool, row: seq<bool>, m: Mask)
    ensures Tail(Cons(on, row, m)) == m
  {
    assert Cons(on, row, m).keys[1..] == m.keys;
  }

  /** Adding a key in front of a mask adds a row in front of its dense form. */
  lemma ConsPairs(on: bool, row: seq<bool>, m: Mask, lens: seq<nat>)
    requires lens != [] && |row| == lens[0] && Fits(m, lens[1..])
    ensures Fits(Cons(on, row, m), lens)
    ensures Dense(Cons(on, row, m), lens) == [if on then row else Zeros(lens[0])] + Dense(m, lens[1..])
  {
    ConsTail(on, row, m);
  }

  lemma AnyZeros(b: seq<bool>)
    ensures !Any(b) <==> b == Zeros(|b|)
  {
    if !Any(b) {
      forall i | 0 <= i < |b| ensures b[i] == Zeros(|b|)[i] { assert b[i] in b; }
    }
  }

  lemma {:induction false} CompressDense(rows: seq<seq<bool>>, lens: seq<nat>)
    requires Shaped(rows, lens)
    ensures Fits(Compress(rows), lens) && Canonical(Compress(rows))
    ensures Dense(Compress(rows), lens) == rows
    decreases |rows|
  {
    if rows != [] {
      CompressDense(rows[1..], lens[1..]);
      ConsTail(Any(rows[0]), rows[0], Compress(rows[1..]));
      AnyZeros(rows[0]);
      var c := Compress(rows);
      forall r | 0 <= r < |c.elems| ensures Any(c.elems[r]) {
        if Any(rows[0]) && r > 0 { assert c.elems[r] == Compress(rows[1..]).elems[r - 1]; }
      }
    }
  }

  /** Rebuilding a mask from its pairs changes nothing exactly when it is canonical. */
  lemma {:induction false} DenseCompress(m: Mask, lens: seq<nat>)
    requires Fits(m, lens)
    ensures Compress(Dense(m, lens)) == m <==> Canonical(m)
    decreases |lens|
  {
    CompressDense(Dense(m, lens), lens);
    if Canonical(m) {
      if lens != [] {
        var t := Tail(m);
        assert Canonical(t) by {
          forall r | 0 <= r < |t.elems| ensures Any(t.elems[r]) {
            if m.keys[0] { assert t.elems[r] == m.elems[r + 1]; }
          }
        }
        DenseCompress(t, lens[1..]);
        AnyZeros(Zeros(lens[0]));
        assert Dense(m, lens)[1..] == Dense(t, lens[1..]);
        if m.keys[0] {
          assert Any(m.elems[0]);
          assert m.elems == [m.elems[0]] + t.elems;
        }
        assert m.keys == [m.keys[0]] + t.keys;
      }
    }
  }

  /** Canonical masks of one source are equal exactly when they select the same pairs. */
  lemma CanonicalUnique(a: Mask, b: Mask, lens: seq<nat>)
    requires Fits(a, lens) && Fits(b, lens) && Canonical(a) && Canonical(b)
    ensures a == b <==> Dense(a, lens) == Dense(b, lens)
  {
    DenseCompress(a, lens);
    DenseCompress(b, lens);
  }

  /** What `save` keeps: the rows with a bit on and their key bits. */
  function Trim(m: Mask): Mask
    requires Aligned(m)
    decreases |m.keys|
  {
    if m.keys == [] then Mask([], [])
    else if m.keys[0] then Cons(Any(m.elems[0]), m.elems[0], Trim(Tail(m)))
    else Cons(false, [], Trim(Tail(m)))
  }

  /**
   * Saving normalises: the record is the canonical mask of the same pairs, and
   * it equals the mask that was saved exactly when that one was canonical.
   */
  lemma {:induction false} TrimPairs(m: Mask, lens: seq<nat>)
    requires Fits(m, lens) && Aligned(m)
    ensures Trim(m) == Compress(Dense(m, lens))
    ensures Fits(Trim(m), lens) && Canonical(Trim(m)) && Dense(Trim(m), lens) == Dense(m, lens)
    ensures Trim(m) == m <==> Canonical(m)
    decreases |lens|
  {
    if lens != [] {
      TrimPairs(Tail(m), lens[1..]);
      AnyZeros(Zeros(lens[0]));
      assert Dense(m, lens)[1..] == Dense(Tail(m), lens[1..]);
    }
    CompressDense(Dense(m, lens), lens);
    DenseCompress(m, lens);
  }
}
