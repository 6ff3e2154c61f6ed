/**
 * Applying masks to pulse maps, and building masks from maps, from ordered
 * subsets and from predicates.
 */
module MaskApply {
  import opened Pulses
  import opened MaskAlgebra
  import opened MaskOps

  /** The elements of `v` whose bit is on, in order. */
  function Select<T>(bits: seq<bool>, v: seq<T>): seq<T>
    requires |bits| == |v|
  {
    if bits == [] then []
    else (if bits[0] then [v[0]] else []) + Select(bits[1..], v[1..])
  }

  lemma {:induction false} SelectLength<T>(bits: seq<bool>, v: seq<T>)
    requires |bits| == |v|
    ensures |Select(bits, v)| == Count(bits)
  {
    if bits != [] { SelectLength(bits[1..], v[1..]); }
  }

  lemma {:induction false} SelectOnes<T>(v: seq<T>)
    ensures Select(Ones(|v|), v) == v
  {
    if v != [] {
      SelectOnes(v[1..]);
      assert Ones(|v|)[1..] == Ones(|v[1..]|);
    }
  }

  /** What `Apply` produces: the selected pulses, key by key, without keys that have none. */
  function Masked(m: Mask, src: PulseMap): PulseMap
    requires Fits(m, Lens(src))
    decreases |src|
  {
    if src == [] then []
    else
      TailFits(m, src);
      var rest := Masked(Tail(m), src[1..]);
      if !m.keys[0] || !Any(m.elems[0]) then rest
      else [Entry(src[0].key, Select(m.elems[0], src[0].pulses))] + rest
  }

  lemma TailFits(m: Mask, src: PulseMap)
    requires src != [] && |m.keys| == |src|
    requires m.keys[0] ==> m.elems != []
    ensures Lens(src)[1..] == Lens(src[1..])
    ensures Fits(m, Lens(src)) ==> Fits(Tail(m), Lens(src[1..]))
  {
  }

  /** How applying ends: with the map, or at a row whose length is not its vector's. */
  datatype Outcome = Applied(pulses: PulseMap) | Mismatch(partial: PulseMap)

  function Prepend(e: Entry, o: Outcome): Outcome {
    match o
    case Applied(pulses) => Applied([e] + pulses)
    case Mismatch(partial) => Mismatch([e] + partial)
  }

  /** The scan of `Apply`. Rows with no bit on are passed over before their length is looked at. */
  function ApplyScan(m: Mask, src: PulseMap): Outcome
    requires Aligned(m) && |m.keys| == |src|
    decreases |src|
  {
    if src == [] then Applied([])
    else if !m.keys[0] || !Any(m.elems[0]) then ApplyScan(Tail(m), src[1..])
    else if |m.elems[0]| != |src[0].pulses| then Mismatch([])
    else Prepend(Entry(src[0].key, Select(m.elems[0], src[0].pulses)), ApplyScan(Tail(m), src[1..]))
  }

  /** On a map of the right shape the scan succeeds and produces the masked map. */
  lemma {:induction false} ApplyScanFits(m: Mask, src: PulseMap)
    requires Fits(m, Lens(src)) && Aligned(m)
    ensures ApplyScan(m, src) == Applied(Masked(m, src))
    decreases |src|
  {
    if src != [] {
      TailFits(m, src);
      ApplyScanFits(Tail(m), src[1..]);
    }
  }

  lemma {:induction false} TrimKeeps(m: Mask)
    requires Aligned(m)
    ensures Aligned(Trim(m)) && |Trim(m).keys| == |m.keys|
    decreases |m.keys|
  {
    if m.keys != [] {
      assert m.keys[0] ==> m.elems != [];
      TailAligned(m);
      TrimKeeps(Tail(m));
    }
  }

  /** Rows without a bit on do not matter, whatever their length: the scan is that of the mask without them. */
  lemma {:induction false} ApplyScanTrim(m: Mask, src: PulseMap)
    requires Aligned(m) && |m.keys| == |src|
    ensures Aligned(Trim(m)) && |Trim(m).keys| == |src| && ApplyScan(Trim(m), src) == ApplyScan(m, src)
    decreases |src|
  {
    TrimKeeps(m);
    if src != [] {
      assert m.keys[0] ==> m.elems != [];
      TailAligned(m);
      ApplyScanTrim(Tail(m), src[1..]);
      var t := Trim(Tail(m));
      ConsTail(m.keys[0] && Any(m.elems[0]), if m.keys[0] then m.elems[0] else [], t);
    }
  }

  /** A mask without empty rows is applied if and only if it fits. */
  lemma {:induction false} ApplyScanIff(m: Mask, src: PulseMap)
    requires Aligned(m) && |m.keys| == |src| && Canonical(m)
    ensures ApplyScan(m, src).Applied? <==> Fits(m, Lens(src))
    decreases |src|
  {
    if src != [] {
      assert m.keys[0] ==> m.elems != [] && Any(m.elems[0]);
      TailAligned(m);
      TailFits(m, src);
      CanonicalTail(m);
      ApplyScanIff(Tail(m), src[1..]);
    }
  }

  lemma CanonicalTail(m: Mask)
    requires Canonical(m) && m.keys != [] && (m.keys[0] ==> m.elems != [])
    ensures Canonical(Tail(m))
  {
    forall r | 0 <= r < |Tail(m).elems| ensures Any(Tail(m).elems[r]) {
      if m.keys[0] { assert Tail(m).elems[r] == m.elems[r + 1]; }
    }
  }

  lemma {:induction false} TrimCanonical(m: Mask)
    requires Aligned(m)
    ensures Canonical(Trim(m))
    decreases |m.keys|
  {
    if m.keys != [] {
      assert m.keys[0] ==> m.elems != [];
      TailAligned(m);
      TrimCanonical(Tail(m));
      var c, t := Trim(m), Trim(Tail(m));
      forall r | 0 <= r < |c.elems| ensures Any(c.elems[r]) {
        if m.keys[0] && Any(m.elems[0]) && r > 0 { assert c.elems[r] == t.elems[r - 1]; }
      }
    }
  }

  /** The first keys of a mask, with their rows. */
  function Take(m: Mask, n: nat): Mask
    requires n <= |m.keys| && Rank(m.keys, n) <= |m.elems|
  {
    Mask(m.keys[..n], m.elems[..Rank(m.keys, n)])
  }

  /**
   * Applying succeeds exactly if the mask less its empty rows fits the map, and
   * gives the masked map; otherwise it stops at the first row of a wrong length,
   * with the masked map of the keys before it.
   */
  lemma ApplyOutcome(m: Mask, src: PulseMap) returns (n: nat)
    requires Aligned(m) && |m.keys| == |src|
    ensures Aligned(Trim(m)) && |Trim(m).keys| == |src|
    ensures Fits(Trim(m), Lens(src)) ==> ApplyScan(m, src) == Applied(Masked(Trim(m), src))
    ensures !Fits(Trim(m), Lens(src)) ==>
              && n < |src| && Trim(m).keys[n] && Rank(Trim(m).keys, n) < |Trim(m).elems|
              && |Trim(m).elems[Rank(Trim(m).keys, n)]| != |src[n].pulses|
              && Fits(Take(Trim(m), n), Lens(src[..n]))
              && ApplyScan(m, src) == Mismatch(Masked(Take(Trim(m), n), src[..n]))
  {
    n := 0;
    ApplyScanTrim(m, src);
    TrimCanonical(m);
    ApplyScanIff(Trim(m), src);
    if Fits(Trim(m), Lens(src)) {
      ApplyScanFits(Trim(m), src);
    } else {
      n := StopsAt(Trim(m), src);
    }
  }

  lemma {:induction false} StopsAt(m: Mask, src: PulseMap) returns (n: nat)
    requires Aligned(m) && |m.keys| == |src| && Canonical(m) && ApplyScan(m, src).Mismatch?
    ensures n < |src| && m.keys[n] && Rank(m.keys, n) < |m.elems| && |m.elems[Rank(m.keys, n)]| != |src[n].pulses|
    ensures Fits(Take(m, n), Lens(src[..n])) && ApplyScan(m, src) == Mismatch(Masked(Take(m, n), src[..n]))
    decreases |src|
  {
    hide Rank;
    assert src != [] && (m.keys[0] ==> m.elems != [] && Any(m.elems[0]));
    RankZero(m.keys);
    if m.keys[0] && |m.elems[0]| != |src[0].pulses| {
      n := 0;
      assert src[..0] == [] && m.elems[..0] == [] && m.keys[..0] == [];
    } else {
      TailAligned(m);
      CanonicalTail(m);
      var k := StopsAt(Tail(m), src[1..]);
      n := k + 1;
      RankTail(m, n);
      TakeTail(m, src, n);
    }
  }

  /** The first keys are the first one, then those of the rest. */
  lemma TakeTail(m: Mask, src: PulseMap, n: nat)
    requires 0 < n <= |m.keys| == |src|
    requires m.keys[0] ==> m.elems != [] && |m.elems[0]| == |src[0].pulses| && Any(m.elems[0])
    requires Rank(Tail(m).keys, n - 1) <= |Tail(m).elems| && Rank(m.keys, n) <= |m.elems|
    requires Fits(Take(Tail(m), n - 1), Lens(src[1..][..n - 1]))
    ensures Fits(Take(m, n), Lens(src[..n]))
    ensures Masked(Take(m, n), src[..n]) ==
              (if m.keys[0] then [Entry(src[0].key, Select(m.elems[0], src[0].pulses))] else []) +
              Masked(Take(Tail(m), n - 1), src[1..][..n - 1])
  {
    hide Rank;
    RankTail(m, n);
    var t, first := Take(m, n), src[..n];
    assert first[0] == src[0] && first[1..] == src[1..][..n - 1];
    assert t.keys[0] == m.keys[0] && (m.keys[0] ==> t.elems != [] && t.elems[0] == m.elems[0]);
    assert Tail(t) == Take(Tail(m), n - 1);
    assert Lens(first)[1..] == Lens(first[1..]) && Lens(first)[0] == |src[0].pulses|;
  }

  /** The selected pulses of every key, empty vectors included. */
  function SelectRows(rows: seq<seq<bool>>, src: PulseMap): PulseMap
    requires Shaped(rows, Lens(src))
    decreases |src|
  {
    if src == [] then []
    else [Entry(src[0].key, Select(rows[0], src[0].pulses))] + SelectRows(rows[1..], src[1..])
  }

  /** A mask matters only through its pairs: filter every key, then drop the keys left without a pulse. */
  lemma {:induction false} MaskedByPairs(m: Mask, src: PulseMap)
    requires Fits(m, Lens(src))
    ensures Masked(m, src) == DropEmpty(SelectRows(Dense(m, Lens(src)), src))
    decreases |src|
  {
    if src != [] {
      TailFits(m, src);
      MaskedByPairs(Tail(m), src[1..]);
      var rows := Dense(m, Lens(src));
      assert rows[1..] == Dense(Tail(m), Lens(src[1..]));
      SelectLength(rows[0], src[0].pulses);
      CountZero(rows[0]);
      AnyZeros(rows[0]);
      var all := SelectRows(rows, src);
      assert all[1..] == SelectRows(rows[1..], src[1..]);
    }
  }

  /** Applying a mask yields as many pulses as the mask has bits set. */
  lemma {:induction false} MaskedTotal(m: Mask, src: PulseMap)
    requires Fits(m, Lens(src))
    ensures Total(Masked(m, src)) == Sum(m.elems)
    decreases |src|
  {
    if src != [] {
      TailFits(m, src);
      MaskedTotal(Tail(m), src[1..]);
      if m.keys[0] {
        SelectLength(m.elems[0], src[0].pulses);
        CountZero(m.elems[0]);
      }
    }
  }

  // ----- the mask of a whole map -----

  function FullMask(src: PulseMap): Mask
    decreases |src|
  {
    if src == [] then Mask([], [])
    else Cons(src[0].pulses != [], Ones(|src[0].pulses|), FullMask(src[1..]))
  }

  lemma {:induction false} FullMaskCorrect(src: PulseMap)
    ensures Fits(FullMask(src), Lens(src)) && Canonical(FullMask(src))
    ensures Masked(FullMask(src), src) == DropEmpty(src)
    decreases |src|
  {
    if src != [] {
      FullMaskCorrect(src[1..]);
      var v := src[0].pulses;
      var on, ones, t := v != [], Ones(|v|), FullMask(src[1..]);
      ConsTail(on, ones, t);
      SelectOnes(v);
      assert on ==> ones[0];
      var m := Cons(on, ones, t);
      assert FullMask(src) == m && Tail(m) == t;
      assert Lens(src)[1..] == Lens(src[1..]);
    }
  }

  // ----- the mask of an ordered subset -----

  /** Greedy leftmost matching of `sub` in `sup`: the bits of the matched positions. */
  function Fill<T(==)>(sup: seq<T>, sub: seq<T>): (bits: seq<bool>)
    ensures |bits| == |sup|
    decreases |sup|
  {
    if sup == [] then []
    else if sub != [] && sub[0] == sup[0] then [true] + Fill(sup[1..], sub[1..])
    else [false] + Fill(sup[1..], sub)
  }

  /** Some choice of positions of `sup` yields `sub`. */
  ghost predicate IsSubsequence<T(!new)>(sub: seq<T>, sup: seq<T>) {
    exists bits: seq<bool> :: |bits| == |sup| && Select(bits, sup) == sub
  }

  /** If any choice of positions yields `sub`, the greedy one does. */
  lemma {:induction false} GreedyComplete<T>(sup: seq<T>, sub: seq<T>, bits: seq<bool>)
    requires |bits| == |sup| && Select(bits, sup) == sub
    ensures Select(Fill(sup, sub), sup) == sub
    decreases |sup|
  {
    if sup != [] {
      if sub != [] && sub[0] == sup[0] {
        var bits' := Earliest(sup, sub, bits);
        GreedyComplete(sup[1..], sub[1..], bits');
      } else {
        GreedyComplete(sup[1..], sub, bits[1..]);
      }
    }
  }

  /** Moving the first match to the front leaves the rest of `sub` in the rest of `sup`. */
  lemma {:induction false} Earliest<T>(sup: seq<T>, sub: seq<T>, bits: seq<bool>) returns (rest: seq<bool>)
    requires |bits| == |sup| && Select(bits, sup) == sub
    requires sup != [] && sub != [] && sub[0] == sup[0]
    ensures |rest| == |sup| - 1 && Select(rest, sup[1..]) == sub[1..]
  {
    if bits[0] {
      rest := bits[1..];
    } else {
      rest := DropFirst(sup[1..], sub, bits[1..]);
    }
  }

  lemma {:induction false} DropFirst<T>(sup: seq<T>, sub: seq<T>, bits: seq<bool>) returns (rest: seq<bool>)
    requires |bits| == |sup| && Select(bits, sup) == sub && sub != []
    ensures |rest| == |sup| && Select(rest, sup) == sub[1..]
  {
    if bits[0] {
      rest := [false] + bits[1..];
    } else {
      var r := DropFirst(sup[1..], sub, bits[1..]);
      rest := [false] + r;
    }
    assert rest[1..] == rest[1..|sup|];
  }

  /** The greedy match selects a beginning of `sub`. */
  lemma {:induction false} FillPrefix<T>(sup: seq<T>, sub: seq<T>)
    ensures Count(Fill(sup, sub)) <= |sub| && Select(Fill(sup, sub), sup) == sub[..Count(Fill(sup, sub))]
    decreases |sup|
  {
    if sup != [] {
      if sub != [] && sub[0] == sup[0] {
        FillPrefix(sup[1..], sub[1..]);
      } else {
        FillPrefix(sup[1..], sub);
      }
    }
  }

  /** No other choice of positions gets further in `sub`, up to any position of `sup`: the match is leftmost. */
  lemma {:induction false} FillLeftmost<T>(sup: seq<T>, sub: seq<T>, bits: seq<bool>, n: nat, i: nat)
    requires |bits| == |sup| && n <= |sub| && Select(bits, sup) == sub[..n] && i <= |sup|
    ensures Count(bits[..i]) <= Count(Fill(sup, sub)[..i])
    decreases |sup|
  {
    if i > 0 {
      var fill := Fill(sup, sub);
      assert bits[..i][1..] == bits[1..][..i - 1] && fill[..i][1..] == fill[1..][..i - 1];
      if sub != [] && sub[0] == sup[0] {
        if bits[0] {
          assert sub[..n][1..] == sub[1..][..n - 1];
          FillLeftmost(sup[1..], sub[1..], bits[1..], n - 1, i - 1);
        } else if n == 0 {
          SelectLength(bits[1..], sup[1..]);
          CountPrefix(bits[1..], i - 1);
        } else {
          var rest := DropOne(sup[1..], sub[..n], bits[1..], i - 1);
          assert sub[..n][1..] == sub[1..][..n - 1];
          FillLeftmost(sup[1..], sub[1..], rest, n - 1, i - 1);
        }
      } else {
        FillLeftmost(sup[1..], sub, bits[1..], n, i - 1);
      }
    }
  }

  lemma CountPrefix(b: seq<bool>, i: nat)
    requires i <= |b|
    ensures Count(b[..i]) <= Count(b)
  {
    assert b == b[..i] + b[i..];
    CountConcat(b[..i], b[i..]);
  }

  /** Without the first match the choice is behind by at most one. */
  lemma {:induction false} DropOne<T>(sup: seq<T>, sub: seq<T>, bits: seq<bool>, i: nat) returns (rest: seq<bool>)
    requires |bits| == |sup| && Select(bits, sup) == sub && sub != [] && i <= |sup|
    ensures |rest| == |sup| && Select(rest, sup) == sub[1..] && Count(bits[..i]) <= Count(rest[..i]) + 1
  {
    if bits[0] {
      rest := [false] + bits[1..];
      assert i > 0 ==> bits[..i][1..] == rest[..i][1..];
    } else {
      var r := DropOne(sup[1..], sub, bits[1..], if i > 0 then i - 1 else 0);
      rest := [false] + r;
      assert i > 0 ==> bits[..i][1..] == bits[1..][..i - 1] && rest[..i][1..] == r[..i - 1];
    }
    assert rest[1..] == rest[1..|sup|];
  }

  lemma FillIff<T(!new)>(sup: seq<T>, sub: seq<T>)
    ensures Select(Fill(sup, sub), sup) == sub <==> IsSubsequence(sub, sup)
  {
    if IsSubsequence(sub, sup) {
      var bits :| |bits| == |sup| && Select(bits, sup) == sub;
      GreedyComplete(sup, sub, bits);
    }
  }

  ghost predicate HasKey(m: PulseMap, key: OMKey) {
    exists j :: 0 <= j < |m| && m[j].key == key
  }

  /** Every key of `sub` is a key of `sup`. */
  ghost predicate KeysPresent(sup: PulseMap, sub: PulseMap) {
    forall i :: 0 <= i < |sub| ==> HasKey(sup, sub[i].key)
  }

  /** The contract of the subset constructor: each vector of `sub` is a subsequence of the source's. */
  ghost predicate VectorsInOrder(sup: PulseMap, sub: PulseMap) {
    forall i, j :: 0 <= i < |sub| && 0 <= j < |sup| && sup[j].key == sub[i].key ==>
      IsSubsequence(sub[i].pulses, sup[j].pulses)
  }

  /** The subset's iterator moves on when its key is the source's key. */
  predicate Hit(src: PulseMap, sub: PulseMap) {
    src != [] && sub != [] && sub[0].key == src[0].key
  }

  function Rest(src: PulseMap, sub: PulseMap): PulseMap {
    if Hit(src, sub) then sub[1..] else sub
  }

  function SubsetMask(src: PulseMap, sub: PulseMap): Mask
    decreases |src|
  {
    if src == [] then Mask([], [])
    else
      Cons(Hit(src, sub), if Hit(src, sub) then Fill(src[0].pulses, sub[0].pulses) else [],
           SubsetMask(src[1..], Rest(src, sub)))
  }

  lemma {:induction false} SubsetMaskFits(src: PulseMap, sub: PulseMap)
    ensures Fits(SubsetMask(src, sub), Lens(src))
    decreases |src|
  {
    if src != [] {
      var row, t := if Hit(src, sub) then Fill(src[0].pulses, sub[0].pulses) else [],
                    SubsetMask(src[1..], Rest(src, sub));
      SubsetMaskFits(src[1..], Rest(src, sub));
      ConsTail(Hit(src, sub), row, t);
      assert SubsetMask(src, sub) == Cons(Hit(src, sub), row, t);
      assert Lens(src)[1..] == Lens(src[1..]);
    }
  }

  lemma HasKeyAt(m: PulseMap, j: nat)
    requires j < |m|
    ensures HasKey(m, m[j].key)
  {
  }

  lemma HasKeyTail(m: PulseMap, key: OMKey)
    requires m != []
    ensures HasKey(m, key) <==> m[0].key == key || HasKey(m[1..], key)
  {
    if HasKey(m, key) && m[0].key != key {
      var j :| 0 <= j < |m| && m[j].key == key;
      HasKeyAt(m[1..], j - 1);
    }
    if HasKey(m[1..], key) {
      var j :| 0 <= j < |m[1..]| && m[1..][j].key == key;
      HasKeyAt(m, j + 1);
    }
  }

  /** Applying never invents a key. */
  lemma {:induction false} MaskedKeys(m: Mask, src: PulseMap, e: Entry)
    requires Fits(m, Lens(src)) && e in Masked(m, src)
    ensures HasKey(src, e.key)
    decreases |src|
  {
    if src != [] {
      TailFits(m, src);
      HasKeyTail(src, e.key);
      if e.key != src[0].key {
        MaskedKeys(Tail(m), src[1..], e);
      }
    }
  }

  lemma RestPresent(src: PulseMap, sub: PulseMap)
    requires Sorted(src) && Sorted(sub) && KeysPresent(src, sub) && src != []
    ensures Sorted(src[1..]) && Sorted(Rest(src, sub)) && KeysPresent(src[1..], Rest(src, sub))
  {
    hide HasKey;
    var rest := Rest(src, sub);
    var k := if Hit(src, sub) then 1 else 0;
    forall i | 0 <= i < |rest| ensures HasKey(src[1..], rest[i].key) {
      assert rest[i] == sub[i + k];
      HasKeyTail(src, sub[i + k].key);
      if src[0].key == sub[i + k].key {
        FirstKeyIsHit(src, sub, i + k);
        assert false;
      }
    }
  }

  /** Only the first entry of the subset can carry the source's first key. */
  lemma FirstKeyIsHit(src: PulseMap, sub: PulseMap, i: nat)
    requires Sorted(src) && Sorted(sub) && KeysPresent(src, sub) && src != []
    requires i < |sub| && sub[i].key == src[0].key
    ensures i == 0 && Hit(src, sub)
  {
    var j :| 0 <= j < |src| && src[j].key == sub[0].key;
    if i > 0 {
      assert false;
    }
  }

  lemma RestInOrder(src: PulseMap, sub: PulseMap)
    requires Sorted(src) && Sorted(sub) && KeysPresent(src, sub) && src != []
    ensures VectorsInOrder(src, sub) <==>
              && (Hit(src, sub) ==> IsSubsequence(sub[0].pulses, src[0].pulses))
              && VectorsInOrder(src[1..], Rest(src, sub))
  {
    var rest := Rest(src, sub);
    var k := if Hit(src, sub) then 1 else 0;
    if VectorsInOrder(src, sub) {
      forall i, j | 0 <= i < |rest| && 0 <= j < |src[1..]| && src[1..][j].key == rest[i].key
        ensures IsSubsequence(rest[i].pulses, src[1..][j].pulses)
      {
        assert rest[i] == sub[i + k] && src[1..][j] == src[j + 1];
      }
    }
    if (Hit(src, sub) ==> IsSubsequence(sub[0].pulses, src[0].pulses)) && VectorsInOrder(src[1..], rest) {
      forall i, j | 0 <= i < |sub| && 0 <= j < |src| && src[j].key == sub[i].key
        ensures IsSubsequence(sub[i].pulses, src[j].pulses)
      {
        if j == 0 {
          FirstKeyIsHit(src, sub, i);
        } else {
          if k == 1 && i == 0 { assert false; }
          assert rest[i - k] == sub[i] && src[1..][j - 1] == src[j];
        }
      }
    }
  }

  /** A matched vector contributes its own entry exactly when it is a subsequence. */
  lemma FillEntry<T(!new)>(sup: seq<T>, sub: seq<T>)
    ensures Any(Fill(sup, sub)) ==> sub != []
    ensures sub == [] ==> IsSubsequence(sub, sup)
    ensures IsSubsequence(sub, sup) ==> Select(Fill(sup, sub), sup) == sub && (Any(Fill(sup, sub)) <==> sub != [])
    ensures !IsSubsequence(sub, sup) ==> Select(Fill(sup, sub), sup) != sub
  {
    FillIff(sup, sub);
    FillEmpty(sup);
    SelectLength(Fill(sup, sub), sup);
    CountZero(Fill(sup, sub));
  }

  lemma {:induction false} FillEmpty<T(!new)>(sup: seq<T>)
    ensures !Any(Fill(sup, [])) && Select(Fill(sup, []), sup) == []
  {
    if sup != [] { FillEmpty(sup[1..]); }
  }

  /**
   * Applying the mask made from `sub` gives back `sub`, less its keys without
   * pulses, exactly when `sub` is an ordered subset of the source.
   */
  lemma {:induction false} SubsetRoundTrip(src: PulseMap, sub: PulseMap)
    requires Sorted(src) && Sorted(sub) && KeysPresent(src, sub)
    ensures Fits(SubsetMask(src, sub), Lens(src))
    ensures Masked(SubsetMask(src, sub), src) == DropEmpty(sub) <==> VectorsInOrder(src, sub)
    decreases |src|
  {
    SubsetMaskFits(src, sub);
    if src != [] {
      RestPresent(src, sub);
      RestInOrder(src, sub);
      SubsetRoundTrip(src[1..], Rest(src, sub));
      RoundTripStep(src, sub);
    }
  }

  lemma OtherKey(m: PulseMap, i: nat)
    requires Sorted(m) && 0 < i < |m|
    ensures m[0].key != m[i].key
  {
    assert KeyLess(m[0].key, m[i].key);
  }

  lemma FirstHit(src: PulseMap, sub: PulseMap)
    requires Sorted(src) && Sorted(sub) && KeysPresent(src, sub) && src != []
    ensures Hit(src, sub) <==> HasKey(sub, src[0].key)
  {
    if Hit(src, sub) { HasKeyAt(sub, 0); }
    if HasKey(sub, src[0].key) {
      var k := KeyAt(sub, src[0].key);
      FirstKeyIsHit(src, sub, k);
    }
  }

  /** The subset's mask has the keys of the subset on, each with the greedy match of its vectors, and no other. */
  lemma {:induction false} SubsetRows(src: PulseMap, sub: PulseMap, i: nat, j: nat)
    requires Sorted(src) && Sorted(sub) && KeysPresent(src, sub) && i < |src|
    ensures Fits(SubsetMask(src, sub), Lens(src))
    ensures SubsetMask(src, sub).keys[i] <==> HasKey(sub, src[i].key)
    ensures j < |sub| && sub[j].key == src[i].key ==>
              Dense(SubsetMask(src, sub), Lens(src))[i] == Fill(src[i].pulses, sub[j].pulses)
    decreases |src|
  {
    hide HasKey;
    hide KeysPresent;
    hide Fill;
    hide Sorted;
    hide Fits;
    hide Dense;
    SubsetMaskFits(src, sub);
    SubsetMaskFits(src[1..], Rest(src, sub));
    RestPresent(src, sub);
    FirstHit(src, sub);
    assert Lens(src)[1..] == Lens(src[1..]);
    var row := if Hit(src, sub) then Fill(src[0].pulses, sub[0].pulses) else Zeros(|src[0].pulses|);
    DenseSubset(src, sub, row);
    if i == 0 {
      if j < |sub| && sub[j].key == src[0].key { FirstKeyIsHit(src, sub, j); }
    } else {
      OtherKey(src, i);
      assert src[1..][i - 1] == src[i];
      if Hit(src, sub) { HasKeyTail(sub, src[i].key); }
      SubsetRows(src[1..], Rest(src, sub), i - 1, if Hit(src, sub) && j > 0 then j - 1 else j);
    }
  }

  /** The dense form of the subset's mask, one key at a time. */
  lemma DenseSubset(src: PulseMap, sub: PulseMap, row: seq<bool>)
    requires src != []
    requires row == if Hit(src, sub) then Fill(src[0].pulses, sub[0].pulses) else Zeros(|src[0].pulses|)
    ensures Fits(SubsetMask(src, sub), Lens(src)) && Fits(SubsetMask(src[1..], Rest(src, sub)), Lens(src[1..]))
    ensures Dense(SubsetMask(src, sub), Lens(src)) ==
            [row] + Dense(SubsetMask(src[1..], Rest(src, sub)), Lens(src[1..]))
  {
    hide Dense;
    SubsetMaskFits(src[1..], Rest(src, sub));
    assert Lens(src)[1..] == Lens(src[1..]);
    ConsPairs(Hit(src, sub), row, SubsetMask(src[1..], Rest(src, sub)), Lens(src));
  }

  lemma KeyAt(m: PulseMap, key: OMKey) returns (j: nat)
    requires HasKey(m, key)
    ensures j < |m| && m[j].key == key
  {
    j :| 0 <= j < |m| && m[j].key == key;
  }

  /** The check looks at keys only: a pulse that is not in the source passes it, and is not given back. */
  lemma WrongSubset(k: OMKey, p: RecoPulse, q: RecoPulse)
    requires p != q
    ensures var src, sub := [Entry(k, [p])], [Entry(k, [q])];
            && KeysPresent(src, sub) && Fits(SubsetMask(src, sub), Lens(src))
            && Masked(SubsetMask(src, sub), src) != DropEmpty(sub)
  {
    var src, sub := [Entry(k, [p])], [Entry(k, [q])];
    HasKeyAt(src, 0);
    FillIff([p], [q]);
    assert Select(Fill([p], [q]), [p]) == [];
    assert !IsSubsequence(sub[0].pulses, src[0].pulses);
    SubsetRoundTrip(src, sub);
  }

  lemma RoundTripStep(src: PulseMap, sub: PulseMap)
    requires src != [] && Sorted(src) && Fits(SubsetMask(src, sub), Lens(src))
    requires Fits(SubsetMask(src[1..], Rest(src, sub)), Lens(src[1..]))
    ensures Masked(SubsetMask(src, sub), src) == DropEmpty(sub) <==>
              && (Hit(src, sub) ==> IsSubsequence(sub[0].pulses, src[0].pulses))
              && Masked(SubsetMask(src[1..], Rest(src, sub)), src[1..]) == DropEmpty(Rest(src, sub))
  {
    SubsetTail(src, sub);
    if Hit(src, sub) {
      var tail := SubsetMask(src[1..], sub[1..]);
      var bits := Fill(src[0].pulses, sub[0].pulses);
      FillEntry(src[0].pulses, sub[0].pulses);
      NoEarlierKey(tail, src);
      HeadsAndTails(if Any(bits) then [Entry(src[0].key, Select(bits, src[0].pulses))] else [], Masked(tail, src[1..]),
                    if sub[0].pulses == [] then [] else [sub[0]], DropEmpty(sub[1..]), src[0].key);
    }
  }

  lemma NoEarlierKey(tail: Mask, src: PulseMap)
    requires src != [] && Sorted(src) && Fits(tail, Lens(src[1..]))
    ensures forall e :: e in Masked(tail, src[1..]) ==> e.key != src[0].key
  {
    forall e | e in Masked(tail, src[1..]) ensures e.key != src[0].key {
      MaskedKeys(tail, src[1..], e);
      assert HasKey(src[1..], e.key);
      var j :| 0 <= j < |src[1..]| && src[1..][j].key == e.key;
      assert KeyLess(src[0].key, src[j + 1].key);
    }
  }

  lemma HeadsAndTails(h: PulseMap, t: PulseMap, h': PulseMap, t': PulseMap, key: OMKey)
    requires |h| <= |h'| <= 1 && (forall e :: e in h' ==> e.key == key) && (forall e :: e in t ==> e.key != key)
    ensures h + t == h' + t' <==> h == h' && t == t'
  {
    if h == [] && h' != [] {
      assert (h' + t')[0] == h'[0] && h'[0] in h';
      if t != [] { assert (h + t)[0] == t[0] && t[0] in t; }
    } else if h + t == h' + t' {
      assert t == (h + t)[|h|..] && t' == (h' + t')[|h'|..];
      assert h == (h + t)[..|h|] && h' == (h' + t')[..|h'|];
    }
  }

  lemma SubsetTail(src: PulseMap, sub: PulseMap)
    requires src != [] && Fits(SubsetMask(src, sub), Lens(src))
    ensures Fits(SubsetMask(src[1..], Rest(src, sub)), Lens(src[1..]))
    ensures Masked(SubsetMask(src, sub), src) ==
            (if Hit(src, sub) && Any(Fill(src[0].pulses, sub[0].pulses))
             then [Entry(src[0].key, Select(Fill(src[0].pulses, sub[0].pulses), src[0].pulses))] else []) +
            Masked(SubsetMask(src[1..], Rest(src, sub)), src[1..])
  {
    var row := if Hit(src, sub) then Fill(src[0].pulses, sub[0].pulses) else [];
    ConsTail(Hit(src, sub), row, SubsetMask(src[1..], Rest(src, sub)));
    TailFits(SubsetMask(src, sub), src);
  }

  // ----- the mask of a predicate -----

  function Keep(keep: (OMKey, nat, RecoPulse) -> bool, key: OMKey, idx: nat, v: seq<RecoPulse>): (bits: seq<bool>)
    ensures |bits| == |v|
    decreases |v|
  {
    if v == [] then [] else [keep(key, idx, v[0])] + Keep(keep, key, idx + 1, v[1..])
  }

  function PredicateMask(src: PulseMap, keep: (OMKey, nat, RecoPulse) -> bool): Mask
    decreases |src|
  {
    if src == [] then Mask([], [])
    else
      var row := Keep(keep, src[0].key, 0, src[0].pulses);
      Cons(Any(row), row, PredicateMask(src[1..], keep))
  }

  lemma {:induction false} KeepAt(keep: (OMKey, nat, RecoPulse) -> bool, key: OMKey, idx: nat, v: seq<RecoPulse>,
                                  j: nat)
    requires j < |v|
    ensures Keep(keep, key, idx, v)[j] == keep(key, idx + j, v[j])
    decreases |v|
  {
    if j > 0 { KeepAt(keep, key, idx + 1, v[1..], j - 1); }
  }

  /** The mask of a predicate is canonical and selects exactly the pulses that satisfy it. */
  lemma {:induction false} PredicateMaskPairs(src: PulseMap, keep: (OMKey, nat, RecoPulse) -> bool)
    ensures Fits(PredicateMask(src, keep), Lens(src)) && Canonical(PredicateMask(src, keep))
    ensures forall i, j :: 0 <= i < |src| && 0 <= j < |src[i].pulses| ==>
              Dense(PredicateMask(src, keep), Lens(src))[i][j] == keep(src[i].key, j, src[i].pulses[j])
    decreases |src|
  {
    hide PredicateMask, Compress, Canonical, Fits, Dense, Keep, KeepRows;
    var rows := KeepRows(src, keep);
    CompressDense(rows, Lens(src));
    PredicateIsCompress(src, keep);
    KeepRowsAre(src, keep);
    forall i, j | 0 <= i < |src| && 0 <= j < |src[i].pulses|
      ensures rows[i][j] == keep(src[i].key, j, src[i].pulses[j])
    {
      KeepAt(keep, src[i].key, 0, src[i].pulses, j);
    }
  }

  function KeepRows(src: PulseMap, keep: (OMKey, nat, RecoPulse) -> bool): (rows: seq<seq<bool>>)
    ensures Shaped(rows, Lens(src))
  {
    seq(|src|, i requires 0 <= i < |src| => Keep(keep, src[i].key, 0, src[i].pulses))
  }

  lemma KeepRowsAre(src: PulseMap, keep: (OMKey, nat, RecoPulse) -> bool)
    ensures forall i :: 0 <= i < |src| ==> KeepRows(src, keep)[i] == Keep(keep, src[i].key, 0, src[i].pulses)
  {
  }

  lemma {:induction false} PredicateIsCompress(src: PulseMap, keep: (OMKey, nat, RecoPulse) -> bool)
    ensures PredicateMask(src, keep) == Compress(KeepRows(src, keep))
    decreases |src|
  {
    if src != [] {
      PredicateIsCompress(src[1..], keep);
      assert KeepRows(src, keep)[1..] == KeepRows(src[1..], keep);
    }
  }
}
