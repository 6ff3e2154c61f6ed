/**
 * Masks of masks. A mask made from a masked map has one key bit per key that
 * survived its parent and one pulse bit per pulse that survived; collapsing
 * the two levels is an AND whose operands are not aligned.
 */
module MaskChain {
  import opened Pulses
  import opened MaskAlgebra
  import opened MaskOps
  import opened MaskApply

  /** The vector lengths of the map a mask produces. */
  function ChildLens(p: Mask): seq<nat>
    requires Aligned(p)
    decreases |p.keys|
  {
    if p.keys == [] then []
    else
      AlignedTail(p);
      if p.keys[0] && Any(p.elems[0]) then [Count(p.elems[0])] + ChildLens(Tail(p)) else ChildLens(Tail(p))
  }

  lemma AlignedTail(p: Mask)
    requires Aligned(p) && p.keys != []
    ensures p.keys[0] ==> p.elems != []
    ensures Aligned(Tail(p))
  {
  }

  lemma {:induction false} FitsAligned(m: Mask, lens: seq<nat>)
    requires Fits(m, lens)
    ensures Aligned(m)
    decreases |lens|
  {
    if lens != [] { FitsAligned(Tail(m), lens[1..]); }
  }

  lemma {:induction false} MaskedLens(p: Mask, src: PulseMap)
    requires Fits(p, Lens(src)) && Aligned(p)
    ensures Lens(Masked(p, src)) == ChildLens(p)
    decreases |src|
  {
    if src != [] {
      TailFits(p, src);
      AlignedTail(p);
      MaskedLens(Tail(p), src[1..]);
      if p.keys[0] { SelectLength(p.elems[0], src[0].pulses); }
    }
  }

  /** Spread the daughter's bits over the set bits of the parent's row. */
  function UnalignedAnd(p: seq<bool>, d: seq<bool>): (r: seq<bool>)
    requires |d| == Count(p)
    ensures |r| == |p|
    decreases |p|
  {
    if p == [] then []
    else if p[0] then [d[0]] + UnalignedAnd(p[1..], d[1..])
    else [false] + UnalignedAnd(p[1..], d)
  }

  lemma {:induction false} UnalignedAndSelect<T>(p: seq<bool>, d: seq<bool>, v: seq<T>)
    requires |d| == Count(p) && |v| == |p|
    ensures |Select(p, v)| == |d|
    ensures Select(UnalignedAnd(p, d), v) == Select(d, Select(p, v))
    ensures Count(UnalignedAnd(p, d)) == Count(d)
    decreases |p|
  {
    if p != [] {
      SelectLength(p, v);
      UnalignedAndSelect(p[1..], if p[0] then d[1..] else d, v[1..]);
      assert Select(p, v) == (if p[0] then [v[0]] else []) + Select(p[1..], v[1..]);
      if p[0] {
        assert Select(p, v)[1..] == Select(p[1..], v[1..]);
      } else {
        assert Select(p, v) == Select(p[1..], v[1..]);
      }
    }
  }

  /** One mask for the two levels `p`, then `d`. */
  function Collapse(p: Mask, d: Mask): Mask
    requires Aligned(p) && Fits(d, ChildLens(p))
    decreases |p.keys|
  {
    if p.keys == [] then Mask([], [])
    else
      AlignedTail(p);
      if !p.keys[0] || !Any(p.elems[0]) then Cons(false, [], Collapse(Tail(p), d))
      else
        ChildTail(p, d);
        if d.keys[0] then
          Cons(true, UnalignedAnd(p.elems[0], d.elems[0]), Collapse(Tail(p), Tail(d)))
        else
          Cons(false, [], Collapse(Tail(p), Tail(d)))
  }

  lemma ChildTail(p: Mask, d: Mask)
    requires Aligned(p) && Fits(d, ChildLens(p)) && p.keys != []
    requires p.keys[0] && Any(p.elems[0])
    ensures d.keys != [] && (d.keys[0] ==> d.elems != [] && |d.elems[0]| == Count(p.elems[0]))
    ensures Aligned(Tail(p)) && Fits(Tail(d), ChildLens(Tail(p)))
  {
    AlignedTail(p);
    assert ChildLens(p)[1..] == ChildLens(Tail(p));
  }

  /** One step of the collapse. */
  lemma CollapseStep(p: Mask, d: Mask)
    requires Aligned(p) && Fits(d, ChildLens(p)) && p.keys != []
    ensures (p.keys[0] ==> p.elems != []) && Aligned(Tail(p))
    ensures !p.keys[0] || !Any(p.elems[0]) ==>
              Fits(d, ChildLens(Tail(p))) && Collapse(p, d) == Cons(false, [], Collapse(Tail(p), d))
    ensures p.keys[0] && Any(p.elems[0]) ==>
              && d.keys != [] && (d.keys[0] ==> d.elems != [] && |d.elems[0]| == Count(p.elems[0]))
              && Fits(Tail(d), ChildLens(Tail(p)))
              && Collapse(p, d) ==
                   if d.keys[0] then Cons(true, UnalignedAnd(p.elems[0], d.elems[0]), Collapse(Tail(p), Tail(d)))
                   else Cons(false, [], Collapse(Tail(p), Tail(d)))
  {
    AlignedTail(p);
    if p.keys[0] && Any(p.elems[0]) {
      ChildTail(p, d);
    }
  }

  /** Collapsing keeps the alignment: the result fits the grandparent's map. */
  lemma {:induction false} CollapseFits(p: Mask, d: Mask, lens: seq<nat>)
    requires Fits(p, lens) && Aligned(p) && Fits(d, ChildLens(p))
    ensures Fits(Collapse(p, d), lens)
    decreases |lens|
  {
    if lens != [] {
      AlignedTail(p);
      if !p.keys[0] || !Any(p.elems[0]) {
        CollapseFits(Tail(p), d, lens[1..]);
        ConsTail(false, [], Collapse(Tail(p), d));
      } else {
        ChildTail(p, d);
        CollapseFits(Tail(p), Tail(d), lens[1..]);
        if d.keys[0] {
          ConsTail(true, UnalignedAnd(p.elems[0], d.elems[0]), Collapse(Tail(p), Tail(d)));
        } else {
          ConsTail(false, [], Collapse(Tail(p), Tail(d)));
        }
      }
    }
  }

  /** The keys that the map a mask produces has. */
  function Live(p: Mask): seq<bool>
    requires Aligned(p)
    decreases |p.keys|
  {
    if p.keys == [] then []
    else
      AlignedTail(p);
      [p.keys[0] && Any(p.elems[0])] + Live(Tail(p))
  }

  lemma {:induction false} LiveAt(p: Mask, i: nat)
    requires Aligned(p) && i < |p.keys|
    ensures |Live(p)| == |p.keys|
    ensures p.keys[i] ==> Rank(p.keys, i) < |p.elems|
    ensures Live(p)[i] <==> p.keys[i] && Any(p.elems[Rank(p.keys, i)])
    decreases |p.keys|
  {
    hide Rank;
    AlignedTail(p);
    RankZero(p.keys);
    if i > 0 {
      LiveAt(Tail(p), i - 1);
      RankTail(p, i);
      assert Tail(p).keys[i - 1] == p.keys[i];
    } else if |p.keys| > 1 {
      LiveAt(Tail(p), 0);
    }
  }

  /** The collapsed mask has those keys on that the parent leaves pulses for and the daughter has on. */
  lemma {:induction false} CollapseKeys(p: Mask, d: Mask)
    requires Aligned(p) && Fits(d, ChildLens(p))
    ensures |d.keys| == Count(Live(p)) && Collapse(p, d).keys == UnalignedAnd(Live(p), d.keys)
    decreases |p.keys|
  {
    if p.keys != [] {
      CollapseStep(p, d);
      if !p.keys[0] || !Any(p.elems[0]) {
        CollapseKeys(Tail(p), d);
      } else {
        CollapseKeys(Tail(p), Tail(d));
      }
      assert Live(p)[1..] == Live(Tail(p));
    }
  }

  /** Applying the collapsed mask is applying the parent, then the daughter. */
  lemma {:induction false} CollapseMasked(p: Mask, d: Mask, src: PulseMap)
    requires Fits(p, Lens(src)) && Aligned(p) && Fits(d, ChildLens(p))
    requires Fits(Collapse(p, d), Lens(src)) && Fits(d, Lens(Masked(p, src)))
    ensures Masked(Collapse(p, d), src) == Masked(d, Masked(p, src))
    decreases |src|
  {
    if src != [] {
      AlignedTail(p);
      TailFits(p, src);
      TailFits(Collapse(p, d), src);
      if !p.keys[0] || !Any(p.elems[0]) {
        ConsTail(false, [], Collapse(Tail(p), d));
        CollapseMasked(Tail(p), d, src[1..]);
      } else {
        ChildTail(p, d);
        MaskedLens(Tail(p), src[1..]);
        var mid := Masked(p, src);
        assert mid[1..] == Masked(Tail(p), src[1..]);
        if d.keys[0] {
          var row := UnalignedAnd(p.elems[0], d.elems[0]);
          ConsTail(true, row, Collapse(Tail(p), Tail(d)));
          UnalignedAndSelect(p.elems[0], d.elems[0], src[0].pulses);
          CountZero(row);
          CountZero(d.elems[0]);
        } else {
          ConsTail(false, [], Collapse(Tail(p), Tail(d)));
        }
        CollapseMasked(Tail(p), Tail(d), src[1..]);
      }
    }
  }

  /** Both facts from what a caller knows: the daughter was made from the masked map. */
  lemma CollapseCorrect(p: Mask, d: Mask, src: PulseMap)
    requires Fits(p, Lens(src)) && Fits(d, Lens(Masked(p, src)))
    ensures Aligned(p) && Fits(d, ChildLens(p))
    ensures Fits(Collapse(p, d), Lens(src))
    ensures Masked(Collapse(p, d), src) == Masked(d, Masked(p, src))
    ensures Sum(Collapse(p, d).elems) == Sum(d.elems)
  {
    FitsAligned(p, Lens(src));
    MaskedLens(p, src);
    CollapseFits(p, d, Lens(src));
    CollapseMasked(p, d, src);
    MaskedTotal(Collapse(p, d), src);
    MaskedTotal(d, Masked(p, src));
  }

  // ----- chains of masks in a frame -----

  datatype Stored = AMap(pulses: PulseMap) | AMask(source: string, mask: Mask)

  /** What a frame holds under its names, as far as pulses are concerned. */
  type Store = map<string, Stored>

  /** `names` leads from mask to mask by their sources and ends at a map. */
  predicate Chain(st: Store, names: seq<string>)
    decreases |names|
  {
    && names != [] && names[0] in st
    && match st[names[0]]
       case AMap(_) => |names| == 1
       case AMask(source, _) => |names| > 1 && source == names[1] && Chain(st, names[1..])
  }

  /** Every mask of the chain was made from the map its source stands for. */
  predicate ChainFits(st: Store, names: seq<string>)
    requires Chain(st, names)
    decreases |names|, 0
  {
    st[names[0]].AMap? ||
    (ChainFits(st, names[1..]) && Fits(st[names[0]].mask, Lens(Resolve(st, names[1..]))))
  }

  /** The map a name stands for: each mask of the chain applied in turn. */
  function Resolve(st: Store, names: seq<string>): PulseMap
    requires Chain(st, names) && ChainFits(st, names)
    decreases |names|, 1
  {
    match st[names[0]]
    case AMap(pulses) => pulses
    case AMask(_, mask) => Masked(mask, Resolve(st, names[1..]))
  }

  /** A chain is fixed by its first name, so a chain of masks never meets a name twice. */
  lemma {:induction false} ChainUnique(st: Store, a: seq<string>, b: seq<string>)
    requires Chain(st, a) && Chain(st, b) && a[0] == b[0]
    ensures a == b
    decreases |a|
  {
    if st[a[0]].AMask? {
      ChainUnique(st, a[1..], b[1..]);
      assert a == [a[0]] + a[1..] && b == [b[0]] + b[1..];
    }
  }

  /** Collapse `mask`, made from `names[0]`, down to `names[k]`, one level at a time. */
  function Repoint(st: Store, names: seq<string>, mask: Mask, k: nat): Mask
    requires Chain(st, names) && ChainFits(st, names) && k < |names|
    requires Fits(mask, Lens(Resolve(st, names)))
    decreases k
  {
    if k == 0 then mask
    else
      CollapseCorrect(st[names[0]].mask, mask, Resolve(st, names[1..]));
      Repoint(st, names[1..], Collapse(st[names[0]].mask, mask), k - 1)
  }

  lemma {:induction false} SuffixChain(st: Store, names: seq<string>, k: nat)
    requires Chain(st, names) && ChainFits(st, names) && k < |names|
    ensures Chain(st, names[k..]) && ChainFits(st, names[k..])
    decreases k
  {
    if k == 0 {
      assert names[0..] == names;
    } else {
      SuffixChain(st, names[1..], k - 1);
      assert names[1..][k - 1..] == names[k..];
    }
  }

  /**
   * Repointing to any ancestor gives a mask of that ancestor's map that selects
   * the pulses the whole chain of masks selects, and as many of them.
   */
  lemma {:induction false} RepointCorrect(st: Store, names: seq<string>, mask: Mask, k: nat)
    requires Chain(st, names) && ChainFits(st, names) && k < |names|
    requires Fits(mask, Lens(Resolve(st, names)))
    ensures Chain(st, names[k..]) && ChainFits(st, names[k..])
    ensures Fits(Repoint(st, names, mask, k), Lens(Resolve(st, names[k..])))
    ensures Masked(Repoint(st, names, mask, k), Resolve(st, names[k..])) == Masked(mask, Resolve(st, names))
    ensures Sum(Repoint(st, names, mask, k).elems) == Sum(mask.elems)
    decreases k
  {
    SuffixChain(st, names, k);
    if k == 0 {
      assert names[0..] == names;
    } else {
      CollapseCorrect(st[names[0]].mask, mask, Resolve(st, names[1..]));
      RepointCorrect(st, names[1..], Collapse(st[names[0]].mask, mask), k - 1);
      assert names[1..][k - 1..] == names[k..];
    }
  }

  lemma RepointZero(st: Store, names: seq<string>, mask: Mask)
    requires Chain(st, names) && ChainFits(st, names) && Fits(mask, Lens(Resolve(st, names)))
    ensures Repoint(st, names, mask, 0) == mask
  {
  }

  /** One more level of `Repoint` is one more collapse at the end. */
  lemma {:induction false} RepointStep(st: Store, names: seq<string>, mask: Mask, k: nat)
    requires Chain(st, names) && ChainFits(st, names) && k + 1 < |names|
    requires Fits(mask, Lens(Resolve(st, names)))
    ensures names[k] in st && st[names[k]].AMask? && st[names[k]].source == names[k + 1]
    ensures var p, d := st[names[k]].mask, Repoint(st, names, mask, k);
            Aligned(p) && Fits(d, ChildLens(p)) && Repoint(st, names, mask, k + 1) == Collapse(p, d)
    decreases k
  {
    var p := st[names[0]].mask;
    CollapseCorrect(p, mask, Resolve(st, names[1..]));
    if k > 0 {
      RepointStep(st, names[1..], Collapse(p, mask), k - 1);
    } else {
      assert Repoint(st, names[1..], Collapse(p, mask), 0) == Collapse(p, mask);
    }
  }

  /** A chain never meets the same name twice. */
  lemma {:induction false} ChainDistinct(st: Store, names: seq<string>, i: nat, j: nat)
    requires Chain(st, names) && ChainFits(st, names) && i < |names| && j < |names| && names[i] == names[j]
    ensures i == j
  {
    SuffixChain(st, names, i);
    SuffixChain(st, names, j);
    ChainUnique(st, names[i..], names[j..]);
  }

  /** The names `HasAncestor` visits: from mask to source until a name is no mask. */
  predicate Walk(st: Store, names: seq<string>)
    decreases |names|
  {
    && names != []
    && if names[0] in st && st[names[0]].AMask?
       then |names| > 1 && st[names[0]].source == names[1] && Walk(st, names[1..])
       else |names| == 1
  }

  lemma {:induction false} ChainIsWalk(st: Store, names: seq<string>)
    requires Chain(st, names)
    ensures Walk(st, names)
    decreases |names|
  {
    if st[names[0]].AMask? { ChainIsWalk(st, names[1..]); }
  }
}
