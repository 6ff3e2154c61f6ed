/**
 * Collapsing a mask onto its parent, in place on a copy of the parent: five
 * iterators move at different speeds over the parent's keys and rows, the
 * daughter's keys and rows, and the rows of the copy, some of which are erased.
 */
module BitmaskCollapse {
  import opened MaskAlgebra
  import opened MaskChain
  import opened Bitmasks
  import opened BitmaskLists

  /** Where the five iterators stand. */
  datatype Iters = Iters(key: nat, row: nat, dkey: nat, drow: nat, dest: nat)

  /** A key turned off and a row erased. */
  function Erased(m: Mask, i: nat, dest: nat): Mask
    requires i < |m.keys| && dest < |m.elems|
  {
    Mask(m.keys[i := false], m.elems[..dest] + m.elems[dest + 1..])
  }

  /** The copy holds the finished part of the result, then the untouched rest of the parent. */
  ghost predicate Collapsing(p: Mask, d: Mask, at: Iters, t: Mask) {
    && Aligned(p) && Fits(d, ChildLens(p))
    && at.key <= |p.keys| == |t.keys| && at.row <= |p.elems| && at.dkey <= |d.keys| && at.drow <= |d.elems|
    && at.dest <= |t.elems| && t.keys[at.key..] == p.keys[at.key..] && t.elems[at.dest..] == p.elems[at.row..]
    && var lp, ld := Left(p, at.key, at.row), Left(d, at.dkey, at.drow);
       && Aligned(lp) && Fits(ld, ChildLens(lp))
       && var r := Collapse(lp, ld);
          Collapse(p, d) == Mask(t.keys[..at.key] + r.keys, t.elems[..at.dest] + r.elems)
  }

  lemma CollapsingStart(p: Mask, d: Mask)
    requires Aligned(p) && Fits(d, ChildLens(p))
    ensures Collapsing(p, d, Iters(0, 0, 0, 0, 0), p)
  {
    assert Left(p, 0, 0) == p && Left(d, 0, 0) == d;
    var r := Collapse(p, d);
    assert p.keys[..0] + r.keys == r.keys && p.elems[..0] + r.elems == r.elems;
  }

  lemma CollapsingDone(p: Mask, d: Mask, at: Iters, t: Mask)
    requires Collapsing(p, d, at, t) && at.key == |p.keys|
    ensures Collapse(p, d) == t
  {
    assert t.keys[..at.key] + [] == t.keys;
    assert Left(p, at.key, at.row).elems == [];
    assert t.elems[..at.dest] + [] == t.elems;
  }

  /** What the iterators point at. */
  lemma CollapsingHeads(p: Mask, d: Mask, at: Iters, t: Mask)
    requires Collapsing(p, d, at, t) && at.key < |p.keys|
    ensures |t.keys| == |p.keys| && t.keys[at.key] == p.keys[at.key]
    ensures p.keys[at.key] ==> at.row < |p.elems| && at.dest < |t.elems| && t.elems[at.dest] == p.elems[at.row]
    ensures p.keys[at.key] && Any(p.elems[at.row]) ==>
              && at.dkey < |d.keys|
              && (d.keys[at.dkey] ==> at.drow < |d.elems| && |d.elems[at.drow]| == Count(p.elems[at.row]))
  {
    hide Collapse, Fits, Aligned, ChildLens, Count, UnalignedAnd, Any;
    var lp, ld := Left(p, at.key, at.row), Left(d, at.dkey, at.drow);
    assert t.keys[at.key..][0] == p.keys[at.key..][0];
    CollapseStep(lp, ld);
    if p.keys[at.key] {
      assert lp.elems[0] == p.elems[at.row];
      assert t.elems[at.dest..][0] == p.elems[at.row..][0];
    }
  }

  /** A key the parent does not have: nothing moves but the key iterator. */
  lemma SkipOff(p: Mask, d: Mask, at: Iters, t: Mask)
    requires Collapsing(p, d, at, t) && at.key < |p.keys| && !p.keys[at.key]
    ensures Collapsing(p, d, at.(key := at.key + 1), t)
  {
    hide Collapse, Fits, Aligned, ChildLens, Count, UnalignedAnd, Any;
    var lp, ld := Left(p, at.key, at.row), Left(d, at.dkey, at.drow);
    LeftTail(p, at.key, at.row);
    CollapseStep(lp, ld);
    assert t.keys[at.key..][0] == p.keys[at.key..][0];
    assert t.keys[at.key + 1..] == t.keys[at.key..][1..] == p.keys[at.key..][1..] == p.keys[at.key + 1..];
    var r := Collapse(Tail(lp), ld);
    assert t.keys[..at.key] + ([false] + r.keys) == t.keys[..at.key + 1] + r.keys;
  }

  lemma KeysAfterErase(p: Mask, at: Iters, t: Mask, r: Mask)
    requires at.key < |p.keys| == |t.keys| && at.dest < |t.elems| && at.row < |p.elems|
    requires t.keys[at.key..] == p.keys[at.key..] && t.elems[at.dest..] == p.elems[at.row..]
    ensures t.keys[at.key := false][at.key + 1..] == p.keys[at.key + 1..]
    ensures Erased(t, at.key, at.dest).elems[at.dest..] == p.elems[at.row + 1..]
    ensures t.keys[..at.key] + ([false] + r.keys) == t.keys[at.key := false][..at.key + 1] + r.keys
    ensures t.elems[..at.dest] + r.elems == Erased(t, at.key, at.dest).elems[..at.dest] + r.elems
  {
    assert t.keys[at.key + 1..] == t.keys[at.key..][1..];
    assert t.elems[at.dest + 1..] == t.elems[at.dest..][1..];
  }

  /** A key with no pulse left in the parent: its row goes, and the daughter never had the key. */
  lemma EraseEmpty(p: Mask, d: Mask, at: Iters, t: Mask)
    requires Collapsing(p, d, at, t) && at.key < |p.keys| && p.keys[at.key]
    requires at.row < |p.elems| && at.dest < |t.elems| && |t.keys| == |p.keys| && !Any(p.elems[at.row])
    ensures Collapsing(p, d, at.(key := at.key + 1, row := at.row + 1), Erased(t, at.key, at.dest))
  {
    hide Collapse, Fits, Aligned, ChildLens, Count, UnalignedAnd, Any;
    var lp := Left(p, at.key, at.row);
    LeftTail(p, at.key, at.row);
    CollapseStep(lp, Left(d, at.dkey, at.drow));
    KeysAfterErase(p, at, t, Collapse(Tail(lp), Left(d, at.dkey, at.drow)));
  }

  /** A key the daughter turned off: its row goes. */
  lemma EraseOff(p: Mask, d: Mask, at: Iters, t: Mask)
    requires Collapsing(p, d, at, t) && at.key < |p.keys| && p.keys[at.key]
    requires at.row < |p.elems| && at.dest < |t.elems| && |t.keys| == |p.keys| && Any(p.elems[at.row])
    requires at.dkey < |d.keys| && !d.keys[at.dkey]
    ensures Collapsing(p, d, at.(key := at.key + 1, row := at.row + 1, dkey := at.dkey + 1),
                       Erased(t, at.key, at.dest))
  {
    hide Collapse, Fits, Aligned, ChildLens, Count, UnalignedAnd, Any;
    var lp, ld := Left(p, at.key, at.row), Left(d, at.dkey, at.drow);
    LeftTail(p, at.key, at.row);
    CollapseStep(lp, ld);
    LeftTail(d, at.dkey, at.drow);
    KeysAfterErase(p, at, t, Collapse(Tail(lp), Tail(ld)));
  }

  /** A key both have: the row is masked in place. */
  lemma KeepBoth(p: Mask, d: Mask, at: Iters, t: Mask)
    requires Collapsing(p, d, at, t) && at.key < |p.keys| && p.keys[at.key]
    requires at.row < |p.elems| && at.dest < |t.elems| && Any(p.elems[at.row])
    requires at.dkey < |d.keys| && d.keys[at.dkey] && at.drow < |d.elems|
    requires |d.elems[at.drow]| == Count(p.elems[at.row])
    ensures Collapsing(p, d, Iters(at.key + 1, at.row + 1, at.dkey + 1, at.drow + 1, at.dest + 1),
                       t.(elems := t.elems[at.dest := UnalignedAnd(p.elems[at.row], d.elems[at.drow])]))
  {
    hide Collapse, Fits, Aligned, ChildLens, Count, UnalignedAnd, Any;
    var lp, ld := Left(p, at.key, at.row), Left(d, at.dkey, at.drow);
    LeftTail(p, at.key, at.row);
    LeftTail(d, at.dkey, at.drow);
    CollapseStep(lp, ld);
    var row := UnalignedAnd(p.elems[at.row], d.elems[at.drow]);
    var r := Collapse(Tail(lp), Tail(ld));
    var rows' := t.elems[at.dest := row];
    assert t.keys[at.key + 1..] == t.keys[at.key..][1..] && p.keys[at.key + 1..] == p.keys[at.key..][1..];
    assert rows'[at.dest + 1..] == t.elems[at.dest..][1..] && p.elems[at.row + 1..] == p.elems[at.row..][1..];
    assert t.keys[at.key] by { assert t.keys[at.key..][0]; }
    assert t.keys[..at.key] + ([true] + r.keys) == t.keys[..at.key + 1] + r.keys;
    assert t.elems[..at.dest] + ([row] + r.elems) == rows'[..at.dest + 1] + r.elems;
  }

  // ----- on the heap -----

  /** Bits before `i` are done, the daughter's bits before `k` are used up. */
  ghost predicate Anding(p: seq<bool>, d: seq<bool>, i: nat, k: nat, bits: seq<bool>) {
    && i <= |p| == |bits| && k <= |d| == Count(p) && |d[k..]| == Count(p[i..])
    && bits[i..] == p[i..] && UnalignedAnd(p, d) == bits[..i] + UnalignedAnd(p[i..], d[k..])
  }

  lemma AndingStart(p: seq<bool>, d: seq<bool>)
    requires |d| == Count(p)
    ensures Anding(p, d, 0, 0, p)
  {
    assert p[0..] == p && d[0..] == d;
  }

  lemma UnalignedHead(p: seq<bool>, d: seq<bool>)
    requires p != [] && |d| == Count(p)
    ensures p[0] ==> d != []
    ensures |if p[0] then d[1..] else d| == Count(p[1..])
    ensures UnalignedAnd(p, d) == [p[0] && d[0]] + UnalignedAnd(p[1..], if p[0] then d[1..] else d)
  {
  }

  lemma AndingStep(p: seq<bool>, d: seq<bool>, i: nat, k: nat, bits: seq<bool>)
    requires Anding(p, d, i, k, bits) && i < |p| == |bits|
    ensures p[i] ==> k < |d|
    ensures Anding(p, d, i + 1, if p[i] then k + 1 else k, if p[i] && !d[k] then bits[i := false] else bits)
  {
    hide Count, UnalignedAnd;
    UnalignedHead(p[i..], d[k..]);
    assert p[i..][1..] == p[i + 1..] && p[i..][0] == p[i];
    assert bits[i..][0] == bits[i] && bits[i..][1..] == bits[i + 1..];
    if p[i] {
      assert d[k..][0] == d[k] && d[k..][1..] == d[k + 1..];
      AndingOn(p, d, i, k, bits);
    } else {
      assert bits[..i + 1] == bits[..i] + [false];
    }
  }

  lemma AndingOn(p: seq<bool>, d: seq<bool>, i: nat, k: nat, bits: seq<bool>)
    requires i < |p| == |bits| && k < |d| == Count(p) && |d[k + 1..]| == Count(p[i + 1..])
    requires bits[i] && bits[i + 1..] == p[i + 1..]
    requires UnalignedAnd(p, d) == bits[..i] + ([d[k]] + UnalignedAnd(p[i + 1..], d[k + 1..]))
    ensures Anding(p, d, i + 1, k + 1, if !d[k] then bits[i := false] else bits)
  {
    hide Count, UnalignedAnd;
    var bits' := if !d[k] then bits[i := false] else bits;
    assert bits'[..i + 1] == bits[..i] + [d[k]];
  }

  lemma AndingDone(p: seq<bool>, d: seq<bool>, k: nat, bits: seq<bool>)
    requires Anding(p, d, |p|, k, bits)
    ensures |d| == Count(p) && bits == UnalignedAnd(p, d)
  {
    assert bits[..|p|] == bits;
  }

  /** Clear the bits of the copied row that the daughter's row turned off. */
  method AndRow(dest: Bitmask, parent: Bitmask, daughter: Bitmask)
    requires dest.Valid() && parent.Valid() && daughter.Valid()
    requires dest.mask != parent.mask && dest.mask != daughter.mask
    requires dest.Bits() == parent.Bits() && daughter.Length() == Count(parent.Bits())
    modifies dest.mask
    ensures dest.Valid() && dest.Bits() == old(UnalignedAnd(parent.Bits(), daughter.Bits()))
  {
    hide Anding, UnalignedAnd, Count;
    ghost var p, d := parent.Bits(), daughter.Bits();
    var i, k := 0, 0;
    AndingStart(p, d);
    while i < parent.Length()
      invariant 0 <= i <= parent.Length() == dest.Length()
      invariant dest.Valid() && Anding(p, d, i, k, dest.Bits())
    {
      AndingStep(p, d, i, k, dest.Bits());
      var on := parent.Get(i);
      if on {
        var keep := daughter.Get(k);
        if !keep {
          dest.Set(i, false);
        }
        k := k + 1;
      }
      i := i + 1;
    }
    AndingDone(p, d, k, dest.Bits());
  }

  /** The list of the copy: a duplicate of every bitmask. */
  method CopyList(om: Bitmask, es: seq<Bitmask>) returns (om': Bitmask, es': seq<Bitmask>)
    requires Owned(om, es)
    ensures Fresh(om', es') && Owned(om', es') && View(om', es') == old(View(om, es))
    ensures om'.size == om.size
  {
    hide Owned, View;
    om' := CopyFirst(om, es);
    es' := [];
    ghost var m := View(om, es);
    for i := 0 to |es|
      invariant Fresh(om', es') && Owned(om', es') && om'.size == om.size
      invariant View(om', es') == Mask(m.keys, m.elems[..i])
    {
      assert m.elems[..i + 1] == m.elems[..i] + [m.elems[i]];
      es' := CopyRow(om', es', om, es, i);
    }
    assert m.elems[..|es|] == m.elems;
  }

  /** `omkey_mask_.set(key, false)` together with `erase(dest)`. */
  method EraseRowAt(om: Bitmask, es: seq<Bitmask>, i: nat, dest: nat) returns (es': seq<Bitmask>)
    requires Owned(om, es) && i < om.Length() && dest < |es|
    modifies om.mask
    ensures es' == es[..dest] + es[dest + 1..] && Owned(om, es')
    ensures View(om, es') == old(Erased(View(om, es), i, dest))
  {
    hide Owned, View;
    SetKeyBit(om, es, i, false);
    EraseAt(om, es, dest);
    es' := es[..dest] + es[dest + 1..];
  }

  /** Masking one row of the copy, with a row of the parent and one of the daughter, leaves its other rows alone. */
  method AndRowAt(om: Bitmask, es: seq<Bitmask>, dest: nat, parent: Bitmask, daughter: Bitmask)
    requires Owned(om, es) && dest < |es| && parent.Valid() && daughter.Valid()
    requires es[dest].mask != parent.mask && es[dest].mask != daughter.mask
    requires View(om, es).elems[dest] == parent.Bits() && daughter.Length() == Count(parent.Bits())
    modifies es[dest].mask
    ensures Owned(om, es)
    ensures View(om, es) ==
              old(View(om, es).(elems := View(om, es).elems[dest := UnalignedAnd(parent.Bits(), daughter.Bits())]))
  {
    hide UnalignedAnd, Count;
    AndRow(es[dest], parent, daughter);
    assert forall i :: 0 <= i < |es| && i != dest ==> es[i].mask != es[dest].mask && es[i].Bits() == old(es[i].Bits());
  }

  /** Two bitmask lists that share no buffer. */
  ghost predicate Apart(om: Bitmask, es: seq<Bitmask>, om2: Bitmask, es2: seq<Bitmask>)
    reads om, es, om2, es2
  {
    && om.mask != om2.mask
    && (forall e <- es :: e.mask != om2.mask)
    && (forall e <- es2 :: e.mask != om.mask)
    && (forall e <- es, e2 <- es2 :: e.mask != e2.mask)
  }

  /** A key with pulses left in the parent: the daughter decides. */
  method CollapseRow(ghost p: Mask, ghost d: Mask, om1: Bitmask, es1: seq<Bitmask>, om2: Bitmask, es2: seq<Bitmask>,
                     at: Iters, om: Bitmask, es: seq<Bitmask>) returns (at': Iters, es': seq<Bitmask>)
    requires Owned(om1, es1) && Owned(om2, es2) && Owned(om, es)
    requires Apart(om, es, om1, es1) && Apart(om, es, om2, es2)
    requires View(om1, es1) == p && View(om2, es2) == d && at.key < |p.keys| && p.keys[at.key]
    requires at.row < |p.elems| && Any(p.elems[at.row])
    requires Collapsing(p, d, at, View(om, es))
    modifies om.mask, set e | e in es :: e.mask
    ensures Owned(om, es') && (forall e <- es' :: e in es) && om.Length() == old(om.Length())
    ensures at'.key == at.key + 1 && Collapsing(p, d, at', View(om, es'))
  {
    hide Collapsing, Erased, UnalignedAnd, Owned, View;
    CollapsingHeads(p, d, at, View(om, es));
    var on := KeyBit(om2, es2, at.dkey);
    if on {
      KeepBoth(p, d, at, View(om, es));
      RowIs(om1, es1, at.row);
      RowIs(om2, es2, at.drow);
      AndRowAt(om, es, at.dest, es1[at.row], es2[at.drow]);
      at', es' := Iters(at.key + 1, at.row + 1, at.dkey + 1, at.drow + 1, at.dest + 1), es;
    } else {
      EraseOff(p, d, at, View(om, es));
      es' := EraseRowAt(om, es, at.key, at.dest);
      at' := at.(key := at.key + 1, row := at.row + 1, dkey := at.dkey + 1);
    }
  }

  /** One key of the parent. */
  method CollapseAt(ghost p: Mask, ghost d: Mask, om1: Bitmask, es1: seq<Bitmask>, om2: Bitmask, es2: seq<Bitmask>,
                    at: Iters, om: Bitmask, es: seq<Bitmask>) returns (at': Iters, es': seq<Bitmask>)
    requires Owned(om1, es1) && Owned(om2, es2) && Owned(om, es)
    requires Apart(om, es, om1, es1) && Apart(om, es, om2, es2)
    requires View(om1, es1) == p && View(om2, es2) == d && at.key < |p.keys|
    requires Collapsing(p, d, at, View(om, es))
    modifies om.mask, set e | e in es :: e.mask
    ensures Owned(om, es') && (forall e <- es' :: e in es) && om.Length() == old(om.Length())
    ensures at'.key == at.key + 1 && Collapsing(p, d, at', View(om, es'))
  {
    hide Collapsing, Erased, UnalignedAnd, Owned, View;
    CollapsingHeads(p, d, at, View(om, es));
    at', es' := at.(key := at.key + 1), es;
    var on := KeyBit(om1, es1, at.key);
    if !on {
      SkipOff(p, d, at, View(om, es));
    } else {
      var any := RowAny(om1, es1, at.row);
      if any {
        at', es' := CollapseRow(p, d, om1, es1, om2, es2, at, om, es);
      } else {
        EraseEmpty(p, d, at, View(om, es));
        es' := EraseRowAt(om, es, at.key, at.dest);
        at' := at.(key := at.key + 1, row := at.row + 1);
      }
    }
  }

  /** The whole scan: `om1, es1` is the parent, `om2, es2` the daughter. */
  method CollapseScan(om1: Bitmask, es1: seq<Bitmask>, om2: Bitmask, es2: seq<Bitmask>)
    returns (om: Bitmask, es: seq<Bitmask>)
    requires Owned(om1, es1) && Owned(om2, es2)
    requires Aligned(View(om1, es1)) && Fits(View(om2, es2), ChildLens(View(om1, es1)))
    ensures Fresh(om, es) && Owned(om, es)
    ensures View(om, es) == old(Collapse(View(om1, es1), View(om2, es2)))
  {
    hide Collapsing, Collapse, Fits, ChildLens, Aligned, Owned, View;
    ghost var p, d := View(om1, es1), View(om2, es2);
    om, es := CopyList(om1, es1);
    CollapsingStart(p, d);
    var at := Iters(0, 0, 0, 0, 0);
    var n := om1.Length();
    while at.key < n
      invariant 0 <= at.key <= n == |p.keys| == om.Length()
      invariant Fresh(om, es) && Owned(om, es)
      invariant Collapsing(p, d, at, View(om, es))
    {
      at, es := CollapseAt(p, d, om1, es1, om2, es2, at, om, es);
    }
    CollapsingDone(p, d, at, View(om, es));
  }
}
