/**
 * A key bitmask with its list of element bitmasks, as heap objects: who owns
 * which buffer, single edits of the list, and the scans that build a pair of
 * them from a map, from an ordered subset, from a predicate or from two masks.
 */
module BitmaskLists {
  import opened Pulses
  import opened MaskAlgebra
  import opened MaskOps
  import opened MaskApply
  import opened Bitmasks

  /** A list of bitmasks owns its buffers: no two share one, and none shares the key bitmask's. */
  ghost predicate Owned(om: Bitmask, es: seq<Bitmask>)
    reads om, (set e | e in es), om.mask, (set e | e in es :: e.mask)
  {
    && om.Valid()
    && (forall e <- es :: e.Valid() && e.size > 0 && e != om && e.mask != om.mask)
    && (forall i, j :: 0 <= i < j < |es| ==> es[i] != es[j] && es[i].mask != es[j].mask)
  }

  ghost predicate AllValid(es: seq<Bitmask>)
    reads (set e | e in es), (set e | e in es :: e.mask)
  {
    forall e <- es :: e.Valid()
  }

  ghost function Rows(es: seq<Bitmask>): (rows: seq<seq<bool>>)
    requires AllValid(es)
    reads (set e | e in es), (set e | e in es :: e.mask)
    ensures |rows| == |es|
    ensures forall i :: 0 <= i < |es| ==> rows[i] == es[i].Bits()
  {
    seq(|es|, i requires 0 <= i < |es| reads (set e | e in es), (set e | e in es :: e.mask) requires AllValid(es) =>
          es[i].Bits())
  }

  ghost function View(om: Bitmask, es: seq<Bitmask>): (m: Mask)
    requires Owned(om, es)
    reads om, (set e | e in es), om.mask, (set e | e in es :: e.mask)
    ensures |m.keys| == om.Length() && |m.elems| == |es|
  {
    Mask(om.Bits(), Rows(es))
  }

  /** The sizes that 16-bit byte counts can hold. */
  predicate Bounded(src: PulseMap) {
    |src| <= MAX_BITS && forall i :: 0 <= i < |src| ==> |src[i].pulses| <= MAX_BITS
  }

  /** Does the scan of the first keys, continued by `rest`, give the whole mask? */
  ghost predicate Scanned(whole: Mask, t: Mask, i: nat, rest: Mask) {
    i <= |t.keys| && whole == Mask(t.keys[..i] + rest.keys, t.elems + rest.elems)
  }

  lemma ScanStart(whole: Mask, keys: seq<bool>)
    ensures Scanned(whole, Mask(keys, []), 0, whole)
  {
    assert keys[..0] + whole.keys == whole.keys && [] + whole.elems == whole.elems;
  }

  /** A key that is on, with its row. */
  lemma ScanOn(whole: Mask, t: Mask, i: nat, row: seq<bool>, rest: Mask)
    requires i < |t.keys| && t.keys[i] && Scanned(whole, t, i, Cons(true, row, rest))
    ensures Scanned(whole, Mask(t.keys, t.elems + [row]), i + 1, rest)
  {
    assert t.keys[..i] + ([true] + rest.keys) == t.keys[..i + 1] + rest.keys;
    assert t.elems + ([row] + rest.elems) == (t.elems + [row]) + rest.elems;
  }

  lemma ScanOff(whole: Mask, t: Mask, i: nat, row: seq<bool>, rest: Mask)
    requires i < |t.keys| && Scanned(whole, t, i, Cons(false, row, rest))
    ensures Scanned(whole, t.(keys := t.keys[i := false]), i + 1, rest)
    ensures !t.keys[i] ==> Scanned(whole, t, i + 1, rest)
  {
    assert t.keys[..i] + ([false] + rest.keys) == t.keys[i := false][..i + 1] + rest.keys;
    assert !t.keys[i] ==> t.keys[i := false] == t.keys;
  }

  /** A key bit turned on together with its row. */
  lemma ScanStep(whole: Mask, t: Mask, i: nat, row: seq<bool>, rest: Mask)
    requires i < |t.keys| && Scanned(whole, t, i, Cons(true, row, rest))
    ensures Scanned(whole, Mask(t.keys[i := true], t.elems + [row]), i + 1, rest)
  {
    assert t.keys[..i] == t.keys[i := true][..i];
    ScanOn(whole, t.(keys := t.keys[i := true]), i, row, rest);
  }

  lemma ScanDone(whole: Mask, t: Mask)
    requires Scanned(whole, t, |t.keys|, Mask([], []))
    ensures whole == t
  {
    assert t.keys[..|t.keys|] + [] == t.keys && t.elems + [] == t.elems;
  }

  /** The key bits from `i` on still have their first value. */
  ghost predicate Untouched(t: Mask, i: nat, b: bool) {
    forall k :: i <= k < |t.keys| ==> t.keys[k] == b
  }

  /** A bitmask that shares no buffer with a list. */
  ghost predicate Free(om: Bitmask, es: seq<Bitmask>, e: Bitmask)
    reads om, e, (set x | x in es), e.mask
  {
    e.Valid() && e.size > 0 && e != om && e.mask != om.mask && forall x <- es :: x != e && x.mask != e.mask
  }

  lemma Push(om: Bitmask, es: seq<Bitmask>, e: Bitmask)
    requires Owned(om, es) && Free(om, es, e)
    ensures Owned(om, es + [e]) && View(om, es + [e]) == Mask(View(om, es).keys, View(om, es).elems + [e.Bits()])
  {
  }

  /** A bitmask and its buffer were allocated by the running method. */
  twostate predicate Fresh(new om: Bitmask, new es: seq<Bitmask>)
    reads om, es
  {
    fresh(om) && fresh(om.mask) && forall e <- es :: fresh(e) && fresh(e.mask)
  }

  /** Setting a key bit leaves the rows alone. */
  method SetKeyBit(om: Bitmask, es: seq<Bitmask>, i: nat, b: bool)
    requires Owned(om, es) && i < om.Length()
    modifies om.mask
    ensures Owned(om, es) && View(om, es) == old(View(om, es).(keys := View(om, es).keys[i := b]))
  {
    om.Set(i, b);
    assert forall e <- es :: e.mask != om.mask && e.Bits() == old(e.Bits());
  }

  /** One step of a scan that emits a row for a key whose bit is on. */
  lemma EmitRow(whole: Mask, rest: Mask, om: Bitmask, es: seq<Bitmask>, i: nat, e: Bitmask)
    requires Owned(om, es) && Free(om, es, e) && i < om.Length() && View(om, es).keys[i]
    requires Scanned(whole, View(om, es), i, Cons(true, e.Bits(), rest))
    ensures Owned(om, es + [e]) && View(om, es + [e]).keys == View(om, es).keys
    ensures Scanned(whole, View(om, es + [e]), i + 1, rest)
  {
    hide Owned, View, Scanned;
    Push(om, es, e);
    ScanOn(whole, View(om, es), i, e.Bits(), rest);
  }

  /** One step of a scan that turns a key off. */
  method EmitOff(ghost whole: Mask, ghost row: seq<bool>, ghost rest: Mask, om: Bitmask, es: seq<Bitmask>, i: nat)
    requires Owned(om, es) && i < om.Length()
    requires Scanned(whole, View(om, es), i, Cons(false, row, rest))
    modifies om.mask
    ensures Owned(om, es) && View(om, es).keys == old(View(om, es).keys)[i := false]
    ensures Scanned(whole, View(om, es), i + 1, rest)
  {
    hide Owned, View, Scanned;
    ScanOff(whole, View(om, es), i, row, rest);
    SetKeyBit(om, es, i, false);
  }

  /** One step of a scan that turns a key on and emits its row. */
  method EmitOn(ghost whole: Mask, ghost rest: Mask, om: Bitmask, es: seq<Bitmask>, i: nat, e: Bitmask)
    returns (es': seq<Bitmask>)
    requires Owned(om, es) && Free(om, es, e) && i < om.Length()
    requires Scanned(whole, View(om, es), i, Cons(true, e.Bits(), rest))
    modifies om.mask
    ensures es' == es + [e] && Owned(om, es') && View(om, es').keys == old(View(om, es).keys)[i := true]
    ensures Scanned(whole, View(om, es'), i + 1, rest)
  {
    hide Owned, View, Scanned;
    Push(om, es, e);
    ScanStep(whole, View(om, es), i, e.Bits(), rest);
    es' := es + [e];
    SetKeyBit(om, es', i, true);
  }

  /** A copy of the key bitmask owns an empty list. */
  method CopyFirst(om1: Bitmask, es1: seq<Bitmask>) returns (om: Bitmask)
    requires Owned(om1, es1)
    ensures fresh(om) && fresh(om.mask) && Owned(om, [])
    ensures View(om, []) == Mask(View(om1, es1).keys, []) && om.size == om1.size
  {
    om := new Bitmask.Copy(om1);
  }

  /** Append a copy of a row of another list. */
  method CopyRow(om: Bitmask, es: seq<Bitmask>, om1: Bitmask, es1: seq<Bitmask>, i: nat) returns (es': seq<Bitmask>)
    requires Owned(om, es) && Owned(om1, es1) && i < |es1|
    ensures |es'| == |es| + 1 && es'[..|es|] == es && fresh(es'[|es|]) && fresh(es'[|es|].mask)
    ensures Owned(om, es') && View(om, es') == Mask(View(om, es).keys, View(om, es).elems + [View(om1, es1).elems[i]])
  {
    var e := new Bitmask.Copy(es1[i]);
    Push(om, es, e);
    es' := es + [e];
  }

  /** `omkey_mask_.get(i)` */
  method KeyBit(om: Bitmask, es: seq<Bitmask>, i: nat) returns (on: bool)
    requires Owned(om, es) && i < om.Length()
    ensures on == View(om, es).keys[i]
  {
    on := om.Get(i);
  }

  /** `list_it->any()` */
  method RowAny(om: Bitmask, es: seq<Bitmask>, pos: nat) returns (any: bool)
    requires Owned(om, es) && pos < |es|
    ensures any <==> Any(View(om, es).elems[pos])
  {
    any := es[pos].Any();
  }

  /** A row of a list: valid, and with the bits the mask has there. */
  lemma RowIs(om: Bitmask, es: seq<Bitmask>, i: nat)
    requires Owned(om, es) && i < |es|
    ensures es[i].Valid() && es[i].size > 0 && es[i].Bits() == View(om, es).elems[i]
  {
  }

  // ----- edits of the list -----

  lemma InsertAt(om: Bitmask, es: seq<Bitmask>, pos: nat, e: Bitmask)
    requires Owned(om, es) && pos <= |es| && Free(om, es, e)
    ensures Owned(om, es[..pos] + [e] + es[pos..])
    ensures var t := View(om, es);
            View(om, es[..pos] + [e] + es[pos..]) == t.(elems := t.elems[..pos] + [e.Bits()] + t.elems[pos..])
  {
    var es' := es[..pos] + [e] + es[pos..];
    forall x <- es' ensures x == e || x in es {}
    forall i, j | 0 <= i < j < |es'| ensures es'[i] != es'[j] && es'[i].mask != es'[j].mask {
      assert es'[i] == if i < pos then es[i] else if i == pos then e else es[i - 1];
      assert es'[j] == if j < pos then es[j] else if j == pos then e else es[j - 1];
    }
  }

  lemma EraseAt(om: Bitmask, es: seq<Bitmask>, pos: nat)
    requires Owned(om, es) && pos < |es|
    ensures Owned(om, es[..pos] + es[pos + 1..])
    ensures var t := View(om, es);
            View(om, es[..pos] + es[pos + 1..]) == t.(elems := t.elems[..pos] + t.elems[pos + 1..])
  {
    var es' := es[..pos] + es[pos + 1..];
    forall x <- es' ensures x in es {}
    forall i, j | 0 <= i < j < |es'| ensures es'[i] != es'[j] && es'[i].mask != es'[j].mask {
      assert es'[i] == es[if i < pos then i else i + 1];
      assert es'[j] == es[if j < pos then j else j + 1];
    }
  }

  /** `list_it->set(idx, b)` */
  method SetRowBit(om: Bitmask, es: seq<Bitmask>, pos: nat, idx: nat, b: bool)
    requires Owned(om, es) && pos < |es| && idx < |View(om, es).elems[pos]|
    modifies es[pos].mask
    ensures Owned(om, es)
    ensures var t := old(View(om, es)); View(om, es) == t.(elems := t.elems[pos := t.elems[pos][idx := b]])
  {
    es[pos].Set(idx, b);
    assert forall i :: 0 <= i < |es| && i != pos ==> es[i].mask != es[pos].mask && es[i].Bits() == old(es[i].Bits());
  }

  /** A row of zeros with at most one bit set. */
  method NewRow(length: nat, bit: nat) returns (e: Bitmask)
    requires length <= MAX_BITS
    ensures fresh(e) && fresh(e.mask) && e.Valid() && e.size > 0
    ensures e.Bits() == if bit < length then Zeros(length)[bit := true] else Zeros(length)
  {
    e := new Bitmask(length, false);
    if bit < length { e.Set(bit, true); }
  }

  /** `list_it->set_all()` */
  method SetRowAll(om: Bitmask, es: seq<Bitmask>, pos: nat)
    requires Owned(om, es) && pos < |es| && |View(om, es).elems[pos]| > 0
    modifies es[pos].mask
    ensures Owned(om, es)
    ensures var t := old(View(om, es)); View(om, es) == t.(elems := t.elems[pos := Ones(|t.elems[pos]|)])
  {
    es[pos].SetAll();
    assert forall i :: 0 <= i < |es| && i != pos ==> es[i].mask != es[pos].mask && es[i].Bits() == old(es[i].Bits());
  }

  /** `element_masks_ == other.element_masks_` */
  method ListsEqual(om1: Bitmask, es1: seq<Bitmask>, om2: Bitmask, es2: seq<Bitmask>) returns (eq: bool)
    requires Owned(om1, es1) && Owned(om2, es2)
    ensures eq <==> Rows(es1) == Rows(es2)
  {
    ghost var rows1, rows2 := Rows(es1), Rows(es2);
    if |es1| != |es2| {
      return false;
    }
    var i := 0;
    while i < |es1|
      invariant 0 <= i <= |es1|
      invariant forall k :: 0 <= k < i ==> rows1[k] == rows2[k]
    {
      var same := es1[i].Equals(es2[i]);
      assert |rows1[i]| == |rows2[i]| ==> es1[i].size == es2[i].size && es1[i].padding == es2[i].padding;
      if !same {
        return false;
      }
      i := i + 1;
    }
    eq := true;
  }

  // ----- the scans of the three constructors -----

  /** The list a scan step leaves holds old bitmasks and new ones. */
  twostate predicate Grown(es: seq<Bitmask>, new es': seq<Bitmask>)
    reads es'
  {
    forall e <- es' :: e in es || (fresh(e) && fresh(e.mask))
  }

  method MapStep(src: PulseMap, i: nat, om: Bitmask, es: seq<Bitmask>) returns (es': seq<Bitmask>)
    requires Bounded(src) && i < |src| && Owned(om, es) && om.Length() == |src| && Untouched(View(om, es), i, true)
    requires Scanned(FullMask(src), View(om, es), i, FullMask(src[i..]))
    modifies om.mask
    ensures Grown(es, es') && Owned(om, es') && om.Length() == old(om.Length())
    ensures Untouched(View(om, es'), i + 1, true)
    ensures Scanned(FullMask(src), View(om, es'), i + 1, FullMask(src[i + 1..]))
  {
    hide Owned, View, Scanned;
    assert src[i..][1..] == src[i + 1..];
    ghost var rest := FullMask(src[i + 1..]);
    es' := es;
    if |src[i].pulses| > 0 {
      var e := new Bitmask(|src[i].pulses|, true);
      EmitRow(FullMask(src), rest, om, es, i, e);
      es' := es + [e];
    } else {
      EmitOff(FullMask(src), [], rest, om, es, i);
    }
  }

  method ScanMap(src: PulseMap) returns (om: Bitmask, es: seq<Bitmask>)
    requires Bounded(src)
    ensures Fresh(om, es) && Owned(om, es) && View(om, es) == FullMask(src)
  {
    hide FullMask, Scanned, Owned, View;
    es := [];
    if |src| == 0 {
      om := new Bitmask.Default();
      KeysOnly(om);
      NoKeys(src);
      return;
    }
    om := new Bitmask(|src|, true);
    KeysOnly(om);
    ScanStart(FullMask(src), om.Bits());
    var i := 0;
    assert src[0..] == src;
    while i < |src|
      invariant 0 <= i <= |src|
      invariant Fresh(om, es) && Owned(om, es) && om.Length() == |src|
      invariant Untouched(View(om, es), i, true)
      invariant Scanned(FullMask(src), View(om, es), i, FullMask(src[i..]))
    {
      es := MapStep(src, i, om, es);
      i := i + 1;
    }
    NoKeys(src[i..]);
    ScanDone(FullMask(src), View(om, es));
  }

  /** How the check of the subset constructor ends: it may read past the end of a source vector. */
  datatype Check = Yes | No | PastEnd

  /** Entry `i` of the subset has pulses, and the source's vector under the same key has none. */
  ghost predicate ReadsPastEnd(sup: PulseMap, sub: PulseMap, i: nat) {
    i < |sub| && sub[i].pulses != [] && exists j :: 0 <= j < |sup| && sup[j].key == sub[i].key && sup[j].pulses == []
  }

  /** Some entry is compared past the end before a missing key ends the check. */
  ghost predicate PastEndFirst(sup: PulseMap, sub: PulseMap) {
    exists i :: 0 <= i < |sub| && ReadsPastEnd(sup, sub, i) && KeysPresent(sup, sub[..i])
  }

  lemma MissingKey(sup: PulseMap, sub: PulseMap, i: nat)
    requires i < |sub| && !HasKey(sup, sub[i].key)
    requires forall k :: 0 <= k < i ==> !ReadsPastEnd(sup, sub, k)
    ensures !KeysPresent(sup, sub) && !PastEndFirst(sup, sub)
  {
    forall k | i < k < |sub| ensures !KeysPresent(sup, sub[..k]) {
      assert sub[..k][i] == sub[i];
    }
  }

  lemma KeyIsAt(sup: PulseMap, key: OMKey, j: nat)
    requires Sorted(sup) && j < |sup| && sup[j].key == key
    ensures forall l :: 0 <= l < |sup| && sup[l].key == key ==> l == j
  {
  }

  /**
   * The check of the subset constructor. Its inner loop never advances, so it
   * looks at the keys only: vectors of any content pass. On a source vector
   * without pulses it reads past the end, unless the subset's is empty too.
   */
  method IsOrderedSubset(sup: PulseMap, sub: PulseMap) returns (r: Check)
    requires Sorted(sup) && Sorted(sub)
    ensures r == PastEnd <==> PastEndFirst(sup, sub)
    ensures r == Yes <==> KeysPresent(sup, sub) && !PastEndFirst(sup, sub)
  {
    hide HasKey;
    var i, j := 0, 0;
    while i < |sub|
      invariant 0 <= i <= |sub| && 0 <= j <= |sup|
      invariant forall k :: 0 <= k < i ==> HasKey(sup, sub[k].key) && !ReadsPastEnd(sup, sub, k)
      invariant i > 0 ==> j < |sup| && sup[j].key == sub[i - 1].key
      invariant forall l :: 0 <= l < j && i < |sub| ==> sup[l].key != sub[i].key
    {
      while j < |sup| && sup[j].key != sub[i].key
        invariant 0 <= j <= |sup|
        invariant forall l :: 0 <= l < j ==> sup[l].key != sub[i].key
      {
        j := j + 1;
      }
      if j == |sup| {
        NoKey(sup, sub[i].key);
        MissingKey(sup, sub, i);
        return No;
      }
      HasKeyAt(sup, j);
      KeyIsAt(sup, sub[i].key, j);
      // The inner `while` over the superset's vector runs only at that vector's end.
      for w := 0 to |sub[i].pulses|
        invariant w > 0 ==> sup[j].pulses != []
      {
        if |sup[j].pulses| == 0 {
          assert ReadsPastEnd(sup, sub, i);
          return PastEnd;
        }
      }
      i := i + 1;
      if i < |sub| { assert KeyLess(sub[i - 1].key, sub[i].key); }
    }
    r := Yes;
  }

  lemma NoKey(m: PulseMap, key: OMKey)
    requires forall l :: 0 <= l < |m| ==> m[l].key != key
    ensures !HasKey(m, key)
  {
  }

  lemma {:induction false} FillSuffix(sup: seq<RecoPulse>, sub: seq<RecoPulse>, i: nat, k: nat,
                                      before: seq<bool>, bits: seq<bool>)
    requires i < |sup| && k <= |sub| && |before| == |bits| == |sup|
    requires before[..i] + Fill(sup[i..], sub[k..]) == Fill(sup, sub)
    requires bits[..i] == before[..i] && (bits[i] <==> k < |sub| && sub[k] == sup[i])
    ensures bits[..i + 1] + Fill(sup[i + 1..], sub[if bits[i] then k + 1 else k..]) == Fill(sup, sub)
  {
    assert sup[i..][1..] == sup[i + 1..];
    if bits[i] { assert sub[k..][1..] == sub[k + 1..]; }
    var rest := Fill(sup[i + 1..], sub[if bits[i] then k + 1 else k..]);
    assert Fill(sup[i..], sub[k..]) == [bits[i]] + rest;
    assert bits[..i + 1] + rest == before[..i] + ([bits[i]] + rest);
  }

  /** Clears the bits of a full mask, or of an empty one for an empty subset, that the greedy match passes over. */
  method FillSubsetMask(mask: Bitmask, sup: seq<RecoPulse>, sub: seq<RecoPulse>)
    requires mask.Valid() && mask.Length() == |sup|
    requires mask.Bits() == if sub == [] then Zeros(|sup|) else Ones(|sup|)
    modifies mask.mask
    ensures mask.Valid() && mask.Bits() == Fill(sup, sub)
  {
    hide Fill, Bitmask.Bits;
    var i, k := 0, 0;
    assert sup[0..] == sup && sub[0..] == sub;
    while i < |sup|
      invariant 0 <= i <= |sup| && 0 <= k <= |sub|
      invariant mask.Valid()
      invariant forall j :: i <= j < |sup| ==> mask.Bits()[j] == (sub != [])
      invariant mask.Bits()[..i] + Fill(sup[i..], sub[k..]) == Fill(sup, sub)
    {
      ghost var before, k0 := mask.Bits(), k;
      if k < |sub| && sub[k] == sup[i] {
        k := k + 1;
      } else {
        mask.Set(i, false);
      }
      FillSuffix(sup, sub, i, k0, before, mask.Bits());
      i := i + 1;
    }
    FillNothing(sup[|sup|..], sub[k..]);
    assert mask.Bits()[..|sup|] + [] == mask.Bits();
  }

  lemma FillNothing(sup: seq<RecoPulse>, sub: seq<RecoPulse>)
    ensures sup == [] ==> Fill(sup, sub) == []
  {
  }

  method SubsetRow(sup: seq<RecoPulse>, sub: seq<RecoPulse>) returns (mask: Bitmask)
    requires |sup| <= MAX_BITS
    ensures fresh(mask) && fresh(mask.mask) && mask.Valid() && mask.size > 0 && mask.Bits() == Fill(sup, sub)
  {
    mask := new Bitmask(|sup|, |sub| != 0);
    FillSubsetMask(mask, sup, sub);
  }

  method SubsetStep(src: PulseMap, sub: PulseMap, i: nat, k: nat, om: Bitmask, es: seq<Bitmask>)
    returns (k': nat, es': seq<Bitmask>)
    requires Bounded(src) && i < |src| && k <= |sub|
    requires Owned(om, es) && om.Length() == |src| && Untouched(View(om, es), i, true)
    requires Scanned(SubsetMask(src, sub), View(om, es), i, SubsetMask(src[i..], sub[k..]))
    modifies om.mask
    ensures Grown(es, es') && Owned(om, es') && om.Length() == old(om.Length())
    ensures Untouched(View(om, es'), i + 1, true) && k' <= |sub|
    ensures Scanned(SubsetMask(src, sub), View(om, es'), i + 1, SubsetMask(src[i + 1..], sub[k'..]))
  {
    hide Owned, View, Scanned;
    assert src[i..][1..] == src[i + 1..];
    ghost var whole := SubsetMask(src, sub);
    k', es' := k, es;
    if k < |sub| && sub[k].key == src[i].key {
      assert sub[k..][1..] == sub[k + 1..];
      var mask := SubsetRow(src[i].pulses, sub[k].pulses);
      EmitRow(whole, SubsetMask(src[i + 1..], sub[k + 1..]), om, es, i, mask);
      k', es' := k + 1, es + [mask];
    } else {
      EmitOff(whole, [], SubsetMask(src[i + 1..], sub[k..]), om, es, i);
    }
  }

  method ScanSubset(src: PulseMap, sub: PulseMap) returns (om: Bitmask, es: seq<Bitmask>)
    requires Bounded(src)
    ensures Fresh(om, es) && Owned(om, es) && View(om, es) == SubsetMask(src, sub)
  {
    hide SubsetMask, Scanned, Owned, View;
    es := [];
    om := new Bitmask(|src|, true);
    var i, k := 0, 0;
    ghost var whole := SubsetMask(src, sub);
    assert src[0..] == src && sub[0..] == sub;
    KeysOnly(om);
    ScanStart(whole, om.Bits());
    while i < |src|
      invariant 0 <= i <= |src| && 0 <= k <= |sub|
      invariant Fresh(om, es) && Owned(om, es) && om.Length() == |src|
      invariant Untouched(View(om, es), i, true)
      invariant Scanned(whole, View(om, es), i, SubsetMask(src[i..], sub[k..]))
    {
      k, es := SubsetStep(src, sub, i, k, om, es);
      i := i + 1;
    }
    assert src[i..] == [];
    NothingLeft(sub[k..]);
    ScanDone(whole, View(om, es));
  }

  /** A key bitmask without rows. */
  lemma KeysOnly(om: Bitmask)
    requires om.Valid()
    ensures Owned(om, []) && View(om, []) == Mask(om.Bits(), [])
  {
  }

  lemma NoKeys(src: PulseMap)
    ensures src == [] ==> FullMask(src) == Mask([], [])
  {
  }

  lemma NothingToKeep(src: PulseMap, keep: (OMKey, nat, RecoPulse) -> bool)
    ensures src == [] ==> PredicateMask(src, keep) == Mask([], [])
  {
  }

  lemma NothingLeft(sub: PulseMap)
    ensures SubsetMask([], sub) == Mask([], [])
  {
  }

  /** The row of the predicate constructor: one call per pulse. */
  method PredicateRow(entry: Entry, keep: (OMKey, nat, RecoPulse) -> bool) returns (mask: Bitmask, sum: nat)
    requires |entry.pulses| <= MAX_BITS
    ensures fresh(mask) && fresh(mask.mask) && mask.Valid() && mask.size > 0
    ensures mask.Bits() == Keep(keep, entry.key, 0, entry.pulses) && (sum > 0 <==> Any(mask.Bits()))
  {
    mask := new Bitmask(|entry.pulses|, true);
    var i := 0;
    while i < |entry.pulses|
      invariant 0 <= i <= |entry.pulses| && mask.Valid() && mask.Length() == |entry.pulses|
      invariant fresh(mask) && fresh(mask.mask) && mask.size > 0
      invariant forall j :: 0 <= j < i ==> mask.Bits()[j] == keep(entry.key, j, entry.pulses[j])
    {
      mask.Set(i, keep(entry.key, i, entry.pulses[i]));
      i := i + 1;
    }
    forall j | 0 <= j < |entry.pulses|
      ensures mask.Bits()[j] == Keep(keep, entry.key, 0, entry.pulses)[j]
    {
      KeepAt(keep, entry.key, 0, entry.pulses, j);
    }
    sum := mask.Sum();
    CountZero(mask.Bits());
  }

  method PredicateStep(src: PulseMap, keep: (OMKey, nat, RecoPulse) -> bool, i: nat, om: Bitmask, es: seq<Bitmask>)
    returns (es': seq<Bitmask>)
    requires Bounded(src) && i < |src| && Owned(om, es) && om.Length() == |src| && Untouched(View(om, es), i, false)
    requires Scanned(PredicateMask(src, keep), View(om, es), i, PredicateMask(src[i..], keep))
    modifies om.mask
    ensures Grown(es, es') && Owned(om, es') && om.Length() == old(om.Length())
    ensures Untouched(View(om, es'), i + 1, false)
    ensures Scanned(PredicateMask(src, keep), View(om, es'), i + 1, PredicateMask(src[i + 1..], keep))
  {
    hide Owned, View, Scanned;
    assert src[i..][1..] == src[i + 1..];
    ghost var whole, rest := PredicateMask(src, keep), PredicateMask(src[i + 1..], keep);
    es' := es;
    var mask, sum := PredicateRow(src[i], keep);
    if sum > 0 {
      es' := EmitOn(whole, rest, om, es, i, mask);
    } else {
      ScanOff(whole, View(om, es), i, mask.Bits(), rest);
    }
  }

  method ScanPredicate(src: PulseMap, keep: (OMKey, nat, RecoPulse) -> bool) returns (om: Bitmask, es: seq<Bitmask>)
    requires Bounded(src)
    ensures Fresh(om, es) && Owned(om, es) && View(om, es) == PredicateMask(src, keep)
  {
    hide PredicateMask, Scanned, Owned, View;
    es := [];
    om := new Bitmask(|src|, false);
    KeysOnly(om);
    ScanStart(PredicateMask(src, keep), om.Bits());
    var i := 0;
    assert src[0..] == src;
    while i < |src|
      invariant 0 <= i <= |src|
      invariant Fresh(om, es) && Owned(om, es) && om.Length() == |src|
      invariant Untouched(View(om, es), i, false)
      invariant Scanned(PredicateMask(src, keep), View(om, es), i, PredicateMask(src[i..], keep))
    {
      es := PredicateStep(src, keep, i, om, es);
      i := i + 1;
    }
    NothingToKeep(src[i..], keep);
    ScanDone(PredicateMask(src, keep), View(om, es));
  }

  // ----- the scan of the binary operators -----

  /** The two operands of one step; a missing one is a cleared copy of the other. */
  method Operands(l: Bitmask?, r: Bitmask?) returns (lhs: Bitmask, rhs: Bitmask)
    requires l != null ==> l.Valid() && l.size > 0
    requires r != null ==> r.Valid() && r.size > 0
    requires l != null && r != null ==> l.Length() == r.Length()
    ensures fresh(lhs) && fresh(lhs.mask) && lhs.Valid() && lhs.size > 0
    ensures fresh(rhs) && fresh(rhs.mask) && rhs.Valid() && rhs.size > 0
    ensures lhs.mask != rhs.mask && lhs.Length() == rhs.Length()
    ensures lhs.Bits() == if l != null then l.Bits() else if r != null then Zeros(|r.Bits()|) else Zeros(8)
    ensures rhs.Bits() == if r != null then r.Bits() else if l != null then Zeros(|l.Bits()|) else Zeros(8)
  {
    if l == null && r == null {
      lhs := new Bitmask(8, false);
      rhs := new Bitmask(8, false);
    } else if l != null && r != null {
      lhs := new Bitmask.Copy(l);
      rhs := new Bitmask.Copy(r);
    } else if l != null {
      lhs := new Bitmask.Copy(l);
      rhs := new Bitmask.Copy(l);
      rhs.UnsetAll();
    } else {
      lhs := new Bitmask.Copy(r);
      rhs := new Bitmask.Copy(r);
      lhs.UnsetAll();
    }
  }

  /** Keep a row that has a bit on, and turn its key on; drop it otherwise. */
  method EmitIfAny(ghost whole: Mask, ghost rest: Mask, om: Bitmask, es: seq<Bitmask>, i: nat, e: Bitmask)
    returns (es': seq<Bitmask>)
    requires Owned(om, es) && Free(om, es, e) && i < om.Length() && Untouched(View(om, es), i, false)
    requires Scanned(whole, View(om, es), i, Cons(Any(e.Bits()), e.Bits(), rest))
    modifies om.mask
    ensures (es' == es || es' == es + [e]) && Owned(om, es') && om.Length() == old(om.Length())
    ensures Untouched(View(om, es'), i + 1, false)
    ensures Scanned(whole, View(om, es'), i + 1, rest)
  {
    hide Owned, View, Scanned;
    es' := es;
    var sum := e.Sum();
    CountZero(e.Bits());
    if sum != 0 {
      es' := EmitOn(whole, rest, om, es, i, e);
    } else {
      ScanOff(whole, View(om, es), i, e.Bits(), rest);
    }
  }

  /** One step of the scan over two masks, with the operands' rows `l` and `r` or none. */
  method CombineStep(op: BitOp, ghost whole: Mask, ghost row: seq<bool>, ghost rest: Mask,
                     l: Bitmask?, r: Bitmask?, i: nat, om: Bitmask, es: seq<Bitmask>) returns (es': seq<Bitmask>)
    requires l != null ==> l.Valid() && l.size > 0
    requires r != null ==> r.Valid() && r.size > 0
    requires l != null && r != null ==> l.Length() == r.Length()
    requires row == if l == null && r == null then ZipRow(op, Zeros(8), Zeros(8))
                    else if l != null && r != null then ZipRow(op, l.Bits(), r.Bits())
                    else if l != null then ZipRow(op, l.Bits(), Zeros(|l.Bits()|))
                    else ZipRow(op, Zeros(|r.Bits()|), r.Bits())
    requires Owned(om, es) && i < om.Length() && Untouched(View(om, es), i, false)
    requires Scanned(whole, View(om, es), i, Cons(Any(row), row, rest))
    modifies om.mask
    ensures Grown(es, es') && Owned(om, es') && om.Length() == old(om.Length())
    ensures Untouched(View(om, es'), i + 1, false)
    ensures Scanned(whole, View(om, es'), i + 1, rest)
  {
    hide Owned, View, Scanned;
    var lhs, rhs := Operands(l, r);
    lhs.Combine(op, rhs);
    assert lhs.Bits() == row;
    es' := EmitIfAny(whole, rest, om, es, i, lhs);
  }

  /** What is left of a mask once its first `i` keys and first `pos` rows are scanned. */
  function Left(m: Mask, i: nat, pos: nat): Mask
    requires i <= |m.keys| && pos <= |m.elems|
  {
    Mask(m.keys[i..], m.elems[pos..])
  }

  /** The state of the scan over `a` and `b`: `l` and `r` are the row iterators, `t` the result so far. */
  ghost predicate Combining(op: BitOp, a: Mask, b: Mask, lens: seq<nat>, i: nat, l: nat, r: nat, t: Mask) {
    && Fits(a, lens) && Fits(b, lens) && i <= |lens| == |t.keys| && l <= |a.elems| && r <= |b.elems|
    && Fits(Left(a, i, l), lens[i..]) && Fits(Left(b, i, r), lens[i..])
    && Scanned(Combine(op, a, b, lens), t, i, Combine(op, Left(a, i, l), Left(b, i, r), lens[i..]))
  }

  lemma CombiningStart(op: BitOp, a: Mask, b: Mask, lens: seq<nat>, keys: seq<bool>)
    requires Fits(a, lens) && Fits(b, lens) && |keys| == |lens|
    ensures Combining(op, a, b, lens, 0, 0, 0, Mask(keys, []))
  {
    assert lens[0..] == lens;
    assert Left(a, 0, 0) == a && Left(b, 0, 0) == b;
    ScanStart(Combine(op, a, b, lens), keys);
  }

  lemma CombiningDone(op: BitOp, a: Mask, b: Mask, lens: seq<nat>, l: nat, r: nat, t: Mask)
    requires Combining(op, a, b, lens, |lens|, l, r, t)
    ensures Combine(op, a, b, lens) == t
  {
    ScanDone(Combine(op, a, b, lens), t);
  }

  /** The row a step emits, from the operands' rows at the iterators. */
  ghost function RowAt(op: BitOp, a: Mask, b: Mask, i: nat, l: nat, r: nat): seq<bool>
    requires i < |a.keys| && i < |b.keys|
    requires a.keys[i] ==> l < |a.elems|
    requires b.keys[i] ==> r < |b.elems|
    requires a.keys[i] && b.keys[i] ==> |a.elems[l]| == |b.elems[r]|
  {
    if !(a.keys[i] || b.keys[i]) then ZipRow(op, Zeros(8), Zeros(8))
    else if a.keys[i] && b.keys[i] then ZipRow(op, a.elems[l], b.elems[r])
    else if a.keys[i] then ZipRow(op, a.elems[l], Zeros(|a.elems[l]|))
    else ZipRow(op, Zeros(|b.elems[r]|), b.elems[r])
  }

  lemma LeftTail(m: Mask, i: nat, pos: nat)
    requires i < |m.keys| && pos <= |m.elems| && (m.keys[i] ==> pos < |m.elems|)
    ensures Left(m, i, pos).keys[0] == m.keys[i] && (m.keys[i] ==> Left(m, i, pos).elems[0] == m.elems[pos])
    ensures Tail(Left(m, i, pos)) == Left(m, i + 1, if m.keys[i] then pos + 1 else pos)
  {
  }

  /** One step: the row to emit, what is left after it, and how the scan goes on. */
  lemma CombiningStep(op: BitOp, a: Mask, b: Mask, lens: seq<nat>, i: nat, l: nat, r: nat, t: Mask)
    returns (whole: Mask, row: seq<bool>, rest: Mask)
    requires Combining(op, a, b, lens, i, l, r, t) && i < |lens|
    ensures |a.keys| == |b.keys| == |lens|
    ensures a.keys[i] ==> l < |a.elems|
    ensures b.keys[i] ==> r < |b.elems|
    ensures a.keys[i] && b.keys[i] ==> |a.elems[l]| == |b.elems[r]|
    ensures row == RowAt(op, a, b, i, l, r)
    ensures Scanned(whole, t, i, Cons(Any(row), row, rest))
    ensures Continues(op, a, b, lens, i, l, r, whole, rest)
  {
    var la, lb := Left(a, i, l), Left(b, i, r);
    LeftTail(a, i, l);
    LeftTail(b, i, r);
    assert lens[i..][1..] == lens[i + 1..];
    whole, row, rest := Combine(op, a, b, lens), StepRow(op, la, lb), Combine(op, Tail(la), Tail(lb), lens[i + 1..]);
  }

  /** `rest` is what the scan of `whole` has left once key `i` is done. */
  ghost predicate Continues(op: BitOp, a: Mask, b: Mask, lens: seq<nat>, i: nat, l: nat, r: nat,
                            whole: Mask, rest: Mask)
  {
    && i < |lens| == |a.keys| == |b.keys|
    && var l', r' := if a.keys[i] then l + 1 else l, if b.keys[i] then r + 1 else r;
       && l' <= |a.elems| && r' <= |b.elems|
       && Fits(a, lens) && Fits(b, lens) && whole == Combine(op, a, b, lens)
       && Fits(Left(a, i + 1, l'), lens[i + 1..]) && Fits(Left(b, i + 1, r'), lens[i + 1..])
       && rest == Combine(op, Left(a, i + 1, l'), Left(b, i + 1, r'), lens[i + 1..])
  }

  lemma CombiningNext(op: BitOp, a: Mask, b: Mask, lens: seq<nat>, i: nat, l: nat, r: nat,
                      whole: Mask, rest: Mask, t: Mask)
    requires Continues(op, a, b, lens, i, l, r, whole, rest)
    requires |t.keys| == |lens| && Scanned(whole, t, i + 1, rest)
    ensures |a.keys| == |b.keys| == |lens|
    ensures Combining(op, a, b, lens, i + 1, if a.keys[i] then l + 1 else l, if b.keys[i] then r + 1 else r, t)
  {
  }

  method CombineAt(op: BitOp, ghost a: Mask, ghost b: Mask, ghost lens: seq<nat>,
                   om1: Bitmask, es1: seq<Bitmask>, om2: Bitmask, es2: seq<Bitmask>,
                   i: nat, l: nat, r: nat, om: Bitmask, es: seq<Bitmask>) returns (l': nat, r': nat, es': seq<Bitmask>)
    requires Owned(om1, es1) && Owned(om2, es2) && Owned(om, es)
    requires View(om1, es1) == a && View(om2, es2) == b
    requires i < |lens| == om.Length() && Untouched(View(om, es), i, false)
    requires Combining(op, a, b, lens, i, l, r, View(om, es))
    modifies om.mask
    ensures Grown(es, es') && Owned(om, es') && om.Length() == old(om.Length())
    ensures Untouched(View(om, es'), i + 1, false)
    ensures Combining(op, a, b, lens, i + 1, l', r', View(om, es'))
  {
    hide Combining, Continues, Scanned, Combine, Owned, View;
    ghost var whole, row, rest := CombiningStep(op, a, b, lens, i, l, r, View(om, es));
    var lExists := KeyBit(om1, es1, i);
    var rExists := KeyBit(om2, es2, i);
    if lExists { RowIs(om1, es1, l); }
    if rExists { RowIs(om2, es2, r); }
    es' := CombineStep(op, whole, row, rest,
                       if lExists then es1[l] else null, if rExists then es2[r] else null, i, om, es);
    l', r' := if lExists then l + 1 else l, if rExists then r + 1 else r;
    CombiningNext(op, a, b, lens, i, l, r, whole, rest, View(om, es'));
  }

  /** The bitmask written to is none of those read. */
  predicate NotAmong(om: Bitmask, om1: Bitmask, es1: seq<Bitmask>)
    reads om, om1, (set e | e in es1)
  {
    om != om1 && om.mask != om1.mask && forall e <- es1 :: e != om && e.mask != om.mask
  }

  method CombineLoop(op: BitOp, ghost a: Mask, ghost b: Mask, ghost lens: seq<nat>,
                     om1: Bitmask, es1: seq<Bitmask>, om2: Bitmask, es2: seq<Bitmask>, om: Bitmask)
    returns (es: seq<Bitmask>)
    requires Owned(om1, es1) && Owned(om2, es2) && NotAmong(om, om1, es1) && NotAmong(om, om2, es2)
    requires View(om1, es1) == a && View(om2, es2) == b && Fits(a, lens) && Fits(b, lens)
    requires om.Valid() && om1.Length() == om.Length() == |lens| && om.Bits() == Zeros(|lens|)
    modifies om.mask
    ensures Grown([], es) && Owned(om, es) && View(om, es) == Combine(op, a, b, lens)
  {
    hide Combining, Combine, Fits, Owned, View;
    es := [];
    KeysOnly(om);
    CombiningStart(op, a, b, lens, om.Bits());
    var i, l, r := 0, 0, 0;
    var n := om1.Length();
    while i < n
      invariant 0 <= i <= n == |lens|
      invariant Grown([], es) && Owned(om, es) && om.Length() == n
      invariant Owned(om1, es1) && View(om1, es1) == a
      invariant Owned(om2, es2) && View(om2, es2) == b
      invariant Untouched(View(om, es), i, false)
      invariant Combining(op, a, b, lens, i, l, r, View(om, es))
    {
      l, r, es := CombineAt(op, a, b, lens, om1, es1, om2, es2, i, l, r, om, es);
      i := i + 1;
    }
    CombiningDone(op, a, b, lens, l, r, View(om, es));
  }

  method ScanCombine(op: BitOp, om1: Bitmask, es1: seq<Bitmask>, om2: Bitmask, es2: seq<Bitmask>, ghost lens: seq<nat>)
    returns (om: Bitmask, es: seq<Bitmask>)
    requires Owned(om1, es1) && Owned(om2, es2) && om1.Length() == om2.Length() == |lens|
    requires Fits(View(om1, es1), lens) && Fits(View(om2, es2), lens)
    ensures Fresh(om, es) && Owned(om, es)
    ensures View(om, es) == old(Combine(op, View(om1, es1), View(om2, es2), lens))
  {
    hide Combine, Fits;
    ghost var a, b := View(om1, es1), View(om2, es2);
    om := new Bitmask.Copy(om1);
    om.UnsetAll();
    es := CombineLoop(op, a, b, lens, om1, es1, om2, es2, om);
  }
}
