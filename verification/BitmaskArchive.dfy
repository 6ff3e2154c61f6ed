/** Writing masks out and reading them back. */
module BitmaskArchive {
  import opened MaskAlgebra
  import opened MaskChain
  import opened PackedBits
  import opened Bitmasks
  import opened BitmaskLists

  /** `i` keys and `pos` rows are looked at; the key bits from `i` on are still the original ones. */
  ghost predicate Trimming(m: Mask, i: nat, pos: nat, t: Mask) {
    && Aligned(m) && i <= |m.keys| == |t.keys| && pos <= |m.elems| && Aligned(Left(m, i, pos))
    && t.keys[i..] == m.keys[i..] && Scanned(Trim(m), t, i, Trim(Left(m, i, pos)))
  }

  lemma TrimmingStart(m: Mask)
    requires Aligned(m)
    ensures Trimming(m, 0, 0, Mask(m.keys, []))
  {
    assert Left(m, 0, 0) == m;
    ScanStart(Trim(m), m.keys);
  }

  lemma TrimmingDone(m: Mask, pos: nat, t: Mask)
    requires Trimming(m, |m.keys|, pos, t)
    ensures Aligned(m) && Trim(m) == t
  {
    ScanDone(Trim(m), t);
  }

  lemma TrimmingHeads(m: Mask, i: nat, pos: nat, t: Mask)
    requires Trimming(m, i, pos, t) && i < |m.keys|
    ensures |t.keys| == |m.keys| && t.keys[i] == m.keys[i] && (m.keys[i] ==> pos < |m.elems|)
  {
    AlignedTail(Left(m, i, pos));
    assert t.keys[i..][0] == m.keys[i..][0];
  }

  lemma TrimmingOff(m: Mask, i: nat, pos: nat, t: Mask)
    requires Trimming(m, i, pos, t) && i < |m.keys| == |t.keys| && !m.keys[i] && t.keys[i] == m.keys[i]
    ensures Trimming(m, i + 1, pos, t)
  {
    AlignedTail(Left(m, i, pos));
    LeftTail(m, i, pos);
    assert t.keys[i..][1..] == t.keys[i + 1..] && m.keys[i..][1..] == m.keys[i + 1..];
    ScanOff(Trim(m), t, i, [], Trim(Tail(Left(m, i, pos))));
  }

  lemma TrimmingDrop(m: Mask, i: nat, pos: nat, t: Mask)
    requires Trimming(m, i, pos, t) && i < |m.keys| == |t.keys| && m.keys[i] && pos < |m.elems| && !Any(m.elems[pos])
    ensures Trimming(m, i + 1, pos + 1, t.(keys := t.keys[i := false]))
  {
    var rest := Left(m, i, pos);
    AlignedTail(rest);
    LeftTail(m, i, pos);
    assert t.keys[i := false][i + 1..] == t.keys[i..][1..] && m.keys[i..][1..] == m.keys[i + 1..];
    ScanOff(Trim(m), t, i, rest.elems[0], Trim(Tail(rest)));
  }

  lemma TrimmingKeep(m: Mask, i: nat, pos: nat, t: Mask)
    requires Trimming(m, i, pos, t) && i < |m.keys| == |t.keys| && m.keys[i] && pos < |m.elems|
    requires t.keys[i] && Any(m.elems[pos])
    ensures Trimming(m, i + 1, pos + 1, Mask(t.keys, t.elems + [m.elems[pos]]))
  {
    var rest := Left(m, i, pos);
    AlignedTail(rest);
    LeftTail(m, i, pos);
    assert t.keys[i..][1..] == t.keys[i + 1..] && m.keys[i..][1..] == m.keys[i + 1..];
    ScanOn(Trim(m), t, i, rest.elems[0], Trim(Tail(rest)));
  }

  /** One key of the scan of `save`. */
  method TrimAt(ghost m: Mask, om1: Bitmask, es1: seq<Bitmask>, i: nat, pos: nat, om: Bitmask, es: seq<Bitmask>)
    returns (pos': nat, es': seq<Bitmask>)
    requires Owned(om1, es1) && Owned(om, es) && View(om1, es1) == m
    requires i < om1.Length() == om.Length() && Trimming(m, i, pos, View(om, es))
    modifies om.mask
    ensures Grown(es, es') && Owned(om, es') && om.Length() == old(om.Length())
    ensures Trimming(m, i + 1, pos', View(om, es'))
  {
    hide Trimming, Owned, View;
    ghost var t := View(om, es);
    TrimmingHeads(m, i, pos, t);
    pos', es' := pos, es;
    var on := KeyBit(om1, es1, i);
    if !on {
      TrimmingOff(m, i, pos, t);
      return;
    }
    pos' := pos + 1;
    var any := RowAny(om1, es1, pos);
    if any {
      TrimmingKeep(m, i, pos, t);
      es' := CopyRow(om, es, om1, es1, pos);
    } else {
      TrimmingDrop(m, i, pos, t);
      SetKeyBit(om, es, i, false);
    }
  }

  /** The scan of `save`. */
  method TrimScan(om1: Bitmask, es1: seq<Bitmask>) returns (om: Bitmask, es: seq<Bitmask>)
    requires Owned(om1, es1) && Aligned(View(om1, es1))
    ensures Fresh(om, es) && Owned(om, es) && View(om, es) == old(Trim(View(om1, es1))) && om.size == om1.size
  {
    hide Trimming, Trim, Aligned, Owned, View;
    ghost var m := View(om1, es1);
    om := CopyFirst(om1, es1);
    es := [];
    var i, pos := 0, 0;
    TrimmingStart(m);
    while i < om1.Length()
      invariant 0 <= i <= om1.Length() == om.Length()
      invariant Fresh(om, es) && Owned(om, es) && om.size == om1.size
      invariant Trimming(m, i, pos, View(om, es))
    {
      pos, es := TrimAt(m, om1, es1, i, pos, om, es);
      i := i + 1;
    }
    TrimmingDone(m, pos, View(om, es));
  }

  // ----- the text form of one bitmask -----

  /** One character per bit. */
  method SaveText(b: Bitmask) returns (size: nat, padding: nat, text: string)
    requires b.Valid()
    ensures size == b.size && padding == b.padding && |text| == |b.Bits()|
    ensures forall i :: 0 <= i < |text| ==> text[i] == if b.Bits()[i] then '1' else '0'
  {
    size, padding, text := b.size, b.padding, [];
    var i := 0;
    while i < b.Length()
      invariant 0 <= i <= b.Length() && |text| == i
      invariant forall k :: 0 <= k < i ==> text[k] == if b.Bits()[k] then '1' else '0'
    {
      var on := b.Get(i);
      text := text + [if on then '1' else '0'];
      i := i + 1;
    }
  }

  /** Any character but '0' sets its bit; a set bit beyond the length stops the reader. */
  method LoadText(size: nat, padding: nat, text: string) returns (b: Bitmask)
    requires size <= 0xFFFF && padding <= 8 && padding <= 8 * size && (padding == 8 ==> size == 1)
    requires forall i :: 8 * size - padding <= i < |text| ==> text[i] == '0'
    ensures fresh(b) && fresh(b.mask) && b.Valid() && b.size == size && b.padding == padding
    ensures forall i :: 0 <= i < b.Length() ==> b.Bits()[i] == (i < |text| && text[i] != '0')
  {
    b := new Bitmask.Sized(size, padding);
    var i := 0;
    while i < |text|
      invariant 0 <= i <= |text| && fresh(b) && fresh(b.mask) && b.Valid() && b.size == size && b.padding == padding
      invariant forall k :: 0 <= k < b.Length() ==> b.Bits()[k] == (k < i && text[k] != '0')
    {
      if text[i] != '0' {
        b.Set(i, true);
      }
      i := i + 1;
    }
  }

  /** Writing a bitmask as text and reading it back gives the same bitmask. */
  method TextRoundTrip(b: Bitmask) returns (c: Bitmask)
    requires b.Valid()
    ensures c.Valid() && c.size == b.size && c.padding == b.padding && c.Bits() == b.Bits()
    ensures c.mask[..] == b.mask[..]
  {
    var size, padding, text := SaveText(b);
    c := LoadText(size, padding, text);
    assert c.Bits() == b.Bits();
    PackedUnique(c.mask[..], b.mask[..], b.Length());
  }
}
