/**
 * The pulse-map mask as the object callers hold: a key bitmask, the list of
 * element bitmasks, the source map and the cached result of applying it.
 */
module PulseMasks {
  import opened Options
  import opened Pulses
  import opened MaskAlgebra
  import opened MaskOps
  import opened MaskApply
  import opened MaskEdits
  import opened MaskChain
  import opened Bitmasks
  import opened BitmaskLists
  import opened BitmaskCollapse
  import opened BitmaskArchive

  /** How an edit ended: an unmodifiable mask only logs, an unknown key is fatal. */
  datatype Status = Done | NotModifiable | NoSuchKey

  // ----- frames -----

  /** What a frame holds under a name. The objects are shared with the frame's other readers. */
  datatype FrameObject = MapObject(pulses: PulseMap) | MaskObject(mask: PulseMask)

  type FrameObjects = map<string, FrameObject>

  ghost function MasksOf(frame: FrameObjects): set<PulseMask> {
    set n | n in frame && frame[n].MaskObject? :: frame[n].mask
  }

  /** `st` says what the frame's maps and masks stand for. */
  ghost predicate Holds(frame: FrameObjects, st: Store)
    reads MasksOf(frame)`key, MasksOf(frame)`omkeyMask, MasksOf(frame)`elementMasks
    reads set m | m in MasksOf(frame) :: m.omkeyMask
    reads set m | m in MasksOf(frame) :: m.omkeyMask.mask
    reads set m, e | m in MasksOf(frame) && e in m.elementMasks :: e
    reads set m, e | m in MasksOf(frame) && e in m.elementMasks :: e.mask
  {
    && st.Keys == frame.Keys
    && forall n :: n in frame ==>
         match frame[n]
         case MapObject(pulses) => st[n] == AMap(pulses)
         case MaskObject(m) => assert m in MasksOf(frame); m.Valid() && st[n] == AMask(m.key, m.Value())
  }

  /** The same, with `objs` holding everything the frame's masks are made of. */
  ghost predicate HoldsIn(frame: FrameObjects, st: Store, objs: set<object>)
    reads objs
  {
    && st.Keys == frame.Keys
    && forall n :: n in frame ==>
         match frame[n]
         case MapObject(pulses) => st[n] == AMap(pulses)
         case MaskObject(m) =>
           && m in objs && m.omkeyMask in objs && m.omkeyMask.mask in objs
           && (forall e <- m.elementMasks :: e in objs && e.mask in objs)
           && m.Valid() && st[n] == AMask(m.key, m.Value())
  }

  lemma HoldsInHolds(frame: FrameObjects, st: Store, objs: set<object>)
    requires HoldsIn(frame, st, objs)
    ensures Holds(frame, st)
  {
  }

  /** The caches of a frame's masks, by name. */
  ghost function Caches(frame: FrameObjects): map<string, Option<PulseMap>>
    reads MasksOf(frame)`masked
  {
    map n | n in frame && frame[n].MaskObject? :: assert frame[n].mask in MasksOf(frame); frame[n].mask.masked
  }

  /** Every cache on the way is empty or holds what a fresh filter gives. */
  ghost predicate CachesRight(caches: map<string, Option<PulseMap>>, st: Store, names: seq<string>)
    requires Chain(st, names) && ChainFits(st, names)
    decreases |names|
  {
    st[names[0]].AMap? ||
    (&& names[0] in caches
     && (caches[names[0]].Some? ==> caches[names[0]].value == Resolve(st, names))
     && CachesRight(caches, st, names[1..]))
  }

  lemma {:induction false} CachesAgree(c: map<string, Option<PulseMap>>, c': map<string, Option<PulseMap>>,
                                       st: Store, names: seq<string>)
    requires Chain(st, names) && ChainFits(st, names) && CachesRight(c, st, names)
    requires forall n <- names :: n in c ==> n in c' && c'[n] == c[n]
    ensures CachesRight(c', st, names)
    decreases |names|
  {
    if st[names[0]].AMask? {
      CachesAgree(c, c', st, names[1..]);
      assert names[0] in names;
    }
  }

  /** No name of the chain holds this very mask. */
  ghost predicate Outside(m: PulseMask, frame: FrameObjects, names: seq<string>) {
    forall n <- names :: n in frame && frame[n].MaskObject? ==> frame[n].mask != m
  }

  class PulseMask {
    var key: string
    var omkeyMask: Bitmask
    var elementMasks: seq<Bitmask>
    var source: Option<PulseMap>
    var masked: Option<PulseMap>

    ghost predicate Valid()
      reads `omkeyMask, `elementMasks, omkeyMask, (set e | e in elementMasks)
      reads omkeyMask.mask, set e | e in elementMasks :: e.mask
    {
      Owned(omkeyMask, elementMasks)
    }

    ghost function Value(): Mask
      requires Valid()
      reads `omkeyMask, `elementMasks, omkeyMask, (set e | e in elementMasks)
      reads omkeyMask.mask, set e | e in elementMasks :: e.mask
    {
      View(omkeyMask, elementMasks)
    }

    constructor FromMap(name: string, src: PulseMap)
      requires Bounded(src)
      ensures Valid() && Fresh(omkeyMask, elementMasks)
      ensures key == name && source == Some(src) && masked == None
      ensures Value() == FullMask(src)
    {
      var om, es := ScanMap(src);
      key, omkeyMask, elementMasks, source, masked := name, om, es, Some(src), None;
    }

    constructor FromPredicate(name: string, src: PulseMap, keep: (OMKey, nat, RecoPulse) -> bool)
      requires Bounded(src)
      ensures Valid() && Fresh(omkeyMask, elementMasks)
      ensures key == name && source == Some(src) && masked == None
      ensures Value() == PredicateMask(src, keep)
    {
      var om, es := ScanPredicate(src, keep);
      key, omkeyMask, elementMasks, source, masked := name, om, es, Some(src), None;
    }

    constructor FromOrderedSubset(name: string, src: PulseMap, sub: PulseMap)
      requires Bounded(src)
      ensures Valid() && Fresh(omkeyMask, elementMasks)
      ensures key == name && source == Some(src) && masked == None
      ensures Value() == SubsetMask(src, sub)
    {
      var om, es := ScanSubset(src, sub);
      key, omkeyMask, elementMasks, source, masked := name, om, es, Some(src), None;
    }

    /**
     * The subset constructor with its check: a subset with a key of its own is
     * fatal, and one with pulses where the source has none is read past its end.
     */
    static method FromSubset(name: string, src: PulseMap, sub: PulseMap) returns (check: Check, r: Option<PulseMask>)
      requires Bounded(src) && Sorted(src) && Sorted(sub)
      ensures check == PastEnd <==> PastEndFirst(src, sub)
      ensures r.Some? <==> check == Yes
      ensures r.Some? <==> KeysPresent(src, sub) && !PastEndFirst(src, sub)
      ensures r.Some? ==>
                && fresh(r.value) && r.value.Valid() && Fresh(r.value.omkeyMask, r.value.elementMasks)
                && r.value.key == name && r.value.source == Some(src) && r.value.masked == None
                && Fits(r.value.Value(), Lens(src))
                && (Masked(r.value.Value(), src) == DropEmpty(sub) <==> VectorsInOrder(src, sub))
    {
      hide KeysPresent, PastEndFirst, VectorsInOrder, Fits, Masked;
      check := IsOrderedSubset(src, sub);
      if check != Yes {
        return check, None;
      }
      SubsetRoundTrip(src, sub);
      var m := new PulseMask.FromOrderedSubset(name, src, sub);
      r := Some(m);
    }

    /** The copy has bitmasks of its own, and shares the source and the cached map. */
    constructor Copy(other: PulseMask)
      requires other.Valid()
      ensures Valid() && Fresh(omkeyMask, elementMasks) && Value() == other.Value()
      ensures key == other.key && source == other.source && masked == other.masked
    {
      var om, es := CopyList(other.omkeyMask, other.elementMasks);
      key, omkeyMask, elementMasks, source, masked := other.key, om, es, other.source, other.masked;
    }

    // ----- edits in place -----

    /** The mask was made from this map: rows, lengths and key bits agree. */
    ghost predicate MadeFrom(src: PulseMap)
      reads `omkeyMask, `elementMasks, omkeyMask, (set e | e in elementMasks)
      reads omkeyMask.mask, set e | e in elementMasks :: e.mask
    {
      Valid() && Bounded(src) && ByRank(Value(), Lens(src))
    }

    /** The index of a key in the source, and the list position the element iterator reaches. */
    method FindKey(k: OMKey) returns (st: Status, idx: nat, pos: nat)
      requires Valid() && (source.Some? ==> |source.value| == omkeyMask.Length())
      ensures st == NotModifiable <==> source == None
      ensures st == NoSuchKey <==> source.Some? && forall i :: 0 <= i < |source.value| ==> source.value[i].key != k
      ensures st == Done ==> idx < |source.value| && source.value[idx].key == k
      ensures st == Done ==> pos == Rank(omkeyMask.Bits(), idx)
    {
      idx, pos := 0, 0;
      if source == None {
        return NotModifiable, 0, 0;
      }
      var src := source.value;
      while idx < |src| && src[idx].key != k
        invariant 0 <= idx <= |src|
        invariant forall i :: 0 <= i < idx ==> src[i].key != k
      {
        idx := idx + 1;
      }
      if idx == |src| {
        return NoSuchKey, 0, 0;
      }
      var i := 0;
      ghost var keys := omkeyMask.Bits();
      while i < idx
        invariant 0 <= i <= idx
        invariant pos == Rank(keys, i)
      {
        RankStep(keys, i);
        var on := omkeyMask.Get(i);
        if on { pos := pos + 1; }
        i := i + 1;
      }
      st := Done;
    }

    method SetNone()
      requires Valid()
      modifies this, omkeyMask.mask
      ensures Valid() && masked == None && key == old(key) && source == old(source)
      ensures Value() == Mask(Zeros(|old(Value().keys)|), [])
    {
      omkeyMask.UnsetAll();
      elementMasks := [];
      masked := None;
    }

    /** A key that was off gets a new row, inserted at the list position. */
    method InsertElement(idx: nat, pos: nat, e: Bitmask)
      requires Valid() && idx < omkeyMask.Length() && pos == Rank(Value().keys, idx) <= |elementMasks|
      requires Free(omkeyMask, elementMasks, e)
      modifies `elementMasks, omkeyMask.mask
      ensures Valid() && Value() == InsertRow(old(Value()), idx, old(e.Bits()))
    {
      hide Owned, View;
      InsertAt(omkeyMask, elementMasks, pos, e);
      elementMasks := elementMasks[..pos] + [e] + elementMasks[pos..];
      SetKeyBit(omkeyMask, elementMasks, idx, true);
    }

    /** A key that was on is turned off and its row erased. */
    method EraseElement(idx: nat, pos: nat)
      requires Valid() && idx < omkeyMask.Length() && pos == Rank(Value().keys, idx) < |elementMasks|
      modifies `elementMasks, omkeyMask.mask
      ensures Valid() && Value() == EraseRow(old(Value()), idx)
    {
      hide Owned, View;
      SetKeyBit(omkeyMask, elementMasks, idx, false);
      EraseAt(omkeyMask, elementMasks, pos);
      elementMasks := elementMasks[..pos] + elementMasks[pos + 1..];
    }

    /** What callers keep: a mask with a source was made from it. */
    ghost predicate Editable()
      reads `source, `omkeyMask, `elementMasks, omkeyMask, (set e | e in elementMasks)
      reads omkeyMask.mask, set e | e in elementMasks :: e.mask
    {
      Valid() && (source.Some? ==> MadeFrom(source.value))
    }

    /** Drop the cache and find the key: the common start of the three edits. */
    method Locate(k: OMKey) returns (st: Status, idx: nat, pos: nat)
      requires Editable()
      modifies `masked
      ensures masked == None && Value() == old(Value())
      ensures st == NotModifiable <==> source == None
      ensures st == NoSuchKey <==> source.Some? && forall i :: 0 <= i < |source.value| ==> source.value[i].key != k
      ensures st == Done ==>
                && idx < |source.value| && source.value[idx].key == k
                && EditingBit(Value(), idx, |source.value[idx].pulses|) && pos == Rank(Value().keys, idx)
    {
      ghost var m := Value();
      masked := None;
      assert Value() == m;
      st, idx, pos := FindKey(k);
      if st == Done { RankBound(m, Lens(source.value), idx); }
    }

    /** The edit of `SetKey` once the key is found. */
    method EditAll(idx: nat, pos: nat, length: nat, setIt: bool)
      requires Valid() && length <= MAX_BITS && EditingBit(Value(), idx, length) && pos == Rank(Value().keys, idx)
      modifies `elementMasks, omkeyMask.mask, set e | e in elementMasks :: e.mask
      ensures Valid() && Value() == EditKey(old(Value()), idx, length, setIt)
    {
      hide Owned, View, Rank, InsertRow, EraseRow;
      var on := KeyBit(omkeyMask, elementMasks, idx);
      if !on {
        if setIt && length > 0 {
          var e := new Bitmask(length, true);
          InsertElement(idx, pos, e);
        }
      } else if setIt && length > 0 {
        SetRowAll(omkeyMask, elementMasks, pos);
      } else if !setIt {
        EraseElement(idx, pos);
      } else {
        SetKeyBit(omkeyMask, elementMasks, idx, false);
      }
    }

    /**
     * Set or unset all pulses of a key. Setting a key whose vector is empty
     * while its bit is on clears the bit and forgets the row in the list: that
     * input, and no other, breaks the alignment.
     */
    method SetKey(k: OMKey, setIt: bool) returns (st: Status, idx: nat)
      requires Editable()
      modifies this, omkeyMask.mask, set e | e in elementMasks :: e.mask
      ensures Valid() && masked == None && key == old(key) && source == old(source)
      ensures st == NotModifiable <==> source == None
      ensures st == NoSuchKey <==> source.Some? && forall i :: 0 <= i < |source.value| ==> source.value[i].key != k
      ensures st != Done ==> Value() == old(Value())
      ensures st == Done ==>
                && idx < |source.value| && source.value[idx].key == k && Editing(old(Value()), idx)
                && Value() == EditKey(old(Value()), idx, |source.value[idx].pulses|, setIt)
                && (Editable() <==> !(setIt && source.value[idx].pulses == [] && old(Value()).keys[idx]))
    {
      var pos;
      ghost var m := Value();
      st, idx, pos := Locate(k);
      if st == Done {
        EditKeyPairs(m, Lens(source.value), idx, setIt);
        EditAll(idx, pos, |source.value[idx].pulses|, setIt);
      }
    }

    /** The edit of one bit once the key is found; `bit` past the row means no bit to set. */
    method EditOne(idx: nat, pos: nat, length: nat, bit: nat, setIt: bool)
      requires Valid() && length <= MAX_BITS && EditingBit(Value(), idx, length) && pos == Rank(Value().keys, idx)
      modifies `elementMasks, omkeyMask.mask, set e | e in elementMasks :: e.mask
      ensures Valid() && Value() == EditBit(old(Value()), idx, length, bit, setIt)
    {
      hide Owned, View, Rank, InsertRow;
      var on := KeyBit(omkeyMask, elementMasks, idx);
      if on {
        if bit < length {
          SetRowBit(omkeyMask, elementMasks, pos, bit, setIt);
        }
        return;
      }
      if setIt {
        var e := NewRow(length, bit);
        InsertElement(idx, pos, e);
      }
    }

    /** Set or unset one pulse by its position in the vector. */
    method SetIndex(k: OMKey, bit: nat, setIt: bool) returns (st: Status, idx: nat)
      requires Editable()
      requires source.Some? ==> forall i :: 0 <= i < |source.value| && source.value[i].key == k ==>
                 (setIt || Value().keys[i]) ==> bit < |source.value[i].pulses|
      modifies this, omkeyMask.mask, set e | e in elementMasks :: e.mask
      ensures Valid() && masked == None && key == old(key) && source == old(source)
      ensures st == NotModifiable <==> source == None
      ensures st == NoSuchKey <==> source.Some? && forall i :: 0 <= i < |source.value| ==> source.value[i].key != k
      ensures st != Done ==> Value() == old(Value())
      ensures st == Done ==>
                && idx < |source.value| && source.value[idx].key == k
                && EditingBit(old(Value()), idx, |source.value[idx].pulses|)
                && Value() == EditBit(old(Value()), idx, |source.value[idx].pulses|, bit, setIt)
      ensures Editable()
    {
      hide Owned, View, ByRank, Rank, EditBit, EditingBit;
      var pos;
      ghost var m := Value();
      st, idx, pos := Locate(k);
      if st == Done {
        EditBitPairs(m, Lens(source.value), idx, bit, setIt);
        EditOne(idx, pos, |source.value[idx].pulses|, bit, setIt);
      }
    }

    /** The first pulse of the vector that equals the target, or its end. */
    static method FirstEqual(v: seq<RecoPulse>, target: RecoPulse) returns (bit: nat)
      ensures bit <= |v| && target !in v[..bit] && (bit < |v| ==> v[bit] == target)
    {
      bit := 0;
      while bit < |v| && v[bit] != target
        invariant 0 <= bit <= |v| && target !in v[..bit]
      {
        bit := bit + 1;
      }
    }

    /**
     * Set or unset one pulse by value: the first equal pulse of the vector. A
     * target the vector does not hold changes no pair, though setting it may
     * turn on a key without pulses.
     */
    method SetPulse(k: OMKey, target: RecoPulse, setIt: bool) returns (st: Status, idx: nat, bit: nat)
      requires Editable()
      modifies this, omkeyMask.mask, set e | e in elementMasks :: e.mask
      ensures Valid() && masked == None && key == old(key) && source == old(source)
      ensures st == NotModifiable <==> source == None
      ensures st == NoSuchKey <==> source.Some? && forall i :: 0 <= i < |source.value| ==> source.value[i].key != k
      ensures st != Done ==> Value() == old(Value())
      ensures st == Done ==>
                && idx < |source.value| && source.value[idx].key == k
                && bit <= |source.value[idx].pulses| && target !in source.value[idx].pulses[..bit]
                && (bit < |source.value[idx].pulses| ==> source.value[idx].pulses[bit] == target)
                && EditingBit(old(Value()), idx, |source.value[idx].pulses|)
                && Value() == EditBit(old(Value()), idx, |source.value[idx].pulses|, bit, setIt)
      ensures Editable()
    {
      hide Owned, View, ByRank, Rank, EditBit, EditingBit;
      var pos;
      ghost var m := Value();
      bit := 0;
      st, idx, pos := Locate(k);
      if st == Done {
        var v := source.value[idx].pulses;
        bit := FirstEqual(v, target);
        EditBitPairs(m, Lens(source.value), idx, bit, setIt);
        EditOne(idx, pos, |v|, bit, setIt);
      }
    }

    // ----- queries -----

    method GetSum() returns (sum: nat)
      requires Valid()
      ensures sum == Sum(Value().elems)
    {
      sum := 0;
      ghost var rows := Rows(elementMasks);
      var i := 0;
      assert rows[0..] == rows;
      while i < |elementMasks|
        invariant 0 <= i <= |elementMasks|
        invariant sum + Sum(rows[i..]) == Sum(rows)
      {
        assert rows[i..][0] == rows[i] && rows[i..][1..] == rows[i + 1..];
        var n := elementMasks[i].Sum();
        sum := sum + n;
        i := i + 1;
      }
    }

    /** Looks at the key bits only: a key whose row is empty counts as set. */
    method GetAnySet() returns (any: bool)
      requires Valid()
      ensures any <==> Any(Value().keys)
    {
      any := omkeyMask.Any();
    }

    /**
     * Are all key bits and all bits of the rows on? The key bitmask of an empty
     * map has no buffer: its last byte is read all the same.
     */
    method GetAllSet() returns (r: Option<bool>)
      requires Valid()
      ensures r == None <==> omkeyMask.size == 0
      ensures r.Some? ==>
                (r.value <==> Value().keys == Ones(|Value().keys|) &&
                              forall i :: 0 <= i < |Value().elems| ==> Value().elems[i] == Ones(|Value().elems[i]|))
    {
      if omkeyMask.size == 0 {
        return None;
      }
      var all := omkeyMask.All();
      if all {
        var i := 0;
        while i < |elementMasks|
          invariant 0 <= i <= |elementMasks|
          invariant all <==> forall k :: 0 <= k < i ==> elementMasks[k].Bits() == Ones(elementMasks[k].Length())
        {
          var full := elementMasks[i].All();
          all := all && full;
          i := i + 1;
        }
      }
      r := Some(all);
    }

    /** `operator==`: the names, the key bitmasks and the element lists, byte for byte. */
    method Equals(other: PulseMask) returns (eq: bool)
      requires Valid() && other.Valid()
      ensures eq <==> key == other.key && omkeyMask.size == other.omkeyMask.size && Value() == other.Value()
    {
      if key != other.key {
        return false;
      }
      var keys := omkeyMask.Equals(other.omkeyMask);
      var rows := ListsEqual(omkeyMask, elementMasks, other.omkeyMask, other.elementMasks);
      eq := keys && rows;
    }

    // ----- operators -----

    constructor FromParts(name: string, om: Bitmask, es: seq<Bitmask>, src: Option<PulseMap>)
      requires Owned(om, es)
      ensures Valid() && omkeyMask == om && elementMasks == es
      ensures key == name && source == src && masked == None && Value() == View(om, es)
    {
      key, omkeyMask, elementMasks, source, masked := name, om, es, src, None;
    }

    /** The four operators on masks of one source; different source names are fatal. */
    method ApplyBinaryOperator(op: BitOp, other: PulseMask, ghost lens: seq<nat>) returns (r: Option<PulseMask>)
      requires Valid() && other.Valid() && omkeyMask.Length() == other.omkeyMask.Length() == |lens|
      requires Fits(Value(), lens) && Fits(other.Value(), lens)
      ensures r == None <==> key != other.key
      ensures r.Some? ==>
                && fresh(r.value) && r.value.Valid() && Fresh(r.value.omkeyMask, r.value.elementMasks)
                && r.value.key == key && r.value.source == source && r.value.masked == None
                && r.value.Value() == old(Combine(op, Value(), other.Value(), lens))
    {
      if key != other.key {
        return None;
      }
      var om, es := ScanCombine(op, omkeyMask, elementMasks, other.omkeyMask, other.elementMasks, lens);
      var m := new PulseMask.FromParts(key, om, es, source);
      r := Some(m);
    }

    // ----- applying -----

    /**
     * The scan of `Apply` over a source map with as many keys as the mask. The
     * result is built in the cache; a row of the wrong length is fatal and
     * leaves the part built so far there.
     */
    method Filter(src: PulseMap) returns (ok: bool)
      requires Valid() && |src| == omkeyMask.Length() && Aligned(Value())
      modifies `masked
      ensures masked.Some?
      ensures ApplyScan(Value(), src) == if ok then Applied(masked.value) else Mismatch(masked.value)
    {
      var out;
      ok, out := FilterScan(omkeyMask, elementMasks, src);
      masked := Some(out);
    }

    /**
     * Apply the mask to the map its source name stands for in the frame. A
     * cached result is returned as it is, whatever the frame; otherwise the
     * source is looked up (applying its own masks), filtered and cached.
     */
    method Apply(frame: FrameObjects, ghost st: Store, ghost names: seq<string>) returns (r: Option<PulseMap>)
      requires Valid() && Aligned(Value()) && Holds(frame, st)
      requires Chain(st, names) && ChainFits(st, names) && names[0] == key
      requires CachesRight(Caches(frame), st, names) && Outside(this, frame, names)
      modifies `masked, MasksOf(frame)`masked
      ensures old(masked).Some? ==> r == old(masked) == masked
      ensures old(masked).None? && |Resolve(st, names)| != |Value().keys| ==> r == None == masked
      ensures old(masked).None? && |Resolve(st, names)| == |Value().keys| ==>
                var o := ApplyScan(Value(), Resolve(st, names));
                if o.Applied? then r == Some(o.pulses) == masked else r == None && masked == Some(o.partial)
      ensures Holds(frame, st) && CachesRight(Caches(frame), st, names)
      ensures forall m <- MasksOf(frame) :: m != this && Outside(m, frame, names) ==> m.masked == old(m.masked)
      decreases |names|, 1
    {
      hide Owned, View, Holds, CachesRight, Chain, ChainFits, Resolve, ApplyScan, Aligned;
      if masked.Some? {
        return masked;
      }
      var src := GetPulses(frame, key, st, names);
      assert masked == None;
      if |src| != omkeyMask.Length() {
        return None;
      }
      ghost var caches := Caches(frame);
      var ok := Filter(src);
      CachesAgree(caches, Caches(frame), st, names);
      r := if ok then masked else None;
    }

    // ----- chains -----

    /** Is the name among those the sources lead to? */
    method HasAncestor(frame: FrameObjects, name: string, ghost st: Store, ghost names: seq<string>) returns (r: bool)
      requires Holds(frame, st) && Walk(st, names) && names[0] == key
      ensures r <==> name in names
    {
      hide Owned, View;
      if name == key {
        return true;
      }
      var cur := key;
      ghost var left := names;
      while cur in frame && frame[cur].MaskObject?
        invariant Walk(st, left) && left[0] == cur && cur != name
        invariant name in names <==> name in left
        decreases |left|
      {
        assert left == [left[0]] + left[1..];
        cur := frame[cur].mask.key;
        left := left[1..];
        if cur == name {
          assert left[0] in left;
          return true;
        }
      }
      r := false;
    }

    /** Collapse this mask with its source, a mask in the frame; the result depends on the grandparent only. */
    method CollapseLevel(frame: FrameObjects, ghost st: Store) returns (r: Option<PulseMask>)
      requires Valid() && Holds(frame, st)
      requires key in st && st[key].AMask? ==> Aligned(st[key].mask) && Fits(Value(), ChildLens(st[key].mask))
      ensures r.Some? <==> key in st && st[key].AMask?
      ensures r.Some? ==>
                && fresh(r.value) && r.value.Valid() && Fresh(r.value.omkeyMask, r.value.elementMasks)
                && r.value.key == st[key].source && r.value.source == frame[key].mask.source && r.value.masked == None
                && r.value.Value() == old(Collapse(st[key].mask, Value()))
    {
      if key !in frame || frame[key].MapObject? {
        return None;
      }
      var parent := frame[key].mask;
      var om, es := CollapseScan(parent.omkeyMask, parent.elementMasks, omkeyMask, elementMasks);
      var m := new PulseMask.FromParts(parent.key, om, es, parent.source);
      r := Some(m);
    }

    // ----- serialization -----

    /** The record written for this mask: rows without a bit on are left out, with their key bits. */
    method Save() returns (om: Bitmask, elements: seq<Bitmask>)
      requires Valid() && Aligned(Value())
      ensures Fresh(om, elements) && Owned(om, elements) && om.size == omkeyMask.size
      ensures View(om, elements) == old(Trim(Value()))
    {
      om, elements := TrimScan(omkeyMask, elementMasks);
    }

    /**
     * Reading a record back. The source map is not part of it, so the mask
     * cannot be modified any more. Records of version 0 may hold 64 key bits, all
     * on, for a mask without keys: that one is put right.
     */
    constructor Load(name: string, om: Bitmask, elements: seq<Bitmask>, version: nat)
      requires Owned(om, elements)
      ensures Valid() && key == name && source == None && masked == None
      ensures Value() == if version == 0 && |elements| == 0 && om.Bits() == Ones(64) then Mask([], [])
                         else View(om, elements)
      ensures !(version == 0 && |elements| == 0 && om.Bits() == Ones(64)) ==>
                omkeyMask == om && elementMasks == elements
    {
      key, omkeyMask, elementMasks, source, masked := name, om, elements, None, None;
      new;
      if version == 0 && |elements| == 0 && om.Length() == 64 {
        var all := om.All();
        if all {
          omkeyMask := new Bitmask(0, false);
        }
      }
    }

    /**
     * Saving and loading, in any version: the mask read is canonical and selects
     * the same pairs, and it equals the one saved exactly when that was canonical.
     */
    method Reload(version: nat, ghost lens: seq<nat>) returns (r: PulseMask)
      requires Valid() && Fits(Value(), lens)
      ensures fresh(r) && r.Valid() && r.key == key && r.source == None && r.masked == None
      ensures Fits(r.Value(), lens) && Canonical(r.Value()) && Dense(r.Value(), lens) == old(Dense(Value(), lens))
      ensures r.omkeyMask.size == omkeyMask.size && (r.Value() == Value() <==> Canonical(Value()))
    {
      hide Owned, View, Fits, Canonical, Dense, Trim, Aligned;
      ghost var m := Value();
      FitsAligned(m, lens);
      TrimPairs(m, lens);
      var om, elements := Save();
      NotAllOn(Trim(m), lens);
      KeysOf(om, elements);
      r := new PulseMask.Load(key, om, elements, version);
    }
  }

  lemma KeysOf(om: Bitmask, es: seq<Bitmask>)
    requires Owned(om, es)
    ensures om.Valid() && View(om, es).keys == om.Bits() && (|es| == 0 <==> View(om, es).elems == [])
  {
  }

  /** A mask without rows has no key on. */
  lemma NotAllOn(m: Mask, lens: seq<nat>)
    requires Fits(m, lens)
    ensures !(m.elems == [] && m.keys == Ones(64))
  {
    FitsAligned(m, lens);
    CountZero(m.keys);
    assert Any(Ones(64)) by { assert Ones(64)[0]; }
  }

  /** `frame.Get` for a pulse map: a mask stored under the name is applied behind the scenes. */
  method GetPulses(frame: FrameObjects, name: string, ghost st: Store, ghost names: seq<string>) returns (src: PulseMap)
    requires Holds(frame, st)
    requires Chain(st, names) && ChainFits(st, names) && names[0] == name && CachesRight(Caches(frame), st, names)
    modifies MasksOf(frame)`masked
    ensures src == Resolve(st, names)
    ensures Holds(frame, st) && CachesRight(Caches(frame), st, names)
    ensures forall m <- MasksOf(frame) :: Outside(m, frame, names) ==> m.masked == old(m.masked)
    decreases |names|, 0
  {
    HeadStored(frame, st, names);
    OutsideTail(frame, names);
    hide Holds, CachesRight, Outside, Chain, ChainFits, Resolve, ApplyScan, Fits, Aligned;
    match frame[name] {
      case MapObject(pulses) =>
        src := pulses;
      case MaskObject(parent) =>
        ParentReady(frame, st, names);
        var got := parent.Apply(frame, st, names[1..]);
        src := got.value;
        CachesFilled(Caches(frame), st, names);
    }
  }

  method FilterScan(om: Bitmask, es: seq<Bitmask>, src: PulseMap) returns (ok: bool, out: PulseMap)
    requires Owned(om, es) && |src| == om.Length() && Aligned(View(om, es))
    ensures ApplyScan(View(om, es), src) == if ok then Applied(out) else Mismatch(out)
  {
    hide Filtering, ApplyScan, Aligned, Owned, View;
    out := [];
    var i, pos := 0, 0;
    ghost var m := View(om, es);
    FilteringStart(m, src);
    while i < |src|
      invariant 0 <= i <= |src|
      invariant Filtering(m, src, i, pos, out)
    {
      FilteringHeads(m, src, i, pos, out);
      var on := KeyBit(om, es, i);
      if on {
        RowIs(om, es, pos);
        var sum := es[pos].Sum();
        CountZero(es[pos].Bits());
        if sum == 0 {
          FilteringEmpty(m, src, i, pos, out);
        } else if es[pos].Length() != |src[i].pulses| {
          FilteringFails(m, src, i, pos, out);
          return false, out;
        } else {
          FilteringEntry(m, src, i, pos, out);
          var pulses := SelectPulses(es[pos], src[i].pulses);
          out := out + [Entry(src[i].key, pulses)];
        }
        pos := pos + 1;
      } else {
        FilteringOff(m, src, i, pos, out);
      }
      i := i + 1;
    }
    FilteringDone(m, src, pos, out);
    ok := true;
  }

  /** The pulses whose bits are on in a row of the right length. */
  method SelectPulses(row: Bitmask, v: seq<RecoPulse>) returns (r: seq<RecoPulse>)
    requires row.Valid() && row.Length() == |v|
    ensures r == Select(row.Bits(), v)
  {
    r := [];
    var i := 0;
    ghost var bits := row.Bits();
    while i < |v|
      invariant 0 <= i <= |v| && r == Select(bits[..i], v[..i])
    {
      SelectStep(bits, v, i);
      var on := row.Get(i);
      if on { r := r + [v[i]]; }
      i := i + 1;
    }
    assert bits[..i] == bits && v[..i] == v;
  }

  lemma {:induction false} SelectConcat<T>(a: seq<bool>, v: seq<T>, b: seq<bool>, w: seq<T>)
    requires |a| == |v| && |b| == |w|
    ensures Select(a + b, v + w) == Select(a, v) + Select(b, w)
  {
    if a == [] {
      assert a + b == b && v + w == w;
    } else {
      SelectConcat(a[1..], v[1..], b, w);
      assert (a + b)[1..] == a[1..] + b && (v + w)[1..] == v[1..] + w;
      var head := if a[0] then [v[0]] else [];
      assert Select(a, v) == head + Select(a[1..], v[1..]);
      assert Select(a + b, v + w) == head + Select(a[1..] + b, v[1..] + w);
    }
  }

  lemma SelectStep<T>(bits: seq<bool>, v: seq<T>, i: nat)
    requires |bits| == |v| && i < |v|
    ensures Select(bits[..i + 1], v[..i + 1]) == Select(bits[..i], v[..i]) + (if bits[i] then [v[i]] else [])
  {
    assert bits[..i + 1] == bits[..i] + [bits[i]] && v[..i + 1] == v[..i] + [v[i]];
    SelectConcat(bits[..i], v[..i], [bits[i]], [v[i]]);
  }

  /** Entries already produced, in front of what the scan has left to say. */
  function Extend(done: PulseMap, o: Outcome): Outcome {
    match o
    case Applied(pulses) => Applied(done + pulses)
    case Mismatch(partial) => Mismatch(done + partial)
  }

  /** `i` keys and `pos` rows are scanned and `done` is their contribution. */
  ghost predicate Filtering(m: Mask, src: PulseMap, i: nat, pos: nat, done: PulseMap) {
    && Aligned(m) && i <= |m.keys| == |src| && pos <= |m.elems| && Aligned(Left(m, i, pos))
    && ApplyScan(m, src) == Extend(done, ApplyScan(Left(m, i, pos), src[i..]))
  }

  lemma FilteringStart(m: Mask, src: PulseMap)
    requires Aligned(m) && |m.keys| == |src|
    ensures Filtering(m, src, 0, 0, [])
  {
    assert Left(m, 0, 0) == m && src[0..] == src;
    forall p: PulseMap ensures [] + p == p {}
  }

  lemma FilteringDone(m: Mask, src: PulseMap, pos: nat, done: PulseMap)
    requires Filtering(m, src, |src|, pos, done)
    ensures Aligned(m) && |m.keys| == |src| && ApplyScan(m, src) == Applied(done)
  {
    assert done + [] == done;
  }

  lemma FilteringHeads(m: Mask, src: PulseMap, i: nat, pos: nat, done: PulseMap)
    requires Filtering(m, src, i, pos, done) && i < |src|
    ensures |m.keys| == |src| && Aligned(m) && (m.keys[i] ==> pos < |m.elems|)
  {
    AlignedTail(Left(m, i, pos));
  }

  /** What the scan does at a key. */
  lemma ApplyHead(m: Mask, src: PulseMap)
    requires Aligned(m) && |m.keys| == |src| && src != []
    ensures (m.keys[0] ==> m.elems != []) && Aligned(Tail(m))
    ensures ApplyScan(m, src) ==
              if !m.keys[0] || !Any(m.elems[0]) then ApplyScan(Tail(m), src[1..])
              else if |m.elems[0]| != |src[0].pulses| then Mismatch([])
              else Prepend(Entry(src[0].key, Select(m.elems[0], src[0].pulses)), ApplyScan(Tail(m), src[1..]))
  {
    AlignedTail(m);
  }

  /** A key that is off. */
  lemma FilteringOff(m: Mask, src: PulseMap, i: nat, pos: nat, done: PulseMap)
    requires Filtering(m, src, i, pos, done) && i < |src| == |m.keys| && !m.keys[i]
    ensures Filtering(m, src, i + 1, pos, done)
  {
    hide ApplyScan, Aligned, Any, Select;
    ApplyHead(Left(m, i, pos), src[i..]);
    LeftTail(m, i, pos);
    assert src[i..][1..] == src[i + 1..];
  }

  /** A row with no bit on. */
  lemma FilteringEmpty(m: Mask, src: PulseMap, i: nat, pos: nat, done: PulseMap)
    requires Filtering(m, src, i, pos, done) && i < |src| == |m.keys| && m.keys[i]
    requires pos < |m.elems| && !Any(m.elems[pos])
    ensures Filtering(m, src, i + 1, pos + 1, done)
  {
    hide ApplyScan, Aligned, Any, Select;
    ApplyHead(Left(m, i, pos), src[i..]);
    LeftTail(m, i, pos);
    assert src[i..][1..] == src[i + 1..];
  }

  /** A row of the wrong length. */
  lemma FilteringFails(m: Mask, src: PulseMap, i: nat, pos: nat, done: PulseMap)
    requires Filtering(m, src, i, pos, done) && i < |src| == |m.keys| && m.keys[i]
    requires pos < |m.elems| && Any(m.elems[pos]) && |m.elems[pos]| != |src[i].pulses|
    ensures Aligned(m) && ApplyScan(m, src) == Mismatch(done)
  {
    hide ApplyScan, Aligned, Any, Select;
    ApplyHead(Left(m, i, pos), src[i..]);
    assert Left(m, i, pos).elems[0] == m.elems[pos] && src[i..][0] == src[i];
    assert done + [] == done;
  }

  /** A row that contributes an entry. */
  lemma FilteringEntry(m: Mask, src: PulseMap, i: nat, pos: nat, done: PulseMap)
    requires Filtering(m, src, i, pos, done) && i < |src| == |m.keys| && m.keys[i]
    requires pos < |m.elems| && Any(m.elems[pos]) && |m.elems[pos]| == |src[i].pulses|
    ensures Filtering(m, src, i + 1, pos + 1, done + [Entry(src[i].key, Select(m.elems[pos], src[i].pulses))])
  {
    hide ApplyScan, Aligned, Any, Select;
    var rest := Left(m, i, pos);
    ApplyHead(rest, src[i..]);
    LeftTail(m, i, pos);
    assert rest.elems[0] == m.elems[pos] && src[i..][0] == src[i] && src[i..][1..] == src[i + 1..];
    ExtendEntry(done, Entry(src[i].key, Select(m.elems[pos], src[i].pulses)), ApplyScan(Tail(rest), src[i + 1..]));
  }

  lemma ExtendEntry(done: PulseMap, e: Entry, o: Outcome)
    ensures Extend(done, Prepend(e, o)) == Extend(done + [e], o)
  {
    var tail := match o case Applied(pulses) => pulses case Mismatch(partial) => partial;
    assert done + ([e] + tail) == (done + [e]) + tail;
  }

  /**
   * `Repoint`: collapse level by level until the mask's source is the named
   * ancestor. The result is a mask of its own, and selects from the ancestor's
   * map exactly the pulses that the whole chain of masks selects, whether it is
   * applied afresh or has the copied cache; a name outside the chain is fatal.
   */
  method Repoint(m: PulseMask, frame: FrameObjects, name: string, ghost st: Store, ghost names: seq<string>,
                 ghost objs: set<object>) returns (r: Option<PulseMask>, ghost k: nat)
    requires m.Valid() && HoldsIn(frame, st, objs) && Chain(st, names) && ChainFits(st, names) && names[0] == m.key
    requires Fits(m.Value(), Lens(Resolve(st, names)))
    ensures r.Some? <==> name in names
    ensures r.Some? ==>
              && k < |names| && names[k] == name && Chain(st, names[k..]) && ChainFits(st, names[k..])
              && fresh(r.value) && r.value.Valid() && Fresh(r.value.omkeyMask, r.value.elementMasks)
              && r.value.key == name && r.value.masked == (if name == m.key then m.masked else None)
              && r.value.source == (if name == m.key then m.source else SourceOf(frame, names[k - 1]))
              && Fits(r.value.Value(), Lens(Resolve(st, names[k..])))
              && Masked(r.value.Value(), Resolve(st, names[k..])) == old(Masked(m.Value(), Resolve(st, names)))
              && Applies(r.value.Value(), Resolve(st, names[k..]), old(Masked(m.Value(), Resolve(st, names))))
              && Sum(r.value.Value().elems) == old(Sum(m.Value().elems))
  {
    hide Holds, HoldsIn, ChainFits, Fits, Walk, Masked, Collapse, Resolve, MaskChain.Repoint, Applies, Owned, View;
    HoldsInHolds(frame, st, objs);
    ChainIsWalk(st, names);
    var has := m.HasAncestor(frame, name, st, names);
    if !has {
      return None, 0;
    }
    ghost var d := m.Value();
    RepointZero(st, names, d);
    if name == m.key {
      var copy := new PulseMask.Copy(m);
      RepointIs(st, names, d, 0, copy.Value());
      return Some(copy), 0;
    }
    var last;
    last, k := CollapseTo(m, frame, name, st, names, objs);
    RepointIs(st, names, d, k, last.Value());
    r := Some(last);
  }

  /** The source map that the mask stored under a name has. */
  ghost function SourceOf(frame: FrameObjects, name: string): Option<PulseMap>
    reads MasksOf(frame)`source
  {
    if name in frame && frame[name].MaskObject? then assert frame[name].mask in MasksOf(frame); frame[name].mask.source
    else None
  }

  /** The loop of `Repoint`, entered when at least one level is to be collapsed. */
  method CollapseTo(m: PulseMask, frame: FrameObjects, name: string, ghost st: Store, ghost names: seq<string>,
                    ghost objs: set<object>) returns (cur: PulseMask, ghost k: nat)
    requires m.Valid() && HoldsIn(frame, st, objs) && Chain(st, names) && ChainFits(st, names) && names[0] == m.key
    requires Fits(m.Value(), Lens(Resolve(st, names))) && name in names && name != m.key
    ensures k < |names| && names[k] == name && cur.key == name && cur.Valid()
    ensures fresh(cur) && Fresh(cur.omkeyMask, cur.elementMasks) && cur.masked == None
    ensures k > 0 && cur.source == SourceOf(frame, names[k - 1])
    ensures cur.Value() == MaskChain.Repoint(st, names, old(m.Value()), k)
  {
    hide Holds, HoldsIn, ChainFits, Fits, Walk, Masked, Collapse, Resolve, MaskChain.Repoint, Owned, View, Aligned;
    ghost var d := m.Value();
    cur, k := m, 0;
    RepointZero(st, names, d);
    while cur.key != name
      invariant k < |names| && cur.key == names[k] && cur.Valid() && name !in names[..k]
      invariant cur.Value() == MaskChain.Repoint(st, names, d, k)
      invariant HoldsIn(frame, st, objs)
      invariant k == 0 ==> cur.key == m.key
      invariant k > 0 ==> fresh(cur) && Fresh(cur.omkeyMask, cur.elementMasks) && cur.masked == None
      invariant k > 0 ==> cur.source == SourceOf(frame, names[k - 1])
      decreases |names| - k
    {
      HoldsInHolds(frame, st, objs);
      FurtherOn(names, name, k);
      RepointStep(st, names, d, k);
      var next := cur.CollapseLevel(frame, st);
      cur := next.value;
      k := k + 1;
    }
  }

  lemma FurtherOn(names: seq<string>, name: string, k: nat)
    requires k < |names| && name in names && name !in names[..k] && names[k] != name
    ensures k + 1 < |names| && name !in names[..k + 1]
  {
    assert names == names[..k] + [names[k]] + names[k + 1..];
    assert names[..k + 1] == names[..k] + [names[k]];
  }

  /** A fresh application succeeds with this map. */
  ghost predicate Applies(m: Mask, src: PulseMap, out: PulseMap) {
    Aligned(m) && |m.keys| == |src| && ApplyScan(m, src) == Applied(out)
  }

  lemma RepointIs(st: Store, names: seq<string>, d: Mask, k: nat, m: Mask)
    requires Chain(st, names) && ChainFits(st, names) && k < |names| && Fits(d, Lens(Resolve(st, names)))
    requires m == MaskChain.Repoint(st, names, d, k)
    ensures Chain(st, names[k..]) && ChainFits(st, names[k..]) && Fits(m, Lens(Resolve(st, names[k..])))
    ensures Masked(m, Resolve(st, names[k..])) == Masked(d, Resolve(st, names))
    ensures Applies(m, Resolve(st, names[k..]), Masked(d, Resolve(st, names)))
    ensures Sum(m.elems) == Sum(d.elems)
  {
    hide ChainFits, Fits, Masked, Resolve, MaskChain.Repoint, ApplyScan, Aligned;
    RepointCorrect(st, names, d, k);
    FitsAligned(m, Lens(Resolve(st, names[k..])));
    ApplyScanFits(m, Resolve(st, names[k..]));
    FitsSize(m, Lens(Resolve(st, names[k..])));
  }

  lemma FitsSize(m: Mask, lens: seq<nat>)
    requires Fits(m, lens)
    ensures |m.keys| == |lens|
  {
  }

  lemma OutsideTail(frame: FrameObjects, names: seq<string>)
    requires names != [] && names[0] in frame
    ensures forall m <- MasksOf(frame) :: Outside(m, frame, names) ==>
              Outside(m, frame, names[1..]) && (frame[names[0]].MaskObject? ==> m != frame[names[0]].mask)
  {
    forall m <- MasksOf(frame) | Outside(m, frame, names)
      ensures Outside(m, frame, names[1..]) && (frame[names[0]].MaskObject? ==> m != frame[names[0]].mask)
    {
      assert names[0] in names;
      forall n <- names[1..] ensures n in names {}
    }
  }

  lemma HeadStored(frame: FrameObjects, st: Store, names: seq<string>)
    requires Chain(st, names) && ChainFits(st, names) && Holds(frame, st)
    ensures names[0] in frame
    ensures frame[names[0]].MapObject? ==> Resolve(st, names) == frame[names[0]].pulses
    ensures frame[names[0]].MapObject? ==> forall c :: CachesRight(c, st, names)
  {
  }

  lemma CachesFilled(c: map<string, Option<PulseMap>>, st: Store, names: seq<string>)
    requires Chain(st, names) && ChainFits(st, names)
    requires |names| > 1 && Chain(st, names[1..]) && ChainFits(st, names[1..])
    requires CachesRight(c, st, names[1..])
    requires names[0] in c && c[names[0]] == Some(Resolve(st, names))
    ensures CachesRight(c, st, names)
  {
  }

  /** The mask above in the chain can be applied in its turn. */
  lemma ParentReady(frame: FrameObjects, st: Store, names: seq<string>)
    requires Chain(st, names) && ChainFits(st, names) && Holds(frame, st)
    requires names[0] in frame && frame[names[0]].MaskObject? && CachesRight(Caches(frame), st, names)
    ensures frame[names[0]].mask.Valid()
    ensures |names| > 1 && Chain(st, names[1..]) && ChainFits(st, names[1..])
    ensures frame[names[0]].mask.key == names[1] && frame[names[0]].mask in MasksOf(frame)
    ensures Outside(frame[names[0]].mask, frame, names[1..])
    ensures Fits(frame[names[0]].mask.Value(), Lens(Resolve(st, names[1..])))
    ensures Aligned(frame[names[0]].mask.Value())
    ensures |Resolve(st, names[1..])| == |frame[names[0]].mask.Value().keys|
    ensures ApplyScan(frame[names[0]].mask.Value(), Resolve(st, names[1..])) == Applied(Resolve(st, names))
    ensures CachesRight(Caches(frame), st, names[1..])
    ensures frame[names[0]].mask.masked.Some? ==> frame[names[0]].mask.masked.value == Resolve(st, names)
  {
    var m := frame[names[0]].mask;
    assert st[names[0]] == AMask(m.key, m.Value());
    FitsAligned(m.Value(), Lens(Resolve(st, names[1..])));
    ApplyScanFits(m.Value(), Resolve(st, names[1..]));
    forall n | n in names[1..] && n in frame && frame[n].MaskObject? ensures frame[n].mask != m {
      if frame[n].mask == m {
        var j :| 0 <= j < |names[1..]| && names[1..][j] == n;
        SuffixChain(st, names, j + 1);
        assert st[n] == st[names[0]];
        assert names[j + 1..][1] == names[j + 2];
        ChainDistinct(st, names, 1, j + 2);
      }
    }
  }
}
