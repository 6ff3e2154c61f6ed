/**
 * Sets of times as lists of half-open windows. Lists that are sorted, strictly
 * separated and free of empty windows are canonical, so the set operations
 * form a Boolean algebra under list equality.
 */
module TimeWindows {

  /** Times are extended reals. */
  datatype Ext = NegInf | Fin(r: real) | PosInf

  predicate Lt(a: Ext, b: Ext) {
    match (a, b)
    case (_, NegInf) => false
    case (NegInf, _) => true
    case (PosInf, _) => false
    case (_, PosInf) => true
    case (Fin(x), Fin(y)) => x < y
  }

  predicate Le(a: Ext, b: Ext) { a == b || Lt(a, b) }

  function Min(a: Ext, b: Ext): Ext { if Lt(b, a) then b else a }

  function Max(a: Ext, b: Ext): Ext { if Lt(a, b) then b else a }

  datatype Window = Window(start: Ext, stop: Ext) {
    predicate Contains(t: Ext) { Le(start, t) && Lt(t, stop) }

    predicate NonEmpty() { Lt(start, stop) }

    /** `operator<`: by start, then by stop. */
    predicate Before(other: Window) {
      Lt(start, other.start) || (start == other.start && Lt(stop, other.stop))
    }

    function GetOverlapType(other: Window): OverlapType {
      if Lt(other.start, start) then
        if Lt(other.stop, start) then NONE
        else if Lt(stop, other.stop) then WITHIN
        else BEFORE
      else
        if Lt(stop, other.start) then NONE
        else if Le(other.stop, stop) then WITHOUT
        else AFTER
    }
  }

  datatype OverlapType = BEFORE | WITHIN | AFTER | NONE | WITHOUT

  type Series = seq<Window>

  /** Is the time in one of the windows? */
  predicate In(s: Series, t: Ext) {
    s != [] && (s[0].Contains(t) || In(s[1..], t))
  }

  /** Sorted, with a gap between neighbours, and no empty window. */
  predicate Normal(s: Series) {
    s == [] ||
    (s[0].NonEmpty() && (|s| > 1 ==> Lt(s[0].stop, s[1].start)) && Normal(s[1..]))
  }

  // ----- canonicity -----

  lemma {:induction false} AfterStart(s: Series, t: Ext)
    requires Normal(s) && In(s, t)
    ensures Le(s[0].start, t)
    ensures !s[0].Contains(t) ==> Lt(s[0].stop, t)
  {
    if !s[0].Contains(t) { AfterStart(s[1..], t); }
  }

  /** The first window is the earliest run of points. */
  lemma FirstPoints(s: Series)
    requires Normal(s) && s != []
    ensures In(s, s[0].start) && !In(s, s[0].stop)
  {
    if In(s, s[0].stop) { AfterStart(s, s[0].stop); }
  }

  /** Normalised series with the same points are the same list. */
  lemma {:induction false} Canonical(a: Series, b: Series)
    requires Normal(a) && Normal(b) && forall t :: In(a, t) <==> In(b, t)
    ensures a == b
  {
    if a == [] {
      if b != [] { FirstPoints(b); }
    } else {
      FirstPoints(a);
      assert In(b, a[0].start);
      FirstPoints(b);
      SameFirst(a, b);
      forall t ensures In(a[1..], t) <==> In(b[1..], t) {
        if In(a[1..], t) { TailPoint(a, t); }
        if In(b[1..], t) { TailPoint(b, t); }
        assert In(a, t) <==> In(b, t);
      }
      Canonical(a[1..], b[1..]);
    }
  }

  lemma TailPoint(s: Series, t: Ext)
    requires Normal(s) && s != [] && In(s[1..], t)
    ensures In(s, t) && !s[0].Contains(t)
  {
    AfterStart(s[1..], t);
  }

  lemma SameFirst(a: Series, b: Series)
    requires Normal(a) && Normal(b) && a != [] && b != [] && forall t :: In(a, t) <==> In(b, t)
    ensures a[0] == b[0]
  {
    FirstPoints(a);
    FirstPoints(b);
    assert In(b, a[0].start) && In(a, b[0].start);
    AfterStart(a, b[0].start);
    AfterStart(b, a[0].start);
    assert a[0].start == b[0].start;
    assert In(a, a[0].stop) <==> In(b, a[0].stop);
    assert In(a, b[0].stop) <==> In(b, b[0].stop);
  }

  // ----- inserting -----

  /** Sorted by start, without empty windows: what coalescing starts from. */
  predicate Ordered(s: Series) {
    s == [] || (s[0].NonEmpty() && (|s| > 1 ==> Le(s[0].start, s[1].start)) && Ordered(s[1..]))
  }

  /** Insert before the first window that is not less: `lower_bound`. */
  function Insert(s: Series, w: Window): Series {
    if s == [] || !s[0].Before(w) then [w] + s else [s[0]] + Insert(s[1..], w)
  }

  lemma {:induction false} InsertOrdered(s: Series, w: Window)
    requires Ordered(s) && w.NonEmpty()
    ensures Ordered(Insert(s, w)) && Insert(s, w) != []
    ensures Insert(s, w)[0] == w || (s != [] && Insert(s, w)[0] == s[0])
    ensures forall t :: In(Insert(s, w), t) <==> In(s, t) || w.Contains(t)
  {
    var r := Insert(s, w);
    if s == [] || !s[0].Before(w) {
      assert r[1..] == s;
    } else {
      InsertOrdered(s[1..], w);
      assert r[1..] == Insert(s[1..], w);
    }
  }

  /** The order by start, then by stop: of two windows one comes before the other, or they are the same. */
  lemma BeforeOrder(a: Window, b: Window)
    ensures a.Before(b) ==> Lt(a.start, b.start) || (a.start == b.start && Lt(a.stop, b.stop))
    ensures Lt(a.start, b.start) ==> a.Before(b)
    ensures a != b <==> a.Before(b) || b.Before(a)
    ensures !(a.Before(b) && b.Before(a))
  {
  }

  /** The earlier start, or the same start and no later a stop. */
  predicate NotAfter(a: Window, b: Window) {
    Lt(a.start, b.start) || (a.start == b.start && Le(a.stop, b.stop))
  }

  /** Sorted by start, and by stop among those with the same start. */
  predicate Sorted(s: Series) {
    forall i, j :: 0 <= i < j < |s| ==> NotAfter(s[i], s[j])
  }

  lemma OneOf(s: Series, w: Window, x: Window)
    requires x in multiset(s) + multiset{w}
    ensures x == w || x in s
  {
  }

  lemma NotAfterTrans(a: Window, b: Window, c: Window)
    requires NotAfter(a, b) && NotAfter(b, c)
    ensures NotAfter(a, c)
  {
  }

  lemma SortedCons(s: Series, w: Window)
    requires Sorted(s) && forall x :: x in s ==> NotAfter(w, x)
    ensures Sorted([w] + s)
  {
    hide NotAfter;
    var r := [w] + s;
    forall i, j | 0 <= i < j < |r| ensures NotAfter(r[i], r[j]) {
      assert r[j] == s[j - 1];
      if i > 0 { assert r[i] == s[i - 1]; }
    }
  }

  lemma FirstNotAfter(s: Series, x: Window)
    requires Sorted(s) && s != [] && x in s
    ensures x == s[0] || NotAfter(s[0], x)
  {
    hide NotAfter;
    var k :| 0 <= k < |s| && s[k] == x;
  }

  /** Inserting keeps the order, and adds exactly the window. */
  lemma {:induction false} InsertKeepsOrder(s: Series, w: Window)
    requires Sorted(s)
    ensures Sorted(Insert(s, w)) && multiset(Insert(s, w)) == multiset(s) + multiset{w}
  {
    if s == [] || !s[0].Before(w) {
      forall x | x in s ensures NotAfter(w, x) {
        FirstNotAfter(s, x);
        assert NotAfter(w, s[0]);
        if x != s[0] { NotAfterTrans(w, s[0], x); }
      }
      SortedCons(s, w);
    } else {
      var rest := Insert(s[1..], w);
      InsertKeepsOrder(s[1..], w);
      assert NotAfter(s[0], w);
      hide NotAfter;
      hide Lt;
      assert s == [s[0]] + s[1..];
      forall x | x in rest ensures NotAfter(s[0], x) {
        OneOf(s[1..], w, x);
        if x in s[1..] {
          var k :| 0 <= k < |s[1..]| && s[1..][k] == x;
          assert s[k + 1] == x;
        }
      }
      SortedCons(rest, s[0]);
    }
  }

  /** How two windows lie: apart, one inside the other, or overlapping or touching at one end. */
  lemma OverlapIs(a: Window, b: Window)
    requires a.NonEmpty() && b.NonEmpty()
    ensures a.GetOverlapType(b) == NONE <==> Lt(a.stop, b.start) || Lt(b.stop, a.start)
    ensures a.GetOverlapType(b) == WITHOUT <==> Le(a.start, b.start) && Le(b.stop, a.stop)
    ensures a.GetOverlapType(b) == WITHIN <==> Lt(b.start, a.start) && Lt(a.stop, b.stop)
    ensures a.GetOverlapType(b) == BEFORE <==> Lt(b.start, a.start) && Le(a.start, b.stop) && Le(b.stop, a.stop)
    ensures a.GetOverlapType(b) == AFTER <==> Le(a.start, b.start) && Le(b.start, a.stop) && Lt(a.stop, b.stop)
  {
  }

  lemma {:induction false} NormalOrdered(s: Series)
    requires Normal(s)
    ensures Ordered(s) && SortedStarts(s)
  {
    if s != [] { NormalOrdered(s[1..]); }
  }

  /** Sorted by start, whatever the windows: empty and reversed ones hold no time. */
  predicate SortedStarts(s: Series) {
    s == [] || ((|s| > 1 ==> Le(s[0].start, s[1].start)) && SortedStarts(s[1..]))
  }

  lemma {:induction false} InsertSorted(s: Series, w: Window)
    requires SortedStarts(s)
    ensures SortedStarts(Insert(s, w)) && Insert(s, w) != []
    ensures Insert(s, w)[0] == w || (s != [] && Insert(s, w)[0] == s[0])
    ensures forall t :: In(Insert(s, w), t) <==> In(s, t) || w.Contains(t)
  {
    var r := Insert(s, w);
    if s == [] || !s[0].Before(w) {
      assert r[1..] == s;
    } else {
      InsertSorted(s[1..], w);
      assert r[1..] == Insert(s[1..], w);
    }
  }

  function Merge(a: Window, b: Window): Window {
    Window(Min(a.start, b.start), Max(a.stop, b.stop))
  }

  /** Merge neighbours that overlap or touch, from the left. */
  function Coalesced(s: Series): Series
    decreases |s|
  {
    if |s| < 2 then s
    else if s[0].GetOverlapType(s[1]) != NONE then Coalesced([Merge(s[0], s[1])] + s[2..])
    else [s[0]] + Coalesced(s[1..])
  }

  /** Coalescing keeps the points of every list sorted by start. */
  lemma {:induction false} CoalescedPoints(s: Series)
    requires SortedStarts(s)
    ensures SortedStarts(Coalesced(s)) && (s != [] ==> Coalesced(s) != [] && Coalesced(s)[0].start == s[0].start)
    ensures forall t :: In(Coalesced(s), t) <==> In(s, t)
    decreases |s|
  {
    if |s| >= 2 {
      assert s[1..][1..] == s[2..];
      if s[0].GetOverlapType(s[1]) != NONE {
        var m := [Merge(s[0], s[1])] + s[2..];
        assert m[1..] == s[2..];
        assert |m| > 1 ==> m[1] == s[2] && s[1..][1] == s[2];
        assert SortedStarts(m);
        CoalescedPoints(m);
        forall t ensures In(m, t) <==> In(s, t) {
          assert m[0].Contains(t) <==> s[0].Contains(t) || s[1].Contains(t);
        }
      } else {
        CoalescedPoints(s[1..]);
        var c := Coalesced(s);
        assert c[1..] == Coalesced(s[1..]);
      }
    }
  }

  /** Coalescing an ordered list normalises it. */
  lemma {:induction false} CoalescedNormal(s: Series)
    requires Ordered(s)
    ensures Normal(Coalesced(s)) && (s != [] ==> Coalesced(s) != [] && Coalesced(s)[0].start == s[0].start)
    decreases |s|
  {
    if |s| >= 2 {
      assert s[1..][1..] == s[2..];
      if s[0].GetOverlapType(s[1]) != NONE {
        var m := [Merge(s[0], s[1])] + s[2..];
        assert m[1..] == s[2..];
        assert |m| > 1 ==> m[1] == s[2] && s[1..][1] == s[2];
        assert Ordered(m);
        CoalescedNormal(m);
      } else {
        CoalescedNormal(s[1..]);
        var c := Coalesced(s);
        assert c[1..] == Coalesced(s[1..]);
      }
    }
  }

  function Push(s: Series, w: Window): Series { Coalesced(Insert(s, w)) }

  /** Pushing any window, empty and reversed ones too, adds its points to those of a list sorted by start. */
  lemma PushPoints(s: Series, w: Window)
    requires SortedStarts(s)
    ensures SortedStarts(Push(s, w))
    ensures forall t :: In(Push(s, w), t) <==> In(s, t) || w.Contains(t)
    ensures Normal(s) && w.NonEmpty() ==> Normal(Push(s, w))
  {
    InsertSorted(s, w);
    CoalescedPoints(Insert(s, w));
    if Normal(s) && w.NonEmpty() {
      NormalOrdered(s);
      InsertOrdered(s, w);
      CoalescedNormal(Insert(s, w));
    }
  }

  // ----- union -----

  function Union(a: Series, b: Series): Series
    decreases |b|
  {
    if b == [] then a else Union(Push(a, b[0]), b[1..])
  }

  predicate Filled(s: Series) {
    s == [] || (s[0].NonEmpty() && Filled(s[1..]))
  }

  /** The union has the points of either list, whatever the second one; it is normalised if nothing empty is added. */
  lemma {:induction false} UnionPoints(a: Series, b: Series)
    requires SortedStarts(a)
    ensures SortedStarts(Union(a, b))
    ensures forall t :: In(Union(a, b), t) <==> In(a, t) || In(b, t)
    ensures Normal(a) && Filled(b) ==> Normal(Union(a, b))
    decreases |b|
  {
    if b != [] {
      PushPoints(a, b[0]);
      UnionPoints(Push(a, b[0]), b[1..]);
    }
  }

  lemma {:induction false} NormalFilled(s: Series)
    requires Normal(s)
    ensures Filled(s) && SortedStarts(s)
  {
    if s != [] { NormalFilled(s[1..]); }
  }

  // ----- intersection -----

  function Both(a: Series, b: Series): Series
    decreases |a| + |b|
  {
    if a == [] || b == [] then []
    else
      match a[0].GetOverlapType(b[0])
      case BEFORE => (if a[0].start != b[0].stop then [Window(a[0].start, b[0].stop)] else []) + Both(a, b[1..])
      case AFTER => (if b[0].start != a[0].stop then [Window(b[0].start, a[0].stop)] else []) + Both(a[1..], b)
      case WITHIN => [a[0]] + Both(a[1..], b)
      case WITHOUT => [b[0]] + Both(a, b[1..])
      case NONE => if a[0].Before(b[0]) then Both(a[1..], b) else Both(a, b[1..])
  }

  lemma OneMore(w: Window, rest: Series, t: Ext)
    ensures In([w] + rest, t) <==> w.Contains(t) || In(rest, t)
    ensures Normal([w] + rest) <==> w.NonEmpty() && (rest != [] ==> Lt(w.stop, rest[0].start)) && Normal(rest)
  {
    assert ([w] + rest)[1..] == rest;
  }

  /** What one step of the two-pointer scan emits. */
  function Emitted(a: Series, b: Series): Series
    requires a != [] && b != []
  {
    match a[0].GetOverlapType(b[0])
    case BEFORE => if a[0].start != b[0].stop then [Window(a[0].start, b[0].stop)] else []
    case AFTER => if b[0].start != a[0].stop then [Window(b[0].start, a[0].stop)] else []
    case WITHIN => [a[0]]
    case WITHOUT => [b[0]]
    case NONE => []
  }

  /** Does the scan move past the first operand's window? */
  predicate MovesFirst(a: Series, b: Series)
    requires a != [] && b != []
  {
    match a[0].GetOverlapType(b[0])
    case AFTER => true
    case WITHIN => true
    case NONE => a[0].Before(b[0])
    case _ => false
  }

  lemma BothStep(a: Series, b: Series)
    requires a != [] && b != []
    ensures Both(a, b) == Emitted(a, b) + (if MovesFirst(a, b) then Both(a[1..], b) else Both(a, b[1..]))
  {
  }

  /** One step: the emitted window holds the common points of the window passed over. */
  lemma StepPoints(a: Series, b: Series, t: Ext)
    requires Normal(a) && Normal(b) && a != [] && b != []
    ensures In(a, t) && In(b, t) <==>
              || In(Emitted(a, b), t)
              || (if MovesFirst(a, b) then In(a[1..], t) && In(b, t) else In(a, t) && In(b[1..], t))
  {
    if In(a[1..], t) { AfterStart(a[1..], t); }
    if In(b[1..], t) { AfterStart(b[1..], t); }
  }

  /**
   * The two-pointer scan emits, without coalescing, a normalised series of
   * exactly the points in both operands, windows that touch included.
   */
  lemma {:induction false} BothPoints(a: Series, b: Series)
    requires Normal(a) && Normal(b)
    ensures Normal(Both(a, b))
    ensures Both(a, b) != [] ==>
              a != [] && b != [] && Le(a[0].start, Both(a, b)[0].start) && Le(b[0].start, Both(a, b)[0].start)
    ensures forall t :: In(Both(a, b), t) <==> In(a, t) && In(b, t)
    decreases |a| + |b|
  {
    if a != [] && b != [] {
      BothStep(a, b);
      var first := MovesFirst(a, b);
      var e, rest := Emitted(a, b), if first then Both(a[1..], b) else Both(a, b[1..]);
      if first { BothPoints(a[1..], b); } else { BothPoints(a, b[1..]); }
      StepNormal(a, b, rest);
      forall t ensures In(Both(a, b), t) <==> In(a, t) && In(b, t) {
        StepPoints(a, b, t);
        if e != [] { OneMore(e[0], rest, t); assert e == [e[0]]; } else { assert e + rest == rest; }
      }
    }
  }

  lemma StepNormal(a: Series, b: Series, rest: Series)
    requires Normal(a) && Normal(b) && a != [] && b != [] && Normal(rest)
    requires rest != [] && MovesFirst(a, b) ==>
               |a| > 1 && Le(a[1].start, rest[0].start) && Le(b[0].start, rest[0].start)
    requires rest != [] && !MovesFirst(a, b) ==>
               |b| > 1 && Le(a[0].start, rest[0].start) && Le(b[1].start, rest[0].start)
    ensures Normal(Emitted(a, b) + rest)
    ensures Emitted(a, b) + rest != [] ==>
              Le(a[0].start, (Emitted(a, b) + rest)[0].start) && Le(b[0].start, (Emitted(a, b) + rest)[0].start)
  {
    var e := Emitted(a, b);
    if e != [] {
      assert e == [e[0]];
      OneMore(e[0], rest, NegInf);
    } else {
      assert e + rest == rest;
    }
  }

  // ----- complement -----

  /** The gaps after the first window, the last one reaching to infinity. */
  function Gaps(s: Series): Series
    requires s != []
  {
    if |s| == 1 then (if Lt(s[0].stop, PosInf) then [Window(s[0].stop, PosInf)] else [])
    else [Window(s[0].stop, s[1].start)] + Gaps(s[1..])
  }

  function Complement(s: Series): Series {
    if s == [] then [Window(NegInf, PosInf)]
    else (if Lt(NegInf, s[0].start) then [Window(NegInf, s[0].start)] else []) + Gaps(s)
  }

  lemma {:induction false} GapsPoints(s: Series)
    requires Normal(s) && s != []
    ensures Normal(Gaps(s)) && (Gaps(s) != [] ==> Gaps(s)[0].start == s[0].stop)
    ensures forall t :: t != PosInf ==> (In(Gaps(s), t) <==> Le(s[0].stop, t) && !In(s, t))
    decreases |s|
  {
    if |s| > 1 {
      GapsPoints(s[1..]);
      forall t | t != PosInf ensures In(Gaps(s), t) <==> Le(s[0].stop, t) && !In(s, t) {
        OneMore(Window(s[0].stop, s[1].start), Gaps(s[1..]), t);
        if In(s[1..], t) { AfterStart(s[1..], t); }
      }
      OneMore(Window(s[0].stop, s[1].start), Gaps(s[1..]), NegInf);
    }
  }

  /** The complement is normalised and holds exactly the other times; infinity itself lies in no window. */
  lemma ComplementPoints(s: Series)
    requires Normal(s)
    ensures Normal(Complement(s))
    ensures forall t :: In(Complement(s), t) <==> t != PosInf && !In(s, t)
  {
    if s != [] {
      GapsPoints(s);
      forall t ensures In(Complement(s), t) <==> t != PosInf && !In(s, t) {
        if Lt(NegInf, s[0].start) {
          OneMore(Window(NegInf, s[0].start), Gaps(s), t);
        } else {
          assert Complement(s) == Gaps(s);
        }
        if In(s, t) { AfterStart(s, t); }
        if t == PosInf { NoInfinity(Complement(s)); }
      }
      if Lt(NegInf, s[0].start) {
        OneMore(Window(NegInf, s[0].start), Gaps(s), NegInf);
      } else {
        assert Complement(s) == Gaps(s);
      }
    }
  }

  lemma {:induction false} NoInfinity(s: Series)
    ensures !In(s, PosInf)
  {
    if s != [] { NoInfinity(s[1..]); }
  }

  // ----- the algebra -----

  /** An expression over three series. */
  datatype SetExpr = A | B | C | Not(e: SetExpr) | And(l: SetExpr, r: SetExpr) | Or(l: SetExpr, r: SetExpr)

  function EvalBit(e: SetExpr, a: bool, b: bool, c: bool): bool {
    match e
    case A => a
    case B => b
    case C => c
    case Not(x) => !EvalBit(x, a, b, c)
    case And(l, r) => EvalBit(l, a, b, c) && EvalBit(r, a, b, c)
    case Or(l, r) => EvalBit(l, a, b, c) || EvalBit(r, a, b, c)
  }

  function Eval(e: SetExpr, a: Series, b: Series, c: Series): Series {
    match e
    case A => a
    case B => b
    case C => c
    case Not(x) => Complement(Eval(x, a, b, c))
    case And(l, r) => Both(Eval(l, a, b, c), Eval(r, a, b, c))
    case Or(l, r) => Union(Eval(l, a, b, c), Eval(r, a, b, c))
  }

  lemma {:induction false} EvalPoints(e: SetExpr, a: Series, b: Series, c: Series)
    requires Normal(a) && Normal(b) && Normal(c)
    ensures Normal(Eval(e, a, b, c))
    ensures forall t :: In(Eval(e, a, b, c), t) <==> t != PosInf && EvalBit(e, In(a, t), In(b, t), In(c, t))
  {
    NoInfinity(a);
    NoInfinity(b);
    NoInfinity(c);
    match e
    case A =>
    case B =>
    case C =>
    case Not(x) =>
      EvalPoints(x, a, b, c);
      ComplementPoints(Eval(x, a, b, c));
    case And(l, r) =>
      EvalPoints(l, a, b, c);
      EvalPoints(r, a, b, c);
      BothPoints(Eval(l, a, b, c), Eval(r, a, b, c));
    case Or(l, r) =>
      EvalPoints(l, a, b, c);
      EvalPoints(r, a, b, c);
      NormalFilled(Eval(l, a, b, c));
      NormalFilled(Eval(r, a, b, c));
      UnionPoints(Eval(l, a, b, c), Eval(r, a, b, c));
  }

  /**
   * Every Boolean law, De Morgan's and double complement among them, holds of
   * normalised series as equality of the lists.
   */
  lemma BooleanLaw(e: SetExpr, f: SetExpr, a: Series, b: Series, c: Series)
    requires Normal(a) && Normal(b) && Normal(c)
    requires forall x, y, z :: EvalBit(e, x, y, z) == EvalBit(f, x, y, z)
    ensures Eval(e, a, b, c) == Eval(f, a, b, c)
  {
    EvalPoints(e, a, b, c);
    EvalPoints(f, a, b, c);
    Canonical(Eval(e, a, b, c), Eval(f, a, b, c));
  }

  /** Two of the laws, spelled out. */
  lemma DeMorgan(a: Series, b: Series)
    requires Normal(a) && Normal(b)
    ensures Complement(Union(a, b)) == Both(Complement(a), Complement(b))
    ensures Complement(Complement(a)) == a
  {
    hide Union, Both, Complement, In, Normal;
    BooleanLaw(Not(Or(A, B)), And(Not(A), Not(B)), a, b, a);
    assert Eval(A, a, b, a) == a && Eval(B, a, b, a) == b;
    assert Eval(Or(A, B), a, b, a) == Union(a, b);
    assert Eval(Not(A), a, b, a) == Complement(a) && Eval(Not(B), a, b, a) == Complement(b);
    BooleanLaw(Not(Not(A)), A, a, b, a);
  }

  // ----- the series as an object -----

  lemma {:induction false} InsertIs(s: Series, w: Window, pos: nat)
    requires pos <= |s| && forall i :: 0 <= i < pos ==> s[i].Before(w)
    requires pos < |s| ==> !s[pos].Before(w)
    ensures Insert(s, w) == s[..pos] + [w] + s[pos..]
  {
    if pos > 0 {
      InsertIs(s[1..], w, pos - 1);
      assert s[..pos] == [s[0]] + s[1..][..pos - 1];
    }
  }

  lemma CoalescedShort(s: Series)
    ensures |s| < 2 ==> Coalesced(s) == s
  {
  }

  /** One step of the pass: a window and its successor are merged, or the window is done with. */
  lemma CoalescedAt(s: Series, i: nat)
    requires i + 1 < |s|
    ensures var merged := s[..i] + [Merge(s[i], s[i + 1])] + s[i + 2..];
            s[i].GetOverlapType(s[i + 1]) != NONE ==>
              s[..i] + Coalesced(s[i..]) == merged[..i] + Coalesced(merged[i..])
    ensures s[i].GetOverlapType(s[i + 1]) == NONE ==>
              s[..i] + Coalesced(s[i..]) == s[..i + 1] + Coalesced(s[i + 1..])
  {
    hide Merge;
    var rest := s[i..];
    if s[i].GetOverlapType(s[i + 1]) != NONE {
      var merged := s[..i] + [Merge(s[i], s[i + 1])] + s[i + 2..];
      assert merged[..i] == s[..i] && merged[i..] == [Merge(rest[0], rest[1])] + rest[2..];
    } else {
      assert s[i + 1..] == rest[1..] && s[..i + 1] == s[..i] + [s[i]];
    }
  }

  class I3TimeWindowSeries {
    var windows: Series

    constructor (ws: Series)
      ensures windows == ws
    {
      windows := ws;
    }

    /** Insert in order, then merge what now overlaps or touches. */
    method PushBack(w: Window)
      modifies this
      ensures windows == Push(old(windows), w)
    {
      var pos := 0;
      while pos < |windows| && windows[pos].Before(w)
        invariant 0 <= pos <= |windows|
        invariant forall i :: 0 <= i < pos ==> windows[i].Before(w)
      {
        pos := pos + 1;
      }
      ghost var s := windows;
      InsertIs(s, w, pos);
      if pos == |windows| {
        windows := windows + [w];
        assert windows == s[..pos] + [w] + s[pos..];
      } else {
        windows := windows[..pos] + [w] + windows[pos..];
      }
      CoalesceAll();
    }

    /** `coalesce`: one pass with an iterator and its successor. */
    method CoalesceAll()
      modifies this
      ensures windows == Coalesced(old(windows))
    {
      hide Coalesced;
      CoalescedShort(windows);
      if |windows| < 2 {
        return;
      }
      ghost var s := windows;
      var current, next := 0, 1;
      assert windows[0..] == windows;
      while next < |windows|
        invariant next == current + 1 && 0 <= current < |windows|
        invariant Coalesced(s) == windows[..current] + Coalesced(windows[current..])
        decreases |windows| - current
      {
        CoalescedAt(windows, current);
        if windows[current].GetOverlapType(windows[next]) != NONE {
          var merged := Window(Min(windows[current].start, windows[next].start),
                               Max(windows[current].stop, windows[next].stop));
          windows := windows[..current] + [merged] + windows[next + 1..];
        } else {
          current, next := current + 1, next + 1;
        }
      }
      CoalescedShort(windows[current..]);
      assert windows[..current] + windows[current..] == windows;
    }

    /** `operator|` */
    method Or(other: I3TimeWindowSeries) returns (ored: I3TimeWindowSeries)
      ensures fresh(ored) && ored.windows == Union(windows, other.windows)
    {
      ored := new I3TimeWindowSeries(windows);
      var i := 0;
      ghost var b := other.windows;
      assert b[0..] == b;
      while i < |other.windows|
        invariant 0 <= i <= |b| && other.windows == b && fresh(ored)
        invariant Union(ored.windows, b[i..]) == Union(windows, b)
      {
        assert b[i..][1..] == b[i + 1..];
        ored.PushBack(other.windows[i]);
        i := i + 1;
      }
    }

    /** `operator&` */
    method And(other: I3TimeWindowSeries) returns (out: I3TimeWindowSeries)
      ensures fresh(out) && out.windows == Both(windows, other.windows)
    {
      hide Both;
      out := new I3TimeWindowSeries([]);
      var first, second := 0, 0;
      ghost var a, b := windows, other.windows;
      assert a[0..] == a && b[0..] == b;
      while first < |windows| && second < |other.windows|
        invariant 0 <= first <= |a| && 0 <= second <= |b| && windows == a && other.windows == b && fresh(out)
        invariant out.windows + Both(a[first..], b[second..]) == Both(a, b)
        decreases |a| - first + |b| - second
      {
        assert a[first..][1..] == a[first + 1..] && b[second..][1..] == b[second + 1..];
        BothStep(a[first..], b[second..]);
        var f, s := windows[first], other.windows[second];
        ghost var done, e := out.windows, Emitted(a[first..], b[second..]);
        match f.GetOverlapType(s) {
          case BEFORE =>
            if f.start != s.stop {
              out.windows := out.windows + [Window(f.start, s.stop)];
            }
            second := second + 1;
          case AFTER =>
            if s.start != f.stop {
              out.windows := out.windows + [Window(s.start, f.stop)];
            }
            first := first + 1;
          case WITHIN =>
            out.windows := out.windows + [f];
            first := first + 1;
          case WITHOUT =>
            out.windows := out.windows + [s];
            second := second + 1;
          case NONE =>
            if f.Before(s) {
              first := first + 1;
            } else {
              second := second + 1;
            }
        }
        assert out.windows == done + e;
        Regroup(done, e, Both(a[first..], b[second..]));
      }
      BothEnds(a[first..], b[second..]);
    }

    /** `operator~`; the successor of the end of an empty list is never used. */
    method Not() returns (comp: I3TimeWindowSeries)
      requires Normal(windows)
      ensures fresh(comp) && comp.windows == Complement(windows)
    {
      comp := new I3TimeWindowSeries([]);
      ghost var s := windows;
      if |windows| == 0 {
        PushLast([], Window(NegInf, PosInf));
        comp.PushBack(Window(NegInf, PosInf));
        return;
      }
      ComplementPoints(s);
      if Lt(NegInf, windows[0].start) {
        PushLast([], Window(NegInf, windows[0].start));
        comp.PushBack(Window(NegInf, windows[0].start));
      }
      var current := 0;
      assert s[0..] == s;
      while current + 1 < |windows|
        invariant 0 <= current < |s| && windows == s && fresh(comp)
        invariant comp.windows + Gaps(s[current..]) == Complement(s)
      {
        var w := Window(windows[current].stop, windows[current + 1].start);
        assert s[current..][1..] == s[current + 1..];
        NormalPrefix(comp.windows + [w], Gaps(s[current + 1..]), Complement(s));
        PushLast(comp.windows, w);
        comp.PushBack(w);
        current := current + 1;
      }
      assert s[current..] == [s[current]];
      if Lt(windows[current].stop, PosInf) {
        var w := Window(windows[current].stop, PosInf);
        assert comp.windows + [w] == Complement(s);
        PushLast(comp.windows, w);
        comp.PushBack(w);
      }
    }
  }

  lemma Regroup(x: Series, y: Series, z: Series)
    ensures x + (y + z) == (x + y) + z
  {
  }

  lemma BothEnds(a: Series, b: Series)
    requires a == [] || b == []
    ensures Both(a, b) == []
  {
  }

  /** A window after all the others is appended as it is. */
  lemma {:induction false} PushLast(s: Series, w: Window)
    requires Normal(s + [w])
    ensures Push(s, w) == s + [w]
  {
    InsertLast(s, w);
    NothingToMerge(s + [w]);
  }

  lemma {:induction false} InsertLast(s: Series, w: Window)
    requires Normal(s + [w])
    ensures Insert(s, w) == s + [w]
  {
    if s != [] {
      assert (s + [w])[1..] == s[1..] + [w];
      InsertLast(s[1..], w);
      AfterFirst(s + [w], |s|);
    }
  }

  /** Later windows start after the first one stops. */
  lemma {:induction false} AfterFirst(s: Series, i: nat)
    requires Normal(s) && 0 < i < |s|
    ensures Lt(s[0].stop, s[i].start)
  {
    if i > 1 {
      AfterFirst(s[1..], i - 1);
      assert s[1..][0].NonEmpty();
    }
  }

  lemma {:induction false} NothingToMerge(s: Series)
    requires Normal(s)
    ensures Coalesced(s) == s
  {
    if |s| >= 2 { NothingToMerge(s[1..]); }
  }

  lemma {:induction false} NormalPrefix(s: Series, rest: Series, whole: Series)
    requires Normal(whole) && s + rest == whole
    ensures Normal(s)
  {
    if s != [] {
      assert whole[1..] == s[1..] + rest;
      NormalPrefix(s[1..], rest, whole[1..]);
    }
  }
}
