/** The sliding-window cache of frames: a deque over the indices from first to last. */
module FrameCaches {
  import opened Options

  datatype Frame = Frame(stop: char, payload: int)

  /** A deque slot; an empty slot is an index that was never filled. */
  type Slot = Option<Frame>

  function Empties(n: nat): (s: seq<Slot>)
    ensures |s| == n
  {
    seq(n, _ => None)
  }

  // ----- the window as a value -----

  datatype CacheWindow = CacheWindow(first: nat, slots: seq<Slot>) {
    function Last(): nat { first + |slots| }

    function At(i: nat): Slot { if first <= i < Last() then slots[i - first] else None }
  }

  /** Pad up to the index, store the frame, and drop what is over the limit at the far end. */
  function AddTo(w: CacheWindow, index: nat, fr: Slot, max: nat): CacheWindow {
    if index >= w.Last() then
      var full := w.slots + Empties(index - w.Last()) + [fr];
      var drop := if |full| > max then |full| - max else 0;
      CacheWindow(w.first + drop, full[drop..])
    else if index < w.first then
      var full := [fr] + Empties(w.first - index - 1) + w.slots;
      CacheWindow(index, full[..if |full| > max then max else |full|])
    else
      w.(slots := w.slots[index - w.first := fr])
  }

  lemma AddBeforeIs(w: CacheWindow, index: nat, fr: Slot, max: nat)
    requires index < w.first
    ensures var full := [fr] + Empties(w.first - index - 1) + w.slots;
            AddTo(w, index, fr, max) == CacheWindow(index, full[..if |full| > max then max else |full|])
  {
  }

  lemma AddAfterIs(w: CacheWindow, index: nat, fr: Slot, max: nat)
    requires index >= w.Last()
    ensures var full := w.slots + Empties(index - w.Last()) + [fr];
            var drop := if |full| > max then |full| - max else 0;
            AddTo(w, index, fr, max) == CacheWindow(w.first + drop, full[drop..])
  {
  }

  /**
   * After an add the window is within the limit and holds the index added;
   * every other index in it keeps its value, empty if it had none.
   */
  lemma AddToSlots(w: CacheWindow, index: nat, fr: Slot, max: nat, i: nat)
    requires |w.slots| <= max
    ensures var r := AddTo(w, index, fr, max);
            && |r.slots| <= max
            && (max > 0 ==> r.first <= index < r.Last() && r.At(index) == fr)
            && (i != index ==> r.At(i) == if r.first <= i < r.Last() then w.At(i) else None)
  {
  }

  /**
   * The ends of the window after an add: an index in it changes neither; one
   * outside becomes the last or the first, and the other end moves only as far
   * as the limit makes it.
   */
  lemma AddToEnds(w: CacheWindow, index: nat, fr: Slot, max: nat)
    requires |w.slots| <= max
    ensures var r := AddTo(w, index, fr, max);
            && (w.first <= index < w.Last() ==> r.first == w.first && r.Last() == w.Last())
            && (w.Last() <= index ==>
                  r.Last() == index + 1 && r.first == if w.first + max < index + 1 then index + 1 - max else w.first)
            && (index < w.first ==>
                  r.first == index && r.Last() == if index + max < w.Last() then index + max else w.Last())
  {
  }

  /** What an add keeps: every index of the window within the limit of the one added, on the side it lies. */
  lemma AddToKeeps(w: CacheWindow, index: nat, fr: Slot, max: nat, i: nat)
    requires |w.slots| <= max
    ensures i != index ==>
              AddTo(w, index, fr, max).At(i) ==
              if (w.Last() <= index && i + max <= index) || (index < w.first && index + max <= i) then None else w.At(i)
  {
    AddToEnds(w, index, fr, max);
    AddToSlots(w, index, fr, max, i);
  }

  /** Run a list of adds. */
  function Run(w: CacheWindow, adds: seq<(nat, Slot)>, max: nat): CacheWindow
    decreases |adds|
  {
    if adds == [] then w else Run(AddTo(w, adds[0].0, adds[0].1, max), adds[1..], max)
  }

  /** The latest value added for an index, empty if there is none. */
  function Latest(adds: seq<(nat, Slot)>, i: nat): Slot
    decreases |adds|
  {
    if adds == [] then None
    else if adds[|adds| - 1].0 == i then adds[|adds| - 1].1
    else Latest(adds[..|adds| - 1], i)
  }

  lemma {:induction false} RunSnoc(w: CacheWindow, adds: seq<(nat, Slot)>, a: (nat, Slot), max: nat)
    ensures Run(w, adds + [a], max) == AddTo(Run(w, adds, max), a.0, a.1, max)
    decreases |adds|
  {
    if adds == [] {
      assert adds + [a] == [a];
    } else {
      assert (adds + [a])[1..] == adds[1..] + [a];
      RunSnoc(AddTo(w, adds[0].0, adds[0].1, max), adds[1..], a, max);
    }
  }

  /**
   * After any sequence of adds the window is no larger than the limit, every
   * slot is empty or holds the latest value added for its index, and the index
   * just added is in the window.
   */
  lemma {:induction false} Histories(adds: seq<(nat, Slot)>, max: nat, i: nat)
    ensures var w := Run(CacheWindow(0, []), adds, max);
            && |w.slots| <= max && (w.At(i) == None || w.At(i) == Latest(adds, i))
            && (adds != [] && max > 0 ==>
                  var a := adds[|adds| - 1]; w.first <= a.0 < w.Last() && w.At(a.0) == a.1)
    decreases |adds|
  {
    if adds != [] {
      var init, a := adds[..|adds| - 1], adds[|adds| - 1];
      assert adds == init + [a];
      Histories(init, max, i);
      RunSnoc(CacheWindow(0, []), init, a, max);
      AddToSlots(Run(CacheWindow(0, []), init, max), a.0, a.1, max, i);
    }
  }

  predicate Added(adds: seq<(nat, Slot)>, i: nat) {
    exists k :: 0 <= k < |adds| && adds[k].0 == i
  }

  /**
   * As long as the indices added span no more than the limit nothing is lost:
   * each of them has its latest value.
   */
  lemma {:induction false} NothingLost(adds: seq<(nat, Slot)>, max: nat, from: nat)
    requires forall k :: 0 <= k < |adds| ==> from <= adds[k].0 < from + max
    ensures var w := Run(CacheWindow(0, []), adds, max);
            && |w.slots| <= max && (adds != [] ==> w.Last() <= from + max)
            && forall i: nat :: Added(adds, i) ==> w.first <= i < w.Last() && w.At(i) == Latest(adds, i)
    decreases |adds|
  {
    hide AddTo, Latest, Run;
    if adds == [] {
      assert Run(CacheWindow(0, []), adds, max) == CacheWindow(0, []) by { RunNone(adds, max); }
    } else {
      var init, a := adds[..|adds| - 1], adds[|adds| - 1];
      assert adds == init + [a];
      NothingLost(init, max, from);
      RunSnoc(CacheWindow(0, []), init, a, max);
      var w := Run(CacheWindow(0, []), init, max);
      AddToEnds(w, a.0, a.1, max);
      AddToSlots(w, a.0, a.1, max, a.0);
      if init == [] { RunNone(init, max); }
      forall i: nat | Added(adds, i)
        ensures var r := AddTo(w, a.0, a.1, max); r.first <= i < r.Last() && r.At(i) == Latest(adds, i)
      {
        AddToSlots(w, a.0, a.1, max, i);
        AddedBefore(init, a, i);
      }
    }
  }

  lemma RunNone(adds: seq<(nat, Slot)>, max: nat)
    requires adds == []
    ensures Run(CacheWindow(0, []), adds, max) == CacheWindow(0, [])
  {
  }

  lemma AddedBefore(adds: seq<(nat, Slot)>, a: (nat, Slot), i: nat)
    requires Added(adds + [a], i)
    ensures Latest(adds + [a], i) == if i == a.0 then a.1 else Latest(adds, i)
    ensures i != a.0 ==> Added(adds, i) && exists k :: 0 <= k < |adds| && adds[k].0 == i
  {
    assert (adds + [a])[..|adds|] == adds;
    if i != a.0 {
      var k :| 0 <= k < |adds + [a]| && (adds + [a])[k].0 == i;
      assert adds[k].0 == i;
    }
  }

  // ----- the object -----

  class FrameCache {
    var frames: seq<Slot>
    var firstIndex: nat
    var lastIndex: nat
    const maxSize: nat

    constructor (size: nat)
      ensures Valid() && maxSize == size && Snap() == CacheWindow(0, [])
    {
      frames, firstIndex, lastIndex, maxSize := [], 0, 0, size;
    }

    /** One slot per index of the window, and no more than the limit. */
    predicate Valid()
      reads this
    {
      firstIndex <= lastIndex && |frames| == lastIndex - firstIndex <= maxSize
    }

    function Snap(): CacheWindow
      reads this
    {
      CacheWindow(firstIndex, frames)
    }

    method Get(index: nat) returns (fr: Slot)
      requires Valid()
      ensures fr == Snap().At(index)
    {
      if index < firstIndex || index >= lastIndex {
        fr := None;
      } else {
        var tmp := index - firstIndex;
        fr := frames[tmp];
      }
    }

    method Add(index: nat, fr: Slot)
      requires Valid()
      modifies this
      ensures Valid() && Snap() == AddTo(old(Snap()), index, fr, maxSize)
    {
      if index >= lastIndex {
        AddAfter(index, fr);
      } else if index < firstIndex {
        AddBefore(index, fr);
      } else {
        frames := frames[index - firstIndex := fr];
      }
    }

    /** The branch for an index past the window. */
    method AddAfter(index: nat, fr: Slot)
      requires Valid() && index >= lastIndex
      modifies this
      ensures Valid() && Snap() == AddTo(old(Snap()), index, fr, maxSize)
    {
      hide AddTo;
      AddAfterIs(Snap(), index, fr, maxSize);
      PadBack(index);
      frames := frames + [fr];
      lastIndex := lastIndex + 1;
      TrimFront();
    }

    /** Put empty slots at the back, up to an index. */
    method PadBack(tmp: nat)
      requires lastIndex <= tmp
      modifies `frames, `lastIndex
      ensures lastIndex == tmp && frames == old(frames) + Empties(tmp - old(lastIndex))
    {
      while tmp > lastIndex
        invariant old(lastIndex) <= lastIndex <= tmp
        invariant frames == old(frames) + Empties(lastIndex - old(lastIndex))
      {
        frames := frames + [None];
        lastIndex := lastIndex + 1;
      }
    }

    /** Drop what is over the limit at the front. */
    method TrimFront()
      requires firstIndex <= lastIndex && |frames| == lastIndex - firstIndex
      modifies `frames, `firstIndex
      ensures Valid()
      ensures var drop := if |old(frames)| > maxSize then |old(frames)| - maxSize else 0;
              firstIndex == old(firstIndex) + drop && frames == old(frames)[drop..]
    {
      if lastIndex - firstIndex > maxSize {
        var tmp := lastIndex - maxSize;
        while firstIndex < tmp
          invariant old(firstIndex) <= firstIndex <= tmp
          invariant frames == old(frames)[firstIndex - old(firstIndex)..]
        {
          frames := frames[1..];
          firstIndex := firstIndex + 1;
        }
      }
    }

    /** The branch for an index before the window. */
    method AddBefore(index: nat, fr: Slot)
      requires Valid() && index < firstIndex
      modifies this
      ensures Valid() && Snap() == AddTo(old(Snap()), index, fr, maxSize)
    {
      hide AddTo;
      AddBeforeIs(Snap(), index, fr, maxSize);
      PadFront(index + 1);
      frames := [fr] + frames;
      firstIndex := firstIndex - 1;
      assert frames == [fr] + Empties(old(firstIndex) - index - 1) + old(frames);
      TrimBack();
    }

    /** Put empty slots in front, down to an index. */
    method PadFront(tmp: nat)
      requires tmp <= firstIndex
      modifies `frames, `firstIndex
      ensures firstIndex == tmp && frames == Empties(old(firstIndex) - tmp) + old(frames)
    {
      while tmp < firstIndex
        invariant tmp <= firstIndex <= old(firstIndex)
        invariant frames == Empties(old(firstIndex) - firstIndex) + old(frames)
      {
        frames := [None] + frames;
        firstIndex := firstIndex - 1;
      }
    }

    /** Drop what is over the limit at the back. */
    method TrimBack()
      requires firstIndex <= lastIndex && |frames| == lastIndex - firstIndex
      modifies this
      ensures Valid() && firstIndex == old(firstIndex)
      ensures frames == old(frames)[..if |old(frames)| > maxSize then maxSize else |old(frames)|]
    {
      if lastIndex - firstIndex > maxSize {
        var tmp := firstIndex + maxSize;
        while lastIndex > tmp
          invariant tmp <= lastIndex <= old(lastIndex) && firstIndex == old(firstIndex)
          invariant frames == old(frames)[..lastIndex - firstIndex]
        {
          frames := frames[..|frames| - 1];
          lastIndex := lastIndex - 1;
        }
      }
    }

    method Clear()
      modifies this
      ensures Valid() && Snap() == CacheWindow(0, [])
    {
      frames, firstIndex, lastIndex := [], 0, 0;
    }
  }
}
