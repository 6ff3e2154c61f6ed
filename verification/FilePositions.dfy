/**
 * Where the files of a group stand, as a value: how a fetch of an index moves
 * them, which fetches go wrong, and what decides it beforehand.
 */
module FilePositions {
  import opened Options
  import opened FrameCaches
  import opened FrameFiles

  // ----- the file an index lies in -----

  /** The index after the last frame of a file. */
  ghost function End(contents: seq<seq<Frame>>, k: nat): nat
    requires k < |contents|
  {
    Start(contents, k + 1)
  }

  lemma Span(contents: seq<seq<Frame>>, k: nat)
    requires k < |contents|
    ensures End(contents, k) == Start(contents, k) + |contents[k]| <= |Flat(contents)|
    ensures forall i :: 0 <= i < |contents[k]| ==> Flat(contents)[Start(contents, k) + i] == contents[k][i]
  {
    StartStep(contents, k);
  }

  lemma NoneBeforeAllAfter(contents: seq<seq<Frame>>)
    ensures Start(contents, 0) == 0 && Start(contents, |contents|) == |Flat(contents)|
  {
    assert contents[..|contents|] == contents;
  }

  /** A fetch lands in file `k` when the index lies in its span. */
  ghost predicate Lands(contents: seq<seq<Frame>>, index: nat, k: nat) {
    k < |contents| && Start(contents, k) <= index < End(contents, k)
  }

  /** The files around an index: those before end at or before it, those from its own on end after it. */
  lemma Around(contents: seq<seq<Frame>>, index: nat, k: nat)
    requires k <= |contents| && Start(contents, k) <= index
    ensures forall j :: 0 <= j < k ==> End(contents, j) <= index
    ensures Lands(contents, index, k) ==> forall j :: k <= j < |contents| ==> index < End(contents, j)
    ensures Lands(contents, index, k) ==> forall j: nat :: Lands(contents, index, j) ==> j == k
  {
    forall j | 0 <= j < k ensures End(contents, j) <= index {
      StartsOrdered(contents, j + 1, k);
    }
    if Lands(contents, index, k) {
      forall j | k <= j < |contents| ensures index < End(contents, j) {
        StartsOrdered(contents, k + 1, j + 1);
      }
      forall j: nat | Lands(contents, index, j) ensures j == k {
        if k < j {
          StartsOrdered(contents, k + 1, j);
        }
      }
    }
  }

  /** The indices past the end are those at or past the end of every file. */
  lemma PastAll(contents: seq<seq<Frame>>, index: nat)
    requires index >= |Flat(contents)|
    ensures forall k :: 0 <= k < |contents| ==> End(contents, k) <= index
    ensures forall k: nat :: !Lands(contents, index, k)
  {
    forall k | 0 <= k < |contents| ensures End(contents, k) <= index {
      Span(contents, k);
    }
  }

  // ----- positions -----

  /**
   * The next frame of each file, whether its size is known, and one more than
   * the largest index ever fetched.
   */
  datatype Positions = Positions(at: seq<nat>, sized: seq<bool>, high: nat)

  /** The size of a file is known exactly once an index past its end was fetched. */
  ghost predicate Consistent(contents: seq<seq<Frame>>, p: Positions) {
    && |p.at| == |p.sized| == |contents|
    && forall k :: 0 <= k < |contents| ==> p.at[k] <= |contents[k]| && (p.sized[k] <==> End(contents, k) < p.high)
  }

  /**
   * The fetch that goes wrong: into a file of known size, at an index that is
   * neither the file's first nor the next one to be read.
   */
  ghost predicate ShortIn(contents: seq<seq<Frame>>, p: Positions, index: nat, k: nat)
    requires |p.at| == |p.sized| == |contents|
  {
    Lands(contents, index, k) && p.sized[k] && index != Start(contents, k) && index != Start(contents, k) + p.at[k]
  }

  ghost predicate ShortSeek(contents: seq<seq<Frame>>, p: Positions, index: nat)
    requires |p.at| == |p.sized| == |contents|
  {
    exists k: nat :: ShortIn(contents, p, index, k)
  }

  lemma ShortHere(contents: seq<seq<Frame>>, p: Positions, index: nat, k: nat)
    requires |p.at| == |p.sized| == |contents| && Lands(contents, index, k)
    ensures ShortSeek(contents, p, index) <==> ShortIn(contents, p, index, k)
  {
    Around(contents, index, k);
  }

  /** The frame a fetch delivers: the one before the one asked for when it is short. */
  ghost function Answer(contents: seq<seq<Frame>>, p: Positions, index: nat): Option<Frame>
    requires |p.at| == |p.sized| == |contents|
  {
    if index >= |Flat(contents)| then None
    else if ShortSeek(contents, p, index) && index > 0 then Some(Flat(contents)[index - 1])
    else Some(Flat(contents)[index])
  }

  /** A fetch leaves a file after the frame read, at its end if it was run off it, or as it was. */
  ghost function Moved(contents: seq<seq<Frame>>, p: Positions, index: nat, k: nat): nat
    requires |p.at| == |p.sized| == |contents| && k < |contents|
  {
    if Lands(contents, index, k) then index - Start(contents, k) + (if ShortSeek(contents, p, index) then 0 else 1)
    else if !p.sized[k] && End(contents, k) <= index then |contents[k]|
    else p.at[k]
  }

  ghost function After(contents: seq<seq<Frame>>, p: Positions, index: nat): (q: Positions)
    requires |p.at| == |p.sized| == |contents|
    ensures |q.at| == |q.sized| == |contents|
  {
    Positions(seq(|contents|, k requires 0 <= k < |contents| => Moved(contents, p, index, k)),
              seq(|contents|, k requires 0 <= k < |contents| => p.sized[k] || End(contents, k) <= index),
              if index < p.high then p.high else index + 1)
  }

  lemma AfterConsistent(contents: seq<seq<Frame>>, p: Positions, index: nat)
    requires Consistent(contents, p)
    ensures Consistent(contents, After(contents, p, index))
  {
    forall k | 0 <= k < |contents| ensures Moved(contents, p, index, k) <= |contents[k]| {
      Span(contents, k);
    }
  }

  // ----- when a fetch is right -----

  /**
   * Is an index right whatever the order of fetches below a limit? It is the
   * first of its file, or nothing at or past the file's end is fetched.
   */
  ghost predicate Sure(contents: seq<seq<Frame>>, index: nat, limit: nat) {
    forall k: nat :: Lands(contents, index, k) ==> index == Start(contents, k) || limit <= End(contents, k)
  }

  lemma PastIsSure(contents: seq<seq<Frame>>, index: nat, limit: nat)
    ensures index >= |Flat(contents)| ==> Sure(contents, index, limit)
  {
    if index >= |Flat(contents)| {
      PastAll(contents, index);
    }
  }

  lemma FirstIsSure(contents: seq<seq<Frame>>, limit: nat)
    ensures Sure(contents, 0, limit)
  {
  }

  /** A short fetch is never of a sure index. */
  lemma ShortNotSure(contents: seq<seq<Frame>>, p: Positions, index: nat)
    requires Consistent(contents, p) && ShortSeek(contents, p, index)
    ensures index < |Flat(contents)| && 0 < index && !Sure(contents, index, p.high)
  {
    var k: nat :| ShortIn(contents, p, index, k);
    Span(contents, k);
  }

  /** Asking for the index itself does not change whether it is sure. */
  lemma SureStays(contents: seq<seq<Frame>>, index: nat, limit: nat, more: nat)
    requires Sure(contents, index, limit) && (more <= limit || more <= index + 1)
    ensures Sure(contents, index, more)
  {
  }

  /** Fetches that never go back, and fetches past the end, are never short. */
  lemma ForwardIsNotShort(contents: seq<seq<Frame>>, p: Positions, index: nat)
    requires Consistent(contents, p) && (p.high <= index + 1 || index >= |Flat(contents)|)
    ensures !ShortSeek(contents, p, index)
  {
    if index >= |Flat(contents)| {
      PastAll(contents, index);
    }
  }

  /** Every file of known size stands at its end. */
  ghost predicate AtEnds(contents: seq<seq<Frame>>, p: Positions)
    requires |p.at| == |p.sized| == |contents|
  {
    forall k :: 0 <= k < |contents| && p.sized[k] ==> p.at[k] == |contents[k]|
  }

  /** Fetches that never go back leave them there. */
  lemma ForwardAtEnds(contents: seq<seq<Frame>>, p: Positions, index: nat)
    requires Consistent(contents, p) && AtEnds(contents, p) && (p.high <= index || index >= |Flat(contents)|)
    ensures AtEnds(contents, After(contents, p, index))
  {
    forall k | 0 <= k < |contents| && Lands(contents, index, k) && (p.sized[k] || End(contents, k) <= index)
      ensures false
    {
      Span(contents, k);
    }
  }

  // ----- fetches in turn -----

  ghost function ReadAll(contents: seq<seq<Frame>>, p: Positions, fetches: seq<nat>): (q: Positions)
    requires |p.at| == |p.sized| == |contents|
    ensures |q.at| == |q.sized| == |contents|
    decreases |fetches|
  {
    if fetches == [] then p else ReadAll(contents, After(contents, p, fetches[0]), fetches[1..])
  }

  lemma {:induction false} ReadAllSnoc(contents: seq<seq<Frame>>, p: Positions, fetches: seq<nat>, i: nat)
    requires |p.at| == |p.sized| == |contents|
    ensures ReadAll(contents, p, fetches + [i]) == After(contents, ReadAll(contents, p, fetches), i)
    decreases |fetches|
  {
    hide After;
    var all := fetches + [i];
    if fetches == [] {
      assert all[0] == i && all[1..] == [];
    } else {
      assert all[0] == fetches[0] && all[1..] == fetches[1..] + [i];
      ReadAllSnoc(contents, After(contents, p, fetches[0]), fetches[1..], i);
    }
  }

  /** Every file stands at its end, its size known. */
  ghost predicate AllRead(contents: seq<seq<Frame>>, p: Positions)
    requires |p.at| == |p.sized| == |contents|
  {
    forall k :: 0 <= k < |contents| ==> p.sized[k] && p.at[k] == |contents[k]|
  }

  lemma ReadPastEnd(contents: seq<seq<Frame>>, p: Positions, i: nat)
    requires |p.at| == |p.sized| == |contents| && AllRead(contents, p) && |Flat(contents)| <= i
    ensures AllRead(contents, After(contents, p, i))
  {
    PastAll(contents, i);
  }

  /** A short fetch leaves its file one frame behind, so that the fetch of the next frame there is short too. */
  lemma ShortFollows(contents: seq<seq<Frame>>, p: Positions, index: nat, k: nat)
    requires Consistent(contents, p) && ShortSeek(contents, p, index)
    requires Lands(contents, index, k) && Lands(contents, index + 1, k)
    ensures ShortSeek(contents, After(contents, p, index), index + 1)
  {
    ShortHere(contents, p, index, k);
    ShortHere(contents, After(contents, p, index), index + 1, k);
  }
}
