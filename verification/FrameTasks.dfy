/**
 * The reads a frame sequence has asked of its worker thread, as a value: what
 * is queued, what is finished, where the files stand, and what any number of
 * steps of the worker makes of it.
 */
module FrameTasks {
  import opened Options
  import opened FrameCaches
  import opened FrameFiles
  import opened FilePositions

  /** A read; without an index it reads at the client's position when it runs. */
  datatype Task = Task(id: nat, index: Option<nat>)

  datatype Board = Board(
    /** The tasks given out and not finished, in the order they will be. */
    pending: seq<Task>,
    done: map<nat, Option<Frame>>,
    /** The index each task was made for. */
    job: map<nat, nat>,
    /** One more than the largest index asked for before each task was made. */
    asked: map<nat, nat>,
    /** The number of tasks made. */
    next: nat,
    /** The client's position. */
    frameno: nat,
    /** The finished tasks whose fetch was short. */
    late: set<nat>,
    /** One more than the largest index a task was made for. */
    top: nat,
    files: Positions)
  {
    function At(t: Task): nat { if t.index.Some? then t.index.value else frameno }
  }

  /** A fetch of an index delivers its frame, or when it was short the one before; nothing past the end. */
  ghost predicate Right(whole: seq<Frame>, late: bool, i: nat, r: Option<Frame>) {
    && (r.Some? <==> i < |whole|)
    && (r.Some? ==> if late then 0 < i && r.value == whole[i - 1] else r.value == whole[i])
  }

  lemma Present(whole: seq<Frame>, late: bool, i: nat, r: Option<Frame>)
    requires Right(whole, late, i, r)
    ensures r.Some? <==> i < |whole|
  {
  }

  /**
   * The tasks are numbered in order, made for the indices they read, and
   * finished with right results; only fetches of indices that are not sure
   * were short.
   */
  ghost predicate Sound(b: Board, contents: seq<seq<Frame>>) {
    && Consistent(contents, b.files) && b.files.high <= b.top
    && (forall id: nat :: id in b.job <==> id < b.next) && b.asked.Keys == b.job.Keys
    && (forall i :: 0 <= i < |b.pending| ==> Made(b, b.pending[i]))
    && (forall i, j :: 0 <= i < j < |b.pending| ==> MadeBefore(b, b.pending[i], b.pending[j]))
    && (forall id: nat, i :: id in b.done && 0 <= i < |b.pending| ==> id < b.pending[i].id)
    && forall id: nat :: id in b.done ==> Delivered(b, contents, id)
  }

  /** A pending task: nothing past what had been asked for before it was read yet. */
  ghost predicate Made(b: Board, t: Task) {
    && t.id in b.job && b.job[t.id] == b.At(t) < b.top
    && t.id in b.asked && b.files.high <= b.asked[t.id] <= b.top
  }

  ghost predicate MadeBefore(b: Board, t: Task, u: Task) {
    t.id < u.id && u.id in b.asked && b.At(t) < b.asked[u.id]
  }

  ghost predicate Delivered(b: Board, contents: seq<seq<Frame>>, id: nat)
    requires id in b.done
  {
    && id in b.job && b.job[id] < b.files.high && id in b.asked && b.asked[id] <= b.top
    && Right(Flat(contents), id in b.late, b.job[id], b.done[id])
    && (id in b.late ==> !Sure(contents, b.job[id], b.files.high) && !Sure(contents, b.job[id], b.asked[id]))
  }

  /** A task is finished or will be. */
  ghost predicate Known(b: Board, id: nat) {
    id in b.done || exists i :: 0 <= i < |b.pending| && b.pending[i].id == id
  }

  // ----- the worker -----

  /** The first pending task finishes. */
  ghost function Finished(b: Board, contents: seq<seq<Frame>>): (c: Board)
    requires b.pending != [] && |b.files.at| == |b.files.sized| == |contents|
    ensures |c.files.at| == |c.files.sized| == |contents|
  {
    var t, i := b.pending[0], b.At(b.pending[0]);
    b.(pending := b.pending[1..], done := b.done[t.id := Answer(contents, b.files, i)],
       late := if ShortSeek(contents, b.files, i) then b.late + {t.id} else b.late - {t.id},
       files := After(contents, b.files, i))
  }

  /** Any number of tasks finish. */
  ghost function Steps(b: Board, contents: seq<seq<Frame>>, n: nat): (c: Board)
    requires |b.files.at| == |b.files.sized| == |contents|
    ensures |c.files.at| == |c.files.sized| == |contents|
    decreases n
  {
    if n == 0 || b.pending == [] then b else Steps(Finished(b, contents), contents, n - 1)
  }

  /** What a later board keeps of an earlier one. */
  ghost predicate Later(b: Board, c: Board) {
    && c.job == b.job && c.asked == b.asked && c.next == b.next && c.frameno == b.frameno && c.top == b.top
    && b.files.high <= c.files.high
    && |c.pending| <= |b.pending| && c.pending == b.pending[|b.pending| - |c.pending|..]
    && forall id: nat :: Known(b, id) ==> Known(c, id)
  }

  lemma LaterTrans(b: Board, c: Board, d: Board)
    requires Later(b, c) && Later(c, d)
    ensures Later(b, d)
  {
    hide Known;
  }

  lemma FinishedLater(b: Board, contents: seq<seq<Frame>>)
    requires b.pending != [] && |b.files.at| == |b.files.sized| == |contents|
    ensures Later(b, Finished(b, contents))
  {
    hide Answer, ShortSeek;
    var c := Finished(b, contents);
    forall id: nat | Known(b, id) ensures Known(c, id) {
      if id !in b.done && id != b.pending[0].id {
        var i :| 0 <= i < |b.pending| && b.pending[i].id == id;
        assert c.pending[i - 1].id == id;
      }
    }
  }

  /** The task that finishes delivers rightly, and short only if its index is not sure. */
  lemma FinishedDelivers(b: Board, contents: seq<seq<Frame>>)
    requires Sound(b, contents) && b.pending != []
    ensures Delivered(Finished(b, contents), contents, b.pending[0].id)
  {
    hide Flat, Sure;
    var t, i := b.pending[0], b.At(b.pending[0]);
    assert Made(b, t);
    if ShortSeek(contents, b.files, i) {
      ShortNotSure(contents, b.files, i);
      SureLess(contents, i, b.files.high, Finished(b, contents).files.high);
      SureLess(contents, i, b.files.high, b.asked[t.id]);
    }
  }

  lemma SureLess(contents: seq<seq<Frame>>, i: nat, less: nat, more: nat)
    requires less <= more
    ensures Sure(contents, i, more) ==> Sure(contents, i, less)
  {
  }

  lemma BoardFits(b: Board, contents: seq<seq<Frame>>)
    requires Sound(b, contents)
    ensures |b.files.at| == |b.files.sized| == |contents|
  {
  }

  /** A worker step keeps the board sound. */
  lemma FinishedSound(b: Board, contents: seq<seq<Frame>>)
    requires Sound(b, contents) && b.pending != []
    ensures Sound(Finished(b, contents), contents)
  {
    hide Answer, ShortSeek, After, Right, Sure, Consistent, Flat;
    BoardFits(b, contents);
    var c, t := Finished(b, contents), b.pending[0];
    assert Made(b, t);
    AfterConsistent(contents, b.files, b.At(t));
    FinishedDelivers(b, contents);
    FinishedHigh(b, contents);
    forall i | 0 <= i < |c.pending| ensures Made(c, c.pending[i]) && t.id < c.pending[i].id {
      assert c.pending[i] == b.pending[i + 1] && Made(b, b.pending[i + 1]) && MadeBefore(b, t, b.pending[i + 1]);
    }
    forall i, j | 0 <= i < j < |c.pending| ensures MadeBefore(c, c.pending[i], c.pending[j]) {
      assert MadeBefore(b, b.pending[i + 1], b.pending[j + 1]);
    }
    forall id: nat | id in b.done ensures Delivered(c, contents, id) {
      assert Delivered(b, contents, id) && id < t.id;
      SureLess(contents, b.job[id], b.files.high, c.files.high);
    }
  }

  lemma FinishedHigh(b: Board, contents: seq<seq<Frame>>)
    requires b.pending != [] && |b.files.at| == |b.files.sized| == |contents|
    ensures var c, i := Finished(b, contents), b.At(b.pending[0]);
            c.files.high == if i < b.files.high then b.files.high else i + 1
  {
  }

  /** Any number of worker steps keeps the board sound and forgets no task. */
  lemma {:induction false} StepsSound(b: Board, contents: seq<seq<Frame>>, n: nat)
    requires Sound(b, contents)
    ensures Sound(Steps(b, contents, n), contents) && Later(b, Steps(b, contents, n))
    decreases n
  {
    hide Finished, Later, Sound;
    BoardFits(b, contents);
    LaterSelf(b);
    if n > 0 && b.pending != [] {
      FinishedSound(b, contents);
      FinishedLater(b, contents);
      StepsSound(Finished(b, contents), contents, n - 1);
      LaterTrans(b, Finished(b, contents), Steps(b, contents, n));
    }
  }

  lemma LaterSelf(b: Board)
    ensures Later(b, b)
  {
  }

  lemma NoSteps(b: Board, contents: seq<seq<Frame>>)
    requires |b.files.at| == |b.files.sized| == |contents|
    ensures Steps(b, contents, 0) == b
  {
  }

  lemma {:induction false} StepsAdd(b: Board, contents: seq<seq<Frame>>, m: nat, n: nat)
    requires |b.files.at| == |b.files.sized| == |contents|
    ensures Steps(Steps(b, contents, m), contents, n) == Steps(b, contents, m + n)
    decreases m
  {
    hide Finished;
    if m > 0 && b.pending != [] {
      StepsAdd(Finished(b, contents), contents, m - 1, n);
    }
  }

  /** Once the newest task is finished nothing is pending. */
  lemma NewestDone(b: Board, contents: seq<seq<Frame>>)
    requires Sound(b, contents) && b.next > 0 && b.next - 1 in b.done
    ensures b.pending == []
  {
    assert b.pending != [] ==> Made(b, b.pending[0]);
  }

  // ----- the client -----

  /** A task is queued. */
  ghost function Pushed(b: Board, index: Option<nat>): Board {
    var t := Task(b.next, index);
    b.(pending := b.pending + [t], job := b.job[t.id := b.At(t)], asked := b.asked[t.id := b.top], next := b.next + 1,
       top := if b.At(t) < b.top then b.top else b.At(t) + 1)
  }

  lemma PushedSound(b: Board, contents: seq<seq<Frame>>, index: Option<nat>)
    requires Sound(b, contents)
    ensures Sound(Pushed(b, index), contents) && b.next !in b.job
  {
    hide Right, Sure, Consistent, Flat;
    var c := Pushed(b, index);
    forall i | 0 <= i < |c.pending| ensures Made(c, c.pending[i]) {
      if i < |b.pending| {
        assert Made(b, b.pending[i]);
      }
    }
    forall i, j | 0 <= i < j < |c.pending| ensures MadeBefore(c, c.pending[i], c.pending[j]) {
      assert Made(b, b.pending[i]);
      if j < |b.pending| {
        assert MadeBefore(b, b.pending[i], b.pending[j]);
      }
    }
    forall id: nat | id in b.done ensures Delivered(c, contents, id) {
      assert Delivered(b, contents, id);
    }
  }

  lemma PushedKnown(b: Board, index: Option<nat>)
    ensures Known(Pushed(b, index), b.next) && forall id: nat :: Known(b, id) ==> Known(Pushed(b, index), id)
  {
    var c := Pushed(b, index);
    assert c.pending[|b.pending|].id == b.next;
    forall id: nat | Known(b, id) ensures Known(c, id) {
      if id !in b.done {
        var i :| 0 <= i < |b.pending| && b.pending[i].id == id;
        assert c.pending[i].id == id;
      }
    }
  }

  /** Every task names its index, so that the client may move. */
  predicate Settled(b: Board) { forall i :: 0 <= i < |b.pending| ==> b.pending[i].index.Some? }

  lemma LaterSettled(b: Board, c: Board)
    requires Later(b, c) && Settled(b)
    ensures Settled(c)
  {
  }

  lemma PushedSettled(b: Board, index: Option<nat>)
    requires Settled(b) && index.Some?
    ensures Settled(Pushed(b, index))
  {
  }

  lemma MovedSound(b: Board, contents: seq<seq<Frame>>, to: nat)
    requires Sound(b, contents) && Settled(b)
    ensures Sound(b.(frameno := to), contents) && forall id: nat :: Known(b, id) ==> Known(b.(frameno := to), id)
  {
    hide Right, Sure, Consistent, Flat;
    var c := b.(frameno := to);
    forall i | 0 <= i < |c.pending| ensures Made(c, c.pending[i]) {
      assert Made(b, b.pending[i]);
    }
    forall i, j | 0 <= i < j < |c.pending| ensures MadeBefore(c, c.pending[i], c.pending[j]) {
      assert MadeBefore(b, b.pending[i], b.pending[j]);
    }
    forall id: nat | id in b.done ensures Delivered(c, contents, id) {
      assert Delivered(b, contents, id);
    }
    forall id: nat | Known(b, id) ensures Known(c, id) {
      if id !in b.done {
        var i :| 0 <= i < |b.pending| && b.pending[i].id == id;
        assert c.pending[i].id == id;
      }
    }
  }

  /** The queue is dropped; the task the worker has taken still runs. */
  lemma ClearedSound(b: Board, contents: seq<seq<Frame>>, n: nat)
    requires Sound(b, contents) && n <= |b.pending|
    ensures Sound(b.(pending := b.pending[..n]), contents)
  {
    hide Right, Sure, Consistent, Flat;
    var c := b.(pending := b.pending[..n]);
    forall i | 0 <= i < n ensures Made(c, b.pending[i]) {
      assert Made(b, b.pending[i]);
    }
    forall i, j | 0 <= i < j < n ensures MadeBefore(c, b.pending[i], b.pending[j]) {
      assert MadeBefore(b, b.pending[i], b.pending[j]);
    }
    forall id: nat | id in b.done ensures Delivered(c, contents, id) {
      assert Delivered(b, contents, id);
    }
  }

  // ----- what the client keeps: frames in the cache, tasks by index -----

  /** Every cached frame is right; `stale` has the indices of those that came from a short fetch. */
  ghost predicate CacheRight(w: CacheWindow, contents: seq<seq<Frame>>, stale: set<nat>, high: nat) {
    forall i: nat :: w.At(i).Some? ==> Kept(contents, i in stale, i, w.At(i), high)
  }

  ghost predicate Kept(contents: seq<seq<Frame>>, late: bool, i: nat, r: Option<Frame>, high: nat) {
    Right(Flat(contents), late, i, r) && (late ==> !Sure(contents, i, high))
  }

  lemma DoneRight(b: Board, contents: seq<seq<Frame>>, id: nat, i: nat)
    requires Sound(b, contents) && id in b.job && b.job[id] == i && id in b.done
    ensures Kept(contents, id in b.late, i, b.done[id], b.files.high)
    ensures i < b.files.high && id in b.asked && b.asked[id] <= b.top
    ensures id in b.late ==> !Sure(contents, i, b.asked[id])
  {
    hide Right, Sure, Flat, Consistent;
    assert Delivered(b, contents, id);
  }

  lemma CacheStays(w: CacheWindow, contents: seq<seq<Frame>>, stale: set<nat>, less: nat, more: nat)
    requires CacheRight(w, contents, stale, less) && less <= more
    ensures CacheRight(w, contents, stale, more)
  {
    hide Right, Sure, Flat;
    forall i: nat | w.At(i).Some? ensures Kept(contents, i in stale, i, w.At(i), more) {
      assert Kept(contents, i in stale, i, w.At(i), less);
      SureLess(contents, i, less, more);
    }
  }

  lemma CachedKept(w: CacheWindow, contents: seq<seq<Frame>>, stale: set<nat>, high: nat, i: nat)
    requires CacheRight(w, contents, stale, high) && w.At(i).Some?
    ensures Kept(contents, i in stale, i, w.At(i), high)
  {
    hide Kept;
  }

  /** What is not sure of all fetches was not sure before the index itself was asked for. */
  lemma LateNotSure(contents: seq<seq<Frame>>, i: nat, late: bool, high: nat, before: nat)
    requires high <= before || high <= i + 1
    requires late ==> !Sure(contents, i, high)
    ensures late ==> !Sure(contents, i, before)
  {
    hide Sure;
    if Sure(contents, i, before) {
      SureStays(contents, i, before, high);
    }
  }

  lemma AddedRight(w: CacheWindow, contents: seq<seq<Frame>>, stale: set<nat>, index: nat, fr: Slot, late: bool,
                   high: nat, max: nat)
    requires CacheRight(w, contents, stale, high) && Kept(contents, late, index, fr, high) && |w.slots| <= max
    ensures CacheRight(AddTo(w, index, fr, max), contents, if late then stale + {index} else stale - {index}, high)
  {
    hide AddTo, Kept;
    var r := AddTo(w, index, fr, max);
    forall i: nat | r.At(i).Some?
      ensures Kept(contents, i in (if late then stale + {index} else stale - {index}), i, r.At(i), high)
    {
      AddToSlots(w, index, fr, max, i);
    }
  }

  ghost predicate FuturesRight(futures: map<nat, nat>, b: Board) {
    forall i :: i in futures ==> Promised(b, futures[i], i)
  }

  /** A task will deliver the result for an index. */
  ghost predicate Promised(b: Board, id: nat, i: nat) {
    id in b.job && b.job[id] == i && Known(b, id)
  }

  lemma LaterKeeps(b: Board, c: Board, futures: map<nat, nat>)
    requires Later(b, c) && FuturesRight(futures, b)
    ensures FuturesRight(futures, c)
  {
    hide Known;
    forall i | i in futures ensures Promised(c, futures[i], i) {
      assert Promised(b, futures[i], i);
    }
  }

  lemma Expected(b: Board, futures: map<nat, nat>, i: nat)
    requires FuturesRight(futures, b) && i in futures
    ensures Known(b, futures[i]) && futures[i] in b.job && b.job[futures[i]] == i
  {
    assert Promised(b, futures[i], i);
  }

  lemma BoardHigh(b: Board, contents: seq<seq<Frame>>)
    requires Sound(b, contents)
    ensures b.files.high <= b.top
  {
  }

  lemma AskedBefore(b: Board, contents: seq<seq<Frame>>, futures: map<nat, nat>)
    requires Sound(b, contents) && FuturesRight(futures, b)
    ensures forall i :: i in futures ==> futures[i] in b.asked && futures[i] < b.next && b.asked[futures[i]] <= b.top
  {
    hide Right, Sure, Flat, Consistent;
    forall i | i in futures
      ensures futures[i] in b.asked && futures[i] < b.next && b.asked[futures[i]] <= b.top
    {
      assert Promised(b, futures[i], i);
      if futures[i] in b.done {
        assert Delivered(b, contents, futures[i]);
      } else {
        var j :| 0 <= j < |b.pending| && b.pending[j].id == futures[i];
        assert Made(b, b.pending[j]);
      }
    }
  }

  lemma NeverLate(b: Board, contents: seq<seq<Frame>>)
    ensures Ordered(b, contents) ==> b.late == {}
  {
  }

  lemma GivenUp(futures: map<nat, nat>, b: Board, i: nat)
    requires FuturesRight(futures, b)
    ensures FuturesRight(futures - {i}, b)
  {
  }

  lemma AskedFor(futures: map<nat, nat>, b: Board, i: nat, id: nat)
    requires FuturesRight(futures, b) && Promised(b, id, i)
    ensures FuturesRight(futures[i := id], b)
  {
    hide Promised;
  }

  lemma PushedKeeps(b: Board, index: Option<nat>, futures: map<nat, nat>)
    requires FuturesRight(futures, b) && b.next !in b.job
    ensures FuturesRight(futures, Pushed(b, index))
  {
    hide Known;
    PushedKnown(b, index);
    forall i | i in futures ensures Promised(Pushed(b, index), futures[i], i) {
      assert Promised(b, futures[i], i);
    }
  }

  lemma MovedKeeps(b: Board, contents: seq<seq<Frame>>, to: nat, futures: map<nat, nat>)
    requires Settled(b) && Sound(b, contents) && FuturesRight(futures, b)
    ensures FuturesRight(futures, b.(frameno := to))
  {
    hide Known, Sound;
    MovedSound(b, contents, to);
    forall i | i in futures ensures Promised(b.(frameno := to), futures[i], i) {
      assert Promised(b, futures[i], i);
    }
  }

  /** A sequence whose files were just opened. */
  ghost function Fresh(contents: seq<seq<Frame>>): Board {
    Board([], map[], map[], map[], 0, 0, {}, 0,
          Positions(seq(|contents|, _ => 0), seq(|contents|, _ => false), 0))
  }

  lemma NothingYet(contents: seq<seq<Frame>>)
    ensures var b := Fresh(contents);
            && Sound(b, contents) && Settled(b) && FuturesRight(map[], b)
            && CacheRight(CacheWindow(0, []), contents, {}, 0) && Behind(CacheWindow(0, []), 0)
            && Ordered(b, contents) && Covered(map[], CacheWindow(0, []), 0, 0, |Flat(contents)|)
  {
  }

  // ----- runs that never go back -----

  /**
   * No fetch was short, and the pending reads come in order and after all
   * those made; only reads past the end may be made again.
   */
  ghost predicate Ordered(b: Board, contents: seq<seq<Frame>>) {
    && |b.files.at| == |b.files.sized| == |contents| && b.late == {} && AtEnds(contents, b.files)
    && (forall i :: 0 <= i < |b.pending| ==>
          b.files.high <= b.At(b.pending[i]) || |Flat(contents)| <= b.At(b.pending[i]))
    && forall i, j :: 0 <= i < j < |b.pending| ==>
         b.At(b.pending[i]) < b.At(b.pending[j]) || |Flat(contents)| <= b.At(b.pending[j])
  }

  lemma FinishedOrdered(b: Board, contents: seq<seq<Frame>>)
    requires Sound(b, contents) && b.pending != [] && Ordered(b, contents)
    ensures Ordered(Finished(b, contents), contents)
  {
    hide Flat, Sound, Answer, ShortSeek, Start, End, After, Consistent, AtEnds;
    var c, i := Finished(b, contents), b.At(b.pending[0]);
    BoardConsistent(b, contents);
    ForwardIsNotShort(contents, b.files, i);
    ForwardAtEnds(contents, b.files, i);
    FinishedHigh(b, contents);
    forall j | 0 <= j < |c.pending|
      ensures i < b.At(c.pending[j]) || |Flat(contents)| <= b.At(c.pending[j])
    {
      assert c.pending[j] == b.pending[j + 1];
    }
  }

  lemma BoardConsistent(b: Board, contents: seq<seq<Frame>>)
    requires Sound(b, contents)
    ensures Consistent(contents, b.files)
  {
  }

  lemma {:induction false} StepsOrdered(b: Board, contents: seq<seq<Frame>>, n: nat)
    requires Sound(b, contents) && Ordered(b, contents)
    ensures Ordered(Steps(b, contents, n), contents)
    decreases n
  {
    hide Finished, Ordered, Sound;
    BoardFits(b, contents);
    if n > 0 && b.pending != [] {
      FinishedSound(b, contents);
      FinishedOrdered(b, contents);
      StepsOrdered(Finished(b, contents), contents, n - 1);
    }
  }

  lemma PushedOrdered(b: Board, contents: seq<seq<Frame>>, index: Option<nat>)
    requires Sound(b, contents) && Ordered(b, contents)
    requires var i := b.At(Task(b.next, index)); b.top <= i || |Flat(contents)| <= i
    ensures Ordered(Pushed(b, index), contents)
  {
    hide Flat, AtEnds, Consistent, Right, Sure;
    var i := b.At(Task(b.next, index));
    forall j | 0 <= j < |b.pending| ensures b.At(b.pending[j]) < i || |Flat(contents)| <= i {
      assert Made(b, b.pending[j]);
    }
  }

  lemma MovedOrdered(b: Board, contents: seq<seq<Frame>>, to: nat)
    requires Ordered(b, contents) && Settled(b)
    ensures Ordered(b.(frameno := to), contents)
  {
    hide Flat, AtEnds;
  }

  /** Every index from the position up to a limit is on its way, or is the position and in the cache. */
  ghost predicate Covered(futures: map<nat, nat>, w: CacheWindow, frameno: nat, limit: nat, n: nat) {
    forall i :: frameno <= i < limit && i < n ==> i in futures || (i == frameno && w.At(i).Some?)
  }

  /** Nothing ahead of the position is in the cache. */
  ghost predicate Behind(w: CacheWindow, frameno: nat) {
    forall i: nat :: w.At(i).Some? ==> i <= frameno
  }

  /** An index that is not yet on its way is new, and asking for it covers it. */
  lemma Reached(futures: map<nat, nat>, w: CacheWindow, frameno: nat, top: nat, i: nat, n: nat, id: nat)
    requires Covered(futures, w, frameno, if i < top then top else i, n) && Behind(w, frameno) && frameno <= i
    ensures w.At(i) == None && i !in futures ==>
              (top <= i || n <= i) && Covered(futures[i := id], w, frameno, if i + 1 < top then top else i + 1, n)
    ensures w.At(i).Some? || i in futures ==> Covered(futures, w, frameno, if i + 1 < top then top else i + 1, n)
  {
  }

  /** A position neither on its way nor in the cache is new, or past the end. */
  lemma OwnRead(futures: map<nat, nat>, w: CacheWindow, frameno: nat, top: nat, n: nat)
    requires frameno !in futures && w.At(frameno) == None
    ensures futures - {frameno} == futures
    ensures Covered(futures, w, frameno, top, n) ==> top <= frameno || n <= frameno
  {
  }

  /** The frame at the position arrives: it enters the cache, unless it lies past the end. */
  lemma Arrived(futures: map<nat, nat>, w: CacheWindow, frameno: nat, limit: nat, n: nat, fr: Slot, max: nat)
    requires Covered(futures, w, frameno, limit, n) && Behind(w, frameno) && |w.slots| <= max && 0 < max
    requires fr.Some? || n <= frameno
    ensures var v := if fr.Some? then AddTo(w, frameno, fr, max) else w;
            && Behind(v, frameno)
            && Covered(futures - {frameno}, v, frameno, if limit <= frameno then frameno + 1 else limit, n)
  {
    hide AddTo;
    forall i: nat {
      AddToSlots(w, frameno, fr, max, i);
    }
  }

  // ----- what the fetches asked for will deliver -----

  /** The indices of the pending reads. */
  ghost function Fetches(b: Board): (f: seq<nat>)
    ensures |f| == |b.pending|
  {
    seq(|b.pending|, j requires 0 <= j < |b.pending| => b.At(b.pending[j]))
  }

  /** Where the files will stand once all pending reads are made. */
  ghost function Ending(b: Board, contents: seq<seq<Frame>>): (p: Positions)
    requires |b.files.at| == |b.files.sized| == |contents|
    ensures |p.at| == |p.sized| == |contents|
  {
    ReadAll(contents, b.files, Fetches(b))
  }

  /** A task was short, or will be when its turn comes. */
  ghost predicate Fated(b: Board, contents: seq<seq<Frame>>, id: nat)
    requires |b.files.at| == |b.files.sized| == |contents|
  {
    if id in b.done then id in b.late else exists j: nat :: FatedAt(b, contents, id, j)
  }

  ghost predicate FatedAt(b: Board, contents: seq<seq<Frame>>, id: nat, j: nat)
    requires |b.files.at| == |b.files.sized| == |contents|
  {
    && j < |b.pending| && b.pending[j].id == id
    && ShortSeek(contents, ReadAll(contents, b.files, Fetches(b)[..j]), Fetches(b)[j])
  }

  /** A worker step decides nothing: the outcome of every task is fixed when it is made. */
  lemma FinishedFated(b: Board, contents: seq<seq<Frame>>, id: nat)
    requires Sound(b, contents) && b.pending != []
    ensures |b.files.at| == |b.files.sized| == |contents|
    ensures Fated(Finished(b, contents), contents, id) <==> Fated(b, contents, id)
    ensures Ending(Finished(b, contents), contents) == Ending(b, contents)
  {
    hide Flat, Answer, ShortSeek, After, Right, Sure, Consistent, ReadAll;
    BoardFits(b, contents);
    var c, f := Finished(b, contents), Fetches(b);
    assert Fetches(c) == f[1..];
    FirstFetch(b, contents);
    if id == b.pending[0].id {
      assert forall j :: 0 < j < |b.pending| ==> MadeBefore(b, b.pending[0], b.pending[j]);
      assert f[..0] == [];
      assert FatedAt(b, contents, id, 0) <==> ShortSeek(contents, b.files, f[0]);
    } else {
      forall j: nat | 0 < j < |b.pending| ensures FatedAt(c, contents, id, j - 1) <==> FatedAt(b, contents, id, j) {
        FirstFetches(b, contents, j);
      }
      if j: nat :| FatedAt(c, contents, id, j) {
        assert FatedAt(b, contents, id, j + 1);
      }
      if j: nat :| FatedAt(b, contents, id, j) {
        assert FatedAt(c, contents, id, j - 1);
      }
    }
  }

  /** Taking the first pending read out of those still to be made. */
  lemma FirstFetches(b: Board, contents: seq<seq<Frame>>, j: nat)
    requires 0 < j <= |b.pending| && |b.files.at| == |b.files.sized| == |contents|
    ensures var c, f := Finished(b, contents), Fetches(b);
            && Fetches(c) == f[1..]
            && ReadAll(contents, c.files, Fetches(c)[..j - 1]) == ReadAll(contents, b.files, f[..j])
  {
    hide Answer, ShortSeek, After;
    var f := Fetches(b);
    assert f[..j] != [] && f[..j][0] == f[0] && f[..j][1..] == f[1..][..j - 1];
  }

  lemma FirstFetch(b: Board, contents: seq<seq<Frame>>)
    requires b.pending != [] && |b.files.at| == |b.files.sized| == |contents|
    ensures Ending(Finished(b, contents), contents) == Ending(b, contents)
    ensures ReadAll(contents, b.files, []) == b.files
  {
    hide Answer, ShortSeek, After;
    var f, n := Fetches(b), |b.pending|;
    FirstFetches(b, contents, n);
    assert f[..n] == f && f[1..][..n - 1] == f[1..];
  }

  /** The outcomes are the same under every interleaving. */
  lemma {:induction false} StepsFated(b: Board, contents: seq<seq<Frame>>, n: nat, id: nat)
    requires Sound(b, contents)
    ensures |b.files.at| == |b.files.sized| == |contents|
    ensures Fated(Steps(b, contents, n), contents, id) <==> Fated(b, contents, id)
    ensures Ending(Steps(b, contents, n), contents) == Ending(b, contents)
    decreases n
  {
    hide Finished, Fated, Ending, Sound;
    BoardFits(b, contents);
    if n > 0 && b.pending != [] {
      FinishedSound(b, contents);
      FinishedFated(b, contents, id);
      StepsFated(Finished(b, contents), contents, n - 1, id);
    }
  }

  /** A new task changes no other's outcome; its own is that of a fetch after all those pending. */
  lemma PushedFated(b: Board, contents: seq<seq<Frame>>, index: Option<nat>, id: nat)
    requires Sound(b, contents)
    ensures |b.files.at| == |b.files.sized| == |contents|
    ensures var c, i := Pushed(b, index), b.At(Task(b.next, index));
            && (id < b.next ==> (Fated(c, contents, id) <==> Fated(b, contents, id)))
            && (Fated(c, contents, b.next) <==> ShortSeek(contents, Ending(b, contents), i))
            && Ending(c, contents) == After(contents, Ending(b, contents), i)
  {
    hide Flat, ShortSeek, After, Right, Sure, Consistent, ReadAll;
    BoardFits(b, contents);
    var c, i, n := Pushed(b, index), b.At(Task(b.next, index)), |b.pending|;
    assert Fetches(c) == Fetches(b) + [i];
    ReadAllSnoc(contents, b.files, Fetches(b), i);
    forall j: nat | j < n ensures Made(b, b.pending[j]) && Fetches(c)[..j] == Fetches(b)[..j] {
    }
    assert forall id: nat :: id in b.done ==> Delivered(b, contents, id);
    assert Fetches(c)[..n] == Fetches(b);
    if id < b.next && id !in b.done {
      forall j: nat ensures FatedAt(c, contents, id, j) <==> FatedAt(b, contents, id, j) {
      }
    }
    assert FatedAt(c, contents, b.next, n) <==> ShortSeek(contents, Ending(b, contents), i);
  }

  lemma MovedFated(b: Board, contents: seq<seq<Frame>>, to: nat, id: nat)
    requires Settled(b) && |b.files.at| == |b.files.sized| == |contents|
    ensures Fated(b.(frameno := to), contents, id) <==> Fated(b, contents, id)
    ensures Ending(b.(frameno := to), contents) == Ending(b, contents)
  {
    hide ShortSeek, ReadAll;
    var c := b.(frameno := to);
    assert Fetches(c) == Fetches(b);
    assert forall j: nat :: FatedAt(c, contents, id, j) <==> FatedAt(b, contents, id, j);
  }

  // ----- runs that read everything -----

  /** All files are read to their ends, and only reads past the end are pending. */
  ghost predicate Spent(b: Board, contents: seq<seq<Frame>>) {
    && |b.files.at| == |b.files.sized| == |contents| && AllRead(contents, b.files)
    && forall i :: 0 <= i < |b.pending| ==> |Flat(contents)| <= b.At(b.pending[i])
  }

  lemma FinishedSpent(b: Board, contents: seq<seq<Frame>>)
    requires b.pending != [] && Spent(b, contents)
    ensures Spent(Finished(b, contents), contents)
  {
    hide Flat, Answer, ShortSeek, After, AllRead;
    ReadPastEnd(contents, b.files, b.At(b.pending[0]));
  }

  lemma {:induction false} StepsSpent(b: Board, contents: seq<seq<Frame>>, n: nat)
    requires Spent(b, contents)
    ensures Spent(Steps(b, contents, n), contents)
    decreases n
  {
    hide Finished, Spent;
    SpentFits(b, contents);
    if n > 0 && b.pending != [] {
      FinishedSpent(b, contents);
      StepsSpent(Finished(b, contents), contents, n - 1);
    }
  }

  lemma SpentFits(b: Board, contents: seq<seq<Frame>>)
    requires Spent(b, contents)
    ensures |b.files.at| == |b.files.sized| == |contents|
  {
  }

  lemma MovedSpent(b: Board, contents: seq<seq<Frame>>, to: nat)
    requires Settled(b)
    ensures Spent(b, contents) ==> Spent(b.(frameno := to), contents)
  {
  }

  /** Dropping reads past the end leaves every file at its end. */
  lemma ClearedSpent(b: Board, contents: seq<seq<Frame>>, n: nat)
    requires |b.files.at| == |b.files.sized| == |contents| && n <= |b.pending|
    ensures Spent(b, contents) ==> AllRead(contents, Ending(b.(pending := b.pending[..n]), contents))
  {
    hide Flat, AllRead, Ending;
    var c := b.(pending := b.pending[..n]);
    if Spent(b, contents) {
      assert forall i :: 0 <= i < n ==> c.At(c.pending[i]) == b.At(b.pending[i]);
      SpentEnding(c, contents);
    }
  }

  /** Reads past the end leave every file at its end. */
  lemma {:induction false} SpentEnding(b: Board, contents: seq<seq<Frame>>)
    requires Spent(b, contents)
    ensures |b.files.at| == |b.files.sized| == |contents| && AllRead(contents, Ending(b, contents))
    decreases |b.pending|
  {
    hide Flat, Answer, ShortSeek, After, AllRead, ReadAll;
    if b.pending == [] {
      assert Fetches(b) == [];
      NoFetch(contents, b.files);
    } else {
      FinishedSpent(b, contents);
      FirstFetch(b, contents);
      SpentEnding(Finished(b, contents), contents);
    }
  }

  lemma NoFetch(contents: seq<seq<Frame>>, p: Positions)
    requires |p.at| == |p.sized| == |contents|
    ensures ReadAll(contents, p, []) == p
  {
  }

  /** A run that never went back and found the end has read all files to theirs. */
  lemma OrderedSpent(b: Board, contents: seq<seq<Frame>>)
    requires Sound(b, contents) && Ordered(b, contents) && |Flat(contents)| < b.files.high
    ensures Spent(b, contents)
  {
    forall k | 0 <= k < |contents| ensures b.files.sized[k] {
      Span(contents, k);
    }
  }

  /** The client asks for an index after any number of worker steps. */
  lemma PushedAfter(b: Board, contents: seq<seq<Frame>>, n: nat, i: nat)
    requires Sound(b, contents)
    ensures |b.files.at| == |b.files.sized| == |contents|
    ensures var c := Pushed(Steps(b, contents, n), Some(i));
            && Sound(Steps(b, contents, n), contents)
            && c.top == (if i < b.top then b.top else i + 1) && c.next == b.next + 1
            && c.asked == b.asked[b.next := b.top]
            && (Settled(b) ==> Settled(c))
            && (Ordered(b, contents) && (b.top <= i || |Flat(contents)| <= i) ==> Ordered(c, contents))
            && (forall id: nat :: id < b.next ==> (Fated(c, contents, id) <==> Fated(b, contents, id)))
            && (Fated(c, contents, b.next) <==> ShortSeek(contents, Ending(b, contents), i))
            && Ending(c, contents) == After(contents, Ending(b, contents), i)
  {
    hide Sound, Ordered, Fated, Ending, Settled, Flat, ShortSeek, After;
    BoardFits(b, contents);
    StepsSound(b, contents, n);
    var d := Steps(b, contents, n);
    LaterSame(b, d);
    if Settled(b) {
      LaterSettled(b, d);
      PushedSettled(d, Some(i));
    }
    if Ordered(b, contents) && (b.top <= i || |Flat(contents)| <= i) {
      StepsOrdered(b, contents, n);
      PushedOrdered(d, contents, Some(i));
    }
    forall id: nat | id < b.next ensures Fated(Pushed(d, Some(i)), contents, id) <==> Fated(b, contents, id) {
      StepsFated(b, contents, n, id);
      PushedFated(d, contents, Some(i), id);
    }
    StepsFated(b, contents, n, 0);
    PushedFated(d, contents, Some(i), b.next);
  }

  /** The client waits through any number of worker steps. */
  lemma WaitedAfter(b: Board, contents: seq<seq<Frame>>, n: nat)
    requires Sound(b, contents)
    ensures |b.files.at| == |b.files.sized| == |contents|
    ensures var c := Steps(b, contents, n);
            && Sound(c, contents) && Later(b, c)
            && (Settled(b) ==> Settled(c)) && (Ordered(b, contents) ==> Ordered(c, contents))
            && (Spent(b, contents) ==> Spent(c, contents)) && Ending(c, contents) == Ending(b, contents)
            && forall id: nat :: Fated(c, contents, id) <==> Fated(b, contents, id)
  {
    hide Sound, Ordered, Fated, Ending, Spent, Settled, Later;
    BoardFits(b, contents);
    StepsSound(b, contents, n);
    if Settled(b) {
      LaterSettled(b, Steps(b, contents, n));
    }
    if Ordered(b, contents) {
      StepsOrdered(b, contents, n);
    }
    forall id: nat ensures Fated(Steps(b, contents, n), contents, id) <==> Fated(b, contents, id) {
      StepsFated(b, contents, n, id);
    }
    StepsFated(b, contents, n, 0);
    if Spent(b, contents) {
      StepsSpent(b, contents, n);
    }
  }

  /** A task that is finished was short if that was its outcome. */
  lemma FatedDone(b: Board, contents: seq<seq<Frame>>, id: nat)
    requires |b.files.at| == |b.files.sized| == |contents| && id in b.done
    ensures Fated(b, contents, id) <==> id in b.late
  {
  }

  lemma LaterSame(b: Board, c: Board)
    requires Later(b, c)
    ensures c.job == b.job && c.asked == b.asked && c.next == b.next && c.frameno == b.frameno && c.top == b.top
  {
  }

  /** The client asks for the frame at its position. */
  lemma PushedHere(b: Board, contents: seq<seq<Frame>>, n: nat)
    requires Sound(b, contents)
    ensures |b.files.at| == |b.files.sized| == |contents|
    ensures var c := Pushed(Steps(b, contents, n), None);
            && Sound(Steps(b, contents, n), contents) && c.frameno == b.frameno && c.next == b.next + 1
            && c.top == (if b.frameno < b.top then b.top else b.frameno + 1)
            && (Ordered(b, contents) && (b.top <= b.frameno || |Flat(contents)| <= b.frameno) ==> Ordered(c, contents))
            && forall id: nat :: id < b.next ==> (Fated(c, contents, id) <==> Fated(b, contents, id))
  {
    hide Sound, Ordered, Flat, Fated;
    BoardFits(b, contents);
    StepsSound(b, contents, n);
    var d := Steps(b, contents, n);
    LaterSame(b, d);
    if Ordered(b, contents) && (b.top <= b.frameno || |Flat(contents)| <= b.frameno) {
      StepsOrdered(b, contents, n);
      PushedOrdered(d, contents, None);
    }
    forall id: nat | id < b.next ensures Fated(Pushed(d, None), contents, id) <==> Fated(b, contents, id) {
      StepsFated(b, contents, n, id);
      PushedFated(d, contents, None, id);
    }
  }

  // ----- a sweep over the frames that are not in the cache -----

  /** A sweep does not fetch what is before its start or in the cache. */
  ghost predicate Omitted(w: CacheWindow, from: nat, c: nat) { c < from || w.At(c).Some? }

  /** Some frame before an index, in its file, is not fetched. */
  ghost predicate Skips(contents: seq<seq<Frame>>, w: CacheWindow, from: nat, i: nat) {
    exists k: nat, c: nat :: Lands(contents, i, k) && Start(contents, k) <= c < i && Omitted(w, from, c)
  }

  /** Nothing from the start of a file up to an index is left out. */
  ghost predicate Gapless(contents: seq<seq<Frame>>, w: CacheWindow, from: nat, k: nat, m: nat)
    requires k < |contents|
  {
    forall c: nat :: Start(contents, k) <= c < m ==> !Omitted(w, from, c)
  }

  /**
   * Where the files stand when a sweep from files read to their ends has come
   * to an index: a file not reached is at its end, and the file of the index is
   * at the index exactly if nothing of it was left out.
   */
  ghost predicate Sweeping(contents: seq<seq<Frame>>, w: CacheWindow, from: nat, m: nat, p: Positions)
    requires |p.at| == |p.sized| == |contents|
  {
    forall k :: 0 <= k < |contents| ==>
      && p.sized[k]
      && (m <= Start(contents, k) ==> p.at[k] == |contents[k]|)
      && (Start(contents, k) < m < End(contents, k) ==>
            && (p.at[k] == |contents[k]| || p.at[k] <= m - Start(contents, k))
            && (p.at[k] == m - Start(contents, k) <==> Gapless(contents, w, from, k, m)))
  }

  lemma SweepStarts(contents: seq<seq<Frame>>, w: CacheWindow, from: nat, p: Positions)
    requires |p.at| == |p.sized| == |contents| && AllRead(contents, p)
    ensures Sweeping(contents, w, from, from, p)
  {
    forall k | 0 <= k < |contents| && Start(contents, k) < from < End(contents, k)
      ensures p.at[k] != from - Start(contents, k) && !Gapless(contents, w, from, k, from)
    {
      Span(contents, k);
      assert Omitted(w, from, Start(contents, k));
    }
  }

  /** A frame in the cache is passed over. */
  lemma SweepPasses(contents: seq<seq<Frame>>, w: CacheWindow, from: nat, m: nat, p: Positions)
    requires |p.at| == |p.sized| == |contents| && Sweeping(contents, w, from, m, p) && w.At(m).Some?
    ensures Sweeping(contents, w, from, m + 1, p)
  {
    hide Flat;
    forall k | 0 <= k < |contents| && Start(contents, k) < m + 1 < End(contents, k)
      ensures !Gapless(contents, w, from, k, m + 1) && p.at[k] != m + 1 - Start(contents, k)
      ensures p.at[k] == |contents[k]| || p.at[k] <= m + 1 - Start(contents, k)
    {
      Span(contents, k);
      assert Omitted(w, from, m);
    }
  }

  /** A frame not in the cache is fetched: short exactly if something before it in its file was left out. */
  lemma SweepFetches(contents: seq<seq<Frame>>, w: CacheWindow, from: nat, m: nat, p: Positions)
    requires |p.at| == |p.sized| == |contents| && Sweeping(contents, w, from, m, p) && w.At(m) == None && from <= m
    ensures ShortSeek(contents, p, m) <==> Skips(contents, w, from, m)
    ensures Sweeping(contents, w, from, m + 1, After(contents, p, m))
  {
    hide Flat;
    forall k: nat | Lands(contents, m, k) ensures ShortSeek(contents, p, m) <==> !Gapless(contents, w, from, k, m) {
      ShortHere(contents, p, m, k);
      Span(contents, k);
    }
    SkipsHere(contents, w, from, m);
    var q := After(contents, p, m);
    forall k | 0 <= k < |contents| && Start(contents, k) < m + 1 < End(contents, k)
      ensures q.at[k] == m + 1 - Start(contents, k) <==> Gapless(contents, w, from, k, m + 1)
      ensures q.at[k] <= m + 1 - Start(contents, k)
    {
      assert Lands(contents, m, k);
      assert !Omitted(w, from, m);
    }
  }

  lemma SkipsHere(contents: seq<seq<Frame>>, w: CacheWindow, from: nat, m: nat)
    ensures forall k: nat :: Lands(contents, m, k) ==>
              (Skips(contents, w, from, m) <==> !Gapless(contents, w, from, k, m))
    ensures Skips(contents, w, from, m) ==> exists k: nat :: Lands(contents, m, k)
  {
    forall k: nat | Lands(contents, m, k) ensures Skips(contents, w, from, m) <==> !Gapless(contents, w, from, k, m) {
      Around(contents, m, k);
    }
  }

  /** With the first frame in the cache the second is not read from the start. */
  lemma SkipsFirst(contents: seq<seq<Frame>>, w: CacheWindow)
    requires contents != [] && |contents[0]| >= 2 && w.At(0).Some?
    ensures Skips(contents, w, 0, 1)
  {
    NoneBeforeAllAfter(contents);
    Span(contents, 0);
    assert Lands(contents, 1, 0) && Omitted(w, 0, 0);
  }
}
