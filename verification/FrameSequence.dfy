/**
 * A sequence of frames over a group of files: the client's position and frame
 * cache, and a worker thread that fetches frames ahead. The worker takes any
 * number of steps before each thing the client does to the state they share.
 */
module FrameSequences {
  import opened Options
  import opened FrameCaches
  import opened FrameFiles
  import opened FilePositions
  import opened FileGroups
  import opened FrameTasks

  const PREFETCH: nat := 10

  /** The frame the client saw at an index, which is the one before when the fetch was short. */
  ghost function Seen(whole: seq<Frame>, late: set<nat>, i: nat): Frame
    requires i < |whole|
  {
    if i in late && i > 0 then whole[i - 1] else whole[i]
  }

  /** The frames seen from an index up to another, none of them of the stream. */
  ghost predicate Passed(whole: seq<Frame>, short: set<nat>, from: nat, to: nat, s: char) {
    forall i :: from <= i < to ==> i < |whole| && !Matches(Seen(whole, short, i), s)
  }

  /** Of the frames seen those in `short` came from short fetches: none was sure, and of those open it was decided. */
  ghost predicate Outcomes(contents: seq<seq<Frame>>, short: set<nat>, from: nat, to: nat, limit: nat,
                           open: set<nat>, wrong: set<nat>)
  {
    && (forall i :: i in short ==> from <= i < to && !Sure(contents, i, limit))
    && forall i :: from <= i < to && i in open ==> (i in short <==> i in wrong)
  }

  /**
   * What reading the frames from an index up to another leaves of the cache: no
   * other frame comes in, and those within the limit of all that were read stay.
   */
  ghost predicate CacheBetween(w: CacheWindow, v: CacheWindow, from: nat, to: nat, max: nat) {
    forall i: nat | !(from <= i < to) ::
      && (v.At(i).Some? ==> w.At(i) == v.At(i))
      && (to <= i + max && i < from + max && w.At(i).Some? ==> v.At(i) == w.At(i))
  }

  lemma CacheSame(w: CacheWindow, from: nat, max: nat)
    ensures CacheBetween(w, w, from, from, max)
  {
  }

  lemma CacheNext(w: CacheWindow, v: CacheWindow, u: CacheWindow, from: nat, to: nat, max: nat)
    requires from <= to && CacheBetween(w, v, from, to, max) && CacheBetween(v, u, to, to + 1, max)
    ensures CacheBetween(w, u, from, to + 1, max)
  {
  }

  lemma NoneYet(contents: seq<seq<Frame>>, from: nat, limit: nat, open: set<nat>, wrong: set<nat>, s: char)
    ensures Outcomes(contents, {}, from, from, limit, open, wrong) && Passed(Flat(contents), {}, from, from, s)
  {
  }

  lemma PassedAll(contents: seq<seq<Frame>>, short: set<nat>, from: nat, to: nat, limit: nat,
                  open: set<nat>, wrong: set<nat>, s: char)
    requires Outcomes(contents, short, from, to, limit, open, wrong) && Passed(Flat(contents), short, from, to, s)
    requires from == to || to <= |Flat(contents)|
    requires |Flat(contents)| <= to
    ensures Outcomes(contents, short, from, |Flat(contents)|, limit, open, wrong)
    ensures Passed(Flat(contents), short, from, |Flat(contents)|, s)
  {
  }

  /** One frame more is seen. */
  lemma NextSeen(contents: seq<seq<Frame>>, short: set<nat>, more: bool, from: nat, to: nat, limit: nat,
                 open: set<nat>, wrong: set<nat>, s: char)
    requires Outcomes(contents, short, from, to, limit, open, wrong) && Passed(Flat(contents), short, from, to, s)
    requires from <= to < |Flat(contents)| && (more ==> !Sure(contents, to, limit))
    requires to in open ==> (more <==> to in wrong)
    ensures var all := if more then short + {to} else short;
            && Outcomes(contents, all, from, to + 1, limit, open, wrong)
            && Passed(Flat(contents), all, from, to, s) && (to in all <==> more)
            && Seen(Flat(contents), all, to) == Seen(Flat(contents), if more then {to} else {}, to)
            && (Matches(Seen(Flat(contents), all, to), s) || Passed(Flat(contents), all, from, to + 1, s))
  {
    hide Flat, Sure;
    var all := if more then short + {to} else short;
    forall i | from <= i < to ensures i < |Flat(contents)| && !Matches(Seen(Flat(contents), all, i), s) {
      assert !Matches(Seen(Flat(contents), short, i), s);
    }
  }

  class FrameSequence {
    const files: FileGroup
    const cache: FrameCache
    var queue: seq<Task>
    /** The task the worker has taken from the queue and not finished. */
    var running: Option<Task>
    /** The results of the finished tasks. */
    var done: map<nat, Option<Frame>>
    /** The number of tasks made so far, which numbers the next. */
    var nextId: nat
    /** The task that will deliver the frame of an index. */
    var futures: map<nat, nat>
    /** The index of the next frame. */
    var frameno: nat
    /** The index each task was made for. */
    ghost var job: map<nat, nat>
    /** One more than the largest index asked for before each task was made. */
    ghost var asked: map<nat, nat>
    /** The finished tasks whose fetch was short. */
    ghost var late: set<nat>
    /** One more than the largest index a task was made for. */
    ghost var top: nat
    /** The indices whose frames in the cache came from a short fetch. */
    ghost var stale: set<nat>

    ghost function Repr(): set<object> {
      {this, files, cache} + set f | f in files.files
    }

    ghost function Contents(): seq<seq<Frame>> { files.Contents() }

    ghost function Whole(): seq<Frame> { Flat(Contents()) }

    ghost function Tasks(): Board
      requires |files.hasSize| == |files.files|
      reads this, files, set f | f in files.files
    {
      Board((if running.Some? then [running.value] else []) + queue, done, job, asked, nextId, frameno, late, top,
            files.Snap())
    }

    /** What holds at every moment, also while the client waits for the worker. */
    ghost predicate Running()
      reads Repr()
    {
      && files.Valid() && cache.Valid() && Sound(Tasks(), Contents())
      && FuturesRight(futures, Tasks()) && CacheRight(cache.Snap(), Contents(), stale, files.high)
    }

    ghost predicate Valid()
      reads Repr()
    {
      Running() && Settled(Tasks())
    }

    /** No read ever went back, and the frames ahead are being fetched in order. */
    ghost predicate Forward()
      requires Valid()
      reads Repr()
    {
      && Ordered(Tasks(), Contents()) && cache.maxSize > 0 && stale == {}
      && Covered(futures, cache.Snap(), frameno, top, |Whole()|) && Behind(cache.Snap(), frameno)
    }

    /** The frame asked for at an index was, or will be, read as the one before: settled when it was asked for. */
    ghost predicate Wrong(i: nat)
      requires Valid()
      reads Repr()
    {
      i in futures && cache.Snap().At(i) == None && Fated(Tasks(), Contents(), futures[i])
    }

    /** Where the files will stand once everything asked for is read. */
    ghost function Goal(): (p: Positions)
      requires Valid()
      reads Repr()
      ensures |p.at| == |p.sized| == |Contents()|
    {
      Ending(Tasks(), Contents())
    }

    /** What was asked for from an index on, of frames not in the cache, still is, with the same outcome. */
    twostate predicate SameFate(from: nat)
      requires old(Valid()) && Valid()
      reads Repr()
    {
      forall j :: from <= j && j in old(futures) && old(cache.Snap()).At(j) == None ==>
        j in futures && cache.Snap().At(j) == None && (Wrong(j) <==> old(Wrong(j)))
    }

    /** The same, in terms of what was asked for then and what of it was wrong. */
    ghost predicate Fates(from: nat, open: set<nat>, wrong: set<nat>)
      requires Valid()
      reads Repr()
    {
      forall j :: from <= j && j in open ==> j in futures && cache.Snap().At(j) == None && (Wrong(j) <==> j in wrong)
    }

    /** One more than the largest index asked for before an index was, or would be now. */
    ghost function AskedAt(i: nat): nat
      reads this
    {
      if i in futures && futures[i] in asked then asked[futures[i]] else top
    }

    // ----- the worker -----

    /** Take the next task, or finish the one taken. */
    method Step() returns (ghost n: nat)
      requires Running() && Tasks().pending != []
      modifies `queue, `running, `done, `late, files, set f | f in files.files
      ensures Running() && Tasks() == Steps(old(Tasks()), Contents(), n)
      ensures 2 * |queue| + |Tasks().pending| < old(2 * |queue| + |Tasks().pending|)
    {
      hide Sound, Known, Right, FuturesRight, CacheRight, Finished, Flat, FileGroup.Valid;
      if running.None? {
        n := 0;
        running, queue := Some(queue[0]), queue[1..];
        assert Tasks() == old(Tasks());
      } else {
        n := 1;
        Finish();
      }
    }

    method Finish()
      requires Running() && running.Some?
      modifies `running, `done, `late, files, set f | f in files.files
      ensures Running() && running == None && Tasks() == Finished(old(Tasks()), Contents())
      ensures Tasks().pending == old(Tasks().pending)[1..]
    {
      hide Sound, Known, FuturesRight, CacheRight, Later, Right, Flat, Answer, After, ShortSeek, FileGroup.Valid;
      ghost var b, c := Tasks(), Contents();
      var t := running.value;
      assert b.pending[0] == t;
      var i := if t.index.Some? then t.index.value else frameno;
      var r := files.GetFrame(i);
      done := done[t.id := r];
      running := None;
      late := if ShortSeek(c, b.files, i) then late + {t.id} else late - {t.id};
      assert Tasks().pending == b.pending[1..];
      assert Tasks() == Finished(b, c);
      FinishedSound(b, c);
      FinishedLater(b, c);
      FinishedHigh(b, c);
      LaterKeeps(b, Tasks(), futures);
      CacheStays(cache.Snap(), c, stale, b.files.high, files.high);
    }

    /** Any number of steps. */
    method Worker() returns (ghost n: nat)
      requires Running()
      modifies `queue, `running, `done, `late, files, set f | f in files.files
      ensures Running() && Tasks() == Steps(old(Tasks()), Contents(), n)
    {
      hide Sound, Known, Right, FuturesRight, CacheRight, Steps, FileGroup.Valid;
      n := 0;
      NoSteps(Tasks(), Contents());
      while *
        invariant Running() && Tasks() == Steps(old(Tasks()), Contents(), n)
        decreases 2 * |queue| + |Tasks().pending|
      {
        if running.None? && queue == [] {
          break;
        }
        ghost var m := Step();
        StepsAdd(old(Tasks()), Contents(), n, m);
        n := n + m;
      }
    }

    /** Wait for the result of a task. */
    method Await(id: nat) returns (r: Option<Frame>, ghost n: nat)
      requires Running() && Known(Tasks(), id)
      modifies `queue, `running, `done, `late, files, set f | f in files.files
      ensures Running() && Tasks() == Steps(old(Tasks()), Contents(), n) && id in done && r == done[id]
    {
      hide Sound, Right, FuturesRight, CacheRight, Steps, FileGroup.Valid;
      n := 0;
      NoSteps(Tasks(), Contents());
      while id !in done
        invariant Running() && Tasks() == Steps(old(Tasks()), Contents(), n)
        decreases 2 * |queue| + |Tasks().pending|
      {
        StepsSound(old(Tasks()), Contents(), n);
        assert Known(Tasks(), id);
        ghost var m := Step();
        StepsAdd(old(Tasks()), Contents(), n, m);
        n := n + m;
      }
      r := done[id];
    }

    /** Queue a read. */
    method Push(index: Option<nat>) returns (id: nat, ghost n: nat)
      requires Running()
      modifies `queue, `running, `done, `late, `nextId, `job, `asked, `top, files, set f | f in files.files
      ensures Running() && id == old(nextId) == nextId - 1
      ensures Tasks() == Pushed(Steps(old(Tasks()), Contents(), n), index)
      ensures Promised(Tasks(), id, if index.Some? then index.value else frameno)
    {
      hide Sound, Known, Right, FuturesRight, CacheRight, Promised, Steps, FileGroup.Valid, Flat;
      ghost var b := Tasks();
      n := Worker();
      StepsSound(b, Contents(), n);
      id := Enqueue(index);
    }

    method Enqueue(index: Option<nat>) returns (id: nat)
      requires Running()
      modifies `queue, `nextId, `job, `asked, `top
      ensures Running() && id == old(nextId) && Tasks() == Pushed(old(Tasks()), index)
      ensures Promised(Tasks(), id, if index.Some? then index.value else frameno)
    {
      hide Sound, Known, Right, FuturesRight, CacheRight, FileGroup.Valid, Flat;
      ghost var b := Tasks();
      PushedSound(b, Contents(), index);
      PushedKnown(b, index);
      PushedKeeps(b, index, futures);
      id := nextId;
      queue := queue + [Task(id, index)];
      nextId := nextId + 1;
      job := job[id := b.At(Task(id, index))];
      asked := asked[id := top];
      top := if job[id] < top then top else job[id] + 1;
      assert Tasks().pending == b.pending + [Task(id, index)];
    }

    // ----- the client -----

    /** The run never went back, and all indices below a limit are dealt with. */
    ghost predicate Ahead(limit: nat)
      requires Valid()
      reads Repr()
    {
      && Ordered(Tasks(), Contents()) && cache.maxSize > 0 && stale == {} && Behind(cache.Snap(), frameno)
      && Covered(futures, cache.Snap(), frameno, if limit < top then top else limit, |Whole()|)
    }

    lemma AheadForward(limit: nat)
      requires Valid()
      ensures Ahead(limit) ==> Forward()
      ensures Forward() && limit == frameno ==> Ahead(limit)
    {
      hide Ordered, Behind, Valid;
    }

    ghost predicate OnlyPastEnd()
      requires Valid()
      reads Repr()
    {
      Spent(Tasks(), Contents())
    }

    /** Ask for the frame of an index, unless it is in the cache or asked for. */
    method Prefetch(i: nat)
      requires Valid() && frameno <= i
      modifies Repr() - {cache}
      ensures Valid() && frameno == old(frameno) && stale == old(stale)
      ensures top == if i in old(futures) || cache.Snap().At(i).Some? || i < old(top) then old(top) else i + 1
      ensures futures.Keys == old(futures).Keys + if cache.Snap().At(i).Some? then {} else {i}
      ensures forall j :: j in old(futures) ==> AskedAt(j) == old(AskedAt(j))
      ensures cache.Snap().At(i) == None ==> AskedAt(i) == old(AskedAt(i))
      ensures old(Ahead(i)) ==> Ahead(i + 1)
      ensures SameFate(0)
      ensures i in old(futures) || cache.Snap().At(i).Some? ==> Goal() == old(Goal())
      ensures i !in old(futures) && cache.Snap().At(i) == None ==>
                && Goal() == After(Contents(), old(Goal()), i)
                && (Wrong(i) <==> ShortSeek(Contents(), old(Goal()), i))
    {
      hide Sound, Ordered, Known, Right, FuturesRight, CacheRight, Later, Promised, Settled, Covered, Behind, Spent,
           Fated, Ending, Flat, Steps, ShortSeek, After, FileGroup.Valid;
      if Ahead(i) {
        Reached(futures, cache.Snap(), frameno, top, i, |Whole()|, nextId);
      }
      var fr := cache.Get(i);
      if fr == None && i !in futures {
        Ask(i);
      }
    }

    /** Make a task for an index. */
    method Ask(i: nat)
      requires Valid() && i !in futures
      modifies Repr() - {cache}
      ensures Valid() && frameno == old(frameno) && stale == old(stale)
      ensures top == if i < old(top) then old(top) else i + 1
      ensures futures == old(futures)[i := old(nextId)] && AskedAt(i) == old(top)
      ensures forall j :: j in old(futures) ==> AskedAt(j) == old(AskedAt(j))
      ensures old(Ordered(Tasks(), Contents())) && (old(top) <= i || |Whole()| <= i) ==> Ordered(Tasks(), Contents())
      ensures forall j :: j in old(futures) ==>
                (Fated(Tasks(), Contents(), futures[j]) <==> old(Fated(Tasks(), Contents(), futures[j])))
      ensures Fated(Tasks(), Contents(), futures[i]) <==> ShortSeek(Contents(), old(Goal()), i)
      ensures Goal() == After(Contents(), old(Goal()), i)
    {
      hide Sound, Ordered, Known, Right, FuturesRight, CacheRight, Later, Promised, Settled, Spent, Fated, Ending, Flat,
           Steps, ShortSeek, After, FileGroup.Valid;
      ghost var b, n := Tasks(), 0;
      var id;
      id, n := Push(Some(i));
      AskedFor(futures, Tasks(), i, id);
      PushedAfter(b, Contents(), n, i);
      AskedBefore(b, Contents(), futures);
      futures := futures[i := id];
    }

    /** The next frames are in the cache or asked for. */
    ghost predicate UnderWay()
      reads this, cache
    {
      forall i :: frameno <= i < frameno + PREFETCH ==> i in futures || cache.Snap().At(i).Some?
    }

    /** The frames up to a limit that are not in the cache are asked for, and wrong if one before in the file is not. */
    ghost predicate SkipsDecide(limit: nat)
      requires Valid()
      reads Repr()
    {
      forall i :: frameno <= i < limit && cache.Snap().At(i) == None ==>
        i in futures && (Wrong(i) <==> Skips(Contents(), cache.Snap(), frameno, i))
    }

    /** A sweep has come to a limit. */
    ghost predicate Swept(limit: nat)
      requires Valid()
      reads Repr()
    {
      Sweeping(Contents(), cache.Snap(), frameno, limit, Goal()) && SkipsDecide(limit)
    }

    /** Prefetch from the position on. */
    method PrefetchAll()
      requires Valid()
      modifies Repr() - {cache}
      ensures Valid() && frameno == old(frameno) && stale == old(stale)
      ensures old(top) <= top && (top == old(top) || top <= frameno + PREFETCH)
      ensures forall i :: i in futures ==> i in old(futures) || frameno <= i < frameno + PREFETCH
      ensures UnderWay()
      ensures old(Forward()) ==> Forward()
      ensures SameFate(0)
      ensures old(futures) == map[] && AllRead(Contents(), old(Goal())) ==> Swept(frameno + PREFETCH)
    {
      hide Valid, Forward, Ahead, Wrong, OnlyPastEnd, Goal, Swept, AllRead;
      ghost var open := set j | j in futures && cache.Snap().At(j) == None;
      ghost var wrong := set j | j in futures && Wrong(j);
      PrefetchOn(open, wrong);
    }

    /** Prefetch, with the outcomes of what was asked for before. */
    method PrefetchOn(ghost open: set<nat>, ghost wrong: set<nat>)
      requires Valid() && Fates(0, open, wrong)
      modifies Repr() - {cache}
      ensures Valid() && frameno == old(frameno) && stale == old(stale)
      ensures old(top) <= top && (top == old(top) || top <= frameno + PREFETCH)
      ensures forall i :: i in futures ==> i in old(futures) || frameno <= i < frameno + PREFETCH
      ensures UnderWay()
      ensures old(Forward()) ==> Forward()
      ensures Fates(0, open, wrong)
      ensures old(futures) == map[] && AllRead(Contents(), old(Goal())) ==> Swept(frameno + PREFETCH)
    {
      hide Valid, Forward, Ahead, Wrong, OnlyPastEnd, Goal, Swept, AllRead, Fates, AskedAt;
      AheadForward(frameno);
      SweptNone();
      for k := 0 to PREFETCH
        invariant forall i :: i in futures ==> i in old(futures) || frameno <= i < frameno + k
        invariant forall i :: frameno <= i < frameno + k ==> i in futures || cache.Snap().At(i).Some?
        invariant Valid() && frameno == old(frameno) && stale == old(stale)
        invariant old(top) <= top && (top == old(top) || top <= frameno + k)
        invariant old(Forward()) ==> Ahead(frameno + k)
        invariant Fates(0, open, wrong)
        invariant old(futures) == map[] && AllRead(Contents(), old(Goal())) ==> Swept(frameno + k)
      {
        Sweep(frameno + k, open, wrong);
      }
      AheadForward(frameno + PREFETCH);
    }

    lemma SweptNone()
      requires Valid()
      ensures AllRead(Contents(), Goal()) ==> Swept(frameno)
    {
      hide Valid, Goal, AllRead, Sweeping;
      if AllRead(Contents(), Goal()) {
        SweepStarts(Contents(), cache.Snap(), frameno, Goal());
      }
    }

    /** One index of the sweep. */
    method Sweep(i: nat, ghost open: set<nat>, ghost wrong: set<nat>)
      requires Valid() && frameno <= i && Fates(0, open, wrong)
      modifies Repr() - {cache}
      ensures Valid() && frameno == old(frameno) && stale == old(stale)
      ensures old(top) <= top && (top == old(top) || top <= i + 1)
      ensures futures.Keys == old(futures).Keys + if cache.Snap().At(i).Some? then {} else {i}
      ensures old(Ahead(i)) ==> Ahead(i + 1)
      ensures Fates(0, open, wrong)
      ensures old(Swept(i)) && i !in old(futures) ==> Swept(i + 1)
    {
      hide Valid, Ahead, Wrong, OnlyPastEnd, Goal, ShortSeek, After, Skips, Sweeping, AskedAt;
      if Sweeping(Contents(), cache.Snap(), frameno, i, Goal()) {
        if cache.Snap().At(i) == None {
          SweepFetches(Contents(), cache.Snap(), frameno, i, Goal());
        } else {
          SweepPasses(Contents(), cache.Snap(), frameno, i, Goal());
        }
      }
      Prefetch(i);
    }

    /** The same for a seek: the fetches stop past the frames known of. */
    method PrefetchKnown() returns (ghost asked: nat, ghost known: nat)
      requires Valid()
      modifies Repr() - {cache}
      ensures Valid() && frameno == old(frameno) && stale == old(stale)
      ensures old(top) <= top && (top == old(top) || top <= frameno + PREFETCH)
      ensures forall i :: i in futures ==> i in old(futures) || frameno <= i < frameno + PREFETCH
      ensures cache.Snap().At(frameno) == None ==> AskedAt(frameno) <= old(top)
      ensures AskedKnown(asked, known)
      ensures old(Forward()) ==> Forward()
      ensures SameFate(0)
    {
      hide Valid, Forward, Ahead, Wrong, OnlyPastEnd, Goal, AskedAt;
      ghost var open := set j | j in futures && cache.Snap().At(j) == None;
      ghost var wrong := set j | j in futures && Wrong(j);
      asked, known := PrefetchKnownOn(open, wrong);
    }

    /** So many frames from the position on are cached or asked for; fewer than ten only past the frames known of. */
    ghost predicate AskedKnown(asked: nat, known: nat)
      requires Valid()
      reads Repr()
    {
      && asked <= 10
      && (forall i :: frameno <= i < frameno + asked ==> i in futures || cache.Snap().At(i).Some?)
      && (asked < 10 ==> files.KnownOf(known) && known < frameno + asked)
    }

    method PrefetchKnownOn(ghost open: set<nat>, ghost wrong: set<nat>) returns (ghost asked: nat, ghost known: nat)
      requires Valid() && Fates(0, open, wrong)
      modifies Repr() - {cache}
      ensures Valid() && frameno == old(frameno) && stale == old(stale)
      ensures old(top) <= top && (top == old(top) || top <= frameno + PREFETCH)
      ensures forall i :: i in futures ==> i in old(futures) || frameno <= i < frameno + PREFETCH
      ensures cache.Snap().At(frameno) == None ==> AskedAt(frameno) <= old(top)
      ensures AskedKnown(asked, known)
      ensures old(Forward()) ==> Forward()
      ensures Fates(0, open, wrong)
    {
      hide Valid, Forward, Ahead, Wrong, OnlyPastEnd, Goal, AskedAt, Fates, FileGroup.KnownOf;
      AheadForward(frameno);
      AskedSoFar();
      asked, known := PREFETCH, 0;
      for k := 0 to PREFETCH
        invariant forall i :: i in futures ==> i in old(futures) || frameno <= i < frameno + k
        invariant Valid() && frameno == old(frameno) && stale == old(stale)
        invariant old(top) <= top && (top == old(top) || top <= frameno + k)
        invariant cache.Snap().At(frameno) == None ==> AskedAt(frameno) <= old(top) && (k > 0 ==> frameno in futures)
        invariant old(Forward()) ==> Ahead(frameno + k)
        invariant Fates(0, open, wrong)
        invariant asked == PREFETCH
        invariant forall i :: frameno <= i < frameno + k ==> i in futures || cache.Snap().At(i).Some?
      {
        var stop;
        stop, known := PrefetchUnlessFar(frameno + k, open, wrong);
        if stop {
          asked := k;
          AheadForward(frameno + k);
          break;
        }
      }
      AheadForward(frameno + PREFETCH);
    }

    lemma AskedSoFar()
      requires Valid()
      ensures forall i :: AskedAt(i) <= top
    {
      hide Sound, FuturesRight, CacheRight, Settled, FileGroup.Valid;
      AskedBefore(Tasks(), Contents(), futures);
    }

    method PrefetchUnlessFar(i: nat, ghost open: set<nat>, ghost wrong: set<nat>)
      returns (stop: bool, ghost far: nat)
      requires Valid() && frameno <= i && Fates(0, open, wrong)
      modifies Repr() - {cache}
      ensures Valid() && frameno == old(frameno) && stale == old(stale)
      ensures old(top) <= top && (top == old(top) || top <= i + 1)
      ensures futures.Keys == old(futures).Keys + if stop || cache.Snap().At(i).Some? then {} else {i}
      ensures forall j :: j in old(futures) ==> AskedAt(j) == old(AskedAt(j))
      ensures cache.Snap().At(i) == None ==> AskedAt(i) == old(AskedAt(i))
      ensures old(Ahead(i)) ==> if stop then Ahead(i) else Ahead(i + 1)
      ensures stop ==> files.KnownOf(far) && far < i
      ensures Fates(0, open, wrong)
    {
      hide Valid, Ahead, Wrong, OnlyPastEnd, Goal, ShortSeek, After, FileGroup.KnownOf;
      var known := KnownSize(i);
      stop, far := i > known, known;
      if !stop {
        Prefetch(i);
      }
    }

    /** The worker takes any number of steps, and no outcome changes. */
    method Elapse(ghost limit: nat)
      requires Valid()
      modifies `queue, `running, `done, `late, files, set f | f in files.files
      ensures Valid() && SameFate(0) && Goal() == old(Goal())
      ensures old(Ahead(limit)) ==> Ahead(limit)
      ensures old(OnlyPastEnd()) ==> OnlyPastEnd()
    {
      hide Sound, Ordered, Known, Right, FuturesRight, CacheRight, Behind, Settled, Covered, Fated, Ending, Later, Flat,
           Steps, Spent, FileGroup.Valid;
      ghost var b, m := Tasks(), 0;
      m := Worker();
      WaitedAfter(b, Contents(), m);
      LaterSame(b, Tasks());
    }

    /** Ask the files how many frames are known of. */
    method KnownSize(ghost limit: nat) returns (n: nat)
      requires Valid()
      modifies `queue, `running, `done, `late, files, set f | f in files.files
      ensures Valid() && files.KnownOf(n)
      ensures old(Ahead(limit)) ==> Ahead(limit)
      ensures SameFate(0)
    {
      hide Goal, OnlyPastEnd, Flat, Sound, FuturesRight, CacheRight, Settled, Ordered, Covered, Behind, Fated,
           FileGroup.Valid, FileGroup.KnownOf;
      Elapse(limit);
      n := files.GetCurSize();
    }

    constructor (contents: seq<seq<Frame>>, size: nat)
      ensures Valid() && Contents() == contents && frameno == 0 && top == 10 && cache.maxSize == size
      ensures fresh(Repr()) && cache.Snap() == CacheWindow(0, []) && stale == {}
      ensures UnderWay() && forall i: nat :: i in futures <==> i < 10
      ensures size > 0 ==> Forward()
    {
      hide Sound, Ordered, Known, FuturesRight, CacheRight, Behind, Right, Settled, Covered, Flat, FileGroup.Valid,
           AskedAt, UnderWay, Wrong, OnlyPastEnd;
      files := new FileGroup(contents);
      cache := new FrameCache(size);
      queue, running, done, nextId, futures, frameno := [], None, map[], 0, map[], 0;
      job, asked, late, top, stale := map[], map[], {}, 0, {};
      new;
      assert Tasks() == Fresh(contents);
      NothingYet(contents);
      PrefetchFirst();
    }

    /** The first fetches. */
    method PrefetchFirst()
      requires Valid() && frameno == 0 && cache.Snap() == CacheWindow(0, []) && futures == map[] && top == 0
      modifies Repr() - {cache}
      ensures Valid() && frameno == 0 && top == PREFETCH && stale == old(stale)
      ensures UnderWay() && forall i: nat :: i in futures <==> i < PREFETCH
      ensures old(Ahead(0)) ==> Forward()
    {
      hide Valid, Ahead, Forward, Wrong, OnlyPastEnd, SameFate, Goal, ShortSeek, After;
      for i := 0 to PREFETCH
        invariant Valid() && frameno == 0 && top == i && stale == old(stale) && (old(Ahead(0)) ==> Ahead(i))
        invariant forall j: nat :: j in futures <==> j < i
      {
        Prefetch(i);
      }
      AheadForward(PREFETCH);
    }

    /** Wait for the future of the position, and give it up. */
    method FromFuture() returns (fr: Option<Frame>, ghost short: bool)
      requires Valid() && frameno in futures
      modifies Repr() - {cache}
      ensures Valid() && frameno == old(frameno) && top == old(top) && stale == old(stale) && frameno < files.high
      ensures Kept(Contents(), short, frameno, fr, files.high) && futures == old(futures) - {frameno}
      ensures short ==> !Sure(Contents(), frameno, old(AskedAt(frameno)))
      ensures short <==> old(Fated(Tasks(), Contents(), futures[frameno]))
      ensures forall j :: j in futures ==>
                (Fated(Tasks(), Contents(), futures[j]) <==> old(Fated(Tasks(), Contents(), futures[j])))
      ensures old(Ordered(Tasks(), Contents())) ==> Ordered(Tasks(), Contents()) && !short
    {
      hide Sound, CacheRight, Sure, Flat, Steps, Fated, FileGroup.Valid, FuturesRight, Settled, Ordered, Known, Later,
           Kept;
      ghost var b, id, n := Tasks(), futures[frameno], 0;
      Expected(b, futures, frameno);
      fr, n := Await(futures[frameno]);
      WaitedAfter(b, Contents(), n);
      DoneRight(Tasks(), Contents(), id, frameno);
      FatedDone(Tasks(), Contents(), id);
      LaterSame(b, Tasks());
      short := id in late;
      NeverLate(Tasks(), Contents());
      GivenUp(futures, Tasks(), frameno);
      futures := futures - {frameno};
    }

    /** Queue a read at the position, and wait for it. */
    method FromFile() returns (fr: Option<Frame>, ghost short: bool)
      requires Valid()
      modifies Repr() - {cache}
      ensures Valid() && frameno == old(frameno) && stale == old(stale) && frameno < files.high
      ensures top == if frameno < old(top) then old(top) else frameno + 1
      ensures Kept(Contents(), short, frameno, fr, files.high) && futures == old(futures)
      ensures old(Ordered(Tasks(), Contents())) && (old(top) <= frameno || |Whole()| <= frameno) ==>
                Ordered(Tasks(), Contents()) && !short
      ensures forall j :: j in futures ==>
                (Fated(Tasks(), Contents(), futures[j]) <==> old(Fated(Tasks(), Contents(), futures[j])))
    {
      hide Sound, CacheRight, Sure, Flat, Steps, Fated, FileGroup.Valid, FuturesRight, Ordered, Known, Later, Kept;
      ghost var b, m, n := Tasks(), 0, 0;
      AskedBefore(b, Contents(), futures);
      var id;
      id, m := Push(None);
      PushedHere(b, Contents(), m);
      ghost var c := Tasks();
      fr, n := Await(id);
      WaitedAfter(c, Contents(), n);
      LaterSame(c, Tasks());
      NeverLate(Tasks(), Contents());
      DoneRight(Tasks(), Contents(), id, frameno);
      NewestDone(Tasks(), Contents());
      short := id in late;
    }

    /** The frame at the position: from the cache, from its future, or by a read of its own. */
    method Current() returns (fr: Option<Frame>, ghost short: bool)
      requires Valid()
      modifies Repr()
      ensures Valid() && frameno == old(frameno)
      ensures old(top) <= top && (top == old(top) || top <= frameno + 1)
      ensures Right(Whole(), short, frameno, fr) && (short ==> !Sure(Contents(), frameno, old(top)))
      ensures short && old(cache.Snap()).At(frameno) == None ==> !Sure(Contents(), frameno, old(AskedAt(frameno)))
      ensures futures == if old(cache.Snap()).At(frameno).Some? then old(futures) else old(futures) - {frameno}
      ensures old(cache.Snap()).At(frameno).Some? || fr == None ==>
                cache.Snap() == old(cache.Snap()) && stale == old(stale)
      ensures old(cache.Snap()).At(frameno).Some? ==>
                fr == old(cache.Snap()).At(frameno) && (short <==> old(frameno in stale))
      ensures fr.Some? && cache.maxSize > 0 ==> cache.Snap().At(frameno) == fr && (frameno in stale <==> short)
      ensures forall i: nat :: i != frameno && cache.Snap().At(i).Some? ==>
                old(cache.Snap()).At(i) == cache.Snap().At(i)
      ensures forall i: nat | i != frameno && frameno < i + cache.maxSize && i < frameno + cache.maxSize ::
                old(cache.Snap()).At(i).Some? ==> cache.Snap().At(i) == old(cache.Snap()).At(i)
      ensures fr == None ==> frameno < files.high
      ensures frameno in old(futures) && old(cache.Snap()).At(frameno) == None ==> (short <==> old(Wrong(frameno)))
      ensures SameFate(frameno + 1)
      ensures old(Forward()) ==> Forward() && !short
    {
      hide Sound, Ordered, Known, Right, Later, FuturesRight, CacheRight, Settled, Covered, Behind, Sure, Flat, Fated,
           FileGroup.Valid;
      BoardHigh(Tasks(), Contents());
      fr := cache.Get(frameno);
      if fr == None {
        ghost var f, before := futures, top;
        if frameno in futures {
          fr, short := FromFuture();
        } else {
          OwnRead(futures, cache.Snap(), frameno, top, |Whole()|);
          fr, short := FromFile();
        }
        BoardHigh(Tasks(), Contents());
        LateNotSure(Contents(), frameno, short, files.high, before);
        Keep(fr, short, old(Forward()), f, before);
      } else {
        short := frameno in stale;
        CachedKept(cache.Snap(), Contents(), stale, files.high, frameno);
        SureLess(Contents(), frameno, files.high, top);
      }
    }

    /** Put what came for the position in the cache. */
    method Keep(fr: Option<Frame>, ghost short: bool, ghost forward: bool, ghost f: map<nat, nat>, ghost before: nat)
      requires Valid() && Kept(Contents(), short, frameno, fr, files.high) && futures == f - {frameno}
      requires forward ==>
                 && Ordered(Tasks(), Contents()) && cache.maxSize > 0 && Behind(cache.Snap(), frameno) && stale == {}
                 && Covered(f, cache.Snap(), frameno, before, |Whole()|) && !short
                 && (top == before || top == frameno + 1)
      modifies cache, `stale
      ensures Valid() && Right(Whole(), short, frameno, fr)
      ensures Tasks() == old(Tasks())
      ensures fr == None ==> cache.Snap() == old(cache.Snap()) && stale == old(stale)
      ensures fr.Some? && cache.maxSize > 0 ==> cache.Snap().At(frameno) == fr && (frameno in stale <==> short)
      ensures forall i: nat :: i != frameno && cache.Snap().At(i).Some? ==>
                old(cache.Snap()).At(i) == cache.Snap().At(i)
      ensures forall i: nat | i != frameno && frameno < i + cache.maxSize && i < frameno + cache.maxSize ::
                old(cache.Snap()).At(i).Some? ==> cache.Snap().At(i) == old(cache.Snap()).At(i)
      ensures forward ==> Forward()
    {
      hide Sound, Known, Right, Later, AddTo, FuturesRight, CacheRight, Settled, Ordered, Sure, Flat, FileGroup.Valid;
      ghost var w := cache.Snap();
      Present(Whole(), short, frameno, fr);
      if forward {
        Arrived(f, w, frameno, before, |Whole()|, fr, cache.maxSize);
      }
      if fr.Some? {
        AddedRight(w, Contents(), stale, frameno, fr, short, files.high, cache.maxSize);
        forall i: nat {
          AddToSlots(w, frameno, fr, cache.maxSize, i);
        }
        forall i: nat {
          AddToKeeps(w, frameno, fr, cache.maxSize, i);
        }
        cache.Add(frameno, fr);
        stale := if short then stale + {frameno} else stale - {frameno};
      }
    }

    /** Is there a frame at the position? After a run that never went back a no means that all files are read. */
    method More() returns (r: bool)
      requires Valid()
      modifies Repr()
      ensures Valid() && frameno == old(frameno)
      ensures old(top) <= top && (top == old(top) || top <= frameno + 1)
      ensures r <==> frameno < |Whole()|
      ensures !r ==> cache.Snap() == old(cache.Snap()) && stale == old(stale)
      ensures r && cache.maxSize > 0 ==>
                && cache.Snap().At(frameno).Some?
                && (frameno in stale ==> if old(cache.Snap()).At(frameno) == None
                                         then !Sure(Contents(), frameno, old(AskedAt(frameno)))
                                         else old(frameno in stale))
      ensures old(cache.Snap()).At(frameno).Some? ==> (frameno in stale <==> old(frameno in stale))
      ensures r && cache.maxSize > 0 && frameno in old(futures) && old(cache.Snap()).At(frameno) == None ==>
                (frameno in stale <==> old(Wrong(frameno)))
      ensures forall i: nat :: i != frameno && cache.Snap().At(i).Some? ==>
                old(cache.Snap()).At(i) == cache.Snap().At(i)
      ensures forall i: nat | i != frameno && frameno < i + cache.maxSize && i < frameno + cache.maxSize ::
                old(cache.Snap()).At(i).Some? ==> cache.Snap().At(i) == old(cache.Snap()).At(i)
      ensures old(Forward()) ==> Forward() && (!r ==> OnlyPastEnd())
    {
      hide Valid, Forward, Right, Wrong, OnlyPastEnd, Flat, Sure, AskedAt;
      ghost var short;
      var fr;
      fr, short := Current();
      Present(Whole(), short, frameno, fr);
      r := fr.Some?;
      if !r {
        AllIsRead();
      }
    }

    lemma AllIsRead()
      requires Valid()
      ensures Forward() && |Whole()| < files.high ==> OnlyPastEnd()
    {
      hide Sound, Ordered, Spent, Flat, Settled, FuturesRight, CacheRight, Covered, Behind;
      if Forward() && |Whole()| < files.high {
        OrderedSpent(Tasks(), Contents());
      }
    }

    /** Move the position. */
    method Move(to: nat)
      requires Valid()
      modifies `frameno
      ensures Valid() && frameno == to
      ensures old(Forward()) && old(frameno) <= to ==> Forward()
      ensures SameFate(0) && Goal() == old(Goal())
      ensures old(OnlyPastEnd()) ==> OnlyPastEnd()
    {
      hide Sound, Ordered, Known, FuturesRight, CacheRight, Right, Fated, Ending, Spent, Flat, FileGroup.Valid;
      ghost var b := Tasks();
      MovedSound(b, Contents(), to);
      MovedKeeps(b, Contents(), to, futures);
      if Ordered(b, Contents()) {
        MovedOrdered(b, Contents(), to);
      }
      forall id: nat ensures Fated(b.(frameno := to), Contents(), id) <==> Fated(b, Contents(), id) {
        MovedFated(b, Contents(), to, id);
      }
      MovedFated(b, Contents(), to, 0);
      MovedSpent(b, Contents(), to);
      frameno := to;
      assert Tasks() == b.(frameno := to);
    }

    /** The frame at the position, in terms of what was asked for at some time before. */
    method Look(ghost limit: nat) returns (fr: Option<Frame>, ghost short: bool)
      requires Valid() && (top == limit || limit <= top <= frameno)
      modifies Repr()
      ensures Valid() && frameno == old(frameno) && limit <= top && (top == limit || top <= frameno + 1)
      ensures if frameno < |Whole()| then fr == Some(Seen(Whole(), if short then {frameno} else {}, frameno))
              else fr == None
      ensures short ==> frameno < |Whole()| && !Sure(Contents(), frameno, limit)
      ensures old(cache.Snap()).At(frameno).Some? ==> fr.Some? && (short <==> old(frameno in stale))
      ensures fr.Some? && cache.maxSize > 0 ==> cache.Snap().At(frameno) == fr
      ensures forall i: nat :: i != frameno && cache.Snap().At(i).Some? ==>
                old(cache.Snap()).At(i) == cache.Snap().At(i)
      ensures forall i: nat | i != frameno && frameno < i + cache.maxSize && i < frameno + cache.maxSize ::
                old(cache.Snap()).At(i).Some? ==> cache.Snap().At(i) == old(cache.Snap()).At(i)
      ensures fr == None ==> cache.Snap() == old(cache.Snap()) && stale == old(stale)
      ensures frameno in old(futures) && old(cache.Snap()).At(frameno) == None ==> (short <==> old(Wrong(frameno)))
      ensures SameFate(frameno + 1)
      ensures old(Forward()) ==> Forward() && !short
    {
      hide Valid, Forward, Wrong, OnlyPastEnd, UnderWay, Sure, Flat, AskedAt;
      ghost var before := top;
      fr, short := Current();
      LateNotSure(Contents(), frameno, short, before, limit);
      PastIsSure(Contents(), frameno, limit);
    }

    /** Look, with the outcomes of what was asked for before. */
    method LookOn(ghost limit: nat, ghost open: set<nat>, ghost wrong: set<nat>)
      returns (fr: Option<Frame>, ghost short: bool)
      requires Valid() && (top == limit || limit <= top <= frameno) && Fates(frameno, open, wrong)
      modifies Repr()
      ensures Valid() && frameno == old(frameno) && limit <= top && (top == limit || top <= frameno + 1)
      ensures if frameno < |Whole()| then fr == Some(Seen(Whole(), if short then {frameno} else {}, frameno))
              else fr == None
      ensures short ==> frameno < |Whole()| && !Sure(Contents(), frameno, limit)
      ensures old(cache.Snap()).At(frameno).Some? ==> fr.Some? && (short <==> old(frameno in stale))
      ensures fr.Some? && cache.maxSize > 0 ==> cache.Snap().At(frameno) == fr
      ensures CacheBetween(old(cache.Snap()), cache.Snap(), frameno, frameno + 1, cache.maxSize)
      ensures fr == None ==> cache.Snap() == old(cache.Snap()) && stale == old(stale)
      ensures Fates(frameno + 1, open, wrong) && (frameno in open ==> (short <==> frameno in wrong))
      ensures old(Forward()) ==> Forward() && !short
    {
      hide Valid, Forward, Wrong, OnlyPastEnd, UnderWay, Sure, Flat, AskedAt;
      fr, short := Look(limit);
    }

    /** Move on, with the same outcomes. */
    method MoveOn(to: nat, ghost open: set<nat>, ghost wrong: set<nat>)
      requires Valid() && frameno <= to && Fates(to, open, wrong)
      modifies `frameno
      ensures Valid() && frameno == to && Fates(to, open, wrong)
      ensures old(Forward()) ==> Forward()
    {
      hide Valid, Forward, Wrong, OnlyPastEnd, Goal;
      Move(to);
    }

    /**
     * The next frame of a stream at or after the position; having none is
     * fatal. `short` has the indices whose fetches were short, where the frame
     * before was seen: none of them is sure, and there are none in a run that
     * never went back.
     */
    method Pop(s: char) returns (r: Option<Frame>, ghost short: set<nat>)
      requires Valid()
      modifies Repr()
      ensures Valid() && frameno >= old(frameno)
      ensures forall i :: i in short ==> old(frameno) <= i < |Whole()| && !Sure(Contents(), i, old(top))
      ensures r.Some? ==>
                && old(frameno) < frameno <= |Whole()| && (s != 'N' ==> r.value.stop == s)
                && r.value == if frameno - 1 in short && frameno > 1 then Whole()[frameno - 2] else Whole()[frameno - 1]
      ensures s != 'N' ==>
                forall i :: old(frameno) <= i < (if r.Some? then frameno - 1 else |Whole()|) ==>
                  i < |Whole()| && Seen(Whole(), short, i).stop != s
      ensures s == 'N' ==> (r.Some? <==> old(frameno) < |Whole()|) && (r.Some? ==> frameno == old(frameno) + 1)
      ensures if r.Some? then UnderWay() else |Whole()| <= frameno
      ensures r.Some? && cache.maxSize > 0 ==> cache.Snap().At(frameno - 1).Some?
      ensures forall i: nat :: !(old(frameno) <= i < frameno) && cache.Snap().At(i).Some? ==>
                old(cache.Snap()).At(i) == cache.Snap().At(i)
      ensures forall i: nat | !(old(frameno) <= i < frameno) && frameno <= i + cache.maxSize
                              && i < old(frameno) + cache.maxSize ::
                old(cache.Snap()).At(i).Some? ==> cache.Snap().At(i) == old(cache.Snap()).At(i)
      ensures old(cache.Snap()).At(old(frameno)).Some? ==> (old(frameno) in short <==> old(frameno in stale))
      ensures old(top) <= top && (top == old(top) || top <= frameno + PREFETCH)
      ensures forall i :: old(frameno) <= i < frameno && i in old(futures) && old(cache.Snap()).At(i) == None ==>
                (i in short <==> old(Wrong(i)))
      ensures SameFate(if r.Some? then frameno else frameno + 1)
      ensures old(Forward()) ==> Forward() && short == {}
    {
      hide Valid, Forward, Wrong, OnlyPastEnd, UnderWay, Sure, Flat, Goal;
      ghost var open := set j | j in futures && cache.Snap().At(j) == None;
      ghost var wrong := set j | j in futures && Wrong(j);
      r, short := PopOn(s, open, wrong);
    }

    /** Pop, with the outcomes of what was asked for before. */
    method PopOn(s: char, ghost open: set<nat>, ghost wrong: set<nat>) returns (r: Option<Frame>, ghost short: set<nat>)
      requires Valid() && Fates(frameno, open, wrong)
      modifies Repr()
      ensures Valid() && frameno >= old(frameno)
      ensures Outcomes(Contents(), short, old(frameno), if r.Some? then frameno else |Whole()|, old(top), open, wrong)
      ensures r.Some? ==>
                && old(frameno) < frameno <= |Whole()|
                && r.value == Seen(Whole(), short, frameno - 1) && Matches(r.value, s)
      ensures Passed(Whole(), short, old(frameno), if r.Some? then frameno - 1 else |Whole()|, s)
      ensures s == NONE_STREAM ==> (r.Some? <==> old(frameno) < |Whole()|) && frameno <= old(frameno) + 1
      ensures r.Some? ==> UnderWay()
      ensures r == None ==> |Whole()| <= frameno && (frameno == old(frameno) || frameno == |Whole()|)
      ensures r.Some? && cache.maxSize > 0 ==> cache.Snap().At(frameno - 1).Some?
      ensures CacheBetween(old(cache.Snap()), cache.Snap(), old(frameno), frameno, cache.maxSize)
      ensures old(cache.Snap()).At(old(frameno)).Some? ==> (old(frameno) in short <==> old(frameno in stale))
      ensures old(top) <= top && (top == old(top) || top <= frameno + PREFETCH)
      ensures Fates(if r.Some? then frameno else frameno + 1, open, wrong)
      ensures old(Forward()) ==> Forward() && short == {}
    {
      hide Valid, Forward, Wrong, OnlyPastEnd, UnderWay, Sure, Flat, Goal, SameFate, Fates, Passed, Outcomes, Seen,
           CacheBetween;
      short := {};
      CacheSame(cache.Snap(), frameno, cache.maxSize);
      NoneYet(Contents(), frameno, top, open, wrong, s);
      while true
        invariant Valid() && old(frameno) <= frameno && (frameno == old(frameno) || frameno <= |Whole()|)
        invariant old(top) <= top && (top == old(top) || top <= frameno)
        invariant Outcomes(Contents(), short, old(frameno), frameno, old(top), open, wrong)
        invariant Passed(Whole(), short, old(frameno), frameno, s)
        invariant s == NONE_STREAM ==> frameno == old(frameno)
        invariant CacheBetween(old(cache.Snap()), cache.Snap(), old(frameno), frameno, cache.maxSize)
        invariant frameno == old(frameno) ==> stale == old(stale) && cache.Snap() == old(cache.Snap())
        invariant frameno > old(frameno) && old(cache.Snap()).At(old(frameno)).Some? ==>
                    (old(frameno) in short <==> old(frameno in stale))
        invariant Fates(frameno, open, wrong)
        invariant old(Forward()) ==> Forward() && short == {}
        decreases |Whole()| - frameno
      {
        ghost var more, w := false, cache.Snap();
        r, more := LookOn(old(top), open, wrong);
        if r == None {
          PassedAll(Contents(), short, old(frameno), frameno, old(top), open, wrong, s);
          return;
        }
        CacheNext(old(cache.Snap()), w, cache.Snap(), old(frameno), frameno, cache.maxSize);
        NextSeen(Contents(), short, more, old(frameno), frameno, old(top), open, wrong, s);
        short := if more then short + {frameno} else short;
        MoveOn(frameno + 1, open, wrong);
        if s == NONE_STREAM || r.value.stop == s {
          break;
        }
      }
      PrefetchFrom(open, wrong);
    }

    /** Prefetch, with the outcomes of what was asked for from the position on. */
    method PrefetchFrom(ghost open: set<nat>, ghost wrong: set<nat>)
      requires Valid() && Fates(frameno, open, wrong)
      modifies Repr() - {cache}
      ensures Valid() && frameno == old(frameno) && stale == old(stale) && Fates(frameno, open, wrong)
      ensures old(top) <= top && (top == old(top) || top <= frameno + PREFETCH)
      ensures UnderWay()
      ensures old(Forward()) ==> Forward()
    {
      hide Valid, Forward, Wrong, OnlyPastEnd, Goal, UnderWay, Swept, AllRead;
      PrefetchAll();
    }

    /** Seeking forward keeps a run that never went back. */
    method Seek(number: nat) returns (ghost asked: nat, ghost known: nat)
      requires Valid()
      modifies Repr() - {cache}
      ensures Valid() && frameno == number && stale == old(stale)
      ensures old(top) <= top && (top == old(top) || top <= number + PREFETCH)
      ensures forall i :: i in futures ==> i in old(futures) || number <= i < number + PREFETCH
      ensures cache.Snap().At(number) == None ==> AskedAt(number) <= old(top)
      ensures AskedKnown(asked, known)
      ensures old(Forward()) && old(frameno) <= number ==> Forward()
      ensures SameFate(0)
    {
      hide Forward, Valid, Wrong, OnlyPastEnd, AskedAt, Goal, AskedKnown;
      Move(number);
      asked, known := PrefetchKnown();
    }

    /**
     * Back to the start. If all files are read and nothing else is pending, a
     * frame fetched anew will be seen wrong exactly if a frame before it in its
     * file is in the cache, and so is not fetched.
     */
    method Rewind()
      requires Valid()
      modifies Repr() - {cache}
      ensures Valid() && frameno == 0 && stale == old(stale)
      ensures old(top) <= top && (top == old(top) || top <= PREFETCH)
      ensures UnderWay() && forall i: nat :: i in futures ==> i < PREFETCH
      ensures old(OnlyPastEnd()) ==> SkipsDecide(PREFETCH)
    {
      hide Valid, Wrong, OnlyPastEnd, UnderWay, Goal, AllRead, SameFate, Swept, SkipsDecide, Forward;
      Restart();
      PrefetchAll();
      SweptMeans(PREFETCH);
    }

    /** The queue dropped, the position at the start. */
    method Restart()
      requires Valid()
      modifies Repr() - {cache}
      ensures Valid() && futures == map[] && queue == [] && frameno == 0 && top == old(top) && stale == old(stale)
      ensures old(OnlyPastEnd()) ==> AllRead(Contents(), Goal())
    {
      hide Valid, Wrong, OnlyPastEnd, Goal, AllRead, SameFate, Forward;
      Clear();
      Move(0);
    }

    lemma SweptMeans(limit: nat)
      requires Valid()
      ensures Swept(limit) ==> SkipsDecide(limit)
    {
    }

    /** Drop the queue and the futures, after any steps of the worker; the task it has taken still runs. */
    method Clear()
      requires Valid()
      modifies `queue, `running, `done, `late, `futures, files, set f | f in files.files
      ensures Valid() && futures == map[] && queue == []
      ensures old(OnlyPastEnd()) ==> AllRead(Contents(), Goal())
    {
      hide Sound, Known, Right, CacheRight, Ending, Spent, Flat, AllRead, Ahead, SameFate, FileGroup.Valid;
      Elapse(0);
      ghost var b, n := Tasks(), if running.Some? then 1 else 0;
      queue := [];
      futures := map[];
      assert Tasks() == b.(pending := b.pending[..n]);
      ClearedSound(b, Contents(), n);
      ClearedSpent(b, Contents(), n);
    }

    /** The frame at an index, by seek, more and pop; it may be the one before only if the index is not sure. */
    method Index(number: nat) returns (r: Option<Frame>, ghost short: bool)
      requires Valid()
      modifies Repr()
      ensures Valid() && Right(Whole(), short, number, r)
      ensures frameno == if r.Some? then number + 1 else number
      ensures old(top) <= top && (top == old(top) || top <= number + 1 + PREFETCH)
      ensures short && cache.maxSize > 0 ==> !Sure(Contents(), number, old(top))
      ensures r.Some? && cache.maxSize > 0 && old(cache.Snap()).At(number).Some? ==> (short <==> old(number in stale))
      ensures r.Some? && cache.maxSize > 0 && old(cache.Snap()).At(number) == None && number in old(futures) ==>
                (short <==> old(Wrong(number)))
      ensures r.Some? && cache.maxSize > 0 ==> cache.Snap().At(number).Some?
      ensures forall i: nat :: i != number && cache.Snap().At(i).Some? ==> old(cache.Snap()).At(i) == cache.Snap().At(i)
      ensures forall i: nat | i != number && number < i + cache.maxSize && i < number + cache.maxSize ::
                old(cache.Snap()).At(i).Some? ==> cache.Snap().At(i) == old(cache.Snap()).At(i)
      ensures old(Forward()) && old(frameno) <= number ==> Forward() && !short
    {
      hide Forward, Valid, Wrong, OnlyPastEnd, Sure, Flat, AskedAt;
      short := false;
      StaleNotSure(number);
      FirstIsSure(Contents(), top);
      ghost var asked, known := Seek(number);
      if cache.Snap().At(number) == None {
        SureLess(Contents(), number, AskedAt(number), old(top));
      }
      var more := More();
      if !more {
        return None, short;
      }
      FirstIsSure(Contents(), top);
      ghost var late;
      r, late := Pop(NONE_STREAM);
      short := number in late;
    }

    lemma StaleNotSure(i: nat)
      requires Valid()
      ensures cache.Snap().At(i).Some? && i in stale ==> !Sure(Contents(), i, top)
    {
      hide Sound, Settled, FuturesRight, CacheRight, Right, Sure, Flat, FileGroup.Valid;
      BoardHigh(Tasks(), Contents());
      if cache.Snap().At(i).Some? {
        CachedKept(cache.Snap(), Contents(), stale, files.high, i);
        SureLess(Contents(), i, files.high, top);
      }
    }
  }

  // ----- runs -----

  /** One more than the largest index a run of lookups can have asked for: each prefetches past its own. */
  function AskedUpTo(numbers: seq<nat>): nat {
    if numbers == [] then PREFETCH
    else
      var before, last := AskedUpTo(numbers[..|numbers| - 1]), numbers[|numbers| - 1] + 1 + PREFETCH;
      if before < last then last else before
  }

  lemma {:induction false} AskedBelow(numbers: seq<nat>, limit: nat)
    requires PREFETCH <= limit && forall i :: 0 <= i < |numbers| ==> numbers[i] + 1 + PREFETCH <= limit
    ensures AskedUpTo(numbers) <= limit
  {
    if numbers != [] {
      AskedBelow(numbers[..|numbers| - 1], limit);
    }
  }

  /** A lookup in a file, with those before it and what they prefetch short of the file's end. */
  ghost predicate AwayFromEnd(contents: seq<seq<Frame>>, numbers: seq<nat>, i: nat, k: nat)
    requires i < |numbers|
  {
    && Lands(contents, numbers[i], k) && PREFETCH <= End(contents, k)
    && forall j :: 0 <= j < i ==> numbers[j] + 1 + PREFETCH <= End(contents, k)
  }

  /** Is what a lookup gives the frame at its index? */
  ghost predicate Exact(contents: seq<seq<Frame>>, number: nat, r: Option<Frame>) {
    r == if number < |Flat(contents)| then Some(Flat(contents)[number]) else None
  }

  /**
   * Lookups back and forth, under every interleaving: each gives the frame at
   * its index unless the lookups before it asked for an index at or past the
   * end of its file. So all do in a file whose end none of them comes near.
   */
  method BackAndForth(contents: seq<seq<Frame>>, size: nat, numbers: seq<nat>) returns (rs: seq<Option<Frame>>)
    requires size > 0
    ensures |rs| == |numbers|
    ensures forall i :: 0 <= i < |rs| ==>
              && (rs[i].Some? <==> numbers[i] < |Flat(contents)|)
              && (Sure(contents, numbers[i], AskedUpTo(numbers[..i])) ==> Exact(contents, numbers[i], rs[i]))
    ensures forall i, k: nat :: 0 <= i < |rs| && AwayFromEnd(contents, numbers, i, k) ==>
              Exact(contents, numbers[i], rs[i])
  {
    hide Flat, Start, FrameSequence.Valid, FrameSequence.Forward, FrameSequence.Wrong, FrameSequence.OnlyPastEnd, Sure,
         Exact, End, Right, FrameSequence.UnderWay;
    var s := new FrameSequence(contents, size);
    rs := [];
    for n := 0 to |numbers|
      invariant |rs| == n && s.Valid() && s.Contents() == contents && s.cache.maxSize == size
      invariant fresh(s.Repr()) && s.top <= AskedUpTo(numbers[..n])
      invariant forall i :: 0 <= i < n ==>
                  && (rs[i].Some? <==> numbers[i] < |Flat(contents)|)
                  && (Sure(contents, numbers[i], AskedUpTo(numbers[..i])) ==> Exact(contents, numbers[i], rs[i]))
    {
      ghost var before := s.top;
      assert numbers[..n + 1][..n] == numbers[..n];
      SureLess(contents, numbers[n], before, AskedUpTo(numbers[..n]));
      ghost var short;
      var r;
      r, short := s.Index(numbers[n]);
      RightExact(contents, numbers[n], short, r);
      rs := rs + [r];
    }
    forall i, k: nat | 0 <= i < |rs| && AwayFromEnd(contents, numbers, i, k) ensures Exact(contents, numbers[i], rs[i])
    {
      AskedBelow(numbers[..i], End(contents, k));
      SureHere(contents, numbers[i], k, AskedUpTo(numbers[..i]));
    }
  }

  lemma RightExact(contents: seq<seq<Frame>>, number: nat, short: bool, r: Option<Frame>)
    requires Right(Flat(contents), short, number, r)
    ensures r.Some? <==> number < |Flat(contents)|
    ensures !short ==> Exact(contents, number, r)
  {
  }

  lemma SureHere(contents: seq<seq<Frame>>, number: nat, k: nat, limit: nat)
    requires Lands(contents, number, k) && limit <= End(contents, k)
    ensures Sure(contents, number, limit)
  {
    Around(contents, number, k);
  }

  /**
   * A run that goes wrong under every interleaving, for any files whose first
   * has two frames: pop a frame, look past the end, rewind, and ask for the
   * second frame. The first frame comes out.
   */
  method RewindReadsWrong(contents: seq<seq<Frame>>) returns (r: Option<Frame>)
    requires contents != [] && |contents[0]| >= 2
    ensures |Flat(contents)| >= 2 && r == Some(Flat(contents)[0])
  {
    hide Flat, Start, FrameSequence.Valid, FrameSequence.Forward, FrameSequence.Wrong, FrameSequence.OnlyPastEnd, Sure,
         FrameSequence.Goal, FrameSequence.SameFate, AllRead, Skips, FrameSequence.AskedAt;
    NoneBeforeAllAfter(contents);
    Span(contents, 0);
    assert Lands(contents, 1, 0);
    var s := new FrameSequence(contents, 1000);
    ghost var late, short;
    var first, second;
    first, late := s.Pop(NONE_STREAM);
    ghost var asked, known := s.Seek(|Flat(contents)|);
    var more := s.More();
    s.Rewind();
    SkipsFirst(contents, s.cache.Snap());
    second, short := s.Index(1);
    r := second;
  }
}
