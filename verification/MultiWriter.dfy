/**
 * The writer that splits its output into files: a file past the size limit is
 * closed at a frame of the sync stream, and every new file starts with the
 * metadata frames seen so far.
 */
module MultiWriters {
  import opened Options
  import opened WriterBases

  /** A file: the frames copied from the metadata cache, then the frames of the stream. */
  datatype File = File(header: seq<StreamFrame>, body: seq<StreamFrame>)

  /** The files joined, without their headers. */
  function Joined(files: seq<File>): seq<StreamFrame> {
    if files == [] then [] else Joined(files[..|files| - 1]) + files[|files| - 1].body
  }

  /** Add frames at the end of the last file. */
  function Append(files: seq<File>, frames: seq<StreamFrame>): (r: seq<File>)
    requires files != []
    ensures |r| == |files|
  {
    var last := files[|files| - 1];
    files[..|files| - 1] + [last.(body := last.body + frames)]
  }

  datatype Writer = Writer(
    files: seq<File>,
    cache: seq<StreamFrame>,
    held: seq<StreamFrame>,
    configWritten: bool,
    syncSeen: bool)

  /** A new file is started at a sync frame, or anywhere while no sync frame has been seen. */
  predicate Splits(c: Config, w: Writer, f: StreamFrame, full: bool) {
    full && (f.stop == c.sync || !w.syncSeen)
  }

  /** One frame; `full` says whether the current file is over the size limit. */
  function Step(c: Config, w: Writer, f: StreamFrame, full: bool): Writer
    requires w.files != []
  {
    var g := Marked(c, !w.configWritten, f);
    var files := if Splits(c, w, f, full) then w.files + [File(w.cache, [])] else w.files;
    Writer(Append(files, Inserted(c, !w.configWritten, f) + Out(c, w.held, g)),
           if c.Metadata(f) then Put(w.cache, f) else w.cache,
           Held(c, w.held, g), true, w.syncSeen || f.stop == c.sync)
  }

  function Started(): Writer { Writer([File([], [])], [], [], false, false) }

  /** A run: the frames received, each with whether the file was full when it came. */
  function Run(c: Config, input: seq<(StreamFrame, bool)>): (w: Writer)
    ensures w.files != []
    decreases |input|
  {
    if input == [] then Started()
    else Step(c, Run(c, input[..|input| - 1]), input[|input| - 1].0, input[|input| - 1].1)
  }

  lemma RunSnoc(c: Config, input: seq<(StreamFrame, bool)>, f: StreamFrame, full: bool)
    ensures Run(c, input + [(f, full)]) == Step(c, Run(c, input), f, full)
  {
    assert (input + [(f, full)])[..|input|] == input;
  }

  lemma RunNone(c: Config)
    ensures Run(c, []) == Started()
  {
  }

  function Frames(input: seq<(StreamFrame, bool)>): seq<StreamFrame> {
    seq(|input|, i requires 0 <= i < |input| => input[i].0)
  }

  lemma JoinedAppend(files: seq<File>, frames: seq<StreamFrame>)
    requires files != []
    ensures Joined(Append(files, frames)) == Joined(files) + frames
  {
    var init, last := files[..|files| - 1], files[|files| - 1];
    assert Append(files, frames)[..|files| - 1] == init;
    assert Joined(init) + (last.body + frames) == Joined(init) + last.body + frames;
  }

  lemma AppendNothing(files: seq<File>)
    requires files != []
    ensures Append(files, []) == files
  {
    assert files[|files| - 1].body + [] == files[|files| - 1].body;
  }

  lemma AppendLast(files: seq<File>, frames: seq<StreamFrame>)
    requires files != []
    ensures var n, last := |files| - 1, files[|files| - 1];
            Append(files, frames)[n] == last.(body := last.body + frames) && Append(files, frames)[..n] == files[..n]
  {
  }

  lemma AppendTwice(files: seq<File>, a: seq<StreamFrame>, b: seq<StreamFrame>)
    requires files != []
    ensures Append(Append(files, a), b) == Append(files, a + b)
  {
    var last := files[|files| - 1].body;
    assert last + a + b == last + (a + b);
  }

  lemma JoinedNew(files: seq<File>, header: seq<StreamFrame>)
    ensures Joined(files + [File(header, [])]) == Joined(files)
  {
    assert (files + [File(header, [])])[..|files|] == files;
  }

  lemma JoinedOne(body: seq<StreamFrame>)
    ensures Joined([File([], body)]) == body
  {
    var none: seq<File> := [];
    assert [File([], body)][..0] == none && [] + body == body;
  }

  lemma AppendNew(files: seq<File>, header: seq<StreamFrame>, frames: seq<StreamFrame>)
    ensures Append(files + [File(header, [])], frames) == files + [File(header, frames)]
  {
    assert [] + frames == frames;
  }

  /**
   * Splitting loses, repeats and reorders nothing: the files joined without
   * their headers are what one file would hold.
   */
  lemma {:induction false} JoinedIsWritten(c: Config, input: seq<(StreamFrame, bool)>)
    ensures var w := Run(c, input);
            && Joined(w.files) == Written(c, Frames(input))
            && w.held == HeldAfter(c, [], MarkedAll(c, Frames(input)))
            && (w.configWritten <==> input != [])
    decreases |input|
  {
    hide Out, Held, Marked, Inserted, Written, HeldAfter, MarkedAll, Put, Joined, Splits;
    if input == [] {
      NothingWritten(c);
      JoinedOne([]);
    } else {
      var init, f, full := input[..|input| - 1], input[|input| - 1].0, input[|input| - 1].1;
      JoinedIsWritten(c, init);
      assert Frames(input) == Frames(init) + [f];
      WrittenSnoc(c, Frames(init), f);
      JoinedStep(c, Run(c, init), f, full);
    }
  }

  /** What a frame adds to the files joined. */
  lemma JoinedStep(c: Config, w: Writer, f: StreamFrame, full: bool)
    requires w.files != []
    ensures Joined(Step(c, w, f, full).files) ==
              Joined(w.files) + (Inserted(c, !w.configWritten, f) + Out(c, w.held, Marked(c, !w.configWritten, f)))
  {
    hide Out, Marked, Inserted, Joined, Append;
    var files := if Splits(c, w, f, full) then w.files + [File(w.cache, [])] else w.files;
    JoinedNew(w.files, w.cache);
    JoinedAppend(files, Inserted(c, !w.configWritten, f) + Out(c, w.held, Marked(c, !w.configWritten, f)));
  }

  lemma NothingWritten(c: Config)
    ensures Written(c, []) == [] && HeldAfter(c, [], MarkedAll(c, [])) == []
  {
  }

  // ----- when files are started -----

  predicate AnyOf(input: seq<(StreamFrame, bool)>, stream: char) {
    exists i :: 0 <= i < |input| && input[i].0.stop == stream
  }

  lemma {:induction false} SyncSeenIs(c: Config, input: seq<(StreamFrame, bool)>)
    ensures Run(c, input).syncSeen <==> AnyOf(input, c.sync)
    decreases |input|
  {
    hide Out, Held, Marked, Inserted, Put, Append;
    if input != [] {
      var init, last := input[..|input| - 1], input[|input| - 1];
      SyncSeenIs(c, init);
      if AnyOf(input, c.sync) && last.0.stop != c.sync {
        var i :| 0 <= i < |input| && input[i].0.stop == c.sync;
        assert init[i].0.stop == c.sync;
      }
    }
  }

  /**
   * A frame starts a file exactly if the current one is full and the frame is of
   * the sync stream or none of the sync stream came before. The new file starts
   * with what is cached; what the frame adds to the output goes to the new file,
   * or to the current one, and no other file changes.
   */
  lemma NewFileWhen(c: Config, input: seq<(StreamFrame, bool)>, f: StreamFrame, full: bool)
    ensures var w, files := Run(c, input), Run(c, input + [(f, full)]).files;
            var out, more, n := Written(c, Frames(input)), Written(c, Frames(input) + [f]), |w.files|;
            && out <= more
            && if full && (f.stop == c.sync || !AnyOf(input, c.sync))
               then files == w.files + [File(w.cache, more[|out|..])]
               else
                 && |files| == n && files[..n - 1] == w.files[..n - 1]
                 && files[n - 1] == w.files[n - 1].(body := w.files[n - 1].body + more[|out|..])
  {
    hide Run, Written, Append, Out, Held, Inserted, Marked, Put;
    var w := Run(c, input);
    RunSnoc(c, input, f, full);
    SyncSeenIs(c, input);
    JoinedIsWritten(c, input);
    WrittenSnoc(c, Frames(input), f);
    assert Frames(input) == [] <==> input == [];
    var add := Inserted(c, input == [], f) + Out(c, w.held, Marked(c, input == [], f));
    assert Written(c, Frames(input) + [f])[|Written(c, Frames(input))|..] == add;
    AppendNew(w.files, w.cache, add);
    AppendLast(w.files, add);
  }

  /** While no file is full there is one file. */
  lemma {:induction false} NeverFull(c: Config, input: seq<(StreamFrame, bool)>)
    requires forall i :: 0 <= i < |input| ==> !input[i].1
    ensures |Run(c, input).files| == 1
    decreases |input|
  {
    hide Run, Written;
    if input == [] {
      RunNone(c);
    } else {
      var init, last := input[..|input| - 1], input[|input| - 1];
      NeverFull(c, init);
      NewFileWhen(c, init, last.0, last.1);
      assert input == init + [last];
    }
  }

  /** Once a sync frame came, a file is kept through all other frames; the next sync frame closes it if it is full. */
  lemma {:induction false} ClosedAtSync(c: Config, input: seq<(StreamFrame, bool)>, rest: seq<(StreamFrame, bool)>,
                                        f: StreamFrame, full: bool)
    requires AnyOf(input, c.sync) && !AnyOf(rest, c.sync) && f.stop == c.sync
    ensures |Run(c, input + rest).files| == |Run(c, input).files|
    ensures |Run(c, input + rest + [(f, full)]).files| == |Run(c, input).files| + if full then 1 else 0
    decreases |rest|
  {
    hide Run, Written;
    if rest == [] {
      assert input + rest == input;
    } else {
      var init, last := rest[..|rest| - 1], rest[|rest| - 1];
      NoneOf(init, last, c.sync);
      assert rest == init + [last];
      ClosedAtSync(c, input, init, f, full);
      StillAny(input, init, c.sync);
      NewFileWhen(c, input + init, last.0, last.1);
      assert input + rest == input + init + [last];
    }
    StillAny(input, rest, c.sync);
    NewFileWhen(c, input + rest, f, full);
  }

  lemma StillAny(input: seq<(StreamFrame, bool)>, rest: seq<(StreamFrame, bool)>, stream: char)
    requires AnyOf(input, stream)
    ensures AnyOf(input + rest, stream)
  {
    var i :| 0 <= i < |input| && input[i].0.stop == stream;
    assert (input + rest)[i].0.stop == stream;
  }

  lemma NoneOf(init: seq<(StreamFrame, bool)>, last: (StreamFrame, bool), stream: char)
    ensures !AnyOf(init + [last], stream) ==> !AnyOf(init, stream) && last.0.stop != stream
  {
    if AnyOf(init, stream) { StillAny(init, [last], stream); }
    assert (init + [last])[|init|] == last;
  }

  /** A metadata frame that is written takes its place in the cache, as it came; others leave the cache alone. */
  lemma NextCached(c: Config, input: seq<(StreamFrame, bool)>, f: StreamFrame, full: bool)
    ensures var cache, next := Run(c, input).cache, Run(c, input + [(f, full)]).cache;
            if f.stop in c.metadata && (c.streams == [] || f.stop in c.streams) then Replaced(cache, next, f)
            else next == cache
  {
    hide Run, Out, Held, Inserted, Marked, Append, Put;
    RunSnoc(c, input, f, full);
    PutReplaced(Run(c, input).cache, f);
  }

  /** The cache has the last frame received, as it came, of each metadata stream that is written, and nothing else. */
  lemma {:induction false} CacheIs(c: Config, input: seq<(StreamFrame, bool)>, m: char)
    ensures var w := Run(c, input);
            && Distinct(w.cache)
            && Last(w.cache, m) == if m in c.metadata && (c.streams == [] || m in c.streams)
                                   then Last(Frames(input), m) else None
    decreases |input|
  {
    hide Out, Held, Marked, Inserted, Put, Append, Last, Distinct;
    if input == [] {
      RunNone(c);
      NoneDistinct();
      LastEmpty(m);
      assert Frames(input) == [];
    } else {
      var init, last := input[..|input| - 1], input[|input| - 1];
      CacheIs(c, init, m);
      assert Frames(input) == Frames(init) + [last.0];
      PutKeeps(Run(c, init).cache, last.0);
      PutLast(Run(c, init).cache, last.0, m);
      LastConcat(Frames(init), [last.0], m);
      LastOne(last.0, m);
    }
  }

  lemma NoneDistinct()
    ensures Distinct([])
  {
  }

  // ----- metadata -----

  /** A stream whose frames are written as they come, or never. */
  predicate AtOnce(c: Config, m: char) {
    !c.Writes(m) || (m !in c.orphanStreams && m != TRAY_INFO)
  }

  /** The last frame written of a stream that is not held back. */
  lemma WrittenLast(c: Config, first: bool, held: seq<StreamFrame>, f: StreamFrame, m: char)
    requires AtOnce(c, m) && Holds(c, held)
    ensures Last(Inserted(c, first, f) + Out(c, held, Marked(c, first, f)), m) ==
              if f.stop == m && c.Writes(m) then Some(f) else None
  {
    var g := Marked(c, first, f);
    LastNone(held, m);
    LastConcat(held, [g], m);
    LastConcat([], [g], m);
    LastNone(Inserted(c, first, f), m);
    LastConcat(Inserted(c, first, f), Out(c, held, g), m);
  }

  /** Every file starts with the last frame of the stream written before it. */
  ghost predicate Headed(files: seq<File>, m: char) {
    forall k :: 0 <= k < |files| ==> Last(files[k].header, m) == Last(Joined(files[..k]), m)
  }

  lemma HeadedAppend(files: seq<File>, frames: seq<StreamFrame>, m: char)
    requires files != [] && Headed(files, m)
    ensures Headed(Append(files, frames), m)
  {
    hide Joined, Last, TrayCopy;
    forall k | 0 <= k < |files| ensures Append(files, frames)[..k] == files[..k] {
    }
  }

  lemma HeadedNew(files: seq<File>, header: seq<StreamFrame>, m: char)
    requires Headed(files, m) && Last(header, m) == Last(Joined(files), m)
    ensures Headed(files + [File(header, [])], m)
  {
    hide Joined, Last, TrayCopy;
    var more := files + [File(header, [])];
    assert more[..|files|] == files;
    forall k | 0 <= k < |files| ensures more[..k] == files[..k] {
    }
  }

  ghost predicate Cached(c: Config, w: Writer, m: char) {
    && Distinct(w.cache) && Holds(c, w.held)
    && Headed(w.files, m) && Last(w.cache, m) == Last(Joined(w.files), m)
  }

  lemma CachedStep(c: Config, w: Writer, f: StreamFrame, full: bool, m: char)
    requires w.files != [] && m in c.metadata && AtOnce(c, m) && Cached(c, w, m)
    ensures Cached(c, Step(c, w, f, full), m)
  {
    hide Out, Held, Marked, Inserted, Put, Headed, Joined, Append, Distinct;
    var g := Marked(c, !w.configWritten, f);
    var files := if Splits(c, w, f, full) then w.files + [File(w.cache, [])] else w.files;
    var out := Inserted(c, !w.configWritten, f) + Out(c, w.held, g);
    HeadedNew(w.files, w.cache, m);
    JoinedNew(w.files, w.cache);
    HeadedAppend(files, out, m);
    JoinedAppend(files, out);
    LastConcat(Joined(files), out, m);
    WrittenLast(c, !w.configWritten, w.held, f, m);
    HeldHolds(c, w.held, g);
    PutKeeps(w.cache, f);
    PutLast(w.cache, f, m);
  }

  lemma {:induction false} CachedRun(c: Config, input: seq<(StreamFrame, bool)>, m: char)
    requires m in c.metadata && AtOnce(c, m)
    ensures Cached(c, Run(c, input), m)
    decreases |input|
  {
    if input != [] {
      CachedRun(c, input[..|input| - 1], m);
      CachedStep(c, Run(c, input[..|input| - 1]), input[|input| - 1].0, input[|input| - 1].1, m);
    } else {
      assert Started().files[..0] == [];
    }
  }

  // ----- the sync stream -----

  /**
   * Either no sync frame comes before a file, or the file has one before or at
   * every frame but those that were held back for the first sync frame.
   */
  ghost predicate SyncFile(c: Config, before: seq<StreamFrame>, file: File) {
    || (Last(before, c.sync) == None && Last(file.header, c.sync) == None)
    || (&& Last(file.body, c.sync).Some?
        && forall j :: 0 <= j < |file.body| && file.body[j].stop !in c.orphanStreams ==>
             Last(file.body[..j + 1], c.sync).Some?)
  }

  ghost predicate Synced(c: Config, files: seq<File>) {
    forall k :: 0 <= k < |files| ==> SyncFile(c, Joined(files[..k]), files[k])
  }

  lemma SyncFileAppend(c: Config, before: seq<StreamFrame>, file: File, out: seq<StreamFrame>)
    requires SyncFile(c, before, file)
    ensures SyncFile(c, before, file.(body := file.body + out))
  {
    var body := file.body + out;
    LastConcat(file.body, out, c.sync);
    forall j | 0 <= j < |body| && body[j].stop !in c.orphanStreams && Last(file.body, c.sync).Some?
      ensures j >= |file.body| ==> Last(body[..j + 1], c.sync).Some?
      ensures j < |file.body| ==> body[..j + 1] == file.body[..j + 1] && body[j] == file.body[j]
    {
      if j >= |file.body| {
        assert body[..j + 1] == file.body + out[..j + 1 - |file.body|];
        LastConcat(file.body, out[..j + 1 - |file.body|], c.sync);
      }
    }
  }

  lemma SyncedAppend(c: Config, files: seq<File>, out: seq<StreamFrame>)
    requires files != [] && Synced(c, files)
    ensures Synced(c, Append(files, out))
  {
    hide SyncFile, Joined;
    var n := |files| - 1;
    SyncFileAppend(c, Joined(files[..n]), files[n], out);
    forall k | 0 <= k < |files| ensures SyncFile(c, Joined(Append(files, out)[..k]), Append(files, out)[k]) {
      assert Append(files, out)[..k] == files[..k];
    }
  }

  lemma SyncedNew(c: Config, files: seq<File>, file: File)
    requires Synced(c, files) && SyncFile(c, Joined(files), file)
    ensures Synced(c, files + [file])
  {
    hide SyncFile, Joined;
    var more := files + [file];
    forall k | 0 <= k < |more| ensures SyncFile(c, Joined(more[..k]), more[k]) {
      assert more[..k] == files[..k];
      assert k == |files| ==> files[..k] == files;
    }
  }

  /** What the first frame of a file started at a sync frame writes. */
  lemma SyncFileStart(c: Config, before: seq<StreamFrame>, header: seq<StreamFrame>, held: seq<StreamFrame>,
                      f: StreamFrame)
    requires AtOnce(c, c.sync) && Holds(c, held) && c.Writes(c.sync) && f.stop == c.sync
    ensures SyncFile(c, before, File(header, Out(c, held, f)))
  {
    var out := Out(c, held, f);
    assert out[|out| - 1] == f;
    forall j | 0 <= j < |out| - 1 ensures out[j].stop in c.orphanStreams {
      assert out[j] == held[j];
    }
    assert out[..|out|] == out;
  }

  ghost predicate InSync(c: Config, w: Writer) {
    && Synced(c, w.files) && Distinct(w.cache) && Holds(c, w.held)
    && (w.configWritten || !w.syncSeen)
    && (!w.syncSeen || !c.Writes(c.sync) ==> Last(Joined(w.files), c.sync) == None && Last(w.cache, c.sync) == None)
  }

  lemma InSyncStep(c: Config, w: Writer, f: StreamFrame, full: bool)
    requires AtOnce(c, c.sync) && w.files != [] && InSync(c, w)
    ensures InSync(c, Step(c, w, f, full))
  {
    hide Out, Held, Put, Joined, Distinct, Synced, SyncFile, Inserted, Marked, Append, Holds, Last;
    var g := Marked(c, !w.configWritten, f);
    var out := Inserted(c, !w.configWritten, f) + Out(c, w.held, g);
    WrittenLast(c, !w.configWritten, w.held, f, c.sync);
    HeldHolds(c, w.held, g);
    PutKeeps(w.cache, f);
    PutLast(w.cache, f, c.sync);
    if Splits(c, w, f, full) {
      var file := File(w.cache, []);
      JoinedNew(w.files, w.cache);
      JoinedAppend(w.files + [file], out);
      LastConcat(Joined(w.files), out, c.sync);
      if !w.syncSeen || !c.Writes(c.sync) {
        NoSyncBefore(c, Joined(w.files), file.(body := out));
      } else {
        LaterOut(c, w.held, f);
        SyncFileStart(c, Joined(w.files), w.cache, w.held, f);
      }
      SyncedNew(c, w.files, file.(body := out));
      AppendNew(w.files, w.cache, out);
    } else {
      SyncedAppend(c, w.files, out);
      JoinedAppend(w.files, out);
      LastConcat(Joined(w.files), out, c.sync);
    }
  }

  lemma LaterOut(c: Config, held: seq<StreamFrame>, f: StreamFrame)
    ensures Inserted(c, false, f) + Out(c, held, Marked(c, false, f)) == Out(c, held, f)
  {
  }

  lemma NoSyncBefore(c: Config, before: seq<StreamFrame>, file: File)
    requires Last(before, c.sync) == None && Last(file.header, c.sync) == None
    ensures SyncFile(c, before, file)
  {
  }

  lemma {:induction false} InSyncRun(c: Config, input: seq<(StreamFrame, bool)>)
    requires AtOnce(c, c.sync)
    ensures InSync(c, Run(c, input))
    decreases |input|
  {
    if input != [] {
      InSyncRun(c, input[..|input| - 1]);
      InSyncStep(c, Run(c, input[..|input| - 1]), input[|input| - 1].0, input[|input| - 1].1);
    } else {
      assert Started().files[..0] == [] && Last([], c.sync) == None;
      JoinedNew([], []);
      assert Joined([]) == [];
    }
  }

  // ----- the context of a frame -----

  /** A file up to one of its frames, and the whole output up to the same frame. */
  function InFile(files: seq<File>, k: nat, j: nat): seq<StreamFrame>
    requires k < |files| && j < |files[k].body|
  {
    files[k].header + files[k].body[..j + 1]
  }

  function InOutput(files: seq<File>, k: nat, j: nat): seq<StreamFrame>
    requires k < |files| && j < |files[k].body|
  {
    Joined(files[..k]) + files[k].body[..j + 1]
  }

  lemma {:induction false} OutputPrefix(files: seq<File>, k: nat, j: nat)
    requires k < |files| && j < |files[k].body|
    ensures InOutput(files, k, j) <= Joined(files)
    decreases |files|
  {
    var init, last := files[..|files| - 1], files[|files| - 1];
    if k < |files| - 1 {
      OutputPrefix(init, k, j);
      assert init[..k] == files[..k];
    } else {
      assert files[..k] == init;
      assert last.body == last.body[..j + 1] + last.body[j + 1..];
      assert Joined(files) == InOutput(files, k, j) + last.body[j + 1..];
    }
  }

  /**
   * For a frame written to any file, the last frame of every metadata stream
   * up to it is the same in its file as in the whole output.
   */
  lemma MetadataContext(c: Config, input: seq<(StreamFrame, bool)>, k: nat, j: nat, m: char)
    requires m in c.metadata && AtOnce(c, m)
    requires var files := Run(c, input).files; k < |files| && j < |files[k].body|
    ensures var files := Run(c, input).files;
            && InOutput(files, k, j) <= Written(c, Frames(input))
            && Last(InFile(files, k, j), m) == Last(InOutput(files, k, j), m)
  {
    hide Run, Joined, Last, Written;
    var files := Run(c, input).files;
    JoinedIsWritten(c, input);
    OutputPrefix(files, k, j);
    CachedRun(c, input, m);
    LastConcat(files[k].header, files[k].body[..j + 1], m);
    LastConcat(Joined(files[..k]), files[k].body[..j + 1], m);
  }

  /** The same holds of the sync stream for every frame that is never held back. */
  lemma SyncContext(c: Config, input: seq<(StreamFrame, bool)>, k: nat, j: nat)
    requires AtOnce(c, c.sync)
    requires var files := Run(c, input).files;
             k < |files| && j < |files[k].body| && files[k].body[j].stop !in c.orphanStreams
    ensures var files := Run(c, input).files;
            && InOutput(files, k, j) <= Written(c, Frames(input))
            && Last(InFile(files, k, j), c.sync) == Last(InOutput(files, k, j), c.sync)
  {
    hide Run, Joined, Last, Written;
    var files := Run(c, input).files;
    JoinedIsWritten(c, input);
    OutputPrefix(files, k, j);
    InSyncRun(c, input);
    assert SyncFile(c, Joined(files[..k]), files[k]);
    LastConcat(files[k].header, files[k].body[..j + 1], c.sync);
    LastConcat(Joined(files[..k]), files[k].body[..j + 1], c.sync);
  }

  // ----- TrayInfo as a metadata stream -----

  /** The last TrayInfo frame cached once some frames are written: the copies do not have the configuration. */
  function TrayCopy(first: StreamFrame, out: seq<StreamFrame>): Option<StreamFrame> {
    if out == [] then None
    else if Last(out[1..], TRAY_INFO).Some? then Last(out[1..], TRAY_INFO)
    else if first.stop == TRAY_INFO then Some(first)
    else None
  }

  /** The first frame written, which has the configuration. */
  function FirstOut(first: StreamFrame): StreamFrame {
    if first.stop == TRAY_INFO then first.(configs := first.configs + 1) else StreamFrame(TRAY_INFO, 0, 1)
  }

  predicate TrayMetadata(c: Config) {
    TRAY_INFO in c.metadata && TRAY_INFO !in c.orphanStreams && c.Writes(TRAY_INFO)
  }

  ghost predicate TrayHeaded(files: seq<File>, first: StreamFrame) {
    forall k :: 0 <= k < |files| ==> Last(files[k].header, TRAY_INFO) == TrayCopy(first, Joined(files[..k]))
  }

  ghost predicate TrayCached(c: Config, w: Writer, first: StreamFrame) {
    && Distinct(w.cache) && Holds(c, w.held) && w.configWritten
    && Joined(w.files) != [] && Joined(w.files)[0] == FirstOut(first)
    && TrayHeaded(w.files, first) && Last(w.cache, TRAY_INFO) == TrayCopy(first, Joined(w.files))
  }

  lemma TrayHeadedAppend(files: seq<File>, frames: seq<StreamFrame>, first: StreamFrame)
    requires files != [] && TrayHeaded(files, first)
    ensures TrayHeaded(Append(files, frames), first)
  {
    hide Joined, Last, TrayCopy;
    forall k | 0 <= k < |files| ensures Append(files, frames)[..k] == files[..k] {
    }
  }

  lemma TrayHeadedNew(files: seq<File>, header: seq<StreamFrame>, first: StreamFrame)
    requires TrayHeaded(files, first) && Last(header, TRAY_INFO) == TrayCopy(first, Joined(files))
    ensures TrayHeaded(files + [File(header, [])], first)
  {
    hide Joined, Last, TrayCopy;
    var more := files + [File(header, [])];
    assert more[..|files|] == files;
    forall k | 0 <= k < |files| ensures more[..k] == files[..k] {
    }
  }

  /** More frames written after the first. */
  lemma TrayCopyMore(first: StreamFrame, out: seq<StreamFrame>, more: seq<StreamFrame>)
    requires out != []
    ensures TrayCopy(first, out + more) ==
              if Last(more, TRAY_INFO).Some? then Last(more, TRAY_INFO) else TrayCopy(first, out)
  {
    assert (out + more)[1..] == out[1..] + more;
    LastConcat(out[1..], more, TRAY_INFO);
  }

  /** What a later frame writes of the stream. */
  lemma TrayWritten(c: Config, held: seq<StreamFrame>, f: StreamFrame)
    requires TRAY_INFO !in c.orphanStreams && c.Writes(TRAY_INFO) && Holds(c, held)
    ensures Last(Out(c, held, f), TRAY_INFO) == if f.stop == TRAY_INFO then Some(f) else None
  {
    LastNone(held, TRAY_INFO);
    LastConcat(held, [f], TRAY_INFO);
    LastConcat([], [f], TRAY_INFO);
  }

  lemma TrayStep(c: Config, w: Writer, f: StreamFrame, full: bool, first: StreamFrame)
    requires TrayMetadata(c) && w.files != [] && TrayCached(c, w, first)
    ensures TrayCached(c, Step(c, w, f, full), first)
  {
    hide Out, Held, Put, TrayHeaded, Joined, Append, Distinct, TrayCopy, Last;
    var files := if Splits(c, w, f, full) then w.files + [File(w.cache, [])] else w.files;
    var out := Out(c, w.held, f);
    assert Inserted(c, false, f) + out == out;
    TrayHeadedNew(w.files, w.cache, first);
    JoinedNew(w.files, w.cache);
    TrayHeadedAppend(files, out, first);
    JoinedAppend(files, out);
    TrayCopyMore(first, Joined(files), out);
    TrayWritten(c, w.held, f);
    HeldHolds(c, w.held, f);
    PutKeeps(w.cache, f);
    PutLast(w.cache, f, TRAY_INFO);
  }

  lemma TrayFirst(c: Config, f: StreamFrame, full: bool)
    requires TrayMetadata(c)
    ensures TrayCached(c, Step(c, Started(), f, full), f)
  {
    hide Out, Held, Put, TrayHeaded, Joined, Append, Distinct, TrayCopy, Last;
    var g, none := Marked(c, true, f), [File([], [])];
    var files := if Splits(c, Started(), f, full) then none + [File([], [])] else none;
    var out := Inserted(c, true, f) + Out(c, [], g);
    FirstWritten(c, f);
    FirstHeld(c, f);
    TrayEmpty(f);
    TrayHeadedNew(none, [], f);
    JoinedNew(none, []);
    JoinedNew([], []);
    TrayHeadedAppend(files, out, f);
    JoinedAppend(files, out);
    assert [] + out == out;
  }

  /** The first frame writes the configuration first, and its copy is cached as it came. */
  lemma FirstWritten(c: Config, f: StreamFrame)
    requires TrayMetadata(c)
    ensures var out := Inserted(c, true, f) + Out(c, [], Marked(c, true, f));
            && out != [] && out[0] == FirstOut(f)
            && TrayCopy(f, out) == if f.stop == TRAY_INFO then Some(f) else None
    ensures Last(if c.Metadata(f) then Put([], f) else [], TRAY_INFO) == if f.stop == TRAY_INFO then Some(f) else None
  {
    var out := Inserted(c, true, f) + Out(c, [], Marked(c, true, f));
    LastNone(out[1..], TRAY_INFO);
    LastNone([f], TRAY_INFO);
    assert [f] == [] + [f];
    LastConcat([], [f], TRAY_INFO);
  }

  lemma FirstHeld(c: Config, f: StreamFrame)
    ensures Holds(c, Held(c, [], Marked(c, true, f))) && Distinct(if c.Metadata(f) then Put([], f) else [])
  {
    HeldHolds(c, [], Marked(c, true, f));
  }

  lemma TrayEmpty(first: StreamFrame)
    ensures TrayHeaded([File([], [])], first) && Joined([File([], [])]) == [] && TrayCopy(first, []) == None
    ensures Last([], TRAY_INFO) == None && Joined([]) == []
  {
    var one, none: seq<File> := [File([], [])], [];
    assert one[..0] == none;
  }

  lemma {:induction false} TrayRun(c: Config, input: seq<(StreamFrame, bool)>)
    requires TrayMetadata(c) && input != []
    ensures TrayCached(c, Run(c, input), input[0].0)
    decreases |input|
  {
    hide TrayCached, Step;
    var init, last := input[..|input| - 1], input[|input| - 1];
    if |input| == 1 {
      RunNone(c);
      assert init == [];
      TrayFirst(c, last.0, last.1);
    } else {
      TrayRun(c, init);
      TrayStep(c, Run(c, init), last.0, last.1, input[0].0);
    }
  }

  /**
   * For a frame written to any file, the last TrayInfo frame up to it is the
   * same in its file as in the whole output exactly when nothing was written
   * before the file, or when a TrayInfo frame other than the first output frame
   * was written up to the frame.
   */
  lemma TrayContext(c: Config, input: seq<(StreamFrame, bool)>, k: nat, j: nat)
    requires TrayMetadata(c) && input != []
    requires var files := Run(c, input).files; k < |files| && j < |files[k].body|
    ensures var files := Run(c, input).files;
            && InOutput(files, k, j) <= Written(c, Frames(input))
            && (Last(InFile(files, k, j), TRAY_INFO) == Last(InOutput(files, k, j), TRAY_INFO) <==>
                  || Joined(files[..k]) == []
                  || exists i :: 1 <= i < |InOutput(files, k, j)| && InOutput(files, k, j)[i].stop == TRAY_INFO)
  {
    hide Run, Joined, Last, Written;
    var files := Run(c, input).files;
    var before, b := Joined(files[..k]), files[k].body[..j + 1];
    JoinedIsWritten(c, input);
    OutputPrefix(files, k, j);
    TrayRun(c, input);
    LastConcat(files[k].header, b, TRAY_INFO);
    LastConcat(before, b, TRAY_INFO);
    if before != [] {
      assert before[0] == InOutput(files, k, j)[0] == Joined(files)[0];
      assert before == [before[0]] + before[1..];
      LastOne(before[0], TRAY_INFO);
      LastConcat([before[0]], before[1..], TRAY_INFO);
      LastNone(before[1..], TRAY_INFO);
      LastNone(b, TRAY_INFO);
      OtherTray(before, b);
    } else {
      LastEmpty(TRAY_INFO);
    }
  }

  lemma LastOne(f: StreamFrame, stream: char)
    ensures Last([f], stream) == if f.stop == stream then Some(f) else None
  {
    LastConcat([], [f], stream);
    assert [f][..0] == [];
  }

  lemma LastEmpty(stream: char)
    ensures Last([], stream) == None
  {
  }

  lemma OtherTray(before: seq<StreamFrame>, b: seq<StreamFrame>)
    requires before != []
    ensures (exists i :: 1 <= i < |before + b| && (before + b)[i].stop == TRAY_INFO) <==>
              || (exists i :: 0 <= i < |before[1..]| && before[1..][i].stop == TRAY_INFO)
              || (exists i :: 0 <= i < |b| && b[i].stop == TRAY_INFO)
  {
    var all := before + b;
    if i :| 1 <= i < |all| && all[i].stop == TRAY_INFO {
      if i < |before| {
        assert before[1..][i - 1] == all[i];
      } else {
        assert b[i - |before|] == all[i];
      }
    }
    if i :| 0 <= i < |before[1..]| && before[1..][i].stop == TRAY_INFO {
      assert all[i + 1] == before[1..][i];
    }
    if i :| 0 <= i < |b| && b[i].stop == TRAY_INFO {
      assert all[i + |before|] == b[i];
    }
  }

  /**
   * The configuration put in a first frame of the TrayInfo stream, whatever it
   * had before, is not in the copy cached before: a later file starts with the
   * frame without it.
   */
  lemma TrayInfoHeader(n: nat)
    ensures var c := Config([], [], [TRAY_INFO], 'Q');
            var files := Run(c, [(StreamFrame(TRAY_INFO, 1, n), false), (StreamFrame('Q', 2, 0), true)]).files;
            && |files| == 2 && files[1].body == [StreamFrame('Q', 2, 0)]
            && Last(InFile(files, 1, 0), TRAY_INFO) == Some(StreamFrame(TRAY_INFO, 1, n))
            && Last(InOutput(files, 1, 0), TRAY_INFO) == Some(StreamFrame(TRAY_INFO, 1, n + 1))
  {
    hide Joined;
    var c := Config([], [], [TRAY_INFO], 'Q');
    hide Run, Append, Put;
    var first: (StreamFrame, bool) := (StreamFrame(TRAY_INFO, 1, n), false);
    var second: (StreamFrame, bool) := (StreamFrame('Q', 2, 0), true);
    var none: seq<(StreamFrame, bool)>, noFile: seq<File> := [], [];
    assert none + [first] == [first] && [first] + [second] == [first, second];
    RunNone(c);
    RunSnoc(c, none, first.0, first.1);
    RunSnoc(c, [first], second.0, second.1);
    var t := StreamFrame(TRAY_INFO, 1, n + 1);
    AppendNew(noFile, [], [t]);
    assert noFile + [File([], [])] == [File([], [])] && noFile + [File([], [t])] == [File([], [t])];
    assert Inserted(c, true, first.0) + Out(c, [], t) == [t];
    PutAt([], first.0, 0);
    var w := Run(c, [first]);
    assert w == Writer([File([], [t])], [first.0], [], true, false);
    assert Inserted(c, false, second.0) + Out(c, [], second.0) == [second.0];
    AppendNew(w.files, w.cache, [second.0]);
    var files := Run(c, [first, second]).files;
    assert files == Append(w.files + [File(w.cache, [])], [second.0]);
    assert files == [File([], [t]), File([first.0], [second.0])];
    assert files[..1] == [File([], [])][..0] + [File([], [t])];
    JoinedOne([t]);
    LastConcat([first.0], [second.0], TRAY_INFO);
    LastConcat([t], [second.0], TRAY_INFO);
    assert files[1].body[..1] == [second.0];
  }

  /** A run that starts with a frame of another stream: the configuration frame inserted before it is not cached. */
  lemma MissingStart(c: Config, first: StreamFrame)
    requires c == Config([], [], [TRAY_INFO], 'Q') && first.stop == 'Q'
    ensures Run(c, [(first, false)]) == Writer([File([], [StreamFrame(TRAY_INFO, 0, 1), first])], [], [], true, true)
  {
    hide Joined, Run, Append, Put;
    var none: seq<(StreamFrame, bool)>, noFile: seq<File> := [], [];
    assert none + [(first, false)] == [(first, false)];
    RunNone(c);
    RunSnoc(c, none, first, false);
    var t := StreamFrame(TRAY_INFO, 0, 1);
    AppendNew(noFile, [], [t, first]);
    assert noFile + [File([], [])] == [File([], [])] && noFile + [File([], [t, first])] == [File([], [t, first])];
    assert Inserted(c, true, first) + Out(c, [], first) == [t, first];
  }

  /** A later file of such a run has no TrayInfo frame at all. */
  lemma TrayInfoMissing()
    ensures var c := Config([], [], [TRAY_INFO], 'Q');
            var files := Run(c, [(StreamFrame('Q', 1, 0), false), (StreamFrame('Q', 2, 0), true)]).files;
            && |files| == 2 && files[1] == File([], [StreamFrame('Q', 2, 0)])
            && Last(InFile(files, 1, 0), TRAY_INFO) == None
            && Last(InOutput(files, 1, 0), TRAY_INFO) == Some(StreamFrame(TRAY_INFO, 0, 1))
  {
    hide Joined, Run, Append, Put, Last;
    var c := Config([], [], [TRAY_INFO], 'Q');
    var first, second, t := StreamFrame('Q', 1, 0), StreamFrame('Q', 2, 0), StreamFrame(TRAY_INFO, 0, 1);
    var noFile: seq<File> := [];
    MissingStart(c, first);
    var w := Run(c, [(first, false)]);
    RunSnoc(c, [(first, false)], second, true);
    assert [(first, false)] + [(second, true)] == [(first, false), (second, true)];
    assert Inserted(c, false, second) + Out(c, [], second) == [second];
    AppendNew(w.files, w.cache, [second]);
    var files := Run(c, [(first, false), (second, true)]).files;
    assert files == [File([], [t, first]), File([], [second])];
    assert files[..1] == [File([], [t, first])];
    JoinedOne([t, first]);
    assert files[1].body[..1] == [second] && InFile(files, 1, 0) == [second];
    LastOne(second, TRAY_INFO);
    assert InOutput(files, 1, 0) == [t] + [first, second];
    LastNone([first, second], TRAY_INFO);
    LastOne(t, TRAY_INFO);
    LastConcat([t], [first, second], TRAY_INFO);
  }

  // ----- an orphan stream as a metadata stream -----

  /** The streams of the frames that held frames may belong to. */
  predicate MayAdopt(c: Config, s: char) {
    (c.streams == [] || s in c.streams) && s !in c.orphanStreams && s != 'I' && s != 'S'
  }

  /** A stream whose frames are held back. */
  predicate HeldBack(c: Config, m: char) {
    m in c.orphanStreams && c.Writes(m) && m != TRAY_INFO
  }

  predicate OrphanMetadata(c: Config, m: char) { m in c.metadata && HeldBack(c, m) }

  /** At every frame that frames held back may belong to, a file and the output before and in it agree. */
  ghost predicate AdoptersAgree(c: Config, before: seq<StreamFrame>, file: File, m: char) {
    forall j :: 0 <= j < |file.body| && c.Adopts(file.body[j]) ==>
      Last(file.header + file.body[..j + 1], m) == Last(before + file.body[..j + 1], m)
  }

  ghost predicate AllAgree(c: Config, files: seq<File>, m: char) {
    forall k :: 0 <= k < |files| ==> AdoptersAgree(c, Joined(files[..k]), files[k], m)
  }

  lemma AllAgreeAppend(c: Config, files: seq<File>, out: seq<StreamFrame>, m: char)
    requires files != [] && AllAgree(c, files, m)
    requires var n := |files| - 1; AdoptersAgree(c, Joined(files[..n]), files[n].(body := files[n].body + out), m)
    ensures AllAgree(c, Append(files, out), m)
  {
    hide AdoptersAgree, Joined;
    forall k | 0 <= k < |files| ensures AdoptersAgree(c, Joined(Append(files, out)[..k]), Append(files, out)[k], m) {
      assert Append(files, out)[..k] == files[..k];
    }
  }

  lemma AllAgreeLast(c: Config, files: seq<File>, m: char)
    requires files != [] && AllAgree(c, files, m)
    ensures var n := |files| - 1; AdoptersAgree(c, Joined(files[..n]), files[n], m)
  {
  }

  lemma AllAgreeNew(c: Config, files: seq<File>, header: seq<StreamFrame>, m: char)
    requires AllAgree(c, files, m)
    ensures AllAgree(c, files + [File(header, [])], m)
  {
    hide Joined;
    var more := files + [File(header, [])];
    forall k | 0 <= k < |more| ensures AdoptersAgree(c, Joined(more[..k]), more[k], m) {
      assert more[..k] == files[..k];
    }
  }

  /** A frame's output keeps the agreement, if file and output agreed with the frames held. */
  lemma AgreeMore(c: Config, before: seq<StreamFrame>, file: File, held: seq<StreamFrame>, first: bool,
                  f: StreamFrame, m: char)
    requires AdoptersAgree(c, before, file, m) && Holds(c, held)
    requires Last(file.header + file.body + held, m) == Last(before + file.body + held, m)
    ensures var out := Inserted(c, first, f) + Out(c, held, Marked(c, first, f));
            AdoptersAgree(c, before, file.(body := file.body + out), m)
  {
    hide Last;
    var out := Inserted(c, first, f) + Out(c, held, Marked(c, first, f));
    var body := file.body + out;
    forall j | 0 <= j < |body| && c.Adopts(body[j])
      ensures Last(file.header + body[..j + 1], m) == Last(before + body[..j + 1], m)
    {
      if j < |file.body| {
        assert body[..j + 1] == file.body[..j + 1];
      } else {
        assert body[j] == out[j - |file.body|];
        assert j == |body| - 1 && c.Adopts(f);
        var ins, tail := Inserted(c, first, f), held + [f];
        assert body[..j + 1] == body == file.body + (ins + tail);
        SameEnd(file.header, before, file.body, ins, held, f, m);
      }
    }
  }

  lemma SameEnd(a: seq<StreamFrame>, b: seq<StreamFrame>, body: seq<StreamFrame>, ins: seq<StreamFrame>,
                held: seq<StreamFrame>, f: StreamFrame, m: char)
    requires Last(a + body + held, m) == Last(b + body + held, m)
    ensures Last(a + (body + (ins + (held + [f]))), m) == Last(b + (body + (ins + (held + [f]))), m)
  {
    LastConcat(a, body + (ins + (held + [f])), m);
    LastConcat(b, body + (ins + (held + [f])), m);
    LastConcat(body, ins + (held + [f]), m);
    LastConcat(ins, held + [f], m);
    LastConcat(held, [f], m);
    LastConcat(a + body, held, m);
    LastConcat(b + body, held, m);
    LastConcat(a, body, m);
    LastConcat(b, body, m);
  }

  /** The whole output and the current file, each with the frames held, end with the last frame received. */
  ghost predicate Agreeing(c: Config, files: seq<File>, held: seq<StreamFrame>, s: seq<StreamFrame>, m: char) {
    && files != [] && AllAgree(c, files, m) && Last(Joined(files) + held, m) == Last(s, m)
    && var file := files[|files| - 1]; Last(file.header + file.body + held, m) == Last(s, m)
  }

  /** So does the cache. */
  ghost predicate OrphanCached(c: Config, w: Writer, s: seq<StreamFrame>, m: char) {
    Distinct(w.cache) && Holds(c, w.held) && Last(w.cache, m) == Last(s, m) && Agreeing(c, w.files, w.held, s, m)
  }

  /** A frame keeps what was written and what is held together ending with the last frame received. */
  lemma HeldMore(c: Config, out: seq<StreamFrame>, held: seq<StreamFrame>, first: bool, f: StreamFrame,
                 s: seq<StreamFrame>, m: char)
    requires HeldBack(c, m) && Holds(c, held) && Last(out + held, m) == Last(s, m)
    ensures var g := Marked(c, first, f);
            Last(out + (Inserted(c, first, f) + Out(c, held, g)) + Held(c, held, g), m) == Last(s + [f], m)
  {
    hide Last, Put;
    var g, ins := Marked(c, first, f), Inserted(c, first, f);
    LastConcat(s, [f], m);
    LastOne(f, m);
    LastOne(g, m);
    LastEmpty(m);
    LastConcat(out, held, m);
    LastNone(ins, m);
    PutLast(held, g, m);
    LastConcat(out + (ins + Out(c, held, g)), Held(c, held, g), m);
    LastConcat(out, ins + Out(c, held, g), m);
    LastConcat(ins, Out(c, held, g), m);
    LastConcat(held, [g], m);
    LastConcat([], [g], m);
  }

  /** A frame that goes to the current file keeps the file and the output agreeing. */
  lemma AgreeStep(c: Config, files: seq<File>, held: seq<StreamFrame>, first: bool, f: StreamFrame,
                  s: seq<StreamFrame>, m: char)
    requires HeldBack(c, m) && Holds(c, held) && Agreeing(c, files, held, s, m)
    ensures var g := Marked(c, first, f);
            Agreeing(c, Append(files, Inserted(c, first, f) + Out(c, held, g)), Held(c, held, g), s + [f], m)
  {
    hide Out, Held, Marked, Inserted, Joined, Last, AllAgree, AdoptersAgree, Holds, Append;
    var g := Marked(c, first, f);
    var out := Inserted(c, first, f) + Out(c, held, g);
    var n := |files| - 1;
    var before, file := Joined(files[..n]), files[n];
    JoinedLast(files);
    JoinedAppend(files, out);
    AppendLast(files, out);
    AllAgreeLast(c, files, m);
    AgreeMore(c, before, file, held, first, f, m);
    AllAgreeAppend(c, files, out, m);
    HeldMore(c, Joined(files), held, first, f, s, m);
    HeldMore(c, file.header + file.body, held, first, f, s, m);
    assert file.header + file.body + out == file.header + (file.body + out);
  }

  lemma OrphanCachedStep(c: Config, w: Writer, s: seq<StreamFrame>, f: StreamFrame, full: bool, m: char)
    requires OrphanMetadata(c, m) && OrphanCached(c, w, s, m)
    ensures OrphanCached(c, Step(c, w, f, full), s + [f], m)
  {
    hide Out, Held, Marked, Inserted, Put, Joined, Distinct, Last, AllAgree, Holds, Append;
    var files := if Splits(c, w, f, full) then w.files + [File(w.cache, [])] else w.files;
    JoinedNew(w.files, w.cache);
    AllAgreeNew(c, w.files, w.cache, m);
    HeaderStart(w.cache, Joined(w.files), w.held, s, m);
    AgreeStep(c, files, w.held, !w.configWritten, f, s, m);
    CachedMore(c, w.cache, f, s, m);
    HeldHolds(c, w.held, Marked(c, !w.configWritten, f));
  }

  /** What is cached of a stream after one frame more. */
  lemma CachedMore(c: Config, cache: seq<StreamFrame>, f: StreamFrame, s: seq<StreamFrame>, m: char)
    requires Distinct(cache)
    ensures var more := if c.Metadata(f) then Put(cache, f) else cache;
            && Distinct(more)
            && (OrphanMetadata(c, m) && Last(cache, m) == Last(s, m) ==> Last(more, m) == Last(s + [f], m))
            && (f.stop != m ==> Last(more, m) == Last(cache, m))
    ensures Last(s + [f], m) == if f.stop == m then Some(f) else Last(s, m)
  {
    hide Last, Put, Distinct;
    PutKeeps(cache, f);
    PutLast(cache, f, m);
    LastConcat(s, [f], m);
    LastOne(f, m);
  }

  lemma JoinedLast(files: seq<File>)
    requires files != []
    ensures Joined(files) == Joined(files[..|files| - 1]) + files[|files| - 1].body
  {
  }

  /** A new file and the frames held end with the last frame received. */
  lemma HeaderStart(cache: seq<StreamFrame>, joined: seq<StreamFrame>, held: seq<StreamFrame>,
                    s: seq<StreamFrame>, m: char)
    requires Last(cache, m) == Last(s, m) && Last(joined + held, m) == Last(s, m)
    ensures Last(cache + [] + held, m) == Last(s, m)
  {
    assert cache + [] == cache;
    LastConcat(cache, held, m);
    LastConcat(joined, held, m);
  }

  lemma {:induction false} OrphanCachedRun(c: Config, input: seq<(StreamFrame, bool)>, m: char)
    requires OrphanMetadata(c, m)
    ensures OrphanCached(c, Run(c, input), Frames(input), m)
    decreases |input|
  {
    hide OrphanCached, Step;
    if input != [] {
      var init, last := input[..|input| - 1], input[|input| - 1];
      OrphanCachedRun(c, init, m);
      OrphanCachedStep(c, Run(c, init), Frames(init), last.0, last.1, m);
      assert Frames(input) == Frames(init) + [last.0];
    } else {
      OrphanCachedNone(c, m);
    }
  }

  lemma OrphanCachedNone(c: Config, m: char)
    ensures OrphanCached(c, Started(), [], m)
  {
    assert Started().files[..0] == [];
    JoinedOne([]);
    LastEmpty(m);
  }

  /**
   * A metadata stream whose frames are held back: for every frame they may
   * belong to, its last frame is the same in the file as in the whole output.
   */
  lemma OrphanMetadataContext(c: Config, input: seq<(StreamFrame, bool)>, k: nat, j: nat, m: char)
    requires OrphanMetadata(c, m)
    requires var files := Run(c, input).files;
             k < |files| && j < |files[k].body| && MayAdopt(c, files[k].body[j].stop)
    ensures var files := Run(c, input).files;
            && InOutput(files, k, j) <= Written(c, Frames(input))
            && Last(InFile(files, k, j), m) == Last(InOutput(files, k, j), m)
  {
    hide Run, Joined, Last, Written;
    var files := Run(c, input).files;
    JoinedIsWritten(c, input);
    OutputPrefix(files, k, j);
    OrphanCachedRun(c, input, m);
    assert AdoptersAgree(c, Joined(files[..k]), files[k], m);
  }

  // ----- an orphan stream as the sync stream -----

  /** Until a sync frame came there is none in the cache. */
  ghost predicate OrphanSynced(c: Config, w: Writer, s: seq<StreamFrame>) {
    && Distinct(w.cache) && Holds(c, w.held) && Agreeing(c, w.files, w.held, s, c.sync)
    && (w.syncSeen ==> w.configWritten)
    && (!w.syncSeen ==> Last(s, c.sync) == None && Last(w.cache, c.sync) == None)
  }

  /** A sync frame starts a file: it is held back, and nothing of the file depends on it yet. */
  lemma OrphanSyncedSplit(c: Config, w: Writer, s: seq<StreamFrame>, f: StreamFrame)
    requires HeldBack(c, c.sync) && OrphanSynced(c, w, s) && w.syncSeen && f.stop == c.sync
    ensures OrphanSynced(c, Step(c, w, f, true), s + [f])
  {
    hide Put, Joined, Distinct, Last, Holds, AdoptersAgree;
    var files := w.files + [File(w.cache, [])];
    assert Inserted(c, false, f) + Out(c, w.held, f) == [] && Held(c, w.held, f) == Put(w.held, f);
    JoinedNew(w.files, w.cache);
    AppendNothing(files);
    AllAgreeNew(c, w.files, w.cache, c.sync);
    HeldHolds(c, w.held, f);
    PutHeld(c, w.held, f, Joined(w.files));
    PutHeld(c, w.held, f, w.cache);
    assert w.cache + [] == w.cache;
    PutKeeps(w.cache, f);
    LastConcat(s, [f], c.sync);
    LastOne(f, c.sync);
  }

  lemma PutHeld(c: Config, held: seq<StreamFrame>, f: StreamFrame, out: seq<StreamFrame>)
    requires Holds(c, held)
    ensures Last(out + Put(held, f), f.stop) == Some(f)
  {
    PutLast(held, f, f.stop);
    LastConcat(out, Put(held, f), f.stop);
  }

  lemma OrphanSyncedStep(c: Config, w: Writer, s: seq<StreamFrame>, f: StreamFrame, full: bool)
    requires HeldBack(c, c.sync) && OrphanSynced(c, w, s)
    ensures OrphanSynced(c, Step(c, w, f, full), s + [f])
  {
    hide Out, Held, Marked, Inserted, Put, Joined, Distinct, Last, AllAgree, Holds, Append;
    if full && w.syncSeen && f.stop == c.sync {
      OrphanSyncedSplit(c, w, s, f);
    } else {
      var files := if full && !w.syncSeen then w.files + [File(w.cache, [])] else w.files;
      JoinedNew(w.files, w.cache);
      AllAgreeNew(c, w.files, w.cache, c.sync);
      if !w.syncSeen {
        HeaderStart(w.cache, Joined(w.files), w.held, s, c.sync);
      }
      AgreeStep(c, files, w.held, !w.configWritten, f, s, c.sync);
      CachedMore(c, w.cache, f, s, c.sync);
      HeldHolds(c, w.held, Marked(c, !w.configWritten, f));
    }
  }

  lemma {:induction false} OrphanSyncedRun(c: Config, input: seq<(StreamFrame, bool)>)
    requires HeldBack(c, c.sync)
    ensures OrphanSynced(c, Run(c, input), Frames(input))
    decreases |input|
  {
    hide OrphanSynced, Step;
    if input != [] {
      var init, last := input[..|input| - 1], input[|input| - 1];
      OrphanSyncedRun(c, init);
      OrphanSyncedStep(c, Run(c, init), Frames(init), last.0, last.1);
      assert Frames(input) == Frames(init) + [last.0];
    } else {
      OrphanSyncedNone(c);
    }
  }

  lemma OrphanSyncedNone(c: Config)
    ensures OrphanSynced(c, Started(), [])
  {
    assert Started().files[..0] == [];
    JoinedOne([]);
    LastEmpty(c.sync);
  }

  /**
   * A sync stream whose frames are held back: for every frame they may belong
   * to, its last frame is the same in the file as in the whole output.
   */
  lemma OrphanSyncContext(c: Config, input: seq<(StreamFrame, bool)>, k: nat, j: nat)
    requires HeldBack(c, c.sync)
    requires var files := Run(c, input).files;
             k < |files| && j < |files[k].body| && MayAdopt(c, files[k].body[j].stop)
    ensures var files := Run(c, input).files;
            && InOutput(files, k, j) <= Written(c, Frames(input))
            && Last(InFile(files, k, j), c.sync) == Last(InOutput(files, k, j), c.sync)
  {
    hide Run, Joined, Last, Written;
    var files := Run(c, input).files;
    JoinedIsWritten(c, input);
    OutputPrefix(files, k, j);
    OrphanSyncedRun(c, input);
    assert AdoptersAgree(c, Joined(files[..k]), files[k], c.sync);
  }

  // ----- TrayInfo as the sync stream -----

  predicate TraySync(c: Config) {
    c.sync == TRAY_INFO && TRAY_INFO !in c.orphanStreams && TRAY_INFO !in c.metadata && c.Writes(TRAY_INFO)
  }

  /**
   * Nothing came before a file, or of the stream only the frame inserted for
   * the configuration, or the file starts with a frame of the stream.
   */
  ghost predicate TrayStart(before: seq<StreamFrame>, file: File, first: StreamFrame) {
    && Last(file.header, TRAY_INFO) == None
    && (|| before == []
        || (first.stop != TRAY_INFO && Last(before[1..], TRAY_INFO) == None)
        || (file.body != [] && file.body[0].stop == TRAY_INFO))
  }

  ghost predicate TrayStarts(files: seq<File>, first: StreamFrame) {
    forall k :: 0 <= k < |files| ==> TrayStart(Joined(files[..k]), files[k], first)
  }

  lemma TrayStartsAppend(files: seq<File>, out: seq<StreamFrame>, first: StreamFrame)
    requires files != [] && TrayStarts(files, first)
    ensures TrayStarts(Append(files, out), first)
  {
    hide Joined, Last;
    forall k | 0 <= k < |files| ensures TrayStart(Joined(Append(files, out)[..k]), Append(files, out)[k], first) {
      assert Append(files, out)[..k] == files[..k];
      assert TrayStart(Joined(files[..k]), files[k], first);
    }
  }

  lemma TrayStartsNew(files: seq<File>, file: File, first: StreamFrame)
    requires TrayStarts(files, first) && TrayStart(Joined(files), file, first)
    ensures TrayStarts(files + [file], first)
  {
    hide Joined, TrayStart;
    var more := files + [file];
    forall k | 0 <= k < |more| ensures TrayStart(Joined(more[..k]), more[k], first) {
      assert more[..k] == files[..k];
      assert k == |files| ==> files[..k] == files;
    }
  }

  ghost predicate TraySynced(c: Config, w: Writer, first: StreamFrame) {
    && w.files != [] && Distinct(w.cache) && Holds(c, w.held) && w.configWritten
    && Last(w.cache, TRAY_INFO) == None && TrayStarts(w.files, first)
    && Joined(w.files) != [] && Joined(w.files)[0] == FirstOut(first)
    && (!w.syncSeen ==> first.stop != TRAY_INFO && Last(Joined(w.files)[1..], TRAY_INFO) == None)
  }

  lemma TraySyncStep(c: Config, w: Writer, f: StreamFrame, full: bool, first: StreamFrame)
    requires TraySync(c) && w.files != [] && TraySynced(c, w, first)
    ensures TraySynced(c, Step(c, w, f, full), first)
  {
    hide Out, Held, Put, TrayStarts, Joined, Distinct, Last, Holds, Append;
    var out := Out(c, w.held, f);
    assert Inserted(c, false, f) + out == out;
    HeldHolds(c, w.held, f);
    CachedMore(c, w.cache, f, [], TRAY_INFO);
    TrayWritten(c, w.held, f);
    LaterTray(Joined(w.files), out);
    if Splits(c, w, f, full) {
      var file := File(w.cache, []);
      JoinedNew(w.files, w.cache);
      AppendNew(w.files, w.cache, out);
      JoinedAppend(w.files + [file], out);
      TrayAlone(c, w.held, f);
      TrayStartsNew(w.files, file.(body := out), first);
    } else {
      TrayStartsAppend(w.files, out, first);
      JoinedAppend(w.files, out);
    }
  }

  lemma LaterTray(before: seq<StreamFrame>, out: seq<StreamFrame>)
    requires before != []
    ensures (before + out)[0] == before[0]
    ensures Last((before + out)[1..], TRAY_INFO) ==
              if Last(out, TRAY_INFO).Some? then Last(out, TRAY_INFO) else Last(before[1..], TRAY_INFO)
  {
    assert (before + out)[1..] == before[1..] + out;
    LastConcat(before[1..], out, TRAY_INFO);
  }

  /** A TrayInfo frame is written alone: no frame held back belongs to it. */
  lemma TrayAlone(c: Config, held: seq<StreamFrame>, f: StreamFrame)
    requires TraySync(c)
    ensures f.stop == TRAY_INFO ==> Out(c, held, f) == [f]
  {
  }

  lemma TraySyncFirst(c: Config, f: StreamFrame, full: bool)
    requires TraySync(c)
    ensures TraySynced(c, Step(c, Started(), f, full), f)
  {
    hide Out, Held, Put, TrayStarts, Joined, Distinct, Last, Holds, Append;
    var g, none := Marked(c, true, f), [File([], [])];
    var files := if Splits(c, Started(), f, full) then none + [File([], [])] else none;
    var out := Inserted(c, true, f) + Out(c, [], g);
    TrayOut(c, f);
    FirstHeld(c, f);
    TrayEmpty(f);
    StartsEmpty(f);
    JoinedNew(none, []);
    TrayStartsNew(none, File([], []), f);
    TrayStartsAppend(files, out, f);
    JoinedAppend(files, out);
    assert [] + out == out;
    NoneCached();
    CachedMore(c, [], f, [], TRAY_INFO);
  }

  lemma NoneCached()
    ensures Distinct([]) && Last([], TRAY_INFO) == None
  {
  }

  /** What the first frame writes. */
  lemma TrayOut(c: Config, f: StreamFrame)
    requires c.Writes(TRAY_INFO) && TRAY_INFO !in c.orphanStreams
    ensures var out := Inserted(c, true, f) + Out(c, [], Marked(c, true, f));
            && out != [] && out[0] == FirstOut(f)
            && (f.stop != TRAY_INFO ==> Last(out[1..], TRAY_INFO) == None)
  {
    var out := Inserted(c, true, f) + Out(c, [], Marked(c, true, f));
    LastNone(out[1..], TRAY_INFO);
  }

  lemma StartsEmpty(first: StreamFrame)
    ensures TrayStarts([File([], [])], first)
  {
    var one, none: seq<File> := [File([], [])], [];
    assert one[..0] == none;
    LastEmpty(TRAY_INFO);
  }

  lemma {:induction false} TraySyncRun(c: Config, input: seq<(StreamFrame, bool)>)
    requires TraySync(c) && input != []
    ensures TraySynced(c, Run(c, input), input[0].0)
    decreases |input|
  {
    hide TraySynced, Step;
    var init, last := input[..|input| - 1], input[|input| - 1];
    if |input| == 1 {
      RunNone(c);
      assert init == [];
      TraySyncFirst(c, last.0, last.1);
    } else {
      TraySyncRun(c, init);
      TraySyncStep(c, Run(c, init), last.0, last.1, input[0].0);
    }
  }

  /**
   * For a frame written to any file, the last frame of a TrayInfo sync stream
   * up to it is the same in its file as in the whole output exactly when the
   * first frame received was of the stream, when nothing was written before
   * the file, or when a TrayInfo frame other than the first output frame was
   * written up to the frame: a frame inserted for the configuration is not
   * waited for.
   */
  lemma TraySyncContext(c: Config, input: seq<(StreamFrame, bool)>, k: nat, j: nat)
    requires TraySync(c) && input != []
    requires var files := Run(c, input).files; k < |files| && j < |files[k].body|
    ensures var files := Run(c, input).files;
            && InOutput(files, k, j) <= Written(c, Frames(input))
            && (Last(InFile(files, k, j), TRAY_INFO) == Last(InOutput(files, k, j), TRAY_INFO) <==>
                  || input[0].0.stop == TRAY_INFO || Joined(files[..k]) == []
                  || exists i :: 1 <= i < |InOutput(files, k, j)| && InOutput(files, k, j)[i].stop == TRAY_INFO)
  {
    hide Run, Joined, Last, Written;
    var files, first := Run(c, input).files, input[0].0;
    var before, b := Joined(files[..k]), files[k].body[..j + 1];
    JoinedIsWritten(c, input);
    OutputPrefix(files, k, j);
    TraySyncRun(c, input);
    assert TrayStart(before, files[k], first);
    LastConcat(files[k].header, b, TRAY_INFO);
    LastConcat(before, b, TRAY_INFO);
    LastNone(b, TRAY_INFO);
    if before != [] {
      assert before[0] == InOutput(files, k, j)[0] == Joined(files)[0];
      assert before == [before[0]] + before[1..];
      LastOne(before[0], TRAY_INFO);
      LastConcat([before[0]], before[1..], TRAY_INFO);
      LastNone(before[1..], TRAY_INFO);
      OtherTray(before, b);
      assert b[0] == files[k].body[0];
    } else {
      LastEmpty(TRAY_INFO);
    }
  }

  // ----- the object -----

  lemma {:induction false} PutAt(list: seq<StreamFrame>, f: StreamFrame, i: nat)
    requires i <= |list| && forall j :: 0 <= j < i ==> list[j].stop != f.stop
    requires i < |list| ==> list[i].stop == f.stop
    ensures Put(list, f) == if i < |list| then list[i := f] else list + [f]
  {
    if i > 0 {
      PutAt(list[1..], f, i - 1);
    }
  }

  class I3MultiWriter {
    const config: Config
    var files: seq<File>
    var metadataCache: seq<StreamFrame>
    var orphanarium: seq<StreamFrame>
    var configWritten: bool
    var syncSeen: bool
    var frameCounter: nat
    /** The frames received, each with whether the file was full when it came. */
    ghost var received: seq<(StreamFrame, bool)>

    function State(): Writer
      reads this
    {
      Writer(files, metadataCache, orphanarium, configWritten, syncSeen)
    }

    ghost predicate Valid()
      reads this
    {
      State() == Run(config, received) && frameCounter == |Joined(files)|
    }

    constructor (c: Config)
      ensures Valid() && config == c && received == []
    {
      config := c;
      metadataCache, orphanarium, configWritten, syncSeen, frameCounter := [], [], false, false, 0;
      files, received := [], [];
      new;
      NewFile();
      JoinedNew([], []);
    }

    /** Start a file with the cached frames. */
    method NewFile()
      modifies `files
      ensures files == old(files) + [File(metadataCache, [])]
    {
      var header: seq<StreamFrame> := [];
      for i := 0 to |metadataCache|
        invariant header == metadataCache[..i]
      {
        header := header + [metadataCache[i]];
      }
      assert metadataCache[..|metadataCache|] == metadataCache;
      files := files + [File(header, [])];
    }

    /** Save a frame to the current file. */
    method Save(f: StreamFrame)
      requires files != []
      modifies `files, `frameCounter
      ensures files == Append(old(files), [f]) && frameCounter == old(frameCounter) + 1
    {
      frameCounter := frameCounter + 1;
      files := Append(files, [f]);
    }

    /** Put a frame in the place of the one of its stream, or at the end. */
    static method PutInto(list: seq<StreamFrame>, f: StreamFrame) returns (r: seq<StreamFrame>)
      ensures r == Put(list, f)
    {
      var i := 0;
      while i < |list| && list[i].stop != f.stop
        invariant 0 <= i <= |list| && forall j :: 0 <= j < i ==> list[j].stop != f.stop
      {
        i := i + 1;
      }
      PutAt(list, f, i);
      r := if i == |list| then list + [f] else list[i := f];
    }

    /** With the first frame, put the configuration in it or insert a frame for it. */
    method WriteConfig(f: StreamFrame) returns (g: StreamFrame)
      requires files != []
      modifies `files, `frameCounter, `configWritten
      ensures g == Marked(config, !old(configWritten), f) && configWritten
      ensures files == Append(old(files), Inserted(config, !old(configWritten), f))
      ensures frameCounter == old(frameCounter) + |Inserted(config, !old(configWritten), f)|
    {
      g := f;
      AppendNothing(files);
      if configWritten {
        return;
      }
      if config.streams != [] && TRAY_INFO !in config.streams {
        configWritten := true;
        return;
      }
      if f.stop == TRAY_INFO {
        g := f.(configs := f.configs + 1);
      } else {
        Save(StreamFrame(TRAY_INFO, 0, 1));
      }
      configWritten := true;
    }

    /** Save the frames held back, and hold none. */
    method Adopt()
      requires files != []
      modifies `files, `frameCounter, `orphanarium
      ensures files == Append(old(files), old(orphanarium)) && orphanarium == []
      ensures frameCounter == old(frameCounter) + |old(orphanarium)|
    {
      AppendNothing(files);
      for i := 0 to |orphanarium|
        invariant orphanarium == old(orphanarium)
        invariant files == Append(old(files), orphanarium[..i])
        invariant frameCounter == old(frameCounter) + i
      {
        AppendTwice(old(files), orphanarium[..i], [orphanarium[i]]);
        assert orphanarium[..i] + [orphanarium[i]] == orphanarium[..i + 1];
        Save(orphanarium[i]);
      }
      assert orphanarium[..|orphanarium|] == orphanarium;
      orphanarium := [];
    }

    /** The base writer's part. */
    method BaseProcess(f: StreamFrame)
      requires files != []
      modifies `files, `frameCounter, `configWritten, `orphanarium
      ensures configWritten && orphanarium == Held(config, old(orphanarium), Marked(config, !old(configWritten), f))
      ensures var out := Inserted(config, !old(configWritten), f) +
                         Out(config, old(orphanarium), Marked(config, !old(configWritten), f));
              files == Append(old(files), out) && frameCounter == old(frameCounter) + |out|
    {
      hide Append, Put;
      ghost var inserted := Inserted(config, !configWritten, f);
      var g := WriteConfig(f);
      AppendTwice(old(files), inserted, Out(config, orphanarium, g));
      assert Out(config, orphanarium, g) == if !config.Writes(g.stop) || config.Orphan(g) then []
                                            else (if config.Adopts(g) then orphanarium else []) + [g];
      assert [] + [g] == [g];
      AppendNothing(files);
      if config.streams != [] && g.stop !in config.streams {
        return;
      }
      if g.stop in config.orphanStreams {
        orphanarium := PutInto(orphanarium, g);
        return;
      }
      if g.stop != TRAY_INFO && g.stop != SIMULATION {
        AppendTwice(files, orphanarium, [g]);
        Adopt();
      }
      Save(g);
    }

    /** A frame arrives; `full` says whether the current file is over the size limit. */
    method Process(f: StreamFrame, full: bool)
      requires Valid()
      modifies this
      ensures Valid() && received == old(received) + [(f, full)]
    {
      hide Run, Append, Put, Joined, Out, Held, Inserted, Marked;
      ghost var w := State();
      RunSnoc(config, received, f, full);
      JoinedNew(files, metadataCache);
      if f.stop == config.sync {
        syncSeen := true;
      }
      if full && (f.stop == config.sync || !syncSeen) {
        NewFile();
      }
      if f.stop in config.metadata && (config.streams == [] || f.stop in config.streams) {
        metadataCache := PutInto(metadataCache, f);
      }
      JoinedAppend(files, Inserted(config, !configWritten, f) +
                          Out(config, orphanarium, Marked(config, !configWritten, f)));
      BaseProcess(f);
      assert State() == Step(config, w, f, full);
      received := received + [(f, full)];
    }
  }
}
