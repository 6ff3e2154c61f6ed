/**
 * The base of the frame writers: it filters streams, inserts the tray's
 * configuration, and holds back frames of streams that are to be dropped when
 * no frame depends on them.
 */
module WriterBases {
  import opened Options

  /** A frame; `configs` counts the tray configurations that have been put in it. */
  datatype StreamFrame = StreamFrame(stop: char, payload: int, configs: nat)

  const TRAY_INFO: char := 'I'
  const SIMULATION: char := 'S'

  datatype Config = Config(streams: seq<char>, orphanStreams: seq<char>, metadata: seq<char>, sync: char) {
    predicate Writes(s: char) { streams == [] || s in streams }

    /** A frame that frames held back may belong to. */
    predicate Adopts(f: StreamFrame) {
      Writes(f.stop) && f.stop !in orphanStreams && f.stop != TRAY_INFO && f.stop != SIMULATION
    }

    predicate Orphan(f: StreamFrame) { Writes(f.stop) && f.stop in orphanStreams }

    predicate Metadata(f: StreamFrame) { f.stop in metadata && Writes(f.stop) }
  }

  /** The last frame of a stream. */
  function Last(s: seq<StreamFrame>, stream: char): Option<StreamFrame> {
    if s == [] then None
    else if s[|s| - 1].stop == stream then Some(s[|s| - 1])
    else Last(s[..|s| - 1], stream)
  }

  lemma {:induction false} LastConcat(a: seq<StreamFrame>, b: seq<StreamFrame>, stream: char)
    ensures Last(a + b, stream) == if Last(b, stream).Some? then Last(b, stream) else Last(a, stream)
  {
    if b == [] {
      assert a + b == a;
    } else {
      assert (a + b)[..|a + b| - 1] == a + b[..|b| - 1];
      LastConcat(a, b[..|b| - 1], stream);
    }
  }

  lemma {:induction false} LastNone(s: seq<StreamFrame>, stream: char)
    ensures Last(s, stream) == None <==> forall i :: 0 <= i < |s| ==> s[i].stop != stream
  {
    if s != [] {
      LastNone(s[..|s| - 1], stream);
    }
  }

  // ----- lists with at most one frame of each stream, in order of first appearance -----

  /** Replace the frame of the same stream, or append. */
  function Put(list: seq<StreamFrame>, f: StreamFrame): seq<StreamFrame> {
    if list == [] then [f]
    else if list[0].stop == f.stop then [f] + list[1..]
    else [list[0]] + Put(list[1..], f)
  }

  predicate Distinct(list: seq<StreamFrame>) {
    forall i, j :: 0 <= i < j < |list| ==> list[i].stop != list[j].stop
  }

  lemma {:induction false} PutKeeps(list: seq<StreamFrame>, f: StreamFrame)
    requires Distinct(list)
    ensures Distinct(Put(list, f))
    ensures forall i :: 0 <= i < |Put(list, f)| ==> Put(list, f)[i] in list || Put(list, f)[i] == f
  {
    if list != [] && list[0].stop != f.stop {
      PutKeeps(list[1..], f);
    }
  }

  lemma {:induction false} PutLast(list: seq<StreamFrame>, f: StreamFrame, stream: char)
    requires Distinct(list)
    ensures Last(Put(list, f), stream) == if stream == f.stop then Some(f) else Last(list, stream)
    decreases list
  {
    if list != [] {
      assert list == [list[0]] + list[1..];
      LastConcat([list[0]], list[1..], stream);
      LastConcat([f], list[1..], stream);
      if list[0].stop == f.stop {
        LastNone(list[1..], f.stop);
      } else {
        PutLast(list[1..], f, stream);
        LastConcat([list[0]], Put(list[1..], f), stream);
      }
    }
  }

  // ----- the base writer -----

  /** The frame as it is after the configuration was put in the first frame, beside any it had. */
  function Marked(c: Config, first: bool, f: StreamFrame): StreamFrame {
    if first && c.Writes(TRAY_INFO) && f.stop == TRAY_INFO then f.(configs := f.configs + 1) else f
  }

  /** The frame inserted for the configuration. */
  function Inserted(c: Config, first: bool, f: StreamFrame): seq<StreamFrame> {
    if first && c.Writes(TRAY_INFO) && f.stop != TRAY_INFO then [StreamFrame(TRAY_INFO, 0, 1)] else []
  }

  /** The frames held back after a frame. */
  function Held(c: Config, held: seq<StreamFrame>, f: StreamFrame): seq<StreamFrame> {
    if c.Orphan(f) then Put(held, f) else if c.Adopts(f) then [] else held
  }

  /** The frames written for a frame. */
  function Out(c: Config, held: seq<StreamFrame>, f: StreamFrame): seq<StreamFrame> {
    if !c.Writes(f.stop) || c.Orphan(f) then [] else (if c.Adopts(f) then held else []) + [f]
  }

  function HeldAfter(c: Config, held: seq<StreamFrame>, s: seq<StreamFrame>): seq<StreamFrame>
    decreases |s|
  {
    if s == [] then held else HeldAfter(c, Held(c, held, s[0]), s[1..])
  }

  function OutAll(c: Config, held: seq<StreamFrame>, s: seq<StreamFrame>): seq<StreamFrame>
    decreases |s|
  {
    if s == [] then [] else Out(c, held, s[0]) + OutAll(c, Held(c, held, s[0]), s[1..])
  }

  lemma {:induction false} OutSnoc(c: Config, held: seq<StreamFrame>, s: seq<StreamFrame>, f: StreamFrame)
    ensures OutAll(c, held, s + [f]) == OutAll(c, held, s) + Out(c, HeldAfter(c, held, s), f)
    ensures HeldAfter(c, held, s + [f]) == Held(c, HeldAfter(c, held, s), f)
    decreases |s|
  {
    if s == [] {
      assert s + [f] == [f] && [f][1..] == [];
    } else {
      assert (s + [f])[1..] == s[1..] + [f];
      OutSnoc(c, Held(c, held, s[0]), s[1..], f);
    }
  }

  /** The stream as the base writer treats it, the first frame marked. */
  function MarkedAll(c: Config, s: seq<StreamFrame>): seq<StreamFrame> {
    if s == [] then [] else [Marked(c, true, s[0])] + s[1..]
  }

  /** All that is written for a stream when it goes to one file. */
  function Written(c: Config, s: seq<StreamFrame>): seq<StreamFrame> {
    if s == [] then [] else Inserted(c, true, s[0]) + OutAll(c, [], MarkedAll(c, s))
  }

  // ----- no frames are held back: the filtered stream -----

  function Filtered(c: Config, s: seq<StreamFrame>): seq<StreamFrame> {
    if s == [] then [] else (if c.Writes(s[0].stop) then [s[0]] else []) + Filtered(c, s[1..])
  }

  lemma {:induction false} NothingHeld(c: Config, s: seq<StreamFrame>)
    requires c.orphanStreams == []
    ensures OutAll(c, [], s) == Filtered(c, s)
  {
    if s != [] {
      NothingHeld(c, s[1..]);
    }
  }

  /**
   * Without orphan streams the writer writes the frames of its streams, in
   * order, after a frame for the configuration if the first is not one.
   */
  lemma NoOrphans(c: Config, s: seq<StreamFrame>)
    requires c.orphanStreams == [] && s != []
    ensures Written(c, s) == Inserted(c, true, s[0]) + Filtered(c, MarkedAll(c, s))
  {
    NothingHeld(c, MarkedAll(c, s));
  }

  // ----- frames held back -----

  /** The frames held back are of orphan streams, one of each. */
  ghost predicate Holds(c: Config, held: seq<StreamFrame>) {
    Distinct(held) && forall i :: 0 <= i < |held| ==> c.Orphan(held[i])
  }

  lemma HeldHolds(c: Config, held: seq<StreamFrame>, f: StreamFrame)
    requires Holds(c, held)
    ensures Holds(c, Held(c, held, f))
  {
    PutKeeps(held, f);
    forall i | 0 <= i < |Held(c, held, f)| ensures c.Orphan(Held(c, held, f)[i]) {
      assert Held(c, held, f)[i] in held || Held(c, held, f)[i] == f;
    }
  }

  /** What the frames of a stream leave written and held together ends, for each orphan stream, with its last. */
  lemma {:induction false} LastOut(c: Config, s: seq<StreamFrame>, stream: char)
    requires stream in c.orphanStreams && c.Writes(stream)
    ensures Holds(c, HeldAfter(c, [], s))
    ensures Last(OutAll(c, [], s) + HeldAfter(c, [], s), stream) == Last(s, stream)
    decreases |s|
  {
    if s != [] {
      var init, f := s[..|s| - 1], s[|s| - 1];
      assert s == init + [f];
      LastOut(c, init, stream);
      OutSnoc(c, [], init, f);
      var out, held := OutAll(c, [], init), HeldAfter(c, [], init);
      HeldHolds(c, held, f);
      LastConcat(out, held, stream);
      LastConcat(init, [f], stream);
      if c.Orphan(f) {
        PutLast(held, f, stream);
        LastConcat(out, Put(held, f), stream);
        assert out + [] == out;
      } else if !c.Writes(f.stop) {
        assert out + [] == out;
      } else if c.Adopts(f) {
        LastConcat(held, [f], stream);
        LastConcat(out, held + [f], stream);
        assert out + (held + [f]) + [] == out + (held + [f]);
      } else {
        LastConcat(out, [f], stream);
        LastConcat(out + [f], held, stream);
        assert [] + [f] == [f];
      }
    }
  }

  lemma MarkedLast(c: Config, s: seq<StreamFrame>, stream: char)
    requires stream != TRAY_INFO
    ensures Last(MarkedAll(c, s), stream) == Last(s, stream)
  {
    if s != [] {
      assert s == [s[0]] + s[1..];
      LastConcat([s[0]], s[1..], stream);
      LastConcat([Marked(c, true, s[0])], s[1..], stream);
    }
  }

  /** The frame inserted for the configuration in front of a stream, if any. */
  function InsertedBefore(c: Config, s: seq<StreamFrame>): seq<StreamFrame> {
    if s == [] then [] else Inserted(c, true, s[0])
  }

  /** What was written and what is held together end, for each orphan stream, as the configured stream does. */
  lemma LastReceived(c: Config, s: seq<StreamFrame>, stream: char)
    requires stream in c.orphanStreams && c.Writes(stream)
    ensures Last(Written(c, s) + HeldAfter(c, [], MarkedAll(c, s)), stream) ==
              Last(InsertedBefore(c, s) + MarkedAll(c, s), stream)
    ensures stream != TRAY_INFO ==> Last(InsertedBefore(c, s) + MarkedAll(c, s), stream) == Last(s, stream)
  {
    var m, ins := MarkedAll(c, s), InsertedBefore(c, s);
    var held := HeldAfter(c, [], m);
    LastOut(c, m, stream);
    LastConcat(ins, m, stream);
    if s != [] {
      assert Written(c, s) + held == ins + (OutAll(c, [], m) + held);
      LastConcat(ins, OutAll(c, [], m) + held, stream);
    }
    if stream != TRAY_INFO {
      MarkedLast(c, s, stream);
      LastNone(ins, stream);
    }
  }

  /**
   * When a frame that may depend on held frames is written, of any stream but
   * TrayInfo, Simulation and the orphan streams, the last frame written of each
   * orphan stream is the last one received, the configuration counting as
   * received before the first frame.
   */
  lemma AdoptedContext(c: Config, s: seq<StreamFrame>, f: StreamFrame, stream: char)
    requires (c.streams == [] || f.stop in c.streams) && f.stop !in c.orphanStreams && f.stop != 'I' && f.stop != 'S'
    requires stream in c.orphanStreams && c.Writes(stream)
    ensures Last(Written(c, s + [f]), stream) == Last(InsertedBefore(c, s + [f]) + MarkedAll(c, s + [f]), stream)
    ensures stream != TRAY_INFO ==> Last(Written(c, s + [f]), stream) == Last(s, stream)
  {
    LastReceived(c, s + [f], stream);
    WrittenSnoc(c, s, f);
    LastConcat(s, [f], stream);
    assert Written(c, s + [f]) + [] == Written(c, s + [f]);
  }

  /** Does a frame of a stream get adopted before another of the stream replaces it? */
  predicate Adopted(c: Config, stream: char, rest: seq<StreamFrame>) {
    rest != [] && !(c.Orphan(rest[0]) && rest[0].stop == stream) && (c.Adopts(rest[0]) || Adopted(c, stream, rest[1..]))
  }

  /** The orphans received that are adopted. */
  function Kept(c: Config, s: seq<StreamFrame>): seq<StreamFrame> {
    if s == [] then []
    else (if c.Orphan(s[0]) && Adopted(c, s[0].stop, s[1..]) then [s[0]] else []) + Kept(c, s[1..])
  }

  function OrphansOf(c: Config, s: seq<StreamFrame>): seq<StreamFrame> {
    if s == [] then [] else (if c.Orphan(s[0]) then [s[0]] else []) + OrphansOf(c, s[1..])
  }

  /** The held frames that will be adopted. */
  function WillBe(c: Config, held: seq<StreamFrame>, rest: seq<StreamFrame>): seq<StreamFrame> {
    if held == [] then []
    else (if Adopted(c, held[0].stop, rest) then [held[0]] else []) + WillBe(c, held[1..], rest)
  }

  lemma OrphansConcat(c: Config, a: seq<StreamFrame>, b: seq<StreamFrame>)
    ensures OrphansOf(c, a + b) == OrphansOf(c, a) + OrphansOf(c, b)
  {
    if a == [] {
      assert a + b == b;
    } else {
      assert (a + b)[1..] == a[1..] + b;
      OrphansConcat(c, a[1..], b);
    }
  }

  lemma {:induction false} AllOrphans(c: Config, held: seq<StreamFrame>)
    requires forall i :: 0 <= i < |held| ==> c.Orphan(held[i])
    ensures OrphansOf(c, held) == held
  {
    if held != [] {
      AllOrphans(c, held[1..]);
    }
  }

  /** Replacing a held frame takes the one replaced out of those that will be adopted. */
  lemma {:induction false} WillBePut(c: Config, held: seq<StreamFrame>, f: StreamFrame, rest: seq<StreamFrame>)
    requires Distinct(held) && c.Orphan(f)
    ensures multiset(WillBe(c, Put(held, f), rest)) ==
              multiset(WillBe(c, held, [f] + rest)) + multiset(if Adopted(c, f.stop, rest) then [f] else [])
  {
    var all := [f] + rest;
    assert all[0] == f && all[1..] == rest;
    if held == [] {
      assert Put(held, f)[1..] == [];
    } else if held[0].stop == f.stop {
      WillBeSame(c, held[1..], f, rest);
      assert Put(held, f)[1..] == held[1..];
    } else {
      WillBePut(c, held[1..], f, rest);
      assert Put(held, f)[1..] == Put(held[1..], f);
    }
  }

  /** A frame that neither adopts nor replaces changes nothing. */
  lemma {:induction false} WillBeSame(c: Config, held: seq<StreamFrame>, f: StreamFrame, rest: seq<StreamFrame>)
    requires !c.Adopts(f)
    requires forall i :: 0 <= i < |held| ==> held[i].stop != f.stop || !c.Orphan(f)
    ensures WillBe(c, held, [f] + rest) == WillBe(c, held, rest)
  {
    var all := [f] + rest;
    assert all[0] == f && all[1..] == rest;
    if held != [] {
      WillBeSame(c, held[1..], f, rest);
    }
  }

  lemma {:induction false} WillBeAll(c: Config, held: seq<StreamFrame>, f: StreamFrame, rest: seq<StreamFrame>)
    requires c.Adopts(f)
    ensures WillBe(c, held, [f] + rest) == held
  {
    var all := [f] + rest;
    assert all[0] == f && all[1..] == rest;
    if held != [] {
      WillBeAll(c, held[1..], f, rest);
    }
  }

  lemma OrphansStep(c: Config, held: seq<StreamFrame>, f: StreamFrame, rest: seq<StreamFrame>)
    requires Holds(c, held)
    ensures multiset(OrphansOf(c, Out(c, held, f))) + multiset(WillBe(c, Held(c, held, f), rest)) ==
              multiset(WillBe(c, held, [f] + rest)) +
              multiset(if c.Orphan(f) && Adopted(c, f.stop, rest) then [f] else [])
  {
    hide Adopted, Put;
    if c.Orphan(f) {
      WillBePut(c, held, f, rest);
    } else if c.Adopts(f) {
      WillBeAll(c, held, f, rest);
      OrphansConcat(c, held, [f]);
      AllOrphans(c, held);
      assert held + [] == held;
    } else {
      WillBeSame(c, held, f, rest);
      assert [] + [f] == [f];
    }
  }

  lemma Balance(a: multiset<StreamFrame>, b: multiset<StreamFrame>, w: multiset<StreamFrame>, v: multiset<StreamFrame>,
                k: multiset<StreamFrame>, r: multiset<StreamFrame>)
    requires a + w == v + k && b == w + r
    ensures a + b == v + (k + r)
  {
    forall x: StreamFrame ensures (a + b)[x] == (v + (k + r))[x] {
      assert (a + w)[x] == (v + k)[x];
    }
  }

  lemma {:induction false} OrphansFrom(c: Config, held: seq<StreamFrame>, s: seq<StreamFrame>)
    requires Holds(c, held)
    ensures multiset(OrphansOf(c, OutAll(c, held, s))) == multiset(WillBe(c, held, s)) + multiset(Kept(c, s))
    decreases |s|
  {
    hide Out, Held, WillBe, Adopted, Holds, OrphansOf;
    if s == [] {
      NoneWillBe(c, held);
      AllOrphans(c, []);
    } else {
      var f, rest := s[0], s[1..];
      assert s == [f] + rest;
      HeldHolds(c, held, f);
      OrphansFrom(c, Held(c, held, f), rest);
      OrphansConcat(c, Out(c, held, f), OutAll(c, Held(c, held, f), rest));
      OrphansStep(c, held, f, rest);
      var a, b := OrphansOf(c, Out(c, held, f)), OrphansOf(c, OutAll(c, Held(c, held, f), rest));
      var k := if c.Orphan(f) && Adopted(c, f.stop, rest) then [f] else [];
      assert OrphansOf(c, OutAll(c, held, s)) == a + b && multiset(a + b) == multiset(a) + multiset(b);
      Balance(multiset(a), multiset(b), multiset(WillBe(c, Held(c, held, f), rest)), multiset(WillBe(c, held, s)),
              multiset(k), multiset(Kept(c, rest)));
      assert Kept(c, s) == k + Kept(c, rest) && multiset(k + Kept(c, rest)) == multiset(k) + multiset(Kept(c, rest));
    }
  }

  lemma {:induction false} NoneWillBe(c: Config, held: seq<StreamFrame>)
    ensures WillBe(c, held, []) == []
  {
    if held != [] {
      NoneWillBe(c, held[1..]);
    }
  }

  /** One frame more. */
  lemma WrittenSnoc(c: Config, s: seq<StreamFrame>, f: StreamFrame)
    ensures var g, held := Marked(c, s == [], f), HeldAfter(c, [], MarkedAll(c, s));
            && Written(c, s + [f]) == Written(c, s) + (Inserted(c, s == [], f) + Out(c, held, g))
            && HeldAfter(c, [], MarkedAll(c, s + [f])) == Held(c, held, g)
  {
    var g := Marked(c, s == [], f);
    assert MarkedAll(c, s + [f]) == MarkedAll(c, s) + [g];
    OutSnoc(c, [], MarkedAll(c, s), g);
    assert s == [] ==> OutAll(c, [], MarkedAll(c, s)) == [];
  }

  /**
   * Each orphan frame is written once if it is adopted, and not at all if it
   * is replaced first or never adopted; an inserted configuration is written
   * whether or not its stream is an orphan stream.
   */
  lemma OrphansWritten(c: Config, s: seq<StreamFrame>)
    ensures multiset(OrphansOf(c, Written(c, s))) ==
              multiset(OrphansOf(c, InsertedBefore(c, s))) + multiset(Kept(c, MarkedAll(c, s)))
    ensures TRAY_INFO !in c.orphanStreams ==> multiset(OrphansOf(c, Written(c, s))) == multiset(Kept(c, s))
  {
    if s != [] {
      var m, ins := MarkedAll(c, s), InsertedBefore(c, s);
      OrphansFrom(c, [], m);
      OrphansConcat(c, ins, OutAll(c, [], m));
      if TRAY_INFO !in c.orphanStreams {
        assert OrphansOf(c, ins) == [];
        assert m[1..] == s[1..] && Kept(c, m) == Kept(c, s);
      }
    }
  }

  // ----- frame by frame -----

  /**
   * What a later frame adds to the output and makes of the frames held back:
   * nothing if its stream is not written; if it is an orphan stream the frame
   * is held, in the place of the one of its stream; a TrayInfo or Simulation
   * frame is written alone; any other after all that was held.
   */
  lemma NextFrame(c: Config, s: seq<StreamFrame>, f: StreamFrame)
    requires s != []
    ensures var held, next := HeldAfter(c, [], MarkedAll(c, s)), HeldAfter(c, [], MarkedAll(c, s + [f]));
            var out, more := Written(c, s), Written(c, s + [f]);
            if c.streams != [] && f.stop !in c.streams then more == out && next == held
            else if f.stop in c.orphanStreams then more == out && Replaced(held, next, f)
            else if f.stop == 'I' || f.stop == 'S' then more == out + [f] && next == held
            else more == out + held + [f] && next == []
  {
    hide Written, HeldAfter, MarkedAll;
    WrittenSnoc(c, s, f);
    var held := HeldAfter(c, [], MarkedAll(c, s));
    PutReplaced(held, f);
    assert Written(c, s) + (held + [f]) == Written(c, s) + held + [f];
  }

  /** The frame in the place of the first of its stream, at the end if there is none. */
  ghost predicate Replaced(held: seq<StreamFrame>, next: seq<StreamFrame>, f: StreamFrame) {
    if exists i :: 0 <= i < |held| && held[i].stop == f.stop then
      exists i :: 0 <= i < |held| && held[i].stop == f.stop && next == held[i := f] &&
        forall j :: 0 <= j < i ==> held[j].stop != f.stop
    else next == held + [f]
  }

  lemma {:induction false} PutReplaced(held: seq<StreamFrame>, f: StreamFrame)
    ensures Replaced(held, Put(held, f), f)
  {
    if held == [] {
    } else if held[0].stop == f.stop {
      assert Put(held, f) == held[0 := f];
    } else {
      var rest := held[1..];
      PutReplaced(rest, f);
      if exists i :: 0 <= i < |rest| && rest[i].stop == f.stop {
        var i :| 0 <= i < |rest| && rest[i].stop == f.stop && Put(rest, f) == rest[i := f] &&
                 forall j :: 0 <= j < i ==> rest[j].stop != f.stop;
        assert held[i + 1].stop == f.stop && Put(held, f) == held[i + 1 := f];
        forall j | 0 <= j < i + 1 ensures held[j].stop != f.stop {
          assert j > 0 ==> held[j] == rest[j - 1];
        }
      } else {
        forall j | 0 <= j < |held| ensures held[j].stop != f.stop {
          assert j > 0 ==> held[j] == rest[j - 1];
        }
      }
    }
  }

  /**
   * What the first frame writes and leaves held: the configuration goes into it
   * if it is a TrayInfo frame, else in front of it into a frame of its own,
   * unless that stream is not written.
   */
  lemma FirstFrame(c: Config, f: StreamFrame)
    ensures var config := c.streams == [] || 'I' in c.streams;
            var g := if config && f.stop == 'I' then f.(configs := f.configs + 1) else f;
            var before := if config && f.stop != 'I' then [StreamFrame('I', 0, 1)] else [];
            var written := c.streams == [] || f.stop in c.streams;
            && Written(c, [f]) == before + (if written && f.stop !in c.orphanStreams then [g] else [])
            && HeldAfter(c, [], MarkedAll(c, [f])) == if written && f.stop in c.orphanStreams then [g] else []
  {
    var none: seq<StreamFrame> := [];
    WrittenSnoc(c, none, f);
    assert none + [f] == [f];
    assert Written(c, none) == [] && HeldAfter(c, [], MarkedAll(c, none)) == [];
  }
}
