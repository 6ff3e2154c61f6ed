/**
 * The group of files behind a frame sequence: it serves a frame of the
 * concatenation by index, and learns the size of a file by running off its end.
 */
module FileGroups {
  import opened Options
  import opened FrameCaches
  import opened FrameFiles
  import opened FilePositions

  class FileGroup {
    const files: seq<I3File>
    /** Whether a file has been read to its end, so that its size is known. */
    var hasSize: seq<bool>
    /** One more than the largest index ever fetched. */
    ghost var high: nat

    ghost function Contents(): (c: seq<seq<Frame>>)
      ensures |c| == |files| && forall k :: 0 <= k < |files| ==> c[k] == files[k].content
    {
      seq(|files|, k requires 0 <= k < |files| => files[k].content)
    }

    /** All frames of all files, in order. */
    ghost function Whole(): seq<Frame> { Flat(Contents()) }

    /** The size of a file is known once a fetch ran past its end. */
    ghost predicate Valid()
      reads this, set f | f in files
    {
      Usable() && forall k :: 0 <= k < |files| ==> (hasSize[k] <==> End(Contents(), k) < high)
    }

    ghost predicate Usable()
      reads this, set f | f in files
    {
      && |hasSize| == |files|
      && (forall j, k :: 0 <= j < k < |files| ==> files[j] != files[k])
      && forall k :: 0 <= k < |files| ==> Ready(files[k], hasSize[k])
    }

    /** A file is open, and its size is right once known. */
    ghost predicate Ready(f: I3File, sized: bool)
      reads f
    {
      && f.Valid()
      && (f.fileType == MultiPass || (f.fileType == Empty && f.content == []))
      && (sized ==> f.size == |f.content|)
    }

    /** Local files that could be opened. */
    constructor (contents: seq<seq<Frame>>)
      ensures Valid() && (forall f :: f in files ==> fresh(f)) && Contents() == contents
      ensures Snap() == Positions(seq(|contents|, _ => 0), seq(|contents|, _ => false), 0)
    {
      var fs: seq<I3File> := [];
      var k := 0;
      while k < |contents|
        invariant 0 <= k <= |contents| && |fs| == k && fresh(fs)
        invariant forall i, j :: 0 <= i < j < k ==> fs[i] != fs[j]
        invariant forall i :: 0 <= i < k ==>
                    && fs[i].Valid() && fs[i].content == contents[i] && fs[i].frameno == 0
                    && (fs[i].fileType == MultiPass || (fs[i].fileType == Empty && fs[i].content == []))
      {
        var f := new I3File(contents[k], true, true);
        fs := fs + [f];
        k := k + 1;
      }
      files := fs;
      hasSize := seq(|fs|, _ => false);
      high := 0;
    }

    ghost function Snap(): (p: Positions)
      requires |hasSize| == |files|
      reads this, set f | f in files
      ensures |p.at| == |p.sized| == |files|
    {
      Positions(seq(|files|, k requires 0 <= k < |files| reads this, set f | f in files => files[k].frameno),
                hasSize, high)
    }

    /** The read in a file whose size is known: seek, then pop. */
    method FetchSized(k: nat, local: nat) returns (r: Frame)
      requires Usable() && k < |files| && hasSize[k] && local < |files[k].content|
      modifies files[k]
      ensures Usable()
      ensures var next := if local == 0 || local == old(files[k].frameno) then local else local - 1;
              r == files[k].content[next] && files[k].frameno == next + 1
    {
      var ok := files[k].Seek(local);
      assert Matches(files[k].content[files[k].frameno], NONE_STREAM);
      var f := files[k].PopFrame(NONE_STREAM);
      r := f.value;
    }

    /** The read in a file whose size is not known: rewind if past the frame, then pop up to it or to the end. */
    method FetchUnsized(k: nat, local: nat) returns (r: Option<Frame>)
      requires Usable() && k < |files| && !hasSize[k]
      modifies files[k]
      ensures Usable()
      ensures r == if local < |files[k].content| then Some(files[k].content[local]) else None
      ensures local < |files[k].content| ==> files[k].frameno == local + 1
      ensures local >= |files[k].content| ==> files[k].frameno == files[k].size == |files[k].content|
    {
      var f := files[k];
      if local < f.frameno as int - 1 {
        var ok := f.Rewind();
      }
      while local > f.frameno as int - 1 && f.frameno < |f.content|
        invariant f.Valid() && f.fileType == old(f.fileType)
        invariant local < |f.content| ==> f.frameno <= local + 1
        decreases |f.content| - f.frameno
      {
        assert Matches(f.content[f.frameno], NONE_STREAM);
        var g := f.PopFrame(NONE_STREAM);
      }
      if local == f.frameno as int - 1 {
        r := f.currFrame;
      } else {
        r := None;
      }
    }

    /** The frame at an index of the concatenation, none past its end: the one before it when the seek is short. */
    method GetFrame(index: nat) returns (r: Option<Frame>)
      requires Valid()
      modifies this, set f | f in files
      ensures Valid()
      ensures r == Answer(Contents(), old(Snap()), index) && Snap() == After(Contents(), old(Snap()), index)
    {
      hide Flat, Start, Contents, Answer, Moved, Ready;
      ghost var p := Snap();
      r := ReadFrame(index);
      high := if index < high then high else index + 1;
      assert Snap() == After(Contents(), p, index);
    }

    /** The search through the files. */
    method ReadFrame(index: nat) returns (r: Option<Frame>)
      requires Usable()
      modifies `hasSize, set f | f in files
      ensures Usable() && r == Answer(Contents(), old(Snap()), index)
      ensures forall k :: 0 <= k < |files| ==>
                && (hasSize[k] <==> old(hasSize)[k] || End(Contents(), k) <= index)
                && files[k].frameno == Moved(Contents(), old(Snap()), index, k)
    {
      hide Flat, Start, Contents, I3File.Valid;
      ghost var c, p := Contents(), Snap();
      NoneBeforeAllAfter(c);
      forall k: nat | Lands(c, index, k) ensures ShortSeek(c, p, index) <==> ShortIn(c, p, index, k) {
        ShortHere(c, p, index, k);
      }
      var k, local: nat := 0, index;
      while k < |files|
        invariant k <= |files| && local + Start(c, k) == index
        invariant Usable()
        invariant forall j :: k <= j < |files| ==> hasSize[j] == p.sized[j] && files[j].frameno == p.at[j]
        invariant forall j :: 0 <= j < k ==>
                    && hasSize[j] && End(c, j) <= index
                    && files[j].frameno == if p.sized[j] then p.at[j] else |files[j].content|
      {
        Span(c, k);
        Around(c, index, k);
        if hasSize[k] && local < files[k].size {
          assert Lands(c, index, k);
          var f := FetchSized(k, local);
          return Some(f);
        } else if !hasSize[k] {
          assert local < |files[k].content| ==> Lands(c, index, k);
          r := FetchUnsized(k, local);
          if r.Some? {
            return;
          }
          hasSize := hasSize[k := true];
        }
        local := local - files[k].size;
        k := k + 1;
      }
      Around(c, index, k);
      r := None;
    }

    /** The total size once all files are known, -1 before that. */
    method GetSize() returns (n: int)
      requires Valid()
      ensures n == if forall k :: 0 <= k < |files| ==> hasSize[k] then |Whole()| else -1
    {
      hide Flat, Start, Contents;
      NoneBeforeAllAfter(Contents());
      n := 0;
      for k := 0 to |files|
        invariant n == Start(Contents(), k) && forall j :: 0 <= j < k ==> hasSize[j]
      {
        if !hasSize[k] {
          return -1;
        }
        Span(Contents(), k);
        n := n + files[k].size;
      }
    }

    /** The frames known of: all those of the leading files of known size, and those seen of the next. */
    ghost predicate KnownOf(n: nat)
      requires Valid()
      reads this, set f | f in files
    {
      && n <= |Whole()|
      && (forall k :: 0 <= k < |files| && !hasSize[k] && (forall j :: 0 <= j < k ==> hasSize[j]) ==>
            n == Start(Contents(), k) + files[k].size)
      && ((forall k :: 0 <= k < |files| ==> hasSize[k]) ==> n == |Whole()|)
    }

    method GetCurSize() returns (n: nat)
      requires Valid()
      ensures KnownOf(n)
    {
      hide Flat, Start, Contents;
      NoneBeforeAllAfter(Contents());
      n := 0;
      for k := 0 to |files|
        invariant n == Start(Contents(), k) <= |Whole()| && forall j :: 0 <= j < k ==> hasSize[j]
      {
        Span(Contents(), k);
        n := n + files[k].size;
        if !hasSize[k] {
          break;
        }
      }
    }
  }

  /** Reading past the end and then the last frame of three yields the second. */
  method ReadEndThenLast(a: Frame, b: Frame, c: Frame) returns (r: Option<Frame>)
    ensures r == Some(b)
  {
    var g := new FileGroup([[a, b, c]]);
    ghost var all := g.Contents();
    Span(all, 0);
    NoneBeforeAllAfter(all);
    r := g.GetFrame(3);
    ShortHere(all, g.Snap(), 2, 0);
    r := g.GetFrame(2);
  }
}
