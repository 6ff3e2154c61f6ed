/** Forward-only frame files, and the concatenation of several. */
module FrameFiles {
  import opened Options
  import opened FrameCaches

  datatype FileType = Closed | Empty | SinglePass | MultiPass

  /** The stream that matches every frame. */
  const NONE_STREAM: char := 'N'

  predicate Matches(f: Frame, s: char) { s == NONE_STREAM || f.stop == s }

  class I3File {
    const content: seq<Frame>
    var fileType: FileType
    /** Frames consumed from the stream so far; the next frame has this index. */
    var frameno: nat
    /** The largest `frameno` ever reached. */
    var size: nat
    var currFrame: Option<Frame>

    ghost predicate Valid()
      reads this
    {
      && frameno <= size <= |content|
      && currFrame == (if frameno == 0 then None else Some(content[frameno - 1]))
      && (fileType == Empty ==> content == [])
    }

    /** Opening a local file; `readable` is false when it cannot be opened. */
    constructor (frames: seq<Frame>, readable: bool, local: bool)
      ensures Valid() && content == frames && frameno == size == 0
      ensures fileType == if !readable then Closed else if !local then SinglePass
                          else if frames == [] then Empty else MultiPass
    {
      content := frames;
      fileType := if !readable then Closed else if !local then SinglePass
                  else if frames == [] then Empty else MultiPass;
      frameno, size, currFrame := 0, 0, None;
    }

    method More() returns (r: bool)
      requires Valid()
      ensures r <==> fileType != Closed && frameno < |content|
    {
      r := fileType != Closed && frameno < |content|;
    }

    /** Load the next frame of the stream. */
    method Load()
      requires Valid() && frameno < |content|
      modifies `frameno, `size, `currFrame
      ensures Valid() && frameno == old(frameno) + 1 && size == if frameno > old(size) then frameno else old(size)
    {
      currFrame := Some(content[frameno]);
      frameno := frameno + 1;
      if frameno > size {
        size := frameno;
      }
    }

    /** The next frame of a stream, 'N' for any; running out of frames is fatal, after all are consumed. */
    method PopFrame(s: char) returns (r: Option<Frame>)
      requires Valid()
      modifies `frameno, `size, `currFrame
      ensures Valid() && frameno >= old(frameno)
      ensures size == if frameno > old(size) then frameno else old(size)
      ensures fileType == Closed ==> r == None && frameno == old(frameno)
      ensures r.Some? ==> frameno > old(frameno) && r.value == content[frameno - 1]
      ensures s == 'N' && fileType != Closed ==>
                if old(frameno) < |content| then r.Some? && frameno == old(frameno) + 1 else r == None
      ensures s != 'N' && r.Some? ==>
                r.value.stop == s && forall i :: old(frameno) <= i < frameno - 1 ==> content[i].stop != s
      ensures r == None && fileType != Closed ==>
                && frameno == |content|
                && (s != 'N' ==> forall i :: old(frameno) <= i < |content| ==> content[i].stop != s)
    {
      if fileType == Closed {
        return None;
      }
      while frameno < |content|
        invariant Valid() && old(frameno) <= frameno
        invariant size == if frameno > old(size) then frameno else old(size)
        invariant forall i :: old(frameno) <= i < frameno ==> !Matches(content[i], s)
        decreases |content| - frameno
      {
        Load();
        if s == NONE_STREAM || currFrame.value.stop == s {
          return currFrame;
        }
      }
      r := None;
    }

    /** Skipping past the end is fatal, after the frames that are there are consumed. */
    method SkipFrames(n: nat) returns (ok: bool)
      requires Valid() && fileType != Closed
      modifies `frameno, `size, `currFrame
      ensures Valid() && (ok <==> old(frameno) + n <= |content|)
      ensures frameno == if ok then old(frameno) + n else |content|
      ensures size == if frameno > old(size) then frameno else old(size)
    {
      var k := 0;
      while k < n && frameno < |content|
        invariant Valid() && 0 <= k <= n && frameno == old(frameno) + k
        invariant size == if frameno > old(size) then frameno else old(size)
      {
        Load();
        k := k + 1;
      }
      ok := k == n;
    }

    method Rewind() returns (ok: bool)
      requires Valid()
      modifies `frameno, `currFrame
      ensures Valid() && (ok <==> fileType == MultiPass)
      ensures frameno == if ok then 0 else old(frameno)
    {
      if fileType != MultiPass {
        return false;
      }
      frameno, currFrame := 0, None;
      ok := true;
    }

    /**
     * When it has to skip frames it skips one too few, so that the next frame
     * is the one before the one asked for.
     */
    method Seek(index: nat) returns (ok: bool)
      requires Valid()
      modifies `frameno, `size, `currFrame
      ensures Valid()
      ensures ok <==> fileType != Closed && (old(frameno) <= index || fileType == MultiPass) && index <= |content|
      ensures size == if frameno > old(size) then frameno else old(size)
      ensures ok ==> frameno == if index == old(frameno) || index == 0 then index else index - 1
      ensures !ok ==> frameno == if fileType != Closed && index > |content| then |content| else old(frameno)
    {
      if fileType == Closed {
        return false;
      }
      if index < frameno {
        ok := Rewind();
        if !ok {
          return;
        }
      }
      if index != frameno {
        ok := SkipFrames(index - frameno - 1);
        if !ok {
          return;
        }
        var more := More();
        if !more {
          return false;
        }
      }
      ok := true;
    }
  }

  // ----- the concatenation of the files -----

  function Flat(contents: seq<seq<Frame>>): seq<Frame> {
    if contents == [] then [] else contents[0] + Flat(contents[1..])
  }

  lemma {:induction false} FlatConcat(a: seq<seq<Frame>>, b: seq<seq<Frame>>)
    ensures Flat(a + b) == Flat(a) + Flat(b)
  {
    if a == [] {
      assert a + b == b;
    } else {
      assert (a + b)[1..] == a[1..] + b;
      FlatConcat(a[1..], b);
    }
  }

  /** The index of the first frame of file `k`; for `k` past the last file, the total. */
  function Start(contents: seq<seq<Frame>>, k: nat): nat
    requires k <= |contents|
  {
    |Flat(contents[..k])|
  }

  lemma StartStep(contents: seq<seq<Frame>>, k: nat)
    requires k < |contents|
    ensures Start(contents, k + 1) == Start(contents, k) + |contents[k]| <= |Flat(contents)|
    ensures forall i :: 0 <= i < |contents[k]| ==> Flat(contents)[Start(contents, k) + i] == contents[k][i]
  {
    assert contents[..k + 1] == contents[..k] + [contents[k]];
    FlatConcat(contents[..k], [contents[k]]);
    assert contents == contents[..k + 1] + contents[k + 1..];
    FlatConcat(contents[..k + 1], contents[k + 1..]);
    assert Flat([contents[k]]) == contents[k];
  }

  lemma {:induction false} StartsOrdered(contents: seq<seq<Frame>>, j: nat, k: nat)
    requires j <= k <= |contents|
    ensures Start(contents, j) <= Start(contents, k)
    decreases k
  {
    if j < k {
      StartsOrdered(contents, j, k - 1);
      StartStep(contents, k - 1);
    }
  }
}
