/**
 * Saving an n-ary forest in pre-order with child counts, and reading it back
 * with one stack of counts and one of open nodes.
 */
module TreeArchive {
  import opened Options

  datatype Tree<T> = Node(item: T, kids: seq<Tree<T>>)

  datatype Record<T> = Item(item: T) | Count(count: nat)

  /** A node as the child positions that lead to it; the empty path is the level of the roots. */
  type Path = seq<nat>

  // ----- what is written -----

  lemma Append3<A>(a: seq<A>, b: seq<A>, c: seq<A>)
    ensures (a + b) + c == a + (b + c)
  {
  }

  function Records<T>(f: seq<Tree<T>>): seq<Record<T>> {
    if f == [] then [] else [Item(f[0].item), Count(|f[0].kids|)] + Records(f[0].kids) + Records(f[1..])
  }

  function Saved<T>(f: seq<Tree<T>>): seq<Record<T>> { [Count(|f|)] + Records(f) }

  // ----- what a reader makes of it -----

  /** Read a number of trees; none when the records do not follow the format. */
  function Read<T>(n: nat, s: seq<Record<T>>): (r: Option<(seq<Tree<T>>, seq<Record<T>>)>)
    ensures r.Some? ==> |r.value.0| == n && |r.value.1| + 2 * n <= |s|
    decreases |s|, n
  {
    if n == 0 then Some(([], s))
    else if |s| < 2 || !s[0].Item? || !s[1].Count? then None
    else
      var kids := Read(s[1].count, s[2..]);
      if kids == None then None
      else
        var others := Read(n - 1, kids.value.1);
        if others == None then None
        else Some(([Node(s[0].item, kids.value.0)] + others.value.0, others.value.1))
  }

  /** Reading at least one tree. */
  lemma ReadOne<T>(n: nat, s: seq<Record<T>>)
    requires n > 0
    ensures Read(n, s).Some? ==> |s| >= 2 && s[0].Item? && s[1].Count?
    ensures |s| >= 2 && s[0].Item? && s[1].Count? ==>
              var kids := Read(s[1].count, s[2..]);
              (kids == None ==> Read(n, s) == None) &&
              (kids.Some? ==>
                 var others := Read(n - 1, kids.value.1);
                 Read(n, s) == if others == None then None
                               else Some(([Node(s[0].item, kids.value.0)] + others.value.0, others.value.1)))
  {
  }

  function Parse<T>(s: seq<Record<T>>): Option<(seq<Tree<T>>, seq<Record<T>>)> {
    if s == [] || !s[0].Count? then None else Read(s[0].count, s[1..])
  }

  lemma NoRecords<T>()
    ensures Records<T>([]) == []
  {
  }

  lemma RecordsCons<T>(item: T, kids: seq<Tree<T>>, others: seq<Tree<T>>)
    ensures Records([Node(item, kids)] + others) == [Item(item), Count(|kids|)] + Records(kids) + Records(others)
  {
    assert ([Node(item, kids)] + others)[1..] == others;
  }

  lemma {:induction false} ReadRecords<T>(f: seq<Tree<T>>, tail: seq<Record<T>>)
    ensures Read(|f|, Records(f) + tail) == Some((f, tail))
  {
    hide Records;
    NoRecords<T>();
    if f == [] {
      assert Records(f) + tail == tail;
    } else {
      var s, others := Records(f) + tail, Records(f[1..]) + tail;
      assert f == [Node(f[0].item, f[0].kids)] + f[1..];
      RecordsCons(f[0].item, f[0].kids, f[1..]);
      Append3([Item(f[0].item), Count(|f[0].kids|)] + Records(f[0].kids), Records(f[1..]), tail);
      assert s[2..] == Records(f[0].kids) + others;
      ReadRecords(f[0].kids, others);
      ReadRecords(f[1..], tail);
    }
  }

  lemma {:induction false} ReadOnlyRecords<T>(n: nat, s: seq<Record<T>>)
    ensures Read(n, s).Some? ==> s == Records(Read(n, s).value.0) + Read(n, s).value.1
    decreases |s|, n
  {
    hide Records;
    NoRecords<T>();
    if n > 0 && Read(n, s).Some? {
      var kids := Read(s[1].count, s[2..]);
      ReadOnlyRecords(s[1].count, s[2..]);
      ReadOnlyRecords(n - 1, kids.value.1);
      var others := Read(n - 1, kids.value.1).value;
      RecordsCons(s[0].item, kids.value.0, others.0);
      Append3([s[0], s[1]] + Records(kids.value.0), Records(others.0), others.1);
      Append3([s[0], s[1]], Records(kids.value.0), kids.value.1);
      assert s == [s[0], s[1]] + s[2..];
    }
  }

  /** What was saved, and only what was saved, is read back, and exactly its records are consumed. */
  lemma RoundTrip<T>(s: seq<Record<T>>, f: seq<Tree<T>>, tail: seq<Record<T>>)
    ensures Parse(s) == Some((f, tail)) <==> s == Saved(f) + tail
  {
    if s == Saved(f) + tail {
      assert s[1..] == Records(f) + tail;
      ReadRecords(f, tail);
    }
    if Parse(s) == Some((f, tail)) {
      ReadOnlyRecords(s[0].count, s[1..]);
      assert s == [s[0]] + s[1..];
    }
  }

  // ----- nodes by path -----

  predicate IsNode<T>(f: seq<Tree<T>>, p: Path) {
    p != [] && p[0] < |f| && (|p| > 1 ==> IsNode(f[p[0]].kids, p[1..]))
  }

  function At<T>(f: seq<Tree<T>>, p: Path): Tree<T>
    requires IsNode(f, p)
  {
    if |p| == 1 then f[p[0]] else At(f[p[0]].kids, p[1..])
  }

  /** The nodes below a path: the roots for the empty path, else a node's children. */
  function Level<T>(f: seq<Tree<T>>, p: Path): seq<Tree<T>>
    requires p == [] || IsNode(f, p)
  {
    if p == [] then f else At(f, p).kids
  }

  /** Append trees below a path. */
  function AppendAt<T>(f: seq<Tree<T>>, p: Path, ts: seq<Tree<T>>): seq<Tree<T>>
    decreases |p|
  {
    if p == [] then f + ts
    else if p[0] >= |f| then f
    else f[p[0] := Node(f[p[0]].item, AppendAt(f[p[0]].kids, p[1..], ts))]
  }

  // ----- saving -----

  /** The first node in pre-order outside the subtree of a node, the empty path if there is none. */
  function After<T>(f: seq<Tree<T>>, p: Path): Path
    requires IsNode(f, p)
    decreases |p|
  {
    var inner := if |p| > 1 then After(f[p[0]].kids, p[1..]) else [];
    if inner != [] then [p[0]] + inner else if p[0] + 1 < |f| then [p[0] + 1] else []
  }

  /** The next node in pre-order, the empty path after the last. */
  function Next<T>(f: seq<Tree<T>>, p: Path): Path
    requires IsNode(f, p)
  {
    if At(f, p).kids != [] then p + [0] else After(f, p)
  }

  lemma AfterSplit<T>(f: seq<Tree<T>>, p: Path)
    requires IsNode(f, p)
    ensures p != [] && p[0] < |f| && (|p| > 1 ==> IsNode(f[p[0]].kids, p[1..]))
    ensures var kids, next := f[p[0]].kids, if p[0] + 1 < |f| then [p[0] + 1] else [];
            After(f, p) == if |p| > 1 && After(kids, p[1..]) != [] then [p[0]] + After(kids, p[1..]) else next
  {
  }

  /** The parent of a node, seen from the forest and from the first node on the way. */
  lemma ParentSplit<T>(f: seq<Tree<T>>, p: Path)
    requires IsNode(f, p) && |p| > 1
    ensures var kids, q := f[p[0]].kids, p[1..];
            var parent, inner := p[..|p| - 1], q[..|q| - 1];
            && parent == [p[0]] + inner && (inner == [] || IsNode(kids, inner) ==> IsNode(f, parent))
            && (inner == [] || IsNode(kids, inner) ==> Level(f, parent) == Level(kids, inner))
  {
    var parent, inner := p[..|p| - 1], p[1..][..|p| - 2];
    assert parent == [p[0]] + inner && parent[1..] == inner;
  }

  /** Seen from below: the next sibling, or what comes after the parent. */
  lemma {:induction false} AfterFromBelow<T>(f: seq<Tree<T>>, p: Path)
    requires IsNode(f, p)
    ensures var parent, last := p[..|p| - 1], p[|p| - 1];
            && (parent == [] || IsNode(f, parent))
            && last < |Level(f, parent)|
            && After(f, p) == if last + 1 < |Level(f, parent)| then parent + [last + 1]
                              else if parent == [] then [] else After(f, parent)
    decreases |p|
  {
    hide After, IsNode, Level;
    AfterSplit(f, p);
    LevelRoot(f);
    assert |p| == 1 ==> p[..|p| - 1] == [];
    if |p| > 1 {
      var kids, q := f[p[0]].kids, p[1..];
      var parent, inner := p[..|p| - 1], q[..|q| - 1];
      AfterFromBelow(kids, q);
      ParentSplit(f, p);
      AfterSplit(f, parent);
      assert parent[1..] == inner && q[|q| - 1] == p[|p| - 1];
      assert [p[0]] + (inner + [q[|q| - 1] + 1]) == parent + [p[|p| - 1] + 1];
    }
  }

  lemma LevelRoot<T>(f: seq<Tree<T>>)
    ensures Level(f, []) == f
  {
  }

  function NodeRecords<T>(t: Tree<T>): seq<Record<T>> {
    [Item(t.item), Count(|t.kids|)] + Records(t.kids)
  }

  lemma RecordsFrom<T>(f: seq<Tree<T>>, i: nat)
    requires i <= |f|
    ensures Records(f[i..]) == if i == |f| then [] else NodeRecords(f[i]) + Records(f[i + 1..])
  {
    if i < |f| {
      assert f[i..][0] == f[i] && f[i..][1..] == f[i + 1..];
    }
  }

  /** The records after the subtree of a node, in pre-order. */
  ghost function Rest<T>(f: seq<Tree<T>>, p: Path): seq<Record<T>>
    requires IsNode(f, p)
    decreases |p|
  {
    (if |p| > 1 then Rest(f[p[0]].kids, p[1..]) else []) + Records(f[p[0] + 1..])
  }

  /** The records from a node on, in pre-order. */
  ghost function From<T>(f: seq<Tree<T>>, p: Path): seq<Record<T>>
    requires p == [] || IsNode(f, p)
  {
    if p == [] then [] else NodeRecords(At(f, p)) + Rest(f, p)
  }

  /** From a node one level down. */
  lemma FromBelow<T>(f: seq<Tree<T>>, i: nat, q: Path)
    requires i < |f| && IsNode(f[i].kids, q)
    ensures IsNode(f, [i] + q) && At(f, [i] + q) == At(f[i].kids, q)
    ensures From(f, [i] + q) == From(f[i].kids, q) + Records(f[i + 1..])
  {
    hide Records, NodeRecords;
    assert ([i] + q)[1..] == q;
    Append3(NodeRecords(At(f[i].kids, q)), Rest(f[i].kids, q), Records(f[i + 1..]));
  }

  lemma FromRoot<T>(f: seq<Tree<T>>, i: nat)
    requires i <= |f|
    ensures From(f, []) == []
    ensures if i == |f| then Records(f[i..]) == [] else IsNode(f, [i]) && From(f, [i]) == Records(f[i..])
  {
    hide Records, NodeRecords;
    RecordsFrom(f, i);
  }

  /** A node is a root, or a node of the forest below one. */
  lemma NodeSplit<T>(f: seq<Tree<T>>, p: Path)
    requires IsNode(f, p)
    ensures p != [] && p[0] < |f| && (|p| > 1 ==> IsNode(f[p[0]].kids, p[1..]))
    ensures Rest(f, p) == (if |p| > 1 then Rest(f[p[0]].kids, p[1..]) else []) + Records(f[p[0] + 1..])
  {
  }

  lemma {:induction false} RestIsAfter<T>(f: seq<Tree<T>>, p: Path)
    requires IsNode(f, p)
    ensures After(f, p) == [] || IsNode(f, After(f, p))
    ensures Rest(f, p) == From(f, After(f, p))
    decreases |p|
  {
    hide Records, From, After, Rest, IsNode;
    NodeSplit(f, p);
    AfterSplit(f, p);
    FromRoot(f, p[0] + 1);
    if |p| > 1 {
      var inner := After(f[p[0]].kids, p[1..]);
      RestIsAfter(f[p[0]].kids, p[1..]);
      FromRoot(f[p[0]].kids, 0);
      if inner != [] {
        FromBelow(f, p[0], inner);
      }
    }
  }

  lemma {:induction false} FirstChild<T>(f: seq<Tree<T>>, p: Path)
    requires IsNode(f, p) && At(f, p).kids != []
    ensures IsNode(f, p + [0]) && From(f, p + [0]) == Records(At(f, p).kids) + Rest(f, p)
    decreases |p|
  {
    hide Records, NodeRecords;
    var kids := f[p[0]].kids;
    assert p + [0] == [p[0]] + (p[1..] + [0]);
    if |p| == 1 {
      assert p[1..] + [0] == [0];
      FromRoot(kids, 0);
      assert kids[0..] == kids;
    } else {
      FirstChild(kids, p[1..]);
      Append3(Records(At(f, p).kids), Rest(kids, p[1..]), Records(f[p[0] + 1..]));
    }
    FromBelow(f, p[0], p[1..] + [0]);
  }

  /** One step of the pre-order walk. */
  lemma FromNext<T>(f: seq<Tree<T>>, p: Path)
    requires IsNode(f, p)
    ensures Next(f, p) == [] || IsNode(f, Next(f, p))
    ensures From(f, p) == [Item(At(f, p).item), Count(|At(f, p).kids|)] + From(f, Next(f, p))
  {
    hide Rest, At, After, Records;
    var t := At(f, p);
    RestIsAfter(f, p);
    Append3([Item(t.item), Count(|t.kids|)], Records(t.kids), Rest(f, p));
    if t.kids != [] {
      FirstChild(f, p);
    } else {
      RecordsFrom(t.kids, 0);
      assert t.kids[0..] == t.kids;
    }
  }

  // ----- loading -----

  predicate IsLevel<T>(f: seq<Tree<T>>, p: Path) { p == [] || IsNode(f, p) }

  lemma {:induction false} AppendNothing<T>(f: seq<Tree<T>>, p: Path)
    ensures AppendAt(f, p, []) == f
    decreases |p|
  {
    if p != [] && p[0] < |f| {
      AppendNothing(f[p[0]].kids, p[1..]);
    }
  }

  /** Levels stay where they are when trees are appended. */
  lemma {:induction false} AppendKeeps<T>(f: seq<Tree<T>>, p: Path, ts: seq<Tree<T>>, q: Path)
    requires IsLevel(f, q)
    ensures IsLevel(AppendAt(f, p, ts), q)
    decreases |q|
  {
    if q != [] && p != [] && p[0] == q[0] && |q| > 1 {
      AppendKeeps(f[p[0]].kids, p[1..], ts, q[1..]);
    }
  }

  /** A tree with children may be appended by appending its root and then its children. */
  lemma {:induction false} AppendInParts<T>(f: seq<Tree<T>>, p: Path, item: T, kids: seq<Tree<T>>, others: seq<Tree<T>>)
    requires IsLevel(f, p)
    ensures var q, root := p + [|Level(f, p)|], AppendAt(f, p, [Node(item, [])]);
            && IsLevel(root, q)
            && AppendAt(AppendAt(root, q, kids), p, others) == AppendAt(f, p, [Node(item, kids)] + others)
    decreases |p|
  {
    var q, root := p + [|Level(f, p)|], AppendAt(f, p, [Node(item, [])]);
    if p != [] {
      AppendInParts(f[p[0]].kids, p[1..], item, kids, others);
      assert q[1..] == p[1..] + [|Level(f[p[0]].kids, p[1..])|];
    } else {
      assert [] + kids == kids;
      assert AppendAt(root, q, kids) == f + [Node(item, kids)];
      assert f + [Node(item, kids)] + others == f + ([Node(item, kids)] + others);
    }
  }

  /**
   * The reader's state: at each level of the stack, the number of trees still
   * to be read and the node they go below; the last is read first.
   */
  ghost predicate Open<T>(f: seq<Tree<T>>, counts: seq<nat>, levels: seq<Path>) {
    && |counts| == |levels|
    && forall i :: 0 <= i < |counts| ==> counts[i] > 0 && IsLevel(f, levels[i])
  }

  /** The levels of the two stacks: the level of the roots has no iterator, and is there while roots remain. */
  function Levels(counts: seq<nat>, iters: seq<Path>): seq<Path> {
    (if |iters| < |counts| then [[]] else []) + iters
  }

  /** Read all that is still to be read. */
  function Finish<T>(f: seq<Tree<T>>, counts: seq<nat>, levels: seq<Path>, s: seq<Record<T>>)
    : Option<(seq<Tree<T>>, seq<Record<T>>)>
    requires |counts| == |levels|
    decreases |counts|
  {
    if counts == [] then Some((f, s))
    else
      var n := |counts| - 1;
      var ts := Read(counts[n], s);
      if ts == None then None
      else Finish(AppendAt(f, levels[n], ts.value.0), counts[..n], levels[..n], ts.value.1)
  }

  lemma FinishNone<T>(f: seq<Tree<T>>, s: seq<Record<T>>)
    ensures Finish(f, [], [], s) == Some((f, s))
  {
  }

  lemma FinishOne<T>(f: seq<Tree<T>>, count: nat, s: seq<Record<T>>)
    ensures Finish(f, if count > 0 then [count] else [], if count > 0 then [[]] else [], s) ==
              if Read(count, s) == None then None else Some((f + Read(count, s).value.0, Read(count, s).value.1))
  {
    var root: Path := [];
    assert [count][..0] == [] && [root][..0] == [];
    assert f + [] == f;
  }

  /** A level is on a stack only while it has trees to come. */
  function Push<A>(stack: seq<A>, count: nat, level: A): seq<A> {
    stack + if count > 0 then [level] else []
  }

  lemma FinishPush<T>(f: seq<Tree<T>>, counts: seq<nat>, levels: seq<Path>, count: nat, p: Path, s: seq<Record<T>>)
    requires |counts| == |levels|
    ensures Finish(f, Push(counts, count, count), Push(levels, count, p), s) ==
              if Read(count, s) == None then None
              else Finish(AppendAt(f, p, Read(count, s).value.0), counts, levels, Read(count, s).value.1)
  {
    if count > 0 {
      assert (counts + [count])[..|counts|] == counts && (levels + [p])[..|counts|] == levels;
    } else {
      assert counts + [] == counts && levels + [] == levels;
      AppendNothing(f, p);
    }
  }

  /** The stacks after one node is read: its level has one tree less to come, and its children are a new level. */
  function StepCounts(counts: seq<nat>, count: nat): seq<nat>
    requires counts != [] && counts[|counts| - 1] > 0
  {
    var n := |counts| - 1;
    Push(Push(counts[..n], counts[n] - 1, counts[n] - 1), count, count)
  }

  function StepLevels(counts: seq<nat>, levels: seq<Path>, count: nat, node: Path): seq<Path>
    requires |levels| == |counts| > 0 && counts[|counts| - 1] > 0
  {
    var n := |counts| - 1;
    Push(Push(levels[..n], counts[n] - 1, levels[n]), count, node)
  }

  lemma OpenTop<T>(f: seq<Tree<T>>, counts: seq<nat>, levels: seq<Path>)
    requires counts != [] && Open(f, counts, levels)
    ensures |levels| == |counts| && counts[|counts| - 1] > 0 && IsLevel(f, levels[|counts| - 1])
  {
  }

  /** Reading one node changes nothing about what all of the reading will give. */
  lemma FinishStep<T>(f: seq<Tree<T>>, counts: seq<nat>, levels: seq<Path>, s: seq<Record<T>>)
    requires counts != [] && Open(f, counts, levels)
    ensures Finish(f, counts, levels, s).Some? ==> |s| >= 2 && s[0].Item? && s[1].Count?
    ensures |s| >= 2 && s[0].Item? && s[1].Count? ==>
              var p := levels[|counts| - 1];
              var f1 := AppendAt(f, p, [Node(s[0].item, [])]);
              var c2 := StepCounts(counts, s[1].count);
              var l2 := StepLevels(counts, levels, s[1].count, p + [|Level(f, p)|]);
              Open(f1, c2, l2) && Finish(f1, c2, l2, s[2..]) == Finish(f, counts, levels, s)
  {
    hide Open, Level, AppendAt, IsNode, Read, Finish;
    OpenTop(f, counts, levels);
    var n := |counts| - 1;
    var p := levels[n];
    assert Push(counts[..n], counts[n], counts[n]) == counts && Push(levels[..n], counts[n], p) == levels;
    FinishPush(f, counts[..n], levels[..n], counts[n], p, s);
    ReadOne(counts[n], s);
    if |s| >= 2 && s[0].Item? && s[1].Count? {
      StepOpen(f, counts, levels, s[0].item, s[1].count);
      var q := p + [|Level(f, p)|];
      var f1 := AppendAt(f, p, [Node(s[0].item, [])]);
      var kids := Read(s[1].count, s[2..]);
      FinishPush(f1, Push(counts[..n], counts[n] - 1, counts[n] - 1), Push(levels[..n], counts[n] - 1, p),
                 s[1].count, q, s[2..]);
      if kids.Some? {
        var f2 := AppendAt(f1, q, kids.value.0);
        FinishPush(f2, counts[..n], levels[..n], counts[n] - 1, p, kids.value.1);
        var others := Read(counts[n] - 1, kids.value.1);
        if others.Some? {
          AppendInParts(f, p, s[0].item, kids.value.0, others.value.0);
        }
      }
    }
  }

  lemma StepOpen<T>(f: seq<Tree<T>>, counts: seq<nat>, levels: seq<Path>, item: T, count: nat)
    requires counts != [] && Open(f, counts, levels)
    ensures var p := levels[|counts| - 1];
            Open(AppendAt(f, p, [Node(item, [])]), StepCounts(counts, count),
                 StepLevels(counts, levels, count, p + [|Level(f, p)|]))
  {
    var p := levels[|counts| - 1];
    AppendInParts(f, p, item, [], []);
    forall i | 0 <= i < |levels| ensures IsLevel(AppendAt(f, p, [Node(item, [])]), levels[i]) {
      AppendKeeps(f, p, [Node(item, [])], levels[i]);
    }
  }

  /**
   * Count a node on the two stacks: a level with no trees left is closed, and
   * a node with children is opened. There is one level for each open node, and
   * one for the roots while roots remain.
   */
  method CountNode(counts: seq<nat>, iters: seq<Path>, count: nat, node: Path) returns (c: seq<nat>, i: seq<Path>)
    requires |iters| <= |counts| <= |iters| + 1 && counts != [] && counts[|counts| - 1] > 0
    ensures c == StepCounts(counts, count) && |i| <= |c| <= |i| + 1
    ensures Levels(c, i) == StepLevels(counts, Levels(counts, iters), count, node)
  {
    ghost var n := |counts| - 1;
    assert Levels(counts, iters)[..n] == Levels(counts[..n], if iters == [] then [] else iters[..|iters| - 1]);
    c, i := counts[..|counts| - 1] + [counts[|counts| - 1] - 1], iters;
    if c[|c| - 1] == 0 {
      c := c[..|c| - 1];
      if i != [] {
        i := i[..|i| - 1];
      }
    }
    if count > 0 {
      c, i := c + [count], i + [node];
    }
  }

  class I3Tree<T> {
    var forest: seq<Tree<T>>

    constructor ()
      ensures forest == []
    {
      forest := [];
    }

    /** The iterator's increment: down to the first child, else up to the first node with a next sibling. */
    method Advance(p: Path) returns (n: Path)
      requires IsNode(forest, p)
      ensures n == Next(forest, p)
    {
      if At(forest, p).kids != [] {
        return p + [0];
      }
      n := p;
      AfterFromBelow(forest, n);
      while n[|n| - 1] + 1 == |Level(forest, n[..|n| - 1])|
        invariant IsNode(forest, n) && After(forest, n) == Next(forest, p)
        invariant n[..|n| - 1] == [] || IsNode(forest, n[..|n| - 1])
        decreases |n|
      {
        AfterFromBelow(forest, n);
        n := n[..|n| - 1];
        if n == [] {
          return;
        }
        AfterFromBelow(forest, n);
      }
      AfterFromBelow(forest, n);
      n := n[..|n| - 1] + [n[|n| - 1] + 1];
    }

    method Save() returns (ar: seq<Record<T>>)
      ensures ar == Saved(forest)
    {
      hide IsNode, At, After, Next, Records, From;
      ar := [Count(|forest|)];
      var it: Path := if forest == [] then [] else [0];
      FromRoot(forest, 0);
      assert forest[0..] == forest;
      while it != []
        invariant it == [] || IsNode(forest, it)
        invariant Saved(forest) == ar + From(forest, it)
        decreases |From(forest, it)|
      {
        FromNext(forest, it);
        Append3(ar, [Item(At(forest, it).item), Count(|At(forest, it).kids|)], From(forest, Next(forest, it)));
        ar := ar + [Item(At(forest, it).item), Count(|At(forest, it).kids|)];
        it := Advance(it);
      }
    }

    /**
     * Read a forest from an archive and append it to the roots. A malformed
     * archive is an error; what was read before it stays in the tree.
     */
    method Load(ar: seq<Record<T>>) returns (ok: bool, rest: seq<Record<T>>)
      modifies this
      ensures ok <==> Parse(ar).Some?
      ensures ok ==> forest == old(forest) + Parse(ar).value.0 && rest == Parse(ar).value.1
    {
      hide Finish, Read, Level, AppendAt, IsNode, StepLevels;
      rest := ar;
      if rest == [] || !rest[0].Count? {
        return false, rest;
      }
      var count := rest[0].count;
      rest := rest[1..];
      var counts, iters: seq<Path> := if count > 0 then [count] else [], [];
      FinishOne(forest, count, rest);
      assert Levels(counts, iters) == if count > 0 then [[]] else [];
      while counts != []
        invariant |iters| <= |counts| <= |iters| + 1
        invariant Open(forest, counts, Levels(counts, iters))
        invariant Finish(forest, counts, Levels(counts, iters), rest) ==
                    if Parse(ar) == None then None else Some((old(forest) + Parse(ar).value.0, Parse(ar).value.1))
        decreases |rest|
      {
        FinishStep(forest, counts, Levels(counts, iters), rest);
        if |rest| < 2 || !rest[0].Item? || !rest[1].Count? {
          return false, rest;
        }
        var item;
        item, count, rest := rest[0].item, rest[1].count, rest[2..];
        var top := if iters == [] then [] else iters[|iters| - 1];
        var it := top + [|Level(forest, top)|];
        forest := AppendAt(forest, top, [Node(item, [])]);
        counts, iters := CountNode(counts, iters, count, it);
      }
      FinishNone(forest, rest);
      ok := true;
    }
  }
}
