/** In-place edits of a two-level mask: storing, replacing and erasing the row of one key. */
module MaskEdits {
  import opened MaskAlgebra

  /** Turn key `i` on with a new row, inserted at the rank of the key. */
  function InsertRow(m: Mask, i: nat, row: seq<bool>): Mask
    requires i < |m.keys| && Rank(m.keys, i) <= |m.elems|
  {
    var r := Rank(m.keys, i);
    Mask(m.keys[i := true], m.elems[..r] + [row] + m.elems[r..])
  }

  /** Replace the row at the rank of key `i`. */
  function ReplaceRow(m: Mask, i: nat, row: seq<bool>): Mask
    requires i < |m.keys| && Rank(m.keys, i) < |m.elems|
  {
    m.(elems := m.elems[Rank(m.keys, i) := row])
  }

  /** Turn key `i` off and erase the row at its rank. */
  function EraseRow(m: Mask, i: nat): Mask
    requires i < |m.keys| && Rank(m.keys, i) < |m.elems|
  {
    var r := Rank(m.keys, i);
    Mask(m.keys[i := false], m.elems[..r] + m.elems[r + 1..])
  }

  lemma {:induction false} RankInRange(m: Mask, lens: seq<nat>, i: nat)
    requires Fits(m, lens) && i < |lens|
    ensures Rank(m.keys, i) <= |m.elems|
    ensures m.keys[i] ==> Rank(m.keys, i) < |m.elems|
  {
    FitsByRank(m, lens);
    RankStep(m.keys, i);
  }

  /** An edit at the first key. */
  lemma EditHead(m: Mask, row: seq<bool>)
    requires m.keys != [] && (m.keys[0] ==> m.elems != [])
    ensures Rank(m.keys, 0) == 0
    ensures !m.keys[0] ==> InsertRow(m, 0, row) == Cons(true, row, Tail(m))
    ensures m.keys[0] ==>
              ReplaceRow(m, 0, row) == Cons(true, row, Tail(m)) && EraseRow(m, 0) == Cons(false, row, Tail(m))
  {
    assert Rank(m.keys, 0) == 0;
    forall b: bool ensures m.keys[0 := b] == [b] + m.keys[1..] {}
    if m.keys[0] {
      assert m.elems[0 := row] == [row] + m.elems[1..];
      assert m.elems[..0] + m.elems[1..] == m.elems[1..];
    } else {
      assert m.elems[..0] + [row] + m.elems[0..] == [row] + m.elems;
    }
  }

  /** An edit behind the first key is an edit of the tail. */
  lemma InsertTail(m: Mask, i: nat, row: seq<bool>)
    requires 0 < i < |m.keys| && (m.keys[0] ==> m.elems != [])
    requires Rank(m.keys, i) <= |m.elems|
    ensures Rank(Tail(m).keys, i - 1) <= |Tail(m).elems|
    ensures Cons(m.keys[0], Head(m, 0), InsertRow(Tail(m), i - 1, row)) == InsertRow(m, i, row)
  {
    RankTail(m, i);
    var t, r := Tail(m), Rank(m.keys, i);
    assert m.keys[i := true] == [m.keys[0]] + t.keys[i - 1 := true];
    if m.keys[0] {
      assert m.elems[..r] + [row] + m.elems[r..] == [m.elems[0]] + (t.elems[..r - 1] + [row] + t.elems[r - 1..]);
    }
  }

  lemma ReplaceTail(m: Mask, i: nat, row: seq<bool>)
    requires 0 < i < |m.keys| && (m.keys[0] ==> m.elems != [])
    requires Rank(m.keys, i) < |m.elems|
    ensures Rank(Tail(m).keys, i - 1) < |Tail(m).elems|
    ensures Cons(m.keys[0], Head(m, 0), ReplaceRow(Tail(m), i - 1, row)) == ReplaceRow(m, i, row)
  {
    RankTail(m, i);
    var t, r := Tail(m), Rank(m.keys, i);
    assert m.keys == [m.keys[0]] + t.keys;
    if m.keys[0] { assert m.elems[r := row] == [m.elems[0]] + t.elems[r - 1 := row]; }
  }

  lemma EraseTail(m: Mask, i: nat)
    requires 0 < i < |m.keys| && (m.keys[0] ==> m.elems != [])
    requires Rank(m.keys, i) < |m.elems|
    ensures Rank(Tail(m).keys, i - 1) < |Tail(m).elems|
    ensures Cons(m.keys[0], Head(m, 0), EraseRow(Tail(m), i - 1)) == EraseRow(m, i)
  {
    RankTail(m, i);
    var t, r := Tail(m), Rank(m.keys, i);
    assert m.keys[i := false] == [m.keys[0]] + t.keys[i - 1 := false];
    if m.keys[0] {
      assert m.elems[..r] + m.elems[r + 1..] == [m.elems[0]] + (t.elems[..r - 1] + t.elems[r..]);
    }
  }

  lemma NewHead(on: bool, row: seq<bool>, m: Mask, lens: seq<nat>)
    requires Fits(m, lens) && lens != [] && |row| == lens[0]
    ensures Fits(Cons(on, row, Tail(m)), lens)
    ensures Dense(Cons(on, row, Tail(m)), lens) == Dense(m, lens)[0 := if on then row else Zeros(lens[0])]
  {
    hide Fits, Dense;
    FitsHead(m, lens);
    ConsPairs(on, row, Tail(m), lens);
    ConsPairs(m.keys[0], Head(m, lens[0]), Tail(m), lens);
  }

  /** `n` differs from `m` only behind the first key. */
  lemma SameHead(m: Mask, n: Mask, t: Mask, lens: seq<nat>, i: nat, row: seq<bool>)
    requires Fits(m, lens) && 0 < i < |lens|
    requires n == Cons(m.keys[0], Head(m, 0), t)
    requires Fits(t, lens[1..]) && Dense(t, lens[1..]) == Dense(Tail(m), lens[1..])[i - 1 := row]
    ensures Fits(n, lens) && Dense(n, lens) == Dense(m, lens)[i := row]
  {
    hide Fits, Dense;
    FitsHead(m, lens);
    ConsPairs(m.keys[0], Head(m, lens[0]), t, lens);
    ConsPairs(m.keys[0], Head(m, lens[0]), Tail(m), lens);
  }

  /** A mask is its first key in front of the mask of the others. */
  lemma FitsHead(m: Mask, lens: seq<nat>)
    requires Fits(m, lens) && lens != []
    ensures m.keys != [] && (m.keys[0] ==> m.elems != []) && |Head(m, lens[0])| == lens[0]
    ensures Fits(Tail(m), lens[1..]) && m == Cons(m.keys[0], Head(m, lens[0]), Tail(m))
  {
  }

  lemma {:induction false} InsertRowPairs(m: Mask, lens: seq<nat>, i: nat, row: seq<bool>)
    requires Fits(m, lens) && i < |lens| && !m.keys[i] && |row| == lens[i]
    ensures Rank(m.keys, i) <= |m.elems|
    ensures Fits(InsertRow(m, i, row), lens)
    ensures Dense(InsertRow(m, i, row), lens) == Dense(m, lens)[i := row]
    decreases |lens|
  {
    hide Rank, Dense, InsertRow;
    RankInRange(m, lens, i);
    if i == 0 {
      EditHead(m, row);
      NewHead(true, row, m, lens);
    } else {
      InsertTail(m, i, row);
      assert Tail(m).keys[i - 1] == m.keys[i];
      InsertRowPairs(Tail(m), lens[1..], i - 1, row);
      SameHead(m, InsertRow(m, i, row), InsertRow(Tail(m), i - 1, row), lens, i, row);
    }
  }

  lemma {:induction false} ReplaceRowPairs(m: Mask, lens: seq<nat>, i: nat, row: seq<bool>)
    requires Fits(m, lens) && i < |lens| && m.keys[i] && |row| == lens[i]
    ensures Rank(m.keys, i) < |m.elems|
    ensures Fits(ReplaceRow(m, i, row), lens)
    ensures Dense(ReplaceRow(m, i, row), lens) == Dense(m, lens)[i := row]
    decreases |lens|
  {
    hide Rank, Dense, ReplaceRow;
    RankInRange(m, lens, i);
    if i == 0 {
      EditHead(m, row);
      NewHead(true, row, m, lens);
    } else {
      ReplaceTail(m, i, row);
      ReplaceRowPairs(Tail(m), lens[1..], i - 1, row);
      SameHead(m, ReplaceRow(m, i, row), ReplaceRow(Tail(m), i - 1, row), lens, i, row);
    }
  }

  lemma {:induction false} EraseRowPairs(m: Mask, lens: seq<nat>, i: nat)
    requires Fits(m, lens) && i < |lens| && m.keys[i]
    ensures Rank(m.keys, i) < |m.elems|
    ensures Fits(EraseRow(m, i), lens)
    ensures Dense(EraseRow(m, i), lens) == Dense(m, lens)[i := Zeros(lens[i])]
    decreases |lens|
  {
    hide Rank, Dense, EraseRow;
    RankInRange(m, lens, i);
    if i == 0 {
      EditHead(m, Zeros(lens[0]));
      NewHead(false, Zeros(lens[0]), m, lens);
    } else {
      EraseTail(m, i);
      EraseRowPairs(Tail(m), lens[1..], i - 1);
      SameHead(m, EraseRow(m, i), EraseRow(Tail(m), i - 1), lens, i, Zeros(lens[i]));
    }
  }

  // ----- the edits as the mask object meets them -----

  lemma RankBound(m: Mask, lens: seq<nat>, i: nat)
    requires ByRank(m, lens) && i < |lens|
    ensures Rank(m.keys, i) <= |m.elems|
    ensures m.keys[i] ==> Rank(m.keys, i) < |m.elems| && |m.elems[Rank(m.keys, i)]| == lens[i]
  {
    FitsByRank(m, lens);
    RankInRange(m, lens, i);
  }

  lemma InsertByRank(m: Mask, lens: seq<nat>, i: nat, row: seq<bool>)
    requires ByRank(m, lens) && i < |lens| && !m.keys[i] && |row| == lens[i]
    ensures Rank(m.keys, i) <= |m.elems|
    ensures ByRank(InsertRow(m, i, row), lens)
    ensures RowsByRank(InsertRow(m, i, row), lens) == RowsByRank(m, lens)[i := row]
  {
    RowsAreDense(m, lens);
    InsertRowPairs(m, lens, i, row);
    FitsByRank(InsertRow(m, i, row), lens);
    RowsAreDense(InsertRow(m, i, row), lens);
  }

  lemma ReplaceByRank(m: Mask, lens: seq<nat>, i: nat, row: seq<bool>)
    requires ByRank(m, lens) && i < |lens| && m.keys[i] && |row| == lens[i]
    ensures Rank(m.keys, i) < |m.elems|
    ensures ByRank(ReplaceRow(m, i, row), lens)
    ensures RowsByRank(ReplaceRow(m, i, row), lens) == RowsByRank(m, lens)[i := row]
  {
    RowsAreDense(m, lens);
    ReplaceRowPairs(m, lens, i, row);
    FitsByRank(ReplaceRow(m, i, row), lens);
    RowsAreDense(ReplaceRow(m, i, row), lens);
  }

  lemma EraseByRank(m: Mask, lens: seq<nat>, i: nat)
    requires ByRank(m, lens) && i < |lens| && m.keys[i]
    ensures Rank(m.keys, i) < |m.elems|
    ensures ByRank(EraseRow(m, i), lens)
    ensures RowsByRank(EraseRow(m, i), lens) == RowsByRank(m, lens)[i := Zeros(lens[i])]
  {
    RowsAreDense(m, lens);
    EraseRowPairs(m, lens, i);
    FitsByRank(EraseRow(m, i), lens);
    RowsAreDense(EraseRow(m, i), lens);
  }

  /** The list reaches as far as the rank of key `i`, and past it when the key is on. */
  predicate Editing(m: Mask, i: nat) {
    i < |m.keys| && Rank(m.keys, i) <= |m.elems| && (m.keys[i] ==> Rank(m.keys, i) < |m.elems|)
  }

  predicate EditingBit(m: Mask, i: nat, length: nat) {
    Editing(m, i) && (m.keys[i] ==> |m.elems[Rank(m.keys, i)]| == length)
  }

  /** Setting all pulses of a key. */
  function EditKey(m: Mask, i: nat, length: nat, setIt: bool): Mask
    requires Editing(m, i)
  {
    if !m.keys[i] then
      if setIt && length > 0 then InsertRow(m, i, Ones(length)) else m
    else if setIt && length > 0 then ReplaceRow(m, i, Ones(length))
    else if !setIt then EraseRow(m, i)
    else m.(keys := m.keys[i := false])
  }

  /**
   * Setting a key leaves its bit on exactly if there is a pulse to set, and
   * unsetting turns it off. Setting a key whose vector is empty while its bit is
   * on breaks the alignment, and nothing else does; otherwise exactly that key's
   * row changes.
   */
  lemma EditKeyPairs(m: Mask, lens: seq<nat>, i: nat, setIt: bool)
    requires ByRank(m, lens) && i < |lens|
    ensures Editing(m, i)
    ensures EditKey(m, i, lens[i], setIt).keys == m.keys[i := setIt && lens[i] > 0]
    ensures setIt && lens[i] == 0 ==> EditKey(m, i, lens[i], setIt).elems == m.elems
    ensures ByRank(EditKey(m, i, lens[i], setIt), lens) <==> !(setIt && lens[i] == 0 && m.keys[i])
    ensures !(setIt && lens[i] == 0 && m.keys[i]) ==>
              RowsByRank(EditKey(m, i, lens[i], setIt), lens) ==
              RowsByRank(m, lens)[i := if setIt then Ones(lens[i]) else Zeros(lens[i])]
  {
    RankBound(m, lens, i);
    if !m.keys[i] {
      if setIt && lens[i] > 0 {
        InsertByRank(m, lens, i, Ones(lens[i]));
      } else {
        assert RowsByRank(m, lens)[i] == if setIt then Ones(lens[i]) else Zeros(lens[i]);
      }
    } else if setIt && lens[i] > 0 {
      ReplaceByRank(m, lens, i, Ones(lens[i]));
    } else if !setIt {
      EraseByRank(m, lens, i);
    } else {
      ClearBitMisaligns(m, i);
    }
  }

  /** A source with one key and no pulse, its bit on: setting the key leaves a row without a bit. */
  lemma EmptyVectorMisaligns()
    ensures var m := Mask([true], [[]]);
            && ByRank(m, [0]) && Editing(m, 0)
            && EditKey(m, 0, 0, true) == Mask([false], [[]]) && !ByRank(EditKey(m, 0, 0, true), [0])
  {
    var m := Mask([true], [[]]);
    assert [true][..0] == [] && [true][0 := false] == [false];
    assert Fits(m, [0]) by { ConsTail(true, [], Mask([], [])); }
    FitsByRank(m, [0]);
    EditKeyPairs(m, [0], 0, true);
  }

  /** Setting one bit of a key's row, if `bit` names one; a key that was off gets an empty row first. */
  function EditBit(m: Mask, i: nat, length: nat, bit: nat, setIt: bool): Mask
    requires EditingBit(m, i, length)
  {
    if !m.keys[i] then
      if setIt then InsertRow(m, i, if bit < length then Zeros(length)[bit := true] else Zeros(length)) else m
    else if bit < length then ReplaceRow(m, i, m.elems[Rank(m.keys, i)][bit := setIt])
    else m
  }

  /** Setting turns the key on, even if there is no such pulse, and unsetting leaves it; one pair changes at most. */
  lemma EditBitPairs(m: Mask, lens: seq<nat>, i: nat, bit: nat, setIt: bool)
    requires ByRank(m, lens) && i < |lens|
    ensures EditingBit(m, i, lens[i])
    ensures EditBit(m, i, lens[i], bit, setIt).keys == m.keys[i := m.keys[i] || setIt]
    ensures ByRank(EditBit(m, i, lens[i], bit, setIt), lens)
    ensures |RowsByRank(m, lens)[i]| == lens[i]
    ensures RowsByRank(EditBit(m, i, lens[i], bit, setIt), lens) ==
            if bit < lens[i] then RowsByRank(m, lens)[i := RowsByRank(m, lens)[i][bit := setIt]]
            else RowsByRank(m, lens)
  {
    RankBound(m, lens, i);
    var rows := RowsByRank(m, lens);
    if !m.keys[i] {
      if setIt {
        InsertByRank(m, lens, i, if bit < lens[i] then Zeros(lens[i])[bit := true] else Zeros(lens[i]));
        assert rows[i := rows[i]] == rows;
      } else if bit < lens[i] {
        assert rows[i][bit := false] == rows[i];
        assert rows[i := rows[i]] == rows;
      }
    } else if bit < lens[i] {
      ReplaceByRank(m, lens, i, rows[i][bit := setIt]);
    }
  }

  /** Turning a key off without erasing its row always breaks the alignment. */
  lemma ClearBitMisaligns(m: Mask, i: nat)
    requires Aligned(m) && i < |m.keys| && m.keys[i]
    ensures !Aligned(m.(keys := m.keys[i := false]))
  {
    assert m.keys == m.keys[..i] + [true] + m.keys[i + 1..];
    assert m.keys[i := false] == m.keys[..i] + [false] + m.keys[i + 1..];
    CountConcat(m.keys[..i] + [true], m.keys[i + 1..]);
    CountConcat(m.keys[..i], [true]);
    CountConcat(m.keys[..i] + [false], m.keys[i + 1..]);
    CountConcat(m.keys[..i], [false]);
  }

  // ----- histories -----

  /** One call: all pulses of key `i`, one pulse of key `i`, or everything off. */
  datatype Edit = All(i: nat, on: bool) | One(i: nat, bit: nat, on: bool) | Nothing

  predicate InRange(e: Edit, lens: seq<nat>) {
    e.Nothing? || e.i < |lens|
  }

  /** What an edit does to the pairs. */
  function EditPairs(rows: seq<seq<bool>>, e: Edit, lens: seq<nat>): (r: seq<seq<bool>>)
    requires Shaped(rows, lens) && InRange(e, lens)
    ensures Shaped(r, lens)
  {
    match e
    case All(i, on) => rows[i := if on then Ones(lens[i]) else Zeros(lens[i])]
    case One(i, bit, on) => if bit < lens[i] then rows[i := rows[i][bit := on]] else rows
    case Nothing => seq(|lens|, i requires 0 <= i < |lens| => Zeros(lens[i]))
  }

  /** What an edit does to the stored mask. */
  ghost function EditMask(m: Mask, e: Edit, lens: seq<nat>): Mask
    requires ByRank(m, lens) && InRange(e, lens)
  {
    match e
    case All(i, on) => EditKeyPairs(m, lens, i, on); EditKey(m, i, lens[i], on)
    case One(i, bit, on) => EditBitPairs(m, lens, i, bit, on); EditBit(m, i, lens[i], bit, on)
    case Nothing => Mask(Zeros(|m.keys|), [])
  }

  /** The edit that breaks the alignment: setting a key whose vector is empty while its bit is on. */
  predicate Breaks(m: Mask, e: Edit, lens: seq<nat>)
    requires |m.keys| == |lens| && InRange(e, lens)
  {
    e.All? && e.on && lens[e.i] == 0 && m.keys[e.i]
  }

  lemma ShapedByRank(m: Mask, lens: seq<nat>)
    requires ByRank(m, lens)
    ensures Shaped(RowsByRank(m, lens), lens)
  {
    RowsAreDense(m, lens);
  }

  lemma EditMaskPairs(m: Mask, e: Edit, lens: seq<nat>)
    requires ByRank(m, lens) && InRange(e, lens)
    ensures Shaped(RowsByRank(m, lens), lens)
    ensures ByRank(EditMask(m, e, lens), lens) <==> !Breaks(m, e, lens)
    ensures !Breaks(m, e, lens) ==>
              RowsByRank(EditMask(m, e, lens), lens) == EditPairs(RowsByRank(m, lens), e, lens)
  {
    ShapedByRank(m, lens);
    match e
    case All(i, on) => EditKeyPairs(m, lens, i, on);
    case One(i, bit, on) => EditBitPairs(m, lens, i, bit, on);
    case Nothing =>
      AnyZeros(Zeros(|m.keys|));
      CountZero(Zeros(|m.keys|));
      assert RowsByRank(EditMask(m, e, lens), lens) == EditPairs(RowsByRank(m, lens), e, lens);
  }

  ghost predicate AllInRange(edits: seq<Edit>, lens: seq<nat>) {
    forall e <- edits :: InRange(e, lens)
  }

  /** No edit of the history breaks the alignment when its turn comes. */
  ghost predicate Harmless(m: Mask, edits: seq<Edit>, lens: seq<nat>)
    requires ByRank(m, lens) && AllInRange(edits, lens)
    decreases |edits|
  {
    edits == [] ||
    (&& !Breaks(m, edits[0], lens)
     && (EditMaskPairs(m, edits[0], lens); Harmless(EditMask(m, edits[0], lens), edits[1..], lens)))
  }

  ghost function RunMask(m: Mask, edits: seq<Edit>, lens: seq<nat>): Mask
    requires ByRank(m, lens) && AllInRange(edits, lens) && Harmless(m, edits, lens)
    decreases |edits|
  {
    if edits == [] then m
    else
      EditMaskPairs(m, edits[0], lens);
      RunMask(EditMask(m, edits[0], lens), edits[1..], lens)
  }

  ghost function RunPairs(rows: seq<seq<bool>>, edits: seq<Edit>, lens: seq<nat>): seq<seq<bool>>
    requires Shaped(rows, lens) && AllInRange(edits, lens)
    decreases |edits|
  {
    if edits == [] then rows else RunPairs(EditPairs(rows, edits[0], lens), edits[1..], lens)
  }

  /**
   * Over every history without a breaking edit the list keeps one row of the
   * right length per on key bit, in key order, and the mask selects what the
   * same history does to a plain table of (key, pulse) bits.
   */
  lemma {:induction false} HistoryRefines(m: Mask, edits: seq<Edit>, lens: seq<nat>)
    requires ByRank(m, lens) && AllInRange(edits, lens) && Harmless(m, edits, lens)
    ensures Shaped(RowsByRank(m, lens), lens) && ByRank(RunMask(m, edits, lens), lens)
    ensures RowsByRank(RunMask(m, edits, lens), lens) == RunPairs(RowsByRank(m, lens), edits, lens)
    decreases |edits|
  {
    ShapedByRank(m, lens);
    if edits != [] {
      EditMaskPairs(m, edits[0], lens);
      HistoryRefines(EditMask(m, edits[0], lens), edits[1..], lens);
    }
  }

  /** Any other history loses the alignment at its first breaking edit. */
  lemma {:induction false} HistoryBreaks(m: Mask, edits: seq<Edit>, lens: seq<nat>) returns (k: nat)
    requires ByRank(m, lens) && AllInRange(edits, lens) && !Harmless(m, edits, lens)
    ensures k < |edits| && AllInRange(edits[..k], lens) && Harmless(m, edits[..k], lens)
    ensures var before := RunMask(m, edits[..k], lens);
            ByRank(before, lens) && Breaks(before, edits[k], lens) && !ByRank(EditMask(before, edits[k], lens), lens)
    decreases |edits|
  {
    EditMaskPairs(m, edits[0], lens);
    if Breaks(m, edits[0], lens) {
      k := 0;
    } else {
      var next := EditMask(m, edits[0], lens);
      var j := HistoryBreaks(next, edits[1..], lens);
      k := j + 1;
      assert edits[..k][0] == edits[0] && edits[..k][1..] == edits[1..][..j];
      HistoryRefines(next, edits[1..][..j], lens);
      EditMaskPairs(RunMask(next, edits[1..][..j], lens), edits[k], lens);
    }
  }
}
