/**
 * Properties of the slot manager over sequences of events: repeated copies of
 * one text, a run of distinct texts filling the grid, eviction followed by a
 * new entry, image deduplication by digest, and the behaviour of the
 * cursor-based full-grid test after a position is refilled.
 */
module SlotProperties {
  import opened Grid
  import opened ImageHash
  import opened SlotSpec

  /** A change event while tracking, with text on the clipboard and no image. */
  function TextEvent(t: string): (snap: Snapshot) {
    Snapshot(true, Got(t), Absent)
  }

  /** A change event while tracking, with an image on the clipboard and no text. */
  function ImageEvent(b: Bitmap): (snap: Snapshot) {
    Snapshot(true, Absent, Got(b))
  }

  function TextEvents(ts: seq<string>): (snaps: seq<Snapshot>)
    ensures |snaps| == |ts|
    ensures forall i :: 0 <= i < |ts| ==> snaps[i] == TextEvent(ts[i])
  {
    seq(|ts|, i requires 0 <= i < |ts| => TextEvent(ts[i]))
  }

  predicate AllAdmissible(v: Variant, snaps: seq<Snapshot>) {
    forall i :: 0 <= i < |snaps| ==> Admissible(v, snaps[i])
  }

  /** The state after handling a sequence of change events in order. */
  function Replay(v: Variant, md5: seq<byte> -> Digest, s: State, snaps: seq<Snapshot>): (r: State)
    requires WellFormed(s) && AllAdmissible(v, snaps)
    ensures WellFormed(r)
  {
    if snaps == [] then s
    else OnChange(v, md5, Replay(v, md5, s, snaps[..|snaps| - 1]), snaps[|snaps| - 1])
  }

  /** No two neighbouring texts are equal. */
  predicate ConsecutiveDistinct(ts: seq<string>) {
    forall i :: 0 < i < |ts| ==> ts[i] != ts[i - 1]
  }

  /**
   * Copying the same text any number of times in a row has the effect of
   * copying it once: at most one button is created.
   */
  lemma {:induction false} RepeatedTextCreatesOnce(v: Variant, md5: seq<byte> -> Digest, s: State, t: string, n: nat)
    requires WellFormed(s) && !s.clicked && !s.clickedTwice && 1 <= n
    ensures AllAdmissible(v, seq(n, _ => TextEvent(t)))
    ensures Replay(v, md5, s, seq(n, _ => TextEvent(t))) == OnChange(v, md5, s, TextEvent(t))
    ensures |OnChange(v, md5, s, TextEvent(t)).buttons| <= |s.buttons| + 1
  {
    var snaps := seq(n, _ => TextEvent(t));
    assert snaps[..n - 1] == seq(n - 1, _ => TextEvent(t));
    var once := OnChange(v, md5, s, TextEvent(t));
    if n == 1 {
      assert snaps[..0] == [];
    } else {
      RepeatedTextCreatesOnce(v, md5, s, t, n - 1);
      assert once.textBuffer == Some(t) && !once.clicked && !once.clickedTwice;
      DuplicateTextEndsHandler(v, md5, once, TextEvent(t));
    }
  }

  /**
   * The state after copying the texts `ts` one after another from the start,
   * when no two neighbours are equal: the first nine are buttons 0 to 8 at
   * positions 0 to 8 in order, exactly those positions are filled, the cursor
   * is at the next index (column 0 of row 4 once the grid is full), and the
   * text buffer holds the last text.
   */
  function FilledState(ts: seq<string>): (s: State)
    ensures WellFormed(s)
  {
    var n := if |ts| < Positions then |ts| else Positions;
    var buttons := seq(n, j requires 0 <= j < n => Button(j, ColumnOf(j), RowOf(j), TextEntry(ts[j])));
    assert forall j :: 0 <= j < n ==> OnGrid(buttons[j].column, buttons[j].row) by {
      forall j | 0 <= j < n
        ensures OnGrid(buttons[j].column, buttons[j].row)
      {
        PositionRoundTrip(j, 0, 0);
      }
    }
    State(seq(Positions, j => j < n), ColumnOf(n), RowOf(n), n, false, false,
          if ts == [] then None else Some(ts[|ts| - 1]), None, None, buttons)
  }

  /** Marking the next position filled extends the filled prefix by one. */
  lemma FillNextPosition(ts: seq<string>, t: string)
    requires |ts| < Positions
    ensures FilledState(ts).filled[|ts| := true] == FilledState(ts + [t]).filled
  {
    var f, g := FilledState(ts).filled[|ts| := true], FilledState(ts + [t]).filled;
    forall j | 0 <= j < Positions
      ensures f[j] == g[j]
    {
    }
  }

  /** The button for the next text is the next one of the filling. */
  lemma AppendNextButton(ts: seq<string>, t: string)
    requires |ts| < Positions
    ensures FilledState(ts).buttons + [Button(|ts|, ColumnOf(|ts|), RowOf(|ts|), TextEntry(t))]
            == FilledState(ts + [t]).buttons
  {
    var m := |ts|;
    var b, c := FilledState(ts).buttons + [Button(m, ColumnOf(m), RowOf(m), TextEntry(t))], FilledState(ts + [t]).buttons;
    forall j | 0 <= j <= m
      ensures b[j] == c[j]
    {
      if j < m {
        assert b[j] == FilledState(ts).buttons[j];
      }
    }
  }

  /** A novel text on a grid that is not yet full takes the next position. */
  lemma TextFillsNextPosition(ts: seq<string>, t: string)
    requires |ts| < Positions
    ensures Create(FilledState(ts).(textBuffer := Some(t)), TextEntry(t)) == FilledState(ts + [t])
  {
    var s1 := FilledState(ts).(textBuffer := Some(t));
    CreateFillsLowestFree(s1, TextEntry(t), |ts|);
    FillNextPosition(ts, t);
    AppendNextButton(ts, t);
    var r := Create(s1, TextEntry(t));
    CellOfIndex(r.column, r.row);
  }

  /** A novel text on a full grid is dropped: only the text buffer changes. */
  lemma TextOnFullGridDropped(ts: seq<string>, t: string)
    requires Positions <= |ts|
    ensures Create(FilledState(ts).(textBuffer := Some(t)), TextEntry(t)) == FilledState(ts + [t])
  {
    var s1 := FilledState(ts).(textBuffer := Some(t));
    CreateDroppedIffCursorPastGrid(s1, TextEntry(t));
    var expected := FilledState(ts + [t]);
    assert s1.buttons == expected.buttons by {
      forall j | 0 <= j < Positions
        ensures s1.buttons[j] == expected.buttons[j]
      {
        assert (ts + [t])[j] == ts[j];
      }
    }
  }

  /** One more text, different from the last, extends the filling by that text. */
  lemma NovelTextExtendsFilling(v: Variant, md5: seq<byte> -> Digest, ts: seq<string>, t: string)
    requires ts == [] || ts[|ts| - 1] != t
    ensures OnChange(v, md5, FilledState(ts), TextEvent(t)) == FilledState(ts + [t])
  {
    NovelTextCreatesOnce(v, md5, FilledState(ts), TextEvent(t));
    if |ts| < Positions {
      TextFillsNextPosition(ts, t);
    } else {
      TextOnFullGridDropped(ts, t);
    }
  }

  /** Before any copy, the window is in the state of the empty filling. */
  lemma NothingFilledInitially()
    ensures Init() == FilledState([])
  {
    var s := FilledState([]);
    assert s.filled == Init().filled by {
      forall j | 0 <= j < Positions
        ensures s.filled[j] == Init().filled[j]
      {
      }
    }
    assert s.buttons == [];
  }

  /** Every text event reads successfully, so a run of them suits both variants. */
  lemma TextEventsAdmissible(v: Variant, ts: seq<string>)
    ensures AllAdmissible(v, TextEvents(ts))
  {
  }

  /** Replaying a run of text events is replaying all but the last, then the last. */
  lemma ReplayTextsLast(v: Variant, md5: seq<byte> -> Digest, ts: seq<string>)
    requires ts != []
    ensures AllAdmissible(v, TextEvents(ts)) && AllAdmissible(v, TextEvents(ts[..|ts| - 1]))
    ensures Replay(v, md5, Init(), TextEvents(ts)) ==
      OnChange(v, md5, Replay(v, md5, Init(), TextEvents(ts[..|ts| - 1])), TextEvent(ts[|ts| - 1]))
  {
    TextEventsAdmissible(v, ts);
    TextEventsAdmissible(v, ts[..|ts| - 1]);
    assert TextEvents(ts)[..|ts| - 1] == TextEvents(ts[..|ts| - 1]);
  }

  /** The induction step: one more distinct text extends the replayed filling. */
  lemma DistinctTextStep(v: Variant, md5: seq<byte> -> Digest, ts: seq<string>)
    requires ts != [] && ConsecutiveDistinct(ts)
    requires AllAdmissible(v, TextEvents(ts[..|ts| - 1]))
    requires Replay(v, md5, Init(), TextEvents(ts[..|ts| - 1])) == FilledState(ts[..|ts| - 1])
    ensures AllAdmissible(v, TextEvents(ts))
    ensures Replay(v, md5, Init(), TextEvents(ts)) == FilledState(ts)
  {
    var m := |ts| - 1;
    var prev := ts[..m];
    ReplayTextsLast(v, md5, ts);
    if m > 0 {
      assert ts[m] != prev[m - 1];
    }
    NovelTextExtendsFilling(v, md5, prev, ts[m]);
    ButLastThenLast(ts);
  }

  lemma ButLastThenLast(ts: seq<string>)
    requires ts != []
    ensures ts[..|ts| - 1] + [ts[|ts| - 1]] == ts
  {
  }

  /**
   * Distinct texts copied from the start fill the grid position by position:
   * the first nine get positions 0 to 8 in order, and every later one is
   * dropped because the cursor row has passed the grid.
   */
  lemma {:induction false} DistinctTextsFillGrid(v: Variant, md5: seq<byte> -> Digest, ts: seq<string>)
    requires ConsecutiveDistinct(ts)
    ensures AllAdmissible(v, TextEvents(ts))
    ensures Replay(v, md5, Init(), TextEvents(ts)) == FilledState(ts)
  {
    TextEventsAdmissible(v, ts);
    if ts == [] {
      NothingFilledInitially();
    } else {
      DistinctTextsFillGrid(v, md5, ts[..|ts| - 1]);
      DistinctTextStep(v, md5, ts);
    }
  }

  /**
   * Evicting a button whose position is the lowest free one afterwards makes
   * the next created button take exactly that cell.
   */
  lemma EvictThenCreateReusesPosition(v: Variant, s: State, k: int, e: Entry)
    requires WellFormed(s) && 0 <= k < |s.buttons|
    requires forall j :: 0 <= j < IndexOf(s.buttons[k].column, s.buttons[k].row) ==> s.filled[j]
    ensures var b := s.buttons[k];
      var r := Create(Evict(v, s, k), e);
      && |r.buttons| == |s.buttons|
      && r.buttons[|r.buttons| - 1] == Button(s.counter, b.column, b.row, e)
      && r.filled == s.filled[IndexOf(b.column, b.row) := true]
  {
    var b := s.buttons[k];
    var i := IndexOf(b.column, b.row);
    EvictClearsOnlyItsPosition(v, s, k);
    var s1 := Evict(v, s, k);
    PositionRoundTrip(0, b.column, b.row);
    assert forall j :: 0 <= j < i ==> s1.filled[j];
    CreateFillsLowestFree(s1, e, i);
    var r := Create(s1, e);
    assert r.filled == s1.filled[i := true];
    assert s1.filled == s.filled[i := false];
    ClearThenFill(s.filled, i);
  }

  lemma ClearThenFill(f: seq<bool>, i: int)
    requires 0 <= i < |f|
    ensures f[i := false][i := true] == f[i := true]
  {
  }

  /**
   * The image dedup is keyed on the digest: a second image is a duplicate of
   * the first exactly when their MD5 digests are equal, and then it creates
   * nothing.
   */
  lemma SecondImageIsDuplicateIffSameDigest(v: Variant, md5: seq<byte> -> Digest, s: State, b1: Bitmap, b2: Bitmap)
    requires WellFormed(s) && !s.clicked && !s.clickedTwice
    ensures var s1 := OnChange(v, md5, s, ImageEvent(b1));
      var s2 := OnChange(v, md5, s1, ImageEvent(b2));
      && (s2.hashBuffer == s1.hashBuffer <==> md5(b1) == md5(b2))
      && (md5(b1) == md5(b2) ==> s2.buttons == s1.buttons && s2.filled == s1.filled)
  {
    var s1 := OnChange(v, md5, s, ImageEvent(b1));
    assert s1.hashBuffer == Some(Hex(md5(b1)));
    HexInjective(md5(b1), md5(b2));
  }

  /**
   * In Current, eviction resets the text buffer: copying the last text again
   * is novel and takes the freed position.
   */
  lemma EvictionResetsTextDedupInCurrent(md5: seq<byte> -> Digest, s: State, k: int, t: string)
    requires WellFormed(s) && !s.clicked && !s.clickedTwice && 0 <= k < |s.buttons|
    requires s.textBuffer == Some(t) && t != ""
    ensures var r := OnChange(Current, md5, Evict(Current, s, k), TextEvent(t));
      r.textBuffer == Some(t) && |r.buttons| == |s.buttons|
  {
    var e := Evict(Current, s, k);
    EvictClearsOnlyItsPosition(Current, s, k);
    NovelTextCreatesOnce(Current, md5, e, TextEvent(t));
    CreateDroppedIffCursorPastGrid(e.(textBuffer := Some(t)), TextEntry(t));
  }

  /**
   * In Legacy, eviction keeps the text buffer: copying the last text again is
   * a duplicate and changes nothing.
   */
  lemma EvictionKeepsTextDedupInLegacy(md5: seq<byte> -> Digest, s: State, k: int, t: string)
    requires WellFormed(s) && !s.clicked && !s.clickedTwice && 0 <= k < |s.buttons|
    requires s.textBuffer == Some(t)
    ensures OnChange(Legacy, md5, Evict(Legacy, s, k), TextEvent(t)) == Evict(Legacy, s, k)
  {
    EvictClearsOnlyItsPosition(Legacy, s, k);
    DuplicateTextEndsHandler(Legacy, md5, Evict(Legacy, s, k), TextEvent(t));
  }

  /** Eviction never resets the image dedup: re-copying the last image still creates nothing. */
  lemma EvictionKeepsImageDedup(v: Variant, md5: seq<byte> -> Digest, s: State, k: int, b: Bitmap)
    requires WellFormed(s) && !s.clicked && !s.clickedTwice && 0 <= k < |s.buttons|
    requires s.hashBuffer == Some(Hex(md5(b)))
    ensures var e := Evict(v, s, k);
      var r := OnChange(v, md5, e, ImageEvent(b));
      r.buttons == e.buttons && r.filled == e.filled && r.hashBuffer == s.hashBuffer
  {
    EvictClearsOnlyItsPosition(v, s, k);
    DuplicateImageCreatesNothing(v, md5, Evict(v, s, k), b);
  }

  /**
   * Novel text when exactly one position is free: the button goes to that
   * position, the grid is full afterwards and the cursor is at the next index.
   */
  lemma NovelTextFillsOnlyHole(v: Variant, md5: seq<byte> -> Digest, s: State, t: string, i: int)
    requires WellFormed(s) && !s.clicked && !s.clickedTwice && s.textBuffer != Some(t)
    requires 0 <= i < Positions && !s.filled[i]
    requires forall j :: 0 <= j < Positions && j != i ==> s.filled[j]
    ensures var r := OnChange(v, md5, s, TextEvent(t));
      && (forall j :: 0 <= j < Positions ==> r.filled[j])
      && r.buttons == s.buttons + [Button(s.counter, ColumnOf(i), RowOf(i), TextEntry(t))]
      && IndexOf(r.column, r.row) == i + 1
      && r.counter == s.counter + 1
      && !r.clicked && !r.clickedTwice && r.textBuffer == Some(t)
  {
    NovelTextCreatesOnce(v, md5, s, TextEvent(t));
    var s1 := s.(textBuffer := Some(t));
    CreateFillsLowestFree(s1, TextEntry(t), i);
    var r := Create(s1, TextEntry(t));
    forall j | 0 <= j < Positions
      ensures r.filled[j]
    {
      assert r.filled[j] == s1.filled[i := true][j];
    }
  }

  /** Novel text on a full grid whose cursor row is still on the grid is placed at the cursor. */
  lemma NovelTextStacksAtCursor(v: Variant, md5: seq<byte> -> Digest, s: State, t: string)
    requires WellFormed(s) && !s.clicked && !s.clickedTwice && s.textBuffer != Some(t)
    requires s.row <= 3 && forall j :: 0 <= j < Positions ==> s.filled[j]
    ensures OnChange(v, md5, s, TextEvent(t)).buttons == s.buttons + [Button(s.counter, s.column, s.row, TextEntry(t))]
  {
    NovelTextCreatesOnce(v, md5, s, TextEvent(t));
    CreateOnFullGridUsesCursor(s.(textBuffer := Some(t)), TextEntry(t));
  }

  /** Evicting the middle button (index 4) of a grid filled by nine texts frees only position 4. */
  lemma EvictMiddleOfFilledGrid(v: Variant, ts: seq<string>, t: string)
    requires |ts| == Positions && t != ts[Positions - 1] && t != ""
    ensures var e := Evict(v, FilledState(ts), 4);
      && !e.filled[4] && (forall j :: 0 <= j < Positions && j != 4 ==> e.filled[j])
      && |e.buttons| == Positions - 1 && e.buttons[4] == FilledState(ts).buttons[5]
      && e.counter == Positions
      && !e.clicked && !e.clickedTwice && e.textBuffer != Some(t)
  {
    var full := FilledState(ts);
    EvictClearsOnlyItsPosition(v, full, 4);
    PositionRoundTrip(4, 0, 0);
  }

  /**
   * As written, a grid that was full, had one button evicted and that
   * position refilled, is full again with the cursor still on the grid: the
   * next novel text passes the full-grid test and places a tenth button on a
   * cell another button already occupies.
   */
  lemma RefilledGridStacksButtons(v: Variant, md5: seq<byte> -> Digest, ts: seq<string>, t1: string, t2: string)
    requires |ts| == Positions && ConsecutiveDistinct(ts)
    requires t1 != ts[Positions - 1] && t1 != "" && t2 != t1
    ensures AllAdmissible(v, TextEvents(ts))
    ensures var full := Replay(v, md5, Init(), TextEvents(ts));
      |full.buttons| == Positions &&
      var refilled := OnChange(v, md5, Evict(v, full, 4), TextEvent(t1));
      var r := OnChange(v, md5, refilled, TextEvent(t2));
      && (forall j :: 0 <= j < Positions ==> refilled.filled[j])
      && refilled.row <= 3
      && |r.buttons| == Positions + 1
      && r.buttons[4].column == r.buttons[Positions].column
      && r.buttons[4].row == r.buttons[Positions].row
      && r.buttons[4].name != r.buttons[Positions].name
  {
    DistinctTextsFillGrid(v, md5, ts);
    var full := FilledState(ts);
    EvictMiddleOfFilledGrid(v, ts, t1);
    var e := Evict(v, full, 4);
    NovelTextFillsOnlyHole(v, md5, e, t1, 4);
    var refilled := OnChange(v, md5, e, TextEvent(t1));
    assert refilled.column == 2 && refilled.row == 2;
    NovelTextStacksAtCursor(v, md5, refilled, t2);
    var r := OnChange(v, md5, refilled, TextEvent(t2));
    assert r.buttons[4] == full.buttons[5];
  }

  /**
   * Refilling the last position is different: the button goes to cell (2, 3),
   * the cursor step moves the cursor to row 4, and the next novel text fails
   * the full-grid test and is dropped, changing only the text buffer.
   */
  lemma RefilledLastPositionDropsNext(v: Variant, md5: seq<byte> -> Digest, s: State, t1: string, t2: string)
    requires WellFormed(s) && !s.clicked && !s.clickedTwice && s.textBuffer != Some(t1) && t2 != t1
    requires !s.filled[Positions - 1] && forall j :: 0 <= j < Positions - 1 ==> s.filled[j]
    ensures var refilled := OnChange(v, md5, s, TextEvent(t1));
      var r := OnChange(v, md5, refilled, TextEvent(t2));
      && (forall j :: 0 <= j < Positions ==> refilled.filled[j])
      && refilled.column == 0 && refilled.row == 4
      && r == refilled.(textBuffer := Some(t2))
  {
    NovelTextFillsOnlyHole(v, md5, s, t1, Positions - 1);
    var refilled := OnChange(v, md5, s, TextEvent(t1));
    NovelTextCreatesOnce(v, md5, refilled, TextEvent(t2));
    CreateDroppedIffCursorPastGrid(refilled.(textBuffer := Some(t2)), TextEntry(t2));
  }
}
