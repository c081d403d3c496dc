/**
 * The slot manager of the main window as a pure state machine: the state the
 * window keeps about its button grid and its deduplication buffers, and one
 * function per event handler (clipboard changed, create, select, evict) from
 * the old state to the new one. The class in module MainWindow implements
 * these handlers imperatively and is proved to agree with them.
 *
 * Two copies of the window exist and differ in three places, captured by
 * `Variant`: Current (QuickHelper/MainWindow.xaml.cs) catches a failed
 * clipboard read, keeps the last image it read, and resets the text buffer on
 * eviction; Legacy (Source/MainWindow.xaml.cs) does none of these.
 */
module SlotSpec {
  import opened Grid
  import opened ImageHash

  datatype Variant = Current | Legacy

  /** A bitmap, represented by its uncompressed BMP encoding. */
  type Bitmap = seq<byte>

  /** The content a button keeps in its DataContext. */
  datatype Entry = TextEntry(text: string) | ImageEntry(bitmap: Bitmap)

  /** The DataFormat id stored in a button's Tag: 0 for "UnicodeText", 1 for "Bitmap". */
  function Tag(e: Entry): (id: int)
    ensures id == 0 || id == 1
    ensures id == 0 <==> e.TextEntry?
  {
    match e
    case TextEntry(_) => 0
    case ImageEntry(_) => 1
  }

  /** A created button: its name suffix (the ButtonCounter value), its grid cell and content. */
  datatype Button = Button(name: int, column: int, row: int, entry: Entry)

  /** What selecting a button writes to the clipboard. */
  datatype ClipboardWrite = SetText(text: string) | SetImage(bitmap: Bitmap)

  /**
   * The window's slot and dedup state. `buttons` are the created buttons still
   * on the grid, in creation order; `imageBuffer` is only kept by Current.
   */
  datatype State = State(
    filled: seq<bool>,
    column: int,
    row: int,
    counter: int,
    clicked: bool,
    clickedTwice: bool,
    textBuffer: Option<string>,
    hashBuffer: Option<string>,
    imageBuffer: Option<Bitmap>,
    buttons: seq<Button>)

  /** The outcome of one clipboard read: no such content, a failed read, or the value. */
  datatype Read<T> = Absent | Failed | Got(value: T)

  /**
   * What a clipboard-changed event observes: whether the tracking toggle is
   * checked, and the text and image reads.
   */
  datatype Snapshot = Snapshot(tracking: bool, text: Read<string>, image: Read<Bitmap>)

  /** Legacy has no catch around its reads: the model only covers reads that succeed there. */
  predicate Admissible(v: Variant, snap: Snapshot) {
    v == Legacy ==> !snap.text.Failed? && !snap.image.Failed?
  }

  /**
   * Every button sits on the grid, and button names are distinct: they rise in
   * creation order and stay below the counter.
   */
  predicate ButtonsWellFormed(buttons: seq<Button>, counter: int) {
    && (forall k :: 0 <= k < |buttons| ==>
          OnGrid(buttons[k].column, buttons[k].row) && 0 <= buttons[k].name < counter)
    && (forall j, k :: 0 <= j < k < |buttons| ==> buttons[j].name < buttons[k].name)
  }

  lemma AppendButton(buttons: seq<Button>, counter: int, b: Button)
    requires ButtonsWellFormed(buttons, counter)
    requires OnGrid(b.column, b.row) && 0 <= b.name == counter
    ensures ButtonsWellFormed(buttons + [b], counter + 1)
  {
  }

  lemma RemoveButton(buttons: seq<Button>, counter: int, k: int)
    requires ButtonsWellFormed(buttons, counter) && 0 <= k < |buttons|
    ensures ButtonsWellFormed(buttons[..k] + buttons[k + 1..], counter)
  {
    var rest := buttons[..k] + buttons[k + 1..];
    assert forall j :: 0 <= j < |rest| ==> rest[j] == buttons[if j < k then j else j + 1];
  }

  predicate WellFormed(s: State) {
    && |s.filled| == Positions
    && 0 <= s.column <= 2
    && 1 <= s.row <= 4
    && 0 <= s.counter
    && ButtonsWellFormed(s.buttons, s.counter)
  }

  /** The constructor's state: cursor at column 0 of row 1, nothing filled, both buffers null. */
  function Init(): (s: State)
    ensures WellFormed(s)
    ensures forall i :: 0 <= i < Positions ==> !s.filled[i]
    ensures s.buttons == [] && s.textBuffer.None? && s.hashBuffer.None?
  {
    State(seq(Positions, _ => false), 0, 1, 0, false, false, None, None, None, [])
  }

  /** The cursor after CreateNewButton's scan: the first free cell, or unchanged if none. */
  function Scan(s: State): (cursor: (int, int))
    requires WellFormed(s)
    ensures 0 <= cursor.0 <= 2 && 1 <= cursor.1 <= 4
    ensures FirstFree(s.filled).Some? ==> cursor.1 <= 3
  {
    match FirstFree(s.filled)
    case Some(i) => (ColumnOf(i), RowOf(i))
    case None => (s.column, s.row)
  }

  /**
   * CreateNewButton: scan for the first free position, give up if the cursor's
   * row is past the grid, otherwise place a button at the cursor, mark its
   * position filled, advance the cursor and count the button.
   */
  function Create(s: State, e: Entry): (r: State)
    requires WellFormed(s)
    ensures WellFormed(r)
    ensures s.buttons <= r.buttons && |r.buttons| <= |s.buttons| + 1
    ensures forall i :: 0 <= i < Positions && s.filled[i] ==> r.filled[i]
    ensures r.textBuffer == s.textBuffer && r.hashBuffer == s.hashBuffer
    ensures r.imageBuffer == s.imageBuffer
    ensures r.clicked == s.clicked && r.clickedTwice == s.clickedTwice
  {
    var (column, row) := Scan(s);
    if row > 3 then s.(column := column, row := row)
    else
      var next := Advance(column, row);
      AppendButton(s.buttons, s.counter, Button(s.counter, column, row, e));
      s.(filled := s.filled[IndexOf(column, row) := true],
         column := next.0, row := next.1, counter := s.counter + 1,
         buttons := s.buttons + [Button(s.counter, column, row, e)])
  }

  /** Whether a handler step ends the handler (`return`) or falls through. */
  datatype Flow = Return(state: State) | Continue(state: State)

  /** The text part of ClipboardChanged. */
  function TextPath(s: State, text: Read<string>): (f: Flow)
    requires WellFormed(s)
    ensures WellFormed(f.state)
  {
    match text
    case Absent => Continue(s)
    case Failed => Return(s)
    case Got(t) =>
      if s.textBuffer == Some(t) then Return(s)
      else Continue(Create(s.(textBuffer := Some(t)), TextEntry(t)))
  }

  /** The image part of ClipboardChanged; `md5` stands for the MD5 of the encoded bitmap. */
  function ImagePath(v: Variant, md5: seq<byte> -> Digest, s: State, image: Read<Bitmap>): (r: State)
    requires WellFormed(s)
    ensures WellFormed(r)
  {
    match image
    case Absent => s
    case Failed => s
    case Got(b) =>
      var s1 := if v == Current then s.(imageBuffer := Some(b)) else s;
      var h := Hex(md5(b));
      if s1.hashBuffer == Some(h) then s1
      else Create(s1.(hashBuffer := Some(h)), ImageEntry(b))
  }

  /** ClipboardChanged: echo suppression, the tracking toggle, then the text and image parts. */
  function OnChange(v: Variant, md5: seq<byte> -> Digest, s: State, snap: Snapshot): (r: State)
    requires WellFormed(s) && Admissible(v, snap)
    ensures WellFormed(r)
  {
    if s.clicked then s.(clicked := false)
    else if s.clickedTwice then s.(clickedTwice := false)
    else if !snap.tracking then s
    else match TextPath(s, snap.text)
      case Return(s1) => s1
      case Continue(s1) => ImagePath(v, md5, s1, snap.image)
  }

  /**
   * Button_Click on button `k`: ButtonClicked is set, ButtonClickedTwice is set
   * when the button's tag is not 0 (a pending one is kept), nothing else changes.
   */
  function Select(s: State, k: int): (r: State)
    requires 0 <= k < |s.buttons|
    ensures r.clicked
    ensures r.clickedTwice == (s.clickedTwice || Tag(s.buttons[k].entry) != 0)
    ensures r.(clicked := s.clicked, clickedTwice := s.clickedTwice) == s
  {
    s.(clicked := true, clickedTwice := if Tag(s.buttons[k].entry) != 0 then true else s.clickedTwice)
  }

  /**
   * The clipboard write Button_Click performs for a button's stored entry: a
   * text write exactly for tag 0, carrying the stored content verbatim.
   */
  function WriteBack(e: Entry): (w: ClipboardWrite)
    ensures w.SetText? <==> Tag(e) == 0
    ensures w.SetText? ==> w.text == e.text
    ensures w.SetImage? ==> w.bitmap == e.bitmap
  {
    match e
    case TextEntry(t) => SetText(t)
    case ImageEntry(b) => SetImage(b)
  }

  /** RightMouse_Click on button `k`: free its position and remove it. */
  function Evict(v: Variant, s: State, k: int): (r: State)
    requires WellFormed(s) && 0 <= k < |s.buttons|
    ensures WellFormed(r)
  {
    var b := s.buttons[k];
    RemoveButton(s.buttons, s.counter, k);
    s.(filled := s.filled[IndexOf(b.column, b.row) := false],
       buttons := s.buttons[..k] + s.buttons[k + 1..],
       textBuffer := if v == Current then Some("") else s.textBuffer)
  }

  // ---------------------------------------------------------------------
  // Clipboard changed

  /**
   * A pending ButtonClicked is consumed before ButtonClickedTwice, one flag per
   * event, and nothing else changes: the event caused by a selection creates nothing.
   */
  lemma SuppressedEventConsumesOneFlag(v: Variant, md5: seq<byte> -> Digest, s: State, snap: Snapshot)
    requires WellFormed(s) && Admissible(v, snap) && (s.clicked || s.clickedTwice)
    ensures s.clicked ==> OnChange(v, md5, s, snap) == s.(clicked := false)
    ensures !s.clicked ==> OnChange(v, md5, s, snap) == s.(clickedTwice := false)
  {
  }

  /** With tracking off and no flag pending, the event changes nothing at all. */
  lemma UntrackedEventChangesNothing(v: Variant, md5: seq<byte> -> Digest, s: State, snap: Snapshot)
    requires WellFormed(s) && Admissible(v, snap)
    requires !s.clicked && !s.clickedTwice && !snap.tracking
    ensures OnChange(v, md5, s, snap) == s
  {
  }

  /** Text equal to the text buffer ends the whole handler: the image part is never reached. */
  lemma DuplicateTextEndsHandler(v: Variant, md5: seq<byte> -> Digest, s: State, snap: Snapshot)
    requires WellFormed(s) && Admissible(v, snap)
    requires !s.clicked && !s.clickedTwice && snap.tracking
    requires snap.text.Got? && s.textBuffer == Some(snap.text.value)
    ensures OnChange(v, md5, s, snap) == s
  {
  }

  /**
   * Novel text is stored in the text buffer before exactly one create attempt,
   * which happens before the image part; the buffer still holds it afterwards.
   */
  lemma NovelTextCreatesOnce(v: Variant, md5: seq<byte> -> Digest, s: State, snap: Snapshot)
    requires WellFormed(s) && Admissible(v, snap)
    requires !s.clicked && !s.clickedTwice && snap.tracking
    requires snap.text.Got? && s.textBuffer != Some(snap.text.value)
    ensures var t := snap.text.value;
      OnChange(v, md5, s, snap) == ImagePath(v, md5, Create(s.(textBuffer := Some(t)), TextEntry(t)), snap.image)
    ensures OnChange(v, md5, s, snap).textBuffer == Some(snap.text.value)
  {
  }

  /**
   * Current catches read failures: a failed text read ends the handler with no
   * change, a failed image read keeps only what the text part did.
   */
  lemma FailedReadChangesNothing(md5: seq<byte> -> Digest, s: State, snap: Snapshot)
    requires WellFormed(s) && !s.clicked && !s.clickedTwice && snap.tracking
    ensures snap.text.Failed? ==> OnChange(Current, md5, s, snap) == s
    ensures snap.image.Failed? ==> OnChange(Current, md5, s, snap) == TextPath(s, snap.text).state
  {
  }

  /**
   * An image whose hash string equals the hash buffer creates nothing and keeps
   * the hash buffer; only Current refreshes its last-image buffer.
   */
  lemma DuplicateImageCreatesNothing(v: Variant, md5: seq<byte> -> Digest, s: State, b: Bitmap)
    requires WellFormed(s) && s.hashBuffer == Some(Hex(md5(b)))
    ensures ImagePath(v, md5, s, Got(b)) == s.(imageBuffer := if v == Current then Some(b) else s.imageBuffer)
  {
  }

  /** A novel image hash is stored in the hash buffer before exactly one create attempt. */
  lemma NovelImageCreatesOnce(v: Variant, md5: seq<byte> -> Digest, s: State, b: Bitmap)
    requires WellFormed(s) && s.hashBuffer != Some(Hex(md5(b)))
    ensures var s1 := s.(imageBuffer := if v == Current then Some(b) else s.imageBuffer,
                         hashBuffer := Some(Hex(md5(b))));
      ImagePath(v, md5, s, Got(b)) == Create(s1, ImageEntry(b))
    ensures ImagePath(v, md5, s, Got(b)).hashBuffer == Some(Hex(md5(b)))
  {
  }

  /**
   * Over one whole event the buffers change only to a newly read value,
   * buttons are only appended (at most one per content kind), and no
   * position is cleared.
   */
  lemma {:induction false} EventOnlyAdds(v: Variant, md5: seq<byte> -> Digest, s: State, snap: Snapshot)
    requires WellFormed(s) && Admissible(v, snap)
    ensures var r := OnChange(v, md5, s, snap);
      && (r.textBuffer != s.textBuffer ==> snap.text.Got? && r.textBuffer == Some(snap.text.value))
      && (r.hashBuffer != s.hashBuffer ==>
            snap.image.Got? && r.hashBuffer == Some(Hex(md5(snap.image.value))))
      && s.buttons <= r.buttons && |r.buttons| <= |s.buttons| + 2
      && (forall i :: 0 <= i < Positions && s.filled[i] ==> r.filled[i])
  {
    if !s.clicked && !s.clickedTwice && snap.tracking {
      var f := TextPath(s, snap.text);
      if f.Continue? {
        var s1 := f.state;
        assert s1.hashBuffer == s.hashBuffer;
        assert s.buttons <= s1.buttons && |s1.buttons| <= |s.buttons| + 1;
        var r := ImagePath(v, md5, s1, snap.image);
        assert s1.buttons <= r.buttons && |r.buttons| <= |s1.buttons| + 1;
        assert r.textBuffer == s1.textBuffer;
      }
    }
  }

  // ---------------------------------------------------------------------
  // Create

  /**
   * When some position is free, create fills the lowest-index free position
   * and no other, places the button at that position's cell, moves the
   * cursor to the next index and counts one more button.
   */
  lemma CreateFillsLowestFree(s: State, e: Entry, i: int)
    requires WellFormed(s)
    requires 0 <= i < Positions && !s.filled[i] && forall j :: 0 <= j < i ==> s.filled[j]
    ensures var r := Create(s, e);
      && r.filled == s.filled[i := true]
      && r.buttons == s.buttons + [Button(s.counter, ColumnOf(i), RowOf(i), e)]
      && IndexOf(r.column, r.row) == i + 1
      && r.counter == s.counter + 1
  {
    match FirstFree(s.filled)
    case None =>
    case Some(f) =>
      assert f == i;
      PositionRoundTrip(i, 0, 0);
      AdvanceIsNextIndex(ColumnOf(i), RowOf(i));
  }

  /**
   * Unfolds Create when the scanned cursor is on the grid; the class's
   * CreateNewButton uses it to match its in-place steps against Create.
   */
  lemma CreatePlacesAtCursor(s: State, e: Entry)
    requires WellFormed(s) && Scan(s).1 <= 3
    ensures var (column, row) := Scan(s);
      Create(s, e) == s.(filled := s.filled[IndexOf(column, row) := true],
                         column := Advance(column, row).0, row := Advance(column, row).1,
                         counter := s.counter + 1,
                         buttons := s.buttons + [Button(s.counter, column, row, e)])
  {
  }

  /**
   * Create is dropped exactly when no position is free and the cursor row is
   * past 3 (the scan leaves the cursor alone when nothing is free); a dropped
   * create changes nothing, any other places one button and counts it.
   */
  lemma CreateDroppedIffCursorPastGrid(s: State, e: Entry)
    requires WellFormed(s)
    ensures var dropped := (forall j :: 0 <= j < Positions ==> s.filled[j]) && s.row > 3;
      && (dropped ==> Create(s, e) == s)
      && (!dropped ==> |Create(s, e).buttons| == |s.buttons| + 1 && Create(s, e).counter == s.counter + 1)
  {
  }

  /** A button created by create sits on the grid and its position is marked filled. */
  lemma CreatedButtonIsOnGrid(s: State, e: Entry)
    requires WellFormed(s)
    ensures var r := Create(s, e);
      |r.buttons| == |s.buttons| + 1 ==>
        var b := r.buttons[|s.buttons|];
        && b.entry == e && b.name == s.counter
        && OnGrid(b.column, b.row)
        && 0 <= IndexOf(b.column, b.row) < Positions
        && r.filled[IndexOf(b.column, b.row)]
  {
  }

  /**
   * As written, the full-grid test reads the cursor, not the flags: with every
   * position filled but the cursor row still on the grid, create places a
   * button at the cursor's cell anyway, over a filled position.
   */
  lemma CreateOnFullGridUsesCursor(s: State, e: Entry)
    requires WellFormed(s) && s.row <= 3
    requires forall j :: 0 <= j < Positions ==> s.filled[j]
    ensures Create(s, e).filled == s.filled
    ensures Create(s, e).buttons == s.buttons + [Button(s.counter, s.column, s.row, e)]
  {
    PositionRoundTrip(0, s.column, s.row);
  }

  // ---------------------------------------------------------------------
  // Select

  /** The change event caused by a selection's own write only consumes ButtonClicked. */
  lemma SelectionEchoCreatesNothing(v: Variant, md5: seq<byte> -> Digest, s: State, k: int, snap: Snapshot)
    requires WellFormed(s) && Admissible(v, snap) && 0 <= k < |s.buttons|
    ensures OnChange(v, md5, Select(s, k), snap) == s.(clicked := false, clickedTwice := Select(s, k).clickedTwice)
  {
  }

  /**
   * Selecting an image button suppresses the next two change events, whatever
   * they carry; after them both flags are clear and nothing else has changed.
   */
  lemma ImageSelectionSuppressesTwoEvents(v: Variant, md5: seq<byte> -> Digest, s: State, k: int,
                                          snap1: Snapshot, snap2: Snapshot)
    requires WellFormed(s) && Admissible(v, snap1) && Admissible(v, snap2)
    requires 0 <= k < |s.buttons| && s.buttons[k].entry.ImageEntry?
    ensures OnChange(v, md5, OnChange(v, md5, Select(s, k), snap1), snap2)
            == s.(clicked := false, clickedTwice := false)
  {
  }

  /**
   * Selecting a text button with no second flag pending suppresses only its own
   * echo: the event after it is handled as if the selection had not happened.
   */
  lemma TextSelectionSuppressesOneEvent(v: Variant, md5: seq<byte> -> Digest, s: State, k: int,
                                        snap1: Snapshot, snap2: Snapshot)
    requires WellFormed(s) && Admissible(v, snap1) && Admissible(v, snap2)
    requires 0 <= k < |s.buttons| && s.buttons[k].entry.TextEntry? && !s.clickedTwice
    ensures OnChange(v, md5, OnChange(v, md5, Select(s, k), snap1), snap2)
            == OnChange(v, md5, s.(clicked := false), snap2)
  {
  }

  // ---------------------------------------------------------------------
  // Evict

  /**
   * Eviction clears exactly the evicted button's position and removes only that
   * button; Current resets the text buffer to the empty string, Legacy keeps
   * it; neither touches the hash buffer, the cursor, the counter or the flags.
   */
  lemma EvictClearsOnlyItsPosition(v: Variant, s: State, k: int)
    requires WellFormed(s) && 0 <= k < |s.buttons|
    ensures var r := Evict(v, s, k);
      var i := IndexOf(s.buttons[k].column, s.buttons[k].row);
      && 0 <= i < Positions && !r.filled[i]
      && (forall j :: 0 <= j < Positions && j != i ==> r.filled[j] == s.filled[j])
      && |r.buttons| == |s.buttons| - 1
      && (forall j :: 0 <= j < |r.buttons| ==> r.buttons[j] == s.buttons[if j < k then j else j + 1])
      && r.textBuffer == (if v == Current then Some("") else s.textBuffer)
      && r.hashBuffer == s.hashBuffer && r.imageBuffer == s.imageBuffer
      && r.column == s.column && r.row == s.row && r.counter == s.counter
      && r.clicked == s.clicked && r.clickedTwice == s.clickedTwice
  {
    var b := s.buttons[k];
    PositionRoundTrip(0, b.column, b.row);
    var r := Evict(v, s, k);
    var rest := s.buttons[..k] + s.buttons[k + 1..];
    assert r.buttons == rest;
    forall j | 0 <= j < |rest|
      ensures rest[j] == s.buttons[if j < k then j else j + 1]
    {
      if j < k { assert rest[j] == s.buttons[..k][j]; }
      else { assert rest[j] == s.buttons[k + 1..][j - k]; }
    }
  }
}
