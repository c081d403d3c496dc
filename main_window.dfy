/**
 * The main window's slot manager as the object the source keeps: the
 * FilledPositions array, the cursor, the counter, the two "just clicked" flags
 * and the dedup buffers are fields, and the four event handlers update them in
 * place. Each handler is proved to take the object's state to the one given by
 * the matching function of module SlotSpec, where the properties of the
 * handlers are proved.
 *
 * The clipboard is not part of the object: what a change event reads arrives
 * as a Snapshot, and what a selection writes is returned as a ClipboardWrite.
 */
module MainWindow {
  import opened Grid
  import opened ImageHash
  import opened SlotSpec

  class SlotManager {
    /** Which copy of the window this is (see SlotSpec.Variant). */
    const variant: Variant
    /** FilledPositions: one flag per grid position, set while a button is placed there. */
    const filled: array<bool>
    /** ColumnNumber and RowNumber: the cell the next button goes to. */
    var column: int
    var row: int
    /** ButtonCounter: the number of buttons created so far, used in button names. */
    var counter: int
    /** ButtonClicked and ButtonClickedTwice: change events still to be ignored. */
    var clicked: bool
    var clickedTwice: bool
    /** TextBuffer: the last novel text. */
    var textBuffer: Option<string>
    /** ImageTextHashBuffer (Current) or ImageBuffer (Legacy): the last novel image hash. */
    var hashBuffer: Option<string>
    /** ImageBuffer of Current: the last image read; Legacy does not keep one. */
    var imageBuffer: Option<Bitmap>
    /** The created buttons still on the grid, in creation order. */
    var buttons: seq<Button>

    /** The object's state as a value. */
    function Model(): State
      reads this, filled
    {
      State(filled[..], column, row, counter, clicked, clickedTwice,
            textBuffer, hashBuffer, imageBuffer, buttons)
    }

    ghost predicate Valid()
      reads this, filled
    {
      filled.Length == Positions && WellFormed(Model())
    }

    /** The slot and dedup part of the window's constructor. */
    constructor (v: Variant)
      ensures Valid() && fresh(filled)
      ensures variant == v && Model() == Init()
    {
      variant := v;
      filled := new bool[Positions](_ => false);
      column, row, counter := 0, 1, 0;
      clicked, clickedTwice := false, false;
      textBuffer, hashBuffer, imageBuffer := None, None, None;
      buttons := [];
    }

    /**
     * ClipboardChanged: ignore the event if a click is pending, do nothing while
     * tracking is off, otherwise handle novel text and then a novel image.
     */
    method ClipboardChanged(md5: seq<byte> -> Digest, snap: Snapshot)
      requires Valid() && Admissible(variant, snap)
      modifies this, filled
      ensures Model() == OnChange(variant, md5, old(Model()), snap)
      ensures Valid()
    {
      if clicked {
        clicked := false;
        return;
      }
      if clickedTwice {
        clickedTwice := false;
        return;
      }
      if !snap.tracking {
        return;
      }

      if !snap.text.Absent? {
        if snap.text.Failed? {
          return;
        }
        var newText := snap.text.value;
        if textBuffer == Some(newText) {
          return;
        }
        textBuffer := Some(newText);
        CreateNewButton(TextEntry(newText));
      }
      assert TextPath(old(Model()), snap.text) == Continue(Model());

      if !snap.image.Absent? {
        if snap.image.Failed? {
          return;
        }
        var bitmap := snap.image.value;
        if variant == Current {
          imageBuffer := Some(bitmap);
        }
        var newImage := GetMD5Hash(md5, bitmap);
        if hashBuffer == Some(newImage) {
          return;
        }
        hashBuffer := Some(newImage);
        CreateNewButton(ImageEntry(bitmap));
      }
    }

    /**
     * The scan at the start of CreateNewButton: put the cursor on the first free
     * position, or leave it where it is when every position is filled.
     */
    method MoveCursorToFirstFree()
      requires Valid()
      modifies this`column, this`row
      ensures Model() == old(Model()).(column := Scan(old(Model())).0, row := Scan(old(Model())).1)
      ensures Valid()
    {
      var i := 0;
      while i < filled.Length
        invariant 0 <= i <= filled.Length
        invariant forall j :: 0 <= j < i ==> filled[j]
        invariant column == old(column) && row == old(row)
      {
        if !filled[i] {
          column := i % 3;
          row := i / 3 + 1;
          break;
        }
        i := i + 1;
      }
    }

    /**
     * CreateNewButton: move the cursor to the first free position, give up if
     * its row is past the grid, otherwise place the button, mark the position
     * and advance the cursor.
     */
    method CreateNewButton(e: Entry)
      requires Valid()
      modifies this, filled
      ensures Model() == Create(old(Model()), e)
      ensures Valid()
    {
      MoveCursorToFirstFree();
      if row > 3 {
        return;
      }

      CreatePlacesAtCursor(old(Model()), e);
      buttons := buttons + [Button(counter, column, row, e)];
      var index := column + (row - 1) * 3;
      filled[index] := true;

      column := column + 1;
      if column > 2 {
        column := 0;
        row := row + 1;
      }
      counter := counter + 1;
    }

    /**
     * Button_Click on button `k`: remember the click (twice unless the button
     * holds text) and write the button's entry back to the clipboard.
     */
    method ButtonClick(k: int) returns (written: ClipboardWrite)
      requires Valid() && 0 <= k < |buttons|
      modifies this
      ensures Valid()
      ensures Model() == Select(old(Model()), k)
      ensures written == WriteBack(old(buttons[k].entry))
    {
      var button := buttons[k];
      clicked := true;
      if Tag(button.entry) != 0 {
        clickedTwice := true;
      }
      match button.entry
      case TextEntry(t) =>
        written := SetText(t);
      case ImageEntry(b) =>
        written := SetImage(b);
    }

    /** RightMouse_Click on button `k`: free its position and remove it. */
    method RightMouseClick(k: int)
      requires Valid() && 0 <= k < |buttons|
      modifies this, filled
      ensures Model() == Evict(variant, old(Model()), k)
      ensures Valid()
    {
      var button := buttons[k];
      assert OnGrid(button.column, button.row);
      var index := button.column + (button.row - 1) * 3;
      filled[index] := false;
      buttons := buttons[..k] + buttons[k + 1..];
      if variant == Current {
        textBuffer := Some("");
      }
    }
  }
}
