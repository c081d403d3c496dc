# QuickHelper clipboard slot manager in Dafny

QuickHelper is a small WPF desktop utility. It watches the Windows clipboard
and shows each newly copied text or image as a button on a 3x3 grid in its
main window. Clicking a button copies its entry back to the clipboard, and
right-clicking a button removes it.

This project models the slot manager inside `MainWindow`. The manager keeps:

- the `FilledPositions` flags, one per grid position;
- the `ColumnNumber`/`RowNumber` cursor and the `ButtonCounter`;
- the two "just clicked" flags, `ButtonClicked` and `ButtonClickedTwice`;
- the dedup buffers: the last text, and the last image hash.

Four handlers update this state: `ClipboardChanged`, `CreateNewButton`,
`Button_Click` and `RightMouse_Click`. The project also models the hexadecimal
formatting of the image digest in `ImageHash.GetMD5Hash`.

The repository holds two copies of the window, and both are modelled by one
class with a `Variant` constant:

- `Current` is `QuickHelper/MainWindow.xaml.cs`. It catches a failed
  `GetText` or `GetImage` read and ends the event there. It keeps the last image read in its own
  `ImageBuffer`, and it resets `TextBuffer` to the empty string on eviction.
- `Legacy` is `Source/MainWindow.xaml.cs`. It has no catch around reads, keeps
  the image hash in a field named `ImageBuffer`, and leaves `TextBuffer`
  alone on eviction.

Files and modules:

- `image_hash.dfy`, module `ImageHash`: the `x2` hex encoder of a 16-byte digest.
  It holds the loop method `GetMD5Hash`, proved equal to the pure `Hex`. `Unhex`
  is its inverse, and together they give injectivity. MD5 (RFC 1321) is a
  function parameter.
- `grid.dfy`, module `Grid`: the position index and its grid cell, the cursor
  step and the first-free scan.
- `slot_spec.dfy`, module `SlotSpec`: the manager as a pure state machine. It
  has a `State` value and one function per handler (`OnChange`, `Create`,
  `Select`, `Evict`), with lemmas about single events.
- `main_window.dfy`, module `MainWindow`: class `SlotManager`. It holds
  `filled: array<bool>` and the other fields, and implements the handlers as
  methods. Each method is proved to leave the object in the state the
  matching `SlotSpec` function gives.
- `slot_properties.dfy`, module `SlotProperties`: properties of event
  sequences. They cover repeated copies, a run of distinct texts filling the
  grid, eviction followed by a new entry, image dedup by digest, and the
  full-grid test after a refill.

Behaviour worth noting; the model follows the code:

- Text equal to `TextBuffer` returns from the whole handler
  (`QuickHelper/MainWindow.xaml.cs:221`). An image copied in the same event is
  then never examined, so the text and image paths do not fire independently.
- In `Current`, a failed image read comes after the text part has run. It ends
  the event but keeps what the text part did, so the event is not dropped
  whole.
- Only `Current` resets the text buffer on eviction. `Legacy` keeps it, so
  re-copying the last text after an eviction is a duplicate there.
- The grid-full test compares the cursor row with 3
  (`QuickHelper/MainWindow.xaml.cs:375`). It does not look at the flags. If
  any position except the last is freed and refilled while the grid was full,
  the cursor stays on the grid. The next novel entry then passes the test and
  is placed on an occupied cell. This behaviour is modelled as written and
  exhibited by `SlotProperties.RefilledGridStacksButtons` for position 4.
  Refilling the last position (8) moves the cursor to row 4, so the next
  novel entry is dropped, as `SlotProperties.RefilledLastPositionDropsNext`
  shows.

## Model

| member | source | states |
|---|---|---|
| ImageHash.GetMD5Hash | QuickHelper/Hash/ImageHash.cs:10-23 | The appending loop returns exactly the hex encoding of the digest of the buffer, 32 characters for the 16-byte digest |
| ImageHash.HexDigit | QuickHelper/Hash/ImageHash.cs:20 | A nibble's digit is a lower-case hex digit, `'0'+n` below 10 and `'a'+(n-10)` above |
| ImageHash.ByteHex | QuickHelper/Hash/ImageHash.cs:20 | The rendering of one byte is two lower-case hex digits whose values, high digit times 16 plus low digit, give back the byte |
| ImageHash.Hex | QuickHelper/Hash/ImageHash.cs:17-22 | The encoding of a digest has exactly two characters per byte |
| ImageHash.HexAt | QuickHelper/Hash/ImageHash.cs:17-21 | Digest byte k is rendered at characters 2k and 2k+1, as the digit of b/16 followed by the digit of b%16, in byte order |
| ImageHash.HexIsLowerHex | QuickHelper/Hash/ImageHash.cs:20 | Every character of the encoding is one of 0-9 or a-f |
| ImageHash.HexRoundTrip | QuickHelper/Hash/ImageHash.cs:15-22 | Decoding the hex string gives back the digest bytes |
| ImageHash.HexInjective | QuickHelper/Hash/ImageHash.cs:15-22 | Two hash strings are equal exactly when the digests are equal, so comparing hash strings compares digests |
| Grid.PositionRoundTrip | QuickHelper/MainWindow.xaml.cs:369-370 | Index i in 0..8 maps to cell (i%3, i/3+1) on the grid and back to i through the index formula of line 431; every on-grid cell maps to an index in 0..8 and back |
| Grid.CellOfIndex | QuickHelper/MainWindow.xaml.cs:431 | A cursor with column 0..2 is recovered from its index in any row, including row 4 past the grid |
| Grid.AdvanceIsNextIndex | QuickHelper/MainWindow.xaml.cs:435-440 | The cursor step keeps the column in 0..2 and moves to the next index in row-major order |
| Grid.FirstFree | QuickHelper/MainWindow.xaml.cs:365-372 | The scan's result is the lowest index whose flag is false, with every lower flag set; no result means every flag is set |
| SlotSpec.Init | QuickHelper/MainWindow.xaml.cs:133-135 | The initial state is well formed, has no position filled and no button, and both dedup buffers are null |
| SlotSpec.Scan | QuickHelper/MainWindow.xaml.cs:365-372 | After the scan the cursor column is in 0..2 and its row in 1..4, and the row is on the grid whenever a position is free |
| SlotSpec.Create | QuickHelper/MainWindow.xaml.cs:362-443 | Create keeps the state well formed, appends at most one button, never clears a position and leaves the buffers and flags unchanged |
| SlotSpec.TextPath | QuickHelper/MainWindow.xaml.cs:205-228 | The text part of the handler keeps the state well formed |
| SlotSpec.ImagePath | QuickHelper/MainWindow.xaml.cs:231-255 | The image part of the handler keeps the state well formed |
| SlotSpec.OnChange | QuickHelper/MainWindow.xaml.cs:179-263 | A whole change event keeps the state well formed |
| SlotSpec.Evict | QuickHelper/MainWindow.xaml.cs:336-352 | Eviction keeps the state well formed |
| SlotSpec.SuppressedEventConsumesOneFlag | QuickHelper/MainWindow.xaml.cs:181-191 | With ButtonClicked set, an event only clears it; otherwise, with ButtonClickedTwice set, it only clears that flag; the same holds in Legacy (Source/MainWindow.xaml.cs:176-185) |
| SlotSpec.UntrackedEventChangesNothing | QuickHelper/MainWindow.xaml.cs:193-201 | With tracking off and no flag pending, the event leaves the whole state unchanged; the same holds in Legacy (Source/MainWindow.xaml.cs:187-195) |
| SlotSpec.DuplicateTextEndsHandler | QuickHelper/MainWindow.xaml.cs:221 | Text equal to the text buffer ends the handler with the state unchanged, whatever image the event carries; the same holds in Legacy (Source/MainWindow.xaml.cs:205-206) |
| SlotSpec.NovelTextCreatesOnce | QuickHelper/MainWindow.xaml.cs:220-228 | Novel text is stored in the text buffer, then exactly one create with that text runs before the image part; the buffer holds the text afterwards; the same holds in Legacy (Source/MainWindow.xaml.cs:205-212) |
| SlotSpec.FailedReadChangesNothing | QuickHelper/MainWindow.xaml.cs:209-242 | In Current a failed text read ends the event with no change; a failed image read keeps only what the text part did |
| SlotSpec.DuplicateImageCreatesNothing | QuickHelper/MainWindow.xaml.cs:244-248 | An image whose hash string equals the hash buffer creates nothing and keeps the hash buffer; only Current refreshes its last-image buffer |
| SlotSpec.NovelImageCreatesOnce | QuickHelper/MainWindow.xaml.cs:247-254 | A novel image hash is stored in the hash buffer before exactly one create with that image; in Legacy (Source/MainWindow.xaml.cs:219-230) that hash buffer is its ImageBuffer field |
| SlotSpec.EventOnlyAdds | QuickHelper/MainWindow.xaml.cs:179-263 | Over one event each buffer changes only to the value just read, buttons are only appended (at most two), and no position is cleared |
| SlotSpec.CreateFillsLowestFree | QuickHelper/MainWindow.xaml.cs:365-442 | With a free position, create fills exactly the lowest free one, places the button at its cell, moves the cursor to the next index and counts one button; the same holds in Legacy (Source/MainWindow.xaml.cs:338-416) |
| SlotSpec.CreateDroppedIffCursorPastGrid | QuickHelper/MainWindow.xaml.cs:374-375 | Create is dropped exactly when no position is free and the cursor row is past 3; a dropped create changes nothing, any other adds one button and counts it; the same holds in Legacy (Source/MainWindow.xaml.cs:348-350) |
| SlotSpec.CreatedButtonIsOnGrid | QuickHelper/MainWindow.xaml.cs:424-432 | A created button holds the entry and the counter value, sits on the grid, and its index is in 0..8 and marked filled |
| SlotSpec.CreateOnFullGridUsesCursor | QuickHelper/MainWindow.xaml.cs:374-375 | With every position filled but the cursor row on the grid, create still places a button at the cursor cell and leaves the flags as they were |
| SlotSpec.Tag | QuickHelper/MainWindow.xaml.cs:382 | A button's tag is 0 or 1, and 0 exactly when it holds text |
| SlotSpec.Select | QuickHelper/MainWindow.xaml.cs:291-295 | Selection sets ButtonClicked, sets ButtonClickedTwice exactly when the tag is not 0 (a pending one stays), and changes nothing else; the same holds in Legacy (Source/MainWindow.xaml.cs:267-269) |
| SlotSpec.WriteBack | QuickHelper/MainWindow.xaml.cs:300-310 | The write is a text write exactly for tag 0 and carries the stored text or bitmap verbatim; the same holds in Legacy (Source/MainWindow.xaml.cs:274-284) |
| SlotSpec.SelectionEchoCreatesNothing | QuickHelper/MainWindow.xaml.cs:181-186 | The change event caused by a selection only clears ButtonClicked |
| SlotSpec.ImageSelectionSuppressesTwoEvents | QuickHelper/MainWindow.xaml.cs:292-295 | After selecting an image button the next two events, whatever they carry, change nothing but the flags |
| SlotSpec.TextSelectionSuppressesOneEvent | QuickHelper/MainWindow.xaml.cs:292-295 | After selecting a text button, the second event is handled as if the selection had not happened |
| SlotSpec.EvictClearsOnlyItsPosition | QuickHelper/MainWindow.xaml.cs:341-347 | Eviction clears exactly the button's position and removes only that button; Current sets the text buffer to the empty string and Legacy keeps it; hash buffer, cursor, counter and flags are unchanged (Source/MainWindow.xaml.cs:315-320) |
| SlotProperties.RepeatedTextCreatesOnce | QuickHelper/MainWindow.xaml.cs:220-224 | Copying the same text n times in a row has the effect of copying it once, creating at most one button |
| SlotProperties.DistinctTextsFillGrid | QuickHelper/MainWindow.xaml.cs:365-442 | From the initial state, texts with no two neighbours equal become buttons 0 to 8 at positions 0 to 8 in order; later ones are dropped and only update the text buffer |
| SlotProperties.EvictThenCreateReusesPosition | QuickHelper/MainWindow.xaml.cs:365-372 | After evicting a button whose position has every lower position filled, the next create takes exactly that cell: the new last button sits there, the button count is back, and the flags are the old ones with that position set |
| SlotProperties.SecondImageIsDuplicateIffSameDigest | QuickHelper/MainWindow.xaml.cs:244-248 | A second image is a duplicate of the first exactly when their digests are equal, and then creates nothing |
| SlotProperties.EvictionResetsTextDedupInCurrent | QuickHelper/MainWindow.xaml.cs:347 | In Current, re-copying the last non-empty text after an eviction is novel: it is stored again and a button is created for it, so the button count is back to what it was |
| SlotProperties.EvictionKeepsTextDedupInLegacy | Source/MainWindow.xaml.cs:315-320 | In Legacy, re-copying the last text after an eviction is a duplicate and changes nothing |
| SlotProperties.EvictionKeepsImageDedup | QuickHelper/MainWindow.xaml.cs:345-347 | Eviction does not reset the image dedup: re-copying the last image still creates nothing |
| SlotProperties.NovelTextFillsOnlyHole | QuickHelper/MainWindow.xaml.cs:365-375 | With exactly one free position, novel text goes there, the grid is full afterwards and the cursor is at the next index |
| SlotProperties.NovelTextStacksAtCursor | QuickHelper/MainWindow.xaml.cs:374-375 | On a full grid with the cursor row still on the grid, novel text is placed at the cursor cell |
| SlotProperties.RefilledGridStacksButtons | QuickHelper/MainWindow.xaml.cs:374-375 | After nine distinct texts, the eviction of button 4 and a refill of position 4, the grid is full but the cursor row is on the grid, and the next novel text adds a tenth button on the cell of another button |
| SlotProperties.RefilledLastPositionDropsNext | QuickHelper/MainWindow.xaml.cs:374-375 | With only position 8 free, novel text fills it and the cursor step moves the cursor to row 4; the next novel text is then dropped and changes only the text buffer |
| MainWindow.SlotManager.constructor | QuickHelper/MainWindow.xaml.cs:133-135 | The constructed object is valid and in the initial state: cursor (0, 1), no position filled, no button, null buffers; the same holds in Legacy (Source/MainWindow.xaml.cs:123-129) |
| MainWindow.SlotManager.ClipboardChanged | QuickHelper/MainWindow.xaml.cs:179-263 | The handler leaves the object in the state OnChange gives for the old state and the event, and keeps it valid; the same holds in Legacy (Source/MainWindow.xaml.cs:173-239), for events whose reads succeed |
| MainWindow.SlotManager.MoveCursorToFirstFree | QuickHelper/MainWindow.xaml.cs:364-372 | The scan loop moves the cursor to Scan of the old state and changes nothing else |
| MainWindow.SlotManager.CreateNewButton | QuickHelper/MainWindow.xaml.cs:362-443 | The method leaves the object in the state Create gives, updating the flags array in place, and keeps it valid; the same holds in Legacy (Source/MainWindow.xaml.cs:335-417) |
| MainWindow.SlotManager.ButtonClick | QuickHelper/MainWindow.xaml.cs:285-329 | The method leaves the state Select gives and returns the clipboard write of the button's stored entry; the same holds in Legacy (Source/MainWindow.xaml.cs:261-303) |
| MainWindow.SlotManager.RightMouseClick | QuickHelper/MainWindow.xaml.cs:336-352 | The method clears the button's flag in place and leaves the state Evict gives; the same holds in Legacy (Source/MainWindow.xaml.cs:310-325), without the text-buffer reset |

## Left out

- `QuickHelper/Clipboard/ClipboardManager.cs`, the Win32 clipboard-format listener, is not part of this model. Its event is a call of `ClipboardChanged`.
- Clipboard reads are I/O. Each event's reads arrive as a `Snapshot`: the tracking toggle, and for text and image a read that is absent, failed or holds a value. The write of `Button_Click` is returned as a `ClipboardWrite`.
- MD5, `SaveImage` and `LoadImage` are foreign library calls. An image is represented by its encoded bytes, and MD5 is an uninterpreted parameter `md5: seq<byte> -> Digest`.
- MainWindow.SlotManager.ClipboardChanged: in `Legacy` a failed clipboard read throws out of the handler. The model only covers `Legacy` events whose reads succeed (`Admissible`).
- MainWindow.SlotManager.ClipboardChanged: in `Current`, `Clipboard.ContainsText()` (`QuickHelper/MainWindow.xaml.cs:205`), `Clipboard.ContainsImage()` (:231) and `ImageHash.SaveImage` (:244) sit outside the try blocks. An exception from any of them leaves the handler uncaught, after the text part may already have created a button. The model treats these three calls as never failing.
- MainWindow.SlotManager.ClipboardChanged: `Legacy` reads the clipboard again for the text buffer and for the new button's content. The model takes every read within one event to return the same value.
- MainWindow.SlotManager.CreateNewButton: receives the entry from the handler as a parameter. The source passes a format id and reads `TextBuffer` or `ImageBuffer` (or, in `Legacy`, the clipboard), which hold that same entry at the call. The `default` branch for other format ids is unreachable, because the handlers only pass 0 and 1.
- MainWindow.SlotManager.CreateNewButton: `ButtonCounter` is an unbounded integer. The model does not wrap it at 32 bits.
- MainWindow.SlotManager.MoveCursorToFirstFree: this is the scan loop at the start of `CreateNewButton`, written as its own method.
- MainWindow.SlotManager.ButtonClick: a failed clipboard write is caught and shown in a message box. The model returns the write and leaves its success to the caller. The flags are set before the write, as in the source.
- Presentation and runtime plumbing are not modelled. This covers window sliding (`DispatcherTimer_Tick`, `Window_OnMouseMovement`), `Window_Loaded`, button colours, opacity, cursor and content trimming, `MessageBox`, `Console`, `GC.Collect` and `CloseButton_Click`.
- A button is modelled as its name number, its grid cell and its entry. WPF's `Children` collection is the sequence of created buttons still on the grid, in creation order.
