/**
 * The per-note interaction state of a sticky note: hover timers (3 s edit
 * affordance, 5 s resolution), drag, edit mode with its saved selection, and
 * the overlap message. Timers are explicit slots; a `Fire…` event acts only
 * while its timer is pending. Handlers that may call `setNotes` return the
 * new board (`None` when they do not call it).
 */
module Session {
  import opened Wrappers
  import opened Geometry
  import opened Notes
  import Overlap

  datatype Point = Point(x: real, y: real)

  /** A bounding client rectangle. */
  datatype Rect = Rect(left: real, top: real, width: real, height: real)

  /** A text-selection range, as offsets into the note's text. */
  datatype Range = Range(start: nat, end: nat)

  /**
   * What the 5 s callback closed over: the note, the board and the message
   * anchor of the render in which the pointer entered, which is the anchor
   * from before this entry's own update.
   */
  datatype Capture = Capture(note: Note, notes: seq<Note>, messagePos: Option<Point>)

  /** Vertical distance of the message anchor below the pointer. */
  const MessageDrop: real := 12.0

  const GenericMessage: string := "Notes are overlapping this note"

  /** `${overlappingCount} notes are overlapping this note`. */
  function CountMessage(n: nat): (m: string)
    ensures m != GenericMessage
  {
    NatToString(n) + " notes are overlapping this note"
  }

  /** Decimal digits of `n`, as template-literal interpolation prints them. */
  function NatToString(n: nat): (s: string)
    ensures |s| >= 1 && forall i :: 0 <= i < |s| ==> '0' <= s[i] <= '9'
    ensures DigitsValue(s) == n
    ensures n == 0 ==> s == "0"
    ensures n > 0 ==> s[0] != '0'
  {
    if n < 10 then [Digit(n)]
    else
      var s := NatToString(n / 10) + [Digit(n % 10)];
      assert s[..|s| - 1] == NatToString(n / 10);
      s
  }

  function Digit(d: nat): (c: char)
    requires d < 10
    ensures '0' <= c <= '9' && (c as int) - ('0' as int) == d
  {
    (('0' as int) + d) as char
  }

  /** The number a string of decimal digits denotes. */
  function DigitsValue(s: string): nat
    requires forall i :: 0 <= i < |s| ==> '0' <= s[i] <= '9'
  {
    if s == [] then 0 else DigitsValue(s[..|s| - 1]) * 10 + ((s[|s| - 1] as int) - ('0' as int))
  }

  class StickyNote {
    var isDragging: bool
    /** The pointer's offset from the note's top-left corner when the drag began. */
    var offset: Point
    /** The 3 s timer in `editHoverTimerRef` is pending. */
    var editTimerPending: bool
    /** The 5 s timer in `bringTopTimerRef` is pending, with what its callback closed over. */
    var bringTopTimer: Option<Capture>
    var showEditBtn: bool
    var isEditing: bool
    var message: Option<string>
    var messagePos: Option<Point>
    /** Pending 3 s message-hide timers; they are never stored, so nothing cancels them. */
    var hideTimers: nat
    /** The 30 ms timer that focuses the editable content after entering edit mode is pending. */
    var focusTimerPending: bool
    var savedSelection: Option<Range>

    /** Edit mode excludes pending hover timers and the edit button. */
    ghost predicate Valid()
      reads this
    {
      isEditing ==> !editTimerPending && bringTopTimer.None? && !showEditBtn
    }

    /** No hover timer is pending. */
    ghost predicate HoverIdle()
      reads this
    {
      !editTimerPending && bringTopTimer.None?
    }

    constructor ()
      ensures Valid() && HoverIdle()
      ensures !isDragging && offset == Point(0.0, 0.0)
      ensures !showEditBtn && !isEditing && message.None? && messagePos.None?
      ensures hideTimers == 0 && !focusTimerPending && savedSelection.None?
    {
      isDragging := false;
      offset := Point(0.0, 0.0);
      editTimerPending := false;
      bringTopTimer := None;
      showEditBtn := false;
      isEditing := false;
      message := None;
      messagePos := None;
      hideTimers := 0;
      focusTimerPending := false;
      savedSelection := None;
    }

    /** `clearHoverTimers`: cancels both hover timers and nothing else; cancelling twice is harmless. */
    method ClearHoverTimers()
      modifies this`editTimerPending, this`bringTopTimer
      ensures HoverIdle()
    {
      if editTimerPending {
        editTimerPending := false;
      }
      if bringTopTimer.Some? {
        bringTopTimer := None;
      }
    }

    // ---------------------------------------------------------------
    // Hover
    // ---------------------------------------------------------------

    /**
     * `handleMouseEnter`: ignored while editing; otherwise anchors the message
     * at the note's centre, clears the old timers and arms exactly one 3 s and
     * one 5 s timer.
     */
    method MouseEnter(note: Note, notes: seq<Note>, rect: Rect)
      requires Valid()
      modifies this`messagePos, this`editTimerPending, this`bringTopTimer
      ensures Valid()
      ensures old(isEditing) ==> unchanged(this)
      ensures !old(isEditing) ==>
        && editTimerPending
        && bringTopTimer == Some(Capture(note, notes, old(messagePos)))
        && messagePos == Some(Point(rect.left + rect.width / 2.0, rect.top + rect.height / 2.0 + MessageDrop))
        && showEditBtn == old(showEditBtn) && message == old(message)
        && isDragging == old(isDragging) && offset == old(offset) && !isEditing
        && hideTimers == old(hideTimers) && focusTimerPending == old(focusTimerPending)
        && savedSelection == old(savedSelection)
    {
      if isEditing {
        return;
      }
      var anchorSeenByTimer := messagePos;
      messagePos := Some(Point(rect.left + rect.width / 2.0, rect.top + rect.height / 2.0 + MessageDrop));
      ClearHoverTimers();
      editTimerPending := true;
      bringTopTimer := Some(Capture(note, notes, anchorSeenByTimer));
    }

    /** `handleMouseLeave`: cancels both timers, hides the edit button and the message. */
    method MouseLeave()
      requires Valid()
      modifies this`editTimerPending, this`bringTopTimer, this`showEditBtn, this`message
      ensures Valid() && HoverIdle() && !showEditBtn && message.None?
      ensures isDragging == old(isDragging) && offset == old(offset) && isEditing == old(isEditing)
      ensures messagePos == old(messagePos) && hideTimers == old(hideTimers)
      ensures focusTimerPending == old(focusTimerPending) && savedSelection == old(savedSelection)
    {
      ClearHoverTimers();
      showEditBtn := false;
      message := None;
    }

    /** The 3 s timer fires: the edit button appears. */
    method FireEditTimer()
      requires Valid()
      modifies this`editTimerPending, this`showEditBtn
      ensures Valid()
      ensures !old(editTimerPending) ==> unchanged(this)
      ensures old(editTimerPending) ==> !editTimerPending && showEditBtn && !isEditing
      ensures bringTopTimer == old(bringTopTimer) && message == old(message) && isDragging == old(isDragging)
      ensures isEditing == old(isEditing) && messagePos == old(messagePos) && hideTimers == old(hideTimers)
    {
      if editTimerPending {
        editTimerPending := false;
        showEditBtn := true;
      }
    }

    /** The 5 s timer fires: the resolution step runs on what the callback closed over. */
    method FireBringTopTimer() returns (update: Option<seq<Note>>)
      requires Valid()
      modifies this`bringTopTimer, this`message, this`hideTimers
      ensures Valid()
      ensures old(bringTopTimer).None? ==> unchanged(this) && update.None?
      ensures old(bringTopTimer).Some? ==>
        (bringTopTimer.None? && Resolved(old(bringTopTimer).value, old(message), old(hideTimers), update, message, hideTimers))
      ensures editTimerPending == old(editTimerPending) && showEditBtn == old(showEditBtn)
      ensures isEditing == old(isEditing) && isDragging == old(isDragging) && messagePos == old(messagePos)
    {
      update := None;
      if bringTopTimer.Some? {
        var c := bringTopTimer.value;
        bringTopTimer := None;
        update := HandleFiveSecondHover(c);
      }
    }

    /**
     * `handleFiveSecondHover`: a note that is not mostly covered is promoted;
     * a mostly covered one keeps its `zIndex` and, when the closed-over
     * anchor exists, shows the overlap message and arms a hide timer.
     */
    method HandleFiveSecondHover(c: Capture) returns (update: Option<seq<Note>>)
      modifies this`message, this`hideTimers
      ensures Resolved(c, old(message), old(hideTimers), update, message, hideTimers)
    {
      var isMostlyCovered, overlappingCount := Overlap.ComputeOverlapInfo(c.note, c.notes);
      update := None;
      if !isMostlyCovered {
        update := Some(BringNoteToTop(c.notes, c.note.id));
      } else {
        if overlappingCount > 0 && c.messagePos.Some? {
          message := Some(CountMessage(overlappingCount));
        } else if c.messagePos.Some? {
          message := Some(GenericMessage);
        }
        if c.messagePos.Some? {
          hideTimers := hideTimers + 1;
        }
      }
    }

    /** A message-hide timer fires: the message disappears, whichever hover showed it. */
    method FireHideTimer()
      requires Valid()
      modifies this`message, this`hideTimers
      ensures Valid()
      ensures old(hideTimers) == 0 ==> message == old(message) && hideTimers == 0
      ensures old(hideTimers) > 0 ==> message.None? && hideTimers == old(hideTimers) - 1
    {
      if hideTimers > 0 {
        hideTimers := hideTimers - 1;
        message := None;
      }
    }

    // ---------------------------------------------------------------
    // Drag
    // ---------------------------------------------------------------

    /**
     * `handleMouseDown`: ignored while editing; otherwise hides the edit
     * button, clears both timers, starts dragging and records the grab offset.
     */
    method MouseDown(pointer: Point, rect: Rect)
      requires Valid()
      modifies this`showEditBtn, this`editTimerPending, this`bringTopTimer, this`isDragging, this`offset
      ensures Valid()
      ensures old(isEditing) ==> unchanged(this)
      ensures !old(isEditing) ==>
        && isDragging && HoverIdle() && !showEditBtn
        && offset == Point(pointer.x - rect.left, pointer.y - rect.top)
        && message == old(message) && messagePos == old(messagePos) && !isEditing
    {
      if isEditing {
        return;
      }
      showEditBtn := false;
      ClearHoverTimers();
      isDragging := true;
      offset := Point(pointer.x - rect.left, pointer.y - rect.top);
    }

    /**
     * `handleMouseMoveWrapper` and `handleMouseMove`: the pointer always
     * re-anchors the message; while dragging outside edit mode the timers are
     * cleared, the button hidden, and, on a board, the note moves to the
     * pointer minus the board origin minus the grab offset, clamped into the board.
     */
    method MouseMove(note: Note, notes: seq<Note>, pointer: Point, board: Option<Rect>)
      returns (update: Option<seq<Note>>)
      requires Valid()
      modifies this`messagePos, this`editTimerPending, this`bringTopTimer, this`showEditBtn
      ensures Valid()
      ensures messagePos == Some(Point(pointer.x, pointer.y + MessageDrop))
      ensures isDragging == old(isDragging) && offset == old(offset) && isEditing == old(isEditing)
      ensures message == old(message) && hideTimers == old(hideTimers)
      ensures old(isEditing) || !old(isDragging) ==>
        update.None? && editTimerPending == old(editTimerPending) && bringTopTimer == old(bringTopTimer)
        && showEditBtn == old(showEditBtn)
      ensures !old(isEditing) && old(isDragging) ==> HoverIdle() && !showEditBtn
      ensures update.Some? <==> !old(isEditing) && old(isDragging) && board.Some?
      ensures update.Some? ==>
        update.value == Update(notes, note.id,
          PositionPatch(DragTarget(pointer, board.value, offset).x, DragTarget(pointer, board.value, offset).y))
    {
      messagePos := Some(Point(pointer.x, pointer.y + MessageDrop));
      update := None;
      if isEditing {
        return;
      }
      if !isDragging {
        return;
      }
      ClearHoverTimers();
      showEditBtn := false;
      if board.None? {
        return;
      }
      var boardRect := board.value;
      var newX := pointer.x - boardRect.left - offset.x;
      var newY := pointer.y - boardRect.top - offset.y;
      if newX < 0.0 { newX := 0.0; }
      if newX > boardRect.width - NoteSize { newX := boardRect.width - NoteSize; }
      if newY < 0.0 { newY := 0.0; }
      if newY > boardRect.height - NoteSize { newY := boardRect.height - NoteSize; }
      assert Pos(newX, newY) == DragTarget(pointer, boardRect, offset);
      update := Some(Update(notes, note.id, PositionPatch(newX, newY)));
    }

    /** `handleMouseUp`: the drag ends. */
    method MouseUp()
      requires Valid()
      modifies this`isDragging
      ensures Valid() && !isDragging
    {
      isDragging := false;
    }

    // ---------------------------------------------------------------
    // Edit mode and selection
    // ---------------------------------------------------------------

    /**
     * `enterEditMode`, reached only through the edit button, which is shown
     * only after the 3 s timer and outside edit mode: sets editing, hides the
     * button, clears both timers and arms the focus timer.
     */
    method EnterEditMode()
      requires Valid()
      modifies this`isEditing, this`showEditBtn, this`editTimerPending, this`bringTopTimer, this`focusTimerPending
      ensures Valid()
      ensures !(old(showEditBtn) && !old(isEditing)) ==> unchanged(this)
      ensures old(showEditBtn) && !old(isEditing) ==>
        isEditing && !showEditBtn && HoverIdle() && focusTimerPending
        && isDragging == old(isDragging) && message == old(message) && savedSelection == old(savedSelection)
    {
      if !(showEditBtn && !isEditing) {
        return;
      }
      isEditing := true;
      showEditBtn := false;
      ClearHoverTimers();
      focusTimerPending := true;
    }

    /** The 30 ms focus timer fires: with the content mounted, the current selection is saved. */
    method FireFocusTimer(contentMounted: bool, current: Option<Range>)
      requires Valid()
      modifies this`focusTimerPending, this`savedSelection
      ensures Valid() && !focusTimerPending
      ensures savedSelection ==
        if old(focusTimerPending) && contentMounted && current.Some? then current else old(savedSelection)
    {
      if focusTimerPending {
        focusTimerPending := false;
        if contentMounted {
          SaveSelection(current);
        }
      }
    }

    /** `saveSelection`: keeps the first range of the current selection; with no range the old one stays. */
    method SaveSelection(current: Option<Range>)
      modifies this`savedSelection
      ensures savedSelection == if current.Some? then current else old(savedSelection)
    {
      if current.Some? {
        savedSelection := current;
      }
    }

    /** `restoreSelection`: the window's selection is cleared and then holds exactly the saved range, if any. */
    method RestoreSelection() returns (selection: Option<Range>)
      ensures selection == savedSelection
    {
      selection := None;
      if savedSelection.Some? {
        selection := savedSelection;
      }
    }

    /**
     * `applyCommand`: with the content mounted, restores the saved selection,
     * lets the formatting command act on it and saves the selection left
     * behind (`after`). Returns the selection the command acted on.
     */
    method ApplyCommand(contentMounted: bool, after: Option<Range>) returns (applied: bool, target: Option<Range>)
      modifies this`savedSelection
      ensures applied == contentMounted
      ensures applied ==> target == old(savedSelection)
      ensures savedSelection == if applied && after.Some? then after else old(savedSelection)
    {
      applied, target := false, None;
      if !contentMounted {
        return;
      }
      target := RestoreSelection();
      applied := true;
      SaveSelection(after);
    }

    /** `exitEditMode`: commits the edited HTML into this note only and leaves edit mode. */
    method ExitEditMode(note: Note, notes: seq<Note>, newHtml: string) returns (update: seq<Note>)
      requires Valid()
      modifies this`isEditing
      ensures Valid() && !isEditing
      ensures update == Update(notes, note.id, HtmlPatch(newHtml))
    {
      update := Update(notes, note.id, HtmlPatch(newHtml));
      isEditing := false;
    }

    /** The delete button, rendered only outside edit mode: removes the notes with this id. */
    method Delete(note: Note, notes: seq<Note>) returns (update: Option<seq<Note>>)
      ensures isEditing ==> update.None?
      ensures !isEditing ==> update == Some(Remove(notes, note.id))
    {
      if isEditing {
        return None;
      }
      update := Some(Remove(notes, note.id));
    }

    /** Unmounting clears both hover timers, so none fires for a note that is gone. */
    method Unmount()
      requires Valid()
      modifies this`editTimerPending, this`bringTopTimer
      ensures Valid() && HoverIdle()
    {
      ClearHoverTimers();
    }
  }

  /** The drag target clamped into the board: what `handleMouseMove`'s four `if`s compute. */
  function DragTarget(pointer: Point, board: Rect, offset: Point): (p: Pos)
    ensures board.width >= NoteSize && board.height >= NoteSize ==> InBounds(p, board.width, board.height)
  {
    ClampToBoard(Pos(pointer.x - board.left - offset.x, pointer.y - board.top - offset.y), board.width, board.height)
  }

  /** The outcome of the resolution step for a closed-over capture. */
  ghost predicate Resolved(c: Capture, message0: Option<string>, hides0: nat,
                           update: Option<seq<Note>>, message: Option<string>, hides: nat)
  {
    if !Overlap.MostlyCovered(c.note, c.notes) then
      update == Some(BringNoteToTop(c.notes, c.note.id)) && message == message0 && hides == hides0
    else
      && update.None?
      && (c.messagePos.None? ==> message == message0 && hides == hides0)
      && (c.messagePos.Some? ==>
            (hides == hides0 + 1 && message == Some(ResolutionMessage(Overlap.OverlapCount(c.note, c.notes)))))
  }

  /** The message shown for a mostly covered note with `count` overlapping notes. */
  function ResolutionMessage(count: nat): string
  {
    if count > 0 then CountMessage(count) else GenericMessage
  }
}
