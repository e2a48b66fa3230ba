/**
 * Event sequences on one sticky note, checked against the state machine's
 * contracts: what a user sees when leaving early, hovering long, dragging
 * and editing.
 */
module Scenarios {
  import opened Wrappers
  import opened Geometry
  import opened Notes
  import Overlap
  import opened Session

  /** Leaving before 3 s: the edit button never appears and the 5 s step never runs. */
  method LeaveBeforeEditButton(note: Note, notes: seq<Note>, rect: Rect)
    returns (shown: bool, update: Option<seq<Note>>)
    ensures !shown && update.None?
  {
    var s := new StickyNote();
    s.MouseEnter(note, notes, rect);
    s.MouseLeave();
    s.FireEditTimer();
    update := s.FireBringTopTimer();
    shown := s.showEditBtn;
  }

  /** Leaving between 3 s and 5 s: the button was shown, is hidden again, and `zIndex` is never touched. */
  method LeaveAfterEditButton(note: Note, notes: seq<Note>, rect: Rect)
    returns (shownAt3: bool, shownAfterLeave: bool, update: Option<seq<Note>>)
    ensures shownAt3 && !shownAfterLeave && update.None?
  {
    var s := new StickyNote();
    s.MouseEnter(note, notes, rect);
    s.FireEditTimer();
    shownAt3 := s.showEditBtn;
    s.MouseLeave();
    update := s.FireBringTopTimer();
    shownAfterLeave := s.showEditBtn;
  }

  /** Hovering 5 s over a note that is not mostly covered promotes it above every note. */
  method HoverPromotes(note: Note, notes: seq<Note>, rect: Rect) returns (update: Option<seq<Note>>)
    requires !Overlap.MostlyCovered(note, notes)
    ensures update == Some(BringNoteToTop(notes, note.id))
  {
    var s := new StickyNote();
    s.MouseEnter(note, notes, rect);
    s.FireEditTimer();
    update := s.FireBringTopTimer();
  }

  /**
   * The first hover of a freshly mounted note shows no message even when the
   * note is mostly covered: the 5 s callback sees the anchor from before the
   * entry, which is still unset.
   */
  method FirstHoverShowsNoMessage(note: Note, notes: seq<Note>, rect: Rect)
    returns (message: Option<string>, update: Option<seq<Note>>)
    requires Overlap.MostlyCovered(note, notes)
    ensures message.None? && update.None?
  {
    var s := new StickyNote();
    s.MouseEnter(note, notes, rect);
    s.FireEditTimer();
    update := s.FireBringTopTimer();
    message := s.message;
  }

  /**
   * A second hover over a mostly covered note leaves `zIndex` alone and
   * names the number of overlapping notes; the hide timer then clears it.
   */
  method RepeatHoverShowsCount(note: Note, notes: seq<Note>, rect: Rect)
    returns (shown: Option<string>, afterHide: Option<string>, update: Option<seq<Note>>)
    requires Overlap.MostlyCovered(note, notes) && Overlap.OverlapCount(note, notes) > 0
    ensures update.None?
    ensures shown == Some(CountMessage(Overlap.OverlapCount(note, notes)))
    ensures afterHide.None?
  {
    var s := new StickyNote();
    s.MouseEnter(note, notes, rect);
    s.MouseLeave();
    s.MouseEnter(note, notes, rect);
    update := s.FireBringTopTimer();
    shown := s.message;
    s.FireHideTimer();
    afterHide := s.message;
  }

  /**
   * Press and move: on a board that fits a note, the moved note lands in
   * bounds, the board stays in bounds, and with unique ids only that note changes.
   */
  method DragKeepsBoardInBounds(k: nat, notes: seq<Note>, grab: Point, pointer: Point, board: Rect)
    returns (update: Option<seq<Note>>)
    requires k < |notes| && UniqueIds(notes)
    requires board.width >= NoteSize && board.height >= NoteSize
    requires AllInBounds(notes, board.width, board.height)
    ensures update.Some?
    ensures |update.value| == |notes| && AllInBounds(update.value, board.width, board.height)
    ensures forall i :: 0 <= i < |notes| && i != k ==> update.value[i] == notes[i]
    ensures InBounds(PosOf(update.value[k]), board.width, board.height)
  {
    var s := new StickyNote();
    var noteRect := Rect(board.left + notes[k].x, board.top + notes[k].y, NoteSize, NoteSize);
    s.MouseDown(grab, noteRect);
    update := s.MouseMove(notes[k], notes, pointer, Some(board));
    var target := DragTarget(pointer, board, s.offset);
    UpdateTouchesOnlyTarget(notes, notes[k].id, PositionPatch(target.x, target.y), k);
    UpdateKeepsInBounds(notes, notes[k].id, PositionPatch(target.x, target.y), board.width, board.height);
  }

  /** In edit mode, hovering and pressing start nothing: no timer, no drag, no button. */
  method EditingBlocksHoverAndDrag(note: Note, notes: seq<Note>, rect: Rect, pointer: Point)
    returns (timersIdle: bool, dragging: bool, buttonShown: bool)
    ensures timersIdle && !dragging && !buttonShown
  {
    var s := new StickyNote();
    s.MouseEnter(note, notes, rect);
    s.FireEditTimer();
    s.EnterEditMode();
    s.MouseEnter(note, notes, rect);
    s.MouseDown(pointer, rect);
    s.FireEditTimer();
    timersIdle := !s.editTimerPending && s.bringTopTimer.None?;
    dragging := s.isDragging;
    buttonShown := s.showEditBtn;
  }

  /** Restoring twice with no save in between restores the same range both times. */
  method RestoreIsRepeatable(first: Range)
    returns (a: Option<Range>, b: Option<Range>)
    ensures a == b == Some(first)
  {
    var s := new StickyNote();
    s.SaveSelection(Some(first));
    a := s.RestoreSelection();
    b := s.RestoreSelection();
  }

  /** A formatting command acts on the last saved selection even when the live one has since moved. */
  method CommandTargetsSavedSelection(saved: Range, after: Range) returns (target: Option<Range>)
    ensures target == Some(saved)
  {
    var s := new StickyNote();
    s.SaveSelection(Some(saved));
    s.SaveSelection(None);
    var applied;
    applied, target := s.ApplyCommand(true, Some(after));
  }
}
