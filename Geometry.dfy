/**
 * Shared geometry of the board: the fixed square footprint of a note, the
 * separation rule used when spawning, and the three-way clamp.
 * Coordinates are JavaScript numbers, modelled as exact reals.
 */
module Geometry {

  /** Side of a note's square footprint in pixels. */
  const NoteSize: real := 180.0
  /** How far two spawned notes may still overlap on an axis. */
  const AllowedOverlap: real := 20.0
  /** Separation a spawned note needs on at least one axis (160). */
  const MinSeparation: real := NoteSize - AllowedOverlap

  datatype Pos = Pos(x: real, y: real)

  function Min(a: real, b: real): real { if a <= b then a else b }
  function Max(a: real, b: real): real { if a >= b then a else b }
  function Abs(a: real): real { if a < 0.0 then -a else a }

  /**
   * `Math.min(max, Math.max(min, value))`: the lower bound is applied first,
   * so when the range is empty (hi < lo) the upper bound wins.
   */
  function Clamp(value: real, lo: real, hi: real): (r: real)
    ensures lo <= hi ==> lo <= r <= hi
    ensures lo <= value <= hi ==> r == value
    ensures lo <= hi && value < lo ==> r == lo
    ensures value > hi ==> r == hi
    ensures hi < lo ==> r == hi
  {
    Min(hi, Max(lo, value))
  }

  /** Largest x (resp. y) a note's top-left corner may take on a board of width (resp. height) `extent`. */
  function Limit(extent: real): real { extent - NoteSize }

  /** The board-bound invariant: the whole footprint lies on a `w` by `h` board. */
  predicate InBounds(p: Pos, w: real, h: real)
  {
    0.0 <= p.x <= Limit(w) && 0.0 <= p.y <= Limit(h)
  }

  /** Clamping both coordinates into the board puts any point in bounds. */
  function ClampToBoard(p: Pos, w: real, h: real): (r: Pos)
    ensures w >= NoteSize && h >= NoteSize ==> InBounds(r, w, h)
    ensures InBounds(p, w, h) ==> r == p
  {
    Pos(Clamp(p.x, 0.0, Limit(w)), Clamp(p.y, 0.0, Limit(h)))
  }
}
