/**
 * The overlap detector of a sticky note: how much of its footprint the other
 * notes cover and how many of them touch it. Pairwise areas are summed with
 * double counting and the total is capped at the note's own footprint.
 */
module Overlap {
  import opened Geometry
  import opened Notes

  /** Area of one footprint (180 x 180). */
  const NoteArea: real := NoteSize * NoteSize
  /** A note is "mostly covered" from 60% coverage on. */
  const CoverageThreshold: real := 0.6

  /** Overlap along one axis of the footprints starting at `a` and at `b`. */
  function Extent(a: real, b: real): (e: real)
    ensures 0.0 <= e <= NoteSize
    ensures Abs(a - b) >= NoteSize ==> e == 0.0
    ensures Abs(a - b) < NoteSize ==> e == NoteSize - Abs(a - b)
    ensures e > 0.0 <==> Abs(a - b) < NoteSize
  {
    Max(0.0, Min(a + NoteSize, b + NoteSize) - Max(a, b))
  }

  /** `other` counts against `note`: a different id and strictly positive overlap on both axes. */
  predicate Overlaps(note: Note, other: Note)
  {
    other.id != note.id && Extent(note.x, other.x) > 0.0 && Extent(note.y, other.y) > 0.0
  }

  /** Area of the rectangle two footprints share. */
  function PairArea(note: Note, other: Note): (a: real)
    ensures 0.0 <= a <= NoteArea
  {
    ProductBound(Extent(note.x, other.x), Extent(note.y, other.y), NoteSize);
    Extent(note.x, other.x) * Extent(note.y, other.y)
  }

  lemma ProductBound(u: real, v: real, bound: real)
    requires 0.0 <= u <= bound && 0.0 <= v <= bound
    ensures 0.0 <= u * v <= bound * bound
  {
    ProductMono(u, v, bound, bound);
  }

  /** Products of non-negative reals grow with their factors. */
  lemma ProductMono(u: real, v: real, a: real, b: real)
    requires 0.0 <= u <= a && 0.0 <= v <= b
    ensures 0.0 <= u * v <= a * b
  {
    assert u * v <= a * v;
    assert a * v <= a * b;
  }

  /** What `other` adds to the running total. */
  function Contribution(note: Note, other: Note): real
  {
    if Overlaps(note, other) then PairArea(note, other) else 0.0
  }

  /** The uncapped sum of the pairwise overlap areas, in board order. */
  function TotalOverlap(note: Note, notes: seq<Note>): (t: real)
    ensures t >= 0.0
    ensures t <= NoteArea * (|notes| as real)
  {
    if notes == [] then 0.0
    else TotalOverlap(note, notes[..|notes| - 1]) + Contribution(note, notes[|notes| - 1])
  }

  /** How many other notes overlap `note` with positive area. */
  function OverlapCount(note: Note, notes: seq<Note>): (c: nat)
    ensures c <= |notes|
  {
    if notes == [] then 0
    else OverlapCount(note, notes[..|notes| - 1]) + (if Overlaps(note, notes[|notes| - 1]) then 1 else 0)
  }

  /** The total capped at the footprint area. */
  function Capped(total: real): real
  {
    if total > NoteArea then NoteArea else total
  }

  /** `noteArea === 0 ? 0 : totalOverlapArea / noteArea`. */
  function Ratio(capped: real): (r: real)
    ensures 0.0 <= capped <= NoteArea ==> 0.0 <= r <= 1.0
  {
    if NoteArea == 0.0 then 0.0 else capped / NoteArea
  }

  /** The 60% rule. */
  predicate MostlyCovered(note: Note, notes: seq<Note>)
  {
    Ratio(Capped(TotalOverlap(note, notes))) >= CoverageThreshold
  }

  /**
   * The detector's loop: accumulate the overlap area and the count over the
   * board, skipping the note itself, then cap and apply the 60% rule.
   */
  method ComputeOverlapInfo(note: Note, notes: seq<Note>) returns (isMostlyCovered: bool, overlappingCount: nat)
    ensures overlappingCount == OverlapCount(note, notes)
    ensures isMostlyCovered == MostlyCovered(note, notes)
  {
    var totalOverlapArea := 0.0;
    overlappingCount := 0;
    var i := 0;
    while i < |notes|
      invariant 0 <= i <= |notes|
      invariant totalOverlapArea == TotalOverlap(note, notes[..i])
      invariant overlappingCount == OverlapCount(note, notes[..i])
    {
      var n := notes[i];
      assert notes[..i + 1][..i] == notes[..i];
      if n.id != note.id {
        var overlapWidth := Max(0.0, Min(note.x + NoteSize, n.x + NoteSize) - Max(note.x, n.x));
        var overlapHeight := Max(0.0, Min(note.y + NoteSize, n.y + NoteSize) - Max(note.y, n.y));
        if overlapWidth > 0.0 && overlapHeight > 0.0 {
          var area := overlapWidth * overlapHeight;
          overlappingCount := overlappingCount + 1;
          totalOverlapArea := totalOverlapArea + area;
        }
      }
      i := i + 1;
    }
    assert notes[..|notes|] == notes;
    if totalOverlapArea > NoteArea {
      totalOverlapArea := NoteArea;
    }
    var ratio := if NoteArea == 0.0 then 0.0 else totalOverlapArea / NoteArea;
    isMostlyCovered := ratio >= CoverageThreshold;
  }

  // ---------------------------------------------------------------
  // Properties of the detector
  // ---------------------------------------------------------------

  /** The capped total lies within the footprint, so the coverage ratio lies in [0, 1]. */
  lemma CoverageRatioInUnitRange(note: Note, notes: seq<Note>)
    ensures 0.0 <= Capped(TotalOverlap(note, notes)) <= NoteArea
    ensures 0.0 <= Ratio(Capped(TotalOverlap(note, notes))) <= 1.0
  {
  }

  /** The 60% rule in integer-free form: covered iff 5 * capped >= 3 * footprint (19440 of 32400). */
  lemma MostlyCoveredIff(note: Note, notes: seq<Note>)
    ensures MostlyCovered(note, notes) <==> 5.0 * Capped(TotalOverlap(note, notes)) >= 3.0 * NoteArea
    ensures MostlyCovered(note, notes) <==> TotalOverlap(note, notes) >= 19440.0
  {
    var c := Capped(TotalOverlap(note, notes));
    assert NoteArea == 32400.0;
    assert Ratio(c) == c / 32400.0;
    assert c / 32400.0 >= 0.6 <==> c >= 19440.0;
  }

  /** The note itself, and every other note with its id, is skipped: the answer is that of the board without them. */
  lemma {:induction false} SkipsSameId(note: Note, notes: seq<Note>)
    ensures OverlapCount(note, notes) == OverlapCount(note, Remove(notes, note.id))
    ensures TotalOverlap(note, notes) == TotalOverlap(note, Remove(notes, note.id))
  {
    if notes != [] {
      SkipsSameId(note, notes[1..]);
      SplitFirst(note, notes);
      var head := if notes[0].id == note.id then [] else [notes[0]];
      SumsOfConcat(note, head, Remove(notes[1..], note.id));
    }
  }

  /** The sums read left to right agree with the sums read right to left. */
  lemma SplitFirst(note: Note, notes: seq<Note>)
    requires notes != []
    ensures OverlapCount(note, notes) == (if Overlaps(note, notes[0]) then 1 else 0) + OverlapCount(note, notes[1..])
    ensures TotalOverlap(note, notes) == Contribution(note, notes[0]) + TotalOverlap(note, notes[1..])
  {
    SumsOfConcat(note, [notes[0]], notes[1..]);
    assert [notes[0]] + notes[1..] == notes;
  }

  lemma {:induction false} SumsOfConcat(note: Note, a: seq<Note>, b: seq<Note>)
    ensures OverlapCount(note, a + b) == OverlapCount(note, a) + OverlapCount(note, b)
    ensures TotalOverlap(note, a + b) == TotalOverlap(note, a) + TotalOverlap(note, b)
    decreases |b|
  {
    if b == [] {
      assert a + b == a;
    } else {
      var b' := b[..|b| - 1];
      SumsOfConcat(note, a, b');
      assert (a + b)[..|a + b| - 1] == a + b';
      assert (a + b)[|a + b| - 1] == b[|b| - 1];
    }
  }

  /** No note overlaps: count zero, total zero, ratio zero, not covered. */
  lemma {:induction false} NoOverlapNoCoverage(note: Note, notes: seq<Note>)
    requires forall i :: 0 <= i < |notes| ==>
      notes[i].id == note.id || Abs(notes[i].x - note.x) >= NoteSize || Abs(notes[i].y - note.y) >= NoteSize
    ensures OverlapCount(note, notes) == 0 && TotalOverlap(note, notes) == 0.0
    ensures Ratio(Capped(TotalOverlap(note, notes))) == 0.0 && !MostlyCovered(note, notes)
  {
    if notes != [] {
      NoOverlapNoCoverage(note, notes[..|notes| - 1]);
      var last := notes[|notes| - 1];
      assert Abs(note.x - last.x) == Abs(last.x - note.x);
      assert Abs(note.y - last.y) == Abs(last.y - note.y);
    }
  }

  /** Two notes at the same position: one overlapping note, full coverage. */
  lemma IdenticalPositionFullyCovers(note: Note, other: Note)
    requires other.id != note.id && other.x == note.x && other.y == note.y
    ensures OverlapCount(note, [note, other]) == 1
    ensures Capped(TotalOverlap(note, [note, other])) == NoteArea
    ensures Ratio(Capped(TotalOverlap(note, [note, other]))) == 1.0
    ensures MostlyCovered(note, [note, other])
  {
    assert [note, other][..1] == [note];
    assert [note][..0] == [];
  }

  /** The count counts each overlapping note once; the total counts shared areas twice. */
  lemma CountIsZeroIffNoneOverlaps(note: Note, notes: seq<Note>)
    ensures OverlapCount(note, notes) == 0 <==> forall i :: 0 <= i < |notes| ==> !Overlaps(note, notes[i])
  {
    if OverlapCount(note, notes) == 0 {
      forall i | 0 <= i < |notes| ensures !Overlaps(note, notes[i]) {
        CountMonotone(note, notes, i);
      }
    } else {
      CountPositiveHasWitness(note, notes);
    }
  }

  lemma {:induction false} CountMonotone(note: Note, notes: seq<Note>, i: nat)
    requires i < |notes|
    ensures Overlaps(note, notes[i]) ==> OverlapCount(note, notes) >= 1
  {
    SumsOfConcat(note, notes[..i], notes[i..]);
    assert notes[..i] + notes[i..] == notes;
    SplitFirst(note, notes[i..]);
  }

  lemma {:induction false} CountPositiveHasWitness(note: Note, notes: seq<Note>)
    requires OverlapCount(note, notes) > 0
    ensures exists i :: 0 <= i < |notes| && Overlaps(note, notes[i])
  {
    var last := notes[|notes| - 1];
    if !Overlaps(note, last) {
      CountPositiveHasWitness(note, notes[..|notes| - 1]);
      var i :| 0 <= i < |notes| - 1 && Overlaps(note, notes[..|notes| - 1][i]);
      assert notes[i] == notes[..|notes| - 1][i];
    }
  }
}
