/**
 * Spawn placement for a new note: a jittered board-centre candidate, a
 * random-probe phase of at most 35 checks and a push-away phase of at most 20
 * rounds. `Math.random()` is injected as `rand` (the k-th pair of draws) and
 * `Math.sqrt` as `sqrt`.
 */
module Spawn {
  import opened Wrappers
  import opened Geometry
  import opened Notes
  import Overlap

  /** Random candidates checked before falling back to pushing. */
  const ProbeLimit: nat := 35
  /** Rounds of the push-away phase. */
  const PushRounds: nat := 20
  /** Distance a note pushes the candidate per round. */
  const PushStep: real := 24.0
  /** Position used when the board element is not mounted. */
  const DefaultPos: Pos := Pos(50.0, 50.0)

  /** The board element's client size. */
  datatype BoardEl = BoardEl(clientWidth: real, clientHeight: real)

  /** One pair of `Math.random()` results, each in [0, 1) for a real generator. */
  datatype Draw = Draw(rx: real, ry: real)

  predicate ValidDraw(d: Draw) { 0.0 <= d.rx < 1.0 && 0.0 <= d.ry < 1.0 }

  predicate BoardFitsNote(b: BoardEl) { b.clientWidth >= NoteSize && b.clientHeight >= NoteSize }

  /** Per-axis near miss against one existing note. */
  predicate TooClose(n: Note, x: real, y: real)
  {
    Abs(n.x - x) < MinSeparation && Abs(n.y - y) < MinSeparation
  }

  /**
   * `existing.some(n => dx < MIN_SEPARATION && dy < MIN_SEPARATION)`, scanned
   * left to right: true exactly when some existing note is too close on both
   * axes, so never on an empty board.
   */
  function IsTooOverlappingPos(x: real, y: real, existing: seq<Note>): (tooClose: bool)
    ensures tooClose <==> exists i :: 0 <= i < |existing| && TooClose(existing[i], x, y)
    ensures existing == [] ==> !tooClose
  {
    if existing == [] then false
    else
      var rest := IsTooOverlappingPos(x, y, existing[1..]);
      assert rest <==> exists i :: 1 <= i < |existing| && TooClose(existing[i], x, y) by {
        if rest {
          var i :| 0 <= i < |existing[1..]| && TooClose(existing[1..][i], x, y);
          assert TooClose(existing[i + 1], x, y);
        }
        if exists i :: 1 <= i < |existing| && TooClose(existing[i], x, y) {
          var i :| 1 <= i < |existing| && TooClose(existing[i], x, y);
          assert existing[1..][i - 1] == existing[i];
        }
      }
      TooClose(existing[0], x, y) || rest
  }

  /**
   * The separation rule is the footprint rule with 20 px of slack: a spot that
   * is not too close to `n` shares at most 20 px with it along some axis, so
   * at most 20 * 180 = 3600 square px, one ninth of the footprint.
   */
  lemma SeparatedNoteCoversLittle(n: Note, cand: Note)
    requires !TooClose(n, cand.x, cand.y)
    ensures Overlap.Extent(cand.x, n.x) <= AllowedOverlap || Overlap.Extent(cand.y, n.y) <= AllowedOverlap
    ensures Overlap.PairArea(cand, n) <= AllowedOverlap * NoteSize
  {
    var ex, ey := Overlap.Extent(cand.x, n.x), Overlap.Extent(cand.y, n.y);
    assert Overlap.PairArea(cand, n) == ex * ey;
    assert Abs(cand.x - n.x) == Abs(n.x - cand.x) && Abs(cand.y - n.y) == Abs(n.y - cand.y);
    if ex <= AllowedOverlap {
      Overlap.ProductMono(ex, ey, AllowedOverlap, NoteSize);
    } else {
      Overlap.ProductMono(ex, ey, NoteSize, AllowedOverlap);
    }
  }

  /** Board centre for a note's top-left corner: `boardWidth / 2 - NOTE_SIZE / 2`. */
  function CentreX(b: BoardEl): real { b.clientWidth / 2.0 - NoteSize / 2.0 }
  function CentreY(b: BoardEl): real { b.clientHeight / 2.0 - NoteSize / 2.0 }

  /** `Math.random() * 200 - 100`. */
  function Jitter(r: real): (o: real)
    ensures 0.0 <= r < 1.0 ==> -100.0 <= o < 100.0
  {
    r * 200.0 - 100.0
  }

  /** Board centre plus jitter, clamped into the board. */
  function GetRandomCenterPosition(b: BoardEl, d: Draw): (p: Pos)
    ensures BoardFitsNote(b) ==> InBounds(p, b.clientWidth, b.clientHeight)
  {
    Pos(Clamp(CentreX(b) + Jitter(d.rx), 0.0, Limit(b.clientWidth)),
        Clamp(CentreY(b) + Jitter(d.ry), 0.0, Limit(b.clientHeight)))
  }

  /**
   * With genuine draws on a board that fits a note, a candidate is the centre
   * plus an offset in [-100, 100) on each axis, moved only by the clamp: it is
   * in bounds, and it lies within 100 px of the centre unless clamped onto an edge.
   */
  lemma CandidateNearCentre(b: BoardEl, d: Draw)
    requires ValidDraw(d) && BoardFitsNote(b)
    ensures var p := GetRandomCenterPosition(b, d);
      && InBounds(p, b.clientWidth, b.clientHeight)
      && -100.0 <= Jitter(d.rx) < 100.0 && -100.0 <= Jitter(d.ry) < 100.0
      && p == ClampToBoard(Pos(CentreX(b) + Jitter(d.rx), CentreY(b) + Jitter(d.ry)), b.clientWidth, b.clientHeight)
      && (p.x == 0.0 || p.x == Limit(b.clientWidth) || Abs(p.x - CentreX(b)) <= 100.0)
      && (p.y == 0.0 || p.y == Limit(b.clientHeight) || Abs(p.y - CentreY(b)) <= 100.0)
  {
  }

  // ---------------------------------------------------------------
  // Specification of the two phases
  // ---------------------------------------------------------------

  /** The k-th candidate: the one drawn before check k of the probe phase. */
  function Candidate(b: BoardEl, rand: nat -> Draw, k: nat): Pos
  {
    GetRandomCenterPosition(b, rand(k))
  }

  /** The first candidate from number `i` on, below the probe limit, that is not too close; None if all fail. */
  function FirstFit(b: BoardEl, existing: seq<Note>, rand: nat -> Draw, i: nat): (r: Option<nat>)
    requires i <= ProbeLimit
    ensures r.Some? ==> (i <= r.value < ProbeLimit
      && !IsTooOverlappingPos(Candidate(b, rand, r.value).x, Candidate(b, rand, r.value).y, existing)
      && forall j :: i <= j < r.value ==> IsTooOverlappingPos(Candidate(b, rand, j).x, Candidate(b, rand, j).y, existing))
    ensures r.None? ==>
      forall j :: i <= j < ProbeLimit ==> IsTooOverlappingPos(Candidate(b, rand, j).x, Candidate(b, rand, j).y, existing)
    decreases ProbeLimit - i
  {
    if i == ProbeLimit then None
    else if !IsTooOverlappingPos(Candidate(b, rand, i).x, Candidate(b, rand, i).y, existing) then Some(i)
    else FirstFit(b, existing, rand, i + 1)
  }

  /** `Math.sqrt(dx * dx + dy * dy) || 1`: a zero distance becomes 1. */
  function Distance(sqrt: real -> real, dx: real, dy: real): real
  {
    var s := sqrt(dx * dx + dy * dy);
    if s == 0.0 then 1.0 else s
  }

  /** One note's push inside the `forEach`: move 24 px along the centre-to-centre unit vector, then clamp. */
  function PushFrom(b: BoardEl, sqrt: real -> real, p: Pos, n: Note): (r: Pos)
    ensures BoardFitsNote(b) ==> InBounds(r, b.clientWidth, b.clientHeight)
  {
    var dx := (p.x + NoteSize / 2.0) - (n.x + NoteSize / 2.0);
    var dy := (p.y + NoteSize / 2.0) - (n.y + NoteSize / 2.0);
    var dist := Distance(sqrt, dx, dy);
    var ux := dx / dist;
    var uy := dy / dist;
    Pos(Clamp(p.x + ux * PushStep, 0.0, Limit(b.clientWidth)),
        Clamp(p.y + uy * PushStep, 0.0, Limit(b.clientHeight)))
  }

  /** One round: every existing note pushes in turn, the position re-clamped after each push. */
  function PushRound(b: BoardEl, sqrt: real -> real, p: Pos, existing: seq<Note>): (r: Pos)
    ensures BoardFitsNote(b) && InBounds(p, b.clientWidth, b.clientHeight) ==> InBounds(r, b.clientWidth, b.clientHeight)
    decreases |existing|
  {
    if existing == [] then p
    else PushRound(b, sqrt, PushFrom(b, sqrt, p, existing[0]), existing[1..])
  }

  /** Result of the push-away phase and the number of rounds it ran. */
  datatype Pushed = Pushed(pos: Pos, rounds: nat)

  /** The position after `j` full push rounds from `p`. */
  function AfterRounds(b: BoardEl, sqrt: real -> real, p: Pos, existing: seq<Note>, j: nat): Pos
    decreases j
  {
    if j == 0 then p else AfterRounds(b, sqrt, PushRound(b, sqrt, p, existing), existing, j - 1)
  }

  /**
   * Up to `budget` rounds, stopping as soon as the position is not too close.
   * The phase runs exactly the rounds that start from a too-close position,
   * up to the budget: every round it ran started too close, it stops at once
   * on a position that is not too close, and only the budget ends it early.
   */
  function PushAway(b: BoardEl, sqrt: real -> real, p: Pos, existing: seq<Note>, budget: nat): (r: Pushed)
    ensures r.rounds <= budget
    ensures r.pos == AfterRounds(b, sqrt, p, existing, r.rounds)
    ensures forall j :: 0 <= j < r.rounds ==>
      IsTooOverlappingPos(AfterRounds(b, sqrt, p, existing, j).x, AfterRounds(b, sqrt, p, existing, j).y, existing)
    ensures r.rounds < budget ==> !IsTooOverlappingPos(r.pos.x, r.pos.y, existing)
    ensures budget == 0 || !IsTooOverlappingPos(p.x, p.y, existing) ==> r == Pushed(p, 0)
    ensures BoardFitsNote(b) && InBounds(p, b.clientWidth, b.clientHeight) ==> InBounds(r.pos, b.clientWidth, b.clientHeight)
    decreases budget
  {
    if budget == 0 || !IsTooOverlappingPos(p.x, p.y, existing) then Pushed(p, 0)
    else
      var q := PushRound(b, sqrt, p, existing);
      var rest := PushAway(b, sqrt, q, existing, budget - 1);
      assert forall j :: 0 < j <= rest.rounds ==>
        AfterRounds(b, sqrt, p, existing, j) == AfterRounds(b, sqrt, q, existing, j - 1);
      Pushed(rest.pos, rest.rounds + 1)
  }

  /** Where the planner puts a new note on a mounted board. */
  function SpawnPosition(b: BoardEl, existing: seq<Note>, rand: nat -> Draw, sqrt: real -> real): Pos
  {
    match FirstFit(b, existing, rand, 0)
    case Some(k) => Candidate(b, rand, k)
    case None => PushAway(b, sqrt, Candidate(b, rand, ProbeLimit), existing, PushRounds).pos
  }

  // ---------------------------------------------------------------
  // The planner
  // ---------------------------------------------------------------

  /** `findSpawnPosition(boardEl, existing)`. */
  method FindSpawnPosition(boardEl: Option<BoardEl>, existing: seq<Note>, rand: nat -> Draw, sqrt: real -> real)
    returns (p: Pos)
    ensures boardEl.None? ==> p == DefaultPos
    ensures boardEl.Some? ==> p == SpawnPosition(boardEl.value, existing, rand, sqrt)
    ensures boardEl.Some? && BoardFitsNote(boardEl.value) ==> InBounds(p, boardEl.value.clientWidth, boardEl.value.clientHeight)
  {
    if boardEl.None? {
      return DefaultPos;
    }
    var b := boardEl.value;
    var draws := 0;
    var candidate := GetRandomCenterPosition(b, rand(draws));

    // 1) random probes
    for i := 0 to ProbeLimit
      invariant draws == i && candidate == Candidate(b, rand, i)
      invariant FirstFit(b, existing, rand, 0) == FirstFit(b, existing, rand, i)
    {
      if !IsTooOverlappingPos(candidate.x, candidate.y, existing) {
        if BoardFitsNote(b) { SpawnInBounds(b, existing, rand, sqrt); }
        return candidate;
      }
      draws := draws + 1;
      candidate := GetRandomCenterPosition(b, rand(draws));
    }

    // 2) push-away rounds
    p := PushAwayPhase(b, sqrt, candidate, existing);
    if BoardFitsNote(b) { SpawnInBounds(b, existing, rand, sqrt); }
  }

  /** The push-away loop: at most 20 rounds, leaving as soon as the position is not too close. */
  method PushAwayPhase(b: BoardEl, sqrt: real -> real, start: Pos, existing: seq<Note>) returns (p: Pos)
    ensures p == PushAway(b, sqrt, start, existing, PushRounds).pos
  {
    var x, y := start.x, start.y;
    var step := 0;
    while step < PushRounds && IsTooOverlappingPos(x, y, existing)
      invariant 0 <= step <= PushRounds
      invariant PushAway(b, sqrt, start, existing, PushRounds) == PushAwayAfter(b, sqrt, Pos(x, y), existing, step)
    {
      x, y := PushEach(b, sqrt, x, y, existing);
      step := step + 1;
    }
    p := Pos(x, y);
  }

  /** The `existing.forEach` of one push-away round, updating `x` and `y` note by note. */
  method PushEach(b: BoardEl, sqrt: real -> real, x0: real, y0: real, existing: seq<Note>) returns (x: real, y: real)
    ensures Pos(x, y) == PushRound(b, sqrt, Pos(x0, y0), existing)
  {
    x, y := x0, y0;
    var j := 0;
    while j < |existing|
      invariant 0 <= j <= |existing|
      invariant PushRound(b, sqrt, Pos(x0, y0), existing) == PushRound(b, sqrt, Pos(x, y), existing[j..])
    {
      var n := existing[j];
      assert existing[j..][1..] == existing[j + 1..];
      ghost var before := Pos(x, y);
      var dx := (x + NoteSize / 2.0) - (n.x + NoteSize / 2.0);
      var dy := (y + NoteSize / 2.0) - (n.y + NoteSize / 2.0);
      var dist := sqrt(dx * dx + dy * dy);
      if dist == 0.0 { dist := 1.0; }
      var ux := dx / dist;
      var uy := dy / dist;
      x := x + ux * PushStep;
      y := y + uy * PushStep;
      x := Clamp(x, 0.0, Limit(b.clientWidth));
      y := Clamp(y, 0.0, Limit(b.clientHeight));
      assert dist == Distance(sqrt, dx, dy);
      assert ux == dx / Distance(sqrt, dx, dy) && uy == dy / Distance(sqrt, dx, dy);
      assert x == Clamp(before.x + ux * PushStep, 0.0, Limit(b.clientWidth));
      assert y == Clamp(before.y + uy * PushStep, 0.0, Limit(b.clientHeight));
      assert Pos(x, y) == PushFrom(b, sqrt, before, n);
      j := j + 1;
    }
  }

  /** The rest of the push-away phase seen from `p` after `done` rounds: the same result as a full run. */
  function PushAwayAfter(b: BoardEl, sqrt: real -> real, p: Pos, existing: seq<Note>, done: nat): (r: Pushed)
    requires done <= PushRounds
  {
    var rest := PushAway(b, sqrt, p, existing, PushRounds - done);
    Pushed(rest.pos, rest.rounds + done)
  }

  // ---------------------------------------------------------------
  // Properties of the planner
  // ---------------------------------------------------------------

  /** On a board that fits a note, the planner's position is in bounds. */
  lemma SpawnInBounds(b: BoardEl, existing: seq<Note>, rand: nat -> Draw, sqrt: real -> real)
    requires BoardFitsNote(b)
    ensures InBounds(SpawnPosition(b, existing, rand, sqrt), b.clientWidth, b.clientHeight)
  {
    if FirstFit(b, existing, rand, 0).None? {
      assert InBounds(Candidate(b, rand, ProbeLimit), b.clientWidth, b.clientHeight);
    }
  }

  /** On an empty board the first candidate is taken unchanged. */
  lemma SpawnOnEmptyBoard(b: BoardEl, rand: nat -> Draw, sqrt: real -> real)
    ensures SpawnPosition(b, [], rand, sqrt) == Candidate(b, rand, 0)
  {
  }

  /**
   * Either one of the first 35 candidates is accepted, after every earlier one
   * was rejected, and it is not too close to any existing note; or all 35 were
   * too close and the push-away phase starts from the 36th draw: it runs at
   * most 20 rounds, each starting from a too-close position, and stops before
   * the 20th only on a position that is not too close.
   */
  lemma SpawnPhases(b: BoardEl, existing: seq<Note>, rand: nat -> Draw, sqrt: real -> real)
    ensures var p := SpawnPosition(b, existing, rand, sqrt);
      || (exists k :: 0 <= k < ProbeLimit && p == Candidate(b, rand, k)
            && !IsTooOverlappingPos(p.x, p.y, existing)
            && forall j :: 0 <= j < k ==> IsTooOverlappingPos(Candidate(b, rand, j).x, Candidate(b, rand, j).y, existing))
      || ((forall j :: 0 <= j < ProbeLimit ==> IsTooOverlappingPos(Candidate(b, rand, j).x, Candidate(b, rand, j).y, existing))
            && var start := Candidate(b, rand, ProbeLimit);
               var r := PushAway(b, sqrt, start, existing, PushRounds);
               p == r.pos && r.rounds <= PushRounds
               && p == AfterRounds(b, sqrt, start, existing, r.rounds)
               && (forall j :: 0 <= j < r.rounds ==>
                     IsTooOverlappingPos(AfterRounds(b, sqrt, start, existing, j).x,
                                         AfterRounds(b, sqrt, start, existing, j).y, existing))
               && (r.rounds < PushRounds ==> !IsTooOverlappingPos(p.x, p.y, existing)))
  {
    match FirstFit(b, existing, rand, 0)
    case Some(k) =>
    case None =>
  }

  /**
   * A note whose centre coincides with the candidate's gives a zero vector
   * (0 divided by the distance, which `|| 1` turns into 1 for a zero root),
   * not a push, whatever square root is used: with a single existing note
   * exactly under every candidate, the planner returns that note's own position.
   */
  lemma CoincidentNoteIsNeverPushed(b: BoardEl, n: Note, rand: nat -> Draw, sqrt: real -> real)
    requires forall k :: Candidate(b, rand, k) == PosOf(n)
    ensures SpawnPosition(b, [n], rand, sqrt) == PosOf(n)
    ensures IsTooOverlappingPos(n.x, n.y, [n])
  {
    assert TooClose(n, n.x, n.y);
    assert IsTooOverlappingPos(Candidate(b, rand, 0).x, Candidate(b, rand, 0).y, [n]);
    PinnedUnderNote(b, n, rand, 0);
    var c := Candidate(b, rand, ProbeLimit);
    CoincidentPushIsZero(b, sqrt, c, n);
    assert ClampToBoard(c, b.clientWidth, b.clientHeight) == c;
    assert PushRound(b, sqrt, c, [n]) == c;
    StuckPushAway(b, sqrt, c, [n], PushRounds);
  }

  /** Coincident centres give the vector (0, 0) for any square root, so the push only re-clamps. */
  lemma CoincidentPushIsZero(b: BoardEl, sqrt: real -> real, c: Pos, n: Note)
    requires PosOf(n) == c
    ensures PushFrom(b, sqrt, c, n) == ClampToBoard(c, b.clientWidth, b.clientHeight)
  {
    var dx := (c.x + NoteSize / 2.0) - (n.x + NoteSize / 2.0);
    var dy := (c.y + NoteSize / 2.0) - (n.y + NoteSize / 2.0);
    assert dx == 0.0 && dy == 0.0;
    var dist := Distance(sqrt, dx, dy);
    assert dist != 0.0;
    assert dx / dist == 0.0 && dy / dist == 0.0;
  }

  lemma {:induction false} PinnedUnderNote(b: BoardEl, n: Note, rand: nat -> Draw, i: nat)
    requires i <= ProbeLimit
    requires forall k :: Candidate(b, rand, k) == PosOf(n)
    ensures FirstFit(b, [n], rand, i).None?
    decreases ProbeLimit - i
  {
    if i < ProbeLimit {
      assert TooClose(n, Candidate(b, rand, i).x, Candidate(b, rand, i).y);
      PinnedUnderNote(b, n, rand, i + 1);
    }
  }

  lemma {:induction false} StuckPushAway(b: BoardEl, sqrt: real -> real, p: Pos, existing: seq<Note>, budget: nat)
    requires PushRound(b, sqrt, p, existing) == p
    ensures PushAway(b, sqrt, p, existing, budget).pos == p
    decreases budget
  {
    if budget > 0 && IsTooOverlappingPos(p.x, p.y, existing) {
      StuckPushAway(b, sqrt, p, existing, budget - 1);
    }
  }
}
