/**
 * The board store: the ordered collection of notes that the board renders,
 * and the `map`/`filter`/`reduce` expressions the sticky-note component
 * passes to `setNotes`. Every update produces a new sequence; nothing is
 * changed in place.
 */
module Notes {
  import opened Wrappers
  import opened Geometry

  /** One sticky note. `zIndex` is absent until the note is first promoted. */
  datatype Note = Note(
    id: int,
    html: string,
    color: string,
    styleType: string,
    x: real,
    y: real,
    rotation: real,
    shadowDepth: int,
    zIndex: Option<int>)

  function PosOf(n: Note): Pos { Pos(n.x, n.y) }

  /** The field a `{ ...n, field: value }` spread replaces. */
  datatype Patch =
    | ZIndexPatch(z: int)
    | PositionPatch(nx: real, ny: real)
    | HtmlPatch(newHtml: string)

  /** `{ ...n, <patched fields> }`: the patched fields take the new values, every other field is copied. */
  function Apply(n: Note, p: Patch): (r: Note)
    ensures r.id == n.id && r.color == n.color && r.styleType == n.styleType
    ensures r.rotation == n.rotation && r.shadowDepth == n.shadowDepth
    ensures r.zIndex == (if p.ZIndexPatch? then Some(p.z) else n.zIndex)
    ensures PosOf(r) == (if p.PositionPatch? then Pos(p.nx, p.ny) else PosOf(n))
    ensures r.html == (if p.HtmlPatch? then p.newHtml else n.html)
  {
    match p
    case ZIndexPatch(z) => n.(zIndex := Some(z))
    case PositionPatch(nx, ny) => n.(x := nx, y := ny)
    case HtmlPatch(h) => n.(html := h)
  }

  /** `notes.map(n => n.id === id ? { ...n, <patch> } : n)`. */
  function Update(notes: seq<Note>, id: int, p: Patch): (r: seq<Note>)
    ensures |r| == |notes|
    ensures forall i :: 0 <= i < |notes| ==> r[i].id == notes[i].id
    ensures forall i :: 0 <= i < |notes| && notes[i].id == id ==> r[i] == Apply(notes[i], p)
    ensures forall i :: 0 <= i < |notes| && notes[i].id != id ==> r[i] == notes[i]
  {
    if notes == [] then []
    else [if notes[0].id == id then Apply(notes[0], p) else notes[0]] + Update(notes[1..], id, p)
  }

  /** `notes.filter(n => n.id !== id)`. */
  function Remove(notes: seq<Note>, id: int): (r: seq<Note>)
    ensures |r| <= |notes|
    ensures forall n :: n in r ==> n in notes && n.id != id
    ensures forall n :: n in notes && n.id != id ==> n in r
  {
    if notes == [] then []
    else (if notes[0].id == id then [] else [notes[0]]) + Remove(notes[1..], id)
  }

  /** Ids are unique: what the board needs for "only this note changes" to mean one note. */
  ghost predicate UniqueIds(notes: seq<Note>)
  {
    forall i, j :: 0 <= i < j < |notes| ==> notes[i].id != notes[j].id
  }

  /** Every note satisfies the board-bound invariant. */
  ghost predicate AllInBounds(notes: seq<Note>, w: real, h: real)
  {
    forall i :: 0 <= i < |notes| ==> InBounds(PosOf(notes[i]), w, h)
  }

  // ---------------------------------------------------------------
  // Updates change exactly the note with the given id
  // ---------------------------------------------------------------

  /** With unique ids, an update changes exactly the one note with that id. */
  lemma UpdateTouchesOnlyTarget(notes: seq<Note>, id: int, p: Patch, k: nat)
    requires UniqueIds(notes) && k < |notes| && notes[k].id == id
    ensures Update(notes, id, p) == notes[k := Apply(notes[k], p)]
  {
    var r := Update(notes, id, p);
    forall i | 0 <= i < |notes|
      ensures r[i] == notes[k := Apply(notes[k], p)][i]
    {
      if i != k {
        assert notes[i].id != id by {
          if i < k { assert notes[i].id != notes[k].id; } else { assert notes[k].id != notes[i].id; }
        }
      }
    }
  }

  /** An update of an id the board does not hold leaves the board as it was. */
  lemma UpdateOfMissingIdIsIdentity(notes: seq<Note>, id: int, p: Patch)
    requires forall i :: 0 <= i < |notes| ==> notes[i].id != id
    ensures Update(notes, id, p) == notes
  {
  }

  /** Updates keep ids, so they keep ids unique. */
  lemma UpdateKeepsUniqueIds(notes: seq<Note>, id: int, p: Patch)
    requires UniqueIds(notes)
    ensures UniqueIds(Update(notes, id, p))
  {
  }

  /** A patch that is not a move keeps every position; a move to an in-bounds point keeps the board in bounds. */
  lemma UpdateKeepsInBounds(notes: seq<Note>, id: int, p: Patch, w: real, h: real)
    requires AllInBounds(notes, w, h)
    requires p.PositionPatch? ==> InBounds(Pos(p.nx, p.ny), w, h)
    ensures AllInBounds(Update(notes, id, p), w, h)
  {
    var r := Update(notes, id, p);
    forall i | 0 <= i < |r| ensures InBounds(PosOf(r[i]), w, h) {
      assert InBounds(PosOf(notes[i]), w, h);
    }
  }

  // ---------------------------------------------------------------
  // Delete
  // ---------------------------------------------------------------

  /** With unique ids, deleting removes exactly the one matching note and keeps the rest in order. */
  lemma {:induction false} RemoveUnique(notes: seq<Note>, id: int, k: nat)
    requires UniqueIds(notes) && k < |notes| && notes[k].id == id
    ensures Remove(notes, id) == notes[..k] + notes[k + 1..]
  {
    var tail := notes[1..];
    UniqueTail(notes);
    if k == 0 {
      RemoveMissing(tail, id);
      assert notes[..k] + notes[k + 1..] == tail;
    } else {
      assert tail[k - 1] == notes[k];
      assert notes[0].id != id by { assert notes[0].id != notes[k].id; }
      calc {
        Remove(notes, id);
        == { RemoveCons(notes, id); }
        [notes[0]] + Remove(tail, id);
        == { RemoveUnique(tail, id, k - 1); }
        [notes[0]] + (tail[..k - 1] + tail[k..]);
        == { assert tail[..k - 1] == notes[1..k]; assert tail[k..] == notes[k + 1..]; }
        [notes[0]] + (notes[1..k] + notes[k + 1..]);
        == { assert [notes[0]] + notes[1..k] == notes[..k]; }
        notes[..k] + notes[k + 1..];
      }
    }
  }

  /** Without its first note, a board with unique ids still has unique ids, none equal to the first note's. */
  lemma UniqueTail(notes: seq<Note>)
    requires UniqueIds(notes) && notes != []
    ensures UniqueIds(notes[1..])
    ensures forall i :: 0 <= i < |notes[1..]| ==> notes[1..][i].id != notes[0].id
  {
    forall i | 0 <= i < |notes[1..]| ensures notes[1..][i].id != notes[0].id {
      assert notes[0].id != notes[i + 1].id;
    }
    forall i, j | 0 <= i < j < |notes[1..]| ensures notes[1..][i].id != notes[1..][j].id {
      assert notes[i + 1].id != notes[j + 1].id;
    }
  }

  lemma RemoveCons(notes: seq<Note>, id: int)
    requires notes != [] && notes[0].id != id
    ensures Remove(notes, id) == [notes[0]] + Remove(notes[1..], id)
  {
  }

  /** Deleting an id the board does not hold leaves the board unchanged. */
  lemma {:induction false} RemoveMissing(notes: seq<Note>, id: int)
    requires forall i :: 0 <= i < |notes| ==> notes[i].id != id
    ensures Remove(notes, id) == notes
  {
    if notes != [] {
      RemoveMissing(notes[1..], id);
      assert [notes[0]] + notes[1..] == notes;
    }
  }

  /** Deleting keeps the remaining notes in their original relative order: the result is a subsequence. */
  lemma {:induction false} RemoveIsSubsequence(notes: seq<Note>, id: int)
    ensures IsSubsequence(Remove(notes, id), notes)
  {
    if notes != [] {
      RemoveIsSubsequence(notes[1..], id);
      SubsequenceCons(Remove(notes[1..], id), notes[1..], notes[0], notes[0].id != id);
      assert [notes[0]] + notes[1..] == notes;
    }
  }

  /** `s` is obtained from `t` by dropping elements, keeping order. */
  ghost predicate IsSubsequence(s: seq<Note>, t: seq<Note>)
    decreases |t|
  {
    s == [] ||
    (t != [] && ((s[0] == t[0] && IsSubsequence(s[1..], t[1..])) || IsSubsequence(s, t[1..])))
  }

  lemma SubsequenceCons(s: seq<Note>, t: seq<Note>, n: Note, keep: bool)
    requires IsSubsequence(s, t)
    ensures IsSubsequence((if keep then [n] else []) + s, [n] + t)
  {
    var t' := [n] + t;
    assert t'[1..] == t;
    if keep {
      var s' := [n] + s;
      assert s'[1..] == s;
    } else {
      assert ([] + s) == s;
    }
  }

  /** Deleting keeps ids unique and every remaining note in bounds. */
  lemma RemoveKeepsInvariants(notes: seq<Note>, id: int, w: real, h: real)
    requires UniqueIds(notes) && AllInBounds(notes, w, h)
    ensures UniqueIds(Remove(notes, id)) && AllInBounds(Remove(notes, id), w, h)
  {
    RemoveIsSubsequence(notes, id);
    SubsequenceKeeps(Remove(notes, id), notes, w, h);
  }

  lemma {:induction false} SubsequenceKeeps(s: seq<Note>, t: seq<Note>, w: real, h: real)
    requires IsSubsequence(s, t) && UniqueIds(t) && AllInBounds(t, w, h)
    ensures UniqueIds(s) && AllInBounds(s, w, h)
    ensures forall n :: n in s ==> n in t
    decreases |t|
  {
    if s != [] {
      assert t != [];
      if s[0] == t[0] && IsSubsequence(s[1..], t[1..]) {
        SubsequenceKeeps(s[1..], t[1..], w, h);
        forall j | 0 < j < |s| ensures s[0].id != s[j].id {
          assert s[j] in t[1..];
          var m :| 0 <= m < |t[1..]| && t[1..][m] == s[j];
          assert t[0].id != t[m + 1].id;
        }
        assert s == [s[0]] + s[1..];
      } else {
        SubsequenceKeeps(s, t[1..], w, h);
      }
    }
  }

  // ---------------------------------------------------------------
  // Bring to top
  // ---------------------------------------------------------------

  /** `n.zIndex || 0`. */
  function ZOf(n: Note): int
  {
    match n.zIndex
    case None => 0
    case Some(z) => z
  }

  function MaxInt(a: int, b: int): int { if a >= b then a else b }

  /** `notes.reduce((max, n) => Math.max(max, n.zIndex || 0), 0)`. */
  function MaxZ(notes: seq<Note>): (m: int)
    ensures m >= 0
    ensures forall i :: 0 <= i < |notes| ==> ZOf(notes[i]) <= m
    ensures m == 0 || exists i :: 0 <= i < |notes| && ZOf(notes[i]) == m
  {
    if notes == [] then 0
    else MaxInt(MaxZ(notes[..|notes| - 1]), ZOf(notes[|notes| - 1]))
  }

  /**
   * The promotion step: this note's `zIndex` becomes one more than the
   * board's maximum, nothing else about it changes, and every other note is
   * left as it was.
   */
  function BringNoteToTop(notes: seq<Note>, id: int): (r: seq<Note>)
    ensures |r| == |notes|
    ensures forall i :: 0 <= i < |notes| && notes[i].id == id ==> r[i] == notes[i].(zIndex := Some(MaxZ(notes) + 1))
    ensures forall i :: 0 <= i < |notes| && notes[i].id != id ==> r[i] == notes[i]
  {
    ZIndexPatchTarget(notes, id, MaxZ(notes) + 1);
    Update(notes, id, ZIndexPatch(MaxZ(notes) + 1))
  }

  /** A `zIndex` patch replaces the matching notes' `zIndex` and nothing else. */
  lemma ZIndexPatchTarget(notes: seq<Note>, id: int, z: int)
    ensures forall i :: 0 <= i < |notes| && notes[i].id == id ==>
      Update(notes, id, ZIndexPatch(z))[i] == notes[i].(zIndex := Some(z))
  {
    var r := Update(notes, id, ZIndexPatch(z));
    forall i | 0 <= i < |notes| && notes[i].id == id ensures r[i] == notes[i].(zIndex := Some(z)) {
      assert r[i] == Apply(notes[i], ZIndexPatch(z));
    }
  }

  /**
   * A promoted note ends strictly above every note of the old board and
   * every other note of the new one, and no note's stacking order decreases.
   */
  lemma PromotedIsStrictlyOnTop(notes: seq<Note>, id: int)
    ensures forall i, j :: 0 <= i < |notes| && 0 <= j < |notes| && notes[i].id == id ==>
      ZOf(BringNoteToTop(notes, id)[i]) > ZOf(notes[j])
    ensures forall i, j :: 0 <= i < |notes| && 0 <= j < |notes| && notes[i].id == id && notes[j].id != id ==>
      ZOf(BringNoteToTop(notes, id)[i]) > ZOf(BringNoteToTop(notes, id)[j])
    ensures forall i :: 0 <= i < |notes| ==> ZOf(BringNoteToTop(notes, id)[i]) >= ZOf(notes[i])
  {
    var r := BringNoteToTop(notes, id);
    var m := MaxZ(notes);
    forall i | 0 <= i < |notes| && notes[i].id == id ensures ZOf(r[i]) == m + 1 {
      assert r[i] == notes[i].(zIndex := Some(m + 1));
    }
  }
}
