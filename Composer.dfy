/**
 * The note composer of the dashboard: the key-down guard that enforces the
 * 180-character and 7-line limits, and `addNote`, which keeps the first 7
 * lines, trims, rejects empty text and otherwise appends one note placed by
 * the spawn planner.
 */
module Composer {
  import opened Wrappers
  import opened Geometry
  import opened Notes
  import Spawn

  const MaxChars: nat := 180
  const MaxLines: nat := 7

  // ---------------------------------------------------------------
  // Lines: split(/\n/) and join("\n")
  // ---------------------------------------------------------------

  /** `text.split(/\n/)`: never empty, no line holds a newline. */
  function SplitLines(s: string): (lines: seq<string>)
    ensures |lines| >= 1
    ensures forall i :: 0 <= i < |lines| ==> '\n' !in lines[i]
  {
    if s == [] then [""]
    else
      var rest := SplitLines(s[1..]);
      if s[0] == '\n' then [""] + rest
      else [[s[0]] + rest[0]] + rest[1..]
  }

  /** `lines.join("\n")`. */
  function JoinLines(lines: seq<string>): string
  {
    if lines == [] then ""
    else if |lines| == 1 then lines[0]
    else lines[0] + "\n" + JoinLines(lines[1..])
  }

  function NewlineCount(s: string): nat
  {
    if s == [] then 0 else (if s[0] == '\n' then 1 else 0) + NewlineCount(s[1..])
  }

  /** Joining the split text gives the text back. */
  lemma {:induction false} JoinSplit(s: string)
    ensures JoinLines(SplitLines(s)) == s
  {
    if s != [] {
      var rest := SplitLines(s[1..]);
      JoinSplit(s[1..]);
      if s[0] == '\n' {
        assert ([""] + rest)[1..] == rest;
      } else if |rest| > 1 {
        var lines := [[s[0]] + rest[0]] + rest[1..];
        assert lines[1..] == rest[1..];
        assert JoinLines(rest) == rest[0] + "\n" + JoinLines(rest[1..]);
        assert JoinLines(lines) == [s[0]] + JoinLines(rest);
      }
    }
  }

  /** There is one line more than there are newlines. */
  lemma {:induction false} LineCount(s: string)
    ensures |SplitLines(s)| == NewlineCount(s) + 1
  {
    if s != [] {
      LineCount(s[1..]);
    }
  }

  lemma {:induction false} NewlineCountConcat(a: string, b: string)
    ensures NewlineCount(a + b) == NewlineCount(a) + NewlineCount(b)
  {
    if a == [] {
      assert a + b == b;
    } else {
      NewlineCountConcat(a[1..], b);
      assert (a + b)[1..] == a[1..] + b;
    }
  }

  /** Joined lines split at line `k`: the first `k` lines, one newline, then the rest. */
  lemma {:induction false} JoinSplitAt(lines: seq<string>, k: nat)
    requires 1 <= k < |lines|
    ensures JoinLines(lines) == JoinLines(lines[..k]) + "\n" + JoinLines(lines[k..])
  {
    if k == 1 {
      assert lines[..1] == [lines[0]];
    } else {
      JoinSplitAt(lines[1..], k - 1);
      assert lines[..k][1..] == lines[1..][..k - 1];
      assert lines[1..][k - 1..] == lines[k..];
    }
  }

  lemma {:induction false} NoNewlines(s: string)
    requires '\n' !in s
    ensures NewlineCount(s) == 0
  {
    if s != [] {
      assert s == [s[0]] + s[1..];
      NoNewlines(s[1..]);
    }
  }

  /** Joining `n` newline-free lines puts exactly `n - 1` newlines into the text. */
  lemma {:induction false} JoinNewlines(lines: seq<string>)
    requires |lines| >= 1 && forall i :: 0 <= i < |lines| ==> '\n' !in lines[i]
    ensures NewlineCount(JoinLines(lines)) == |lines| - 1
  {
    NoNewlines(lines[0]);
    if |lines| > 1 {
      JoinNewlines(lines[1..]);
      NewlineCountConcat(lines[0] + "\n", JoinLines(lines[1..]));
      NewlineCountConcat(lines[0], "\n");
    }
  }

  /**
   * `.split(/\n/).slice(0, MAX_LINES).join("\n")`: text with at most 6
   * newlines is kept whole; longer text is cut just before its 7th newline,
   * so exactly the first 7 lines remain.
   */
  function KeepLines(s: string): (r: string)
    ensures r <= s
    ensures NewlineCount(s) < MaxLines ==> r == s
    ensures NewlineCount(s) >= MaxLines ==> |r| < |s| && s[|r|] == '\n' && NewlineCount(r) == MaxLines - 1
  {
    var lines := SplitLines(s);
    var k := if |lines| < MaxLines then |lines| else MaxLines;
    JoinSplit(s);
    LineCount(s);
    if k < |lines| then
      JoinSplitAt(lines, k);
      JoinNewlines(lines[..k]);
      var r := JoinLines(lines[..k]);
      assert s == r + "\n" + JoinLines(lines[k..]);
      assert (r + "\n" + JoinLines(lines[k..]))[..|r|] == r;
      r
    else
      assert lines[..k] == lines;
      JoinLines(lines[..k])
  }

  // ---------------------------------------------------------------
  // trim()
  // ---------------------------------------------------------------

  /** The characters JavaScript's `trim` removes: WhiteSpace and LineTerminator. */
  predicate IsWhitespace(c: char)
  {
    c == '\t' || c == '\n' || c == '\U{000B}' || c == '\U{000C}' || c == '\r' || c == ' '
    || c == '\U{00A0}' || c == '\U{1680}' || ('\U{2000}' <= c <= '\U{200A}')
    || c == '\U{2028}' || c == '\U{2029}' || c == '\U{202F}' || c == '\U{205F}'
    || c == '\U{3000}' || c == '\U{FEFF}'
  }

  /** Drops leading whitespace: what is left is a suffix that starts with a non-whitespace character. */
  function TrimStart(s: string): (r: string)
    ensures |r| <= |s| && r == s[|s| - |r|..]
    ensures r == [] || !IsWhitespace(r[0])
    ensures forall i :: 0 <= i < |s| - |r| ==> IsWhitespace(s[i])
  {
    if s != [] && IsWhitespace(s[0]) then TrimStart(s[1..]) else s
  }

  /** Drops trailing whitespace: what is left is a prefix that ends with a non-whitespace character. */
  function TrimEnd(s: string): (r: string)
    ensures |r| <= |s| && r == s[..|r|]
    ensures r == [] || !IsWhitespace(r[|r| - 1])
    ensures forall i :: |r| <= i < |s| ==> IsWhitespace(s[i])
  {
    if s != [] && IsWhitespace(s[|s| - 1]) then TrimEnd(s[..|s| - 1]) else s
  }

  function Trim(s: string): string
  {
    TrimEnd(TrimStart(s))
  }

  /** Trimming leaves nothing exactly when the text is all whitespace. */
  lemma TrimEmptyIff(s: string)
    ensures Trim(s) == [] <==> forall i :: 0 <= i < |s| ==> IsWhitespace(s[i])
  {
  }

  /** The text `addNote` checks: the first 7 lines, trimmed. */
  function PostText(innerText: string): string
  {
    Trim(KeepLines(innerText))
  }

  /** `addNote` rejects exactly the texts whose first 7 lines are whitespace only. */
  lemma PostTextEmptyIff(innerText: string)
    ensures PostText(innerText) == [] <==>
      forall i :: 0 <= i < |KeepLines(innerText)| ==> IsWhitespace(innerText[i])
  {
    TrimEmptyIff(KeepLines(innerText));
  }

  // ---------------------------------------------------------------
  // Key-down guard
  // ---------------------------------------------------------------

  /** Code units of one character in UTF-16: two outside the Basic Multilingual Plane. */
  function CodeUnits(c: char): nat
  {
    if (c as int) < 0x1_0000 then 1 else 2
  }

  /** JavaScript's `length`: the number of UTF-16 code units. */
  function Utf16Length(s: string): (n: nat)
    ensures |s| <= n <= 2 * |s|
    ensures (forall i :: 0 <= i < |s| ==> (s[i] as int) < 0x1_0000) ==> n == |s|
  {
    if s == [] then 0 else CodeUnits(s[0]) + Utf16Length(s[1..])
  }

  lemma {:induction false} Utf16LengthConcat(a: string, b: string)
    ensures Utf16Length(a + b) == Utf16Length(a) + Utf16Length(b)
  {
    if a == [] {
      assert a + b == b;
    } else {
      Utf16LengthConcat(a[1..], b);
      assert (a + b)[1..] == a[1..] + b;
    }
  }

  /** The parts of a keyboard event the guard reads. */
  datatype KeyEvent = KeyEvent(key: string, metaKey: bool, ctrlKey: bool, altKey: bool)

  /**
   * Whether `handleEditorKeyDown` calls `preventDefault`: a key of one code
   * unit without modifiers once the count has reached 180, or Enter when the
   * mounted editor already shows 7 or more lines. Only such keys are ever
   * blocked, and only at the character limit or with a mounted editor.
   */
  function KeyDownBlocked(charCount: nat, e: KeyEvent, editorText: Option<string>): (blocked: bool)
    ensures blocked ==> Utf16Length(e.key) == 1 || e.key == "Enter"
    ensures blocked ==> charCount >= MaxChars || editorText.Some?
  {
    if charCount >= MaxChars && !e.metaKey && !e.ctrlKey && !e.altKey && Utf16Length(e.key) == 1 then true
    else if editorText.Some? && e.key == "Enter" && |SplitLines(editorText.value)| >= MaxLines then true
    else false
  }

  /** The guard in terms of characters and newlines: both directions. */
  lemma KeyDownBlockedIff(charCount: nat, e: KeyEvent, editorText: Option<string>)
    ensures KeyDownBlocked(charCount, e, editorText) <==>
      || (charCount >= MaxChars && !e.metaKey && !e.ctrlKey && !e.altKey && Utf16Length(e.key) == 1)
      || (editorText.Some? && e.key == "Enter" && NewlineCount(editorText.value) >= MaxLines - 1)
  {
    if editorText.Some? {
      LineCount(editorText.value);
    }
  }

  /**
   * A key whose character lies outside the Basic Multilingual Plane has
   * length 2, so the character limit does not stop it.
   */
  lemma AstralKeyPassesAtLimit(charCount: nat)
    ensures !KeyDownBlocked(charCount, KeyEvent("\U{1F600}", false, false, false), None)
  {
    assert Utf16Length("\U{1F600}") == 2;
  }

  /**
   * The guard keeps the limits: a one-unit key that gets through, inserted
   * anywhere, leaves at most 180 code units, and an Enter that gets through,
   * inserting one newline anywhere, leaves at most 7 lines.
   */
  lemma GuardKeepsLimits(text: string, e: KeyEvent, at: nat)
    requires at <= |text|
    requires !KeyDownBlocked(Utf16Length(text), e, Some(text))
    ensures Utf16Length(e.key) == 1 && !e.metaKey && !e.ctrlKey && !e.altKey ==>
      Utf16Length(text[..at] + e.key + text[at..]) <= MaxChars
    ensures e.key == "Enter" ==> |SplitLines(text[..at] + "\n" + text[at..])| <= MaxLines
  {
    assert text[..at] + text[at..] == text;
    Utf16LengthConcat(text[..at] + e.key, text[at..]);
    Utf16LengthConcat(text[..at], e.key);
    Utf16LengthConcat(text[..at], text[at..]);
    LineCount(text);
    var t := text[..at] + "\n" + text[at..];
    LineCount(t);
    NewlineCountConcat(text[..at] + "\n", text[at..]);
    NewlineCountConcat(text[..at], "\n");
    NewlineCountConcat(text[..at], text[at..]);
  }

  // ---------------------------------------------------------------
  // addNote
  // ---------------------------------------------------------------

  /** The composer's state: the editor's text, the HTML kept in state, the character count. */
  datatype Editor = Editor(innerText: string, html: string, charCount: nat)

  /** The composer after a successful post. */
  const Cleared: Editor := Editor("", "", 0)

  /** `Math.floor(Math.random() * 4) + 2`. */
  function ShadowDepth(draw: real): (d: int)
    ensures 0.0 <= draw < 1.0 ==> 2 <= d <= 5
  {
    (draw * 4.0).Floor + 2
  }

  /** `Math.random() * 8 - 4`, before `toFixed(2)`. */
  function Rotation(draw: real): (r: real)
    ensures 0.0 <= draw < 1.0 ==> -4.0 <= r < 4.0
  {
    draw * 8.0 - 4.0
  }

  /** The note `addNote` creates. */
  function NewNote(id: int, html: string, color: string, styleType: string, p: Pos,
                   rotationDraw: real, shadowDraw: real): Note
  {
    Note(id, html, color, styleType, p.x, p.y, Rotation(rotationDraw), ShadowDepth(shadowDraw), None)
  }

  /**
   * `addNote`: does nothing without a mounted editor or when the first 7
   * lines are blank; otherwise appends exactly one note at the end, placed by
   * the spawn planner, and clears the composer.
   */
  method AddNote(notes: seq<Note>, editor: Option<Editor>, boardEl: Option<Spawn.BoardEl>,
                 id: int, color: string, styleType: string,
                 rand: nat -> Spawn.Draw, sqrt: real -> real, rotationDraw: real, shadowDraw: real)
    returns (notes': seq<Note>, editor': Option<Editor>)
    ensures editor.None? || PostText(editor.value.innerText) == [] ==> notes' == notes && editor' == editor
    ensures editor.Some? && PostText(editor.value.innerText) != [] ==>
      && |notes'| == |notes| + 1 && notes' == notes + [notes'[|notes|]]
      && notes'[|notes|].id == id && notes'[|notes|].html == editor.value.html
      && notes'[|notes|].color == color && notes'[|notes|].styleType == styleType
      && notes'[|notes|].zIndex.None?
      && PosOf(notes'[|notes|]) == (if boardEl.None? then Spawn.DefaultPos
                                    else Spawn.SpawnPosition(boardEl.value, notes, rand, sqrt))
      && notes'[|notes|] == NewNote(id, editor.value.html, color, styleType, PosOf(notes'[|notes|]), rotationDraw, shadowDraw)
      && (0.0 <= rotationDraw < 1.0 ==> -4.0 <= notes'[|notes|].rotation < 4.0)
      && (0.0 <= shadowDraw < 1.0 ==> 2 <= notes'[|notes|].shadowDepth <= 5)
      && editor' == Some(Cleared)
    ensures boardEl.Some? && Spawn.BoardFitsNote(boardEl.value) && AllInBounds(notes, boardEl.value.clientWidth, boardEl.value.clientHeight)
      ==> AllInBounds(notes', boardEl.value.clientWidth, boardEl.value.clientHeight)
    ensures UniqueIds(notes) && (forall i :: 0 <= i < |notes| ==> notes[i].id != id) ==> UniqueIds(notes')
  {
    notes', editor' := notes, editor;
    if editor.None? {
      return;
    }
    var plain := PostText(editor.value.innerText);
    if plain == [] {
      return;
    }
    var p := Spawn.FindSpawnPosition(boardEl, notes, rand, sqrt);
    var newNote := NewNote(id, editor.value.html, color, styleType, p, rotationDraw, shadowDraw);
    notes' := notes + [newNote];
    editor' := Some(Cleared);
  }
}
