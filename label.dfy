/** The text editing of yup::Label: two cursors over the content string, the
    selection between them, and the insert splice that the label submits to
    its own undo manager. Glyph layout, painting, keyboard dispatch, the
    clipboard and listener notification are outside this model. */
module LabelEditing {
  import opened Common
  import UM = Undo

  // ---------------------------------------------------------------------------
  // juce::String slicing

  /** String::substring(start, end): start below 0 counts as 0, an end not past
      start gives the empty string, and both ends stop at the length. */
  function Substring(s: string, start: int, end: int): (r: string)
    ensures 0 <= start <= end <= |s| ==> r == s[start..end]
    ensures end <= start ==> r == ""
  {
    var lo := Clamp(0, |s|, start);
    var hi := Clamp(0, |s|, end);
    if end <= Max(start, 0) || hi <= lo then "" else s[lo..hi]
  }

  /** String::substring(start): the suffix from start, the whole string for a
      start at or below 0 and the empty string past the end. */
  function SubstringFrom(s: string, start: int): (r: string)
    ensures 0 <= start <= |s| ==> r == s[start..]
    ensures start <= 0 ==> r == s
    ensures start >= |s| ==> r == ""
  {
    s[Clamp(0, |s|, start)..]
  }

  // ---------------------------------------------------------------------------
  // The state an insert acts on, and its callback

  /** What the insert callback reads and writes on the label: the content and
      the two cursors' character indices (-1 for a cleared cursor). */
  datatype LabelState = LabelState(content: string, down: int, drag: int)

  /** The values the insert lambda captures. */
  datatype Splice = Splice(left: int, right: int, posAfter: int, oldText: string, text: string)

  /** The insert lambda: forward writes text over [left, right) and puts both
      cursors after it; undo writes the old text back over [left, posAfter)
      and selects it again. Cursor moves clamp into the new content. */
  function RunSplice(w: LabelState, s: Splice, isUndo: bool): (r: LabelState)
    ensures 0 <= r.down <= |r.content| && 0 <= r.drag <= |r.content|
  {
    var t := if isUndo then s.oldText else s.text;
    var right := if isUndo then s.right else s.posAfter;
    var content := Substring(w.content, 0, s.left) + t + SubstringFrom(w.content, if isUndo then s.posAfter else s.right);
    LabelState(content, Clamp(0, |content|, if isUndo then s.left else right), Clamp(0, |content|, right))
  }

  /** The object id under which a label submits its own actions. */
  const LabelObject: UM.ObjId := 0

  /** The label outlives its own undo manager, so every item stays alive; the
      callback always reports success. */
  function LabelEnv(): (env: UM.Env<LabelState, Splice>)
    ensures forall w, o :: env.alive(w, o)
    ensures forall w, o, s, u :: env.run(w, o, s, u) == (RunSplice(w, s, u), true)
  {
    UM.Env((w: LabelState, o: UM.ObjId) => true, (w: LabelState, o: UM.ObjId, s: Splice, u: bool) => (RunSplice(w, s, u), true))
  }

  /** Cursor::getSelection: from the smaller to the larger index. */
  function Selection(a: int, b: int): (r: (int, int))
    ensures r.0 <= r.1
    ensures {r.0, r.1} == {a, b}
  {
    (Min(a, b), Max(a, b))
  }

  /** insert as written: the selection is taken from the cursors unclamped. */
  function SpliceAsWritten(w: LabelState, text: string): Splice
  {
    var sel := Selection(w.down, w.drag);
    var oldText := Substring(w.content, sel.0, sel.1);
    Splice(sel.0, sel.1, sel.1 - |oldText| + |text|, oldText, text)
  }

  /** insert with the selection clamped into the content first. */
  function SpliceFor(w: LabelState, text: string): (s: Splice)
    ensures 0 <= s.left <= s.right <= |w.content|
    ensures s.oldText == w.content[s.left..s.right] && s.text == text
    ensures s.posAfter == s.left + |text|
  {
    var sel := Selection(w.down, w.drag);
    var left := Clamp(0, |w.content|, sel.0);
    var right := Clamp(0, |w.content|, sel.1);
    var oldText := Substring(w.content, left, right);
    Splice(left, right, right - |oldText| + |text|, oldText, text)
  }

  /** With both cursors inside the content the clamp changes nothing: the
      corrected splice is the one the source builds. */
  lemma SpliceForAgreesInRange(w: LabelState, text: string)
    requires 0 <= w.down <= |w.content| && 0 <= w.drag <= |w.content|
    ensures SpliceFor(w, text) == SpliceAsWritten(w, text)
  {
  }

  /** insert, forward: the text replaces the selection and both cursors end
      right after it. */
  lemma InsertSplices(w: LabelState, text: string)
    ensures var s := SpliceFor(w, text);
            var r := RunSplice(w, s, false);
            && r.content == w.content[..s.left] + text + w.content[s.right..]
            && r.down == r.drag == s.left + |text|
  {
    var s := SpliceFor(w, text);
    var r := RunSplice(w, s, false);
    assert |r.content| == s.left + |text| + (|w.content| - s.right);
  }

  /** Undoing an insert restores the content exactly and selects the replaced
      text again; redoing it afterwards gives the forward result once more. */
  lemma InsertUndoRedo(w: LabelState, text: string)
    ensures var s := SpliceFor(w, text);
            var fwd := RunSplice(w, s, false);
            var back := RunSplice(fwd, s, true);
            && back.content == w.content
            && back.down == s.left && back.drag == s.right
            && RunSplice(back, s, false) == fwd
  {
    var s := SpliceFor(w, text);
    var fwd := RunSplice(w, s, false);
    InsertSplices(w, text);
    var c := w.content;
    assert fwd.content[..s.left] == c[..s.left];
    assert fwd.content[s.posAfter..] == c[s.right..];
    var back := RunSplice(fwd, s, true);
    assert back.content == c[..s.left] + c[s.left..s.right] + c[s.right..];
    assert c[..s.left] + c[s.left..s.right] + c[s.right..] == c;
    assert back.content[..s.left] == c[..s.left];
    assert back.content[s.right..] == c[s.right..];
  }

  /** The source's insert with both cursors past the end of the content, which
      setText leaves in place when it shortens the text: "x" is added to "a",
      and undoing it leaves "ax". */
  lemma InsertAsWrittenUndoFails()
    ensures var w := LabelState("a", 3, 3);
            var s := SpliceAsWritten(w, "x");
            var fwd := RunSplice(w, s, false);
            && fwd.content == "ax"
            && RunSplice(fwd, s, true).content == "ax"
            && RunSplice(fwd, s, true).content != w.content
  {
    var w := LabelState("a", 3, 3);
    var s := SpliceAsWritten(w, "x");
    assert s == Splice(3, 3, 4, "", "x");
    var fwd := RunSplice(w, s, false);
    assert fwd.content == "a" + "x" + "";
    assert RunSplice(fwd, s, true).content == "ax" + "" + "";
  }

  /** The source's insert on a label whose cursors were never placed (both
      -1, as a new label has them until a mouse press): typing "x" into ""
      puts both carets at 0, so a second key "y" lands in front of it, and
      undoing the first insert leaves "x". */
  lemma InsertClearedCursorsAsWritten()
    ensures var w := LabelState("", -1, -1);
            var s := SpliceAsWritten(w, "x");
            var fwd := RunSplice(w, s, false);
            && s == Splice(-1, -1, 0, "", "x")
            && fwd == LabelState("x", 0, 0)
            && RunSplice(fwd, SpliceAsWritten(fwd, "y"), false).content == "yx"
            && RunSplice(fwd, s, true).content == "x"
  {
    var w := LabelState("", -1, -1);
    var s := SpliceAsWritten(w, "x");
    assert Substring("", -1, -1) == "";
    var fwd := RunSplice(w, s, false);
    assert fwd.content == "" + "x" + "";
    var s2 := SpliceAsWritten(fwd, "y");
    assert s2 == Splice(0, 0, 1, "", "y");
    assert RunSplice(fwd, s2, false).content == "" + "y" + "x";
    assert RunSplice(fwd, s, true).content == "" + "" + "x";
  }

  /** With the corrected splice, typing on a label whose cursors are cleared
      inserts at the start with both carets after the typed text, so
      successive keys stay in order, and undo gives back the old content. */
  lemma InsertClearedCursorsCorrected(c: string, text: string)
    ensures var w := LabelState(c, -1, -1);
            var s := SpliceFor(w, text);
            var fwd := RunSplice(w, s, false);
            && fwd == LabelState(text + c, |text|, |text|)
            && RunSplice(fwd, s, true).content == c
            && RunSplice(fwd, SpliceFor(fwd, "y"), false).content == text + "y" + c
  {
    var w := LabelState(c, -1, -1);
    InsertSplices(w, text);
    InsertUndoRedo(w, text);
    var fwd := RunSplice(w, SpliceFor(w, text), false);
    InsertSplices(fwd, "y");
    assert fwd.content[..|text|] == text && fwd.content[|text|..] == c;
  }

  /** deleteSelection on an empty selection at caret k in [1, |c|]: backspace
      (delta -1) removes the character before the caret, and both cursors end
      where that character was. */
  lemma BackspaceRemovesCharacter(c: string, k: int)
    requires 1 <= k <= |c|
    ensures var w := LabelState(c, Clamp(0, |c|, k - 1), k);
            var r := RunSplice(w, SpliceFor(w, ""), false);
            r.content == c[..k - 1] + c[k..] && r.down == r.drag == k - 1
  {
    InsertSplices(LabelState(c, k - 1, k), "");
  }

  // ---------------------------------------------------------------------------
  // Cursors

  /** Label::Cursor; the parent's content length is passed to the moves that
      clamp against it. */
  class Cursor {
    var charIndex: int

    /** A new cursor is cleared. */
    constructor ()
      ensures charIndex == -1
    {
      charIndex := -1;
    }

    /** operator bool: the cursor is not cleared. */
    predicate IsActive()
      reads this
    {
      charIndex != -1
    }

    /** moveTo(int): the index becomes pos clamped into [0, len]; the result says
        whether it changed. */
    method MoveTo(len: nat, pos: int) returns (changed: bool)
      modifies this
      ensures charIndex == Clamp(0, len, pos) && IsActive()
      ensures changed <==> old(charIndex) != charIndex
    {
      var prev := charIndex;
      charIndex := Clamp(0, len, pos);
      changed := prev != charIndex;
    }

    /** moveTo(const Cursor&): the index is copied. */
    method MoveToCursor(other: Cursor) returns (changed: bool)
      modifies this
      ensures charIndex == old(other.charIndex)
      ensures changed <==> old(charIndex) != old(other.charIndex)
    {
      var prev := charIndex;
      charIndex := other.charIndex;
      changed := prev != charIndex;
    }

    /** move(delta) for an ordinary delta: index + delta clamped into [0, len]. */
    method Move(len: nat, delta: int) returns (changed: bool)
      modifies this
      ensures charIndex == Clamp(0, len, old(charIndex) + delta)
      ensures changed <==> old(charIndex) != charIndex
    {
      var prev := charIndex;
      charIndex := Clamp(0, len, charIndex + delta);
      changed := prev != charIndex;
    }

    /** moveToStart. */
    method MoveToStart(len: nat) returns (changed: bool)
      modifies this
      ensures charIndex == 0
      ensures changed <==> old(charIndex) != 0
    {
      changed := MoveTo(len, 0);
    }

    /** moveToEnd: moveTo(INT_MAX), which clamps to the length. */
    method MoveToEnd(len: nat) returns (changed: bool)
      requires len <= IntMax
      modifies this
      ensures charIndex == len
      ensures changed <==> old(charIndex) != len
    {
      changed := MoveTo(len, IntMax);
    }

    /** clear: the cursor becomes falsy. */
    method Clear()
      modifies this
      ensures charIndex == -1 && !IsActive()
    {
      charIndex := -1;
    }
  }

  const IntMax: int := 0x7fff_ffff

  // ---------------------------------------------------------------------------
  // The label

  class Label {
    var content: string
    const down: Cursor
    const drag: Cursor
    const um: UM.UndoManager<LabelState, Splice>

    ghost predicate Valid()
      reads this, um
    {
      um.Valid() && um.env == LabelEnv() && down != drag
    }

    function State(): LabelState
      reads this, down, drag
    {
      LabelState(content, down.charIndex, drag.charIndex)
    }

    /** Label(): empty content, both cursors cleared, an undo manager with its
        flush timer running. */
    constructor ()
      ensures Valid() && fresh(um) && fresh(down) && fresh(drag)
      ensures State() == LabelState("", -1, -1)
      ensures um.Snapshot() == UM.Timeline([], [], -1, -1) && um.timerRunning
    {
      content := "";
      down := new Cursor();
      drag := new Cursor();
      um := new UM.UndoManager(LabelEnv(), true);
    }

    /** setText: the content is replaced; the cursors are left alone. */
    method SetText(newText: string)
      modifies this`content
      ensures content == newText
    {
      content := newText;
    }

    /** getSelection: the text between the two cursors. */
    function GetSelection(): (r: string)
      reads this, down, drag
      ensures 0 <= down.charIndex <= |content| && 0 <= drag.charIndex <= |content| ==>
                r == content[Min(down.charIndex, drag.charIndex)..Max(down.charIndex, drag.charIndex)]
    {
      var sel := Selection(down.charIndex, drag.charIndex);
      Substring(content, sel.0, sel.1)
    }

    /** Writes a state produced by the undo manager back into the label. */
    method Store(w: LabelState)
      requires down != drag
      modifies this`content, down, drag
      ensures State() == w
    {
      content := w.content;
      down.charIndex := w.down;
      drag.charIndex := w.drag;
    }

    /** insert, with the corrected splice: the selection clamped into the
        content is replaced through the label's undo manager. */
    method Insert(text: string)
      requires Valid()
      modifies this`content, down, drag, um`history, um`pending, um`nextUndoAction, um`nextRedoAction
      ensures Valid()
      ensures State() == RunSplice(old(State()), SpliceFor(old(State()), text), false)
      ensures um.Snapshot() == UM.Record(old(um.Snapshot()), UM.Item(LabelObject, SpliceFor(old(State()), text)),
                                         true, um.isSynchronous, um.suspended)
    {
      var s := SpliceFor(State(), text);
      var w', ok := um.PerformOn(State(), LabelObject, s);
      Store(w');
    }

    /** deleteSelection: with nothing selected the down cursor first moves by
        delta; then the selection is replaced by the empty string. */
    method DeleteSelection(delta: int)
      requires Valid()
      modifies this`content, down, drag, um`history, um`pending, um`nextUndoAction, um`nextRedoAction
      ensures Valid()
      ensures var w := old(State());
              var moved := if w.down == w.drag then w.(down := Clamp(0, |w.content|, w.down + delta)) else w;
              && State() == RunSplice(moved, SpliceFor(moved, ""), false)
              && um.Snapshot() == UM.Record(old(um.Snapshot()), UM.Item(LabelObject, SpliceFor(moved, "")),
                                            true, um.isSynchronous, um.suspended)
    {
      if down.charIndex == drag.charIndex {
        var _ := down.Move(|content|, delta);
      }
      Insert("");
    }

    /** navigate: the drag cursor moves by delta; without select the down cursor
        follows it, so the selection collapses. */
    method Navigate(select: bool, delta: int)
      requires down != drag
      modifies down, drag
      ensures drag.charIndex == Clamp(0, |content|, old(drag.charIndex) + delta)
      ensures select ==> down.charIndex == old(down.charIndex)
      ensures !select ==> down.charIndex == drag.charIndex
    {
      var _ := drag.Move(|content|, delta);
      if !select {
        var _ := down.MoveToCursor(drag);
      }
    }

    /** perform(SelectAll): the whole content becomes the selection. */
    method SelectAll()
      requires down != drag && |content| <= IntMax
      modifies down, drag
      ensures down.charIndex == 0 && drag.charIndex == |content|
      ensures GetSelection() == content
    {
      var _ := down.MoveToStart(|content|);
      var _ := drag.MoveToEnd(|content|);
    }

    /** perform(Cut): the selection goes to the clipboard (returned here) and
        is deleted. */
    method Cut() returns (clipboard: string)
      requires Valid()
      modifies this`content, down, drag, um`history, um`pending, um`nextUndoAction, um`nextRedoAction
      ensures Valid()
      ensures clipboard == old(GetSelection())
      ensures var w := old(State());
              var moved := if w.down == w.drag then w.(down := Clamp(0, |w.content|, w.down)) else w;
              && State() == RunSplice(moved, SpliceFor(moved, ""), false)
              && um.Snapshot() == UM.Record(old(um.Snapshot()), UM.Item(LabelObject, SpliceFor(moved, "")),
                                            true, um.isSynchronous, um.suspended)
    {
      clipboard := GetSelection();
      DeleteSelection(0);
    }

    /** perform(Paste): the clipboard text (a parameter here) is inserted. */
    method Paste(clipboard: string)
      requires Valid()
      modifies this`content, down, drag, um`history, um`pending, um`nextUndoAction, um`nextRedoAction
      ensures Valid()
      ensures State() == RunSplice(old(State()), SpliceFor(old(State()), clipboard), false)
      ensures um.Snapshot() == UM.Record(old(um.Snapshot()), UM.Item(LabelObject, SpliceFor(old(State()), clipboard)),
                                         true, um.isSynchronous, um.suspended)
    {
      Insert(clipboard);
    }

    /** perform(Undo) and perform(Redo): the undo manager steps the label's
        state. */
    method UndoOrRedo(isUndo: bool) returns (ok: bool)
      requires Valid()
      modifies this`content, down, drag, um`history, um`pending, um`nextUndoAction, um`nextRedoAction
      ensures Valid()
      ensures UM.Step(State(), um.Snapshot(), ok) == UM.Navigate(LabelEnv(), old(State()), old(um.Snapshot()), isUndo)
    {
      var w';
      w', ok := um.InternalUndo(State(), isUndo);
      Store(w');
    }
  }

  /** Through the undo manager: an insert recorded into an empty pending group
      is undone on its own by the next undo, which restores the content and
      selects the replaced text again. */
  lemma InsertThenUndoRestores(w: LabelState, t: UM.Timeline<Splice>, text: string, isSynchronous: bool)
    requires UM.TimelineValid(t) && t.pending == []
    ensures var s := SpliceFor(w, text);
            var fwd := RunSplice(w, s, false);
            var t1 := UM.Record(t, UM.Item(LabelObject, s), true, isSynchronous, false);
            var step := UM.Navigate(LabelEnv(), fwd, t1, true);
            step.ok && step.world.content == w.content && step.world.down == s.left && step.world.drag == s.right
  {
    var s := SpliceFor(w, text);
    var it := UM.Item(LabelObject, s);
    var fwd := RunSplice(w, s, false);
    var t1 := UM.Record(t, it, true, isSynchronous, false);
    assert t1.pending == [it];
    var t2 := UM.Flush(t1);
    assert t2.history[t2.nextUndo] == [it];
    UM.GroupBackwardStep(LabelEnv(), fwd, [it]);
    assert UM.GroupCall(LabelEnv(), fwd, [it], true).world == RunSplice(fwd, s, true);
    InsertUndoRedo(w, text);
  }
}
