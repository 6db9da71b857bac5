/**
  The undo manager as the editor holds it: one object whose history fields
  its methods update in place, and the editing surface whose markup undo and
  redo rewrite. Each method is proved to leave the history the matching
  function of UndoHistory gives, and to keep that history coherent with the
  texts it can reach.
 */
module UndoManager {
  import opened Patch
  import opened Strings
  import opened UndoHistory
  import Compatibility

  /**
    The editing surface: its serialised markup, the value of its
    contenteditable attribute ("" when the attribute is absent), and the
    index in the markup where the selection starts. A negative caret stands
    both for a selection outside the surface and for no selection at all (a
    range count of zero).
   */
  class Surface {
    var html: string
    var contentEditable: string
    var caret: int

    constructor (html: string, contentEditable: string, caret: int)
      ensures this.html == html && this.contentEditable == contentEditable && this.caret == caret
    {
      this.html := html;
      this.contentEditable := contentEditable;
      this.caret := caret;
    }
  }

  /**
    The record redo applies (`renderDiff` with `isRedo`): a copy of `state`
    with its hunks in reverse order and every operation code negated.
   */
  method RedoPatchList(state: PatchList) returns (redoPatchList: PatchList)
    ensures redoPatchList == Invert(state)
  {
    var reversed := seq(|state|, k requires 0 <= k < |state| => state[|state| - 1 - k]);
    redoPatchList := [];
    var i := 0;
    while i < |reversed|
      invariant 0 <= i <= |reversed|
      invariant |redoPatchList| == i
      invariant forall k :: 0 <= k < i ==> redoPatchList[k] == Negate(reversed[k])
    {
      var patch := reversed[i];
      var diffs: seq<Diff> := [];
      var j := 0;
      while j < |patch.diffs|
        invariant 0 <= j <= |patch.diffs|
        invariant diffs == NegateDiffs(patch.diffs[..j])
      {
        diffs := diffs + [Diff(-patch.diffs[j].op, patch.diffs[j].text)];
        j := j + 1;
      }
      assert patch.diffs[..j] == patch.diffs;
      redoPatchList := redoPatchList + [patch.(diffs := diffs)];
      i := i + 1;
    }
    forall k | 0 <= k < |state|
      ensures redoPatchList[k] == Invert(state)[k]
    {
      InvertAt(state, k);
    }
  }

  /**
    The undo manager of the "ir" editing mode. `past` and `future` are the
    texts undo and redo reach, from the farthest to the last text.
   */
  class Undo {
    var hasUndo: bool
    var lastText: string
    var redoStack: seq<PatchList>
    var undoStack: seq<PatchList>
    ghost var past: seq<string>
    ghost var future: seq<string>

    /** The four history fields as a value. */
    function State(): Record
      reads this
    {
      Record(undoStack, redoStack, lastText, hasUndo)
    }

    /** The history is coherent with the texts it reaches. */
    ghost predicate Valid()
      reads this
    {
      Coherent(State(), past, future)
    }

    /** A new manager starts with a cleared history. */
    constructor ()
      ensures Valid() && State() == Cleared()
    {
      hasUndo := false;
      lastText := "";
      redoStack := [];
      undoStack := [];
      past := [""];
      future := [""];
      ClearedIsCoherent();
    }

    /** `clearStack`: forget the whole history. */
    method ClearStack()
      modifies this
      ensures Valid() && State() == Cleared()
    {
      hasUndo := false;
      lastText := "";
      redoStack := [];
      undoStack := [];
      past := [""];
      future := [""];
      ClearedIsCoherent();
    }

    /**
      `addToUndoStack`: take a snapshot of the surface and, unless it equals
      the last text of a non-empty history, push the record that takes it
      back to the last text.
     */
    method AddToUndoStack(surface: Surface)
      requires Valid()
      modifies this
      ensures Valid()
      ensures State() == Committed(old(State()), Snapshot(surface.html, surface.caret))
    {
      var text := Snapshot(surface.html, surface.caret);
      var patchList := Make(text, lastText);
      if |patchList| == 0 && |undoStack| > 0 {
        return;
      }
      ghost var h := State();
      CommitKeepsCoherent(h, past, future, text);
      past := PastAfterCommit(past, text);
      future := [text];
      lastText := text;
      undoStack := undoStack + [patchList];
      if |undoStack| > StackSize {
        undoStack := undoStack[1..];
      }
      if hasUndo {
        redoStack := [];
        hasUndo := false;
      }
      assert State() == Committed(h, text);
    }

    /**
      `renderDiff`: apply `state` (or, for redo, its inverse) to the last
      text and show the result on the surface.
     */
    method RenderDiff(state: PatchList, surface: Surface, isRedo: bool)
      modifies this`lastText, surface`html
      ensures lastText == ApplyAll(if isRedo then Invert(state) else state, old(lastText))
      ensures surface.html == lastText
    {
      var text;
      if isRedo {
        var redoPatchList := RedoPatchList(state);
        text := ApplyAll(redoPatchList, lastText);
      } else {
        text := ApplyAll(state, lastText);
      }
      lastText := text;
      surface.html := text;
    }

    /** `undo`: on an editable surface with two records or more, move the top record to redo and apply it. */
    method Undo(surface: Surface)
      requires Valid()
      modifies this, surface`html
      ensures Valid()
      ensures State() == Undone(old(State()), surface.contentEditable)
      ensures CanUndo(old(State()), surface.contentEditable) ==> surface.html == lastText == old(past[|past| - 2])
      ensures !CanUndo(old(State()), surface.contentEditable) ==> surface.html == old(surface.html)
    {
      if ReadOnly(surface.contentEditable) {
        return;
      }
      if |undoStack| < 2 {
        return;
      }
      ghost var h := State();
      UndoKeepsCoherent(h, past, future, surface.contentEditable);
      future := future + [past[|past| - 2]];
      past := past[..|past| - 1];
      var state := undoStack[|undoStack| - 1];
      undoStack := undoStack[..|undoStack| - 1];
      redoStack := redoStack + [state];
      RenderDiff(state, surface, false);
      hasUndo := true;
      assert State() == Undone(h, surface.contentEditable);
    }

    /** `redo`: on an editable surface, move the top redo record back and apply its inverse. */
    method Redo(surface: Surface)
      requires Valid()
      modifies this, surface`html
      ensures Valid()
      ensures State() == Redone(old(State()), surface.contentEditable)
      ensures CanRedo(old(State()), surface.contentEditable) ==> surface.html == lastText == old(future[|future| - 2])
      ensures !CanRedo(old(State()), surface.contentEditable) ==> surface.html == old(surface.html)
    {
      if ReadOnly(surface.contentEditable) {
        return;
      }
      if |redoStack| == 0 {
        return;
      }
      ghost var h := State();
      RedoKeepsCoherent(h, past, future, surface.contentEditable);
      past := past + [future[|future| - 2]];
      future := future[..|future| - 1];
      var state := redoStack[|redoStack| - 1];
      redoStack := redoStack[..|redoStack| - 1];
      undoStack := undoStack + [state];
      RenderDiff(state, surface, true);
      assert State() == Redone(h, surface.contentEditable);
    }

    /**
      `recordFirstPosition`: before the first keystroke changes a history
      that holds only its seed, write the snapshot (which carries the caret)
      into the seed and the last text, so that undoing back to the seed puts
      the caret where it stood.
     */
    method RecordFirstPosition(surface: Surface, rangeCount: nat, userAgent: string, key: string)
      requires Valid()
      modifies this
      ensures Valid()
      ensures State() == FirstPositionRecorded(old(State()), rangeCount, userAgent, key, Snapshot(surface.html, surface.caret))
    {
      ghost var h := State();
      if rangeCount == 0 {
        return;
      }
      if |undoStack| != 1 || |undoStack[0]| == 0 || |redoStack| > 0 {
        return;
      }
      if Compatibility.IsFirefox(userAgent) && key == "Backspace" {
        return;
      }
      if Compatibility.IsSafari(userAgent) {
        return;
      }
      var text := Snapshot(surface.html, surface.caret);
      var seed := undoStack[0][0];
      if |seed.diffs| == 0 {
        return;
      }
      if StripCaret(text) != ReplaceFirst(seed.diffs[0].text, Caret, "") {
        return;
      }
      WriteSeed(rangeCount, userAgent, key, text);
    }

    /** The write at the end of `recordFirstPosition`: the seed's first diff text and the last text become the snapshot. */
    method WriteSeed(ghost rangeCount: nat, ghost userAgent: string, ghost key: string, text: string)
      requires Valid() && RecordsFirstPosition(State(), rangeCount, userAgent, key, text)
      modifies this
      ensures Valid()
      ensures State() == FirstPositionRecorded(old(State()), rangeCount, userAgent, key, text)
    {
      FirstPositionWrites(State(), past, future, rangeCount, userAgent, key, text);
      past := ["", text];
      future := [text];
      undoStack := undoStack[0 := WithSeedText(undoStack[0], text)];
      lastText := text;
    }
  }
}
