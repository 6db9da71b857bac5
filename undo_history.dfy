/**
  The history record the undo manager keeps for the editor's one editing mode
  ("ir"), as a value, with one function per operation giving the record the
  operation leaves behind. The class in UndoManager updates the same four
  fields in place and is proved to follow these functions; the lemmas here
  state what the operations promise: the guards that make them no-ops, the
  bound on the undo stack, the invalidation of redo, and the round trips on
  the last committed text.
 */
module UndoHistory {
  import opened Strings
  import opened Patch
  import Compatibility

  /** The most records the undo stack keeps (the manager's `stackSize`). */
  const StackSize: nat := 50

  /** The four fields of the record: two stacks of patch lists, the last committed text, and whether an undo is pending. */
  datatype Record = Record(undoStack: seq<PatchList>, redoStack: seq<PatchList>, lastText: string, hasUndo: bool)

  /** The record `clearStack` installs. */
  function Cleared(): Record
  {
    Record([], [], "", false)
  }

  /** The surface refuses undo and redo when its contenteditable attribute is "false". */
  predicate ReadOnly(contentEditable: string)
  {
    contentEditable == "false"
  }

  // ---------------------------------------------------------------------------
  // The caret sentinel

  /** The element inserted at the caret before the surface is serialised. */
  const CaretSpan: string := "<span class=\"vditor-wbr\"></span>"

  /** The caret sentinel a snapshot carries. */
  const Caret: string := "<wbr>"

  /** The class an expanded node carries while the caret is inside it. */
  const ExpandClass: string := " vditor-ir__node--expand"

  /** The snapshot of serialised markup (`addCaret`): the first caret element becomes the sentinel. */
  function AddCaret(html: string): string
  {
    ReplaceFirst(html, CaretSpan, Caret)
  }

  /** A snapshot without its first sentinel and its first expanded-node class, as the seed check compares it. */
  function StripCaret(text: string): string
  {
    ReplaceFirst(ReplaceFirst(text, Caret, ""), ExpandClass, "")
  }

  /**
    The surface's markup with the caret element inserted at index `caret`.
    Nothing is inserted when the caret is not inside the surface (a negative
    index) or when the markup already holds a sentinel.
   */
  function WithCaretSpan(html: string, caret: int): string
  {
    if 0 <= caret <= |html| && !Contains(html, Caret) then html[..caret] + CaretSpan + html[caret..] else html
  }

  /** `addCaret`: the markup serialised with the caret element in, that element turned into the sentinel. */
  function Snapshot(html: string, caret: int): string
  {
    AddCaret(WithCaretSpan(html, caret))
  }

  /** The caret element opens with `<s` and holds no other `<` but the one of its closing tag. */
  lemma CaretSpanShape()
    ensures |CaretSpan| == 32 && CaretSpan[0] == '<' && CaretSpan[1] == 's' && CaretSpan[26] == '/'
    ensures forall j :: 1 <= j < |CaretSpan| && CaretSpan[j] == '<' ==> j == 25
  {
  }

  /** A prefix of a string without `pat` is without it too. */
  lemma PrefixLacks(s: string, pat: string, n: nat)
    requires n <= |s| && !Contains(s, pat)
    ensures !Contains(s[..n], pat)
  {
    forall k | OccursAt(s[..n], pat, k)
      ensures OccursAt(s, pat, k)
    {
      assert s[..n][k..k + |pat|] == s[k..k + |pat|];
    }
  }

  /** A sentinel put after text that holds none is the first one: no occurrence straddles its start. */
  lemma SentinelFirst(pre: string, post: string)
    requires !Contains(pre, Caret)
    ensures IndexOf(pre + Caret + post, Caret) == |pre|
  {
    var t, i := pre + Caret + post, |pre|;
    assert t[i..i + |Caret|] == Caret;
    assert Caret[0] == '<' && Caret[1] == 'w' && Caret[2] == 'b' && Caret[3] == 'r' && Caret[4] == '>';
    forall k | 0 <= k < i
      ensures !OccursAt(t, Caret, k)
    {
      if k + |Caret| <= i {
        assert t[k..k + |Caret|] == pre[k..k + |Caret|];
        assert !OccursAt(pre, Caret, k);
      } else {
        assert t[k + 4] == Caret[k + 4 - i];
      }
    }
    assert OccursAt(t, Caret, i);
    var j := IndexOf(t, Caret);
    assert j != -1 && j <= i;
  }

  /** The caret element put into markup that holds none is the first one. */
  lemma CaretSpanFirst(pre: string, post: string)
    requires !Contains(pre, CaretSpan)
    ensures IndexOf(pre + CaretSpan + post, CaretSpan) == |pre|
  {
    CaretSpanShape();
    var t, c := pre + CaretSpan + post, |pre|;
    assert t[c..c + 32] == CaretSpan;
    forall k | 0 <= k < c
      ensures !OccursAt(t, CaretSpan, k)
    {
      if k + 32 <= c {
        assert t[k..k + 32] == pre[k..k + 32];
        assert !OccursAt(pre, CaretSpan, k);
      } else {
        var d := c - k;
        assert t[c] == '<' && t[c + 1] == 's';
        if d == 25 {
          assert t[k..k + 32][26] == 's';
        } else {
          assert t[k..k + 32][d] == '<';
        }
      }
    }
    assert OccursAt(t, CaretSpan, c);
    var j := IndexOf(t, CaretSpan);
    assert j != -1 && j <= c;
  }

  /** The caret element put into markup that holds none turns into the sentinel at the same place. */
  lemma CaretSpanReplaced(pre: string, post: string)
    requires !Contains(pre, CaretSpan)
    ensures AddCaret(pre + CaretSpan + post) == pre + Caret + post
  {
    var t := pre + CaretSpan + post;
    CaretSpanFirst(pre, post);
    assert t[..|pre|] == pre && t[|pre| + |CaretSpan|..] == post;
  }

  /** The sentinel put after text that holds none is the one the first-occurrence removal takes out. */
  lemma SentinelRemoved(pre: string, post: string)
    requires !Contains(pre, Caret)
    ensures ReplaceFirst(pre + Caret + post, Caret, "") == pre + post
  {
    var t := pre + Caret + post;
    SentinelFirst(pre, post);
    assert t[..|pre|] == pre && t[|pre| + |Caret|..] == post;
  }

  /** With the caret inside markup that holds neither marker, the snapshot is the markup with the sentinel at the caret. */
  lemma SnapshotPlacesCaret(html: string, caret: int)
    requires 0 <= caret <= |html| && !Contains(html, Caret) && !Contains(html, CaretSpan)
    ensures Snapshot(html, caret) == html[..caret] + Caret + html[caret..]
  {
    PrefixLacks(html, CaretSpan, caret);
    assert WithCaretSpan(html, caret) == html[..caret] + CaretSpan + html[caret..];
    CaretSpanReplaced(html[..caret], html[caret..]);
  }

  /** For markup that holds neither marker, removing the sentinel from its snapshot gives back the markup. */
  lemma SnapshotStripsToMarkup(html: string, caret: int)
    requires !Contains(html, Caret) && !Contains(html, CaretSpan)
    ensures ReplaceFirst(Snapshot(html, caret), Caret, "") == html
  {
    if 0 <= caret <= |html| {
      SnapshotPlacesCaret(html, caret);
      PrefixLacks(html, Caret, caret);
      SentinelRemoved(html[..caret], html[caret..]);
      assert html[..caret] + html[caret..] == html;
    } else {
      assert WithCaretSpan(html, caret) == html;
    }
  }

  // ---------------------------------------------------------------------------
  // The operations

  /** `addToUndoStack` skips a snapshot that gives an empty patch list once the undo stack holds a record. */
  predicate SkipsCommit(h: Record, text: string)
  {
    Make(text, h.lastText) == [] && |h.undoStack| > 0
  }

  /** The undo stack with `record` pushed on top and, past the bound, its oldest record dropped. */
  function PushBounded(stack: seq<PatchList>, record: PatchList): (r: seq<PatchList>)
    ensures |r| == (if |stack| < StackSize then |stack| + 1 else |stack|)
    ensures r[|r| - 1] == record
    ensures r[..|r| - 1] == stack[|stack| + 1 - |r|..]
  {
    var pushed := stack + [record];
    if |pushed| > StackSize then pushed[1..] else pushed
  }

  /**
    `addToUndoStack` with the snapshot `text`: push the patch list that takes
    `text` back to the last text, drop the oldest record past the bound, and
    drop the redo stack when an undo is pending.
   */
  function Committed(h: Record, text: string): (r: Record)
    ensures SkipsCommit(h, text) ==> r == h
    ensures SkipsCommit(h, text) <==> text == h.lastText && |h.undoStack| > 0
    ensures !SkipsCommit(h, text) ==>
      && r.lastText == text
      && r.undoStack == PushBounded(h.undoStack, Make(text, h.lastText))
      && !r.hasUndo
      && r.redoStack == (if h.hasUndo then [] else h.redoStack)
    ensures |h.undoStack| == 0 ==> r.undoStack == [Make(text, h.lastText)]
    ensures |h.undoStack| <= StackSize ==> |r.undoStack| <= StackSize
  {
    if SkipsCommit(h, text) then h
    else
      var kept := PushBounded(h.undoStack, Make(text, h.lastText));
      if h.hasUndo then Record(kept, [], text, false)
      else Record(kept, h.redoStack, text, h.hasUndo)
  }

  /** `undo` acts when the surface is editable and the undo stack holds two records or more. */
  predicate CanUndo(h: Record, contentEditable: string)
  {
    !ReadOnly(contentEditable) && |h.undoStack| >= 2
  }

  /**
    `undo`: move the top undo record to the top of the redo stack and apply it
    to the last text.
   */
  function Undone(h: Record, contentEditable: string): (r: Record)
    ensures !CanUndo(h, contentEditable) ==> r == h
    ensures CanUndo(h, contentEditable) ==>
      && r.undoStack + [h.undoStack[|h.undoStack| - 1]] == h.undoStack
      && r.redoStack == h.redoStack + [h.undoStack[|h.undoStack| - 1]]
      && r.lastText == ApplyAll(h.undoStack[|h.undoStack| - 1], h.lastText)
      && r.hasUndo
    ensures |r.undoStack| + |r.redoStack| == |h.undoStack| + |h.redoStack|
    ensures |h.undoStack| > 0 ==> |r.undoStack| > 0 && r.undoStack[0] == h.undoStack[0]
  {
    if !CanUndo(h, contentEditable) then h
    else
      var state := h.undoStack[|h.undoStack| - 1];
      Record(h.undoStack[..|h.undoStack| - 1], h.redoStack + [state], ApplyAll(state, h.lastText), true)
  }

  /** `redo` acts when the surface is editable and the redo stack is not empty. */
  predicate CanRedo(h: Record, contentEditable: string)
  {
    !ReadOnly(contentEditable) && |h.redoStack| > 0
  }

  /**
    `redo`: move the top redo record back onto the undo stack and apply its
    inverse (reversed, operation codes negated) to the last text.
   */
  function Redone(h: Record, contentEditable: string): (r: Record)
    ensures !CanRedo(h, contentEditable) ==> r == h
    ensures CanRedo(h, contentEditable) ==>
      && r.redoStack + [h.redoStack[|h.redoStack| - 1]] == h.redoStack
      && r.undoStack == h.undoStack + [h.redoStack[|h.redoStack| - 1]]
      && r.lastText == ApplyAll(Invert(h.redoStack[|h.redoStack| - 1]), h.lastText)
      && r.hasUndo == h.hasUndo
    ensures |r.undoStack| + |r.redoStack| == |h.undoStack| + |h.redoStack|
  {
    if !CanRedo(h, contentEditable) then h
    else
      var state := h.redoStack[|h.redoStack| - 1];
      Record(h.undoStack + [state], h.redoStack[..|h.redoStack| - 1], ApplyAll(Invert(state), h.lastText), h.hasUndo)
  }

  /**
    The guards of `recordFirstPosition`: a selection range exists; the undo
    stack is exactly one non-empty record and the redo stack is empty; the
    key is not Backspace on Firefox; the browser is not Safari; and the
    snapshot, stripped, equals the seed text without its sentinel. (A seed
    whose first hunk has no diff would make the source throw before any
    write; it leaves the record unchanged here too.)
   */
  predicate RecordsFirstPosition(h: Record, rangeCount: nat, userAgent: string, key: string, text: string)
  {
    && rangeCount != 0
    && |h.undoStack| == 1 && |h.undoStack[0]| != 0 && |h.redoStack| == 0
    && !(Compatibility.IsFirefox(userAgent) && key == "Backspace")
    && !Compatibility.IsSafari(userAgent)
    && |h.undoStack[0][0].diffs| != 0
    && StripCaret(text) == ReplaceFirst(h.undoStack[0][0].diffs[0].text, Caret, "")
  }

  /** The record with the text of the first diff of its first hunk replaced by `text`. */
  function WithSeedText(record: PatchList, text: string): PatchList
    requires |record| != 0 && |record[0].diffs| != 0
  {
    var p := record[0];
    record[0 := p.(diffs := p.diffs[0 := p.diffs[0].(text := text)])]
  }

  /**
    `recordFirstPosition`: once the guards hold, the seed's text and the last
    text both become the snapshot, which carries the caret where it stood
    before the first keystroke.
   */
  function FirstPositionRecorded(h: Record, rangeCount: nat, userAgent: string, key: string, text: string): (r: Record)
    ensures !RecordsFirstPosition(h, rangeCount, userAgent, key, text) ==> r == h
    ensures RecordsFirstPosition(h, rangeCount, userAgent, key, text) ==>
      && r.lastText == text
      && |r.undoStack| == 1 && |r.undoStack[0]| == |h.undoStack[0]|
      && |r.undoStack[0][0].diffs| == |h.undoStack[0][0].diffs|
      && r.undoStack[0][0].diffs[0].text == text
      && r.undoStack[0][0].diffs[0].op == h.undoStack[0][0].diffs[0].op
      && r.undoStack[0][0].diffs[1..] == h.undoStack[0][0].diffs[1..]
      && r.undoStack[0][0].start == h.undoStack[0][0].start
      && r.undoStack[0][1..] == h.undoStack[0][1..]
      && r.redoStack == h.redoStack && r.hasUndo == h.hasUndo
  {
    if RecordsFirstPosition(h, rangeCount, userAgent, key, text) then
      h.(undoStack := [WithSeedText(h.undoStack[0], text)], lastText := text)
    else h
  }

  /** Recording the first position a second time with the same markup changes nothing more. */
  lemma FirstPositionIdempotent(h: Record, rangeCount: nat, userAgent: string, key: string, text: string)
    ensures var r := FirstPositionRecorded(h, rangeCount, userAgent, key, text);
            FirstPositionRecorded(r, rangeCount, userAgent, key, text) == r
  {
    var r := FirstPositionRecorded(h, rangeCount, userAgent, key, text);
    if RecordsFirstPosition(h, rangeCount, userAgent, key, text) && RecordsFirstPosition(r, rangeCount, userAgent, key, text) {
      var p := r.undoStack[0][0];
      assert p.diffs[0 := p.diffs[0].(text := text)] == p.diffs;
      assert r.undoStack[0][0 := p] == r.undoStack[0];
    }
  }

  // ---------------------------------------------------------------------------
  // The history is coherent

  /** The seed record: nothing when the first snapshot was empty, otherwise one diff deleting the whole last text. */
  predicate SeedShaped(record: PatchList, last: string)
  {
    (record == [] && last == "") || record == [PatchObj(0, [Diff(Delete, last)])]
  }

  /**
    The record replays a line of texts. `past` are the committed texts from
    the oldest kept to the last text: each undo record takes a text back to
    the one before it. `future` are the texts redo reaches, from the farthest
    to the last text: each redo record takes a text back to the one after it.
    Both stacks together keep at most `StackSize` records; no redo is kept
    unless an undo is pending; an empty undo stack goes with an empty last
    text; and while the seed is the only record and nothing was undone, it
    deletes the whole last text.
   */
  ghost predicate Coherent(h: Record, past: seq<string>, future: seq<string>)
  {
    && |h.undoStack| + |h.redoStack| <= StackSize
    && |past| == |h.undoStack| + 1 && past[|h.undoStack|] == h.lastText
    && (forall i :: 0 <= i < |h.undoStack| ==> Restores(h.undoStack[i], past[i + 1], past[i]))
    && |future| == |h.redoStack| + 1 && future[|h.redoStack|] == h.lastText
    && (forall j :: 0 <= j < |h.redoStack| ==> Restores(h.redoStack[j], future[j], future[j + 1]))
    && (h.undoStack == [] ==> h.lastText == "" && h.redoStack == [])
    && (!h.hasUndo ==> h.redoStack == [])
    && (|h.undoStack| == 1 && h.redoStack == [] ==> SeedShaped(h.undoStack[0], h.lastText))
  }

  /** The cleared record is coherent. */
  lemma ClearedIsCoherent()
    ensures Coherent(Cleared(), [""], [""])
  {
  }

  /** The committed texts after a commit that pushes: the snapshot on top, the oldest dropped past the bound. */
  ghost function PastAfterCommit(past: seq<string>, text: string): seq<string>
  {
    if |past| > StackSize then (past + [text])[1..] else past + [text]
  }

  /** The seed pushed onto an empty undo stack has the seed's shape. */
  lemma SeedIsShaped(text: string)
    ensures SeedShaped(Make(text, ""), text)
  {
    if text != "" {
      MakeToEmpty(text);
    }
  }

  /** Pushing a record that takes `text` back to the top committed text keeps every undo record restoring its step. */
  lemma PushKeepsRestoring(stack: seq<PatchList>, past: seq<string>, record: PatchList, text: string)
    requires |stack| <= StackSize && |past| == |stack| + 1
    requires forall i :: 0 <= i < |stack| ==> Restores(stack[i], past[i + 1], past[i])
    requires Restores(record, text, past[|stack|])
    ensures var r, past' := PushBounded(stack, record), PastAfterCommit(past, text);
            |past'| == |r| + 1 && past'[|r|] == text &&
            forall i :: 0 <= i < |r| ==> Restores(r[i], past'[i + 1], past'[i])
  {
    var r, past' := PushBounded(stack, record), PastAfterCommit(past, text);
    var n := |stack|;
    if n < StackSize {
      assert r == stack + [record];
      assert past' == past + [text];
    } else {
      assert r == (stack + [record])[1..];
      assert past' == (past + [text])[1..];
      forall i | 0 <= i < |r|
        ensures Restores(r[i], past'[i + 1], past'[i])
      {
        if i < n - 1 {
          assert r[i] == stack[i + 1];
        }
      }
    }
  }

  /** A commit that pushes keeps the history coherent; redo can then reach nothing. */
  lemma CommitKeepsCoherent(h: Record, past: seq<string>, future: seq<string>, text: string)
    requires Coherent(h, past, future)
    requires !SkipsCommit(h, text)
    ensures Coherent(Committed(h, text), PastAfterCommit(past, text), [text])
    ensures Committed(h, text).redoStack == []
  {
    MakeRestores(text, h.lastText);
    PushKeepsRestoring(h.undoStack, past, Make(text, h.lastText), text);
    if |h.undoStack| == 0 {
      SeedIsShaped(text);
    }
  }

  /** An undo keeps the history coherent and takes the last text back to the previous committed text. */
  lemma UndoKeepsCoherent(h: Record, past: seq<string>, future: seq<string>, contentEditable: string)
    requires Coherent(h, past, future) && CanUndo(h, contentEditable)
    ensures Undone(h, contentEditable).lastText == past[|past| - 2]
    ensures Coherent(Undone(h, contentEditable), past[..|past| - 1], future + [past[|past| - 2]])
  {
  }

  /** A redo keeps the history coherent and takes the last text forward to the text that was undone. */
  lemma RedoKeepsCoherent(h: Record, past: seq<string>, future: seq<string>, contentEditable: string)
    requires Coherent(h, past, future) && CanRedo(h, contentEditable)
    ensures Redone(h, contentEditable).lastText == future[|future| - 2]
    ensures Coherent(Redone(h, contentEditable), past + [future[|future| - 2]], future[..|future| - 1])
  {
    var r := Redone(h, contentEditable);
    var n, k := |h.undoStack|, |h.redoStack|;
    var state := h.redoStack[k - 1];
    assert Restores(state, future[k - 1], future[k]);
    InvertRestores(state, future[k - 1], future[k]);
    var past' := past + [future[k - 1]];
    forall i | 0 <= i < |r.undoStack|
      ensures Restores(r.undoStack[i], past'[i + 1], past'[i])
    {
      if i < n {
        assert r.undoStack[i] == h.undoStack[i] && past'[i + 1] == past[i + 1] && past'[i] == past[i];
      }
    }
  }

  /** Recording the first position keeps the history coherent: the seed now deletes the new snapshot. */
  lemma FirstPositionKeepsCoherent(h: Record, past: seq<string>, future: seq<string>,
                                   rangeCount: nat, userAgent: string, key: string, text: string)
    requires Coherent(h, past, future)
    requires RecordsFirstPosition(h, rangeCount, userAgent, key, text)
    ensures Coherent(FirstPositionRecorded(h, rangeCount, userAgent, key, text), ["", text], [text])
  {
    var seed := [PatchObj(0, [Diff(Delete, text)])];
    var p := PatchObj(0, [Diff(Delete, h.lastText)]);
    assert h.undoStack[0] == [p];
    assert p.diffs[0 := Diff(Delete, text)] == [Diff(Delete, text)];
    assert WithSeedText([p], text) == seed;
    assert FirstPositionRecorded(h, rangeCount, userAgent, key, text).undoStack == [seed];
    assert Text1([Diff(Delete, text)]) == text && Text2([Diff(Delete, text)]) == "";
    assert text[0..|text|] == text;
    assert Matches(seed[0], text) && ApplyPatch(seed[0], text) == "";
    assert seed[1..] == [];
    assert ApplyAll(seed, text) == ApplyAll([], "") == "";
    assert Clean(seed, text);
  }

  /** Once its guards hold, recording the first position is the in-place write of the seed text and the last text. */
  lemma FirstPositionWrites(h: Record, past: seq<string>, future: seq<string>,
                            rangeCount: nat, userAgent: string, key: string, text: string)
    requires Coherent(h, past, future)
    requires RecordsFirstPosition(h, rangeCount, userAgent, key, text)
    ensures var r := h.(undoStack := h.undoStack[0 := WithSeedText(h.undoStack[0], text)], lastText := text);
            r == FirstPositionRecorded(h, rangeCount, userAgent, key, text) && Coherent(r, ["", text], [text])
  {
    FirstPositionKeepsCoherent(h, past, future, rangeCount, userAgent, key, text);
    assert h.undoStack[0 := WithSeedText(h.undoStack[0], text)] == [WithSeedText(h.undoStack[0], text)];
  }

  // ---------------------------------------------------------------------------
  // Round trips

  /** Committing a new snapshot and then undoing it brings back the last text and the undo stack. */
  lemma CommitThenUndo(h: Record, past: seq<string>, future: seq<string>, text: string, contentEditable: string)
    requires Coherent(h, past, future)
    requires |h.undoStack| > 0 && text != h.lastText && !ReadOnly(contentEditable)
    ensures Undone(Committed(h, text), contentEditable).lastText == h.lastText
    ensures |h.undoStack| < StackSize ==> Undone(Committed(h, text), contentEditable).undoStack == h.undoStack
  {
    MakeRestores(text, h.lastText);
    var r := Committed(h, text);
    assert r.undoStack[|r.undoStack| - 1] == Make(text, h.lastText);
    if |h.undoStack| < StackSize {
      assert r.undoStack == h.undoStack + [Make(text, h.lastText)];
    }
  }

  /** Undo followed by redo gives back the record, with an undo now pending. */
  lemma UndoThenRedo(h: Record, past: seq<string>, future: seq<string>, contentEditable: string)
    requires Coherent(h, past, future) && CanUndo(h, contentEditable)
    ensures Redone(Undone(h, contentEditable), contentEditable) == h.(hasUndo := true)
  {
    var n := |h.undoStack|;
    var state := h.undoStack[n - 1];
    assert Restores(state, past[n], past[n - 1]);
    InvertRestores(state, past[n], past[n - 1]);
    var u := Undone(h, contentEditable);
    assert u.redoStack[|u.redoStack| - 1] == state;
    assert u.undoStack + [state] == h.undoStack;
  }

  /** Redo followed by undo gives back the record. */
  lemma RedoThenUndo(h: Record, past: seq<string>, future: seq<string>, contentEditable: string)
    requires Coherent(h, past, future) && CanRedo(h, contentEditable)
    ensures Undone(Redone(h, contentEditable), contentEditable) == h
  {
    var k := |h.redoStack|;
    var state := h.redoStack[k - 1];
    assert Restores(state, future[k - 1], future[k]);
    InvertRestores(state, future[k - 1], future[k]);
    var d := Redone(h, contentEditable);
    assert d.undoStack[|d.undoStack| - 1] == state;
    assert d.redoStack + [state] == h.redoStack;
  }

  /** After an undo, a commit of a new snapshot leaves redo nothing to do. */
  lemma CommitAfterUndoInvalidatesRedo(h: Record, past: seq<string>, future: seq<string>, text: string, contentEditable: string)
    requires Coherent(h, past, future) && CanUndo(h, contentEditable)
    requires text != Undone(h, contentEditable).lastText
    ensures var c := Committed(Undone(h, contentEditable), text);
            c.redoStack == [] && Redone(c, contentEditable) == c
  {
  }

  /** Committing, undoing and redoing brings back the committed record and the new text. */
  lemma CommitUndoRedo(h: Record, past: seq<string>, future: seq<string>, text: string, contentEditable: string)
    requires Coherent(h, past, future)
    requires |h.undoStack| > 0 && text != h.lastText && !ReadOnly(contentEditable)
    ensures var c := Committed(h, text);
            Redone(Undone(c, contentEditable), contentEditable) == c.(hasUndo := true) &&
            Redone(Undone(c, contentEditable), contentEditable).lastText == text
  {
    CommitKeepsCoherent(h, past, future, text);
    UndoThenRedo(Committed(h, text), PastAfterCommit(past, text), [text], contentEditable);
  }

  /**
    Clearing and then committing a snapshot (how the editor seeds its
    history) leaves one seed record deleting the whole snapshot, which undo
    never pops.
   */
  lemma SeedAfterClear(text: string, contentEditable: string)
    ensures var s := Committed(Cleared(), text);
            s == Record([Make(text, "")], [], text, false) &&
            SeedShaped(s.undoStack[0], text) &&
            Coherent(s, ["", text], [text]) &&
            Undone(s, contentEditable) == s
  {
    ClearedIsCoherent();
    CommitKeepsCoherent(Cleared(), [""], [""], text);
    SeedIsShaped(text);
  }

  /**
    Typing `t1`, `t2` and `t3` (say "a", "ab", "abc") over an empty seed,
    undoing twice shows `t2` then `t1`, redoing shows `t2` again, and once
    a new `t4` (say "abX") is committed redo does nothing.
   */
  lemma TypingSession(t1: string, t2: string, t3: string, t4: string, contentEditable: string)
    requires t1 != "" && t2 != t1 && t3 != t2 && t4 != t2
    requires !ReadOnly(contentEditable)
    ensures var h3 := Typed(t1, t2, t3);
            var u1 := Undone(h3, contentEditable);
            var u2 := Undone(u1, contentEditable);
            var r1 := Redone(u2, contentEditable);
            var c := Committed(r1, t4);
            u1.lastText == t2 && u2.lastText == t1 && r1.lastText == t2 &&
            c.lastText == t4 && Redone(c, contentEditable) == c
  {
    UndoUndoRedo(t1, t2, t3, contentEditable);
  }

  /** Over the typed history, undoing twice shows `t2` then `t1`, and redoing shows `t2` again. */
  lemma UndoUndoRedo(t1: string, t2: string, t3: string, contentEditable: string)
    requires t1 != "" && t2 != t1 && t3 != t2
    requires !ReadOnly(contentEditable)
    ensures var u1 := Undone(Typed(t1, t2, t3), contentEditable);
            var u2 := Undone(u1, contentEditable);
            var r1 := Redone(u2, contentEditable);
            u1.lastText == t2 && u2.lastText == t1 && r1.lastText == t2 && r1.hasUndo
  {
    TypedThree(t1, t2, t3);
    MakeRestores(t3, t2);
    MakeRestores(t2, t1);
    MakeInvertRestores(t2, t1);
    var u1 := Undone(Typed(t1, t2, t3), contentEditable);
    assert u1.undoStack[2] == Make(t2, t1);
    var u2 := Undone(u1, contentEditable);
    assert u2.redoStack[|u2.redoStack| - 1] == Make(t2, t1);
  }

  /** The history after seeding with the empty text and committing `t1`, `t2` and `t3`. */
  function Typed(t1: string, t2: string, t3: string): Record
  {
    Committed(Committed(Committed(Committed(Cleared(), ""), t1), t2), t3)
  }

  /** Three commits of changing texts over an empty seed leave four records, the last two the patches back from `t3` and `t2`. */
  lemma TypedThree(t1: string, t2: string, t3: string)
    requires t1 != "" && t2 != t1 && t3 != t2
    ensures var h3 := Typed(t1, t2, t3);
            h3.lastText == t3 && |h3.undoStack| == 4 && h3.redoStack == [] &&
            h3.undoStack[2] == Make(t2, t1) && h3.undoStack[3] == Make(t3, t2)
  {
  }
}
