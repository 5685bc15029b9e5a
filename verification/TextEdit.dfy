/** The text editor's own state, and the operations that record what they do. */
module TextEdit {
  import opened Undo
  import opened UndoStates
  import opened UndoRuns
  import opened Pasting

  const NEWLINE := 10

  /** STB_TexteditState with its string; the session is the history that it stands for. */
  class Editor {
    const undostate: UndoState
    var text: Text
    var cursor: nat
    var selectStart: nat
    var selectEnd: nat
    var insertMode: bool
    var singleLine: bool

    ghost var session: Session

    /** The session is true as far as it stands, and the text and the store are those that it tells of. */
    ghost predicate Valid()
      reads this, undostate, undostate.undoRec, undostate.undoChar
    {
      && SessionOk(session)
      && session.h == History(text, undostate.undos, undostate.redos)
      && if session.standing.UndoOnly? then undostate.FrontOk() else undostate.Valid()
    }

    ghost function Lo(): nat
      reads this
    {
      First(cursor, selectStart, selectEnd, |text|)
    }

    ghost function Hi(): nat
      reads this
    {
      End(cursor, selectStart, selectEnd, |text|)
    }

    /** stb_textedit_initialize_state, for a string that is there */
    constructor Initialize(text: Text, singleLine: bool)
      ensures Valid() && session == Cleared(text)
      ensures fresh(undostate) && fresh(undostate.undoRec) && fresh(undostate.undoChar)
      ensures cursor == selectStart == selectEnd == 0 && !insertMode && this.singleLine == singleLine
    {
      undostate := new UndoState.Clear();
      this.text := text;
      cursor, selectStart, selectEnd := 0, 0, 0;
      insertMode, this.singleLine := false, singleLine;
      session := Cleared(text);
      new;
      ClearedGood(session.h);
    }

    /** stb_textedit_clamp */
    method Clamp()
      modifies this`cursor, this`selectStart, this`selectEnd
      ensures Lo() == old(Lo()) && Hi() == old(Hi())
      ensures cursor <= |text| && (selectStart != selectEnd ==> selectStart <= |text| && selectEnd <= |text|)
      ensures selectStart == selectEnd ==> cursor == Lo()
      ensures var n, none := |text|, old(selectStart == selectEnd);
              && selectStart == (if none then old(selectStart) else Lesser(n, old(selectStart)))
              && selectEnd == (if none then old(selectEnd) else Lesser(n, old(selectEnd)))
              && cursor == Lesser(n, if !none && selectStart == selectEnd then selectStart else old(cursor))
    {
      var n := |text|;
      if selectStart != selectEnd {
        if selectStart > n {
          selectStart := n;
        }
        if selectEnd > n {
          selectEnd := n;
        }
        if selectStart == selectEnd {
          cursor := selectStart;
        }
      }
      if cursor > n {
        cursor := n;
      }
    }

    /** The step op has been carried out. */
    ghost method Note(op: Op)
      requires SessionOk(session) && Allowed(session, op)
      modifies this`session
      ensures SessionOk(session) && session == old(Step(session, op))
    {
      StepOk(session, op);
      session := Step(session, op);
    }

    /** stb_textedit_delete */
    method Delete(where: nat, len: nat)
      requires Valid() && where + len <= |text|
      modifies this`text, this`session
      modifies undostate, undostate.undoRec, undostate.undoChar
      ensures Valid() && session == Step(old(session), Do(Edit(where, [], len)))
    {
      ghost var s, op := session, Do(Edit(where, [], len));
      DeleteIsEdit(s, where, len);
      undostate.MakeundoDelete(text, where, len);
      text := DeleteChars(text, where, len);
      Note(op);
    }

    /** The insertion that typing and pasting share; `accepts` stands for what the client's string answers. */
    method Insert(a: Text, accepts: bool) returns (ok: bool)
      requires Valid() && cursor <= |text|
      modifies this`text, this`cursor, this`session
      modifies undostate, undostate.undoRec, undostate.undoChar
      ensures Valid() && ok == accepts
      ensures session == if ok then Step(old(session), Do(Edit(old(cursor), a, 0))) else old(session)
      ensures cursor == if ok then old(cursor) + |a| else old(cursor)
    {
      if !accepts {
        return false;
      }
      ghost var s, op := session, Do(Edit(cursor, a, 0));
      InsertIsEdit(s, cursor, a);
      text := InsertChars(text, cursor, a);
      undostate.MakeundoInsert(cursor, |a|);
      cursor := cursor + |a|;
      Note(op);
      return true;
    }

    /** Cursor and selection go to one position; nothing else changes. */
    method Collapse(at: nat)
      requires Valid()
      modifies this`cursor, this`selectStart, this`selectEnd
      ensures Valid() && session == old(session) && cursor == selectStart == selectEnd == at
    {
      cursor, selectStart, selectEnd := at, at, at;
    }

    /** Deleting what is selected, from lo to hi */
    method DeleteSpan(lo: nat, hi: nat)
      requires Valid() && lo < hi && Span(text, lo, hi)
      modifies this`text, this`cursor, this`selectStart, this`selectEnd, this`session
      modifies undostate, undostate.undoRec, undostate.undoChar
      ensures Valid() && session == AfterDelete(old(session), lo, hi)
      ensures cursor == selectStart == selectEnd == lo <= |text|
    {
      DeleteIsStep(session, lo, hi);
      Delete(lo, hi - lo);
      Collapse(lo);
    }

    /** stb_textedit_delete_selection, when something is selected, after clamping */
    method DeleteSelected()
      requires Valid() && selectStart != selectEnd && selectStart <= |text| && selectEnd <= |text|
      modifies this`text, this`cursor, this`selectStart, this`selectEnd, this`session
      modifies undostate, undostate.undoRec, undostate.undoChar
      ensures Valid() && session == AfterDelete(old(session), old(Lo()), old(Hi()))
      ensures cursor == old(Lo()) <= |text| && selectStart == selectEnd
    {
      if selectStart < selectEnd {
        DeleteSpan(selectStart, selectEnd);
      } else {
        DeleteSpan(selectEnd, selectStart);
      }
    }

    /** stb_textedit_delete_selection, as a step of the session */
    method DeleteMarked()
      requires Valid()
      modifies this`text, this`cursor, this`selectStart, this`selectEnd, this`session
      modifies undostate, undostate.undoRec, undostate.undoChar
      ensures Valid() && session == AfterDelete(old(session), old(Lo()), old(Hi()))
      ensures cursor == old(Lo()) <= |text| && selectStart == selectEnd
    {
      Clamp();
      if selectStart != selectEnd {
        DeleteSelected();
      }
    }

    /** stb_textedit_delete_selection */
    method DeleteSelection()
      requires Valid()
      modifies this`text, this`cursor, this`selectStart, this`selectEnd, this`session
      modifies undostate, undostate.undoRec, undostate.undoChar
      ensures Valid() && session == AfterDelete(old(session), old(Lo()), old(Hi())) && selectStart == selectEnd
      ensures var t, none := old(text), old(selectStart == selectEnd);
              var lo := Lesser(|t|, if none then old(cursor) else Lesser(old(selectStart), old(selectEnd)));
              var hi := Lesser(|t|, if none then old(cursor) else Greater(old(selectStart), old(selectEnd)));
              lo <= hi && text == t[..lo] + t[hi..] && cursor == lo
    {
      DeleteLeaves(session, cursor, selectStart, selectEnd);
      DeleteMarked();
    }

    /** stb_textedit_cut */
    method Cut() returns (done: bool)
      requires Valid()
      modifies this`text, this`cursor, this`selectStart, this`selectEnd, this`session
      modifies undostate, undostate.undoRec, undostate.undoChar
      ensures Valid() && done == old(selectStart != selectEnd) && selectStart == selectEnd
      ensures session == if done then AfterDelete(old(session), old(Lo()), old(Hi())) else old(session)
      ensures var t := old(text);
              var lo := Lesser(|t|, Lesser(old(selectStart), old(selectEnd)));
              var hi := Lesser(|t|, Greater(old(selectStart), old(selectEnd)));
              if done then lo <= hi && text == t[..lo] + t[hi..] && cursor == lo
              else text == t && cursor == old(cursor) && selectStart == old(selectStart)
    {
      if selectStart != selectEnd {
        DeleteSelection();
        return true;
      }
      return false;
    }

    /** The two edits of a paste, and of typing outside insert mode, as steps of the session */
    method Replace(a: Text, accepts: bool) returns (ok: bool)
      requires Valid()
      modifies this`text, this`cursor, this`selectStart, this`selectEnd, this`session
      modifies undostate, undostate.undoRec, undostate.undoChar
      ensures Valid() && ok == accepts
      ensures session == AfterPaste(old(session), old(Lo()), old(Hi()), a, accepts)
      ensures cursor == old(Lo()) + (if ok then |a| else 0) && selectStart == selectEnd
    {
      PasteIs(session, Lo(), Hi(), a, accepts);
      DeleteMarked();
      ok := Insert(a, accepts);
    }

    /** stb_textedit_paste_internal */
    method Paste(a: Text, accepts: bool) returns (ok: bool)
      requires Valid()
      modifies this`text, this`cursor, this`selectStart, this`selectEnd, this`session
      modifies undostate, undostate.undoRec, undostate.undoChar
      ensures Valid() && ok == accepts
      ensures session == AfterPaste(old(session), old(Lo()), old(Hi()), a, accepts)
      ensures selectStart == selectEnd
      ensures var t, none := old(text), old(selectStart == selectEnd);
              var lo := Lesser(|t|, if none then old(cursor) else Lesser(old(selectStart), old(selectEnd)));
              var hi := Lesser(|t|, if none then old(cursor) else Greater(old(selectStart), old(selectEnd)));
              && lo <= hi && text == t[..lo] + (if ok then a else []) + t[hi..]
              && cursor == if ok then lo + |a| else lo
    {
      PasteLeaves(session, cursor, selectStart, selectEnd, a, accepts);
      Clamp();
      ok := Replace(a, accepts);
    }

    /** The insert-mode branch of stb_textedit_text, on the text and the store */
    method Overtype(a: Text, accepts: bool)
      requires undostate.FrontOk() && cursor < |text|
      modifies this`text, this`cursor, undostate, undostate.undoRec, undostate.undoChar
      ensures undostate.Valid() && undostate.redos == []
      ensures text == Overtyped(old(text), old(cursor), if accepts then a else [])
      ensures undostate.undos == Recorded(old(undostate.undos), OvertypeRecord(old(text), old(cursor)))
      ensures cursor == if accepts then old(cursor) + |a| else old(cursor)
    {
      undostate.MakeundoReplace(text, cursor, 1, 1);
      DeleteInsert(text, cursor, 1, a);
      text := DeleteChars(text, cursor, 1);
      if accepts {
        text := InsertChars(text, cursor, a);
        cursor := cursor + |a|;
      }
    }

    /** The same, and what it means: whatever is inserted, the record says one character. */
    method TypeOver(a: Text, accepts: bool)
      requires Valid() && cursor < |text|
      modifies this`text, this`cursor, this`session, undostate, undostate.undoRec, undostate.undoChar
      ensures undostate.Valid() && undostate.redos == []
      ensures text == Overtyped(old(text), old(cursor), if accepts then a else [])
      ensures undostate.undos == Recorded(old(undostate.undos), OvertypeRecord(old(text), old(cursor)))
      ensures accepts && |a| == 1 ==> Valid() && session == Step(old(session), Do(Edit(old(cursor), a, 1)))
      ensures cursor == if accepts then old(cursor) + |a| else old(cursor)
    {
      OvertypeIsEdit(session, cursor, a);
      ghost var op := Do(Edit(cursor, a, 1));
      Overtype(a, accepts);
      if accepts && |a| == 1 {
        Note(op);
      }
    }

    /** stb_textedit_text, outside insert mode */
    method TypeIn(a: Text, accepts: bool)
      requires Valid()
      modifies this`text, this`cursor, this`selectStart, this`selectEnd, this`session
      modifies undostate, undostate.undoRec, undostate.undoChar
      ensures Valid() && session == AfterPaste(old(session), old(Lo()), old(Hi()), a, accepts)
      ensures selectStart == selectEnd
      ensures var t, none := old(text), old(selectStart == selectEnd);
              var lo := Lesser(|t|, if none then old(cursor) else Lesser(old(selectStart), old(selectEnd)));
              var hi := Lesser(|t|, if none then old(cursor) else Greater(old(selectStart), old(selectEnd)));
              && lo <= hi && text == t[..lo] + (if accepts then a else []) + t[hi..]
              && cursor == if accepts then lo + |a| else lo
    {
      PasteLeaves(session, cursor, selectStart, selectEnd, a, accepts);
      var _ := Replace(a, accepts);
    }

    /** stb_textedit_text */
    method Type(a: Text, accepts: bool)
      requires Valid() && a != []
      modifies this`text, this`cursor, this`selectStart, this`selectEnd, this`session
      modifies undostate, undostate.undoRec, undostate.undoChar
      ensures a[0] == NEWLINE && old(singleLine) ==>
                Valid() && session == old(session) && text == old(text) && cursor == old(cursor)
                && selectStart == old(selectStart) && selectEnd == old(selectEnd)
      ensures !(a[0] == NEWLINE && old(singleLine))
              && old(insertMode && selectStart == selectEnd && cursor < |text|) ==>
                var s, t, at := old(session), old(text), old(cursor);
                && text == Overtyped(t, at, if accepts then a else [])
                && undostate.undos == Recorded(s.h.undos, OvertypeRecord(t, at))
                && (accepts && |a| == 1 ==> Valid() && session == Step(s, Do(Edit(at, a, 1))))
                && cursor == (if accepts then at + |a| else at) && selectStart == selectEnd
      ensures !(a[0] == NEWLINE && old(singleLine))
              && !old(insertMode && selectStart == selectEnd && cursor < |text|) ==>
                var t, none := old(text), old(selectStart == selectEnd);
                var lo := Lesser(|t|, if none then old(cursor) else Lesser(old(selectStart), old(selectEnd)));
                var hi := Lesser(|t|, if none then old(cursor) else Greater(old(selectStart), old(selectEnd)));
                && Valid() && session == AfterPaste(old(session), old(Lo()), old(Hi()), a, accepts)
                && lo <= hi && text == t[..lo] + (if accepts then a else []) + t[hi..]
                && cursor == (if accepts then lo + |a| else lo) && selectStart == selectEnd
    {
      if a[0] == NEWLINE && singleLine {
        return;
      }
      if insertMode && selectStart == selectEnd && cursor < |text| {
        TypeOver(a, accepts);
      } else {
        TypeIn(a, accepts);
      }
    }

    /** stb_text_undo, on the text and the store, with something to undo */
    method UndoText(ghost h: History)
      requires undostate.Valid() && h == History(text, undostate.undos, undostate.redos) && CanUndo(h)
      modifies this`text, this`cursor, undostate, undostate.undoRec, undostate.undoChar
      ensures History(text, undostate.undos, undostate.redos) == UndoStep(h)
      ensures undostate.FrontOk() && (Laid(h) ==> undostate.Valid())
      ensures cursor == Latest(h).where + |Latest(h).saved| <= |text|
    {
      var t, at := undostate.Undo(text, cursor);
      text, cursor := t, at;
    }

    /** stb_text_undo: the text is the latest of the past. */
    method Undo()
      requires Valid() && (session.past != [] ==> !session.standing.UndoOnly?)
      modifies this`text, this`cursor, this`session, undostate, undostate.undoRec, undostate.undoChar
      ensures Valid()
      ensures if old(session.past) == [] then
                session == old(session) && cursor == old(cursor)
              else
                text == old(session.past[|session.past| - 1]) && session == Step(old(session), TakeBack)
      ensures var us := old(undostate.undos);
              us != [] ==> cursor == us[|us| - 1].where + |us[|us| - 1].saved| <= |text|
    {
      UndoMeans(session);
      if undostate.undoPoint != 0 {
        UndoText(session.h);
        Note(TakeBack);
      }
    }

    /** stb_text_redo, on the text and the store, with something to redo */
    method RedoText(ghost h: History)
      requires undostate.Valid() && h == History(text, undostate.undos, undostate.redos) && CanRedo(h)
      modifies this`text, this`cursor, undostate, undostate.undoRec, undostate.undoChar
      ensures undostate.Valid() && History(text, undostate.undos, undostate.redos) == RedoStep(h)
      ensures cursor == h.redos[0].where + |h.redos[0].saved| <= |text|
    {
      var t, at := undostate.Redo(text, cursor);
      text, cursor := t, at;
    }

    /** stb_text_redo: the text is the next of the future, where that is known. */
    method Redo()
      requires Valid() && !session.standing.UndoOnly? && (undostate.redos != [] ==> InRange(undostate.redos[0], text))
      modifies this`text, this`cursor, this`session, undostate, undostate.undoRec, undostate.undoChar
      ensures undostate.Valid()
      ensures if old(session.h.redos) == [] then
                Valid() && session == old(session) && cursor == old(cursor)
              else
                && History(text, undostate.undos, undostate.redos) == RedoStep(old(session.h))
                && (old(session.future) != [] ==> text == old(session.future[0]))
                && (Allowed(old(session), Again) ==> Valid() && session == Step(old(session), Again))
      ensures var rs := old(undostate.redos); rs != [] ==> cursor == rs[0].where + |rs[0].saved| <= |text|
    {
      RedoMeans(session);
      if undostate.redoPoint != STATES {
        ghost var may := Allowed(session, Again);
        RedoText(session.h);
        if may {
          Note(Again);
        }
      }
    }
  }

  lemma PasteIs(s: Session, lo: nat, hi: nat, a: Text, accepts: bool)
    requires Span(s.h.text, lo, hi)
    ensures lo <= |AfterDelete(s, lo, hi).h.text|
    ensures AfterPaste(s, lo, hi, a, accepts)
            == if accepts then Step(AfterDelete(s, lo, hi), Do(Edit(lo, a, 0))) else AfterDelete(s, lo, hi)
  {
    AfterDeleteText(s, lo, hi);
  }

  /** What deleting a selection leaves, whichever way it was selected */
  lemma DeleteLeaves(s: Session, cursor: nat, selectStart: nat, selectEnd: nat)
    ensures var t, none := s.h.text, selectStart == selectEnd;
            var lo := Lesser(|t|, if none then cursor else Lesser(selectStart, selectEnd));
            var hi := Lesser(|t|, if none then cursor else Greater(selectStart, selectEnd));
            && lo == First(cursor, selectStart, selectEnd, |t|) && hi == End(cursor, selectStart, selectEnd, |t|)
            && lo <= hi && AfterDelete(s, lo, hi).h.text == t[..lo] + t[hi..]
  {
    EndsAre(s.h.text, cursor, selectStart, selectEnd, []);
    var n := |s.h.text|;
    AfterDeleteText(s, First(cursor, selectStart, selectEnd, n), End(cursor, selectStart, selectEnd, n));
  }

  /** What a paste over a selection leaves */
  lemma PasteLeaves(s: Session, cursor: nat, selectStart: nat, selectEnd: nat, a: Text, accepts: bool)
    ensures var t, none := s.h.text, selectStart == selectEnd;
            var lo := Lesser(|t|, if none then cursor else Lesser(selectStart, selectEnd));
            var hi := Lesser(|t|, if none then cursor else Greater(selectStart, selectEnd));
            && lo == First(cursor, selectStart, selectEnd, |t|) && hi == End(cursor, selectStart, selectEnd, |t|)
            && lo <= hi && AfterPaste(s, lo, hi, a, accepts).h.text == t[..lo] + (if accepts then a else []) + t[hi..]
  {
    var n := |s.h.text|;
    var lo, hi := First(cursor, selectStart, selectEnd, n), End(cursor, selectStart, selectEnd, n);
    EndsAre(s.h.text, cursor, selectStart, selectEnd, if accepts then a else []);
    AfterDeleteText(s, lo, hi);
    PasteText(s, lo, hi, a);
  }

  lemma UndoMeans(s: Session)
    requires SessionOk(s)
    ensures |s.past| == |s.h.undos|
    ensures s.past != [] ==> CanUndo(s.h) && UndoStep(s.h).text == s.past[|s.past| - 1]
  {
    if s.past != [] {
      UndoPastOk(s.h, s.past);
    }
  }

  lemma RedoMeans(s: Session)
    requires SessionOk(s)
    ensures CanRedo(s.h) && s.future != [] ==> RedoStep(s.h).text == s.future[0]
    ensures s.h.redos == [] ==> s.future == []
  {
    if CanRedo(s.h) && s.future != [] {
      RedoKeeps(s.h, s.past, s.future);
    }
  }

  lemma DeleteIsEdit(s: Session, where: nat, len: nat)
    requires where + len <= |s.h.text|
    ensures Step(s, Do(Edit(where, [], len))).h
            == History(DeleteChars(s.h.text, where, len),
                       Recorded(s.h.undos, Edit(where, Part(s.h.text, where, len), 0)), [])
    ensures Step(s, Do(Edit(where, [], len))).standing.Both?
  {
  }

  lemma InsertIsEdit(s: Session, where: nat, a: Text)
    requires where <= |s.h.text|
    ensures Step(s, Do(Edit(where, a, 0))).h
            == History(InsertChars(s.h.text, where, a), Recorded(s.h.undos, Edit(where, [], |a|)), [])
    ensures Step(s, Do(Edit(where, a, 0))).standing.Both?
  {
    assert Part(s.h.text, where, 0) == [];
  }

  lemma OvertypeIsEdit(s: Session, at: nat, a: Text)
    requires at < |s.h.text|
    ensures Step(s, Do(Edit(at, a, 1))).standing.Both?
    ensures |a| == 1 ==>
              Step(s, Do(Edit(at, a, 1))).h
              == History(Overtyped(s.h.text, at, a), Recorded(s.h.undos, OvertypeRecord(s.h.text, at)), [])
  {
  }
}
