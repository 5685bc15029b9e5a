/** Where a paste goes, and what undoing it gives back. */
module Pasting {
  import opened Undo
  import opened UndoRuns

  /** A position, brought back into a text of length n that the client may have shortened. */
  function Within(p: nat, n: nat): nat {
    if p > n then n else p
  }

  /** The two ends of what is selected, in order; without a selection both are the cursor. */
  function First(cursor: nat, selectStart: nat, selectEnd: nat, n: nat): nat {
    if selectStart == selectEnd then Within(cursor, n)
    else if selectStart < selectEnd then Within(selectStart, n) else Within(selectEnd, n)
  }

  function End(cursor: nat, selectStart: nat, selectEnd: nat, n: nat): nat {
    if selectStart == selectEnd then Within(cursor, n)
    else if selectStart < selectEnd then Within(selectEnd, n) else Within(selectStart, n)
  }

  function Lesser(x: nat, y: nat): (r: nat)
    ensures r <= x && r <= y && (r == x || r == y)
  {
    if x < y then x else y
  }

  function Greater(x: nat, y: nat): (r: nat)
    ensures x <= r && y <= r && (r == x || r == y)
  {
    if x < y then y else x
  }

  /** The ends, whichever way it was selected, and what stands around them */
  lemma EndsAre(t: Text, cursor: nat, selectStart: nat, selectEnd: nat, a: Text)
    ensures var n, none := |t|, selectStart == selectEnd;
            var lo := Lesser(n, if none then cursor else Lesser(selectStart, selectEnd));
            var hi := Lesser(n, if none then cursor else Greater(selectStart, selectEnd));
            && lo == First(cursor, selectStart, selectEnd, n) && hi == End(cursor, selectStart, selectEnd, n)
            && lo <= hi && Spliced(t, lo, hi - lo, a) == t[..lo] + a + t[hi..]
            && Spliced(t, lo, hi - lo, []) == t[..lo] + t[hi..]
  {
    var lo, hi := First(cursor, selectStart, selectEnd, |t|), End(cursor, selectStart, selectEnd, |t|);
    SplicedIs(t, lo, hi - lo, a);
    SplicedIs(t, lo, hi - lo, []);
    assert t[..lo] + [] == t[..lo];
  }

  ghost predicate Span(t: Text, lo: nat, hi: nat) {
    lo <= hi <= |t|
  }

  /** What is between lo and hi is deleted, and recorded, if there is anything. */
  ghost function AfterDelete(s: Session, lo: nat, hi: nat): Session
    requires Span(s.h.text, lo, hi)
  {
    if lo < hi then Step(s, Do(Edit(lo, [], hi - lo))) else s
  }

  /** Then a is inserted, and recorded, if there is room for it. */
  ghost function AfterPaste(s: Session, lo: nat, hi: nat, a: Text, accepts: bool): Session
    requires Span(s.h.text, lo, hi)
  {
    AfterDeleteText(s, lo, hi);
    if accepts then Step(AfterDelete(s, lo, hi), Do(Edit(lo, a, 0))) else AfterDelete(s, lo, hi)
  }

  lemma AfterDeleteText(s: Session, lo: nat, hi: nat)
    requires Span(s.h.text, lo, hi)
    ensures AfterDelete(s, lo, hi).h.text == Spliced(s.h.text, lo, hi - lo, [])
  {
  }

  lemma DeleteIsStep(s: Session, lo: nat, hi: nat)
    requires Span(s.h.text, lo, hi) && lo < hi
    ensures AfterDelete(s, lo, hi) == Step(s, Do(Edit(lo, [], hi - lo)))
    ensures lo <= |AfterDelete(s, lo, hi).h.text|
  {
    AfterDeleteText(s, lo, hi);
  }

  /** A paste puts the new text in the place of the selection. */
  lemma PasteText(s: Session, lo: nat, hi: nat, a: Text)
    requires Span(s.h.text, lo, hi)
    ensures AfterPaste(s, lo, hi, a, true).h.text == Spliced(s.h.text, lo, hi - lo, a)
    ensures Spliced(s.h.text, lo, hi - lo, a) == s.h.text[..lo] + a + s.h.text[hi..]
  {
    AfterDeleteText(s, lo, hi);
    SplicedIs(s.h.text, lo, hi - lo, a);
    if lo < hi {
      DeleteInsert(s.h.text, lo, hi - lo, a);
    }
  }

  lemma PasteOk(s: Session, lo: nat, hi: nat, a: Text, accepts: bool)
    requires SessionOk(s) && Span(s.h.text, lo, hi)
    ensures SessionOk(AfterDelete(s, lo, hi)) && SessionOk(AfterPaste(s, lo, hi, a, accepts))
  {
    if lo < hi {
      StepOk(s, Do(Edit(lo, [], hi - lo)));
    }
    AfterDeleteText(s, lo, hi);
    if accepts {
      StepOk(AfterDelete(s, lo, hi), Do(Edit(lo, a, 0)));
    }
  }

  /** A storable edit is on top of the undo stack, and the text before it on top of the past. */
  lemma MakeOnTop(s: Session, e: Edit)
    requires SessionOk(s) && InRange(e, s.h.text) && e.gone <= CHARS
    ensures var q := Step(s, Do(e));
            && q.h.undos != [] && q.past != [] && q.past[|q.past| - 1] == s.h.text
            && Latest(q.h) == Reverse(e, s.h.text) && q.h.redos == []
  {
    var past' := MakePast(s.h, e, s.past);
  }

  /** Nothing can be undone past an edit too large to store. */
  lemma MakeTooLarge(s: Session, e: Edit)
    requires SessionOk(s) && InRange(e, s.h.text) && e.gone > CHARS
    ensures Step(s, Do(e)).h.undos == [] && Step(s, Do(e)).h.redos == []
  {
  }

  /** An edit that saves nothing goes on top of all but at most the oldest record. */
  lemma InsertOnTop(s: Session, e: Edit)
    requires SessionOk(s) && InRange(e, s.h.text) && e.gone == 0
    ensures Step(s, Do(e)).h.undos
            == (if |s.h.undos| == STATES then s.h.undos[1..] else s.h.undos) + [Reverse(e, s.h.text)]
  {
    CharsFirstAtMost(s.h.undos);
  }

  lemma CharsFirstAtMost(es: seq<Edit>)
    ensures es != [] ==> Chars(es[1..]) <= Chars(es)
  {
    if es != [] {
      CharsFirst(es);
    }
  }

  /** With nothing to redo, an undo has no redo record to discard. */
  lemma NeverMismatched(h: History)
    requires CanUndo(h) && h.redos == []
    ensures !Mismatched(h)
  {
  }

  /** Undoing a paste over nothing gives back the text, in one step. */
  lemma UndoPasteAlone(s: Session, lo: nat, a: Text)
    requires SessionOk(s) && lo <= |s.h.text|
    ensures var q := AfterPaste(s, lo, lo, a, true).h;
            Undoable(q, 1) && UndoN(q, 1).text == s.h.text
  {
    var e := Edit(lo, a, 0);
    var q := Step(s, Do(e));
    StepOk(s, Do(e));
    MakeOnTop(s, e);
    UndoKeeps(q.h, q.past, q.future);
    NeverMismatched(q.h);
    assert Undoable(UndoStep(q.h), 0) && UndoN(UndoStep(q.h), 0) == UndoStep(q.h);
  }

  /** Undoing a paste over a selection takes two steps, the second of which brings back the selection. */
  lemma UndoPasteOver(s: Session, lo: nat, hi: nat, a: Text)
    requires SessionOk(s) && Span(s.h.text, lo, hi) && 0 < hi - lo <= CHARS
    ensures var q := AfterPaste(s, lo, hi, a, true).h;
            Undoable(q, 2) && UndoN(q, 2).text == s.h.text
  {
    AfterDeleteText(s, lo, hi);
    var d, e := Edit(lo, [], hi - lo), Edit(lo, a, 0);
    var s1 := Step(s, Do(d));
    var s2 := Step(s1, Do(e));
    PasteOk(s, lo, hi, a, true);
    MakeOnTop(s, d);
    MakeOnTop(s1, e);
    InsertOnTop(s1, e);
    UndoKeeps(s2.h, s2.past, s2.future);
    NeverMismatched(s2.h);
    var h3 := UndoStep(s2.h);
    assert h3.text == s1.h.text;
    assert h3.undos != [] && Latest(h3) == Reverse(d, s.h.text);
    ReverseTakesBack(d, s.h.text);
    assert UndoStep(h3).text == s.h.text;
    TwoUndos(s2.h);
  }

  lemma TwoUndos(h: History)
    requires CanUndo(h) && !Mismatched(h) && CanUndo(UndoStep(h))
    ensures Undoable(h, 2) && UndoN(h, 2) == UndoStep(UndoStep(h))
  {
  }

  /** A selection too large to store takes the history before it along, and only the paste can be undone. */
  lemma UndoPasteTooLarge(s: Session, lo: nat, hi: nat, a: Text)
    requires SessionOk(s) && Span(s.h.text, lo, hi) && hi - lo > CHARS
    ensures var q := AfterPaste(s, lo, hi, a, true).h;
            |q.undos| == 1 && Undoable(q, 1) && UndoN(q, 1).text == Spliced(s.h.text, lo, hi - lo, [])
  {
    AfterDeleteText(s, lo, hi);
    var d, e := Edit(lo, [], hi - lo), Edit(lo, a, 0);
    var s1 := Step(s, Do(d));
    PasteOk(s, lo, hi, a, true);
    MakeTooLarge(s, d);
    InsertOnTop(s1, e);
    UndoPasteAlone(s1, lo, a);
  }

  /** Some number of undos gives back the text before the paste, exactly when the selection can be stored. */
  lemma UndoPasteIff(s: Session, lo: nat, hi: nat, a: Text)
    requires SessionOk(s) && Span(s.h.text, lo, hi)
    ensures var q := AfterPaste(s, lo, hi, a, true).h;
            && (hi - lo <= CHARS ==>
                  var m := if lo < hi then 2 else 1; Undoable(q, m) && UndoN(q, m).text == s.h.text)
            && (hi - lo > CHARS ==>
                  forall m :: 0 < m && Undoable(q, m) ==> UndoN(q, m).text != s.h.text)
  {
    var q := AfterPaste(s, lo, hi, a, true).h;
    if hi - lo > CHARS {
      UndoPasteTooLarge(s, lo, hi, a);
      forall m | 0 < m && Undoable(q, m) ensures UndoN(q, m).text != s.h.text {
        OneUndoOnly(q, m);
        assert |UndoN(q, 1).text| < |s.h.text|;
      }
    } else if lo < hi {
      UndoPasteOver(s, lo, hi, a);
    } else {
      UndoPasteAlone(s, lo, a);
    }
  }

  lemma OneUndoOnly(h: History, m: nat)
    requires |h.undos| == 1 && 0 < m && Undoable(h, m)
    ensures m == 1
  {
  }

  // ----- Typing over ---------------------------------------------------------------------------------

  /** What insert mode makes of t: the character at `at` gives way to a. */
  function Overtyped(t: Text, at: nat, a: Text): Text
    requires at < |t|
  {
    Spliced(t, at, 1, a)
  }

  /** The record that insert mode makes: one character saved, and one said to be there now. */
  function OvertypeRecord(t: Text, at: nat): Edit
    requires at < |t|
  {
    Edit(at, Part(t, at, 1), 1)
  }

  /** Undo takes back an insert-mode insertion exactly if it was of one character, and was not refused. */
  lemma OvertypeTakenBackIff(t: Text, at: nat, a: Text)
    requires at < |t|
    ensures var u, t' := OvertypeRecord(t, at), Overtyped(t, at, a);
            InRange(u, t') && Apply(u, t') == t <==> |a| == 1
  {
    var u, t' := OvertypeRecord(t, at), Overtyped(t, at, a);
    if InRange(u, t') {
      assert |Apply(u, t')| == |t'|;
      if |a| == 1 {
        assert t'[..at] == t[..at] && t'[at + 1..] == t[at + 1..];
        assert t == t[..at] + t[at..at + 1] + t[at + 1..];
      }
    }
  }
}
