/** The undo store as it is updated in place. */
module UndoStates {
  import opened Undo
  import opened UndoStore
  import opened UndoRuns

  /** memmove inside one array */
  method MoveWithin<T>(a: array<T>, dst: nat, src: nat, count: nat)
    requires dst + count <= a.Length && src + count <= a.Length
    modifies a
    ensures forall c {:trigger a[c]} :: dst <= c < dst + count ==> a[c] == old(a[c - dst + src])
    ensures forall c {:trigger a[c]} :: 0 <= c < a.Length && !(dst <= c < dst + count) ==> a[c] == old(a[c])
  {
    forall c | dst <= c < dst + count {
      a[c] := a[c - dst + src];
    }
  }

  /** The loop that corrects char_storage after a memmove of the characters. */
  method ShiftStorage(recs: array<Rec>, lo: nat, hi: nat, d: int)
    requires lo <= hi <= recs.Length
    modifies recs
    ensures forall i {:trigger recs[i]} :: lo <= i < hi ==> recs[i] == Shifted(old(recs[i]), d)
    ensures forall i {:trigger recs[i]} :: 0 <= i < recs.Length && !(lo <= i < hi) ==> recs[i] == old(recs[i])
  {
    for i := lo to hi
      invariant forall j {:trigger recs[j]} :: lo <= j < i ==> recs[j] == Shifted(old(recs[j]), d)
      invariant forall j {:trigger recs[j]} :: 0 <= j < recs.Length && !(lo <= j < i) ==> recs[j] == old(recs[j])
    {
      if recs[i].charStorage >= 0 {
        recs[i] := recs[i].(charStorage := recs[i].charStorage + d);
      }
    }
  }

  method SetRec(recs: array<Rec>, i: nat, r: Rec)
    requires i < recs.Length
    modifies recs
    ensures recs[..] == old(recs[..])[i := r]
  {
    recs[i] := r;
  }

  /** StbUndoState; undos and redos are the two stacks that it stands for. */
  class UndoState {
    const undoRec: array<Rec>
    const undoChar: array<int>
    var undoPoint: int
    var redoPoint: int
    var undoCharPoint: int
    var redoCharPoint: int

    ghost var undos: seq<Edit>
    ghost var redos: seq<Edit>

    /** The undo side alone: what is left to rely on once an undo has discarded redo records. */
    ghost predicate FrontOk()
      reads this, undoRec, undoChar
    {
      && undoRec.Length == STATES && undoChar.Length == CHARS
      && undoPoint == |undos| <= STATES
      && undoCharPoint == Chars(undos) <= CHARS
      && UndoSide(undoRec[..], undoChar[..], undos)
    }

    ghost predicate BackOk()
      reads this, undoRec, undoChar
    {
      && undoRec.Length == STATES && undoChar.Length == CHARS
      && redoPoint == STATES - |redos| && 0 <= redoPoint
      && redoCharPoint == CHARS - Chars(redos) && 0 <= redoCharPoint
      && RedoSide(undoRec[..], undoChar[..], redos)
    }

    ghost predicate Valid()
      reads this, undoRec, undoChar
    {
      FrontOk() && BackOk() && undoPoint <= redoPoint && undoCharPoint <= redoCharPoint
    }

    /** stb_textedit_clear_state, the undo part */
    constructor Clear()
      ensures Valid() && undos == [] && redos == []
      ensures undoPoint == undoCharPoint == 0 && redoPoint == undoRec.Length == 99
      ensures redoCharPoint == undoChar.Length == 999
      ensures fresh(undoRec) && fresh(undoChar)
    {
      undoRec := new Rec[STATES](_ => Rec(0, 0, 0, -1));
      undoChar := new int[CHARS](_ => 0);
      undoPoint, undoCharPoint := 0, 0;
      redoPoint, redoCharPoint := STATES, CHARS;
      undos, redos := [], [];
    }

    /** stb_textedit_flush_redo */
    method FlushRedo()
      requires FrontOk()
      modifies this`redoPoint, this`redoCharPoint, this`redos
      ensures Valid() && redos == []
    {
      redoPoint := STATES;
      redoCharPoint := CHARS;
      redos := [];
    }

    /** stb_textedit_discard_undo */
    method DiscardUndo()
      requires Valid() && redos == []
      modifies this`undoPoint, this`undoCharPoint, this`undos, undoRec, undoChar
      ensures Valid()
      ensures undos == if old(undos) == [] then [] else old(undos)[1..]
    {
      if undoPoint > 0 {
        ghost var rest := undos[1..];
        assert undos == [undos[0]] + rest;
        CharsCons(undos[0], rest);
        undoPoint, undoCharPoint := DropOldest(undoRec, undoChar, undoPoint, undoCharPoint, undos[0], rest);
        undos := rest;
      }
    }

    /** stb_textedit_discard_redo; the slot in front of what is left keeps the shape of the newest record. */
    method DiscardRedo()
      requires BackOk()
      modifies this`redoPoint, this`redoCharPoint, this`redos, undoRec, undoChar
      ensures BackOk()
      ensures redos == if old(redos) == [] then [] else old(redos)[..|old(redos)| - 1]
      ensures old(redoCharPoint) <= redoCharPoint
      ensures forall i {:trigger undoRec[i]} :: 0 <= i < old(redoPoint) ==> undoRec[i] == old(undoRec[i])
      ensures old(redos) != [] ==> SameShape(undoRec[old(redoPoint)], old(undoRec[redoPoint]))
      ensures forall c {:trigger undoChar[c]} :: 0 <= c < old(redoCharPoint) ==> undoChar[c] == old(undoChar[c])
    {
      if redoPoint <= STATES - 1 {
        ghost var m := |redos| - 1;
        ghost var rest, last := redos[..m], redos[m];
        assert redos == rest + [last];
        CharsPush(rest, last);
        redoPoint, redoCharPoint := DropOldestRedo(undoRec, undoChar, redoPoint, redoCharPoint, rest, last);
        redos := rest;
      }
    }

    /** The loop of stb_text_undo that discards redo records until `gone` characters fit. */
    method MakeRedoRoom(gone: nat)
      requires BackOk() && 0 <= undoCharPoint && undoCharPoint + gone < CHARS
      modifies this`redoPoint, this`redoCharPoint, this`redos, undoRec, undoChar
      ensures BackOk() && undoCharPoint + gone <= redoCharPoint
      ensures redos == Shed(old(redos), CHARS - undoCharPoint - gone)
      ensures if undoCharPoint + gone <= old(redoCharPoint) then redoPoint == old(redoPoint)
              else old(redoPoint) < redoPoint && SameShape(undoRec[redoPoint - 1], old(undoRec[redoPoint]))
      ensures forall i {:trigger undoRec[i]} :: 0 <= i < old(redoPoint) ==> undoRec[i] == old(undoRec[i])
      ensures forall c {:trigger undoChar[c]} :: 0 <= c < old(redoCharPoint) ==> undoChar[c] == old(undoChar[c])
    {
      ghost var was := redos;
      while undoCharPoint + gone > redoCharPoint
        invariant BackOk() && old(redoPoint) <= redoPoint && old(redoCharPoint) <= redoCharPoint
        invariant Shed(redos, CHARS - undoCharPoint - gone) == Shed(was, CHARS - undoCharPoint - gone)
        invariant forall i {:trigger undoRec[i]} :: 0 <= i < old(redoPoint) ==> undoRec[i] == old(undoRec[i])
        invariant forall c {:trigger undoChar[c]} :: 0 <= c < old(redoCharPoint) ==> undoChar[c] == old(undoChar[c])
        invariant redoPoint < STATES ==> SameShape(undoRec[redoPoint], old(undoRec[redoPoint]))
        invariant if redoPoint == old(redoPoint) then redoCharPoint == old(redoCharPoint)
                  else
                    && undoCharPoint + gone > old(redoCharPoint)
                    && SameShape(undoRec[redoPoint - 1], old(undoRec[redoPoint]))
        decreases |redos|
      {
        // dead: with no redo record left, everything from undoCharPoint on is free
        if redoPoint == STATES {
          assert false;
        }
        DiscardRedo();
      }
    }

    /** The slot of the next redo record has its characters, and is otherwise yet to be looked at. */
    ghost predicate Slotted(saved: Text)
      reads this, undoRec, undoChar
    {
      && undoRec.Length == STATES && undoChar.Length == CHARS
      && redoPoint == STATES - |redos| && 1 <= redoPoint
      && redoCharPoint == CHARS - Chars(redos) - |saved| && 0 <= redoCharPoint
      && RedoSide(undoRec[..], undoChar[..], redos)
      && HoldsChars(undoRec[redoPoint - 1], undoChar[..], saved, redoCharPoint)
    }

    /** The part of stb_text_undo that saves the characters it is about to delete, with room for them. */
    method StoreForRedo(text: Text, where: nat, len: nat, ghost saved: Text)
      requires BackOk() && 1 <= redoPoint && 0 < len <= redoCharPoint && where + len <= |text|
      requires saved == Part(text, where, len)
      modifies this`redoCharPoint, undoRec, undoChar
      ensures Slotted(saved) && redoCharPoint == old(redoCharPoint) - len
      ensures SameShape(undoRec[redoPoint - 1], old(undoRec[redoPoint - 1]))
      ensures forall i {:trigger undoRec[i]} :: 0 <= i < redoPoint - 1 ==> undoRec[i] == old(undoRec[i])
      ensures forall c {:trigger undoChar[c]} :: 0 <= c < redoCharPoint ==> undoChar[c] == old(undoChar[c])
    {
      ghost var recs, chars := undoRec[..], undoChar[..];
      var r := redoPoint - 1;
      undoRec[r] := undoRec[r].(charStorage := redoCharPoint - len);
      redoCharPoint := redoCharPoint - len;
      SaveText(undoChar, undoRec[r].charStorage, text, where, len);
      RedoSideFrame(recs, chars, redos, undoRec[..], undoChar[..]);
    }

    /** Redo records have to be discarded before `gone` characters fit. */
    ghost predicate NoRoomYet(gone: nat)
      reads this
    {
      gone > 0 && undoCharPoint + gone < CHARS && undoCharPoint + gone > redoCharPoint
    }

    /** The part of stb_text_undo that fills in the redo record for u, but for the characters to save. */
    method FillRedo(u: Rec)
      requires BackOk() && 1 <= redoPoint
      modifies undoRec
      ensures BackOk()
      ensures var lost := u.deleteLength != 0 && undoCharPoint + u.deleteLength >= CHARS;
              undoRec[redoPoint - 1] == Rec(u.where, if lost then 0 else u.deleteLength, u.insertLength, -1)
      ensures forall i {:trigger undoRec[i]} ::
                0 <= i < STATES && i != redoPoint - 1 ==> undoRec[i] == old(undoRec[i])
    {
      ghost var recs := undoRec[..];
      var r := redoPoint - 1;
      undoRec[r] := Rec(u.where, u.deleteLength, u.insertLength, -1);
      if u.deleteLength != 0 && undoCharPoint + u.deleteLength >= CHARS {
        // nothing will be saved, so the record names no characters
        undoRec[r] := undoRec[r].(insertLength := 0);
      }
      RedoSideFrame(recs, undoChar[..], redos, undoRec[..], undoChar[..]);
    }

    /** The part of stb_text_undo that finds room for the characters it is about to delete, and saves them. */
    method SaveForRedo(text: Text, where: nat, len: nat, ghost saved: Text)
      requires BackOk() && 1 <= redoPoint && 0 < len && where + len <= |text|
      requires 0 <= undoCharPoint <= redoCharPoint && undoCharPoint + len < CHARS
      requires saved == Part(text, where, len)
      modifies this`redoPoint, this`redoCharPoint, this`redos, undoRec, undoChar
      ensures Slotted(saved) && undoCharPoint <= redoCharPoint && old(redoPoint) <= redoPoint
      ensures redos == Shed(old(redos), CHARS - undoCharPoint - len)
      ensures if undoCharPoint + len <= old(redoCharPoint) then
                SameShape(undoRec[redoPoint - 1], old(undoRec[redoPoint - 1]))
              else old(redoPoint) < STATES && SameShape(undoRec[redoPoint - 1], old(undoRec[redoPoint]))
      ensures forall i {:trigger undoRec[i]} :: 0 <= i < old(redoPoint) - 1 ==> undoRec[i] == old(undoRec[i])
      ensures forall c {:trigger undoChar[c]} :: 0 <= c < undoCharPoint ==> undoChar[c] == old(undoChar[c])
    {
      MakeRedoRoom(len);
      StoreForRedo(text, where, len, saved);
    }

    /** The part of stb_text_undo that writes the redo record, which is to be q. */
    method WriteRedo(text: Text, u: Rec, ghost q: Edit)
      requires BackOk() && 0 <= undoCharPoint <= redoCharPoint && 1 <= redoPoint
      requires 0 <= u.where && 0 <= u.deleteLength && 0 <= u.insertLength && u.where + u.deleteLength <= |text|
      requires q == if u.deleteLength > 0 && undoCharPoint + u.deleteLength >= CHARS
                    then Edit(u.where, [], u.insertLength)
                    else Edit(u.where, Part(text, u.where, u.deleteLength), u.insertLength)
      modifies this`redoPoint, this`redoCharPoint, this`redos, undoRec, undoChar
      ensures Slotted(q.saved) && undoCharPoint <= redoCharPoint && old(redoPoint) <= redoPoint
      ensures if old(NoRoomYet(u.deleteLength)) then
                && redos == Shed(old(redos), CHARS - undoCharPoint - u.deleteLength)
                && old(redoPoint) < STATES && SameShape(undoRec[redoPoint - 1], old(undoRec[redoPoint]))
              else redos == old(redos) && SameShape(undoRec[redoPoint - 1], RecOf(q, 0))
      ensures forall i {:trigger undoRec[i]} :: 0 <= i < old(redoPoint) - 1 ==> undoRec[i] == old(undoRec[i])
      ensures forall c {:trigger undoChar[c]} :: 0 <= c < undoCharPoint ==> undoChar[c] == old(undoChar[c])
    {
      FillRedo(u);
      if u.deleteLength != 0 && undoCharPoint + u.deleteLength < CHARS {
        SaveForRedo(text, u.where, u.deleteLength, q.saved);
      }
    }

    /** The same, where a discarded record stays in the slot named by the edit it records. */
    method PrepareRedo(text: Text, u: Rec, ghost q: Edit)
      requires BackOk() && 0 <= undoCharPoint <= redoCharPoint && 1 <= redoPoint
      requires 0 <= u.where && 0 <= u.deleteLength && 0 <= u.insertLength && u.where + u.deleteLength <= |text|
      requires q == if u.deleteLength > 0 && undoCharPoint + u.deleteLength >= CHARS
                    then Edit(u.where, [], u.insertLength)
                    else Edit(u.where, Part(text, u.where, u.deleteLength), u.insertLength)
      modifies this`redoPoint, this`redoCharPoint, this`redos, undoRec, undoChar
      ensures Slotted(q.saved) && undoCharPoint <= redoCharPoint && old(redoPoint) <= redoPoint
      ensures if old(NoRoomYet(u.deleteLength)) then
                && redos == Shed(old(redos), CHARS - undoCharPoint - u.deleteLength)
                && old(redos) != [] && SameShape(undoRec[redoPoint - 1], RecOf(old(redos)[0], 0))
              else redos == old(redos) && SameShape(undoRec[redoPoint - 1], RecOf(q, 0))
      ensures forall i {:trigger undoRec[i]} :: 0 <= i < old(redoPoint) - 1 ==> undoRec[i] == old(undoRec[i])
      ensures forall c {:trigger undoChar[c]} :: 0 <= c < undoCharPoint ==> undoChar[c] == old(undoChar[c])
    {
      ghost var recs, chars, rs, crowded := undoRec[..], undoChar[..], redos, NoRoomYet(u.deleteLength);
      WriteRedo(text, u, q);
      if crowded {
        FirstShapeOf(recs, chars, rs, undoRec[redoPoint - 1]);
      }
    }

    /**
      stb_text_undo, up to the point where the undo is carried out; u is the record on top, q is to be
      the redo record.
     */
    method BeginUndo(text: Text, u: Rec, ghost keep: seq<Edit>, ghost e: Edit, ghost q: Edit)
      requires BackOk() && |keep| < redoPoint && 0 <= undoCharPoint == Chars(keep) + |e.saved| <= redoCharPoint
      requires Readable(undoRec[..], undoChar[..], keep, u, e) && InRange(e, text)
      requires q == if e.gone > 0 && undoCharPoint + e.gone >= CHARS
                    then Edit(e.where, [], |e.saved|)
                    else Reverse(e, text)
      modifies this`redoPoint, this`redoCharPoint, this`redos, undoRec, undoChar
      ensures Readable(undoRec[..], undoChar[..], keep, u, e)
      ensures Slotted(q.saved) && undoCharPoint <= redoCharPoint && old(redoPoint) <= redoPoint
      ensures if old(NoRoomYet(e.gone)) then
                && redos == Shed(old(redos), CHARS - undoCharPoint - e.gone)
                && old(redos) != [] && SameShape(undoRec[redoPoint - 1], RecOf(old(redos)[0], 0))
              else redos == old(redos) && SameShape(undoRec[redoPoint - 1], RecOf(q, 0))
    {
      ghost var recs, chars := undoRec[..], undoChar[..];
      PrepareRedo(text, u, q);
      StaysReadable(recs, chars, keep, u, e, undoRec[..], undoChar[..]);
    }

    /** The slot that redo reads has the characters `saved`, in front of the redo records kept. */
    ghost predicate Left(kept: seq<Edit>, saved: Text)
      reads this, undoRec, undoChar
    {
      && undoRec.Length == STATES && undoChar.Length == CHARS
      && 0 <= redoPoint == STATES - |kept| - 1
      && 0 <= redoCharPoint == CHARS - Chars(kept) - |saved|
      && RedoSide(undoRec[..], undoChar[..], kept)
      && HoldsChars(undoRec[redoPoint], undoChar[..], saved, redoCharPoint)
    }

    /** The rest of stb_text_undo; the slot holds the characters saved, and has the form of f. */
    method FinishUndo(text: Text, u: Rec, ghost keep: seq<Edit>, ghost e: Edit, ghost f: Edit, ghost saved: Text)
      returns (text': Text, cursor: int)
      requires InRange(e, text) && Slotted(saved) && undoCharPoint <= redoCharPoint
      requires SameShape(undoRec[redoPoint - 1], RecOf(f, 0))
      requires undoPoint == |keep| + 1 <= redoPoint && undoCharPoint == Chars(keep) + |e.saved| <= CHARS
      requires Readable(undoRec[..], undoChar[..], keep, u, e)
      modifies this
      ensures FrontOk() && undos == keep
      ensures Left(old(redos), saved) && SameShape(undoRec[redoPoint], RecOf(f, 0))
      ensures redos == [Edit(f.where, saved, f.gone)] + old(redos) && (|f.saved| == |saved| ==> Valid())
      ensures text' == Apply(e, text) && cursor == e.where + |e.saved|
    {
      ghost var q := Edit(f.where, saved, f.gone);
      if |f.saved| == |saved| {
        SlotHolds(undoRec[..], undoChar[..], redos, q);
      }
      text' := CarryOut(text, u, undoChar, e, Chars(keep));
      if u.insertLength != 0 {
        undoCharPoint := undoCharPoint - u.insertLength;
      }
      cursor := u.where + u.insertLength;
      undoPoint := undoPoint - 1;
      redoPoint := redoPoint - 1;
      undos, redos := keep, [q] + redos;
    }

    /**
      stb_text_undo, with the undo record e on top, which q takes back; kept are the redo records that
      stay, and the slot that redo reads has the form of f.
     */
    method UndoTo(text: Text, ghost keep: seq<Edit>, ghost e: Edit,
                  ghost q: Edit, ghost f: Edit, ghost kept: seq<Edit>)
      returns (text': Text, cursor: int)
      requires Valid() && undos == keep + [e] && InRange(e, text)
      requires q == if e.gone > 0 && undoCharPoint + e.gone >= CHARS
                    then Edit(e.where, [], |e.saved|)
                    else Reverse(e, text)
      requires f == if NoRoomYet(e.gone) && redos != [] then redos[0] else q
      requires kept == if NoRoomYet(e.gone) then Shed(redos, CHARS - undoCharPoint - e.gone) else redos
      modifies this, undoRec, undoChar
      ensures text' == Apply(e, text) && cursor == e.where + |e.saved| && undos == keep && FrontOk()
      ensures Left(kept, q.saved) && SameShape(undoRec[redoPoint], RecOf(f, 0))
      ensures redos == [Edit(f.where, q.saved, f.gone)] + kept && (|f.saved| == |q.saved| ==> Valid())
    {
      CharsPush(keep, e);
      TopReadable(undoRec[..], undoChar[..], keep, e);
      var u := undoRec[undoPoint - 1];
      BeginUndo(text, u, keep, e, q);
      text', cursor := FinishUndo(text, u, keep, e, f, q.saved);
    }

    /**
      stb_text_undo. Text and undo stack are right in any case, and the slot that redo reads holds the
      characters to bring back; its place and lengths are those of FormOf. If they name as many
      characters, the whole store is laid out again, and stands for the step on values.
     */
    method Undo(text: Text, cursor: int) returns (text': Text, cursor': int)
      requires FrontOk() && (undos != [] ==> Valid() && InRange(undos[|undos| - 1], text))
      modifies this, undoRec, undoChar
      ensures FrontOk()
      ensures if old(undos) == [] then
                text' == text && cursor' == cursor && unchanged(this, undoRec, undoChar)
              else
                var h := old(History(text, undos, redos));
                && text' == UndoStep(h).text && undos == UndoStep(h).undos
                && cursor' == Latest(h).where + |Latest(h).saved|
                && Left(Kept(h), RedoOf(h).saved) && SameShape(undoRec[redoPoint], RecOf(FormOf(h), 0))
                && redos == UndoStep(h).redos && (Laid(h) ==> Valid())
    {
      if undoPoint == 0 {
        return text, cursor;
      }
      ghost var keep, e, h := undos[..|undos| - 1], undos[|undos| - 1], History(text, undos, redos);
      text', cursor' := UndoTo(text, keep, e, RedoOf(h), FormOf(h), Kept(h));
    }

    /**
      What Undo leaves is safe to discard from, however often, exactly if the form of the slot names no
      more characters than were saved there.
     */
    lemma DiscardsInsideIff(kept: seq<Edit>, saved: Text, f: Edit)
      requires Left(kept, saved) && saved != [] && SameShape(undoRec[redoPoint], RecOf(f, 0))
      ensures (forall n :: 0 <= n <= STATES - redoPoint ==> PointAfter(undoRec[..], redoCharPoint, n) <= CHARS)
              <==> |f.saved| <= |saved|
    {
      PointInsideIff(undoRec[..], undoChar[..], kept, redoCharPoint, |saved|);
    }

    /** The part of stb_text_redo that fills in the undo record, which is to be q. */
    method WriteUndo(text: Text, r: Rec, ghost q: Edit)
      requires undoRec.Length == STATES && undoChar.Length == CHARS
      requires 0 <= undoPoint < STATES && 0 <= undoCharPoint <= redoCharPoint <= CHARS
      requires 0 <= r.where && 0 <= r.deleteLength && 0 <= r.insertLength && r.where + r.deleteLength <= |text|
      requires q == if r.deleteLength > 0 && undoCharPoint + r.deleteLength > redoCharPoint
                    then Edit(r.where, [], 0)
                    else Edit(r.where, Part(text, r.where, r.deleteLength), r.insertLength)
      modifies this`undoCharPoint, undoRec, undoChar
      ensures undoCharPoint == old(undoCharPoint) + |q.saved| <= redoCharPoint
      ensures undoRec[..] == old(undoRec[..])[undoPoint := RecOf(q, old(undoCharPoint))]
      ensures undoChar[..] == Written(old(undoChar[..]), old(undoCharPoint), q.saved)
    {
      undoRec[undoPoint] := Rec(r.where, r.deleteLength, r.insertLength, -1);
      if r.deleteLength != 0 {
        if undoCharPoint + r.deleteLength > redoCharPoint {
          undoRec[undoPoint] := undoRec[undoPoint].(insertLength := 0, deleteLength := 0);
          NothingWritten(undoChar[..], undoCharPoint);
        } else {
          undoRec[undoPoint] := undoRec[undoPoint].(charStorage := undoCharPoint);
          SaveText(undoChar, undoCharPoint, text, r.where, r.deleteLength);
          undoCharPoint := undoCharPoint + r.deleteLength;
        }
      } else {
        NothingWritten(undoChar[..], undoCharPoint);
      }
    }

    /** stb_text_redo, up to the point where the redo is carried out; q is to be its undo record. */
    method BeginRedo(text: Text, ghost first: Edit, ghost rest: seq<Edit>, ghost q: Edit) returns (r: Rec)
      requires Valid() && redos == [first] + rest && InRange(first, text)
      requires q == Latest(RedoStep(History(text, undos, redos)))
      modifies this`undoCharPoint, undoRec, undoChar
      ensures undoCharPoint == Chars(undos + [q]) <= redoCharPoint
      ensures UndoSide(undoRec[..], undoChar[..], undos + [q])
      ensures NextReadable(undoRec[..], undoChar[..], first, r, rest)
    {
      ghost var recs, chars := undoRec[..], undoChar[..];
      NextIsReadable(recs, chars, first, rest);
      UndoSidePush(recs, chars, undos, q);
      CharsPush(undos, q);
      r := undoRec[redoPoint];
      WriteUndo(text, r, q);
      NextStaysReadable(recs, chars, first, r, rest, undoRec[..], undoChar[..]);
    }

    /** The rest of stb_text_redo */
    method FinishRedo(text: Text, r: Rec, ghost first: Edit, ghost rest: seq<Edit>, ghost us: seq<Edit>)
      returns (text': Text, cursor: int)
      requires undoRec.Length == STATES && undoChar.Length == CHARS
      requires undoPoint == |us| - 1 <= redoPoint == STATES - |rest| - 1
      requires undoCharPoint == Chars(us) <= redoCharPoint == CHARS - (|first.saved| + Chars(rest))
      requires UndoSide(undoRec[..], undoChar[..], us) && InRange(first, text)
      requires NextReadable(undoRec[..], undoChar[..], first, r, rest)
      modifies this
      ensures Valid() && undos == us && redos == rest
      ensures text' == Apply(first, text) && cursor == first.where + |first.saved|
    {
      text' := CarryOut(text, r, undoChar, first, CHARS - Chars(rest) - |first.saved|);
      if r.insertLength != 0 {
        redoCharPoint := redoCharPoint + r.insertLength;
      }
      cursor := r.where + r.insertLength;
      undoPoint := undoPoint + 1;
      redoPoint := redoPoint + 1;
      undos, redos := us, rest;
    }

    /** stb_text_redo, with the edit `first` there to redo, and q to be its undo record */
    method RedoTo(text: Text, ghost first: Edit, ghost rest: seq<Edit>, ghost q: Edit)
      returns (text': Text, cursor: int)
      requires Valid() && redos == [first] + rest && InRange(first, text)
      requires Chars(redos) == |first.saved| + Chars(rest)
      requires q == Latest(RedoStep(History(text, undos, redos)))
      modifies this, undoRec, undoChar
      ensures Valid() && undos == old(undos) + [q] && redos == rest
      ensures text' == Apply(first, text) && cursor == first.where + |first.saved|
    {
      var r := BeginRedo(text, first, rest, q);
      text', cursor := FinishRedo(text, r, first, rest, undos + [q]);
    }

    /** stb_text_redo */
    method Redo(text: Text, cursor: int) returns (text': Text, cursor': int)
      requires Valid() && (redos != [] ==> InRange(redos[0], text))
      modifies this, undoRec, undoChar
      ensures Valid()
      ensures if old(redos) == [] then
                text' == text && cursor' == cursor && undos == old(undos) && redos == []
              else
                && History(text', undos, redos) == old(RedoStep(History(text, undos, redos)))
                && cursor' == old(redos[0].where + |redos[0].saved|)
    {
      if redoPoint == STATES {
        return text, cursor;
      }
      CharsFirst(redos);
      assert redos == [redos[0]] + redos[1..];
      text', cursor' := RedoTo(text, redos[0], redos[1..], Latest(RedoStep(History(text, undos, redos))));
    }

    /** stb_text_create_undo_record; -1 stands for its null result. */
    method CreateUndoRecord(numChars: nat) returns (slot: int)
      requires FrontOk()
      modifies this, undoRec, undoChar
      ensures var us := if |old(undos)| == STATES then old(undos)[1..] else old(undos);
              && redos == []
              && undos == (if numChars > CHARS then [] else Trimmed(us, numChars))
      ensures if numChars > CHARS then slot == -1 && Valid() else slot == |undos| && Opened(numChars)
    {
      FlushRedo();
      if undoPoint == STATES {
        DiscardUndo();
      }
      if numChars > CHARS {
        undoPoint := 0;
        undoCharPoint := 0;
        undos := [];
        return -1;
      }
      ghost var us := undos;
      while undoCharPoint + numChars > CHARS
        invariant Valid() && redos == [] && |undos| < STATES
        invariant Trimmed(undos, numChars) == Trimmed(us, numChars)
        decreases |undos|
      {
        DiscardUndo();
      }
      slot := undoPoint;
      undoPoint := undoPoint + 1;
    }

    /** One record has been taken, with room for its characters, and is yet to be filled in. */
    ghost predicate Opened(numChars: nat)
      reads this, undoRec, undoChar
    {
      && undoRec.Length == STATES && undoChar.Length == CHARS
      && undoPoint == |undos| + 1 <= STATES
      && undoCharPoint == Chars(undos) && undoCharPoint + numChars <= CHARS
      && UndoSide(undoRec[..], undoChar[..], undos)
      && redoPoint == STATES && redoCharPoint == CHARS && redos == []
    }

    /** The store is right but for the characters `saved`, which are yet to be written at p. */
    ghost predicate Pending(p: int, saved: Text)
      reads this, undoRec, undoChar
    {
      && undoRec.Length == STATES && undoChar.Length == CHARS
      && undoPoint == |undos| <= STATES && undoCharPoint == Chars(undos) <= CHARS
      && 0 <= p && p + |saved| <= CHARS
      && UndoSide(undoRec[..], Written(undoChar[..], p, saved), undos)
      && redoPoint == STATES && redoCharPoint == CHARS && redos == []
    }

    /** stb_text_createundo; `saved` stands for the characters that the caller is about to write. */
    method CreateUndo(pos: nat, insertLen: nat, deleteLen: nat, ghost saved: Text) returns (p: int)
      requires FrontOk() && |saved| == insertLen
      modifies this, undoRec, undoChar
      ensures undos == Recorded(old(undos), Edit(pos, saved, deleteLen)) && redos == []
      ensures p == -1 <==> insertLen == 0 || insertLen > CHARS
      ensures if p == -1 then Valid() else Pending(p, saved)
    {
      var slot := CreateUndoRecord(insertLen);
      if slot == -1 {
        return -1;
      }
      p := FillRecord(slot, pos, insertLen, deleteLen, Edit(pos, saved, deleteLen));
    }

    /** The part of stb_text_createundo that fills in the record at slot, which is to be that of e. */
    method FillRecord(slot: int, pos: nat, insertLen: nat, deleteLen: nat, ghost e: Edit) returns (p: int)
      requires Opened(insertLen) && slot == |undos|
      requires e == Edit(pos, e.saved, deleteLen) && |e.saved| == insertLen
      modifies this`undoCharPoint, this`undos, undoRec
      ensures undos == old(undos) + [e] && redos == []
      ensures p == -1 <==> insertLen == 0
      ensures if p == -1 then Valid() else Pending(p, e.saved)
    {
      ghost var recs := undoRec[..];
      UndoSidePush(recs, undoChar[..], undos, e);
      CharsPush(undos, e);
      NothingWritten(undoChar[..], undoCharPoint);
      if insertLen == 0 {
        SetRec(undoRec, slot, Rec(pos, insertLen, deleteLen, -1));
        p := -1;
      } else {
        SetRec(undoRec, slot, Rec(pos, insertLen, deleteLen, undoCharPoint));
        p := undoCharPoint;
        undoCharPoint := undoCharPoint + insertLen;
      }
      undos := undos + [e];
    }

    /** The caller of stb_text_createundo writes the characters to save. */
    method SavePending(p: int, text: Text, where: nat, len: nat)
      requires where + len <= |text| && Pending(p, Part(text, where, len))
      modifies undoChar
      ensures Valid()
    {
      SaveText(undoChar, p, text, where, len);
    }

    /** stb_text_makeundo_insert */
    method MakeundoInsert(where: nat, length: nat)
      requires FrontOk()
      modifies this, undoRec, undoChar
      ensures Valid() && redos == [] && undos == Recorded(old(undos), Edit(where, [], length))
    {
      var _ := CreateUndo(where, 0, length, []);
    }

    /** stb_text_makeundo_delete */
    method MakeundoDelete(text: Text, where: nat, length: nat)
      requires FrontOk() && where + length <= |text|
      modifies this, undoRec, undoChar
      ensures Valid() && redos == []
      ensures undos == Recorded(old(undos), Edit(where, Part(text, where, length), 0))
    {
      var p := CreateUndo(where, length, 0, Part(text, where, length));
      if p != -1 {
        SavePending(p, text, where, length);
      }
    }

    /** stb_text_makeundo_replace */
    method MakeundoReplace(text: Text, where: nat, oldLength: nat, newLength: nat)
      requires FrontOk() && where + oldLength <= |text|
      modifies this, undoRec, undoChar
      ensures Valid() && redos == []
      ensures undos == Recorded(old(undos), Edit(where, Part(text, where, oldLength), newLength))
    {
      var p := CreateUndo(where, oldLength, newLength, Part(text, where, oldLength));
      if p != -1 {
        SavePending(p, text, where, oldLength);
      }
    }
  }

  /** The oldest redo record, the last of the array, goes with its characters if it has any. */
  method DropOldestRedo(recs: array<Rec>, chars: array<int>, point: int, charPoint: int,
                        ghost redos: seq<Edit>, ghost last: Edit)
    returns (newPoint: int, newCharPoint: int)
    requires 0 <= point == recs.Length - |redos| - 1 && 0 <= charPoint == chars.Length - Chars(redos + [last])
    requires RedoSide(recs[..], chars[..], redos + [last])
    modifies recs, chars
    ensures newPoint == point + 1 && newCharPoint == chars.Length - Chars(redos)
    ensures RedoSide(recs[..], chars[..], redos)
    ensures forall i {:trigger recs[i]} :: 0 <= i < point ==> recs[i] == old(recs[i])
    ensures SameShape(recs[point], old(recs[point]))
    ensures forall c {:trigger chars[c]} :: 0 <= c < charPoint ==> chars[c] == old(chars[c])
  {
    ghost var recs0, chars0 := recs[..], chars[..];
    LastHolds(recs0, chars0, redos, last);
    CharsPush(redos, last);
    newPoint, newCharPoint := DropLast(recs, chars, point, charPoint, |last.saved|);
    assert forall c :: newCharPoint <= c < chars.Length ==> chars[..][c] == chars0[c - |last.saved|];
    RedoSideDrop(recs0, chars0, redos, last, recs[..], chars[..]);
  }

  /** The last record goes, with its n characters. */
  method DropLast(recs: array<Rec>, chars: array<int>, point: int, charPoint: int, ghost n: int)
    returns (newPoint: int, newCharPoint: int)
    requires 0 <= point < recs.Length && 0 <= n && 0 <= charPoint && charPoint + n <= chars.Length
    requires var r := recs[recs.Length - 1]; if r.charStorage >= 0 then r.insertLength == n else n == 0
    modifies recs, chars
    ensures newPoint == point + 1 && newCharPoint == charPoint + n
    ensures forall i {:trigger recs[i]} :: point < i < recs.Length ==> recs[i] == Shifted(old(recs[i - 1]), n)
    ensures forall i {:trigger recs[i]} :: 0 <= i < point ==> recs[i] == old(recs[i])
    ensures SameShape(recs[point], old(recs[point]))
    ensures forall c {:trigger chars[c]} :: charPoint + n <= c < chars.Length ==> chars[c] == old(chars[c - n])
    ensures forall c {:trigger chars[c]} :: 0 <= c < charPoint ==> chars[c] == old(chars[c])
  {
    newCharPoint := DropRedoChars(recs, chars, point, charPoint, n);
    ghost var recs1 := recs[..];
    MoveWithin(recs, point + 1, point, recs.Length - point - 1);
    newPoint := point + 1;
    forall i | point < i < recs.Length ensures recs[i] == Shifted(old(recs[i - 1]), n) {
      assert recs[i] == recs1[i - 1];
    }
  }

  ghost predicate SameShape(r: Rec, q: Rec) {
    r.where == q.where && r.insertLength == q.insertLength && r.deleteLength == q.deleteLength
  }

  /** The characters of the last record go, and those of the other redo records move up to the end. */
  method DropRedoChars(recs: array<Rec>, chars: array<int>, point: int, charPoint: int, ghost n: int)
    returns (newCharPoint: int)
    requires 0 <= point < recs.Length && 0 <= n && 0 <= charPoint && charPoint + n <= chars.Length
    requires var r := recs[recs.Length - 1]; if r.charStorage >= 0 then r.insertLength == n else n == 0
    modifies recs, chars
    ensures newCharPoint == charPoint + n
    ensures forall i {:trigger recs[i]} :: point <= i < recs.Length - 1 ==> recs[i] == Shifted(old(recs[i]), n)
    ensures forall i {:trigger recs[i]} :: 0 <= i < point ==> recs[i] == old(recs[i])
    ensures SameShape(recs[point], old(recs[point]))
    ensures forall c {:trigger chars[c]} :: charPoint + n <= c < chars.Length ==> chars[c] == old(chars[c - n])
    ensures forall c {:trigger chars[c]} :: 0 <= c < charPoint ==> chars[c] == old(chars[c])
  {
    newCharPoint := charPoint;
    var k := recs.Length - 1;
    if recs[k].charStorage >= 0 {
      var m := recs[k].insertLength;
      newCharPoint := newCharPoint + m;
      MoveWithin(chars, newCharPoint, newCharPoint - m, chars.Length - newCharPoint);
      ShiftStorage(recs, point, k, m);
    }
  }

  /** What stb_text_undo and stb_text_redo do to the text: the deletion, then the insertion. */
  method CarryOut(text: Text, r: Rec, chars: array<int>, ghost e: Edit, ghost off: int) returns (text': Text)
    requires Holds(r, chars[..], e, off) && InRange(e, text)
    ensures text' == Apply(e, text)
  {
    text' := text;
    if r.deleteLength != 0 {
      text' := DeleteChars(text', r.where, r.deleteLength);
    }
    if r.insertLength != 0 {
      text' := InsertChars(text', r.where, chars[r.charStorage..r.charStorage + r.insertLength]);
    }
  }

  lemma NothingWritten(s: Text, p: nat)
    requires p <= |s|
    ensures Written(s, p, []) == s
  {
  }

  ghost predicate HoldsChars(r: Rec, chars: Text, saved: Text, off: int) {
    if saved == [] then r.charStorage == -1
    else r.charStorage == off && 0 <= off && off + |saved| <= |chars|
         && forall i :: 0 <= i < |saved| ==> saved[i] == chars[off + i]
  }

  /** A slot that has the characters of q and the form of its record holds q. */
  lemma {:induction false} SlotHolds(recs: seq<Rec>, chars: Text, redos: seq<Edit>, q: Edit)
    requires RedoSide(recs, chars, redos) && |redos| < |recs|
    requires var r := recs[|recs| - |redos| - 1];
             SameShape(r, RecOf(q, 0)) && HoldsChars(r, chars, q.saved, |chars| - Chars(redos) - |q.saved|)
    ensures RedoSide(recs, chars, [q] + redos) && Chars([q] + redos) == |q.saved| + Chars(redos)
  {
    CharsCons(q, redos);
    assert ([q] + redos)[1..] == redos;
  }

  lemma {:induction false} FirstShapeOf(recs: seq<Rec>, chars: Text, redos: seq<Edit>, r: Rec)
    requires redos != [] && RedoSide(recs, chars, redos) && SameShape(r, recs[|recs| - |redos|])
    ensures SameShape(r, RecOf(redos[0], 0))
  {
  }

  /** The oldest redo record is the last one of the array, with its characters at the very end. */
  lemma {:induction false} LastHolds(recs: seq<Rec>, chars: Text, redos: seq<Edit>, last: Edit)
    requires RedoSide(recs, chars, redos + [last])
    ensures |redos| < |recs| && Holds(recs[|recs| - 1], chars, last, |chars| - |last.saved|)
    decreases |redos|
  {
    var all := redos + [last];
    if redos != [] {
      assert all[1..] == redos[1..] + [last];
      LastHolds(recs, chars, redos[1..], last);
    } else {
      assert all == [last];
      CharsOne(last);
    }
  }

  lemma {:induction false} CharsPush(es: seq<Edit>, e: Edit)
    ensures Chars(es + [e]) == Chars(es) + |e.saved|
  {
    CharsSplit(es, [e]);
    CharsOne(e);
  }

  /** The loops that save characters of the text. */
  method SaveText(chars: array<int>, p: nat, text: Text, where: nat, len: nat)
    requires p + len <= chars.Length && where + len <= |text|
    modifies chars
    ensures chars[..] == Written(old(chars[..]), p, Part(text, where, len))
  {
    for i := 0 to len
      invariant forall c :: p <= c < p + i ==> chars[c] == text[where + (c - p)]
      invariant forall c {:trigger chars[c]} ::
                  0 <= c < chars.Length && !(p <= c < p + i) ==> chars[c] == old(chars[c])
    {
      chars[p + i] := text[where + i];
    }
  }

  /** The oldest record goes, with its characters if it has any. */
  method DropOldest(recs: array<Rec>, chars: array<int>, point: int, charPoint: int,
                    ghost first: Edit, ghost rest: seq<Edit>)
    returns (newPoint: int, newCharPoint: int)
    requires point == 1 + |rest| <= recs.Length && charPoint == Chars([first] + rest) <= chars.Length
    requires UndoSide(recs[..], chars[..], [first] + rest)
    modifies recs, chars
    ensures newPoint == |rest| && newCharPoint == Chars(rest)
    ensures UndoSide(recs[..], chars[..], rest)
  {
    ghost var recs0, chars0 := recs[..], chars[..];
    FirstHolds(recs0, chars0, first, rest);
    newPoint, newCharPoint := DropFirst(recs, chars, point, charPoint, |first.saved|);
    assert forall i :: 0 <= i < |rest| ==> recs[..][i] == Shifted(recs0[i + 1], -|first.saved|);
    assert forall c :: 0 <= c < Chars(rest) ==> chars[..][c] == chars0[c + |first.saved|];
    UndoSideDrop(recs0, chars0, first, rest, recs[..], chars[..]);
  }

  /** The first record goes, with its n characters. */
  method DropFirst(recs: array<Rec>, chars: array<int>, point: int, charPoint: int, ghost n: int)
    returns (newPoint: int, newCharPoint: int)
    requires 0 < point <= recs.Length && 0 <= n <= charPoint <= chars.Length
    requires if recs[0].charStorage >= 0 then recs[0].insertLength == n else n == 0
    modifies recs, chars
    ensures newPoint == point - 1 && newCharPoint == charPoint - n
    ensures forall i {:trigger recs[i]} :: 0 <= i < newPoint ==> recs[i] == Shifted(old(recs[i + 1]), -n)
    ensures forall c {:trigger chars[c]} :: 0 <= c < newCharPoint ==> chars[c] == old(chars[c + n])
  {
    newCharPoint := DropChars(recs, chars, point, charPoint, n);
    ghost var recs1 := recs[..];
    newPoint := point - 1;
    MoveWithin(recs, 0, 1, newPoint);
    forall i | 0 <= i < newPoint ensures recs[i] == Shifted(old(recs[i + 1]), -n) {
      assert recs[i] == recs1[i + 1];
    }
  }

  /** The characters of the oldest record go, and those of all others move up. */
  method DropChars(recs: array<Rec>, chars: array<int>, point: int, charPoint: int, ghost n: int)
    returns (newCharPoint: int)
    requires 0 <= n
    requires 0 < point <= recs.Length && n <= charPoint <= chars.Length
    requires if recs[0].charStorage >= 0 then recs[0].insertLength == n else n == 0
    modifies recs, chars
    ensures newCharPoint == charPoint - n
    ensures forall i {:trigger recs[i]} :: 0 <= i < point ==> recs[i] == Shifted(old(recs[i]), -n)
    ensures forall c {:trigger chars[c]} :: 0 <= c < charPoint - n ==> chars[c] == old(chars[c + n])
  {
    newCharPoint := charPoint;
    if recs[0].charStorage >= 0 {
      var k := recs[0].insertLength;
      newCharPoint := newCharPoint - k;
      MoveWithin(chars, 0, k, newCharPoint);
      ShiftStorage(recs, 0, point, -k);
    }
  }

  /** The oldest record has its characters at the very front. */
  lemma {:induction false} FirstHolds(recs: seq<Rec>, chars: Text, first: Edit, rest: seq<Edit>)
    requires UndoSide(recs, chars, [first] + rest)
    ensures recs != [] && Holds(recs[0], chars, first, 0)
    ensures Chars([first] + rest) == |first.saved| + Chars(rest)
    decreases |rest|
  {
    var all, n := [first] + rest, |rest|;
    assert all[1..] == rest;
    if n > 0 {
      assert all[..n] == [first] + rest[..n - 1];
      FirstHolds(recs, chars, first, rest[..n - 1]);
    } else {
      assert all[..0] == [];
    }
  }
}
