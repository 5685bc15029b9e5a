/** The steps of the editor's history, and what whole runs of them keep. */
module UndoRuns {
  import opened Undo

  // ----- The steps -------------------------------------------------------------------------------

  /** The user carries out e, and it is recorded; all redo records go. */
  function Make(h: History, e: Edit): History
    requires InRange(e, h.text)
  {
    History(Apply(e, h.text), Recorded(h.undos, Reverse(e, h.text)), [])
  }

  function Latest(h: History): Edit
    requires h.undos != []
  {
    h.undos[|h.undos| - 1]
  }

  ghost predicate CanUndo(h: History) {
    h.undos != [] && InRange(Latest(h), h.text)
  }

  ghost predicate CanRedo(h: History) {
    h.redos != [] && InRange(h.redos[0], h.text)
  }

  /** The undo store leaves no room for what the undo deletes: its redo record saves nothing. */
  predicate Lossy(h: History)
    requires h.undos != []
  {
    Latest(h).gone > 0 && Chars(h.undos) + Latest(h).gone >= CHARS
  }

  /** There would be room, but redo records have to be discarded for it. */
  predicate Crowded(h: History)
    requires h.undos != []
  {
    Latest(h).gone > 0 && !Lossy(h) && Chars(h.undos) + Latest(h).gone > CHARS - Chars(h.redos)
  }

  /** The redo records that stay when an undo needs room. */
  function Kept(h: History): seq<Edit>
    requires h.undos != []
  {
    if Crowded(h) then Shed(h.redos, CHARS - Chars(h.undos) - Latest(h).gone) else h.redos
  }

  /** The redo record that takes the next undo back, as far as the store has room for it */
  function RedoOf(h: History): Edit
    requires h.undos != [] && InRange(Latest(h), h.text)
  {
    if Lossy(h) then Edit(Latest(h).where, [], |Latest(h).saved|) else Reverse(Latest(h), h.text)
  }

  /**
    The edit whose place and lengths are in the slot that redo reads after the next undo: once redo
    records are discarded, that is not the slot that was filled in, but one that still says what the
    newest redo record of before did. The characters saved there are those of RedoOf in any case.
   */
  function FormOf(h: History): Edit
    requires h.undos != [] && InRange(Latest(h), h.text)
  {
    if Crowded(h) && h.redos != [] then h.redos[0] else RedoOf(h)
  }

  /** That slot names as many characters as were saved, so that the store stays laid out as it should be. */
  predicate Laid(h: History)
    requires h.undos != [] && InRange(Latest(h), h.text)
  {
    |FormOf(h).saved| == |RedoOf(h).saved|
  }

  /** stb_text_undo. Text and undo stack are always these; the redo stack is as long as the store is Laid. */
  function UndoStep(h: History): History
    requires h.undos != [] && InRange(Latest(h), h.text)
  {
    var left := Edit(FormOf(h).where, RedoOf(h).saved, FormOf(h).gone);
    History(Apply(Latest(h), h.text), h.undos[..|h.undos| - 1], [left] + Kept(h))
  }

  /** The two edits say the same but for which characters they save. */
  predicate SameForm(e: Edit, f: Edit) {
    e.where == f.where && |e.saved| == |f.saved| && e.gone == f.gone
  }

  /** The slot that redo reads has another form than the record of this undo. */
  predicate Mismatched(h: History)
    requires h.undos != [] && InRange(Latest(h), h.text)
  {
    !SameForm(FormOf(h), RedoOf(h))
  }

  lemma MatchedIsLaid(h: History)
    requires h.undos != [] && InRange(Latest(h), h.text)
    ensures !Mismatched(h) ==> Laid(h) && UndoStep(h).redos == [RedoOf(h)] + Kept(h)
    ensures !Crowded(h) ==> !Mismatched(h)
  {
  }

  /** The branch of redo that its comment rules out: no room to save what the redo deletes. */
  predicate NoRoom(h: History)
    requires h.redos != []
  {
    h.redos[0].gone > 0 && Chars(h.undos) + h.redos[0].gone > CHARS - Chars(h.redos)
  }

  /** stb_text_redo */
  function RedoStep(h: History): History
    requires h.redos != [] && InRange(h.redos[0], h.text)
  {
    var r := h.redos[0];
    var u := if NoRoom(h) then Edit(r.where, [], 0) else Reverse(r, h.text);
    History(Apply(r, h.text), h.undos + [u], h.redos[1..])
  }

  // ----- What every step keeps ---------------------------------------------------------------------

  /** The undo stack leads back through the texts of past, the last of them first. */
  ghost predicate LeadsBack(undos: seq<Edit>, past: seq<Text>, text: Text) {
    && |undos| == |past|
    && (undos == [] ||
        var n := |undos| - 1;
        && InRange(undos[n], text) && Apply(undos[n], text) == past[n]
        && LeadsBack(undos[..n], past[..n], past[n]))
  }

  /** The first redo records lead on through the texts of future. */
  ghost predicate LeadsOn(redos: seq<Edit>, future: seq<Text>, text: Text) {
    future == [] ||
    (&& redos != []
     && InRange(redos[0], text) && Apply(redos[0], text) == future[0]
     && LeadsOn(redos[1..], future[1..], future[0]))
  }

  /** Each redo, when its turn comes, finds room for the characters it deletes. */
  ghost predicate Roomy(used: int, free: int, redos: seq<Edit>)
    decreases |redos|
  {
    redos == [] ||
    (used + redos[0].gone <= free && Roomy(used + redos[0].gone, free + |redos[0].saved|, redos[1..]))
  }

  /** past and future are the texts that undo and redo give back. */
  ghost predicate Good(h: History, past: seq<Text>, future: seq<Text>) {
    && Fits(h)
    && LeadsBack(h.undos, past, h.text)
    && LeadsOn(h.redos, future, h.text)
    && Roomy(Chars(h.undos), CHARS - Chars(h.redos), h.redos)
  }

  /** The undo side alone: what no undo can spoil. */
  ghost predicate PastOk(h: History, past: seq<Text>) {
    |h.undos| <= STATES && Chars(h.undos) <= CHARS && LeadsBack(h.undos, past, h.text)
  }

  lemma {:induction false} LeadsBackDrop(undos: seq<Edit>, past: seq<Text>, text: Text, d: nat)
    requires LeadsBack(undos, past, text) && d <= |undos|
    ensures LeadsBack(undos[d..], past[d..], text)
    decreases |undos|
  {
    if d < |undos| {
      var n := |undos| - 1;
      LeadsBackDrop(undos[..n], past[..n], past[n], d);
      assert undos[d..][..n - d] == undos[..n][d..];
      assert past[d..][..n - d] == past[..n][d..];
    }
  }

  lemma {:induction false} LeadsBackPush(undos: seq<Edit>, past: seq<Text>, text: Text, u: Edit, t: Text)
    requires LeadsBack(undos, past, text) && InRange(u, t) && Apply(u, t) == text
    ensures LeadsBack(undos + [u], past + [text], t)
  {
  }

  lemma {:induction false} MakeKeepsSome(h: History, e: Edit, past: seq<Text>, d: nat)
    requires InRange(e, h.text) && LeadsBack(h.undos, past, h.text) && d <= |h.undos|
    requires Make(h, e).undos == h.undos[d..] + [Reverse(e, h.text)]
    requires Storable(h.undos[d..], Reverse(e, h.text))
    ensures LeadsBack(Make(h, e).undos, past[d..] + [h.text], Make(h, e).text) && Fits(Make(h, e))
  {
    var r := Reverse(e, h.text);
    ReverseTakesBack(e, h.text);
    LeadsBackDrop(h.undos, past, h.text, d);
    LeadsBackPush(h.undos[d..], past[d..], h.text, r, Apply(e, h.text));
    CharsSplit(h.undos[d..], [r]);
    CharsOne(r);
  }

  /** A recorded edit can be undone, and everything older that was kept can be undone after it. */
  lemma MakeKeeps(h: History, e: Edit, past: seq<Text>) returns (d: nat, past': seq<Text>)
    requires PastOk(h, past) && InRange(e, h.text)
    ensures Good(Make(h, e), past', []) && Make(h, e).text == Apply(e, h.text)
    ensures d <= |past| == |h.undos|
    ensures past' == if e.gone > CHARS then [] else past[d..] + [h.text]
    ensures e.gone <= CHARS ==>
              forall c :: 0 <= c < d ==> !Storable(h.undos[c..], Reverse(e, h.text))
  {
    d := RecordedKeeps(h.undos, Reverse(e, h.text));
    past' := if e.gone > CHARS then [] else past[d..] + [h.text];
    if e.gone <= CHARS {
      MakeKeepsSome(h, e, past, d);
    }
  }

  /** The past is the last of all the texts there have been, as many as there are records. */
  lemma MakePast(h: History, e: Edit, past: seq<Text>) returns (past': seq<Text>)
    requires PastOk(h, past) && InRange(e, h.text)
    ensures Good(Make(h, e), past', []) && PastOk(Make(h, e), past') && Make(h, e).text == Apply(e, h.text)
    ensures past' == Last(past + [h.text], |Make(h, e).undos|)
    ensures e.gone <= CHARS ==> past' != [] && past'[|past'| - 1] == h.text
  {
    var d;
    d, past' := MakeKeeps(h, e, past);
    LastPushed(past, h.text, d);
  }

  lemma LastPushed(past: seq<Text>, t: Text, d: nat)
    requires d <= |past|
    ensures Last(past + [t], |past[d..] + [t]|) == past[d..] + [t]
    ensures Last(past + [t], 0) == []
  {
    var all := past + [t];
    assert all[d..] == past[d..] + [t];
    LastIs(all, d);
    LastIs(all, |all|);
  }

  lemma {:induction false} RoomyPrefix(used: int, free: int, free': int, redos: seq<Edit>, k: nat)
    requires Roomy(used, free, redos) && free <= free' && k <= |redos|
    ensures Roomy(used, free', redos[..k])
    decreases k
  {
    if k > 0 {
      RoomyPrefix(used + redos[0].gone, free + |redos[0].saved|, free' + |redos[0].saved|, redos[1..], k - 1);
      assert redos[..k][1..] == redos[1..][..k - 1];
    }
  }

  /** The texts that are left to redo when only k redo records are. */
  function AtMost(future: seq<Text>, k: nat): seq<Text> {
    if k < |future| then future[..k] else future
  }

  lemma {:induction false} LeadsOnPrefix(redos: seq<Edit>, future: seq<Text>, text: Text, k: nat)
    requires LeadsOn(redos, future, text) && k <= |redos|
    ensures LeadsOn(redos[..k], AtMost(future, k), text)
    decreases k
  {
    if k > 0 && future != [] {
      LeadsOnPrefix(redos[1..], future[1..], future[0], k - 1);
      assert redos[..k][1..] == redos[1..][..k - 1];
      assert AtMost(future, k)[1..] == AtMost(future[1..], k - 1);
    }
  }

  /** What is left of the redo stack still fits and leads on. */
  lemma KeptGood(h: History, past: seq<Text>, future: seq<Text>)
    requires Good(h, past, future) && h.undos != []
    ensures var kept := Kept(h);
            && |kept| <= |h.redos| && Chars(kept) <= Chars(h.redos)
            && LeadsOn(kept, AtMost(future, |kept|), h.text)
            && Roomy(Chars(h.undos), CHARS - Chars(kept), kept)
            && (!Lossy(h) ==> Chars(h.undos) + Latest(h).gone <= CHARS - Chars(kept))
  {
    if Crowded(h) {
      var room := CHARS - Chars(h.undos) - Latest(h).gone;
      var k := ShedKeeps(h.redos, room);
      RoomyPrefix(Chars(h.undos), CHARS - Chars(h.redos), CHARS - Chars(h.redos[..k]), h.redos, k);
      LeadsOnPrefix(h.redos, future, h.text, k);
    } else {
      LeadsOnPrefix(h.redos, future, h.text, |h.redos|);
      assert h.redos[..|h.redos|] == h.redos;
    }
  }

  /** The texts to redo after an undo */
  ghost function NextFuture(h: History, future: seq<Text>): seq<Text>
    requires h.undos != [] && InRange(Latest(h), h.text)
  {
    if Lossy(h) then [Apply(RedoOf(h), UndoStep(h).text)] else [h.text] + AtMost(future, |Kept(h)|)
  }

  /**
    An undo gives back the last text of the past, whatever its redo record can save; and unless it is
    Mismatched, both stacks stay true.
   */
  lemma UndoKeeps(h: History, past: seq<Text>, future: seq<Text>)
    requires Good(h, past, future) && h.undos != []
    ensures CanUndo(h) && UndoStep(h).text == past[|past| - 1]
    ensures !Mismatched(h) ==> Good(UndoStep(h), past[..|past| - 1], NextFuture(h, future))
  {
    if !Mismatched(h) {
      KeptGood(h, past, future);
      UndoKeepsRedos(h, past, future);
      CharsLast(h.undos);
    }
  }

  lemma UndoKeepsRedos(h: History, past: seq<Text>, future: seq<Text>)
    requires h.undos != [] && InRange(Latest(h), h.text) && !Mismatched(h)
    requires Chars(h.undos) <= CHARS
    requires var kept := Kept(h);
             && LeadsOn(kept, AtMost(future, |kept|), h.text)
             && Roomy(Chars(h.undos), CHARS - Chars(kept), kept)
             && (!Lossy(h) ==> Chars(h.undos) + Latest(h).gone <= CHARS - Chars(kept))
             && Chars(h.undos) + Chars(kept) <= CHARS
    ensures var h' := UndoStep(h);
            && LeadsOn(h'.redos, NextFuture(h, future), h'.text)
            && Roomy(Chars(h'.undos), CHARS - Chars(h'.redos), h'.redos)
            && Chars(h'.undos) + Chars(h'.redos) <= CHARS
  {
    var u, r, kept := Latest(h), RedoOf(h), Kept(h);
    ReverseTakesBack(u, h.text);
    CharsLast(h.undos);
    var redos := [r] + kept;
    assert redos[1..] == kept;
    CharsCons(r, kept);
    assert CHARS - Chars(redos) + |r.saved| == CHARS - Chars(kept);
    if !Lossy(h) {
      assert ([h.text] + AtMost(future, |kept|))[1..] == AtMost(future, |kept|);
    }
  }

  /** All but the first of them */
  function Rest(future: seq<Text>): seq<Text> {
    if future == [] then [] else future[1..]
  }

  /**
    A redo finds room for what it deletes, gives back the next text of the future, if that is known,
    and keeps both stacks true.
   */
  lemma RedoKeeps(h: History, past: seq<Text>, future: seq<Text>)
    requires Good(h, past, future) && CanRedo(h)
    ensures !NoRoom(h) && (future != [] ==> RedoStep(h).text == future[0])
    ensures Good(RedoStep(h), past + [h.text], Rest(future))
  {
    var r, h' := h.redos[0], RedoStep(h);
    ReverseTakesBack(r, h.text);
    var u := Reverse(r, h.text);
    LeadsBackPush(h.undos, past, h.text, u, h'.text);
    CharsSplit(h.undos, [u]);
    CharsOne(u);
    CharsFirst(h.redos);
  }

  // ----- Runs --------------------------------------------------------------------------------------

  datatype Op = Do(e: Edit) | TakeBack | Again

  /**
    What can be relied on: both stacks; or the undo stack, and the layout of the store; or the undo stack
    alone, until the next edit clears the redo side.
   */
  datatype Standing = Both | Layout | UndoOnly

  /** A history together with the texts that undo and redo are to give back. */
  datatype Session = Session(h: History, past: seq<Text>, future: seq<Text>, standing: Standing)

  /** What is carried out is inside the text, and the store is laid out where it is used. */
  ghost predicate Allowed(s: Session, op: Op) {
    match op
    case Do(e) => InRange(e, s.h.text)
    case TakeBack => CanUndo(s.h) && !s.standing.UndoOnly?
    case Again => CanRedo(s.h) && !s.standing.UndoOnly? && (s.standing.Layout? ==> !NoRoom(s.h))
  }

  /** The last n texts of all */
  function Last(all: seq<Text>, n: nat): seq<Text>
    decreases |all|
  {
    if |all| <= n then all else Last(all[1..], n)
  }

  lemma {:induction false} LastIs(all: seq<Text>, d: nat)
    requires d <= |all|
    ensures Last(all, |all| - d) == all[d..]
    decreases |all|
  {
    if d > 0 {
      LastIs(all[1..], d - 1);
      assert all[1..][d - 1..] == all[d..];
    } else {
      assert all[0..] == all;
    }
  }

  function AfterUndo(s: Session): Standing
    requires s.h.undos != [] && InRange(Latest(s.h), s.h.text)
  {
    if !Laid(s.h) then UndoOnly else if Mismatched(s.h) then Layout else s.standing
  }

  ghost function Step(s: Session, op: Op): Session
    requires Allowed(s, op)
  {
    match op
    case Do(e) =>
      var h := Make(s.h, e);
      Session(h, Last(s.past + [s.h.text], |h.undos|), [], Both)
    case TakeBack =>
      Session(UndoStep(s.h), if s.past == [] then [] else s.past[..|s.past| - 1],
              if AfterUndo(s).Both? then NextFuture(s.h, s.future) else [], AfterUndo(s))
    case Again =>
      Session(RedoStep(s.h), s.past + [s.h.text], Rest(s.future), s.standing)
  }

  /** The past is true in any case, and the rest as far as the session stands. */
  ghost predicate SessionOk(s: Session) {
    && PastOk(s.h, s.past)
    && match s.standing
       case Both => Good(s.h, s.past, s.future)
       case Layout => Fits(s.h) && s.future == []
       case UndoOnly => s.future == []
  }

  lemma {:induction false} UndoLeadsBack(h: History, past: seq<Text>)
    requires LeadsBack(h.undos, past, h.text) && h.undos != []
    ensures CanUndo(h) && UndoStep(h).text == past[|past| - 1]
    ensures LeadsBack(UndoStep(h).undos, past[..|past| - 1], UndoStep(h).text)
    ensures |UndoStep(h).undos| == |past| - 1
  {
  }

  /** Every undo keeps the past true, whatever it leaves for redo. */
  lemma UndoPastOk(h: History, past: seq<Text>)
    requires PastOk(h, past) && h.undos != []
    ensures CanUndo(h) && UndoStep(h).text == past[|past| - 1]
    ensures PastOk(UndoStep(h), past[..|past| - 1])
  {
    UndoLeadsBack(h, past);
    CharsLast(h.undos);
  }

  /** So does every redo with room for its undo record. */
  lemma RedoPastOk(h: History, past: seq<Text>)
    requires PastOk(h, past) && Fits(h) && CanRedo(h) && !NoRoom(h)
    ensures PastOk(RedoStep(h), past + [h.text]) && Fits(RedoStep(h))
  {
    var r := h.redos[0];
    ReverseTakesBack(r, h.text);
    var u := Reverse(r, h.text);
    LeadsBackPush(h.undos, past, h.text, u, RedoStep(h).text);
    CharsSplit(h.undos, [u]);
    CharsOne(u);
    CharsFirst(h.redos);
  }

  /** Whatever the session stands at, an edit that is recorded restores both stacks. */
  lemma MakeOk(s: Session, e: Edit)
    requires PastOk(s.h, s.past) && InRange(e, s.h.text)
    ensures SessionOk(Step(s, Do(e))) && Step(s, Do(e)).standing.Both?
    ensures Step(s, Do(e)).h.text == Apply(e, s.h.text)
  {
    var past' := MakePast(s.h, e, s.past);
    assert Step(s, Do(e)).past == past';
  }

  lemma UndoOk(s: Session)
    requires SessionOk(s) && Allowed(s, TakeBack)
    ensures SessionOk(Step(s, TakeBack))
    ensures Laid(s.h) ==> !Step(s, TakeBack).standing.UndoOnly?
    ensures s.standing.Both? && !Mismatched(s.h) ==>
              var q := Step(s, TakeBack);
              q.standing.Both? && q.future != [] && (!Lossy(s.h) ==> q.future[0] == s.h.text)
  {
    UndoPastOk(s.h, s.past);
    MatchedIsLaid(s.h);
    if s.standing.Both? {
      UndoKeeps(s.h, s.past, s.future);
    }
    if AfterUndo(s).Layout? {
      UndoFits(s.h);
    }
  }

  lemma RedoOk(s: Session)
    requires SessionOk(s) && Allowed(s, Again)
    ensures SessionOk(Step(s, Again)) && Step(s, Again).standing == s.standing
    ensures s.future != [] ==> Step(s, Again).h.text == s.future[0]
  {
    if s.standing.Both? {
      RedoKeeps(s.h, s.past, s.future);
      GoodPast(Step(s, Again).h, Step(s, Again).past, Step(s, Again).future);
    } else {
      RedoPastOk(s.h, s.past);
    }
  }

  lemma GoodPast(h: History, past: seq<Text>, future: seq<Text>)
    requires Good(h, past, future)
    ensures PastOk(h, past)
  {
  }

  lemma StepOk(s: Session, op: Op)
    requires SessionOk(s) && Allowed(s, op)
    ensures SessionOk(Step(s, op))
  {
    match op
    case Do(e) => MakeOk(s, e);
    case TakeBack => UndoOk(s);
    case Again => RedoOk(s);
  }

  ghost predicate AllowedRun(s: Session, ops: seq<Op>)
    decreases |ops|
  {
    ops == [] || (Allowed(s, ops[0]) && AllowedRun(Step(s, ops[0]), ops[1..]))
  }

  ghost function RunOps(s: Session, ops: seq<Op>): Session
    requires AllowedRun(s, ops)
    decreases |ops|
  {
    if ops == [] then s else RunOps(Step(s, ops[0]), ops[1..])
  }

  /** stb_textedit_clear_state, with the text that is there */
  function Cleared(t: Text): Session {
    Session(History(t, [], []), [], [], Both)
  }

  /** Undo gives back the text it should, and redo, unless a Mismatched undo came before it, finds room. */
  ghost predicate Promised(s: Session) {
    && SessionOk(s)
    && (s.standing.Both? && CanRedo(s.h) ==> !NoRoom(s.h))
    && (s.h.undos != [] ==> CanUndo(s.h) && UndoStep(s.h).text == s.past[|s.past| - 1])
  }

  /**
    Every run of edits, undos and redos keeps the past true: each undo gives back the text it should.
    As long as no undo since the last edit was Mismatched, both stacks stay true, and redo never takes its
    branch without room; after one that was, the next edit restores that.
   */
  lemma {:induction false} RunOk(s: Session, ops: seq<Op>)
    requires SessionOk(s) && AllowedRun(s, ops)
    ensures Promised(RunOps(s, ops))
    decreases |ops|
  {
    if ops == [] {
      OkPromised(s);
    } else {
      StepOk(s, ops[0]);
      RunOk(Step(s, ops[0]), ops[1..]);
    }
  }

  lemma OkPromised(s: Session)
    requires SessionOk(s)
    ensures Promised(s)
  {
    if s.standing.Both? && CanRedo(s.h) {
      RedoKeeps(s.h, s.past, s.future);
    }
    if s.h.undos != [] {
      UndoPastOk(s.h, s.past);
    }
  }

  // ----- Undo replays history ----------------------------------------------------------------------

  /** m undos can follow each other: all before the last leave the store laid out. */
  ghost predicate Undoable(h: History, m: nat)
    decreases m
  {
    m == 0 || (CanUndo(h) && (m > 1 ==> Laid(h)) && Undoable(UndoStep(h), m - 1))
  }

  ghost function UndoN(h: History, m: nat): History
    requires Undoable(h, m)
    decreases m
  {
    if m == 0 then h else UndoN(UndoStep(h), m - 1)
  }

  lemma {:induction false} UndoNStep(h: History, m: nat)
    requires Undoable(h, m) && m > 0
    ensures CanUndo(h) && Undoable(UndoStep(h), m - 1) && UndoN(h, m) == UndoN(UndoStep(h), m - 1)
  {
  }

  /** m undos give back the text from m recorded edits earlier. */
  lemma {:induction false} UndoReplays(h: History, past: seq<Text>, m: nat)
    requires LeadsBack(h.undos, past, h.text) && m <= |past| && Undoable(h, m)
    ensures UndoN(h, m).text == if m == 0 then h.text else past[|past| - m]
    decreases m, 0
  {
    if m > 0 {
      UndoNStep(h, m);
      UndoLeadsBack(h, past);
      UndoReplaysOn(UndoStep(h), past[..|past| - 1], past, m);
    }
  }

  /** The same from one undo further on. */
  lemma {:induction false} UndoReplaysOn(h': History, past': seq<Text>, past: seq<Text>, m: nat)
    requires LeadsBack(h'.undos, past', h'.text) && 0 < m <= |past| && past' == past[..|past| - 1]
    requires h'.text == past[|past| - 1] && Undoable(h', m - 1)
    ensures UndoN(h', m - 1).text == past[|past| - m]
    decreases m - 1, 1
  {
    UndoReplays(h', past', m - 1);
  }

  /** The texts before each of a run of edits. */
  ghost function Befores(t: Text, es: seq<Edit>): seq<Text>
    requires EditsInRange(t, es)
    decreases |es|
  {
    if es == [] then [] else [t] + Befores(Apply(es[0], t), es[1..])
  }

  ghost predicate EditsInRange(t: Text, es: seq<Edit>)
    decreases |es|
  {
    es == [] || (InRange(es[0], t) && EditsInRange(Apply(es[0], t), es[1..]))
  }

  ghost function MakeAll(h: History, es: seq<Edit>): History
    requires EditsInRange(h.text, es)
    decreases |es|
  {
    if es == [] then h else MakeAll(Make(h, es[0]), es[1..])
  }

  ghost predicate IsEnd(part: seq<Text>, all: seq<Text>) {
    |part| <= |all| && part == all[|all| - |part|..]
  }

  lemma EndOfMore(part: seq<Text>, mid: seq<Text>, rest: seq<Text>, past: seq<Text>, t: Text)
    requires IsEnd(part, mid + rest) && IsEnd(mid, past + [t])
    ensures IsEnd(part, past + ([t] + rest))
  {
  }

  lemma {:induction false} LastIsEnd(all: seq<Text>, n: nat)
    ensures IsEnd(Last(all, n), all)
    decreases |all|
  {
    if |all| > n {
      LastIsEnd(all[1..], n);
      var m := |Last(all[1..], n)|;
      assert all[1..][|all| - 1 - m..] == all[|all| - m..];
    } else {
      assert all[0..] == all;
    }
  }

  /** After a run of edits, the past is the latest part of all the texts there have been. */
  lemma {:induction false} EditsPast(h: History, past: seq<Text>, future: seq<Text>, es: seq<Edit>)
    returns (past': seq<Text>, future': seq<Text>)
    requires Good(h, past, future) && EditsInRange(h.text, es)
    ensures Good(MakeAll(h, es), past', future')
    ensures IsEnd(past', past + Befores(h.text, es))
    decreases |es|
  {
    if es == [] {
      past', future' := past, future;
      assert past + [] == past;
    } else {
      GoodPast(h, past, future);
      var mid := MakePast(h, es[0], past);
      LastIsEnd(past + [h.text], |Make(h, es[0]).undos|);
      past', future' := EditsPast(Make(h, es[0]), mid, [], es[1..]);
      EndOfMore(past', mid, Befores(Apply(es[0], h.text), es[1..]), past, h.text);
    }
  }

  /**
    Undo replays history: after any run of recorded edits on a cleared state, m undos, for every m up
    to the number of records kept, give back exactly the text from m edits earlier.
   */
  lemma {:induction false} EditsReplay(h: History, es: seq<Edit>, last: History, all: seq<Text>, m: nat)
    requires h.undos == [] && h.redos == [] && EditsInRange(h.text, es)
    requires last == MakeAll(h, es) && all == Befores(h.text, es)
    requires 0 < m <= |last.undos| && Undoable(last, m)
    ensures m <= |all| && UndoN(last, m).text == all[|all| - m]
  {
    ClearedGood(h);
    var past, future := EditsPast(h, [], [], es);
    NothingBefore(all);
    ReplayOf(last, past, all, m);
  }

  lemma ClearedGood(h: History)
    requires h.undos == [] && h.redos == []
    ensures Good(h, [], [])
  {
  }

  lemma NothingBefore(all: seq<Text>)
    ensures [] + all == all
  {
  }

  lemma {:induction false} ReplayOf(h: History, past: seq<Text>, all: seq<Text>, m: nat)
    requires LeadsBack(h.undos, past, h.text) && IsEnd(past, all)
    requires 0 < m <= |h.undos| && Undoable(h, m)
    ensures m <= |all| && UndoN(h, m).text == all[|all| - m]
  {
    EndAt(past, all, m);
    UndoReplays(h, past, m);
  }

  lemma EndAt(part: seq<Text>, all: seq<Text>, m: nat)
    requires IsEnd(part, all) && 0 < m <= |part|
    ensures m <= |all| && part[|part| - m] == all[|all| - m]
  {
  }

  // ----- Undo, then redo -----------------------------------------------------------------------------

  /** An undo that saves what it deletes is taken back by redo, but for the redo records it discarded. */
  lemma RedoTakesBack(h: History)
    requires Fits(h) && CanUndo(h) && !Lossy(h) && !Mismatched(h)
    ensures CanRedo(UndoStep(h)) && RedoStep(UndoStep(h)) == History(h.text, h.undos, Kept(h))
  {
    var u, h' := Latest(h), UndoStep(h);
    ReverseTakesBack(u, h.text);
    CharsLast(h.undos);
    KeptFits(h);
    assert h'.redos[1..] == Kept(h);
    CharsCons(h'.redos[0], Kept(h));
    assert h'.undos + [u] == h.undos;
  }

  lemma KeptFits(h: History)
    requires Fits(h) && h.undos != []
    ensures |Kept(h)| <= |h.redos| && Chars(Kept(h)) <= Chars(h.redos)
    ensures Crowded(h) <==> |Kept(h)| < |h.redos|
    ensures !Lossy(h) ==> Chars(h.undos) + Latest(h).gone <= CHARS - Chars(Kept(h))
  {
    if Crowded(h) {
      var k := ShedKeeps(h.redos, CHARS - Chars(h.undos) - Latest(h).gone);
      assert h.redos[..|h.redos|] == h.redos;
    }
  }

  /**
    That is exactly when redo restores the whole state: the text, both stacks, and so the four points. A
    Crowded undo never does, whatever is left in the slot, because fewer redo records come back. Unless
    the undo is Mismatched, redo restores the text exactly if the undo is not Lossy.
   */
  lemma RedoTakesBackIff(h: History)
    requires Fits(h) && CanUndo(h)
    ensures CanRedo(UndoStep(h)) && RedoStep(UndoStep(h)) == h
            <==> (Latest(h).gone > 0 ==>
                    && Chars(h.undos) + Latest(h).gone < CHARS
                    && Chars(h.undos) + Latest(h).gone <= CHARS - Chars(h.redos))
    ensures !Mismatched(h) ==> CanRedo(UndoStep(h))
    ensures !Mismatched(h) ==>
              (RedoStep(UndoStep(h)).text == h.text
               <==> (Latest(h).gone > 0 ==> Chars(h.undos) + Latest(h).gone < CHARS))
  {
    KeptFits(h);
    if !Lossy(h) && !Mismatched(h) {
      RedoTakesBack(h);
    } else if Lossy(h) {
      MatchedIsLaid(h);
      LossyLosesText(h);
    } else {
      MismatchedLosesRecords(h);
    }
  }

  lemma LossyLosesText(h: History)
    requires CanUndo(h) && Lossy(h)
    ensures CanRedo(UndoStep(h)) && |RedoStep(UndoStep(h)).text| == |h.text| - Latest(h).gone
    ensures RedoStep(UndoStep(h)).text == DeleteChars(h.text, Latest(h).where, Latest(h).gone)
  {
    MatchedIsLaid(h);
    LossyRedo(Latest(h), h.text);
  }

  lemma LossyRedo(u: Edit, t: Text)
    requires InRange(u, t)
    ensures var r, t' := Edit(u.where, [], |u.saved|), Apply(u, t);
            InRange(r, t') && Apply(r, t') == DeleteChars(t, u.where, u.gone)
  {
  }

  /** The record of a redo without room does nothing when it is undone. */
  lemma NoRoomUndone(h: History)
    requires CanRedo(h) && NoRoom(h)
    ensures CanUndo(RedoStep(h)) && UndoStep(RedoStep(h)).text == RedoStep(h).text
  {
  }

  /** Of the redo records, just those stay that leave room for what the undo saves; all do if it saves nothing. */
  lemma KeptLongest(h: History) returns (k: nat)
    requires Fits(h) && h.undos != []
    ensures k <= |h.redos| && Kept(h) == h.redos[..k]
    ensures var gone := Latest(h).gone;
            if gone == 0 || Chars(h.undos) + gone >= CHARS then
              k == |h.redos|
            else
              && Chars(h.undos) + gone + Chars(h.redos[..k]) <= CHARS
              && forall j :: k < j <= |h.redos| ==> Chars(h.undos) + gone + Chars(h.redos[..j]) > CHARS
  {
    if Crowded(h) {
      k := ShedKeeps(h.redos, CHARS - Chars(h.undos) - Latest(h).gone);
    } else {
      k := |h.redos|;
      assert h.redos[..k] == h.redos;
    }
  }

  lemma MismatchedLosesRecords(h: History)
    requires Fits(h) && CanUndo(h) && Mismatched(h)
    ensures CanRedo(UndoStep(h)) ==> |RedoStep(UndoStep(h)).redos| < |h.redos|
  {
    MatchedIsLaid(h);
    KeptFits(h);
  }

  /** Where the slot's form deletes another number of characters than the undo inserted, redo loses the text too. */
  lemma MismatchedLosesText(h: History)
    requires CanUndo(h) && Crowded(h) && Laid(h) && FormOf(h).gone != |Latest(h).saved|
    ensures CanRedo(UndoStep(h)) ==> RedoStep(UndoStep(h)).text != h.text
  {
    var h' := UndoStep(h);
    if CanRedo(h') {
      assert |RedoStep(h').text| == |h'.text| + |h'.redos[0].saved| - h'.redos[0].gone;
    }
  }

  /** m undos that each save what they delete and discard no redo record. */
  ghost predicate Faithful(h: History, m: nat)
    decreases m
  {
    m == 0 || (CanUndo(h) && !Lossy(h) && !Crowded(h) && Faithful(UndoStep(h), m - 1))
  }

  lemma {:induction false} FaithfulIsUndoable(h: History, m: nat)
    requires Faithful(h, m)
    ensures Undoable(h, m)
    decreases m
  {
    if m > 0 {
      FaithfulIsUndoable(UndoStep(h), m - 1);
    }
  }

  /** m redos can follow each other, each inside the text that is there by then. */
  ghost predicate Redoable(h: History, m: nat)
    decreases m, 0
  {
    m == 0 || (Redoable(h, m - 1) && CanRedo(RedoN(h, m - 1)))
  }

  ghost function RedoN(h: History, m: nat): History
    requires Redoable(h, m)
    decreases m, 1
  {
    if m == 0 then h else RedoStep(RedoN(h, m - 1))
  }

  /**
    m such undos followed by m redos are the identity: on the text, on both stacks with their
    characters, and so on all four points of the store.
   */
  lemma {:induction false} RoundTrip(h: History, m: nat)
    requires Fits(h) && Faithful(h, m)
    ensures Undoable(h, m)
    ensures var q := UndoN(h, m); Redoable(q, m) && RedoN(q, m) == h
    decreases m
  {
    FaithfulIsUndoable(h, m);
    if m > 0 {
      UndoFits(h);
      MatchedIsLaid(h);
      RedoTakesBack(h);
      RoundTrip(UndoStep(h), m - 1);
    }
  }

  lemma UndoFits(h: History)
    requires Fits(h) && CanUndo(h)
    ensures Fits(UndoStep(h))
  {
    var h' := UndoStep(h);
    CharsLast(h.undos);
    KeptFits(h);
    assert h'.redos[1..] == Kept(h);
    CharsCons(h'.redos[0], Kept(h));
  }

  // ----- And only such undos -----------------------------------------------------------------------

  /** By how much redoing all of redos lengthens the text */
  ghost function Growth(redos: seq<Edit>): int {
    if redos == [] then 0 else |redos[0].saved| - redos[0].gone + Growth(redos[1..])
  }

  /** No redo changes the number of records, nor the length of the text with everything redone. */
  ghost function Weight(h: History): (int, int) {
    (|h.undos| + |h.redos|, |h.text| + Growth(h.redos))
  }

  lemma {:induction false} RedoNWeighs(h: History, m: nat)
    requires Redoable(h, m)
    ensures Weight(RedoN(h, m)) == Weight(h)
    decreases m
  {
    if m > 0 {
      RedoNWeighs(h, m - 1);
    }
  }

  /** An undo loses records exactly if it is Crowded, and else length exactly if it is Lossy. */
  lemma UndoWeighs(h: History)
    requires Fits(h) && CanUndo(h)
    ensures var w, w' := Weight(h), Weight(UndoStep(h));
            && w'.0 <= w.0 && (Crowded(h) <==> w'.0 < w.0)
            && (!Crowded(h) ==> w'.1 <= w.1 && (Lossy(h) <==> w'.1 < w.1))
  {
    KeptFits(h);
    var h' := UndoStep(h);
    assert h'.redos[1..] == Kept(h);
  }

  lemma {:induction false} UndoNWeighs(h: History, m: nat)
    requires Fits(h) && Undoable(h, m)
    ensures var w, w' := Weight(h), Weight(UndoN(h, m));
            w'.0 <= w.0 && (w'.0 == w.0 ==> w'.1 <= w.1 && (w'.1 == w.1 ==> Faithful(h, m)))
    decreases m
  {
    if m > 0 {
      UndoWeighs(h);
      UndoFits(h);
      UndoNWeighs(UndoStep(h), m - 1);
    }
  }

  /**
    m undos followed by m redos restore the state exactly if every one of the undos was such a one. If
    not, a redo may be out of range of the text; but even where all are in range, records or text are lost.
   */
  lemma {:induction false} RoundTripIff(h: History, m: nat)
    requires Fits(h) && Undoable(h, m)
    ensures var q := UndoN(h, m); Redoable(q, m) && RedoN(q, m) == h <==> Faithful(h, m)
  {
    if Faithful(h, m) {
      RoundTrip(h, m);
    } else {
      UndoNWeighs(h, m);
      var q := UndoN(h, m);
      if Redoable(q, m) {
        RedoNWeighs(q, m);
      }
    }
  }

  /** The same, checked on the records beforehand: the latest m edits, with `saved` characters saved for redo. */
  predicate HasRoom(undos: seq<Edit>, saved: int, m: nat)
    decreases m
  {
    m == 0 ||
    (&& undos != []
     && var n := |undos| - 1;
        var gone := undos[n].gone;
        && (gone > 0 ==> Chars(undos) + gone < CHARS && Chars(undos) + gone <= CHARS - saved)
        && HasRoom(undos[..n], saved + gone, m - 1))
  }

  /** m undos save what they delete and discard nothing exactly if the records have room for that. */
  lemma {:induction false} FaithfulIff(h: History, past: seq<Text>, m: nat)
    requires LeadsBack(h.undos, past, h.text)
    ensures Faithful(h, m) <==> HasRoom(h.undos, Chars(h.redos), m)
    decreases m
  {
    if m > 0 && h.undos != [] {
      UndoLeadsBack(h, past);
      RoomStep(h);
      if !Lossy(h) && !Crowded(h) {
        FaithfulIff(UndoStep(h), past[..|past| - 1], m - 1);
      }
    }
  }

  lemma {:induction false} RoomStep(h: History)
    requires CanUndo(h)
    ensures !Lossy(h) && !Crowded(h) <==>
              (Latest(h).gone > 0 ==>
                 && Chars(h.undos) + Latest(h).gone < CHARS
                 && Chars(h.undos) + Latest(h).gone <= CHARS - Chars(h.redos))
    ensures !Lossy(h) && !Crowded(h) ==> Chars(UndoStep(h).redos) == Chars(h.redos) + Latest(h).gone
  {
    CharsCons(UndoStep(h).redos[0], Kept(h));
  }

  lemma {:induction false} FaithfulThenOne(h: History, m: nat)
    requires Faithful(h, m) && CanUndo(UndoneAll(h, m))
    ensures Undoable(h, m + 1)
    decreases m
  {
    if m > 0 {
      FaithfulThenOne(UndoStep(h), m - 1);
    }
  }

  ghost function UndoneAll(h: History, m: nat): History
    requires Faithful(h, m)
    decreases m
  {
    if m == 0 then h else UndoneAll(UndoStep(h), m - 1)
  }

  lemma {:induction false} FaithfulLeaves(h: History, past: seq<Text>, m: nat)
    requires LeadsBack(h.undos, past, h.text) && Faithful(h, m) && m < |h.undos|
    ensures CanUndo(UndoneAll(h, m))
    decreases m
  {
    UndoLeadsBack(h, past);
    if m > 0 {
      FaithfulLeaves(UndoStep(h), past[..|past| - 1], m - 1);
    }
  }

  /** Where all but the last of m undos have room, they can follow each other. */
  lemma UndoableIfRoom(h: History, past: seq<Text>, m: nat)
    requires LeadsBack(h.undos, past, h.text) && 0 < m <= |h.undos| && HasRoom(h.undos, Chars(h.redos), m - 1)
    ensures Undoable(h, m)
  {
    FaithfulIff(h, past, m - 1);
    FaithfulLeaves(h, past, m - 1);
    FaithfulThenOne(h, m - 1);
  }

  /** m undos, then m redos, restore the state exactly if the records have room for all of them. */
  lemma RoundTripIfRoom(h: History, past: seq<Text>, m: nat)
    requires Fits(h) && LeadsBack(h.undos, past, h.text) && Undoable(h, m)
    ensures var q := UndoN(h, m);
            Redoable(q, m) && RedoN(q, m) == h <==> HasRoom(h.undos, Chars(h.redos), m)
  {
    RoundTripIff(h, m);
    FaithfulIff(h, past, m);
  }

  // ----- The undo that goes wrong ------------------------------------------------------------------

  lemma {:induction false} RunOne(s: Session, op: Op, ops: seq<Op>)
    requires Allowed(s, op) && AllowedRun(Step(s, op), ops)
    ensures AllowedRun(s, [op] + ops) && RunOps(s, [op] + ops) == RunOps(Step(s, op), ops)
  {
    assert ([op] + ops)[1..] == ops;
  }

  lemma {:induction false} RunOfThree(s: Session, a: Op, b: Op, c: Op)
    requires Allowed(s, a) && Allowed(Step(s, a), b) && Allowed(Step(Step(s, a), b), c)
    ensures AllowedRun(s, [a, b, c]) && RunOps(s, [a, b, c]) == Step(Step(Step(s, a), b), c)
  {
    var s1 := Step(s, a);
    var s2 := Step(s1, b);
    RunOne(s2, c, []);
    assert [c] + [] == [c];
    RunOne(s1, b, [c]);
    assert [b] + [c] == [b, c];
    RunOne(s, a, [b, c]);
    assert [a] + [b, c] == [a, b, c];
  }

  /** Typing behind a text, with nothing to save. */
  lemma TypedBehind(s: Session, a: Text)
    requires Chars(s.h.undos) <= CHARS && |s.h.undos| < STATES
    ensures var e := Edit(|s.h.text|, a, 0);
            Allowed(s, Do(e))
            && Step(s, Do(e)).h == History(s.h.text + a, s.h.undos + [Edit(|s.h.text|, [], |a|)], [])
  {
  }

  lemma TypingTakenBack(h: History, t: Text, b: Text, keep: seq<Edit>)
    requires h == History(t + b, keep + [Edit(|t|, [], |b|)], []) && 0 < |b| < CHARS && Chars(h.undos) == 0
    ensures CanUndo(h) && !Mismatched(h) && UndoStep(h) == History(t, keep, [Edit(|t|, b, 0)])
  {
    assert Part(t + b, |t|, |b|) == b;
    assert Apply(Latest(h), t + b) == t;
    assert h.undos[..|keep|] == keep;
  }

  lemma NothingSaved(a: nat, m: nat, b: nat, n: nat)
    ensures Chars([Edit(a, [], m)]) == 0 && Chars([Edit(a, [], m), Edit(b, [], n)]) == 0
  {
    CharsOne(Edit(a, [], m));
    CharsOne(Edit(b, [], n));
    CharsSplit([Edit(a, [], m)], [Edit(b, [], n)]);
    assert [Edit(a, [], m)] + [Edit(b, [], n)] == [Edit(a, [], m), Edit(b, [], n)];
  }

  /**
    Runs that end before a Mismatched undo: some characters typed into an empty text and more behind
    them, too many for the store together, then one undo. The next undo empties the text and leaves redo a
    record that is out of its range. The store stays laid out only if both were equally many.
   */
  lemma MismatchedReachable(a: Text, b: Text)
    requires 0 < |a| < CHARS && 0 < |b| < CHARS < |a| + |b|
    ensures var s, ops := Cleared([]), [Do(Edit(0, a, 0)), Do(Edit(|a|, b, 0)), TakeBack];
            && AllowedRun(s, ops)
            && var h := RunOps(s, ops).h;
               && CanUndo(h) && Mismatched(h) && UndoStep(h).text == [] && !CanRedo(UndoStep(h))
               && (Laid(h) <==> |a| == |b|) && |FormOf(h).saved| == |b| && Latest(h).gone == |a|
  {
    var s, e, f := Cleared([]), Do(Edit(0, a, 0)), Do(Edit(|a|, b, 0));
    NothingSaved(0, |a|, |a|, |b|);
    TypedBehind(s, a);
    var s1 := Step(s, e);
    assert s1.h.text == a && s1.h.undos == [Edit(0, [], |a|)];
    TypedBehind(s1, b);
    var s2 := Step(s1, f);
    assert s2.h.undos == s1.h.undos + [Edit(|a|, [], |b|)] == [Edit(0, [], |a|), Edit(|a|, [], |b|)];
    TypingTakenBack(s2.h, a, b, s1.h.undos);
    RunOfThree(s, e, f, TakeBack);
    LastIsMismatched(Step(s2, TakeBack).h, a, b);
  }

  lemma LastIsMismatched(h: History, a: Text, b: Text)
    requires 0 < |a| < CHARS && 0 < |b| < CHARS < |a| + |b|
    requires h == History(a, [Edit(0, [], |a|)], [Edit(|a|, b, 0)])
    ensures CanUndo(h) && Mismatched(h) && UndoStep(h).text == [] && !CanRedo(UndoStep(h))
    ensures (Laid(h) <==> |a| == |b|) && |FormOf(h).saved| == |b| && Latest(h).gone == |a|
  {
    NothingSaved(0, |a|, 0, |a|);
    assert h.redos[1..] == [];
    CharsOne(Edit(|a|, b, 0));
    assert Apply(Edit(0, [], |a|), a) == [];
  }
}
