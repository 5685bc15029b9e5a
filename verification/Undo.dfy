/**
  The undo and redo history of the text editor as two stacks of edits, with the limits of its store:
  at most STATES records and CHARS saved characters in all.
 */
module Undo {

  type Text = seq<int>

  const STATES := 99  // IMSTB_TEXTEDIT_UNDOSTATECOUNT
  const CHARS := 999  // IMSTB_TEXTEDIT_UNDOCHARCOUNT

  /** Carrying out an edit puts `saved` at `where` in the place of `gone` characters. */
  datatype Edit = Edit(where: nat, saved: Text, gone: nat)

  predicate InRange(e: Edit, t: Text) {
    e.where + e.gone <= |t|
  }

  /** t with a in the place of the n characters at `at` */
  function Spliced(t: Text, at: nat, n: nat, a: Text): Text
    requires at + n <= |t|
  {
    seq(|t| - n + |a|, i requires 0 <= i < |t| - n + |a| =>
      if i < at then t[i] else if i < at + |a| then a[i - at] else t[i - |a| + n])
  }

  lemma SplicedIs(t: Text, at: nat, n: nat, a: Text)
    requires at + n <= |t|
    ensures Spliced(t, at, n, a) == t[..at] + a + t[at + n..]
  {
  }

  /** The n characters of t at `at` */
  function Part(t: Text, at: nat, n: nat): Text
    requires at + n <= |t|
  {
    seq(n, i requires 0 <= i < n => t[at + i])
  }

  function Apply(e: Edit, t: Text): Text
    requires InRange(e, t)
  {
    Spliced(t, e.where, e.gone, e.saved)
  }

  /** STB_TEXTEDIT_DELETECHARS */
  function DeleteChars(t: Text, where: nat, len: nat): Text
    requires where + len <= |t|
  {
    Spliced(t, where, len, [])
  }

  /** STB_TEXTEDIT_INSERTCHARS, when it succeeds */
  function InsertChars(t: Text, where: nat, s: Text): Text
    requires where <= |t|
  {
    Spliced(t, where, 0, s)
  }

  /** What an edit, a deletion and an insertion leave, in slices */
  lemma EditsAre(e: Edit, t: Text)
    requires InRange(e, t)
    ensures Apply(e, t) == t[..e.where] + e.saved + t[e.where + e.gone..]
    ensures DeleteChars(t, e.where, e.gone) == t[..e.where] + t[e.where + e.gone..]
    ensures InsertChars(t, e.where, e.saved) == t[..e.where] + e.saved + t[e.where..]
    ensures Part(t, e.where, e.gone) == t[e.where..e.where + e.gone]
  {
    SplicedIs(t, e.where, e.gone, e.saved);
    SplicedIs(t, e.where, e.gone, []);
    SplicedIs(t, e.where, 0, e.saved);
  }

  /** A deletion and an insertion at one place are one edit. */
  lemma DeleteInsert(t: Text, at: nat, n: nat, a: Text)
    requires at + n <= |t|
    ensures at <= |DeleteChars(t, at, n)| && InsertChars(DeleteChars(t, at, n), at, a) == Spliced(t, at, n, a)
  {
  }

  /** The edit that takes back e, which is about to be carried out on t. */
  function Reverse(e: Edit, t: Text): Edit
    requires InRange(e, t)
  {
    Edit(e.where, Part(t, e.where, e.gone), |e.saved|)
  }

  lemma ReverseTakesBack(e: Edit, t: Text)
    requires InRange(e, t)
    ensures var r, t' := Reverse(e, t), Apply(e, t);
            InRange(r, t') && Apply(r, t') == t && Reverse(r, t') == e
  {
    var r, t' := Reverse(e, t), Apply(e, t);
    assert Apply(r, t') == t;
    assert Part(t', e.where, |e.saved|) == e.saved;
  }

  // ----- The store -------------------------------------------------------------------------------

  /** The number of characters that a stack of edits saves. */
  function Chars(es: seq<Edit>): nat
    decreases |es|
  {
    if es == [] then 0 else Chars(es[..|es| - 1]) + |es[|es| - 1].saved|
  }

  lemma {:induction false} CharsSplit(a: seq<Edit>, b: seq<Edit>)
    ensures Chars(a + b) == Chars(a) + Chars(b)
    decreases |b|
  {
    if b == [] {
      assert a + b == a;
    } else {
      assert (a + b)[..|a + b| - 1] == a + b[..|b| - 1];
      CharsSplit(a, b[..|b| - 1]);
    }
  }

  lemma CharsOne(e: Edit)
    ensures Chars([e]) == |e.saved|
  {
    assert [e][..0] == [];
  }


  lemma CharsLast(es: seq<Edit>)
    requires es != []
    ensures Chars(es) == Chars(es[..|es| - 1]) + |es[|es| - 1].saved|
  {
  }

  lemma CharsCons(e: Edit, es: seq<Edit>)
    ensures Chars([e] + es) == |e.saved| + Chars(es)
  {
    CharsOne(e);
    CharsSplit([e], es);
  }

  lemma CharsFirst(es: seq<Edit>)
    requires es != []
    ensures Chars(es) == |es[0].saved| + Chars(es[1..])
  {
    assert es == [es[0]] + es[1..];
    CharsCons(es[0], es[1..]);
  }

  /** undos holds the oldest edit first, redos the next one to redo first. */
  datatype History = History(text: Text, undos: seq<Edit>, redos: seq<Edit>)

  ghost predicate Fits(h: History) {
    && |h.undos| + |h.redos| <= STATES
    && Chars(h.undos) + Chars(h.redos) <= CHARS
  }

  /** The oldest edits go until n more characters fit. */
  function Trimmed(undos: seq<Edit>, n: nat): seq<Edit>
  {
    if Chars(undos) + n <= CHARS || undos == [] then undos else Trimmed(undos[1..], n)
  }

  /** The undo stack once e has been recorded (stb_text_createundo); one too large to store empties it. */
  function Recorded(undos: seq<Edit>, e: Edit): seq<Edit> {
    var us := if |undos| == STATES then undos[1..] else undos;
    if |e.saved| > CHARS then [] else Trimmed(us, |e.saved|) + [e]
  }

  /** The oldest redo records, which are the last ones, go until the characters of the others fit in room. */
  function Shed(redos: seq<Edit>, room: int): seq<Edit>
    decreases |redos|
  {
    if Chars(redos) <= room || redos == [] then redos else Shed(redos[..|redos| - 1], room)
  }

  /** No more of them go than needed. */
  lemma {:induction false} ShedKeeps(redos: seq<Edit>, room: int) returns (k: nat)
    requires 0 <= room
    ensures k <= |redos| && Shed(redos, room) == redos[..k] && Chars(redos[..k]) <= room
    ensures forall j :: k < j <= |redos| ==> Chars(redos[..j]) > room
    decreases |redos|
  {
    if Chars(redos) <= room || redos == [] {
      k := |redos|;
      assert redos[..k] == redos;
    } else {
      k := ShedKeeps(redos[..|redos| - 1], room);
      assert forall j :: 0 <= j < |redos| ==> redos[..j] == redos[..|redos| - 1][..j];
      assert redos[..|redos|] == redos;
    }
  }

  /** e can be recorded behind undos without losing any of them. */
  ghost predicate Storable(undos: seq<Edit>, e: Edit) {
    |undos| + 1 <= STATES && Chars(undos) + |e.saved| <= CHARS
  }

  lemma {:induction false} TrimmedDrops(undos: seq<Edit>, n: nat) returns (d: nat)
    requires n <= CHARS
    ensures d <= |undos| && Trimmed(undos, n) == undos[d..] && Chars(undos[d..]) + n <= CHARS
    ensures forall c :: 0 <= c < d ==> Chars(undos[c..]) + n > CHARS
  {
    if Chars(undos) + n <= CHARS || undos == [] {
      d := 0;
      assert undos[0..] == undos;
    } else {
      var c := TrimmedDrops(undos[1..], n);
      d := c + 1;
      assert forall i :: 1 <= i <= |undos| ==> undos[i..] == undos[1..][i - 1..];
      assert undos[0..] == undos;
    }
  }

  /**
    History is lost only from its oldest end, and no more of it than needed: the new edit goes behind
    the longest run of latest edits that leaves it room; or all of it, for an edit too large to store.
   */
  lemma RecordedKeeps(undos: seq<Edit>, e: Edit) returns (d: nat)
    requires |undos| <= STATES
    ensures d <= |undos|
    ensures Recorded(undos, e) == if |e.saved| > CHARS then [] else undos[d..] + [e]
    ensures |e.saved| <= CHARS ==>
              Storable(undos[d..], e) && forall c :: 0 <= c < d ==> !Storable(undos[c..], e)
  {
    if |e.saved| > CHARS {
      d := 0;
    } else if |undos| == STATES {
      var c := TrimmedDrops(undos[1..], |e.saved|);
      d := c + 1;
      assert forall i :: 1 <= i <= |undos| ==> undos[i..] == undos[1..][i - 1..];
    } else {
      d := TrimmedDrops(undos, |e.saved|);
    }
  }
}
