/**
  How the two stacks of edits lie in the store: undo records from the front of the record array and
  redo records from its end, and their characters likewise in the character array.
 */
module UndoStore {
  import opened Undo

  /** StbUndoRecord */
  datatype Rec = Rec(where: int, insertLength: int, deleteLength: int, charStorage: int)

  /** r is the record of e, with its characters at off. */
  ghost predicate Holds(r: Rec, chars: Text, e: Edit, off: int) {
    && r.where == e.where && r.insertLength == |e.saved| && r.deleteLength == e.gone
    && (if e.saved == [] then r.charStorage == -1
        else r.charStorage == off && 0 <= off && off + |e.saved| <= |chars|
             && forall i :: 0 <= i < |e.saved| ==> e.saved[i] == chars[off + i])
  }

  /** The undo records stand at the front, each with its characters right behind the older ones. */
  ghost predicate UndoSide(recs: seq<Rec>, chars: Text, undos: seq<Edit>) {
    undos == [] ||
    (var n := |undos| - 1;
     n < |recs| && Holds(recs[n], chars, undos[n], Chars(undos[..n])) && UndoSide(recs, chars, undos[..n]))
  }

  /** The redo records stand at the end, each with its characters right before the older ones. */
  ghost predicate RedoSide(recs: seq<Rec>, chars: Text, redos: seq<Edit>) {
    redos == [] ||
    (&& |redos| <= |recs|
     && Holds(recs[|recs| - |redos|], chars, redos[0], |chars| - Chars(redos))
     && RedoSide(recs, chars, redos[1..]))
  }

  // ----- What each side depends on -----------------------------------------------------------------

  lemma HoldsMoved(r: Rec, chars: Text, e: Edit, off: int, r': Rec, chars': Text, off': int)
    requires Holds(r, chars, e, off)
    requires r' == r.(charStorage := if r.charStorage >= 0 then r.charStorage + (off' - off) else r.charStorage)
    requires e.saved != [] ==> 0 <= off' && off' + |e.saved| <= |chars'|
    requires e.saved != [] ==> forall c :: off' <= c < off' + |e.saved| ==> chars'[c] == chars[c - off' + off]
    ensures Holds(r', chars', e, off')
  {
  }

  lemma {:induction false} UndoSideFrame(recs: seq<Rec>, chars: Text, undos: seq<Edit>, recs': seq<Rec>, chars': Text)
    requires UndoSide(recs, chars, undos) && |undos| <= |recs| == |recs'| && |chars| == |chars'|
    requires forall i :: 0 <= i < |undos| ==> recs'[i] == recs[i]
    requires forall c :: 0 <= c < Chars(undos) && c < |chars| ==> chars'[c] == chars[c]
    ensures UndoSide(recs', chars', undos)
    decreases |undos|
  {
    if undos != [] {
      var n := |undos| - 1;
      CharsLast(undos);
      HoldsMoved(recs[n], chars, undos[n], Chars(undos[..n]), recs'[n], chars', Chars(undos[..n]));
      UndoSideFrame(recs, chars, undos[..n], recs', chars');
    }
  }

  lemma {:induction false} RedoSideFrame(recs: seq<Rec>, chars: Text, redos: seq<Edit>, recs': seq<Rec>, chars': Text)
    requires RedoSide(recs, chars, redos) && |redos| <= |recs| == |recs'| && |chars| == |chars'|
    requires forall i :: |recs| - |redos| <= i < |recs| ==> recs'[i] == recs[i]
    requires forall c :: |chars| - Chars(redos) <= c < |chars| && 0 <= c ==> chars'[c] == chars[c]
    ensures RedoSide(recs', chars', redos)
    decreases |redos|
  {
    if redos != [] {
      CharsFirst(redos);
      var off := |chars| - Chars(redos);
      HoldsMoved(recs[|recs| - |redos|], chars, redos[0], off, recs'[|recs| - |redos|], chars', off);
      RedoSideFrame(recs, chars, redos[1..], recs', chars');
    }
  }

  // ----- Discarding the oldest record ----------------------------------------------------------------

  /** r with its characters moved by d. */
  function Shifted(r: Rec, d: int): Rec {
    if r.charStorage >= 0 then r.(charStorage := r.charStorage + d) else r
  }

  /**
    The oldest undo record and its characters are gone, and all that follows has moved up: every
    surviving record still holds its own characters.
   */
  lemma {:induction false} UndoSideDrop(recs: seq<Rec>, chars: Text, first: Edit, undos: seq<Edit>,
                                        recs': seq<Rec>, chars': Text)
    requires var all := [first] + undos;
             && UndoSide(recs, chars, all) && |all| <= |recs| == |recs'| && |chars| == |chars'|
             && |first.saved| + Chars(undos) <= |chars|
    requires var n: int := |first.saved|;
             && (forall i :: 0 <= i < |undos| ==> recs'[i] == Shifted(recs[i + 1], -n))
             && (forall c :: 0 <= c < Chars(undos) ==> chars'[c] == chars[c + n])
    ensures UndoSide(recs', chars', undos)
    decreases |undos|
  {
    if undos != [] {
      var all, n, m := [first] + undos, |first.saved|, |undos| - 1;
      assert all[..m + 1] == [first] + undos[..m];
      CharsLast(undos);
      UndoSideDrop(recs, chars, first, undos[..m], recs', chars');
      CharsCons(first, undos[..m]);
      var off := Chars(undos[..m]);
      HoldsMoved(recs[m + 1], chars, undos[m], off + n, recs'[m], chars', off);
    }
  }

  /** The same at the other end: the oldest redo record is the last one. */
  lemma {:induction false} RedoSideDrop(recs: seq<Rec>, chars: Text, redos: seq<Edit>, last: Edit,
                                        recs': seq<Rec>, chars': Text)
    requires var all := redos + [last];
             && RedoSide(recs, chars, all) && |all| <= |recs| == |recs'| && |chars| == |chars'|
             && Chars(all) <= |chars|
             && (forall i :: |recs| - |redos| <= i < |recs| ==> recs'[i] == Shifted(recs[i - 1], |last.saved|))
             && (forall c :: |chars| - Chars(all) + |last.saved| <= c < |chars| ==>
                   chars'[c] == chars[c - |last.saved|])
    ensures RedoSide(recs', chars', redos)
    decreases |redos|
  {
    if redos != [] {
      var all, n := redos + [last], |last.saved|;
      assert all[1..] == redos[1..] + [last];
      CharsFirst(all);
      CharsFirst(redos);
      RedoSideDrop(recs, chars, redos[1..], last, recs', chars');
      CharsSplit(redos, [last]);
      CharsOne(last);
      var off := |chars| - Chars(all);
      HoldsMoved(recs[|recs| - |all|], chars, all[0], off, recs'[|recs| - |redos|], chars', off + n);
    }
  }

  // ----- Adding a record -----------------------------------------------------------------------------

  /** t written over s at p. */
  function Written(s: Text, p: nat, t: Text): Text
    requires p + |t| <= |s|
  {
    s[..p] + t + s[p + |t|..]
  }

  lemma WrittenAt(s: Text, p: nat, t: Text)
    requires p + |t| <= |s|
    ensures var r := Written(s, p, t);
            && |r| == |s|
            && (forall c :: 0 <= c < p ==> r[c] == s[c])
            && (forall i :: 0 <= i < |t| ==> t[i] == r[p + i])
  {
  }

  function RecOf(e: Edit, off: int): Rec {
    Rec(e.where, |e.saved|, e.gone, if e.saved == [] then -1 else off)
  }

  /** A new undo record goes behind the others, and its characters behind theirs. */
  lemma UndoSidePush(recs: seq<Rec>, chars: Text, undos: seq<Edit>, e: Edit)
    requires UndoSide(recs, chars, undos) && |undos| < |recs| && Chars(undos) + |e.saved| <= |chars|
    ensures UndoSide(recs[|undos| := RecOf(e, Chars(undos))], Written(chars, Chars(undos), e.saved), undos + [e])
  {
    var recs', chars' := recs[|undos| := RecOf(e, Chars(undos))], Written(chars, Chars(undos), e.saved);
    WrittenAt(chars, Chars(undos), e.saved);
    UndoSideFrame(recs, chars, undos, recs', chars');
    assert (undos + [e])[..|undos|] == undos;
  }

  /** r is the record of u, with its characters still standing behind those of the older records. */
  ghost predicate Readable(recs: seq<Rec>, chars: Text, keep: seq<Edit>, r: Rec, u: Edit) {
    UndoSide(recs, chars, keep) && Holds(r, chars, u, Chars(keep))
  }

  lemma {:induction false} TopReadable(recs: seq<Rec>, chars: Text, keep: seq<Edit>, u: Edit)
    requires UndoSide(recs, chars, keep + [u])
    ensures |keep| < |recs| && Readable(recs, chars, keep, recs[|keep|], u)
    ensures Chars(keep + [u]) == Chars(keep) + |u.saved|
  {
    var all := keep + [u];
    assert all[..|keep|] == keep;
    CharsLast(all);
  }

  lemma StaysHeld(r: Rec, chars: Text, u: Edit, off: int, chars': Text)
    requires Holds(r, chars, u, off) && |chars| == |chars'|
    requires forall c :: 0 <= c < off + |u.saved| && c < |chars| ==> chars'[c] == chars[c]
    ensures Holds(r, chars', u, off)
  {
  }

  /** Writes behind the characters of the top record, to no older record, leave it readable. */
  lemma {:induction false} StaysReadable(recs: seq<Rec>, chars: Text, keep: seq<Edit>, r: Rec, u: Edit,
                                         recs': seq<Rec>, chars': Text)
    requires Readable(recs, chars, keep, r, u) && |keep| < |recs| == |recs'| && |chars| == |chars'|
    requires forall i :: 0 <= i < |keep| ==> recs'[i] == recs[i]
    requires forall c :: 0 <= c < Chars(keep) + |u.saved| && c < |chars| ==> chars'[c] == chars[c]
    ensures Readable(recs', chars', keep, r, u)
  {
    StaysHeld(r, chars, u, Chars(keep), chars');
    UndoSideFrame(recs, chars, keep, recs', chars');
  }

  /** r is the record of the edit to redo first, with its characters still standing in front of the others. */
  ghost predicate NextReadable(recs: seq<Rec>, chars: Text, first: Edit, r: Rec, rest: seq<Edit>) {
    RedoSide(recs, chars, rest) && Holds(r, chars, first, |chars| - Chars(rest) - |first.saved|)
  }

  lemma {:induction false} NextIsReadable(recs: seq<Rec>, chars: Text, first: Edit, rest: seq<Edit>)
    requires RedoSide(recs, chars, [first] + rest)
    ensures |rest| < |recs| && NextReadable(recs, chars, first, recs[|recs| - |rest| - 1], rest)
    ensures Chars([first] + rest) == |first.saved| + Chars(rest)
  {
    CharsCons(first, rest);
    assert ([first] + rest)[1..] == rest;
  }

  lemma {:induction false} NextStaysReadable(recs: seq<Rec>, chars: Text, first: Edit, r: Rec, rest: seq<Edit>,
                                             recs': seq<Rec>, chars': Text)
    requires NextReadable(recs, chars, first, r, rest) && |rest| <= |recs| == |recs'| && |chars| == |chars'|
    requires forall i :: |recs| - |rest| <= i < |recs| ==> recs'[i] == recs[i]
    requires forall c :: |chars| - Chars(rest) - |first.saved| <= c < |chars| && 0 <= c ==> chars'[c] == chars[c]
    ensures NextReadable(recs', chars', first, r, rest)
  {
    RedoSideFrame(recs, chars, rest, recs', chars');
    var off := |chars| - Chars(rest) - |first.saved|;
    HoldsMoved(r, chars, first, off, r, chars', off);
  }

  // ----- What discarding does to the point -----------------------------------------------------------

  /** How many characters go with r when it is discarded */
  function Claims(r: Rec): int {
    if r.charStorage >= 0 then r.insertLength else 0
  }

  /** Where redo_char_point, now at `point`, is once the n oldest redo records are discarded */
  function PointAfter(recs: seq<Rec>, point: int, n: nat): int
    requires n <= |recs|
  {
    if n == 0 then point else PointAfter(recs, point, n - 1) + Claims(recs[|recs| - n])
  }

  lemma {:induction false} PointAfterIs(recs: seq<Rec>, chars: Text, redos: seq<Edit>, point: int, n: nat)
    requires RedoSide(recs, chars, redos) && n <= |redos| <= |recs|
    ensures PointAfter(recs, point, n) == point + Chars(redos[|redos| - n..]) <= point + Chars(redos)
    decreases |redos|
  {
    if redos != [] {
      CharsFirst(redos);
    }
    if n < |redos| {
      PointAfterIs(recs, chars, redos[1..], point, n);
      assert redos[1..][|redos| - 1 - n..] == redos[|redos| - n..];
    } else if n > 0 {
      PointAfterIs(recs, chars, redos[1..], point, n - 1);
      AllClaimed(recs, chars, redos, point);
    }
  }

  lemma {:induction false} AllClaimed(recs: seq<Rec>, chars: Text, redos: seq<Edit>, point: int)
    requires RedoSide(recs, chars, redos) && redos != [] && |redos| <= |recs|
    requires PointAfter(recs, point, |redos| - 1) == point + Chars(redos[1..][0..])
    ensures PointAfter(recs, point, |redos|) == point + Chars(redos[0..])
  {
    CharsFirst(redos);
    assert redos[1..][0..] == redos[1..] && redos[0..] == redos;
  }

  /**
    A record stands in front of the others, with `stored` characters of its own behind point. No number
    of discards takes the point out of the array, exactly if the record claims no more than those.
   */
  lemma {:induction false} PointInsideIff(recs: seq<Rec>, chars: Text, kept: seq<Edit>, point: int, stored: nat)
    requires RedoSide(recs, chars, kept) && |kept| < |recs| && point == |chars| - Chars(kept) - stored
    requires Claims(recs[|recs| - |kept| - 1]) >= 0
    ensures (forall n :: 0 <= n <= |kept| + 1 ==> PointAfter(recs, point, n) <= |chars|)
            <==> Claims(recs[|recs| - |kept| - 1]) <= stored
  {
    var all := |kept| + 1;
    PointAfterIs(recs, chars, kept, point, |kept|);
    assert kept[0..] == kept;
    assert PointAfter(recs, point, all) == |chars| - stored + Claims(recs[|recs| - all]);
    if Claims(recs[|recs| - all]) <= stored {
      forall n | 0 <= n <= all ensures PointAfter(recs, point, n) <= |chars| {
        if n < all {
          PointAfterIs(recs, chars, kept, point, n);
        }
      }
    } else {
      var last := PointAfter(recs, point, all);
      assert 0 <= all <= |kept| + 1 && last > |chars|;
    }
  }
}
