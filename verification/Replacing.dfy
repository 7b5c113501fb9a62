/** Search and replace in `stringx.h`: `str_replace`, `str_index_of` and `get_until`. */
module Replacing {
  import opened CStrings

  predicate OccursAt<T(==)>(h: seq<T>, n: seq<T>, i: int) {
    0 <= i && i + |n| <= |h| && h[i..i + |n|] == n
  }

  /** `strstr(h + from, n)` as an index into `h`; -1 for NULL. */
  function Find<T(==)>(h: seq<T>, n: seq<T>, from: nat): (p: int)
    ensures if p == -1 then forall i :: from <= i ==> !OccursAt(h, n, i)
            else from <= p && OccursAt(h, n, p) && forall i :: from <= i < p ==> !OccursAt(h, n, i)
    decreases |h| - from
  {
    if from + |n| > |h| then -1
    else if OccursAt(h, n, from) then from
    else Find(h, n, from + 1)
  }

  /** The pieces between the occurrences `strstr` finds one after the other from `from` on. */
  function Split<T(==)>(h: seq<T>, n: seq<T>, from: nat): (pieces: seq<seq<T>>)
    requires n != [] && from <= |h|
    ensures pieces != []
    decreases |h| - from
  {
    var p := Find(h, n, from);
    if p == -1 then [h[from..]] else [h[from..p]] + Split(h, n, p + |n|)
  }

  function Join<T>(pieces: seq<seq<T>>, glue: seq<T>): (h: seq<T>)
    requires pieces != []
  {
    if |pieces| == 1 then pieces[0] else pieces[0] + glue + Join(pieces[1..], glue)
  }

  /** `str_replace`. */
  function Replaced<T(==)>(subject: seq<T>, search: seq<T>, replace: seq<T>): (h: seq<T>)
    requires search != []
  {
    Join(Split(subject, search, 0), replace)
  }

  /** Pieces of a leftmost split: put in front of the search string, none of them holds an earlier
      occurrence, and the last holds none at all. */
  predicate IsSplit<T(==)>(pieces: seq<seq<T>>, n: seq<T>) {
    pieces != [] &&
    (if |pieces| == 1 then Find(pieces[0], n, 0) == -1
     else Find(pieces[0] + n, n, 0) == |pieces[0]| && IsSplit(pieces[1..], n))
  }

  /** Splitting loses nothing. */
  lemma {:induction false} JoinSplit<T>(h: seq<T>, n: seq<T>, from: nat)
    requires n != [] && from <= |h|
    ensures Join(Split(h, n, from), n) == h[from..]
    decreases |h| - from
  {
    var p := Find(h, n, from);
    if p != -1 {
      JoinSplit(h, n, p + |n|);
      assert Split(h, n, from)[1..] == Split(h, n, p + |n|);
      assert h[from..] == h[from..p] + n + h[p + |n|..];
    }
  }

  lemma FindIs<T>(h: seq<T>, n: seq<T>, from: nat, p: nat)
    requires from <= p && OccursAt(h, n, p)
    requires forall i :: from <= i < p ==> !OccursAt(h, n, i)
    ensures Find(h, n, from) == p
  {
  }

  /** An occurrence inside a window is one of the whole, and the other way round. */
  lemma OccursInWindow<T>(h: seq<T>, n: seq<T>, from: nat, to: nat, i: int)
    requires from <= to <= |h| && 0 <= i && i + |n| <= to - from
    ensures OccursAt(h[from..to], n, i) <==> OccursAt(h, n, from + i)
  {
    var x, y := h[from..to][i..i + |n|], h[from + i..from + i + |n|];
    assert |x| == |y| && forall k :: 0 <= k < |n| ==> x[k] == y[k];
  }

  /** The first occurrence is already the first in the text up to its end, and no text goes on
      in a way that makes an earlier one. */
  lemma FirstInWindow<T>(h: seq<T>, n: seq<T>, from: nat, p: nat)
    requires n != [] && from <= p && p + |n| <= |h|
    ensures Find(h, n, from) == p <==> Find(h[from..p + |n|], n, 0) == p - from
  {
    var window := h[from..p + |n|];
    forall i | 0 <= i <= p - from ensures OccursAt(window, n, i) <==> OccursAt(h, n, from + i) {
      OccursInWindow(h, n, from, p + |n|, i);
    }
    if Find(h, n, from) == p {
      FindIs(window, n, 0, p - from);
    }
    if Find(window, n, 0) == p - from {
      forall i | from <= i < p ensures !OccursAt(h, n, i) {
        assert !OccursAt(window, n, i - from);
      }
      FindIs(h, n, from, p);
    }
  }

  lemma NoneInRest<T>(h: seq<T>, n: seq<T>, from: nat)
    requires n != [] && from <= |h|
    ensures Find(h, n, from) == -1 <==> Find(h[from..], n, 0) == -1
  {
    assert h[from..] == h[from..|h|];
    forall i | 0 <= i && i + |n| <= |h| - from ensures OccursAt(h[from..], n, i) <==> OccursAt(h, n, from + i) {
      OccursInWindow(h, n, from, |h|, i);
    }
    var p, q := Find(h, n, from), Find(h[from..], n, 0);
    if p != -1 {
      assert OccursAt(h[from..], n, p - from);
    }
    if q != -1 {
      assert OccursAt(h, n, from + q);
    }
  }

  lemma {:induction false} SplitIsSplit<T>(h: seq<T>, n: seq<T>, from: nat)
    requires n != [] && from <= |h|
    ensures IsSplit(Split(h, n, from), n)
    decreases |h| - from
  {
    var p := Find(h, n, from);
    if p == -1 {
      NoneInRest(h, n, from);
    } else {
      FirstInWindow(h, n, from, p);
      assert h[from..p] + n == h[from..p + |n|];
      SplitIsSplit(h, n, p + |n|);
      assert Split(h, n, from)[1..] == Split(h, n, p + |n|);
    }
  }

  lemma PieceInFront<T>(h: seq<T>, n: seq<T>, from: nat, piece: seq<T>, rest: seq<T>)
    requires from <= |h| && h[from..] == piece + n + rest
    ensures from + |piece| + |n| <= |h|
    ensures h[from..from + |piece|] == piece
    ensures h[from..from + |piece| + |n|] == piece + n
    ensures h[from + |piece| + |n|..] == rest
  {
    var k := |piece| + |n|;
    assert h[from..][..|piece|] == h[from..from + |piece|];
    assert h[from..][..k] == h[from..from + k];
    assert h[from..][k..] == h[from + k..];
    assert (piece + n + rest)[..|piece|] == piece;
    assert (piece + n + rest)[..k] == piece + n;
  }

  lemma SplitStep<T>(h: seq<T>, n: seq<T>, from: nat, p: nat)
    requires n != [] && from <= p && p + |n| <= |h| && Find(h, n, from) == p
    ensures Split(h, n, from) == [h[from..p]] + Split(h, n, p + |n|)
  {
  }

  lemma SplitNone<T>(h: seq<T>, n: seq<T>, from: nat)
    requires n != [] && from <= |h| && Find(h, n, from) == -1
    ensures Split(h, n, from) == [h[from..]]
  {
  }

  lemma IsSplitStep<T>(pieces: seq<seq<T>>, n: seq<T>)
    requires IsSplit(pieces, n) && |pieces| > 1
    ensures Find(pieces[0] + n, n, 0) == |pieces[0]| && IsSplit(pieces[1..], n)
    ensures Join(pieces, n) == pieces[0] + n + Join(pieces[1..], n)
  {
  }

  lemma SplitOne<T>(h: seq<T>, n: seq<T>, from: nat, pieces: seq<seq<T>>)
    requires n != [] && from <= |h| && |pieces| == 1
    requires IsSplit(pieces, n) && Join(pieces, n) == h[from..]
    ensures Split(h, n, from) == pieces
  {
    NoneInRest(h, n, from);
  }

  /** There is only one leftmost split. */
  lemma {:induction false} SplitUnique<T>(h: seq<T>, n: seq<T>, from: nat, pieces: seq<seq<T>>)
    requires n != [] && from <= |h| && pieces != []
    requires IsSplit(pieces, n) && Join(pieces, n) == h[from..]
    ensures Split(h, n, from) == pieces
    decreases |pieces|
  {
    hide *;
    if |pieces| == 1 {
      SplitOne(h, n, from, pieces);
    } else {
      var piece, rest := pieces[0], pieces[1..];
      IsSplitStep(pieces, n);
      var p := from + |piece|;
      PieceInFront(h, n, from, piece, Join(rest, n));
      FirstInWindow(h, n, from, p);
      SplitStep(h, n, from, p);
      SplitUnique(h, n, p + |n|, rest);
      assert pieces == [piece] + rest;
    }
  }

  /** `str_replace` is leftmost, non-overlapping substitution: the split it works from is the only
      one that gives the subject back and has no earlier occurrence in any piece. */
  lemma SplitIff<T>(h: seq<T>, n: seq<T>, pieces: seq<seq<T>>)
    requires n != []
    ensures Split(h, n, 0) == pieces <==> IsSplit(pieces, n) && Join(pieces, n) == h
  {
    assert h[0..] == h;
    JoinSplit(h, n, 0);
    SplitIsSplit(h, n, 0);
    if IsSplit(pieces, n) && Join(pieces, n) == h {
      SplitUnique(h, n, 0, pieces);
    }
  }

  /** The length is the one the counting pass computes. */
  lemma {:induction false} JoinLength<T>(pieces: seq<seq<T>>, a: seq<T>, b: seq<T>)
    requires pieces != []
    ensures |Join(pieces, b)| == |Join(pieces, a)| + (|pieces| - 1) * (|b| - |a|)
  {
    if |pieces| > 1 {
      JoinLength(pieces[1..], a, b);
    }
  }

  lemma ReplacedLength<T>(subject: seq<T>, search: seq<T>, replace: seq<T>)
    requires search != []
    ensures |Replaced(subject, search, replace)|
            == |subject| + (|Split(subject, search, 0)| - 1) * (|replace| - |search|)
  {
    JoinSplit(subject, search, 0);
    assert subject[0..] == subject;
    JoinLength(Split(subject, search, 0), search, replace);
  }

  /** Searching in a suffix is searching from its start. */
  lemma FindInSuffix<T>(h: seq<T>, n: seq<T>, from: nat)
    requires n != [] && from <= |h|
    ensures var p, q := Find(h, n, from), Find(h[from..], n, 0);
            if p == -1 then q == -1 else q == p - from
  {
    NoneInRest(h, n, from);
    var p := Find(h, n, from);
    if p != -1 {
      FirstInWindow(h, n, from, p);
      FirstInWindow(h[from..], n, 0, p - from);
      assert h[from..][0..p - from + |n|] == h[from..p + |n|];
    }
  }

  lemma SplitCount<T>(h: seq<T>, n: seq<T>)
    requires n != []
    ensures |Split(h, n, 0)| == 1 <==> Find(h, n, 0) == -1
  {
  }

  lemma JoinIs<T>(pieces: seq<seq<T>>, glue: seq<T>)
    requires pieces != []
    ensures Join(pieces, glue)
            == if |pieces| == 1 then pieces[0] else pieces[0] + glue + Join(pieces[1..], glue)
  {
  }

  lemma CancelMiddle<T>(x: seq<T>, a: seq<T>, b: seq<T>, y: seq<T>, z: seq<T>)
    requires |a| == |b| && x + a + y == x + b + z
    ensures a == b
  {
    assert a == (x + a + y)[|x|..|x| + |a|];
    assert b == (x + b + z)[|x|..|x| + |b|];
  }

  lemma NoProduct(a: int, b: int)
    requires a != 0 && a * b == 0
    ensures b == 0
  {
  }

  lemma GluesAgree<T>(pieces: seq<seq<T>>, a: seq<T>, b: seq<T>)
    requires |pieces| > 1 && Join(pieces, a) == Join(pieces, b)
    ensures a == b
  {
    hide *;
    JoinLength(pieces, a, b);
    NoProduct(|pieces| - 1, |b| - |a|);
    JoinIs(pieces, a);
    JoinIs(pieces, b);
    CancelMiddle(pieces[0], a, b, Join(pieces[1..], a), Join(pieces[1..], b));
  }

  /** Replacing changes exactly the subjects the string occurs in, unless it is replaced by itself. */
  lemma ReplacedNothing<T>(subject: seq<T>, search: seq<T>, replace: seq<T>)
    requires search != []
    ensures Replaced(subject, search, replace) == subject <==> Find(subject, search, 0) == -1 || search == replace
  {
    var pieces := Split(subject, search, 0);
    assert Replaced(subject, search, replace) == Join(pieces, replace);
    hide *;
    JoinSplit(subject, search, 0);
    SplitCount(subject, search);
    assert subject[0..] == subject;
    if |pieces| == 1 {
      JoinIs(pieces, replace);
      JoinIs(pieces, search);
    } else if Join(pieces, replace) == subject {
      GluesAgree(pieces, replace, search);
    }
  }

  lemma {:induction false} MarkedSplit<T>(pieces: seq<seq<T>>, r: T)
    requires pieces != [] && forall i :: 0 <= i < |pieces| ==> r !in pieces[i]
    ensures IsSplit(pieces, [r])
  {
    var piece := pieces[0];
    if |pieces| == 1 {
      forall i | 0 <= i < |piece| ensures !OccursAt(piece, [r], i) {
        assert piece[i..i + 1] == [piece[i]];
      }
    } else {
      MarkedSplit(pieces[1..], r);
      var window := piece + [r];
      forall i | 0 <= i < |window| ensures OccursAt(window, [r], i) <==> i == |piece| {
        assert window[i..i + 1] == [window[i]];
      }
      FindIs(window, [r], 0, |piece|);
    }
  }

  lemma {:induction false} PiecesComeFrom<T>(h: seq<T>, n: seq<T>, from: nat, r: T)
    requires n != [] && from <= |h| && r !in h
    ensures forall i :: 0 <= i < |Split(h, n, from)| ==> r !in Split(h, n, from)[i]
    decreases |h| - from
  {
    var p := Find(h, n, from);
    if p != -1 {
      PiecesComeFrom(h, n, p + |n|, r);
    }
  }

  /** Replacing a string by a character the subject does not contain can be undone. */
  lemma ReplaceBack<T>(subject: seq<T>, search: seq<T>, r: T)
    requires search != [] && r !in subject
    ensures Replaced(Replaced(subject, search, [r]), [r], search) == subject
  {
    var pieces := Split(subject, search, 0);
    PiecesComeFrom(subject, search, 0, r);
    MarkedSplit(pieces, r);
    SplitIff(Join(pieces, [r]), [r], pieces);
    JoinSplit(subject, search, 0);
    assert subject[0..] == subject;
  }

  // ---------- what is left in memory that was never cleared

  const NUL := '\0'

  /** What the building pass makes of the pieces still to be copied, where `out` is the text so far
      and the memory behind it still holds `garbage`. */
  function Built<T(==)>(garbage: seq<T>, pieces: seq<seq<T>>, replace: seq<T>, nul: T, out: seq<T>): (text: seq<T>)
    requires pieces != []
    decreases |pieces|
  {
    if |pieces| == 1 then out + pieces[0]
    else Built(garbage, pieces[1..], replace, nul, out + pieces[0] + Stray(garbage, |out|, pieces[0], nul) + replace)
  }

  /** The text `str_replace` leaves in memory that held `garbage`. */
  function ReplacedOver(garbage: string, subject: string, search: string, replace: string): (text: string)
    requires search != []
  {
    Built(garbage, Split(subject, search, 0), replace, NUL, "")
  }

  /** A terminator happens to stand behind every piece but the last and the empty ones. */
  ghost predicate Terminated<T(!new)>(garbage: seq<T>, pieces: seq<seq<T>>, replace: seq<T>, nul: T, at: nat) {
    forall i :: 0 <= i < |pieces| - 1 && pieces[i] != [] ==>
      var k := at + |Join(pieces[..i + 1], replace)|;
      k < |garbage| && garbage[k] == nul
  }

  lemma TerminatedStep<T(!new)>(garbage: seq<T>, pieces: seq<seq<T>>, replace: seq<T>, nul: T, at: nat)
    requires |pieces| > 1
    ensures var k := at + |pieces[0]|;
            Terminated(garbage, pieces, replace, nul, at) <==>
              (pieces[0] == [] || (k < |garbage| && garbage[k] == nul))
              && Terminated(garbage, pieces[1..], replace, nul, k + |replace|)
  {
    var rest := pieces[1..];
    assert pieces[..1] == [pieces[0]];
    forall i | 0 <= i < |rest| - 1
      ensures rest[i] == pieces[i + 1]
      ensures |Join(pieces[..i + 2], replace)| == |pieces[0]| + |replace| + |Join(rest[..i + 1], replace)|
    {
      assert pieces[..i + 2][1..] == rest[..i + 1];
    }
    if Terminated(garbage, pieces, replace, nul, at) {
      forall i | 0 <= i < |rest| - 1 && rest[i] != []
        ensures var k := at + |pieces[0]| + |replace| + |Join(rest[..i + 1], replace)|;
                k < |garbage| && garbage[k] == nul
      {
        assert pieces[i + 1] != [];
      }
    }
    if (pieces[0] == [] || (at + |pieces[0]| < |garbage| && garbage[at + |pieces[0]|] == nul))
       && Terminated(garbage, rest, replace, nul, at + |pieces[0]| + |replace|) {
      forall i | 0 <= i < |pieces| - 1 && pieces[i] != []
        ensures var k := at + |Join(pieces[..i + 1], replace)|; k < |garbage| && garbage[k] == nul
      {
        if i > 0 {
          assert rest[i - 1] != [];
        }
      }
    }
  }

  /** Garbage only ever makes the text longer. */
  lemma {:induction false} BuiltLength<T>(garbage: seq<T>, pieces: seq<seq<T>>, replace: seq<T>, nul: T, out: seq<T>)
    requires pieces != []
    ensures |Built(garbage, pieces, replace, nul, out)| >= |out| + |Join(pieces, replace)|
    decreases |pieces|
  {
    if |pieces| > 1 {
      BuiltLength(garbage, pieces[1..], replace, nul,
                  out + pieces[0] + Stray(garbage, |out|, pieces[0], nul) + replace);
    }
  }

  lemma StrayNone<T>(garbage: seq<T>, at: nat, piece: seq<T>, nul: T)
    requires at + |piece| < |garbage|
    ensures Stray(garbage, at, piece, nul) == [] <==> piece == [] || garbage[at + |piece|] == nul
  {
    if piece != [] {
      var tail := garbage[at + |piece|..];
      assert tail[0] == garbage[at + |piece|];
    }
  }

  lemma BuiltIs<T>(garbage: seq<T>, pieces: seq<seq<T>>, replace: seq<T>, nul: T, out: seq<T>)
    requires pieces != []
    ensures Built(garbage, pieces, replace, nul, out)
            == if |pieces| == 1 then out + pieces[0]
               else Built(garbage, pieces[1..], replace, nul,
                          out + pieces[0] + Stray(garbage, |out|, pieces[0], nul) + replace)
  {
  }

  lemma TerminatedOne<T(!new)>(garbage: seq<T>, pieces: seq<seq<T>>, replace: seq<T>, nul: T, at: nat)
    requires |pieces| == 1
    ensures Terminated(garbage, pieces, replace, nul, at)
  {
  }

  lemma MoveFront<T>(out: seq<T>, piece: seq<T>, replace: seq<T>, rest: seq<T>)
    ensures out + (piece + replace + rest) == (out + piece + [] + replace) + rest
  {
  }

  /** The pass builds the right text exactly when the terminators happen to stand where it leaves
      them out. */
  lemma {:induction false} BuiltIff<T(!new)>(garbage: seq<T>, pieces: seq<seq<T>>, replace: seq<T>, nul: T, out: seq<T>)
    requires pieces != [] && |out| + |Join(pieces, replace)| < |garbage|
    ensures Built(garbage, pieces, replace, nul, out) == out + Join(pieces, replace)
            <==> Terminated(garbage, pieces, replace, nul, |out|)
    decreases |pieces|
  {
    hide *;
    BuiltIs(garbage, pieces, replace, nul, out);
    JoinIs(pieces, replace);
    if |pieces| == 1 {
      TerminatedOne(garbage, pieces, replace, nul, |out|);
    } else {
      var piece, rest := pieces[0], pieces[1..];
      var stray := Stray(garbage, |out|, piece, nul);
      var next := out + piece + stray + replace;
      StrayNone(garbage, |out|, piece, nul);
      TerminatedStep(garbage, pieces, replace, nul, |out|);
      if stray == [] {
        MoveFront(out, piece, replace, Join(rest, replace));
        BuiltIff(garbage, rest, replace, nul, next);
      } else {
        BuiltLength(garbage, rest, replace, nul, next);
      }
    }
  }

  /** `str_replace` substitutes correctly exactly when, behind every non-empty piece it copies but
      the last, memory happened to hold a terminator already. */
  lemma ReplacedIff(garbage: string, subject: string, search: string, replace: string)
    requires search != [] && |Replaced(subject, search, replace)| < |garbage|
    ensures ReplacedOver(garbage, subject, search, replace) == Replaced(subject, search, replace)
            <==> Terminated(garbage, Split(subject, search, 0), replace, NUL, 0)
  {
    var pieces := Split(subject, search, 0);
    BuiltIff(garbage, pieces, replace, NUL, "");
    assert "" + Join(pieces, replace) == Join(pieces, replace);
  }

  /** All occurrences from `from` on follow each other without a gap. */
  predicate InFront<T(==)>(h: seq<T>, n: seq<T>, from: nat)
    requires n != []
    decreases |h| - from
  {
    var p := Find(h, n, from);
    p == -1 || (p == from && InFront(h, n, p + |n|))
  }

  /** Nothing but empty pieces in front of the last. */
  predicate EmptyInFront<T(==)>(pieces: seq<seq<T>>) {
    forall i :: 0 <= i < |pieces| - 1 ==> pieces[i] == []
  }

  lemma EmptyInFrontCons<T>(piece: seq<T>, rest: seq<seq<T>>)
    requires rest != []
    ensures EmptyInFront([piece] + rest) <==> piece == [] && EmptyInFront(rest)
  {
    var pieces := [piece] + rest;
    if EmptyInFront(pieces) {
      assert pieces[0] == piece;
      assert forall i :: 0 <= i < |rest| ==> rest[i] == pieces[i + 1];
    }
  }

  lemma {:induction false} InFrontPieces<T>(h: seq<T>, n: seq<T>, from: nat)
    requires n != [] && from <= |h|
    ensures InFront(h, n, from) <==> EmptyInFront(Split(h, n, from))
    decreases |h| - from
  {
    var p := Find(h, n, from);
    if p != -1 {
      InFrontPieces(h, n, p + |n|);
      EmptyInFrontCons(h[from..p], Split(h, n, p + |n|));
      SplitStep(h, n, from, p);
      assert h[from..p] == [] <==> p == from;
      assert InFront(h, n, from) <==> p == from && InFront(h, n, p + |n|);
    }
  }

  lemma EndsInside<T>(pieces: seq<seq<T>>, glue: seq<T>, i: nat)
    requires i + 1 < |pieces|
    ensures |Join(pieces[..i + 1], glue)| <= |Join(pieces, glue)|
  {
    if i > 0 {
      EndsInside(pieces[1..], glue, i - 1);
      assert pieces[..i + 1][1..] == pieces[1..][..i];
    } else {
      assert pieces[..1] == [pieces[0]];
    }
  }

  /** In memory without any terminator that takes subjects whose occurrences all stand in front, one
      directly behind the other. */
  lemma UnterminatedIff(garbage: string, subject: string, search: string, replace: string)
    requires search != [] && |Replaced(subject, search, replace)| < |garbage| && NUL !in garbage
    ensures ReplacedOver(garbage, subject, search, replace) == Replaced(subject, search, replace)
            <==> InFront(subject, search, 0)
  {
    var pieces := Split(subject, search, 0);
    ReplacedIff(garbage, subject, search, replace);
    InFrontPieces(subject, search, 0);
    if i :| 0 <= i < |pieces| - 1 && pieces[i] != [] {
      EndsInside(pieces, replace, i);
      assert garbage[|Join(pieces[..i + 1], replace)|] in garbage;
    }
  }

  /** These are the subjects for which memory does not matter. */
  lemma AnyGarbageIff(subject: string, search: string, replace: string)
    requires search != []
    ensures (forall g: string :: |g| > |Replaced(subject, search, replace)| ==>
               ReplacedOver(g, subject, search, replace) == Replaced(subject, search, replace))
            <==> InFront(subject, search, 0)
  {
    var size := |Replaced(subject, search, replace)|;
    var unterminated := seq(size + 1, i => 'x');
    UnterminatedIff(unterminated, subject, search, replace);
    if InFront(subject, search, 0) {
      InFrontPieces(subject, search, 0);
      forall g: string | |g| > size
        ensures ReplacedOver(g, subject, search, replace) == Replaced(subject, search, replace)
      {
        ReplacedIff(g, subject, search, replace);
      }
    }
  }

  /** In memory full of terminators every subject is substituted correctly. */
  lemma ClearedIsRight(subject: string, search: string, replace: string, size: nat)
    requires search != [] && |Replaced(subject, search, replace)| < size
    ensures ReplacedOver(seq(size, i => NUL), subject, search, replace) == Replaced(subject, search, replace)
  {
    var garbage, pieces := seq(size, i => NUL), Split(subject, search, 0);
    ReplacedIff(garbage, subject, search, replace);
    forall i | 0 <= i < |pieces| - 1 && pieces[i] != []
      ensures var k := |Join(pieces[..i + 1], replace)|; k < |garbage| && garbage[k] == NUL
    {
      EndsInside(pieces, replace, i);
    }
  }

  /** One replacement that garbage shows in: "b" by "c" in "ab". */
  lemma GarbageShows(garbage: string)
    requires |garbage| > 2
    ensures Replaced("ab", "b", "c") == "ac"
    ensures ReplacedOver(garbage, "ab", "b", "c") == "ac" <==> garbage[1] == NUL
  {
    var pieces := ["a", ""];
    assert "a" + "b" == "ab";
    assert OccursAt("ab", "b", 1) && !OccursAt("ab", "b", 0);
    FindIs("ab", "b", 0, 1);
    assert pieces[1..] == [""];
    SplitIff("ab", "b", pieces);
    ReplacedIff(garbage, "ab", "b", "c");
    assert pieces[..1] == ["a"];
  }

  // ---------- the functions as they are written

  function Count(subject: string, search: string, from: nat): (c: nat)
    requires search != [] && from <= |subject|
  {
    |Split(subject, search, from)| - 1
  }

  lemma CountStep(subject: string, search: string, from: nat)
    requires search != [] && from <= |subject|
    ensures var p := Find(subject, search, from);
            if p == -1 then Count(subject, search, from) == 0
            else p + |search| <= |subject|
                 && Count(subject, search, from) == 1 + Count(subject, search, p + |search|)
  {
  }

  lemma FindAfter(subject: string, search: string, from: nat)
    requires search != []
    ensures var p := Find(subject, search, from); p != -1 ==> from <= p && p + |search| <= |subject|
  {
  }

  /** The counting pass. */
  method CountOccurrences(search: string, subject: string) returns (c: nat)
    requires search != []
    ensures c == Count(subject, search, 0)
  {
    hide *;
    c := 0;
    ghost var from := 0;
    var p := Find(subject, search, 0);
    while p != -1
      invariant from <= |subject| && p == Find(subject, search, from)
      invariant c + Count(subject, search, from) == Count(subject, search, 0)
      decreases |subject| - from
    {
      CountStep(subject, search, from);
      FindAfter(subject, search, from);
      c := c + 1;
      from := p + |search|;
      p := Find(subject, search, p + |search|);
    }
    CountStep(subject, search, from);
  }

  /** The size `str_replace` asks `malloc` for, and so the first position behind the block. */
  method ReplacedSize(search: string, replace: string, subject: string) returns (c: nat)
    requires search != []
    ensures c == |Replaced(subject, search, replace)|
  {
    var count := CountOccurrences(search, subject);
    ReplacedLength(subject, search, replace);
    c := count * (|replace| - |search|) + |subject|;
  }

  /** That size is never enough: with its terminator, what is written there takes at least one
      character more, whatever memory held. */
  lemma AllocatedTooSmall(garbage: string, subject: string, search: string, replace: string)
    requires search != []
    ensures |ReplacedOver(garbage, subject, search, replace)| + 1 > |Replaced(subject, search, replace)|
  {
    BuiltLength(garbage, Split(subject, search, 0), replace, NUL, "");
  }

  /** One turn of the building pass, on values. */
  lemma BuiltStep(garbage: string, subject: string, search: string, replace: string, from: nat, p: nat, out: string)
    requires search != [] && from <= p == Find(subject, search, from) && p + |search| <= |subject|
    ensures var longer := out + subject[from..p] + Stray(garbage, |out|, subject[from..p], NUL) + replace;
            && Built(garbage, Split(subject, search, from), replace, NUL, out)
               == Built(garbage, Split(subject, search, p + |search|), replace, NUL, longer)
            && |longer| <= |Built(garbage, Split(subject, search, from), replace, NUL, out)|
  {
    var rest := Split(subject, search, p + |search|);
    SplitStep(subject, search, from, p);
    assert Split(subject, search, from)[1..] == rest;
    BuiltLength(garbage, rest, replace, NUL,
                out + subject[from..p] + Stray(garbage, |out|, subject[from..p], NUL) + replace);
  }

  lemma BuiltStart(garbage: string, subject: string, search: string, replace: string)
    requires search != []
    ensures Built(garbage, Split(subject, search, 0), replace, NUL, "")
            == ReplacedOver(garbage, subject, search, replace)
  {
  }

  lemma BuiltEnd(garbage: string, subject: string, search: string, replace: string, from: nat, out: string)
    requires search != [] && from <= |subject| && Find(subject, search, from) == -1
    ensures Built(garbage, Split(subject, search, from), replace, NUL, out) == out + subject[from..]
  {
  }

  /** One turn of the building pass: the text up to the occurrence, then the replacement behind
      whatever text that makes. */
  method BuildRound(buffer: array<char>, search: string, replace: string, subject: string,
                    from: nat, p: nat, ghost garbage: string, ghost out: string)
    returns (ghost longer: string)
    requires search != [] && NUL !in replace && NUL !in subject
    requires from <= p == Find(subject, search, from) && p + |search| <= |subject|
    requires Text(buffer, out, NUL) && |garbage| == buffer.Length
    requires forall i :: |out| < i < buffer.Length ==> buffer[i] == garbage[i]
    requires |Built(garbage, Split(subject, search, from), replace, NUL, out)| < buffer.Length
    modifies buffer
    ensures Text(buffer, longer, NUL)
    ensures forall i :: |longer| < i < buffer.Length ==> buffer[i] == garbage[i]
    ensures Built(garbage, Split(subject, search, p + |search|), replace, NUL, longer)
            == Built(garbage, Split(subject, search, from), replace, NUL, out)
  {
    hide *;
    BuiltStep(garbage, subject, search, replace, from, p, out);
    ghost var text := out + subject[from..p] + Stray(garbage, |out|, subject[from..p], NUL);
    CopyAtEnd(buffer, subject[from..p], NUL, out, garbage);
    AppendAtEnd(buffer, replace, NUL, text);
    longer := text + replace;
  }

  /** `str_replace`. `new_subject` is the memory behind the pointer that `malloc` returns: the block
      of `c` characters and what follows it, all with arbitrary contents. The caller has to know
      that there is enough of it; the code does not see to that. */
  method StrReplace(search: string, replace: string, subject: string, new_subject: array<char>) returns (c: nat)
    requires search != [] && NUL !in search && NUL !in replace && NUL !in subject
    requires |ReplacedOver(new_subject[..], subject, search, replace)| < new_subject.Length
    modifies new_subject
    ensures c == |Replaced(subject, search, replace)|
    ensures Text(new_subject, ReplacedOver(old(new_subject[..]), subject, search, replace), NUL)
  {
    hide *;
    ghost var garbage, out: string := new_subject[..], "";
    ghost var all := ReplacedOver(garbage, subject, search, replace);
    BuiltStart(garbage, subject, search, replace);
    c := ReplacedSize(search, replace, subject);
    new_subject[0] := NUL;
    EmptyText(new_subject, NUL);
    var from: nat := 0;
    var p := Find(subject, search, 0);
    while p != -1
      invariant from <= |subject| && p == Find(subject, search, from)
      invariant Text(new_subject, out, NUL)
      invariant forall i :: |out| < i < new_subject.Length ==> new_subject[i] == garbage[i]
      invariant Built(garbage, Split(subject, search, from), replace, NUL, out) == all
      decreases |subject| - from
    {
      FindAfter(subject, search, from);
      out := BuildRound(new_subject, search, replace, subject, from, p, garbage, out);
      from := p + |search|;
      p := Find(subject, search, p + |search|);
    }
    BuiltEnd(garbage, subject, search, replace, from, out);
    AppendAtEnd(new_subject, subject[from..], NUL, out);
  }

  lemma JoinCons(piece: string, rest: seq<string>, glue: string)
    requires rest != []
    ensures Join([piece] + rest, glue) == piece + glue + Join(rest, glue)
  {
    assert ([piece] + rest)[1..] == rest;
  }

  /** `str_index_of`, where the string occurs. Elsewhere the code subtracts from a null pointer. */
  method StrIndexOf(a: string, b: string) returns (offset: nat)
    requires Find(a, b, 0) != -1
    ensures OccursAt(a, b, offset) && forall i :: 0 <= i < offset ==> !OccursAt(a, b, i)
    ensures offset == Find(a, b, 0)
  {
    offset := Find(a, b, 0);
  }

  /** `get_until`: the text in front of the first occurrence. */
  method GetUntil(haystack: string, until: string) returns (res: string)
    requires Find(haystack, until, 0) != -1
    ensures |res| == Find(haystack, until, 0) && res <= haystack
  {
    var offset := StrIndexOf(haystack, until);
    res := haystack[..offset];
  }
}
