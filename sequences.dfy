/**
 * Python's `split` and `join` on strings and byte strings, stated once for
 * any element type, and the facts about them that the parser and the line
 * framer rely on.
 */
module Sequences {
  import opened Basics

  /** `sep` occurs in `s` at position `i`. */
  predicate OccursAt<T(==)>(s: seq<T>, sep: seq<T>, i: nat) {
    i + |sep| <= |s| && s[i..i + |sep|] == sep
  }

  /** Python's `sep in s`. */
  predicate Contains<T(==)>(s: seq<T>, sep: seq<T>) {
    exists i: nat | i <= |s| :: OccursAt(s, sep, i)
  }

  /** No proper suffix of `sep` is also a prefix of it (true of `" "` and `b"\r\n"`). */
  predicate NoSelfOverlap<T(==)>(sep: seq<T>) {
    forall k :: 0 < k < |sep| ==> sep[k..] != sep[..|sep| - k]
  }

  /** The number of positions at which `sep` occurs in `s`, overlapping ones included. */
  function Occurrences<T(==)>(s: seq<T>, sep: seq<T>): nat
    requires |sep| > 0
  {
    if s == [] then 0 else (if sep <= s then 1 else 0) + Occurrences(s[1..], sep)
  }

  /** The last element of a non-empty sequence. */
  function Last<T>(s: seq<T>): T
    requires |s| > 0
  {
    s[|s| - 1]
  }

  /** All elements but the last. */
  function DropLast<T>(s: seq<T>): seq<T>
    requires |s| > 0
  {
    s[..|s| - 1]
  }

  /**
   * Python's `s.split(sep)` for a non-empty separator: scanning from the
   * left, each occurrence of `sep` not overlapping an earlier one ends a piece.
   */
  function Split<T(==)>(s: seq<T>, sep: seq<T>): (pieces: seq<seq<T>>)
    requires |sep| > 0
    ensures |pieces| >= 1
    decreases |s|
  {
    if s == [] then [[]]
    else if sep <= s then [[]] + Split(s[|sep|..], sep)
    else
      var rest := Split(s[1..], sep);
      [[s[0]] + rest[0]] + rest[1..]
  }

  /** Python's `sep.join(pieces)`. */
  function Join<T>(pieces: seq<seq<T>>, sep: seq<T>): (s: seq<T>)
    ensures |pieces| > 0 ==> pieces[0] <= s
  {
    if |pieces| == 0 then []
    else if |pieces| == 1 then pieces[0]
    else pieces[0] + sep + Join(pieces[1..], sep)
  }

  /** The position of the first `x` in `s`, if there is one. */
  function IndexOf<T(==)>(s: seq<T>, x: T): (r: Option<nat>)
    ensures r.None? <==> x !in s
    ensures r.Some? ==> r.value < |s| && s[r.value] == x
    ensures r.Some? ==> forall k :: 0 <= k < r.value ==> s[k] != x
  {
    if s == [] then None
    else if s[0] == x then Some(0)
    else match IndexOf(s[1..], x)
      case None => None
      case Some(i) => Some(i + 1)
  }

  /** Python's `s.split(x, 1)` unpacked into two names: fails when `x` does not occur. */
  function SplitOnce<T(==)>(s: seq<T>, x: T): (r: Option<(seq<T>, seq<T>)>)
    ensures r.None? <==> x !in s
    ensures r.Some? ==> s == r.value.0 + [x] + r.value.1 && x !in r.value.0
  {
    match IndexOf(s, x)
    case None => None
    case Some(i) =>
      assert s == s[..i] + [x] + s[i + 1..];
      assert forall k :: 0 <= k < i ==> s[..i][k] == s[k];
      Some((s[..i], s[i + 1..]))
  }

  // ---------------------------------------------------------------------
  // Facts about Split and Join.

  /** The first `x` is found right after a head free of `x`. */
  lemma {:induction false} IndexOfAfter<T>(a: seq<T>, x: T, b: seq<T>)
    requires x !in a
    ensures IndexOf(a + [x] + b, x) == Some(|a|)
    decreases |a|
  {
    if a != [] {
      assert (a + [x] + b)[1..] == a[1..] + [x] + b;
      IndexOfAfter(a[1..], x, b);
    }
  }

  /** `SplitOnce` cuts at the one separator that is not inside the head. */
  lemma SplitOnceAt<T>(a: seq<T>, x: T, b: seq<T>)
    requires x !in a
    ensures SplitOnce(a + [x] + b, x) == Some((a, b))
  {
    var s := a + [x] + b;
    IndexOfAfter(a, x, b);
    assert s[..|a|] == a;
    assert s[|a| + 1..] == b;
  }

  /** Joining the pieces of a split gives back the original. */
  lemma {:induction false} JoinSplit<T>(s: seq<T>, sep: seq<T>)
    requires |sep| > 0
    ensures Join(Split(s, sep), sep) == s
    decreases |s|
  {
    if s == [] {
    } else if sep <= s {
      JoinSplit(s[|sep|..], sep);
      JoinSplitAtSeparator(s, sep);
    } else {
      JoinSplit(s[1..], sep);
      JoinSplitAtElement(s, sep);
    }
  }

  /** The step of `JoinSplit` for a text that starts with the separator. */
  lemma {:induction false} JoinSplitAtSeparator<T>(s: seq<T>, sep: seq<T>)
    requires |sep| > 0 && s != [] && sep <= s
    requires Join(Split(s[|sep|..], sep), sep) == s[|sep|..]
    ensures Join(Split(s, sep), sep) == s
  {
    var rest := Split(s[|sep|..], sep);
    assert Split(s, sep) == [[]] + rest;
    JoinFront([], rest, sep);
    assert s == sep + s[|sep|..];
  }

  /** The step of `JoinSplit` for a text that does not start with the separator. */
  lemma {:induction false} JoinSplitAtElement<T>(s: seq<T>, sep: seq<T>)
    requires |sep| > 0 && s != [] && !(sep <= s)
    requires Join(Split(s[1..], sep), sep) == s[1..]
    ensures Join(Split(s, sep), sep) == s
  {
    var rest := Split(s[1..], sep);
    assert Split(s, sep) == [[s[0]] + rest[0]] + rest[1..];
    JoinCons(s[0], rest, sep);
    assert s == [s[0]] + s[1..];
  }

  /** A join with a piece in front adds the piece and a separator. */
  lemma JoinFront<T>(p: seq<T>, rest: seq<seq<T>>, sep: seq<T>)
    requires |rest| >= 1
    ensures Join([p] + rest, sep) == p + sep + Join(rest, sep)
  {
    assert ([p] + rest)[1..] == rest;
  }

  /** A join whose first piece has one more element in front. */
  lemma JoinCons<T>(x: T, rest: seq<seq<T>>, sep: seq<T>)
    requires |rest| >= 1
    ensures Join([[x] + rest[0]] + rest[1..], sep) == [x] + Join(rest, sep)
  {
    var pieces := [[x] + rest[0]] + rest[1..];
    if |rest| > 1 {
      assert pieces[1..] == rest[1..];
    }
  }

  /** A sequence that does not contain the separator splits into itself alone. */
  lemma {:induction false} SplitFree<T>(p: seq<T>, sep: seq<T>)
    requires |sep| > 0
    requires !Contains(p, sep)
    ensures Split(p, sep) == [p]
    decreases |p|
  {
    if p == [] {
    } else {
      assert !OccursAt(p, sep, 0);
      assert !(sep <= p);
      forall i: nat
        ensures !OccursAt(p[1..], sep, i)
      {
        if OccursAt(p[1..], sep, i) {
          assert p[1..][i..i + |sep|] == p[i + 1..i + 1 + |sep|];
          assert OccursAt(p, sep, i + 1);
        }
      }
      SplitFree(p[1..], sep);
      assert p == [p[0]] + p[1..];
    }
  }

  /** No piece of a split contains the separator. */
  lemma {:induction false} SplitPiecesFree<T>(s: seq<T>, sep: seq<T>)
    requires |sep| > 0
    ensures forall k :: 0 <= k < |Split(s, sep)| ==> !Contains(Split(s, sep)[k], sep)
    decreases |s|
  {
    var pieces := Split(s, sep);
    if s == [] {
      assert !OccursAt([], sep, 0);
    } else if sep <= s {
      var rest := Split(s[|sep|..], sep);
      SplitPiecesFree(s[|sep|..], sep);
      assert pieces == [[]] + rest;
      assert !OccursAt([], sep, 0);
      assert forall k :: 1 <= k < |pieces| ==> pieces[k] == rest[k - 1];
    } else {
      var rest := Split(s[1..], sep);
      SplitPiecesFree(s[1..], sep);
      assert pieces == [[s[0]] + rest[0]] + rest[1..];
      JoinSplit(s[1..], sep);
      assert rest[0] <= s[1..];
      ConsFree(s[0], rest[0], s, sep);
      assert forall k :: 1 <= k < |pieces| ==> pieces[k] == rest[k];
    }
  }

  /**
   * One element put in front of a separator-free prefix of the rest stays
   * free of the separator when the whole does not start with it.
   */
  lemma ConsFree<T>(x: T, q: seq<T>, s: seq<T>, sep: seq<T>)
    requires |sep| > 0 && |s| > 0 && s[0] == x && q <= s[1..]
    requires !(sep <= s) && !Contains(q, sep)
    ensures !Contains([x] + q, sep)
  {
    var p := [x] + q;
    assert p <= s;
    forall i: nat | i + |sep| <= |p|
      ensures !OccursAt(p, sep, i)
    {
      if i == 0 {
        assert p[..|sep|] == s[..|sep|];
      } else {
        assert p[i..i + |sep|] == q[i - 1..i - 1 + |sep|];
        assert !OccursAt(q, sep, i - 1);
      }
    }
  }

  /** A sequence contains the one-element separator `[x]` exactly when `x` is one of its elements. */
  lemma ElementFree<T>(s: seq<T>, x: T)
    ensures x !in s <==> !Contains(s, [x])
  {
    forall i: nat | i + 1 <= |s|
      ensures OccursAt(s, [x], i) <==> s[i] == x
    {
      assert s[i..i + 1] == [s[i]];
    }
    if x in s {
      var i :| 0 <= i < |s| && s[i] == x;
      assert OccursAt(s, [x], i);
    }
  }

  /** A one-element separator never overlaps itself. */
  lemma SingleNoSelfOverlap<T>(x: T)
    ensures NoSelfOverlap([x])
  {
  }

  /** A sequence shorter than the separator cannot contain it. */
  lemma ShortIsFree<T>(s: seq<T>, sep: seq<T>)
    requires |s| < |sep|
    ensures !Contains(s, sep)
  {
  }

  /**
   * Splitting `a + b` splits `a` as before, except that its last piece is
   * completed by `b` and split again: a separator that straddles the seam
   * is found.
   */
  lemma {:induction false} SplitAppend<T>(a: seq<T>, b: seq<T>, sep: seq<T>)
    requires |sep| > 0
    ensures Split(a + b, sep) == DropLast(Split(a, sep)) + Split(Last(Split(a, sep)) + b, sep)
    decreases |a|
  {
    var pa := Split(a, sep);
    if |a| >= |sep| {
      assert (a + b)[..|sep|] == a[..|sep|];
    }
    if a == [] {
      assert a + b == b;
    } else if sep <= a {
      assert sep <= a + b;
      assert (a + b)[|sep|..] == a[|sep|..] + b;
      SplitAppend(a[|sep|..], b, sep);
    } else if sep <= a + b {
      ShortIsFree(a, sep);
      SplitFree(a, sep);
    } else {
      var rest := Split(a[1..], sep);
      assert (a + b)[1..] == a[1..] + b;
      SplitAppend(a[1..], b, sep);
      var rest' := Split(a[1..] + b, sep);
      var tail := Split(Last(rest) + b, sep);
      assert rest' == DropLast(rest) + tail;
      assert pa == [[a[0]] + rest[0]] + rest[1..];
      assert Split(a + b, sep) == [[a[0]] + rest'[0]] + rest'[1..];
      if |rest| == 1 {
        JoinSplit(a[1..], sep);
        assert a == [a[0]] + rest[0];
        assert pa == [a];
      } else {
        assert rest'[0] == rest[0];
        ShiftHead([a[0]] + rest[0], rest, tail);
      }
    }
  }

  /** Replacing the head of a sequence commutes with cutting off its last element and appending. */
  lemma ShiftHead<X>(h: X, rest: seq<X>, tail: seq<X>)
    requires |rest| > 1
    ensures [h] + (DropLast(rest) + tail)[1..] == DropLast([h] + rest[1..]) + tail
    ensures Last([h] + rest[1..]) == Last(rest)
  {
    assert (DropLast(rest) + tail)[1..] == DropLast(rest)[1..] + tail;
    assert DropLast([h] + rest[1..]) == [h] + DropLast(rest)[1..];
  }

  /**
   * A piece free of a non-self-overlapping separator, followed by that
   * separator, is split off as it is.
   */
  lemma {:induction false} SplitAfterPiece<T>(p: seq<T>, sep: seq<T>, rest: seq<T>)
    requires |sep| > 0 && NoSelfOverlap(sep)
    requires !Contains(p, sep)
    ensures Split(p + sep + rest, sep) == [p] + Split(rest, sep)
    decreases |p|
  {
    var s := p + sep + rest;
    if p == [] {
      assert s == sep + rest;
      assert s[|sep|..] == rest;
    } else {
      if |p| >= |sep| {
        assert s[..|sep|] == p[..|sep|];
        assert !OccursAt(p, sep, 0);
      } else {
        var k := |p|;
        assert s[..|sep|] == p + sep[..|sep| - k];
        assert (p + sep[..|sep| - k])[k..] == sep[..|sep| - k];
        assert sep[k..] != sep[..|sep| - k];
      }
      assert !(sep <= s);
      forall i: nat
        ensures !OccursAt(p[1..], sep, i)
      {
        if OccursAt(p[1..], sep, i) {
          assert p[1..][i..i + |sep|] == p[i + 1..i + 1 + |sep|];
          assert OccursAt(p, sep, i + 1);
        }
      }
      assert s[1..] == p[1..] + sep + rest;
      SplitAfterPiece(p[1..], sep, rest);
      assert p == [p[0]] + p[1..];
    }
  }

  /** Splitting a join of separator-free pieces, followed by more text, gives the pieces back first. */
  lemma {:induction false} SplitJoinThen<T>(pieces: seq<seq<T>>, sep: seq<T>, rest: seq<T>)
    requires |sep| > 0 && NoSelfOverlap(sep)
    requires |pieces| > 0
    requires forall k :: 0 <= k < |pieces| ==> !Contains(pieces[k], sep)
    ensures Split(Join(pieces, sep) + sep + rest, sep) == pieces + Split(rest, sep)
    decreases |pieces|
  {
    if |pieces| == 1 {
      SplitAfterPiece(pieces[0], sep, rest);
    } else {
      var tail := pieces[1..];
      assert forall k :: 0 <= k < |tail| ==> tail[k] == pieces[k + 1];
      SplitJoinThen(tail, sep, rest);
      SplitJoinThenStep(pieces, sep, rest);
    }
  }

  /** The step of `SplitJoinThen`: one more piece in front. */
  lemma {:induction false} SplitJoinThenStep<T>(pieces: seq<seq<T>>, sep: seq<T>, rest: seq<T>)
    requires |sep| > 0 && NoSelfOverlap(sep)
    requires |pieces| > 1 && !Contains(pieces[0], sep)
    requires Split(Join(pieces[1..], sep) + sep + rest, sep) == pieces[1..] + Split(rest, sep)
    ensures Split(Join(pieces, sep) + sep + rest, sep) == pieces + Split(rest, sep)
  {
    var tail := pieces[1..];
    var more := Join(tail, sep) + sep + rest;
    assert Join(pieces, sep) == pieces[0] + sep + Join(tail, sep);
    assert Join(pieces, sep) + sep + rest == pieces[0] + sep + more;
    SplitAfterPiece(pieces[0], sep, more);
    assert pieces == [pieces[0]] + tail;
  }

  /** For a non-self-overlapping separator, split undoes join of separator-free pieces. */
  lemma {:induction false} SplitJoin<T>(pieces: seq<seq<T>>, sep: seq<T>)
    requires |sep| > 0 && NoSelfOverlap(sep)
    requires |pieces| > 0
    requires forall k :: 0 <= k < |pieces| ==> !Contains(pieces[k], sep)
    ensures Split(Join(pieces, sep), sep) == pieces
  {
    if |pieces| == 1 {
      SplitFree(pieces[0], sep);
    } else {
      var front := DropLast(pieces);
      JoinAppend(front, Last(pieces), sep);
      SplitJoinThen(front, sep, Last(pieces));
      SplitFree(Last(pieces), sep);
      assert pieces == front + [Last(pieces)];
    }
  }

  /** Joining one more piece adds the separator and the piece. */
  lemma {:induction false} JoinAppend<T>(pieces: seq<seq<T>>, p: seq<T>, sep: seq<T>)
    requires |pieces| > 0
    ensures Join(pieces + [p], sep) == Join(pieces, sep) + sep + p
    decreases |pieces|
  {
    if |pieces| == 1 {
      assert (pieces + [p])[1..] == [p];
    } else {
      assert (pieces + [p])[1..] == pieces[1..] + [p];
      JoinAppend(pieces[1..], p, sep);
    }
  }

  /** A join cut between two pieces. */
  lemma {:induction false} JoinAt<T>(pieces: seq<seq<T>>, k: nat, sep: seq<T>)
    requires 0 < k < |pieces|
    ensures Join(pieces, sep) == Join(pieces[..k], sep) + sep + Join(pieces[k..], sep)
    decreases k
  {
    if k == 1 {
      assert pieces[..1] == [pieces[0]];
    } else {
      JoinAt(pieces[1..], k - 1, sep);
      assert pieces[1..][..k - 1] == pieces[..k][1..];
      assert pieces[1..][k - 1..] == pieces[k..];
    }
  }

  /** Between a separator's start and its end there is no further occurrence. */
  lemma {:induction false} SkipInside<T>(s: seq<T>, sep: seq<T>, k: nat)
    requires |sep| > 0 && NoSelfOverlap(sep) && sep <= s
    requires 1 <= k <= |sep|
    ensures Occurrences(s[k..], sep) == Occurrences(s[|sep|..], sep)
    decreases |sep| - k
  {
    if k < |sep| {
      assert !(sep <= s[k..]) by {
        assert s[k..|sep|] == sep[k..];
        assert sep[k..] != sep[..|sep| - k];
        if |sep| <= |s[k..]| {
          assert s[k..][..|sep| - k] == s[k..|sep|];
        }
      }
      assert s[k..][1..] == s[k + 1..];
      SkipInside(s, sep, k + 1);
    }
  }

  /** For a non-self-overlapping separator there is one piece more than there are occurrences. */
  lemma {:induction false} SplitCount<T>(s: seq<T>, sep: seq<T>)
    requires |sep| > 0 && NoSelfOverlap(sep)
    ensures |Split(s, sep)| == Occurrences(s, sep) + 1
    decreases |s|
  {
    if s == [] {
    } else if sep <= s {
      SplitCount(s[|sep|..], sep);
      SkipInside(s, sep, 1);
    } else {
      SplitCount(s[1..], sep);
    }
  }
}
