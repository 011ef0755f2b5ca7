// How a stream of bytes is cut into lines: what the uplink handler should make of a stream however
// it arrives (libathemecore/packet.c:35-56, libathemecore/datastream.c:318-369).
module LineStream {
  import opened Basics
  import opened ByteChunks

  const NEWLINE: Byte := 10
  const RETURN: Byte := 13

  // The position of the first newline, or the length if there is none.
  function Find(s: seq<Byte>): (n: nat)
    ensures n <= |s| && NEWLINE !in s[..n] && (n < |s| ==> s[n] == NEWLINE)
  {
    if s == [] || s[0] == NEWLINE then 0 else 1 + Find(s[1..])
  }

  lemma FindIs(s: seq<Byte>, n: nat)
    requires n <= |s| && NEWLINE !in s[..n] && (n < |s| ==> s[n] == NEWLINE)
    ensures Find(s) == n
  {
    var m := Find(s);
    assert forall i :: 0 <= i < n ==> s[i] in s[..n];
    assert forall i :: 0 <= i < m ==> s[i] in s[..m];
  }

  // The length of the first piece that can be taken from a stream: a line with its newline, or max
  // bytes of a longer one; nothing while neither is there.
  function PieceLen(s: seq<Byte>, max: nat): (l: nat)
    ensures l <= |s| && l <= max
  {
    var n := Find(s);
    if n < |s| && n < max then n + 1
    else if |s| >= max then max
    else 0
  }

  function Pieces(s: seq<Byte>, max: nat): seq<seq<Byte>>
    decreases |s|
  {
    var l := PieceLen(s, max);
    if l == 0 then [] else [s[..l]] + Pieces(s[l..], max)
  }

  function Rest(s: seq<Byte>, max: nat): seq<Byte>
    decreases |s|
  {
    var l := PieceLen(s, max);
    if l == 0 then s else Rest(s[l..], max)
  }

  function Flatten(pieces: seq<seq<Byte>>): seq<Byte> {
    if pieces == [] then [] else pieces[0] + Flatten(pieces[1..])
  }

  // Bytes that arrive later do not change a piece that can already be taken.
  lemma PieceLenMore(a: seq<Byte>, b: seq<Byte>, max: nat)
    requires PieceLen(a, max) > 0
    ensures PieceLen(a + b, max) == PieceLen(a, max)
  {
    var n := Find(a);
    if n < |a| {
      assert (a + b)[..n] == a[..n];
      FindIs(a + b, n);
    } else {
      var m := Find(a + b);
      assert a[..n] == a;
      assert forall i :: 0 <= i < |a| ==> (a + b)[i] == a[i] && a[i] in a;
    }
  }

  // The pieces of a stream do not depend on how it is divided into what arrived first and the rest.
  lemma {:induction false} PiecesSplit(a: seq<Byte>, b: seq<Byte>, max: nat)
    ensures Pieces(a + b, max) == Pieces(a, max) + Pieces(Rest(a, max) + b, max)
    ensures Rest(a + b, max) == Rest(Rest(a, max) + b, max)
    decreases |a|
  {
    var l := PieceLen(a, max);
    if l > 0 {
      PieceLenMore(a, b, max);
      assert (a + b)[..l] == a[..l] && (a + b)[l..] == a[l..] + b;
      PiecesSplit(a[l..], b, max);
    }
  }

  lemma PieceShape(s: seq<Byte>, max: nat)
    requires PieceLen(s, max) > 0
    ensures IsPiece(s[..PieceLen(s, max)], max)
  {
    var p, n := s[..PieceLen(s, max)], Find(s);
    assert forall i :: 0 <= i < n ==> s[i] in s[..n];
    assert forall x <- p[..|p| - 1] :: x in s[..n];
  }

  lemma PiecesFirst(s: seq<Byte>, max: nat)
    requires PieceLen(s, max) > 0
    ensures var l := PieceLen(s, max);
      Pieces(s, max) == [s[..l]] + Pieces(s[l..], max) && Rest(s, max) == Rest(s[l..], max)
  {
  }

  lemma FlattenFirst(p: seq<Byte>, pieces: seq<seq<Byte>>)
    ensures Flatten([p] + pieces) == p + Flatten(pieces)
  {
    assert ([p] + pieces)[1..] == pieces;
  }

  lemma Regroup(a: seq<Byte>, b: seq<Byte>, c: seq<Byte>)
    ensures (a + b) + c == a + (b + c)
  {
  }

  // No byte is lost or doubled.
  lemma {:induction false} PiecesCover(s: seq<Byte>, max: nat)
    ensures Flatten(Pieces(s, max)) + Rest(s, max) == s
    decreases |s|
  {
    var l := PieceLen(s, max);
    if l > 0 {
      PiecesCover(s[l..], max);
      PiecesFirst(s, max);
      hide PieceLen, Pieces, Rest, Flatten;
      FlattenFirst(s[..l], Pieces(s[l..], max));
      Regroup(s[..l], Flatten(Pieces(s[l..], max)), Rest(s[l..], max));
      assert s[..l] + s[l..] == s;
    }
  }

  ghost predicate IsPiece(p: seq<Byte>, max: nat) {
    p != [] && NEWLINE !in p[..|p| - 1] && (p[|p| - 1] == NEWLINE || |p| == max)
  }

  // Every piece ends with its only newline or has max bytes.
  lemma {:induction false} PiecesShape(s: seq<Byte>, max: nat)
    ensures forall p <- Pieces(s, max) :: IsPiece(p, max)
    decreases |s|
  {
    var l := PieceLen(s, max);
    if l > 0 {
      PieceShape(s, max);
      PiecesShape(s[l..], max);
      hide PieceLen, IsPiece;
    }
  }

  // What remains is too short to be a piece and has no newline.
  lemma {:induction false} RestIsShort(s: seq<Byte>, max: nat)
    requires max > 0
    ensures NEWLINE !in Rest(s, max) && |Rest(s, max)| < max
    decreases |s|
  {
    var l := PieceLen(s, max);
    if l == 0 {
      assert s[..Find(s)] == s;
    } else {
      RestIsShort(s[l..], max);
    }
  }

  lemma {:induction false} FlattenMore(pieces: seq<seq<Byte>>, p: seq<Byte>)
    ensures Flatten(pieces + [p]) == Flatten(pieces) + p
  {
    if pieces == [] {
      assert Flatten([p]) == p + Flatten([]);
    } else {
      assert (pieces + [p])[1..] == pieces[1..] + [p];
      FlattenMore(pieces[1..], p);
    }
  }

  // ---- what is parsed ----

  predicate Unfinished(p: seq<Byte>) {
    p == [] || p[|p| - 1] != NEWLINE
  }

  // A line without its newline and the carriage return before it.
  function Chomp(p: seq<Byte>): seq<Byte> {
    var q := if p != [] && p[|p| - 1] == NEWLINE then p[..|p| - 1] else p;
    if q != [] && q[|q| - 1] == RETURN then q[..|q| - 1] else q
  }

  predicate LastUnfinished(pieces: seq<seq<Byte>>) {
    pieces != [] && Unfinished(pieces[|pieces| - 1])
  }

  // Only the first piece of a line counts.
  function Lines(pieces: seq<seq<Byte>>): seq<seq<Byte>> {
    if pieces == [] then []
    else
      var n := |pieces| - 1;
      Lines(pieces[..n]) + if LastUnfinished(pieces[..n]) then [] else [Chomp(pieces[n])]
  }

  // ---- lines as they are sent ----

  // A text sent as a line, with a carriage return and newline or, if it does not end with a carriage
  // return itself, with a newline alone.
  ghost predicate LineOf(p: seq<Byte>, text: seq<Byte>) {
    && NEWLINE !in text
    && (p == text + [RETURN, NEWLINE] || (p == text + [NEWLINE] && (text == [] || text[|text| - 1] != RETURN)))
  }

  ghost predicate LinesOf(ps: seq<seq<Byte>>, texts: seq<seq<Byte>>, max: nat) {
    |ps| == |texts| && forall i :: 0 <= i < |ps| ==> LineOf(ps[i], texts[i]) && |ps[i]| <= max
  }

  // What is parsed of a line is its text.
  lemma ChompedIsText(p: seq<Byte>, text: seq<Byte>)
    requires LineOf(p, text)
    ensures Chomp(p) == text && !Unfinished(p)
  {
    if p == text + [RETURN, NEWLINE] {
      assert p[..|p| - 1] == text + [RETURN] && (text + [RETURN])[..|text|] == text;
    } else {
      assert p[..|p| - 1] == text;
    }
  }

  lemma LineIsFirst(p: seq<Byte>, text: seq<Byte>, rest: seq<Byte>, max: nat)
    requires LineOf(p, text) && |p| <= max
    ensures PieceLen(p + rest, max) == |p| && (p + rest)[..|p|] == p && (p + rest)[|p|..] == rest
  {
    var n := |p| - 1;
    assert (p + rest)[..n] == p[..n];
    assert p[..n] == text || p[..n] == text + [RETURN];
    FindIs(p + rest, n);
  }

  lemma {:induction false} PiecesOfLines(ps: seq<seq<Byte>>, texts: seq<seq<Byte>>, max: nat)
    requires LinesOf(ps, texts, max)
    ensures Pieces(Flatten(ps), max) == ps && Rest(Flatten(ps), max) == []
    decreases |ps|
  {
    if ps == [] {
      assert PieceLen([], max) == 0;
    } else {
      LineIsFirst(ps[0], texts[0], Flatten(ps[1..]), max);
      PiecesOfLines(ps[1..], texts[1..], max);
      PiecesFirst(Flatten(ps), max);
    }
  }

  lemma {:induction false} TextsOfLines(ps: seq<seq<Byte>>, texts: seq<seq<Byte>>, max: nat)
    requires LinesOf(ps, texts, max)
    ensures Lines(ps) == texts && !LastUnfinished(ps)
    decreases |ps|
  {
    if ps != [] {
      var n := |ps| - 1;
      TextsOfLines(ps[..n], texts[..n], max);
      ChompedIsText(ps[n], texts[n]);
      assert texts == texts[..n] + [texts[n]];
    }
  }

  // A stream of lines that are not too long is parsed as their texts, in order, and nothing is left.
  lemma LinesAreRead(ps: seq<seq<Byte>>, texts: seq<seq<Byte>>, max: nat)
    requires LinesOf(ps, texts, max)
    ensures Lines(Pieces(Flatten(ps), max)) == texts && Rest(Flatten(ps), max) == []
  {
    PiecesOfLines(ps, texts, max);
    TextsOfLines(ps, texts, max);
  }
}
