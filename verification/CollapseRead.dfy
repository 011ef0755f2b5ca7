// When match() accepts the same names before and after a mask is collapsed
// (libathemecore/match.c:143-248).
module CollapseRead {
  import opened CaseMap
  import opened Glob
  import opened GlobExact
  import opened Collapse
  import opened CollapseExact

  lemma {:induction false} PrefixMatches(m: Mapping, p: string, name: string) returns (k: nat)
    requires Closed(p) && Matches(m, p + "*", name)
    ensures k <= |name| && Matches(m, p, name[..k])
    decreases |p| + |name|
  {
    if p == "" {
      k := 0;
    } else {
      EscapesPrefix(p, "*");
      if p[0] == '*' && Matches(m, p[1..] + "*", name) {
        k := PrefixMatches(m, p[1..], name);
      } else {
        var j := PrefixMatches(m, if p[0] == '*' then p else Tail(p), name[1..]);
        k := j + 1;
        assert name[..k][1..] == name[1..][..j];
      }
    }
  }

  lemma {:induction false} StarBehindMatches(m: Mapping, p: string, name: string, k: nat)
    requires k <= |name| && Closed(p) && Matches(m, p, name[..k])
    ensures Matches(m, p + "*", name)
    decreases |p| + |name|
  {
    if p == "" {
      assert p + "*" == "*";
      StarMatchesAll(m, name);
    } else {
      EscapesPrefix(p, "*");
      if p[0] == '*' && Matches(m, p[1..], name[..k]) {
        StarBehindMatches(m, p[1..], name, k);
      } else {
        assert name[..k][1..] == name[1..][..k - 1];
        StarBehindMatches(m, if p[0] == '*' then p else Tail(p), name[1..], k - 1);
      }
    }
  }

  lemma StarBehindBoth(m: Mapping, x: string, y: string)
    requires SameMasks(m, x, y) && Closed(x) && Closed(y)
    ensures SameMasks(m, x + "*", y + "*")
  {
    forall name ensures Matches(m, x + "*", name) <==> Matches(m, y + "*", name) {
      if Matches(m, x + "*", name) {
        var k := PrefixMatches(m, x, name);
        StarBehindMatches(m, y, name, k);
      }
      if Matches(m, y + "*", name) {
        var k := PrefixMatches(m, y, name);
        StarBehindMatches(m, x, name, k);
      }
    }
  }

  lemma LooseIsClosed(mask: string)
    requires LooseTail(mask)
    ensures Closed(mask) && Read(mask) == mask + "*"
  {
    WalkedOver(mask, |mask| - 1);
  }

  // Behind a star this ending makes the shortcut go wrong.
  predicate EndsLoose(t: string) {
    IsEnding(t) && ('&' in t || '#' in t)
  }

  // The shortcut goes wrong at a star of p, one at its front counting only if counts says so.
  predicate LooseIn(counts: bool, p: string)
    decreases |p|
  {
    p != "" && ((counts && p[0] == '*' && EndsLoose(p[1..])) || LooseIn(p[0] != '\\', p[1..]))
  }

  lemma {:induction false} LooseInAt(counts: bool, p: string, j: nat)
    requires j < |p| && p[j] == '*' && EndsLoose(p[j + 1..]) && (if j == 0 then counts else p[j - 1] != '\\')
    ensures LooseIn(counts, p)
    decreases j
  {
    if j > 0 {
      assert p[1..][j - 1 + 1..] == p[j + 1..];
      LooseInAt(p[0] != '\\', p[1..], j - 1);
    }
  }

  lemma {:induction false} LooseInHas(counts: bool, p: string) returns (j: nat)
    requires LooseIn(counts, p)
    ensures j < |p| && p[j] == '*' && EndsLoose(p[j + 1..]) && (if j == 0 then counts else p[j - 1] != '\\')
    decreases |p|
  {
    if counts && p[0] == '*' && EndsLoose(p[1..]) {
      j := 0;
    } else {
      var i := LooseInHas(p[0] != '\\', p[1..]);
      j := i + 1;
      assert p[1..][i + 1..] == p[j + 1..];
    }
  }

  lemma {:induction false} WalkBackTo(mask: string, i: nat, j: nat)
    requires j <= i < |mask| && mask[j] !in ENDING && IsEnding(mask[j + 1..])
    ensures WalkBack(mask, i) == j
  {
    if j < i {
      assert mask[i] == mask[j + 1..][i - j - 1];
      WalkBackTo(mask, i - 1, j);
    }
  }

  lemma LooseTailIs(p: string)
    ensures LooseTail(p) <==> LooseIn(false, p)
  {
    if LooseTail(p) {
      LooseTailIn(p);
    }
    if LooseIn(false, p) {
      LooseInTail(p);
    }
  }

  lemma LooseTailIn(p: string)
    requires LooseTail(p)
    ensures LooseIn(false, p)
  {
    var a, t := SplitOpen(p);
    hide WalkBack, LooseIn, IsEnding;
    assert p[|a|] == '*' && p[|a| + 1..] == t && p[|a| - 1] == a[|a| - 1];
    LooseInAt(false, p, |a|);
  }

  lemma LooseInTail(p: string)
    requires LooseIn(false, p)
    ensures LooseTail(p)
  {
    hide WalkBack, LooseIn, IsEnding;
    var j := LooseInHas(false, p);
    WalkBackTo(p, |p| - 1, j);
  }

  // What stands behind the run of stars and question marks at the front.
  function Past(r: string): (x: string)
    ensures x != "" ==> x[0] !in "*?"
  {
    if r != "" && r[0] in "*?" then Past(r[1..]) else r
  }

  lemma EndingFirst(c: char, x: string)
    ensures EndsLoose([c] + x) <==> (c == '?' && EndsLoose(x)) || (c in "&#" && IsEnding(x))
  {
    assert ([c] + x)[0] == c && forall d <- x :: d in [c] + x;
    assert forall d <- [c] + x :: d == c || d in x;
    assert IsEnding([c] + x) <==> c in ENDING && IsEnding(x);
  }

  lemma {:induction false} NoStarNotLoose(counts: bool, x: string)
    requires '*' !in x
    ensures !LooseIn(counts, x)
    decreases |x|
  {
    if x != "" {
      assert x[0] in x && forall c <- x[1..] :: c in x;
      NoStarNotLoose(x[0] != '\\', x[1..]);
    }
  }

  lemma EndingHasNoStar(x: string)
    requires EndsLoose(x)
    ensures '*' !in x && '\\' !in x && !LooseIn(true, x) && !StarAhead(x)
  {
    assert forall c <- x :: c in ENDING;
    NoStarNotLoose(true, x);
    if StarAhead(x) {
      StarIsIn(x);
    }
  }

  lemma {:induction false} StarIsIn(x: string)
    requires StarAhead(x)
    ensures '*' in x
  {
    if x[0] == '?' {
      StarIsIn(x[1..]);
    }
  }

  // Behind a star: whether the shortcut goes wrong at a star of the run, or further on.
  lemma {:induction false} RunLoose(r: string)
    ensures LooseIn(true, r) <==> (StarAhead(r) && EndsLoose(Past(r))) || LooseIn(true, Past(r))
    ensures EndsLoose(r) <==> !StarAhead(r) && EndsLoose(Past(r))
  {
    if r != "" && r[0] in "*?" {
      RunLoose(r[1..]);
      assert r == [r[0]] + r[1..];
      EndingFirst(r[0], r[1..]);
    }
  }

  lemma {:induction false} PastSqueeze(r: string)
    ensures Past(Squeeze(r)) == Past(r)
  {
    if r != "" && r[0] in "*?" {
      PastSqueeze(r[1..]);
      assert r[0] == '?' ==> Squeeze(r)[1..] == Squeeze(r[1..]);
    }
  }

  lemma {:induction false} PastDropStars(r: string)
    ensures Past(DropStars(r)) == Past(r)
  {
    if r != "" && r[0] == '*' {
      PastDropStars(r[1..]);
    }
  }

  lemma PastAfterStar(r: string)
    ensures Past(AfterStar(r)) == Past(r) && (!StarAhead(r) ==> AfterStar(r) == r)
    ensures AfterStar(r) != r && !StarAhead(AfterStar(r)) ==> Lost(r)
  {
    PastSqueeze(r);
    PastDropStars(r);
    if !StarAhead(r) {
      SqueezeNothing(r);
    }
  }

  // An ending stays as it is, and nothing else becomes one.
  lemma {:induction false} EndingStays(x: string)
    ensures EndsLoose(Collapsed(x)) <==> EndsLoose(x)
    ensures IsEnding(Collapsed(x)) <==> IsEnding(x)
    ensures IsEnding(x) ==> Collapsed(x) == x
  {
    if x != "" {
      var q := Collapsed(x);
      assert q[0] == x[0] && x[0] in x && q[0] in q;
      if x[0] in ENDING {
        EndingStays(x[1..]);
        assert q[1..] == Collapsed(x[1..]) && q == [x[0]] + q[1..] && x == [x[0]] + x[1..];
        EndingFirst(x[0], q[1..]);
        EndingFirst(x[0], x[1..]);
        assert forall c <- x :: c == x[0] || c in x[1..];
        assert forall c <- q :: c == x[0] || c in q[1..];
        assert forall c <- x[1..] :: c in x;
        assert forall c <- q[1..] :: c in q;
      }
    }
  }

  // The only star behind which the shortcut would go wrong is taken for one run with the star at
  // the front, where the shortcut is not used.
  predicate Shortcut(p: string) {
    p != "" && p[0] == '*' && AfterStar(p[1..]) != p[1..] && EndsLoose(AfterStar(p[1..]))
  }

  lemma StarLoose(counts: bool, r: string, d: string, c: string)
    requires d == AfterStar(r) && c == Collapsed(d) && (LooseIn(true, c) <==> LooseIn(true, d))
    ensures EndsLoose(Past(r)) ==> (LooseIn(counts, "*" + r) <==> counts || StarAhead(r))
    ensures EndsLoose(Past(r)) ==> (LooseIn(counts, "*" + c) <==> counts || StarAhead(d))
    ensures !EndsLoose(Past(r)) ==> (LooseIn(counts, "*" + r) <==> LooseIn(counts, "*" + c))
  {
    assert ("*" + r)[1..] == r && ("*" + c)[1..] == c;
    RunLoose(r);
    RunLoose(d);
    PastAfterStar(r);
    EndingStays(d);
    if EndsLoose(Past(r)) {
      EndingHasNoStar(Past(r));
    }
  }

  lemma {:induction false} LooseStays(counts: bool, p: string)
    requires Keeps(p) && (counts || !Shortcut(p))
    ensures LooseIn(counts, Collapsed(p)) <==> LooseIn(counts, p)
    decreases |p|
  {
    var q := Collapsed(p);
    hide EndsLoose;
    if p == "" || p == "\\" {
    } else if p[0] == '*' {
      var r := p[1..];
      var d := AfterStar(r);
      AfterStarMeans(Ascii, r);
      LooseStays(true, d);
      assert p == "*" + r && q == "*" + Collapsed(d);
      StarLoose(counts, r, d, Collapsed(d));
      PastAfterStar(r);
      RunLoose(d);
    } else if p[0] != '\\' {
      LooseStays(true, p[1..]);
      assert q[1..] == Collapsed(p[1..]);
    } else {
      var x := p[2..];
      assert q[..2] == p[..2] && q[2..] == Collapsed(x) && p[1..][1..] == x && q[1..][1..] == Collapsed(x);
      if p[1] == '\\' && x != "" && x[0] == '*' {
        assert x[1..] == p[3..];
        PastAfterStar(x[1..]);
        NotAhead(AfterStar(x[1..]));
      }
      LooseStays(p[1] != '\\', x);
    }
  }

  lemma NotAhead(x: string)
    ensures EndsLoose(x) ==> !StarAhead(x)
  {
    if EndsLoose(x) {
      EndingHasNoStar(x);
    }
  }

  lemma ShortcutIsOne(p: string)
    requires Shortcut(p)
    ensures Keeps(p) && LooseTail(p) && !LooseTail(Collapsed(p))
  {
    var r := p[1..];
    var d := AfterStar(r);
    EndingStays(d);
    EndingHasNoStar(d);
    PastAfterStar(r);
    RunLoose(d);
    StarLoose(false, r, d, Collapsed(d));
    assert p == "*" + r && Collapsed(p) == "*" + d;
    LooseTailIs(p);
    LooseTailIs(Collapsed(p));
    NoBackslashKeeps(d);
    AfterStarMeans(Ascii, r);
  }

  lemma {:induction false} NoBackslashKeeps(x: string)
    requires '\\' !in x
    ensures Keeps(x)
  {
    if x != "" {
      assert x[0] in x && forall c <- x[1..] :: c in x;
      NoBackslashKeeps(x[1..]);
    }
  }

  // A mask that is read with a star more.
  lemma ShutIsNotOpen(p: string)
    requires Shut(p)
    ensures Read(p) == p
  {
    hide WalkBack, Questions, IsEnding;
    var i :| 0 < i < |p| && p[i] == '*' && p[i - 1] == '\\' && Questions(p[i + 1..]);
    QuestionsAreEnding(p[i + 1..]);
    WalkBackTo(p, |p| - 1, i);
  }

  lemma QuestionsAreEnding(t: string)
    requires Questions(t)
    ensures IsEnding(t)
  {
  }

  // The name a mask loses is lost for match() as well.
  lemma LostForMatch(m: Mapping, p: string, q: string, name: string)
    requires Matches(m, p, name) && Stuck(m, q, name)
    ensures Matches(m, Read(p), name) && !Matches(m, Read(q), name)
  {
    assert name[..|name|] == name;
    if OpenEnded(p) {
      WalkedOver(p, |p| - 1);
      StarBehindMatches(m, p, name, |name|);
    }
    if OpenEnded(q) && Matches(m, q + "*", name) {
      WalkedOver(q, |q| - 1);
      if Shut(q) {
        ShutIsNotOpen(q);
      }
      var k := PrefixMatches(m, q, name);
      TooShort(m, q, name[..k]);
    }
  }

  // match() accepts the same names before and after collapsing, if and only if the mask keeps its
  // meaning and its shortcut is not lost.
  lemma ReadExactly(m: Mapping, p: string)
    ensures SameMasks(m, Read(Collapsed(p)), Read(p)) <==> Keeps(p) && !Shortcut(p)
  {
    if !Keeps(p) {
      var name := Loses(m, p);
      LostForMatch(m, p, Collapsed(p), name);
    } else {
      ReadKept(m, p);
      if Shortcut(p) {
        ShortcutIsOne(p);
      } else {
        LooseStays(false, p);
        LooseTailIs(p);
        LooseTailIs(Collapsed(p));
      }
    }
  }

  // For a mask that keeps its meaning: its shortcut goes wrong for both masks or for neither.
  lemma ReadKept(m: Mapping, p: string)
    requires Keeps(p)
    ensures SameMasks(m, Read(Collapsed(p)), Read(p)) <==> (LooseTail(Collapsed(p)) <==> LooseTail(p))
  {
    var q := Collapsed(p);
    CollapsedMeans(m, p);
    ExactlyWhen(m, p);
    ExactlyWhen(m, q);
    if LooseTail(p) && LooseTail(q) {
      LooseIsClosed(p);
      LooseIsClosed(q);
      StarBehindBoth(m, q, p);
    } else if LooseTail(p) {
      var name := LooseName(m, p);
    } else if LooseTail(q) {
      var name := LooseName(m, q);
    }
  }

  // Collapsing can so take away names that match() accepted: those with no star behind the first one.
  lemma ShortcutLost()
    ensures var p := "**#"; Keeps(p) && LooseTail(p) && Collapsed(p) == "*#" && !LooseTail(Collapsed(p))
  {
    var p := "**#";
    assert p[1..] == "*#" && "*#"[1..] == "#" && "#"[1..] == "";
    assert WalkBack(p, 2) == 1 && p[2..] == "#" && '#' in p[2..];
    assert DropStars("*#") == "#" && Collapsed("#") == "#" && WalkBack("*#", 1) == 0;
  }
}
