// When collapse() keeps what a mask matches, and when it leaves nothing to collapse
// (libathemecore/match.c:215-248).
module CollapseExact {
  import opened CaseMap
  import opened Glob
  import opened GlobExact
  import opened Collapse

  // A star stands in the run of stars and question marks at the front.
  predicate StarAhead(r: string) {
    r != "" && (r[0] == '*' || (r[0] == '?' && StarAhead(r[1..])))
  }

  // What follows a star that match() takes for an escaped one loses its only star, or stars.
  predicate Lost(r: string) {
    r != "" && if r[0] == '?' then StarAhead(r) else r[0] == '*' && !StarAhead(DropStars(r))
  }

  // collapse() takes a star behind two backslashes for one that is not escaped, and match() takes
  // it for an escaped one. That does no harm as long as what follows is not lost.
  predicate Keeps(p: string)
    decreases |p|
  {
    if p == "" || p == "\\" then true
    else if p[0] == '\\' then !(p[1] == '\\' && |p| > 2 && p[2] == '*' && Lost(p[3..])) && Keeps(p[2..])
    else Keeps(p[1..])
  }

  // In particular every mask without two backslashes in a row.
  lemma {:induction false} NoDoubleBackslash(p: string)
    requires forall i :: 0 < i < |p| ==> !(p[i - 1] == '\\' && p[i] == '\\')
    ensures Keeps(p)
    decreases |p|
  {
    if p != "" && p != "\\" {
      assert p[0] == '\\' ==> p[1] != '\\';
      NoDoubleBackslash(if p[0] == '\\' then p[2..] else p[1..]);
    }
  }

  // ---- runs of stars and question marks ----

  lemma {:induction false} DropStarsMeans(m: Mapping, p: string, name: string)
    ensures (Keeps(DropStars(p)) <==> Keeps(p)) && (Matches(m, "*" + p, name) <==> Matches(m, "*" + DropStars(p), name))
    decreases |p|
  {
    if p != "" && p[0] == '*' {
      DropStarsMeans(m, p[1..], name);
      TwoStars(m, "*" + p, name);
      assert ("*" + p)[1..] == p == "*" + p[1..];
    }
  }

  // A star and a question mark may change places.
  lemma {:induction false} StarQuestionSwap(m: Mapping, x: string, name: string)
    ensures Matches(m, "*?" + x, name) <==> Matches(m, "?*" + x, name)
    decreases |name|
  {
    assert ("*?" + x)[1..] == "?" + x && ("?" + x)[1..] == x;
    assert ("?*" + x)[1..] == "*" + x && ("*" + x)[1..] == x;
    if name != "" {
      StarQuestionSwap(m, x, name[1..]);
    }
  }

  lemma BehindQuestion(m: Mapping, x: string, y: string)
    requires SameMasks(m, "*" + x, "*" + y)
    ensures SameMasks(m, "*?" + x, "*?" + y)
  {
    forall name ensures Matches(m, "*?" + x, name) <==> Matches(m, "*?" + y, name) {
      StarQuestionSwap(m, x, name);
      StarQuestionSwap(m, y, name);
      Replace(m, "?", "*" + x, "*" + y, name);
      assert "?" + ("*" + x) == "?*" + x && "?" + ("*" + y) == "?*" + y;
    }
  }

  lemma {:induction false} SqueezeKeeps(p: string)
    ensures Keeps(Squeeze(p)) <==> Keeps(p)
    decreases |p|
  {
    if p != "" && (p[0] == '?' || p[0] == '*') {
      SqueezeKeeps(p[1..]);
      assert p[0] == '?' ==> Squeeze(p)[1..] == Squeeze(p[1..]);
    }
  }

  lemma StarDropped(m: Mapping, rest: string, y: string)
    requires SameMasks(m, "*" + rest, y)
    ensures SameMasks(m, "**" + rest, y)
  {
    forall name ensures Matches(m, "**" + rest, name) <==> Matches(m, y, name) {
      assert ("**" + rest)[1..] == "*" + rest;
      TwoStars(m, "**" + rest, name);
    }
  }

  lemma {:induction false} SqueezeMeans(m: Mapping, p: string)
    ensures SameMasks(m, "*" + p, "*" + Squeeze(p))
    decreases |p|
  {
    SqueezeTexts(p);
    hide SameMasks, Squeeze;
    if p != "" && p[0] == '*' {
      SqueezeMeans(m, p[1..]);
      StarDropped(m, p[1..], "*" + Squeeze(p[1..]));
    } else if p != "" && p[0] == '?' {
      SqueezeMeans(m, p[1..]);
      BehindQuestion(m, p[1..], Squeeze(p[1..]));
    } else {
      SameAsItself(m, "*" + p);
    }
  }

  lemma SameAsItself(m: Mapping, x: string)
    ensures SameMasks(m, x, x)
  {
  }

  lemma SqueezeTexts(p: string)
    ensures p != "" && p[0] == '*' ==> "*" + p == "**" + p[1..] && Squeeze(p) == Squeeze(p[1..])
    ensures p != "" && p[0] == '?' ==> "*" + p == "*?" + p[1..] && "*" + Squeeze(p) == "*?" + Squeeze(p[1..])
    ensures p == "" || p[0] !in "*?" ==> Squeeze(p) == p
  {
  }

  lemma AfterStarMeans(m: Mapping, rest: string)
    ensures (Keeps(AfterStar(rest)) <==> Keeps(rest)) && SameMasks(m, "*" + rest, "*" + AfterStar(rest))
  {
    if rest != "" && rest[0] == '*' {
      forall name ensures Matches(m, "*" + rest, name) <==> Matches(m, "*" + AfterStar(rest), name) {
        DropStarsMeans(m, rest, name);
      }
      DropStarsMeans(m, rest, "");
    } else if rest != "" && rest[0] == '?' {
      SqueezeMeans(m, rest);
      SqueezeKeeps(rest);
    }
  }

  lemma {:induction false} SqueezeNothing(p: string)
    requires !StarAhead(p)
    ensures Squeeze(p) == p && AfterStar(p) == p
  {
    if p != "" && p[0] == '?' {
      SqueezeNothing(p[1..]);
    }
  }

  // A star before a run that has one adds nothing.
  lemma {:induction false} StarBefore(m: Mapping, p: string)
    requires StarAhead(p)
    ensures SameMasks(m, "*" + p, p)
    decreases |p|
  {
    if p[0] == '*' {
      forall name ensures Matches(m, "*" + p, name) <==> Matches(m, p, name) {
        assert ("*" + p)[1..] == p;
        TwoStars(m, "*" + p, name);
      }
    } else {
      var x := p[1..];
      StarBefore(m, x);
      assert p == "?" + x && "*" + p == "*?" + x && "?" + ("*" + x) == "?*" + x;
      forall name ensures Matches(m, "*" + p, name) <==> Matches(m, p, name) {
        StarQuestionSwap(m, x, name);
        Replace(m, "?", "*" + x, x, name);
      }
    }
  }

  lemma NotLostMeans(m: Mapping, r: string)
    requires !Lost(r)
    ensures SameMasks(m, AfterStar(r), r)
  {
    if r != "" && r[0] == '*' {
      var d := DropStars(r);
      StarBefore(m, d);
      assert r == "*" + r[1..] && DropStars(r[1..]) == d;
      forall name ensures Matches(m, d, name) <==> Matches(m, r, name) {
        DropStarsMeans(m, r[1..], name);
      }
    } else {
      SqueezeNothing(r);
    }
  }

  // Two backslashes in front: the second one escapes what follows, or both stand for themselves.
  lemma DoubleBackslash(m: Mapping, x: string, y: string)
    requires SameMasks(m, x, y)
    requires x == "" <==> y == ""
    requires x != "" ==> x[0] == y[0] && (x[0] in WILD ==> SameMasks(m, x[1..], y[1..]))
    ensures SameMasks(m, "\\\\" + x, "\\\\" + y)
  {
    var p, q := "\\" + x, "\\" + y;
    assert p[1..] == x && q[1..] == y;
    if x != "" {
      assert p[1] == x[0] == q[1] && p[2..] == x[1..] && q[2..] == y[1..];
    }
    forall name ensures Matches(m, p, name) <==> Matches(m, q, name) {
    }
    forall name ensures Matches(m, "\\\\" + x, name) <==> Matches(m, "\\\\" + y, name) {
      assert ("\\\\" + x)[1..] == p && ("\\\\" + y)[1..] == q;
    }
  }

  // A collapsed mask matches what the mask matched.
  lemma {:induction false} CollapsedMeans(m: Mapping, p: string)
    requires Keeps(p)
    ensures SameMasks(m, Collapsed(p), p)
    decreases |p|
  {
    if p == "" || p == "\\" {
    } else if p[0] == '\\' {
      var x := p[2..];
      CollapsedMeans(m, x);
      assert p == p[..2] + x;
      if p[1] == '\\' {
        assert p[..2] == "\\\\";
        if x != "" && x[0] == '*' {
          assert x[1..] == p[3..];
          AfterStarMeans(m, x[1..]);
          CollapsedMeans(m, AfterStar(x[1..]));
          NotLostMeans(m, x[1..]);
          assert Collapsed(x)[1..] == Collapsed(AfterStar(x[1..]));
        } else if x != "" && x[0] in WILD {
          CollapsedMeans(m, x[1..]);
          assert Collapsed(x)[1..] == Collapsed(x[1..]);
        }
        DoubleBackslash(m, Collapsed(x), x);
      } else {
        forall name ensures Matches(m, p[..2] + Collapsed(x), name) <==> Matches(m, p, name) {
          Replace(m, p[..2], Collapsed(x), x, name);
        }
      }
    } else if p[0] == '*' {
      var x := AfterStar(p[1..]);
      AfterStarMeans(m, p[1..]);
      CollapsedMeans(m, x);
      assert p == "*" + p[1..];
      forall name ensures Matches(m, "*" + Collapsed(x), name) <==> Matches(m, p, name) {
        Replace(m, "*", Collapsed(x), x, name);
      }
    } else {
      CollapsedMeans(m, p[1..]);
      assert p == [p[0]] + p[1..];
      forall name ensures Matches(m, Collapsed(p), name) <==> Matches(m, p, name) {
        Replace(m, [p[0]], Collapsed(p[1..]), p[1..], name);
      }
    }
  }

  // ---- a name that tells the difference ----

  function Tail(p: string): string
    requires p != ""
  {
    if Escapes(p) then p[2..] else p[1..]
  }

  // The mask ends in question marks right behind an escaped star.
  ghost predicate Shut(p: string) {
    exists i :: 0 < i < |p| && p[i] == '*' && p[i - 1] == '\\' && Questions(p[i + 1..])
  }

  // The name is one character too long for the mask with its stars taken for nothing, and matches
  // neither with a star taking something nor without its first character, nor without its last one.
  ghost predicate Stuck(m: Mapping, p: string, name: string) {
    && |name| == |Literal(p)| + 1 && !Matches(m, p, name) && !Matches(m, p, name[1..])
    && (Shut(p) || !Matches(m, p, name[..|name| - 1]))
  }

  lemma ShutBehind(p: string, k: nat)
    requires k <= |p| && Shut(p[k..])
    ensures Shut(p)
  {
    var x := p[k..];
    var i :| 0 < i < |x| && x[i] == '*' && x[i - 1] == '\\' && Questions(x[i + 1..]);
    assert p[k + i] == x[i] && p[k + i - 1] == x[i - 1] && p[k + i + 1..] == x[i + 1..];
  }

  lemma {:induction false} TooShort(m: Mapping, p: string, name: string)
    requires Matches(m, p, name)
    ensures |name| >= |Literal(p)|
    decreases |p| + |name|
  {
    if p != "" {
      if p[0] != '*' {
        TooShort(m, Tail(p), name[1..]);
      } else if Matches(m, p[1..], name) {
        TooShort(m, p[1..], name);
      } else {
        TooShort(m, p, name[1..]);
      }
    }
  }

  lemma StuckBehindStar(m: Mapping, p: string, name: string)
    requires p != "" && p[0] == '*' && Stuck(m, p[1..], name)
    ensures Stuck(m, p, name)
  {
    if Matches(m, p, name[1..]) && |name| > 1 && Matches(m, p, name[1..][1..]) {
      TooShort(m, p, name[1..][1..]);
    }
    var front := name[..|name| - 1];
    if front != "" && Matches(m, p, front[1..]) {
      TooShort(m, p, front[1..]);
    }
    if Shut(p[1..]) {
      ShutBehind(p, 1);
    }
  }

  lemma StuckBehind(m: Mapping, p: string, name: string)
    requires p != "" && p[0] != '*' && name != "" && Stuck(m, Tail(p), name[1..])
    ensures Stuck(m, p, name)
  {
    assert name[..|name| - 1][1..] == name[1..][..|name[1..]| - 1];
    if Shut(Tail(p)) {
      ShutBehind(p, if Escapes(p) then 2 else 1);
    }
  }

  // A character that does not match the first one of a mask without question marks and stars there.
  function Misfit(m: Mapping, p: string): (c: char)
    requires p != "" && p[0] !in "*?"
    ensures if Escapes(p) then !Same(m, p[1], c) else !Fits(m, p[0], c)
  {
    if Escapes(p) then 'a'
    else if p[0] in "&#" then '!'
    else if p[0] == '%' || !Same(m, p[0], 'a') then 'a'
    else 'b'
  }

  function Behind(d: string): (r: string)
    ensures !StarAhead(d) && r != "" ==> r[0] !in "*?"
  {
    if d != "" && d[0] == '?' then Behind(d[1..]) else d
  }

  // The question marks at the front filled with a character; behind them what the mask spells.
  function Filled(d: string, c: char): string {
    if d != "" && d[0] == '?' then [c] + Filled(d[1..], c) else Literal(d)
  }

  lemma {:induction false} LiteralMatchesIt(m: Mapping, p: string)
    ensures Matches(m, p, Literal(p))
    decreases |p|
  {
    if p != "" {
      LiteralMatchesIt(m, if p[0] == '*' then p[1..] else Tail(p));
    }
  }

  lemma {:induction false} FilledMatches(m: Mapping, r: string, c: char)
    ensures Matches(m, r, Filled(Squeeze(r), c))
    decreases |r|
  {
    if r != "" && r[0] in "?*" {
      FilledMatches(m, r[1..], c);
      assert r[0] == '?' ==> Squeeze(r)[1..] == Squeeze(r[1..]);
    } else {
      LiteralMatchesIt(m, r);
    }
  }

  // With a star there is room for one more character.
  lemma {:induction false} RoomForOne(m: Mapping, r: string, c: char)
    requires StarAhead(r)
    ensures Matches(m, r, [c] + Filled(Squeeze(r), c))
    decreases |r|
  {
    var name := Filled(Squeeze(r), c);
    assert ([c] + name)[1..] == name;
    if r[0] == '*' {
      FilledMatches(m, r, c);
    } else {
      RoomForOne(m, r[1..], c);
      assert Squeeze(r)[1..] == Squeeze(r[1..]);
    }
  }

  lemma {:induction false} SqueezedHasNone(r: string)
    ensures !StarAhead(Squeeze(r))
    decreases |r|
  {
    if r != "" && r[0] in "?*" {
      SqueezedHasNone(r[1..]);
      assert r[0] == '?' ==> Squeeze(r)[1..] == Squeeze(r[1..]);
    }
  }

  lemma {:induction false} DroppedSqueeze(r: string)
    ensures Squeeze(DropStars(r)) == Squeeze(r)
  {
    if r != "" && r[0] == '*' {
      DroppedSqueeze(r[1..]);
    }
  }

  lemma LostIsSqueezed(r: string)
    requires Lost(r)
    ensures AfterStar(r) == Squeeze(r) && StarAhead(r)
  {
    if r[0] == '*' {
      DroppedSqueeze(r);
      SqueezeNothing(DropStars(r));
    }
  }

  lemma Heads(p: string)
    requires p != ""
    ensures Collapsed(p)[0] == p[0] && (Escapes(Collapsed(p)) <==> Escapes(p))
    ensures Escapes(p) ==> Collapsed(p)[1] == p[1]
  {
  }

  // Without a star there is none.
  lemma {:induction false} NoRoom(m: Mapping, d: string, c: char)
    requires !StarAhead(d)
    requires Behind(d) != "" ==> c == Misfit(m, Behind(d))
    ensures !Matches(m, Collapsed(d), [c] + Filled(d, c))
    decreases |d|
  {
    assert ([c] + Filled(d, c))[1..] == Filled(d, c);
    if d != "" {
      Heads(d);
      if d[0] == '?' {
        NoRoom(m, d[1..], c);
        assert Collapsed(d)[1..] == Collapsed(d[1..]);
      }
    }
  }

  lemma {:induction false} NoRoomBefore(m: Mapping, d: string, c: char)
    requires !StarAhead(d) && Behind(d) != "" && c == Misfit(m, Behind(d))
    ensures !Matches(m, Collapsed(d), ([c] + Filled(d, c))[..|Filled(d, c)|])
    decreases |d|
  {
    var name := [c] + Filled(d, c);
    Heads(d);
    if d[0] == '?' {
      NoRoomBefore(m, d[1..], c);
      assert Collapsed(d)[1..] == Collapsed(d[1..]);
      assert name[..|Filled(d, c)|][1..] == ([c] + Filled(d[1..], c))[..|Filled(d[1..], c)|];
    } else {
      assert name[..|Literal(d)|][0] == c;
    }
  }

  lemma {:induction false} OnlyQuestions(d: string)
    requires Behind(d) == ""
    ensures Questions(d) && Collapsed(d) == d
  {
    if d != "" {
      OnlyQuestions(d[1..]);
      assert forall c <- d :: c == d[0] || c in d[1..];
    }
  }

  lemma {:induction false} SqueezeSpells(r: string)
    ensures Literal(Squeeze(r)) == Literal(r)
    decreases |r|
  {
    if r != "" && r[0] in "?*" {
      SqueezeSpells(r[1..]);
      assert r[0] == '?' ==> Squeeze(r)[1..] == Squeeze(r[1..]);
    }
  }

  lemma {:induction false} DropStarsSpells(r: string)
    ensures Literal(DropStars(r)) == Literal(r)
  {
    if r != "" && r[0] == '*' {
      DropStarsSpells(r[1..]);
    }
  }

  lemma AfterStarSpells(r: string)
    ensures Literal(AfterStar(r)) == Literal(r)
  {
    SqueezeSpells(r);
    DropStarsSpells(r);
  }

  lemma {:induction false} FilledLength(d: string, c: char)
    ensures |Filled(d, c)| == |Literal(d)|
  {
    if d != "" && d[0] == '?' {
      FilledLength(d[1..], c);
    }
  }

  // What is spelled stays the same.
  lemma {:induction false} CollapsedSpells(p: string)
    ensures Literal(Collapsed(p)) == Literal(p)
    decreases |p|
  {
    if p == "" || p == "\\" {
    } else if p[0] == '*' {
      CollapsedSpells(AfterStar(p[1..]));
      AfterStarSpells(p[1..]);
      assert Collapsed(p)[1..] == Collapsed(AfterStar(p[1..]));
    } else if p[0] != '\\' {
      CollapsedSpells(p[1..]);
      assert Collapsed(p)[1..] == Collapsed(p[1..]);
    } else {
      var x, q := p[2..], Collapsed(p);
      CollapsedSpells(x);
      assert q[2..] == Collapsed(x) && q[..2] == p[..2];
      if !Escapes(p) {
        assert q[1..] == [p[1]] + Collapsed(x) && p[1..] == [p[1]] + x;
        if Escapes(p[1..]) {
          Heads(x);
          var y := if x[0] == '*' then AfterStar(x[1..]) else x[1..];
          CollapsedSpells(y);
          AfterStarSpells(x[1..]);
          assert q[1..][2..] == Collapsed(y);
        } else if x != "" {
          Heads(x);
        }
      }
    }
  }

  // Two backslashes and a star match a backslash and a star.
  lemma TwoAndStar(m: Mapping, z: string, x: string, rest: string)
    requires z == "\\\\*" + x && rest != ""
    ensures var name := "\\*" + rest;
      (Matches(m, z, name) <==> Matches(m, x, rest)) && !Matches(m, z, name[1..]) && |Literal(z)| == 2 + |Literal(x)| &&
      (Matches(m, z, name[..|name| - 1]) <==> Matches(m, x, rest[..|rest| - 1]))
    ensures Questions(x) ==> Shut(z)
  {
    var name := "\\*" + rest;
    assert z[1..] == "\\*" + x && z[1..][2..] == x && z[3..] == x;
    assert name[1..] == "*" + rest && name[1..][1..] == rest;
    assert name[..|name| - 1][1..][1..] == rest[..|rest| - 1];
    assert z[2] == '*' && z[1] == '\\';
  }

  // The name for a mask that loses its meaning right behind two backslashes.
  lemma LosesHere(m: Mapping, p: string) returns (name: string)
    requires |p| > 2 && p[..3] == "\\\\*" && Lost(p[3..])
    ensures Matches(m, p, name) && Stuck(m, Collapsed(p), name)
  {
    var r, q := p[3..], Collapsed(p);
    var d := AfterStar(r);
    assert p == "\\\\*" + r && p[2..] == "*" + r && p[2..][1..] == r;
    assert Collapsed(p[2..]) == "*" + Collapsed(d) && q == p[..2] + Collapsed(p[2..]);
    assert p[..2] == p[..3][..2] == "\\\\";
    assert q == "\\\\*" + Collapsed(d);
    hide Collapsed, Matches, Lost, Literal, AfterStar, Shut;
    LostIsSqueezed(r);
    SqueezedHasNone(r);
    var c := if Behind(d) == "" then 'a' else Misfit(m, Behind(d));
    var rest := [c] + Filled(d, c);
    hide Filled, Behind, Misfit, Squeeze, StarAhead;
    RoomForOne(m, r, c);
    NoRoom(m, d, c);
    FilledLength(d, c);
    CollapsedSpells(d);
    name := "\\*" + rest;
    TwoAndStar(m, p, r, rest);
    TwoAndStar(m, q, Collapsed(d), rest);
    if Behind(d) == "" {
      OnlyQuestions(d);
    } else {
      NoRoomBefore(m, d, c);
      assert rest[..|rest| - 1] == rest[..|Filled(d, c)|];
    }
  }

  // A name that the mask matches and the collapsed mask does not.
  lemma {:induction false} Loses(m: Mapping, p: string) returns (name: string)
    requires !Keeps(p)
    ensures Matches(m, p, name) && Stuck(m, Collapsed(p), name)
    decreases |p|
  {
    hide Matches, Stuck, Literal, Lost;
    var q := Collapsed(p);
    if p[0] == '*' {
      var r := p[1..];
      AfterStarMeans(m, r);
      name := Loses(m, AfterStar(r));
      assert q[1..] == Collapsed(AfterStar(r));
      StarEmpty(m, "*" + AfterStar(r), name) by { assert ("*" + AfterStar(r))[1..] == AfterStar(r); }
      assert p == "*" + r;
      StuckBehindStar(m, q, name);
    } else if p[0] != '\\' {
      name := Loses(m, p[1..]);
      assert q[1..] == Collapsed(p[1..]);
      name := More(m, p, q, p[0], name);
    } else {
      var x := p[2..];
      assert q[..2] == p[..2] && q[2..] == Collapsed(x);
      if p[1] == '\\' && x != "" && x[0] in WILD {
        if x[0] == '*' && Lost(x[1..]) {
          assert x[1..] == p[3..];
          name := LosesHere(m, p);
        } else {
          var y := if x[0] == '*' then AfterStar(x[1..]) else x[1..];
          AfterStarMeans(m, x[1..]);
          name := Loses(m, y);
          if x[0] == '*' {
            NotLostMeans(m, x[1..]);
          }
          assert q[1..][2..] == Collapsed(y) && p[1..][2..] == x[1..];
          name := More(m, p[1..], q[1..], x[0], name);
          name := More(m, p, q, p[0], name);
        }
      } else {
        name := Loses(m, x);
        if !Escapes(p) {
          assert p[1..][1..] == x && q[1..][1..] == Collapsed(x);
          Heads(x);
          name := More(m, p[1..], q[1..], p[1], name);
          name := More(m, p, q, p[0], name);
        } else {
          name := More(m, p, q, p[1], name);
        }
      }
    }
  }

  // One character more in front.
  lemma More(m: Mapping, p: string, q: string, c: char, rest: string) returns (name: string)
    requires p != "" && q != "" && p[0] == q[0] != '*' && (Escapes(p) <==> Escapes(q))
    requires c == if Escapes(p) then p[1] else p[0]
    requires Matches(m, Tail(p), rest) && Stuck(m, Tail(q), rest)
    ensures Matches(m, p, name) && Stuck(m, q, name)
  {
    name := [c] + rest;
    assert name[1..] == rest;
    StuckBehind(m, q, name);
  }

  // The collapsed mask matches exactly what the mask matched, if and only if nothing is lost.
  lemma KeepsExactly(m: Mapping, p: string)
    ensures SameMasks(m, Collapsed(p), p) <==> Keeps(p)
  {
    if Keeps(p) {
      CollapsedMeans(m, p);
    } else {
      var name := Loses(m, p);
    }
  }

  // For one, of the mask \\** the collapsed mask \\* loses the only star.
  lemma OutOfStep(m: Mapping)
    ensures var p := "\\\\**";
            && !Keeps(p) && Collapsed(p) == "\\\\*"
            && Matches(m, p, "\\*x") && !Matches(m, Collapsed(p), "\\*x")
  {
    var p, c, name := "\\\\**", "\\\\*", "\\*x";
    assert p[2..] == "**" && p[3..] == "*" && "**"[1..] == "*" && "*"[1..] == "";
    assert AfterStar("*") == "" && Collapsed("") == "" && !StarAhead(DropStars("*"));
    assert Collapsed("**") == "*" && p[..2] + "*" == c;
    assert p[1..] == "\\**" && p[1..][2..] == "*" && name[1..] == "*x" && "*x"[1..] == "x" && "x"[1..] == "";
    StarMatchesAll(m, "x");
    assert Matches(m, p[1..], name[1..]);
    assert c[1..] == "\\*" && c[1..][2..] == "";
    assert !Matches(m, "", "x");
    assert !Matches(m, c[1..], name[1..]);
  }

  // ---- collapsing again ----

  // No star is followed by more stars, then question marks with a star among or behind them: of
  // these stars only the ones before the question marks are taken.
  predicate Settles(p: string)
    decreases |p|
  {
    if p == "" || p == "\\" then true
    else if p[0] == '\\' then Settles(p[2..])
    else if p[0] == '*' then !(p[1..] != "" && p[1] == '*' && StarAhead(DropStars(p[1..]))) && Settles(AfterStar(p[1..]))
    else Settles(p[1..])
  }

  lemma {:induction false} AheadStays(d: string)
    requires d != "" ==> d[0] != '*'
    ensures StarAhead(Collapsed(d)) <==> StarAhead(d)
  {
    if d != "" && d[0] == '?' {
      assert Collapsed(d)[1..] == Collapsed(d[1..]);
      if d[1..] != "" && d[1] == '*' {
        assert Collapsed(d[1..])[0] == '*';
      } else {
        AheadStays(d[1..]);
      }
    }
  }

  lemma {:induction false} SqueezeShortens(p: string)
    requires StarAhead(p)
    ensures |Squeeze(p)| < |p|
  {
    if p[0] == '?' {
      SqueezeShortens(p[1..]);
    }
  }

  lemma FirstBehindStar(r: string)
    ensures AfterStar(r) != "" ==> AfterStar(r)[0] != '*'
    ensures StarAhead(AfterStar(r)) <==> r != "" && r[0] == '*' && StarAhead(DropStars(r))
  {
    SqueezedHasNone(r);
  }

  // A collapsed mask is left as it is, if and only if the mask settles.
  lemma {:induction false} SettlesExactly(p: string)
    ensures Collapsed(Collapsed(p)) == Collapsed(p) <==> Settles(p)
    decreases |p|
  {
    var q := Collapsed(p);
    if p == "" || p == "\\" {
    } else if p[0] == '\\' {
      SettlesExactly(p[2..]);
      assert q[..2] == p[..2] && q[2..] == Collapsed(p[2..]);
      assert Collapsed(q)[2..] == Collapsed(q[2..]);
    } else if p[0] == '*' {
      var d := AfterStar(p[1..]);
      var c := Collapsed(d);
      SettlesExactly(d);
      FirstBehindStar(p[1..]);
      AheadStays(d);
      assert q[1..] == c && Collapsed(q)[1..] == Collapsed(AfterStar(c));
      if StarAhead(c) {
        SqueezeShortens(c);
      } else {
        SqueezeNothing(c);
        assert Collapsed(c) == c <==> Collapsed(q) == q;
      }
    } else {
      SettlesExactly(p[1..]);
      assert q[1..] == Collapsed(p[1..]) && Collapsed(q)[1..] == Collapsed(q[1..]);
    }
  }

  // For one, this mask collapses to a mask that collapses further.
  lemma NotMinimal()
    ensures Collapsed("**?*") == "*?*" && Collapsed("*?*") == "*?" && !Settles("**?*")
  {
    assert "**?*"[1..] == "*?*" && "*?*"[1..] == "?*" && "?*"[1..] == "*" && "*"[1..] == "";
    assert DropStars("*?*") == "?*" && StarAhead("*");
    assert Collapsed("") == "" && Collapsed("*") == "*" && Collapsed("?*") == "?*";
    assert Squeeze("?*") == "?" && "?"[1..] == "" && Collapsed("?") == "?";
  }
}
