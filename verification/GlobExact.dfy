// When match() and the meaning of a mask agree: exactly for the masks whose ending, behind the last
// star, asks for no letter and no digit (libathemecore/match.c:171-183).
module GlobExact {
  import opened CaseMap
  import opened Glob

  // The mask does not end inside an escape.
  predicate Closed(p: string) {
    p == "" || p[|p| - 1] != '\\'
  }

  // A mask taken for open-ended although its ending restricts the last characters.
  predicate LooseTail(mask: string) {
    OpenEnded(mask) &&
    var tail := mask[WalkBack(mask, |mask| - 1) + 1..];
    '&' in tail || '#' in tail
  }

  ghost predicate SameMasks(m: Mapping, x: string, y: string) {
    forall name :: Matches(m, x, name) <==> Matches(m, y, name)
  }

  lemma EscapesPrefix(p: string, x: string)
    requires p != "" && Closed(p)
    ensures Escapes(p + x) <==> Escapes(p)
    ensures (p + x)[1..] == p[1..] + x
    ensures Escapes(p) ==> (p + x)[2..] == p[2..] + x
    ensures Closed(p[1..]) && (Escapes(p) ==> Closed(p[2..]))
  {
  }

  // What follows a mask may be replaced by anything that means the same.
  lemma {:induction false} Replace(m: Mapping, p: string, x: string, y: string, name: string)
    requires Closed(p) && SameMasks(m, x, y)
    ensures Matches(m, p + x, name) <==> Matches(m, p + y, name)
    decreases |p| + |name|
  {
    if p == "" {
      assert p + x == x && p + y == y;
    } else {
      EscapesPrefix(p, x);
      EscapesPrefix(p, y);
      if p[0] == '*' {
        Replace(m, p[1..], x, y, name);
        if name != "" {
          Replace(m, p, x, y, name[1..]);
        }
      } else if name != "" {
        Replace(m, if Escapes(p) then p[2..] else p[1..], x, y, name[1..]);
      }
    }
  }

  // ---- an ending of question marks ----

  predicate Questions(q: string) {
    forall c <- q :: c == '?'
  }

  lemma {:induction false} QuestionsMatch(m: Mapping, q: string, name: string)
    requires Questions(q)
    ensures Matches(m, q, name) <==> |name| == |q|
    ensures Matches(m, q + "*", name) <==> |name| >= |q|
    decreases |q|
  {
    if q == "" {
      assert q + "*" == "*";
      StarMatchesAll(m, name);
    } else {
      assert q[0] in q && forall c <- q[1..] :: c in q;
      assert (q + "*")[1..] == q[1..] + "*";
      if name != "" {
        QuestionsMatch(m, q[1..], name[1..]);
      }
    }
  }

  lemma StarQuestions(m: Mapping, q: string, name: string)
    requires Questions(q)
    ensures Matches(m, "*" + q, name) <==> |name| >= |q|
    ensures Matches(m, "*" + q + "*", name) <==> |name| >= |q|
  {
    assert ("*" + q)[1..] == q;
    assert ("*" + q + "*")[1..] == q + "*";
    if |name| >= |q| {
      QuestionsMatch(m, q, name[|name| - |q|..]);
      QuestionsMatch(m, q, name);
      StarAbsorbs(m, "*" + q, name, |name| - |q|);
    }
    if Matches(m, "*" + q, name) {
      var k := StarSkips(m, "*" + q, name);
      QuestionsMatch(m, q, name[k..]);
    }
    if Matches(m, "*" + q + "*", name) {
      var k := StarSkips(m, "*" + q + "*", name);
      QuestionsMatch(m, q, name[k..]);
    }
  }

  lemma {:induction false} WalkedOver(mask: string, i: nat)
    requires i < |mask|
    ensures forall k :: WalkBack(mask, i) < k <= i ==> mask[k] in ENDING
  {
    if i > 0 && mask[i] in ENDING {
      WalkedOver(mask, i - 1);
    }
  }

  lemma OpenEndExact(m: Mapping, mask: string, name: string)
    requires OpenEnded(mask) && !LooseTail(mask)
    ensures Matches(m, Read(mask), name) <==> Matches(m, mask, name)
  {
    var p, q := SplitOpen(mask);
    assert Questions(q);
    forall x ensures Matches(m, "*" + q + "*", x) <==> Matches(m, "*" + q, x) {
      StarQuestions(m, q, x);
    }
    assert mask == p + ("*" + q);
    assert mask + "*" == p + ("*" + q + "*");
    Replace(m, p, "*" + q + "*", "*" + q, name);
  }

  // ---- a name that tells the difference ----

  // The shortest name a mask matches: its characters, without stars and escapes.
  function Literal(p: string): string {
    if p == "" then ""
    else if p[0] == '*' then Literal(p[1..])
    else if Escapes(p) then [p[1]] + Literal(p[2..])
    else [p[0]] + Literal(p[1..])
  }

  lemma PlainFirst(m: Mapping, mask: string, name: string)
    requires mask != "" && name != "" && mask[0] == name[0] != '*' && !Escapes(mask) && Matches(m, mask[1..], name[1..])
    ensures Matches(m, mask, name)
  {
  }

  lemma EscapedFirst(m: Mapping, mask: string, name: string)
    requires Escapes(mask) && name != "" && mask[1] == name[0] && Matches(m, mask[2..], name[1..])
    ensures Matches(m, mask, name)
  {
  }

  // What is left of the shortest name after its first character.
  lemma LiteralParts(p: string, rest: string)
    requires p != ""
    ensures p[0] == '*' ==> Literal(p) == Literal(p[1..])
    ensures p[0] != '*' ==> Literal(p) != "" && Literal(p)[0] == if Escapes(p) then p[1] else p[0]
    ensures p[0] != '*' ==> (Literal(p) + rest)[1..] == Literal(if Escapes(p) then p[2..] else p[1..]) + rest
  {
  }

  lemma {:induction false} LiteralMatches(m: Mapping, p: string, x: string, rest: string)
    requires Closed(p) && Matches(m, x, rest)
    ensures Matches(m, p + x, Literal(p) + rest)
    decreases |p|
  {
    hide Matches;
    if p == "" {
      assert p + x == x && Literal(p) + rest == rest;
    } else {
      EscapesPrefix(p, x);
      LiteralParts(p, rest);
      hide Literal, Closed;
      var mask, name := p + x, Literal(p) + rest;
      if p[0] == '*' {
        LiteralMatches(m, p[1..], x, rest);
        StarEmpty(m, mask, name);
      } else if Escapes(p) {
        LiteralMatches(m, p[2..], x, rest);
        EscapedFirst(m, mask, name);
      } else {
        LiteralMatches(m, p[1..], x, rest);
        PlainFirst(m, mask, name);
      }
    }
  }

  lemma StarEmpty(m: Mapping, mask: string, name: string)
    requires mask != "" && mask[0] == '*' && Matches(m, mask[1..], name)
    ensures Matches(m, mask, name)
  {
  }

  ghost predicate FitsAll(m: Mapping, t: string, s: string) {
    |s| == |t| && forall i :: 0 <= i < |t| ==> Fits(m, t[i], s[i])
  }

  predicate IsEnding(t: string) {
    forall c <- t :: c in ENDING
  }

  // An ending without stars and escapes decides about the last characters.
  lemma {:induction false} EndingMatches(m: Mapping, t: string, name: string)
    requires IsEnding(t) && Matches(m, t, name)
    ensures FitsAll(m, t, name)
    decreases |t|
  {
    if t != "" {
      assert t[0] in t && t[0] in ENDING && forall c <- t[1..] :: c in t;
      EndingMatches(m, t[1..], name[1..]);
      forall i | 0 <= i < |t| ensures Fits(m, t[i], name[i]) {
        assert i > 0 ==> t[1..][i - 1] == t[i] && name[1..][i - 1] == name[i];
      }
    }
  }

  lemma {:induction false} LastCharacters(m: Mapping, p: string, t: string, name: string)
    requires Closed(p) && IsEnding(t) && Matches(m, p + t, name)
    ensures |name| >= |t| && FitsAll(m, t, name[|name| - |t|..])
    decreases |p| + |name|
  {
    hide FitsAll, Fits;
    if p == "" {
      assert p + t == t && name[0..] == name;
      EndingMatches(m, t, name);
      assert |name| == |t| by { EndingLength(m, t, name); }
    } else {
      EscapesPrefix(p, t);
      var name' := if p[0] == '*' && Matches(m, p[1..] + t, name) then name else name[1..];
      var p' := if p[0] == '*' then (if Matches(m, p[1..] + t, name) then p[1..] else p) else if Escapes(p) then p[2..] else p[1..];
      assert Matches(m, p' + t, name');
      LastCharacters(m, p', t, name');
      assert name'[|name'| - |t|..] == name[|name| - |t|..];
    }
  }

  lemma EndingLength(m: Mapping, t: string, name: string)
    requires FitsAll(m, t, name)
    ensures |name| == |t|
  {
  }

  // The name that tells the difference: what the mask spells, then exclamation marks.
  function Loose(p: string, t: string): string {
    Literal(p + "*") + (Literal(t) + seq(|t|, _ => '!'))
  }

  lemma LooseIsTaken(m: Mapping, p: string, t: string)
    requires IsEnding(t)
    ensures Matches(m, p + "*" + t + "*", Loose(p, t))
  {
    var bangs := seq(|t|, _ => '!');
    assert Closed(t) by {
      if t != "" { assert t[|t| - 1] in t; }
    }
    StarMatchesAll(m, bangs);
    LiteralMatches(m, t, "*", bangs);
    LiteralMatches(m, p + "*", t + "*", Literal(t) + bangs);
    assert p + "*" + t + "*" == p + "*" + (t + "*");
  }

  lemma LooseIsWrong(m: Mapping, p: string, t: string)
    requires IsEnding(t) && ('&' in t || '#' in t)
    ensures !Matches(m, p + "*" + t, Loose(p, t))
  {
    var name := Loose(p, t);
    var c := if '&' in t then '&' else '#';
    var i :| 0 <= i < |t| && t[i] == c;
    assert name[|name| - |t|..] == seq(|t|, _ => '!');
    assert !Fits(m, c, '!');
    if Matches(m, p + "*" + t, name) {
      LastCharacters(m, p + "*", t, name);
    }
  }

  lemma LooseName(m: Mapping, mask: string) returns (name: string)
    requires LooseTail(mask)
    ensures Matches(m, Read(mask), name) && !Matches(m, mask, name)
  {
    var p, t := SplitOpen(mask);
    name := Loose(p, t);
    LooseIsTaken(m, p, t);
    LooseIsWrong(m, p, t);
  }

  // An open-ended mask in front of and behind its last star.
  lemma SplitOpen(mask: string) returns (p: string, t: string)
    requires OpenEnded(mask)
    ensures mask == p + "*" + t && p != "" && Closed(p) && IsEnding(t)
    ensures t == mask[WalkBack(mask, |mask| - 1) + 1..]
  {
    var j := WalkBack(mask, |mask| - 1);
    p, t := mask[..j], mask[j + 1..];
    WalkedOver(mask, |mask| - 1);
    forall c <- t ensures c in ENDING {
      var k :| 0 <= k < |t| && t[k] == c;
      assert c == mask[j + 1 + k];
    }
  }

  // match() reads a mask as it is meant, for every name, exactly when the mask has no loose tail.
  lemma ExactlyWhen(m: Mapping, mask: string)
    ensures SameMasks(m, Read(mask), mask) <==> !LooseTail(mask)
  {
    if LooseTail(mask) {
      var name := LooseName(m, mask);
    } else if OpenEnded(mask) {
      forall name ensures Matches(m, Read(mask), name) <==> Matches(m, mask, name) {
        OpenEndExact(m, mask, name);
      }
    }
  }
}
