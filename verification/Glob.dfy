// Wildcard masks: what a mask means, and why it is enough for match() to backtrack to the last star
// only (libathemecore/match.c:120-212).
module Glob {
  import opened CaseMap

  const MAX_ITERATIONS: nat := 512
  const WILD := "*?&#%"
  const ENDING := "?&#"

  predicate IsAlpha(c: char) {
    'A' <= c <= 'Z' || 'a' <= c <= 'z'
  }

  predicate IsDigit(c: char) {
    '0' <= c <= '9'
  }

  predicate Same(m: Mapping, a: char, b: char) {
    ToLower(m, a) == ToLower(m, b)
  }

  // Whether the name character d matches the unescaped mask character c, which is not a star.
  predicate Fits(m: Mapping, c: char, d: char) {
    || Same(m, c, d)
    || c == '?'
    || (c == '&' && IsAlpha(d))
    || (c == '#' && IsDigit(d))
    || (c == '%' && !IsAlpha(d) && !IsDigit(d))
  }

  // A backslash escapes a following wildcard character; before anything else it stands for itself.
  predicate Escapes(mask: string) {
    |mask| >= 2 && mask[0] == '\\' && mask[1] in WILD
  }

  // What a mask means.
  predicate Matches(m: Mapping, mask: string, name: string)
    decreases |mask| + |name|
  {
    if mask == "" then name == ""
    else if mask[0] == '*' then Matches(m, mask[1..], name) || (name != "" && Matches(m, mask, name[1..]))
    else if name == "" then false
    else if Escapes(mask) then Same(m, mask[1], name[0]) && Matches(m, mask[2..], name[1..])
    else Fits(m, mask[0], name[0]) && Matches(m, mask[1..], name[1..])
  }

  // What the masks of one character match: ? anything, & a letter, # a digit, % whatever is neither,
  // every other one what folds alike; an escaped wildcard only itself. & and # match themselves as well.
  lemma OneCharacter(m: Mapping, c: char, d: char)
    ensures Matches(m, ['*'], [d]) && Matches(m, ['?'], [d])
    ensures Matches(m, ['&'], [d]) <==> 'A' <= d <= 'Z' || 'a' <= d <= 'z' || d == '&'
    ensures Matches(m, ['#'], [d]) <==> '0' <= d <= '9' || d == '#'
    ensures Matches(m, ['%'], [d]) <==> !('A' <= d <= 'Z' || 'a' <= d <= 'z' || '0' <= d <= '9')
    ensures c !in "*?&#%" ==> (Matches(m, [c], [d]) <==> ToLower(m, c) == ToLower(m, d))
    ensures c in "*?&#%" ==> (Matches(m, ['\\', c], [d]) <==> d == c)
  {
    forall x: char | x in "*?&#%" ensures Same(m, x, d) <==> d == x {
      FoldsApart(m, x, d);
    }
    OneStep(m, '?', d);
    OneStep(m, '&', d);
    OneStep(m, '#', d);
    OneStep(m, '%', d);
    assert Matches(m, ['*'][1..], [d][1..]);
    if c !in "*?&#%" {
      OneStep(m, c, d);
    } else {
      var mask := ['\\', c];
      assert Escapes(mask) && mask[2..] == [] && [d][1..] == [];
    }
  }

  lemma OneStep(m: Mapping, c: char, d: char)
    requires c != '*'
    ensures Matches(m, [c], [d]) <==> Fits(m, c, d)
  {
    assert [c][1..] == [] && [d][1..] == [];
  }

  lemma FoldsApart(m: Mapping, x: char, d: char)
    requires x in "*?&#%"
    ensures Same(m, x, d) <==> d == x
  {
  }

  // ---- the shortcut of match() at the end of a mask ----

  // Where walking back from position i over ? & # stops.
  function WalkBack(mask: string, i: nat): (j: nat)
    requires i < |mask| || i == 0
    ensures j <= i
  {
    if i > 0 && mask[i] in ENDING then WalkBack(mask, i - 1) else i
  }

  // A mask whose last star, not at its start, is followed by nothing but ? & # is taken to match
  // as soon as it is used up.
  predicate OpenEnded(mask: string) {
    mask != "" &&
    var j := WalkBack(mask, |mask| - 1);
    j > 0 && mask[j] == '*' && mask[j - 1] != '\\'
  }

  // The mask that match() really matches.
  function Read(mask: string): string {
    if OpenEnded(mask) then mask + "*" else mask
  }

  // ---- stars absorb ----

  lemma {:induction false} StarAbsorbs(m: Mapping, mask: string, name: string, k: nat)
    requires mask != "" && mask[0] == '*' && k <= |name| && Matches(m, mask, name[k..])
    ensures Matches(m, mask, name)
    decreases k
  {
    if k == 0 {
      assert name[0..] == name;
    } else {
      assert name[1..][k - 1..] == name[k..];
      StarAbsorbs(m, mask, name[1..], k - 1);
    }
  }

  // A star matches by letting the rest of the mask match somewhere further on.
  lemma {:induction false} StarSkips(m: Mapping, mask: string, name: string) returns (k: nat)
    requires mask != "" && mask[0] == '*' && Matches(m, mask, name)
    ensures k <= |name| && Matches(m, mask[1..], name[k..])
    decreases |name|
  {
    if Matches(m, mask[1..], name) {
      k := 0;
      assert name[0..] == name;
    } else {
      var j := StarSkips(m, mask, name[1..]);
      k := j + 1;
      assert name[1..][j..] == name[k..];
    }
  }

  lemma {:induction false} StarMatchesAll(m: Mapping, name: string)
    ensures Matches(m, "*", name)
    decreases |name|
  {
    assert "*"[1..] == "";
    if name != "" {
      StarMatchesAll(m, name[1..]);
    }
  }

  // ---- the segment behind the last star ----

  // mask[a..b] has no star and matches name[c..d] character by character.
  ghost predicate Segment(m: Mapping, mask: string, a: nat, b: nat, name: string, c: nat, d: nat)
    requires a <= b <= |mask| && c <= d <= |name|
    decreases b - a
  {
    if a == b then c == d
    else
      && mask[a] != '*' && c < d
      && if Escapes(mask[a..]) then a + 2 <= b && Same(m, mask[a + 1], name[c]) && Segment(m, mask, a + 2, b, name, c + 1, d)
         else Fits(m, mask[a], name[c]) && Segment(m, mask, a + 1, b, name, c + 1, d)
  }

  lemma {:induction false} SegmentEscaped(m: Mapping, mask: string, a: nat, b: nat, name: string, c: nat, d: nat)
    requires a <= b <= |mask| && c <= d < |name| && Segment(m, mask, a, b, name, c, d)
    requires Escapes(mask[b..]) && Same(m, mask[b + 1], name[d])
    ensures Segment(m, mask, a, b + 2, name, c, d + 1)
    decreases b - a
  {
    if a < b {
      if Escapes(mask[a..]) {
        SegmentEscaped(m, mask, a + 2, b, name, c + 1, d);
      } else {
        SegmentEscaped(m, mask, a + 1, b, name, c + 1, d);
      }
    }
  }

  lemma {:induction false} SegmentPlain(m: Mapping, mask: string, a: nat, b: nat, name: string, c: nat, d: nat)
    requires a <= b < |mask| && c <= d < |name| && Segment(m, mask, a, b, name, c, d)
    requires !Escapes(mask[b..]) && mask[b] != '*' && Fits(m, mask[b], name[d])
    ensures Segment(m, mask, a, b + 1, name, c, d + 1)
    decreases b - a
  {
    if a < b {
      if Escapes(mask[a..]) {
        SegmentPlain(m, mask, a + 2, b, name, c + 1, d);
      } else {
        SegmentPlain(m, mask, a + 1, b, name, c + 1, d);
      }
    }
  }

  // Past a matched segment the two matching problems are the same.
  lemma {:induction false} SegmentMatches(m: Mapping, mask: string, a: nat, b: nat, name: string, c: nat, d: nat)
    requires a <= b <= |mask| && c <= d <= |name| && Segment(m, mask, a, b, name, c, d)
    ensures Matches(m, mask[a..], name[c..]) <==> Matches(m, mask[b..], name[d..])
    decreases b - a
  {
    if a < b {
      assert mask[a..][1..] == mask[a + 1..];
      assert name[c..][1..] == name[c + 1..];
      if Escapes(mask[a..]) {
        assert mask[a..][2..] == mask[a + 2..];
        SegmentMatches(m, mask, a + 2, b, name, c + 1, d);
      } else {
        SegmentMatches(m, mask, a + 1, b, name, c + 1, d);
      }
    }
  }

  // A segment uses up as many characters wherever it matches: what is left of the mask matches no
  // earlier than it does after the first place.
  lemma {:induction false} SegmentLength(m: Mapping, mask: string, a: nat, b: nat, name: string, c: nat, d: nat, k: nat)
    requires a <= b <= |mask| && c <= d <= |name| && Segment(m, mask, a, b, name, c, d)
    requires k <= |name| && Matches(m, mask[a..], name[k..])
    ensures k + (d - c) <= |name| && Matches(m, mask[b..], name[k + (d - c)..])
    decreases b - a
  {
    if a < b {
      assert mask[a..][1..] == mask[a + 1..];
      assert name[k..] != "";
      assert name[k..][1..] == name[k + 1..];
      if Escapes(mask[a..]) {
        assert mask[a..][2..] == mask[a + 2..];
        SegmentLength(m, mask, a + 2, b, name, c + 1, d, k + 1);
      } else {
        SegmentLength(m, mask, a + 1, b, name, c + 1, d, k + 1);
      }
    }
  }

  // ---- how the search stands ----

  // The rest of the search, from the last star: mask[ma..] has to match somewhere from na on.
  predicate Somewhere(m: Mapping, mask: string, name: string)  {
    Matches(m, "*" + mask, name)
  }

  lemma SomewhereMeans(m: Mapping, mask: string, name: string)
    ensures Somewhere(m, mask, name) <==> Matches(m, mask, name) || (name != "" && Somewhere(m, mask, name[1..]))
  {
    assert ("*" + mask)[1..] == mask;
  }

  // The backtracking argument: at the next star the first place where the segment matched is the
  // only one worth keeping.
  lemma NextStar(m: Mapping, mask: string, name: string, ma: nat, i: nat, na: nat, n: nat)
    requires ma <= i < |mask| && na <= n <= |name| && mask[i] == '*'
    requires Segment(m, mask, ma, i, name, na, n)
    ensures Somewhere(m, mask[ma..], name[na..]) <==> Matches(m, mask[i..], name[n..])
  {
    if Matches(m, mask[i..], name[n..]) {
      SegmentMatches(m, mask, ma, i, name, na, n);
      SomewhereMeans(m, mask[ma..], name[na..]);
    }
    if Somewhere(m, mask[ma..], name[na..]) {
      var k := StarSkips(m, "*" + mask[ma..], name[na..]);
      assert ("*" + mask[ma..])[1..] == mask[ma..];
      assert name[na..][k..] == name[na + k..];
      SegmentLength(m, mask, ma, i, name, na, n, na + k);
      assert name[n..][k..] == name[na + k + (n - na)..];
      StarAbsorbs(m, mask[i..], name[n..], k);
    }
  }

  // A name that ends inside the segment cannot match from any later place either.
  lemma NameUsedUp(m: Mapping, mask: string, name: string, ma: nat, i: nat, na: nat)
    requires ma <= i < |mask| && na <= |name| && mask[i] != '*'
    requires Segment(m, mask, ma, i, name, na, |name|)
    ensures !Somewhere(m, mask[ma..], name[na..])
  {
    if Somewhere(m, mask[ma..], name[na..]) {
      var k := StarSkips(m, "*" + mask[ma..], name[na..]);
      assert ("*" + mask[ma..])[1..] == mask[ma..];
      assert name[na..][k..] == name[na + k..];
      SegmentLength(m, mask, ma, i, name, na, |name|, na + k);
    }
  }

  lemma StarsAreOne(m: Mapping, mask: string, i: nat, j: nat, name: string)
    requires i < j <= |mask| && forall k :: i <= k < j ==> mask[k] == '*'
    ensures Matches(m, mask[i..], name) <==> Somewhere(m, mask[j..], name)
    decreases j - i
  {
    assert mask[i..][1..] == mask[i + 1..];
    if j == i + 1 {
      assert mask[i..] == "*" + mask[j..];
    } else {
      StarsAreOne(m, mask, i + 1, j, name);
      TwoStars(m, mask[i..], name);
    }
  }

  lemma {:induction false} TwoStars(m: Mapping, mask: string, name: string)
    requires |mask| >= 2 && mask[0] == '*' == mask[1]
    ensures Matches(m, mask, name) <==> Matches(m, mask[1..], name)
    decreases |name|
  {
    if name != "" && Matches(m, mask, name[1..]) {
      TwoStars(m, mask, name[1..]);
    }
  }

  // ---- the matcher ----

  // The mask position is not in the middle of an escape.
  predicate Boundary(mask: string, i: nat) {
    0 < i < |mask| && mask[i - 1] == '\\' ==> mask[i] !in WILD
  }

  // Behind an unescaped star, with no star following.
  predicate BehindStar(mask: string, i: nat) {
    && 0 < i <= |mask| && mask[i - 1] == '*' && (i > 1 ==> mask[i - 2] != '\\')
    && (i < |mask| ==> mask[i] != '*')
  }

  // Everything the search has not ruled out.
  predicate Hope(m: Mapping, e: string, name: string, wild: bool, ma: nat, na: nat)
    requires ma <= |e| && na <= |name|
  {
    if wild then Somewhere(m, e[ma..], name[na..]) else Matches(m, e[ma..], name[na..])
  }

  // When the place fails, starting over one further is all that is left, and only behind a star.
  lemma NextPlace(m: Mapping, e: string, name: string, wild: bool, ma: nat, na: nat)
    requires ma <= |e| && na < |name| && !Matches(m, e[ma..], name[na..])
    ensures if wild then Hope(m, e, name, wild, ma, na) <==> Hope(m, e, name, wild, ma, na + 1)
            else !Hope(m, e, name, wild, ma, na)
  {
    SomewhereMeans(m, e[ma..], name[na..]);
    assert name[na..][1..] == name[na + 1..];
  }

  // How far the search can still go.
  function Budget(mask: string, name: string, i: nat, na: nat): int
    requires i <= |mask| && na <= |name|
  {
    (|name| - na) * (|mask| + 1) + (|mask| - i)
  }

  lemma BudgetStart(mask: string, name: string)
    ensures Budget(mask, name, 0, 0) == (|mask| + 1) * (|name| + 1) - 1
  {
  }

  lemma BudgetShift(mask: string, name: string, i: nat, i': nat, na: nat)
    requires i <= |mask| && i' <= |mask| && na < |name|
    ensures Budget(mask, name, i', na + 1) < Budget(mask, name, i, na)
  {
    assert (|name| - na) * (|mask| + 1) == (|name| - na - 1) * (|mask| + 1) + (|mask| + 1);
  }

  lemma BudgetStar(mask: string, name: string, i: nat, i': nat, na: nat, na': nat)
    requires i <= i' <= |mask| && na <= na' <= |name|
    ensures Budget(mask, name, i', na') <= Budget(mask, name, i, na) - (i' - i)
    ensures Budget(mask, name, i', na') >= 0
  {
    Monotone(|name| - na', |name| - na, |mask| + 1);
    Monotone(0, |name| - na', |mask| + 1);
  }

  lemma Monotone(a: int, b: int, c: int)
    requires a <= b && c >= 0
    ensures a * c <= b * c
  {
  }

  // What is appended to an open-ended mask changes nothing before its end.
  lemma ReadSame(mask: string, i: nat)
    requires i < |mask|
    ensures Read(mask)[i] == mask[i] && (Escapes(Read(mask)[i..]) <==> Escapes(mask[i..]))
  {
    if OpenEnded(mask) && i == |mask| - 1 {
      assert mask[i] in ENDING || mask[i] == '*';
    }
  }

  // A new star starts the search over behind it.
  lemma StarFound(m: Mapping, mask: string, name: string, wild: bool, ma: nat, i: nat, j: nat, na: nat, n: nat)
    requires ma <= i < j <= |mask| && na <= n <= |name|
    requires Segment(m, mask, ma, i, name, na, n) && (forall k :: i <= k < j ==> mask[k] == '*')
    ensures Hope(m, mask, name, wild, ma, na) <==> Hope(m, mask, name, true, j, n)
  {
    StarsAreOne(m, mask, i, j, name[n..]);
    if wild {
      NextStar(m, mask, name, ma, i, na, n);
    } else {
      SegmentMatches(m, mask, ma, i, name, na, n);
    }
  }

  // The characters under the two positions decide about the current place.
  lemma CharacterDecides(m: Mapping, e: string, name: string, ma: nat, i: nat, na: nat, n: nat)
    requires ma <= i < |e| && na <= n < |name| && e[i] != '*'
    requires Segment(m, e, ma, i, name, na, n)
    ensures (if Escapes(e[i..]) then !Same(m, e[i + 1], name[n]) else !Fits(m, e[i], name[n])) ==> !Matches(m, e[ma..], name[na..])
  {
    SegmentMatches(m, e, ma, i, name, na, n);
    assert e[i..][0] == e[i] && name[n..][0] == name[n];
  }

  lemma SegmentGrows(m: Mapping, e: string, ma: nat, i: nat, name: string, na: nat, n: nat)
    requires ma <= i < |e| && na <= n < |name| && e[i] != '*' && Segment(m, e, ma, i, name, na, n)
    requires if Escapes(e[i..]) then Same(m, e[i + 1], name[n]) else Fits(m, e[i], name[n])
    ensures Segment(m, e, ma, if Escapes(e[i..]) then i + 2 else i + 1, name, na, n + 1)
  {
    if Escapes(e[i..]) {
      SegmentEscaped(m, e, ma, i, name, na, n);
    } else {
      SegmentPlain(m, e, ma, i, name, na, n);
    }
  }

  lemma EmptySegment(m: Mapping, e: string, i: nat, name: string, n: nat)
    requires i <= |e| && n <= |name|
    ensures Segment(m, e, i, i, name, n, n)
  {
  }

  lemma NotOpen(mask: string)
    requires mask == "*"
    ensures !OpenEnded(mask)
  {
  }

  lemma HopeStart(m: Mapping, e: string, name: string)
    ensures Hope(m, e, name, false, 0, 0) <==> Matches(m, e, name)
  {
    assert e[0..] == e && name[0..] == name;
  }

  // A name that is used up before its mask does not match, from here or from any later place.
  lemma NameDone(m: Mapping, e: string, name: string, wild: bool, ma: nat, i: nat, na: nat)
    requires ma <= i < |e| && na <= |name| && e[i] != '*' && Segment(m, e, ma, i, name, na, |name|)
    ensures !Hope(m, e, name, wild, ma, na)
  {
    if wild {
      NameUsedUp(m, e, name, ma, i, na);
    } else {
      SegmentMatches(m, e, ma, i, name, na, |name|);
    }
  }

  // A mask that is used up with characters of the name left does not match from here.
  lemma NameLeft(m: Mapping, mask: string, ma: nat, name: string, na: nat, n: nat)
    requires mask != "*" && !OpenEnded(mask) && ma <= |mask| && na <= n < |name|
    requires Segment(m, mask, ma, |mask|, name, na, n)
    ensures !Matches(m, mask[ma..], name[na..])
    ensures BehindStar(mask, ma) ==> ma < |mask| && na < n
  {
    SegmentMatches(m, mask, ma, |mask|, name, na, n);
    assert name[n..] != "";
    if BehindStar(mask, ma) {
      EndsInStar(mask, ma);
    }
  }

  lemma MaskAndNameDone(m: Mapping, mask: string, name: string, ma: nat, na: nat, wild: bool)
    requires ma <= |mask| && na <= |name|
    requires Matches(m, Read(mask)[ma..], name[na..]) <==> Matches(m, Read(mask)[|mask|..], name[|name|..])
    ensures Hope(m, Read(mask), name, wild, ma, na)
  {
    var rest := Read(mask)[|mask|..];
    assert rest == "" || rest == "*";
    assert "*"[1..] == "";
    SomewhereMeans(m, Read(mask)[ma..], name[na..]);
  }

  lemma OpenEndMatches(m: Mapping, mask: string, name: string, ma: nat, na: nat, n: nat, wild: bool)
    requires ma <= |mask| && na <= |name| && n <= |name| && OpenEnded(mask)
    requires Matches(m, Read(mask)[ma..], name[na..]) <==> Matches(m, Read(mask)[|mask|..], name[n..])
    ensures Hope(m, Read(mask), name, wild, ma, na)
  {
    assert Read(mask)[|mask|..] == "*";
    StarMatchesAll(m, name[n..]);
    SomewhereMeans(m, Read(mask)[ma..], name[na..]);
  }

  // Only an open-ended mask, or the mask "*", has nothing behind its last star.
  lemma EndsInStar(mask: string, ma: nat)
    requires mask != "*" && !OpenEnded(mask) && BehindStar(mask, ma)
    ensures ma < |mask|
  {
  }
}
