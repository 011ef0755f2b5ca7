// match(), the iterative matcher that backtracks to the last star only and gives up after a fixed
// number of iterations: what it finds, and when it gives up (libathemecore/match.c:120-212).
module GlobSearch {
  import opened CaseMap
  import opened Glob

  // m, n, ma, na as positions, and wild.
  datatype Place = Place(i: nat, n: nat, ma: nat, na: nat, wild: bool)

  // What one iteration leads to.
  datatype Outcome = Over(r: int) | On(place: Place)

  const START: Place := Place(0, 0, 0, 0, false)

  ghost predicate Proper(mask: string, name: string, p: Place) {
    && p.ma <= p.i <= |mask| && p.na <= p.n <= |name| && (p.i == p.ma <==> p.n == p.na)
    && Boundary(mask, p.i) && Boundary(mask, p.ma) && (p.wild ==> BehindStar(mask, p.ma))
  }

  function PastStars(mask: string, i: nat): (j: nat)
    requires i <= |mask|
    ensures i <= j <= |mask| && (forall k :: i <= k < j ==> mask[k] == '*') && (j < |mask| ==> mask[j] != '*')
    ensures i < |mask| && mask[i] == '*' ==> i < j
    decreases |mask| - i
  {
    if i < |mask| && mask[i] == '*' then PastStars(mask, i + 1) else i
  }

  // At a star the search starts over behind it.
  function Starred(mask: string, p: Place): Place
    requires p.i <= |mask|
  {
    var j := PastStars(mask, p.i);
    if j > p.i then Place(j, p.n, j, p.n, true) else p
  }

  // Back behind the last star, one character of the name further on.
  function Again(p: Place): Place {
    Place(p.ma, p.na + 1, p.ma, p.na + 1, p.wild)
  }

  predicate Agrees(m: Mapping, mask: string, i: nat, d: char)
    requires i < |mask|
  {
    if Escapes(mask[i..]) then Same(m, mask[i + 1], d) else Fits(m, mask[i], d)
  }

  function Compared(m: Mapping, mask: string, name: string, p: Place): Outcome
    requires p.i < |mask| && p.n < |name|
  {
    if Agrees(m, mask, p.i, name[p.n]) then On(p.(i := p.i + (if Escapes(mask[p.i..]) then 2 else 1), n := p.n + 1))
    else if p.wild then On(Again(p)) else Over(1)
  }

  // One iteration of the loop.
  function Turn(m: Mapping, mask: string, name: string, p: Place): Outcome
    requires mask != "*" && Proper(mask, name, p)
  {
    var s := Starred(mask, p);
    if s.i == |mask| then
      if s.n == |name| || OpenEnded(mask) then Over(0)
      else if !s.wild then Over(1)
      else
        BackIsProper(mask, name, p);
        Compared(m, mask, name, Again(s))
    else if s.n == |name| then Over(1)
    else Compared(m, mask, name, s)
  }

  lemma StarredIsProper(mask: string, name: string, p: Place)
    requires Proper(mask, name, p)
    ensures Proper(mask, name, Starred(mask, p))
  {
  }

  lemma BackIsProper(mask: string, name: string, p: Place)
    requires mask != "*" && Proper(mask, name, p)
    ensures var s := Starred(mask, p); s.i == |mask| && s.n < |name| && !OpenEnded(mask) && s.wild ==>
      s.ma < |mask| && s.na + 1 < |name| && Proper(mask, name, Again(s))
  {
    StarredIsProper(mask, name, p);
    var s := Starred(mask, p);
    if s.i == |mask| && s.n < |name| && !OpenEnded(mask) && s.wild {
      EndsInStar(mask, s.ma);
    }
  }

  lemma TurnIsProper(m: Mapping, mask: string, name: string, p: Place)
    requires mask != "*" && Proper(mask, name, p)
    ensures Turn(m, mask, name, p).On? ==> Proper(mask, name, Turn(m, mask, name, p).place)
  {
    hide Fits, Same, OpenEnded;
    StarredIsProper(mask, name, p);
    BackIsProper(mask, name, p);
    var s := Starred(mask, p);
    if s.i < |mask| && s.n < |name| {
      ComparedIsProper(m, mask, name, s);
    } else if s.i == |mask| && s.n < |name| && !OpenEnded(mask) && s.wild {
      ComparedIsProper(m, mask, name, Again(s));
    }
  }

  lemma ComparedIsProper(m: Mapping, mask: string, name: string, p: Place)
    requires Proper(mask, name, p) && p.i < |mask| && p.n < |name|
    ensures Compared(m, mask, name, p).On? ==> Proper(mask, name, Compared(m, mask, name, p).place)
  {
    hide Fits, Same;
  }

  // The whole loop with so many iterations left, then giving up.
  function Search(m: Mapping, mask: string, name: string, p: Place, left: nat): int
    requires mask != "*" && Proper(mask, name, p)
    decreases left
  {
    if left == 0 then 1
    else
      TurnIsProper(m, mask, name, p);
      match Turn(m, mask, name, p)
      case Over(r) => r
      case On(q) => Search(m, mask, name, q, left - 1)
  }

  // The search is not over after so many iterations.
  predicate Running(m: Mapping, mask: string, name: string, p: Place, k: nat)
    requires mask != "*" && Proper(mask, name, p)
    decreases k
  {
    k == 0 ||
    (Turn(m, mask, name, p).On? &&
     (TurnIsProper(m, mask, name, p); Running(m, mask, name, Turn(m, mask, name, p).place, k - 1)))
  }

  predicate GivesUp(m: Mapping, mask: string, name: string) {
    mask != "*" && Running(m, mask, name, START, MAX_ITERATIONS + 1)
  }

  // What match() returns.
  function Verdict(m: Mapping, mask: string, name: string): int {
    if mask == "*" then 0 else Search(m, mask, name, START, MAX_ITERATIONS + 1)
  }

  // ---- what an iteration means ----

  ghost predicate Searching(m: Mapping, mask: string, name: string, p: Place) {
    Proper(mask, name, p) && Segment(m, Read(mask), p.ma, p.i, name, p.na, p.n)
  }

  ghost predicate Hopeful(m: Mapping, mask: string, name: string, p: Place)
    requires Proper(mask, name, p)
  {
    Hope(m, Read(mask), name, p.wild, p.ma, p.na)
  }

  function Left(mask: string, name: string, p: Place): int
    requires p.i <= |mask| && p.na <= |name|
  {
    Budget(mask, name, p.i, p.na)
  }

  lemma StarredMeans(m: Mapping, mask: string, name: string, p: Place)
    requires Searching(m, mask, name, p)
    ensures var s := Starred(mask, p);
      Searching(m, mask, name, s) && (Hopeful(m, mask, name, s) <==> Hopeful(m, mask, name, p))
    ensures var s := Starred(mask, p);
      s == p || (0 <= Left(mask, name, s) < Left(mask, name, p))
  {
    hide Segment, Hope, Budget, Boundary;
    StarredIsProper(mask, name, p);
    var s := Starred(mask, p);
    var e := Read(mask);
    if s != p {
      forall k | p.i <= k < s.i ensures e[k] == '*' {
        ReadSame(mask, k);
      }
      StarFound(m, e, name, p.wild, p.ma, p.i, s.i, p.na, p.n);
      BudgetStar(mask, name, p.i, s.i, p.na, s.na);
      EmptySegment(m, e, s.i, name, s.n);
    }
  }

  // A place that cannot match: the search goes on one further, behind a star.
  lemma FailedMeans(m: Mapping, mask: string, name: string, p: Place)
    requires Searching(m, mask, name, p) && p.na < |name| && !Matches(m, Read(mask)[p.ma..], name[p.na..])
    requires Proper(mask, name, Again(p))
    ensures !p.wild ==> !Hopeful(m, mask, name, p)
    ensures p.wild ==> Searching(m, mask, name, Again(p)) && (Hopeful(m, mask, name, Again(p)) <==> Hopeful(m, mask, name, p))
    ensures Left(mask, name, Again(p)) < Left(mask, name, p)
  {
    NextPlace(m, Read(mask), name, p.wild, p.ma, p.na);
    BudgetShift(mask, name, p.i, p.ma, p.na);
    EmptySegment(m, Read(mask), p.ma, name, p.na + 1);
  }

  lemma ReadAgrees(m: Mapping, mask: string, i: nat, d: char)
    requires i < |mask|
    ensures i < |Read(mask)| && Read(mask)[i] == mask[i] && (Escapes(Read(mask)[i..]) <==> Escapes(mask[i..]))
    ensures Agrees(m, Read(mask), i, d) <==> Agrees(m, mask, i, d)
  {
    hide OpenEnded;
    ReadSame(mask, i);
    if Escapes(mask[i..]) {
      ReadSame(mask, i + 1);
    }
  }

  lemma AgreedMeans(m: Mapping, mask: string, name: string, p: Place)
    requires Searching(m, mask, name, p) && p.i < |mask| && p.n < |name| && mask[p.i] != '*'
    requires Agrees(m, mask, p.i, name[p.n])
    ensures var i := p.i + if Escapes(mask[p.i..]) then 2 else 1;
      i <= |mask| && Segment(m, Read(mask), p.ma, i, name, p.na, p.n + 1) && Budget(mask, name, i, p.na) < Left(mask, name, p)
  {
    hide Matches, Segment, Hope, Budget, Fits, Same, Boundary, BehindStar, Read;
    ReadAgrees(m, mask, p.i, name[p.n]);
    SegmentGrows(m, Read(mask), p.ma, p.i, name, p.na, p.n);
    BudgetStar(mask, name, p.i, p.i + (if Escapes(mask[p.i..]) then 2 else 1), p.na, p.na);
  }

  lemma RefusedMeans(m: Mapping, mask: string, name: string, p: Place)
    requires Searching(m, mask, name, p) && p.i < |mask| && p.n < |name| && mask[p.i] != '*'
    requires !Agrees(m, mask, p.i, name[p.n])
    ensures !Matches(m, Read(mask)[p.ma..], name[p.na..])
  {
    hide Matches, Segment, Hope, Budget, Fits, Same, Boundary, BehindStar, Read;
    ReadAgrees(m, mask, p.i, name[p.n]);
    CharacterDecides(m, Read(mask), name, p.ma, p.i, p.na, p.n);
  }

  lemma ComparedMeans(m: Mapping, mask: string, name: string, p: Place)
    requires Searching(m, mask, name, p) && p.i < |mask| && p.n < |name| && mask[p.i] != '*'
    ensures match Compared(m, mask, name, p)
      case Over(r) => r == 1 && !Hopeful(m, mask, name, p)
      case On(q) => Searching(m, mask, name, q) && (Hopeful(m, mask, name, q) <==> Hopeful(m, mask, name, p))
                    && Left(mask, name, q) < Left(mask, name, p)
  {
    ComparedIsProper(m, mask, name, p);
    AgainIsProper(mask, name, p);
    hide Matches, Segment, Hope, Budget, Agrees, Boundary, BehindStar, Read, Escapes;
    if Agrees(m, mask, p.i, name[p.n]) {
      AgreedMeans(m, mask, name, p);
    } else {
      RefusedMeans(m, mask, name, p);
      FailedMeans(m, mask, name, p);
    }
  }

  lemma AgainIsProper(mask: string, name: string, p: Place)
    requires Proper(mask, name, p) && p.n < |name|
    ensures Proper(mask, name, Again(p))
  {
  }

  // One iteration decides rightly, or keeps what can be hoped for and has less left to do.
  lemma TurnMeans(m: Mapping, mask: string, name: string, p: Place)
    requires mask != "*" && Searching(m, mask, name, p)
    ensures match Turn(m, mask, name, p)
      case Over(r) => (r == 0 || r == 1) && (r == 0 <==> Hopeful(m, mask, name, p))
      case On(q) => Searching(m, mask, name, q) && (Hopeful(m, mask, name, q) <==> Hopeful(m, mask, name, p))
                    && Left(mask, name, q) < Left(mask, name, p)
  {
    hide Matches, Segment, Hope, Budget, Fits, Same, Boundary, BehindStar, OpenEnded, Compared;
    StarredMeans(m, mask, name, p);
    var s, e := Starred(mask, p), Read(mask);
    if s.i < |mask| && s.n == |name| {
      ReadSame(mask, s.i);
      NameDone(m, e, name, s.wild, s.ma, s.i, s.na);
    } else if s.i < |mask| {
      ComparedMeans(m, mask, name, s);
    } else {
      AtTheEnd(m, mask, name, s, p);
    }
  }

  // The mask is used up.
  lemma AtTheEnd(m: Mapping, mask: string, name: string, s: Place, p: Place)
    requires mask != "*" && Proper(mask, name, p) && s == Starred(mask, p) && Searching(m, mask, name, s) && s.i == |mask|
    ensures s.n == |name| || OpenEnded(mask) ==> Hopeful(m, mask, name, s)
    ensures s.n < |name| && !OpenEnded(mask) && !s.wild ==> !Hopeful(m, mask, name, s)
    ensures s.n < |name| && !OpenEnded(mask) && s.wild ==>
      s.ma < |mask| && s.na + 1 < |name| && Searching(m, mask, name, Again(s)) && mask[s.ma] != '*' &&
      (Hopeful(m, mask, name, Again(s)) <==> Hopeful(m, mask, name, s)) &&
      Left(mask, name, Again(s)) < Left(mask, name, s) &&
      match Compared(m, mask, name, Again(s))
      case Over(r) => r == 1 && !Hopeful(m, mask, name, s)
      case On(q) => Searching(m, mask, name, q) && (Hopeful(m, mask, name, q) <==> Hopeful(m, mask, name, s))
                    && Left(mask, name, q) < Left(mask, name, s)
  {
    var e := Read(mask);
    BackIsProper(mask, name, p);
    SegmentMatches(m, e, s.ma, s.i, name, s.na, s.n);
    hide Matches, Segment, Hope, Budget, Fits, Same, Boundary, WalkBack, Compared;
    if s.n == |name| {
      MaskAndNameDone(m, mask, name, s.ma, s.na, s.wild);
    } else if OpenEnded(mask) {
      OpenEndMatches(m, mask, name, s.ma, s.na, s.n, s.wild);
    } else {
      NameLeft(m, mask, s.ma, name, s.na, s.n);
      AgainIsProper(mask, name, s);
      FailedMeans(m, mask, name, s);
      if s.wild {
        ComparedMeans(m, mask, name, Again(s));
      }
    }
  }

  // ---- the whole search ----

  lemma {:induction false} SearchMeans(m: Mapping, mask: string, name: string, p: Place, left: nat)
    requires mask != "*" && Searching(m, mask, name, p)
    ensures var r := Search(m, mask, name, p, left);
      (r == 0 || r == 1) && (r == 0 <==> Hopeful(m, mask, name, p) && !Running(m, mask, name, p, left))
    ensures left > Left(mask, name, p) ==> !Running(m, mask, name, p, left)
    decreases left
  {
    hide Turn, Hopeful;
    BudgetStar(mask, name, p.i, p.i, p.na, p.na);
    if left > 0 {
      TurnMeans(m, mask, name, p);
      TurnIsProper(m, mask, name, p);
      match Turn(m, mask, name, p)
      case Over(r) =>
      case On(q) => SearchMeans(m, mask, name, q, left - 1);
    }
  }

  // match() accepts exactly the names that the mask as it is read matches and for which the search
  // comes to an end; it does if mask and name are short enough for the iterations allowed.
  lemma VerdictMeans(m: Mapping, mask: string, name: string)
    ensures var r := Verdict(m, mask, name);
      (r == 0 || r == 1) && (r == 0 <==> Matches(m, Read(mask), name) && !GivesUp(m, mask, name))
    ensures (|mask| + 1) * (|name| + 1) <= MAX_ITERATIONS + 1 ==> !GivesUp(m, mask, name)
  {
    if mask == "*" {
      NotOpen(mask);
      StarMatchesAll(m, name);
    } else {
      assert Proper(mask, name, START);
      EmptySegment(m, Read(mask), 0, name, 0);
      HopeStart(m, Read(mask), name);
      BudgetStart(mask, name);
      hide Matches, Segment, Hope, Budget, Search, OpenEnded, Running;
      SearchMeans(m, mask, name, START, MAX_ITERATIONS + 1);
    }
  }

  // ---- the program ----

  // The scan over the stars of a mask.
  method SkipStars(mask: string, i: nat) returns (j: nat)
    requires i <= |mask|
    ensures j == PastStars(mask, i)
  {
    j := i;
    while j < |mask| && mask[j] == '*'
      invariant i <= j <= |mask| && PastStars(mask, j) == PastStars(mask, i)
    {
      j := j + 1;
    }
  }

  // The test for a mask that is used up before its name is.
  method UsedUp(mask: string) returns (open: bool)
    ensures open == OpenEnded(mask)
  {
    if mask == "" {
      return false;
    }
    var j: nat := |mask| - 1;
    while j > 0 && mask[j] in ENDING
      invariant j < |mask| && WalkBack(mask, j) == WalkBack(mask, |mask| - 1)
    {
      j := j - 1;
    }
    open := j > 0 && mask[j] == '*' && mask[j - 1] != '\\';
  }

  // Compares the mask character at i, escaped or not, with a character of the name.
  method Agree(m: Mapping, mask: string, i: nat, d: char) returns (ok: bool, next: nat)
    requires i < |mask|
    ensures ok == Agrees(m, mask, i, d)
    ensures next == i + if Escapes(mask[i..]) then 2 else 1
  {
    var q := mask[i] == '\\' && i + 1 < |mask| && mask[i + 1] in WILD;
    var c := if q then mask[i + 1] else mask[i];
    next := i + if q then 2 else 1;
    if ToLower(m, c) != ToLower(m, d) &&
       ((c != '?' && !(c == '&' && IsAlpha(d)) && !(c == '#' && IsDigit(d)) && !(c == '%' && !IsAlpha(d) && !IsDigit(d))) || q) {
      ok := false;
    } else {
      ok := true;
    }
  }

  // The body of the loop.
  method Iterate(m: Mapping, mask: string, name: string, p: Place) returns (o: Outcome)
    requires mask != "*" && Proper(mask, name, p)
    ensures o == Turn(m, mask, name, p)
  {
    hide OpenEnded, Agrees, Boundary, BehindStar, PastStars;
    StarredIsProper(mask, name, p);
    BackIsProper(mask, name, p);
    var i, n, ma, na, wild := p.i, p.n, p.ma, p.na, p.wild;
    if i < |mask| && mask[i] == '*' {
      i := SkipStars(mask, i);
      wild, ma, na := true, i, n;
    }
    ghost var s := Starred(mask, p);
    assert s == Place(i, n, ma, na, wild) by { NoStars(mask, p.i); }
    if i == |mask| {
      if n == |name| {
        return Over(0);
      }
      var open := UsedUp(mask);
      if open {
        return Over(0);
      }
      if !wild {
        return Over(1);
      }
      i, na := ma, na + 1;
      n := na;
    } else if n == |name| {
      return Over(1);
    }
    var ok, next := Agree(m, mask, i, name[n]);
    if !ok {
      if !wild {
        return Over(1);
      }
      i, na := ma, na + 1;
      n := na;
    } else {
      i, n := next, n + 1;
    }
    return On(Place(i, n, ma, na, wild));
  }

  lemma NoStars(mask: string, i: nat)
    requires i <= |mask|
    ensures PastStars(mask, i) == i <==> !(i < |mask| && mask[i] == '*')
    ensures PastStars(mask, i) >= i
  {
  }

  // match(): 0 when the name matches the mask as it is read, 1 when it does not or when the search
  // has gone through more iterations than it is allowed.
  method Match(m: Mapping, mask: string, name: string) returns (r: int)
    ensures r == Verdict(m, mask, name) && (r == 0 || r == 1)
    ensures r == 0 <==> Matches(m, Read(mask), name) && !GivesUp(m, mask, name)
    ensures (|mask| + 1) * (|name| + 1) <= MAX_ITERATIONS + 1 ==> (r == 0 <==> Matches(m, Read(mask), name))
  {
    VerdictMeans(m, mask, name);
    hide Matches, Turn, Proper, GivesUp;
    if mask == "*" {
      return 0;
    }
    assert Proper(mask, name, START) by { StartIsProper(mask, name); }
    var p, calls := START, 0;
    while calls <= MAX_ITERATIONS
      invariant calls <= MAX_ITERATIONS + 1 && Proper(mask, name, p)
      invariant Search(m, mask, name, p, MAX_ITERATIONS + 1 - calls) == Verdict(m, mask, name)
    {
      TurnIsProper(m, mask, name, p);
      var o := Iterate(m, mask, name, p);
      if o.Over? {
        return o.r;
      }
      p, calls := o.place, calls + 1;
    }
    return 1;
  }

  lemma StartIsProper(mask: string, name: string)
    ensures Proper(mask, name, START)
  {
  }

  // ---- names that match and are refused ----

  function Repeat(c: char, n: nat): (s: string)
    ensures |s| == n && forall i :: 0 <= i < n ==> s[i] == c
  {
    seq(n, _ => c)
  }

  // A star, a number of letters a and a b; more letters a and a b.
  function ManyMask(k: nat): string {
    "*" + Repeat('a', k) + "b"
  }

  function ManyName(n: nat): string {
    Repeat('a', n) + "b"
  }

  // The search at place c of the name, x characters into the letters behind the star.
  function PlaceAt(c: nat, x: nat): Place {
    Place(1 + x, c + x, 1, c, true)
  }

  lemma ManyCharacters(k: nat, n: nat)
    requires 1 <= k <= n
    ensures var mask := ManyMask(k); |mask| == k + 2 && mask[0] == '*' && mask[k + 1] == 'b'
    ensures forall i :: 1 <= i <= k ==> ManyMask(k)[i] == 'a'
    ensures forall i :: 0 <= i < |ManyMask(k)| ==> !Escapes(ManyMask(k)[i..])
    ensures var name := ManyName(n); |name| == n + 1 && name[n] == 'b' && forall i :: 0 <= i < n ==> name[i] == 'a'
  {
  }

  lemma PlaceIsProper(k: nat, n: nat, c: nat, x: nat)
    requires 1 <= k <= n && c <= n - k && x <= k + 1
    ensures Proper(ManyMask(k), ManyName(n), PlaceAt(c, x)) && ManyMask(k) != "*"
  {
    ManyCharacters(k, n);
    hide ManyMask, ManyName;
  }

  // One more iteration: a letter more agrees, or the search starts over at the next place.
  lemma OneMoreIteration(m: Mapping, k: nat, n: nat, c: nat, x: nat)
    requires 1 <= k <= n && c <= n - k && x <= k
    ensures Proper(ManyMask(k), ManyName(n), PlaceAt(c, x)) && ManyMask(k) != "*"
    ensures Turn(m, ManyMask(k), ManyName(n), PlaceAt(c, x)) ==
      On(if x < k || c == n - k then PlaceAt(c, x + 1) else PlaceAt(c + 1, 0))
  {
    PlaceIsProper(k, n, c, x);
    ManyCharacters(k, n);
    var mask, name, p := ManyMask(k), ManyName(n), PlaceAt(c, x);
    hide ManyMask, ManyName;
    NoStars(mask, p.i);
    assert Starred(mask, p) == p;
  }

  // The first one takes the star as well, the last one finds mask and name used up.
  lemma FirstAndLast(m: Mapping, k: nat, n: nat)
    requires 1 <= k <= n
    ensures Proper(ManyMask(k), ManyName(n), START) && Proper(ManyMask(k), ManyName(n), PlaceAt(n - k, k + 1))
    ensures ManyMask(k) != "*" && Turn(m, ManyMask(k), ManyName(n), START) == On(PlaceAt(0, 1))
    ensures Turn(m, ManyMask(k), ManyName(n), PlaceAt(n - k, k + 1)) == Over(0)
  {
    PlaceIsProper(k, n, n - k, k + 1);
    ManyCharacters(k, n);
    StartIsProper(ManyMask(k), ManyName(n));
    var mask := ManyMask(k);
    hide ManyMask, ManyName;
    NoStars(mask, 1);
    NoStars(mask, k + 2);
    assert PastStars(mask, 0) == 1;
  }

  // The letters compared before this place, and in all.
  function Before(k: nat, c: nat, x: nat): nat {
    c * (k + 1) + x
  }

  function InAll(k: nat, n: nat): nat
    requires k <= n
  {
    (n - k + 1) * (k + 1)
  }

  lemma BeforeNext(k: nat, n: nat, c: nat, x: nat)
    requires c <= n - k && x <= k <= n
    ensures Before(k, c, x + 1) == Before(k, c, x) + 1 && Before(k, c + 1, 0) == Before(k, c, k) + 1
    ensures Before(k, n - k, k) + 1 == InAll(k, n) && Before(k, c, x) < InAll(k, n)
  {
    assert (c + 1) * (k + 1) == c * (k + 1) + k + 1;
    assert (n - k + 1) * (k + 1) == (n - k) * (k + 1) + k + 1;
    Monotone(c, n - k, k + 1);
  }

  lemma RunningNext(m: Mapping, mask: string, name: string, p: Place, q: Place, left: nat)
    requires mask != "*" && Proper(mask, name, p) && Turn(m, mask, name, p) == On(q)
    ensures Proper(mask, name, q)
    ensures left > 0 ==> (Running(m, mask, name, p, left) <==> Running(m, mask, name, q, left - 1))
  {
    TurnIsProper(m, mask, name, p);
  }

  lemma RunningOver(m: Mapping, mask: string, name: string, p: Place, left: nat)
    requires mask != "*" && Proper(mask, name, p) && Turn(m, mask, name, p).Over?
    ensures Running(m, mask, name, p, left) <==> left == 0
  {
  }

  lemma RunningNone(m: Mapping, mask: string, name: string, p: Place)
    requires mask != "*" && Proper(mask, name, p)
    ensures Running(m, mask, name, p, 0)
  {
  }

  // From each place on as many iterations are left as there are letters to compare.
  lemma {:induction false} RunsOn(m: Mapping, k: nat, n: nat, c: nat, x: nat, left: nat)
    requires 1 <= k <= n && c <= n - k && x <= k
    ensures Proper(ManyMask(k), ManyName(n), PlaceAt(c, x)) && ManyMask(k) != "*"
    ensures Running(m, ManyMask(k), ManyName(n), PlaceAt(c, x), left) <==> Before(k, c, x) + left <= InAll(k, n)
    decreases left
  {
    hide Turn, Proper, PlaceAt, ManyMask, ManyName, Before, InAll, Running;
    PlaceIsProper(k, n, c, x);
    BeforeNext(k, n, c, x);
    var mask, name, p := ManyMask(k), ManyName(n), PlaceAt(c, x);
    if left == 0 {
      RunningNone(m, mask, name, p);
    } else {
      OneMoreIteration(m, k, n, c, x);
      if x < k {
        RunningNext(m, mask, name, p, PlaceAt(c, x + 1), left);
        RunsOn(m, k, n, c, x + 1, left - 1);
      } else if c < n - k {
        RunningNext(m, mask, name, p, PlaceAt(c + 1, 0), left);
        RunsOn(m, k, n, c + 1, 0, left - 1);
      } else {
        FirstAndLast(m, k, n);
        RunningNext(m, mask, name, p, PlaceAt(c, k + 1), left);
        RunningOver(m, mask, name, PlaceAt(c, k + 1), left - 1);
      }
    }
  }

  // The mask "*", letters a and b matches every name of as many letters a or more and b.
  lemma ManyMatch(m: Mapping, k: nat, n: nat)
    requires 1 <= k <= n
    ensures Matches(m, ManyMask(k), ManyName(n)) && Read(ManyMask(k)) == ManyMask(k)
  {
    var mask, name := ManyMask(k), ManyName(n);
    ManyCharacters(k, n);
    LettersMatch(m, k);
    assert name[n - k..] == Repeat('a', k) + "b" && mask[1..] == Repeat('a', k) + "b";
    StarAbsorbs(m, mask, name, n - k);
  }

  lemma {:induction false} LettersMatch(m: Mapping, k: nat)
    ensures Matches(m, Repeat('a', k) + "b", Repeat('a', k) + "b")
  {
    var s := Repeat('a', k) + "b";
    if k == 0 {
      assert s == "b" && "b"[1..] == "";
    } else {
      LettersMatch(m, k - 1);
      assert s[1..] == Repeat('a', k - 1) + "b";
    }
  }

  // Each of these names matches; it is refused if and only if there are too many letters to compare
  // for the iterations allowed.
  lemma RefusedExactly(m: Mapping, k: nat, n: nat)
    requires 1 <= k <= n
    ensures Matches(m, Read(ManyMask(k)), ManyName(n))
    ensures Verdict(m, ManyMask(k), ManyName(n)) == 1 <==> (n - k + 1) * (k + 1) > MAX_ITERATIONS
  {
    ManyMatch(m, k, n);
    VerdictMeans(m, ManyMask(k), ManyName(n));
    FirstAndLast(m, k, n);
    RunsOn(m, k, n, 0, 1, MAX_ITERATIONS);
    hide Turn, ManyMask, ManyName, Proper, Running;
    RunningNext(m, ManyMask(k), ManyName(n), START, PlaceAt(0, 1), MAX_ITERATIONS + 1);
  }

  // For one, fifteen letters in the mask and fifty in the name.
  lemma RefusedThough(m: Mapping)
    ensures Matches(m, Read(ManyMask(15)), ManyName(50)) && Verdict(m, ManyMask(15), ManyName(50)) == 1
  {
    hide Verdict, Matches, Read, ManyMask, ManyName, Repeat, Search, Running, Turn;
    assert (50 - 15 + 1) * (15 + 1) == 576;
    RefusedExactly(m, 15, 50);
  }
}
