// Reading changes of access flags from a string, and when a flag ends up in both masks
// (libathemecore/flags.c:141-213, 398-413).
module FlagStrings {
  import opened AccessStore

  // The letters of the flags, their long names (in lower case), and the flags in use and those that
  // '*' stands for.
  datatype Table = Table(letters: map<char, set<Flag>>, names: map<string, set<Flag>>, all: set<Flag>, enable: set<Flag>)

  // 0xFFFFFFFF
  const EVERY_FLAG: set<Flag> := set f: nat | 0 <= f < 32

  datatype Masks = Masks(add: set<Flag>, remove: set<Flag>, adding: bool, shortFlag: bool)
  const START: Masks := Masks({}, {}, true, false)

  function Lower(s: string): string {
    if s == [] then []
    else (if 'A' <= s[0] <= 'Z' then [s[0] - 'A' + 'a'] else [s[0]]) + Lower(s[1..])
  }

  function XFlag(t: Table, s: string): set<Flag> {
    if Lower(s) in t.names then t.names[Lower(s)] else {}
  }

  function Letter(t: Table, c: char): set<Flag> {
    if c in t.letters then t.letters[c] else {}
  }

  function Apply(m: Masks, flag: set<Flag>): Masks {
    if m.adding then m.(add := m.add + flag, remove := m.remove - flag)
    else m.(add := m.add - flag, remove := m.remove + flag)
  }

  predicate Special(c: char) {
    c == '+' || c == '-' || c == '=' || c == '*'
  }

  function Step(t: Table, m: Masks, c: char): Masks {
    if c == '+' then m.(adding := true)
    else if c == '-' then m.(adding := false)
    else if c == '=' then m.(add := {}, remove := EVERY_FLAG, adding := true)
    else if c == '*' then
      if m.adding then m.(add := m.add + t.enable, remove := m.remove + {CA_AKICK})
      else m.(add := {}, remove := EVERY_FLAG)
    else Apply(m, Letter(t, c)).(shortFlag := true)
  }

  // The rest of the string is a long name.
  predicate Long(t: Table, m: Masks, s: string) {
    s != [] && !Special(s[0]) && !m.shortFlag && XFlag(t, s) != {}
  }

  function Run(t: Table, m: Masks, s: string): Masks
    decreases |s|
  {
    if s == [] then m
    else if Long(t, m, s) then Apply(m, XFlag(t, s))
    else Run(t, Step(t, m, s[0]), s[1..])
  }

  // ---- where a flag ends, told by the last place of the string that decides about it ----

  // The places before i leave the direction at removing: the last sign among them is a minus.
  ghost predicate Removing(s: string, i: nat) {
    exists k :: 0 <= k < i && k < |s| && s[k] == '-' && forall j :: k < j < i && j < |s| ==> s[j] != '+' && s[j] != '='
  }

  // A long name begins at i: it is the first place that is no sign and no star.
  ghost predicate LongAt(t: Table, s: string, i: nat) {
    i < |s| && !Special(s[i]) && XFlag(t, s[i..]) != {} && forall j :: 0 <= j < i ==> Special(s[j])
  }

  // The place is read: no long name begins in front of it.
  ghost predicate IsRead(t: Table, s: string, i: nat) {
    i < |s| && forall j :: 0 <= j < i ==> !LongAt(t, s, j)
  }

  // A letter or long name for the flag.
  ghost predicate Names(t: Table, s: string, i: nat, f: Flag) {
    IsRead(t, s, i) && !Special(s[i]) && f in if LongAt(t, s, i) then XFlag(t, s[i..]) else Letter(t, s[i])
  }

  // = or a removing *
  ghost predicate TakesAll(t: Table, s: string, i: nat) {
    IsRead(t, s, i) && (s[i] == '=' || (s[i] == '*' && Removing(s, i)))
  }

  ghost predicate GivesAll(t: Table, s: string, i: nat) {
    IsRead(t, s, i) && s[i] == '*' && !Removing(s, i)
  }

  ghost predicate Gives(t: Table, s: string, i: nat, f: Flag) {
    (Names(t, s, i, f) && !Removing(s, i)) || (GivesAll(t, s, i) && f in t.enable)
  }

  ghost predicate Takes(t: Table, s: string, i: nat, f: Flag) {
    (Names(t, s, i, f) && Removing(s, i)) || TakesAll(t, s, i)
  }

  // Some place before i gives the flag, and none behind that takes it.
  ghost predicate Given(t: Table, s: string, i: nat, f: Flag) {
    exists k: nat :: k < i && Gives(t, s, k, f) && forall j: nat :: k < j < i ==> !Takes(t, s, j, f)
  }

  // Some place before i takes the flag, or is an adding * if the flag is +b, and none behind that is a
  // letter or name that gives it.
  ghost predicate Taken(t: Table, s: string, i: nat, f: Flag) {
    exists k: nat :: k < i && (Takes(t, s, k, f) || (GivesAll(t, s, k) && f == CA_AKICK))
      && forall j: nat :: k < j < i ==> !(Names(t, s, j, f) && !Removing(s, j))
  }

  lemma GivenNext(t: Table, s: string, i: nat, f: Flag)
    ensures Given(t, s, i + 1, f) <==> Gives(t, s, i, f) || (Given(t, s, i, f) && !Takes(t, s, i, f))
  {
    hide Gives, Takes;
  }

  lemma TakenNext(t: Table, s: string, i: nat, f: Flag)
    ensures Taken(t, s, i + 1, f) <==>
              || Takes(t, s, i, f) || (GivesAll(t, s, i) && f == CA_AKICK)
              || (Taken(t, s, i, f) && !(Names(t, s, i, f) && !Removing(s, i)))
  {
    hide GivesAll, Takes, Names, Removing;
  }

  lemma RemovingNext(s: string, i: nat)
    requires i < |s|
    ensures Removing(s, i + 1) <==> s[i] == '-' || (Removing(s, i) && s[i] != '+' && s[i] != '=')
  {
  }

  // What the masks hold after the places before i.
  ghost predicate Told(t: Table, s: string, m: Masks, i: nat) {
    && i <= |s| && (m.adding <==> !Removing(s, i)) && (m.shortFlag <==> exists j :: 0 <= j < i && !Special(s[j]))
    && (forall j :: 0 <= j < i ==> !LongAt(t, s, j))
    && forall f <- EVERY_FLAG :: (f in m.add <==> Given(t, s, i, f)) && (f in m.remove <==> Taken(t, s, i, f))
  }

  lemma ToldNext(t: Table, s: string, m: Masks, i: nat)
    requires Told(t, s, m, i) && i < |s| && !Long(t, m, s[i..])
    ensures Told(t, s, Step(t, m, s[i]), i + 1)
  {
    hide Given, Taken, Removing;
    var n := Step(t, m, s[i]);
    RemovingNext(s, i);
    assert !LongAt(t, s, i) && IsRead(t, s, i);
    forall f <- EVERY_FLAG ensures (f in n.add <==> Given(t, s, i + 1, f)) && (f in n.remove <==> Taken(t, s, i + 1, f)) {
      GivenNext(t, s, i, f);
      TakenNext(t, s, i, f);
    }
  }

  lemma {:induction false} NothingRead(t: Table, s: string, i: nat, n: nat, f: Flag)
    requires LongAt(t, s, i) && i < n
    ensures (Given(t, s, n, f) <==> Given(t, s, i + 1, f)) && (Taken(t, s, n, f) <==> Taken(t, s, i + 1, f))
    decreases n
  {
    if n > i + 1 {
      NothingRead(t, s, i, n - 1, f);
      GivenNext(t, s, n - 1, f);
      TakenNext(t, s, n - 1, f);
      assert !IsRead(t, s, n - 1);
    }
  }

  lemma {:induction false} RunIsTold(t: Table, s: string, m: Masks, i: nat)
    requires Told(t, s, m, i)
    ensures var r := Run(t, m, s[i..]);
      forall f <- EVERY_FLAG :: (f in r.add <==> Given(t, s, |s|, f)) && (f in r.remove <==> Taken(t, s, |s|, f))
    decreases |s| - i
  {
    hide Given, Taken, Removing;
    if i < |s| {
      if Long(t, m, s[i..]) {
        assert LongAt(t, s, i) && IsRead(t, s, i);
        forall f <- EVERY_FLAG
          ensures var r := Run(t, m, s[i..]); (f in r.add <==> Given(t, s, |s|, f)) && (f in r.remove <==> Taken(t, s, |s|, f)) {
          GivenNext(t, s, i, f);
          TakenNext(t, s, i, f);
          NothingRead(t, s, i, |s|, f);
        }
      } else {
        ToldNext(t, s, m, i);
        assert s[i..][1..] == s[i + 1..];
        RunIsTold(t, s, Step(t, m, s[i]), i + 1);
      }
    }
  }

  // Where each flag of the word ends.
  lemma LastPlaceDecides(t: Table, s: string)
    ensures var r := Run(t, START, s);
      forall f: Flag :: f < 32 ==> (f in r.add <==> Given(t, s, |s|, f)) && (f in r.remove <==> Taken(t, s, |s|, f))
  {
    assert s[0..] == s;
    RunIsTold(t, s, START, 0);
  }

  // flags_make_bitmasks()
  method MakeBitmasks(t: Table, s: string) returns (add: set<Flag>, remove: set<Flag>)
    ensures add == Run(t, START, s).add * t.all && remove == Run(t, START, s).remove * t.all
    ensures forall f: Flag :: f < 32 ==>
              (f in add <==> f in t.all && Given(t, s, |s|, f)) && (f in remove <==> f in t.all && Taken(t, s, |s|, f))
  {
    LastPlaceDecides(t, s);
    var adding, shortFlag, i := true, false, 0;
    add, remove := {}, {};
    while i < |s|
      invariant 0 <= i <= |s|
      invariant Run(t, START, s) == Run(t, Masks(add, remove, adding, shortFlag), s[i..])
    {
      var c := s[i];
      assert s[i..][1..] == s[i + 1..];
      if c == '+' {
        adding := true;
      } else if c == '-' {
        adding := false;
      } else if c == '=' {
        add, remove, adding := {}, EVERY_FLAG, true;
      } else if c == '*' {
        if adding {
          add, remove := add + t.enable, remove + {CA_AKICK};
        } else {
          add, remove := {}, EVERY_FLAG;
        }
      } else {
        var flag := XFlag(t, s[i..]);
        if !shortFlag && flag != {} {
          if adding {
            add, remove := add + flag, remove - flag;
          } else {
            add, remove := add - flag, remove + flag;
          }
          return add * t.all, remove * t.all;
        }
        flag := Letter(t, c);
        if adding {
          add, remove := add + flag, remove - flag;
        } else {
          add, remove := add - flag, remove + flag;
        }
        shortFlag := true;
      }
      i := i + 1;
    }
    return add * t.all, remove * t.all;
  }

  // ---- flags in both masks ----

  // An adding '*' takes flags into the first mask that the second has, or '+b' into the second
  // though the first has it.
  predicate Clashes(t: Table, m: Masks, f: Flag) {
    (f in m.remove && f in t.enable) || (f == CA_AKICK && (f in m.add || f in t.enable))
  }

  // The rest of the string decides about the flag again.
  predicate DecidedLater(t: Table, m: Masks, s: string, f: Flag)
    decreases |s|
  {
    s != [] &&
    if Long(t, m, s) then f in XFlag(t, s)
    else
      || s[0] == '=' || (s[0] == '*' && !m.adding) || (!Special(s[0]) && f in Letter(t, s[0]))
      || DecidedLater(t, Step(t, m, s[0]), s[1..], f)
  }

  // The flag clashes at some adding '*', and nothing after that decides about it again.
  predicate ClashStays(t: Table, m: Masks, s: string, f: Flag)
    decreases |s|
  {
    s != [] && !Long(t, m, s) &&
    var n := Step(t, m, s[0]);
    || (s[0] == '*' && m.adding && Clashes(t, m, f) && !DecidedLater(t, n, s[1..], f))
    || ClashStays(t, n, s[1..], f)
  }

  lemma {:induction false} InBoth(t: Table, m: Masks, s: string, f: Flag)
    ensures var r := Run(t, m, s);
      f in r.add && f in r.remove <==>
        (f in m.add && f in m.remove && !DecidedLater(t, m, s, f)) || ClashStays(t, m, s, f)
    decreases |s|
  {
    if s != [] && !Long(t, m, s) {
      InBoth(t, Step(t, m, s[0]), s[1..], f);
    }
  }

  // The masks have no flag in common exactly if every flag that clashes at an adding '*' is decided
  // about again.
  lemma DisjointExactly(t: Table, s: string)
    ensures var r := Run(t, START, s);
      (r.add * t.all) * (r.remove * t.all) == {} <==> forall f <- t.all :: !ClashStays(t, START, s, f)
  {
    var r := Run(t, START, s);
    forall f <- t.all ensures f in r.add && f in r.remove <==> ClashStays(t, START, s, f) {
      InBoth(t, START, s, f);
    }
    if (r.add * t.all) * (r.remove * t.all) == {} {
      forall f <- t.all ensures !ClashStays(t, START, s, f) {
        assert f !in (r.add * t.all) * (r.remove * t.all);
      }
    }
  }

  // Some '*' is read in the adding direction.
  predicate AddsStar(s: string, adding: bool) {
    s != [] &&
    if s[0] == '*' && adding then true
    else AddsStar(s[1..], if s[0] == '+' || s[0] == '=' then true else if s[0] == '-' then false else adding)
  }

  lemma {:induction false} NoStarNoClash(t: Table, m: Masks, s: string, f: Flag)
    requires !AddsStar(s, m.adding)
    ensures !ClashStays(t, m, s, f)
    decreases |s|
  {
    if s != [] {
      NoStarNoClash(t, Step(t, m, s[0]), s[1..], f);
    }
  }

  // Without an adding '*' they have none in common.
  lemma DisjointWithoutStar(t: Table, s: string)
    requires !AddsStar(s, true)
    ensures Run(t, START, s).add * Run(t, START, s).remove == {}
  {
    var r := Run(t, START, s);
    forall f ensures !(f in r.add && f in r.remove) {
      InBoth(t, START, s, f);
      NoStarNoClash(t, START, s, f);
    }
  }

  // "=*" puts every flag that '*' stands for into both.
  lemma EverythingThenStar(t: Table)
    requires t.enable != {} && t.enable <= t.all && t.enable <= EVERY_FLAG
    ensures var r := Run(t, START, "=*"); t.enable <= (r.add * t.all) * (r.remove * t.all)
  {
    var m := Step(t, START, '=');
    assert "=*"[1..] == "*" && "*"[1..] == "";
    assert Run(t, START, "=*") == Run(t, m, "*") == Run(t, Step(t, m, '*'), "");
  }
}
