// The channel access entries and the two lists every entry is on: the one of its channel and the one
// of its entity (libathemecore/account.c:994-1019, 1395-1476; include/account.h:207-247).
module AccessStore {
  import opened LinkedLists

  type Chan = string
  type Ent = nat

  // A level is a set of flags; a flag is known by its bit number.
  type Flag = nat
  const CA_OP: Flag := 2
  const CA_AUTOOP: Flag := 3
  const CA_VOICE: Flag := 0
  const CA_AUTOVOICE: Flag := 1
  const CA_TOPIC: Flag := 4
  const CA_RECOVER: Flag := 8
  const CA_FLAGS: Flag := 9
  const CA_HALFOP: Flag := 10
  const CA_AUTOHALFOP: Flag := 11
  const CA_FOUNDER: Flag := 13
  const CA_USEOWNER: Flag := 15
  const CA_AKICK: Flag := 31

  // An entry is about an entity or about a hostmask.
  datatype Who = Entity(ent: Ent) | Host(mask: string)
  datatype Entry = Entry(chan: Chan, who: Who, level: set<Flag>)

  datatype Store = Store(entries: map<Id, Entry>, byChan: map<Chan, seq<Id>>, byEnt: map<Ent, seq<Id>>)

  predicate InChan(s: Store, c: Chan, x: Id) {
    c in s.byChan && x in s.byChan[c]
  }

  predicate InEnt(s: Store, e: Ent, x: Id) {
    e in s.byEnt && x in s.byEnt[e]
  }

  // Every entry is on the list of its channel and on that of its entity, and on no other; no list
  // has an entry twice.
  ghost predicate Linked(s: Store) {
    && (forall c, x :: InChan(s, c, x) <==> x in s.entries && s.entries[x].chan == c)
    && (forall e, x :: InEnt(s, e, x) <==> x in s.entries && s.entries[x].who == Entity(e))
    && (forall c <- s.byChan :: Distinct(s.byChan[c]))
    && (forall e <- s.byEnt :: Distinct(s.byEnt[e]))
  }

  // A channel has at most one entry about an entity.
  ghost predicate OnePerPair(s: Store) {
    forall x <- s.entries, y <- s.entries ::
      s.entries[x].chan == s.entries[y].chan && s.entries[x].who == s.entries[y].who && s.entries[x].who.Entity? ==> x == y
  }

  ghost predicate Within(s: Store, all: set<Flag>) {
    forall x <- s.entries :: s.entries[x].level <= all
  }

  predicate IsFounder(e: Entry) {
    e.who.Entity? && CA_FOUNDER in e.level
  }

  ghost predicate HasFounder(s: Store, c: Chan) {
    exists x :: InChan(s, c, x) && x in s.entries && IsFounder(s.entries[x])
  }

  // Every channel has a founder.
  ghost predicate Founded(s: Store) {
    forall c <- s.byChan :: HasFounder(s, c)
  }

  ghost predicate Sound(s: Store, all: set<Flag>) {
    Linked(s) && OnePerPair(s) && Within(s, all)
  }

  // ---- counting flags on a list ----

  // How many entries of a list are about an entity and have the flag.
  function Count(entries: map<Id, Entry>, list: seq<Id>, flag: Flag): nat {
    if list == [] then 0
    else
      Count(entries, list[..|list| - 1], flag)
      + var x := list[|list| - 1];
        if x in entries && entries[x].who.Entity? && flag in entries[x].level then 1 else 0
  }

  lemma {:induction false} CountPositive(entries: map<Id, Entry>, list: seq<Id>, flag: Flag, x: Id)
    requires x in list && x in entries && entries[x].who.Entity? && flag in entries[x].level
    ensures Count(entries, list, flag) >= 1
  {
    var n := |list| - 1;
    if x != list[n] {
      assert x in list[..n];
      CountPositive(entries, list[..n], flag, x);
    }
  }

  lemma {:induction false} CountOneIsOnly(entries: map<Id, Entry>, list: seq<Id>, flag: Flag, x: Id, y: Id)
    requires Count(entries, list, flag) == 1 && x in list && y in list && x != y
    requires x in entries && entries[x].who.Entity? && flag in entries[x].level
    requires y in entries && entries[y].who.Entity? && flag in entries[y].level
    ensures false
  {
    var n := |list| - 1;
    if x == list[n] {
      assert y in list[..n];
      CountPositive(entries, list[..n], flag, y);
    } else if y == list[n] {
      assert x in list[..n];
      CountPositive(entries, list[..n], flag, x);
    } else {
      assert x in list[..n] && y in list[..n];
      CountPositive(entries, list[..n], flag, x);
      CountOneIsOnly(entries, list[..n], flag, x, y);
    }
  }

  lemma {:induction false} CountAnother(entries: map<Id, Entry>, list: seq<Id>, flag: Flag, x: Id) returns (y: Id)
    requires Distinct(list) && Count(entries, list, flag) > 1
    ensures y != x && y in list && y in entries && entries[y].who.Entity? && flag in entries[y].level
  {
    var n := |list| - 1;
    y := list[n];
    if y == x || y !in entries || !entries[y].who.Entity? || flag !in entries[y].level {
      if y == x {
        y := CountSome(entries, list[..n], flag);
      } else {
        y := CountAnother(entries, list[..n], flag, x);
      }
    }
  }

  lemma {:induction false} CountSome(entries: map<Id, Entry>, list: seq<Id>, flag: Flag) returns (y: Id)
    requires Count(entries, list, flag) >= 1
    ensures y in list && y in entries && entries[y].who.Entity? && flag in entries[y].level
  {
    var n := |list| - 1;
    y := list[n];
    if y !in entries || !entries[y].who.Entity? || flag !in entries[y].level {
      y := CountSome(entries, list[..n], flag);
    }
  }

  lemma {:induction false} CountSame(e0: map<Id, Entry>, e1: map<Id, Entry>, list: seq<Id>, flag: Flag)
    requires forall x <- list :: x in e0 && x in e1 && e0[x] == e1[x]
    ensures Count(e0, list, flag) == Count(e1, list, flag)
  {
    if list != [] {
      CountSame(e0, e1, list[..|list| - 1], flag);
    }
  }

  // The entry is about the only founder of its channel.
  predicate SoleFounder(s: Store, x: Id) {
    && x in s.entries && s.entries[x].chan in s.byChan && CA_FOUNDER in s.entries[x].level
    && Count(s.entries, s.byChan[s.entries[x].chan], CA_FOUNDER) == 1
  }

  // Without an entry that is not about the only founder, its channel still has one.
  lemma FounderStays(s: Store, x: Id) returns (y: Id)
    requires Linked(s) && x in s.entries && HasFounder(s, s.entries[x].chan) && s.entries[x].who.Entity?
    requires !SoleFounder(s, x)
    ensures y != x && y in s.entries && s.entries[y].chan == s.entries[x].chan && IsFounder(s.entries[y])
  {
    var c := s.entries[x].chan;
    assert InChan(s, c, x);
    var list := s.byChan[c];
    y :| InChan(s, c, y) && y in s.entries && IsFounder(s.entries[y]);
    if y == x {
      CountPositive(s.entries, list, CA_FOUNDER, x);
      y := CountAnother(s.entries, list, CA_FOUNDER, x);
      assert InChan(s, c, y);
    }
  }

  // ---- removing entries ----

  function Drop(s: Store, gone: set<Id>): Store {
    Store(s.entries - gone,
          map c | c in s.byChan :: Without(s.byChan[c], gone),
          map e | e in s.byEnt :: Without(s.byEnt[e], gone))
  }

  lemma DropLinked(s: Store, gone: set<Id>)
    requires Linked(s)
    ensures Linked(Drop(s, gone))
  {
    var r := Drop(s, gone);
    forall c, x ensures InChan(r, c, x) <==> x in r.entries && r.entries[x].chan == c {
      assert InChan(r, c, x) <==> InChan(s, c, x) && x !in gone;
    }
    forall e, x ensures InEnt(r, e, x) <==> x in r.entries && r.entries[x].who == Entity(e) {
      assert InEnt(r, e, x) <==> InEnt(s, e, x) && x !in gone;
    }
    forall c <- r.byChan ensures Distinct(r.byChan[c]) {
      WithoutDistinct(s.byChan[c], gone);
    }
    forall e <- r.byEnt ensures Distinct(r.byEnt[e]) {
      WithoutDistinct(s.byEnt[e], gone);
    }
  }

  lemma DropSound(s: Store, gone: set<Id>, all: set<Flag>)
    requires Sound(s, all)
    ensures Sound(Drop(s, gone), all)
  {
    DropLinked(s, gone);
  }

  lemma DropTwice(s: Store, a: set<Id>, b: set<Id>)
    ensures Drop(Drop(s, a), b) == Drop(s, a + b)
  {
    assert (s.entries - a) - b == s.entries - (a + b);
    forall c <- s.byChan ensures Without(Without(s.byChan[c], a), b) == Without(s.byChan[c], a + b) {
      WithoutTwice(s.byChan[c], a, b);
    }
    forall e <- s.byEnt ensures Without(Without(s.byEnt[e], a), b) == Without(s.byEnt[e], a + b) {
      WithoutTwice(s.byEnt[e], a, b);
    }
    assert Drop(Drop(s, a), b).byChan == Drop(s, a + b).byChan;
    assert Drop(Drop(s, a), b).byEnt == Drop(s, a + b).byEnt;
  }

  lemma DropNothing(s: Store)
    ensures Drop(s, {}) == s
  {
    forall c <- s.byChan ensures Without(s.byChan[c], {}) == s.byChan[c] {
      WithoutNone(s.byChan[c], {});
    }
    forall e <- s.byEnt ensures Without(s.byEnt[e], {}) == s.byEnt[e] {
      WithoutNone(s.byEnt[e], {});
    }
    assert Drop(s, {}).byChan == s.byChan && Drop(s, {}).byEnt == s.byEnt;
  }

  // Taking an entry off the list of its channel.
  lemma DropFromChan(s: Store, x: Id)
    requires Linked(s) && x in s.entries
    ensures var c := s.entries[x].chan;
      c in s.byChan && Drop(s, {x}).byChan == s.byChan[c := Deleted(s.byChan[c], x)]
  {
    var c := s.entries[x].chan;
    assert InChan(s, c, x);
    DeletedOnly(s.byChan[c], x);
    forall d <- s.byChan | d != c ensures Without(s.byChan[d], {x}) == s.byChan[d] {
      assert !InChan(s, d, x);
      WithoutNone(s.byChan[d], {x});
    }
  }

  lemma OtherEnts(s: Store, x: Id)
    requires Linked(s) && x in s.entries
    ensures forall d <- s.byEnt | s.entries[x].who != Entity(d) :: Without(s.byEnt[d], {x}) == s.byEnt[d]
  {
    forall d <- s.byEnt | s.entries[x].who != Entity(d) ensures Without(s.byEnt[d], {x}) == s.byEnt[d] {
      assert !InEnt(s, d, x);
      WithoutNone(s.byEnt[d], {x});
    }
  }

  // Taking it off the list of its entity, if it is about one.
  lemma DropFromEnt(s: Store, x: Id)
    requires Linked(s) && x in s.entries
    ensures s.entries[x].who.Host? ==> Drop(s, {x}).byEnt == s.byEnt
    ensures s.entries[x].who.Entity? ==> s.entries[x].who.ent in s.byEnt
    ensures s.entries[x].who.Entity? ==>
      Drop(s, {x}).byEnt == s.byEnt[s.entries[x].who.ent := Deleted(s.byEnt[s.entries[x].who.ent], x)]
  {
    OtherEnts(s, x);
    if s.entries[x].who.Entity? {
      var e := s.entries[x].who.ent;
      assert InEnt(s, e, x);
      DeletedOnly(s.byEnt[e], x);
      hide Without, Deleted, Linked;
      assert Drop(s, {x}).byEnt == s.byEnt[e := Deleted(s.byEnt[e], x)];
    }
  }

  // A channel goes, and its entries with it.
  function DropChan(s: Store, c: Chan): Store
    requires c in s.byChan
  {
    var r := Drop(s, Elems(s.byChan[c]));
    r.(byChan := r.byChan - {c})
  }

  lemma DropChanSound(s: Store, c: Chan, all: set<Flag>)
    requires Sound(s, all) && c in s.byChan
    ensures Sound(DropChan(s, c), all)
  {
    var gone := Elems(s.byChan[c]);
    var r := Drop(s, gone);
    DropSound(s, gone, all);
    forall x <- r.entries ensures r.entries[x].chan != c {
      assert InChan(s, c, x) <==> s.entries[x].chan == c;
    }
    var t := DropChan(s, c);
    forall d, x ensures InChan(t, d, x) <==> x in t.entries && t.entries[x].chan == d {
      assert InChan(t, d, x) <==> InChan(r, d, x) && d != c;
    }
    forall e, x ensures InEnt(t, e, x) <==> InEnt(r, e, x) {
    }
  }

  // ---- adding entries and changing levels ----

  function Add(s: Store, x: Id, c: Chan, who: Who, level: set<Flag>): Store
    requires c in s.byChan && (who.Entity? ==> who.ent in s.byEnt)
  {
    Store(s.entries[x := Entry(c, who, level)],
          s.byChan[c := s.byChan[c] + [x]],
          if who.Entity? then s.byEnt[who.ent := s.byEnt[who.ent] + [x]] else s.byEnt)
  }

  lemma AddLinked(s: Store, x: Id, c: Chan, who: Who, level: set<Flag>)
    requires Linked(s) && x !in s.entries && c in s.byChan && (who.Entity? ==> who.ent in s.byEnt)
    ensures Linked(Add(s, x, c, who, level))
  {
    var r := Add(s, x, c, who, level);
    forall d, y ensures InChan(r, d, y) <==> InChan(s, d, y) || (d == c && y == x) {
    }
    forall e, y ensures InEnt(r, e, y) <==> InEnt(s, e, y) || (Entity(e) == who && y == x) {
    }
    assert !InChan(s, c, x);
    assert who.Entity? ==> !InEnt(s, who.ent, x);
  }

  function NewChan(s: Store, c: Chan): Store {
    s.(byChan := s.byChan[c := []])
  }

  lemma NewChanSound(s: Store, c: Chan, all: set<Flag>)
    requires Sound(s, all)
    ensures c !in s.byChan ==> Sound(NewChan(s, c), all) && forall x <- s.entries :: s.entries[x].chan != c
  {
    if c !in s.byChan {
      var r := NewChan(s, c);
      assert forall d, x :: InChan(r, d, x) <==> InChan(s, d, x);
      assert forall e, x :: InEnt(r, e, x) <==> InEnt(s, e, x);
      forall x <- s.entries ensures s.entries[x].chan != c {
        assert InChan(s, s.entries[x].chan, x);
      }
    }
  }

  // A new channel with the entry of its founder keeps every channel with a founder.
  lemma RegisteredFounded(s: Store, c: Chan, x: Id, founder: Ent, level: set<Flag>, all: set<Flag>)
    requires Sound(s, all) && Founded(s) && c !in s.byChan && x !in s.entries && founder in s.byEnt
    requires CA_FOUNDER in level
    ensures Founded(Add(NewChan(s, c), x, c, Entity(founder), level))
    ensures forall y :: !About(NewChan(s, c), y, c, Entity(founder))
  {
    var r := Add(NewChan(s, c), x, c, Entity(founder), level);
    NewChanSound(s, c, all);
    assert InChan(r, c, x) && IsFounder(r.entries[x]);
    forall d <- s.byChan ensures HasFounder(r, d) {
      var y :| InChan(s, d, y) && y in s.entries && IsFounder(s.entries[y]);
      assert InChan(r, d, y) && r.entries[y] == s.entries[y];
    }
  }

  function SetLevel(s: Store, x: Id, level: set<Flag>): Store
    requires x in s.entries
  {
    s.(entries := s.entries[x := s.entries[x].(level := level)])
  }

  lemma SetLevelSound(s: Store, x: Id, level: set<Flag>, all: set<Flag>)
    requires Sound(s, all) && x in s.entries && level <= all
    ensures Sound(SetLevel(s, x, level), all)
  {
    var r := SetLevel(s, x, level);
    assert forall c, y :: InChan(r, c, y) <==> InChan(s, c, y);
    assert forall e, y :: InEnt(r, e, y) <==> InEnt(s, e, y);
  }

  // The entries of a channel about somebody.
  ghost predicate About(s: Store, x: Id, c: Chan, who: Who) {
    x in s.entries && s.entries[x].chan == c && s.entries[x].who == who
  }

  lemma AddSound(s: Store, x: Id, c: Chan, who: Who, level: set<Flag>, all: set<Flag>)
    requires Sound(s, all) && x !in s.entries && c in s.byChan && (who.Entity? ==> who.ent in s.byEnt)
    requires level <= all && forall y :: !About(s, y, c, who)
    ensures Sound(Add(s, x, c, who, level), all)
  {
    AddLinked(s, x, c, who, level);
    forall y <- s.entries ensures s.entries[y].chan != c || s.entries[y].who != who {
      assert !About(s, y, c, who);
    }
  }

  lemma OnlyEntry(s: Store, x: Id, c: Chan, who: Who, all: set<Flag>)
    requires Sound(s, all) && About(s, x, c, who) && who.Entity?
    ensures forall y :: About(s, y, c, who) ==> y == x
  {
  }

  lemma WithinAll(s: Store, x: Id, all: set<Flag>)
    requires Sound(s, all) && x in s.entries
    ensures s.entries[x].level <= all
  {
  }

  // The level of an entry does not matter once it is gone.
  lemma DropLevel(s: Store, x: Id, level: set<Flag>)
    requires x in s.entries
    ensures Drop(SetLevel(s, x, level), {x}) == Drop(s, {x})
  {
    assert SetLevel(s, x, level).entries - {x} == s.entries - {x};
  }

  // The change of one entry's level that chanacs_change() makes. A flag both added and removed is
  // toggled; an entry without flags goes.
  ghost predicate Changed(s0: Store, s1: Store, x: Id, add: set<Flag>, remove: set<Flag>, restrict: set<Flag>,
                          ok: bool, added: set<Flag>, removed: set<Flag>) {
    && x in s0.entries
    && var level := s0.entries[x].level;
    && added == add - level && removed == remove * level
    && (ok <==> added + removed == {} || added + removed + level <= restrict)
    && var now := (level + added) - removed;
    s1 == if !ok || added + removed == {} then s0 else if now == {} then Drop(s0, {x}) else SetLevel(s0, x, now)
  }
}
