// Changing channel access entries, choosing a successor and deleting an account
// (libathemecore/account.c:239-291, 994-1019, 1080-1241, 1395-1476, 1690-1712, 1822-2004).
module ChannelAccess {
  import opened Basics
  import opened LinkedLists
  import opened AccessStore
  import opened Succession
  import opened SuccessionOrder
  import opened ChannelRelease

  class Access {
    const w: World
    var entries: map<Id, Entry>
    var byChan: map<Chan, seq<Id>>
    var byEnt: map<Ent, seq<Id>>
    var next: Id

    ghost function S(): Store
      reads this
    {
      Store(entries, byChan, byEnt)
    }

    ghost predicate Valid()
      reads this
    {
      Sound(S(), w.all) && CA_FOUNDER in w.all && forall x <- entries :: x < next
    }

    constructor (w: World, entities: set<Ent>)
      requires CA_FOUNDER in w.all
      ensures Valid() && Founded(S()) && this.w == w && entries == map[] && byChan == map[] && byEnt.Keys == entities
    {
      this.w := w;
      entries, byChan, byEnt, next := map[], map[], map e | e in entities :: [], 0;
    }

    // ---- chanacs_delete() and mychan_delete() ----

    method DeleteEntry(x: Id)
      requires Valid() && x in entries
      modifies this`entries, this`byChan, this`byEnt
      ensures Valid() && S() == Drop(old(S()), {x})
    {
      ghost var s := S();
      hide Without, Deleted;
      DropFromChan(s, x);
      DropFromEnt(s, x);
      DropSound(s, {x}, w.all);
      var e := entries[x];
      byChan := byChan[e.chan := Deleted(byChan[e.chan], x)];
      if e.who.Entity? {
        byEnt := byEnt[e.who.ent := Deleted(byEnt[e.who.ent], x)];
      }
      entries := entries - {x};
      hide Sound;
      assert S() == Drop(s, {x});
    }

    method DeleteChan(c: Chan)
      requires Valid() && c in byChan
      modifies this`entries, this`byChan, this`byEnt
      ensures Valid() && S() == DropChan(old(S()), c)
    {
      ghost var s := S();
      ListedOnce(s, c);
      DropChanSound(s, c, w.all);
      DropNothing(s);
      hide Sound, Drop, Elems;
      var list, i := byChan[c], 0;
      ElemsNone(list);
      while i < |list|
        invariant 0 <= i <= |list|
        invariant Valid() && S() == Drop(s, Elems(list[..i]))
      {
        StillThere(s, c, i);
        DropTwice(s, Elems(list[..i]), {list[i]});
        ElemsMore(list, i);
        DeleteEntry(list[i]);
        i := i + 1;
      }
      assert list[..i] == list;
      DropKeys(s, Elems(list));
      byChan := byChan - {c};
    }

    // ---- mychan_num_flags() ----

    method NumFlags(c: Chan, flag: Flag) returns (n: nat)
      requires Valid() && c in byChan
      ensures n == Count(entries, byChan[c], flag)
    {
      ListedOnce(S(), c);
      n := 0;
      var i, list := 0, byChan[c];
      while i < |list|
        invariant 0 <= i <= |list|
        invariant n == Count(entries, list[..i], flag)
      {
        if entries[list[i]].who.Entity? && flag in entries[list[i]].level {
          n := n + 1;
        }
        i := i + 1;
        assert list[..i][..i - 1] == list[..i - 1];
      }
      assert list[..i] == list;
    }

    // ---- myentity_can_register_channel() ----

    method CountChannels(e: Ent, flag: Flag) returns (n: nat)
      requires Valid() && e in byEnt
      ensures n == Count(entries, byEnt[e], flag)
    {
      n := 0;
      var i, list := 0, byEnt[e];
      ListedForEntity(S(), e);
      while i < |list|
        invariant 0 <= i <= |list|
        invariant n == Count(entries, list[..i], flag)
      {
        if flag in entries[list[i]].level {
          n := n + 1;
        }
        i := i + 1;
        assert list[..i][..i - 1] == list[..i - 1];
      }
      assert list[..i] == list;
    }

    method CanRegisterChannel(e: Ent) returns (ok: bool)
      requires Valid() && e in byEnt
      ensures ok == CanRegister(w, S(), e)
    {
      if e in w.noLimit {
        return true;
      }
      var n := CountChannels(e, CA_FOUNDER);
      return n < w.maxChans;
    }

    // ---- mychan_pick_candidate() and mychan_pick_successor() ----

    method PickCandidate(c: Chan, min: set<Flag>) returns (r: Option<Ent>)
      requires Valid() && c in byChan
      ensures r == Candidate(w, S(), c, min)
      ensures AllAccounts(w, S(), c) ==> if SomeWith(w, S(), c, min) then TakenBy(w, S(), c, min, r) else r == None
    {
      hide AllAccounts, SomeWith, TakenBy;
      if AllAccounts(w, S(), c) {
        OneKind(w, S(), c, min);
      }
      ListedOnce(S(), c);
      var list, i := byChan[c], 0;
      EntitiesKnown(S());
      hide Valid, CanRegister;
      var hi: Option<Ent>, hiLevel: set<Flag>, hiRecent, recent := None, {}, false, false;
      while i < |list|
        invariant 0 <= i <= |list|
        invariant var b := Scan(w, S(), list[..i], min);
          && hiLevel == b.level && hiRecent == b.hiRecent && recent == b.recent
          && (b.hi.Some? ==> b.hi.value in list)
          && hi == EntOf(S(), b.hi) && hi.Some? == b.hi.Some?
      {
        var x := list[i];
        i := i + 1;
        assert list[..i][..i - 1] == list[..i - 1] && list[..i][i - 1] == x;
        if CA_AKICK in entries[x].level {
          continue;
        }
        if entries[x].who.Host? || CA_FOUNDER in entries[x].level {
          continue;
        }
        if !(min <= entries[x].level) {
          continue;
        }
        var mt := entries[x].who.ent;
        if mt in w.users {
          recent := mt in w.recent;
        }
        var level := AddAutoFlags(entries[x].level);
        if hi.Some? {
          if !(hiLevel <= level) {
            continue;
          }
          if hiLevel == level && (!recent || hiRecent) {
            continue;
          }
        }
        var ok := CanRegisterChannel(mt);
        if ok {
          hi, hiLevel, hiRecent := Some(mt), level, recent;
        }
      }
      assert list[..i] == list;
      return if hi.Some? && hi.value in w.users then hi else None;
    }

    method PickSuccessor(c: Chan) returns (r: Option<Ent>)
      requires Valid() && c in byChan
      ensures r == Successor(w, S(), c)
      ensures AllAccounts(w, S(), c) ==> ByFlags(w, S(), c, r)
    {
      hide AllAccounts, ByFlags, SomeWith, TakenBy;
      if AllAccounts(w, S(), c) {
        MostPowerfulFirst(w, S(), c);
      }
      hide Valid, Candidate;
      ghost var tiers := Tiers(w.all);
      r := PickCandidate(c, {CA_RECOVER});
      if r.Some? {
        FirstFound(w, S(), c, tiers, 0);
        return;
      }
      r := PickCandidate(c, {CA_FLAGS});
      if r.Some? {
        FirstFound(w, S(), c, tiers, 1);
        return;
      }
      if CA_USEOWNER in w.all {
        r := PickCandidate(c, {CA_USEOWNER, CA_AUTOOP});
        if r.Some? {
          FirstFound(w, S(), c, tiers, 2);
          return;
        }
      }
      r := PickCandidate(c, {CA_OP});
      if r.Some? {
        FirstFound(w, S(), c, tiers, |tiers| - 2);
        return;
      }
      r := PickCandidate(c, {});
      FirstFound(w, S(), c, tiers, |tiers| - 1);
    }

    // ---- chanacs_find_literal(), chanacs_find_host_literal(), chanacs_add(), chanacs_open() ----

    method FindLiteral(c: Chan, who: Who) returns (r: Option<Id>)
      requires Valid() && c in byChan
      ensures r.Some? ==> About(S(), r.value, c, who)
      ensures r.None? ==> forall x :: !About(S(), x, c, who)
    {
      ListedOnce(S(), c);
      var list, i := byChan[c], 0;
      while i < |list|
        invariant 0 <= i <= |list|
        invariant forall k :: 0 <= k < i ==> entries[list[k]].who != who
      {
        if entries[list[i]].who == who {
          return Some(list[i]);
        }
        i := i + 1;
      }
      assert forall x <- entries | entries[x].chan == c :: InChan(S(), c, x);
      return None;
    }

    method AddEntry(c: Chan, who: Who, level: set<Flag>) returns (r: Option<Id>)
      requires Valid() && c in byChan && (who.Entity? ==> who.ent in byEnt) && forall x :: !About(S(), x, c, who)
      modifies this`entries, this`byChan, this`byEnt, this`next
      ensures Valid() && (r.Some? <==> c != [] && c[0] == '#')
      ensures r.None? ==> S() == old(S()) && next == old(next)
      ensures r.Some? ==> next == old(next) + 1
      ensures r.Some? ==> r.value == old(next) && r.value !in old(entries) && S() == Add(old(S()), r.value, c, who, level * w.all)
    {
      if c == [] || c[0] != '#' {
        return None;
      }
      AddSound(S(), next, c, who, level * w.all, w.all);
      hide Sound;
      entries := entries[next := Entry(c, who, level * w.all)];
      byChan := byChan[c := byChan[c] + [next]];
      if who.Entity? {
        byEnt := byEnt[who.ent := byEnt[who.ent] + [next]];
      }
      next := next + 1;
      return Some(next - 1);
    }

    // Afterwards there is exactly one entry about an entity, unless there was none and none may be
    // made.
    method Open(c: Chan, who: Who, create: bool) returns (r: Option<Id>)
      requires Valid() && c in byChan && (who.Entity? ==> who.ent in byEnt)
      modifies this`entries, this`byChan, this`byEnt, this`next
      ensures Valid() && (r.Some? ==> About(S(), r.value, c, who))
      ensures r.None? <==> (forall x :: !About(old(S()), x, c, who)) && (!create || c == [] || c[0] != '#')
      ensures r.None? || r.value in old(entries) ==> S() == old(S())
      ensures r.Some? && r.value !in old(entries) ==> S() == Add(old(S()), r.value, c, who, {})
    {
      r := FindLiteral(c, who);
      if r.None? && create {
        r := AddEntry(c, who, {});
        assert {} * w.all == {};
      }
    }

    // ---- mychan_add(), and registering a channel with it ----

    // A channel with no entries, unless there is one of the name.
    method AddChan(c: Chan)
      requires Valid()
      modifies this`byChan
      ensures Valid() && S() == if c in old(byChan) then old(S()) else NewChan(old(S()), c)
    {
      NewChanSound(S(), c, w.all);
      hide Sound;
      if c !in byChan {
        byChan := byChan[c := []];
      }
    }

    // The channel and its founder's entry; every channel has a founder again.
    method Register(c: Chan, founder: Ent, level: set<Flag>) returns (x: Id)
      requires Valid() && Founded(S()) && c !in byChan && c != [] && c[0] == '#'
      requires founder in byEnt && CA_FOUNDER in level
      modifies this`entries, this`byChan, this`byEnt, this`next
      ensures Valid() && Founded(S()) && x == old(next)
      ensures S() == Add(NewChan(old(S()), c), x, c, Entity(founder), level * w.all)
    {
      ghost var s := S();
      RegisteredFounded(s, c, next, founder, level * w.all, w.all);
      hide Sound, Founded;
      AddChan(c);
      var r := AddEntry(c, Entity(founder), level);
      x := r.value;
    }

    // ---- chanacs_modify() and chanacs_change() ----

    // added and removed are the flags that really change. A flag both added and removed is toggled.
    method Modify(x: Id, add: set<Flag>, remove: set<Flag>, restrict: set<Flag>)
      returns (ok: bool, added: set<Flag>, removed: set<Flag>)
      requires Valid() && x in entries && restrict <= w.all
      modifies this`entries
      ensures Valid() && added == add - old(entries[x].level) && removed == remove * old(entries[x].level)
      ensures ok <==> added + removed == {} || added + removed + old(entries[x].level) <= restrict
      ensures S() == if ok && added + removed != {} then SetLevel(old(S()), x, (old(entries[x].level) + added) - removed) else old(S())
    {
      var level := entries[x].level;
      added := add - level;
      removed := remove * (level - added);
      if added + removed == {} {
        return true, added, removed;
      }
      if !(added <= restrict) || !(removed <= restrict) || !(level <= restrict) {
        return false, added, removed;
      }
      SetLevelSound(S(), x, (level + added) - removed, w.all);
      hide Sound;
      entries := entries[x := entries[x].(level := (level + added) - removed)];
      return true, added, removed;
    }

    method ChangeAccess(c: Chan, who: Who, add: set<Flag>, remove: set<Flag>, restrict: set<Flag>)
      returns (ok: bool, added: set<Flag>, removed: set<Flag>, ghost found: Option<Id>)
      requires Valid() && c in byChan && (who.Entity? ==> who.ent in byEnt) && restrict <= w.all
      modifies this`entries, this`byChan, this`byEnt, this`next
      ensures Valid() && next >= old(next)
      ensures found.None? ==> (forall x :: !About(old(S()), x, c, who)) && added == add && removed == {} && (ok <==> add <= restrict)
      ensures found.None? ==>
        S() == if ok && add != {} && c != [] && c[0] == '#' then Add(old(S()), old(next), c, who, add) else old(S())
      ensures found.Some? ==> About(old(S()), found.value, c, who) && next == old(next)
      ensures found.Some? ==> Changed(old(S()), S(), found.value, add, remove, restrict, ok, added, removed)
    {
      var r := FindLiteral(c, who);
      found := r;
      if r.None? {
        added, removed := add, {};
        if added == {} {
          ok := true;
        } else if !(added <= restrict) {
          ok := false;
        } else {
          assert added * w.all == added;
          var x := AddEntry(c, who, added);
          ok := true;
        }
        return;
      }
      var x := r.value;
      ok, added, removed := Modify(x, add, remove, restrict);
      if ok && added + removed != {} && entries[x].level == {} {
        DeleteEntry(x);
        DropLevel(old(S()), x, (old(entries[x].level) + added) - removed);
      }
    }

    // ---- myuser_delete() ----

    // Makes y, an entry on the list of a channel, about a founder.
    method MakeFounder(c: Chan, successor: Ent, ghost y: Id)
      requires Valid() && c in byChan && successor in byEnt && About(S(), y, c, Entity(successor))
      requires CA_FOUNDER !in entries[y].level
      modifies this`entries, this`byChan, this`byEnt, this`next
      ensures Valid() && next == old(next) && S() == SetLevel(old(S()), y, FounderLevel(old(entries[y].level), w.all))
    {
      OnlyEntry(S(), y, c, Entity(successor), w.all);
      WithinAll(S(), y, w.all);
      hide Valid;
      var add := {CA_FOUNDER, CA_FLAGS} * w.all;
      var ok, added, removed, found := ChangeAccess(c, Entity(successor), add, {}, w.all);
      assert found == Some(y);
      assert CA_FOUNDER in added;
      assert (old(entries[y].level) + added) - removed == FounderLevel(old(entries[y].level), w.all);
    }

    // One turn of the loop over the deleted account's entries.
    method ReleaseEntry(x: Id) returns (ghost heir: Option<Ent>)
      requires Valid() && Founded(S()) && x in entries && entries[x].who.Entity?
      modifies this`entries, this`byChan, this`byEnt, this`next
      ensures Valid() && Founded(S()) && Released(old(S()), S(), x, heir, w.all)
      ensures Turn(w, old(S()), S(), x, heir)
      ensures heir == if SoleFounder(old(S()), x) then Successor(w, old(S()), old(entries[x].chan)) else None
      ensures old(entries[x].chan) in byChan <==> !SoleFounder(old(S()), x) || heir.Some?
      ensures heir.Some? ==> TookOver(old(S()), S(), x, heir.value, w.all)
      ensures byChan.Keys <= old(byChan).Keys
      ensures forall c <- old(byChan) | c != old(entries[x].chan) :: ChanSame(old(S()), S(), c)
      ensures var e := old(entries[x].who.ent);
        e in old(byEnt) && e in byEnt && byEnt[e] == Without(old(byEnt)[e], {x})
    {
      var c := entries[x].chan;
      ghost var s := S();
      OnLists(s, x);
      hide Sound, Founded, Released, ChanSame, Count, Successor, Eligible, HandOver, Tiers;
      var founders := NumFlags(c, CA_FOUNDER);
      heir := None;
      if CA_FOUNDER in entries[x].level && founders == 1 {
        var successor := PickSuccessor(c);
        heir := successor;
        if successor.Some? {
          HandOverEntry(x, c, successor.value);
        } else {
          ChanGone(s, x, w.all);
          DeleteChan(c);
        }
      } else {
        LetGo(s, x, w.all);
        DeleteEntry(x);
      }
    }

    method HandOverEntry(x: Id, c: Chan, successor: Ent)
      requires Valid() && Founded(S()) && SoleFounder(S(), x) && c == entries[x].chan && c in byChan && entries[x].who.Entity?
      requires Successor(w, S(), c) == Some(successor)
      modifies this`entries, this`byChan, this`byEnt, this`next
      ensures Valid() && Founded(S()) && Released(old(S()), S(), x, Some(successor), w.all)
      ensures TookOver(old(S()), S(), x, successor, w.all)
      ensures byChan.Keys == old(byChan).Keys
      ensures forall d <- old(byChan) | d != c :: ChanSame(old(S()), S(), d)
      ensures var e := old(entries[x].who.ent);
        e in old(byEnt) && e in byEnt && byEnt[e] == Without(old(byEnt)[e], {x})
    {
      ghost var s := S();
      ghost var y := HeirExists(w, s, x, c, successor);
      OnLists(s, x);
      HandedOver(s, x, y, w.all);
      HandOverKeys(s, x, y, w.all);
      hide Sound, Founded, Released, ChanSame, Count, Successor, SoleFounder, Drop, SetLevel;
      MakeFounder(c, successor, y);
      DeleteEntry(x);
      assert S() == HandOver(s, x, y, w.all);
    }

    method ReleaseNext(x: Id, ghost s0: Store, ghost mu: Ent, ghost heirs: seq<Option<Ent>>, ghost turns: seq<Store>)
      returns (ghost heir: Option<Ent>)
      requires Valid() && Founded(S()) && Releasing(w, s0, S(), mu, heirs, turns)
      requires |heirs| < |s0.byEnt[mu]| && x == s0.byEnt[mu][|heirs|]
      modifies this`entries, this`byChan, this`byEnt, this`next
      ensures Valid() && Founded(S()) && Releasing(w, s0, S(), mu, heirs + [heir], turns + [S()])
    {
      ghost var s := S();
      NextListed(w, s0, s, mu, heirs, turns);
      hide Valid, Founded, Releasing, Turn, Released, ChanSame, ChanStill, Without;
      heir := ReleaseEntry(x);
      NextReleased(w, s0, s, S(), mu, heirs, turns, heir);
    }

    method DeleteAccount(mu: Ent) returns (ghost heirs: seq<Option<Ent>>, ghost turns: seq<Store>)
      requires Valid() && Founded(S()) && mu in byEnt
      modifies this`entries, this`byChan, this`byEnt, this`next
      ensures Valid() && Founded(S())
      ensures mu in byEnt && byEnt[mu] == [] && forall x <- entries :: entries[x].who != Entity(mu)
      ensures byChan.Keys <= old(byChan).Keys
      ensures forall c <- old(byChan) | (forall x :: !About(old(S()), x, c, Entity(mu))) :: ChanSame(old(S()), S(), c)
      // each entry of the account had its turn, and each channel went as this turn decided
      ensures |heirs| == |old(byEnt)[mu]| && Turns(w, turns, old(byEnt)[mu], heirs)
      // where all who had access were accounts, the most powerful kind of access decided
      ensures forall k :: 0 <= k < |heirs| ==> HeirByFlags(w, old(S()), turns[k], old(byEnt)[mu][k], heirs[k])
      ensures turns[0] == old(S()) && turns[|heirs|] == S()
      ensures forall x <- old(entries) | old(entries)[x].who == Entity(mu) ::
        exists k :: 0 <= k < |heirs| && old(byEnt)[mu][k] == x
      ensures forall k :: 0 <= k < |heirs| ==> Released(old(S()), S(), old(byEnt)[mu][k], heirs[k], w.all)
    {
      ghost var s0 := S();
      var list, i := byEnt[mu], 0;
      heirs, turns := [], [s0];
      SoundIsLinked(s0, w.all);
      NoTurnsYet(w, s0, list, w.all);
      hide Valid, Sound, Founded, Linked, Turns, Progress, Released, ChanSame;
      while i < |list|
        invariant 0 <= i <= |list| == |s0.byEnt[mu]| && list == s0.byEnt[mu] && |heirs| == i
        invariant Valid() && Founded(S()) && Releasing(w, s0, S(), mu, heirs, turns)
      {
        ghost var heir := ReleaseNext(list[i], s0, mu, heirs, turns);
        heirs, turns, i := heirs + [heir], turns + [S()], i + 1;
      }
      AllReleased(s0, S(), mu, heirs, w.all);
      HeirsByFlags(w, turns, list, heirs);
    }
  }

  lemma HeirExists(w: World, s: Store, x: Id, c: Chan, successor: Ent) returns (y: Id)
    requires Linked(s) && SoleFounder(s, x) && s.entries[x].chan == c && Successor(w, s, c) == Some(successor)
    ensures Heir(s, x, y) && About(s, y, c, Entity(successor)) && successor in s.byEnt && CA_FOUNDER !in s.entries[y].level
  {
    var tier;
    y, tier := SuccessorIsFit(w, s, c);
    assert InChan(s, c, y);
    EntitiesKnown(s);
  }
}
