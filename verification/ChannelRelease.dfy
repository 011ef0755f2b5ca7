// What becomes of a channel when one of its entities goes (libathemecore/account.c:239-291).
module ChannelRelease {
  import opened Basics
  import opened LinkedLists
  import opened AccessStore
  import opened Succession
  import opened SuccessionOrder

  // Nothing of a channel changed.
  ghost predicate ChanSame(s0: Store, s1: Store, c: Chan) {
    && c in s0.byChan && c in s1.byChan && s1.byChan[c] == s0.byChan[c]
    && forall x <- s0.byChan[c] :: x in s0.entries && x in s1.entries && s1.entries[x] == s0.entries[x]
  }

  function FounderLevel(level: set<Flag>, all: set<Flag>): set<Flag> {
    level + ({CA_FOUNDER, CA_FLAGS} * all)
  }

  // Entry x is gone from its channel, and if y is given, y's entry got the two flags of a founder;
  // nothing else changed.
  ghost predicate EntryGone(s0: Store, s1: Store, c: Chan, x: Id, y: Option<Id>, all: set<Flag>) {
    && c in s0.byChan && c in s1.byChan && s1.byChan[c] == Without(s0.byChan[c], {x})
    && forall z <- s1.byChan[c] :: z in s0.entries && z in s1.entries
         && s1.entries[z] == if y == Some(z) then s0.entries[z].(level := FounderLevel(s0.entries[z].level, all))
                             else s0.entries[z]
  }

  // What becomes of the channel of entry x when the entity of x goes and heir is to take over.
  ghost predicate Released(s0: Store, s1: Store, x: Id, heir: Option<Ent>, all: set<Flag>) {
    x in s0.entries && var c := s0.entries[x].chan;
    if !SoleFounder(s0, x) then heir.None? && EntryGone(s0, s1, c, x, None, all)
    else if heir.None? then c !in s1.byChan
    else exists y :: y != x && InChan(s0, c, y) && About(s0, y, c, Entity(heir.value)) && EntryGone(s0, s1, c, x, Some(y), all)
  }

  // One turn of the loop: without a sole founder's entry, with the channel, or with a successor.
  ghost predicate Turn(w: World, s: Store, s1: Store, x: Id, heir: Option<Ent>) {
    x in s.entries && Linked(s) && var c := s.entries[x].chan;
    if !SoleFounder(s, x) then heir.None? && s1 == Drop(s, {x})
    else heir == Successor(w, s, c) &&
         if heir.None? then c in s.byChan && s1 == DropChan(s, c) else TookOver(s, s1, x, heir.value, w.all)
  }

  lemma EntitiesKnown(s: Store)
    requires Linked(s)
    ensures forall x <- s.entries | s.entries[x].who.Entity? :: s.entries[x].who.ent in s.byEnt
  {
    assert forall x <- s.entries | s.entries[x].who.Entity? :: InEnt(s, s.entries[x].who.ent, x);
  }

  // The entries on the list of a channel are entries of that channel.
  lemma ListedOnce(s: Store, c: Chan)
    requires Linked(s) && c in s.byChan
    ensures forall x <- s.byChan[c] :: x in s.entries && s.entries[x].chan == c
    ensures Distinct(s.byChan[c])
  {
    assert forall x <- s.byChan[c] :: InChan(s, c, x);
  }

  lemma ListedForEntity(s: Store, e: Ent)
    requires Linked(s) && e in s.byEnt
    ensures forall x <- s.byEnt[e] :: x in s.entries && s.entries[x].who == Entity(e)
    ensures Distinct(s.byEnt[e])
  {
    assert forall x <- s.byEnt[e] :: InEnt(s, e, x);
  }

  lemma ElemsNone(s: seq<Id>)
    ensures Elems(s[..0]) == {}
  {
  }

  lemma StillThere(s: Store, c: Chan, i: nat)
    requires Linked(s) && c in s.byChan && i < |s.byChan[c]|
    ensures s.byChan[c][i] in Drop(s, Elems(s.byChan[c][..i])).entries
  {
    ListedOnce(s, c);
  }

  lemma DropKeys(s: Store, gone: set<Id>)
    ensures Drop(s, gone).byChan.Keys == s.byChan.Keys && Drop(s, gone).byEnt.Keys == s.byEnt.Keys
    ensures Drop(s, gone).entries == s.entries - gone
  {
  }

  // Only x is in gone, of the members of a list.
  lemma {:induction false} WithoutOnly(list: seq<Id>, gone: set<Id>, x: Id)
    requires x in gone && forall y <- list :: y in gone ==> y == x
    ensures Without(list, gone) == Without(list, {x})
  {
    if list != [] {
      assert list[0] in list && forall y <- list[1..] :: y in list;
      WithoutOnly(list[1..], gone, x);
    }
  }

  // ---- one entry and its channel ----

  // The entry goes and the channel stays.
  lemma LetGo(s: Store, x: Id, all: set<Flag>)
    requires Sound(s, all) && Founded(s) && x in s.entries && s.entries[x].who.Entity? && !SoleFounder(s, x)
    ensures var r := Drop(s, {x}); Founded(r) && Released(s, r, x, None, all)
    ensures forall c <- s.byChan | c != s.entries[x].chan :: ChanSame(s, Drop(s, {x}), c)
  {
    var r, c := Drop(s, {x}), s.entries[x].chan;
    assert InChan(s, c, x);
    DropLinked(s, {x});
    ListedOnce(s, c);
    OthersSame(s, x);
    var y := FounderStays(s, x);
    assert InChan(r, c, y);
    forall d <- r.byChan ensures HasFounder(r, d) {
      if d != c {
        FounderKept(s, r, d);
      }
    }
  }

  lemma OthersSame(s: Store, x: Id)
    requires Linked(s) && x in s.entries
    ensures forall c <- s.byChan | c != s.entries[x].chan :: ChanSame(s, Drop(s, {x}), c)
  {
    forall c <- s.byChan | c != s.entries[x].chan ensures ChanSame(s, Drop(s, {x}), c) {
      ListedOnce(s, c);
      WithoutNone(s.byChan[c], {x});
    }
  }

  lemma FounderKept(s0: Store, s1: Store, c: Chan)
    requires ChanSame(s0, s1, c) && HasFounder(s0, c)
    ensures HasFounder(s1, c)
  {
    var y :| InChan(s0, c, y) && y in s0.entries && IsFounder(s0.entries[y]);
    assert InChan(s1, c, y);
  }

  // Entry y is made founder before entry x goes.
  ghost predicate Heir(s: Store, x: Id, y: Id) {
    && x in s.entries && y in s.entries && y != x
    && s.entries[y].chan == s.entries[x].chan && s.entries[y].who.Entity?
  }

  function HandOver(s: Store, x: Id, y: Id, all: set<Flag>): Store
    requires y in s.entries
  {
    Drop(SetLevel(s, y, FounderLevel(s.entries[y].level, all)), {x})
  }

  lemma HandOverKeys(s: Store, x: Id, y: Id, all: set<Flag>)
    requires y in s.entries
    ensures HandOver(s, x, y, all).byChan.Keys == s.byChan.Keys && HandOver(s, x, y, all).byEnt.Keys == s.byEnt.Keys
    ensures forall e <- s.byEnt :: HandOver(s, x, y, all).byEnt[e] == Without(s.byEnt[e], {x})
  {
  }

  lemma HandedOverHere(s: Store, x: Id, y: Id, all: set<Flag>)
    requires Linked(s) && Heir(s, x, y) && CA_FOUNDER in all
    ensures EntryGone(s, HandOver(s, x, y, all), s.entries[x].chan, x, Some(y), all)
    ensures HasFounder(HandOver(s, x, y, all), s.entries[x].chan) && InChan(s, s.entries[x].chan, y)
  {
    var r, c := HandOver(s, x, y, all), s.entries[x].chan;
    assert InChan(s, c, x) && InChan(s, c, y);
    ListedOnce(s, c);
    assert InChan(r, c, y) && IsFounder(r.entries[y]);
  }

  lemma HandedOverThere(s: Store, x: Id, y: Id, all: set<Flag>, d: Chan)
    requires Linked(s) && Heir(s, x, y) && d in s.byChan && d != s.entries[x].chan
    ensures ChanSame(s, HandOver(s, x, y, all), d)
  {
    ListedOnce(s, d);
    WithoutNone(s.byChan[d], {x});
  }

  lemma HandedOver(s: Store, x: Id, y: Id, all: set<Flag>)
    requires Linked(s) && Founded(s) && CA_FOUNDER in all && SoleFounder(s, x) && Heir(s, x, y)
    ensures var r := HandOver(s, x, y, all); Founded(r) && Released(s, r, x, Some(s.entries[y].who.ent), all)
    ensures forall d <- s.byChan | d != s.entries[x].chan :: ChanSame(s, HandOver(s, x, y, all), d)
  {
    hide Linked, EntryGone, HasFounder, SoleFounder, ChanSame;
    var r, c := HandOver(s, x, y, all), s.entries[x].chan;
    HandedOverHere(s, x, y, all);
    forall d <- s.byChan | d != c ensures ChanSame(s, r, d) && HasFounder(r, d) {
      HandedOverThere(s, x, y, all, d);
      FounderKept(s, r, d);
    }
  }

  lemma ChanGoneThere(s: Store, c: Chan, d: Chan)
    requires Linked(s) && c in s.byChan && d in s.byChan && d != c
    ensures ChanSame(s, DropChan(s, c), d)
  {
    ListedOnce(s, c);
    ListedOnce(s, d);
    WithoutNone(s.byChan[d], Elems(s.byChan[c]));
  }

  // Of the entries of a channel, an entity has one.
  lemma OffEntityList(s: Store, x: Id)
    requires Linked(s) && OnePerPair(s) && x in s.entries && s.entries[x].who.Entity?
    requires s.entries[x].chan in s.byChan && s.entries[x].who.ent in s.byEnt
    ensures var e := s.entries[x].who.ent;
      DropChan(s, s.entries[x].chan).byEnt[e] == Without(s.byEnt[e], {x})
  {
    var c, e := s.entries[x].chan, s.entries[x].who.ent;
    assert InChan(s, c, x) && InEnt(s, e, x);
    ListedOnce(s, c);
    ListedForEntity(s, e);
    WithoutOnly(s.byEnt[e], Elems(s.byChan[c]), x);
  }

  // The channel goes with the entry.
  lemma ChanGone(s: Store, x: Id, all: set<Flag>)
    requires Sound(s, all) && Founded(s) && x in s.entries && SoleFounder(s, x) && s.entries[x].who.Entity?
    ensures var r := DropChan(s, s.entries[x].chan); Founded(r) && Released(s, r, x, None, all)
    ensures forall c <- s.byChan | c != s.entries[x].chan :: ChanSame(s, DropChan(s, s.entries[x].chan), c)
    ensures s.entries[x].who.ent in s.byEnt
    ensures DropChan(s, s.entries[x].chan).byEnt[s.entries[x].who.ent] == Without(s.byEnt[s.entries[x].who.ent], {x})
  {
    var c := s.entries[x].chan;
    var r := DropChan(s, c);
    OnLists(s, x);
    OffEntityList(s, x);
    forall d <- s.byChan | d != c ensures ChanSame(s, r, d) {
      ChanGoneThere(s, c, d);
    }
    hide Sound, Linked, ChanSame, HasFounder;
    forall d <- r.byChan ensures HasFounder(r, d) {
      FounderKept(s, r, d);
    }
  }

  // ---- one entry after another ----

  lemma SameTwice(s0: Store, s1: Store, s2: Store, c: Chan)
    requires ChanSame(s0, s1, c) && ChanSame(s1, s2, c)
    ensures ChanSame(s0, s2, c)
  {
  }

  lemma SoleFounderSame(s0: Store, s1: Store, x: Id)
    requires Linked(s0) && x in s0.entries && ChanSame(s0, s1, s0.entries[x].chan)
    ensures x in s1.entries && s1.entries[x] == s0.entries[x] && (SoleFounder(s0, x) <==> SoleFounder(s1, x))
  {
    var c := s0.entries[x].chan;
    assert InChan(s0, c, x);
    CountSame(s0.entries, s1.entries, s0.byChan[c], CA_FOUNDER);
  }

  // What was released from a channel that had not changed was released from the channel as it was.
  lemma ReleasedLater(s0: Store, s1: Store, s2: Store, x: Id, heir: Option<Ent>, all: set<Flag>)
    requires Linked(s0) && x in s0.entries && ChanSame(s0, s1, s0.entries[x].chan) && Released(s1, s2, x, heir, all)
    ensures Released(s0, s2, x, heir, all)
  {
    var c := s0.entries[x].chan;
    SoleFounderSame(s0, s1, x);
    ListedOnce(s0, c);
    if SoleFounder(s0, x) && heir.Some? {
      var y :| y != x && InChan(s1, c, y) && About(s1, y, c, Entity(heir.value)) && EntryGone(s1, s2, c, x, Some(y), all);
      assert InChan(s0, c, y) && About(s0, y, c, Entity(heir.value)) && EntryGone(s0, s2, c, x, Some(y), all);
    }
  }

  // A channel left alone afterwards stays as it was released.
  lemma ReleasedBefore(s0: Store, s1: Store, s2: Store, x: Id, heir: Option<Ent>, all: set<Flag>)
    requires Released(s0, s1, x, heir, all) && s2.byChan.Keys <= s1.byChan.Keys
    requires s0.entries[x].chan in s1.byChan ==> ChanSame(s1, s2, s0.entries[x].chan)
    ensures Released(s0, s2, x, heir, all)
  {
    var c := s0.entries[x].chan;
    if SoleFounder(s0, x) && heir.Some? {
      var y :| y != x && InChan(s0, c, y) && About(s0, y, c, Entity(heir.value)) && EntryGone(s0, s1, c, x, Some(y), all);
      assert EntryGone(s0, s2, c, x, Some(y), all);
    }
  }

  lemma OnLists(s: Store, x: Id)
    requires Linked(s) && x in s.entries
    ensures s.entries[x].chan in s.byChan && x in s.byChan[s.entries[x].chan]
    ensures s.entries[x].who.Entity? ==> s.entries[x].who.ent in s.byEnt
  {
    assert InChan(s, s.entries[x].chan, x);
    EntitiesKnown(s);
  }

  // The entry of e on the channel of x was made a founder's, and x is gone.
  ghost predicate TookOver(s0: Store, s1: Store, x: Id, e: Ent, all: set<Flag>) {
    x in s0.entries && exists y :: About(s0, y, s0.entries[x].chan, Entity(e)) && s1 == HandOver(s0, x, y, all)
  }

  // What a handover does, told by flags: the entry of the heir gains founder and flags access as far as
  // they are in use and loses nothing, the entry handed over is off the list, and all others stay.
  lemma HeirGains(s0: Store, s1: Store, x: Id, heir: Ent, all: set<Flag>) returns (y: Id)
    requires Released(s0, s1, x, Some(heir), all)
    ensures var c := s0.entries[x].chan;
      && y != x && About(s0, y, c, Entity(heir)) && c in s1.byChan && y in s1.byChan[c] && x !in s1.byChan[c]
      && About(s1, y, c, Entity(heir))
      && (forall f :: f in s1.entries[y].level <==> f in s0.entries[y].level || ((f == CA_FOUNDER || f == CA_FLAGS) && f in all))
      && forall z <- s1.byChan[c] | z != y :: z in s0.entries && z in s1.entries && s1.entries[z] == s0.entries[z]
  {
    var c := s0.entries[x].chan;
    y :| y != x && InChan(s0, c, y) && About(s0, y, c, Entity(heir)) && EntryGone(s0, s1, c, x, Some(y), all);
  }

  // ---- all entries of an account ----

  ghost predicate Untouched(s0: Store, done: seq<Id>, c: Chan) {
    forall x <- done :: x in s0.entries && s0.entries[x].chan != c
  }

  // The first entries of the list are released, each to its heir if it has one, and the channels of
  // no such entry are unchanged.
  ghost predicate Progress(s0: Store, s: Store, list: seq<Id>, heirs: seq<Option<Ent>>, all: set<Flag>) {
    && |heirs| <= |list|
    && (forall c <- s0.byChan | Untouched(s0, list[..|heirs|], c) :: ChanSame(s0, s, c))
    && (forall k :: 0 <= k < |heirs| ==> Released(s0, s, list[k], heirs[k], all))
  }

  // The stores before, between and after the turns for the entries of a list.
  ghost predicate Turns(w: World, turns: seq<Store>, list: seq<Id>, heirs: seq<Option<Ent>>) {
    && |heirs| <= |list| && |turns| == |heirs| + 1
    && forall k :: 0 <= k < |heirs| ==> Turn(w, turns[k], turns[k + 1], list[k], heirs[k]) && ChanStill(turns[0], turns[k], list[k])
  }

  // The channel of an entry is as it was.
  ghost predicate ChanStill(s0: Store, s: Store, x: Id) {
    x in s0.entries && ChanSame(s0, s, s0.entries[x].chan)
  }

  lemma NoTurnsYet(w: World, s0: Store, list: seq<Id>, all: set<Flag>)
    requires Linked(s0)
    ensures Progress(s0, s0, list, [], all) && Turns(w, [s0], list, [])
  {
    AllSame(s0);
  }

  lemma OneMoreTurn(w: World, turns: seq<Store>, list: seq<Id>, heirs: seq<Option<Ent>>, s1: Store, heir: Option<Ent>)
    requires Turns(w, turns, list, heirs) && |heirs| < |list|
    requires Turn(w, turns[|heirs|], s1, list[|heirs|], heir) && ChanStill(turns[0], turns[|heirs|], list[|heirs|])
    ensures Turns(w, turns + [s1], list, heirs + [heir]) && (turns + [s1])[0] == turns[0]
  {
  }

  // Whoever takes over was on the list of the channel from the start: an account, neither founder
  // nor to be kicked.
  lemma HeirWasAsked(w: World, s0: Store, s: Store, c: Chan) returns (y: Id)
    requires Linked(s0) && ChanSame(s0, s, c) && Successor(w, s, c).Some?
    ensures Asked(s0, y, {}) && About(s0, y, c, Entity(Successor(w, s, c).value)) && Successor(w, s, c).value in w.users
    ensures Eligible(w, s, y, {})
  {
    var i;
    y, i := SuccessorIsFit(w, s, c);
    ListedOnce(s0, c);
  }

  // An account that was on the list of the entry's channel at the start, neither founder nor to be
  // kicked.
  ghost predicate WasAsked(w: World, s0: Store, x: Id, heir: Ent) {
    x in s0.entries && heir in w.users && exists y :: Asked(s0, y, {}) && About(s0, y, s0.entries[x].chan, Entity(heir))
  }

  // The entry was not that of a sole founder, or there is no successor at its turn.
  ghost predicate NoHeir(w: World, s0: Store, s: Store, x: Id) {
    x in s0.entries && (!SoleFounder(s0, x) || Successor(w, s, s0.entries[x].chan).None?)
  }

  // Over the whole run every heir was such an account, and a channel goes without one only if at its
  // turn there was no successor.
  lemma HeirsWereAsked(w: World, turns: seq<Store>, list: seq<Id>, heirs: seq<Option<Ent>>)
    requires Turns(w, turns, list, heirs) && Linked(turns[0])
    ensures forall k :: 0 <= k < |heirs| && heirs[k].Some? ==> WasAsked(w, turns[0], list[k], heirs[k].value)
    ensures forall k :: 0 <= k < |heirs| ==> (heirs[k].None? <==> NoHeir(w, turns[0], turns[k], list[k]))
  {
    hide Successor, SoleFounder, ChanSame, Linked, TookOver;
    forall k | 0 <= k < |heirs|
      ensures heirs[k].Some? ==> WasAsked(w, turns[0], list[k], heirs[k].value)
      ensures heirs[k].None? <==> NoHeir(w, turns[0], turns[k], list[k]) {
      assert Turn(w, turns[k], turns[k + 1], list[k], heirs[k]) && ChanStill(turns[0], turns[k], list[k]);
      SoleFounderSame(turns[0], turns[k], list[k]);
      if heirs[k].Some? {
        var y := HeirWasAsked(w, turns[0], turns[k], turns[0].entries[list[k]].chan);
      }
    }
  }

  // If the entry was that of a sole founder and all who had access to the channel were accounts, the
  // flags of the channel's entries at the turn decide.
  ghost predicate HeirByFlags(w: World, s0: Store, s: Store, x: Id, heir: Option<Ent>) {
    x in s0.entries && (SoleFounder(s0, x) && AllAccounts(w, s0, s0.entries[x].chan) ==> ByFlags(w, s, s0.entries[x].chan, heir))
  }

  // So at every turn of the loop.
  lemma HeirsByFlags(w: World, turns: seq<Store>, list: seq<Id>, heirs: seq<Option<Ent>>)
    requires Turns(w, turns, list, heirs) && Linked(turns[0])
    ensures forall k :: 0 <= k < |heirs| ==> HeirByFlags(w, turns[0], turns[k], list[k], heirs[k])
  {
    hide Successor, SoleFounder, ChanSame, Linked, TookOver, AllAccounts, ByFlags;
    forall k | 0 <= k < |heirs| ensures HeirByFlags(w, turns[0], turns[k], list[k], heirs[k]) {
      assert Turn(w, turns[k], turns[k + 1], list[k], heirs[k]) && ChanStill(turns[0], turns[k], list[k]);
      SoleFounderSame(turns[0], turns[k], list[k]);
      var c := turns[0].entries[list[k]].chan;
      if SoleFounder(turns[0], list[k]) && AllAccounts(w, turns[0], c) {
        AccountsStill(w, turns[0], turns[k], c);
        MostPowerfulFirst(w, turns[k], c);
      }
    }
  }

  lemma AccountsStill(w: World, s0: Store, s: Store, c: Chan)
    requires Linked(s0) && Linked(s) && ChanSame(s0, s, c)
    ensures AllAccounts(w, s0, c) ==> AllAccounts(w, s, c)
    ensures c in s.byChan
  {
    forall x | HasAccess(s, c, x) && AllAccounts(w, s0, c) ensures s.entries[x].who.ent in w.users {
      assert InChan(s, c, x);
      assert HasAccess(s0, c, x);
    }
  }

  lemma AllSame(s: Store)
    requires Linked(s)
    ensures forall c <- s.byChan :: ChanSame(s, s, c)
  {
    forall c <- s.byChan ensures ChanSame(s, s, c) {
      ListedOnce(s, c);
    }
  }

  lemma NextUntouched(s0: Store, mu: Ent, i: nat, all: set<Flag>)
    requires Sound(s0, all) && mu in s0.byEnt && i < |s0.byEnt[mu]|
    ensures var x := s0.byEnt[mu][i]; x in s0.entries && s0.entries[x].who == Entity(mu) && s0.entries[x].chan in s0.byChan
    ensures Untouched(s0, s0.byEnt[mu][..i], s0.entries[s0.byEnt[mu][i]].chan)
  {
    var list := s0.byEnt[mu];
    ListedForEntity(s0, mu);
    OnLists(s0, list[i]);
    forall y <- list[..i] ensures y in s0.entries && s0.entries[y].chan != s0.entries[list[i]].chan {
      assert y in list && y != list[i];
    }
  }

  lemma StillListed(s0: Store, s: Store, mu: Ent, i: nat, heirs: seq<Option<Ent>>, all: set<Flag>)
    requires Sound(s0, all) && mu in s0.byEnt && i < |s0.byEnt[mu]| && i == |heirs| && Progress(s0, s, s0.byEnt[mu], heirs, all)
    ensures var x := s0.byEnt[mu][i]; x in s.entries && s.entries[x].who == Entity(mu) && ChanStill(s0, s, x)
  {
    NextUntouched(s0, mu, i, all);
    SoleFounderSame(s0, s, s0.byEnt[mu][i]);
  }

  // The channels no entry so far is about stay as they are.
  lemma OthersStill(s0: Store, s: Store, s1: Store, list: seq<Id>, i: nat)
    requires i < |list| && list[i] in s0.entries
    requires forall c <- s0.byChan | Untouched(s0, list[..i], c) :: ChanSame(s0, s, c)
    requires forall c <- s.byChan | c != s0.entries[list[i]].chan :: ChanSame(s, s1, c)
    ensures forall c <- s0.byChan | Untouched(s0, list[..i + 1], c) :: ChanSame(s0, s1, c)
  {
    assert list[..i + 1] == list[..i] + [list[i]];
    forall c <- s0.byChan | Untouched(s0, list[..i + 1], c) ensures ChanSame(s0, s1, c) {
      assert list[i] in list[..i + 1] && forall y <- list[..i] :: y in list[..i + 1];
      assert Untouched(s0, list[..i], c);
      SameTwice(s0, s, s1, c);
    }
  }

  // What was released before stays so.
  lemma ReleasedStill(s0: Store, s: Store, s1: Store, list: seq<Id>, heirs: seq<Option<Ent>>, c: Chan, all: set<Flag>)
    requires |heirs| <= |list| && Untouched(s0, list[..|heirs|], c) && s1.byChan.Keys <= s.byChan.Keys
    requires forall k :: 0 <= k < |heirs| ==> Released(s0, s, list[k], heirs[k], all)
    requires forall d <- s.byChan | d != c :: ChanSame(s, s1, d)
    ensures forall k :: 0 <= k < |heirs| ==> Released(s0, s1, list[k], heirs[k], all)
  {
    hide Released, ChanSame;
    forall k | 0 <= k < |heirs| ensures Released(s0, s1, list[k], heirs[k], all) {
      assert list[k] in list[..|heirs|];
      ReleasedBefore(s0, s, s1, list[k], heirs[k], all);
    }
  }

  lemma OneMoreReleased(s0: Store, s: Store, s1: Store, mu: Ent, heirs: seq<Option<Ent>>, heir: Option<Ent>, all: set<Flag>)
    requires Sound(s0, all) && mu in s0.byEnt && |heirs| < |s0.byEnt[mu]| && Progress(s0, s, s0.byEnt[mu], heirs, all)
    requires Released(s, s1, s0.byEnt[mu][|heirs|], heir, all) && s1.byChan.Keys <= s.byChan.Keys
    requires var x := s0.byEnt[mu][|heirs|]; x in s.entries && forall c <- s.byChan | c != s.entries[x].chan :: ChanSame(s, s1, c)
    ensures Progress(s0, s1, s0.byEnt[mu], heirs + [heir], all)
  {
    var x := s0.byEnt[mu][|heirs|];
    NextUntouched(s0, mu, |heirs|, all);
    ProgressSame(s0, s, mu, heirs, all);
    SoundIsLinked(s0, all);
    hide Released, ChanSame, Linked, Sound, Untouched, SoleFounder, Progress;
    SoleFounderSame(s0, s, x);
    ReleasedLater(s0, s, s1, x, heir, all);
    OneMoreProgress(s0, s, s1, s0.byEnt[mu], heirs, heir, all);
  }

  lemma OneMoreProgress(s0: Store, s: Store, s1: Store, list: seq<Id>, heirs: seq<Option<Ent>>, heir: Option<Ent>, all: set<Flag>)
    requires |heirs| < |list| && Progress(s0, s, list, heirs, all) && s1.byChan.Keys <= s.byChan.Keys
    requires Released(s0, s1, list[|heirs|], heir, all) && list[|heirs|] in s0.entries
    requires Untouched(s0, list[..|heirs|], s0.entries[list[|heirs|]].chan)
    requires forall c <- s.byChan | c != s0.entries[list[|heirs|]].chan :: ChanSame(s, s1, c)
    ensures Progress(s0, s1, list, heirs + [heir], all)
  {
    hide Released, ChanSame, Untouched;
    OthersStill(s0, s, s1, list, |heirs|);
    ReleasedStill(s0, s, s1, list, heirs, s0.entries[list[|heirs|]].chan, all);
  }

  lemma SoundIsLinked(s: Store, all: set<Flag>)
    requires Sound(s, all)
    ensures Linked(s)
  {
  }

  lemma ProgressSame(s0: Store, s: Store, mu: Ent, heirs: seq<Option<Ent>>, all: set<Flag>)
    requires Sound(s0, all) && mu in s0.byEnt && |heirs| < |s0.byEnt[mu]| && Progress(s0, s, s0.byEnt[mu], heirs, all)
    ensures var x := s0.byEnt[mu][|heirs|]; x in s0.entries && ChanSame(s0, s, s0.entries[x].chan)
  {
    NextUntouched(s0, mu, |heirs|, all);
  }

  lemma HeadTaken(s0: Store, mu: Ent, i: nat)
    requires Linked(s0) && mu in s0.byEnt && i < |s0.byEnt[mu]|
    ensures Without(s0.byEnt[mu][i..], {s0.byEnt[mu][i]}) == s0.byEnt[mu][i + 1..]
  {
    var list := s0.byEnt[mu];
    ListedForEntity(s0, mu);
    assert list[i..] == [list[i]] + list[i + 1..];
    WithoutNone(list[i + 1..], {list[i]});
  }

  // The loop over the entries of mu after as many turns as there are heirs.
  ghost predicate Releasing(w: World, s0: Store, s: Store, mu: Ent, heirs: seq<Option<Ent>>, turns: seq<Store>) {
    && Sound(s0, w.all) && mu in s0.byEnt && |heirs| <= |s0.byEnt[mu]| && |turns| == |heirs| + 1
    && s.byChan.Keys <= s0.byChan.Keys && mu in s.byEnt && s.byEnt[mu] == s0.byEnt[mu][|heirs|..]
    && Progress(s0, s, s0.byEnt[mu], heirs, w.all)
    && Turns(w, turns, s0.byEnt[mu], heirs) && turns[0] == s0 && turns[|heirs|] == s
  }

  lemma NextListed(w: World, s0: Store, s: Store, mu: Ent, heirs: seq<Option<Ent>>, turns: seq<Store>)
    requires Releasing(w, s0, s, mu, heirs, turns) && |heirs| < |s0.byEnt[mu]|
    ensures var x := s0.byEnt[mu][|heirs|]; x in s.entries && s.entries[x].who == Entity(mu) && ChanStill(s0, s, x)
    ensures Without(s.byEnt[mu], {s0.byEnt[mu][|heirs|]}) == s0.byEnt[mu][|heirs| + 1..]
  {
    StillListed(s0, s, mu, |heirs|, heirs, w.all);
    HeadTaken(s0, mu, |heirs|);
  }

  lemma NextReleased(w: World, s0: Store, s: Store, s1: Store, mu: Ent, heirs: seq<Option<Ent>>, turns: seq<Store>, heir: Option<Ent>)
    requires Releasing(w, s0, s, mu, heirs, turns) && |heirs| < |s0.byEnt[mu]| && s0.byEnt[mu][|heirs|] in s.entries
    requires Released(s, s1, s0.byEnt[mu][|heirs|], heir, w.all) && Turn(w, s, s1, s0.byEnt[mu][|heirs|], heir)
    requires ChanStill(s0, s, s0.byEnt[mu][|heirs|]) && s1.byChan.Keys <= s.byChan.Keys
    requires forall c <- s.byChan | c != s.entries[s0.byEnt[mu][|heirs|]].chan :: ChanSame(s, s1, c)
    requires mu in s1.byEnt && s1.byEnt[mu] == s0.byEnt[mu][|heirs| + 1..]
    ensures Releasing(w, s0, s1, mu, heirs + [heir], turns + [s1])
  {
    hide Sound, Progress, Turns, Turn, Released, ChanSame, ChanStill;
    OneMoreReleased(s0, s, s1, mu, heirs, heir, w.all);
    OneMoreTurn(w, turns, s0.byEnt[mu], heirs, s1, heir);
  }

  lemma AllReleased(s0: Store, s: Store, mu: Ent, heirs: seq<Option<Ent>>, all: set<Flag>)
    requires Sound(s0, all) && Linked(s) && mu in s0.byEnt && |heirs| == |s0.byEnt[mu]|
    requires Progress(s0, s, s0.byEnt[mu], heirs, all) && mu in s.byEnt && s.byEnt[mu] == []
    ensures forall x <- s.entries :: s.entries[x].who != Entity(mu)
    ensures forall x <- s0.entries | s0.entries[x].who == Entity(mu) :: exists k :: 0 <= k < |heirs| && s0.byEnt[mu][k] == x
    ensures forall c <- s0.byChan | (forall x :: !About(s0, x, c, Entity(mu))) :: ChanSame(s0, s, c)
    ensures forall k :: 0 <= k < |heirs| ==> Released(s0, s, s0.byEnt[mu][k], heirs[k], all)
  {
    var list := s0.byEnt[mu];
    assert list[..|list|] == list;
    forall x <- s.entries ensures s.entries[x].who != Entity(mu) {
      assert !InEnt(s, mu, x);
    }
    forall x <- s0.entries | s0.entries[x].who == Entity(mu) ensures exists k :: 0 <= k < |heirs| && list[k] == x {
      assert InEnt(s0, mu, x);
    }
    ListedForEntity(s0, mu);
    forall c <- s0.byChan | (forall x :: !About(s0, x, c, Entity(mu))) ensures ChanSame(s0, s, c) {
      forall x <- list ensures s0.entries[x].chan != c {
        assert !About(s0, x, c, Entity(mu));
      }
      assert Untouched(s0, list, c);
    }
  }

  // The channel of a group and two accounts is dropped with its founder, although each of the two
  // accounts could take it.
  lemma DroppedAlthough(s1: Store, heir: Option<Ent>)
    requires Turn(TWO_ACCOUNTS, TIED, s1, 9, heir)
    ensures TIED.entries[9].who == Entity(3) && 3 in TWO_ACCOUNTS.users
    ensures Eligible(TWO_ACCOUNTS, TIED, 10, {}) && Eligible(TWO_ACCOUNTS, TIED, 11, {})
    ensures {TIED.entries[10].who, TIED.entries[11].who} == {Entity(0), Entity(1)} && {0, 1} <= TWO_ACCOUNTS.users
    ensures heir.None? && s1 == DropChan(TIED, "#a") && s1.byChan == map[]
  {
    GroupHidesAccounts();
    hide Successor, Eligible, SoleFounder, Sound, Founded;
    assert TIED.byChan - {"#a"} == map[];
  }
}
