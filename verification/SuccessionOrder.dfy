// Who takes over a channel, told by the flags of its entries by name: +R before +f, +q, +o and any
// access at all (libathemecore/account.c:1125-1241).
module SuccessionOrder {
  import opened Basics
  import opened LinkedLists
  import opened AccessStore
  import opened Succession

  // The entries that make an entity a founder.
  ghost function Founderships(s: Store, e: Ent): set<Id> {
    set x | x in s.entries && s.entries[x].who == Entity(e) && CA_FOUNDER in s.entries[x].level
  }

  ghost predicate MayFound(w: World, s: Store, e: Ent) {
    e in w.noLimit || |Founderships(s, e)| < w.maxChans
  }

  // The entry is one of the channel, about an entity that is neither founder nor to be kicked.
  ghost predicate HasAccess(s: Store, c: Chan, x: Id) {
    && x in s.entries && s.entries[x].chan == c && s.entries[x].who.Entity?
    && CA_FOUNDER !in s.entries[x].level && CA_AKICK !in s.entries[x].level
  }

  // And the entity may be founder of one more channel.
  ghost predicate CouldTake(w: World, s: Store, c: Chan, flags: set<Flag>, x: Id) {
    HasAccess(s, c, x) && flags <= s.entries[x].level && MayFound(w, s, s.entries[x].who.ent)
  }

  ghost predicate SomeWith(w: World, s: Store, c: Chan, flags: set<Flag>) {
    exists x :: CouldTake(w, s, c, flags, x)
  }

  ghost predicate AllAccounts(w: World, s: Store, c: Chan) {
    forall x :: HasAccess(s, c, x) ==> s.entries[x].who.ent in w.users
  }

  // The flags of an entry, with the automatic status that goes with each status.
  ghost predicate HasPower(s: Store, x: Id, f: Flag)
    requires x in s.entries
  {
    var level := s.entries[x].level;
    || f in level || (f == CA_AUTOOP && CA_OP in level) || (f == CA_AUTOHALFOP && CA_HALFOP in level)
    || (f == CA_AUTOVOICE && CA_VOICE in level)
  }

  ghost predicate MorePower(s: Store, y: Id, x: Id)
    requires x in s.entries && y in s.entries
  {
    && (forall f :: HasPower(s, x, f) ==> HasPower(s, y, f))
    && exists f :: HasPower(s, y, f) && !HasPower(s, x, f)
  }

  lemma AutoFlagsAdded(s: Store, x: Id, y: Id)
    requires x in s.entries && y in s.entries
    ensures forall f :: HasPower(s, x, f) <==> f in AddAutoFlags(s.entries[x].level)
    ensures MorePower(s, y, x) <==> AddAutoFlags(s.entries[x].level) < AddAutoFlags(s.entries[y].level)
  {
    var a, b := AddAutoFlags(s.entries[x].level), AddAutoFlags(s.entries[y].level);
    assert forall f :: HasPower(s, x, f) <==> f in a;
    assert forall f :: HasPower(s, y, f) <==> f in b;
    if a < b {
      var f :| f in b && f !in a;
    }
  }

  // No other entry that could take the channel with these flags has all the flags of x and more.
  ghost predicate NoneAbove(w: World, s: Store, c: Chan, flags: set<Flag>, x: Id) {
    CouldTake(w, s, c, flags, x) &&
    forall y :: CouldTake(w, s, c, flags, y) ==> !MorePower(s, y, x)
  }

  // r is the account of such an entry.
  ghost predicate TakenBy(w: World, s: Store, c: Chan, flags: set<Flag>, r: Option<Ent>) {
    r.Some? && exists x :: NoneAbove(w, s, c, flags, x) && s.entries[x].who == Entity(r.value)
  }

  // The most powerful kind of access that somebody who could take the channel has decides.
  ghost predicate ByFlags(w: World, s: Store, c: Chan, r: Option<Ent>) {
    if SomeWith(w, s, c, {CA_RECOVER}) then TakenBy(w, s, c, {CA_RECOVER}, r)
    else if SomeWith(w, s, c, {CA_FLAGS}) then TakenBy(w, s, c, {CA_FLAGS}, r)
    else if CA_USEOWNER in w.all && SomeWith(w, s, c, {CA_USEOWNER, CA_AUTOOP}) then TakenBy(w, s, c, {CA_USEOWNER, CA_AUTOOP}, r)
    else if SomeWith(w, s, c, {CA_OP}) then TakenBy(w, s, c, {CA_OP}, r)
    else if SomeWith(w, s, c, {}) then TakenBy(w, s, c, {}, r)
    else r == None
  }

  ghost function Holding(entries: map<Id, Entry>, list: seq<Id>, f: Flag): set<Id> {
    set x | x in list && x in entries && entries[x].who.Entity? && f in entries[x].level
  }

  lemma OneMoreHolding(entries: map<Id, Entry>, list: seq<Id>, x: Id, f: Flag)
    requires x !in list
    ensures var a := Holding(entries, list, f);
      Holding(entries, list + [x], f) == a + (if x in Holding(entries, [x], f) then {x} else {}) && x !in a
  {
  }

  lemma {:induction false} CountIsSize(entries: map<Id, Entry>, list: seq<Id>, f: Flag)
    requires Distinct(list)
    ensures Count(entries, list, f) == |Holding(entries, list, f)|
  {
    if list == [] {
      assert Holding(entries, list, f) == {};
    } else {
      var n := |list| - 1;
      var x := list[n];
      CountIsSize(entries, list[..n], f);
      OneMoreHolding(entries, list[..n], x, f);
      assert list == list[..n] + [x];
      assert x in Holding(entries, [x], f) <==> x in entries && entries[x].who.Entity? && f in entries[x].level;
    }
  }

  lemma EligibleMeans(w: World, s: Store, c: Chan, min: set<Flag>, x: Id)
    requires Linked(s) && InChan(s, c, x)
    ensures Eligible(w, s, x, min) <==> CouldTake(w, s, c, min, x)
    ensures Asked(s, x, min) ==> HasAccess(s, c, x)
  {
    if Asked(s, x, min) {
      var e := s.entries[x].who.ent;
      assert InEnt(s, e, x);
      forall y <- s.byEnt[e] ensures y in s.entries && s.entries[y].who == Entity(e) {
        assert InEnt(s, e, y);
      }
      CountIsSize(s.entries, s.byEnt[e], CA_FOUNDER);
      forall y | y in s.entries && s.entries[y].who == Entity(e) ensures y in s.byEnt[e] {
        assert InEnt(s, e, y);
      }
      assert Holding(s.entries, s.byEnt[e], CA_FOUNDER) == Founderships(s, e);
    }
  }

  // Where all are accounts, one kind of access finds somebody exactly if somebody could take the
  // channel with it.
  lemma OneKind(w: World, s: Store, c: Chan, min: set<Flag>)
    requires Linked(s) && c in s.byChan && AllAccounts(w, s, c)
    ensures var r := Candidate(w, s, c, min); if SomeWith(w, s, c, min) then TakenBy(w, s, c, min, r) else r == None
  {
    hide Linked, Eligible, CouldTake, Scan;
    var r := Candidate(w, s, c, min);
    if r.Some? {
      var x := CandidateIsFit(w, s, c, min);
      EligibleMeans(w, s, c, min, x);
      FitIsNoneAbove(w, s, c, min, x);
    } else if SomeWith(w, s, c, min) {
      var x :| CouldTake(w, s, c, min, x);
      ListedIfTakes(w, s, c, min, x);
      BestIsUndominated(w, s, s.byChan[c], min, x);
      BestIsEligible(w, s, s.byChan[c], min);
      BestIsAccount(w, s, c, min, Scan(w, s, s.byChan[c], min).hi.value);
    }
  }

  lemma FitIsNoneAbove(w: World, s: Store, c: Chan, min: set<Flag>, x: Id)
    requires Linked(s) && InChan(s, c, x) && Eligible(w, s, x, min)
    requires forall y <- s.byChan[c] | Eligible(w, s, y, min) :: !(AddAutoFlags(s.entries[x].level) < AddAutoFlags(s.entries[y].level))
    ensures NoneAbove(w, s, c, min, x)
  {
    hide Linked, AddAutoFlags, CanRegister, MayFound, MorePower;
    EligibleMeans(w, s, c, min, x);
    forall y | CouldTake(w, s, c, min, y) ensures !MorePower(s, y, x) {
      ListedIfTakes(w, s, c, min, y);
      AutoFlagsAdded(s, x, y);
    }
  }

  lemma ListedIfTakes(w: World, s: Store, c: Chan, min: set<Flag>, x: Id)
    requires Linked(s) && CouldTake(w, s, c, min, x)
    ensures InChan(s, c, x) && Eligible(w, s, x, min) && x in s.entries
  {
    assert InChan(s, c, x);
    EligibleMeans(w, s, c, min, x);
  }

  lemma BestIsAccount(w: World, s: Store, c: Chan, min: set<Flag>, x: Id)
    requires Linked(s) && InChan(s, c, x) && AllAccounts(w, s, c) && Eligible(w, s, x, min)
    ensures Account(w, s, Some(x)).Some?
  {
    EligibleMeans(w, s, c, min, x);
  }

  // mychan_pick_successor(): where all who have access are accounts.
  lemma MostPowerfulFirst(w: World, s: Store, c: Chan)
    requires Linked(s) && c in s.byChan && AllAccounts(w, s, c)
    ensures ByFlags(w, s, c, Successor(w, s, c))
  {
    hide Linked, Candidate, TakenBy, SomeWith, AllAccounts;
    OneKind(w, s, c, {CA_RECOVER});
    OneKind(w, s, c, {CA_FLAGS});
    OneKind(w, s, c, {CA_USEOWNER, CA_AUTOOP});
    OneKind(w, s, c, {CA_OP});
    OneKind(w, s, c, {});
    TakenIsSome(w, s, c, {CA_RECOVER}, Candidate(w, s, c, {CA_RECOVER}));
    TakenIsSome(w, s, c, {CA_FLAGS}, Candidate(w, s, c, {CA_FLAGS}));
    TakenIsSome(w, s, c, {CA_USEOWNER, CA_AUTOOP}, Candidate(w, s, c, {CA_USEOWNER, CA_AUTOOP}));
    TakenIsSome(w, s, c, {CA_OP}, Candidate(w, s, c, {CA_OP}));
    SuccessorSteps(w, s, c);
  }

  lemma TakenIsSome(w: World, s: Store, c: Chan, flags: set<Flag>, r: Option<Ent>)
    ensures TakenBy(w, s, c, flags, r) ==> r.Some?
  {
  }

  lemma SuccessorSteps(w: World, s: Store, c: Chan)
    ensures Successor(w, s, c) ==
      var (a, b) := (Candidate(w, s, c, {CA_RECOVER}), Candidate(w, s, c, {CA_FLAGS}));
      var (q, o) := (Candidate(w, s, c, {CA_USEOWNER, CA_AUTOOP}), Candidate(w, s, c, {CA_OP}));
      if a.Some? then a else if b.Some? then b else if CA_USEOWNER in w.all && q.Some? then q else if o.Some? then o
      else Candidate(w, s, c, {})
  {
    hide Candidate;
    var last: seq<set<Flag>> := [{CA_OP}, {}];
    var mid := (if CA_USEOWNER in w.all then [{CA_USEOWNER, CA_AUTOOP}] else []) + last;
    assert Tiers(w.all) == [{CA_RECOVER}] + ([{CA_FLAGS}] + mid);
    FirstStep(w, s, c, {CA_RECOVER}, [{CA_FLAGS}] + mid);
    FirstStep(w, s, c, {CA_FLAGS}, mid);
    assert mid == if CA_USEOWNER in w.all then [{CA_USEOWNER, CA_AUTOOP}] + last else last;
    FirstStep(w, s, c, {CA_USEOWNER, CA_AUTOOP}, last);
    assert last == [{CA_OP}] + ([{}] + []);
    FirstStep(w, s, c, {CA_OP}, [{}] + []);
    FirstStep(w, s, c, {}, []);
  }

  lemma FirstStep(w: World, s: Store, c: Chan, min: set<Flag>, rest: seq<set<Flag>>)
    ensures FirstCandidate(w, s, c, [min] + rest) ==
            if Candidate(w, s, c, min).Some? then Candidate(w, s, c, min) else FirstCandidate(w, s, c, rest)
  {
    assert ([min] + rest)[1..] == rest;
  }
}
