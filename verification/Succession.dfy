// Who can take over a channel (libathemecore/account.c:1125-1241, libathemecore/entity.c:212-242).
module Succession {
  import opened Basics
  import opened LinkedLists
  import opened AccessStore

  // What the choice depends on besides the access entries: which entities are accounts, which of
  // them were seen recently, which may register any number of channels, how many channels the others
  // may be founder of, and the flags in use.
  datatype World = World(users: set<Ent>, recent: set<Ent>, noLimit: set<Ent>, maxChans: nat, all: set<Flag>)

  function AddAutoFlags(level: set<Flag>): set<Flag> {
    var l1 := if CA_OP in level then level + {CA_AUTOOP} else level;
    var l2 := if CA_HALFOP in l1 then l1 + {CA_AUTOHALFOP} else l1;
    if CA_VOICE in l2 then l2 + {CA_AUTOVOICE} else l2
  }

  predicate CanRegister(w: World, s: Store, e: Ent) {
    e in w.noLimit || (e in s.byEnt && Count(s.entries, s.byEnt[e], CA_FOUNDER) < w.maxChans)
  }

  // The entry is about an entity that is neither founder nor to be kicked and has the flags asked for.
  predicate Asked(s: Store, x: Id, min: set<Flag>) {
    && x in s.entries && s.entries[x].who.Entity?
    && CA_AKICK !in s.entries[x].level && CA_FOUNDER !in s.entries[x].level && min <= s.entries[x].level
  }

  // It can take the channel as well.
  predicate Eligible(w: World, s: Store, x: Id, min: set<Flag>) {
    Asked(s, x, min) && CanRegister(w, s, s.entries[x].who.ent)
  }

  // The running best candidate: its entry, its level with the automatic flags, and whether it was
  // seen recently; and that of the last account looked at.
  datatype Best = Best(hi: Option<Id>, level: set<Flag>, hiRecent: bool, recent: bool)

  function Recent(w: World, s: Store, x: Id, before: bool): bool
    requires x in s.entries && s.entries[x].who.Entity?
  {
    if s.entries[x].who.ent in w.users then s.entries[x].who.ent in w.recent else before
  }

  // One more entry is compared with the best so far.
  function Compare(w: World, s: Store, b: Best, x: Id, min: set<Flag>): Best {
    if !Asked(s, x, min) then b
    else
      var recent := Recent(w, s, x, b.recent);
      var level := AddAutoFlags(s.entries[x].level);
      if b.hi.Some? && !(b.level <= level) then b.(recent := recent)
      else if b.hi.Some? && b.level == level && (!recent || b.hiRecent) then b.(recent := recent)
      else if CanRegister(w, s, s.entries[x].who.ent) then Best(Some(x), level, recent, recent)
      else b.(recent := recent)
  }

  function Scan(w: World, s: Store, list: seq<Id>, min: set<Flag>): Best {
    if list == [] then Best(None, {}, false, false)
    else Compare(w, s, Scan(w, s, list[..|list| - 1], min), list[|list| - 1], min)
  }

  function EntOf(s: Store, x: Option<Id>): Option<Ent> {
    if x.Some? && x.value in s.entries && s.entries[x.value].who.Entity? then Some(s.entries[x.value].who.ent) else None
  }

  // user(): the account an entity is, if it is one.
  function Account(w: World, s: Store, hi: Option<Id>): Option<Ent> {
    var e := EntOf(s, hi);
    if e.Some? && e.value in w.users then e else None
  }

  function Candidate(w: World, s: Store, c: Chan, min: set<Flag>): Option<Ent> {
    if c in s.byChan then Account(w, s, Scan(w, s, s.byChan[c], min).hi) else None
  }

  // ---- what the scan finds ----

  // The best so far is an eligible entry of the list, at the level the scan remembers.
  lemma {:induction false} BestIsEligible(w: World, s: Store, list: seq<Id>, min: set<Flag>)
    ensures var b := Scan(w, s, list, min);
      b.hi.Some? ==> b.hi.value in list && Eligible(w, s, b.hi.value, min) && b.level == AddAutoFlags(s.entries[b.hi.value].level)
  {
    if list != [] {
      BestIsEligible(w, s, list[..|list| - 1], min);
    }
  }

  // There is one as soon as an entry is eligible, and none of the eligible entries has all its flags
  // and more.
  lemma {:induction false} BestIsUndominated(w: World, s: Store, list: seq<Id>, min: set<Flag>, x: Id)
    requires x in list && Eligible(w, s, x, min)
    ensures var b := Scan(w, s, list, min);
      b.hi.Some? && !(b.level < AddAutoFlags(s.entries[x].level))
  {
    var n := |list| - 1;
    BestIsEligible(w, s, list[..n], min);
    if list[n] != x {
      assert x in list[..n];
      BestIsUndominated(w, s, list[..n], min, x);
    }
  }

  // All entries with the flags asked for are about accounts.
  ghost predicate Accounts(w: World, s: Store, list: seq<Id>, min: set<Flag>) {
    forall x <- list :: Asked(s, x, min) ==> s.entries[x].who.ent in w.users
  }

  predicate Seen(w: World, s: Store, x: Id) {
    x in s.entries && s.entries[x].who.Entity? && s.entries[x].who.ent in w.recent
  }

  ghost predicate UpTo(list: seq<Id>, i: nat, x: Id) {
    exists j :: 0 <= j <= i < |list| && list[j] == x
  }

  lemma {:induction false} RecencyIsCurrent(w: World, s: Store, list: seq<Id>, min: set<Flag>)
    requires Accounts(w, s, list, min)
    ensures var b := Scan(w, s, list, min); b.hi.Some? ==> b.hiRecent == Seen(w, s, b.hi.value)
  {
    if list != [] {
      RecencyIsCurrent(w, s, list[..|list| - 1], min);
    }
  }

  // Among accounts with the flags of the best, one seen recently beats one that was not, and
  // otherwise the one added first wins.
  lemma {:induction false} TiesGoToTheFirst(w: World, s: Store, list: seq<Id>, min: set<Flag>, i: nat)
    requires Accounts(w, s, list, min) && i < |list| && Eligible(w, s, list[i], min)
    requires Scan(w, s, list, min).level == AddAutoFlags(s.entries[list[i]].level)
    ensures var b := Scan(w, s, list, min); b.hi.Some?
    ensures var b := Scan(w, s, list, min); Seen(w, s, list[i]) ==> Seen(w, s, b.hi.value)
    ensures var b := Scan(w, s, list, min); Seen(w, s, list[i]) == Seen(w, s, b.hi.value) ==> UpTo(list, i, b.hi.value)
  {
    var n := |list| - 1;
    var b := Scan(w, s, list, min);
    BestIsUndominated(w, s, list, min, list[i]);
    RecencyIsCurrent(w, s, list, min);
    RecencyIsCurrent(w, s, list[..n], min);
    BestIsEligible(w, s, list[..n], min);
    var a := Scan(w, s, list[..n], min);
    if i < n {
      assert list[..n][i] == list[i] && list[i] in list[..n];
      BestIsUndominated(w, s, list[..n], min, list[i]);
      assert a.level == b.level;
      TiesGoToTheFirst(w, s, list[..n], min, i);
      if b.hi == a.hi {
        assert UpTo(list[..n], i, a.hi.value) ==> UpTo(list, i, a.hi.value);
      }
    } else if b.hi == Some(list[n]) {
      assert list[n] == b.hi.value;
    } else {
      assert a.hi == b.hi && a.hi.value in list[..n];
      var j :| 0 <= j < n && list[..n][j] == a.hi.value;
      assert list[j] == b.hi.value;
    }
  }

  // A candidate is an account that was eligible, and no eligible entry has all its flags and more.
  lemma CandidateIsFit(w: World, s: Store, c: Chan, min: set<Flag>) returns (x: Id)
    requires Candidate(w, s, c, min).Some?
    ensures InChan(s, c, x) && Eligible(w, s, x, min)
    ensures Candidate(w, s, c, min) == Some(s.entries[x].who.ent) && s.entries[x].who.ent in w.users
    ensures forall y <- s.byChan[c] | Eligible(w, s, y, min) ::
      !(AddAutoFlags(s.entries[x].level) < AddAutoFlags(s.entries[y].level))
  {
    var list := s.byChan[c];
    x := Scan(w, s, list, min).hi.value;
    BestIsEligible(w, s, list, min);
    forall y <- list | Eligible(w, s, y, min)
      ensures !(AddAutoFlags(s.entries[x].level) < AddAutoFlags(s.entries[y].level)) {
      BestIsUndominated(w, s, list, min, y);
    }
  }

  // ---- who is left, told by the places on the list ----

  // Whether the last account asked at or before a place was seen recently. This is what a group at
  // that place is taken to be.
  function RecentAt(w: World, s: Store, list: seq<Id>, min: set<Flag>, i: nat): bool
    requires i < |list|
  {
    if Asked(s, list[i], min) && s.entries[list[i]].who.ent in w.users then s.entries[list[i]].who.ent in w.recent
    else i > 0 && RecentAt(w, s, list, min, i - 1)
  }

  lemma {:induction false} RecentAtPrefix(w: World, s: Store, list: seq<Id>, min: set<Flag>, n: nat, i: nat)
    requires i < n <= |list|
    ensures RecentAt(w, s, list[..n], min, i) == RecentAt(w, s, list, min, i)
  {
    if i > 0 {
      RecentAtPrefix(w, s, list, min, n, i - 1);
    }
  }

  predicate EligibleAt(w: World, s: Store, list: seq<Id>, min: set<Flag>, i: nat) {
    i < |list| && Eligible(w, s, list[i], min)
  }

  function LevelAt(s: Store, list: seq<Id>, i: nat): set<Flag>
    requires i < |list| && list[i] in s.entries
  {
    AddAutoFlags(s.entries[list[i]].level)
  }

  // The eligible entry at j has more flags than the one at i, or the same and was seen recently.
  predicate Beats(w: World, s: Store, list: seq<Id>, min: set<Flag>, i: nat, j: nat)
    requires EligibleAt(w, s, list, min, i)
  {
    EligibleAt(w, s, list, min, j) &&
    (LevelAt(s, list, i) < LevelAt(s, list, j) ||
     (LevelAt(s, list, i) == LevelAt(s, list, j) && RecentAt(w, s, list, min, j) && !RecentAt(w, s, list, min, i)))
  }

  // The first eligible entry, the first one behind it that beats it, and so on up to one that none
  // behind it beats.
  ghost predicate Climb(w: World, s: Store, list: seq<Id>, min: set<Flag>, ks: seq<nat>) {
    && ks != [] && (forall k <- ks :: EligibleAt(w, s, list, min, k))
    && (forall j :: 0 <= j < ks[0] ==> !EligibleAt(w, s, list, min, j))
    && (forall t :: 0 < t < |ks| ==> NextUp(w, s, list, min, ks[t - 1], ks[t]))
    && Unbeaten(w, s, list, min, ks[|ks| - 1])
  }

  ghost predicate Unbeaten(w: World, s: Store, list: seq<Id>, min: set<Flag>, k: nat) {
    EligibleAt(w, s, list, min, k) && forall j :: k < j < |list| ==> !Beats(w, s, list, min, k, j)
  }

  ghost predicate NextUp(w: World, s: Store, list: seq<Id>, min: set<Flag>, i: nat, k: nat)
    requires EligibleAt(w, s, list, min, i)
  {
    i < k && Beats(w, s, list, min, i, k) && forall j :: i < j < k ==> !Beats(w, s, list, min, i, j)
  }

  // The best so far by its place: the state the scan keeps is that of a place on the list.
  ghost predicate At(w: World, s: Store, list: seq<Id>, min: set<Flag>, b: Best, i: nat) {
    && EligibleAt(w, s, list, min, i) && b.hi == Some(list[i])
    && b.level == LevelAt(s, list, i) && b.hiRecent == RecentAt(w, s, list, min, i)
  }

  lemma AtPrefix(w: World, s: Store, list: seq<Id>, min: set<Flag>, b: Best, n: nat, i: nat)
    requires i < n <= |list|
    ensures At(w, s, list[..n], min, b, i) <==> At(w, s, list, min, b, i)
  {
    RecentAtPrefix(w, s, list, min, n, i);
  }

  lemma {:induction false} LastRecent(w: World, s: Store, list: seq<Id>, min: set<Flag>)
    ensures Scan(w, s, list, min).recent == (list != [] && RecentAt(w, s, list, min, |list| - 1))
  {
    if list != [] {
      var n := |list| - 1;
      LastRecent(w, s, list[..n], min);
      if n > 0 {
        RecentAtPrefix(w, s, list, min, n, n - 1);
      }
    }
  }

  // One more entry takes over exactly if it beats the best so far.
  lemma OneMoreScanned(w: World, s: Store, list: seq<Id>, min: set<Flag>, i: nat)
    requires list != []
    ensures var n := |list| - 1; var a := Scan(w, s, list[..n], min);
      (a.hi.None? && EligibleAt(w, s, list, min, n)) ==> At(w, s, list, min, Scan(w, s, list, min), n)
    ensures var n := |list| - 1; var a := Scan(w, s, list[..n], min);
      (a.hi.None? && !EligibleAt(w, s, list, min, n)) ==> Scan(w, s, list, min).hi.None?
    ensures var n := |list| - 1; var a := Scan(w, s, list[..n], min);
      i < n && At(w, s, list[..n], min, a, i) ==>
        EligibleAt(w, s, list, min, i) &&
        At(w, s, list, min, Scan(w, s, list, min), if Beats(w, s, list, min, i, n) then n else i)
  {
    var n := |list| - 1;
    LastRecent(w, s, list[..n], min);
    LastRecent(w, s, list, min);
    if i < n {
      AtPrefix(w, s, list, min, Scan(w, s, list[..n], min), n, i);
    }
  }

  lemma EligibleAtPrefix(w: World, s: Store, list: seq<Id>, min: set<Flag>, n: nat, i: nat, j: nat)
    requires i < n <= |list| && j < n
    ensures EligibleAt(w, s, list[..n], min, i) <==> EligibleAt(w, s, list, min, i)
    ensures EligibleAt(w, s, list, min, i) ==> (Beats(w, s, list[..n], min, i, j) <==> Beats(w, s, list, min, i, j))
    ensures EligibleAt(w, s, list, min, i) ==> (NextUp(w, s, list[..n], min, i, j) <==> NextUp(w, s, list, min, i, j))
  {
    forall x | 0 <= x < n ensures RecentAt(w, s, list[..n], min, x) == RecentAt(w, s, list, min, x) {
      RecentAtPrefix(w, s, list, min, n, x);
    }
    if EligibleAt(w, s, list, min, i) {
      forall x | 0 <= x < n ensures Beats(w, s, list[..n], min, i, x) <==> Beats(w, s, list, min, i, x) {
      }
    }
  }

  lemma {:induction false} ClimbRises(w: World, s: Store, list: seq<Id>, min: set<Flag>, ks: seq<nat>, t: nat)
    requires Climb(w, s, list, min, ks) && t < |ks|
    ensures ks[t] <= ks[|ks| - 1] && (t < |ks| - 1 ==> ks[t] < ks[|ks| - 1])
    decreases |ks| - t
  {
    if t + 1 < |ks| {
      assert NextUp(w, s, list, min, ks[t + 1 - 1], ks[t + 1]);
      ClimbRises(w, s, list, min, ks, t + 1);
    }
  }

  // A climb on a list is one on the list without its last entry, up to there.
  lemma ClimbCut(w: World, s: Store, list: seq<Id>, min: set<Flag>, ks: seq<nat>)
    requires Climb(w, s, list, min, ks)
    ensures var n := |list| - 1; ks[|ks| - 1] < n ==> Climb(w, s, list[..n], min, ks)
    ensures var n := |list| - 1; ks[|ks| - 1] == n && |ks| > 1 ==> Climb(w, s, list[..n], min, ks[..|ks| - 1])
  {
    hide Beats, NextUp, EligibleAt;
    var n := |list| - 1;
    assert EligibleAt(w, s, list, min, ks[|ks| - 1]);
    OnTheList(w, s, list, min, ks[|ks| - 1]);
    if |ks| > 1 {
      ClimbEnd(w, s, list, min, ks);
    }
    var cut := if ks[|ks| - 1] < n then ks else ks[..|ks| - 1];
    if cut != [] {
      forall t | 0 <= t < |cut| ensures cut[t] < n && EligibleAt(w, s, list[..n], min, cut[t]) {
        assert cut[t] == ks[t] && ks[t] in ks;
        ClimbRises(w, s, list, min, ks, t);
        EligibleAtPrefix(w, s, list, min, n, cut[t], cut[t]);
      }
      forall j | 0 <= j < cut[0] ensures !EligibleAt(w, s, list[..n], min, j) {
        assert cut[0] == ks[0];
        EligibleAtPrefix(w, s, list, min, n, j, j);
      }
      forall t | 0 < t < |cut| ensures NextUp(w, s, list[..n], min, cut[t - 1], cut[t]) {
        assert cut[t - 1] < n && cut[t] < n;
        assert NextUp(w, s, list, min, ks[t - 1], ks[t]);
        EligibleAtPrefix(w, s, list, min, n, ks[t - 1], ks[t]);
      }
      var k := cut[|cut| - 1];
      forall j | k < j < n ensures !Beats(w, s, list[..n], min, k, j) {
        EligibleAtPrefix(w, s, list, min, n, k, j);
        if ks[|ks| - 1] == n {
          NotBeatenBetween(w, s, list, min, ks[|ks| - 2], ks[|ks| - 1], j);
        }
      }
    }
  }

  lemma OnTheList(w: World, s: Store, list: seq<Id>, min: set<Flag>, k: nat)
    requires EligibleAt(w, s, list, min, k)
    ensures k < |list|
  {
  }

  lemma NotBeatenBetween(w: World, s: Store, list: seq<Id>, min: set<Flag>, i: nat, k: nat, j: nat)
    requires EligibleAt(w, s, list, min, i) && NextUp(w, s, list, min, i, k) && i < j < k
    ensures !Beats(w, s, list, min, i, j)
  {
  }

  lemma ClimbEnd(w: World, s: Store, list: seq<Id>, min: set<Flag>, ks: seq<nat>)
    requires Climb(w, s, list, min, ks) && |ks| > 1
    ensures EligibleAt(w, s, list, min, ks[|ks| - 2]) && ks[|ks| - 2] < ks[|ks| - 1]
    ensures Beats(w, s, list, min, ks[|ks| - 2], ks[|ks| - 1])
  {
    var t := |ks| - 1;
    assert ks[t - 1] in ks && NextUp(w, s, list, min, ks[t - 1], ks[t]);
  }

  lemma NobodyYet(w: World, s: Store, list: seq<Id>, min: set<Flag>, n: nat)
    requires n <= |list| && forall j :: 0 <= j < n ==> !EligibleAt(w, s, list, min, j)
    ensures Scan(w, s, list[..n], min).hi.None?
  {
    BestIsEligible(w, s, list[..n], min);
    assert forall x <- list[..n] :: exists j ::
      0 <= j < n && list[j] == x && (Eligible(w, s, x, min) ==> EligibleAt(w, s, list, min, j));
  }

  // The scan ends where the climb ends, for every list.
  lemma {:induction false} ClimbWins(w: World, s: Store, list: seq<Id>, min: set<Flag>, ks: seq<nat>)
    requires Climb(w, s, list, min, ks)
    ensures At(w, s, list, min, Scan(w, s, list, min), ks[|ks| - 1])
    decreases |list|
  {
    var n, k := |list| - 1, ks[|ks| - 1];
    assert k in ks && EligibleAt(w, s, list, min, k);
    ClimbCut(w, s, list, min, ks);
    var a := Scan(w, s, list[..n], min);
    hide Scan, Beats, At, NextUp;
    if k < n {
      ClimbWins(w, s, list[..n], min, ks);
      OneMoreScanned(w, s, list, min, k);
    } else if |ks| > 1 {
      ClimbEnd(w, s, list, min, ks);
      ClimbWins(w, s, list[..n], min, ks[..|ks| - 1]);
      OneMoreScanned(w, s, list, min, ks[|ks| - 2]);
    } else {
      NobodyYet(w, s, list, min, n);
      OneMoreScanned(w, s, list, min, n);
    }
  }

  lemma {:induction false} ClimbOf(w: World, s: Store, list: seq<Id>, min: set<Flag>) returns (ks: seq<nat>)
    requires Scan(w, s, list, min).hi.Some?
    ensures Climb(w, s, list, min, ks)
    decreases |list|
  {
    var n := |list| - 1;
    var a := Scan(w, s, list[..n], min);
    if a.hi.None? {
      ks := [n];
      OneMoreScanned(w, s, list, min, n);
      forall j | 0 <= j < n ensures !EligibleAt(w, s, list, min, j) {
        if EligibleAt(w, s, list, min, j) {
          assert list[j] in list[..n];
          BestIsUndominated(w, s, list[..n], min, list[j]);
        }
      }
    } else {
      var front := ClimbOf(w, s, list[..n], min);
      ks := ClimbGrows(w, s, list, min, front);
    }
  }

  lemma ClimbGrows(w: World, s: Store, list: seq<Id>, min: set<Flag>, front: seq<nat>) returns (ks: seq<nat>)
    requires list != [] && Climb(w, s, list[..|list| - 1], min, front)
    ensures Climb(w, s, list, min, ks)
  {
    hide Beats, NextUp;
    var n, k := |list| - 1, front[|front| - 1];
    forall i | i in front ensures EligibleAt(w, s, list, min, i) {
    }
    assert k in front && front[0] in front;
    forall j | 0 <= j < front[0] ensures !EligibleAt(w, s, list, min, j) {
      assert !EligibleAt(w, s, list[..n], min, j);
    }
    forall t | 0 < t < |front| ensures NextUp(w, s, list, min, front[t - 1], front[t]) {
      assert front[t - 1] in front && front[t] in front;
      assert NextUp(w, s, list[..n], min, front[t - 1], front[t]);
      EligibleAtPrefix(w, s, list, min, n, front[t - 1], front[t]);
    }
    forall j | k < j < n ensures !Beats(w, s, list, min, k, j) {
      assert !Beats(w, s, list[..n], min, k, j);
      EligibleAtPrefix(w, s, list, min, n, k, j);
    }
    ks := front;
    if Beats(w, s, list, min, k, n) {
      ks := front + [n];
      TakesOver(w, s, list, min, k, n);
    }
  }

  lemma TakesOver(w: World, s: Store, list: seq<Id>, min: set<Flag>, k: nat, n: nat)
    requires EligibleAt(w, s, list, min, k) && k < n && Beats(w, s, list, min, k, n)
    requires forall j :: k < j < n ==> !Beats(w, s, list, min, k, j)
    ensures NextUp(w, s, list, min, k, n) && EligibleAt(w, s, list, min, n)
  {
  }

  // The climb ends at an entry that is not about an account.
  ghost predicate ClimbsToNoAccount(w: World, s: Store, list: seq<Id>, min: set<Flag>) {
    exists ks :: Climb(w, s, list, min, ks) && NoAccountAt(w, s, list, ks[|ks| - 1])
  }

  predicate NoAccountAt(w: World, s: Store, list: seq<Id>, i: nat) {
    i < |list| && list[i] in s.entries && s.entries[list[i]].who.Entity? && s.entries[list[i]].who.ent !in w.users
  }

  ghost predicate NobodyFor(w: World, s: Store, list: seq<Id>, min: set<Flag>) {
    (forall x <- list :: !Eligible(w, s, x, min)) || ClimbsToNoAccount(w, s, list, min)
  }

  // Nobody is picked exactly if no entry is eligible or the climb ends at one that is not about an
  // account.
  lemma NoCandidate(w: World, s: Store, c: Chan, min: set<Flag>)
    requires c in s.byChan
    ensures Candidate(w, s, c, min).None? <==> NobodyFor(w, s, s.byChan[c], min)
  {
    var list := s.byChan[c];
    BestIsEligible(w, s, list, min);
    if Scan(w, s, list, min).hi.Some? {
      var ks := ClimbOf(w, s, list, min);
      ClimbWins(w, s, list, min, ks);
      if ClimbsToNoAccount(w, s, list, min) {
        var ls :| Climb(w, s, list, min, ls) && NoAccountAt(w, s, list, ls[|ls| - 1]);
        ClimbWins(w, s, list, min, ls);
      }
    } else {
      forall x <- list ensures !Eligible(w, s, x, min) {
        if Eligible(w, s, x, min) {
          BestIsUndominated(w, s, list, min, x);
        }
      }
    }
  }

  // ---- when accounts are not passed over ----

  // Every eligible entry that is not about an account has fewer flags than some eligible entry.
  ghost predicate GroupsBelow(w: World, s: Store, list: seq<Id>, min: set<Flag>) {
    forall x <- list | Eligible(w, s, x, min) && s.entries[x].who.ent !in w.users ::
      exists y <- list :: Eligible(w, s, y, min) && AddAutoFlags(s.entries[x].level) < AddAutoFlags(s.entries[y].level)
  }

  lemma NotPassedOver(w: World, s: Store, c: Chan, min: set<Flag>)
    requires c in s.byChan && GroupsBelow(w, s, s.byChan[c], min)
    ensures Candidate(w, s, c, min).None? <==> forall x <- s.byChan[c] :: !Eligible(w, s, x, min)
  {
    var list := s.byChan[c];
    BestIsEligible(w, s, list, min);
    forall y <- list | Eligible(w, s, y, min)
      ensures var b := Scan(w, s, list, min); b.hi.Some? && !(b.level < AddAutoFlags(s.entries[y].level)) {
      BestIsUndominated(w, s, list, min, y);
    }
  }

  // The place has all the flags of every eligible entry. Among those with the same flags it is the
  // first at which the last account was seen recently, or else the first.
  ghost predicate Wins(w: World, s: Store, list: seq<Id>, min: set<Flag>, i: nat) {
    EligibleAt(w, s, list, min, i) &&
    forall j :: 0 <= j < |list| && j != i && EligibleAt(w, s, list, min, j) ==>
      LevelAt(s, list, j) < LevelAt(s, list, i) ||
      (LevelAt(s, list, j) == LevelAt(s, list, i) && Earlier(w, s, list, min, i, j))
  }

  predicate Earlier(w: World, s: Store, list: seq<Id>, min: set<Flag>, i: nat, j: nat)
    requires i < |list| && j < |list|
  {
    if j < i then RecentAt(w, s, list, min, i) && !RecentAt(w, s, list, min, j)
    else RecentAt(w, s, list, min, i) || !RecentAt(w, s, list, min, j)
  }

  lemma WinnerBeats(w: World, s: Store, list: seq<Id>, min: set<Flag>, i: nat, j: nat)
    requires Wins(w, s, list, min, i) && EligibleAt(w, s, list, min, j)
    ensures j < i ==> Beats(w, s, list, min, j, i)
    ensures j > i ==> !Beats(w, s, list, min, i, j)
  {
  }

  // If one eligible entry has the flags of all others, the winner is told by flags, recency and order.
  lemma WinnerWins(w: World, s: Store, list: seq<Id>, min: set<Flag>, i: nat)
    requires Wins(w, s, list, min, i)
    ensures At(w, s, list, min, Scan(w, s, list, min), i)
  {
    assert list[i] in list;
    BestIsUndominated(w, s, list, min, list[i]);
    var ks := ClimbOf(w, s, list, min);
    ClimbWins(w, s, list, min, ks);
    var k := ks[|ks| - 1];
    assert EligibleAt(w, s, list, min, k) && Unbeaten(w, s, list, min, k);
    StaysBelow(w, s, list, min, ks, i, |ks| - 1);
    WinnerBeats(w, s, list, min, i, k);
  }

  // The climb does not get beyond a place that wins.
  lemma {:induction false} StaysBelow(w: World, s: Store, list: seq<Id>, min: set<Flag>, ks: seq<nat>, i: nat, t: nat)
    requires Climb(w, s, list, min, ks) && Wins(w, s, list, min, i) && t < |ks|
    ensures ks[t] <= i
  {
    if t > 0 {
      StaysBelow(w, s, list, min, ks, i, t - 1);
      assert ks[t - 1] in ks && ks[t] in ks && NextUp(w, s, list, min, ks[t - 1], ks[t]);
      WinnerBeats(w, s, list, min, i, ks[t - 1]);
      WinnerBeats(w, s, list, min, i, ks[t]);
    }
  }

  // The place has all the flags of every eligible entry.
  ghost predicate Top(w: World, s: Store, list: seq<Id>, min: set<Flag>, t: nat) {
    EligibleAt(w, s, list, min, t) &&
    forall j :: 0 <= j < |list| && EligibleAt(w, s, list, min, j) ==> LevelAt(s, list, j) <= LevelAt(s, list, t)
  }

  predicate AsHigh(w: World, s: Store, list: seq<Id>, min: set<Flag>, t: nat, j: nat)
    requires EligibleAt(w, s, list, min, t)
  {
    EligibleAt(w, s, list, min, j) && LevelAt(s, list, j) == LevelAt(s, list, t)
  }

  lemma TopHasWinner(w: World, s: Store, list: seq<Id>, min: set<Flag>, t: nat) returns (i: nat)
    requires Top(w, s, list, min, t)
    ensures Wins(w, s, list, min, i)
  {
    i := 0;
    while i < |list| && !(AsHigh(w, s, list, min, t, i) && RecentAt(w, s, list, min, i))
      invariant i <= |list|
      invariant forall j :: 0 <= j < i ==> !(AsHigh(w, s, list, min, t, j) && RecentAt(w, s, list, min, j))
    {
      i := i + 1;
    }
    if i == |list| {
      assert forall j :: 0 <= j < |list| ==> !(AsHigh(w, s, list, min, t, j) && RecentAt(w, s, list, min, j));
      i := 0;
      while !AsHigh(w, s, list, min, t, i)
        invariant i <= t && forall j :: 0 <= j < i ==> !AsHigh(w, s, list, min, t, j)
        decreases t - i
      {
        i := i + 1;
      }
    }
    forall j | 0 <= j < |list| && j != i && EligibleAt(w, s, list, min, j)
      ensures LevelAt(s, list, j) < LevelAt(s, list, i) ||
              (LevelAt(s, list, j) == LevelAt(s, list, i) && Earlier(w, s, list, min, i, j)) {
      assert AsHigh(w, s, list, min, t, j) <==> LevelAt(s, list, j) == LevelAt(s, list, i);
    }
  }

  // If one eligible entry has all the flags of the others there is a place that wins, and nobody is
  // picked exactly if it is not about an account.
  lemma WinnerDecides(w: World, s: Store, c: Chan, min: set<Flag>, t: nat) returns (i: nat)
    requires c in s.byChan && Top(w, s, s.byChan[c], min, t)
    ensures Wins(w, s, s.byChan[c], min, i)
    ensures Candidate(w, s, c, min).None? <==> NoAccountAt(w, s, s.byChan[c], i)
    ensures Candidate(w, s, c, min).Some? ==> Candidate(w, s, c, min) == Some(s.entries[s.byChan[c][i]].who.ent)
  {
    i := TopHasWinner(w, s, s.byChan[c], min, t);
    WinnerWins(w, s, s.byChan[c], min, i);
  }

  // ---- mychan_pick_successor() ----

  // The flags asked for, the most powerful first.
  function Tiers(all: set<Flag>): seq<set<Flag>> {
    [{CA_RECOVER}, {CA_FLAGS}] + (if CA_USEOWNER in all then [{CA_USEOWNER, CA_AUTOOP}] else []) + [{CA_OP}, {}]
  }

  function FirstCandidate(w: World, s: Store, c: Chan, tiers: seq<set<Flag>>): Option<Ent> {
    if tiers == [] then None
    else
      var r := Candidate(w, s, c, tiers[0]);
      if r.Some? then r else FirstCandidate(w, s, c, tiers[1..])
  }

  function Successor(w: World, s: Store, c: Chan): Option<Ent> {
    FirstCandidate(w, s, c, Tiers(w.all))
  }

  lemma {:induction false} FirstOf(w: World, s: Store, c: Chan, tiers: seq<set<Flag>>) returns (i: nat)
    ensures FirstCandidate(w, s, c, tiers).Some? ==> i < |tiers| && FirstCandidate(w, s, c, tiers) == Candidate(w, s, c, tiers[i])
    ensures FirstCandidate(w, s, c, tiers).None? ==> i == |tiers|
    ensures forall j :: 0 <= j < i ==> Candidate(w, s, c, tiers[j]).None?
  {
    if tiers == [] || Candidate(w, s, c, tiers[0]).Some? {
      i := 0;
    } else {
      i := FirstOf(w, s, c, tiers[1..]);
      i := i + 1;
    }
  }

  lemma FirstFound(w: World, s: Store, c: Chan, tiers: seq<set<Flag>>, i: nat)
    requires i < |tiers| && forall j :: 0 <= j < i ==> Candidate(w, s, c, tiers[j]).None?
    requires Candidate(w, s, c, tiers[i]).Some? || i == |tiers| - 1
    ensures FirstCandidate(w, s, c, tiers) == Candidate(w, s, c, tiers[i])
  {
    var k := FirstOf(w, s, c, tiers);
    assert k >= i;
  }

  // The successor is an account on the list, neither founder nor to be kicked, that can take one
  // more channel; no account that could was of a more powerful kind.
  lemma SuccessorIsFit(w: World, s: Store, c: Chan) returns (x: Id, i: nat)
    requires Successor(w, s, c).Some?
    ensures InChan(s, c, x) && i < |Tiers(w.all)| && Eligible(w, s, x, Tiers(w.all)[i])
    ensures Successor(w, s, c) == Some(s.entries[x].who.ent) && s.entries[x].who.ent in w.users
    ensures forall y <- s.byChan[c] | Eligible(w, s, y, Tiers(w.all)[i]) ::
      !(AddAutoFlags(s.entries[x].level) < AddAutoFlags(s.entries[y].level))
    ensures forall j, y | 0 <= j < i && y in s.byChan[c] && GroupsBelow(w, s, s.byChan[c], Tiers(w.all)[j]) ::
      !Eligible(w, s, y, Tiers(w.all)[j])
  {
    i := FirstOf(w, s, c, Tiers(w.all));
    x := CandidateIsFit(w, s, c, Tiers(w.all)[i]);
    forall j, y | 0 <= j < i && y in s.byChan[c] && GroupsBelow(w, s, s.byChan[c], Tiers(w.all)[j])
      ensures !Eligible(w, s, y, Tiers(w.all)[j]) {
      NotPassedOver(w, s, c, Tiers(w.all)[j]);
    }
  }

  // There is no successor exactly if for each kind nobody is eligible or the climb ends at an entry
  // that is not about an account.
  lemma NoSuccessor(w: World, s: Store, c: Chan)
    requires c in s.byChan
    ensures Successor(w, s, c).None? <==> forall min <- Tiers(w.all) :: NobodyFor(w, s, s.byChan[c], min)
  {
    var tiers := Tiers(w.all);
    var i := FirstOf(w, s, c, tiers);
    forall min <- tiers ensures Candidate(w, s, c, min).None? <==> NobodyFor(w, s, s.byChan[c], min) {
      NoCandidate(w, s, c, min);
    }
    if i < |tiers| {
      assert tiers[i] in tiers;
    }
  }

  // As long as every group has fewer flags than somebody, there is none exactly if nobody is eligible.
  lemma NoSuccessorBelow(w: World, s: Store, c: Chan)
    requires c in s.byChan && GroupsBelow(w, s, s.byChan[c], {})
    ensures Successor(w, s, c).None? <==> forall x <- s.byChan[c] :: !Eligible(w, s, x, {})
  {
    var i := FirstOf(w, s, c, Tiers(w.all));
    var n := |Tiers(w.all)| - 1;
    assert Tiers(w.all)[n] == {};
    NotPassedOver(w, s, c, {});
    if i < |Tiers(w.all)| {
      var x := CandidateIsFit(w, s, c, Tiers(w.all)[i]);
      assert Eligible(w, s, x, {});
    }
  }

  // A channel with its founder, two accounts, the second of them seen recently, and a group.
  const TIED: Store := Store(
    map[9 := Entry("#a", Entity(3), {CA_FOUNDER, CA_FLAGS}),
        10 := Entry("#a", Entity(0), {CA_OP, CA_AUTOOP, CA_TOPIC}),
        11 := Entry("#a", Entity(1), {CA_OP, CA_AUTOOP}),
        12 := Entry("#a", Entity(2), {CA_OP, CA_AUTOOP, CA_TOPIC})],
    map["#a" := [9, 10, 11, 12]],
    map[0 := [10], 1 := [11], 2 := [12], 3 := [9]])
  const TWO_ACCOUNTS: World :=
    World({0, 1, 3}, {1}, {0, 1, 2, 3}, 20, {CA_OP, CA_AUTOOP, CA_TOPIC, CA_FLAGS, CA_FOUNDER})

  lemma GroupWins(min: set<Flag>)
    requires min <= {CA_OP, CA_AUTOOP}
    ensures Candidate(TWO_ACCOUNTS, TIED, "#a", min).None?
  {
    var w, s := TWO_ACCOUNTS, TIED;
    assert [9, 10, 11, 12][..3] == [9, 10, 11] && [9, 10, 11][..2] == [9, 10] && [9, 10][..1] == [9] && [9][..0] == [];
    assert Scan(w, s, [], min) == Best(None, {}, false, false);
    assert Scan(w, s, [9], min) == Best(None, {}, false, false);
    assert Scan(w, s, [9, 10], min) == Best(Some(10), {CA_OP, CA_AUTOOP, CA_TOPIC}, false, false);
    assert CA_TOPIC !in AddAutoFlags(s.entries[11].level);
    assert Scan(w, s, [9, 10, 11], min) == Best(Some(10), {CA_OP, CA_AUTOOP, CA_TOPIC}, false, true);
    assert Scan(w, s, [9, 10, 11, 12], min).hi == Some(12);
  }

  lemma NobodyAsked(min: set<Flag>)
    requires min == {CA_RECOVER} || min == {CA_FLAGS}
    ensures Candidate(TWO_ACCOUNTS, TIED, "#a", min).None?
  {
    assert CA_RECOVER in min || CA_FLAGS in min;
    assert forall x <- TIED.entries :: !Asked(TIED, x, min);
    BestIsEligible(TWO_ACCOUNTS, TIED, [9, 10, 11, 12], min);
  }

  lemma TiedIsLinked()
    ensures Linked(TIED)
  {
  }

  lemma TiedFounder()
    ensures Founded(TIED) && SoleFounder(TIED, 9)
  {
    assert InChan(TIED, "#a", 9) && IsFounder(TIED.entries[9]);
    assert [9, 10, 11, 12][..3] == [9, 10, 11] && [9, 10, 11][..2] == [9, 10] && [9, 10][..1] == [9] && [9][..0] == [];
    assert Count(TIED.entries, [9], CA_FOUNDER) == 1 && Count(TIED.entries, [9, 10], CA_FOUNDER) == 1;
  }

  lemma TiedIsSound()
    ensures Sound(TIED, TWO_ACCOUNTS.all) && Founded(TIED) && SoleFounder(TIED, 9)
  {
    TiedIsLinked();
    TiedFounder();
    hide Linked, Founded, SoleFounder;
  }

  // With other entities on the list eligible accounts can be passed over altogether: the last
  // account's recency is taken for that of the group after it, which so beats an account with the
  // same flags and then turns out to be no account.
  lemma GroupHidesAccounts()
    ensures Sound(TIED, TWO_ACCOUNTS.all) && Founded(TIED) && SoleFounder(TIED, 9) && {0, 1} <= TWO_ACCOUNTS.users
    ensures Eligible(TWO_ACCOUNTS, TIED, 10, {}) && Eligible(TWO_ACCOUNTS, TIED, 11, {})
    ensures Successor(TWO_ACCOUNTS, TIED, "#a").None?
  {
    TiedIsSound();
    hide Sound, Founded, SoleFounder;
    var tiers := Tiers(TWO_ACCOUNTS.all);
    assert tiers == [{CA_RECOVER}, {CA_FLAGS}, {CA_OP}, {}];
    forall j | 0 <= j < |tiers| ensures Candidate(TWO_ACCOUNTS, TIED, "#a", tiers[j]).None? {
      if j < 2 {
        NobodyAsked(tiers[j]);
      } else {
        GroupWins(tiers[j]);
      }
    }
    var i := FirstOf(TWO_ACCOUNTS, TIED, "#a", tiers);
  }
}
