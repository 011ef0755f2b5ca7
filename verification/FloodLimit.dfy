// The flood limiter: how many messages of a user the services accept
// (libathemecore/ptasks.c:835-950).
module FloodLimit {

  // FLOOD_MSGS_FACTOR
  const FACTOR: nat := 256

  // flood_msgs, flood_time, and whether the user has PRIV_FLOOD
  datatype Config = Config(floodMsgs: nat, floodTime: nat, privileged: bool)

  // What is kept of a user.
  datatype User = User(msgs: nat, lastMsg: nat, offenses: nat)

  predicate Configured(f: Config) {
    f.floodMsgs > 0 ==> f.floodTime > 0
  }

  function Rate(f: Config): nat
    requires f.floodTime > 0
  {
    f.floodMsgs * FACTOR / f.floodTime
  }

  function Full(f: Config): nat {
    f.floodMsgs * FACTOR
  }

  // ---- what one message does ----

  // The user is ignored, and not for 30 seconds yet.
  predicate Ignored(u: User, now: nat) {
    u.offenses > 10 && now - u.lastMsg <= 30
  }

  // The count goes down with time; a user ignored before starts over.
  function Decayed(f: Config, u: User, now: nat): User
    requires f.floodTime > 0 && u.lastMsg <= now
  {
    if u.offenses > 10 then User(0, now, u.offenses - 10)
    else
      var reduction := if u.lastMsg != 0 then (now - u.lastMsg) * Rate(f) else 0;
      User(if u.msgs > reduction then u.msgs - reduction else 0, now, u.offenses)
  }

  // One more message of a user who is not ignored, and whether it is accepted.
  function Counted(f: Config, u: User): (User, bool) {
    var more := u.(msgs := u.msgs + FACTOR);
    if more.msgs <= Full(f) then (more, true)
    else if f.privileged then (more.(msgs := 0), true)
    else if u.offenses == 0 then (User(0, u.lastMsg, 11), false)
    else if u.offenses == 1 then (User(0, u.lastMsg, 12), false)
    else (more, u.offenses != 2)
  }

  function Checked(f: Config, u: User, now: nat): (User, bool)
    requires Configured(f) && u.lastMsg <= now
  {
    if f.floodMsgs == 0 then (u, true)
    else if Ignored(u, now) then (u, false)
    else Counted(f, Decayed(f, u, now))
  }

  class Sender {
    const f: Config
    var msgs: nat
    var lastMsg: nat
    var offenses: nat

    ghost function U(): User
      reads this
    {
      User(msgs, lastMsg, offenses)
    }

    constructor (f: Config)
      ensures this.f == f && U() == User(0, 0, 0)
    {
      this.f, msgs, lastMsg, offenses := f, 0, 0, 0;
    }

    // floodcheck(), for a user who is not on services ignore; true if the message is ignored
    method Check(now: nat) returns (ignored: bool)
      requires Configured(f) && lastMsg <= now
      modifies this`msgs, this`lastMsg, this`offenses
      ensures (U(), !ignored) == Checked(f, old(U()), now)
    {
      if f.floodMsgs != 0 {
        if offenses > 10 {
          if now - lastMsg > 30 {
            offenses := offenses - 10;
            lastMsg := now;
            msgs := 0;
          } else {
            return true;
          }
        }
        if lastMsg != 0 && now > lastMsg {
          var reduction := (now - lastMsg) * (f.floodMsgs * FACTOR / f.floodTime);
          if msgs > reduction {
            msgs := msgs - reduction;
          } else {
            msgs := 0;
          }
        }
        lastMsg := now;
        msgs := msgs + FACTOR;
        if msgs > f.floodMsgs * FACTOR {
          if f.privileged {
            msgs := 0;
            return false;
          }
          if offenses == 0 {
            msgs, offenses := 0, 11;
            return true;
          }
          if offenses == 1 {
            msgs, offenses := 0, 12;
            return true;
          }
          if offenses == 2 {
            return true;
          }
        }
      }
      return false;
    }

    // command_add_flood()
    method AddFlood(amount: nat)
      modifies this`msgs
      ensures U() == old(U()).(msgs := old(msgs) + amount)
    {
      msgs := msgs + amount;
    }
  }

  // ---- runs ----

  // A message at some time, or extra weight given to a command.
  datatype Event = Message(at: nat) | Extra(amount: nat)

  function Next(f: Config, u: User, e: Event): (User, bool)
    requires Configured(f) && (e.Message? ==> u.lastMsg <= e.at)
  {
    match e
    case Message(t) => Checked(f, u, t)
    case Extra(amount) => (u.(msgs := u.msgs + amount), false)
  }

  // Time does not run backwards.
  predicate Ordered(from: nat, evs: seq<Event>)
    decreases |evs|
  {
    evs == [] || (if evs[0].Message? then from <= evs[0].at && Ordered(evs[0].at, evs[1..]) else Ordered(from, evs[1..]))
  }

  function Until(from: nat, evs: seq<Event>): nat
    decreases |evs|
  {
    if evs == [] then from else Until(if evs[0].Message? then evs[0].at else from, evs[1..])
  }

  // The time from the first message to the last.
  function Elapsed(evs: seq<Event>): int {
    if evs == [] then 0
    else if evs[0].Message? then Until(evs[0].at, evs[1..]) - evs[0].at
    else Elapsed(evs[1..])
  }

  lemma {:induction false} UntilLater(from: nat, evs: seq<Event>)
    requires Ordered(from, evs)
    ensures from <= Until(from, evs) && 0 <= Elapsed(evs) <= Until(from, evs) - from
    decreases |evs|
  {
    if evs != [] {
      UntilLater(if evs[0].Message? then evs[0].at else from, evs[1..]);
    }
  }

  lemma NextOrdered(f: Config, u: User, from: nat, evs: seq<Event>)
    requires Configured(f) && u.lastMsg <= from && evs != [] && Ordered(from, evs)
    ensures var now := if evs[0].Message? then evs[0].at else from;
      Next(f, u, evs[0]).0.lastMsg <= now && Ordered(now, evs[1..])
  {
  }

  function After(f: Config, u: User, from: nat, evs: seq<Event>): User
    requires Configured(f) && u.lastMsg <= from && Ordered(from, evs)
    decreases |evs|
  {
    if evs == [] then u
    else
      NextOrdered(f, u, from, evs);
      After(f, Next(f, u, evs[0]).0, if evs[0].Message? then evs[0].at else from, evs[1..])
  }

  // How many messages are accepted.
  function Accepted(f: Config, u: User, from: nat, evs: seq<Event>): nat
    requires Configured(f) && u.lastMsg <= from && Ordered(from, evs)
    decreases |evs|
  {
    if evs == [] then 0
    else
      NextOrdered(f, u, from, evs);
      (if Next(f, u, evs[0]).1 then 1 else 0) +
      Accepted(f, Next(f, u, evs[0]).0, if evs[0].Message? then evs[0].at else from, evs[1..])
  }

  // ---- the stages of a user ----

  predicate Known(u: User) {
    u.offenses in {0, 1, 2, 11, 12}
  }

  // The order in which a user passes through the values of offenses.
  function Stage(offenses: nat): nat {
    if offenses == 0 then 0 else if offenses == 11 then 1 else if offenses == 1 then 2
    else if offenses == 12 then 3 else 4
  }

  // Over any run offenses keeps to its five values and never goes back to an earlier one.
  lemma {:induction false} StagesInOrder(f: Config, u: User, from: nat, evs: seq<Event>)
    requires Configured(f) && u.lastMsg <= from && Ordered(from, evs) && Known(u)
    ensures var v := After(f, u, from, evs); Known(v) && Stage(v.offenses) >= Stage(u.offenses)
    decreases |evs|
  {
    if evs != [] {
      NextOrdered(f, u, from, evs);
      StagesInOrder(f, Next(f, u, evs[0]).0, if evs[0].Message? then evs[0].at else from, evs[1..]);
    }
  }

  // Who is ignored stays so for 30 seconds, whatever is sent meanwhile.
  lemma {:induction false} ThirtySeconds(f: Config, u: User, from: nat, evs: seq<Event>)
    requires Configured(f) && f.floodMsgs > 0 && u.lastMsg <= from && Ordered(from, evs)
    requires u.offenses > 10 && Until(from, evs) <= u.lastMsg + 30
    ensures Accepted(f, u, from, evs) == 0
    ensures var v := After(f, u, from, evs); v.offenses == u.offenses && v.lastMsg == u.lastMsg
    decreases |evs|
  {
    if evs != [] {
      NextOrdered(f, u, from, evs);
      var now := if evs[0].Message? then evs[0].at else from;
      UntilLater(now, evs[1..]);
      ThirtySeconds(f, Next(f, u, evs[0]).0, now, evs[1..]);
    }
  }

  // ---- how many messages are accepted ----

  // How often the count can still be given up as a punishment.
  function Chances(offenses: nat): nat {
    if offenses == 0 then 2 else if offenses == 11 || offenses == 1 then 1 else 0
  }

  function Room(f: Config, msgs: nat): nat {
    if msgs < Full(f) then Full(f) - msgs else 0
  }

  // What a user who is not ignored can still have accepted.
  function Allowance(f: Config, u: User): nat {
    Room(f, u.msgs) + Chances(u.offenses) * Full(f)
  }

  lemma DecayedAllowance(f: Config, u: User, now: nat)
    requires Configured(f) && f.floodMsgs > 0 && 0 < u.lastMsg <= now && u.offenses <= 10
    ensures Allowance(f, Decayed(f, u, now)) <= Allowance(f, u) + (now - u.lastMsg) * Rate(f)
  {
  }

  // Of the allowance each message accepted takes its part.
  lemma CountedAllowance(f: Config, u: User)
    requires f.floodMsgs > 0 && !f.privileged && u.offenses in {0, 1, 2}
    ensures var (v, ok) := Counted(f, u); v.lastMsg == u.lastMsg && Known(v)
    ensures var (v, ok) := Counted(f, u); v.offenses <= 10 ==>
      (if ok then FACTOR else 0) + Allowance(f, v) <= Allowance(f, u)
    ensures var (v, ok) := Counted(f, u); v.offenses > 10 ==> !ok && (1 + Chances(v.offenses)) * Full(f) <= Allowance(f, u)
  {
  }

  lemma MoreTime(f: Config, a: int, b: int)
    requires f.floodTime > 0 && a <= b
    ensures a * Rate(f) <= b * Rate(f)
  {
  }

  lemma TimeAdds(f: Config, a: int, b: int)
    requires f.floodTime > 0
    ensures (a + b) * Rate(f) == a * Rate(f) + b * Rate(f)
  {
  }

  predicate Limited(f: Config, u: User) {
    f.floodMsgs > 0 && f.floodTime > 0 && !f.privileged && Known(u)
  }

  // A user who is not ignored.
  lemma {:induction false} Spends(f: Config, u: User, from: nat, evs: seq<Event>)
    requires Limited(f, u) && u.offenses <= 10 && 0 < u.lastMsg <= from && Ordered(from, evs)
    ensures FACTOR * Accepted(f, u, from, evs) <= Allowance(f, u) + (Until(from, evs) - u.lastMsg) * Rate(f)
    decreases |evs|, 0
  {
    UntilLater(from, evs);
    MoreTime(f, 0, Until(from, evs) - u.lastMsg);
    if evs == [] {
    } else if evs[0].Extra? {
      NextOrdered(f, u, from, evs);
      Spends(f, Next(f, u, evs[0]).0, from, evs[1..]);
    } else {
      var t, rest := evs[0].at, evs[1..];
      NextOrdered(f, u, from, evs);
      UntilLater(t, rest);
      var d := Decayed(f, u, t);
      var (v, ok) := Counted(f, d);
      DecayedAllowance(f, u, t);
      CountedAllowance(f, d);
      TimeAdds(f, t - u.lastMsg, Until(t, rest) - t);
      if v.offenses <= 10 {
        Spends(f, v, t, rest);
      } else {
        Bounded(f, v, t, rest);
        MoreTime(f, Elapsed(rest), Until(t, rest) - t);
      }
    }
  }

  // The first message counts as if the user had just started with what was left.
  lemma FreshStart(f: Config, u: User, from: nat, evs: seq<Event>)
    requires Limited(f, u) && u.lastMsg <= from && 0 < from && Ordered(from, evs)
    requires evs != [] && evs[0].Message? && !Ignored(u, evs[0].at)
    ensures var t := evs[0].at; var d := Decayed(f, u, t);
      Accepted(f, u, from, evs) == Accepted(f, d, t, evs) && Limited(f, d) && d.offenses <= 10 && d.lastMsg == t
    ensures Allowance(f, Decayed(f, u, evs[0].at)) <= (1 + Chances(u.offenses)) * Full(f)
  {
    var t := evs[0].at;
    assert Decayed(f, Decayed(f, u, t), t) == Decayed(f, u, t);
  }

  // Over any stretch of any run, at most flood_msgs messages are accepted for each time the user
  // can still start over, and once more, and what the rate allows for the time from its first
  // message to its last.
  lemma {:induction false} Bounded(f: Config, u: User, from: nat, evs: seq<Event>)
    requires Limited(f, u) && u.lastMsg <= from && 0 < from && Ordered(from, evs)
    ensures FACTOR * Accepted(f, u, from, evs) <= (1 + Chances(u.offenses)) * Full(f) + Elapsed(evs) * Rate(f)
    decreases |evs|, 1
  {
    hide Rate, Decayed, Counted, Allowance, Full;
    if evs == [] {
    } else if evs[0].Extra? {
      NextOrdered(f, u, from, evs);
      Bounded(f, Next(f, u, evs[0]).0, from, evs[1..]);
    } else {
      var t, rest := evs[0].at, evs[1..];
      NextOrdered(f, u, from, evs);
      UntilLater(t, rest);
      if Ignored(u, t) {
        Bounded(f, u, t, rest);
        MoreTime(f, Elapsed(rest), Elapsed(evs));
      } else {
        var d := Decayed(f, u, t);
        FreshStart(f, u, from, evs);
        Spends(f, d, t, evs);
      }
    }
  }

  // In all, three times flood_msgs and what the rate allows.
  lemma AcceptedBound(f: Config, u: User, from: nat, evs: seq<Event>)
    requires Limited(f, u) && u.lastMsg <= from && 0 < from && Ordered(from, evs)
    ensures FACTOR * Accepted(f, u, from, evs) <= 3 * Full(f) + Elapsed(evs) * Rate(f)
  {
    Bounded(f, u, from, evs);
    assert (1 + Chances(u.offenses)) * Full(f) <= 3 * Full(f);
  }

  // ---- who is never refused ----

  function Messages(evs: seq<Event>): nat {
    if evs == [] then 0 else (if evs[0].Message? then 1 else 0) + Messages(evs[1..])
  }

  // A message weighs FACTOR, extra weight what it is.
  function Weight(evs: seq<Event>): nat {
    if evs == [] then 0 else (match evs[0] case Message(_) => FACTOR case Extra(amount) => amount) + Weight(evs[1..])
  }

  // m and the weight of the first n events are no more than flood_msgs messages and what the rate
  // allows for the time since from.
  predicate Within(f: Config, m: int, from: nat, evs: seq<Event>, n: nat)
    requires f.floodTime > 0 && n <= |evs|
  {
    m + Weight(evs[..n]) <= Full(f) + (Until(from, evs[..n]) - from) * Rate(f)
  }

  // So at every message.
  ghost predicate Steady(f: Config, m: int, from: nat, evs: seq<Event>)
    requires f.floodTime > 0
  {
    forall n | 0 < n <= |evs| :: evs[n - 1].Message? ==> Within(f, m, from, evs, n)
  }

  // And this is so for the time since each of the messages.
  ghost predicate Keeps(f: Config, m: nat, from: nat, evs: seq<Event>)
    requires f.floodTime > 0
  {
    Steady(f, m, from, evs) && forall i :: 0 <= i < |evs| && evs[i].Message? ==> Steady(f, 0, evs[i].at, evs[i..])
  }

  lemma PrefixRest(evs: seq<Event>, n: nat, from: nat)
    requires 0 < n <= |evs|
    ensures Weight(evs[..n]) == (match evs[0] case Message(_) => FACTOR case Extra(amount) => amount) + Weight(evs[1..][..n - 1])
    ensures Until(from, evs[..n]) == Until(if evs[0].Message? then evs[0].at else from, evs[1..][..n - 1])
  {
    assert evs[..n][1..] == evs[1..][..n - 1] && evs[..n][0] == evs[0];
  }

  lemma SteadyExtra(f: Config, m: int, from: nat, evs: seq<Event>)
    requires f.floodTime > 0 && evs != [] && evs[0].Extra?
    ensures Steady(f, m, from, evs) <==> Steady(f, m + evs[0].amount, from, evs[1..])
  {
    var rest, more := evs[1..], m + evs[0].amount;
    forall n | 0 < n <= |evs| ensures Within(f, m, from, evs, n) <==> Within(f, more, from, rest, n - 1) {
      PrefixRest(evs, n, from);
    }
    hide Within;
    if Steady(f, m, from, evs) {
      forall n | 0 < n <= |rest| && rest[n - 1].Message? ensures Within(f, more, from, rest, n) {
        assert evs[n + 1 - 1].Message? && Within(f, m, from, evs, n + 1);
      }
    }
    if Steady(f, more, from, rest) {
      forall n | 0 < n <= |evs| && evs[n - 1].Message? ensures Within(f, m, from, evs, n) {
        assert rest[n - 1 - 1].Message? && Within(f, more, from, rest, n - 1);
      }
    }
  }

  lemma WithinMessage(f: Config, m: int, from: nat, evs: seq<Event>, n: nat)
    requires f.floodTime > 0 && 0 < n <= |evs| && evs[0].Message?
    ensures var left := m - (evs[0].at - from) * Rate(f) + FACTOR;
      Within(f, m, from, evs, n) <==> Within(f, left, evs[0].at, evs[1..], n - 1)
  {
    hide Rate, Full;
    PrefixRest(evs, n, from);
    TimeAdds(f, Until(evs[0].at, evs[1..][..n - 1]) - evs[0].at, evs[0].at - from);
  }

  lemma SteadyMessage(f: Config, m: int, from: nat, evs: seq<Event>)
    requires f.floodTime > 0 && evs != [] && evs[0].Message?
    ensures var left := m - (evs[0].at - from) * Rate(f) + FACTOR;
      Steady(f, m, from, evs) <==> left <= Full(f) && Steady(f, left, evs[0].at, evs[1..])
  {
    var t, rest := evs[0].at, evs[1..];
    var left := m - (t - from) * Rate(f) + FACTOR;
    assert Within(f, left, t, rest, 0) <==> left <= Full(f) by {
      assert rest[..0] == [] && 0 * Rate(f) == 0;
    }
    hide Within, Rate, Full;
    forall n | 0 < n <= |evs| ensures Within(f, m, from, evs, n) <==> Within(f, left, t, rest, n - 1) {
      WithinMessage(f, m, from, evs, n);
    }
    if Steady(f, m, from, evs) {
      assert evs[1 - 1].Message? && Within(f, m, from, evs, 1);
      forall n | 0 < n <= |rest| && rest[n - 1].Message? ensures Within(f, left, t, rest, n) {
        assert evs[n + 1 - 1].Message? && Within(f, m, from, evs, n + 1);
      }
    }
    if Within(f, left, t, rest, 0) && Steady(f, left, t, rest) {
      forall n | 0 < n <= |evs| && evs[n - 1].Message? ensures Within(f, m, from, evs, n) {
        assert n > 1 ==> rest[n - 1 - 1].Message? && Within(f, left, t, rest, n - 1);
      }
    }
  }

  lemma SteadyMore(f: Config, a: int, b: int, from: nat, evs: seq<Event>)
    requires f.floodTime > 0 && a <= b && Steady(f, b, from, evs)
    ensures Steady(f, a, from, evs)
  {
    forall n | 0 < n <= |evs| && evs[n - 1].Message? ensures Within(f, a, from, evs, n) {
      assert Within(f, b, from, evs, n);
    }
  }

  lemma KeepsExtra(f: Config, m: nat, from: nat, evs: seq<Event>)
    requires f.floodTime > 0 && evs != [] && evs[0].Extra?
    ensures Keeps(f, m, from, evs) <==> Keeps(f, m + evs[0].amount, from, evs[1..])
  {
    hide Steady;
    SteadyExtra(f, m, from, evs);
    LaterStarts(f, evs);
  }

  // The stretches of the rest are those of the whole that begin behind its first event.
  lemma LaterStarts(f: Config, evs: seq<Event>)
    requires f.floodTime > 0 && evs != []
    ensures (forall i :: 0 <= i < |evs| && evs[i].Message? ==> Steady(f, 0, evs[i].at, evs[i..])) <==>
      && (evs[0].Message? ==> Steady(f, 0, evs[0].at, evs))
      && forall i :: 0 <= i < |evs[1..]| && evs[1..][i].Message? ==> Steady(f, 0, evs[1..][i].at, evs[1..][i..])
  {
    hide Steady;
    var rest := evs[1..];
    assert evs[0..] == evs;
    forall i | 0 <= i < |rest| ensures rest[i] == evs[i + 1] && rest[i..] == evs[i + 1..] {
    }
    if forall i :: 0 <= i < |rest| && rest[i].Message? ==> Steady(f, 0, rest[i].at, rest[i..]) {
      forall i | 0 < i < |evs| && evs[i].Message? ensures Steady(f, 0, evs[i].at, evs[i..]) {
        assert rest[i - 1] == evs[i] && rest[i - 1..] == evs[i..];
      }
    }
  }

  // What is left of a count at a message, and the message.
  function Leaked(f: Config, m: nat, time: nat): nat
    requires f.floodTime > 0
  {
    (if m > time * Rate(f) then m - time * Rate(f) else 0) + FACTOR
  }

  lemma KeepsMessage(f: Config, m: nat, from: nat, evs: seq<Event>)
    requires f.floodTime > 0 && evs != [] && evs[0].Message? && from <= evs[0].at
    ensures var left := Leaked(f, m, evs[0].at - from);
      Keeps(f, m, from, evs) <==> left <= Full(f) && Keeps(f, left, evs[0].at, evs[1..])
  {
    var t, rest := evs[0].at, evs[1..];
    var a, b := m - (t - from) * Rate(f) + FACTOR, FACTOR;
    assert 0 * Rate(f) == 0;
    SteadyMessage(f, m, from, evs);
    SteadyMessage(f, 0, t, evs);
    LaterStarts(f, evs);
    hide Steady, Rate, Full;
    var left := Leaked(f, m, t - from);
    assert left == if a > b then a else b;
    if Steady(f, left, t, rest) {
      SteadyMore(f, a, left, t, rest);
      SteadyMore(f, b, left, t, rest);
    }
  }

  // No message of a stretch is refused exactly if the user keeps to the rate: at each message the
  // weight since each earlier one, and since the last one before the stretch with what was left of
  // the count then, is within flood_msgs messages and what the rate allows for that time.
  lemma {:induction false} AllAcceptedExactly(f: Config, u: User, from: nat, evs: seq<Event>)
    requires Limited(f, u) && u.offenses <= 10 && 0 < u.lastMsg == from && Ordered(from, evs)
    ensures Accepted(f, u, from, evs) == Messages(evs) <==> Keeps(f, u.msgs, from, evs)
    decreases |evs|
  {
    if evs == [] {
    } else if evs[0].Extra? {
      KeepsExtra(f, u.msgs, from, evs);
      NextOrdered(f, u, from, evs);
      AllAcceptedExactly(f, Next(f, u, evs[0]).0, from, evs[1..]);
    } else {
      var t, rest := evs[0].at, evs[1..];
      NextOrdered(f, u, from, evs);
      KeepsMessage(f, u.msgs, from, evs);
      hide Keeps, Rate;
      var left := Leaked(f, u.msgs, t - from);
      assert Decayed(f, u, t).msgs + FACTOR == left;
      AtMostAll(f, Next(f, u, evs[0]).0, t, rest);
      if left <= Full(f) {
        AllAcceptedExactly(f, User(left, t, u.offenses), t, rest);
      }
    }
  }

  lemma {:induction false} AtMostAll(f: Config, u: User, from: nat, evs: seq<Event>)
    requires Configured(f) && u.lastMsg <= from && Ordered(from, evs)
    ensures Accepted(f, u, from, evs) <= Messages(evs)
    decreases |evs|
  {
    hide Checked;
    if evs != [] {
      NextOrdered(f, u, from, evs);
      AtMostAll(f, Next(f, u, evs[0]).0, if evs[0].Message? then evs[0].at else from, evs[1..]);
    }
  }

  // The same from the first message of a user on.
  lemma NewUserAccepted(f: Config, from: nat, evs: seq<Event>)
    requires f.floodMsgs > 0 && f.floodTime > 0 && !f.privileged && Ordered(from, evs)
    requires evs != [] && evs[0].Message? && evs[0].at > 0
    ensures Accepted(f, User(0, 0, 0), from, evs) == Messages(evs) <==> Keeps(f, 0, evs[0].at, evs)
  {
    var t := evs[0].at;
    assert 0 * Rate(f) == 0;
    assert Checked(f, User(0, 0, 0), t) == Checked(f, User(0, t, 0), t);
    AllAcceptedExactly(f, User(0, t, 0), t, evs);
  }

  // A user with the privilege who is not ignored, and everybody without a limit, has every message
  // accepted.
  lemma {:induction false} Unlimited(f: Config, u: User, from: nat, evs: seq<Event>)
    requires Configured(f) && u.lastMsg <= from && Ordered(from, evs)
    requires f.floodMsgs == 0 || (f.privileged && u.offenses <= 10)
    ensures Accepted(f, u, from, evs) == Messages(evs)
    decreases |evs|
  {
    if evs != [] {
      NextOrdered(f, u, from, evs);
      Unlimited(f, Next(f, u, evs[0]).0, if evs[0].Message? then evs[0].at else from, evs[1..]);
    }
  }

  // Who was ignored is accepted again after the 30 seconds, with a count of one message and one offense
  // on record, or two.
  lemma BackAfterThirty(f: Config, u: User, now: nat)
    requires Limited(f, u) && u.offenses > 10 && now > u.lastMsg + 30
    ensures Checked(f, u, now) == (User(FACTOR, now, if u.offenses == 11 then 1 else 2), true)
  {
    assert Full(f) >= FACTOR;
  }

  // And with that it is the third offense at the latest that is punished otherwise: a message over the
  // limit is refused, and the first two times the count is given up.
  lemma OverTheLimit(f: Config, u: User, now: nat)
    requires Limited(f, u) && u.offenses <= 10 && 0 < u.lastMsg <= now
    requires u.msgs + FACTOR > Full(f) + (now - u.lastMsg) * Rate(f)
    ensures Checked(f, u, now) ==
      (if u.offenses == 2 then User(u.msgs + FACTOR - (now - u.lastMsg) * Rate(f), now, 2) else User(0, now, u.offenses + 11), false)
  {
    hide Rate;
    assert Full(f) >= FACTOR;
  }
}
