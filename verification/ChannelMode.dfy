// channel_mode() as the C code has it: one loop over the mode letters that changes the channel's
// fields and, for a change by one of our users, passes each change on to the stacker
// (libathemecore/cmode.c:86-357).
module ChannelMode {
  import opened Basics
  import opened CaseMap
  import opened Text
  import opened ChannelModes
  import opened StackRuns
  import LocalModes
  import ModeEffects
  import ModeStack

  class Channel {
    const name: string
    var modes: Flags
    var limit: nat
    var key: Option<string>
    var extmodes: seq<Option<string>>
    var bans: seq<Ban>
    var members: map<nat, Flags>

    function State(): ChanState
      reads this
    {
      ChanState(modes, limit, key, extmodes, bans, members)
    }

    constructor (name: string, t: Tables)
      ensures this.name == name && State() == ChanState({}, 0, None, seq(|t.ext|, _ => None), [], map[])
    {
      this.name := name;
      modes, limit, key, extmodes := {}, 0, None, seq(|t.ext|, _ => None);
      bans, members := [], map[];
    }

    // chanban_add()
    method BanAdd(m: Mapping, mask: string, kind: char)
      modifies this`bans
      ensures State() == SetBan(m, old(State()), Add, kind, mask)
    {
      if !ValidValue(mask) {
        return;
      }
      var i := BanAt(m, mask, kind);
      if i < |bans| {
        return;
      }
      bans := bans + [Ban(kind, mask)];
    }

    // chanban_find() and chanban_delete()
    method BanDelete(m: Mapping, mask: string, kind: char)
      modifies this`bans
      ensures State() == SetBan(m, old(State()), Del, kind, mask)
    {
      var i := BanAt(m, mask, kind);
      if i < |bans| {
        bans := bans[..i] + bans[i + 1..];
      }
    }

    // chanban_find(): the first such ban
    method BanAt(m: Mapping, mask: string, kind: char) returns (i: nat)
      ensures i == BanFind(m, bans, kind, mask)
    {
      i := 0;
      while i < |bans| && !(bans[i].kind == kind && SameName(m, bans[i].mask, mask))
        invariant i <= |bans|
        invariant i + BanFind(m, bans[i..], kind, mask) == BanFind(m, bans, kind, mask)
      {
        assert bans[i..][1..] == bans[i + 1..];
        i := i + 1;
      }
      if i < |bans| {
        assert bans[i..][0] == bans[i];
      }
    }
  }

  // The loops over the mode tables.
  method LetterAt(letters: string, c: char) returns (i: nat)
    ensures i == Find(letters, c) && (i < |letters| <==> c in letters)
  {
    i := 0;
    while i < |letters| && letters[i] != c
      invariant i <= |letters|
      invariant i + Find(letters[i..], c) == Find(letters, c)
      invariant forall j :: 0 <= j < i ==> letters[j] != c
    {
      assert letters[i..][1..] == letters[i + 1..];
      i := i + 1;
    }
    if i < |letters| {
      assert letters[i..][0] == letters[i];
    }
  }

  // What is passed on: nothing when the change comes from outside.
  function EventsOf(source: Option<string>, channel: string, rs: seq<Request>): seq<Event> {
    if source.None? then [] else LocalModes.Events(source.value, channel, rs)
  }

  // The stacker has been handed the requests, from the state and the sent lines it had.
  ghost predicate Sent(stack: ModeStack.Stacker, before: Stack, lines: seq<Line>, source: Option<string>, channel: string, rs: seq<Request>)
    reads stack
    requires stack.Valid() && |before.batch.ext| == |stack.t.ext|
  {
    var es := EventsOf(source, channel, rs);
    && stack.State() == Steps(stack.t, stack.mapping, before, es).0
    && stack.sent == lines + Steps(stack.t, stack.mapping, before, es).1
  }

  ghost predicate CanSend(t: Tables, source: Option<string>, rs: seq<Request>) {
    source.Some? ==> (rs != [] ==> |source.value| < HOSTLEN) && forall r <- rs :: ValidRequest(t, r) && ShortValue(r)
  }

  lemma SentOne(t: Tables, m: Mapping, st: Stack, source: string, channel: string, r: Request)
    requires t.Valid() && |st.batch.ext| == |t.ext|
    ensures Steps(t, m, st, LocalModes.Events(source, channel, [r])) == Step(t, m, st, Stacked(source, channel, r))
    ensures Steps(t, m, st, LocalModes.Events(source, channel, [])) == (st, [])
  {
    var es := LocalModes.Events(source, channel, [r]);
    assert es[..0] == [] && Steps(t, m, st, es[..0]) == (st, []);
    assert [] + Step(t, m, st, es[0]).1 == Step(t, m, st, es[0]).1;
  }

  // if (source) modestack_mode_...()
  method PassOn(stack: ModeStack.Stacker, source: Option<string>, channel: string, r: Request)
    requires stack.Valid() && CanSend(stack.t, source, [r])
    modifies stack
    ensures stack.Valid()
    ensures Sent(stack, old(stack.State()), old(stack.sent), source, channel, [r])
  {
    if source.None? {
      return;
    }
    assert r in [r];
    SentOne(stack.t, stack.mapping, stack.State(), source.value, channel, r);
    match r {
      case Simple(dir, flags) => stack.ModeSimple(source.value, channel, dir, flags);
      case Limit(dir, n) => stack.ModeLimit(source.value, channel, dir, n);
      case Ext(dir, i, v) => stack.ModeExt(source.value, channel, dir, i, v);
      case Param(dir, kind, v) => stack.ModeParam(source.value, channel, dir, kind, v);
    }
  }

  // What one letter asks the stacker for.
  function IssuedBy(t: Tables, net: Network, local: bool, c: char, parv: seq<string>, ch: ChanState, parpos: nat, dir: Dir): seq<Request>
    requires t.Valid() && |ch.ext| == |t.ext|
  {
    StepLetter(t, net, local, c, parv, Cursor(ch, parpos, dir, [])).issued
  }

  // The letter has been read: the channel, the parameter position and what was passed on are right.
  twostate predicate LetterDone(chan: Channel, stack: ModeStack.Stacker, source: Option<string>, parpos: nat, s: Cursor)
    reads chan, stack
    requires stack.Valid() && old(stack.Valid())
  {
    && chan.State() == s.chan && parpos == s.parpos
    && Sent(stack, old(stack.State()), old(stack.sent), source, chan.name, s.issued)
  }

  // A mode of mode_list.
  method SimpleLetter(source: Option<string>, chan: Channel, stack: ModeStack.Stacker, net: Network, c: char, parv: seq<string>,
         parpos: nat, whatt: Dir)
    returns (parpos': nat)
    requires stack.Valid() && |chan.extmodes| == |stack.t.ext|
    requires CanSend(stack.t, source, IssuedBy(stack.t, net, source.Some?, c, parv, chan.State(), parpos, whatt))
    requires c in stack.t.simple && c != '+' && c != '-'
    modifies chan, stack
    ensures stack.Valid()
    ensures LetterDone(chan, stack, source, parpos', StepLetter(stack.t, net, source.Some?, c, parv, Cursor(old(chan.State()), parpos, whatt, [])))
  {
    parpos' := parpos;
    var i := LetterAt(stack.t.simple, c);
    var v := stack.t.simpleValue[i];
    chan.modes := if whatt == Add then chan.modes + {v} else chan.modes - {v};
    PassOn(stack, source, chan.name, Simple(whatt, {v}));
  }

  // A mode of ignore_mode_list.
  method ExtLetter(source: Option<string>, chan: Channel, stack: ModeStack.Stacker, net: Network, c: char, parv: seq<string>,
         parpos: nat, whatt: Dir)
    returns (parpos': nat)
    requires stack.Valid() && |chan.extmodes| == |stack.t.ext|
    requires CanSend(stack.t, source, IssuedBy(stack.t, net, source.Some?, c, parv, chan.State(), parpos, whatt))
    requires c in stack.t.ext && c !in stack.t.simple && c != '+' && c != '-'
    modifies chan, stack
    ensures stack.Valid()
    ensures LetterDone(chan, stack, source, parpos', StepLetter(stack.t, net, source.Some?, c, parv, Cursor(old(chan.State()), parpos, whatt, [])))
  {
    parpos' := parpos;
    NothingSent(stack);
    var i := LetterAt(stack.t.ext, c);
    if whatt == Add {
      parpos' := parpos' + 1;
      if parpos' >= |parv| || (source.Some? && !net.check(i, parv[parpos'])) {
        return;
      }
      chan.extmodes := chan.extmodes[i := Some(parv[parpos'])];
      PassOn(stack, source, chan.name, Ext(Add, i, parv[parpos']));
    } else {
      chan.extmodes := chan.extmodes[i := None];
      PassOn(stack, source, chan.name, Ext(Del, i, ""));
    }
  }

  // The limit.
  method LimitLetter(source: Option<string>, chan: Channel, stack: ModeStack.Stacker, net: Network, c: char, parv: seq<string>,
         parpos: nat, whatt: Dir)
    returns (parpos': nat)
    requires stack.Valid() && |chan.extmodes| == |stack.t.ext|
    requires CanSend(stack.t, source, IssuedBy(stack.t, net, source.Some?, c, parv, chan.State(), parpos, whatt))
    requires c == 'l'
    modifies chan, stack
    ensures stack.Valid()
    ensures LetterDone(chan, stack, source, parpos', StepLetter(stack.t, net, source.Some?, c, parv, Cursor(old(chan.State()), parpos, whatt, [])))
  {
    parpos' := parpos;
    NothingSent(stack);
    LkApart(stack.t);
    if whatt == Add {
      parpos' := parpos' + 1;
      if parpos' >= |parv| {
        return;
      }
      chan.modes := chan.modes + {CMODE_LIMIT};
      chan.limit := ReadLimit(parv[parpos']);
      PassOn(stack, source, chan.name, Limit(Add, chan.limit));
    } else {
      chan.modes := chan.modes - {CMODE_LIMIT};
      chan.limit := 0;
      PassOn(stack, source, chan.name, Limit(Del, 0));
    }
  }

  // The key; a removal eats its parameter too.
  method KeyLetter(source: Option<string>, chan: Channel, stack: ModeStack.Stacker, net: Network, c: char, parv: seq<string>,
         parpos: nat, whatt: Dir)
    returns (parpos': nat)
    requires stack.Valid() && |chan.extmodes| == |stack.t.ext|
    requires CanSend(stack.t, source, IssuedBy(stack.t, net, source.Some?, c, parv, chan.State(), parpos, whatt))
    requires c == 'k'
    modifies chan, stack
    ensures stack.Valid()
    ensures LetterDone(chan, stack, source, parpos', StepLetter(stack.t, net, source.Some?, c, parv, Cursor(old(chan.State()), parpos, whatt, [])))
  {
    parpos' := parpos + 1;
    NothingSent(stack);
    LkApart(stack.t);
    if whatt == Add {
      if parpos' >= |parv| {
        return;
      }
      chan.modes := chan.modes + {CMODE_KEY};
      chan.key := Some(parv[parpos']);
      PassOn(stack, source, chan.name, Param(Add, 'k', parv[parpos']));
    } else {
      chan.modes := chan.modes - {CMODE_KEY};
      PassOn(stack, source, chan.name, Param(Del, 'k', if chan.key.Some? then chan.key.value else "*"));
      chan.key := None;
    }
  }

  // A ban-like mode.
  method BanLetter(source: Option<string>, chan: Channel, stack: ModeStack.Stacker, net: Network, c: char, parv: seq<string>,
         parpos: nat, whatt: Dir)
    returns (parpos': nat)
    requires stack.Valid() && |chan.extmodes| == |stack.t.ext|
    requires CanSend(stack.t, source, IssuedBy(stack.t, net, source.Some?, c, parv, chan.State(), parpos, whatt))
    requires c in stack.t.banLike
    modifies chan, stack
    ensures stack.Valid()
    ensures LetterDone(chan, stack, source, parpos', StepLetter(stack.t, net, source.Some?, c, parv, Cursor(old(chan.State()), parpos, whatt, [])))
  {
    parpos' := parpos + 1;
    NothingSent(stack);
    BanApart(stack.t, c);
    if parpos' >= |parv| {
      return;
    }
    if whatt == Add {
      chan.BanAdd(net.mapping, parv[parpos'], c);
      PassOn(stack, source, chan.name, Param(Add, c, parv[parpos']));
    } else {
      chan.BanDelete(net.mapping, parv[parpos'], c);
      PassOn(stack, source, chan.name, Param(Del, c, parv[parpos']));
    }
  }

  lemma StatusStep(t: Tables, net: Network, local: bool, c: char, parv: seq<string>, s: Cursor)
    requires t.Valid() && c in t.status && |s.chan.ext| == |t.ext|
    ensures var next := s.(parpos := s.parpos + 1);
      StepLetter(t, net, local, c, parv, s) ==
      if next.parpos >= |parv| then next
      else
        var u := net.UserFind(parv[next.parpos]);
        if u.None? || u.value !in s.chan.members then next
        else
          var d := if s.dir == Add then Add else Del;
          var name := if u.value in net.clientName then net.clientName[u.value] else "";
          next.Do(SetStatus(net, s.chan, d, t.statusValue[Find(t.status, c)], parv[next.parpos]), Param(d, c, name))
  {
    StatusApart(t, c);
  }

  // A status mode of a member.
  method StatusLetter(source: Option<string>, chan: Channel, stack: ModeStack.Stacker, net: Network, c: char, parv: seq<string>,
         parpos: nat, whatt: Dir)
    returns (parpos': nat)
    requires stack.Valid() && |chan.extmodes| == |stack.t.ext|
    requires CanSend(stack.t, source, IssuedBy(stack.t, net, source.Some?, c, parv, chan.State(), parpos, whatt))
    requires c in stack.t.status
    modifies chan, stack
    ensures stack.Valid()
    ensures LetterDone(chan, stack, source, parpos', StepLetter(stack.t, net, source.Some?, c, parv, Cursor(old(chan.State()), parpos, whatt, [])))
  {
    hide StepLetter, Step, Steps, CanSend;
    parpos' := parpos + 1;
    NothingSent(stack);
    StatusStep(stack.t, net, source.Some?, c, parv, Cursor(chan.State(), parpos, whatt, []));
    var i := LetterAt(stack.t.status, c);
    if parpos' >= |parv| {
      return;
    }
    var target := net.UserFind(parv[parpos']);
    if target.None? || target.value !in chan.members {
      return;
    }
    var name := if target.value in net.clientName then net.clientName[target.value] else "";
    var was := chan.members[target.value];
    ghost var none: seq<Request> := [];
    assert none + [Param(if whatt == Add then Add else Del, c, name)] == [Param(if whatt == Add then Add else Del, c, name)];
    if whatt == Add {
      chan.members := chan.members[target.value := was + {stack.t.statusValue[i]}];
      PassOn(stack, source, chan.name, Param(Add, c, name));
    } else {
      PassOn(stack, source, chan.name, Param(Del, c, name));
      chan.members := chan.members[target.value := was - {stack.t.statusValue[i]}];
    }
  }

  lemma NothingSent(stack: ModeStack.Stacker)
    requires stack.Valid()
    ensures Steps(stack.t, stack.mapping, stack.State(), []) == (stack.State(), [])
  {
  }

  lemma LkApart(t: Tables)
    requires t.Valid()
    ensures forall c | c == 'l' || c == 'k' :: c !in t.simple && c !in t.ext
  {
    assert 'k' in "lk" && 'l' in "lk";
  }

  lemma BanApart(t: Tables, c: char)
    requires t.Valid() && c in t.banLike
    ensures c !in t.simple && c !in t.ext && c != 'l' && c != 'k' && c != '+' && c != '-'
  {
    assert 'k' in "lk" && 'l' in "lk" && '+' in "+- " && '-' in "+- ";
  }

  lemma StatusApart(t: Tables, c: char)
    requires t.Valid() && c in t.status
    ensures c !in t.simple && c !in t.ext && c != 'l' && c != 'k' && c !in t.banLike && c != '+' && c != '-'
  {
    assert 'k' in "lk" && 'l' in "lk" && '+' in "+- " && '-' in "+- ";
  }

  // The body of the loop over the mode letters.
  method Letter(source: Option<string>, chan: Channel, stack: ModeStack.Stacker, net: Network, c: char, parv: seq<string>,
         parpos: nat, whatt: Dir)
    returns (parpos': nat, whatt': Dir)
    requires stack.Valid() && |chan.extmodes| == |stack.t.ext|
    requires CanSend(stack.t, source, IssuedBy(stack.t, net, source.Some?, c, parv, chan.State(), parpos, whatt))
    modifies chan, stack
    ensures stack.Valid()
    ensures LetterDone(chan, stack, source, parpos', StepLetter(stack.t, net, source.Some?, c, parv, Cursor(old(chan.State()), parpos, whatt, [])))
    ensures whatt' == StepLetter(stack.t, net, source.Some?, c, parv, Cursor(old(chan.State()), parpos, whatt, [])).dir
  {
    parpos', whatt' := parpos, whatt;
    NothingSent(stack);
    if c == '+' {
      whatt' := Add;
    } else if c == '-' {
      whatt' := Del;
    } else if c in stack.t.simple {
      parpos' := SimpleLetter(source, chan, stack, net, c, parv, parpos, whatt);
    } else if c in stack.t.ext {
      parpos' := ExtLetter(source, chan, stack, net, c, parv, parpos, whatt);
    } else if c == 'l' {
      parpos' := LimitLetter(source, chan, stack, net, c, parv, parpos, whatt);
    } else if c == 'k' {
      parpos' := KeyLetter(source, chan, stack, net, c, parv, parpos, whatt);
    } else if c in stack.t.banLike {
      parpos' := BanLetter(source, chan, stack, net, c, parv, parpos, whatt);
    } else if c in stack.t.status {
      parpos' := StatusLetter(source, chan, stack, net, c, parv, parpos, whatt);
    }
  }

  lemma IssuedGrows(t: Tables, net: Network, local: bool, c: char, parv: seq<string>, s: Cursor)
    requires t.Valid() && |s.chan.ext| == |t.ext|
    ensures var s0 := StepLetter(t, net, local, c, parv, s.(issued := []));
            StepLetter(t, net, local, c, parv, s) == s0.(issued := s.issued + s0.issued)
  {
    if c in t.simple {
    } else if c in t.ext {
    } else if c == 'l' {
    } else if c == 'k' {
    } else if c in t.banLike {
    } else {
    }
  }

  lemma {:induction false} IssuedPrefix(t: Tables, net: Network, local: bool, letters: string, parv: seq<string>, s: Cursor)
    requires t.Valid() && |s.chan.ext| == |t.ext|
    ensures s.issued <= Interp(t, net, local, letters, parv, s).issued
  {
    if letters != "" {
      IssuedGrows(t, net, local, letters[0], parv, s);
      IssuedPrefix(t, net, local, letters[1..], parv, StepLetter(t, net, local, letters[0], parv, s));
    }
  }

  // What the next letter issues is part of what the whole string issues.
  lemma CanSendNext(t: Tables, net: Network, source: Option<string>, letters: string, parv: seq<string>, s: Cursor)
    requires t.Valid() && |s.chan.ext| == |t.ext| && letters != ""
    requires CanSend(t, source, Interp(t, net, source.Some?, letters, parv, s).issued)
    ensures CanSend(t, source, IssuedBy(t, net, source.Some?, letters[0], parv, s.chan, s.parpos, s.dir))
  {
    var s1 := StepLetter(t, net, source.Some?, letters[0], parv, s);
    IssuedGrows(t, net, source.Some?, letters[0], parv, s);
    IssuedPrefix(t, net, source.Some?, letters[1..], parv, s1);
    var all, now := Interp(t, net, source.Some?, letters, parv, s).issued, IssuedBy(t, net, source.Some?, letters[0], parv, s.chan, s.parpos, s.dir);
    forall r <- now ensures r in all {
      assert r in s1.issued;
    }
  }

  lemma EventsAppend(t: Tables, m: Mapping, st: Stack, source: Option<string>, channel: string, a: seq<Request>, b: seq<Request>)
    requires t.Valid() && |st.batch.ext| == |t.ext|
    ensures var mid := Steps(t, m, st, EventsOf(source, channel, a));
            && Steps(t, m, st, EventsOf(source, channel, a + b)).0 == Steps(t, m, mid.0, EventsOf(source, channel, b)).0
            && Steps(t, m, st, EventsOf(source, channel, a + b)).1 == mid.1 + Steps(t, m, mid.0, EventsOf(source, channel, b)).1
  {
    assert EventsOf(source, channel, a + b) == EventsOf(source, channel, a) + EventsOf(source, channel, b);
    StepsAppend(t, m, st, EventsOf(source, channel, a), EventsOf(source, channel, b));
  }

  // channel_mode(): the channel ends as the words of the line say, and if the change is made by one
  // of our own users the stacker has been given, in order, exactly the requests it issues.
  method ChannelMode(source: Option<string>, chan: Channel, stack: ModeStack.Stacker, net: Network, parv: seq<string>)
    requires stack.Valid() && |chan.extmodes| == |stack.t.ext|
    requires CanSend(stack.t, source, ReadModes(stack.t, net, source.Some?, parv, chan.State()).issued)
    modifies chan, stack
    ensures stack.Valid()
    ensures var s := ReadModes(stack.t, net, source.Some?, parv, old(chan.State()));
            && chan.State() == s.chan
            && Sent(stack, old(stack.State()), old(stack.sent), source, chan.name, s.issued)
    ensures ModeEffects.LineRead(stack.t, net, source.Some?, parv, old(chan.State()), chan.State())
  {
    hide StepLetter, Step, Steps, ModeEffects.LineRead, CanSend;
    ModeEffects.ModesRead(stack.t, net, source.Some?, parv, chan.State());
    NothingSent(stack);
    if |parv| == 0 || parv[0] == "" {
      return;
    }
    if parv[0][0] == '0' {
      return;
    }
    var t, letters := stack.t, parv[0];
    ghost var s := Cursor(chan.State(), 0, Nul, []);
    ghost var last := Interp(t, net, source.Some?, letters, parv, s);
    var pos, parpos, whatt := 0, 0, Nul;
    while pos < |letters|
      invariant pos <= |letters| && stack.Valid() && stack.t == t && |s.chan.ext| == |t.ext|
      invariant chan.State() == s.chan && parpos == s.parpos && whatt == s.dir
      invariant Interp(t, net, source.Some?, letters[pos..], parv, s) == last
      invariant Sent(stack, old(stack.State()), old(stack.sent), source, chan.name, s.issued)
    {
      var c := letters[pos];
      assert letters[pos..][0] == c && letters[pos..][1..] == letters[pos + 1..];
      CanSendNext(t, net, source, letters[pos..], parv, s);
      IssuedGrows(t, net, source.Some?, c, parv, s);
      ghost var now := IssuedBy(t, net, source.Some?, c, parv, s.chan, s.parpos, s.dir);
      EventsAppend(t, stack.mapping, old(stack.State()), source, chan.name, s.issued, now);
      parpos, whatt := Letter(source, chan, stack, net, c, parv, parpos, whatt);
      s := StepLetter(t, net, source.Some?, c, parv, s);
      pos := pos + 1;
    }
  }
}
