// A mode change made by one of our own users: it is carried out on our copy of the channel at once
// and passed on to the stacker. Our copy and the network's then agree, except where a simple mode
// stands before the first sign (libathemecore/cmode.c:86-357).
module LocalModes {
  import opened CaseMap
  import opened Text
  import opened ChannelModes
  import opened PendingModes
  import opened ModeLine
  import opened StackRuns

  // ---- the exact condition under which a mode string is faithful ----

  // The simple modes named before the first sign. Our copy loses them, but the stacker refuses the
  // direction and never sends the change.
  function Unsigned(t: Tables, letters: string): Flags
    requires |t.simpleValue| == |t.simple|
  {
    if letters == "" || letters[0] == '+' || letters[0] == '-' then {}
    else BitOf(t, letters[0]) + Unsigned(t, letters[1..])
  }

  // The simple modes named after it.
  function Signed(t: Tables, letters: string, seen: bool): Flags
    requires |t.simpleValue| == |t.simple|
  {
    if letters == "" then {}
    else if letters[0] == '+' || letters[0] == '-' then Signed(t, letters[1..], true)
    else (if seen then BitOf(t, letters[0]) else {}) + Signed(t, letters[1..], seen)
  }

  function BitOf(t: Tables, c: char): Flags
    requires |t.simpleValue| == |t.simple|
  {
    if c in t.simple then {t.simpleValue[Find(t.simple, c)]} else {}
  }

  // Whether the requests passed on say all that happened to our copy.
  predicate Faithful(t: Tables, parv: seq<string>, modes: Flags)
    requires |t.simpleValue| == |t.simple|
  {
    if parv == [] || parv[0] == "" || parv[0][0] == '0' then true
    else Unsigned(t, parv[0]) * modes <= Signed(t, parv[0], false)
  }

  // Our copy as it would be with the unsent removals put back.
  function PutBack(ch: ChanState, unsent: Flags): ChanState {
    ch.(modes := ch.modes + unsent)
  }

  function UnsentAfter(t: Tables, c: char, s: Cursor, unsent: Flags): Flags
    requires |t.simpleValue| == |t.simple|
  {
    if s.dir == Nul then unsent + BitOf(t, c) * s.chan.modes else unsent - BitOf(t, c)
  }

  lemma BitsListed(t: Tables, c: char)
    requires t.Valid()
    ensures BitOf(t, c) <= t.Listed()
    ensures CMODE_KEY !in t.Listed() && CMODE_LIMIT !in t.Listed()
  {
  }

  // Putting back simple modes commutes with every change that is not a simple mode.
  lemma PutBackCommutes(t: Tables, ch: ChanState, unsent: Flags)
    requires t.Valid() && unsent <= t.Listed()
    ensures forall n :: SetLimit(PutBack(ch, unsent), n) == PutBack(SetLimit(ch, n), unsent)
    ensures forall k :: SetKey(PutBack(ch, unsent), k) == PutBack(SetKey(ch, k), unsent)
  {
    BitsListed(t, ' ');
    forall n ensures SetLimit(PutBack(ch, unsent), n) == PutBack(SetLimit(ch, n), unsent) {
      assert SetLimit(PutBack(ch, unsent), n).modes == PutBack(SetLimit(ch, n), unsent).modes;
    }
    forall k ensures SetKey(PutBack(ch, unsent), k) == PutBack(SetKey(ch, k), unsent) {
      assert SetKey(PutBack(ch, unsent), k).modes == PutBack(SetKey(ch, k), unsent).modes;
    }
  }

  // A letter of no simple mode: what is passed on, if anything, is what was done.
  lemma OtherIssued(t: Tables, net: Network, c: char, parv: seq<string>, s: Cursor, unsent: Flags)
    requires t.Valid() && net.Valid() && |s.chan.ext| == |t.ext| && c !in t.simple
    requires unsent <= t.Listed()
    ensures var s' := StepLetter(t, net, true, c, parv, s);
            if |s'.issued| == |s.issued| then s'.chan == s.chan && s'.issued == s.issued
            else && |s'.issued| == |s.issued| + 1 && s'.issued[..|s.issued|] == s.issued
                 && Apply(t, net, s'.issued[|s.issued|], PutBack(s.chan, unsent)) == PutBack(s'.chan, unsent)
  {
    assert 'k' in "lk" && 'l' in "lk";
    PutBackCommutes(t, s.chan, unsent);
  }

  lemma OtherModes(t: Tables, net: Network, c: char, parv: seq<string>, s: Cursor)
    requires t.Valid() && |s.chan.ext| == |t.ext| && c !in t.simple
    ensures StepLetter(t, net, true, c, parv, s).chan.modes - {CMODE_KEY, CMODE_LIMIT} == s.chan.modes - {CMODE_KEY, CMODE_LIMIT}
  {
  }

  // A simple mode: passed on with the direction as it stands.
  lemma SimpleIssued(t: Tables, net: Network, c: char, parv: seq<string>, s: Cursor)
    requires t.Valid() && |s.chan.ext| == |t.ext| && c in t.simple
    ensures StepLetter(t, net, true, c, parv, s) == s.Do(SetSimple(s.chan, s.dir, BitOf(t, c)), Simple(s.dir, BitOf(t, c)))
  {
    assert '+' in "+- " && '-' in "+- ";
  }

  lemma SimpleDone(t: Tables, net: Network, c: char, s: Cursor, unsent: Flags)
    requires t.Valid() && c in t.simple && unsent !! s.chan.modes
    ensures Apply(t, net, Simple(s.dir, BitOf(t, c)), PutBack(s.chan, unsent))
         == PutBack(SetSimple(s.chan, s.dir, BitOf(t, c)), UnsentAfter(t, c, s, unsent))
    ensures UnsentAfter(t, c, s, unsent) !! SetSimple(s.chan, s.dir, BitOf(t, c)).modes
  {
    BitsListed(t, c);
    assert BitOf(t, c) * t.Listed() == BitOf(t, c);
    assert Apply(t, net, Simple(s.dir, BitOf(t, c)), PutBack(s.chan, unsent)).modes
        == PutBack(SetSimple(s.chan, s.dir, BitOf(t, c)), UnsentAfter(t, c, s, unsent)).modes;
  }

  // The requests passed on so far, carried out on the channel as it was, give our copy with the
  // unsent removals put back.
  ghost predicate Tracks(t: Tables, net: Network, s: Cursor, unsent: Flags, ch0: ChanState) {
    && t.Valid() && net.Valid() && |s.chan.ext| == |t.ext|
    && unsent !! s.chan.modes && unsent <= t.Listed()
    && ApplyAll(t, net, s.issued, ch0) == PutBack(s.chan, unsent)
  }

  lemma StepTracks(t: Tables, net: Network, c: char, parv: seq<string>, s: Cursor, unsent: Flags, ch0: ChanState)
    requires Tracks(t, net, s, unsent, ch0)
    ensures Tracks(t, net, StepLetter(t, net, true, c, parv, s), UnsentAfter(t, c, s, unsent), ch0)
  {
    var s' := StepLetter(t, net, true, c, parv, s);
    BitsListed(t, c);
    if c in t.simple {
      SimpleIssued(t, net, c, parv, s);
      SimpleDone(t, net, c, s, unsent);
      assert s'.issued[..|s.issued|] == s.issued;
    } else {
      assert UnsentAfter(t, c, s, unsent) == unsent;
      OtherIssued(t, net, c, parv, s, unsent);
      OtherModes(t, net, c, parv, s);
    }
  }

  lemma {:induction false} UnsignedListed(t: Tables, letters: string)
    requires t.Valid()
    ensures Unsigned(t, letters) <= t.Listed()
  {
    if letters != "" {
      BitsListed(t, letters[0]);
      UnsignedListed(t, letters[1..]);
    }
  }

  // What is unsent once the letters are read.
  function UnsentAtEnd(t: Tables, letters: string, s: Cursor, unsent: Flags): Flags
    requires |t.simpleValue| == |t.simple|
  {
    if s.dir == Nul then (unsent + Unsigned(t, letters) * s.chan.modes) - Signed(t, letters, false)
    else unsent - Signed(t, letters, true)
  }

  lemma NulStep(t: Tables, net: Network, c: char, parv: seq<string>, s: Cursor)
    requires t.Valid() && |s.chan.ext| == |t.ext| && s.dir == Nul && c != '+' && c != '-'
    ensures StepLetter(t, net, true, c, parv, s).dir == Nul
    ensures (StepLetter(t, net, true, c, parv, s).chan.modes - {CMODE_KEY, CMODE_LIMIT})
         == (s.chan.modes - BitOf(t, c)) - {CMODE_KEY, CMODE_LIMIT}
  {
    if c in t.simple {
      SimpleIssued(t, net, c, parv, s);
    } else {
      OtherModes(t, net, c, parv, s);
    }
  }

  lemma DirStep(t: Tables, net: Network, c: char, parv: seq<string>, s: Cursor)
    requires t.Valid() && |s.chan.ext| == |t.ext|
    ensures c == '+' || c == '-' ==> BitOf(t, c) == {} && StepLetter(t, net, true, c, parv, s) == s.(dir := if c == '+' then Add else Del)
    ensures c != '+' && c != '-' ==> StepLetter(t, net, true, c, parv, s).dir == s.dir
  {
    assert '+' in "+- " && '-' in "+- ";
  }

  lemma UnsentStep(t: Tables, net: Network, letters: string, parv: seq<string>, s: Cursor, unsent: Flags)
    requires t.Valid() && |s.chan.ext| == |t.ext| && letters != ""
    ensures var s1 := StepLetter(t, net, true, letters[0], parv, s);
            UnsentAtEnd(t, letters[1..], s1, UnsentAfter(t, letters[0], s, unsent)) == UnsentAtEnd(t, letters, s, unsent)
  {
    var c, rest := letters[0], letters[1..];
    var s1 := StepLetter(t, net, true, c, parv, s);
    DirStep(t, net, c, parv, s);
    if c != '+' && c != '-' && s.dir == Nul {
      NulStep(t, net, c, parv, s);
      BitsListed(t, c);
      UnsignedListed(t, rest);
      assert Unsigned(t, rest) * s1.chan.modes == Unsigned(t, rest) * (s.chan.modes - BitOf(t, c));
    }
  }

  lemma {:induction false} InterpTracks(t: Tables, net: Network, letters: string, parv: seq<string>, s: Cursor, unsent: Flags, ch0: ChanState)
    requires Tracks(t, net, s, unsent, ch0)
    ensures Tracks(t, net, Interp(t, net, true, letters, parv, s), UnsentAtEnd(t, letters, s, unsent), ch0)
  {
    if letters == "" {
      assert UnsentAtEnd(t, letters, s, unsent) == unsent;
    } else {
      StepTracks(t, net, letters[0], parv, s, unsent, ch0);
      UnsentStep(t, net, letters, parv, s, unsent);
      InterpTracks(t, net, letters[1..], parv, StepLetter(t, net, true, letters[0], parv, s), UnsentAfter(t, letters[0], s, unsent), ch0);
    }
  }

  // The requests that channel_mode() passes on say all that happened to our copy exactly when the
  // mode string is faithful for the modes the channel had.
  lemma IssuedSaysAll(t: Tables, net: Network, parv: seq<string>, ch: ChanState)
    requires t.Valid() && net.Valid() && |ch.ext| == |t.ext|
    ensures var s := ReadModes(t, net, true, parv, ch);
            ApplyAll(t, net, s.issued, ch) == s.chan <==> Faithful(t, parv, ch.modes)
  {
    if !(parv == [] || parv[0] == "" || parv[0][0] == '0') {
      var start := Cursor(ch, 0, Nul, []);
      assert PutBack(ch, {}).modes == ch.modes;
      InterpTracks(t, net, parv[0], parv, start, {}, ch);
      var s := ReadModes(t, net, true, parv, ch);
      var unsent := UnsentAtEnd(t, parv[0], start, {});
      assert unsent == Unsigned(t, parv[0]) * ch.modes - Signed(t, parv[0], false);
      assert PutBack(s.chan, unsent) == s.chan <==> unsent == {} by {
        if unsent != {} {
          var b :| b in unsent;
          assert b in PutBack(s.chan, unsent).modes && b !in s.chan.modes;
        } else {
          assert PutBack(s.chan, {}).modes == s.chan.modes;
        }
      }
    }
  }

  // A string that starts with a sign is faithful whatever the channel's modes are.
  lemma SignedIsFaithful(t: Tables, parv: seq<string>, modes: Flags)
    requires |t.simpleValue| == |t.simple|
    requires parv != [] && parv[0] != "" && (parv[0][0] == '+' || parv[0][0] == '-')
    ensures Faithful(t, parv, modes)
  {
  }

  // A bare "i" on a +i channel: our copy drops the mode and the network never hears of it.
  lemma BareLetterIsLost(t: Tables, net: Network, ch: ChanState, i: nat)
    requires t.Valid() && net.Valid() && |ch.ext| == |t.ext|
    requires i < |t.simple| && t.simpleValue[i] in ch.modes && t.simple[i] != '0'
    ensures var s := ReadModes(t, net, true, [[t.simple[i]]], ch);
            t.simpleValue[i] !in s.chan.modes && ApplyAll(t, net, s.issued, ch) == ch
  {
    var c := t.simple[i];
    FindAt(t.simple, i);
    assert '+' in "+- " && '-' in "+- ";
    assert [c][1..] == "";
    var s := StepLetter(t, net, true, c, [[c]], Cursor(ch, 0, Nul, []));
    assert Interp(t, net, true, [c][1..], [[c]], s) == s;
    assert s.issued == [Simple(Nul, {t.simpleValue[i]})];
    assert s.issued[..0] == [];
    assert ApplyAll(t, net, [], ch) == ch;
  }

  // ---- services and network stay in step ----

  datatype Command = Command(source: string, channel: string, parv: seq<string>)

  type World = map<string, ChanState>

  ghost predicate WorldFits(t: Tables, w: World) {
    forall c <- w :: |w[c].ext| == |t.ext|
  }

  function Events(source: string, channel: string, rs: seq<Request>): (es: seq<Event>)
    ensures |es| == |rs|
    ensures forall i :: 0 <= i < |es| ==> es[i] == Stacked(source, channel, rs[i])
  {
    seq(|rs|, i requires 0 <= i < |rs| => Stacked(source, channel, rs[i]))
  }

  function Issued(t: Tables, net: Network, w: World, cmd: Command): seq<Event>
    requires t.Valid() && WorldFits(t, w) && cmd.channel in w
  {
    Events(cmd.source, cmd.channel, ReadModes(t, net, true, cmd.parv, w[cmd.channel]).issued)
  }

  function Changed(t: Tables, net: Network, w: World, cmd: Command): (w': World)
    requires t.Valid() && WorldFits(t, w) && cmd.channel in w
    ensures w'.Keys == w.Keys && WorldFits(t, w')
  {
    w[cmd.channel := ReadModes(t, net, true, cmd.parv, w[cmd.channel]).chan]
  }

  // The command is faithful and every value it names can be sent.
  ghost predicate Sendable(t: Tables, net: Network, w: World, cmd: Command)
    requires t.Valid() && WorldFits(t, w)
  {
    && cmd.channel in w && Faithful(t, cmd.parv, w[cmd.channel].modes)
    && forall e <- Issued(t, net, w, cmd) :: ValidEvent(t, e)
  }

  ghost predicate AllSendable(t: Tables, net: Network, w: World, cmds: seq<Command>)
    requires t.Valid() && WorldFits(t, w)
  {
    cmds == [] || (Sendable(t, net, w, cmds[0]) && AllSendable(t, net, Changed(t, net, w, cmds[0]), cmds[1..]))
  }

  // Our copies of all channels after the commands.
  ghost function OurWorld(t: Tables, net: Network, w: World, cmds: seq<Command>): (w': World)
    requires t.Valid() && WorldFits(t, w) && AllSendable(t, net, w, cmds)
    ensures w'.Keys == w.Keys && WorldFits(t, w')
    decreases |cmds|
  {
    if cmds == [] then w else OurWorld(t, net, Changed(t, net, w, cmds[0]), cmds[1..])
  }

  // What the commands hand to the stacker.
  ghost function AllIssued(t: Tables, net: Network, w: World, cmds: seq<Command>): seq<Event>
    requires t.Valid() && WorldFits(t, w) && AllSendable(t, net, w, cmds)
    decreases |cmds|
  {
    if cmds == [] then [] else Issued(t, net, w, cmds[0]) + AllIssued(t, net, Changed(t, net, w, cmds[0]), cmds[1..])
  }

  lemma {:induction false} WantedEvents(t: Tables, net: Network, source: string, channel: string, rs: seq<Request>, c: string, ch: ChanState)
    requires t.Valid()
    ensures Wanted(t, net, Events(source, channel, rs), c, ch) == if c == channel then ApplyAll(t, net, rs, ch) else ch
    decreases |rs|
  {
    if rs != [] {
      var n := |rs| - 1;
      assert Events(source, channel, rs)[..n] == Events(source, channel, rs[..n]);
      WantedEvents(t, net, source, channel, rs[..n], c, ch);
    }
  }

  lemma {:induction false} WantedAppend(t: Tables, net: Network, a: seq<Event>, b: seq<Event>, c: string, ch: ChanState)
    requires t.Valid()
    ensures Wanted(t, net, a + b, c, ch) == Wanted(t, net, b, c, Wanted(t, net, a, c, ch))
    decreases |b|
  {
    if b == [] {
      assert a + b == a;
    } else {
      hide Carry;
      var n := |b| - 1;
      assert (a + b)[..|a| + n] == a + b[..n];
      WantedAppend(t, net, a, b[..n], c, ch);
    }
  }

  lemma {:induction false} AllIssuedWanted(t: Tables, net: Network, w: World, cmds: seq<Command>, c: string)
    requires t.Valid() && net.Valid() && WorldFits(t, w) && AllSendable(t, net, w, cmds) && c in w
    ensures Wanted(t, net, AllIssued(t, net, w, cmds), c, w[c]) == OurWorld(t, net, w, cmds)[c]
    ensures forall e <- AllIssued(t, net, w, cmds) :: ValidEvent(t, e)
    decreases |cmds|
  {
    if cmds != [] {
      var cmd, w1 := cmds[0], Changed(t, net, w, cmds[0]);
      IssuedSaysAll(t, net, cmd.parv, w[cmd.channel]);
      WantedEvents(t, net, cmd.source, cmd.channel, ReadModes(t, net, true, cmd.parv, w[cmd.channel]).issued, c, w[c]);
      WantedAppend(t, net, Issued(t, net, w, cmd), AllIssued(t, net, w1, cmds[1..]), c, w[c]);
      AllIssuedWanted(t, net, w1, cmds[1..], c);
    }
  }

  // After any run of mode changes by our own users on any channels, and a flush, the network that
  // started from the same channels holds the same modes, limit, key, ext modes, bans and statuses.
  lemma NetworkFollows(t: Tables, net: Network, m: Mapping, w: World, cmds: seq<Command>, c: string)
    requires t.Valid() && net.Valid() && WorldFits(t, w) && AllSendable(t, net, w, cmds) && c in w
    ensures ReadLines(t, net, Steps(t, m, Start(t), AllIssued(t, net, w, cmds) + [FlushNow]).1, c, w[c])
         == OurWorld(t, net, w, cmds)[c]
  {
    AllIssuedWanted(t, net, w, cmds, c);
    BatchingIsTransparent(t, net, m, AllIssued(t, net, w, cmds), c, w[c]);
  }
}
