// Runs of MODE lines of our own users: the channels in memory, the stacker that is handed what they
// change, and the network that reads the lines it prints (libathemecore/cmode.c:86-688).
module ServicesRun {
  import opened Basics
  import opened CaseMap
  import opened ChannelModes
  import opened StackRuns
  import opened LocalModes
  import ModeStack
  import CM = ChannelMode

  // The channels by name.
  ghost predicate Fits(t: Tables, chans: map<string, CM.Channel>)
    reads chans.Values
  {
    forall c <- chans :: chans[c].name == c && |chans[c].extmodes| == |t.ext|
  }

  ghost function WorldOf(chans: map<string, CM.Channel>): World
    reads chans.Values
  {
    map c | c in chans :: chans[c].State()
  }

  // What is done so far of the commands and what is left of them make up the whole run.
  ghost predicate Halfway(t: Tables, net: Network, m: Mapping, w0: World, cmds: seq<Command>,
                          w: World, left: seq<Command>, done: seq<Event>, st: Stack, sent: seq<Line>)
    requires t.Valid() && WorldFits(t, w0) && AllSendable(t, net, w0, cmds)
  {
    && WorldFits(t, w) && w.Keys == w0.Keys && AllSendable(t, net, w, left)
    && OurWorld(t, net, w, left) == OurWorld(t, net, w0, cmds)
    && done + AllIssued(t, net, w, left) == AllIssued(t, net, w0, cmds)
    && Steps(t, m, Start(t), done) == (st, sent)
  }

  lemma Begun(t: Tables, net: Network, m: Mapping, w0: World, cmds: seq<Command>)
    requires t.Valid() && WorldFits(t, w0) && AllSendable(t, net, w0, cmds)
    ensures Halfway(t, net, m, w0, cmds, w0, cmds, [], Start(t), [])
  {
    assert [] + AllIssued(t, net, w0, cmds) == AllIssued(t, net, w0, cmds);
  }

  lemma NextCommand(t: Tables, net: Network, m: Mapping, w0: World, cmds: seq<Command>, w: World, left: seq<Command>,
                    done: seq<Event>, st: Stack, sent: seq<Line>)
    requires t.Valid() && WorldFits(t, w0) && AllSendable(t, net, w0, cmds) && left != []
    requires Halfway(t, net, m, w0, cmds, w, left, done, st, sent)
    ensures WorldFits(t, w) && left[0].channel in w
    ensures CM.CanSend(t, Some(left[0].source), ReadModes(t, net, true, left[0].parv, w[left[0].channel]).issued)
  {
    hide Steps, OurWorld, AllIssued;
    var cmd := left[0];
    var es, rs := Issued(t, net, w, cmd), ReadModes(t, net, true, cmd.parv, w[cmd.channel]).issued;
    forall r <- rs ensures |cmd.source| < HOSTLEN && ValidRequest(t, r) && ShortValue(r) {
      var i :| 0 <= i < |rs| && rs[i] == r;
      assert ValidEvent(t, es[i]);
    }
    assert rs != [] ==> rs[0] in rs;
  }

  lemma LeftUnfolds(t: Tables, net: Network, w: World, left: seq<Command>)
    requires t.Valid() && WorldFits(t, w) && AllSendable(t, net, w, left) && left != []
    ensures left[0].channel in w && AllSendable(t, net, Changed(t, net, w, left[0]), left[1..])
    ensures OurWorld(t, net, w, left) == OurWorld(t, net, Changed(t, net, w, left[0]), left[1..])
    ensures AllIssued(t, net, w, left) == Issued(t, net, w, left[0]) + AllIssued(t, net, Changed(t, net, w, left[0]), left[1..])
  {
  }

  lemma Regroup(a: seq<Event>, b: seq<Event>, c: seq<Event>)
    ensures (a + b) + c == a + (b + c)
  {
  }

  lemma OneMoreCommand(t: Tables, net: Network, m: Mapping, w0: World, cmds: seq<Command>, w: World, left: seq<Command>,
                       done: seq<Event>, st: Stack, sent: seq<Line>)
    requires t.Valid() && WorldFits(t, w0) && AllSendable(t, net, w0, cmds) && left != []
    requires Halfway(t, net, m, w0, cmds, w, left, done, st, sent)
    ensures |st.batch.ext| == |t.ext| && left[0].channel in w
    ensures var es := Issued(t, net, w, left[0]); var (st1, more) := Steps(t, m, st, es);
      Halfway(t, net, m, w0, cmds, Changed(t, net, w, left[0]), left[1..], done + es, st1, sent + more)
  {
    LeftUnfolds(t, net, w, left);
    hide Steps, AllSendable, OurWorld, AllIssued, Issued;
    var es, w1 := Issued(t, net, w, left[0]), Changed(t, net, w, left[0]);
    StepsAppend(t, m, Start(t), done, es);
    Regroup(done, es, AllIssued(t, net, w1, left[1..]));
    hide Changed;
  }

  lemma AllDone(t: Tables, net: Network, m: Mapping, w0: World, cmds: seq<Command>, w: World,
                done: seq<Event>, st: Stack, sent: seq<Line>)
    requires t.Valid() && net.Valid() && WorldFits(t, w0) && AllSendable(t, net, w0, cmds)
    requires Halfway(t, net, m, w0, cmds, w, [], done, st, sent)
    ensures |st.batch.ext| == |t.ext| && w.Keys == w0.Keys && w == OurWorld(t, net, w0, cmds)
    ensures forall c <- w0 :: ReadLines(t, net, sent + Step(t, m, st, FlushChannel(None)).1, c, w0[c]) == w[c]
  {
    var es := AllIssued(t, net, w0, cmds);
    assert done == es by { assert done + [] == done; }
    assert (es + [FlushNow])[..|es|] == es;
    forall c <- w0 ensures ReadLines(t, net, sent + Step(t, m, st, FlushChannel(None)).1, c, w0[c]) == w[c] {
      NetworkFollows(t, net, m, w0, cmds, c);
    }
  }

  lemma SentEvents(t: Tables, net: Network, m: Mapping, w: World, cmd: Command, before: Stack)
    requires t.Valid() && WorldFits(t, w) && cmd.channel in w && |before.batch.ext| == |t.ext|
    ensures CM.EventsOf(Some(cmd.source), cmd.channel, ReadModes(t, net, true, cmd.parv, w[cmd.channel]).issued)
         == Issued(t, net, w, cmd)
  {
  }

  // One command: its channel changes, and the stacker is handed what it issues.
  method RunOne(chans: map<string, CM.Channel>, stack: ModeStack.Stacker, net: Network, cmd: Command)
    requires stack.Valid() && Fits(stack.t, chans) && WorldFits(stack.t, WorldOf(chans)) && cmd.channel in chans
    requires CM.CanSend(stack.t, Some(cmd.source), ReadModes(stack.t, net, true, cmd.parv, chans[cmd.channel].State()).issued)
    modifies chans.Values, stack
    ensures stack.Valid() && Fits(stack.t, chans) && WorldOf(chans) == Changed(stack.t, net, old(WorldOf(chans)), cmd)
    ensures (stack.State(), stack.sent) ==
      var (st, more) := Steps(stack.t, stack.mapping, old(stack.State()), Issued(stack.t, net, old(WorldOf(chans)), cmd));
      (st, old(stack.sent) + more)
  {
    ghost var w := WorldOf(chans);
    SentEvents(stack.t, net, stack.mapping, w, cmd, stack.State());
    hide ReadModes, Steps, CM.EventsOf, Issued, CM.CanSend;
    var chan := chans[cmd.channel];
    CM.ChannelMode(Some(cmd.source), chan, stack, net, cmd.parv);
    forall c <- chans ensures WorldOf(chans)[c] == Changed(stack.t, net, w, cmd)[c] {
      assert c != cmd.channel ==> chans[c] != chan;
    }
  }

  // The first of the commands left.
  method RunNext(chans: map<string, CM.Channel>, stack: ModeStack.Stacker, net: Network, left: seq<Command>,
                 ghost w0: World, ghost cmds: seq<Command>, ghost done: seq<Event>)
    returns (ghost more: seq<Event>)
    requires stack.Valid() && Fits(stack.t, chans) && left != []
    requires WorldFits(stack.t, w0) && AllSendable(stack.t, net, w0, cmds)
    requires Halfway(stack.t, net, stack.mapping, w0, cmds, WorldOf(chans), left, done, stack.State(), stack.sent)
    modifies chans.Values, stack
    ensures stack.Valid() && Fits(stack.t, chans)
    ensures Halfway(stack.t, net, stack.mapping, w0, cmds, WorldOf(chans), left[1..], done + more, stack.State(), stack.sent)
  {
    hide Steps, Issued, Changed, AllSendable, OurWorld, AllIssued, CM.CanSend, ReadModes, Halfway, Fits, WorldFits;
    ghost var w, t := WorldOf(chans), stack.t;
    NextCommand(t, net, stack.mapping, w0, cmds, w, left, done, stack.State(), stack.sent);
    OneMoreCommand(t, net, stack.mapping, w0, cmds, w, left, done, stack.State(), stack.sent);
    more := Issued(t, net, w, left[0]);
    RunOne(chans, stack, net, left[0]);
  }

  method RunAll(chans: map<string, CM.Channel>, stack: ModeStack.Stacker, net: Network, cmds: seq<Command>)
    returns (ghost done: seq<Event>)
    requires stack.Valid() && stack.State() == Start(stack.t) && stack.sent == [] && net.Valid() && Fits(stack.t, chans)
    requires WorldFits(stack.t, WorldOf(chans)) && AllSendable(stack.t, net, WorldOf(chans), cmds)
    modifies chans.Values, stack
    ensures stack.Valid() && Fits(stack.t, chans)
    ensures Halfway(stack.t, net, stack.mapping, old(WorldOf(chans)), cmds, WorldOf(chans), [], done, stack.State(), stack.sent)
  {
    hide Steps, AllSendable, Halfway, Fits, WorldFits, WorldOf;
    ghost var w0, t, m := WorldOf(chans), stack.t, stack.mapping;
    done := [];
    Begun(t, net, m, w0, cmds);
    var left := cmds;
    while left != []
      invariant stack.Valid() && Fits(t, chans)
      invariant Halfway(t, net, m, w0, cmds, WorldOf(chans), left, done, stack.State(), stack.sent)
      decreases |left|
    {
      ghost var more := RunNext(chans, stack, net, left, w0, cmds, done);
      done, left := done + more, left[1..];
    }
  }

  lemma InWorld(t: Tables, chans: map<string, CM.Channel>)
    requires Fits(t, chans)
    ensures WorldOf(chans).Keys == chans.Keys
    ensures forall c <- chans :: WorldOf(chans)[c] == chans[c].State() && |chans[c].State().ext| == |t.ext|
  {
  }

  // Runs the commands on the channels in memory and flushes the stacker: then the network, reading
  // the lines sent, holds of every channel what is in memory.
  method RunCommands(chans: map<string, CM.Channel>, stack: ModeStack.Stacker, net: Network, cmds: seq<Command>)
    requires stack.Valid() && stack.State() == Start(stack.t) && stack.sent == [] && net.Valid() && Fits(stack.t, chans)
    requires WorldFits(stack.t, WorldOf(chans)) && AllSendable(stack.t, net, WorldOf(chans), cmds)
    modifies chans.Values, stack
    ensures stack.Valid() && Fits(stack.t, chans)
    ensures WorldOf(chans) == OurWorld(stack.t, net, old(WorldOf(chans)), cmds)
    ensures forall c <- chans :: ReadLines(stack.t, net, stack.sent, c, old(chans[c].State())) == chans[c].State()
  {
    hide Steps, Step, ReadLines, OurWorld, AllSendable, AllIssued, Halfway, Fits, WorldFits, WorldOf;
    ghost var w0, t := WorldOf(chans), stack.t;
    InWorld(t, chans);
    ghost var done := RunAll(chans, stack, net, cmds);
    AllDone(t, net, stack.mapping, w0, cmds, WorldOf(chans), done, stack.State(), stack.sent);
    InWorld(t, chans);
    stack.FlushOf(None);
  }
}
