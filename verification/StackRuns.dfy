// The mode stacker as a transition system: which request makes it flush, the lines a run emits,
// and the theorem that batching cannot be told from sending every request on its own
// (libathemecore/cmode.c:410-781).
module StackRuns {
  import opened Basics
  import opened CaseMap
  import opened Text
  import opened ChannelModes
  import opened PendingModes
  import opened ModeLine

  const MAXMODES: nat := 4
  const USERLEN: nat := 12
  const HOSTLEN: nat := 64
  const BUFLEN: nat := 512
  // Values this long never make a line too long for modestack_flush()'s buffer, however the requests
  // come. One more character can: LongerValueOverflows.
  const VALUEMAX: nat := 473

  datatype Stack = Stack(source: string, channel: Option<string>, batch: Pending)

  datatype Line = Line(source: string, channel: string, text: string)

  datatype Event =
    | Stacked(source: string, channel: string, request: Request)
    | FlushNow
    | FlushChannel(only: Option<string>)

  // ---- sizes ----

  function UsedExt(ext: seq<Option<string>>, from: nat): (n: nat)
    decreases |ext| - from
  {
    if from >= |ext| then 0 else (if ext[from].Some? then 1 else 0) + UsedExt(ext, from + 1)
  }

  // Parameters the line will need, counting removals as well (md->paramcount).
  function Count(p: Pending): nat {
    (if p.limit.Some? then 1 else 0) + UsedExt(p.ext, 0) + |p.items|
  }

  // md->totalparamslen: a limit is taken to be as long as it can get.
  function ParamSize(p: Pending): nat {
    (if p.limit.Some? && p.limit.value != 0 then 11 else 0) + |Spaced(ExtValues(p.ext, 0))| + |Spaced(ItemValues(p.items))|
  }

  // md->totallen
  function TotalLen(source: string, channel: string, p: Pending): nat {
    |source| + USERLEN + HOSTLEN + 1 + 4 + 1 + 10 + |channel| + 1 + 2 + 32 + |ItemLetters(p.items, Nul)| + ParamSize(p)
  }

  function LastItemDir(items: seq<Item>): Dir {
    if items == [] then Nul else items[|items| - 1].dir
  }

  function HasKey(items: seq<Item>): bool {
    exists it <- items :: it.kind == 'k'
  }

  // ---- the steps ----

  // What stacking r drops from the batch before it looks whether there is room: the limit or the
  // ext mode that r overwrites.
  function Dropped(p: Pending, r: Request): Pending {
    match r
    case Limit(_, _) => p.(limit := None)
    case Ext(_, i, _) => if i < |p.ext| then p.(ext := p.ext[i := None]) else p
    case _ => p
  }

  // Whether stacking r on what is left flushes first.
  predicate Full(source: string, channel: string, p: Pending, r: Request) {
    match r
    case Simple(_, _) => false
    case Limit(dir, _) => Count(p) >= MAXMODES || (dir == Add && TotalLen(source, channel, p) + 11 > BUFLEN)
    case Ext(dir, _, v) => Count(p) >= MAXMODES || (dir == Add && TotalLen(source, channel, p) + 1 + |v| > BUFLEN)
    case Param(dir, kind, v) =>
      || Count(p) >= MAXMODES
      || TotalLen(source, channel, p) + (if dir != LastItemDir(p.items) then 1 else 0) + 2 + |v| > BUFLEN
      || (kind == 'k' && HasKey(p.items))
  }

  function FlushLines(t: Tables, st: Stack): seq<Line>
    requires |t.simpleValue| == |t.simple| && |st.batch.ext| == |t.ext|
  {
    if st.channel.None? || Letters(t, st.batch) == "" then []
    else [Line(st.source, st.channel.value, LineText(t, st.batch))]
  }

  function Flushed(t: Tables, st: Stack): Stack {
    st.(batch := Nothing(t))
  }

  // modestack_init(): another source or channel flushes what is stacked.
  function Init(t: Tables, m: Mapping, st: Stack, source: string, channel: string): (Stack, seq<Line>)
    requires |t.simpleValue| == |t.simple| && |st.batch.ext| == |t.ext|
  {
    if !SameName(m, source, st.source) || st.channel != Some(channel) then
      (Stack(source, Some(channel), Nothing(t)), FlushLines(t, st))
    else
      (st.(source := source), [])
  }

  // modestack_add_*() for the current source and channel
  function Push(t: Tables, st: Stack, r: Request): (Stack, seq<Line>)
    requires |t.simpleValue| == |t.simple| && |st.batch.ext| == |t.ext| && st.channel.Some?
  {
    if r.Ext? && r.index >= |t.ext| then (st, [])
    else
      var rest := st.(batch := Dropped(st.batch, r));
      if Full(st.source, st.channel.value, rest.batch, r) then
        (st.(batch := AddTo(Nothing(t), r)), FlushLines(t, rest))
      else
        (st.(batch := AddTo(rest.batch, r)), [])
  }

  function Step(t: Tables, m: Mapping, st: Stack, e: Event): (res: (Stack, seq<Line>))
    requires |t.simpleValue| == |t.simple| && |st.batch.ext| == |t.ext|
    ensures |res.0.batch.ext| == |t.ext|
  {
    match e
    case Stacked(source, channel, r) =>
      if r.Simple? && r.flags == {} then (st, [])
      else
        var (st1, sent1) := Init(t, m, st, source, channel);
        var (st2, sent2) := Push(t, st1, r);
        (st2, sent1 + sent2)
    case FlushNow => (Flushed(t, st), FlushLines(t, st))
    case FlushChannel(c) =>
      if c.None? || c == st.channel then (Flushed(t, st), FlushLines(t, st)) else (st, [])
  }

  function Start(t: Tables): Stack {
    Stack("", None, Nothing(t))
  }

  // A run from a given state: where it ends and the lines it emits.
  function Steps(t: Tables, m: Mapping, st: Stack, events: seq<Event>): (res: (Stack, seq<Line>))
    requires |t.simpleValue| == |t.simple| && |st.batch.ext| == |t.ext|
    ensures |res.0.batch.ext| == |t.ext|
  {
    if events == [] then (st, [])
    else
      var (st1, sent) := Steps(t, m, st, events[..|events| - 1]);
      var (st2, more) := Step(t, m, st1, events[|events| - 1]);
      (st2, sent + more)
  }

  // ---- what the network makes of it ----

  // The state of channel c after the network has read the lines.
  function ReadLines(t: Tables, net: Network, lines: seq<Line>, c: string, ch: ChanState): (ch': ChanState)
    requires |t.simpleValue| == |t.simple| && |t.statusValue| == |t.status| && |ch.ext| == |t.ext|
    ensures |ch'.ext| == |t.ext|
  {
    if lines == [] then ch
    else
      var n := |lines| - 1;
      var before := ReadLines(t, net, lines[..n], c, ch);
      if lines[n].channel == c then ReadModes(t, net, false, Words(lines[n].text), before).chan else before
  }

  // The effect of one event on channel c, were it carried out at once.
  function Carry(t: Tables, net: Network, e: Event, c: string, ch: ChanState): (ch': ChanState)
    requires |t.simpleValue| == |t.simple| && |t.statusValue| == |t.status|
    ensures |ch'.ext| == |ch.ext|
  {
    if e.Stacked? && e.channel == c then Apply(t, net, e.request, ch) else ch
  }

  // The state of channel c if each request is carried out on its own as it comes.
  function Wanted(t: Tables, net: Network, events: seq<Event>, c: string, ch: ChanState): (ch': ChanState)
    requires |t.simpleValue| == |t.simple| && |t.statusValue| == |t.status|
    ensures |ch'.ext| == |ch.ext|
  {
    if events == [] then ch
    else
      var n := |events| - 1;
      Carry(t, net, events[n], c, Wanted(t, net, events[..n], c, ch))
  }

  // What is still stacked for channel c.
  function StillToCome(t: Tables, net: Network, st: Stack, c: string, ch: ChanState): ChanState
    requires |t.simpleValue| == |t.simple| && |t.statusValue| == |t.status|
    requires |ch.ext| == |t.ext| && |st.batch.ext| == |t.ext|
  {
    if st.channel == Some(c) then Effect(t, net, st.batch, ch) else ch
  }

  predicate ShortValue(r: Request) {
    match r
    case Ext(_, _, v) => |v| <= VALUEMAX
    case Param(_, _, v) => |v| <= VALUEMAX
    case _ => true
  }

  predicate ValidEvent(t: Tables, e: Event) {
    e.Stacked? ==> ValidRequest(t, e.request) && ShortValue(e.request) && |e.source| < HOSTLEN
  }

  // ---- the invariant of the stacker ----

  ghost predicate OneKey(items: seq<Item>) {
    forall i, j :: 0 <= i < j < |items| ==> !(items[i].kind == 'k' && items[j].kind == 'k')
  }

  ghost predicate Ok(t: Tables, st: Stack) {
    && ValidPending(t, st.batch)
    && Count(st.batch) <= MAXMODES
    && |ItemLetters(st.batch.items, Nul)| + ParamSize(st.batch) <= VALUEMAX + (if st.batch.items == [] then 1 else 3)
    && OneKey(st.batch.items)
    && |st.source| < HOSTLEN
    && (st.channel.None? ==> st.batch == Nothing(t))
  }

  lemma {:induction false} UsedExtUpdate(ext: seq<Option<string>>, i: nat, v: Option<string>, from: nat)
    requires i < |ext|
    ensures UsedExt(ext[i := v], from) == UsedExt(ext, from) - (if from <= i && ext[i].Some? then 1 else 0) + (if from <= i && v.Some? then 1 else 0)
    decreases |ext| - from
  {
    if from < |ext| {
      UsedExtUpdate(ext, i, v, from + 1);
    }
  }

  function OneSize(v: Option<string>): nat {
    if Sets(v) then 1 + |v.value| else 0
  }

  lemma {:induction false} ExtSizeUpdate(ext: seq<Option<string>>, i: nat, v: Option<string>, from: nat)
    requires i < |ext|
    ensures |Spaced(ExtValues(ext[i := v], from))|
         == |Spaced(ExtValues(ext, from))| + (if from <= i then OneSize(v) - OneSize(ext[i]) else 0)
    decreases |ext| - from
  {
    if from < |ext| {
      ExtSizeUpdate(ext, i, v, from + 1);
      SpacedSize(ext, from);
      SpacedSize(ext[i := v], from);
    }
  }

  lemma SpacedSize(ext: seq<Option<string>>, from: nat)
    requires from < |ext|
    ensures |Spaced(ExtValues(ext, from))| == OneSize(ext[from]) + |Spaced(ExtValues(ext, from + 1))|
  {
    if Sets(ext[from]) {
      assert ExtValues(ext, from)[1..] == ExtValues(ext, from + 1);
    }
  }

  lemma {:induction false} NothingSize(n: nat, from: nat)
    ensures UsedExt(seq(n, _ => None), from) == 0 && ExtValues(seq(n, _ => None), from) == []
    decreases n - from
  {
    if from < n {
      NothingSize(n, from + 1);
    }
  }

  function OneItem(it: Item, d: Dir): string {
    if it.dir != d then [Sign(it.dir), it.kind] else [it.kind]
  }

  lemma ItemLettersFirst(items: seq<Item>, d: Dir)
    requires items != []
    ensures ItemLetters(items, d) == OneItem(items[0], d) + ItemLetters(items[1..], items[0].dir)
  {
  }

  lemma {:induction false} ItemLettersSnoc(items: seq<Item>, it: Item, d: Dir)
    ensures ItemLetters(items + [it], d) == ItemLetters(items, d) + OneItem(it, if items == [] then d else LastItemDir(items))
    decreases |items|
  {
    ItemLettersFirst(items + [it], d);
    if items == [] {
    } else {
      assert (items + [it])[1..] == items[1..] + [it];
      ItemLettersFirst(items, d);
      ItemLettersSnoc(items[1..], it, items[0].dir);
    }
  }

  lemma {:induction false} ItemValuesSnoc(items: seq<Item>, it: Item)
    ensures ItemValues(items + [it]) == ItemValues(items) + [it.value]
  {
    if items != [] {
      assert (items + [it])[1..] == items[1..] + [it];
      ItemValuesSnoc(items[1..], it);
    }
  }

  lemma AddItemSize(p: Pending, r: Request)
    requires r.Param?
    ensures |ItemLetters(AddTo(p, r).items, Nul)| == |ItemLetters(p.items, Nul)| + (if r.dir != LastItemDir(p.items) then 2 else 1)
    ensures ParamSize(AddTo(p, r)) == ParamSize(p) + 1 + |r.value|
  {
    var it := Item(r.dir, r.kind, r.value);
    ItemLettersSnoc(p.items, it, Nul);
    ItemValuesSnoc(p.items, it);
    SpacedSnoc(ItemValues(p.items), r.value);
  }

  lemma NothingOk(t: Tables, st: Stack)
    requires t.Valid() && |st.source| < HOSTLEN
    ensures Ok(t, Flushed(t, st))
  {
    NothingSize(|t.ext|, 0);
  }

  lemma DroppedOk(t: Tables, st: Stack, r: Request)
    requires t.Valid() && Ok(t, st) && st.channel.Some?
    ensures Ok(t, st.(batch := Dropped(st.batch, r)))
    ensures (r.Ext? ==> r.index < |t.ext|) ==> AddTo(Dropped(st.batch, r), r) == AddTo(st.batch, r)
    ensures Dropped(st.batch, r).items == st.batch.items
    ensures r.Limit? ==> Dropped(st.batch, r).limit.None?
    ensures r.Ext? && r.index < |t.ext| ==> Dropped(st.batch, r).ext[r.index].None?
  {
    var p := st.batch;
    match r {
      case Ext(_, i, _) =>
        if i < |p.ext| {
          UsedExtUpdate(p.ext, i, None, 0);
          ExtSizeUpdate(p.ext, i, None, 0);
          assert p.ext[i := None][i := AddTo(p, r).ext[i]] == p.ext[i := AddTo(p, r).ext[i]];
        }
      case _ =>
    }
  }

  lemma AddExtSize(p: Pending, r: Request)
    requires r.Ext? && r.index < |p.ext| && p.ext[r.index].None?
    ensures Count(AddTo(p, r)) == Count(p) + 1
    ensures ParamSize(AddTo(p, r)) == ParamSize(p) + if r.dir == Add && r.value != "" then 1 + |r.value| else 0
  {
    var w := Some(if r.dir == Add then r.value else "");
    UsedExtUpdate(p.ext, r.index, w, 0);
    ExtSizeUpdate(p.ext, r.index, w, 0);
  }

  // Adding to a batch with room, after what r overwrites is gone.
  lemma AddOk(t: Tables, st: Stack, r: Request)
    requires t.Valid() && Ok(t, st) && st.channel.Some?
    requires ValidRequest(t, r) && ShortValue(r)
    requires r.Limit? ==> st.batch.limit.None?
    requires r.Ext? ==> r.index < |t.ext| && st.batch.ext[r.index].None?
    requires st.batch == Nothing(t) || !Full(st.source, st.channel.value, st.batch, r)
    ensures Ok(t, st.(batch := AddTo(st.batch, r)))
  {
    var p := st.batch;
    NothingSize(|t.ext|, 0);
    if r.Ext? {
      AddExtSize(p, r);
    } else if r.Param? {
      AddItemSize(p, r);
    }
  }

  lemma InitOk(t: Tables, m: Mapping, st: Stack, source: string, channel: string)
    requires t.Valid() && Ok(t, st) && |source| < HOSTLEN
    ensures Ok(t, Init(t, m, st, source, channel).0) && Init(t, m, st, source, channel).0.channel == Some(channel)
  {
    NothingOk(t, st.(source := source, channel := Some(channel)));
  }

  lemma PushOk(t: Tables, st: Stack, r: Request)
    requires t.Valid() && Ok(t, st) && st.channel.Some?
    requires ValidRequest(t, r) && ShortValue(r)
    ensures Ok(t, Push(t, st, r).0)
  {
    if !(r.Ext? && r.index >= |t.ext|) {
      DroppedOk(t, st, r);
      NothingOk(t, st);
      var rest := st.(batch := Dropped(st.batch, r));
      if Full(st.source, st.channel.value, rest.batch, r) {
        AddOk(t, Flushed(t, st), r);
      } else {
        AddOk(t, rest, r);
      }
    }
  }

  lemma StepOk(t: Tables, m: Mapping, st: Stack, e: Event)
    requires t.Valid() && Ok(t, st) && ValidEvent(t, e)
    ensures Ok(t, Step(t, m, st, e).0)
  {
    NothingOk(t, st);
    if e.Stacked? && !(e.request.Simple? && e.request.flags == {}) {
      InitOk(t, m, st, e.source, e.channel);
      PushOk(t, Init(t, m, st, e.source, e.channel).0, e.request);
    }
  }

  // In every reachable state the batch fits MAXMODES parameters, holds at most one key change and
  // is short enough for the buffer of modestack_flush().
  lemma {:induction false} ReachableOk(t: Tables, m: Mapping, st: Stack, events: seq<Event>)
    requires t.Valid() && Ok(t, st) && (forall e <- events :: ValidEvent(t, e))
    ensures Ok(t, Steps(t, m, st, events).0)
  {
    if events != [] {
      var n := |events| - 1;
      ReachableOk(t, m, st, events[..n]);
      StepOk(t, m, Steps(t, m, st, events[..n]).0, events[n]);
    }
  }

  // ---- batching is transparent ----

  lemma {:induction false} ReadLinesAppend(t: Tables, net: Network, a: seq<Line>, b: seq<Line>, c: string, ch: ChanState)
    requires t.Valid() && |ch.ext| == |t.ext|
    ensures ReadLines(t, net, a + b, c, ch) == ReadLines(t, net, b, c, ReadLines(t, net, a, c, ch))
    decreases |b|
  {
    if b == [] {
      assert a + b == a;
    } else {
      assert (a + b)[..|a + b| - 1] == a + b[..|b| - 1];
      ReadLinesAppend(t, net, a, b[..|b| - 1], c, ch);
    }
  }

  // A flush brings the network to where the stacker is.
  lemma FlushReads(t: Tables, net: Network, st: Stack, c: string, ch: ChanState)
    requires t.Valid() && Ok(t, st) && |ch.ext| == |t.ext|
    ensures ReadLines(t, net, FlushLines(t, st), c, ch) == StillToCome(t, net, st, c, ch)
  {
    var lines := FlushLines(t, st);
    if st.channel == Some(c) {
      LineMeansBatch(t, net, st.batch, ch);
    }
    if lines != [] {
      assert ReadLines(t, net, lines[..0], c, ch) == ch;
    }
  }

  lemma InitReads(t: Tables, net: Network, m: Mapping, st: Stack, source: string, channel: string, c: string, ch: ChanState)
    requires t.Valid() && Ok(t, st) && |ch.ext| == |t.ext|
    ensures var step := Init(t, m, st, source, channel);
            StillToCome(t, net, step.0, c, ReadLines(t, net, step.1, c, ch)) == StillToCome(t, net, st, c, ch)
  {
    FlushReads(t, net, st, c, ch);
    NothingEffect(t, net, ReadLines(t, net, FlushLines(t, st), c, ch));
  }

  lemma PushReads(t: Tables, net: Network, st: Stack, r: Request, c: string, ch: ChanState)
    requires t.Valid() && Ok(t, st) && |ch.ext| == |t.ext| && st.channel.Some? && ValidRequest(t, r)
    ensures StillToCome(t, net, Push(t, st, r).0, c, ReadLines(t, net, Push(t, st, r).1, c, ch))
         == if st.channel == Some(c) then Apply(t, net, r, StillToCome(t, net, st, c, ch)) else ch
  {
    if !(r.Ext? && r.index >= |t.ext|) {
      var p, q := st.batch, Dropped(st.batch, r);
      DroppedOk(t, st, r);
      if st.channel == Some(c) {
        AddEffect(t, net, p, r, ch);
        AddEffect(t, net, q, r, ch);
      }
      if Full(st.source, st.channel.value, q, r) {
        FlushReads(t, net, st.(batch := q), c, ch);
        var mid := ReadLines(t, net, FlushLines(t, st.(batch := q)), c, ch);
        AddEffect(t, net, Nothing(t), r, mid);
        NothingEffect(t, net, mid);
      }
    }
  }

  lemma NoFlags(t: Tables, net: Network, dir: Dir, ch: ChanState)
    requires t.Valid()
    ensures Apply(t, net, Simple(dir, {}), ch) == ch
  {
    assert Apply(t, net, Simple(dir, {}), ch).modes == ch.modes;
  }

  lemma StepReads(t: Tables, net: Network, m: Mapping, st: Stack, e: Event, c: string, ch: ChanState)
    requires t.Valid() && Ok(t, st) && |ch.ext| == |t.ext| && ValidEvent(t, e)
    ensures StillToCome(t, net, Step(t, m, st, e).0, c, ReadLines(t, net, Step(t, m, st, e).1, c, ch))
         == Carry(t, net, e, c, StillToCome(t, net, st, c, ch))
  {
    if e.Stacked? {
      if e.request.Simple? && e.request.flags == {} {
        NoFlags(t, net, e.request.dir, StillToCome(t, net, st, c, ch));
      } else {
        var (st1, lines1) := Init(t, m, st, e.source, e.channel);
        var ch1 := ReadLines(t, net, lines1, c, ch);
        InitReads(t, net, m, st, e.source, e.channel, c, ch);
        InitOk(t, m, st, e.source, e.channel);
        PushReads(t, net, st1, e.request, c, ch1);
        ReadLinesAppend(t, net, lines1, Push(t, st1, e.request).1, c, ch);
      }
    } else {
      FlushReads(t, net, st, c, ch);
      NothingEffect(t, net, ReadLines(t, net, FlushLines(t, st), c, ch));
    }
  }

  lemma {:induction false} StepsRead(t: Tables, net: Network, m: Mapping, st: Stack, events: seq<Event>, c: string, ch: ChanState)
    requires t.Valid() && Ok(t, st) && |ch.ext| == |t.ext| && (forall e <- events :: ValidEvent(t, e))
    ensures StillToCome(t, net, Steps(t, m, st, events).0, c, ReadLines(t, net, Steps(t, m, st, events).1, c, ch))
         == Wanted(t, net, events, c, StillToCome(t, net, st, c, ch))
  {
    if events != [] {
      var n := |events| - 1;
      var (st1, lines) := Steps(t, m, st, events[..n]);
      StepsRead(t, net, m, st, events[..n], c, ch);
      ReachableOk(t, m, st, events[..n]);
      StepReads(t, net, m, st1, events[n], c, ReadLines(t, net, lines, c, ch));
      ReadLinesAppend(t, net, lines, Step(t, m, st1, events[n]).1, c, ch);
    }
  }

  // For every run of requests from any sources on any channels, once flushed: reading the emitted
  // lines leaves every channel as if each request had been carried out on its own, in order.
  lemma BatchingIsTransparent(t: Tables, net: Network, m: Mapping, events: seq<Event>, c: string, ch: ChanState)
    requires t.Valid() && |ch.ext| == |t.ext| && (forall e <- events :: ValidEvent(t, e))
    ensures ReadLines(t, net, Steps(t, m, Start(t), events + [FlushNow]).1, c, ch) == Wanted(t, net, events, c, ch)
  {
    var (st, lines) := Steps(t, m, Start(t), events);
    assert (events + [FlushNow])[..|events|] == events;
    NothingOk(t, Start(t));
    StepsRead(t, net, m, Start(t), events, c, ch);
    ReachableOk(t, m, Start(t), events);
    FlushReads(t, net, st, c, ReadLines(t, net, lines, c, ch));
    ReadLinesAppend(t, net, lines, FlushLines(t, st), c, ch);
  }

  // ---- what a line may look like ----

  lemma {:induction false} FlagLettersCount(t: Tables, on: Flags, off: Flags, from: nat)
    requires t.Valid() && on !! off && from <= |t.simple|
    ensures |FlagLetters(t, on, from)| + |FlagLetters(t, off, from)| <= |t.simple| - from
    decreases |t.simple| - from
  {
    if from < |t.simple| {
      FlagLettersCount(t, on, off, from + 1);
    }
  }

  lemma FlagLettersFew(t: Tables, on: Flags, off: Flags)
    requires t.Valid() && on !! off
    ensures |FlagLetters(t, on, 0)| + |FlagLetters(t, off, 0)| <= 30
  {
    FlagLettersCount(t, on, off, 0);
    FewFlags(t);
  }

  lemma {:induction false} ExtLettersCount(t: Tables, ext: seq<Option<string>>, from: nat)
    requires |ext| == |t.ext|
    ensures |ExtLetters(t, ext, Add, from)| + |ExtLetters(t, ext, Del, from)| == UsedExt(ext, from)
    ensures |ExtValues(ext, from)| == |ExtLetters(t, ext, Add, from)|
    decreases |ext| - from
  {
    if from < |ext| {
      ExtLettersCount(t, ext, from + 1);
    }
  }

  lemma ItemLettersSign(items: seq<Item>, d: Dir)
    requires forall it <- items :: it.dir != Nul
    ensures |ItemLetters(items, d)| <= |ItemLetters(items, Nul)|
    ensures items != [] && items[0].dir == d ==> [Sign(d)] + ItemLetters(items, d) == ItemLetters(items, Nul)
    ensures items == [] || items[0].dir != d ==> ItemLetters(items, d) == ItemLetters(items, Nul)
  {
    if items != [] {
      assert items[0] in items;
    }
  }

  lemma {:induction false} ItemValuesCount(items: seq<Item>)
    ensures |ItemValues(items)| == |items|
  {
    if items != [] {
      ItemValuesCount(items[1..]);
    }
  }

  // The letters of the line, before its parameters.
  lemma LettersLength(t: Tables, st: Stack)
    requires t.Valid() && Ok(t, st)
    ensures |Letters(t, st.batch)| <= 2 + 30 + MAXMODES - |st.batch.items| + |ItemLetters(st.batch.items, Nul)|
    ensures |Letters(t, st.batch)| + ParamSize(st.batch) < BUFLEN
  {
    var p := st.batch;
    FlagLettersFew(t, p.on, p.off);
    ExtLettersCount(t, p.ext, 0);
    forall it <- p.items ensures it.dir != Nul {
      assert ValidItem(t, it);
    }
    ItemLettersSign(p.items, LastDir(t, p));
    ItemLettersSign(p.items, Nul);
    assert p.items != [] ==> |ItemLetters(p.items, Nul)| >= 2 by {
      if p.items != [] { assert p.items[0] in p.items; }
    }
  }

  lemma LimitLength(n: nat)
    requires n < 0x1_0000_0000
    ensures |Decimal(n)| <= 10
  {
    assert Pow10(10) == 10_000_000_000 by {
      assert Pow10(5) == 100_000;
    }
    DecimalLength(n, 10);
  }

  lemma ValuesSize(p: Pending)
    requires p.limit.Some? ==> p.limit.value < 0x8000_0000
    ensures |Spaced(Values(p))| <= ParamSize(p)
  {
    SpacedAppend(LimitValues(p) + ExtValues(p.ext, 0), ItemValues(p.items));
    SpacedAppend(LimitValues(p), ExtValues(p.ext, 0));
    if LimitValues(p) != [] {
      LimitLength(p.limit.value);
      assert LimitValues(p)[1..] == [];
    }
  }

  // A line keeps the two limits of the protocol side: its text and the terminator fit 512 bytes,
  // and it carries at most MAXMODES parameters.
  ghost predicate LineWithinLimits(l: Line) {
    |l.text| < BUFLEN && |Words(l.text)| <= 1 + MAXMODES && |l.source| < HOSTLEN
  }

  lemma FlushWithinLimits(t: Tables, st: Stack)
    requires t.Valid() && Ok(t, st)
    ensures forall l <- FlushLines(t, st) :: LineWithinLimits(l)
  {
    if FlushLines(t, st) != [] {
      var p := st.batch;
      LettersLength(t, st);
      ValuesSize(p);
      SplitLine(t, p);
      ExtLettersCount(t, p.ext, 0);
      ItemValuesCount(p.items);
    }
  }

  lemma StepWithinLimits(t: Tables, m: Mapping, st: Stack, e: Event)
    requires t.Valid() && Ok(t, st) && ValidEvent(t, e)
    ensures forall l <- Step(t, m, st, e).1 :: LineWithinLimits(l)
  {
    FlushWithinLimits(t, st);
    if e.Stacked? {
      var st1 := Init(t, m, st, e.source, e.channel).0;
      InitOk(t, m, st, e.source, e.channel);
      DroppedOk(t, st1, e.request);
      FlushWithinLimits(t, st1.(batch := Dropped(st1.batch, e.request)));
    }
  }

  // Every line of every run is within the limits.
  lemma {:induction false} RunWithinLimits(t: Tables, m: Mapping, st: Stack, events: seq<Event>)
    requires t.Valid() && Ok(t, st) && (forall e <- events :: ValidEvent(t, e))
    ensures forall l <- Steps(t, m, st, events).1 :: LineWithinLimits(l)
  {
    if events != [] {
      var n := |events| - 1;
      RunWithinLimits(t, m, st, events[..n]);
      ReachableOk(t, m, st, events[..n]);
      StepWithinLimits(t, m, Steps(t, m, st, events[..n]).0, events[n]);
    }
  }

  // ---- a value one longer ----

  lemma {:induction false} AllFlagLetters(t: Tables, on: Flags, off: Flags, from: nat)
    requires t.Valid() && on !! off && t.Listed() <= on + off && from <= |t.simple|
    ensures |FlagLetters(t, on, from)| + |FlagLetters(t, off, from)| == |t.simple| - from
    decreases |t.simple| - from
  {
    if from < |t.simple| {
      assert t.simpleValue[from] in t.Listed();
      AllFlagLetters(t, on, off, from + 1);
    }
  }

  // The batch that makes the longest line: every flag, one of them removed, as many removals without
  // a value as there is room for, and one removal with one.
  function Longest(t: Tables, kind: char, v: string): Pending
    requires t.simpleValue != [] && |t.ext| >= 2
  {
    Pending(t.Listed() - {t.simpleValue[0]}, {t.simpleValue[0]}, Some(0), seq(|t.ext|, i => if i < 2 then Some("") else None),
            [Item(Del, kind, v)])
  }

  lemma {:induction false} EmptyExt(t: Tables, ext: seq<Option<string>>, from: nat)
    requires |ext| == |t.ext| && forall i :: from <= i < |ext| ==> ext[i].None?
    ensures UsedExt(ext, from) == 0 && ExtValues(ext, from) == []
    ensures ExtLetters(t, ext, Add, from) == "" && ExtLetters(t, ext, Del, from) == ""
    decreases |ext| - from
  {
    if from < |ext| {
      EmptyExt(t, ext, from + 1);
    }
  }

  lemma LongestLetters(t: Tables, kind: char, v: string)
    requires t.Valid() && |t.simple| == 30 && |t.ext| >= 2
    ensures var p := Longest(t, kind, v); |Letters(t, p)| == 37 && ParamSize(p) == 1 + |v| && Count(p) == MAXMODES
  {
    var p := Longest(t, kind, v);
    AllFlagLetters(t, p.on, p.off, 0);
    EmptyExt(t, p.ext, 2);
    assert t.simpleValue[1] in p.on;
    assert ExtLetters(t, p.ext, Add, 1) == "" && ExtLetters(t, p.ext, Del, 1) == [t.ext[1]];
    assert ExtLetters(t, p.ext, Add, 0) == "" && ExtLetters(t, p.ext, Del, 0) == [t.ext[0], t.ext[1]];
    assert ExtValues(p.ext, 1) == [] && UsedExt(p.ext, 1) == 1;
    assert ExtValues(p.ext, 0) == [] && UsedExt(p.ext, 0) == 2;
    assert p.items[1..] == [] && ItemValues(p.items[1..]) == [];
    assert ItemLetters(p.items, Add) == "-" + [kind] && ItemValues(p.items) == [v];
    assert Spaced([v]) == " " + v;
  }

  lemma StepsMore(t: Tables, m: Mapping, st: Stack, events: seq<Event>, e: Event)
    requires t.Valid() && |st.batch.ext| == |t.ext|
    ensures Steps(t, m, st, events + [e]).0 == Step(t, m, Steps(t, m, st, events).0, e).0
  {
    assert (events + [e])[..|events|] == events;
  }

  lemma PushedOn(t: Tables, m: Mapping, events: seq<Event>, c: string, p: Pending, r: Request)
    requires t.Valid() && |p.ext| == |t.ext| && Steps(t, m, Start(t), events).0 == Stack("", Some(c), p)
    requires (r.Simple? ==> r.flags != {}) && (r.Ext? ==> r.index < |t.ext|) && !Full("", c, Dropped(p, r), r)
    ensures Steps(t, m, Start(t), events + [Stacked("", c, r)]).0 == Stack("", Some(c), AddTo(Dropped(p, r), r))
  {
    StepsMore(t, m, Start(t), events, Stacked("", c, r));
  }

  lemma FirstPush(t: Tables, m: Mapping, c: string, r: Request)
    requires t.Valid() && r.Param?
    ensures Steps(t, m, Start(t), [Stacked("", c, r)]).0 == Stack("", Some(c), AddTo(Nothing(t), r))
  {
    hide FlushLines, Full, SameName;
    var st := Stack("", Some(c), Nothing(t));
    assert Init(t, m, Start(t), "", c).0 == st;
    assert Push(t, st, r).0 == st.(batch := AddTo(Nothing(t), r));
    assert Step(t, m, Start(t), Stacked("", c, r)).0 == st.(batch := AddTo(Nothing(t), r));
    assert Steps(t, m, Start(t), []).0 == Start(t);
    hide Step, Steps;
    StepsMore(t, m, Start(t), [], Stacked("", c, r));
    assert [] + [Stacked("", c, r)] == [Stacked("", c, r)];
  }

  // The requests that make it out of the one with the value, and the batches between.
  function Filler(t: Tables, k: nat): Request
    requires t.simpleValue != []
  {
    if k == 0 then Simple(Add, t.Listed() - {t.simpleValue[0]})
    else if k == 1 then Simple(Del, {t.simpleValue[0]})
    else if k == 2 then Limit(Del, 0)
    else Ext(Del, k - 3, "")
  }

  function Filled(t: Tables, kind: char, v: string, k: nat): Pending
    requires t.simpleValue != []
  {
    Pending(if k > 0 then t.Listed() - {t.simpleValue[0]} else {}, if k > 1 then {t.simpleValue[0]} else {},
            if k > 2 then Some(0) else None, seq(|t.ext|, i => if i < k - 3 then Some("") else None), [Item(Del, kind, v)])
  }

  lemma OneMoreFiller(t: Tables, c: string, kind: char, v: string, k: nat)
    requires t.Valid() && t.simpleValue != [] && |t.ext| >= 2 && k < 5
    ensures var p := Filled(t, kind, v, k); var r := Filler(t, k);
      !Full("", c, Dropped(p, r), r) && AddTo(Dropped(p, r), r) == Filled(t, kind, v, k + 1)
  {
    var p, r := Filled(t, kind, v, k), Filler(t, k);
    if k > 1 {
      var q := Dropped(p, r);
      EmptyExt(t, q.ext, 1);
      assert UsedExt(q.ext, 0) <= 1;
    }
    assert AddTo(Dropped(p, r), r).on == Filled(t, kind, v, k + 1).on;
    assert AddTo(Dropped(p, r), r).off == Filled(t, kind, v, k + 1).off;
    assert AddTo(Dropped(p, r), r).ext == Filled(t, kind, v, k + 1).ext;
  }

  // The event is a valid one with a short value, or stacks r.
  predicate ButForOne(t: Tables, e: Event, r: Request) {
    e.Stacked? && (e.request == r || ValidEvent(t, e))
  }

  lemma {:induction false} FilledRun(t: Tables, m: Mapping, c: string, kind: char, v: string, k: nat) returns (events: seq<Event>)
    requires t.Valid() && |t.simple| > 1 && |t.ext| >= 2 && k <= 5
    ensures Steps(t, m, Start(t), events).0 == Stack("", Some(c), Filled(t, kind, v, k))
    ensures forall e <- events :: ButForOne(t, e, Param(Del, kind, v))
  {
    hide Steps, Full;
    if k == 0 {
      events := [Stacked("", c, Param(Del, kind, v))];
      FirstPush(t, m, c, Param(Del, kind, v));
      assert AddTo(Nothing(t), Param(Del, kind, v)) == Filled(t, kind, v, 0);
    } else {
      var before := FilledRun(t, m, c, kind, v, k - 1);
      var r := Filler(t, k - 1);
      OneMoreFiller(t, c, kind, v, k - 1);
      assert t.simpleValue[1] in t.Listed() - {t.simpleValue[0]};
      PushedOn(t, m, before, c, Filled(t, kind, v, k - 1), r);
      events := before + [Stacked("", c, r)];
    }
  }

  // With as many flags as there can be and a value one character longer a run can stack a batch that
  // modestack_flush() finds too long and drops.
  lemma LongerValueOverflows(t: Tables, m: Mapping, c: string, kind: char, v: string) returns (events: seq<Event>)
    requires t.Valid() && |t.simple| == 30 && |t.ext| >= 2 && |v| == VALUEMAX + 1
    ensures forall e <- events :: ButForOne(t, e, Param(Del, kind, v))
    ensures var p := Steps(t, m, Start(t), events).0.batch; |Letters(t, p)| + ParamSize(p) == BUFLEN
  {
    events := FilledRun(t, m, c, kind, v, 5);
    LongestLetters(t, kind, v);
    hide Steps;
    assert Filled(t, kind, v, 5).ext == Longest(t, kind, v).ext;
    assert Filled(t, kind, v, 5) == Longest(t, kind, v);
  }

  lemma {:induction false} StepsAppend(t: Tables, m: Mapping, st: Stack, a: seq<Event>, b: seq<Event>)
    requires t.Valid() && |st.batch.ext| == |t.ext|
    ensures Steps(t, m, st, a + b).0 == Steps(t, m, Steps(t, m, st, a).0, b).0
    ensures Steps(t, m, st, a + b).1 == Steps(t, m, st, a).1 + Steps(t, m, Steps(t, m, st, a).0, b).1
    decreases |b|
  {
    hide Step;
    if b == [] {
      assert a + b == a;
    } else {
      var n := |b| - 1;
      assert (a + b)[..|a| + n] == a + b[..n];
      StepsAppend(t, m, st, a, b[..n]);
    }
  }
}
