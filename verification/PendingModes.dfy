// A batch of stacked mode requests as a value: what it means for a channel, and the MODE line
// that modestack_flush() prints for it (libathemecore/cmode.c:473-566).
module PendingModes {
  import opened Basics
  import opened CaseMap
  import opened Text
  import opened ChannelModes

  datatype Item = Item(dir: Dir, kind: char, value: string)

  // limit and ext[i] are None when unused; Some(0) and Some("") stand for a removal.
  datatype Pending = Pending(on: Flags, off: Flags, limit: Option<nat>, ext: seq<Option<string>>, items: seq<Item>)

  function Nothing(t: Tables): Pending {
    Pending({}, {}, None, seq(|t.ext|, _ => None), [])
  }

  ghost predicate ValidItem(t: Tables, it: Item) {
    ValidRequest(t, Param(it.dir, it.kind, it.value))
  }

  ghost predicate ValidPending(t: Tables, p: Pending) {
    && |p.ext| == |t.ext|
    && p.on !! p.off
    && (p.limit.Some? ==> p.limit.value < 0x8000_0000)
    && (forall v <- p.ext :: v.Some? && v.value != "" ==> ValidValue(v.value))
    && (forall it <- p.items :: ValidItem(t, it))
  }

  // ---- what a batch means ----

  function MergeExt(cur: seq<Option<string>>, ext: seq<Option<string>>): seq<Option<string>>
    requires |cur| == |ext|
  {
    seq(|cur|, i requires 0 <= i < |cur| => if ext[i].None? then cur[i] else if ext[i].value == "" then None else ext[i])
  }

  function Head(t: Tables, p: Pending, ch: ChanState): ChanState
    requires |t.simpleValue| == |t.simple| && |p.ext| == |ch.ext|
  {
    var c := SetSimple(SetSimple(ch, Del, p.off * t.Listed()), Add, p.on * t.Listed());
    var c' := if p.limit.Some? then SetLimit(c, p.limit.value) else c;
    c'.(ext := MergeExt(ch.ext, p.ext))
  }

  function ItemRequests(items: seq<Item>): (rs: seq<Request>)
    ensures |rs| == |items|
    ensures forall i :: 0 <= i < |items| ==> rs[i] == Param(items[i].dir, items[i].kind, items[i].value)
  {
    seq(|items|, i requires 0 <= i < |items| => Param(items[i].dir, items[i].kind, items[i].value))
  }

  function Effect(t: Tables, net: Network, p: Pending, ch: ChanState): ChanState
    requires |t.simpleValue| == |t.simple| && |t.statusValue| == |t.status| && |p.ext| == |ch.ext|
  {
    ApplyAll(t, net, ItemRequests(p.items), Head(t, p, ch))
  }

  // ---- adding a request to a batch ----

  function AddTo(p: Pending, r: Request): Pending
    requires r.Ext? ==> r.index < |p.ext|
  {
    match r
    case Simple(dir, f) =>
      if dir == Add then p.(on := p.on + f, off := p.off - f)
      else if dir == Del then p.(off := p.off + f, on := p.on - f)
      else p
    case Limit(dir, n) => p.(limit := Some(if dir == Add then n else 0))
    case Ext(dir, i, v) => p.(ext := p.ext[i := Some(if dir == Add then v else "")])
    case Param(dir, kind, v) => p.(items := p.items + [Item(dir, kind, v)])
  }

  lemma KeyCommutes(t: Tables, net: Network, r: Request, k: Option<string>, ch: ChanState)
    requires t.Valid() && !r.Param?
    ensures Apply(t, net, r, SetKey(ch, k)) == SetKey(Apply(t, net, r, ch), k)
  {
    assert CMODE_KEY !in t.Listed();
    assert Apply(t, net, r, SetKey(ch, k)).modes == SetKey(Apply(t, net, r, ch), k).modes;
  }

  // A request without a place in the parameter list commutes with one that has: they touch
  // different parts of the channel.
  lemma Commute(t: Tables, net: Network, r: Request, q: Request, ch: ChanState)
    requires t.Valid() && q.Param? && !r.Param?
    ensures Apply(t, net, r, Apply(t, net, q, ch)) == Apply(t, net, q, Apply(t, net, r, ch))
  {
    if q.kind == 'k' {
      KeyCommutes(t, net, r, if q.dir == Add then Some(q.value) else None, ch);
    }
  }

  lemma {:induction false} CommuteAll(t: Tables, net: Network, r: Request, qs: seq<Request>, ch: ChanState)
    requires t.Valid() && !r.Param? && (forall q <- qs :: q.Param?)
    ensures Apply(t, net, r, ApplyAll(t, net, qs, ch)) == ApplyAll(t, net, qs, Apply(t, net, r, ch))
    decreases |qs|
  {
    if qs != [] {
      var n := |qs| - 1;
      CommuteAll(t, net, r, qs[..n], ch);
      Commute(t, net, r, qs[n], ApplyAll(t, net, qs[..n], ch));
    }
  }

  lemma HeadAdd(t: Tables, net: Network, p: Pending, r: Request, ch: ChanState)
    requires t.Valid() && |p.ext| == |ch.ext| && !r.Param?
    requires r.Ext? ==> r.index < |p.ext| && ValidRequest(t, r)
    ensures Head(t, AddTo(p, r), ch) == Apply(t, net, r, Head(t, p, ch))
  {
    match r {
      case Simple(dir, f) =>
        assert CMODE_LIMIT !in f * t.Listed();
        assert Head(t, AddTo(p, r), ch).modes == Apply(t, net, r, Head(t, p, ch)).modes;
      case Limit(_, _) =>
        assert Head(t, AddTo(p, r), ch).modes == Apply(t, net, r, Head(t, p, ch)).modes;
      case Ext(dir, i, v) =>
        var w := if dir == Add then Some(v) else None;
        assert MergeExt(ch.ext, p.ext[i := Some(if dir == Add then v else "")]) == MergeExt(ch.ext, p.ext)[i := w];
    }
  }

  // Batching keeps the meaning: stacking one more request is the same as applying it afterwards.
  lemma AddEffect(t: Tables, net: Network, p: Pending, r: Request, ch: ChanState)
    requires t.Valid() && |p.ext| == |ch.ext| && ValidRequest(t, r)
    requires r.Ext? ==> r.index < |p.ext|
    ensures Effect(t, net, AddTo(p, r), ch) == Apply(t, net, r, Effect(t, net, p, ch))
  {
    var rs := ItemRequests(p.items);
    if r.Param? {
      var rs' := ItemRequests(AddTo(p, r).items);
      assert rs' == rs + [r];
      assert rs'[..|rs|] == rs;
      assert Head(t, AddTo(p, r), ch) == Head(t, p, ch);
    } else {
      HeadAdd(t, net, p, r, ch);
      CommuteAll(t, net, r, rs, Head(t, p, ch));
    }
  }

  lemma NothingEffect(t: Tables, net: Network, ch: ChanState)
    requires t.Valid() && |ch.ext| == |t.ext|
    ensures Effect(t, net, Nothing(t), ch) == ch
  {
    assert MergeExt(ch.ext, Nothing(t).ext) == ch.ext;
    assert Head(t, Nothing(t), ch).modes == ch.modes;
  }
}
