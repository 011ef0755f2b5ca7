// Channel modes: the mode letter tables of the IRC protocol in use, the state of one channel,
// the meaning of one mode request, and the reading of one MODE line (libathemecore/cmode.c).
module ChannelModes {
  import opened Basics
  import opened CaseMap
  import opened Text

  datatype Dir = Nul | Add | Del

  // A word of flags, as the set of the bits that are one: C's x | y, x & y and x & ~y are
  // x + y, x * y and x - y.
  type Flags = set<nat>

  const CMODE_KEY: nat := 1    // 0x2
  const CMODE_LIMIT: nat := 2  // 0x4

  // A bit of a word of 32, and not that of the key or the limit.
  predicate IsFlagBit(v: nat) {
    v < 32 && v != CMODE_KEY && v != CMODE_LIMIT
  }

  // mode_list, ignore_mode_list, ircd->ban_like_modes and status_mode_list: letters and, where
  // the C table has one, the bit beside each letter.
  datatype Tables = Tables(simple: string, simpleValue: seq<nat>, ext: string,
                           banLike: string, status: string, statusValue: seq<nat>)
  {
    ghost predicate Valid() {
      && |simpleValue| == |simple|
      && |statusValue| == |status|
      && DistinctLetters(simple) && DistinctLetters(ext)
      && Apart(simple, ext + "lk" + banLike + status)
      && Apart(ext, "lk" + banLike + status)
      && Apart("lk", banLike + status)
      && Apart(banLike, status)
      && Apart("+- ", simple + ext + "lk" + banLike + status)
      && (forall i, j :: 0 <= i < j < |simple| ==> simpleValue[i] != simpleValue[j])
      && (forall i :: 0 <= i < |simple| ==> IsFlagBit(simpleValue[i]))
    }

    // The bits that have a letter.
    function Listed(): Flags {
      set v <- simpleValue
    }
  }

  // A word has 32 bits, and those of key and limit are no flags.
  lemma FewFlags(t: Tables)
    requires t.Valid()
    ensures |t.simple| <= 30
  {
    var bits := Numbers(32);
    var used := DistinctCount(t.simpleValue);
    SubsetIsSmaller(used, bits - {CMODE_KEY, CMODE_LIMIT});
    assert bits - {CMODE_KEY, CMODE_LIMIT} == bits - {CMODE_KEY} - {CMODE_LIMIT};
    assert |bits - {CMODE_KEY}| == 31 && |bits - {CMODE_KEY} - {CMODE_LIMIT}| == 30;
  }

  ghost predicate Apart(a: string, b: string) {
    forall c <- a :: c !in b
  }

  ghost predicate DistinctLetters(s: string) {
    forall i, j :: 0 <= i < j < |s| ==> s[i] != s[j]
  }

  // What the rest of the program knows: nick/UID lookup, the name a user is sent under, and the
  // per-mode value checks of ignore_mode_list.
  datatype Network = Network(mapping: Mapping, users: map<string, nat>, clientName: map<nat, string>,
                             check: (nat, string) -> bool)
  {
    function UserFind(name: string): Option<nat> {
      var key := Upcase(mapping, name);
      if key in users then Some(users[key]) else None
    }

    // Every user can be named, by a word that finds him again.
    ghost predicate Valid() {
      forall name :: UserFind(name).Some? ==>
        var u := UserFind(name).value;
        u in clientName && ValidValue(clientName[u]) && UserFind(clientName[u]) == Some(u)
    }
  }

  datatype Ban = Ban(kind: char, mask: string)

  datatype ChanState = ChanState(modes: Flags, limit: nat, key: Option<string>, ext: seq<Option<string>>,
                                 bans: seq<Ban>, members: map<nat, Flags>)

  datatype Request =
    | Simple(dir: Dir, flags: Flags)
    | Limit(dir: Dir, limit: nat)
    | Ext(dir: Dir, index: nat, value: string)
    | Param(dir: Dir, kind: char, value: string)

  // A parameter that survives being one word of an IRC line.
  predicate ValidValue(v: string) {
    IsWord(v) && v[0] != ':'
  }

  // ---- one change of one channel ----

  function SetSimple(ch: ChanState, dir: Dir, v: Flags): ChanState {
    ch.(modes := if dir == Add then ch.modes + v else ch.modes - v)
  }

  function SetLimit(ch: ChanState, limit: nat): ChanState {
    ch.(limit := limit, modes := if limit != 0 then ch.modes + {CMODE_LIMIT} else ch.modes - {CMODE_LIMIT})
  }

  function SetExt(ch: ChanState, i: nat, v: Option<string>): ChanState
    requires i < |ch.ext|
  {
    ch.(ext := ch.ext[i := v])
  }

  function SetKey(ch: ChanState, k: Option<string>): ChanState {
    ch.(key := k, modes := if k.Some? then ch.modes + {CMODE_KEY} else ch.modes - {CMODE_KEY})
  }

  // chanban_find: index of the first such ban, |bans| when there is none.
  function BanFind(m: Mapping, bans: seq<Ban>, kind: char, mask: string): (i: nat)
    ensures i <= |bans|
    ensures i < |bans| ==> bans[i].kind == kind && SameName(m, bans[i].mask, mask)
    ensures forall j :: 0 <= j < i ==> !(bans[j].kind == kind && SameName(m, bans[j].mask, mask))
  {
    if bans == [] || (bans[0].kind == kind && SameName(m, bans[0].mask, mask)) then 0
    else 1 + BanFind(m, bans[1..], kind, mask)
  }

  function SetBan(m: Mapping, ch: ChanState, dir: Dir, kind: char, mask: string): ChanState {
    var i := BanFind(m, ch.bans, kind, mask);
    if dir == Add then
      if !ValidValue(mask) || i < |ch.bans| then ch else ch.(bans := ch.bans + [Ban(kind, mask)])
    else
      if i < |ch.bans| then ch.(bans := ch.bans[..i] + ch.bans[i + 1..]) else ch
  }

  function SetStatus(net: Network, ch: ChanState, dir: Dir, flag: nat, target: string): ChanState {
    var u := net.UserFind(target);
    if u.None? || u.value !in ch.members then ch
    else
      var had := ch.members[u.value];
      ch.(members := ch.members[u.value := if dir == Add then had + {flag} else had - {flag}])
  }

  // ---- what a request asks for ----

  function Apply(t: Tables, net: Network, r: Request, ch: ChanState): (ch': ChanState)
    requires |t.simpleValue| == |t.simple| && |t.statusValue| == |t.status|
    ensures |ch'.ext| == |ch.ext|
  {
    match r
    case Simple(dir, flags) => if dir == Nul then ch else SetSimple(ch, dir, flags * t.Listed())
    case Limit(dir, n) => SetLimit(ch, if dir == Add then n else 0)
    case Ext(dir, i, v) => if i < |ch.ext| then SetExt(ch, i, if dir == Add then Some(v) else None) else ch
    case Param(dir, kind, v) =>
      if kind == 'k' then SetKey(ch, if dir == Add then Some(v) else None)
      else if kind in t.banLike then SetBan(net.mapping, ch, dir, kind, v)
      else
        var i := Find(t.status, kind);
        if i < |t.status| then SetStatus(net, ch, dir, t.statusValue[i], v) else ch
  }

  function ApplyAll(t: Tables, net: Network, rs: seq<Request>, ch: ChanState): (ch': ChanState)
    requires |t.simpleValue| == |t.simple| && |t.statusValue| == |t.status|
    ensures |ch'.ext| == |ch.ext|
    decreases |rs|
  {
    if rs == [] then ch
    else Apply(t, net, rs[|rs| - 1], ApplyAll(t, net, rs[..|rs| - 1], ch))
  }

  // What callers of modestack_mode_* must pass (for Limit, atoi must be able to read it back).
  predicate ValidRequest(t: Tables, r: Request) {
    match r
    case Simple(_, _) => true
    case Limit(dir, n) => dir != Nul && (dir == Add ==> n < 0x8000_0000)
    case Ext(dir, i, v) => dir != Nul && (dir == Add ==> ValidValue(v))
    case Param(dir, kind, v) => dir != Nul && (kind == 'k' || kind in t.banLike || kind in t.status) && ValidValue(v)
  }

  // ---- reading a MODE line ----

  // The position of channel_mode() in its line, and the requests it has passed on so far
  // (it passes them on only when the change is made by one of our own users).
  datatype Cursor = Cursor(chan: ChanState, parpos: nat, dir: Dir, issued: seq<Request>)
  {
    function Do(ch: ChanState, r: Request): Cursor {
      this.(chan := ch, issued := issued + [r])
    }
  }

  function Unsigned(a: int): nat {
    a % 0x1_0000_0000
  }

  // +l 0 is read as +l 1
  function ReadLimit(s: string): nat {
    if Unsigned(Atoi(s)) == 0 then 1 else Unsigned(Atoi(s))
  }

  function StepLetter(t: Tables, net: Network, local: bool, c: char, parv: seq<string>, s: Cursor): (s': Cursor)
    requires |t.simpleValue| == |t.simple| && |t.statusValue| == |t.status| && |s.chan.ext| == |t.ext|
    ensures |s'.chan.ext| == |t.ext|
  {
    var ch := s.chan;
    var next := s.(parpos := s.parpos + 1);
    var arg := if next.parpos < |parv| then Some(parv[next.parpos]) else None;
    if c == '+' then s.(dir := Add)
    else if c == '-' then s.(dir := Del)
    else if c in t.simple then
      var v := t.simpleValue[Find(t.simple, c)];
      s.Do(SetSimple(ch, s.dir, {v}), Simple(s.dir, {v}))
    else if c in t.ext then
      var i := Find(t.ext, c);
      if s.dir != Add then s.Do(SetExt(ch, i, None), Ext(Del, i, ""))
      else if arg.None? || (local && !net.check(i, arg.value)) then next
      else next.Do(SetExt(ch, i, arg), Ext(Add, i, arg.value))
    else if c == 'l' then
      if s.dir != Add then s.Do(SetLimit(ch, 0), Limit(Del, 0))
      else if arg.None? then next
      else next.Do(SetLimit(ch, ReadLimit(arg.value)), Limit(Add, ReadLimit(arg.value)))
    else if c == 'k' then
      if s.dir != Add then next.Do(SetKey(ch, None), Param(Del, 'k', if ch.key.Some? then ch.key.value else "*"))
      else if arg.None? then next
      else next.Do(SetKey(ch, arg), Param(Add, 'k', arg.value))
    else if c in t.banLike then
      if arg.None? then next
      else
        var d := if s.dir == Add then Add else Del;
        next.Do(SetBan(net.mapping, ch, d, c, arg.value), Param(d, c, arg.value))
    else if c in t.status then
      if arg.None? then next
      else
        var u := net.UserFind(arg.value);
        if u.None? || u.value !in ch.members then next
        else
          var d := if s.dir == Add then Add else Del;
          var name := if u.value in net.clientName then net.clientName[u.value] else "";
          next.Do(SetStatus(net, ch, d, t.statusValue[Find(t.status, c)], arg.value), Param(d, c, name))
    else s
  }

  function Interp(t: Tables, net: Network, local: bool, letters: string, parv: seq<string>, s: Cursor): (s': Cursor)
    requires |t.simpleValue| == |t.simple| && |t.statusValue| == |t.status| && |s.chan.ext| == |t.ext|
    ensures |s'.chan.ext| == |t.ext|
  {
    if letters == "" then s
    else Interp(t, net, local, letters[1..], parv, StepLetter(t, net, local, letters[0], parv, s))
  }

  // channel_mode() on the words of a line; "0" as a mode string changes nothing.
  function ReadModes(t: Tables, net: Network, local: bool, parv: seq<string>, ch: ChanState): (s: Cursor)
    requires |t.simpleValue| == |t.simple| && |t.statusValue| == |t.status| && |ch.ext| == |t.ext|
    ensures |s.chan.ext| == |t.ext|
  {
    var start := Cursor(ch, 0, Nul, []);
    if parv == [] || parv[0] == "" || parv[0][0] == '0' then start
    else Interp(t, net, local, parv[0], parv, start)
  }

  lemma {:induction false} InterpAppend(t: Tables, net: Network, local: bool, a: string, b: string, parv: seq<string>, s: Cursor)
    requires |t.simpleValue| == |t.simple| && |t.statusValue| == |t.status| && |s.chan.ext| == |t.ext|
    ensures Interp(t, net, local, a + b, parv, s) == Interp(t, net, local, b, parv, Interp(t, net, local, a, parv, s))
    decreases |a|
  {
    if a == "" {
      assert a + b == b;
    } else {
      assert (a + b)[1..] == a[1..] + b;
      InterpAppend(t, net, local, a[1..], b, parv, StepLetter(t, net, local, a[0], parv, s));
    }
  }

  lemma {:induction false} ApplyAllAppend(t: Tables, net: Network, a: seq<Request>, b: seq<Request>, ch: ChanState)
    requires |t.simpleValue| == |t.simple| && |t.statusValue| == |t.status|
    ensures ApplyAll(t, net, a + b, ch) == ApplyAll(t, net, b, ApplyAll(t, net, a, ch))
    decreases |b|
  {
    if b == [] {
      assert a + b == a;
    } else {
      var n := |a + b| - 1;
      assert (a + b)[..n] == a + b[..|b| - 1];
      ApplyAllAppend(t, net, a, b[..|b| - 1], ch);
    }
  }
}
