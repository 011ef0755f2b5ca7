// What mode requests and mode letters do to a channel, told by its flags, its limit, key, ext modes,
// bans and members one by one (libathemecore/cmode.c:116-357, libathemecore/channels.c:221-313).
module ModeEffects {
  import opened Basics
  import opened CaseMap
  import opened Text
  import opened ChannelModes

  // ---- one kind of change, and everything else as it was ----

  ghost predicate OnlyFlag(a: Flags, b: Flags, f: nat, on: bool) {
    (f in b <==> on) && forall x :: x != f ==> (x in b <==> x in a)
  }

  ghost predicate FlagChanged(a: ChanState, b: ChanState, f: nat, on: bool) {
    && OnlyFlag(a.modes, b.modes, f, on)
    && b.limit == a.limit && b.key == a.key && b.ext == a.ext && b.bans == a.bans && b.members == a.members
  }

  // The flags of a request that have a letter; the others stay as they are.
  ghost predicate FlagsChanged(t: Tables, a: ChanState, b: ChanState, flags: Flags, on: bool) {
    && (forall x :: x in b.modes <==> if x in flags && x in t.simpleValue then on else x in a.modes)
    && b.limit == a.limit && b.key == a.key && b.ext == a.ext && b.bans == a.bans && b.members == a.members
  }

  ghost predicate LimitChanged(a: ChanState, b: ChanState, n: nat) {
    && b.limit == n && OnlyFlag(a.modes, b.modes, CMODE_LIMIT, n > 0)
    && b.key == a.key && b.ext == a.ext && b.bans == a.bans && b.members == a.members
  }

  ghost predicate KeyChanged(a: ChanState, b: ChanState, k: Option<string>) {
    && b.key == k && OnlyFlag(a.modes, b.modes, CMODE_KEY, k != None)
    && b.limit == a.limit && b.ext == a.ext && b.bans == a.bans && b.members == a.members
  }

  ghost predicate ExtChanged(a: ChanState, b: ChanState, i: nat, v: Option<string>) {
    && |b.ext| == |a.ext| && i < |a.ext| && b.ext[i] == v && (forall j :: 0 <= j < |a.ext| && j != i ==> b.ext[j] == a.ext[j])
    && b.modes == a.modes && b.limit == a.limit && b.key == a.key && b.bans == a.bans && b.members == a.members
  }

  ghost predicate IsBan(m: Mapping, x: Ban, kind: char, mask: string) {
    x.kind == kind && SameName(m, x.mask, mask)
  }

  ghost predicate BansOnly(a: ChanState, b: ChanState) {
    b.modes == a.modes && b.limit == a.limit && b.key == a.key && b.ext == a.ext && b.members == a.members
  }

  // A valid mask that is not listed is listed last; all others stay in order.
  ghost predicate BanAdded(m: Mapping, a: ChanState, b: ChanState, kind: char, mask: string) {
    && BansOnly(a, b)
    && if ValidValue(mask) && (forall x <- a.bans :: !IsBan(m, x, kind, mask))
       then |b.bans| == |a.bans| + 1 && b.bans[|a.bans|] == Ban(kind, mask) && forall j :: 0 <= j < |a.bans| ==> b.bans[j] == a.bans[j]
       else b.bans == a.bans
  }

  ghost predicate FirstBan(m: Mapping, bans: seq<Ban>, kind: char, mask: string, i: nat) {
    i < |bans| && IsBan(m, bans[i], kind, mask) && forall j :: 0 <= j < i ==> !IsBan(m, bans[j], kind, mask)
  }

  ghost predicate WithoutAt(a: seq<Ban>, b: seq<Ban>, i: nat) {
    && i < |a| && |b| == |a| - 1 && (forall j :: 0 <= j < i ==> b[j] == a[j])
    && forall j :: i < j < |a| ==> b[j - 1] == a[j]
  }

  // The first such ban is gone; all others stay in order.
  ghost predicate BanTaken(m: Mapping, a: ChanState, b: ChanState, kind: char, mask: string) {
    && BansOnly(a, b)
    && ((forall x <- a.bans :: !IsBan(m, x, kind, mask)) ==> b.bans == a.bans)
    && forall i: nat :: FirstBan(m, a.bans, kind, mask, i) ==> WithoutAt(a.bans, b.bans, i)
  }

  ghost predicate StatusChanged(a: ChanState, b: ChanState, u: nat, f: nat, on: bool) {
    && u in a.members && b.members.Keys == a.members.Keys && OnlyFlag(a.members[u], b.members[u], f, on)
    && (forall v <- a.members :: v != u ==> b.members[v] == a.members[v])
    && b.modes == a.modes && b.limit == a.limit && b.key == a.key && b.ext == a.ext && b.bans == a.bans
  }

  // A member named by the target has the flag changed; with no such member nothing is.
  ghost predicate TargetChanged(net: Network, a: ChanState, b: ChanState, target: string, f: nat, on: bool) {
    var u := net.UserFind(target);
    if u.Some? && u.value in a.members then StatusChanged(a, b, u.value, f, on) else b == a
  }

  // ---- requests ----

  // What a request does: flags and slots are set or cleared, bans and statuses come and go.
  ghost predicate Carried(t: Tables, net: Network, r: Request, a: ChanState, b: ChanState) {
    |t.statusValue| == |t.status| &&
    match r
    case Simple(Nul, _) => b == a
    case Simple(dir, flags) => FlagsChanged(t, a, b, flags, dir == Add)
    case Limit(dir, n) => LimitChanged(a, b, if dir == Add then n else 0)
    case Ext(dir, i, v) => if i < |a.ext| then ExtChanged(a, b, i, if dir == Add then Some(v) else None) else b == a
    case Param(dir, kind, v) =>
      if kind == 'k' then KeyChanged(a, b, if dir == Add then Some(v) else None)
      else if kind in t.banLike then
        if dir == Add then BanAdded(net.mapping, a, b, kind, v) else BanTaken(net.mapping, a, b, kind, v)
      else
        && (kind !in t.status ==> b == a)
        && forall i :: 0 <= i < |t.status| && t.status[i] == kind && kind !in t.status[..i] ==>
             TargetChanged(net, a, b, v, t.statusValue[i], dir == Add)
  }

  lemma BanFound(m: Mapping, bans: seq<Ban>, kind: char, mask: string)
    ensures var k := BanFind(m, bans, kind, mask);
      if k < |bans| then FirstBan(m, bans, kind, mask, k) && bans[k] in bans
      else forall x <- bans :: !IsBan(m, x, kind, mask)
    ensures forall i: nat :: FirstBan(m, bans, kind, mask, i) ==> i == BanFind(m, bans, kind, mask)
  {
    var k := BanFind(m, bans, kind, mask);
    if k == |bans| {
      forall x <- bans ensures !IsBan(m, x, kind, mask) {
        var j :| 0 <= j < |bans| && bans[j] == x;
      }
    }
    forall i: nat | FirstBan(m, bans, kind, mask, i) ensures i == k {
      assert i < k ==> !IsBan(m, bans[i], kind, mask);
    }
  }

  lemma BanTakenIs(m: Mapping, ch: ChanState, kind: char, mask: string)
    ensures BanTaken(m, ch, SetBan(m, ch, Del, kind, mask), kind, mask)
  {
    BanFound(m, ch.bans, kind, mask);
    var k := BanFind(m, ch.bans, kind, mask);
    if k < |ch.bans| {
      assert WithoutAt(ch.bans, ch.bans[..k] + ch.bans[k + 1..], k);
    }
    hide FirstBan, IsBan, WithoutAt;
  }

  lemma BanAddedIs(m: Mapping, ch: ChanState, kind: char, mask: string)
    ensures BanAdded(m, ch, SetBan(m, ch, Add, kind, mask), kind, mask)
  {
    BanFound(m, ch.bans, kind, mask);
  }

  lemma FoundFirst(s: string, i: nat)
    requires i < |s| && s[i] !in s[..i]
    ensures Find(s, s[i]) == i
  {
    var k := Find(s, s[i]);
    forall j | 0 <= j < i ensures s[j] != s[i] {
      assert s[j] in s[..i];
    }
  }

  lemma TargetIs(net: Network, ch: ChanState, dir: Dir, f: nat, target: string)
    ensures TargetChanged(net, ch, SetStatus(net, ch, dir, f, target), target, f, dir == Add)
  {
  }

  // Applying a request does exactly that.
  lemma ApplyCarries(t: Tables, net: Network, r: Request, ch: ChanState)
    requires |t.simpleValue| == |t.simple| && |t.statusValue| == |t.status|
    ensures Carried(t, net, r, ch, Apply(t, net, r, ch))
  {
    match r
    case Simple(_, _) =>
    case Limit(_, _) =>
    case Ext(_, _, _) =>
    case Param(dir, kind, v) => ParamCarries(t, net, dir, kind, v, ch);
  }

  lemma ParamCarries(t: Tables, net: Network, dir: Dir, kind: char, v: string, ch: ChanState)
    requires |t.simpleValue| == |t.simple| && |t.statusValue| == |t.status|
    ensures Carried(t, net, Param(dir, kind, v), ch, Apply(t, net, Param(dir, kind, v), ch))
  {
    if kind == 'k' {
    } else if kind in t.banLike {
      BanAddedIs(net.mapping, ch, kind, v);
      BanTakenIs(net.mapping, ch, kind, v);
      hide BanAdded, BanTaken;
    } else {
      hide TargetChanged, SetStatus;
      forall i | 0 <= i < |t.status| && t.status[i] == kind && kind !in t.status[..i]
        ensures TargetChanged(net, ch, Apply(t, net, Param(dir, kind, v), ch), v, t.statusValue[i], dir == Add) {
        FoundFirst(t.status, i);
        TargetIs(net, ch, dir, t.statusValue[i], v);
      }
    }
  }

  lemma StatusOnce(a: ChanState, b: ChanState, c: ChanState, u: nat, f: nat, on: bool)
    requires StatusChanged(a, b, u, f, on) && StatusChanged(a, c, u, f, on)
    ensures b == c
  {
    assert b.members[u] == c.members[u];
    assert b.members == c.members;
  }

  lemma BanTakenOnce(m: Mapping, a: ChanState, b: ChanState, c: ChanState, kind: char, mask: string)
    requires BanTaken(m, a, b, kind, mask) && BanTaken(m, a, c, kind, mask)
    ensures b == c
  {
    BanFound(m, a.bans, kind, mask);
    var k := BanFind(m, a.bans, kind, mask);
    if k < |a.bans| {
      forall j | 0 <= j < |b.bans| ensures b.bans[j] == c.bans[j] {
        assert j >= k ==> b.bans[j + 1 - 1] == a.bans[j + 1] && c.bans[j + 1 - 1] == a.bans[j + 1];
      }
    }
  }

  lemma BanAddedOnce(m: Mapping, a: ChanState, b: ChanState, c: ChanState, kind: char, mask: string)
    requires BanAdded(m, a, b, kind, mask) && BanAdded(m, a, c, kind, mask)
    ensures b == c
  {
    assert b.bans == c.bans;
  }

  // And nothing else does: what a request makes of a channel is decided by the parts told above.
  lemma CarriedOnce(t: Tables, net: Network, r: Request, a: ChanState, b: ChanState)
    requires |t.simpleValue| == |t.simple| && Carried(t, net, r, a, b)
    ensures b == Apply(t, net, r, a)
  {
    ApplyCarries(t, net, r, a);
    var c := Apply(t, net, r, a);
    match r
    case Simple(_, _) => assert b.modes == c.modes;
    case Limit(_, _) => assert b.modes == c.modes;
    case Ext(_, _, _) => assert b.ext == c.ext;
    case Param(dir, kind, v) =>
      hide Apply;
      if kind == 'k' {
        assert b.modes == c.modes;
      } else if kind in t.banLike {
        if dir == Add {
          BanAddedOnce(net.mapping, a, b, c, kind, v);
        } else {
          BanTakenOnce(net.mapping, a, b, c, kind, v);
        }
      } else if kind in t.status {
        StatusDecided(t, net, dir, kind, v, a, b, c);
      }
  }

  lemma StatusDecided(t: Tables, net: Network, dir: Dir, kind: char, v: string, a: ChanState, b: ChanState, c: ChanState)
    requires kind != 'k' && kind !in t.banLike && kind in t.status
    requires Carried(t, net, Param(dir, kind, v), a, b) && Carried(t, net, Param(dir, kind, v), a, c)
    ensures b == c
  {
    var i := Find(t.status, kind);
    assert kind !in t.status[..i];
    assert TargetChanged(net, a, b, v, t.statusValue[i], dir == Add) && TargetChanged(net, a, c, v, t.statusValue[i], dir == Add);
    var u := net.UserFind(v);
    if u.Some? && u.value in a.members {
      StatusOnce(a, b, c, u.value, t.statusValue[i], dir == Add);
    }
  }

  // ---- letters ----

  // The parameter after the last one used, if there is one.
  function Argument(parv: seq<string>, s: Cursor): Option<string> {
    if s.parpos + 1 < |parv| then Some(parv[s.parpos + 1]) else None
  }

  ghost predicate AsBefore(s: Cursor, s': Cursor, used: nat) {
    s'.chan == s.chan && s'.parpos == s.parpos + used
  }

  // What reading one letter at a cursor does: to the channel, to the count of parameters used and to
  // the direction. An addition with a value that is missing or not accepted only uses the parameter.
  ghost predicate LetterRead(t: Tables, net: Network, local: bool, c: char, parv: seq<string>, s: Cursor, s': Cursor)
    requires |t.simpleValue| == |t.simple| && |t.statusValue| == |t.status|
  {
    var (a, b, arg, on) := (s.chan, s'.chan, Argument(parv, s), s.dir == Add);
    if c == '+' || c == '-' then AsBefore(s, s', 0) && s'.dir == if c == '+' then Add else Del
    else
      && s'.dir == s.dir
      && (forall i :: 0 <= i < |t.simple| && t.simple[i] == c ==> s'.parpos == s.parpos && FlagChanged(a, b, t.simpleValue[i], on))
      && (forall i :: 0 <= i < |t.ext| && t.ext[i] == c ==>
            if !on then s'.parpos == s.parpos && ExtChanged(a, b, i, None)
            else if arg.Some? && (!local || net.check(i, arg.value)) then s'.parpos == s.parpos + 1 && ExtChanged(a, b, i, arg)
            else AsBefore(s, s', 1))
      && (c == 'l' ==>
            if !on then s'.parpos == s.parpos && LimitChanged(a, b, 0)
            else if arg.Some? then s'.parpos == s.parpos + 1 && LimitChanged(a, b, ReadLimit(arg.value))
            else AsBefore(s, s', 1))
      && (c == 'k' ==>
            s'.parpos == s.parpos + 1 &&
            if !on then KeyChanged(a, b, None) else if arg.Some? then KeyChanged(a, b, arg) else b == a)
      && (c in t.banLike ==>
            s'.parpos == s.parpos + 1 &&
            if arg.None? then b == a
            else if on then BanAdded(net.mapping, a, b, c, arg.value) else BanTaken(net.mapping, a, b, c, arg.value))
      && (forall i :: 0 <= i < |t.status| && t.status[i] == c && c !in t.status[..i] ==>
            s'.parpos == s.parpos + 1 &&
            if arg.None? then b == a else TargetChanged(net, a, b, arg.value, t.statusValue[i], on))
      && (c !in t.simple && c !in t.ext && c !in "lk" && c !in t.banLike && c !in t.status ==> AsBefore(s, s', 0))
  }

  // The letters of the tables are apart from each other and from the signs, k and l.
  lemma LettersApart(t: Tables, c: char)
    requires t.Valid()
    ensures c in t.simple ==> c !in t.ext && c !in "lk" && c !in t.banLike && c !in t.status && c != '+' && c != '-'
    ensures c in t.ext ==> c !in "lk" && c !in t.banLike && c !in t.status && c != '+' && c != '-'
    ensures c in "lk" ==> c !in t.banLike && c !in t.status
    ensures c in t.banLike ==> c !in t.status && c != '+' && c != '-'
    ensures c in t.status ==> c != '+' && c != '-'
  {
    assert '+' in "+- " && '-' in "+- ";
  }

  lemma OnlyPlace(s: string, i: nat)
    requires i < |s| && DistinctLetters(s)
    ensures Find(s, s[i]) == i
  {
    assert s[i] !in s[..i];
    FoundFirst(s, i);
  }

  lemma StatusReads(t: Tables, net: Network, local: bool, c: char, parv: seq<string>, s: Cursor)
    requires t.Valid() && |s.chan.ext| == |t.ext| && c in t.status
    ensures LetterRead(t, net, local, c, parv, s, StepLetter(t, net, local, c, parv, s))
  {
    LettersApart(t, c);
    hide FlagChanged, ExtChanged, LimitChanged, KeyChanged, BanAdded, BanTaken, TargetChanged, Tables.Valid;
    var s', arg := StepLetter(t, net, local, c, parv, s), Argument(parv, s);
    forall i | 0 <= i < |t.status| && t.status[i] == c && c !in t.status[..i]
      ensures if arg.None? then s'.chan == s.chan else TargetChanged(net, s.chan, s'.chan, arg.value, t.statusValue[i], s.dir == Add) {
      FoundFirst(t.status, i);
      if arg.Some? {
        TargetIs(net, s.chan, if s.dir == Add then Add else Del, t.statusValue[i], arg.value);
      }
    }
  }

  lemma SimpleReads(t: Tables, net: Network, local: bool, c: char, parv: seq<string>, s: Cursor)
    requires t.Valid() && |s.chan.ext| == |t.ext| && c in t.simple
    ensures LetterRead(t, net, local, c, parv, s, StepLetter(t, net, local, c, parv, s))
  {
    LettersApart(t, c);
    forall i | 0 <= i < |t.simple| && t.simple[i] == c ensures Find(t.simple, c) == i {
      OnlyPlace(t.simple, i);
    }
    hide ExtChanged, LimitChanged, KeyChanged, BanAdded, BanTaken, TargetChanged, Tables.Valid;
  }

  lemma ExtReads(t: Tables, net: Network, local: bool, c: char, parv: seq<string>, s: Cursor)
    requires t.Valid() && |s.chan.ext| == |t.ext| && c in t.ext
    ensures LetterRead(t, net, local, c, parv, s, StepLetter(t, net, local, c, parv, s))
  {
    LettersApart(t, c);
    forall i | 0 <= i < |t.ext| && t.ext[i] == c ensures Find(t.ext, c) == i {
      OnlyPlace(t.ext, i);
    }
    hide FlagChanged, LimitChanged, KeyChanged, BanAdded, BanTaken, TargetChanged, Tables.Valid;
  }

  lemma BanReads(t: Tables, net: Network, local: bool, c: char, parv: seq<string>, s: Cursor)
    requires t.Valid() && |s.chan.ext| == |t.ext| && c in t.banLike
    ensures LetterRead(t, net, local, c, parv, s, StepLetter(t, net, local, c, parv, s))
  {
    LettersApart(t, c);
    hide FlagChanged, ExtChanged, LimitChanged, KeyChanged, BanAdded, BanTaken, TargetChanged, Tables.Valid;
    if s.parpos + 1 < |parv| {
      BanAddedIs(net.mapping, s.chan, c, parv[s.parpos + 1]);
      BanTakenIs(net.mapping, s.chan, c, parv[s.parpos + 1]);
    }
  }

  // One step of reading does what a letter is to do.
  lemma StepReads(t: Tables, net: Network, local: bool, c: char, parv: seq<string>, s: Cursor)
    requires t.Valid() && |s.chan.ext| == |t.ext|
    ensures LetterRead(t, net, local, c, parv, s, StepLetter(t, net, local, c, parv, s))
  {
    LettersApart(t, c);
    if c in t.simple {
      SimpleReads(t, net, local, c, parv, s);
    } else if c in t.ext {
      ExtReads(t, net, local, c, parv, s);
    } else if c in t.banLike {
      BanReads(t, net, local, c, parv, s);
    } else if c in t.status {
      StatusReads(t, net, local, c, parv, s);
    } else {
      hide FlagChanged, ExtChanged, BanAdded, BanTaken, TargetChanged, Tables.Valid;
    }
  }

  // ---- lines ----

  // The letters are read one after the other.
  ghost predicate Trail(t: Tables, net: Network, local: bool, letters: string, parv: seq<string>, trail: seq<Cursor>)
    requires |t.simpleValue| == |t.simple| && |t.statusValue| == |t.status|
  {
    |trail| == |letters| + 1 &&
    forall k :: 0 <= k < |letters| ==> LetterRead(t, net, local, letters[k], parv, trail[k], trail[k + 1])
  }

  // A line makes b of a channel a: a mode string that is empty or starts with 0 changes nothing, any
  // other one changes it letter by letter, from no direction and no parameter used.
  ghost predicate LineRead(t: Tables, net: Network, local: bool, parv: seq<string>, a: ChanState, b: ChanState)
    requires |t.simpleValue| == |t.simple| && |t.statusValue| == |t.status|
  {
    if parv == [] || parv[0] == "" || parv[0][0] == '0' then b == a
    else
      exists trail: seq<Cursor> :: Trail(t, net, local, parv[0], parv, trail)
        && trail[0].chan == a && trail[0].parpos == 0 && trail[0].dir == Nul && trail[|parv[0]|].chan == b
  }

  lemma {:induction false} TrailOf(t: Tables, net: Network, local: bool, letters: string, parv: seq<string>, s: Cursor)
    returns (trail: seq<Cursor>)
    requires t.Valid() && |s.chan.ext| == |t.ext|
    ensures Trail(t, net, local, letters, parv, trail) && trail[0] == s
    ensures trail[|letters|] == Interp(t, net, local, letters, parv, s)
    decreases |letters|
  {
    hide LetterRead, StepLetter;
    if letters == "" {
      trail := [s];
    } else {
      StepReads(t, net, local, letters[0], parv, s);
      var rest := TrailOf(t, net, local, letters[1..], parv, StepLetter(t, net, local, letters[0], parv, s));
      trail := [s] + rest;
      forall k | 0 <= k < |letters| ensures LetterRead(t, net, local, letters[k], parv, trail[k], trail[k + 1]) {
        assert k > 0 ==> letters[k] == letters[1..][k - 1] && trail[k] == rest[k - 1] && trail[k + 1] == rest[k];
      }
    }
  }

  // Reading a line does what its letters are to do.
  lemma ModesRead(t: Tables, net: Network, local: bool, parv: seq<string>, ch: ChanState)
    requires t.Valid() && |ch.ext| == |t.ext|
    ensures LineRead(t, net, local, parv, ch, ReadModes(t, net, local, parv, ch).chan)
  {
    if !(parv == [] || parv[0] == "" || parv[0][0] == '0') {
      var trail := TrailOf(t, net, local, parv[0], parv, Cursor(ch, 0, Nul, []));
    }
  }

  // A limit written in decimal digits is read as the number, but 0 as 1.
  lemma LimitIsRead(n: nat)
    requires n < 0x1_0000_0000
    ensures ReadLimit(Decimal(n)) == if n == 0 then 1 else n
  {
    AtoiDecimal(n);
  }
}
