// Writing names into a message with suffix compression: irc_dn_find() and irc_ns_name_pack(), and
// the message that any number of packed names leaves (libathemecore/reslib.c:831-939, 1055-1124).
module DnsPack {
  import opened Basics
  import opened DnsWire

  // ---- what is searched ----

  // The first label of the run at sp, in reach of a pointer, from where the message says name.
  ghost function MatchInRun(msg: seq<Byte>, sp: nat, end: nat, name: seq<Label>): (r: Option<nat>)
    requires Chain(msg, sp, sp, end)
    ensures r.Some? ==> Pointable(msg, r.value, end) && SameName(Labels(msg, r.value, r.value, end), name)
    decreases end - sp
  {
    if sp < MAXOFFSET && IsLabel(msg[sp]) then
      if SameName(Labels(msg, sp, sp, end), name) then Some(sp)
      else
        NextLabel(msg, sp, end);
        MatchInRun(msg, sp + 1 + msg[sp], end, name)
    else None
  }

  // An offset that a pointer behind end may point at.
  ghost predicate Pointable(msg: seq<Byte>, p: nat, end: nat) {
    p < MAXOFFSET && Chain(msg, p, p, end) && IsLabel(msg[p])
  }

  lemma NextLabel(msg: seq<Byte>, sp: nat, end: nat)
    requires Chain(msg, sp, sp, end) && IsLabel(msg[sp])
    ensures sp + 1 + msg[sp] < end && Chain(msg, sp + 1 + msg[sp], sp + 1 + msg[sp], end)
  {
    var next := sp + 1 + msg[sp];
    assert Chain(msg, sp, next, end);
    ChainFrame(msg, msg, sp, next, end, next, end);
  }

  ghost function FirstMatch(msg: seq<Byte>, table: seq<nat>, end: nat, name: seq<Label>): (r: Option<nat>)
    requires forall p <- table :: Pointable(msg, p, end)
    ensures r.Some? ==> Pointable(msg, r.value, end) && SameName(Labels(msg, r.value, r.value, end), name)
  {
    if table == [] then None
    else
      assert table[0] in table && Pointable(msg, table[0], end);
      var r := MatchInRun(msg, table[0], end, name);
      if r.Some? then r else FirstMatch(msg, table[1..], end, name)
  }

  function PointerTo(q: nat): (w: seq<Byte>)
    requires q < MAXOFFSET
    ensures |w| == 2
  {
    [192 + q / 256, q % 256]
  }

  // The bytes of a compressed name: labels up to the first suffix the table knows.
  ghost function Compressed(msg: seq<Byte>, table: seq<nat>, end: nat, name: seq<Label>): (w: seq<Byte>)
    requires forall p <- table :: Pointable(msg, p, end)
  {
    if name == [] then [0]
    else
      var at := FirstMatch(msg, table, end, name);
      if at.Some? then PointerTo(at.value)
      else [|name[0]|] + name[0] + Compressed(msg, table, end, name[1..])
  }

  lemma CompressedParts(msg: seq<Byte>, table: seq<nat>, end: nat, name: seq<Label>)
    requires forall p <- table :: Pointable(msg, p, end)
    ensures name == [] ==> Compressed(msg, table, end, name) == [0]
    ensures name != [] ==>
              var at := FirstMatch(msg, table, end, name);
              Compressed(msg, table, end, name)
              == if at.Some? then PointerTo(at.value)
                 else [|name[0]|] + name[0] + Compressed(msg, table, end, name[1..])
  {
    hide FirstMatch, Pointable;
  }

  lemma CompressedLabel(msg: seq<Byte>, table: seq<nat>, end: nat, done: seq<Label>, rest: seq<Label>)
    requires forall p <- table :: Pointable(msg, p, end)
    requires rest != [] && FirstMatch(msg, table, end, rest) == None
    ensures Written(done) + Compressed(msg, table, end, rest)
         == Written(done + [rest[0]]) + Compressed(msg, table, end, rest[1..])
  {
    WrittenSnoc(done, rest[0]);
  }

  // ---- reading a compressed name back ----

  lemma SameFirst(a: Label, x: seq<Label>, b: Label, y: seq<Label>)
    ensures SameName([a] + x, [b] + y) <==> SameLabel(a, b) && SameName(x, y)
  {
    if SameName([a] + x, [b] + y) {
      assert ([a] + x)[0] == a && ([b] + y)[0] == b;
      forall i | 0 <= i < |x| ensures SameLabel(x[i], y[i]) {
        assert ([a] + x)[i + 1] == x[i] && ([b] + y)[i + 1] == y[i];
      }
    }
  }

  lemma PointerReads(msg: seq<Byte>, end: nat, t: nat, msg': seq<Byte>, start: nat, pos: nat, limit: nat)
    requires end <= |msg| && end <= start <= pos && end <= |msg'| && msg[..end] == msg'[..end] && Pointable(msg, t, end)
    requires pos + 2 <= limit <= |msg'| && msg'[pos] == PointerTo(t)[0] && msg'[pos + 1] == PointerTo(t)[1]
    ensures Chain(msg', start, pos, limit) && RunEnd(msg', start, pos, limit) == pos + 2
    ensures Labels(msg', start, pos, limit) == Labels(msg, t, t, end)
  {
    assert Target(msg'[pos], msg'[pos + 1]) == t;
    ChainFrame(msg, msg', t, t, end, t, start);
    assert msg'[t] == msg'[..end][t] == msg[..end][t] == msg[t];
  }

  // A compressed name behind the packed part says the name, up to letter case, and is as long as it
  // is written.
  lemma {:induction false} CompressedReads(msg: seq<Byte>, table: seq<nat>, end: nat, name: seq<Label>, msg': seq<Byte>, start: nat, pos: nat, limit: nat)
    requires forall p <- table :: Pointable(msg, p, end)
    requires end <= |msg| && end <= start <= pos && end <= |msg'| && msg[..end] == msg'[..end]
    requires var w := Compressed(msg, table, end, name); pos + |w| <= limit <= |msg'| && msg'[pos..pos + |w|] == w
    ensures Chain(msg', start, pos, limit)
    ensures SameName(Labels(msg', start, pos, limit), name)
    ensures RunEnd(msg', start, pos, limit) == pos + |Compressed(msg, table, end, name)|
    decreases |name|
  {
    hide SameName, SameLabel, Target, FirstMatch;
    var w := Compressed(msg, table, end, name);
    var part := msg'[pos..pos + |w|];
    assert part[0] == msg'[pos];
    if name == [] {
      EmptyName([], []);
    } else {
      var at := FirstMatch(msg, table, end, name);
      if at.Some? {
        assert part[1] == msg'[pos + 1];
        PointerReads(msg, end, at.value, msg', start, pos, limit);
      } else {
        LabelSlices(msg', pos, name[0], Compressed(msg, table, end, name[1..]));
        CompressedReads(msg, table, end, name[1..], msg', start, pos + 1 + |name[0]|, limit);
        LabelReads(msg', start, pos, limit, name);
      }
    }
  }

  lemma LabelSlices(msg: seq<Byte>, pos: nat, l: Label, rest: seq<Byte>)
    requires var w := [|l|] + l + rest; pos + |w| <= |msg| && msg[pos..pos + |w|] == w
    ensures msg[pos] == |l| && msg[pos + 1..pos + 1 + |l|] == l
    ensures var next := pos + 1 + |l|; msg[next..next + |rest|] == rest
  {
    var w := [|l|] + l + rest;
    assert w[1..1 + |l|] == l && w[1 + |l|..] == rest;
    SliceParts(msg, pos, w, |l|);
  }

  lemma LabelReads(msg: seq<Byte>, start: nat, pos: nat, limit: nat, name: seq<Label>)
    requires name != [] && start <= pos < |msg| && msg[pos] == |name[0]| && Chain(msg, start, pos + 1 + |name[0]|, limit)
    requires msg[pos + 1..pos + 1 + |name[0]|] == name[0]
    requires SameName(Labels(msg, start, pos + 1 + |name[0]|, limit), name[1..])
    ensures Chain(msg, start, pos, limit) && SameName(Labels(msg, start, pos, limit), name)
    ensures RunEnd(msg, start, pos, limit) == RunEnd(msg, start, pos + 1 + |name[0]|, limit)
  {
    hide SameName, SameLabel, Chain, Labels, RunEnd;
    ChainLabel(msg, start, pos, limit);
    LabelParts(name[0], Labels(msg, start, pos + 1 + |name[0]|, limit), name);
    SameSelf(name[0]);
  }

  lemma SameSelf(l: Label)
    ensures SameLabel(l, l)
  {
  }

  lemma EmptyName(a: seq<Label>, b: seq<Label>)
    requires a == [] || b == []
    ensures SameName(a, b) <==> a == b
  {
  }

  // Comparing names label by label.
  lemma LabelParts(l: Label, x: seq<Label>, rest: seq<Label>)
    requires rest != []
    ensures SameName([l] + x, rest) <==> SameLabel(l, rest[0]) && SameName(x, rest[1..])
    ensures SameLabel(l, rest[0]) ==> |l| == |rest[0]|
  {
    SameFirst(l, x, rest[0], rest[1..]);
    assert rest == [rest[0]] + rest[1..];
  }

  // ---- the search as a program ----

  // A name written out in full at d.
  ghost predicate WireAt(src: seq<Byte>, d: nat, name: seq<Label>) {
    WrittenAt(src, d, name) && d + |Written(name)| < |src| && src[d + |Written(name)|] == 0
  }

  lemma WireFirst(src: seq<Byte>, d: nat, name: seq<Label>)
    requires WireAt(src, d, name)
    ensures d < |src| && (src[d] == 0 <==> name == [])
    ensures name != [] ==>
              && src[d] == |name[0]| && d + 1 + |name[0]| < |src| && src[d + 1..d + 1 + |name[0]|] == name[0]
              && WireAt(src, d + 1 + |name[0]|, name[1..])
  {
    if name != [] {
      FirstWritten(src, d, name);
    }
  }

  // The comparison loops of irc_dn_find() at one label of a run.
  method SameLabels(buf: array<Byte>, cp: nat, src: seq<Byte>, dn: nat, n: nat) returns (same: bool)
    requires 1 <= n <= 63 && cp + n <= buf.Length && dn + n <= |src|
    ensures same <==> SameLabel(buf[cp..cp + n], src[dn..dn + n])
  {
    ghost var a, b := buf[cp..cp + n], src[dn..dn + n];
    var i := 0;
    while i < n
      invariant i <= n
      invariant forall j :: 0 <= j < i ==> MkLower(a[j]) == MkLower(b[j])
    {
      assert a[i] == buf[cp + i] && b[i] == src[dn + i];
      if MkLower(src[dn + i]) != MkLower(buf[cp + i]) {
        return false;
      }
      i := i + 1;
    }
    same := true;
  }

  // What stands at a label, a pointer or the root of a readable name.
  lemma ChainParts(msg: seq<Byte>, start: nat, cp: nat, lim: nat)
    requires Chain(msg, start, cp, lim)
    ensures start <= cp < lim <= |msg| && (msg[cp] == 0 <==> Labels(msg, start, cp, lim) == [])
    ensures msg[cp] == 0 || IsLabel(msg[cp]) || IsPointer(msg[cp])
    ensures IsLabel(msg[cp]) ==>
              var next := cp + 1 + msg[cp];
              && next < lim && Chain(msg, start, next, lim)
              && Labels(msg, start, cp, lim) == [msg[cp + 1..next]] + Labels(msg, start, next, lim)
    ensures IsPointer(msg[cp]) ==>
              && cp + 1 < lim
              && var t := Target(msg[cp], msg[cp + 1]);
                 Chain(msg, t, t, start) && Labels(msg, start, cp, lim) == Labels(msg, t, t, start)
  {
  }

  // irc_dn_find() for one label of one run: whether the message says name there.
  method SameAt(buf: array<Byte>, sp: nat, ghost end: nat, src: seq<Byte>, d: nat, ghost name: seq<Label>) returns (same: bool)
    requires Chain(buf[..], sp, sp, end) && WireAt(src, d, name) && name != []
    ensures same <==> SameName(Labels(buf[..], sp, sp, end), name)
  {
    hide Chain, Labels, Written, WrittenAt, SameName, SameLabel, Target;
    var cp: nat, dn: nat := sp, d;
    ghost var msg, start: nat, lim: nat, rest := buf[..], sp, end, name;
    while true
      invariant msg == buf[..] && Chain(msg, start, cp, lim) && WireAt(src, dn, rest) && rest != []
      invariant SameName(Labels(msg, sp, sp, end), name) <==> SameName(Labels(msg, start, cp, lim), rest)
      decreases lim, lim - cp
    {
      ChainParts(msg, start, cp, lim);
      WireFirst(src, dn, rest);
      var n := buf[cp];
      if n == 0 {
        EmptyName([], rest);
        return false;
      }
      if IsLabel(n) {
        LabelParts(msg[cp + 1..cp + 1 + n], Labels(msg, start, cp + 1 + n, lim), rest);
        if n != src[dn] {
          return false;
        }
        var same1 := SameLabels(buf, cp + 1, src, dn + 1, n);
        assert buf[cp + 1..cp + 1 + n] == msg[cp + 1..cp + 1 + n];
        if !same1 {
          return false;
        }
        dn, cp, rest := dn + 1 + n, cp + 1 + n, rest[1..];
        WireFirst(src, dn, rest);
        ChainParts(msg, start, cp, lim);
        if src[dn] == 0 {
          EmptyName(Labels(msg, start, cp, lim), rest);
          return buf[cp] == 0;
        }
      } else {
        var t := Target(n, buf[cp + 1]);
        start, lim, cp := t, start, t;
      }
    }
  }

  // irc_dn_find() for one run: its labels in reach of a pointer, one after the other.
  method FindInRun(buf: array<Byte>, first: nat, ghost end: nat, src: seq<Byte>, d: nat, ghost name: seq<Label>) returns (r: Option<nat>)
    requires Chain(buf[..], first, first, end) && WireAt(src, d, name) && name != []
    ensures r == MatchInRun(buf[..], first, end, name)
  {
    hide Chain, Labels, SameName, WireAt;
    var sp := first;
    ghost var msg := buf[..];
    ChainParts(msg, sp, sp, end);
    while buf[sp] != 0 && buf[sp] < 64 && sp < MAXOFFSET
      invariant Chain(msg, sp, sp, end) && sp < end <= buf.Length && msg == buf[..]
      invariant MatchInRun(msg, sp, end, name) == MatchInRun(msg, first, end, name)
      decreases end - sp
    {
      var same := SameAt(buf, sp, end, src, d, name);
      if same {
        return Some(sp);
      }
      NextLabel(msg, sp, end);
      sp := sp + 1 + buf[sp];
      ChainParts(msg, sp, sp, end);
    }
    r := None;
  }

  // irc_dn_find()
  method DnFind(buf: array<Byte>, table: seq<nat>, ghost end: nat, src: seq<Byte>, d: nat, ghost name: seq<Label>) returns (r: Option<nat>)
    requires (forall p <- table :: Pointable(buf[..], p, end)) && WireAt(src, d, name) && name != []
    ensures r == FirstMatch(buf[..], table, end, name)
  {
    hide Chain, MatchInRun, SameName, WireAt;
    var i := 0;
    while i < |table|
      invariant i <= |table|
      invariant FirstMatch(buf[..], table[i..], end, name) == FirstMatch(buf[..], table, end, name)
    {
      assert table[i] in table && Pointable(buf[..], table[i], end);
      assert table[i..][0] == table[i] && table[i..][1..] == table[i + 1..];
      r := FindInRun(buf, table[i], end, src, d, name);
      if r.Some? {
        return;
      }
      i := i + 1;
    }
    r := None;
  }

  // ---- packing ----

  // Reading the labels of src from i, the length check stops before the end of src.
  predicate Bounded(src: seq<Byte>, i: nat)
    decreases |src| - i
  {
    i < |src| && (src[i] == 0 || src[i] >= 64 || i + 1 + src[i] > MAXNAME || Bounded(src, i + 1 + src[i]))
  }

  // The legal name that ends a legal prefix of i bytes.
  function NameAt(src: seq<Byte>, i: nat): Option<seq<Label>>
    decreases |src| - i
  {
    if i >= |src| || src[i] >= 64 || i + src[i] + 1 > MAXNAME then None
    else if src[i] == 0 then Some([])
    else if i + 1 + src[i] > |src| then None
    else
      var rest := NameAt(src, i + 1 + src[i]);
      if rest.None? then None else Some([src[i + 1..i + 1 + src[i]]] + rest.value)
  }

  lemma {:induction false} NameAtSound(src: seq<Byte>, i: nat)
    requires NameAt(src, i).Some?
    ensures WireAt(src, i, NameAt(src, i).value) && i + |Wire(NameAt(src, i).value)| <= MAXNAME
    decreases |src| - i
  {
    var name := NameAt(src, i).value;
    if src[i] != 0 {
      var n := src[i];
      NameAtSound(src, i + 1 + n);
      WrittenParts(name);
      JoinWritten(src, i, name);
    }
  }

  lemma JoinWritten(src: seq<Byte>, i: nat, name: seq<Label>)
    requires name != [] && i + 1 + |name[0]| <= |src|
    requires src[i] == |name[0]| && src[i + 1..i + 1 + |name[0]|] == name[0] && WrittenAt(src, i + 1 + |name[0]|, name[1..])
    ensures WrittenAt(src, i, name) && |Written(name)| == 1 + |name[0]| + |Written(name[1..])|
  {
    var n, w := |name[0]|, Written(name);
    var rest := Written(name[1..]);
    assert w == [n] + name[0] + rest;
    assert src[i..i + |w|] == [src[i]] + src[i + 1..i + 1 + n] + src[i + 1 + n..i + |w|];
  }

  lemma {:induction false} NameAtComplete(src: seq<Byte>, i: nat, name: seq<Label>)
    requires WireAt(src, i, name) && i + |Wire(name)| <= MAXNAME
    ensures NameAt(src, i) == Some(name)
    decreases |name|
  {
    WireFirst(src, i, name);
    if name != [] {
      WrittenParts(name);
      NameAtComplete(src, i + 1 + |name[0]|, name[1..]);
      assert name == [name[0]] + name[1..];
    }
  }

  // The check of irc_ns_name_pack() that the name it is given is legal.
  method CheckLegal(src: seq<Byte>) returns (ok: bool)
    requires Bounded(src, 0)
    ensures ok <==> NameAt(src, 0).Some?
  {
    var i: nat := 0;
    while true
      invariant Bounded(src, i) && (NameAt(src, i).Some? <==> NameAt(src, 0).Some?)
      decreases |src| - i
    {
      var n := src[i];
      if n >= 64 {
        return false;
      }
      if i + n + 1 > MAXNAME {
        return false;
      }
      if n == 0 {
        return true;
      }
      i := i + 1 + n;
    }
  }
}
