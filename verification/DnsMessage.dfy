// A DNS message under construction: the buffer, the table of compression pointers, and every name
// packed so far, each of which can be read back (libathemecore/reslib.c:848-939).
module DnsMessage {
  import opened Basics
  import opened DnsWire
  import opened DnsPack
  import opened DnsCompress
  import opened DnsUnpack

  // A name packed at an offset, and the bytes it took.
  datatype Packed = Packed(at: nat, size: nat, name: seq<Label>)

  ghost predicate Holds(msg: seq<Byte>, end: nat, e: Packed) {
    && LegalName(e.name)
    && Chain(msg, e.at, e.at, end)
    && SameName(Labels(msg, e.at, e.at, end), e.name)
    && RunEnd(msg, e.at, e.at, end) == e.at + e.size
  }

  lemma HoldsFrame(msg: seq<Byte>, msg': seq<Byte>, end: nat, end': nat, e: Packed)
    requires Holds(msg, end, e) && end <= end' <= |msg'| && end <= |msg| && msg[..end] == msg'[..end]
    ensures Holds(msg', end', e)
  {
    ChainFrame(msg, msg', e.at, e.at, end, e.at, end');
  }

  lemma PointableFrame(msg: seq<Byte>, msg': seq<Byte>, p: nat, end: nat, end': nat)
    requires Pointable(msg, p, end) && end <= end' <= |msg'| && end <= |msg| && msg[..end] == msg'[..end]
    ensures Pointable(msg', p, end')
  {
    ChainFrame(msg, msg', p, p, end, p, end');
    assert msg[p] == msg[..end][p] == msg'[..end][p];
  }

  lemma {:induction false} MatchInRunFrame(msg: seq<Byte>, msg': seq<Byte>, sp: nat, end: nat, name: seq<Label>)
    requires Chain(msg, sp, sp, end) && end <= |msg| && end <= |msg'| && msg[..end] == msg'[..end]
    ensures Chain(msg', sp, sp, end) && MatchInRun(msg', sp, end, name) == MatchInRun(msg, sp, end, name)
    decreases end - sp
  {
    ChainFrame(msg, msg', sp, sp, end, sp, end);
    assert msg[sp] == msg[..end][sp] == msg'[..end][sp];
    if sp < MAXOFFSET && IsLabel(msg[sp]) && !SameName(Labels(msg, sp, sp, end), name) {
      NextLabel(msg, sp, end);
      MatchInRunFrame(msg, msg', sp + 1 + msg[sp], end, name);
    }
  }

  lemma {:induction false} FirstMatchFrame(msg: seq<Byte>, msg': seq<Byte>, table: seq<nat>, end: nat, name: seq<Label>)
    requires end <= |msg| && end <= |msg'| && msg[..end] == msg'[..end]
    requires forall p <- table :: Pointable(msg, p, end)
    ensures forall p <- table :: Pointable(msg', p, end)
    ensures FirstMatch(msg', table, end, name) == FirstMatch(msg, table, end, name)
  {
    forall p <- table ensures Pointable(msg', p, end) {
      PointableFrame(msg, msg', p, end, end);
    }
    if table != [] {
      assert table[0] in table && Pointable(msg, table[0], end);
      MatchInRunFrame(msg, msg', table[0], end, name);
      FirstMatchFrame(msg, msg', table[1..], end, name);
    }
  }

  // Names that are the same up to letter case take the same room.
  lemma {:induction false} SameLength(a: seq<Label>, b: seq<Label>)
    requires SameName(a, b)
    ensures |Written(a)| == |Written(b)|
  {
    if a != [] {
      assert SameLabel(a[0], b[0]);
      assert SameName(a[1..], b[1..]) by {
        forall i | 0 <= i < |a[1..]| ensures SameLabel(a[1..][i], b[1..][i]) {
          assert SameLabel(a[i + 1], b[i + 1]);
        }
      }
      SameLength(a[1..], b[1..]);
    }
  }

  // What has been packed is readable in the whole message.
  lemma PackedIsReadable(msg: seq<Byte>, end: nat, e: Packed)
    requires Holds(msg, end, e) && end <= |msg|
    ensures Chain(msg, e.at, e.at, |msg|)
    ensures SameName(Labels(msg, e.at, e.at, |msg|), e.name)
    ensures RunEnd(msg, e.at, e.at, |msg|) == e.at + e.size
    ensures |Wire(Labels(msg, e.at, e.at, |msg|))| <= MAXNAME
  {
    ChainFrame(msg, msg, e.at, e.at, end, e.at, |msg|);
    SameLength(Labels(msg, e.at, e.at, |msg|), e.name);
  }

  // How far a name has been written: the labels done so far stand behind end.
  ghost predicate Progress(msg: seq<Byte>, now: seq<Byte>, table: seq<nat>, end: nat, dstp: nat,
                           name: seq<Label>, done: seq<Label>, rest: seq<Label>)
  {
    && (forall p <- table :: Pointable(msg, p, end))
    && |now| == |msg| && end <= dstp <= |now| && now[..end] == msg[..end]
    && dstp == end + |Written(done)| && now[end..dstp] == Written(done)
    && Compressed(msg, table, end, name) == Written(done) + Compressed(msg, table, end, rest)
    && done + rest == name && (done == [] ==> dstp == end && rest == name)
    && (done != [] ==> FirstMatch(msg, table, end, name).None?)
  }

  lemma StartProgress(msg: seq<Byte>, table: seq<nat>, end: nat, name: seq<Label>)
    requires (forall p <- table :: Pointable(msg, p, end)) && end <= |msg|
    ensures Progress(msg, msg, table, end, end, name, [], name)
  {
    assert [] + Compressed(msg, table, end, name) == Compressed(msg, table, end, name);
  }

  lemma ProgressFacts(msg: seq<Byte>, now: seq<Byte>, table: seq<nat>, end: nat, dstp: nat,
                      name: seq<Label>, done: seq<Label>, rest: seq<Label>)
    requires Progress(msg, now, table, end, dstp, name, done, rest)
    ensures |now| == |msg| && now[..end] == msg[..end] && (done == [] ==> dstp == end && rest == name)
    ensures done != [] ==> name != [] && FirstMatch(msg, table, end, name).None?
    ensures forall p <- table :: Pointable(msg, p, end)
    ensures |Compressed(msg, table, end, name)| == dstp - end + |Compressed(msg, table, end, rest)|
    ensures rest != [] ==>
              var at := FirstMatch(msg, table, end, rest);
              && |Compressed(msg, table, end, rest)| >= (if at.Some? then 2 else 1 + |rest[0]| + 1)
              && (at.Some? ==> Compressed(msg, table, end, name) != Wire(name))
    ensures rest == [] ==> |Compressed(msg, table, end, rest)| == 1 && Compressed(msg, table, end, name) == Wire(name)
  {
    hide Pointable, FirstMatch, Written;
    CompressedParts(msg, table, end, rest);
    if rest == [] {
      assert done == name;
    } else {
      if FirstMatch(msg, table, end, rest).Some? {
        CutShort(msg, table, end, done, rest);
      }
      CompressedParts(msg, table, end, rest[1..]);
    }
  }

  lemma LabelProgress(msg: seq<Byte>, was: seq<Byte>, now: seq<Byte>, table: seq<nat>, end: nat, dstp: nat,
                      name: seq<Label>, done: seq<Label>, rest: seq<Label>)
    requires Progress(msg, was, table, end, dstp, name, done, rest)
    requires rest != [] && FirstMatch(msg, table, end, rest) == None && |now| == |was| && now[..end] == was[..end]
    requires var next := dstp + 1 + |rest[0]|; next <= |now| && now[end..next] == was[end..dstp] + ([|rest[0]|] + rest[0])
    ensures Progress(msg, now, table, end, dstp + 1 + |rest[0]|, name, done + [rest[0]], rest[1..])
  {
    hide Compressed, FirstMatch, Pointable;
    CompressedLabel(msg, table, end, done, rest);
    WrittenSnoc(done, rest[0]);
    assert done + [rest[0]] + rest[1..] == done + rest;
  }

  lemma LastProgress(msg: seq<Byte>, was: seq<Byte>, now: seq<Byte>, table: seq<nat>, end: nat, dstp: nat,
                     name: seq<Label>, done: seq<Label>, rest: seq<Label>)
    requires Progress(msg, was, table, end, dstp, name, done, rest) && |now| == |was|
    requires rest == [] || FirstMatch(msg, table, end, rest).Some?
    requires var last := if rest == [] then [0] else PointerTo(FirstMatch(msg, table, end, rest).value);
             dstp + |last| <= |now| && now[end..dstp + |last|] == was[end..dstp] + last
    ensures var w := Compressed(msg, table, end, name); end + |w| <= |now| && now[end..end + |w|] == w
    ensures |Compressed(msg, table, end, name)| == dstp - end + if rest == [] then 1 else 2
    ensures done != [] ==> end < |now| && IsLabel(now[end])
  {
    hide Compressed, FirstMatch, Pointable;
    CompressedParts(msg, table, end, rest);
    FirstByte(now, end, done, Compressed(msg, table, end, rest));
  }

  // The state of a message: the table can be pointed at, and every packed name is there.
  ghost predicate InOrder(msg: seq<Byte>, end: nat, slots: nat, table: seq<nat>, packed: seq<Packed>) {
    && end <= |msg| && |table| + 2 <= slots
    && (forall p <- table :: Pointable(msg, p, end))
    && (forall e <- packed :: Holds(msg, end, e))
  }

  // Bytes behind the packed part may change.
  lemma Kept(msg: seq<Byte>, msg': seq<Byte>, end: nat, end': nat, slots: nat, table: seq<nat>, packed: seq<Packed>)
    requires InOrder(msg, end, slots, table, packed)
    requires end <= end' <= |msg'| && msg[..end] == msg'[..end]
    ensures InOrder(msg', end', slots, table, packed)
  {
    forall p <- table ensures Pointable(msg', p, end') {
      PointableFrame(msg, msg', p, end, end');
    }
    forall e <- packed ensures Holds(msg', end', e) {
      HoldsFrame(msg, msg', end, end', e);
    }
  }

  ghost function Bytes(msg: seq<Byte>, end: nat, slots: nat, table: seq<nat>, packed: seq<Packed>, name: seq<Label>): seq<Byte>
    requires InOrder(msg, end, slots, table, packed)
  {
    Compressed(msg, table, end, name)
  }

  lemma BytesAre(msg: seq<Byte>, end: nat, slots: nat, table: seq<nat>, packed: seq<Packed>, name: seq<Label>)
    requires InOrder(msg, end, slots, table, packed)
    ensures (forall p <- table :: Pointable(msg, p, end)) && end <= |msg|
    ensures Bytes(msg, end, slots, table, packed, name) == Compressed(msg, table, end, name)
    ensures PackedAs(msg, table, end, name, Bytes(msg, end, slots, table, packed, name))
  {
    CompressedIs(msg, table, end, name);
  }

  // Room for dstsiz bytes is enough; a name written out to its root needs one more.
  predicate Fits(w: seq<Byte>, name: seq<Label>, dstsiz: nat) {
    |w| < dstsiz || (|w| == dstsiz && w != Wire(name))
  }

  // The start of a name is remembered if the name is not the root, nothing in reach of a pointer says
  // it, the table has a slot and the start is in reach of a pointer.
  ghost predicate ToRemember(msg: seq<Byte>, table: seq<nat>, end: nat, slots: nat, name: seq<Label>) {
    name != [] && !Known(msg, table, end, name) && |table| + 3 <= slots && end < MAXOFFSET
  }

  // One more name written behind the packed part.
  lemma AddPacked(msg: seq<Byte>, msg': seq<Byte>, end: nat, slots: nat, table: seq<nat>, packed: seq<Packed>, name: seq<Label>, pushed: bool)
    requires InOrder(msg, end, slots, table, packed) && LegalName(name) && |msg'| == |msg| && msg'[..end] == msg[..end]
    requires var w := Bytes(msg, end, slots, table, packed, name); end + |w| <= |msg| && msg'[end..end + |w|] == w
    requires pushed ==> end < MAXOFFSET && |table| + 3 <= slots && IsLabel(msg'[end])
    ensures var w := Bytes(msg, end, slots, table, packed, name);
            InOrder(msg', end + |w|, slots, if pushed then table + [end] else table, packed + [Packed(end, |w|, name)])
  {
    var w := Bytes(msg, end, slots, table, packed, name);
    CompressedReads(msg, table, end, name, msg', end, end, end + |w|);
    Kept(msg, msg', end, end + |w|, slots, table, packed);
  }

  // Once a name has been remembered, any later name that shares one of its new suffixes is cut short
  // there: the labels in front of the suffix, and two bytes.
  lemma LaterNames(msg: seq<Byte>, msg': seq<Byte>, end: nat, slots: nat, table: seq<nat>, packed: seq<Packed>, name: seq<Label>,
                   j: nat, pre: seq<Label>)
    requires InOrder(msg, end, slots, table, packed) && |msg'| == |msg| && msg'[..end] == msg[..end]
    requires var w := Bytes(msg, end, slots, table, packed, name); end + |w| <= |msg| && msg'[end..end + |w|] == w
    requires ToRemember(msg, table, end, slots, name)
    requires j < |name| && end + |Written(name[..j])| < MAXOFFSET && forall i :: 0 <= i <= j ==> !Known(msg, table, end, name[i..])
    requires InOrder(msg', end + |Bytes(msg, end, slots, table, packed, name)|, slots, table + [end], packed)
    ensures |Bytes(msg', end + |Bytes(msg, end, slots, table, packed, name)|, slots, table + [end], packed, pre + name[j..])|
         <= |Written(pre)| + 2
  {
    hide Known, PackedAs, Compressed, Written;
    var end' := end + |Bytes(msg, end, slots, table, packed, name)|;
    NewlyKnown(msg, table, end, name, msg', j);
    CompressedIs(msg', table + [end], end', pre + name[j..]);
    SuffixShortens(msg', table + [end], end', pre, name[j..], Compressed(msg', table + [end], end', pre + name[j..]));
  }

  lemma WrittenStart(name: seq<Label>)
    requires name != []
    ensures |Written(name)| > 0 && IsLabel(Written(name)[0])
  {
  }

  lemma CopySlices(was: seq<Byte>, now: seq<Byte>, end: nat, at: nat, data: seq<Byte>)
    requires end <= at && at + |data| <= |was| && now == was[..at] + data + was[at + |data|..]
    ensures |now| == |was| && now[..end] == was[..end] && now[end..at + |data|] == was[end..at] + data
  {
  }

  class Message {
    const buf: array<Byte>
    // slots of the pointer table: the message start, the offsets, and the NULL at the end
    const slots: nat
    var dnptrs: seq<nat>
    // where the next name goes
    var end: nat
    ghost var packed: seq<Packed>

    ghost predicate Valid()
      reads this, buf
    {
      InOrder(buf[..], end, slots, dnptrs, packed)
    }

    constructor (buf: array<Byte>, header: nat, slots: nat)
      requires header <= buf.Length && slots >= 2
      ensures Valid() && this.buf == buf && this.slots == slots && end == header && dnptrs == [] && packed == []
    {
      this.buf, this.slots := buf, slots;
      dnptrs, end, packed := [], header, [];
    }

    // Anything else written behind the last name, such as the type and class of a question.
    method Put(data: seq<Byte>)
      requires Valid() && end + |data| <= buf.Length
      modifies this`end, buf
      ensures Valid() && end == old(end) + |data|
      ensures buf[..end] == old(buf[..end]) + data
    {
      hide InOrder;
      ghost var msg := buf[..];
      Append(buf, end, end, data);
      InBounds(msg, end, slots, dnptrs, packed);
      Kept(msg, buf[..], end, end + |data|, slots, dnptrs, packed);
      assert buf[..end + |data|] == buf[..][..end] + buf[..][end..end + |data|] == msg[..end] + data;
      end := end + |data|;
    }

    // The loop of irc_ns_name_pack(): labels, until a pointer or the root ends the name. Its start is to
    // be remembered exactly if ToRemember() says so.
    method PackLabels(src: seq<Byte>, dstsiz: nat, ghost name: seq<Label>) returns (r: Option<nat>, pushed: bool)
      requires Valid() && WireAt(src, 0, name) && end + dstsiz <= buf.Length
      modifies buf
      ensures buf[..][..end] == old(buf[..][..end])
      ensures r.Some? ==>
                var w := Bytes(old(buf[..]), end, slots, dnptrs, packed, name);
                r.value == |w| <= dstsiz && buf[..][end..end + |w|] == w
      ensures r.Some? <==> Fits(Bytes(old(buf[..]), end, slots, dnptrs, packed, name), name, dstsiz)
      ensures r.Some? ==> (pushed <==> ToRemember(old(buf[..]), dnptrs, end, slots, name))
      ensures r.Some? && pushed ==> end < buf.Length && IsLabel(buf[..][end])
    {
      hide Chain, WireAt, FirstMatch, Pointable, Progress, Compressed, Written, Wire, Known, PointerTo, InOrder, Bytes, PackedAs;
      ghost var msg, done, rest := buf[..], [], name;
      BytesAre(msg, end, slots, dnptrs, packed, name);
      var i: nat, dstp: nat, eob, first := 0, end, end + dstsiz, true;
      pushed := false;
      StartProgress(msg, dnptrs, end, name);
      FindMissesNothing(msg, dnptrs, end, name);
      while true
        invariant end <= dstp <= eob && WireAt(src, i, rest) && Progress(msg, buf[..], dnptrs, end, dstp, name, done, rest)
        invariant first == !pushed && (pushed <==> done != [] && |dnptrs| + 3 <= slots && end < MAXOFFSET)
        decreases |rest|
      {
        WireFirst(src, i, rest);
        ProgressFacts(msg, buf[..], dnptrs, end, dstp, name, done, rest);
        var n := src[i];
        if n != 0 {
          var l := Find(src, i, msg, rest);
          if l.Some? {
            if dstp + 1 >= eob {
              return None, pushed;
            }
            PutLast(buf, msg, dnptrs, end, dstp, name, done, rest, PointerTo(l.value));
            return Some(dstp + 2 - end), pushed;
          }
          if 1 + |dnptrs| < slots - 1 && dstp < MAXOFFSET && first {
            pushed, first := true, false;
          }
        }
        if dstp + 1 + n >= eob {
          return None, pushed;
        }
        if n == 0 {
          PutLast(buf, msg, dnptrs, end, dstp, name, done, rest, [0]);
          return Some(dstp + 1 - end), pushed;
        }
        PutLabel(buf, msg, dnptrs, end, dstp, name, done, rest, src[i..i + n + 1]);
        i, dstp := i + n + 1, dstp + n + 1;
        done, rest := done + [rest[0]], rest[1..];
      }
    }

    // The search for a suffix, while the name behind the packed part is being written.
    method Find(src: seq<Byte>, i: nat, ghost msg: seq<Byte>, ghost rest: seq<Label>) returns (l: Option<nat>)
      requires WireAt(src, i, rest) && rest != [] && end <= |msg| == buf.Length && buf[..][..end] == msg[..end]
      requires forall p <- dnptrs :: Pointable(msg, p, end)
      ensures l == FirstMatch(msg, dnptrs, end, rest)
      ensures l.Some? ==> l.value < MAXOFFSET
    {
      FirstMatchFrame(msg, buf[..], dnptrs, end, rest);
      l := DnFind(buf, dnptrs, end, src, i, rest);
    }

    // irc_ns_name_pack() at the end of what is there, with dstsiz bytes of room.
    method Pack(src: seq<Byte>, dstsiz: nat) returns (r: Option<nat>)
      requires Valid() && Bounded(src, 0) && end + dstsiz <= buf.Length
      modifies this, buf
      ensures Valid()
      ensures buf[..][..old(end)] == old(buf[..][..end])
      ensures r.Some? ==> NameAt(src, 0).Some?
      ensures NameAt(src, 0).Some? ==>
                var name, w := NameAt(src, 0).value, old(Bytes(buf[..], end, slots, dnptrs, packed, NameAt(src, 0).value));
                && PackedAs(old(buf[..]), old(dnptrs), old(end), name, w)
                && (r.Some? <==> Fits(w, name, dstsiz))
                && (r.Some? ==>
                      && r.value == |w| <= dstsiz
                      && end == old(end) + |w| && buf[..][old(end)..end] == w
                      && packed == old(packed) + [Packed(old(end), |w|, name)]
                      && dnptrs == old(dnptrs) + if ToRemember(old(buf[..]), old(dnptrs), old(end), slots, name) then [old(end)] else [])
      ensures r.None? ==> end == old(end) && dnptrs == old(dnptrs) && packed == old(packed)
    {
      hide InOrder, Compressed, Bytes, WireAt, PackedAs, Known, Fits;
      InBounds(buf[..], end, slots, dnptrs, packed);
      var ok := CheckLegal(src);
      if !ok {
        return None;
      }
      NameAtSound(src, 0);
      var at := end;
      ghost var msg, name := buf[..], NameAt(src, 0).value;
      ghost var w := Bytes(msg, end, slots, dnptrs, packed, name);
      BytesAre(msg, end, slots, dnptrs, packed, name);
      var pushed;
      r, pushed := PackLabels(src, dstsiz, name);
      if r.None? {
        Kept(msg, buf[..], end, end, slots, dnptrs, packed);
        return;
      }
      AddPacked(msg, buf[..], end, slots, dnptrs, packed, name, pushed);
      end := end + r.value;
      packed := packed + [Packed(at, |w|, name)];
      if pushed {
        dnptrs := dnptrs + [at];
      }
    }

    // Any name packed so far, however many followed, is unpacked as what it was, up to letter case,
    // and the bytes consumed are the bytes it took.
    method ReadBack(e: Packed) returns (r: Option<(nat, seq<Byte>)>, ghost name: seq<Label>)
      requires Valid() && e in packed
      ensures r == Some((e.size, Wire(name))) && SameName(name, e.name)
    {
      PackedIsReadable(buf[..], end, e);
      ghost var jumps;
      r, name, jumps := Unpack(buf[..], e.at, MAXNAME);
      name := Labels(buf[..], e.at, e.at, buf.Length);
    }
  }

  // Writes the bytes that end a name: a pointer or the root.
  method PutLast(buf: array<Byte>, ghost msg: seq<Byte>, ghost table: seq<nat>, ghost end: nat, dstp: nat,
                 ghost name: seq<Label>, ghost done: seq<Label>, ghost rest: seq<Label>, last: seq<Byte>)
    requires Progress(msg, buf[..], table, end, dstp, name, done, rest) && dstp + |last| <= buf.Length
    requires (forall p <- table :: Pointable(msg, p, end)) && (rest == [] || FirstMatch(msg, table, end, rest).Some?)
    requires last == if rest == [] then [0] else PointerTo(FirstMatch(msg, table, end, rest).value)
    modifies buf
    ensures buf[..][..end] == msg[..end] && end <= buf.Length == |msg|
    ensures var w := Compressed(msg, table, end, name);
            |w| == dstp - end + |last| && end + |w| <= buf.Length && buf[..][end..end + |w|] == w
    ensures done != [] ==> end < buf.Length && IsLabel(buf[..][end])
  {
    ghost var was := buf[..];
    Append(buf, end, dstp, last);
    LastProgress(msg, was, buf[..], table, end, dstp, name, done, rest);
  }

  // Writes one label.
  method PutLabel(buf: array<Byte>, ghost msg: seq<Byte>, ghost table: seq<nat>, ghost end: nat, dstp: nat,
                  ghost name: seq<Label>, ghost done: seq<Label>, ghost rest: seq<Label>, l: seq<Byte>)
    requires Progress(msg, buf[..], table, end, dstp, name, done, rest) && dstp + |l| <= buf.Length
    requires (forall p <- table :: Pointable(msg, p, end)) && rest != [] && FirstMatch(msg, table, end, rest) == None
    requires |l| == 1 + |rest[0]| && l[0] == |rest[0]| && l[1..] == rest[0]
    modifies buf
    ensures Progress(msg, buf[..], table, end, dstp + |l|, name, done + [rest[0]], rest[1..])
  {
    ghost var was := buf[..];
    Append(buf, end, dstp, l);
    assert l == [|rest[0]|] + rest[0];
    LabelProgress(msg, was, buf[..], table, end, dstp, name, done, rest);
  }

  lemma InBounds(msg: seq<Byte>, end: nat, slots: nat, table: seq<nat>, packed: seq<Packed>)
    requires InOrder(msg, end, slots, table, packed)
    ensures end <= |msg|
  {
  }

  lemma FirstByte(msg: seq<Byte>, end: nat, done: seq<Label>, last: seq<Byte>)
    requires end + |Written(done)| + |last| <= |msg|
    requires msg[end..end + |Written(done)| + |last|] == Written(done) + last
    ensures done != [] ==> end < |msg| && IsLabel(msg[end])
  {
    if done != [] {
      WrittenStart(done);
      assert msg[end] == msg[end..end + |Written(done)| + |last|][0];
    }
  }

  // memcpy behind what has been written since end
  method Append(buf: array<Byte>, ghost end: nat, at: nat, data: seq<Byte>)
    requires end <= at && at + |data| <= buf.Length
    modifies buf
    ensures buf[..][..end] == old(buf[..][..end])
    ensures buf[..][end..at + |data|] == old(buf[..][end..at]) + data
  {
    ghost var was := buf[..];
    Copy(buf, at, data);
    CopySlices(was, buf[..], end, at, data);
  }

  // memcpy
  method Copy(buf: array<Byte>, at: nat, data: seq<Byte>)
    requires at + |data| <= buf.Length
    modifies buf
    ensures buf[..] == old(buf[..at]) + data + old(buf[at + |data|..])
  {
    ghost var msg := buf[..];
    var i := 0;
    while i < |data|
      invariant i <= |data|
      invariant buf[..] == msg[..at] + data[..i] + msg[at + i..]
    {
      buf[at + i] := data[i];
      i := i + 1;
    }
    assert data[..i] == data;
  }
}
