// Domain names on the wire: labels, compression pointers, and what a name at some offset of a
// message says (RFC 1035 sections 3.1 and 4.1.4; libathemecore/reslib.c).
module DnsWire {
  import opened Basics

  // One to 63 octets.
  type Label = l: seq<Byte> | 1 <= |l| <= 63 witness [0]

  const MAXNAME: nat := 255      // NS_MAXCDNAME
  const MAXOFFSET: nat := 0x4000 // what a pointer can address

  // A name written out in full.
  function Wire(name: seq<Label>): (w: seq<Byte>)
    ensures |w| >= 1
  {
    Written(name) + [0]
  }

  // Labels without the root behind them.
  function Written(name: seq<Label>): seq<Byte>
  {
    if name == [] then [] else [|name[0]|] + name[0] + Written(name[1..])
  }

  // At most 255 octets in all.
  predicate LegalName(name: seq<Label>) {
    |Wire(name)| <= MAXNAME
  }

  // ---- letter case ----

  function MkLower(c: Byte): Byte {
    if 0x41 <= c <= 0x5A then c + 0x20 else c
  }

  ghost predicate SameLabel(a: Label, b: Label) {
    |a| == |b| && forall i :: 0 <= i < |a| ==> MkLower(a[i]) == MkLower(b[i])
  }

  ghost predicate SameName(a: seq<Label>, b: seq<Label>) {
    |a| == |b| && forall i :: 0 <= i < |a| ==> SameLabel(a[i], b[i])
  }

  // ---- names inside a message ----

  function Target(hi: Byte, lo: Byte): nat {
    (hi % 64) * 256 + lo
  }

  predicate IsLabel(n: Byte) {
    1 <= n < 64
  }

  predicate IsPointer(n: Byte) {
    n >= 192
  }

  // A readable name at pos, in a run of labels that began at start and ends before limit: every
  // pointer leads to a label in front of the run it ends.
  ghost predicate Chain(msg: seq<Byte>, start: nat, pos: nat, limit: nat)
    decreases limit, limit - pos
  {
    && start <= pos < limit <= |msg|
    && (|| msg[pos] == 0
        || (IsLabel(msg[pos]) && Chain(msg, start, pos + 1 + msg[pos], limit))
        || (IsPointer(msg[pos]) && pos + 1 < limit &&
            var t := Target(msg[pos], msg[pos + 1]);
            t < start && IsLabel(msg[t]) && Chain(msg, t, t, start)))
  }

  // What it says.
  ghost function Labels(msg: seq<Byte>, start: nat, pos: nat, limit: nat): (name: seq<Label>)
    requires Chain(msg, start, pos, limit)
    ensures IsLabel(msg[pos]) ==> name != []
    ensures msg[pos] == 0 <==> name == []
    decreases limit, limit - pos
  {
    if msg[pos] == 0 then []
    else if IsLabel(msg[pos]) then
      assert Chain(msg, start, pos + 1 + msg[pos], limit);
      [msg[pos + 1..pos + 1 + msg[pos]]] + Labels(msg, start, pos + 1 + msg[pos], limit)
    else
      var t := Target(msg[pos], msg[pos + 1]);
      Labels(msg, t, t, start)
  }

  // Where its own bytes end.
  ghost function RunEnd(msg: seq<Byte>, start: nat, pos: nat, limit: nat): (e: nat)
    requires Chain(msg, start, pos, limit)
    ensures pos < e <= limit
    decreases limit - pos
  {
    if msg[pos] == 0 then pos + 1
    else if IsLabel(msg[pos]) then RunEnd(msg, start, pos + 1 + msg[pos], limit)
    else pos + 2
  }

  // Nothing behind the limit matters, and the limits may be relaxed.
  lemma {:induction false} ChainFrame(msg: seq<Byte>, msg': seq<Byte>, start: nat, pos: nat, limit: nat, start': nat, limit': nat)
    requires Chain(msg, start, pos, limit) && start <= start' <= pos && limit <= limit' <= |msg'|
    requires msg[..limit] == msg'[..limit]
    ensures Chain(msg', start', pos, limit')
    ensures Labels(msg', start', pos, limit') == Labels(msg, start, pos, limit)
    ensures RunEnd(msg', start', pos, limit') == RunEnd(msg, start, pos, limit)
    decreases limit, limit - pos
  {
    assert forall i :: 0 <= i < limit ==> msg[i] == msg[..limit][i] == msg'[..limit][i] == msg'[i];
    if IsLabel(msg[pos]) {
      ChainFrame(msg, msg', start, pos + 1 + msg[pos], limit, start', limit');
      assert msg[pos + 1..pos + 1 + msg[pos]] == msg'[pos + 1..pos + 1 + msg[pos]];
    } else if msg[pos] != 0 {
      var t := Target(msg[pos], msg[pos + 1]);
      assert msg[..start] == msg[..limit][..start] == msg'[..start];
      ChainFrame(msg, msg', t, t, start, t, start');
    }
  }

  // The labels written at pos.
  ghost predicate WrittenAt(msg: seq<Byte>, pos: nat, name: seq<Label>) {
    pos + |Written(name)| <= |msg| && msg[pos..pos + |Written(name)|] == Written(name)
  }

  lemma FirstWritten(msg: seq<Byte>, pos: nat, name: seq<Label>)
    requires name != [] && WrittenAt(msg, pos, name)
    ensures msg[pos] == |name[0]| && pos + 1 + |name[0]| <= |msg| && msg[pos + 1..pos + 1 + |name[0]|] == name[0]
    ensures |Written(name)| == 1 + |name[0]| + |Written(name[1..])|
    ensures WrittenAt(msg, pos + 1 + |name[0]|, name[1..])
  {
    hide Written;
    var n, w := |name[0]|, Written(name);
    WrittenParts(name);
    SliceParts(msg, pos, w, n);
  }

  lemma WrittenParts(name: seq<Label>)
    requires name != []
    ensures var n, w := |name[0]|, Written(name);
            |w| == 1 + n + |Written(name[1..])| && w[0] == n && w[1..1 + n] == name[0] && w[1 + n..] == Written(name[1..])
  {
  }

  lemma SliceParts(msg: seq<Byte>, pos: nat, w: seq<Byte>, n: nat)
    requires n < |w| && pos + |w| <= |msg| && msg[pos..pos + |w|] == w
    ensures msg[pos] == w[0] && msg[pos + 1..pos + 1 + n] == w[1..1 + n] && msg[pos + 1 + n..pos + |w|] == w[1 + n..]
  {
    forall i | 0 <= i < |w| ensures w[i] == msg[pos + i] {
    }
    assert |w[1..1 + n]| == n == |msg[pos + 1..pos + 1 + n]|;
  }

  lemma ChainLabel(msg: seq<Byte>, start: nat, pos: nat, limit: nat)
    requires start <= pos < |msg| && IsLabel(msg[pos]) && Chain(msg, start, pos + 1 + msg[pos], limit)
    ensures Chain(msg, start, pos, limit)
    ensures Labels(msg, start, pos, limit) == [msg[pos + 1..pos + 1 + msg[pos]]] + Labels(msg, start, pos + 1 + msg[pos], limit)
    ensures RunEnd(msg, start, pos, limit) == RunEnd(msg, start, pos + 1 + msg[pos], limit)
  {
  }

  lemma {:induction false} WrittenSnoc(name: seq<Label>, l: Label)
    ensures Written(name + [l]) == Written(name) + ([|l|] + l)
  {
    if name == [] {
      assert name + [l] == [l];
      assert Written([l][1..]) == [];
    } else {
      assert (name + [l])[1..] == name[1..] + [l];
      WrittenSnoc(name[1..], l);
    }
  }

  lemma {:induction false} WrittenAppend(a: seq<Label>, b: seq<Label>)
    ensures Written(a + b) == Written(a) + Written(b)
  {
    if a == [] {
      assert a + b == b;
    } else {
      assert (a + b)[1..] == a[1..] + b;
      WrittenAppend(a[1..], b);
    }
  }
}
