// Reading a name out of a message: irc_ns_name_unpack(), with its loop detection, and
// irc_ns_name_skip() (libathemecore/reslib.c:304-377, 497-557).
module DnsUnpack {
  import opened Basics
  import opened DnsWire

  // ---- skipping ----

  // Where irc_ns_name_skip() ends up.
  function SkipTo(msg: seq<Byte>, cp: nat): Option<nat>
    decreases |msg| - cp
  {
    if cp > |msg| then None
    else if cp == |msg| then Some(cp)
    else if msg[cp] == 0 then Some(cp + 1)
    else if IsLabel(msg[cp]) then SkipTo(msg, cp + 1 + msg[cp])
    else if IsPointer(msg[cp]) && cp + 2 <= |msg| then Some(cp + 2)
    else None
  }

  // irc_ns_name_skip()
  method Skip(msg: seq<Byte>, src: nat) returns (r: Option<nat>)
    ensures r == SkipTo(msg, src)
  {
    var cp := src;
    while cp < |msg|
      invariant SkipTo(msg, cp) == SkipTo(msg, src)
      decreases |msg| - cp
    {
      var n := msg[cp];
      if n == 0 {
        return Some(cp + 1);
      }
      if IsLabel(n) {
        cp := cp + 1 + n;
      } else if IsPointer(n) {
        if cp + 2 > |msg| {
          return None;
        }
        return Some(cp + 2);
      } else {
        return None;
      }
    }
    r := if cp > |msg| then None else Some(cp);
  }

  // ---- what a message says at an offset, whatever its pointers do ----

  // Following at most k pointers from pos, the message spells name.
  ghost predicate Spells(msg: seq<Byte>, pos: nat, name: seq<Label>, k: nat)
    decreases k, |name|
  {
    && pos < |msg|
    && (|| (msg[pos] == 0 && name == [])
        || (IsLabel(msg[pos]) && name != [] && pos + 1 + msg[pos] <= |msg|
            && msg[pos + 1..pos + 1 + msg[pos]] == name[0] && Spells(msg, pos + 1 + msg[pos], name[1..], k))
        || (IsPointer(msg[pos]) && pos + 1 < |msg| && k > 0 && Spells(msg, Target(msg[pos], msg[pos + 1]), name, k - 1)))
  }

  // A message spells at most one name at an offset.
  lemma {:induction false} SpellsOneName(msg: seq<Byte>, pos: nat, a: seq<Label>, j: nat, b: seq<Label>, k: nat)
    requires Spells(msg, pos, a, j) && Spells(msg, pos, b, k)
    ensures a == b
    decreases j, |a|
  {
    if IsLabel(msg[pos]) {
      SpellsOneName(msg, pos + 1 + msg[pos], a[1..], j, b[1..], k);
      assert a == [a[0]] + a[1..] && b == [b[0]] + b[1..];
    } else if msg[pos] != 0 {
      SpellsOneName(msg, Target(msg[pos], msg[pos + 1]), a, j - 1, b, k - 1);
    }
  }

  // The labels read so far lead from src to pos.
  ghost predicate LeadsTo(msg: seq<Byte>, src: nat, name: seq<Label>, jumps: nat, pos: nat) {
    forall rest: seq<Label>, k: nat :: Spells(msg, pos, rest, k) ==> Spells(msg, src, name + rest, jumps + k)
  }

  lemma LabelLeads(msg: seq<Byte>, src: nat, name: seq<Label>, jumps: nat, pos: nat)
    requires LeadsTo(msg, src, name, jumps, pos)
    requires pos < |msg| && IsLabel(msg[pos]) && pos + 1 + msg[pos] <= |msg|
    ensures LeadsTo(msg, src, name + [msg[pos + 1..pos + 1 + msg[pos]]], jumps, pos + 1 + msg[pos])
  {
    var l: Label, next := msg[pos + 1..pos + 1 + msg[pos]], pos + 1 + msg[pos];
    forall rest: seq<Label>, k: nat | Spells(msg, next, rest, k) ensures Spells(msg, src, name + [l] + rest, jumps + k) {
      assert ([l] + rest)[1..] == rest;
      assert Spells(msg, pos, [l] + rest, k);
      assert name + [l] + rest == name + ([l] + rest);
    }
  }

  lemma PointerLeads(msg: seq<Byte>, src: nat, name: seq<Label>, jumps: nat, pos: nat)
    requires LeadsTo(msg, src, name, jumps, pos)
    requires pos + 1 < |msg| && IsPointer(msg[pos])
    ensures LeadsTo(msg, src, name, jumps + 1, Target(msg[pos], msg[pos + 1]))
  {
    var t := Target(msg[pos], msg[pos + 1]);
    forall rest: seq<Label>, k: nat | Spells(msg, t, rest, k) ensures Spells(msg, src, name + rest, jumps + 1 + k) {
      assert Spells(msg, pos, rest, k + 1);
    }
  }

  // ---- unpacking ----

  // Where the reader of a readable name stands: in a run from start that ends before lim.
  ghost predicate OnTrack(msg: seq<Byte>, src: nat, name: seq<Label>, start: nat, pos: nat, lim: nat, checked: nat, jumps: nat) {
    && Chain(msg, src, src, |msg|)
    && Chain(msg, start, pos, lim)
    && Labels(msg, src, src, |msg|) == name + Labels(msg, start, pos, lim)
    && checked <= |msg| - lim + (pos - start)
    && (jumps == 0 ==> start == src && lim == |msg| && RunEnd(msg, start, pos, lim) == RunEnd(msg, src, src, |msg|))
  }

  lemma TrackLabel(msg: seq<Byte>, src: nat, name: seq<Label>, start: nat, pos: nat, lim: nat, checked: nat, jumps: nat)
    requires OnTrack(msg, src, name, start, pos, lim, checked, jumps) && IsLabel(msg[pos])
    ensures pos + 1 + msg[pos] < lim <= |msg|
    ensures OnTrack(msg, src, name + [msg[pos + 1..pos + 1 + msg[pos]]], start, pos + 1 + msg[pos], lim, checked + 1 + msg[pos], jumps)
  {
    assert Chain(msg, start, pos + 1 + msg[pos], lim);
    var l: Label := msg[pos + 1..pos + 1 + msg[pos]];
    assert name + ([l] + Labels(msg, start, pos + 1 + msg[pos], lim)) == name + [l] + Labels(msg, start, pos + 1 + msg[pos], lim);
  }

  // Jumping backwards keeps the bytes looked at distinct, so loop detection stays quiet.
  lemma TrackPointer(msg: seq<Byte>, src: nat, name: seq<Label>, start: nat, pos: nat, lim: nat, checked: nat, jumps: nat)
    requires OnTrack(msg, src, name, start, pos, lim, checked, jumps) && IsPointer(msg[pos])
    ensures pos + 1 < lim <= |msg| && checked + 2 < |msg| && Target(msg[pos], msg[pos + 1]) < |msg|
    ensures OnTrack(msg, src, name, Target(msg[pos], msg[pos + 1]), Target(msg[pos], msg[pos + 1]), start, checked + 2, jumps + 1)
    ensures jumps == 0 ==> RunEnd(msg, src, src, |msg|) == pos + 2
  {
  }

  lemma NotReadable(msg: seq<Byte>, src: nat)
    requires src >= |msg|
    ensures !Chain(msg, src, src, |msg|)
  {
  }

  lemma UnpackStart(msg: seq<Byte>, src: nat)
    ensures LeadsTo(msg, src, [], 0, src) && Written([]) == []
    ensures Chain(msg, src, src, |msg|) ==> OnTrack(msg, src, [], src, src, |msg|, 0, 0)
  {
    forall rest: seq<Label>, k: nat | Spells(msg, src, rest, k) ensures Spells(msg, src, [] + rest, 0 + k) {
      assert [] + rest == rest;
    }
    if Chain(msg, src, src, |msg|) {
      assert [] + Labels(msg, src, src, |msg|) == Labels(msg, src, src, |msg|);
    }
  }

  // A readable name of which this much has been read is at least so long.
  lemma LongerThan(msg: seq<Byte>, src: nat, name: seq<Label>, start: nat, pos: nat, lim: nat, checked: nat, jumps: nat)
    requires OnTrack(msg, src, name, start, pos, lim, checked, jumps)
    ensures |Wire(Labels(msg, src, src, |msg|))| > |Written(name)|
  {
    WrittenAppend(name, Labels(msg, start, pos, lim));
  }

  lemma OnlyLabels(msg: seq<Byte>, start: nat, pos: nat, lim: nat)
    requires Chain(msg, start, pos, lim)
    ensures msg[pos] == 0 || IsLabel(msg[pos]) || IsPointer(msg[pos])
  {
  }

  lemma UnpackEnd(msg: seq<Byte>, src: nat, name: seq<Label>, jumps: nat, pos: nat, start: nat, lim: nat, checked: nat)
    requires pos < |msg| && msg[pos] == 0 && LeadsTo(msg, src, name, jumps, pos)
    ensures Spells(msg, src, name, jumps) && SkipTo(msg, pos) == Some(pos + 1)
    ensures Wire(name) == Written(name) + [0]
    ensures OnTrack(msg, src, name, start, pos, lim, checked, jumps) ==>
              Labels(msg, src, src, |msg|) == name && (jumps == 0 ==> RunEnd(msg, src, src, |msg|) == pos + 1)
  {
    assert Spells(msg, pos, [], 0);
    assert name + [] == name;
  }

  // irc_ns_name_unpack(): the bytes consumed and the name, written out.
  //  - it always ends, with at most dstsiz bytes;
  //  - what it returns is what the message spells, and irc_ns_name_skip() agrees about the count;
  //  - a name whose pointers all lead back in front of their run is never refused as a loop.
  method Unpack(msg: seq<Byte>, src: nat, dstsiz: nat) returns (r: Option<(nat, seq<Byte>)>, ghost name: seq<Label>, ghost jumps: nat)
    requires dstsiz > 0
    ensures r.Some? ==> r.value.1 == Wire(name) && |Wire(name)| <= dstsiz && Spells(msg, src, name, jumps)
    ensures r.Some? ==> SkipTo(msg, src) == Some(src + r.value.0)
    ensures Chain(msg, src, src, |msg|) ==>
              if |Wire(Labels(msg, src, src, |msg|))| <= dstsiz
              then r == Some((RunEnd(msg, src, src, |msg|) - src, Wire(Labels(msg, src, src, |msg|))))
              else r == None
  {
    hide Chain, Labels, RunEnd, Spells, Wire, Written, LeadsTo;
    name, jumps := [], 0;
    if src >= |msg| {
      NotReadable(msg, src);
      return None, name, jumps;
    }
    var len: Option<nat> := None;
    var checked: nat, srcp: nat := 0, src;
    var dst: seq<Byte> := [];
    ghost var good := Chain(msg, src, src, |msg|);
    ghost var start: nat, lim: nat := src, |msg|;
    UnpackStart(msg, src);
    while msg[srcp] != 0
      invariant srcp < |msg| && dst == Written(name) && |dst| < dstsiz
      invariant LeadsTo(msg, src, name, jumps, srcp)
      invariant len.None? <==> jumps == 0
      invariant len.None? ==> SkipTo(msg, src) == SkipTo(msg, srcp) && src <= srcp
      invariant len.Some? ==> SkipTo(msg, src) == Some(src + len.value)
      invariant good <==> Chain(msg, src, src, |msg|)
      invariant good ==> OnTrack(msg, src, name, start, srcp, lim, checked, jumps)
      invariant good && jumps > 0 ==> len == Some(RunEnd(msg, src, src, |msg|) - src)
      decreases dstsiz - |dst| + (if checked < |msg| then |msg| - checked else 0)
    {
      var n := msg[srcp];
      if IsLabel(n) {
        if good {
          TrackLabel(msg, src, name, start, srcp, lim, checked, jumps);
        }
        if |dst| + n + 1 >= dstsiz || srcp + 1 + n >= |msg| {
          if good {
            LongerThan(msg, src, name + [msg[srcp + 1..srcp + 1 + n]], start, srcp + 1 + n, lim, checked + 1 + n, jumps);
            WrittenSnoc(name, msg[srcp + 1..srcp + 1 + n]);
          }
          return None, name, jumps;
        }
        LabelLeads(msg, src, name, jumps, srcp);
        WrittenSnoc(name, msg[srcp + 1..srcp + 1 + n]);
        name := name + [msg[srcp + 1..srcp + 1 + n]];
        checked := checked + n + 1;
        dst := dst + [n] + msg[srcp + 1..srcp + 1 + n];
        srcp := srcp + 1 + n;
      } else if IsPointer(n) {
        if srcp + 1 >= |msg| {
          if good { TrackPointer(msg, src, name, start, srcp, lim, checked, jumps); }
          return None, name, jumps;
        }
        PointerLeads(msg, src, name, jumps, srcp);
        if good { TrackPointer(msg, src, name, start, srcp, lim, checked, jumps); }
        if len.None? {
          len := Some(srcp + 2 - src);
        }
        start, lim := Target(n, msg[srcp + 1]), start;
        srcp := Target(n, msg[srcp + 1]);
        jumps := jumps + 1;
        if srcp >= |msg| {
          return None, name, jumps;
        }
        checked := checked + 2;
        if checked >= |msg| {
          return None, name, jumps;
        }
      } else {
        if good { OnlyLabels(msg, start, srcp, lim); }
        return None, name, jumps;
      }
    }
    UnpackEnd(msg, src, name, jumps, srcp, start, lim, checked);
    r := Some((if len.Some? then len.value else srcp + 1 - src, dst + [0]));
  }
}
