// What suffix compression amounts to, told by the places a pointer may lead to: the labels in reach
// of a pointer in the runs the table remembers (libathemecore/reslib.c:848-939, 1055-1124).
module DnsCompress {
  import opened Basics
  import opened DnsWire
  import opened DnsPack

  // q is a label of the run of labels that begins at p.
  ghost predicate LabelOfRun(msg: seq<Byte>, p: nat, q: nat)
    decreases |msg| - p
  {
    p < |msg| && IsLabel(msg[p]) && (q == p || LabelOfRun(msg, p + 1 + msg[p], q))
  }

  ghost predicate Says(msg: seq<Byte>, q: nat, end: nat, name: seq<Label>) {
    Chain(msg, q, q, end) && SameName(Labels(msg, q, q, end), name)
  }

  ghost predicate Remembered(msg: seq<Byte>, table: seq<nat>, q: nat) {
    exists p <- table :: LabelOfRun(msg, p, q)
  }

  // A pointer to q would say name.
  ghost predicate Place(msg: seq<Byte>, table: seq<nat>, end: nat, name: seq<Label>, q: nat) {
    q < MAXOFFSET && Remembered(msg, table, q) && Says(msg, q, end, name)
  }

  ghost predicate Known(msg: seq<Byte>, table: seq<nat>, end: nat, name: seq<Label>) {
    exists q: nat :: Place(msg, table, end, name, q)
  }

  // ---- the search finds a place exactly if there is one ----

  lemma {:induction false} MatchIsInRun(msg: seq<Byte>, sp: nat, end: nat, name: seq<Label>)
    requires Chain(msg, sp, sp, end)
    ensures var r := MatchInRun(msg, sp, end, name);
            r.Some? ==> r.value < MAXOFFSET && LabelOfRun(msg, sp, r.value) && Says(msg, r.value, end, name)
    decreases end - sp
  {
    hide Labels, SameName;
    if sp < MAXOFFSET && IsLabel(msg[sp]) && !SameName(Labels(msg, sp, sp, end), name) {
      NextLabel(msg, sp, end);
      MatchIsInRun(msg, sp + 1 + msg[sp], end, name);
    }
  }

  // No label of the run that a pointer can reach is passed over.
  lemma {:induction false} NoneInRun(msg: seq<Byte>, sp: nat, end: nat, name: seq<Label>, q: nat)
    requires Chain(msg, sp, sp, end) && MatchInRun(msg, sp, end, name) == None
    requires LabelOfRun(msg, sp, q) && q < MAXOFFSET
    ensures !Says(msg, q, end, name)
    decreases end - sp
  {
    hide Labels, SameName;
    RunGoesUp(msg, sp, q);
    if q != sp {
      NextLabel(msg, sp, end);
      NoneInRun(msg, sp + 1 + msg[sp], end, name, q);
    }
  }

  lemma {:induction false} RunGoesUp(msg: seq<Byte>, p: nat, q: nat)
    requires LabelOfRun(msg, p, q)
    ensures p <= q < |msg| && IsLabel(msg[q])
    decreases |msg| - p
  {
    if q != p {
      RunGoesUp(msg, p + 1 + msg[p], q);
    }
  }

  lemma {:induction false} FoundIsPlace(msg: seq<Byte>, table: seq<nat>, end: nat, name: seq<Label>)
    requires forall p <- table :: Pointable(msg, p, end)
    ensures var r := FirstMatch(msg, table, end, name); r.Some? ==> Place(msg, table, end, name, r.value)
  {
    hide Says, LabelOfRun, MatchInRun, Chain;
    if table != [] {
      assert table[0] in table && Pointable(msg, table[0], end);
      MatchIsInRun(msg, table[0], end, name);
      FoundIsPlace(msg, table[1..], end, name);
      assert forall p <- table[1..] :: p in table;
    }
  }

  lemma {:induction false} NoneFound(msg: seq<Byte>, table: seq<nat>, end: nat, name: seq<Label>, q: nat)
    requires forall p <- table :: Pointable(msg, p, end)
    requires FirstMatch(msg, table, end, name) == None
    ensures !Place(msg, table, end, name, q)
  {
    hide Says, LabelOfRun, MatchInRun, Chain;
    if Place(msg, table, end, name, q) {
      var p :| p in table && LabelOfRun(msg, p, q);
      assert Pointable(msg, table[0], end);
      if p == table[0] {
        NoneInRun(msg, p, end, name, q);
      } else {
        assert p in table[1..];
        NoneFound(msg, table[1..], end, name, q);
      }
    }
  }

  // irc_dn_find() misses nothing: it fails exactly if no label in reach of a pointer, in any run the
  // table remembers, says the name.
  lemma FindMissesNothing(msg: seq<Byte>, table: seq<nat>, end: nat, name: seq<Label>)
    requires forall p <- table :: Pointable(msg, p, end)
    ensures FirstMatch(msg, table, end, name).Some? <==> Known(msg, table, end, name)
    ensures var r := FirstMatch(msg, table, end, name); r.Some? ==> Place(msg, table, end, name, r.value)
  {
    FoundIsPlace(msg, table, end, name);
    hide Place;
    if FirstMatch(msg, table, end, name).None? {
      forall q: nat ensures !Place(msg, table, end, name, q) {
        NoneFound(msg, table, end, name, q);
      }
    }
  }

  // ---- the bytes of a packed name ----

  // The suffix behind the first k labels is the longest one that is known.
  ghost predicate KnownFrom(msg: seq<Byte>, table: seq<nat>, end: nat, name: seq<Label>, k: nat) {
    k < |name| && Known(msg, table, end, name[k..]) && forall j :: 0 <= j < k ==> !Known(msg, table, end, name[j..])
  }

  // w is name packed: the labels in front of its longest known suffix and a pointer to such a place, or
  // the whole name if no suffix is known.
  ghost predicate PackedAs(msg: seq<Byte>, table: seq<nat>, end: nat, name: seq<Label>, w: seq<Byte>) {
    && ((forall k :: 0 <= k < |name| ==> !Known(msg, table, end, name[k..])) ==> w == Wire(name))
    && forall k: nat :: KnownFrom(msg, table, end, name, k) ==>
         exists q: nat :: Place(msg, table, end, name[k..], q) && w == Written(name[..k]) + PointerTo(q)
  }

  lemma CompressedNone(msg: seq<Byte>, table: seq<nat>, end: nat, name: seq<Label>)
    requires forall p <- table :: Pointable(msg, p, end)
    requires forall k :: 0 <= k < |name| ==> !Known(msg, table, end, name[k..])
    ensures Compressed(msg, table, end, name) == Wire(name)
  {
    hide Known;
    if name != [] {
      assert name[0..] == name;
      FindMissesNothing(msg, table, end, name);
      forall k | 0 <= k < |name[1..]| ensures !Known(msg, table, end, name[1..][k..]) {
        assert name[1..][k..] == name[k + 1..];
      }
      CompressedNone(msg, table, end, name[1..]);
    }
  }

  lemma {:induction false} CompressedFrom(msg: seq<Byte>, table: seq<nat>, end: nat, name: seq<Label>, k: nat) returns (q: nat)
    requires forall p <- table :: Pointable(msg, p, end)
    requires KnownFrom(msg, table, end, name, k)
    ensures Place(msg, table, end, name[k..], q) && Compressed(msg, table, end, name) == Written(name[..k]) + PointerTo(q)
    decreases k
  {
    hide Known, Place;
    assert name[0..] == name;
    FindMissesNothing(msg, table, end, name);
    if k == 0 {
      q := FirstMatch(msg, table, end, name).value;
      assert name[..0] == [];
    } else {
      assert name[1..][k - 1..] == name[k..] && name[..k][1..] == name[1..][..k - 1];
      forall j | 0 <= j < k - 1 ensures !Known(msg, table, end, name[1..][j..]) {
        assert name[1..][j..] == name[j + 1..];
      }
      q := CompressedFrom(msg, table, end, name[1..], k - 1);
      assert Written(name[..k]) == [|name[0]|] + name[0] + Written(name[1..][..k - 1]);
    }
  }

  // What irc_ns_name_pack() writes.
  lemma CompressedIs(msg: seq<Byte>, table: seq<nat>, end: nat, name: seq<Label>)
    requires forall p <- table :: Pointable(msg, p, end)
    ensures PackedAs(msg, table, end, name, Compressed(msg, table, end, name))
  {
    hide Known, Remembered, Says, Compressed;
    if forall k :: 0 <= k < |name| ==> !Known(msg, table, end, name[k..]) {
      CompressedNone(msg, table, end, name);
    }
    forall k: nat | KnownFrom(msg, table, end, name, k)
      ensures exists q: nat :: Place(msg, table, end, name[k..], q) &&
                Compressed(msg, table, end, name) == Written(name[..k]) + PointerTo(q) {
      var q := CompressedFrom(msg, table, end, name, k);
    }
  }

  // Either no suffix is known or one is the longest.
  lemma {:induction false} LongestKnown(msg: seq<Byte>, table: seq<nat>, end: nat, name: seq<Label>, i: nat) returns (k: Option<nat>)
    requires i <= |name| && forall j :: 0 <= j < i ==> !Known(msg, table, end, name[j..])
    ensures if k.Some? then KnownFrom(msg, table, end, name, k.value)
            else forall j :: 0 <= j < |name| ==> !Known(msg, table, end, name[j..])
    decreases |name| - i
  {
    hide Known;
    if i == |name| {
      k := None;
    } else if Known(msg, table, end, name[i..]) {
      k := Some(i);
    } else {
      k := LongestKnown(msg, table, end, name, i + 1);
    }
  }

  lemma {:induction false} CutWritten(name: seq<Label>, k: nat)
    requires k <= |name|
    ensures Written(name) == Written(name[..k]) + Written(name[k..])
    ensures k < |name| ==> |Written(name[k..])| >= 2
  {
    assert name == name[..k] + name[k..];
    WrittenAppend(name[..k], name[k..]);
  }

  // That decides how long the packed name is, and whether it is cut short.
  lemma PackedLength(msg: seq<Byte>, table: seq<nat>, end: nat, name: seq<Label>, w: seq<Byte>, x: seq<Byte>)
    requires PackedAs(msg, table, end, name, w) && PackedAs(msg, table, end, name, x)
    ensures |w| == |x| <= |Wire(name)| && (w == Wire(name) <==> x == Wire(name)) && (w == Wire(name) <==> |w| == |Wire(name)|)
    ensures (forall k :: 0 <= k < |name| ==> !Known(msg, table, end, name[k..])) <==> w == Wire(name)
  {
    hide Known, Place, Written;
    var k := LongestKnown(msg, table, end, name, 0);
    if k.Some? {
      CutWritten(name, k.value);
    }
  }

  // A known suffix cuts the name short.
  lemma CutShort(msg: seq<Byte>, table: seq<nat>, end: nat, done: seq<Label>, rest: seq<Label>)
    requires (forall p <- table :: Pointable(msg, p, end)) && rest != [] && FirstMatch(msg, table, end, rest).Some?
    ensures Compressed(msg, table, end, done + rest) != Wire(done + rest)
  {
    hide Known, Compressed, FirstMatch, PackedAs;
    var name := done + rest;
    assert name[|done|..] == rest;
    FindMissesNothing(msg, table, end, rest);
    CompressedIs(msg, table, end, name);
    PackedLength(msg, table, end, name, Compressed(msg, table, end, name), Compressed(msg, table, end, name));
  }

  // ---- what is remembered for later names ----

  lemma {:induction false} RunFrame(msg: seq<Byte>, msg': seq<Byte>, end: nat, p: nat, q: nat)
    requires LabelOfRun(msg, p, q) && q < end <= |msg| && end <= |msg'| && msg'[..end] == msg[..end]
    ensures LabelOfRun(msg', p, q)
    decreases |msg| - p
  {
    RunGoesUp(msg, p, q);
    assert msg[p] == msg[..end][p] == msg'[..end][p];
    if q != p {
      RunFrame(msg, msg', end, p + 1 + msg[p], q);
    }
  }

  // What is known stays known while the message grows.
  lemma KnownStays(msg: seq<Byte>, msg': seq<Byte>, table: seq<nat>, more: seq<nat>, end: nat, end': nat, name: seq<Label>)
    requires Known(msg, table, end, name)
    requires end <= |msg| && end <= end' <= |msg'| && msg'[..end] == msg[..end]
    ensures Known(msg', table + more, end', name)
  {
    var q: nat :| Place(msg, table, end, name, q);
    ChainFrame(msg, msg', q, q, end, q, end');
    var p :| p in table && LabelOfRun(msg, p, q);
    RunFrame(msg, msg', end, p, q);
    assert p in table + more;
    assert Place(msg', table + more, end', name, q);
  }

  lemma {:induction false} RunOfLabels(msg: seq<Byte>, p: nat, a: seq<Label>)
    requires WrittenAt(msg, p, a) && p + |Written(a)| < |msg| && IsLabel(msg[p + |Written(a)|])
    ensures LabelOfRun(msg, p, p + |Written(a)|)
    decreases |a|
  {
    if a != [] {
      FirstWritten(msg, p, a);
      RunOfLabels(msg, p + 1 + |a[0]|, a[1..]);
    }
  }

  lemma {:induction false} CompressedSplit(msg: seq<Byte>, table: seq<nat>, end: nat, name: seq<Label>, j: nat)
    requires forall p <- table :: Pointable(msg, p, end)
    requires j <= |name| && forall i :: 0 <= i < j ==> !Known(msg, table, end, name[i..])
    ensures Compressed(msg, table, end, name) == Written(name[..j]) + Compressed(msg, table, end, name[j..])
    decreases j
  {
    hide Known, Place, FirstMatch, Compressed;
    if j == 0 {
      assert name[0..] == name && [] + Compressed(msg, table, end, name) == Compressed(msg, table, end, name);
    } else {
      CompressedSplit(msg, table, end, name, j - 1);
      FindMissesNothing(msg, table, end, name[j - 1..]);
      CompressedLabel(msg, table, end, name[..j - 1], name[j - 1..]);
      assert name[..j] == name[..j - 1] + [name[j - 1..][0]] && name[j..] == name[j - 1..][1..];
    }
  }

  lemma FirstByteOf(msg: seq<Byte>, table: seq<nat>, end: nat, name: seq<Label>)
    requires (forall p <- table :: Pointable(msg, p, end)) && name != [] && !Known(msg, table, end, name)
    ensures Compressed(msg, table, end, name) != [] && Compressed(msg, table, end, name)[0] == |name[0]|
  {
    hide Known, FirstMatch;
    FindMissesNothing(msg, table, end, name);
  }

  // A name written behind the packed part, with its start remembered: each of its suffixes whose label
  // stands there in reach of a pointer is known from now on.
  lemma NewlyKnown(msg: seq<Byte>, table: seq<nat>, end: nat, name: seq<Label>, msg': seq<Byte>, j: nat)
    requires (forall p <- table :: Pointable(msg, p, end)) && end <= |msg| && end <= |msg'| && msg'[..end] == msg[..end]
    requires var w := Compressed(msg, table, end, name); end + |w| <= |msg'| && msg'[end..end + |w|] == w
    requires j < |name| && forall i :: 0 <= i <= j ==> !Known(msg, table, end, name[i..])
    requires end + |Written(name[..j])| < MAXOFFSET
    ensures Known(msg', table + [end], end + |Compressed(msg, table, end, name)|, name[j..])
  {
    hide FirstMatch, SameName, Chain, Labels, Written, LabelOfRun, Compressed;
    var w, a, rest := Compressed(msg, table, end, name), Written(name[..j]), Compressed(msg, table, end, name[j..]);
    var q, end' := end + |a|, end + |w|;
    CompressedSplit(msg, table, end, name, j);
    FirstByteOf(msg, table, end, name[j..]);
    SplitSlice(msg', end, a, rest);
    CompressedReads(msg, table, end, name[j..], msg', q, q, end');
    RunOfLabels(msg', end, name[..j]);
    assert Place(msg', table + [end], end', name[j..], q) by {
      assert end in table + [end];
    }
  }

  lemma SplitSlice(msg: seq<Byte>, at: nat, a: seq<Byte>, b: seq<Byte>)
    requires at + |a| + |b| <= |msg| && msg[at..at + |a| + |b|] == a + b && b != []
    ensures msg[at..at + |a|] == a && msg[at + |a|..at + |a| + |b|] == b && msg[at + |a|] == b[0]
  {
    assert msg[at..at + |a|] == msg[at..at + |a| + |b|][..|a|];
    assert msg[at + |a|..at + |a| + |b|] == msg[at..at + |a| + |b|][|a|..];
  }

  // A name that ends in a suffix that is known takes no more than the labels in front of it and two
  // bytes, and no less than that if no longer suffix is known.
  lemma SuffixShortens(msg: seq<Byte>, table: seq<nat>, end: nat, pre: seq<Label>, suffix: seq<Label>, w: seq<Byte>)
    requires PackedAs(msg, table, end, pre + suffix, w) && suffix != [] && Known(msg, table, end, suffix)
    ensures |w| <= |Written(pre)| + 2
    ensures (forall j :: 0 <= j < |pre| ==> !Known(msg, table, end, pre[j..] + suffix)) ==> |w| == |Written(pre)| + 2
  {
    hide Known, Place, Written;
    var name := pre + suffix;
    assert name[|pre|..] == suffix;
    var k := LongestKnown(msg, table, end, name, 0);
    if k.value <= |pre| {
      assert name[..k.value] == pre[..k.value];
      CutWritten(pre, k.value);
    }
    if forall j :: 0 <= j < |pre| ==> !Known(msg, table, end, pre[j..] + suffix) {
      forall j | 0 <= j < |pre| ensures !Known(msg, table, end, name[j..]) {
        assert name[j..] == pre[j..] + suffix;
      }
      assert k.value >= |pre|;
      assert pre[..|pre|] == pre;
    }
  }
}
