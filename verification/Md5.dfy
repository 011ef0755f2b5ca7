// Hashing in pieces: what md5_append() keeps and what md5_finish() feeds
// (libathemecore/md5.c:242-311; sections 3.1 and 3.2 of RFC 1321).
module Md5 {
  import opened Basics

  const TWO32: nat := 0x1_0000_0000
  const TWO64: nat := 0x1_0000_0000_0000_0000

  datatype Regs = Regs(a: nat, b: nat, c: nat, d: nat)
  const START: Regs := Regs(0x67452301, 0xefcdab89, 0x98badcfe, 0x10325476)

  // All full blocks of a message are processed, in order.
  function Fold(f: (Regs, seq<Byte>) -> Regs, r: Regs, s: seq<Byte>): Regs
    decreases |s|
  {
    if |s| < 64 then r else Fold(f, f(r, s[..64]), s[64..])
  }

  // The bytes behind the last full block.
  function Left(s: seq<Byte>): seq<Byte> {
    s[|s| - |s| % 64..]
  }

  lemma {:induction false} FoldJoined(f: (Regs, seq<Byte>) -> Regs, r: Regs, a: seq<Byte>, b: seq<Byte>)
    requires |a| % 64 == 0
    ensures Fold(f, r, a + b) == Fold(f, Fold(f, r, a), b)
    decreases |a|
  {
    if a == [] {
      assert a + b == b;
    } else {
      assert (a + b)[..64] == a[..64] && (a + b)[64..] == a[64..] + b;
      FoldJoined(f, f(r, a[..64]), a[64..], b);
    }
  }

  // What is left behind the full blocks does not matter for them.
  lemma {:induction false} FoldIgnoresLeft(f: (Regs, seq<Byte>) -> Regs, r: Regs, s: seq<Byte>)
    ensures Fold(f, r, s) == Fold(f, r, s[..|s| - |s| % 64])
    decreases |s|
  {
    if |s| >= 64 {
      var t := s[..|s| - |s| % 64];
      assert t[..64] == s[..64] && t[64..] == s[64..][..|s[64..]| - |s[64..]| % 64];
      FoldIgnoresLeft(f, f(r, s[..64]), s[64..]);
    }
  }

  // The state for a message depends on what is left of its beginning and on what follows.
  lemma FoldMore(f: (Regs, seq<Byte>) -> Regs, r: Regs, a: seq<Byte>, b: seq<Byte>)
    ensures Fold(f, r, a + b) == Fold(f, Fold(f, r, a), Left(a) + b)
    ensures Left(Left(a) + b) == Left(a + b) && |Left(a)| == |a| % 64
  {
    hide Fold, Left;
    var full := a[..|a| - |a| % 64];
    LeftMore(a, b);
    FoldJoined(f, r, full, Left(a) + b);
    FoldIgnoresLeft(f, r, a);
  }

  lemma LeftMore(a: seq<Byte>, b: seq<Byte>)
    ensures a + b == a[..|a| - |a| % 64] + (Left(a) + b)
    ensures Left(Left(a) + b) == Left(a + b) && |Left(a)| == |a| % 64
  {
    var n, k := |a| - |a| % 64, |a| % 64;
    assert (k + |b|) % 64 == (|a| + |b|) % 64;
  }

  // ---- the padded message ----

  // The first n bytes of a number, the lowest first.
  function LowFirst(v: nat, n: nat): seq<Byte> {
    if n == 0 then [] else [v % 256] + LowFirst(v / 256, n - 1)
  }

  function Padding(n: nat): (p: seq<Byte>)
    ensures 1 <= |p| <= 64 && (n + |p|) % 64 == 56
  {
    [0x80] + seq((55 - n) % 64, _ => 0)
  }

  // A one bit, zero bits up to 56 bytes modulo 64, and the length in bits modulo 2^64.
  function Padded(s: seq<Byte>): seq<Byte> {
    s + Padding(|s|) + LowFirst(8 * |s| % TWO64, 8)
  }

  // A number from its bytes, the lowest first.
  function Value(s: seq<Byte>): nat {
    if s == [] then 0 else s[0] + 256 * Value(s[1..])
  }

  // p is s, a one bit, as few zero bits as fill a block up to its last 64, and the number of bits of s in
  // these, modulo 2^64 (section 3.1 and 3.2 of RFC 1321).
  ghost predicate IsPadded(s: seq<Byte>, p: seq<Byte>) {
    && |p| % 64 == 0 && |s| + 9 <= |p| < |s| + 9 + 64
    && p[..|s|] == s && p[|s|] == 128 && (forall i :: |s| < i < |p| - 8 ==> p[i] == 0)
    && |p[|p| - 8..]| == 8 && Value(p[|p| - 8..]) == 8 * |s| % TWO64
  }

  lemma {:induction false} ValueOfLowFirst(v: nat, n: nat)
    requires v < Pow256(n)
    ensures Value(LowFirst(v, n)) == v
    decreases n
  {
    if n > 0 {
      assert v / 256 < Pow256(n - 1);
      ValueOfLowFirst(v / 256, n - 1);
      assert LowFirst(v, n)[1..] == LowFirst(v / 256, n - 1);
    }
  }

  lemma PaddedIsPadded(s: seq<Byte>)
    ensures IsPadded(s, Padded(s))
  {
    var v, p := 8 * |s| % TWO64, Padded(s);
    LowFirstLength(v, 8);
    PaddedWhole(s);
    PowTwo64();
    ValueOfLowFirst(v, 8);
    assert p[|p| - 8..] == LowFirst(v, 8);
  }

  lemma PowTwo64()
    ensures Pow256(8) == TWO64
  {
    assert Pow256(2) == 0x1_0000 && Pow256(4) == TWO32;
  }

  // The four registers hold, as bytes the lowest first, the digits up and down again (section 3.3 of
  // RFC 1321).
  lemma StartBytes()
    ensures LowFirst(START.a, 4) + LowFirst(START.b, 4) == [0x01, 0x23, 0x45, 0x67, 0x89, 0xab, 0xcd, 0xef]
    ensures LowFirst(START.c, 4) + LowFirst(START.d, 4) == [0xfe, 0xdc, 0xba, 0x98, 0x76, 0x54, 0x32, 0x10]
  {
    hide LowFirst;
    FourBytes(START.a);
    FourBytes(START.b);
    FourBytes(START.c);
    FourBytes(START.d);
  }

  lemma FourBytes(v: nat)
    ensures LowFirst(v, 4) == [v % 256, v / 256 % 256, v / 0x1_0000 % 256, v / 0x100_0000 % 256]
  {
    var a, b, c := v / 256, v / 256 / 256, v / 256 / 256 / 256;
    assert LowFirst(c, 1) == [c % 256] && LowFirst(b, 2) == [b % 256, c % 256];
    assert b == v / 0x1_0000 && c == v / 0x100_0000;
  }

  class State {
    // md5_process(), the compression of one block into the registers
    const process: (Regs, seq<Byte>) -> Regs
    var count0: nat
    var count1: nat
    var abcd: Regs
    const buf: array<Byte>
    // all bytes appended
    ghost var data: seq<Byte>

    ghost predicate Valid()
      reads this, buf
    {
      && buf.Length == 64 && count0 < TWO32 && count1 < TWO32
      && count0 + TWO32 * count1 == 8 * |data| % TWO64
      && abcd == Fold(process, START, data)
      && buf[..|data| % 64] == Left(data)
    }

    // md5_init()
    constructor (process: (Regs, seq<Byte>) -> Regs)
      ensures Valid() && fresh(buf) && this.process == process && data == []
    {
      this.process := process;
      count0, count1, abcd, data := 0, 0, START, [];
      buf := new Byte[64];
    }

    // The message length is updated in two words.
    method Count(n: nat)
      requires count0 < TWO32 && count1 < TWO32 && 0 < n < 0x8000_0000
      modifies this`count0, this`count1
      ensures count0 < TWO32 && count1 < TWO32
      ensures count0 + TWO32 * count1 == (old(count0) + TWO32 * old(count1) + 8 * n) % TWO64
    {
      var nbits := n * 8 % TWO32;
      ghost var high, low := count1 + n / 0x2000_0000, count0 + nbits;
      assert 8 * n == nbits + TWO32 * (n / 0x2000_0000);
      TwoWords(low % TWO32, high);
      TwoWords(low % TWO32, high + 1);
      count1 := (count1 + n / 0x2000_0000) % TWO32;
      count0 := (count0 + nbits) % TWO32;
      if count0 < nbits {
        assert low == count0 + TWO32;
        Incremented(high);
        count1 := (count1 + 1) % TWO32;
      } else {
        assert low == count0;
      }
    }

    method CopyIn(at: nat, bytes: seq<Byte>)
      requires buf.Length == 64 && at + |bytes| <= 64
      modifies buf
      ensures buf[..at + |bytes|] == old(buf[..at]) + bytes
    {
      forall i | 0 <= i < |bytes| {
        buf[at + i] := bytes[i];
      }
    }

    // md5_append()
    method Append(bytes: seq<Byte>)
      requires Valid() && |bytes| < 0x8000_0000
      modifies this`count0, this`count1, this`abcd, this`data, buf
      ensures Valid() && data == old(data) + bytes
    {
      if |bytes| == 0 {
        assert data + bytes == data;
        return;
      }
      var offset := count0 / 8 % 64;
      OffsetIs(count0, count1, |data|);
      ghost var was := data;
      CountedMore(|data|, |bytes|);
      Count(|bytes|);
      data := data + bytes;
      FoldMore(process, START, was, bytes);
      RestOf(|was|, |bytes|);
      hide Fold, Left;
      Feed(offset, bytes, was);
    }

    // The processing: the partial block, the full blocks, and what is left.
    method Feed(offset: nat, bytes: seq<Byte>, ghost was: seq<Byte>)
      requires buf.Length == 64 && offset == |was| % 64 && buf[..offset] == Left(was) && bytes != []
      modifies this`abcd, buf
      ensures abcd == Fold(process, old(abcd), Left(was) + bytes)
      ensures buf[..(offset + |bytes|) % 64] == Left(was + bytes)
    {
      hide Fold, Left;
      FoldMore(process, START, was, bytes);
      var p := 0;
      ghost var r, all := abcd, Left(was) + bytes;
      if offset != 0 {
        var copy := FillUp(offset, bytes, all);
        if offset + copy < 64 {
          NoBlock(process, r, all);
          assert all[..offset + copy] == all;
          return;
        }
        p := copy;
        assert buf[..] == buf[..64];
        OneBlock(process, r, all);
        abcd := process(abcd, buf[..]);
      } else {
        assert all == bytes[p..];
      }
      p := Blocks(p, bytes);
      NoBlock(process, abcd, bytes[p..]);
      LeftIs(all, bytes[p..]);
      CopyIn(0, bytes[p..]);
    }

    // The partial block is filled up as far as the bytes go.
    method FillUp(offset: nat, bytes: seq<Byte>, ghost all: seq<Byte>) returns (copy: nat)
      requires buf.Length == 64 && 0 < offset < 64 && all == buf[..offset] + bytes
      modifies buf
      ensures copy == if offset + |bytes| > 64 then 64 - offset else |bytes|
      ensures buf[..offset + copy] == all[..offset + copy] && all[offset + copy..] == bytes[copy..]
    {
      copy := if offset + |bytes| > 64 then 64 - offset else |bytes|;
      CopyIn(offset, bytes[..copy]);
    }

    // All full blocks from place p on.
    method Blocks(p: nat, bytes: seq<Byte>) returns (q: nat)
      requires p <= |bytes|
      modifies this`abcd
      ensures p <= q <= |bytes| && |bytes| - q < 64 && (|bytes| - q) % 64 == (|bytes| - p) % 64
      ensures Fold(process, abcd, bytes[q..]) == Fold(process, old(abcd), bytes[p..])
    {
      hide Fold;
      q := p;
      while |bytes| - q >= 64
        invariant p <= q <= |bytes| && (|bytes| - q) % 64 == (|bytes| - p) % 64
        invariant Fold(process, abcd, bytes[q..]) == Fold(process, old(abcd), bytes[p..])
      {
        OneBlock(process, abcd, bytes[q..]);
        BlockAt(bytes, q);
        abcd := process(abcd, bytes[q..q + 64]);
        q := q + 64;
      }
    }

    // md5_finish(): what is fed is the padded message.
    method Finish() returns (digest: seq<Byte>)
      requires Valid()
      modifies this`count0, this`count1, this`abcd, this`data, buf
      ensures data == Padded(old(data)) && |data| % 64 == 0 && abcd == Fold(process, START, data)
      ensures IsPadded(old(data), data)
      ensures digest == LowFirst(abcd.a, 4) + LowFirst(abcd.b, 4) + LowFirst(abcd.c, 4) + LowFirst(abcd.d, 4)
    {
      hide Fold, Left, LowFirst, Padding, Padded, IsPadded;
      var length := LowFirst(count0, 4) + LowFirst(count1, 4);
      OffsetIs(count0, count1, |data|);
      WordsFirst(count0, count1);
      PadCount(count0 / 8, |data|);
      var pad: seq<Byte> := [0x80] + seq((55 - count0 / 8) % 64, _ => 0);
      PaddedIs(data, pad, length);
      PaddedIsPadded(data);
      Append(pad);
      Append(length);
      digest := LowFirst(abcd.a, 4) + LowFirst(abcd.b, 4) + LowFirst(abcd.c, 4) + LowFirst(abcd.d, 4);
    }
  }

  lemma OneBlock(f: (Regs, seq<Byte>) -> Regs, r: Regs, s: seq<Byte>)
    requires |s| >= 64
    ensures Fold(f, r, s) == Fold(f, f(r, s[..64]), s[64..])
  {
  }

  lemma NoBlock(f: (Regs, seq<Byte>) -> Regs, r: Regs, s: seq<Byte>)
    requires |s| < 64
    ensures Fold(f, r, s) == r && Left(s) == s
  {
  }

  lemma BlockAt(s: seq<Byte>, p: nat)
    requires p + 64 <= |s|
    ensures s[p..][..64] == s[p..p + 64] && s[p..][64..] == s[p + 64..]
  {
  }

  lemma LeftIs(s: seq<Byte>, left: seq<Byte>)
    requires |left| == |s| % 64 && s[|s| - |left|..] == left
    ensures Left(s) == left
  {
  }

  lemma PadCount(a: nat, b: nat)
    requires a % 64 == b % 64
    ensures [0x80] + seq((55 - a) % 64, _ => 0) == Padding(b)
  {
  }

  lemma PaddedWhole(s: seq<Byte>)
    ensures |Padded(s)| % 64 == 0
  {
    var v := 8 * |s| % TWO64;
    LowFirstLength(v, 8);
    var n := |s| + |Padding(|s|)|;
    hide Padding, LowFirst;
    assert |Padded(s)| == n + 8 && n % 64 == 56;
    AddEight(n);
  }

  lemma PaddedIs(s: seq<Byte>, pad: seq<Byte>, length: seq<Byte>)
    requires pad == Padding(|s|) && length == LowFirst(8 * |s| % TWO64, 8)
    ensures s + pad + length == Padded(s) && |Padded(s)| % 64 == 0 && |pad| <= 64 && |length| == 8
  {
    LowFirstLength(8 * |s| % TWO64, 8);
    PaddedWhole(s);
  }

  lemma AddEight(n: nat)
    requires n % 64 == 56
    ensures (n + 8) % 64 == 0
  {
  }

  lemma {:induction false} LowFirstLength(v: nat, n: nat)
    ensures |LowFirst(v, n)| == n
  {
    if n > 0 {
      LowFirstLength(v / 256, n - 1);
    }
  }

  // The bytes of the length are those of its two words.
  lemma WordsFirst(low: nat, high: nat)
    requires low < TWO32
    ensures LowFirst(low, 4) + LowFirst(high, 4) == LowFirst(low + TWO32 * high, 8)
  {
    assert Pow256(2) == 0x1_0000 && Pow256(3) == 0x100_0000 && Pow256(4) == TWO32;
    LowFirstSplit(low, high, 4, 4);
  }

  function Pow256(n: nat): nat {
    if n == 0 then 1 else 256 * Pow256(n - 1)
  }

  lemma {:induction false} LowFirstSplit(low: nat, high: nat, n: nat, m: nat)
    requires low < Pow256(n)
    ensures LowFirst(low + Pow256(n) * high, n + m) == LowFirst(low, n) + LowFirst(high, m)
  {
    if n == 0 {
      assert Pow256(0) * high == high;
    } else {
      var x := Pow256(n - 1) * high;
      assert Pow256(n) * high == 256 * x;
      var v := low + 256 * x;
      assert v % 256 == low % 256 && v / 256 == low / 256 + x;
      LowFirstSplit(low / 256, high, n - 1, m);
    }
  }

  lemma TwoWords(low: nat, high: nat)
    requires low < TWO32
    ensures low + TWO32 * (high % TWO32) == (low + TWO32 * high) % TWO64
  {
    var q := high / TWO32;
    assert low + TWO32 * high == TWO64 * q + (low + TWO32 * (high % TWO32));
  }

  lemma Incremented(high: nat)
    ensures (high % TWO32 + 1) % TWO32 == (high + 1) % TWO32
  {
  }

  lemma OffsetIs(count0: nat, count1: nat, n: nat)
    requires count0 < TWO32 && count0 + TWO32 * count1 == 8 * n % TWO64
    ensures count0 / 8 % 64 == n % 64
  {
    var k := 8 * n / TWO64;
    assert 8 * n == TWO64 * k + count0 + TWO32 * count1;
    assert count0 == 8 * (n - (TWO64 / 8) * k - (TWO32 / 8) * count1);
  }

  lemma RestOf(n: nat, m: nat)
    ensures (n % 64 + m) % 64 == (n + m) % 64
  {
  }

  lemma CountedMore(n: nat, m: nat)
    ensures (8 * n % TWO64 + 8 * m) % TWO64 == 8 * (n + m) % TWO64
  {
  }
}
