// Comparing addresses up to a prefix (libathemecore/cidr.c:43-58).
module IpPrefix {
  import opened Basics
  import opened IpText

  function Pow2(k: nat): (p: nat)
    requires k <= 8
    ensures p > 0
  {
    if k == 0 then 1 else if k == 1 then 2 else if k == 2 then 4 else if k == 3 then 8
    else if k == 4 then 16 else if k == 5 then 32 else if k == 6 then 64 else if k == 7 then 128
    else 256
  }

  // Bit j of a byte, the highest first.
  function BitOf(x: nat, j: nat): nat
    requires j < 8
  {
    x / Pow2(7 - j) % 2
  }

  function Bit(a: seq<Byte>, i: nat): nat
    requires i < 8 * |a|
  {
    BitOf(a[i / 8], i % 8)
  }

  // What is left of a byte by a mask of its first r bits.
  function Masked(x: nat, r: nat): nat
    requires r <= 8
  {
    x / Pow2(8 - r)
  }

  lemma MaskedNext(x: nat, r: nat)
    requires r < 8
    ensures Masked(x, r + 1) == 2 * Masked(x, r) + BitOf(x, r)
  {
  }

  ghost predicate SameFirst(x: nat, y: nat, r: nat)
    requires r <= 8
  {
    forall j :: 0 <= j < r ==> BitOf(x, j) == BitOf(y, j)
  }

  // Masked bytes are equal exactly if the bits are.
  lemma {:induction false} MaskedBits(x: Byte, y: Byte, r: nat)
    requires r <= 8
    ensures Masked(x, r) == Masked(y, r) <==> SameFirst(x, y, r)
  {
    if r > 0 {
      MaskedBits(x, y, r - 1);
      MaskedNext(x, r - 1);
      MaskedNext(y, r - 1);
      hide Masked, BitOf;
    }
  }

  ghost predicate SameBits(a: seq<Byte>, b: seq<Byte>, k: nat)
    requires |a| == |b| && k <= 8 * |a|
  {
    forall i :: 0 <= i < k ==> Bit(a, i) == Bit(b, i)
  }

  lemma BitAt(a: seq<Byte>, m: nat, j: nat)
    requires m < |a| && j < 8
    ensures Bit(a, 8 * m + j) == BitOf(a[m], j)
  {
    assert (8 * m + j) / 8 == m && (8 * m + j) % 8 == j;
  }

  // The bits of a prefix are those of its whole bytes and of the rest.
  lemma BitsInBytes(a: seq<Byte>, b: seq<Byte>, n: nat, r: nat)
    requires |a| == |b| && r < 8 && 8 * n + r <= 8 * |a|
    ensures SameBits(a, b, 8 * n + r) <==>
      (forall m :: 0 <= m < n ==> SameFirst(a[m], b[m], 8)) && (r == 0 || SameFirst(a[n], b[n], r))
  {
    hide BitOf;
    var k := 8 * n + r;
    if SameBits(a, b, k) {
      forall m, j | 0 <= m < |a| && 0 <= j < 8 && 8 * m + j < k ensures BitOf(a[m], j) == BitOf(b[m], j) {
        BitAt(a, m, j);
        BitAt(b, m, j);
      }
    }
    if (forall m :: 0 <= m < n ==> SameFirst(a[m], b[m], 8)) && (r == 0 || SameFirst(a[n], b[n], r)) {
      forall i | 0 <= i < k ensures Bit(a, i) == Bit(b, i) {
        assert i == 8 * (i / 8) + i % 8;
        assert i / 8 < n ==> SameFirst(a[i / 8], b[i / 8], 8);
      }
    }
  }

  // Equal bytes are bytes with equal bits.
  lemma BytesAndBits(a: seq<Byte>, b: seq<Byte>, n: nat, r: nat)
    requires |a| == |b| && r < 8 && 8 * n + r <= 8 * |a|
    ensures SameBits(a, b, 8 * n + r) <==>
      a[..n] == b[..n] && (r == 0 || (n < |a| && Masked(a[n], r) == Masked(b[n], r)))
  {
    BitsInBytes(a, b, n, r);
    hide SameBits, SameFirst, Masked;
    forall m | 0 <= m < n ensures a[m] == b[m] <==> SameFirst(a[m], b[m], 8) {
      MaskedBits(a[m], b[m], 8);
      MaskedWhole(a[m]);
      MaskedWhole(b[m]);
    }
    if r > 0 {
      MaskedBits(a[n], b[n], r);
    }
    assert a[..n] == b[..n] <==> forall m :: 0 <= m < n ==> a[m] == b[m];
  }

  lemma MaskedWhole(x: nat)
    ensures Masked(x, 8) == x
  {
  }

  // comp_with_mask(): whole bytes first, then the rest of the prefix in the next one.
  method CompWithMask(a: seq<Byte>, b: seq<Byte>, mask: nat) returns (r: bool)
    requires |a| == |b| && mask <= 8 * |a|
    ensures r <==> SameBits(a, b, mask)
  {
    var n := mask / 8;
    BytesAndBits(a, b, n, mask % 8);
    if a[..n] == b[..n] {
      if mask % 8 == 0 || Masked(a[n], mask % 8) == Masked(b[n], mask % 8) {
        return true;
      }
    }
    return false;
  }

  // Two blocks of addresses that share one are nested: the longer prefix gives the inner block.
  lemma BlocksNest(outer: seq<Byte>, k: nat, inner: seq<Byte>, l: nat, shared: seq<Byte>, any: seq<Byte>)
    requires |outer| == |inner| == |shared| == |any| && k <= l <= 8 * |outer|
    requires SameBits(shared, outer, k) && SameBits(shared, inner, l) && SameBits(any, inner, l)
    ensures SameBits(any, outer, k)
  {
    assert forall i :: 0 <= i < k ==> Bit(any, i) == Bit(inner, i) == Bit(shared, i) == Bit(outer, i);
  }
}
