// Whether an address lies in the block that a mask such as 2001:db8::/32 stands for
// (libathemecore/cidr.c:246-298).
module IpMatch {
  import opened Basics
  import opened IpText
  import opened IpPrefix
  import opened IpForms
  import T = Text

  const BUFSIZE: nat := 1024
  const HOSTLEN: nat := 64

  // mowgli_strlcpy() into a buffer of this size
  function Cut(s: string, size: nat): (r: string)
    requires size > 0
    ensures r <= s && (|s| < size ==> r == s)
  {
    if |s| < size then s else s[..size - 1]
  }

  // strrchr(s, '/')
  function LastSlash(s: string): (r: Option<nat>)
    ensures r.Some? ==> r.value < |s| && s[r.value] == '/' && '/' !in s[r.value + 1..]
    ensures r.None? ==> '/' !in s
  {
    if s == [] then None
    else if s[|s| - 1] == '/' then Some(|s| - 1)
    else LastSlash(s[..|s| - 1])
  }

  function Address(six: bool, s: string): Option<seq<Byte>> {
    if six then Address6(s) else Quad(s, [], 0, false)
  }

  function Width(six: bool): nat {
    if six then 128 else 32
  }

  // The addresses of a kind whose first bits are those of base.
  datatype Block = Block(six: bool, base: seq<Byte>, len: int)

  // The block a mask stands for, if it has a length that is not 0 nor too large and an address.
  function BlockOf(mask: string): Option<Block> {
    var i := LastSlash(mask);
    if i.None? then None
    else
      var (text, len) := (mask[..i.value], T.Atoi(mask[i.value + 1..]));
      var a := Address(':' in text, text);
      if len == 0 || len > Width(':' in text) || a.None? then None else Some(Block(':' in text, a.value, len))
  }

  ghost predicate Holds(b: Block, ip: string) {
    && 8 * |b.base| == Width(b.six) && (':' in ip) == b.six && 0 < b.len <= Width(b.six)
    && var a := Address(b.six, ip); a.Some? && |a.value| == |b.base| && SameBits(a.value, b.base, b.len)
  }

  ghost predicate Accepts(mask: string, ip: string) {
    BlockOf(mask).Some? && Holds(BlockOf(mask).value, ip)
  }

  // The mask has a negative length and both addresses can be read: there the program compares
  // bytes that are not part of the addresses.
  predicate Astray(mask: string, ip: string) {
    var b := BlockOf(mask);
    b.Some? && b.value.len < 0 && (':' in ip) == b.value.six && Address(b.value.six, ip).Some?
  }

  // ---- the addresses read have the right size ----

  lemma {:induction false} QuadSize(s: string, done: seq<Byte>, cur: Byte, digit: bool)
    requires |done| <= 3
    ensures Quad(s, done, cur, digit).Some? ==> |Quad(s, done, cur, digit).value| == 4
    decreases |s|
  {
    if s != [] {
      if Decimal(s[0]) {
        var v := cur * 10 + (s[0] - '0') as nat;
        if v <= 255 {
          QuadSize(s[1..], done, v, true);
        }
      } else if s[0] == '.' && digit && |done| < 3 {
        QuadSize(s[1..], done + [cur], 0, false);
      }
    }
  }

  lemma {:induction false} RestSize(s: string, token: string, out: seq<Byte>, colon: Option<nat>, val: nat, digit: bool)
    requires |out| <= 16 && val <= 0xffff && (colon.Some? ==> colon.value <= |out|)
    ensures var r := Rest(s, token, out, colon, val, digit); r.Some? ==> |r.value| == 16
    decreases |s|
  {
    hide Quad;
    if s == [] {
    } else if HexDigit(s[0]).Some? {
      var v := val * 16 + HexDigit(s[0]).value;
      if v <= 0xffff {
        RestSize(s[1..], token, out, colon, v, true);
      }
    } else if s[0] == ':' {
      if !digit && colon.None? {
        RestSize(s[1..], s[1..], out, Some(|out|), val, false);
      } else if digit && s[1..] != [] && |out| + 2 <= 16 {
        RestSize(s[1..], s[1..], out + Group(val), colon, 0, false);
      }
    }
  }

  lemma AddressSize(six: bool, s: string)
    ensures Address(six, s).Some? ==> 8 * |Address(six, s).value| == Width(six)
  {
    QuadSize(s, [], 0, false);
    RestSize(s, s, [], None, 0, false);
    if s != [] {
      RestSize(s[1..], s[1..], [], None, 0, false);
    }
  }

  lemma BlockSize(mask: string)
    ensures BlockOf(mask).Some? ==> 8 * |BlockOf(mask).value.base| == Width(BlockOf(mask).value.six)
  {
    var i := LastSlash(mask);
    if i.Some? {
      AddressSize(':' in mask[..i.value], mask[..i.value]);
    }
  }

  // ---- the program ----

  method LastSlashOf(s: string) returns (r: Option<nat>)
    ensures r == LastSlash(s)
  {
    var i := |s|;
    assert s[..i] == s;
    while i > 0
      invariant i <= |s| && LastSlash(s[..i]) == LastSlash(s)
    {
      assert s[..i][..i - 1] == s[..i - 1];
      if s[i - 1] == '/' {
        return Some(i - 1);
      }
      i := i - 1;
    }
    return None;
  }

  method Read(six: bool, s: string) returns (r: Option<seq<Byte>>)
    ensures r == Address(six, s)
  {
    if six {
      r := Pton6(s);
    } else {
      r := Pton4(s);
    }
  }

  // match_ips(): true if the address is in the block of the mask. None where the program is astray.
  method MatchIps(s1: string, s2: string) returns (r: Option<bool>)
    ensures r.None? <==> Astray(Cut(s1, BUFSIZE), Cut(s2, HOSTLEN + 1))
    ensures r.Some? ==> (r.value <==> Accepts(Cut(s1, BUFSIZE), Cut(s2, HOSTLEN + 1)))
  {
    hide Address, SameBits;
    var ipmask, ip := Cut(s1, BUFSIZE), Cut(s2, HOSTLEN + 1);
    BlockSize(ipmask);
    var slash := LastSlashOf(ipmask);
    if slash.None? {
      return Some(false);
    }
    var text, cidrlen := ipmask[..slash.value], T.Atoi(ipmask[slash.value + 1..]);
    if cidrlen == 0 {
      return Some(false);
    }
    if (':' in ip) != (':' in text) {
      return Some(false);
    }
    var six := ':' in ip;
    if cidrlen > Width(six) {
      return Some(false);
    }
    var ipaddr := Read(six, ip);
    if ipaddr.None? {
      return Some(false);
    }
    var maskaddr := Read(six, text);
    if maskaddr.None? {
      return Some(false);
    }
    AddressSize(six, ip);
    AddressSize(six, text);
    if cidrlen < 0 {
      return None;
    }
    var same := CompWithMask(ipaddr.value, maskaddr.value, cidrlen);
    return Some(same);
  }

  // ---- what it means ----

  // A mask of length 0 refuses every address.
  lemma NoLengthRefuses(mask: string, ip: string, i: nat)
    requires LastSlash(mask) == Some(i) && T.Atoi(mask[i + 1..]) == 0
    ensures !Accepts(mask, ip) && !Astray(mask, ip)
  {
  }

  // Two masks that accept one address are nested: what the longer one accepts the shorter one does.
  lemma MasksNest(outer: string, inner: string, shared: string, any: string)
    requires Accepts(outer, shared) && Accepts(inner, shared) && Accepts(inner, any)
    requires BlockOf(outer).value.len <= BlockOf(inner).value.len
    ensures Accepts(outer, any)
  {
    hide Address, BlockOf, SameBits;
    var o, n := BlockOf(outer).value, BlockOf(inner).value;
    var s, a := Address(o.six, shared).value, Address(o.six, any).value;
    BlocksNest(o.base, o.len, n.base, n.len, s, a);
  }

  lemma {:induction false} SlashFound(base: string, len: string)
    requires '/' !in len
    ensures LastSlash(base + ['/'] + len) == Some(|base|)
    decreases |len|
  {
    var s := base + ['/'] + len;
    if len == [] {
      assert s[|s| - 1] == '/';
    } else {
      var n := |len| - 1;
      assert s[|s| - 1] == len[n] && len[n] in len && s[..|s| - 1] == base + ['/'] + len[..n];
      SlashFound(base, len[..n]);
    }
  }

  // Address and length put together, as a caller would write them.
  function MaskText(base: string, n: nat): string {
    base + ['/'] + T.Decimal(n)
  }

  // For a readable address and a length within bounds the mask accepts exactly the readable addresses
  // of the same kind with the same first bits.
  lemma MaskAccepts(base: string, n: nat, ip: string)
    requires var six := ':' in base; Address(six, base).Some? && 1 <= n <= Width(six)
    ensures var six := ':' in base;
      Accepts(MaskText(base, n), ip) <==> Holds(Block(six, Address(six, base).value, n), ip)
    ensures !Astray(MaskText(base, n), ip)
  {
    var len, six := T.Decimal(n), ':' in base;
    assert !T.IsDigit('/') && forall c <- len :: T.IsDigit(c);
    SlashFound(base, len);
    T.AtoiDecimal(n);
    AddressSize(six, base);
    hide Address, LastSlash, SameBits, T.Atoi, T.Decimal;
    assert MaskText(base, n)[..|base|] == base && MaskText(base, n)[|base| + 1..] == len;
  }

  // ---- every address in every form ----

  lemma ColonInForm(f: Form)
    requires IsForm(f)
    ensures ':' in Text(f)
  {
    match f
    case Full(groups, tail) =>
      assert |groups| > 0 by {
        assert |TailBytes(tail)| <= 4;
      }
      assert Each(groups) == groups[0] + [':'] + Each(groups[1..]);
      assert Text(f)[|groups[0]|] == ':';
    case Elided(left, right, tail) =>
      var front := if left == [] then [':'] else Each(left);
      assert Text(f)[|front|] == ':';
  }

  // For any two IPv6 addresses in any of their forms, and any length: the mask accepts the address if
  // and only if the first bits agree.
  lemma FormsMatch(f: Form, n: nat, g: Form)
    requires IsForm(f) && IsForm(g) && 1 <= n <= 128
    ensures |Meaning(f)| == |Meaning(g)| == 16
    ensures Accepts(MaskText(Text(f), n), Text(g)) <==> SameBits(Meaning(g), Meaning(f), n)
  {
    hide Meaning, IsForm, Text, SameBits;
    FormsAreRead(f);
    FormsAreRead(g);
    ColonInForm(f);
    ColonInForm(g);
    AddressSize(true, Text(f));
    AddressSize(true, Text(g));
    MaskAccepts(Text(f), n, Text(g));
  }

  lemma NoColonInQuad(a: string, b: string, c: string, d: string)
    requires IsOctet(a) && IsOctet(b) && IsOctet(c) && IsOctet(d)
    ensures ':' !in QuadText(a, b, c, d)
  {
    assert forall x <- QuadText(a, b, c, d) :: x == '.' || x in a || x in b || x in c || x in d;
    assert !Decimal(':');
  }

  function QuadBytes(a: string, b: string, c: string, d: string): seq<Byte>
    requires IsOctet(a) && IsOctet(b) && IsOctet(c) && IsOctet(d)
  {
    [DecVal(a, 0), DecVal(b, 0), DecVal(c, 0), DecVal(d, 0)]
  }

  // The same for IPv4.
  lemma QuadsMatch(a: string, b: string, c: string, d: string, n: nat, w: string, x: string, y: string, z: string)
    requires IsOctet(a) && IsOctet(b) && IsOctet(c) && IsOctet(d) && 1 <= n <= 32
    requires IsOctet(w) && IsOctet(x) && IsOctet(y) && IsOctet(z)
    ensures Accepts(MaskText(QuadText(a, b, c, d), n), QuadText(w, x, y, z)) <==>
      SameBits(QuadBytes(w, x, y, z), QuadBytes(a, b, c, d), n)
  {
    QuadRead(a, b, c, d);
    QuadRead(w, x, y, z);
    NoColonInQuad(a, b, c, d);
    NoColonInQuad(w, x, y, z);
    hide IsOctet, QuadText, Quad, SameBits;
    MaskAccepts(QuadText(a, b, c, d), n, QuadText(w, x, y, z));
  }

  // ---- the buffers are large enough ----

  lemma {:induction false} EachLength(ts: seq<string>)
    requires forall i :: 0 <= i < |ts| ==> |ts[i]| <= 4
    ensures |Each(ts)| <= 5 * |ts|
  {
    if ts != [] {
      EachLength(ts[1..]);
    }
  }

  lemma {:induction false} HexLength(v: nat, k: nat)
    requires v <= 0xffff && 1 <= k <= 4 && (k == 4 || (k == 3 && v <= 0xfff) || (k == 2 && v <= 0xff) || v <= 0xf)
    ensures |HexText(v)| <= k
  {
    if v >= 16 {
      HexLength(v / 16, k - 1);
    }
  }

  lemma {:induction false} GroupLengths(a: seq<Byte>)
    requires |a| % 2 == 0
    ensures forall i :: 0 <= i < |GroupTexts(a)| ==> |GroupTexts(a)[i]| <= 4
  {
    hide HexText, Pair;
    if a != [] {
      PairGroup(a[0], a[1]);
      HexLength(Pair(a[0], a[1]), 4);
      GroupLengths(a[2..]);
      assert GroupTexts(a) == [HexText(Pair(a[0], a[1]))] + GroupTexts(a[2..]);
    }
  }

  lemma WrittenShort(a: seq<Byte>, i: nat, j: nat)
    requires |a| == 16 && i <= j <= 8
    ensures |Text(Written(a, i, j))| <= 46
  {
    var ts := GroupTexts(a);
    GroupLengths(a);
    if i == j {
      EachLength(ts[..7]);
    } else {
      EachLength(ts[..i]);
      if j < 8 {
        EachLength(ts[j..7]);
      }
    }
  }

  // For any two IPv6 addresses, whichever run of zero groups is left out of their texts, and for any
  // length, the program gives the answer, and it is whether the first bits agree.
  method EveryMask(a: seq<Byte>, i: nat, j: nat, n: nat, b: seq<Byte>, k: nat, l: nat) returns (r: Option<bool>)
    requires |a| == |b| == 16 && i <= j <= 8 && k <= l <= 8 && 1 <= n <= 128
    requires forall x :: 2 * i <= x < 2 * j ==> a[x] == 0
    requires forall x :: 2 * k <= x < 2 * l ==> b[x] == 0
    ensures r == Some(true) || r == Some(false)
    ensures r == Some(true) <==> SameBits(b, a, n)
  {
    var base, ip := Text(Written(a, i, j)), Text(Written(b, k, l));
    WrittenShort(a, i, j);
    WrittenShort(b, k, l);
    EveryAddress(a, i, j);
    EveryAddress(b, k, l);
    WrittenColon(a, i, j);
    WrittenColon(b, k, l);
    T.DecimalLength(n, 3);
    hide SameBits, Text, Written, Address6;
    MaskAccepts(base, n, ip);
    r := MatchIps(MaskText(base, n), ip);
  }

  lemma WrittenColon(a: seq<Byte>, i: nat, j: nat)
    requires |a| == 16 && i <= j <= 8
    ensures ':' in Text(Written(a, i, j))
  {
    GroupTextsMean(a);
    var ts := GroupTexts(a);
    if i == j {
      assert Each(ts[..7]) == ts[0] + [':'] + Each(ts[..7][1..]);
      assert Text(Written(a, i, j))[|ts[0]|] == ':';
    } else {
      var front := if i == 0 then [':'] else Each(ts[..i]);
      assert Text(Written(a, i, j))[|front|] == ':';
    }
  }
}
