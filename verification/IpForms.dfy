// The text forms of IPv6 addresses (section 2.2 of RFC 4291) are read as the addresses they stand
// for, and prefixes are compared bit by bit (libathemecore/cidr.c:45-58, 93-229).
module IpForms {
  import opened Basics
  import opened IpText

  // ---- hexadecimal groups ----

  predicate AllHex(t: string) {
    forall c <- t :: HexDigit(c).Some?
  }

  function HexVal(t: string, acc: nat): nat
    requires AllHex(t)
  {
    if t == [] then acc else HexVal(t[1..], acc * 16 + HexDigit(t[0]).value)
  }

  // Any number of digits, upper or lower case, with or without leading zeros.
  predicate IsGroup(t: string) {
    t != [] && AllHex(t) && HexVal(t, 0) <= 0xffff
  }

  predicate AllGroups(ts: seq<string>) {
    forall i :: 0 <= i < |ts| ==> IsGroup(ts[i])
  }

  // Groups, each followed by a colon.
  function Each(ts: seq<string>): string {
    if ts == [] then [] else ts[0] + [':'] + Each(ts[1..])
  }

  function Groups(ts: seq<string>): (r: seq<Byte>)
    requires AllGroups(ts)
    ensures |r| == 2 * |ts|
  {
    if ts == [] then [] else Group(HexVal(ts[0], 0)) + Groups(ts[1..])
  }

  lemma {:induction false} HexGrows(t: string, acc: nat)
    requires AllHex(t)
    ensures HexVal(t, acc) >= acc
    decreases |t|
  {
    if t != [] {
      HexGrows(t[1..], acc * 16 + HexDigit(t[0]).value);
    }
  }

  lemma {:induction false} GroupRead(t: string, acc: nat, rest: string, token: string, out: seq<Byte>, colon: Option<nat>, digit: bool)
    requires AllHex(t) && HexVal(t, acc) <= 0xffff && acc <= 0xffff
    requires |out| <= 16 && (colon.Some? ==> colon.value <= |out|)
    ensures Rest(t + rest, token, out, colon, acc, digit) == Rest(rest, token, out, colon, HexVal(t, acc), digit || t != [])
    decreases |t|
  {
    if t == [] {
      assert t + rest == rest;
    } else {
      var v := acc * 16 + HexDigit(t[0]).value;
      HexGrows(t[1..], v);
      assert (t + rest)[0] == t[0] && (t + rest)[1..] == t[1..] + rest;
      GroupRead(t[1..], v, rest, token, out, colon, true);
    }
  }

  lemma Associate(a: seq<Byte>, b: seq<Byte>, c: seq<Byte>)
    ensures a + b + c == a + (b + c)
  {
  }

  lemma FirstOfEach(ts: seq<string>, rest: string)
    requires ts != []
    ensures Each(ts) + rest == ts[0] + ([':'] + (Each(ts[1..]) + rest))
  {
  }

  lemma OneRead(t: string, more: string, out: seq<Byte>, colon: Option<nat>)
    requires IsGroup(t) && more != [] && |out| + 2 <= 16 && (colon.Some? ==> colon.value <= |out|)
    ensures Rest(t + ([':'] + more), t + ([':'] + more), out, colon, 0, false)
      == Rest(more, more, out + Group(HexVal(t, 0)), colon, 0, false)
  {
    GroupRead(t, 0, [':'] + more, t + ([':'] + more), out, colon, false);
    assert ([':'] + more)[1..] == more;
  }

  lemma {:induction false} EachRead(ts: seq<string>, rest: string, out: seq<Byte>, colon: Option<nat>)
    requires AllGroups(ts) && rest != [] && |out| + 2 * |ts| <= 16
    requires colon.Some? ==> colon.value <= |out|
    ensures Rest(Each(ts) + rest, Each(ts) + rest, out, colon, 0, false) == Rest(rest, rest, out + Groups(ts), colon, 0, false)
    decreases |ts|
  {
    if ts == [] {
      assert Each(ts) + rest == rest && out + Groups(ts) == out;
    } else {
      var t, more := ts[0], Each(ts[1..]) + rest;
      FirstOfEach(ts, rest);
      Associate(out, Group(HexVal(t, 0)), Groups(ts[1..]));
      hide Rest, Each, HexVal, Group, IsGroup;
      OneRead(t, more, out, colon);
      EachRead(ts[1..], rest, out + Group(HexVal(t, 0)), colon);
    }
  }

  // ---- dotted quads ----

  predicate AllDecimal(t: string) {
    forall c <- t :: Decimal(c)
  }

  function DecVal(t: string, acc: nat): nat
    requires AllDecimal(t)
  {
    if t == [] then acc
    else
      assert t[0] in t && forall c <- t[1..] :: c in t;
      DecVal(t[1..], acc * 10 + (t[0] - '0') as nat)
  }

  predicate IsOctet(t: string) {
    t != [] && AllDecimal(t) && DecVal(t, 0) <= 255
  }

  lemma {:induction false} DecGrows(t: string, acc: nat)
    requires AllDecimal(t)
    ensures DecVal(t, acc) >= acc
    decreases |t|
  {
    if t != [] {
      assert t[0] in t && forall c <- t[1..] :: c in t;
      DecGrows(t[1..], acc * 10 + (t[0] - '0') as nat);
    }
  }

  lemma {:induction false} OctetRead(t: string, acc: Byte, rest: string, done: seq<Byte>, digit: bool)
    requires AllDecimal(t) && DecVal(t, acc) <= 255 && |done| <= 3
    ensures Quad(t + rest, done, acc, digit) == Quad(rest, done, DecVal(t, acc), digit || t != [])
    decreases |t|
  {
    if t == [] {
      assert t + rest == rest;
    } else {
      assert t[0] in t && forall c <- t[1..] :: c in t;
      var v := acc * 10 + (t[0] - '0') as nat;
      DecGrows(t[1..], v);
      assert (t + rest)[0] == t[0] && (t + rest)[1..] == t[1..] + rest;
      OctetRead(t[1..], v, rest, done, true);
    }
  }

  // An octet read as hexadecimal digits stays small.
  lemma {:induction false} OctetAsHex(t: string, dec: nat, hex: nat)
    requires AllDecimal(t) && DecVal(t, dec) <= 255
    requires (dec == 0 ==> hex == 0) && (dec <= 9 ==> hex <= 9) && (dec <= 99 ==> hex <= 0x99) && hex <= 0x999
    ensures AllHex(t) && HexVal(t, hex) <= 0x999
    decreases |t|
  {
    if t != [] {
      assert t[0] in t && forall c <- t[1..] :: c in t;
      var x := (t[0] - '0') as nat;
      DecGrows(t[1..], dec * 10 + x);
      OctetAsHex(t[1..], dec * 10 + x, hex * 16 + x);
    }
  }

  function QuadText(a: string, b: string, c: string, d: string): string {
    a + (['.'] + (b + (['.'] + (c + (['.'] + d)))))
  }

  lemma QuadPart(t: string, rest: string, done: seq<Byte>)
    requires IsOctet(t) && |done| < 3
    ensures Quad(t + (['.'] + rest), done, 0, false) == Quad(rest, done + [DecVal(t, 0)], 0, false)
  {
    OctetRead(t, 0, ['.'] + rest, done, false);
    assert (['.'] + rest)[1..] == rest;
  }

  lemma QuadRead(a: string, b: string, c: string, d: string)
    requires IsOctet(a) && IsOctet(b) && IsOctet(c) && IsOctet(d)
    ensures Quad(QuadText(a, b, c, d), [], 0, false) == Some([DecVal(a, 0), DecVal(b, 0), DecVal(c, 0), DecVal(d, 0)])
  {
    var x, y, z, w: Byte := DecVal(a, 0), DecVal(b, 0), DecVal(c, 0), DecVal(d, 0);
    var r2 := c + (['.'] + d);
    var r1 := b + (['.'] + r2);
    QuadPart(a, r1, []);
    QuadPart(b, r2, [] + [x]);
    QuadPart(c, d, [] + [x] + [y]);
    OctetRead(d, 0, [], [] + [x] + [y] + [z], false);
    QuadEnd([] + [x] + [y] + [z], w);
    hide Quad;
    assert d + [] == d;
    assert [] + [x] + [y] + [z] + [w] == [x, y, z, w];
  }

  lemma QuadEnd(done: seq<Byte>, cur: Byte)
    requires |done| == 3
    ensures Quad([], done, cur, true) == Some(done + [cur])
  {
  }

  // ---- the forms ----

  // What an address ends with: "::" or a colon's groups before, one more group, or a dotted quad.
  datatype Tail = Nothing | Last(t: string) | Dotted(a: string, b: string, c: string, d: string)

  predicate IsTail(e: Tail) {
    match e
    case Nothing => true
    case Last(t) => IsGroup(t)
    case Dotted(a, b, c, d) => IsOctet(a) && IsOctet(b) && IsOctet(c) && IsOctet(d)
  }

  function TailText(e: Tail): string {
    match e
    case Nothing => []
    case Last(t) => t
    case Dotted(a, b, c, d) => QuadText(a, b, c, d)
  }

  function TailBytes(e: Tail): seq<Byte>
    requires IsTail(e)
  {
    match e
    case Nothing => []
    case Last(t) => Group(HexVal(t, 0))
    case Dotted(a, b, c, d) => [DecVal(a, 0), DecVal(b, 0), DecVal(c, 0), DecVal(d, 0)]
  }

  lemma TailRead(e: Tail, out: seq<Byte>, colon: Option<nat>)
    requires IsTail(e) && |out| + |TailBytes(e)| <= 16 && (colon.Some? ==> colon.value <= |out|)
    ensures Rest(TailText(e), TailText(e), out, colon, 0, false) == Finish(out + TailBytes(e), colon, 0, false)
  {
    match e
    case Nothing =>
      assert out + [] == out;
    case Last(t) =>
      GroupRead(t, 0, [], t, out, colon, false);
      assert t + [] == t;
    case Dotted(a, b, c, d) =>
      var text, rest := TailText(e), ['.'] + (b + (['.'] + (c + (['.'] + d))));
      OctetAsHex(a, 0, 0);
      GroupRead(a, 0, rest, text, out, colon, false);
      QuadRead(a, b, c, d);
      assert rest[1..] != [] && HexDigit('.').None?;
  }

  // An address written in full, or with "::" for the zeros between left and right.
  datatype Form =
    | Full(groups: seq<string>, tail: Tail)
    | Elided(left: seq<string>, right: seq<string>, tail: Tail)

  ghost predicate IsForm(f: Form) {
    IsTail(f.tail) &&
    match f
    case Full(groups, tail) => AllGroups(groups) && tail != Nothing && 2 * |groups| + |TailBytes(tail)| == 16
    case Elided(left, right, tail) =>
      && AllGroups(left) && AllGroups(right)
      && (tail == Nothing ==> right == []) && 2 * |left| + 2 * |right| + |TailBytes(tail)| <= 14
  }

  function Text(f: Form): string {
    match f
    case Full(groups, tail) => Each(groups) + TailText(tail)
    case Elided(left, right, tail) =>
      (if left == [] then [':'] else Each(left)) + ([':'] + (Each(right) + TailText(tail)))
  }

  ghost function Meaning(f: Form): seq<Byte>
    requires IsForm(f)
  {
    match f
    case Full(groups, tail) => Groups(groups) + TailBytes(tail)
    case Elided(left, right, tail) =>
      var after := Groups(right) + TailBytes(tail);
      Groups(left) + Zeros(16 - 2 * |left| - |after|) + after
  }

  lemma FinishColon(left: seq<Byte>, after: seq<Byte>)
    requires |left + after| < 16
    ensures Finish(left + after, Some(|left|), 0, false) == Some(left + Zeros(16 - |left| - |after|) + after)
  {
    assert (left + after)[..|left|] == left && (left + after)[|left|..] == after;
  }

  // Groups and the tail behind them.
  lemma RightRead(right: seq<string>, tail: Tail, out: seq<Byte>, colon: Option<nat>)
    requires IsTail(tail) && AllGroups(right) && (tail == Nothing ==> right == [])
    requires |out| + 2 * |right| + |TailBytes(tail)| <= 16 && (colon.Some? ==> colon.value <= |out|)
    ensures var text := Each(right) + TailText(tail);
      Rest(text, text, out, colon, 0, false) == Finish(out + (Groups(right) + TailBytes(tail)), colon, 0, false)
  {
    hide Rest;
    TailRead(tail, out + Groups(right), colon);
    Associate(out, Groups(right), TailBytes(tail));
    if right == [] {
      assert Each(right) + TailText(tail) == TailText(tail) && out + Groups(right) == out;
    } else {
      TailIsText(tail);
      EachRead(right, TailText(tail), out, colon);
    }
  }

  lemma TailIsText(tail: Tail)
    requires IsTail(tail) && tail != Nothing
    ensures TailText(tail) != []
  {
  }

  // What follows "::".
  lemma AfterColons(left: seq<Byte>, right: seq<string>, tail: Tail)
    requires IsTail(tail) && AllGroups(right) && (tail == Nothing ==> right == [])
    requires |left| + 2 * |right| + |TailBytes(tail)| <= 14
    ensures var after := Groups(right) + TailBytes(tail); var text := Each(right) + TailText(tail);
      Rest(text, text, left, Some(|left|), 0, false) == Some(left + Zeros(16 - |left| - |after|) + after)
  {
    RightRead(right, tail, left, Some(|left|));
    FinishColon(left, Groups(right) + TailBytes(tail));
    hide Rest, Finish;
  }

  // Every form of an address is read as the address.
  lemma FormsAreRead(f: Form)
    requires IsForm(f)
    ensures Address6(Text(f)) == Some(Meaning(f))
  {
    match f
    case Full(groups, tail) =>
      RightRead(groups, tail, [], None);
      assert [] + (Groups(groups) + TailBytes(tail)) == Groups(groups) + TailBytes(tail);
      NoColonFirst(groups, tail);
    case Elided(left, right, tail) =>
      var text := Each(right) + TailText(tail);
      assert ([':'] + text)[1..] == text;
      if left == [] {
        assert Text(f)[1..] == [':'] + text;
        AfterColons([], right, tail);
        assert [] + Zeros(16 - 2 * |right| - |TailBytes(tail)|) == Zeros(16 - 2 * |right| - |TailBytes(tail)|);
      } else {
        EachRead(left, [':'] + text, [], None);
        assert [] + Groups(left) == Groups(left);
        AfterColons(Groups(left), right, tail);
        assert IsGroup(left[0]) && Text(f)[0] == left[0][0] && left[0][0] in left[0];
      }
  }

  lemma NoColonFirst(groups: seq<string>, tail: Tail)
    requires IsForm(Full(groups, tail))
    ensures var s := Each(groups) + TailText(tail); s != [] && s[0] != ':'
  {
    assert |TailBytes(tail)| <= 4;
    assert IsGroup(groups[0]) && groups[0][0] in groups[0];
  }

  // ---- any address, any run of zero groups left out ----

  function HexChar(d: nat): char
    requires d < 16
  {
    if d < 10 then '0' + d as char else 'a' + (d - 10) as char
  }

  function HexText(v: nat): string {
    if v < 16 then [HexChar(v)] else HexText(v / 16) + [HexChar(v % 16)]
  }

  lemma {:induction false} HexSnoc(t: string, d: nat, acc: nat)
    requires AllHex(t) && d < 16
    ensures AllHex(t + [HexChar(d)]) && HexVal(t + [HexChar(d)], acc) == HexVal(t, acc) * 16 + d
    decreases |t|
  {
    var u := t + [HexChar(d)];
    assert HexDigit(HexChar(d)) == Some(d);
    if t == [] {
      assert u[1..] == [] && HexVal(u, acc) == HexVal([], acc * 16 + d);
    } else {
      assert u[0] == t[0] && u[1..] == t[1..] + [HexChar(d)];
      HexSnoc(t[1..], d, acc * 16 + HexDigit(t[0]).value);
    }
  }

  lemma {:induction false} HexTextValue(v: nat)
    ensures HexText(v) != [] && AllHex(HexText(v)) && HexVal(HexText(v), 0) == v
  {
    if v < 16 {
      HexSnoc([], v, 0);
      assert [] + [HexChar(v)] == [HexChar(v)];
    } else {
      HexTextValue(v / 16);
      HexSnoc(HexText(v / 16), v % 16, 0);
    }
  }

  function Pair(high: nat, low: nat): nat {
    high * 256 + low
  }

  lemma PairGroup(high: Byte, low: Byte)
    ensures Pair(high, low) <= 0xffff && Group(Pair(high, low)) == [high, low]
  {
  }

  // The groups of some bytes, each without leading zeros.
  function GroupTexts(a: seq<Byte>): (ts: seq<string>)
    requires |a| % 2 == 0
    ensures |ts| == |a| / 2
  {
    if a == [] then [] else [HexText(Pair(a[0], a[1]))] + GroupTexts(a[2..])
  }

  lemma {:induction false} GroupTextsMean(a: seq<Byte>)
    requires |a| % 2 == 0
    ensures AllGroups(GroupTexts(a)) && Groups(GroupTexts(a)) == a
    decreases |a|
  {
    if a != [] {
      var v := Pair(a[0], a[1]);
      PairGroup(a[0], a[1]);
      HexTextValue(v);
      GroupTextsMean(a[2..]);
      hide HexText, HexVal, Group, Pair;
      assert GroupTexts(a)[1..] == GroupTexts(a[2..]);
      assert a == [a[0], a[1]] + a[2..];
    }
  }

  // The address with its groups i up to j left out, or none if i == j.
  function Written(a: seq<Byte>, i: nat, j: nat): Form
    requires |a| == 16 && i <= j <= 8
  {
    var ts := GroupTexts(a);
    if i == j then Full(ts[..7], Last(ts[7]))
    else if j == 8 then Elided(ts[..i], [], Nothing)
    else Elided(ts[..i], ts[j..7], Last(ts[7]))
  }

  lemma {:induction false} GroupsSplit(ts: seq<string>, k: nat)
    requires AllGroups(ts) && k <= |ts|
    ensures AllGroups(ts[..k]) && AllGroups(ts[k..])
    ensures Groups(ts[..k]) == Groups(ts)[..2 * k] && Groups(ts[k..]) == Groups(ts)[2 * k..]
    decreases k
  {
    if k > 0 {
      GroupsSplit(ts[1..], k - 1);
      assert ts[..k][1..] == ts[1..][..k - 1] && ts[k..] == ts[1..][k - 1..];
    }
  }

  lemma GroupsOne(t: string)
    requires IsGroup(t)
    ensures AllGroups([t]) && Groups([t]) == Group(HexVal(t, 0))
  {
    assert Groups([t]) == Group(HexVal(t, 0)) + Groups([]);
  }

  lemma MiddleOut(a: seq<Byte>, i: nat, j: nat)
    requires i <= j <= |a|
    ensures a == a[..i] + a[i..j] + a[j..] && (i == j ==> a == a[..i] + a[j..])
  {
  }

  lemma LastSlice(ts: seq<string>, j: nat)
    requires j < |ts|
    ensures var n := |ts| - 1; ts[n..] == [ts[n]] && ts[j..][..n - j] == ts[j..n] && ts[j..][n - j] == ts[n]
  {
  }

  lemma LastApart(ts: seq<string>)
    requires AllGroups(ts) && ts != []
    ensures var n := |ts| - 1;
      AllGroups(ts[..n]) && IsGroup(ts[n]) && Groups(ts[..n]) + Group(HexVal(ts[n], 0)) == Groups(ts)
  {
    var n := |ts| - 1;
    GroupsSplit(ts, n);
    GroupsOne(ts[n]);
    LastSlice(ts, 0);
    hide HexVal, Group, Groups, AllGroups, IsGroup;
    MiddleOut(Groups(ts), 2 * n, 2 * n);
  }

  lemma WrittenInFull(a: seq<Byte>)
    requires |a| == 16
    ensures IsForm(Written(a, 0, 0)) && Meaning(Written(a, 0, 0)) == a
  {
    GroupTextsMean(a);
    LastApart(GroupTexts(a));
  }

  lemma WrittenToEnd(a: seq<Byte>, i: nat)
    requires |a| == 16 && i < 8 && a[2 * i..] == Zeros(16 - 2 * i)
    ensures IsForm(Written(a, i, 8)) && Meaning(Written(a, i, 8)) == a
  {
    GroupTextsMean(a);
    GroupsSplit(GroupTexts(a), i);
    assert a == a[..2 * i] + a[2 * i..];
    assert Meaning(Written(a, i, 8)) == a[..2 * i] + Zeros(16 - 2 * i) + ([] + []);
  }

  lemma PartsAround(a: seq<Byte>, i: nat, j: nat, left: seq<string>, right: seq<string>, t: string)
    requires |a| == 16 && i < j < 8 && a[2 * i..2 * j] == Zeros(2 * j - 2 * i)
    requires AllGroups(left) && AllGroups(right) && IsGroup(t) && |left| == i && |right| == 7 - j
    requires Groups(left) == a[..2 * i] && Groups(right) + Group(HexVal(t, 0)) == a[2 * j..]
    ensures IsForm(Elided(left, right, Last(t))) && Meaning(Elided(left, right, Last(t))) == a
  {
    MiddleOut(a, 2 * i, 2 * j);
  }

  lemma WrittenAround(a: seq<Byte>, i: nat, j: nat)
    requires |a| == 16 && i < j < 8 && a[2 * i..2 * j] == Zeros(2 * j - 2 * i)
    ensures IsForm(Written(a, i, j)) && Meaning(Written(a, i, j)) == a
  {
    hide Groups, GroupTexts, HexVal, AllGroups, IsGroup, Group, IsForm, Meaning, Zeros;
    var ts := GroupTexts(a);
    GroupTextsMean(a);
    GroupsSplit(ts, i);
    GroupsSplit(ts, j);
    LastApart(ts[j..]);
    LastSlice(ts, j);
    PartsAround(a, i, j, ts[..i], ts[j..7], ts[7]);
  }

  // Reading gives back every address, whichever run of its zero groups is left out.
  lemma EveryAddress(a: seq<Byte>, i: nat, j: nat)
    requires |a| == 16 && i <= j <= 8 && forall k :: 2 * i <= k < 2 * j ==> a[k] == 0
    ensures Address6(Text(Written(a, i, j))) == Some(a)
  {
    assert a[2 * i..2 * j] == Zeros(2 * j - 2 * i);
    if i == j {
      WrittenInFull(a);
    } else if j == 8 {
      assert a[2 * i..2 * j] == a[2 * i..];
      WrittenToEnd(a, i);
    } else {
      WrittenAround(a, i, j);
    }
    hide Meaning, IsForm;
    FormsAreRead(Written(a, i, j));
  }
}
