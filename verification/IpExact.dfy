// Nothing but the text of an address is read as one: every text that inet_pton4() or inet_pton6()
// accepts has one of the forms (libathemecore/cidr.c:45-229; section 2.2 of RFC 4291).
module IpExact {
  import opened Basics
  import opened IpText
  import opened IpForms

  // ---- dotted quads ----

  function Joined(parts: seq<string>): string {
    if parts == [] then []
    else if |parts| == 1 then parts[0]
    else parts[0] + (['.'] + Joined(parts[1..]))
  }

  predicate AllOctets(parts: seq<string>) {
    forall i :: 0 <= i < |parts| ==> IsOctet(parts[i])
  }

  function Octets(parts: seq<string>): seq<Byte>
    requires AllOctets(parts)
  {
    if parts == [] then [] else [DecVal(parts[0], 0)] + Octets(parts[1..])
  }

  lemma {:induction false} DecSnoc(t: string, c: char, acc: nat)
    requires AllDecimal(t) && Decimal(c)
    ensures AllDecimal(t + [c]) && DecVal(t + [c], acc) == DecVal(t, acc) * 10 + (c - '0') as nat
    decreases |t|
  {
    var u := t + [c];
    if t == [] {
      assert u[1..] == [] && DecVal(u, acc) == DecVal([], acc * 10 + (c - '0') as nat);
    } else {
      assert t[0] in t && forall x <- t[1..] :: x in t;
      assert u[0] == t[0] && u[1..] == t[1..] + [c];
      DecSnoc(t[1..], c, acc * 10 + (t[0] - '0') as nat);
    }
  }

  lemma FirstPart(t: string, parts: seq<string>)
    requires IsOctet(t) && AllOctets(parts) && parts != []
    ensures AllOctets([t] + parts) && Joined([t] + parts) == t + (['.'] + Joined(parts))
    ensures Octets([t] + parts) == [DecVal(t, 0)] + Octets(parts)
  {
    assert ([t] + parts)[1..] == parts;
  }

  lemma OnePart(t: string)
    requires IsOctet(t)
    ensures AllOctets([t]) && Joined([t]) == t && Octets([t]) == [DecVal(t, 0)]
  {
    assert Octets([t][1..]) == [];
  }

  // What is accepted with t of an octet read already are octets, with a dot between them.
  lemma {:induction false} QuadParts(s: string, t: string, done: seq<Byte>) returns (parts: seq<string>)
    requires AllDecimal(t) && DecVal(t, 0) <= 255 && |done| <= 3
    requires Quad(s, done, DecVal(t, 0), t != []).Some?
    ensures AllOctets(parts) && |parts| == 4 - |done| && t + s == Joined(parts)
    ensures Quad(s, done, DecVal(t, 0), t != []) == Some(done + Octets(parts))
    decreases |s|
  {
    hide Quad, Octets, Joined, DecVal;
    QuadStep(s, done, DecVal(t, 0), t != []);
    if s == [] {
      parts := [t];
      OnePart(t);
      assert t + s == t;
    } else if Decimal(s[0]) {
      DecSnoc(t, s[0], 0);
      parts := QuadParts(s[1..], t + [s[0]], done);
      assert t + [s[0]] + s[1..] == t + s;
    } else {
      NoValue();
      parts := QuadParts(s[1..], "", done + [DecVal(t, 0)]);
      FirstPart(t, parts);
      assert "" + s[1..] == s[1..] && s == ['.'] + s[1..];
      assert done + [DecVal(t, 0)] + Octets(parts) == done + ([DecVal(t, 0)] + Octets(parts));
      parts := [t] + parts;
    }
  }

  lemma NoValue()
    ensures DecVal("", 0) == 0 && HexVal("", 0) == 0
  {
  }

  // One step of reading that is not refused.
  lemma QuadStep(s: string, done: seq<Byte>, cur: Byte, digit: bool)
    requires |done| <= 3 && Quad(s, done, cur, digit).Some?
    ensures s == [] ==> |done| == 3 && digit && Quad(s, done, cur, digit) == Some(done + [cur])
    ensures s != [] && Decimal(s[0]) ==>
      var v := cur * 10 + (s[0] - '0') as nat; v <= 255 && Quad(s, done, cur, digit) == Quad(s[1..], done, v, true)
    ensures s != [] && !Decimal(s[0]) ==>
      s[0] == '.' && digit && |done| < 3 && Quad(s, done, cur, digit) == Quad(s[1..], done + [cur], 0, false)
  {
  }

  lemma FourParts(p: seq<string>)
    requires |p| == 4
    ensures Joined(p) == QuadText(p[0], p[1], p[2], p[3])
  {
    var q := p[1..];
    var r := q[1..];
    assert Joined(r) == r[0] + (['.'] + Joined(r[1..])) && Joined(r[1..]) == r[1];
    assert Joined(q) == q[0] + (['.'] + Joined(r)) && Joined(p) == p[0] + (['.'] + Joined(q));
  }

  // inet_pton4() accepts exactly the dotted quads.
  lemma QuadsOnly(s: string) returns (a: string, b: string, c: string, d: string)
    requires Quad(s, [], 0, false).Some?
    ensures IsOctet(a) && IsOctet(b) && IsOctet(c) && IsOctet(d) && s == QuadText(a, b, c, d)
    ensures Quad(s, [], 0, false) == Some([DecVal(a, 0), DecVal(b, 0), DecVal(c, 0), DecVal(d, 0)])
  {
    var p := QuadParts(s, "", []);
    a, b, c, d := p[0], p[1], p[2], p[3];
    assert "" + s == s;
    FourParts(p);
    QuadRead(a, b, c, d);
  }

  // ---- behind "::" ----

  lemma {:induction false} HexMore(t: string, c: char, acc: nat)
    requires AllHex(t) && HexDigit(c).Some?
    ensures AllHex(t + [c]) && HexVal(t + [c], acc) == HexVal(t, acc) * 16 + HexDigit(c).value
    decreases |t|
  {
    var u := t + [c];
    if t == [] {
      assert u[1..] == [] && HexVal(u, acc) == HexVal([], acc * 16 + HexDigit(c).value);
    } else {
      assert u[0] == t[0] && u[1..] == t[1..] + [c];
      HexMore(t[1..], c, acc * 16 + HexDigit(t[0]).value);
    }
  }

  ghost predicate Ends(right: seq<string>, tail: Tail, text: string) {
    && IsTail(tail) && AllGroups(right) && (tail == Nothing ==> right == [])
    && text == Each(right) + TailText(tail)
  }

  ghost function EndBytes(right: seq<string>, tail: Tail): seq<Byte>
    requires IsTail(tail) && AllGroups(right)
  {
    Groups(right) + TailBytes(tail)
  }

  lemma FirstGroup(t: string, right: seq<string>, tail: Tail, text: string)
    requires IsGroup(t) && Ends(right, tail, text) && tail != Nothing
    ensures Ends([t] + right, tail, t + ([':'] + text))
    ensures EndBytes([t] + right, tail) == Group(HexVal(t, 0)) + EndBytes(right, tail)
  {
    var all := [t] + right;
    assert all[1..] == right;
    assert Each(all) + TailText(tail) == t + ([':'] + (Each(right) + TailText(tail)));
    assert Groups(all) + TailBytes(tail) == Group(HexVal(t, 0)) + (Groups(right) + TailBytes(tail));
  }

  lemma LastGroup(t: string)
    requires t == "" || IsGroup(t)
    ensures var tail := if t == "" then Nothing else Last(t); Ends([], tail, t) && EndBytes([], tail) == TailBytes(tail)
  {
    assert [] + t == t;
  }

  lemma OneQuad(a: string, b: string, c: string, d: string)
    requires IsOctet(a) && IsOctet(b) && IsOctet(c) && IsOctet(d)
    ensures Ends([], Dotted(a, b, c, d), QuadText(a, b, c, d))
    ensures EndBytes([], Dotted(a, b, c, d)) == [DecVal(a, 0), DecVal(b, 0), DecVal(c, 0), DecVal(d, 0)]
  {
    assert [] + QuadText(a, b, c, d) == QuadText(a, b, c, d);
  }

  // One step of reading that is not refused.
  lemma RestStep(s: string, token: string, out: seq<Byte>, colon: Option<nat>, val: nat, digit: bool)
    requires |out| <= 16 && val <= 0xffff && (colon.Some? ==> colon.value <= |out|) && Rest(s, token, out, colon, val, digit).Some?
    ensures s == [] ==> Rest(s, token, out, colon, val, digit) == Finish(out, colon, val, digit)
    ensures s != [] && HexDigit(s[0]).Some? ==>
      var v := val * 16 + HexDigit(s[0]).value;
      v <= 0xffff && Rest(s, token, out, colon, val, digit) == Rest(s[1..], token, out, colon, v, true)
    ensures s != [] && s[0] == ':' && digit ==>
      && s[1..] != [] && |out| + 2 <= 16
      && Rest(s, token, out, colon, val, digit) == Rest(s[1..], s[1..], out + Group(val), colon, 0, false)
    ensures s != [] && s[0] == ':' && !digit ==>
      colon.None? && Rest(s, token, out, colon, val, digit) == Rest(s[1..], s[1..], out, Some(|out|), val, false)
    ensures s != [] && HexDigit(s[0]).None? && s[0] != ':' ==>
      && Quad(token, [], 0, false).Some? && |Quad(token, [], 0, false).value| == 4 && |out| + 4 <= 16
      && Rest(s, token, out, colon, val, digit) == Finish(out + Quad(token, [], 0, false).value, colon, 0, false)
  {
    hide Quad, Finish, Group;
  }

  lemma FinishGroup(out: seq<Byte>, colon: Option<nat>, val: nat)
    requires |out| <= 16 && val <= 0xffff && (colon.Some? ==> colon.value <= |out|) && Finish(out, colon, val, true).Some?
    ensures |out| + 2 <= 16 && Finish(out, colon, val, true) == Finish(out + Group(val), colon, 0, false)
  {
  }

  lemma GroupTwo(v: nat)
    requires v <= 0xffff
    ensures |Group(v)| == 2
  {
  }

  lemma EndsParts(right: seq<string>, tail: Tail, text: string)
    requires Ends(right, tail, text)
    ensures IsTail(tail) && AllGroups(right) && (text != "" ==> tail != Nothing)
  {
  }

  // The rest has a "::", that is, a colon that is first or follows another.
  predicate Elides(s: string, t: string)
    decreases |s|
  {
    s != "" && ((s[0] == ':' && t == "") || Elides(s[1..], if s[0] == ':' then "" else t + [s[0]]))
  }

  // What is accepted without a further "::", with t of a group read already.
  lemma {:induction false} EndRead(s: string, t: string, out: seq<Byte>, colon: Option<nat>) returns (right: seq<string>, tail: Tail)
    requires AllHex(t) && HexVal(t, 0) <= 0xffff && |out| <= 16 && (colon.Some? ==> colon.value <= |out|)
    requires Rest(s, t + s, out, colon, HexVal(t, 0), t != "").Some?
    requires colon.None? ==> !Elides(s, t)
    ensures IsTail(tail) && AllGroups(right) && Ends(right, tail, t + s)
    ensures |out| + |EndBytes(right, tail)| <= 16
    ensures Rest(s, t + s, out, colon, HexVal(t, 0), t != "") == Finish(out + EndBytes(right, tail), colon, 0, false)
    decreases |s|
  {
    hide Rest, Quad, Finish, HexVal, Ends, EndBytes, QuadText, DecVal, Group;
    RestStep(s, t + s, out, colon, HexVal(t, 0), t != "");
    NoValue();
    GroupTwo(HexVal(t, 0));
    right := [];
    if s == "" {
      tail := if t == "" then Nothing else Last(t);
      assert t + s == t && out + [] == out;
      LastGroup(t);
      EndsParts([], tail, t);
      if t != "" {
        FinishGroup(out, colon, HexVal(t, 0));
      }
    } else if HexDigit(s[0]).Some? {
      HexMore(t, s[0], 0);
      assert t + [s[0]] + s[1..] == t + s;
      right, tail := EndRead(s[1..], t + [s[0]], out, colon);
    } else if s[0] == ':' {
      assert t != "";
      assert "" + s[1..] == s[1..] && t + s == t + ([':'] + s[1..]);
      right, tail := EndRead(s[1..], "", out + Group(HexVal(t, 0)), colon);
      EndsParts(right, tail, s[1..]);
      GroupIs(t);
      FirstGroup(t, right, tail, s[1..]);
      EndsParts([t] + right, tail, t + s);
      assert out + Group(HexVal(t, 0)) + EndBytes(right, tail) == out + (Group(HexVal(t, 0)) + EndBytes(right, tail));
      right := [t] + right;
    } else {
      var a, b, c, d := QuadsOnly(t + s);
      tail := Dotted(a, b, c, d);
      OneQuad(a, b, c, d);
    }
  }

  lemma MoreLeft(t: string, left: seq<string>, text: string)
    requires IsGroup(t) && AllGroups(left)
    ensures AllGroups([t] + left) && Groups([t] + left) == Group(HexVal(t, 0)) + Groups(left)
    ensures Each([t] + left) + text == t + ([':'] + (Each(left) + text))
  {
    assert ([t] + left)[1..] == left;
  }

  // What is accepted up to a "::".
  lemma {:induction false} StartRead(s: string, t: string, out: seq<Byte>) returns (left: seq<string>, text: string)
    requires AllHex(t) && HexVal(t, 0) <= 0xffff && |out| <= 16 && Elides(s, t)
    requires Rest(s, t + s, out, None, HexVal(t, 0), t != "").Some?
    ensures AllGroups(left) && t + s == Each(left) + ([':'] + text) && |out + Groups(left)| <= 16
    ensures Rest(s, t + s, out, None, HexVal(t, 0), t != "")
         == Rest(text, text, out + Groups(left), Some(|out + Groups(left)|), 0, false)
    decreases |s|
  {
    hide Rest, Quad, Finish, HexVal, Each, Groups, Group, IsGroup;
    RestStep(s, t + s, out, None, HexVal(t, 0), t != "");
    NoValue();
    GroupTwo(HexVal(t, 0));
    if s[0] == ':' && t == "" {
      left, text := [], s[1..];
      NoGroups();
      assert out + Groups(left) == out && "" + s == [] + ([':'] + s[1..]);
    } else if HexDigit(s[0]).Some? {
      HexMore(t, s[0], 0);
      assert t + [s[0]] + s[1..] == t + s;
      left, text := StartRead(s[1..], t + [s[0]], out);
    } else if s[0] == ':' {
      GroupIs(t);
      assert "" + s[1..] == s[1..] && t + s == t + ([':'] + s[1..]);
      left, text := StartRead(s[1..], "", out + Group(HexVal(t, 0)));
      MoreLeft(t, left, [':'] + text);
      assert out + Group(HexVal(t, 0)) + Groups(left) == out + (Group(HexVal(t, 0)) + Groups(left));
      left := [t] + left;
    } else {
      // a dotted quad has no colon, and nothing may follow it
      var a, b, c, d := QuadsOnly(t + s);
      NoColon(a, b, c, d);
      ColonThere(s, t);
      assert false;
    }
  }

  lemma NoGroups()
    ensures Groups([]) == [] && Each([]) == [] && AllGroups([])
  {
  }

  lemma GroupIs(t: string)
    requires AllHex(t) && HexVal(t, 0) <= 0xffff && t != ""
    ensures IsGroup(t)
  {
  }

  lemma NoColon(a: string, b: string, c: string, d: string)
    requires IsOctet(a) && IsOctet(b) && IsOctet(c) && IsOctet(d)
    ensures ':' !in QuadText(a, b, c, d)
  {
  }

  lemma {:induction false} ColonThere(s: string, t: string)
    requires Elides(s, t)
    ensures ':' in t + s
    decreases |s|
  {
    if !(s[0] == ':' && t == "") {
      var u := if s[0] == ':' then "" else t + [s[0]];
      ColonThere(s[1..], u);
      assert ':' in u + s[1..];
      assert s == [s[0]] + s[1..];
    }
  }

  // ---- whole addresses ----

  ghost predicate TextOf(f: Form, s: string, a: seq<Byte>) {
    IsForm(f) && Text(f) == s && Meaning(f) == a
  }

  lemma BytesAreEven(right: seq<string>, tail: Tail)
    requires IsTail(tail) && AllGroups(right)
    ensures |EndBytes(right, tail)| % 2 == 0 && |EndBytes(right, tail)| == 2 * |right| + |TailBytes(tail)|
    ensures right == [] && tail == Nothing ==> EndBytes(right, tail) == []
  {
    assert tail.Dotted? ==> |TailBytes(tail)| == 4;
  }

  lemma ElidedIs(left: seq<string>, right: seq<string>, tail: Tail, text: string)
    requires AllGroups(left) && Ends(right, tail, text) && |Groups(left) + EndBytes(right, tail)| <= 16
    requires Finish(Groups(left) + EndBytes(right, tail), Some(|Groups(left)|), 0, false).Some?
    ensures IsForm(Elided(left, right, tail))
    ensures Text(Elided(left, right, tail)) == (if left == [] then [':'] else Each(left)) + ([':'] + text)
    ensures Finish(Groups(left) + EndBytes(right, tail), Some(|Groups(left)|), 0, false) == Some(Meaning(Elided(left, right, tail)))
  {
    hide Each, Groups, TailText, TailBytes;
    BytesAreEven(right, tail);
    FinishColon(Groups(left), EndBytes(right, tail));
  }

  lemma FullIs(groups: seq<string>, tail: Tail, s: string)
    requires Ends(groups, tail, s) && |EndBytes(groups, tail)| <= 16 && Finish(EndBytes(groups, tail), None, 0, false).Some?
    ensures TextOf(Full(groups, tail), s, EndBytes(groups, tail))
    ensures Finish(EndBytes(groups, tail), None, 0, false) == Some(EndBytes(groups, tail))
  {
    hide Each, TailText;
    BytesAreEven(groups, tail);
  }

  // What inet_pton6() accepts is one of the forms, and the result is the address it stands for.
  lemma FormsOnly(s: string) returns (f: Form)
    requires Address6(s).Some?
    ensures TextOf(f, s, Address6(s).value)
  {
    hide Rest, Finish, Ends, EndBytes, Groups, Each, HexVal, IsForm, Text, Meaning, TextOf;
    NoValue();
    assert "" + s == s;
    if s != [] && s[0] == ':' {
      var text := s[2..];
      assert s == [':'] + ([':'] + text) && s[1..] == [':'] + text && s[1..][1..] == text;
      RestStep(s[1..], s[1..], [], None, 0, false);
      f := BehindColons([], text);
      IsTextOf(f, s, Address6(s).value);
    } else if Elides(s, "") {
      var left, text := StartRead(s, "", []);
      assert [] + Groups(left) == Groups(left);
      NoGroups();
      f := BehindColons(left, text);
      IsTextOf(f, s, Address6(s).value);
    } else {
      var right, tail := EndRead(s, "", [], None);
      assert [] + EndBytes(right, tail) == EndBytes(right, tail);
      f := Full(right, tail);
      FullIs(right, tail, s);
    }
  }

  lemma IsTextOf(f: Form, s: string, a: seq<Byte>)
    requires IsForm(f) && Text(f) == s && Meaning(f) == a
    ensures TextOf(f, s, a)
  {
  }

  lemma BehindColons(left: seq<string>, text: string) returns (f: Form)
    requires AllGroups(left) && |Groups(left)| <= 16 && Rest(text, text, Groups(left), Some(|Groups(left)|), 0, false).Some?
    ensures IsForm(f) && Text(f) == (if left == [] then [':'] else Each(left)) + ([':'] + text)
    ensures Rest(text, text, Groups(left), Some(|Groups(left)|), 0, false) == Some(Meaning(f))
  {
    hide Rest, Finish, Ends, EndBytes, Groups, Each, HexVal, IsForm, Text, Meaning;
    NoValue();
    assert "" + text == text;
    var right, tail := EndRead(text, "", Groups(left), Some(|Groups(left)|));
    f := Elided(left, right, tail);
    ElidedIs(left, right, tail, text);
  }

  // inet_pton6() gives an address exactly if the text is one of the address's forms.
  lemma ReadExactly(s: string, a: seq<Byte>)
    ensures Address6(s) == Some(a) <==> exists f: Form :: TextOf(f, s, a)
  {
    hide Address6, TextOf;
    if Address6(s) == Some(a) {
      var f := FormsOnly(s);
    }
    forall f: Form | TextOf(f, s, a) ensures Address6(s) == Some(a) {
      FormIsRead(f, s, a);
    }
  }

  lemma FormIsRead(f: Form, s: string, a: seq<Byte>)
    requires TextOf(f, s, a)
    ensures Address6(s) == Some(a)
  {
    FormsAreRead(f);
  }

  // inet_pton4() gives four bytes exactly if the text is them in decimal digits, with dots between.
  lemma ReadExactly4(s: string, x: seq<Byte>)
    ensures Quad(s, [], 0, false) == Some(x) <==>
      exists a: string, b: string, c: string, d: string :: IsQuad(a, b, c, d, s, x)
  {
    hide Quad, IsQuad;
    if Quad(s, [], 0, false) == Some(x) {
      var a, b, c, d := QuadsOnly(s);
      QuadIs(a, b, c, d);
    }
    forall a: string, b: string, c: string, d: string | IsQuad(a, b, c, d, s, x) ensures Quad(s, [], 0, false) == Some(x) {
      QuadIsRead(a, b, c, d, s, x);
    }
  }

  ghost predicate IsQuad(a: string, b: string, c: string, d: string, s: string, x: seq<Byte>) {
    && IsOctet(a) && IsOctet(b) && IsOctet(c) && IsOctet(d)
    && s == QuadText(a, b, c, d) && x == [DecVal(a, 0), DecVal(b, 0), DecVal(c, 0), DecVal(d, 0)]
  }

  lemma QuadIs(a: string, b: string, c: string, d: string)
    requires IsOctet(a) && IsOctet(b) && IsOctet(c) && IsOctet(d)
    ensures IsQuad(a, b, c, d, QuadText(a, b, c, d), [DecVal(a, 0), DecVal(b, 0), DecVal(c, 0), DecVal(d, 0)])
  {
  }

  lemma QuadIsRead(a: string, b: string, c: string, d: string, s: string, x: seq<Byte>)
    requires IsQuad(a, b, c, d, s, x)
    ensures Quad(s, [], 0, false) == Some(x)
  {
    QuadRead(a, b, c, d);
  }
}
