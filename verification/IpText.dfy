// Reading IPv4 and IPv6 addresses, and comparing them up to a prefix (libathemecore/cidr.c:45-298).
module IpText {
  import opened Basics

  // ---- inet_pton4() ----

  predicate Decimal(c: char) {
    '0' <= c <= '9'
  }

  // The rest of a dotted quad: the octets before, the one being read, and whether it has a digit.
  function Quad(s: string, done: seq<Byte>, cur: Byte, digit: bool): Option<seq<Byte>>
    decreases |s|
  {
    if s == [] then
      if |done| + (if digit then 1 else 0) < 4 then None else Some(done + [cur])
    else if Decimal(s[0]) then
      var v := cur * 10 + (s[0] - '0') as nat;
      if v > 255 || (!digit && |done| + 1 > 4) then None else Quad(s[1..], done, v, true)
    else if s[0] == '.' && digit then
      if |done| + 1 == 4 then None else Quad(s[1..], done + [cur], 0, false)
    else None
  }

  method Pton4(s: string) returns (r: Option<seq<Byte>>)
    ensures r == Quad(s, [], 0, false)
  {
    var tmp: seq<Byte>, cur: Byte, digit, octets, i := [], 0, false, 0, 0;
    while i < |s|
      invariant 0 <= i <= |s| && |tmp| <= 3 && octets == |tmp| + (if digit then 1 else 0)
      invariant Quad(s, [], 0, false) == Quad(s[i..], tmp, cur, digit)
    {
      var c := s[i];
      assert s[i..][1..] == s[i + 1..];
      if '0' <= c <= '9' {
        var v := cur * 10 + (c - '0') as nat;
        if v > 255 {
          return None;
        }
        cur := v;
        if !digit {
          octets := octets + 1;
          if octets > 4 {
            return None;
          }
          digit := true;
        }
      } else if c == '.' && digit {
        if octets == 4 {
          return None;
        }
        tmp, cur, digit := tmp + [cur], 0, false;
      } else {
        return None;
      }
      i := i + 1;
    }
    if octets < 4 {
      return None;
    }
    return Some(tmp + [cur]);
  }

  // ---- inet_pton6() ----

  function HexDigit(c: char): Option<nat> {
    if '0' <= c <= '9' then Some((c - '0') as nat)
    else if 'a' <= c <= 'f' then Some((c - 'a') as nat + 10)
    else if 'A' <= c <= 'F' then Some((c - 'A') as nat + 10)
    else None
  }

  function Group(v: nat): seq<Byte>
    requires v <= 0xffff
  {
    [v / 256, v % 256]
  }

  function Zeros(n: nat): seq<Byte> {
    seq(n, _ => 0)
  }

  // What is done once the text is read: the last group, and the shift of what follows "::".
  function Finish(out: seq<Byte>, colon: Option<nat>, val: nat, digit: bool): Option<seq<Byte>>
    requires |out| <= 16 && val <= 0xffff && (colon.Some? ==> colon.value <= |out|)
  {
    if digit && |out| + 2 > 16 then None
    else
      var all := if digit then out + Group(val) else out;
      if colon.Some? then
        if |all| == 16 then None
        else Some(all[..colon.value] + Zeros(16 - |all|) + all[colon.value..])
      else if |all| == 16 then Some(all)
      else None
  }

  // The rest of a text: the bytes so far, the place of "::", the group being read, and the text from
  // its beginning (token).
  function Rest(s: string, token: string, out: seq<Byte>, colon: Option<nat>, val: nat, digit: bool): Option<seq<Byte>>
    requires |out| <= 16 && val <= 0xffff && (colon.Some? ==> colon.value <= |out|)
    decreases |s|
  {
    if s == [] then Finish(out, colon, val, digit)
    else if HexDigit(s[0]).Some? then
      var v := val * 16 + HexDigit(s[0]).value;
      if v > 0xffff then None else Rest(s[1..], token, out, colon, v, true)
    else if s[0] == ':' then
      if !digit then
        if colon.Some? then None else Rest(s[1..], s[1..], out, Some(|out|), val, false)
      else if s[1..] == [] || |out| + 2 > 16 then None
      else Rest(s[1..], s[1..], out + Group(val), colon, 0, false)
    else if s[0] == '.' && s[1..] != [] && |out| + 4 <= 16 then
      var q := Quad(token, [], 0, false);
      if q.Some? && |q.value| == 4 then Finish(out + q.value, colon, 0, false) else None
    else None
  }

  function Address6(s: string): Option<seq<Byte>> {
    if s != [] && s[0] == ':' then
      if |s| > 1 && s[1] == ':' then Rest(s[1..], s[1..], [], None, 0, false) else None
    else Rest(s, s, [], None, 0, false)
  }

  // The shift: what follows place c goes to the end, and zeros take its place.
  method ShiftToEnd(tmp: array<Byte>, c: nat, tp: nat)
    requires tmp.Length == 16 && c <= tp < 16 && forall i :: tp <= i < 16 ==> tmp[i] == 0
    modifies tmp
    ensures forall k :: 0 <= k < c ==> tmp[k] == old(tmp[k])
    ensures forall k :: c <= k < 16 - (tp - c) ==> tmp[k] == 0
    ensures forall k :: 16 - (tp - c) <= k < 16 ==> tmp[k] == old(tmp[k - (16 - tp)])
  {
    var n, i := tp - c, 1;
    while i <= n
      invariant 1 <= i <= n + 1
      invariant forall k :: 0 <= k <= tp - i ==> tmp[k] == old(tmp[k])
      invariant forall k :: tp - i < k <= 16 - i ==> tmp[k] == 0
      invariant forall k :: 16 - i < k < 16 ==> tmp[k] == old(tmp[k - (16 - tp)])
    {
      tmp[16 - i] := tmp[c + n - i];
      tmp[c + n - i] := 0;
      i := i + 1;
    }
  }

  method Spread(all: seq<Byte>, c: nat) returns (r: seq<Byte>)
    requires c <= |all| < 16
    ensures r == all[..c] + Zeros(16 - |all|) + all[c..]
  {
    var tmp := new Byte[16](i => if 0 <= i < |all| then all[i] else 0);
    ShiftToEnd(tmp, c, |all|);
    r := tmp[..];
    assert r == all[..c] + Zeros(16 - |all|) + all[c..];
  }

  // The end of inet_pton6().
  method Complete(out: seq<Byte>, colon: Option<nat>, val: nat, digit: bool) returns (r: Option<seq<Byte>>)
    requires |out| <= 16 && val <= 0xffff && (colon.Some? ==> colon.value <= |out|)
    ensures r == Finish(out, colon, val, digit)
  {
    var all := out;
    if digit {
      if |all| + 2 > 16 {
        return None;
      }
      all := all + [val / 256, val % 256];
    }
    if colon.Some? {
      if |all| == 16 {
        return None;
      }
      var tmp := Spread(all, colon.value);
      return Some(tmp);
    }
    if |all| != 16 {
      return None;
    }
    return Some(all);
  }

  method Pton6(s: string) returns (r: Option<seq<Byte>>)
    ensures r == Address6(s)
  {
    var src := 0;
    if s != [] && s[0] == ':' {
      src := 1;
      if |s| == 1 || s[1] != ':' {
        return None;
      }
    }
    var out: seq<Byte>, colon: Option<nat>, token, val: nat, digit := [], None, src, 0, false;
    assert s[0..] == s;
    while src < |s|
      invariant 0 <= token <= src <= |s| && |out| <= 16 && val <= 0xffff && (colon.Some? ==> colon.value <= |out|)
      invariant Address6(s) == Rest(s[src..], s[token..], out, colon, val, digit)
    {
      var c := s[src];
      assert s[src..][1..] == s[src + 1..];
      src := src + 1;
      var d := HexDigit(c);
      if d.Some? {
        val := val * 16 + d.value;
        if val > 0xffff {
          return None;
        }
        digit := true;
        continue;
      }
      if c == ':' {
        token := src;
        if !digit {
          if colon.Some? {
            return None;
          }
          colon := Some(|out|);
          continue;
        } else if src == |s| {
          return None;
        }
        if |out| + 2 > 16 {
          return None;
        }
        out := out + [val / 256, val % 256];
        val, digit := 0, false;
        continue;
      }
      if src < |s| && c == '.' {
        if |out| + 4 <= 16 {
          var q := Pton4(s[token..]);
          QuadLength(s[token..]);
          if q.Some? {
            r := Complete(out + q.value, colon, 0, false);
            return;
          }
        }
      }
      return None;
    }
    r := Complete(out, colon, val, digit);
  }

  lemma {:induction false} QuadLengthFrom(s: string, done: seq<Byte>, cur: Byte, digit: bool)
    requires |done| <= 3
    ensures Quad(s, done, cur, digit).Some? ==> |Quad(s, done, cur, digit).value| == 4
    decreases |s|
  {
    if s != [] {
      if Decimal(s[0]) {
        var v := cur * 10 + (s[0] - '0') as nat;
        if v <= 255 {
          QuadLengthFrom(s[1..], done, v, true);
        }
      } else if |done| < 3 {
        QuadLengthFrom(s[1..], done + [cur], 0, false);
      }
    }
  }

  lemma QuadLength(s: string)
    ensures Quad(s, [], 0, false).Some? ==> |Quad(s, [], 0, false).value| == 4
  {
    QuadLengthFrom(s, [], 0, false);
  }
}
