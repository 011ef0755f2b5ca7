// base64_encode() and base64_decode(): inverse to each other, and no text but the encoding is
// accepted (libathemecore/base64.c:112-293; sections 3.5 and 4 of RFC 4648).
module Base64 {
  import opened Basics

  type Six = v: nat | v < 64

  const PAD: char := '='

  function Char64(v: Six): char {
    if v < 26 then 'A' + v as char
    else if v < 52 then 'a' + (v - 26) as char
    else if v < 62 then '0' + (v - 52) as char
    else if v == 62 then '+' else '/'
  }

  function Val64(c: char): Option<Six> {
    if 'A' <= c <= 'Z' then Some((c - 'A') as nat)
    else if 'a' <= c <= 'z' then Some((c - 'a') as nat + 26)
    else if '0' <= c <= '9' then Some((c - '0') as nat + 52)
    else if c == '+' then Some(62) else if c == '/' then Some(63) else None
  }

  lemma CharVal(v: Six, c: char)
    ensures Val64(Char64(v)) == Some(v) && Char64(v) != PAD && !IsSpace(Char64(v))
    ensures Val64(c) == Some(v) ==> c == Char64(v)
  {
  }

  // The 64 characters in their order (table 1 of RFC 4648).
  const CAPITALS: string := "ABCDEFGHIJKLMNOPQRSTUVWXYZ"
  const LETTERS: string := "abcdefghijklmnopqrstuvwxyz"
  const DIGITS: string := "0123456789"
  const ALPHABET: string := CAPITALS + LETTERS + DIGITS + "+/"

  lemma CapitalsAre(v: nat)
    requires v < 26
    ensures |CAPITALS| == 26 && CAPITALS[v] == 'A' + v as char
  {
  }

  lemma LettersAre(v: nat)
    requires v < 26
    ensures |LETTERS| == 26 && LETTERS[v] == 'a' + v as char
  {
  }

  lemma DigitsAre(v: nat)
    requires v < 10
    ensures |DIGITS| == 10 && DIGITS[v] == '0' + v as char
  {
  }

  lemma PlaceOf(v: Six)
    ensures |ALPHABET| == 64 && Char64(v) == ALPHABET[v]
  {
    hide CAPITALS, LETTERS, DIGITS;
    CapitalsAre(if v < 26 then v else 0);
    LettersAre(if 26 <= v < 52 then v - 26 else 0);
    DigitsAre(if 52 <= v < 62 then v - 52 else 0);
    Joined(CAPITALS, LETTERS, DIGITS, "+/", v);
  }

  lemma Joined(a: string, b: string, c: string, d: string, i: nat)
    requires i < |a| + |b| + |c| + |d|
    ensures (a + b + c + d)[i] ==
      if i < |a| then a[i] else if i < |a| + |b| then b[i - |a|]
      else if i < |a| + |b| + |c| then c[i - |a| - |b|] else d[i - |a| - |b| - |c|]
  {
  }

  // A value is written as the character at its place of the alphabet, and read back from it; nothing
  // else has a value.
  lemma AlphabetIs(v: Six, c: char)
    ensures |ALPHABET| == 64 && Char64(v) == ALPHABET[v]
    ensures Val64(c) == Some(v) <==> c == ALPHABET[v]
    ensures Val64(c).None? <==> c !in ALPHABET
  {
    hide ALPHABET, Char64, Val64;
    CharVal(v, c);
    PlaceOf(v);
    if Val64(c).Some? {
      CharVal(Val64(c).value, c);
      PlaceOf(Val64(c).value);
    } else {
      forall i | 0 <= i < 64 ensures ALPHABET[i] != c {
        PlaceOf(i);
        CharVal(i, c);
      }
    }
  }

  predicate IsSpace(c: char) {
    c == ' ' || '\t' <= c <= '\r'
  }

  // The text without its white space.
  function Dense(s: string): string {
    if s == [] then [] else (if IsSpace(s[0]) then [] else [s[0]]) + Dense(s[1..])
  }

  // ---- encoding ----

  // Four characters for three bytes; one or two bytes at the end are padded.
  function Encode(s: seq<Byte>): string {
    if s == [] then []
    else if |s| == 1 then [Char64(s[0] / 4), Char64(s[0] % 4 * 16), PAD, PAD]
    else if |s| == 2 then [Char64(s[0] / 4), Char64(s[0] % 4 * 16 + s[1] / 16), Char64(s[1] % 16 * 4), PAD]
    else
      [Char64(s[0] / 4), Char64(s[0] % 4 * 16 + s[1] / 16), Char64(s[1] % 16 * 4 + s[2] / 64), Char64(s[2] % 64)]
      + Encode(s[3..])
  }

  // It fails exactly when the text and its terminator do not fit.
  method EncodeTo(src: seq<Byte>, targsize: nat) returns (r: Option<string>)
    ensures r == if |Encode(src)| < targsize then Some(Encode(src)) else None
  {
    hide Encode, Char64;
    var out: string, i := [], 0;
    assert src[0..] == src;
    while |src| - i > 2
      invariant 0 <= i <= |src| && Encode(src) == out + Encode(src[i..])
    {
      var a, b, c := src[i], src[i + 1], src[i + 2];
      EncodeFour(src[i..]);
      assert src[i..][3..] == src[i + 3..];
      i := i + 3;
      if |out| + 4 > targsize {
        return None;
      }
      out := out + [Char64(a / 4), Char64(a % 4 * 16 + b / 16), Char64(b % 16 * 4 + c / 64), Char64(c % 64)];
    }
    ghost var before, rest := out, Encode(src[i..]);
    assert before + rest == Encode(src);
    if i < |src| {
      var left := |src| - i;
      var a: Byte, b: Byte := src[i], if left == 2 then src[i + 1] else 0;
      EncodeEnd(src[i..], a, b);
      if |out| + 4 > targsize {
        return None;
      }
      out := out + [Char64(a / 4), Char64(a % 4 * 16 + b / 16), if left == 1 then PAD else Char64(b % 16 * 4), PAD];
    } else {
      EncodeNone();
      assert src[i..] == [];
      assert before + rest == before;
    }
    if |out| >= targsize {
      return None;
    }
    return Some(out);
  }

  lemma EncodeNone()
    ensures Encode([]) == []
  {
  }

  lemma EncodeFour(s: seq<Byte>)
    requires |s| > 2
    ensures Encode(s) ==
      [Char64(s[0] / 4), Char64(s[0] % 4 * 16 + s[1] / 16), Char64(s[1] % 16 * 4 + s[2] / 64), Char64(s[2] % 64)]
      + Encode(s[3..])
  {
  }

  lemma EncodeEnd(s: seq<Byte>, a: Byte, b: Byte)
    requires |s| == 1 || |s| == 2
    requires a == s[0] && b == if |s| == 2 then s[1] else 0
    ensures Encode(s) ==
      [Char64(a / 4), Char64(a % 4 * 16 + b / 16), if |s| == 1 then PAD else Char64(b % 16 * 4), PAD]
  {
  }

  lemma {:induction false} EncodedLength(s: seq<Byte>)
    ensures |Encode(s)| == (|s| + 2) / 3 * 4
    decreases |s|
  {
    hide Char64;
    if |s| > 2 {
      EncodedLength(s[3..]);
      EncodeFour(s);
    }
  }

  // What four characters stand for: the number their places in the alphabet make, with no bits for a
  // padding.
  function Place(c: char): nat {
    if Val64(c).Some? then Val64(c).value else 0
  }

  function Group(t: string, g: nat): nat
    requires 4 * g + 4 <= |t|
  {
    Place(t[4 * g]) * 0x40000 + Place(t[4 * g + 1]) * 0x1000 + Place(t[4 * g + 2]) * 0x40 + Place(t[4 * g + 3])
  }

  function ByteAt(s: seq<Byte>, i: nat): Byte {
    if i < |s| then s[i] else 0
  }

  lemma FourPlaces(a: Byte, b: Byte, c: Byte)
    ensures a / 4 * 0x40000 + (a % 4 * 16 + b / 16) * 0x1000 + (b % 16 * 4 + c / 64) * 0x40 + c % 64 == a * 0x1_0000 + b * 0x100 + c
  {
    assert a == a / 4 * 4 + a % 4 && b == b / 16 * 16 + b % 16 && c == c / 64 * 64 + c % 64;
  }

  lemma PlaceOfChar(v: Six)
    ensures Place(Char64(v)) == v && Place(PAD) == 0 && Char64(v) != PAD
  {
    CharVal(v, PAD);
  }

  // Each group of four characters stands for the number its three bytes make, the first the highest;
  // the last ones are paddings exactly where there are no bytes.
  lemma {:induction false} GroupsOfFour(s: seq<Byte>, g: nat)
    requires 3 * g < |s|
    ensures |Encode(s)| == (|s| + 2) / 3 * 4 && 4 * g + 4 <= |Encode(s)|
    ensures Group(Encode(s), g) == ByteAt(s, 3 * g) * 0x1_0000 + ByteAt(s, 3 * g + 1) * 0x100 + ByteAt(s, 3 * g + 2)
    ensures Encode(s)[4 * g] != PAD && Encode(s)[4 * g + 1] != PAD
    ensures (Encode(s)[4 * g + 2] == PAD <==> 3 * g + 1 >= |s|) && (Encode(s)[4 * g + 3] == PAD <==> 3 * g + 2 >= |s|)
    decreases g
  {
    hide Char64, Place;
    EncodedLength(s);
    if g > 0 {
      GroupsOfFour(s[3..], g - 1);
      FourthOn(s, g);
    } else {
      FirstGroup(s);
    }
  }

  lemma FourthOn(s: seq<Byte>, g: nat)
    requires 0 < g && 3 * g < |s| && 4 * g + 4 <= |Encode(s)| && 4 * (g - 1) + 4 <= |Encode(s[3..])|
    ensures forall k :: 4 * g <= k < 4 * g + 4 ==> Encode(s)[k] == Encode(s[3..])[k - 4]
  {
    hide Char64, Encode;
    EncodeFour(s);
  }

  lemma FirstGroup(s: seq<Byte>)
    requires 0 < |s| && 4 <= |Encode(s)|
    ensures Group(Encode(s), 0) == ByteAt(s, 0) * 0x1_0000 + ByteAt(s, 1) * 0x100 + ByteAt(s, 2)
    ensures Encode(s)[0] != PAD && Encode(s)[1] != PAD
    ensures (Encode(s)[2] == PAD <==> 1 >= |s|) && (Encode(s)[3] == PAD <==> 2 >= |s|)
  {
    hide Char64, Place, Encode;
    var a, b, c := ByteAt(s, 0), ByteAt(s, 1), ByteAt(s, 2);
    FourPlaces(a, b, c);
    PlaceOfChar(a / 4);
    PlaceOfChar(a % 4 * 16 + b / 16);
    PlaceOfChar(b % 16 * 4 + c / 64);
    PlaceOfChar(c % 64);
    if |s| > 2 {
      EncodeFour(s);
    } else {
      EncodeEnd(s, a, b);
    }
  }

  // ---- decoding ----

  // The rest of a text without white space: bytes so far, characters since the last group of four,
  // and the bits that do not make a byte yet, in the place they have in the next byte.
  function Decode(t: string, out: seq<Byte>, state: nat, part: Byte): Option<seq<Byte>>
    requires state < 4
  {
    if t == [] then (if state == 0 then Some(out) else None)
    else if t[0] == PAD then
      if part == 0 && ((state == 2 && t[1..] == [PAD]) || (state == 3 && t[1..] == [])) then Some(out) else None
    else if Val64(t[0]).None? then None
    else
      var v: nat := Val64(t[0]).value;
      if state == 0 then Decode(t[1..], out, 1, v * 4)
      else if state == 1 then Decode(t[1..], out + [High(part, v / 16)], 2, v % 16 * 16)
      else if state == 2 then Decode(t[1..], out + [High(part, v / 4)], 3, v % 4 * 64)
      else Decode(t[1..], out + [High(part, v)], 0, 0)
  }

  // part |= bits, where the bits of part are zero.
  function High(part: Byte, bits: nat): Byte {
    (part + bits) % 256
  }

  method SkipSpaces(src: string, from: nat) returns (i: nat)
    requires from <= |src|
    ensures from <= i <= |src| && Dense(src[from..]) == Dense(src[i..]) && (i < |src| ==> !IsSpace(src[i]))
  {
    i := from;
    while i < |src| && IsSpace(src[i])
      invariant from <= i <= |src| && Dense(src[from..]) == Dense(src[i..])
    {
      assert src[i..][1..] == src[i + 1..];
      i := i + 1;
    }
  }

  // base64_decode(): the text must decode, and its bytes and the next place must fit.
  method DecodeTo(src: string, targsize: nat) returns (r: Option<seq<Byte>>)
    ensures r.Some? ==> Decode(Dense(src), [], 0, 0) == r
    ensures var d := Decode(Dense(src), [], 0, 0); d.Some? && |d.value| < targsize ==> r == d
  {
    var out: seq<Byte>, state, part: Byte, i := [], 0, 0, 0;
    assert src[0..] == src;
    ghost var whole := Decode(Dense(src), [], 0, 0);
    while i < |src|
      invariant 0 <= i <= |src| && state < 4 && whole == Decode(Dense(src[i..]), out, state, part)
    {
      var c := src[i];
      assert src[i..][1..] == src[i + 1..];
      if IsSpace(c) {
        assert Dense(src[i..]) == Dense(src[i + 1..]);
        i := i + 1;
        continue;
      }
      if c == PAD {
        break;
      }
      var pos := Val64(c);
      if pos.None? {
        return None;
      }
      i := i + 1;
      var v: nat := pos.value;
      DenseNext(src, i - 1);
      ghost var t := Dense(src[i - 1..]);
      assert whole == Decode(t, out, state, part) && Val64(t[0]) == Some(v) && t[0] != PAD && t[1..] == Dense(src[i..]);
      Decoded(t, out, state, part);
      DecodeNext(t, out, state, part, v);
      hide Dense, Val64, High, Decode;
      if |out| + (if state == 1 || state == 2 then 1 else 0) >= targsize {
        return None;
      }
      if state == 0 {
        part, state := v * 4, 1;
      } else if state == 1 {
        out, part, state := out + [High(part, v / 16)], v % 16 * 16, 2;
      } else if state == 2 {
        out, part, state := out + [High(part, v / 4)], v % 4 * 64, 3;
      } else {
        out, part, state := out + [High(part, v)], 0, 0;
      }
    }
    if i == |src| {
      return if state == 0 then Some(out) else None;
    }
    DenseNext(src, i);
    var ok := PadEnds(src, i + 1, state);
    return if ok && part == 0 then Some(out) else None;
  }

  // Behind the first padding character: another one after the second character of a group, and
  // nothing but white space.
  method PadEnds(src: string, from: nat, state: nat) returns (ok: bool)
    requires from <= |src|
    ensures ok <==> (state == 2 && Dense(src[from..]) == [PAD]) || (state == 3 && Dense(src[from..]) == [])
  {
    if state != 2 && state != 3 {
      return false;
    }
    var j := SkipSpaces(src, from);
    if state == 2 {
      if j < |src| {
        DenseNext(src, j);
      }
      if j == |src| || src[j] != PAD {
        return false;
      }
      j := SkipSpaces(src, j + 1);
    }
    if j < |src| {
      DenseNext(src, j);
    }
    return j == |src|;
  }

  // What one character does.
  lemma DecodeNext(t: string, out: seq<Byte>, state: nat, part: Byte, v: nat)
    requires state < 4 && t != [] && t[0] != PAD && v < 64 && Val64(t[0]) == Some(v)
    ensures Decode(t, out, state, part) ==
      if state == 0 then Decode(t[1..], out, 1, v * 4)
      else if state == 1 then Decode(t[1..], out + [High(part, v / 16)], 2, v % 16 * 16)
      else if state == 2 then Decode(t[1..], out + [High(part, v / 4)], 3, v % 4 * 64)
      else Decode(t[1..], out + [High(part, v)], 0, 0)
  {
  }

  lemma DenseNext(s: string, i: nat)
    requires i < |s| && !IsSpace(s[i])
    ensures Dense(s[i..]) != [] && Dense(s[i..])[0] == s[i] && Dense(s[i..])[1..] == Dense(s[i + 1..])
  {
    assert s[i..][1..] == s[i + 1..];
  }

  // What is decoded in the end is no less than what is decoded already; a character behind the
  // second or third makes it more.
  lemma {:induction false} Decoded(t: string, out: seq<Byte>, state: nat, part: Byte)
    requires state < 4
    ensures var d := Decode(t, out, state, part);
      d.Some? ==> |d.value| >= |out| + if t != [] && t[0] != PAD && state != 0 then 1 else 0
    ensures var d := Decode(t, out, state, part);
      d.Some? && t != [] && t[0] != PAD && state == 0 ==> |d.value| >= |out| + 1
  {
    if t != [] && t[0] != PAD && Val64(t[0]).Some? {
      var v: nat := Val64(t[0]).value;
      if state == 0 {
        Decoded(t[1..], out, 1, v * 4);
      } else if state == 1 {
        Decoded(t[1..], out + [High(part, v / 16)], 2, v % 16 * 16);
      } else if state == 2 {
        Decoded(t[1..], out + [High(part, v / 4)], 3, v % 4 * 64);
      } else {
        Decoded(t[1..], out + [High(part, v)], 0, 0);
      }
    }
  }

  // ---- the two directions ----

  lemma Four(a: Byte, b: Byte, c: Byte, t: string, out: seq<Byte>)
    requires |t| >= 4 && t[0] == Char64(a / 4) && t[1] == Char64(a % 4 * 16 + b / 16)
    requires t[2] == Char64(b % 16 * 4 + c / 64) && t[3] == Char64(c % 64)
    ensures Decode(t, out, 0, 0) == Decode(t[4..], out + [a, b, c], 0, 0)
  {
    CharVal(a / 4, PAD);
    CharVal(a % 4 * 16 + b / 16, PAD);
    CharVal(b % 16 * 4 + c / 64, PAD);
    CharVal(c % 64, PAD);
    hide Char64, Val64;
    DecodeNext(t, out, 0, 0, a / 4);
    DecodeNext(t[1..], out, 1, a / 4 * 4, a % 4 * 16 + b / 16);
    BitsBack(a, b, c);
    DecodeNext(t[2..], out + [a], 2, b / 16 * 16, b % 16 * 4 + c / 64);
    DecodeNext(t[3..], out + [a] + [b], 3, c / 64 * 64, c % 64);
    assert out + [a] + [b] + [c] == out + [a, b, c];
  }

  // The bits of three bytes, put together again.
  lemma BitsBack(a: Byte, b: Byte, c: Byte)
    ensures High(a / 4 * 4, (a % 4 * 16 + b / 16) / 16) == a
    ensures (a % 4 * 16 + b / 16) % 16 * 16 == b / 16 * 16 && High(b / 16 * 16, (b % 16 * 4 + c / 64) / 4) == b
    ensures (b % 16 * 4 + c / 64) % 4 * 64 == c / 64 * 64 && High(c / 64 * 64, c % 64) == c
  {
    assert (a % 4 * 16 + b / 16) / 16 == a % 4 && (b % 16 * 4 + c / 64) / 4 == b % 16;
  }

  lemma EndDecodes(s: seq<Byte>, out: seq<Byte>)
    requires |s| == 1 || |s| == 2
    ensures Decode(Encode(s), out, 0, 0) == Some(out + s)
  {
    hide Char64, Val64, Encode, High, IsSpace;
    var a, b: Byte, t := s[0], if |s| == 2 then s[1] else 0, Encode(s);
    EncodeEnd(s, a, b);
    CharVal(a / 4, PAD);
    CharVal(a % 4 * 16 + b / 16, PAD);
    CharVal(b % 16 * 4, PAD);
    BitsBack(a, b, 0);
    DecodeNext(t, out, 0, 0, a / 4);
    DecodeNext(t[1..], out, 1, a / 4 * 4, a % 4 * 16 + b / 16);
    if |s| == 1 {
      assert t[2..][1..] == [PAD] && s == [a];
    } else {
      DecodeNext(t[2..], out + [a], 2, b / 16 * 16, b % 16 * 4);
      assert t[3..][1..] == [] && out + [a] + [b] == out + s;
    }
  }

  // Decoding gives back what was encoded.
  lemma {:induction false} EncodedDecodes(s: seq<Byte>, out: seq<Byte>)
    ensures Decode(Encode(s), out, 0, 0) == Some(out + s)
    decreases |s|
  {
    if s == [] {
      assert out + s == out;
    } else if |s| < 3 {
      EndDecodes(s, out);
    } else {
      var a, b, c := s[0], s[1], s[2];
      EncodeFour(s);
      var t := Encode(s);
      assert t[4..] == Encode(s[3..]);
      hide Encode;
      Four(a, b, c, t, out);
      EncodedDecodes(s[3..], out + [a, b, c]);
      assert out + [a, b, c] + s[3..] == out + s;
    }
  }

  lemma JoinFour(v: nat, w: nat)
    requires v < 64 && w < 4
    ensures High(v * 4, w) / 4 == v && High(v * 4, w) % 4 == w
  {
  }

  lemma JoinSixteen(v: nat, w: nat)
    requires v < 16 && w < 16
    ensures High(v * 16, w) / 16 == v && High(v * 16, w) % 16 == w
  {
  }

  lemma JoinSixtyFour(v: nat, w: nat)
    requires v < 4 && w < 64
    ensures High(v * 64, w) / 64 == v && High(v * 64, w) % 64 == w
  {
  }

  // The characters' values, back from the bytes they were put into.
  lemma BitsApart(v0: Six, v1: Six, v2: Six, v3: Six)
    ensures var a, b, c: nat := High(v0 * 4, v1 / 16), High(v1 % 16 * 16, v2 / 4), High(v2 % 4 * 64, v3);
      a / 4 == v0 && a % 4 * 16 + b / 16 == v1 && b % 16 * 4 + c / 64 == v2 && c % 64 == v3
    ensures v1 % 16 == 0 ==> High(v0 * 4, v1 / 16) % 4 * 16 + 0 / 16 == v1
    ensures v2 % 4 == 0 ==> High(v1 % 16 * 16, v2 / 4) % 16 * 4 == v2
  {
    JoinFour(v0, v1 / 16);
    JoinSixteen(v1 % 16, v2 / 4);
    JoinSixtyFour(v2 % 4, v3);
    hide High;
  }

  // A text that decodes is the encoding of what it decodes to.
  lemma {:induction false} AcceptedIsEncoding(t: string, out: seq<Byte>) returns (s: seq<Byte>)
    requires Decode(t, out, 0, 0).Some?
    ensures t == Encode(s) && Decode(t, out, 0, 0) == Some(out + s)
    decreases |t|
  {
    if t == [] {
      s := [];
      assert out + s == out;
    } else {
      var v0: nat := Val64(t[0]).value;
      var v1: nat := Val64(t[1]).value;
      var a := High(v0 * 4, v1 / 16);
      DecodeNext(t, out, 0, 0, v0);
      DecodeNext(t[1..], out, 1, v0 * 4, v1);
      CharVal(v0, t[0]);
      CharVal(v1, t[1]);
      s := AcceptedGroup(t, out, v0, v1, a);
    }
  }

  lemma {:induction false} AcceptedGroup(t: string, out: seq<Byte>, v0: Six, v1: Six, a: Byte) returns (s: seq<Byte>)
    requires |t| >= 2 && t[0] == Char64(v0) && t[1] == Char64(v1) && a == High(v0 * 4, v1 / 16)
    requires Decode(t, out, 0, 0) == Decode(t[2..], out + [a], 2, v1 % 16 * 16) && Decode(t, out, 0, 0).Some?
    ensures t == Encode(s) && Decode(t, out, 0, 0) == Some(out + s)
    decreases |t|, 1
  {
    hide Encode, Char64, High;
    if t[2] == PAD {
      s := [a];
      EncodedOne(v0, v1);
      assert t == [t[0], t[1]] + t[2..];
    } else {
      var v2: nat := Val64(t[2]).value;
      var b := High(v1 % 16 * 16, v2 / 4);
      DecodeNext(t[2..], out + [a], 2, v1 % 16 * 16, v2);
      CharVal(v2, t[2]);
      s := AcceptedThird(t, out, v0, v1, v2, a, b);
    }
  }

  lemma EncodedOne(v0: Six, v1: Six)
    requires v1 % 16 == 0
    ensures Encode([High(v0 * 4, v1 / 16)]) == [Char64(v0), Char64(v1), PAD, PAD]
  {
    BitsApart(v0, v1, 0, 0);
    EncodeEnd([High(v0 * 4, v1 / 16)], High(v0 * 4, v1 / 16), 0);
  }

  lemma EncodedTwo(v0: Six, v1: Six, v2: Six)
    requires v2 % 4 == 0
    ensures Encode([High(v0 * 4, v1 / 16), High(v1 % 16 * 16, v2 / 4)]) == [Char64(v0), Char64(v1), Char64(v2), PAD]
  {
    BitsApart(v0, v1, v2, 0);
    EncodeEnd([High(v0 * 4, v1 / 16), High(v1 % 16 * 16, v2 / 4)], High(v0 * 4, v1 / 16), High(v1 % 16 * 16, v2 / 4));
  }

  lemma EncodedThree(v0: Six, v1: Six, v2: Six, v3: Six, rest: seq<Byte>)
    ensures Encode([High(v0 * 4, v1 / 16), High(v1 % 16 * 16, v2 / 4), High(v2 % 4 * 64, v3)] + rest)
      == [Char64(v0), Char64(v1), Char64(v2), Char64(v3)] + Encode(rest)
  {
    BitsApart(v0, v1, v2, v3);
    var a, b, c := High(v0 * 4, v1 / 16), High(v1 % 16 * 16, v2 / 4), High(v2 % 4 * 64, v3);
    EncodeFour([a, b, c] + rest);
    assert ([a, b, c] + rest)[3..] == rest;
  }

  lemma {:induction false} AcceptedThird(t: string, out: seq<Byte>, v0: Six, v1: Six, v2: Six, a: Byte, b: Byte) returns (s: seq<Byte>)
    requires |t| >= 3 && t[0] == Char64(v0) && t[1] == Char64(v1) && t[2] == Char64(v2)
    requires a == High(v0 * 4, v1 / 16) && b == High(v1 % 16 * 16, v2 / 4)
    requires Decode(t, out, 0, 0) == Decode(t[3..], out + [a] + [b], 3, v2 % 4 * 64) && Decode(t, out, 0, 0).Some?
    ensures t == Encode(s) && Decode(t, out, 0, 0) == Some(out + s)
    decreases |t|, 0
  {
    hide Encode, Char64, High;
    if t[3] == PAD {
      s := [a, b];
      EncodedTwo(v0, v1, v2);
      assert t == [t[0], t[1], t[2]] + t[3..];
      assert out + [a] + [b] == out + s;
    } else {
      var v3: nat := Val64(t[3]).value;
      var c := High(v2 % 4 * 64, v3);
      DecodeNext(t[3..], out + [a] + [b], 3, v2 % 4 * 64, v3);
      CharVal(v3, t[3]);
      hide Decode, Val64;
      assert t[3..][1..] == t[4..];
      var rest := AcceptedIsEncoding(t[4..], out + [a] + [b] + [c]);
      s := [a, b, c] + rest;
      EncodedThree(v0, v1, v2, v3, rest);
      assert t == [t[0], t[1], t[2], t[3]] + t[4..];
      assert out + [a] + [b] + [c] + rest == out + s;
    }
  }

  // A text decodes to some bytes exactly if, without its white space, it is their encoding.
  lemma CanonicalExactly(src: string, s: seq<Byte>)
    ensures Decode(Dense(src), [], 0, 0) == Some(s) <==> Dense(src) == Encode(s)
  {
    EncodedDecodes(s, []);
    assert [] + s == s;
    if Decode(Dense(src), [], 0, 0) == Some(s) {
      var d := AcceptedIsEncoding(Dense(src), []);
      assert [] + d == d;
    }
  }

  lemma {:induction false} DenseOf(s: string)
    requires forall c <- s :: !IsSpace(c)
    ensures Dense(s) == s
  {
    if s != [] {
      assert s[0] in s && forall c <- s[1..] :: c in s;
      DenseOf(s[1..]);
    }
  }

  lemma {:induction false} EncodeHasNoSpace(s: seq<Byte>)
    ensures forall c <- Encode(s) :: !IsSpace(c)
    decreases |s|
  {
    hide Char64, IsSpace;
    forall v: Six ensures !IsSpace(Char64(v)) {
      CharVal(v, PAD);
    }
    assert !IsSpace(PAD) by { PadIsNoSpace(); }
    if |s| > 2 {
      EncodeHasNoSpace(s[3..]);
      EncodeFour(s);
    }
  }

  lemma PadIsNoSpace()
    ensures !IsSpace(PAD)
  {
  }

  lemma EncodeIsDense(s: seq<Byte>)
    ensures Dense(Encode(s)) == Encode(s)
  {
    EncodeHasNoSpace(s);
    DenseOf(Encode(s));
  }

  // Encoding into a target with room and decoding into one larger than the bytes gives them back;
  // the encoding needs no more room than four characters for three bytes, and a terminator.
  method EncodeAndDecode(src: seq<Byte>, textsize: nat, targsize: nat) returns (r: Option<seq<Byte>>)
    requires |src| < targsize
    ensures r == if (|src| + 2) / 3 * 4 < textsize then Some(src) else None
  {
    EncodedLength(src);
    var text := EncodeTo(src, textsize);
    if text.None? {
      return None;
    }
    EncodeIsDense(src);
    EncodedDecodes(src, []);
    assert [] + src == src;
    r := DecodeTo(text.value, targsize);
  }
}
