// Names as text: irc_ns_name_ntop() prints a name with escapes, irc_ns_name_pton() reads one, and
// reading what was printed gives the same name (RFC 1035 section 5.1; libathemecore/reslib.c:388-478,
// 701-829).
module DnsText {
  import opened Basics
  import opened DnsWire
  import opened DnsPack

  // The bytes of a text.
  const DOT: Byte := 0x2E
  const BACKSLASH: Byte := 0x5C
  const BRACKET: Byte := 0x5B

  predicate Special(c: Byte) {
    c in {0x22, 0x2E, 0x3B, 0x5C, 0x28, 0x29, 0x40, 0x24}
  }

  predicate Printable(c: Byte) {
    0x20 < c < 0x7F
  }

  predicate IsDigit(c: Byte) {
    0x30 <= c <= 0x39
  }

  function Digit(d: nat): Byte
    requires d < 10
  {
    0x30 + d
  }

  // ---- printing ----

  function Escape(c: Byte): seq<Byte> {
    if Special(c) then [BACKSLASH, c]
    else if !Printable(c) then [BACKSLASH, Digit(c / 100), Digit(c % 100 / 10), Digit(c % 10)]
    else [c]
  }

  // What one byte is printed as: behind a backslash if it is one of " . ; \ ( ) @ $, as a backslash and
  // three decimal digits if it is no visible character, and as itself otherwise.
  lemma EscapedExactly(c: Byte)
    ensures c as char in "\".;\\()@$" <==> Escape(c) == ['\\' as Byte, c]
    ensures c <= ' ' as Byte || '~' as Byte < c <==>
      exists x: nat, y: nat, z: nat :: x < 10 && y < 10 && z < 10 && Escape(c) == Threefold(x, y, z) && c == 100 * x + 10 * y + z
    ensures c as char !in "\".;\\()@$" && ' ' as Byte < c <= '~' as Byte <==> Escape(c) == [c]
  {
    if !Printable(c) {
      assert Escape(c) == Threefold(c / 100, c % 100 / 10, c % 10);
    }
  }

  // A backslash and three digits.
  function Threefold(x: nat, y: nat, z: nat): seq<Byte>
    requires x < 10 && y < 10 && z < 10
  {
    ['\\' as Byte, '0' as Byte + x, '0' as Byte + y, '0' as Byte + z]
  }

  function LabelText(l: seq<Byte>): seq<Byte> {
    if l == [] then [] else Escape(l[0]) + LabelText(l[1..])
  }

  // The labels with dots between them.
  function Dotted(name: seq<Label>): seq<Byte> {
    if name == [] then []
    else if |name| == 1 then LabelText(name[0])
    else LabelText(name[0]) + [DOT] + Dotted(name[1..])
  }

  // The root is printed as a dot.
  function TextOf(name: seq<Label>): seq<Byte> {
    if name == [] then [DOT] else Dotted(name)
  }

  // ---- reading ----

  datatype Parsed = Parsed(name: seq<Label>, full: bool)

  // What is left of a text is read behind the labels done and the bytes cur of the next one.
  function Parse(text: seq<Byte>, done: seq<Label>, cur: seq<Byte>): Option<Parsed>
    decreases |text|
  {
    if text == [] then Finish(done, cur, false)
    else if text[0] == BACKSLASH then
      if |text| == 1 then Finish(done, cur, false)
      else if text[1] == BRACKET then None
      else if IsDigit(text[1]) then
        if |text| < 4 || !IsDigit(text[2]) || !IsDigit(text[3]) || Value(text[1], text[2], text[3]) > 255 then None
        else Parse(text[4..], done, cur + [Value(text[1], text[2], text[3])])
      else Parse(text[2..], done, cur + [text[1]])
    else if text[0] == DOT then
      if |text| == 1 then Finish(done, cur, true)
      else if !(1 <= |cur| <= 63) || text[1] == DOT then None
      else Parse(text[1..], done + [cur], [])
    else Parse(text[1..], done, cur + [text[0]])
  }

  function Value(a: Byte, b: Byte, c: Byte): nat
    requires IsDigit(a) && IsDigit(b) && IsDigit(c)
  {
    100 * (a - 0x30) + 10 * (b - 0x30) + (c - 0x30)
  }

  // The end of a text: the last label, and the limit of the whole name.
  function Finish(done: seq<Label>, cur: seq<Byte>, full: bool): Option<Parsed> {
    if |cur| > 63 then None
    else
      var name := if cur == [] then done else done + [cur];
      if LegalName(name) then Some(Parsed(name, full)) else None
  }

  // ---- reading what was printed ----

  lemma ParseEscape(c: Byte, rest: seq<Byte>, done: seq<Label>, cur: seq<Byte>)
    ensures Parse(Escape(c) + rest, done, cur) == Parse(rest, done, cur + [c])
  {
    var text := Escape(c) + rest;
    if Special(c) {
      assert text[2..] == rest;
    } else if !Printable(c) {
      assert text[4..] == rest;
      assert Value(text[1], text[2], text[3]) == c;
    } else {
      assert text[1..] == rest;
    }
  }

  lemma {:induction false} ParseLabel(l: seq<Byte>, rest: seq<Byte>, done: seq<Label>, cur: seq<Byte>)
    ensures Parse(LabelText(l) + rest, done, cur) == Parse(rest, done, cur + l)
    decreases |l|
  {
    hide Parse, Escape;
    if l == [] {
      assert LabelText(l) + rest == rest && cur + l == cur;
    } else {
      ParseEscape(l[0], LabelText(l[1..]) + rest, done, cur);
      ParseLabel(l[1..], rest, done, cur + [l[0]]);
      assert LabelText(l) + rest == Escape(l[0]) + (LabelText(l[1..]) + rest);
      assert cur + [l[0]] + l[1..] == cur + l;
    }
  }

  lemma DottedStart(name: seq<Label>)
    requires name != []
    ensures Dotted(name) != [] && Dotted(name)[0] != DOT
  {
    assert LabelText(name[0]) == Escape(name[0][0]) + LabelText(name[0][1..]);
  }

  lemma ParseDot(rest: seq<Byte>, done: seq<Label>, l: Label)
    requires rest != [] && rest[0] != DOT
    ensures Parse([DOT] + rest, done, l) == Parse(rest, done + [l], [])
  {
    assert ([DOT] + rest)[1..] == rest;
  }

  lemma ParseLast(l: Label, done: seq<Label>)
    requires LegalName(done + [l])
    ensures Parse(LabelText(l), done, []) == Some(Parsed(done + [l], false))
  {
    ParseLabel(l, [], done, []);
    assert LabelText(l) + [] == LabelText(l);
    assert [] + l == l;
    hide LabelText;
  }

  lemma DottedFirst(name: seq<Label>)
    requires |name| > 1
    ensures Dotted(name) == LabelText(name[0]) + ([DOT] + Dotted(name[1..]))
  {
  }

  lemma {:induction false} ParseDotted(name: seq<Label>, done: seq<Label>)
    requires name != [] && LegalName(done + name)
    ensures Parse(Dotted(name), done, []) == Some(Parsed(done + name, false))
    decreases |name|
  {
    hide Parse, LegalName, LabelText;
    var l := name[0];
    if |name| == 1 {
      assert name == [l];
      ParseLast(l, done);
    } else {
      var rest := name[1..];
      DottedStart(rest);
      DottedFirst(name);
      assert done + [l] + rest == done + name;
      hide Dotted;
      ParseDotted(rest, done + [l]);
      ParseDot(Dotted(rest), done, l);
      ParseLabel(l, [DOT] + Dotted(rest), done, []);
      assert [] + l == l;
    }
  }

  // For every legal name, reading its text gives the name back; only the root is fully qualified.
  lemma TextRoundTrip(name: seq<Label>)
    requires LegalName(name)
    ensures Parse(TextOf(name), [], []) == Some(Parsed(name, name == []))
  {
    if name == [] {
      assert Finish([], [], true) == Some(Parsed([], true));
    } else {
      assert [] + name == name;
      ParseDotted(name, []);
    }
  }

  // Different names have different texts.
  lemma TextIsUnique(a: seq<Label>, b: seq<Label>)
    requires LegalName(a) && LegalName(b) && TextOf(a) == TextOf(b)
    ensures a == b
  {
    TextRoundTrip(a);
    TextRoundTrip(b);
  }

  // A text has no byte that would end a C string.
  lemma {:induction false} LabelTextHasNoNul(l: seq<Byte>)
    ensures 0 !in LabelText(l)
  {
    if l != [] {
      LabelTextHasNoNul(l[1..]);
      assert 0 !in Escape(l[0]);
    }
  }

  lemma {:induction false} DottedHasNoNul(name: seq<Label>)
    ensures 0 !in Dotted(name)
  {
    if name != [] {
      LabelTextHasNoNul(name[0]);
      DottedHasNoNul(name[1..]);
    }
  }

  lemma TextHasNoNul(name: seq<Label>)
    ensures 0 !in TextOf(name)
  {
    DottedHasNoNul(name);
  }

  // A name being read is never shorter than what has been read of it.
  lemma {:induction false} ParseGrows(text: seq<Byte>, done: seq<Label>, cur: seq<Byte>)
    requires Parse(text, done, cur).Some?
    ensures |Written(done)| + 1 + |cur| + (if cur == [] then 0 else 1) <= MAXNAME
    decreases |text|
  {
    if text == [] || (|text| == 1 && (text[0] == BACKSLASH || text[0] == DOT)) {
      FinishSize(done, cur, text != [] && text[0] == DOT);
    } else if text[0] == BACKSLASH {
      if IsDigit(text[1]) {
        ParseGrows(text[4..], done, cur + [Value(text[1], text[2], text[3])]);
      } else {
        ParseGrows(text[2..], done, cur + [text[1]]);
      }
    } else if text[0] == DOT {
      ParseGrows(text[1..], done + [cur], []);
      WrittenSnoc(done, cur);
    } else {
      ParseGrows(text[1..], done, cur + [text[0]]);
    }
  }

  lemma FinishSize(done: seq<Label>, cur: seq<Byte>, full: bool)
    requires Finish(done, cur, full).Some?
    ensures |Written(done)| + 1 + |cur| + (if cur == [] then 0 else 1) <= MAXNAME
  {
    if cur != [] {
      WrittenSnoc(done, cur);
    }
  }
}
